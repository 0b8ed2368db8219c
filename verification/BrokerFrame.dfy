/** Frames on the broker's socket: one line, then the end of the stream. */
module BrokerFrame {
  import opened Basics

  const MAX_FRAME_BYTES: nat := 1048576
  const READER_BYTES: nat := 4096

  datatype Ending = Eof | Broken
  datatype FrameResult = Frame(data: Bytes) | TooLarge | Invalid

  // ---------- What a stream means ----------

  ghost predicate HasLineWithin(stream: Bytes, limit: nat) {
    exists i :: 0 <= i < |stream| && i < limit && stream[i] == NEWLINE
  }

  ghost predicate IsSingleFrame(stream: Bytes, ending: Ending, data: Bytes) {
    stream == data + [NEWLINE] && NEWLINE !in data && |data| <= MAX_FRAME_BYTES && ending == Eof
  }

  /** A verdict that depends on the bytes alone, not on how they arrive. */
  ghost predicate Judges(stream: Bytes, ending: Ending, r: FrameResult) {
    match r
    case Frame(data) => IsSingleFrame(stream, ending, data)
    case TooLarge => |stream| > MAX_FRAME_BYTES && !HasLineWithin(stream, MAX_FRAME_BYTES + 1)
    case Invalid =>
      && (|stream| <= MAX_FRAME_BYTES || HasLineWithin(stream, MAX_FRAME_BYTES + 1))
      && forall data: Bytes :: !IsSingleFrame(stream, ending, data)
  }

  lemma FrameIsALine(stream: Bytes, ending: Ending, data: Bytes)
    requires IsSingleFrame(stream, ending, data)
    ensures HasLineWithin(stream, MAX_FRAME_BYTES + 1) && data == stream[..|stream| - 1]
  {
    assert stream[|data|] == NEWLINE;
  }

  /** Exactly one verdict fits a stream. */
  lemma JudgedOnce(stream: Bytes, ending: Ending, r: FrameResult, r': FrameResult)
    requires Judges(stream, ending, r) && Judges(stream, ending, r')
    ensures r == r'
  {
    if r.Frame? { FrameIsALine(stream, ending, r.data); }
    if r'.Frame? { FrameIsALine(stream, ending, r'.data); }
  }

  /** A stream has one first line. */
  lemma SameLine(frame: Bytes, rest: Bytes, data: Bytes)
    requires NEWLINE !in frame
    ensures NEWLINE !in data && frame + [NEWLINE] + rest == data + [NEWLINE] ==> frame == data && rest == []
  {
    if NEWLINE !in data && frame + [NEWLINE] + rest == data + [NEWLINE] {
      var all := data + [NEWLINE];
      assert all[|frame|] == NEWLINE && forall i :: 0 <= i < |data| ==> all[i] == data[i] && data[i] in data;
      assert |frame| == |data|;
      assert frame == all[..|frame|] == data;
    }
  }

  /** The verdict once a line that is not too long has been seen. */
  lemma JudgedLine(stream: Bytes, ending: Ending, frame: Bytes, rest: Bytes)
    requires stream == frame + [NEWLINE] + rest && NEWLINE !in frame && |frame| <= MAX_FRAME_BYTES
    ensures Judges(stream, ending, if rest == [] && ending == Eof then Frame(frame) else Invalid)
  {
    assert stream[|frame|] == NEWLINE;
    if rest != [] || ending != Eof {
      forall data: Bytes ensures !IsSingleFrame(stream, ending, data) {
        SameLine(frame, rest, data);
      }
    } else {
      assert stream == frame + [NEWLINE];
    }
  }

  /** The verdict when no line was seen. */
  lemma JudgedNoLine(stream: Bytes, ending: Ending, frame: Bytes, rest: Bytes)
    requires stream == frame + rest && NEWLINE !in frame
    requires |frame| > MAX_FRAME_BYTES || rest == []
    ensures Judges(stream, ending, if |frame| > MAX_FRAME_BYTES then TooLarge else Invalid)
  {
    if |frame| > MAX_FRAME_BYTES {
      assert forall i :: 0 <= i < |frame| ==> stream[i] == frame[i] && frame[i] in frame;
    } else {
      forall data: Bytes ensures !IsSingleFrame(stream, ending, data) {
        assert NEWLINE in data + [NEWLINE];
        assert stream == frame;
      }
    }
  }

  // ---------- Reading ----------

  datatype Slice = Found | Full | Stopped

  /** A buffered reader.  `stream` is what the peer has sent or will send and the
      reader has not fetched; each fetch brings any part of it. */
  class Reader {
    var pending: Bytes
    var stream: Bytes
    const ending: Ending

    constructor (stream: Bytes, ending: Ending)
      ensures pending == [] && this.stream == stream && this.ending == ending
    {
      pending := [];
      this.stream := stream;
      this.ending := ending;
    }

    ghost function Remaining(): Bytes
      reads this
    {
      pending + stream
    }

    /** Fetches at least one byte unless the stream has ended. */
    method Fill() returns (ok: bool)
      requires |pending| < READER_BYTES
      modifies this
      ensures Remaining() == old(Remaining()) && |pending| <= READER_BYTES
      ensures ok <==> old(stream) != []
      ensures ok ==> |stream| < |old(stream)|
      ensures !ok ==> pending == old(pending) && stream == []
    {
      if stream == [] {
        return false;
      }
      var n: nat :| 1 <= n <= |stream| && |pending| + n <= READER_BYTES;
      pending, stream := pending + stream[..n], stream[n..];
      return true;
    }

    /** Through the next newline, or as much as the buffer holds, or up to the end. */
    method ReadSlice() returns (fragment: Bytes, status: Slice)
      requires |pending| <= READER_BYTES
      modifies this
      ensures |pending| <= READER_BYTES && old(Remaining()) == fragment + Remaining()
      ensures status == Found ==> fragment != [] && fragment[|fragment| - 1] == NEWLINE
                                  && NEWLINE !in fragment[..|fragment| - 1]
      ensures status == Full ==> |fragment| == READER_BYTES && NEWLINE !in fragment
      ensures status == Stopped ==> Remaining() == [] && NEWLINE !in fragment
    {
      while NEWLINE !in pending
        invariant |pending| <= READER_BYTES && Remaining() == old(Remaining())
        decreases |stream|
      {
        if |pending| >= READER_BYTES {
          fragment, pending := pending, [];
          return fragment, Full;
        }
        var ok := Fill();
        if !ok {
          fragment, pending := pending, [];
          return fragment, Stopped;
        }
      }
      var i := IndexOf(pending);
      fragment, pending := pending[..i + 1], pending[i + 1..];
      return fragment, Found;
    }

    method ReadByte() returns (b: Option<Byte>)
      requires |pending| <= READER_BYTES
      modifies this
      ensures |pending| <= READER_BYTES
      ensures b == None <==> old(Remaining()) == []
      ensures b.Some? ==> old(Remaining()) == [b.value] + Remaining()
    {
      if pending == [] {
        var ok := Fill();
        if !ok {
          return None;
        }
      }
      b := Some(pending[0]);
      pending := pending[1..];
    }
  }

  function IndexOf(s: Bytes): (i: nat)
    requires NEWLINE in s
    ensures i < |s| && s[i] == NEWLINE && NEWLINE !in s[..i]
  {
    if s[0] == NEWLINE then 0 else 1 + IndexOf(s[1..])
  }

  /** Whatever parts the bytes come in, the verdict is that of the bytes. */
  method ReadSingleFrame(reader: Reader) returns (r: FrameResult)
    requires reader.pending == []
    modifies reader
    ensures Judges(old(reader.stream), reader.ending, r)
  {
    var frame, refused := ReadLine(reader);
    if refused.Some? {
      return refused.value;
    }
    JudgedLine(old(reader.stream), reader.ending, frame, reader.Remaining());
    if |reader.pending| != 0 {
      return Invalid;
    }
    var next := reader.ReadByte();
    if next.Some? {
      return Invalid;
    }
    r := if reader.ending == Eof then Frame(frame) else Invalid;
  }

  /** The first line, or the verdict when there is none or it is too long.  The loop
      ends with a newline and within the limit, so checking both again never fails. */
  method ReadLine(reader: Reader) returns (frame: Bytes, refused: Option<FrameResult>)
    requires reader.pending == []
    modifies reader
    ensures |reader.pending| <= READER_BYTES
    ensures refused.Some? ==> Judges(old(reader.stream), reader.ending, refused.value)
    ensures refused == None ==> old(reader.stream) == frame + [NEWLINE] + reader.Remaining()
                                && NEWLINE !in frame && |frame| <= MAX_FRAME_BYTES
  {
    ghost var all := reader.stream;
    frame := [];
    while |frame| != MAX_FRAME_BYTES
      invariant |reader.pending| <= READER_BYTES && all == frame + reader.Remaining()
      invariant |frame| <= MAX_FRAME_BYTES && NEWLINE !in frame
      decreases |reader.Remaining()|
    {
      var fragment, status := reader.ReadSlice();
      if |frame| + |fragment| > MAX_FRAME_BYTES + 1 {
        JudgedNoLine(all, reader.ending, frame + fragment[..|fragment| - 1],
                     fragment[|fragment| - 1..] + reader.Remaining());
        return frame, Some(TooLarge);
      }
      frame := frame + fragment;
      if status == Found {
        return frame[..|frame| - 1], None;
      }
      if |frame| > MAX_FRAME_BYTES {
        JudgedNoLine(all, reader.ending, frame, reader.Remaining());
        return frame, Some(TooLarge);
      }
      if status == Stopped {
        JudgedNoLine(all, reader.ending, frame, []);
        return frame, Some(Invalid);
      }
    }
    refused := ReadLast(reader, frame, all);
  }

  /** A frame of full length must be followed by the newline. */
  method ReadLast(reader: Reader, frame: Bytes, ghost all: Bytes) returns (refused: Option<FrameResult>)
    requires |reader.pending| <= READER_BYTES && all == frame + reader.Remaining()
    requires |frame| == MAX_FRAME_BYTES && NEWLINE !in frame
    modifies reader
    ensures |reader.pending| <= READER_BYTES
    ensures refused.Some? ==> Judges(all, reader.ending, refused.value)
    ensures refused == None ==> all == frame + [NEWLINE] + reader.Remaining()
  {
    var last := reader.ReadByte();
    if last == None {
      JudgedNoLine(all, reader.ending, frame, []);
      return Some(Invalid);
    }
    if last.value != NEWLINE {
      JudgedNoLine(all, reader.ending, frame + [last.value], reader.Remaining());
      return Some(TooLarge);
    }
    refused := None;
  }

  // ---------- Writing ----------

  /** A connection to write to; each write takes any part of what it is given, and
      may fail whatever it took. */
  class Writer {
    var written: Bytes

    constructor ()
      ensures written == []
    {
      written := [];
    }

    method Put(data: Bytes) returns (n: nat, ok: bool)
      modifies this
      ensures n <= |data| && written == old(written) + data[..n]
    {
      n :| 0 <= n <= |data|;
      ok :| true;
      written := written + data[..n];
    }
  }

  method WriteAll(writer: Writer, bytes: Bytes) returns (ok: bool)
    modifies writer
    ensures ok ==> writer.written == old(writer.written) + bytes
    ensures old(writer.written) <= writer.written <= old(writer.written) + bytes
  {
    var data := bytes;
    while |data| != 0
      invariant old(writer.written) + bytes == writer.written + data
      invariant old(writer.written) <= writer.written
      decreases |data|
    {
      var n, fine := writer.Put(data);
      data := data[n..];
      if !fine {
        return false;
      }
      if n == 0 {
        return false;
      }
    }
    return true;
  }

  /** What was written as a frame is read back as it was, however it travelled. */
  method Transfer(data: Bytes) returns (sent: bool, r: FrameResult)
    requires |data| <= MAX_FRAME_BYTES && NEWLINE !in data
    ensures sent ==> r == Frame(data)
  {
    var writer := new Writer();
    sent := WriteAll(writer, data + [NEWLINE]);
    var reader := new Reader(writer.written, Eof);
    r := ReadSingleFrame(reader);
    if sent {
      assert writer.written == data + [NEWLINE] + [];
      JudgedLine(writer.written, Eof, data, []);
      JudgedOnce(writer.written, Eof, r, Frame(data));
    }
  }
}
