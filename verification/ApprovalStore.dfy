/** The approval store with its buffers: command arrays are owned by the store,
    copied on the way in and out, and zeroed before they leave it. */
module ApprovalStore {
  import opened Basics
  import opened ApprovalSpec

  /** A record as it is kept; a tombstone has no command buffer.  `doneClosed`
      stands for the channel that waiters listen on. */
  datatype Stored = Stored(code: string, aliases: seq<string>, command: array?<Byte>, categories: set<string>,
                           limits: Limits, createdAt: int, expiresAt: int, used: bool, decision: Decision,
                           doneClosed: bool)

  /** The snapshot a caller gets. */
  datatype Approval = Approval(id: string, code: string, aliases: seq<string>, command: array?<Byte>,
                               categories: set<string>, limits: Limits, createdAt: int, expiresAt: int, used: bool)

  const NOTHING := Approval("", "", [], null, {}, Limits(0, 0), 0, 0, false)

  ghost predicate IsZero(a: array<Byte>)
    reads a
  {
    forall i :: 0 <= i < a.Length ==> a[i] == 0
  }

  method ZeroBytes(data: array<Byte>)
    modifies data
    ensures IsZero(data)
  {
    var index := 0;
    while index < data.Length
      invariant index <= data.Length
      invariant forall i :: 0 <= i < index ==> data[i] == 0
    {
      data[index] := 0;
      index := index + 1;
    }
  }

  method CloneBytes(data: array<Byte>) returns (copy: array<Byte>)
    ensures fresh(copy) && copy[..] == data[..]
  {
    copy := new Byte[data.Length](i requires 0 <= i < data.Length reads data => data[i]);
  }

  /** Everything of a record but the bytes of its command. */
  predicate Describes(s: Stored, i: Item) {
    && (s.command == null <==> s.used)
    && s.used == i.used && s.code == i.code && s.decision == i.decision
    && s.createdAt == i.createdAt && s.expiresAt == i.expiresAt
    && i.request == Request(s.aliases, if s.command == null then [] else i.request.command, s.categories, s.limits)
    && (s.doneClosed <==> s.decision != Undecided)
    && (s.used ==> s.decision == Undecided)
  }

  /** A snapshot hands over what was asked for. */
  ghost predicate Hands(a: Approval, r: Request)
    reads a.command
  {
    a.command != null && r == Request(a.aliases, a.command[..], a.categories, a.limits)
  }

  ghost function Buffers(items: map<string, Stored>): set<array?<Byte>> {
    (set id | id in items :: items[id].command) - {null}
  }

  ghost predicate Apart(items: map<string, Stored>) {
    forall id, id' :: id in items && id' in items && id != id' && items[id].command != null
      ==> items[id].command != items[id'].command
  }

  lemma BuffersRemoved(items: map<string, Stored>, id: string)
    requires Apart(items) && id in items
    ensures Apart(items - {id}) && Buffers(items - {id}) == Buffers(items) - {items[id].command}
  {
    var t := items - {id};
    forall a | a in Buffers(items) && a != items[id].command ensures a in Buffers(t) {
      var x :| x in items && items[x].command == a;
      assert t[x].command == a;
    }
  }

  lemma BuffersAdded(items: map<string, Stored>, id: string, item: Stored)
    requires Apart(items) && id !in items && item.command != null && item.command !in Buffers(items)
    ensures Apart(items[id := item]) && Buffers(items[id := item]) == Buffers(items) + {item.command}
  {
    var t := items[id := item];
    forall a | a in Buffers(items) ensures a in Buffers(t) {
      var x :| x in items && items[x].command == a;
      assert t[x].command == a;
    }
    assert t[id].command in Buffers(t);
  }

  lemma BuffersKept(items: map<string, Stored>, id: string, item: Stored)
    requires Apart(items) && id in items && item.command == items[id].command
    ensures Apart(items[id := item]) && Buffers(items[id := item]) == Buffers(items)
  {
    var t := items[id := item];
    forall a | a in Buffers(items) ensures a in Buffers(t) {
      var x :| x in items && items[x].command == a;
      assert t[x].command == a;
    }
  }

  lemma BuffersBuried(items: map<string, Stored>, id: string, item: Stored)
    requires Apart(items) && id in items && item.command == null
    ensures Apart(items[id := item]) && Buffers(items[id := item]) == Buffers(items) - {items[id].command}
  {
    var t := items[id := item];
    forall a | a in Buffers(items) && a != items[id].command ensures a in Buffers(t) {
      var x :| x in items && items[x].command == a;
      assert t[x].command == a;
    }
  }

  ghost predicate OldestFirst(r: seq<Approval>) {
    forall i, j :: 0 <= i < j < |r| ==> r[i].createdAt <= r[j].createdAt
  }

  ghost predicate Different(r: seq<Approval>) {
    forall i, j :: 0 <= i < j < |r| ==> r[i].id != r[j].id
  }

  ghost predicate Covers(items: map<string, Stored>, result: seq<Approval>, pending: set<string>) {
    forall id :: id in items && !items[id].used && id !in pending ==>
      exists i :: 0 <= i < |result| && result[i].id == id
  }

  ghost predicate Avoids(result: seq<Approval>, ids: set<string>) {
    forall i :: 0 <= i < |result| ==> result[i].id !in ids
  }

  lemma CoversMore(items: map<string, Stored>, result: seq<Approval>, pending: set<string>, a: Approval)
    requires Covers(items, result, pending) && Avoids(result, pending) && Different(result) && a.id in pending
    ensures Covers(items, result + [a], pending - {a.id}) && Avoids(result + [a], pending - {a.id})
    ensures Different(result + [a])
  {
    forall id | id in items && !items[id].used && id !in pending - {a.id}
      ensures exists i :: 0 <= i < |result + [a]| && (result + [a])[i].id == id
    {
      if id == a.id {
        assert (result + [a])[|result|].id == id;
      } else {
        var i :| 0 <= i < |result| && result[i].id == id;
        assert (result + [a])[i].id == id;
      }
    }
  }

  lemma CoversUsed(items: map<string, Stored>, result: seq<Approval>, pending: set<string>, id: string)
    requires Covers(items, result, pending) && Avoids(result, pending) && id in items && items[id].used
    ensures Covers(items, result, pending - {id}) && Avoids(result, pending - {id})
  {
  }

  function InsertedByAge(r: seq<Approval>, a: Approval): seq<Approval> {
    if r == [] || r[|r| - 1].createdAt <= a.createdAt then r + [a]
    else InsertedByAge(r[..|r| - 1], a) + [r[|r| - 1]]
  }

  function ByAge(r: seq<Approval>): seq<Approval> {
    if r == [] then [] else InsertedByAge(ByAge(r[..|r| - 1]), r[|r| - 1])
  }

  lemma {:induction false} InsertedKeepsAll(r: seq<Approval>, a: Approval)
    ensures multiset(InsertedByAge(r, a)) == multiset(r) + multiset{a}
  {
    if r != [] && !(r[|r| - 1].createdAt <= a.createdAt) {
      assert r == r[..|r| - 1] + [r[|r| - 1]];
      InsertedKeepsAll(r[..|r| - 1], a);
    }
  }

  ghost predicate NoneAfter(r: seq<Approval>, latest: int) {
    forall i :: 0 <= i < |r| ==> r[i].createdAt <= latest
  }

  lemma {:induction false} InsertedNotAfter(r: seq<Approval>, a: Approval, latest: int)
    requires NoneAfter(r, latest) && a.createdAt <= latest
    ensures NoneAfter(InsertedByAge(r, a), latest)
  {
    if r != [] && !(r[|r| - 1].createdAt <= a.createdAt) {
      InsertedNotAfter(r[..|r| - 1], a, latest);
    }
  }

  lemma {:induction false} InsertedInOrder(r: seq<Approval>, a: Approval)
    requires OldestFirst(r)
    ensures OldestFirst(InsertedByAge(r, a))
  {
    if r != [] && !(r[|r| - 1].createdAt <= a.createdAt) {
      InsertedInOrder(r[..|r| - 1], a);
      InsertedNotAfter(r[..|r| - 1], a, r[|r| - 1].createdAt);
    }
  }

  /** Sorting loses and invents nothing. */
  lemma {:induction false} ByAgeSorts(r: seq<Approval>)
    ensures OldestFirst(ByAge(r)) && multiset(ByAge(r)) == multiset(r)
  {
    if r != [] {
      assert r == r[..|r| - 1] + [r[|r| - 1]];
      ByAgeSorts(r[..|r| - 1]);
      InsertedInOrder(ByAge(r[..|r| - 1]), r[|r| - 1]);
      InsertedKeepsAll(ByAge(r[..|r| - 1]), r[|r| - 1]);
    }
  }

  class Store {
    var items: map<string, Stored>
    /** The state machine this store implements. */
    ghost var sys: System
    /** Every command array that is or ever was in the map. */
    ghost var owned: set<array<Byte>>

    /** No two records share a buffer, and arrays that left the map are zero. */
    ghost predicate Buffered()
      reads `items, `owned, owned
    {
      && Apart(items) && Buffers(items) <= owned
      && forall a :: a in owned && a !in Buffers(items) ==> IsZero(a)
    }

    ghost predicate Tracked()
      reads `items, `sys
    {
      && items.Keys == sys.items.Keys
      && (forall id :: id in items ==> Describes(items[id], sys.items[id]))
    }

    ghost predicate Contents()
      reads `items, `sys, `owned, owned
      requires Buffered() && Tracked()
    {
      forall id :: id in items && items[id].command != null ==> items[id].command[..] == sys.items[id].request.command
    }

    ghost predicate Valid()
      reads this, owned
    {
      Buffered() && Tracked() && Contents()
    }

    constructor ()
      ensures Valid() && sys == EMPTY && owned == {}
    {
      items := map[];
      sys := EMPTY;
      owned := {};
    }

    /** Zeroes a record's command and takes the record out of the map. */
    method Discard(id: string)
      requires Valid() && id in items
      modifies `items, `sys, owned
      ensures Valid()
      ensures items == old(items) - {id} && sys == old(sys).(items := old(sys).items - {id})
    {
      var command := items[id].command;
      if command != null {
        ZeroBytes(command);
      }
      BuffersRemoved(items, id);
      items := items - {id};
      sys := sys.(items := sys.items - {id});
    }

    /** Drops every expired record but `except`, in any order. */
    method CleanupLocked(now: int, except: string)
      requires Valid()
      modifies `items, `sys, owned
      ensures Valid()
      ensures sys == old(sys).(items := Cleaned(old(sys).items, now, except))
      ensures forall id :: id in items ==> id in old(items) && items[id] == old(items)[id]
    {
      var ids := items.Keys;
      assert sys.items == CleanedOutside(sys.items, now, except, ids);
      while ids != {}
        invariant Valid() && ids <= items.Keys
        invariant sys == old(sys).(items := CleanedOutside(old(sys).items, now, except, ids))
        invariant forall id :: id in items ==> id in old(items) && items[id] == old(items)[id]
        decreases ids
      {
        var id :| id in ids;
        CleanedStep(old(sys).items, now, except, ids, id);
        if id != except && !(now < items[id].expiresAt) {
          Discard(id);
        }
        ids := ids - {id};
      }
    }

    /** A copy for a caller, which shares no buffer with the store. */
    method CloneApproval(id: string) returns (a: Approval)
      requires Valid() && id in items
      ensures items[id].used <==> a.command == null
      ensures a.command != null ==> fresh(a.command) && Hands(a, sys.items[id].request)
      ensures a.id == id && a.expiresAt == items[id].expiresAt && a.createdAt == items[id].createdAt
      ensures !a.used && a.code == items[id].code
    {
      var item := items[id];
      var copy: array?<Byte> := null;
      if item.command != null {
        copy := CloneBytes(item.command);
      }
      a := Approval(id, item.code, item.aliases, copy, item.categories, item.limits, item.createdAt, item.expiresAt,
                    false);
    }

    /** Records a new approval.  The random source may run dry before or after the
        identifier; the clock is read before the cleanup and again for the record. */
    method CreateBatch(aliases: seq<string>, command: array<Byte>, categories: set<string>, limits: Limits,
                       cleanupAt: int, random: Random, createdAt: int)
      returns (a: Approval, err: Option<Error>, ghost o: Outcome)
      requires Valid() && command !in owned
      modifies this, owned
      ensures Valid() && owned >= old(owned) && fresh(owned - old(owned))
      ensures var e := Event.CreateBatch(Request(aliases, old(command[..]), categories, limits),
                                         cleanupAt, random, createdAt);
              (sys, o) == Step(old(sys), e)
      ensures o == Ok ==> a.command != null && fresh(a.command) && a.command !in owned
                          && Hands(a, Normalized(Request(aliases, old(command[..]), categories, limits)))
      ensures err == ErrorOf(o) && (o != Ok ==> a == NOTHING)
    {
      var normalized := NormalizeAliases(aliases);
      if normalized == [] || command.Length == 0 || command.Length > MAX_COMMAND_BYTES
         || limits.timeout <= 0 || limits.timeout > MAX_TIMEOUT
         || limits.maxOutputBytes <= 0 || limits.maxOutputBytes > MAX_OUTPUT_BYTES {
        return NOTHING, Some(InvalidInput), Err(InvalidInput);
      }
      CleanupLocked(cleanupAt, "");
      a, err, o := Admit(normalized, command, categories, limits, random, createdAt);
    }

    /** The store keeps one copy of the command, the caller gets another. */
    method Admit(aliases: seq<string>, command: array<Byte>, categories: set<string>, limits: Limits,
                 random: Random, createdAt: int) returns (a: Approval, err: Option<Error>, ghost o: Outcome)
      requires Valid()
      modifies `items, `sys, `owned
      ensures Valid() && owned >= old(owned) && fresh(owned - old(owned))
      ensures (sys, o) == Admitted(old(sys), Request(aliases, command[..], categories, limits), random, createdAt)
      ensures o == Ok ==> a.command != null && fresh(a.command) && a.command !in owned
                          && Hands(a, Request(aliases, command[..], categories, limits))
      ensures err == ErrorOf(o) && (o != Ok ==> a == NOTHING)
    {
      assert |items| == |sys.items| by { assert items.Keys == sys.items.Keys; }
      if |items| >= MAX_ENTRIES {
        return NOTHING, Some(Capacity), Err(Capacity);
      }
      if random.NoId? || random.id in items || random.NoCode? {
        return NOTHING, Some(RandomFailed), Err(RandomFailed);
      }
      var own := CloneBytes(command);
      AddRecord(random.id, Stored(random.code, aliases, own, categories, limits, createdAt, createdAt + TTL,
                                  false, Undecided, false));
      var handed := CloneBytes(command);
      a := Approval(random.id, random.code, aliases, handed, categories, limits, createdAt, createdAt + TTL, false);
      err, o := None, Ok;
    }

    /** Puts a record with a buffer of its own under a free identifier. */
    method AddRecord(id: string, item: Stored)
      requires Valid() && id !in items
      requires item.command != null && item.command !in owned && !item.used
      requires item.decision == Undecided && !item.doneClosed && item.expiresAt == item.createdAt + TTL
      modifies `items, `sys, `owned
      ensures Valid()
      ensures owned == old(owned) + {item.command}
      ensures sys == WithRecord(old(sys), id, item.code,
                                Request(item.aliases, item.command[..], item.categories, item.limits), item.createdAt)
    {
      BuffersAdded(items, id, item);
      items := items[id := item];
      owned := owned + {item.command};
      sys := WithRecord(sys, id, item.code, Request(item.aliases, item.command[..], item.categories, item.limits),
                        item.createdAt);
    }

    method Get(id: string) returns (a: Approval, decision: Decision, err: Option<Error>, ghost o: Outcome)
      requires Valid()
      ensures Valid() && (sys, o) == Step(old(sys), Event.Get(id))
      ensures o == Ok ==> decision == sys.items[id].decision
                          && (a.command != null ==> fresh(a.command) && Hands(a, sys.items[id].request))
      ensures err == ErrorOf(o) && (o != Ok ==> a == NOTHING)
    {
      a, decision, err, o := NOTHING, Undecided, Some(InvalidInput), Err(InvalidInput);
      if id == "" {
        return;
      }
      if id !in items {
        return NOTHING, Undecided, Some(NotFound), Err(NotFound);
      }
      a := CloneApproval(id);
      decision, err, o := items[id].decision, None, Ok;
    }

    /** Answers a pending request; the done channel is closed at most once. */
    method Decide(id: string, allow: bool, now: int) returns (err: Option<Error>, ghost o: Outcome)
      requires Valid()
      modifies `items, `sys, owned
      ensures Valid()
      ensures (sys, o) == Step(old(sys), Event.Decide(id, allow, now))
      ensures err == ErrorOf(o)
    {
      if id == "" {
        return Some(InvalidInput), Err(InvalidInput);
      }
      if id !in items {
        return Some(NotFound), Err(NotFound);
      }
      if !(now < items[id].expiresAt) {
        Discard(id);
        return Some(Expired), Err(Expired);
      }
      if items[id].decision != Undecided || items[id].used {
        return Some(Used), Err(Used);
      }
      Announce(id, if allow then Approved else Denied);
      return None, Ok;
    }

    /** Closes the done channel, which must still be open, and notes the decision. */
    method Announce(id: string, decision: Decision)
      requires Valid() && id in items && !items[id].used && !items[id].doneClosed && decision != Undecided
      modifies `items, `sys
      ensures Valid()
      ensures sys == old(sys).(items := old(sys).items[id := old(sys).items[id].(decision := decision)])
    {
      BuffersKept(items, id, items[id].(decision := decision, doneClosed := true));
      items := items[id := items[id].(decision := decision, doneClosed := true)];
      sys := sys.(items := sys.items[id := sys.items[id].(decision := decision)]);
    }

    /** A waiter learns which channel to wait for, and until when. */
    method WaitRegister(id: string) returns (found: bool, expiresAt: int, ghost o: Outcome)
      requires Valid()
      ensures Valid() && (sys, o) == Step(old(sys), Event.WaitRegister(id))
      ensures found <==> o == Ok
      ensures found ==> expiresAt == sys.items[id].expiresAt
    {
      found := id in items;
      expiresAt := if found then items[id].expiresAt else 0;
      o := if found then Ok else Err(NotFound);
    }

    /** The waiter's timer fired first: the record is removed, whoever owns it. */
    method WaitTimeout(id: string)
      requires Valid()
      modifies `items, `sys, owned
      ensures Valid()
      ensures sys == Step(old(sys), Event.WaitTimeout(id)).0
    {
      if id in items {
        Discard(id);
      } else {
        assert sys.items - {id} == sys.items;
      }
    }

    /** The waiter's channel was closed: it takes the record and what was decided. */
    method WaitWake(id: string) returns (a: Approval, allowed: bool, err: Option<Error>, ghost o: Outcome)
      requires Valid()
      modifies `items, `sys, owned
      ensures Valid()
      ensures (sys, o) == Step(old(sys), Event.WaitWake(id))
      ensures allowed <==> o.Granted?
      ensures allowed ==> a.used && a.id == id && a.command != null && fresh(a.command) && a.command !in owned
                          && Hands(a, o.grant.request)
      ensures err == ErrorOf(o) && (!allowed ==> a == NOTHING)
    {
      a, allowed, err, o := NOTHING, false, Some(NotFound), Err(NotFound);
      if id !in items {
        return;
      }
      if items[id].decision == Denied {
        Discard(id);
        return NOTHING, false, None, Refused;
      }
      if items[id].decision != Approved {
        return;
      }
      ghost var grant := Grant(sys.items[id].origin, sys.items[id].request);
      a := CloneApproval(id);
      a := a.(used := true);
      Discard(id);
      sys := sys.(granted := sys.granted + [grant]);
      allowed, err, o := true, None, Granted(grant);
    }

    /** Uses an approval up.  Expiry wins over every other answer. */
    method Consume(id: string, code: string, now: int) returns (a: Approval, err: Option<Error>, ghost o: Outcome)
      requires Valid()
      modifies `items, `sys, owned
      ensures Valid()
      ensures (sys, o) == Step(old(sys), Event.Consume(id, code, now))
      ensures o.Granted? ==> a.used && a.id == id && a.command != null && fresh(a.command) && a.command !in owned
                             && Hands(a, o.grant.request)
      ensures err == ErrorOf(o) && (err != None ==> a == NOTHING)
    {
      if id == "" {
        return NOTHING, Some(InvalidInput), Err(InvalidInput);
      }
      if id in items && !(now < items[id].expiresAt) {
        Discard(id);
        return NOTHING, Some(Expired), Err(Expired);
      }
      CleanupLocked(now, id);
      a, err, o := Claim(id, code);
    }

    method Claim(id: string, code: string) returns (a: Approval, err: Option<Error>, ghost o: Outcome)
      requires Valid()
      modifies `items, `sys, owned
      ensures Valid()
      ensures (sys, o) == Claimed(old(sys), id, code)
      ensures o.Granted? ==> a.used && a.id == id && a.command != null && fresh(a.command) && a.command !in owned
                             && Hands(a, o.grant.request)
      ensures err == ErrorOf(o) && (err != None ==> a == NOTHING)
    {
      if id !in items {
        return NOTHING, Some(NotFound), Err(NotFound);
      }
      if items[id].used {
        return NOTHING, Some(Used), Err(Used);
      }
      if !CodeMatches(items[id].code, code) {
        return NOTHING, Some(WrongCode), Err(WrongCode);
      }
      ghost var grant := Grant(sys.items[id].origin, sys.items[id].request);
      a := CloneApproval(id);
      a := a.(used := true);
      Bury(id);
      sys := sys.(granted := sys.granted + [grant]);
      err, o := None, Granted(grant);
    }

    /** Zeroes an unused record's command and leaves only its tombstone. */
    method Bury(id: string)
      requires Valid() && id in items && !items[id].used
      modifies `items, `sys, owned
      ensures Valid()
      ensures sys == old(sys).(items := old(sys).items[id := Tombstone(old(sys).items[id])])
    {
      ZeroBytes(items[id].command);
      var tombstone := Stored("", [], null, {}, Limits(0, 0), 0, items[id].expiresAt, true, Undecided, false);
      BuffersBuried(items, id, tombstone);
      items := items[id := tombstone];
      sys := sys.(items := sys.items[id := Tombstone(sys.items[id])]);
    }

    method Revoke(id: string) returns (err: Option<Error>, ghost o: Outcome)
      requires Valid()
      modifies `items, `sys, owned
      ensures Valid()
      ensures (sys, o) == Step(old(sys), Event.Revoke(id))
      ensures err == ErrorOf(o)
    {
      if id == "" {
        return Some(InvalidInput), Err(InvalidInput);
      }
      if id !in items {
        return None, Ok;
      }
      if items[id].used {
        return Some(Used), Err(Used);
      }
      Discard(id);
      return None, Ok;
    }

    /** What a listing shows of a record. */
    ghost predicate Shows(a: Approval, includeCommand: bool)
      reads `sys, a.command
    {
      && a.id in sys.items && !sys.items[a.id].used
      && a.createdAt == sys.items[a.id].createdAt && (a.used <==> sys.items[a.id].decision != Undecided)
      && (a.command != null <==> includeCommand)
      && (includeCommand ==> Hands(a, sys.items[a.id].request))
    }

    /** A copy for a listing: the command only when asked for, and `used` telling
        whether the request was answered. */
    method Listed(id: string, includeCommand: bool) returns (a: Approval)
      requires Valid() && id in items && !items[id].used
      ensures a.id == id && Shows(a, includeCommand) && (a.command != null ==> fresh(a.command))
    {
      a := CloneApproval(id);
      if !includeCommand {
        ZeroBytes(a.command);
        a := a.(command := null);
      }
      a := a.(used := items[id].decision != Undecided);
    }

    /** Every unused record once, oldest first. */
    method List(includeCommand: bool, now: int) returns (result: seq<Approval>, ghost found: seq<Approval>)
      requires Valid()
      modifies `items, `sys, owned
      ensures Valid() && sys == Step(old(sys), Event.List(now)).0
      ensures result == ByAge(found) && Different(found) && Covers(items, found, {})
      ensures forall a :: a in found ==> Shows(a, includeCommand) && (a.command != null ==> fresh(a.command))
    {
      CleanupLocked(now, "");
      var collected := Collect(includeCommand);
      found := collected;
      result := ByAge(collected);
    }

    method Collect(includeCommand: bool) returns (result: seq<Approval>)
      requires Valid()
      ensures Different(result) && Covers(items, result, {})
      ensures forall a :: a in result ==> Shows(a, includeCommand) && (a.command != null ==> fresh(a.command))
    {
      result := [];
      var ids := items.Keys;
      while ids != {}
        invariant ids <= items.Keys
        invariant Different(result) && Covers(items, result, ids) && Avoids(result, ids)
        invariant forall i :: 0 <= i < |result| ==>
                    Shows(result[i], includeCommand) && (result[i].command != null ==> fresh(result[i].command))
        decreases ids
      {
        var id :| id in ids;
        if !items[id].used {
          var a := Listed(id, includeCommand);
          CoversMore(items, result, ids, a);
          result := result + [a];
        } else {
          CoversUsed(items, result, ids, id);
        }
        ids := ids - {id};
      }
    }
  }

  /** Any interleaving of callers: the store goes through exactly the states of the
      machine, every success hands over the command that was asked for at one
      creation, and no two successes go back to the same creation. */
  method Drive(events: seq<Event>) returns (store: Store, handed: seq<Bytes>)
    ensures fresh(store) && fresh(store.owned) && store.Valid()
    ensures store.sys == Run(EMPTY, events)
    ensures |handed| == |store.sys.granted|
    ensures forall i :: 0 <= i < |handed| ==>
              && store.sys.granted[i].origin < |store.sys.created|
              && handed[i] == store.sys.created[store.sys.granted[i].origin].command
    ensures forall i, j :: 0 <= i < j < |handed| ==> store.sys.granted[i].origin != store.sys.granted[j].origin
  {
    store, handed := DriveAll(events);
    SingleUseAndBinding(events);
  }

  lemma RunTakes(events: seq<Event>, n: nat)
    requires n < |events|
    ensures Run(EMPTY, events[..n + 1]) == Step(Run(EMPTY, events[..n]), events[n]).0
  {
    assert events[..n + 1][..n] == events[..n];
  }

  method DriveAll(events: seq<Event>) returns (store: Store, handed: seq<Bytes>)
    ensures fresh(store) && fresh(store.owned) && store.Valid()
    ensures store.sys == Run(EMPTY, events) && HandedOver(handed, store.sys.granted)
  {
    store := new Store();
    handed := [];
    var n := 0;
    while n < |events|
      invariant n <= |events|
      invariant fresh(store) && fresh(store.owned) && store.Valid()
      invariant store.sys == Run(EMPTY, events[..n]) && HandedOver(handed, store.sys.granted)
    {
      RunTakes(events, n);
      handed := Advance(store, events[n], handed);
      n := n + 1;
    }
    assert events[..n] == events;
  }

  method Advance(store: Store, e: Event, handed: seq<Bytes>) returns (more: seq<Bytes>)
    requires store.Valid() && HandedOver(handed, store.sys.granted)
    modifies store, store.owned
    ensures store.Valid() && fresh(store.owned - old(store.owned))
    ensures store.sys == Step(old(store.sys), e).0 && HandedOver(more, store.sys.granted)
  {
    StepGrants(store.sys, e);
    var some := Dispatch(store, e);
    more := match some case None => handed case Some(command) => handed + [command];
  }

  ghost predicate HandedOver(handed: seq<Bytes>, granted: seq<Grant>) {
    |handed| == |granted| && forall i :: 0 <= i < |handed| ==> handed[i] == granted[i].request.command
  }

  method DispatchCreation(store: Store, r: Request, cleanupAt: int, random: Random, createdAt: int)
    requires store.Valid()
    modifies store, store.owned
    ensures store.Valid() && fresh(store.owned - old(store.owned)) && store.owned >= old(store.owned)
    ensures store.sys == Step(old(store.sys), Event.CreateBatch(r, cleanupAt, random, createdAt)).0
  {
    var command := new Byte[|r.command|](i requires 0 <= i < |r.command| => r.command[i]);
    assert command[..] == r.command;
    var _, _, o := store.CreateBatch(r.aliases, command, r.categories, r.limits, cleanupAt, random, createdAt);
  }

  /** One caller's critical section. */
  method Dispatch(store: Store, e: Event) returns (handed: Option<Bytes>)
    requires store.Valid()
    modifies store, store.owned
    ensures store.Valid() && fresh(store.owned - old(store.owned)) && store.owned >= old(store.owned)
    ensures store.sys == Step(old(store.sys), e).0
    ensures var o := Step(old(store.sys), e).1;
            handed == if o.Granted? then Some(o.grant.request.command) else None
  {
    handed := None;
    match e
    case CreateBatch(r, cleanupAt, random, createdAt) => DispatchCreation(store, r, cleanupAt, random, createdAt);
    case List(now) => var _, _ := store.List(true, now);
    case Get(id) => var _, _, _, o := store.Get(id);
    case Decide(id, allow, now) => var _, o := store.Decide(id, allow, now);
    case WaitRegister(id) => var _, _, o := store.WaitRegister(id);
    case WaitTimeout(id) => store.WaitTimeout(id);
    case WaitWake(id) =>
      var a, allowed, _, o := store.WaitWake(id);
      if allowed { handed := Some(a.command[..]); }
    case Consume(id, code, now) =>
      var a, err, o := store.Consume(id, code, now);
      if err == None { handed := Some(a.command[..]); }
    case Revoke(id) => var _, o := store.Revoke(id);
  }
}
