/** The audit directory as the file system sees it: names are hard links to
    inodes, inodes hold bytes.  Each function below is one system call. */
module AuditDirectory {
  import opened Basics

  type Inode = nat

  /** Every file name the logger builds, plus the names it never touches. */
  datatype Name =
    | Canonical(index: nat)
    | Source(index: nat)
    | Missing(index: nat)
    | Work(index: nat)
    | New
    | Proof
    | Marker
    | Other(tag: string)

  predicate IsStaging(n: Name) {
    !n.Canonical? && !n.Other?
  }

  /** `next` bounds the inodes that were ever allocated, so that a created file
      is a file that nothing else links to. */
  datatype Directory = Directory(names: map<Name, Inode>, files: map<Inode, Bytes>, next: Inode) {

    ghost predicate WellFormed() {
      && (forall n :: n in names ==> names[n] in files)
      && (forall i :: i in files ==> i < next)
    }

    /** The file a log slot names: slot 0 is the current log, slot i backup i. */
    function Slot(i: nat): Option<Inode> {
      if Canonical(i) in names then Some(names[Canonical(i)]) else None
    }

    /** No rotation is in progress and nothing of one is left over. */
    ghost predicate Quiet() {
      forall n :: n in names ==> !IsStaging(n)
    }

    predicate CanLink(from: Name, to: Name) {
      from in names && to !in names
    }

    function Linked(from: Name, to: Name): Directory
      requires CanLink(from, to)
    {
      this.(names := names[to := names[from]])
    }

    /** POSIX.1 rename(): two links to one file are left as they are. */
    function Renamed(from: Name, to: Name): Directory
      requires from in names
    {
      if to in names && names[to] == names[from] then this
      else this.(names := (names - {from})[to := names[from]])
    }

    function Removed(n: Name): Directory {
      this.(names := names - {n})
    }

    /** open(O_CREAT|O_EXCL): a new empty file under a name that was free. */
    function Created(n: Name): Directory
      requires n !in names
    {
      Directory(names[n := next], files[next := []], next + 1)
    }

    function Stored(i: Inode, content: Bytes): Directory
      requires i in files
    {
      this.(files := files[i := content])
    }
  }
}
