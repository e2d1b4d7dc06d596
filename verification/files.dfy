/**
  The record the eviction pass works on, its recency ordering, and byte totals
  over collections of records.
 */
module Files {

  /** One regular file as seen by the scan. `accessed` is the last-access time
      (any monotone integer clock), `size` its length in bytes and `path` an
      opaque identifier of its location. */
  datatype FileInfo = FileInfo(accessed: int, size: nat, path: nat)

  datatype Ordering = Less | Equal | Greater {
    function Reverse(): Ordering {
      match this
      case Less => Greater
      case Equal => Equal
      case Greater => Less
    }
  }

  /** The total order the candidate heap uses: by last access only. */
  function Cmp(a: FileInfo, b: FileInfo): Ordering {
    if a.accessed < b.accessed then Less
    else if a.accessed == b.accessed then Equal
    else Greater
  }

  /** The ordering is a total preorder in which swapping the operands reverses
      the answer and in which `Greater` means "accessed more recently". */
  lemma CmpIsRecencyOrder(a: FileInfo, b: FileInfo, c: FileInfo)
    ensures Cmp(b, a) == Cmp(a, b).Reverse()
    ensures Cmp(a, b) == Greater <==> b.accessed < a.accessed
    ensures Cmp(a, b) != Greater && Cmp(b, c) != Greater ==> Cmp(a, c) != Greater
  {
  }

  /** Ordering and equality disagree: two different files accessed at the
      same instant compare `Equal`. Which of them the heap yields first is
      therefore not determined by the ordering. */
  lemma EqualOrderingIsNotEquality()
    ensures exists a: FileInfo, b: FileInfo :: a != b && Cmp(a, b) == Equal
  {
    var a := FileInfo(7, 1, 1);
    var b := FileInfo(7, 2, 2);
    assert a != b && Cmp(a, b) == Equal;
  }

  /** Sum of `size` over a sequence of records. */
  function TotalSize(fs: seq<FileInfo>): nat {
    if |fs| == 0 then 0 else TotalSize(fs[..|fs| - 1]) + fs[|fs| - 1].size
  }

  lemma {:induction false} TotalSizeConcat(a: seq<FileInfo>, b: seq<FileInfo>)
    ensures TotalSize(a + b) == TotalSize(a) + TotalSize(b)
    decreases |b|
  {
    if |b| == 0 {
      assert a + b == a;
    } else {
      assert (a + b)[..|a + b| - 1] == a + b[..|b| - 1];
      TotalSizeConcat(a, b[..|b| - 1]);
    }
  }

  /** Removing position `i` takes exactly that record's size off the total. */
  lemma {:induction false} TotalSizeRemove(s: seq<FileInfo>, i: nat)
    requires i < |s|
    ensures TotalSize(s[..i] + s[i + 1..]) + s[i].size == TotalSize(s)
  {
    var pre, post := s[..i], s[i + 1..];
    var upTo := pre + [s[i]];
    assert s == upTo + post;
    assert upTo[..|upTo| - 1] == pre;
    assert TotalSize(upTo) == TotalSize(pre) + s[i].size;
    TotalSizeConcat(upTo, post);
    TotalSizeConcat(pre, post);
  }

  lemma TotalSizeOfOne(x: FileInfo)
    ensures TotalSize([x]) == x.size
  {
    assert [x][..0] == [];
  }

  lemma TotalSizeOfThree(x: FileInfo, y: FileInfo, z: FileInfo)
    ensures TotalSize([x, y, z]) == x.size + y.size + z.size
  {
    assert [x, y, z][..2] == [x, y];
    assert [x, y][..1] == [x];
    TotalSizeOfOne(x);
  }

  lemma TotalSizeCons(f: FileInfo, rest: seq<FileInfo>)
    ensures TotalSize([f] + rest) == f.size + TotalSize(rest)
  {
    TotalSizeConcat([f], rest);
    assert [f][..0] == [];
  }

  lemma MultisetRemoveAt(b: seq<FileInfo>, i: nat)
    requires i < |b|
    ensures multiset(b[..i] + b[i + 1..]) == multiset(b) - multiset{b[i]}
  {
    assert b == b[..i] + [b[i]] + b[i + 1..];
  }

  /** The total size of a collection does not depend on the order of its
      members. */
  lemma {:induction false} TotalSizeOfPermutation(a: seq<FileInfo>, b: seq<FileInfo>)
    requires multiset(a) == multiset(b)
    ensures TotalSize(a) == TotalSize(b)
    decreases |a|
  {
    if |a| > 0 {
      var a', x := a[..|a| - 1], a[|a| - 1];
      MultisetRemoveAt(a, |a| - 1);
      assert a[..|a| - 1] + a[|a|..] == a';
      assert x in multiset(b);
      var i :| 0 <= i < |b| && b[i] == x;
      MultisetRemoveAt(b, i);
      TotalSizeOfPermutation(a', b[..i] + b[i + 1..]);
      TotalSizeRemove(b, i);
    } else {
      assert |multiset(b)| == 0;
    }
  }

  /** A total is positive only if some record is present. */
  lemma TotalSizePositive(s: seq<FileInfo>)
    requires TotalSize(s) > 0
    ensures |s| > 0
  {
  }

  /** The records of `fs` whose path is in `ok`, in their original order. */
  function Keep(fs: seq<FileInfo>, ok: set<nat>): (r: seq<FileInfo>)
    ensures forall f :: multiset(r)[f] == if f.path in ok then multiset(fs)[f] else 0
  {
    if |fs| == 0 then []
    else
      var rest := Keep(fs[1..], ok);
      assert fs == [fs[0]] + fs[1..];
      if fs[0].path in ok then [fs[0]] + rest else rest
  }

  /** The records of `fs` accessed strictly before `cutoff`, in order. */
  function OlderThan(fs: seq<FileInfo>, cutoff: int): (r: seq<FileInfo>)
    ensures multiset(r) <= multiset(fs)
    ensures forall f :: f in r ==> f.accessed < cutoff
    ensures forall f :: f in fs && f.accessed < cutoff ==> f in r
    ensures forall f :: multiset(r)[f] == if f.accessed < cutoff then multiset(fs)[f] else 0
  {
    if |fs| == 0 then []
    else
      var init := OlderThan(fs[..|fs| - 1], cutoff);
      var last := fs[|fs| - 1];
      assert fs == fs[..|fs| - 1] + [last];
      if last.accessed < cutoff then init + [last] else init
  }
}
