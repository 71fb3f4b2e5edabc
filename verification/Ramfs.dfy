/** The file array of kernel/rootfs.c: search_file, and appending a file to the children of its parent. */
module Ramfs {
  import opened Cpio
  import opened RootFs

  const ZERO_FILE := File(Zeros(NAME_SIZE), NONE, INVALID, NONE, NoLink)
  const ZERO_INODE := Inode(0, Zeros(8), Zeros(8), 0)

  // ---- chains of children --------------------------------------------------------------

  /** Names are NUL-terminated; every link leads forward, to a file that has been parsed. */
  ghost predicate Orderly(files: seq<File>, n: int) {
    && |files| == FILE_COUNT
    && (forall i :: 0 <= i < FILE_COUNT ==> |files[i].name| == NAME_SIZE && NUL in files[i].name)
    && (forall i :: 0 <= i < FILE_COUNT ==> files[i].next == NONE || i < files[i].next < n)
    && (forall i :: 0 <= i < FILE_COUNT && files[i].link.Child? ==> 0 <= files[i].link.file < n)
  }

  function At(kids: seq<int>, j: nat): int {
    if j < |kids| then kids[j] else NONE
  }

  /** Directory d's children, walked from its first child along next_file, are `kids`. */
  ghost predicate Chain(files: seq<File>, d: int, kids: seq<int>) {
    && 0 <= d < |files|
    && files[d].link == (if kids == [] then NoLink else Child(kids[0]))
    && forall j :: 0 <= j < |kids| ==> 0 <= kids[j] < |files| && files[kids[j]].next == At(kids, j + 1)
  }

  ghost predicate FirstMatch(files: seq<File>, name: Bytes, i: int) {
    0 <= i < |files| && Text(files[i].name) <= name && forall j :: 0 <= j < i ==> !(Text(files[j].name) <= name)
  }

  /** The files after k was appended to the children of p. */
  function Linked(files: seq<File>, p: int, kids: seq<int>, k: int): (r: seq<File>)
    requires 0 <= p < |files| && 0 <= k < |files| && forall j :: 0 <= j < |kids| ==> 0 <= kids[j] < |files|
    ensures |r| == |files|
  {
    var f := files[k := files[k].(parent := p)];
    if kids == [] then f[p := f[p].(link := Child(k))]
    else f[kids[|kids| - 1] := f[kids[|kids| - 1]].(next := k)]
  }

  /** Appending k extends p's chain and leaves every chain that shares nothing with it alone. */
  lemma LinkedChain(files: seq<File>, p: int, kids: seq<int>, k: int)
    requires Chain(files, p, kids) && 0 <= k < |files| && k !in kids && files[k].next == NONE && k != p
    requires forall i, j :: 0 <= i < j < |kids| ==> kids[i] != kids[j]
    ensures Chain(Linked(files, p, kids, k), p, kids + [k])
  {
  }

  lemma OtherChain(files: seq<File>, p: int, kids: seq<int>, k: int, d: int, others: seq<int>)
    requires Chain(files, p, kids) && Chain(files, d, others) && 0 <= k < |files| && d != p
    requires k !in others && forall j :: 0 <= j < |kids| ==> kids[j] !in others
    ensures Chain(Linked(files, p, kids, k), d, others)
  {
    forall j | 0 <= j < |others| ensures Linked(files, p, kids, k)[others[j]].next == files[others[j]].next {
      assert others[j] in others;
    }
  }

  lemma OrderlyMore(files: seq<File>, n: int)
    requires Orderly(files, n)
    ensures Orderly(files, n + 1)
  {
  }

  lemma OneMatch(files: seq<File>, name: Bytes, p: int, q: int)
    requires FirstMatch(files, name, p)
    ensures FirstMatch(files, name, q) ==> p == q
  {
  }

  lemma FoundIsMatch(files: seq<File>, name: Bytes, i: int)
    requires i != NONE ==> FirstMatch(files, name, i)
    ensures i != NONE ==> 0 <= i < |files| && Text(files[i].name) <= name
  {
  }

  lemma ParentDoesNotMatter(files: seq<File>, mid: seq<File>, p: int, kids: seq<int>, k: int)
    requires Chain(files, p, kids) && 0 <= k < |files| && k != p && mid == files[k := files[k].(parent := p)]
    ensures Chain(mid, p, kids)
  {
  }

  class Rootfs {
    const files: array<File>
    const inodes: array<Inode>

    ghost predicate Valid(n: int)
      reads this, files
    {
      Orderly(files[..], n) && inodes.Length == INODE_COUNT
    }

    /** Both arrays live in zeroed memory. */
    constructor ()
      ensures Valid(0) && fresh(files) && fresh(inodes) && files.Length == 256 && inodes.Length == 256
      ensures forall i :: 0 <= i < FILE_COUNT ==> files[i] == ZERO_FILE
      ensures forall i :: 0 <= i < INODE_COUNT ==> inodes[i] == ZERO_INODE
    {
      files := new File[FILE_COUNT](_ => ZERO_FILE);
      inodes := new Inode[INODE_COUNT](_ => ZERO_INODE);
      new;
      assert ZERO_FILE.name[0] == NUL;
    }

    /** search_file: the first file whose name is a prefix of the one sought. */
    method SearchFile(name: Bytes, ghost n: int) returns (i: int)
      requires Valid(n) && |name| == NAME_SIZE
      ensures i == NONE <==> forall j :: 0 <= j < FILE_COUNT ==> !(Text(files[j].name) <= name)
      ensures i != NONE ==> FirstMatch(files[..], name, i)
    {
      i := 0;
      while i < FILE_COUNT
        invariant 0 <= i <= FILE_COUNT
        invariant forall j :: 0 <= j < i ==> !(Text(files[j].name) <= name)
      {
        var found := StrEqual(files[i].name, name);
        if found {
          return;
        }
        i := i + 1;
      }
      i := NONE;
    }

    /** Find the parent of file k and append k to its children. False when the parent is not a directory:
        then the C code would follow an inode pointer as if it were a file. */
    method Attach(k: int, parentName: Bytes, ghost p: int, ghost kids: seq<int>) returns (ok: bool)
      requires Valid(k) && 0 <= k < FILE_COUNT && |parentName| == NAME_SIZE && NUL in parentName
      modifies files
      ensures Valid(k + 1)
      ensures parentName[0] == NUL ==> ok && files[..] == old(files[..])
      ensures parentName[0] != NUL && (forall j :: 0 <= j < 256 ==> !(Text(old(files[..])[j].name) <= parentName)) ==>
        ok && files[..] == old(files[..])[k := old(files[k]).(parent := NONE)]
      ensures (parentName[0] != NUL && FirstMatch(old(files[..]), parentName, p)
               && Chain(old(files[..]), p, kids) && p != k) ==>
        ok && files[..] == Linked(old(files[..]), p, kids, k)
    {
      OrderlyMore(files[..], k);
      if parentName[0] == NUL {
        return true;
      }
      var found := SearchFile(parentName, k);
      FoundIsMatch(files[..], parentName, found);
      files[k] := files[k].(parent := found);
      if found == NONE {
        return true;
      }
      hide FirstMatch;
      ghost var mid := files[..];
      assert mid == old(files[..])[k := old(files[k]).(parent := found)];
      OneMatch(old(files[..]), parentName, found, p);
      ok := Append(k, found, kids);
      if p == found && Chain(old(files[..]), p, kids) && p != k {
        ParentDoesNotMatter(old(files[..]), mid, p, kids, k);
      }
    }

    /** Put k at the end of p's children. */
    method Append(k: int, p: int, ghost kids: seq<int>) returns (ok: bool)
      requires Valid(k) && 0 <= k < FILE_COUNT && 0 <= p < FILE_COUNT
      modifies files
      ensures Valid(k + 1)
      ensures Chain(old(files[..]), p, kids) ==> ok
      ensures Chain(old(files[..]), p, kids) && kids == [] ==>
        files[..] == old(files[..])[p := old(files[p]).(link := Child(k))]
      ensures Chain(old(files[..]), p, kids) && kids != [] ==>
        files[..] == old(files[..])[kids[|kids| - 1] := old(files[..])[kids[|kids| - 1]].(next := k)]
    {
      OrderlyMore(files[..], k);
      match files[p].link
      case Ino(_) => return false;
      case NoLink =>
        files[p] := files[p].(link := Child(k));
        return true;
      case Child(c) =>
        var s := LastSibling(c, k, p, kids);
        files[s] := files[s].(next := k);
        return true;
    }

    /** The sibling walk ends, because next_file only leads forward. */
    method LastSibling(c: int, ghost k: int, ghost p: int, ghost kids: seq<int>) returns (s: int)
      requires Valid(k) && k <= FILE_COUNT && 0 <= p < FILE_COUNT && files[p].link == Child(c)
      ensures c <= s < k && files[s].next == NONE
      ensures Chain(files[..], p, kids) ==> kids != [] && s == kids[|kids| - 1]
    {
      s := c;
      ghost var j := 0;
      while files[s].next != NONE
        invariant 0 <= c <= s < k
        invariant Chain(files[..], p, kids) ==> 0 <= j < |kids| && s == kids[j]
        decreases k - s
      {
        s := files[s].next;
        j := j + 1;
      }
    }
  }
}
