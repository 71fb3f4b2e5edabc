/** Printing an archive and parsing it back: the file array, inode array and directory chains that
    init_ramfs builds describe exactly the entries that were printed. */
module Newc {
  import opened Cpio
  import opened RootFs
  import opened Ramfs

  // ---- what an archive says ------------------------------------------------------------

  /** Members with contents among the first n. */
  function NonEmpty(entries: seq<Entry>, n: nat): nat
    requires n <= |entries|
  {
    if n == 0 then 0 else NonEmpty(entries, n - 1) + if !entries[n - 1].isDir && entries[n - 1].data != [] then 1 else 0
  }

  predicate IsChild(entries: seq<Entry>, k: int, d: int)
    requires 0 <= k < |entries| && 0 <= d < |entries|
  {
    ParentName(entries[k].path) != [] && ParentName(entries[k].path) == Base(entries[d].path)
  }

  /** The children of entry d among the first n, in archive order. */
  function Kids(entries: seq<Entry>, d: int, n: nat): seq<int>
    requires n <= |entries| && 0 <= d < |entries|
  {
    if n == 0 then [] else Kids(entries, d, n - 1) + if IsChild(entries, n - 1, d) then [n - 1] else []
  }

  /** At most 256 entries and 128 non-empty files, base names none of which is a prefix of another,
      and every parent a directory printed earlier. */
  ghost predicate GoodArchive(entries: seq<Entry>) {
    && |entries| <= FILE_COUNT && NonEmpty(entries, |entries|) <= 128
    && (forall k :: 0 <= k < |entries| ==> EntryOK(entries[k]))
    && (forall i, j :: 0 <= i < |entries| && 0 <= j < |entries| && i != j ==>
          !(Base(entries[i].path) <= Base(entries[j].path)))
    && (forall k :: 0 <= k < |entries| && ParentName(entries[k].path) != [] ==>
          exists d :: 0 <= d < k && IsChild(entries, k, d) && entries[d].isDir)
  }

  /** Listed in archive order, and nothing but children. */
  ghost predicate InOrder(entries: seq<Entry>, d: int, n: nat, kids: seq<int>)
    requires n <= |entries| && 0 <= d < |entries|
  {
    && (forall j :: 0 <= j < |kids| ==> 0 <= kids[j] < n && IsChild(entries, kids[j], d))
    && (forall i, j :: 0 <= i < j < |kids| ==> kids[i] < kids[j])
  }

  lemma {:induction false} KidsInOrder(entries: seq<Entry>, d: int, n: nat)
    requires n <= |entries| && 0 <= d < |entries|
    ensures InOrder(entries, d, n, Kids(entries, d, n))
  {
    if n > 0 {
      KidsInOrder(entries, d, n - 1);
      var front := Kids(entries, d, n - 1);
      assert Kids(entries, d, n) == front + if IsChild(entries, n - 1, d) then [n - 1] else [];
      hide Kids, IsChild;
      if IsChild(entries, n - 1, d) {
        InOrderLonger(entries, d, n, front);
      } else {
        assert front + [] == front;
      }
    }
  }

  lemma InOrderLonger(entries: seq<Entry>, d: int, n: nat, front: seq<int>)
    requires 0 < n <= |entries| && 0 <= d < |entries| && InOrder(entries, d, n - 1, front) && IsChild(entries, n - 1, d)
    ensures InOrder(entries, d, n, front + [n - 1])
  {
    hide IsChild;
    var kids := front + [n - 1];
    forall j | 0 <= j < |kids| ensures 0 <= kids[j] < n && IsChild(entries, kids[j], d) {
      if j < |front| {
        assert kids[j] == front[j];
      }
    }
  }

  /** Every child is listed. */
  lemma {:induction false} KidsComplete(entries: seq<Entry>, d: int, n: nat, k: nat)
    requires n <= |entries| && 0 <= d < |entries| && k < n && IsChild(entries, k, d)
    ensures k in Kids(entries, d, n)
  {
    hide IsChild;
    var front := Kids(entries, d, n - 1);
    if k < n - 1 {
      KidsComplete(entries, d, n - 1, k);
      hide Kids;
      assert k in front + if IsChild(entries, n - 1, d) then [n - 1] else [];
    }
  }

  lemma {:induction false} NonEmptyMonotone(entries: seq<Entry>, m: nat, n: nat)
    requires m <= n <= |entries|
    ensures NonEmpty(entries, m) <= NonEmpty(entries, n)
    decreases n
  {
    if m < n {
      NonEmptyMonotone(entries, m, n - 1);
    }
  }

  // ---- what the arrays say -------------------------------------------------------------

  /** The inode that receives the data of entry k. */
  function InodeOf(entries: seq<Entry>, k: nat): int
    requires k < |entries|
  {
    2 * NonEmpty(entries, k + 1) - 1
  }

  /** File k carries the base name, type and contents of entry k. */
  ghost predicate FileIs(files: seq<File>, inodes: seq<Inode>, entries: seq<Entry>, k: nat)
    requires k < |entries|
  {
    var e := entries[k];
    && k < |files| && |Base(e.path)| < NAME_SIZE && files[k].name == Pad16(Base(e.path))
    && files[k].ftype == (if e.isDir then DIRECTORY else REGULAR)
    && (ParentName(e.path) == [] ==> files[k].parent == NONE && files[k].next == NONE)
    && (ParentName(e.path) != [] ==> 0 <= files[k].parent < k && IsChild(entries, k, files[k].parent))
    && (!e.isDir && e.data != [] ==>
          var i := InodeOf(entries, k);
          && files[k].link == Ino(i) && 0 <= i < |inodes|
          && inodes[i].data == Position(entries, k) + NameEnd(e) && inodes[i].size == |e.data|)
    && (!e.isDir && e.data == [] ==> !files[k].link.Child?)
  }

  /** The first n entries have been parsed: files in order, every directory's chain its children, the rest untouched. */
  ghost predicate Described(files: seq<File>, inodes: seq<Inode>, entries: seq<Entry>, n: nat)
    requires n <= |entries|
  {
    && |files| == FILE_COUNT && |inodes| == INODE_COUNT && n <= FILE_COUNT
    && (forall k :: 0 <= k < n ==> FileIs(files, inodes, entries, k))
    && (forall d :: 0 <= d < n && entries[d].isDir ==> Chain(files, d, Kids(entries, d, n)))
    && (forall k :: n <= k < FILE_COUNT ==> files[k] == ZERO_FILE)
  }

  // ---- looking up the parent -----------------------------------------------------------

  lemma PrefixOfPad(a: Bytes, b: Bytes)
    requires NUL !in a && |b| < NAME_SIZE && a <= Pad16(b)
    ensures a <= b
  {
    forall i | 0 <= i < |a| ensures i < |b| && a[i] == b[i] {
      assert a[i] == Pad16(b)[i] && a[i] in a;
    }
    if a != [] {
      var last := a[|a| - 1];
      assert |a| <= |b|;
    }
    assert a == b[..|a|];
  }

  lemma {:induction false} SplitNulFree(path: Bytes)
    requires NUL !in path
    ensures forall i :: 0 <= i < |Split(path)| ==> NUL !in Split(path)[i]
  {
    if path != [] {
      SplitNulFree(path[..|path| - 1]);
    }
  }

  lemma NamesFit(e: Entry)
    requires EntryOK(e)
    ensures 1 <= |Base(e.path)| < NAME_SIZE && |ParentName(e.path)| < NAME_SIZE
    ensures NUL !in Base(e.path) && NUL !in ParentName(e.path)
  {
    SplitNulFree(e.path);
  }

  /** The search for the parent of entry n stops at the parent: no earlier name is a prefix of its name. */
  lemma ParentFound(files: seq<File>, entries: seq<Entry>, n: nat, d: nat)
    requires GoodArchive(entries) && n < |entries| && d < n && IsChild(entries, n, d) && |files| == FILE_COUNT
    requires forall k :: 0 <= k < n ==>
      |Base(entries[k].path)| < NAME_SIZE && files[k].name == Pad16(Base(entries[k].path))
    ensures |ParentName(entries[n].path)| < NAME_SIZE && FirstMatch(files, Pad16(ParentName(entries[n].path)), d)
  {
    var name := ParentName(entries[n].path);
    assert EntryOK(entries[d]);
    NamesFit(entries[d]);
    TextOfPad(name);
    forall j | 0 <= j < d ensures !(Text(files[j].name) <= Pad16(name)) {
      assert EntryOK(entries[j]);
      NamesFit(entries[j]);
      TextOfPad(Base(entries[j].path));
      if Base(entries[j].path) <= Pad16(name) {
        PrefixOfPad(Base(entries[j].path), name);
      }
    }
  }

  // ---- one more entry ------------------------------------------------------------------

  /** The parent of entry n, if its path names one. */
  ghost predicate ParentOf(entries: seq<Entry>, n: nat, p: int)
    requires n < |entries|
  {
    if ParentName(entries[n].path) == [] then p == NONE
    else 0 <= p < n && IsChild(entries, n, p) && entries[p].isDir
  }

  /** The file array once entry n has been linked in and its record is `f`. */
  function Extended(files: seq<File>, n: int, p: int, kids: seq<int>, f: File): seq<File>
    requires 0 <= n < |files| && (p != NONE ==> 0 <= p < |files|) && forall j :: 0 <= j < |kids| ==>
      0 <= kids[j] < |files|
  {
    (if p == NONE then files else Linked(files, p, kids, n))[n := f]
  }

  lemma DistinctBases(entries: seq<Entry>, i: int, j: int)
    requires GoodArchive(entries) && 0 <= i < |entries| && 0 <= j < |entries| && i != j
    ensures Base(entries[i].path) != Base(entries[j].path)
  {
    hide Base, ParentName, EntryOK;
  }

  lemma {:induction false} KidsNone(entries: seq<Entry>, d: int, n: nat)
    requires n <= |entries| && 0 <= d < |entries| && forall k :: 0 <= k < n ==> !IsChild(entries, k, d)
    ensures Kids(entries, d, n) == []
  {
    if n > 0 {
      KidsNone(entries, d, n - 1);
    }
  }

  /** A directory is printed before its children. */
  lemma NoEarlyKids(entries: seq<Entry>, n: nat)
    requires GoodArchive(entries) && n < |entries|
    ensures Kids(entries, n, n + 1) == []
  {
    hide Base, ParentName, EntryOK, Kids;
    forall k | 0 <= k < n + 1 ensures !IsChild(entries, k, n) {
      if ParentName(entries[k].path) != [] {
        var d :| 0 <= d < k && IsChild(entries, k, d) && entries[d].isDir;
        DistinctBases(entries, d, n);
      }
    }
    KidsNone(entries, n, n + 1);
  }

  /** What linking entry n in does to an earlier file: nothing, a first child, or a next sibling. */
  lemma ExtendedAt(files: seq<File>, n: int, p: int, kids: seq<int>, f: File, k: int)
    requires 0 <= k < n < |files| && (p != NONE ==> 0 <= p < n) && forall j :: 0 <= j < |kids| ==> 0 <= kids[j] < n
    ensures var g := Extended(files, n, p, kids, f)[k];
      if p != NONE && kids == [] && k == p then g == files[k].(link := Child(n))
      else if p != NONE && kids != [] && k == kids[|kids| - 1] then g == files[k].(next := n)
      else g == files[k]
  {
  }

  /** Setting the record of a file whose next_file is NULL anyway. */
  lemma ChainSet(files: seq<File>, d: int, kids: seq<int>, n: int, f: File)
    requires Chain(files, d, kids) && 0 <= n < |files| && d != n && f.next == files[n].next
    ensures Chain(files[n := f], d, kids)
  {
  }

  ghost function Siblings(entries: seq<Entry>, p: int, n: nat): (kids: seq<int>)
    requires n <= |entries| && (p != NONE ==> 0 <= p < |entries|)
    ensures forall j :: 0 <= j < |kids| ==> 0 <= kids[j] < n
    ensures forall i, j :: 0 <= i < j < |kids| ==> kids[i] < kids[j]
    ensures forall j :: 0 <= j < |kids| ==> p != NONE && IsChild(entries, kids[j], p)
  {
    if p == NONE then [] else KidsInOrder(entries, p, n); Kids(entries, p, n)
  }

  lemma OwnChain(files: seq<File>, entries: seq<Entry>, n: nat, p: int, f: File)
    requires n < |entries| && 0 <= p < n < |files| && IsChild(entries, n, p) && Chain(files, p, Kids(entries, p, n))
    requires files[n].next == NONE == f.next
    ensures Chain(Extended(files, n, p, Siblings(entries, p, n), f), p, Kids(entries, p, n + 1))
  {
    var kids := Siblings(entries, p, n);
    LinkedChain(files, p, kids, n);
    assert Kids(entries, p, n + 1) == kids + [n];
    ChainSet(Linked(files, p, kids, n), p, kids + [n], n, f);
  }

  lemma ApartKids(entries: seq<Entry>, n: nat, p: int, d: int, kids: seq<int>, mine: seq<int>)
    requires n <= |entries| && 0 <= p < |entries| && 0 <= d < |entries|
    requires Base(entries[p].path) != Base(entries[d].path)
    requires InOrder(entries, p, n, kids) && InOrder(entries, d, n, mine)
    ensures forall j :: 0 <= j < |kids| ==> kids[j] !in mine
  {
    hide Base, ParentName;
    forall j | 0 <= j < |kids| ensures kids[j] !in mine {
      assert IsChild(entries, kids[j], p);
    }
  }

  lemma ForeignChain(files: seq<File>, entries: seq<Entry>, n: nat, p: int, f: File, d: nat)
    requires GoodArchive(entries) && n < |entries| && n < |files| && d < n && d != p && ParentOf(entries, n, p)
    requires Chain(files, d, Kids(entries, d, n)) && (p != NONE ==> Chain(files, p, Kids(entries, p, n)))
    requires files[n].next == NONE == f.next && !IsChild(entries, n, d)
    ensures Chain(Extended(files, n, p, Siblings(entries, p, n), f), d, Kids(entries, d, n + 1))
  {
    var kids, mine := Siblings(entries, p, n), Kids(entries, d, n);
    KidsInOrder(entries, d, n);
    assert n !in mine;
    assert Kids(entries, d, n + 1) == mine + [] == mine;
    if p != NONE {
      DistinctBases(entries, p, d);
      KidsInOrder(entries, p, n);
      hide Base, ParentName, GoodArchive, Chain, Linked, InOrder, IsChild;
      assert kids == Kids(entries, p, n);
      ApartKids(entries, n, p, d, kids, mine);
      OtherChain(files, p, kids, n, d, mine);
      LinkedElsewhere(files, p, kids, n);
      ChainSet(Linked(files, p, kids, n), d, mine, n, f);
    } else {
      ChainSet(files, d, mine, n, f);
    }
  }

  lemma LinkedElsewhere(files: seq<File>, p: int, kids: seq<int>, n: int)
    requires 0 <= p < n < |files| && forall j :: 0 <= j < |kids| ==> 0 <= kids[j] < n
    ensures |Linked(files, p, kids, n)| == |files| && Linked(files, p, kids, n)[n].next == files[n].next
  {
  }

  lemma NewChain(files: seq<File>, entries: seq<Entry>, n: nat, p: int, f: File)
    requires GoodArchive(entries) && n < |entries| && n < |files| && ParentOf(entries, n, p) && f.link == NoLink
    ensures Chain(Extended(files, n, p, Siblings(entries, p, n), f), n, Kids(entries, n, n + 1))
  {
    NoEarlyKids(entries, n);
  }

  /** Every directory's chain lists exactly its children after entry n as well. */
  lemma ChainsExtended(files: seq<File>, inodes: seq<Inode>, entries: seq<Entry>, n: nat, p: int, f: File, d: nat)
    requires GoodArchive(entries) && n < |entries| && Described(files, inodes, entries, n) && ParentOf(entries, n, p)
    requires f.next == NONE && d <= n && entries[d].isDir && (entries[n].isDir ==> f.link == NoLink)
    ensures Chain(Extended(files, n, p, Siblings(entries, p, n), f), d, Kids(entries, d, n + 1))
  {
    assert n < |files| && files[n].next == NONE && (d < n ==> Chain(files, d, Kids(entries, d, n)));
    if p != NONE {
      assert Chain(files, p, Kids(entries, p, n)) && IsChild(entries, n, p);
    }
    hide Described, GoodArchive, Chain, Kids, Extended, Base, ParentName;
    if d == n {
      NewChain(files, entries, n, p, f);
    } else if d == p {
      OwnChain(files, entries, n, p, f);
    } else {
      if p != NONE {
        DistinctBases(entries, p, d);
      }
      ForeignChain(files, entries, n, p, f, d);
    }
  }

  /** Inodes other than the new one keep their data and size. */
  ghost predicate InodesKept(inodes: seq<Inode>, inodes': seq<Inode>, added: int) {
    |inodes'| == |inodes| && forall i :: 0 <= i < |inodes| && i != added ==>
      inodes'[i].data == inodes[i].data && inodes'[i].size == inodes[i].size
  }

  lemma FileKept(files: seq<File>, inodes: seq<Inode>, inodes': seq<Inode>, entries: seq<Entry>, n: nat, p: int,
                 f: File, k: nat)
    requires n < |entries| && k < n < |files| && FileIs(files, inodes, entries, k) && ParentOf(entries, n, p)
    requires InodesKept(inodes, inodes',
                        if !entries[n].isDir && entries[n].data != [] then InodeOf(entries, n) else NONE)
    ensures FileIs(Extended(files, n, p, Siblings(entries, p, n), f), inodes', entries, k)
  {
    hide Base, ParentName, Position, NameEnd, InodeOf, Extended, Linked, NonEmpty, Kids;
    InodeBelow(entries, k, n);
    ParentIsDir(entries, n, p);
    var kids := Siblings(entries, p, n);
    ExtendedAt(files, n, p, kids, f, k);
    ExtendedBeyond(files, n, p, kids, f);
    assert kids != [] ==> IsChild(entries, kids[|kids| - 1], p);
  }

  /** A later non-empty file has a later inode. */
  lemma InodeBelow(entries: seq<Entry>, k: nat, n: nat)
    requires k < n < |entries|
    ensures !entries[n].isDir && entries[n].data != [] ==> InodeOf(entries, k) < InodeOf(entries, n)
  {
    NonEmptyMonotone(entries, k + 1, n);
  }

  lemma ParentIsDir(entries: seq<Entry>, n: nat, p: int)
    requires n < |entries| && ParentOf(entries, n, p)
    ensures p != NONE ==> 0 <= p < n && entries[p].isDir
  {
  }

  /** The record of entry n, as far as the parser has to get it right. */
  ghost predicate RecordIs(f: File, inodes: seq<Inode>, entries: seq<Entry>, n: nat, p: int)
    requires n < |entries|
  {
    var e := entries[n];
    && |Base(e.path)| < NAME_SIZE && f.name == Pad16(Base(e.path)) && f.parent == p && f.next == NONE
    && f.ftype == (if e.isDir then DIRECTORY else REGULAR)
    && (e.isDir ==> f.link == NoLink) && (!e.isDir ==> !f.link.Child?)
    && (!e.isDir && e.data != [] ==>
          var i := InodeOf(entries, n);
          && f.link == Ino(i) && 0 <= i < |inodes|
          && inodes[i].data == Position(entries, n) + NameEnd(e) && inodes[i].size == |e.data|)
  }

  ghost function Added(entries: seq<Entry>, n: nat): int
    requires n < |entries|
  {
    if !entries[n].isDir && entries[n].data != [] then InodeOf(entries, n) else NONE
  }

  lemma EntryAdded(files: seq<File>, inodes: seq<Inode>, inodes': seq<Inode>, entries: seq<Entry>, n: nat, p: int,
                   f: File)
    requires GoodArchive(entries) && n < |entries| && Described(files, inodes, entries, n) && ParentOf(entries, n, p)
    requires InodesKept(inodes, inodes', Added(entries, n)) && RecordIs(f, inodes', entries, n, p)
    ensures Described(Extended(files, n, p, Siblings(entries, p, n), f), inodes', entries, n + 1)
  {
    hide GoodArchive, Described, Chain, Kids, Extended, Base, ParentName, FileIs, RecordIs, InodesKept;
    ArchiveSize(entries);
    DescribedElim(files, inodes, entries, n);
    InodesLength(inodes, inodes', Added(entries, n));
    var kids := Siblings(entries, p, n);
    var files' := Extended(files, n, p, kids, f);
    ExtendedBeyond(files, n, p, kids, f);
    forall d | 0 <= d <= n && entries[d].isDir ensures Chain(files', d, Kids(entries, d, n + 1)) {
      RecordFacts(f, inodes', entries, n, p);
      ChainsExtended(files, inodes, entries, n, p, f, d);
    }
    forall k | 0 <= k <= n ensures FileIs(files', inodes', entries, k) {
      if k < n {
        FileKept(files, inodes, inodes', entries, n, p, f, k);
      } else {
        RecordFile(files', f, inodes', entries, n, p);
      }
    }
    DescribedIntro(files', inodes', entries, n + 1);
  }

  lemma ArchiveEntries(entries: seq<Entry>)
    requires GoodArchive(entries)
    ensures forall i :: 0 <= i < |entries| ==> EntryOK(entries[i])
  {
    hide EntryOK, Base, ParentName;
  }

  lemma ArchiveSize(entries: seq<Entry>)
    requires GoodArchive(entries)
    ensures |entries| <= FILE_COUNT
  {
  }

  lemma InodesLength(inodes: seq<Inode>, inodes': seq<Inode>, added: int)
    requires InodesKept(inodes, inodes', added)
    ensures |inodes'| == |inodes|
  {
  }

  lemma RecordFacts(f: File, inodes: seq<Inode>, entries: seq<Entry>, n: nat, p: int)
    requires n < |entries| && RecordIs(f, inodes, entries, n, p)
    ensures f.next == NONE && (entries[n].isDir ==> f.link == NoLink)
  {
  }

  lemma RecordFile(files: seq<File>, f: File, inodes: seq<Inode>, entries: seq<Entry>, n: nat, p: int)
    requires n < |entries| && n < |files| && files[n] == f && RecordIs(f, inodes, entries, n, p)
    requires ParentOf(entries, n, p)
    ensures FileIs(files, inodes, entries, n)
  {
  }

  lemma ExtendedBeyond(files: seq<File>, n: nat, p: int, kids: seq<int>, f: File)
    requires n < |files| && (p != NONE ==> 0 <= p < n) && forall j :: 0 <= j < |kids| ==> 0 <= kids[j] < n
    ensures var files' := Extended(files, n, p, kids, f);
      |files'| == |files| && files'[n] == f && forall k :: n < k < |files| ==> files'[k] == files[k]
  {
  }

  lemma DescribedElim(files: seq<File>, inodes: seq<Inode>, entries: seq<Entry>, n: nat)
    requires n <= |entries| && Described(files, inodes, entries, n)
    ensures |files| == FILE_COUNT && |inodes| == INODE_COUNT && n <= FILE_COUNT
    ensures forall k :: 0 <= k < n ==> FileIs(files, inodes, entries, k)
    ensures forall d :: 0 <= d < n && entries[d].isDir ==> Chain(files, d, Kids(entries, d, n))
    ensures forall k :: n <= k < FILE_COUNT ==> files[k] == ZERO_FILE
  {
  }

  lemma DescribedIntro(files: seq<File>, inodes: seq<Inode>, entries: seq<Entry>, n: nat)
    requires n <= |entries| && |files| == FILE_COUNT && |inodes| == INODE_COUNT && n <= FILE_COUNT
    requires forall k :: 0 <= k < n ==> FileIs(files, inodes, entries, k)
    requires forall d :: 0 <= d < n && entries[d].isDir ==> Chain(files, d, Kids(entries, d, n))
    requires forall k :: n <= k < FILE_COUNT ==> files[k] == ZERO_FILE
    ensures Described(files, inodes, entries, n)
  {
  }
}
