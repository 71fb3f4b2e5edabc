/** What users of the parsed file system get: lookups by name, directory listings and file contents of the
    archive that was printed. */
module Listing {
  import opened Options
  import opened Cpio
  import opened RootFs
  import opened Ramfs
  import opened Newc
  import opened InitRamfs

  /** The loop that follows next_file from a file on. It ends because links only lead forward. */
  function SiblingWalk(files: seq<File>, n: int, f: int): seq<int>
    requires Orderly(files, n) && n <= FILE_COUNT && (f == NONE || 0 <= f < n)
    decreases if f == NONE then 0 else n - f
  {
    if f == NONE then [] else [f] + SiblingWalk(files, n, files[f].next)
  }

  lemma ChainAt(files: seq<File>, d: int, kids: seq<int>, j: nat)
    requires Chain(files, d, kids) && j < |kids|
    ensures 0 <= kids[j] < |files| && files[kids[j]].next == At(kids, j + 1)
    ensures j + 1 < |kids| ==> 0 <= kids[j + 1]
  {
  }

  lemma {:induction false} WalkIsChain(files: seq<File>, n: int, d: int, kids: seq<int>, j: nat)
    requires Orderly(files, n) && n <= FILE_COUNT && Chain(files, d, kids) && j <= |kids|
    requires forall i :: 0 <= i < |kids| ==> kids[i] < n
    ensures SiblingWalk(files, n, At(kids, j)) == kids[j..]
    decreases |kids| - j
  {
    hide Chain;
    if j < |kids| {
      ChainAt(files, d, kids, j);
      WalkIsChain(files, n, d, kids, j + 1);
      hide Orderly;
      assert kids[j..] == [kids[j]] + kids[j + 1..];
    }
  }

  function FirstChild(f: File): int {
    if f.link.Child? then f.link.file else NONE
  }

  lemma ListIs(files: seq<File>, n: int, d: int, kids: seq<int>)
    requires Orderly(files, n) && n <= FILE_COUNT && Chain(files, d, kids)
    requires forall i :: 0 <= i < |kids| ==> kids[i] < n
    ensures SiblingWalk(files, n, FirstChild(files[d])) == kids
  {
    WalkIsChain(files, n, d, kids, 0);
    assert kids[0..] == kids && FirstChild(files[d]) == At(kids, 0);
  }

  /** Exactly the children of d, each once, in archive order. */
  ghost predicate Lists(list: seq<int>, entries: seq<Entry>, d: int)
    requires 0 <= d < |entries|
  {
    && (forall i, j :: 0 <= i < j < |list| ==> list[i] < list[j])
    && (forall k :: k in list <==> 0 <= k < |entries| && IsChild(entries, k, d))
  }

  lemma KidsList(entries: seq<Entry>, d: nat)
    requires d < |entries|
    ensures Lists(Kids(entries, d, |entries|), entries, d)
    ensures InOrder(entries, d, |entries|, Kids(entries, d, |entries|))
  {
    var n := |entries|;
    KidsInOrder(entries, d, n);
    hide Kids, IsChild;
    forall k | 0 <= k < n && IsChild(entries, k, d) ensures k in Kids(entries, d, n) {
      KidsComplete(entries, d, n, k);
    }
  }

  /** Walking a directory's children lists exactly its entries, once each and in archive order. */
  lemma DirectoryListing(files: seq<File>, inodes: seq<Inode>, entries: seq<Entry>, d: nat)
    requires GoodArchive(entries) && Orderly(files, |entries|) && Described(files, inodes, entries, |entries|)
    requires d < |entries| && entries[d].isDir
    ensures |entries| <= FILE_COUNT && Lists(SiblingWalk(files, |entries|, FirstChild(files[d])), entries, d)
  {
    hide *;
    ArchiveSize(entries);
    DescribedElim(files, inodes, entries, |entries|);
    KidsList(entries, d);
    KidsBelow(entries, d, |entries|);
    ListIs(files, |entries|, d, Kids(entries, d, |entries|));
  }

  lemma KidsBelow(entries: seq<Entry>, d: nat, n: nat)
    requires d < |entries| && n <= |entries| && InOrder(entries, d, n, Kids(entries, d, n))
    ensures forall i :: 0 <= i < |Kids(entries, d, n)| ==> Kids(entries, d, n)[i] < n
  {
    hide Kids, IsChild;
  }

  /** Each child's parent link names the directory whose walk lists it. */
  lemma ParentLink(files: seq<File>, inodes: seq<Inode>, entries: seq<Entry>, d: nat, k: nat)
    requires GoodArchive(entries) && Described(files, inodes, entries, |entries|)
    requires d < |entries| && k < |entries|
    ensures k < |files| && (files[k].parent == d <==> IsChild(entries, k, d))
  {
    DescribedElim(files, inodes, entries, |entries|);
    hide Described, Base, GoodArchive, Chain, Kids;
    assert FileIs(files, inodes, entries, k);
    ParentUnique(entries, k, d, files[k].parent);
  }

  lemma ParentUnique(entries: seq<Entry>, k: nat, d: nat, p: int)
    requires GoodArchive(entries) && k < |entries| && d < |entries| && p < |entries|
    ensures p >= 0 && IsChild(entries, k, p) && IsChild(entries, k, d) ==> p == d
  {
    if p >= 0 && p != d {
      DistinctBases(entries, p, d);
    }
  }

  /** search_file on the base name of an entry finds that entry. */
  lemma LookupByName(files: seq<File>, inodes: seq<Inode>, entries: seq<Entry>, k: nat)
    requires GoodArchive(entries) && Described(files, inodes, entries, |entries|) && k < |entries|
    ensures |Base(entries[k].path)| < NAME_SIZE && FirstMatch(files, Pad16(Base(entries[k].path)), k)
  {
    DescribedElim(files, inodes, entries, |entries|);
    hide Described, Base, ParentName, Chain, Kids, EntryOK, Text;
    var name := Base(entries[k].path);
    NamesFit(entries[k]);
    forall j | 0 <= j <= k ensures Text(files[j].name) <= Pad16(name) <==> j == k {
      assert FileIs(files, inodes, entries, j) && EntryOK(entries[j]);
      NamesFit(entries[j]);
      TextOfPad(Base(entries[j].path));
      if Base(entries[j].path) <= Pad16(name) {
        PrefixOfPad(Base(entries[j].path), name);
      }
    }
  }

  /** The inode of a non-empty file gives its size and, in the image, exactly its bytes. */
  lemma ContentsOf(image: Bytes, files: seq<File>, inodes: seq<Inode>, entries: seq<Entry>, k: nat)
    requires GoodArchive(entries) && Printed(image, entries) && Described(files, inodes, entries, |entries|)
    requires k < |entries| && !entries[k].isDir && entries[k].data != []
    ensures k < |files| && files[k].link.Ino? && 0 <= files[k].link.inode < |inodes|
    ensures var i := inodes[files[k].link.inode];
      && i.size == |entries[k].data| && 0 <= i.data <= i.data + i.size <= |image|
      && image[i.data..i.data + i.size] == entries[k].data
  {
    hide *;
    ArchiveEntries(entries);
    EntryReads(image, entries, k);
    DataMet(image, Position(entries, k), entries[k]);
    DescribedElim(files, inodes, entries, |entries|);
    InodeIs(files, inodes, entries, k);
  }

  lemma DataMet(image: Bytes, pos: nat, e: Entry)
    requires ReadsAs(image, pos, e)
    ensures pos + NameEnd(e) + |e.data| <= |image| && image[pos + NameEnd(e)..pos + NameEnd(e) + |e.data|] == e.data
  {
    hide Slice, HexValue, PathText, NameEnd;
  }

  lemma InodeIs(files: seq<File>, inodes: seq<Inode>, entries: seq<Entry>, k: nat)
    requires k < |entries| && !entries[k].isDir && entries[k].data != [] && FileIs(files, inodes, entries, k)
    ensures k < |files| && files[k].link.Ino? && 0 <= files[k].link.inode < |inodes|
    ensures var i := inodes[files[k].link.inode];
      i.size == |entries[k].data| && i.data == Position(entries, k) + NameEnd(entries[k])
  {
    hide Base, ParentName, Position, NameEnd, InodeOf;
  }

  /** No two non-empty files share an inode. */
  lemma InodesApart(files: seq<File>, inodes: seq<Inode>, entries: seq<Entry>, j: nat, k: nat)
    requires Described(files, inodes, entries, |entries|) && j < k < |entries|
    requires !entries[j].isDir && entries[j].data != [] && !entries[k].isDir && entries[k].data != []
    ensures k < |files| && files[j].link != files[k].link
  {
    DescribedElim(files, inodes, entries, |entries|);
    hide Described, Base, ParentName, Chain, Kids, Position;
    assert FileIs(files, inodes, entries, j) && FileIs(files, inodes, entries, k);
    NonEmptyMonotone(entries, j + 1, k);
  }

  /** A name nobody has is found all the same, in an unused slot, unless all 256 slots are used. */
  lemma AbsentNameFound(files: seq<File>, inodes: seq<Inode>, entries: seq<Entry>, name: Bytes)
    requires GoodArchive(entries) && Described(files, inodes, entries, |entries|) && |entries| < FILE_COUNT
    requires |name| < NAME_SIZE && NUL !in name
    requires forall k :: 0 <= k < |entries| ==> !(Base(entries[k].path) <= name)
    ensures FirstMatch(files, Pad16(name), |entries|)
  {
    DescribedElim(files, inodes, entries, |entries|);
    hide Described, Base, ParentName, Chain, Kids, EntryOK;
    assert files[|entries|] == ZERO_FILE && Text(Zeros(NAME_SIZE)) == [];
    hide Text;
    forall j | 0 <= j < |entries| ensures !(Text(files[j].name) <= Pad16(name)) {
      assert FileIs(files, inodes, entries, j) && EntryOK(entries[j]);
      NamesFit(entries[j]);
      TextOfPad(Base(entries[j].path));
      if Base(entries[j].path) <= Pad16(name) {
        PrefixOfPad(Base(entries[j].path), name);
      }
    }
  }

  lemma FoundAt(files: seq<File>, name: Bytes, i: int, k: int)
    requires i != NONE ==> FirstMatch(files, name, i)
    requires i == NONE ==> forall j :: 0 <= j < |files| ==> !(Text(files[j].name) <= name)
    ensures FirstMatch(files, name, k) ==> i == k
  {
    hide Text;
  }

  lemma FoundInside(files: seq<File>, name: Bytes, i: int)
    requires FirstMatch(files, name, i)
    ensures 0 <= i < |files|
  {
  }

  lemma InodeOfFile(files: seq<File>, inodes: seq<Inode>, entries: seq<Entry>, k: nat)
    requires Described(files, inodes, entries, |entries|) && k < |entries| && !entries[k].isDir && entries[k].data != []
    ensures k < |files| == FILE_COUNT && files[k].link.Ino? && 0 <= files[k].link.inode < |inodes|
    ensures inodes[files[k].link.inode].size == |entries[k].data|
  {
    hide *;
    DescribedElim(files, inodes, entries, |entries|);
    InodeIs(files, inodes, entries, k);
  }

  /** read: whether an offset lies within a file. Some(code) is what it returns, None a file without an inode. */
  method Read(fs: Rootfs, name: Bytes, offset: int, ghost entries: seq<Entry>, ghost k: nat) returns (code: Option<int>)
    requires fs.Valid(|entries|) && |name| == NAME_SIZE
    ensures GoodArchive(entries) && Described(fs.files[..], fs.inodes[..], entries, |entries|)
      && k < |entries| && !entries[k].isDir && entries[k].data != []
      && |Base(entries[k].path)| < NAME_SIZE && name == Pad16(Base(entries[k].path))
      ==> code == Some(if offset > |entries[k].data| then -1 else 0)
  {
    hide GoodArchive, Described, Orderly, FirstMatch, Base, Text, Position, Kids;
    var i := fs.SearchFile(name, |entries|);
    ghost var files, inodes := fs.files[..], fs.inodes[..];
    if GoodArchive(entries) && Described(files, inodes, entries, |entries|)
      && k < |entries| && !entries[k].isDir && entries[k].data != []
    {
      LookupByName(files, inodes, entries, k);
      InodeOfFile(files, inodes, entries, k);
      FoundAt(files, name, i, k);
    }
    if i == NONE {
      return Some(-1);
    }
    FoundInside(files, name, i);
    match fs.files[i].link
    case Ino(slot) =>
      if 0 <= slot < fs.inodes.Length {
        return Some(if offset > fs.inodes[slot].size then -1 else 0);
      }
      return None;
    case _ => return None;
  }

  /** The bytes a file's inode points at. */
  function Contents(image: Bytes, files: seq<File>, inodes: seq<Inode>, k: int): Option<Bytes> {
    if 0 <= k < |files| && files[k].link.Ino? && 0 <= files[k].link.inode < |inodes| then
      var i := inodes[files[k].link.inode];
      if 0 <= i.data <= i.data + i.size <= |image| then Some(image[i.data..i.data + i.size]) else None
    else None
  }

  /** Everything a user of the file system can see is what was printed. */
  ghost predicate Restored(image: Bytes, files: seq<File>, inodes: seq<Inode>, entries: seq<Entry>) {
    && |entries| <= FILE_COUNT && Orderly(files, |entries|)
    && (forall k :: 0 <= k < |entries| ==>
          |Base(entries[k].path)| < NAME_SIZE && FirstMatch(files, Pad16(Base(entries[k].path)), k))
    && (forall k :: 0 <= k < |entries| && !entries[k].isDir && entries[k].data != [] ==>
          Contents(image, files, inodes, k) == Some(entries[k].data))
    && (forall d :: 0 <= d < |entries| && entries[d].isDir ==>
          Lists(SiblingWalk(files, |entries|, FirstChild(files[d])), entries, d))
  }

  lemma AllRestored(image: Bytes, files: seq<File>, inodes: seq<Inode>, entries: seq<Entry>)
    requires GoodArchive(entries) && Printed(image, entries) && Described(files, inodes, entries, |entries|)
    requires Orderly(files, |entries|)
    ensures Restored(image, files, inodes, entries)
  {
    hide GoodArchive, Printed, Described, FirstMatch, Base, Lists, SiblingWalk, Pad16;
    ArchiveSize(entries);
    forall k | 0 <= k < |entries|
      ensures |Base(entries[k].path)| < NAME_SIZE && FirstMatch(files, Pad16(Base(entries[k].path)), k)
    {
      LookupByName(files, inodes, entries, k);
    }
    forall k | 0 <= k < |entries| && !entries[k].isDir && entries[k].data != []
      ensures Contents(image, files, inodes, k) == Some(entries[k].data)
    {
      ContentsOf(image, files, inodes, entries, k);
    }
    forall d | 0 <= d < |entries| && entries[d].isDir
      ensures Lists(SiblingWalk(files, |entries|, FirstChild(files[d])), entries, d)
    {
      DirectoryListing(files, inodes, entries, d);
    }
  }

  /** Printing an archive and parsing it restores it, whatever follows the trailer's name. */
  method RoundTrip(entries: seq<Entry>, fields: Bytes, rest: Bytes) returns (fs: Rootfs, outcome: Outcome)
    requires GoodArchive(entries) && |fields| == HEADER_SIZE - 6
    ensures outcome == Done && Restored(Print(entries, fields, rest), fs.files[..], fs.inodes[..], entries)
  {
    hide GoodArchive, Printed, Described, Orderly, Restored, Print, EntryOK;
    fs := new Rootfs();
    var image := Print(entries, fields, rest);
    ArchiveEntries(entries);
    PrintIsPrinted(entries, fields, rest);
    var end;
    ghost var n;
    outcome, end, n := Init(fs, image, entries);
    AllRestored(image, fs.files[..], fs.inodes[..], entries);
  }
}
