/** The main loop of init_ramfs. For every image it ends; on a printed archive it stops at the trailer
    with arrays that describe exactly the entries printed. */
module InitRamfs {
  import opened Cpio
  import opened RootFs
  import opened Ramfs
  import opened Newc

  /** How parsing ends: at the trailer (0), at a record it rejects (-1), or where the C code has no defined
      meaning or starts to overwrite its first file. */
  datatype Outcome = Done | Rejected | Undefined

  /** current_ino and iindex after n entries: each non-empty file uses up two inode numbers. */
  ghost predicate Counters(entries: seq<Entry>, n: nat, cino: int, iindex: int)
    requires n <= |entries|
  {
    Count(NonEmpty(entries, n), cino, iindex)
  }

  predicate Count(c: nat, cino: int, iindex: int) {
    iindex == 2 * c % INODE_COUNT && cino == if c == 0 then 0 else 2 * c - 1
  }

  /** The parser stands at entry n of a printed archive, having dealt with the entries before it. */
  ghost predicate Ready(image: Bytes, entries: seq<Entry>, files: seq<File>, inodes: seq<Inode>, n: nat, start: int,
                        cino: int, iindex: int)
  {
    && GoodArchive(entries) && Printed(image, entries) && n <= |entries|
    && start == Position(entries, n)
    && Described(files, inodes, entries, n) && Counters(entries, n, cino, iindex)
  }

  /** Type, and for a regular file its inode number: a lookup if it is empty, the next inode otherwise. */
  ghost predicate TypeSet(files: seq<File>, inodes: seq<Inode>, k: int, t: FileType, size: int, cino: int, iindex: int,
                          files': seq<File>, inodes': seq<Inode>, cino': int, iindex': int)
  {
    && 0 <= k < |files| == |files'|
    && files' == files[k := files[k].(ftype := t, link := files'[k].link)]
    && (t == DIRECTORY ==> files'[k].link == NoLink)
    && (t != DIRECTORY ==> files'[k].link == files[k].link || files'[k].link.Ino?)
    && InodesKept(inodes, inodes', NONE)
    && (if t == REGULAR && size != 0 then iindex' == Succ(iindex) && cino' == iindex'
        else iindex' == iindex && cino' == cino)
  }

  /** An empty file is given the first inode with its device and number, if there is one; the numbers of a non-empty
      one are entered into the current inode. */
  ghost predicate NumbersSet(inodes: seq<Inode>, inodes': seq<Inode>, cino: int, device: Bytes, number: Bytes,
                             size: int, link: Link, link': Link)
  {
    if size == 0 then
      && inodes' == inodes
      && if exists i :: 0 <= i < |inodes| && inodes[i].device == device && inodes[i].number == number
         then link'.Ino? && FirstNumbered(inodes, device, number, link'.inode) else link' == link
    else
      && 0 <= cino < |inodes| && link' == link
      && inodes' == inodes[cino := inodes[cino].(device := device, number := number)]
  }

  ghost predicate FirstNumbered(inodes: seq<Inode>, device: Bytes, number: Bytes, i: int) {
    && 0 <= i < |inodes| && inodes[i].device == device && inodes[i].number == number
    && forall j :: 0 <= j < i ==> !(inodes[j].device == device && inodes[j].number == number)
  }

  method SetType(fs: Rootfs, image: Bytes, start: int, k: int, size: int, cino: int, iindex: int)
    returns (t: FileType, cino': int, iindex': int)
    requires fs.Valid(k) && 0 <= k < FILE_COUNT && 0 <= cino < INODE_COUNT && 0 <= iindex < INODE_COUNT
    modifies fs.files, fs.inodes
    ensures fs.Valid(k) && 0 <= cino' < INODE_COUNT && 0 <= iindex' < INODE_COUNT
    ensures t == TypeOf(Slice(image, start + 18, 4))
    ensures TypeSet(old(fs.files[..]), old(fs.inodes[..]), k, t, size, cino, iindex,
                    fs.files[..], fs.inodes[..], cino', iindex')
    ensures t == REGULAR ==>
      NumbersSet(old(fs.inodes[..]), fs.inodes[..], cino, Slice(image, start + 70, 8), Slice(image, start + 6, 8), size,
                 old(fs.files[k]).link, fs.files[k].link)
  {
    cino', iindex' := cino, iindex;
    t := GetFileType(image, start + 18);
    if t == DIRECTORY {
      fs.files[k] := fs.files[k].(ftype := DIRECTORY, link := NoLink);
    } else if t == REGULAR {
      var device, number := Slice(image, start + 70, 8), Slice(image, start + 6, 8);
      if size == 0 {
        var i := 0;
        while i < INODE_COUNT
          invariant 0 <= i <= INODE_COUNT
          invariant fs.files[..] == old(fs.files[..]) && fs.inodes[..] == old(fs.inodes[..])
          invariant forall j :: 0 <= j < i ==> !(fs.inodes[j].device == device && fs.inodes[j].number == number)
        {
          if fs.inodes[i].device == device && fs.inodes[i].number == number {
            fs.files[k] := fs.files[k].(link := Ino(i));
            break;
          }
          i := i + 1;
        }
      } else {
        fs.inodes[cino] := fs.inodes[cino].(device := device, number := number);
        iindex' := Succ(iindex);
        cino' := iindex';
      }
      fs.files[k] := fs.files[k].(ftype := REGULAR);
    } else {
      fs.files[k] := fs.files[k].(ftype := INVALID);
    }
  }

  /** Where the contents go: data and size into one inode, which the file then refers to. */
  ghost predicate DataSet(files: seq<File>, inodes: seq<Inode>, k: int, t: FileType, pos: int, size: int, cino: int,
                          iindex: int,
                          files': seq<File>, inodes': seq<Inode>, cino': int, iindex': int)
  {
    if size > 0 && t == REGULAR then
      && 0 <= k < |files| && files' == files[k := files[k].(link := Ino(cino))]
      && cino' == iindex && iindex' == Succ(iindex)
      && (cino == iindex ==>
            && InodesKept(inodes, inodes', cino) && 0 <= cino < |inodes'|
            && inodes'[cino].data == pos && inodes'[cino].size == size)
    else
      files' == files && inodes' == inodes && cino' == cino && iindex' == iindex
  }

  method SetData(fs: Rootfs, k: int, t: FileType, pos: int, size: int, cino: int, iindex: int)
    returns (cino': int, iindex': int)
    requires fs.Valid(k + 1) && 0 <= k < FILE_COUNT && 0 <= cino < INODE_COUNT && 0 <= iindex < INODE_COUNT
    modifies fs.files, fs.inodes
    ensures fs.Valid(k + 1) && 0 <= cino' < INODE_COUNT && 0 <= iindex' < INODE_COUNT
    ensures DataSet(old(fs.files[..]), old(fs.inodes[..]), k, t, pos, size, cino, iindex,
                    fs.files[..], fs.inodes[..], cino', iindex')
    // the two stores go to different inodes once the counters have parted
    ensures size > 0 && t == REGULAR ==>
      forall i :: 0 <= i < INODE_COUNT ==>
        && fs.inodes[i].data == (if i == cino then pos else old(fs.inodes[i].data))
        && fs.inodes[i].size == (if i == iindex then size else old(fs.inodes[i].size))
  {
    cino', iindex' := cino, iindex;
    if size > 0 && t == REGULAR {
      fs.inodes[cino] := fs.inodes[cino].(data := pos);
      fs.files[k] := fs.files[k].(link := Ino(cino));
      cino' := iindex;
      iindex' := Succ(iindex);
      fs.inodes[cino'] := fs.inodes[cino'].(size := size);
    }
  }

  ghost predicate NameSet(files: seq<File>, k: int, path: Bytes, p: int, kids: seq<int>, ok: bool, files': seq<File>) {
    && 0 <= k < |files|
    && (|Base(path)| < NAME_SIZE && |ParentName(path)| < NAME_SIZE && NUL !in ParentName(path) ==>
        var named := files[k := files[k].(name := Pad16(Base(path)), next := NONE)];
        && (ParentName(path) == [] ==> ok && files' == named)
        && (ParentName(path) != [] && FirstMatch(named, Pad16(ParentName(path)), p)
            && Chain(named, p, kids) && p != k ==>
              ok && files' == Linked(named, p, kids, k)))
  }

  lemma NameSetIntro(files: seq<File>, named: seq<File>, k: int, path: Bytes, p: int, kids: seq<int>, ok: bool,
                     files': seq<File>, name: Bytes, parent: Bytes)
    requires 0 <= k < |files| && |parent| == NAME_SIZE && named == files[k := files[k].(name := name, next := NONE)]
    requires |Base(path)| < NAME_SIZE ==> name == Pad16(Base(path))
    requires |ParentName(path)| < NAME_SIZE ==> parent == Pad16(ParentName(path))
    requires parent[0] == NUL ==> ok && files' == named
    requires parent[0] != NUL && FirstMatch(named, parent, p) && Chain(named, p, kids) && p != k ==>
      ok && files' == Linked(named, p, kids, k)
    ensures NameSet(files, k, path, p, kids, ok, files')
  {
    hide Base, ParentName, FirstMatch, Chain, Linked;
    if |ParentName(path)| < NAME_SIZE && NUL !in ParentName(path) && ParentName(path) != [] {
      assert parent[0] == ParentName(path)[0];
    }
  }

  /** Name, and place in the directory tree. */
  method SetName(fs: Rootfs, image: Bytes, start: nat, k: int, ghost p: int, ghost kids: seq<int>) returns (ok: bool)
    requires fs.Valid(k) && 0 <= k < FILE_COUNT
    modifies fs.files
    ensures fs.Valid(k + 1)
    ensures NameSet(old(fs.files[..]), k, PathText(image, start + HEADER_SIZE), p, kids, ok, fs.files[..])
  {
    var name, parent := ParseName(image, start + HEADER_SIZE);
    fs.files[k] := fs.files[k].(name := name);
    fs.files[k] := fs.files[k].(next := NONE);
    hide Base, ParentName, FirstMatch, Chain, Text, NameSet;
    ghost var named := fs.files[..];
    assert named == old(fs.files[..])[k := old(fs.files[k]).(name := name, next := NONE)];
    ok := fs.Attach(k, parent, p, kids);
    NameSetIntro(old(fs.files[..]), named, k, PathText(image, start + HEADER_SIZE), p, kids, ok, fs.files[..], name,
                 parent);
  }

  // ---- one entry -----------------------------------------------------------------------

  predicate HasData(entries: seq<Entry>, n: nat)
    requires n < |entries|
  {
    !entries[n].isDir && entries[n].data != []
  }

  /** `++iindex` on 8 bits. */
  function Succ(iindex: int): int {
    (iindex + 1) % INODE_COUNT
  }

  lemma SuccIs(iindex: int)
    requires 0 <= iindex < 256
    ensures Succ(iindex) == if iindex == 255 then 0 else iindex + 1
  {
  }

  /** The inode counters wrap only after 128 non-empty files. */
  lemma CountersNext(entries: seq<Entry>, n: nat, cino: int, iindex: int)
    requires n < |entries| && NonEmpty(entries, |entries|) <= 128 && Counters(entries, n, cino, iindex)
    ensures HasData(entries, n) ==>
      var i := InodeOf(entries, n);
      Succ(iindex) == i < INODE_COUNT && Counters(entries, n + 1, i, Succ(i))
    ensures !HasData(entries, n) ==> Counters(entries, n + 1, cino, iindex)
  {
    var c := NonEmpty(entries, n);
    assert NonEmpty(entries, n + 1) == if HasData(entries, n) then c + 1 else c;
    hide NonEmpty, HasData, Count, Succ;
    NonEmptyMonotone(entries, n + 1, |entries|);
    if HasData(entries, n) {
      CountNext(c, cino, iindex);
    }
  }

  lemma CountNext(c: nat, cino: int, iindex: int)
    requires c <= 127 && Count(c, cino, iindex)
    ensures Succ(iindex) == 2 * (c + 1) - 1 < INODE_COUNT
    ensures Count(c + 1, 2 * (c + 1) - 1, Succ(2 * (c + 1) - 1))
  {
  }

  lemma Finish(image: Bytes, entries: seq<Entry>, files: seq<File>, inodes: seq<Inode>, n: nat, start: int, cino: int,
               iindex: int,
               p: int, f: File, files': seq<File>, inodes': seq<Inode>, cino': int, iindex': int)
    requires Ready(image, entries, files, inodes, n, start, cino, iindex) && n < |entries| && ParentOf(entries, n, p)
    requires n < |files|
    requires files' == Extended(files, n, p, Siblings(entries, p, n), f)
    requires InodesKept(inodes, inodes', Added(entries, n)) && RecordIs(f, inodes', entries, n, p)
    requires Counters(entries, n + 1, cino', iindex')
    ensures Ready(image, entries, files', inodes', n + 1, start + EntrySize(entries[n]), cino', iindex')
  {
    EntryAdded(files, inodes, inodes', entries, n, p, f);
    hide Described, GoodArchive, Counters, RecordIs, Extended;
  }

  /** The parent to expect for entry n. */
  lemma ExpectedParent(entries: seq<Entry>, n: nat) returns (p: int)
    requires GoodArchive(entries) && n < |entries|
    ensures ParentOf(entries, n, p)
  {
    if ParentName(entries[n].path) == [] {
      p := NONE;
    } else {
      p :| 0 <= p < n && IsChild(entries, n, p) && entries[p].isDir;
    }
  }

  lemma NamesOf(files: seq<File>, inodes: seq<Inode>, entries: seq<Entry>, n: nat)
    requires n <= |entries| && Described(files, inodes, entries, n)
    ensures |files| == FILE_COUNT
    ensures forall k :: 0 <= k < n ==>
      |Base(entries[k].path)| < NAME_SIZE && files[k].name == Pad16(Base(entries[k].path))
  {
    hide Base, ParentName, Chain, Kids;
    forall k | 0 <= k < n ensures |Base(entries[k].path)| < NAME_SIZE && files[k].name == Pad16(Base(entries[k].path)) {
      assert FileIs(files, inodes, entries, k);
    }
  }

  /** Before it is linked in, file n can carry any record without next_file. */
  lemma ReadyToLink(files: seq<File>, inodes: seq<Inode>, entries: seq<Entry>, n: nat, p: int, f: File)
    requires GoodArchive(entries) && n < |entries| && Described(files, inodes, entries, n) && ParentOf(entries, n, p)
    requires f.next == NONE
    ensures n < |files| && files[n] == ZERO_FILE
    ensures p != NONE ==>
      && |ParentName(entries[n].path)| < NAME_SIZE
      && FirstMatch(files[n := f], Pad16(ParentName(entries[n].path)), p)
      && Chain(files[n := f], p, Siblings(entries, p, n))
  {
    hide Base, ParentName, Described, GoodArchive, FileIs, Chain, Kids, FirstMatch, Pad16;
    DescribedElim(files, inodes, entries, n);
    NamesOf(files, inodes, entries, n);
    ArchiveSize(entries);
    assert files[n].next == NONE;
    if p != NONE {
      assert Siblings(entries, p, n) == Kids(entries, p, n);
      ParentFound(files[n := f], entries, n, p);
      ChainSet(files, p, Kids(entries, p, n), n, f);
    }
  }

  /** Records written before linking do not show afterwards. */
  lemma LinkedThenSet(files: seq<File>, n: int, p: int, kids: seq<int>, g: File, f: File)
    requires 0 <= p < n < |files| && forall j :: 0 <= j < |kids| ==> 0 <= kids[j] < n
    ensures Linked(files[n := g], p, kids, n)[n := f] == Linked(files, p, kids, n)[n := f]
    ensures Linked(files[n := g], p, kids, n)[n] == g.(parent := p)
  {
  }

  /** What SetType and SetName put into the record of entry n. */
  ghost predicate Named(g: File, e: Entry) {
    && |Base(e.path)| < NAME_SIZE && g.name == Pad16(Base(e.path)) && g.parent == NONE && g.next == NONE
    && g.ftype == (if e.isDir then DIRECTORY else REGULAR) && !g.link.Child? && (e.isDir ==> g.link == NoLink)
  }

  /** The file array after naming and linking. */
  ghost function Placed(files: seq<File>, entries: seq<Entry>, n: nat, p: int, g: File): (r: seq<File>)
    requires n < |entries| && n < |files| && ParentOf(entries, n, p)
    ensures |r| == |files|
  {
    if p == NONE then files[n := g] else Linked(files[n := g], p, Siblings(entries, p, n), n)
  }

  lemma PlacedThenSet(files: seq<File>, entries: seq<Entry>, n: nat, p: int, g: File, f: File)
    requires n < |entries| && n < |files| && ParentOf(entries, n, p) && g.parent == NONE
    ensures |Placed(files, entries, n, p, g)| == |files| && Placed(files, entries, n, p, g)[n] == g.(parent := p)
    ensures Placed(files, entries, n, p, g)[n := f] == Extended(files, n, p, Siblings(entries, p, n), f)
  {
    if p != NONE {
      var kids := Siblings(entries, p, n);
      LinkedThenSet(files, n, p, kids, g, f);
      hide Linked, Base, ParentName;
    }
  }

  lemma WithoutData(image: Bytes, entries: seq<Entry>, files: seq<File>, inodes: seq<Inode>, n: nat, start: int,
                    cino: int, iindex: int,
                    p: int, g: File, inodes': seq<Inode>)
    requires Ready(image, entries, files, inodes, n, start, cino, iindex) && n < |entries| && ParentOf(entries, n, p)
    requires n < |files|
    requires Named(g, entries[n]) && !HasData(entries, n) && InodesKept(inodes, inodes', NONE)
    ensures Ready(image, entries, Placed(files, entries, n, p, g), inodes', n + 1,
                  start + EntrySize(entries[n]), cino, iindex)
  {
    var f := g.(parent := p);
    CountersNext(entries, n, cino, iindex);
    PlacedThenSet(files, entries, n, p, g, f);
    assert RecordIs(f, inodes', entries, n, p);
    hide Ready, Placed, RecordIs, InodesKept, Counters, Extended;
    var placed := Placed(files, entries, n, p, g);
    assert placed == placed[n := f];
    Finish(image, entries, files, inodes, n, start, cino, iindex, p, f, placed, inodes', cino, iindex);
  }

  lemma WithData(image: Bytes, entries: seq<Entry>, files: seq<File>, inodes: seq<Inode>, n: nat, start: int, cino: int,
                 iindex: int,
                 p: int, g: File, slot: int, inodes': seq<Inode>, iindex': int)
    requires Ready(image, entries, files, inodes, n, start, cino, iindex) && n < |entries| && ParentOf(entries, n, p)
    requires n < |files|
    requires Named(g, entries[n]) && HasData(entries, n) && InodesKept(inodes, inodes', slot)
    requires slot == InodeOf(entries, n) && 0 <= slot < |inodes'| && Counters(entries, n + 1, slot, iindex')
    requires inodes'[slot].data == start + NameEnd(entries[n]) && inodes'[slot].size == |entries[n].data|
    ensures Ready(image, entries, Placed(files, entries, n, p, g)[n := g.(parent := p, link := Ino(slot))],
                  inodes', n + 1, start + EntrySize(entries[n]), slot, iindex')
  {
    var f := g.(parent := p, link := Ino(slot));
    assert start == Position(entries, n);
    hide Ready, Placed, InodesKept, Counters, Extended, InodeOf, Position, NameEnd, EntrySize, Base, ParentName;
    PlacedThenSet(files, entries, n, p, g, f);
    assert RecordIs(f, inodes', entries, n, p);
    Finish(image, entries, files, inodes, n, start, cino, iindex, p, f, Placed(files, entries, n, p, g)[n := f],
           inodes', slot, iindex');
  }

  /** What the parser finds at entry n. */
  lemma Meets(image: Bytes, entries: seq<Entry>, files: seq<File>, inodes: seq<Inode>, n: nat, start: int, cino: int,
              iindex: int)
    returns (p: int)
    requires Ready(image, entries, files, inodes, n, start, cino, iindex) && n < |entries|
    ensures ParentOf(entries, n, p) && 0 <= start && ReadsAs(image, start, entries[n])
    ensures EntryOK(entries[n]) && (entries[n].isDir ==> |entries[n].data| == 0)
  {
    assert EntryOK(entries[n]);
    hide Described, Counters, Printed, EntryOK, ParentOf, ReadsAs;
    p := ExpectedParent(entries, n);
    EntryReads(image, entries, n);
  }

  lemma NamedNow(image: Bytes, entries: seq<Entry>, files: seq<File>, inodes: seq<Inode>, n: nat, start: int, cino: int,
                 iindex: int, p: int,
                 t: FileType, files1: seq<File>, ok: bool, files2: seq<File>) returns (g: File)
    requires Ready(image, entries, files, inodes, n, start, cino, iindex) && n < |entries| && ParentOf(entries, n, p)
    requires n < |files| == |files1|
    requires files1 == files[n := files[n].(ftype := t, link := files1[n].link)]
    requires t == DIRECTORY ==> files1[n].link == NoLink
    requires t != DIRECTORY ==> files1[n].link == files[n].link || files1[n].link.Ino?
    requires t == if entries[n].isDir then DIRECTORY else REGULAR
    requires NameSet(files1, n, entries[n].path, p, Siblings(entries, p, n), ok, files2)
    ensures ok && Named(g, entries[n]) && files2 == Placed(files, entries, n, p, g)
  {
    hide Ready, GoodArchive, Described, EntryOK, Chain, FirstMatch, Linked, Base;
    hide ParentName, NameSet, Placed, Siblings, Pad16, Named, ParentOf;
    var e := entries[n];
    ReadyArchive(image, entries, files, inodes, n, start, cino, iindex);
    NamesFit(e);
    g := files1[n].(name := Pad16(Base(e.path)), next := NONE);
    ReadyToLink(files, inodes, entries, n, p, g);
    assert files1[n := g] == files[n := g];
    NameSetPlaces(files, files1, entries, n, p, g, ok, files2);
    NamedIs(files[n], files1[n], e, t, g);
  }

  lemma NamedIs(f: File, f1: File, e: Entry, t: FileType, g: File)
    requires f == ZERO_FILE && f1 == f.(ftype := t, link := f1.link)
    requires (t == DIRECTORY ==> f1.link == NoLink) && (t != DIRECTORY ==> f1.link == f.link || f1.link.Ino?)
    requires t == if e.isDir then DIRECTORY else REGULAR
    requires |Base(e.path)| < NAME_SIZE && g == f1.(name := Pad16(Base(e.path)), next := NONE)
    ensures Named(g, e)
  {
    hide Base, Pad16;
  }

  lemma ReadyArchive(image: Bytes, entries: seq<Entry>, files: seq<File>, inodes: seq<Inode>, n: nat, start: int,
                     cino: int, iindex: int)
    requires Ready(image, entries, files, inodes, n, start, cino, iindex) && n < |entries|
    ensures GoodArchive(entries) && EntryOK(entries[n]) && Described(files, inodes, entries, n)
  {
    hide Described, EntryOK, Printed, Counters;
  }

  lemma NameSetPlaces(files: seq<File>, files1: seq<File>, entries: seq<Entry>, n: nat, p: int, g: File, ok: bool,
                      files2: seq<File>)
    requires n < |entries| && n < |files| == |files1| && ParentOf(entries, n, p)
    requires NameSet(files1, n, entries[n].path, p, Siblings(entries, p, n), ok, files2)
    requires var path := entries[n].path;
      && |Base(path)| < NAME_SIZE && |ParentName(path)| < NAME_SIZE && NUL !in ParentName(path)
      && g == files1[n].(name := Pad16(Base(path)), next := NONE)
      && files1[n := g] == files[n := g]
      && (p != NONE ==>
            && FirstMatch(files[n := g], Pad16(ParentName(path)), p)
            && Chain(files[n := g], p, Siblings(entries, p, n)))
    ensures ok && files2 == Placed(files, entries, n, p, g)
  {
    hide Chain, FirstMatch, Linked, Base, ParentName, Pad16, Siblings;
  }

  lemma EntryDone(image: Bytes, entries: seq<Entry>, files: seq<File>, inodes: seq<Inode>, n: nat, start: int,
                  cino: int, iindex: int, p: int,
                  t: FileType, size: int, files1: seq<File>, inodes1: seq<Inode>, cino1: int, iindex1: int,
                  ok: bool, files2: seq<File>, pos: int,
                  files3: seq<File>, inodes3: seq<Inode>, cino3: int, iindex3: int)
    requires Ready(image, entries, files, inodes, n, start, cino, iindex) && n < |entries| && ParentOf(entries, n, p)
    requires t == (if entries[n].isDir then DIRECTORY else REGULAR)
    requires size == |entries[n].data| && (entries[n].isDir ==> size == 0)
    requires TypeSet(files, inodes, n, t, size, cino, iindex, files1, inodes1, cino1, iindex1)
    requires NameSet(files1, n, entries[n].path, p, Siblings(entries, p, n), ok, files2)
    requires pos == start + NameEnd(entries[n])
    requires DataSet(files2, inodes1, n, t, pos, size, cino1, iindex1, files3, inodes3, cino3, iindex3)
    ensures ok && Ready(image, entries, files3, inodes3, n + 1, start + EntrySize(entries[n]), cino3, iindex3)
  {
    hide Ready, NameSet, ParentOf, InodesKept, Counters, Placed, NameEnd, EntrySize, Named, InodeOf;
    var g := NamedNow(image, entries, files, inodes, n, start, cino, iindex, p, t, files1, ok, files2);
    CountersOf(image, entries, files, inodes, n, start, cino, iindex);
    CountersNext(entries, n, cino, iindex);
    if HasData(entries, n) {
      PlacedAt(files, entries, n, p, g);
      KeptTwice(inodes, inodes1, inodes3, cino1);
      WithData(image, entries, files, inodes, n, start, cino, iindex, p, g, cino1, inodes3, iindex3);
    } else {
      WithoutData(image, entries, files, inodes, n, start, cino, iindex, p, g, inodes3);
    }
  }

  lemma CountersOf(image: Bytes, entries: seq<Entry>, files: seq<File>, inodes: seq<Inode>, n: nat, start: int,
                   cino: int, iindex: int)
    requires Ready(image, entries, files, inodes, n, start, cino, iindex)
    ensures n <= |entries| && NonEmpty(entries, |entries|) <= 128 && Counters(entries, n, cino, iindex)
  {
  }

  lemma PlacedAt(files: seq<File>, entries: seq<Entry>, n: nat, p: int, g: File)
    requires n < |entries| && n < |files| && ParentOf(entries, n, p) && Named(g, entries[n])
    ensures |Placed(files, entries, n, p, g)| == |files| && Placed(files, entries, n, p, g)[n] == g.(parent := p)
  {
    PlacedThenSet(files, entries, n, p, g, g);
  }

  lemma KeptTwice(a: seq<Inode>, b: seq<Inode>, c: seq<Inode>, added: int)
    requires InodesKept(a, b, NONE) && InodesKept(b, c, added)
    ensures InodesKept(a, c, added)
  {
  }

  /** Where the record at `start` ends: header and name padded to a multiple of four, then the contents likewise. */
  function RecordEnd(image: Bytes, start: nat): (next: nat)
    ensures next > start
  {
    var nameSize, size := HexValue(Slice(image, start + 94, 8)), HexValue(Slice(image, start + 54, 8));
    HexBound(Slice(image, start + 94, 8));
    HexBound(Slice(image, start + 54, 8));
    start + (110 + nameSize + 3) / 4 * 4 + (size + 3) / 4 * 4
  }

  predicate GoodMode(image: Bytes, start: int) {
    HexValue(Slice(image, start + 18, 4)) == 0x41ED || HexValue(Slice(image, start + 18, 4)) == 0x81A4
  }

  lemma ModeIs(image: Bytes, start: int)
    ensures GoodMode(image, start) <==> TypeOf(Slice(image, start + 18, 4)) != INVALID
  {
    hide HexValue;
    TypeOfMode(Slice(image, start + 18, 4));
  }

  lemma RecordEndIs(image: Bytes, start: nat)
    ensures var nameSize, size := HexValue(Slice(image, start + 94, 8)), HexValue(Slice(image, start + 54, 8));
      RecordEnd(image, start) == (6 + 13 * 8 + nameSize + 3) / 4 * 4 + start + (size + 3) / 4 * 4
  {
    hide HexValue;
  }

  /** What the header says about entry e is what the parser computes with. */
  lemma SizesMet(image: Bytes, start: nat, e: Entry)
    requires ReadsAs(image, start, e)
    ensures HexValue(Slice(image, start + 54, 8)) == |e.data| && HexValue(Slice(image, start + 94, 8)) == |e.path| + 1
    ensures PathText(image, start + HEADER_SIZE) == e.path
    ensures (6 + 13 * 8 + (|e.path| + 1) + 3) / 4 * 4 == NameEnd(e)
    ensures NameEnd(e) + (|e.data| + 3) / 4 * 4 == EntrySize(e)
  {
    hide HexValue, PathText, Slice;
  }

  /** One pass of the main loop, from the mode field to the start of the next record. */
  method ParseEntry(fs: Rootfs, image: Bytes, start: nat, k: nat, cino: int, iindex: int, ghost entries: seq<Entry>)
    returns (outcome: Outcome, next: nat, cino': int, iindex': int)
    requires fs.Valid(k) && k < FILE_COUNT && 0 <= cino < INODE_COUNT && 0 <= iindex < INODE_COUNT
    modifies fs.files, fs.inodes
    ensures fs.Valid(k + 1) && 0 <= cino' < INODE_COUNT && 0 <= iindex' < INODE_COUNT
    ensures outcome == Done ==> next == RecordEnd(image, start) > start
    ensures outcome == Rejected <==> !GoodMode(image, start)
    ensures old(Ready(image, entries, fs.files[..], fs.inodes[..], k, start, cino, iindex)) && k < |entries| ==>
      outcome == Done && Ready(image, entries, fs.files[..], fs.inodes[..], k + 1, next, cino', iindex')
  {
    hide Ready, TypeSet, NameSet, DataSet, ParentOf, EntryOK, Orderly, PathText, HexValue, Power16;
    hide GoodMode, RecordEnd, TypeOf, NumbersSet, ReadsAs, NameEnd, EntrySize;
    next := start;
    var size := IntFromString(image, start + 54, 8);
    var nameSize := IntFromString(image, start + 94, 8);
    HexBound(Slice(image, start + 54, 8));
    HexBound(Slice(image, start + 94, 8));
    ghost var files0, inodes0 := fs.files[..], fs.inodes[..];
    ghost var p, kids := NONE, [];
    ghost var expected := Ready(image, entries, files0, inodes0, k, start, cino, iindex) && k < |entries|;
    if expected {
      p := Meets(image, entries, files0, inodes0, k, start, cino, iindex);
      TypeMet(image, start, entries[k]);
      SizesMet(image, start, entries[k]);
      ParentBelow(entries, k, p);
      kids := Siblings(entries, p, k);
    }
    var t;
    t, cino', iindex' := SetType(fs, image, start, k, size, cino, iindex);
    ModeIs(image, start);
    RecordEndIs(image, start);
    ghost var files1, inodes1, cino1, iindex1 := fs.files[..], fs.inodes[..], cino', iindex';
    if t == INVALID {
      OrderlyMore(fs.files[..], k);
      return Rejected, next, cino', iindex';
    }
    var ok := SetName(fs, image, start, k, p, kids);
    ghost var files2 := fs.files[..];
    if ok {
      var pos := (6 + 13 * 8 + nameSize + 3) / 4 * 4 + start;
      cino', iindex' := SetData(fs, k, t, pos, size, cino', iindex');
      next := pos + (size + 3) / 4 * 4;
      if expected {
        EntryDone(image, entries, files0, inodes0, k, start, cino, iindex, p, t, size,
                  files1, inodes1, cino1, iindex1, ok, files2, pos,
                  fs.files[..], fs.inodes[..], cino', iindex');
      }
      outcome := Done;
    } else {
      if expected {
        Attached(image, entries, files0, inodes0, k, start, cino, iindex, p, t, size, files1, inodes1, cino1, iindex1,
                 ok, files2);
      }
      outcome := Undefined;
    }
  }

  lemma Attached(image: Bytes, entries: seq<Entry>, files: seq<File>, inodes: seq<Inode>, n: nat, start: int, cino: int,
                 iindex: int, p: int,
                 t: FileType, size: int, files1: seq<File>, inodes1: seq<Inode>, cino1: int, iindex1: int,
                 ok: bool, files2: seq<File>)
    requires Ready(image, entries, files, inodes, n, start, cino, iindex) && n < |entries| && ParentOf(entries, n, p)
    requires t == if entries[n].isDir then DIRECTORY else REGULAR
    requires TypeSet(files, inodes, n, t, size, cino, iindex, files1, inodes1, cino1, iindex1)
    requires NameSet(files1, n, entries[n].path, p, Siblings(entries, p, n), ok, files2)
    ensures ok
  {
    hide Ready, NameSet, ParentOf, Placed, Named, InodesKept;
    var g := NamedNow(image, entries, files, inodes, n, start, cino, iindex, p, t, files1, ok, files2);
  }

  lemma ParentBelow(entries: seq<Entry>, n: nat, p: int)
    requires n < |entries| && ParentOf(entries, n, p)
    ensures p != NONE ==> 0 <= p < n
  {
  }

  lemma TypeMet(image: Bytes, start: nat, e: Entry)
    requires ReadsAs(image, start, e)
    ensures TypeOf(Slice(image, start + 18, 4)) == if e.isDir then DIRECTORY else REGULAR
  {
    hide HexValue, PathText;
  }

  // ---- the whole archive ---------------------------------------------------------------

  lemma {:induction false} TextStarts(image: Bytes, pos: nat, s: Bytes)
    requires NUL !in s && Slice(image, pos, |s|) == s
    ensures s <= PathText(image, pos)
    decreases |s|
  {
    if s != [] {
      assert ByteAt(image, pos) == Slice(image, pos, |s|)[0] == s[0];
      assert s[0] in s;
      assert Slice(image, pos + 1, |s[1..]|) == s[1..] by {
        forall i | 0 <= i < |s| - 1 ensures ByteAt(image, pos + 1 + i) == s[1..][i] {
          assert Slice(image, pos, |s|)[i + 1] == s[i + 1];
        }
      }
      TextStarts(image, pos + 1, s[1..]);
      assert s == [s[0]] + s[1..];
    }
  }

  ghost predicate AtMagic(image: Bytes, pos: int) {
    Slice(image, pos, 6) == MAGIC
  }

  ghost predicate AtTrailer(image: Bytes, pos: int) {
    Slice(image, pos + HEADER_SIZE, 10) == TRAILER
  }

  lemma NoTrailer(image: Bytes, pos: nat, path: Bytes)
    requires PathText(image, pos + HEADER_SIZE) == path && !(TRAILER <= path)
    ensures !AtTrailer(image, pos)
  {
    hide PathText;
    if AtTrailer(image, pos) {
      TextStarts(image, pos + HEADER_SIZE, TRAILER);
    }
  }

  lemma PathOK(e: Entry)
    requires EntryOK(e)
    ensures !(TRAILER <= e.path)
  {
    hide Split, Power16;
  }

  lemma PathMet(image: Bytes, pos: nat, e: Entry)
    requires ReadsAs(image, pos, e)
    ensures AtMagic(image, pos) && PathText(image, pos + HEADER_SIZE) == e.path
  {
    hide HexValue, PathText, NameEnd;
  }

  lemma PrintedEnd(image: Bytes, entries: seq<Entry>)
    requires Printed(image, entries)
    ensures AtMagic(image, Position(entries, |entries|)) && AtTrailer(image, Position(entries, |entries|))
  {
    hide Position, Archive;
  }

  /** The trailer test succeeds at the trailer and at no entry before it. */
  lemma TrailerOnlyAtEnd(image: Bytes, entries: seq<Entry>, n: nat)
    requires GoodArchive(entries) && Printed(image, entries) && n <= |entries|
    ensures AtMagic(image, Position(entries, n))
    ensures AtTrailer(image, Position(entries, n)) <==> n == |entries|
  {
    hide *;
    ArchiveEntries(entries);
    if n < |entries| {
      EntryReads(image, entries, n);
      PathMet(image, Position(entries, n), entries[n]);
      PathOK(entries[n]);
      NoTrailer(image, Position(entries, n), entries[n].path);
    } else {
      PrintedEnd(image, entries);
    }
  }

  lemma MagicInside(image: Bytes, pos: nat)
    requires AtMagic(image, pos)
    ensures pos < |image|
  {
    assert Slice(image, pos, 6)[0] == ByteAt(image, pos) == 48;
  }

  lemma ReadyAtStart(image: Bytes, entries: seq<Entry>, files: seq<File>, inodes: seq<Inode>)
    requires GoodArchive(entries) && Printed(image, entries) && |files| == FILE_COUNT && |inodes| == INODE_COUNT
    requires forall i :: 0 <= i < FILE_COUNT ==> files[i] == ZERO_FILE
    ensures Ready(image, entries, files, inodes, 0, 0, 0, 0)
  {
    hide Described, GoodArchive, Printed;
    DescribedIntro(files, inodes, entries, 0);
  }

  lemma ReadyFacts(image: Bytes, entries: seq<Entry>, files: seq<File>, inodes: seq<Inode>, n: nat, start: int,
                   cino: int, iindex: int)
    requires Ready(image, entries, files, inodes, n, start, cino, iindex)
    ensures n <= |entries| <= FILE_COUNT && start == Position(entries, n) && Described(files, inodes, entries, n)
    ensures AtMagic(image, start)
    ensures AtTrailer(image, start) <==> n == |entries|
  {
    hide Described, GoodArchive, Printed, Counters, AtMagic, AtTrailer, Position;
    TrailerOnlyAtEnd(image, entries, n);
    ArchiveSize(entries);
  }

  method AtHeader(image: Bytes, pos: int) returns (yes: bool)
    ensures yes <==> AtMagic(image, pos)
  {
    yes := Matches(image, pos, MAGIC);
  }

  method AtEnd(image: Bytes, pos: int) returns (yes: bool)
    ensures yes <==> AtTrailer(image, pos)
  {
    yes := Matches(image, pos + HEADER_SIZE, TRAILER);
  }

  /** How parsing ends, from the record at `start` on, if every parent it meets is a directory. */
  ghost function Scan(image: Bytes, start: nat, k: nat): Outcome
    requires k <= 256
    decreases 256 - k
  {
    if !AtMagic(image, start) then Rejected
    else if AtTrailer(image, start) then Done
    else if k == 256 then Undefined
    else if !GoodMode(image, start) then Rejected
    else Scan(image, RecordEnd(image, start), k + 1)
  }

  lemma ScanStep(image: Bytes, start: nat, k: nat)
    requires k <= 256
    ensures !AtMagic(image, start) ==> Scan(image, start, k) == Rejected
    ensures AtMagic(image, start) && AtTrailer(image, start) ==> Scan(image, start, k) == Done
    ensures AtMagic(image, start) && !AtTrailer(image, start) && k < 256 ==>
      Scan(image, start, k) == if GoodMode(image, start) then Scan(image, RecordEnd(image, start), k + 1) else Rejected
  {
  }

  /** init_ramfs on an image at the start of its region. */
  method Init(fs: Rootfs, image: Bytes, ghost entries: seq<Entry>) returns (outcome: Outcome, end: nat, ghost n: nat)
    requires fs.Valid(0)
    requires forall i :: 0 <= i < FILE_COUNT ==> fs.files[i] == ZERO_FILE
    modifies fs.files, fs.inodes
    ensures n <= FILE_COUNT && fs.Valid(n)
    // success at a trailer, rejection of a record without the magic or with another mode
    ensures outcome != Undefined ==> outcome == Scan(image, 0, 0)
    ensures GoodArchive(entries) && Printed(image, entries) ==>
      && outcome == Done && n == |entries|
      && end == Position(entries, |entries|) + HEADER_SIZE
      && Described(fs.files[..], fs.inodes[..], entries, |entries|)
  {
    hide GoodArchive, Printed, Ready, Described, Position, AtMagic, AtTrailer, GoodMode, RecordEnd, Scan;
    var k, start, cino, iindex := 0, 0, 0, 0;
    end, n := 0, 0;
    ghost var good := GoodArchive(entries) && Printed(image, entries);
    if good {
      ReadyAtStart(image, entries, fs.files[..], fs.inodes[..]);
    }
    hide Orderly;
    while true
      invariant n == k <= FILE_COUNT && fs.Valid(k) && 0 <= cino < INODE_COUNT && 0 <= iindex < INODE_COUNT
      invariant good ==> Ready(image, entries, fs.files[..], fs.inodes[..], k, start, cino, iindex)
      invariant Scan(image, start, k) == Scan(image, 0, 0)
      decreases |image| - start
    {
      if good {
        ReadyFacts(image, entries, fs.files[..], fs.inodes[..], k, start, cino, iindex);
      }
      ScanStep(image, start, k);
      var magic := AtHeader(image, start);
      if !magic {
        return Rejected, end, n;
      }
      MagicInside(image, start);
      var trailer := AtEnd(image, start);
      if trailer {
        return Done, start + HEADER_SIZE, n;
      }
      if k == FILE_COUNT {
        return Undefined, end, n;
      }
      outcome, start, cino, iindex := ParseEntry(fs, image, start, k, cino, iindex, entries);
      k := k + 1;
      n := k;
      if outcome != Done {
        return;
      }
    }
  }
}
