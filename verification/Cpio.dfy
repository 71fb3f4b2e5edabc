/** The part of the cpio "newc" format (New ASCII Format of cpio(5)) that kernel/rootfs.c reads, as a
    printer of archives, and plain definitions of hexadecimal numbers and path splitting. */
module Cpio {
  type Bytes = seq<int>

  const SLASH := 47
  const NUL := 0
  const NAME_SIZE := 16
  const MAGIC: Bytes := [48, 55, 48, 55, 48, 49]
  const TRAILER: Bytes := [84, 82, 65, 73, 76, 69, 82, 33, 33, 33]
  const DIR_IDENT: Bytes := [52, 49, 69, 68]
  const FILE_IDENT: Bytes := [56, 49, 65, 52]
  const HEADER_SIZE := 110

  function Zeros(n: nat): (s: Bytes)
    ensures |s| == n && forall i :: 0 <= i < n ==> s[i] == 0
  {
    seq(n, _ => 0)
  }

  /** The text zero-padded to a 16-byte name field. */
  function Pad16(s: Bytes): (r: Bytes)
    requires |s| <= NAME_SIZE
    ensures |r| == NAME_SIZE
  {
    s + Zeros(NAME_SIZE - |s|)
  }

  // ---- numbers -------------------------------------------------------------------------

  function DigitValue(c: int): (v: int)
    ensures -1 <= v < 16
  {
    if 48 <= c <= 57 then c - 48 else if 65 <= c <= 70 then c - 55 else -1
  }

  function DigitChar(v: int): int
    requires 0 <= v < 16
  {
    if v < 10 then 48 + v else 55 + v
  }

  function Power16(n: nat): (p: nat)
    ensures p >= 1
  {
    if n == 0 then 1 else 16 * Power16(n - 1)
  }

  /** The number a string of hex digits denotes, -1 if some byte is not a digit. */
  function HexValue(s: Bytes): int {
    if s == [] then 0
    else
      var rest, last := HexValue(s[..|s| - 1]), DigitValue(s[|s| - 1]);
      if rest == -1 || last == -1 then -1 else rest * 16 + last
  }

  function HexPrint(v: nat, n: nat): (s: Bytes)
    ensures |s| == n
  {
    if n == 0 then [] else HexPrint(v / 16, n - 1) + [DigitChar(v % 16)]
  }

  lemma {:induction false} HexRoundTrip(v: nat, n: nat)
    requires v < Power16(n)
    ensures HexValue(HexPrint(v, n)) == v
  {
    if n > 0 {
      HexRoundTrip(v / 16, n - 1);
      var s := HexPrint(v, n);
      assert s[..n - 1] == HexPrint(v / 16, n - 1) && s[n - 1] == DigitChar(v % 16);
    }
  }

  lemma {:induction false} HexBound(s: Bytes)
    ensures -1 <= HexValue(s) < Power16(|s|)
  {
    if s != [] {
      HexBound(s[..|s| - 1]);
    }
  }

  // ---- the constants of the format -----------------------------------------------------

  /** Characters as bytes. */
  function Ascii(s: string): (b: Bytes)
    ensures |b| == |s| && forall i :: 0 <= i < |s| ==> b[i] == s[i] as int
  {
    seq(|s|, i requires 0 <= i < |s| => s[i] as int)
  }

  /** Digits are 0..9 and upper-case A..F, and nothing else is one. */
  lemma DigitsAre(c: int)
    ensures '0' as int <= c <= '9' as int ==> DigitValue(c) == c - '0' as int
    ensures 'A' as int <= c <= 'F' as int ==> DigitValue(c) == 10 + (c - 'A' as int)
    ensures !('0' as int <= c <= '9' as int) && !('A' as int <= c <= 'F' as int) ==> DigitValue(c) == -1
    ensures DigitValue(c) != -1 ==> DigitChar(DigitValue(c)) == c
  {
  }

  /** Four digits read from left to right, most significant first. */
  lemma FourDigits(s: Bytes)
    requires |s| == 4 && forall i :: 0 <= i < 4 ==> DigitValue(s[i]) != -1
    ensures HexValue(s) == ((DigitValue(s[0]) * 16 + DigitValue(s[1])) * 16 + DigitValue(s[2])) * 16 + DigitValue(s[3])
  {
    assert s[..3][..2] == s[..2] && s[..3][2] == s[2] && s[..2][..1] == s[..1] && s[..2][1] == s[1];
    assert s[..1][..0] == [] && s[..1][0] == s[0];
    assert HexValue(s[..1]) == DigitValue(s[0]);
    assert HexValue(s[..2]) == DigitValue(s[0]) * 16 + DigitValue(s[1]);
    assert HexValue(s[..3]) == (DigitValue(s[0]) * 16 + DigitValue(s[1])) * 16 + DigitValue(s[2]);
  }

  /** A number has one way of being written with n digits. */
  lemma {:induction false} DigitsUnique(s: Bytes, t: Bytes)
    requires |s| == |t| && HexValue(s) == HexValue(t) != -1
    ensures s == t
  {
    if s != [] {
      var n := |s| - 1;
      HexBound(s[..n]);
      HexBound(t[..n]);
      DigitsAre(s[n]);
      DigitsAre(t[n]);
      DigitsUnique(s[..n], t[..n]);
      assert s == s[..n] + [s[n]] && t == t[..n] + [t[n]];
    }
  }

  /** The magic reads 070701, the modes 41ED and 81A4, and the last entry is called TRAILER!!!. */
  lemma FormatConstants()
    ensures MAGIC == Ascii("070701") && TRAILER == Ascii("TRAILER!!!")
    ensures DIR_IDENT == Ascii("41ED") && FILE_IDENT == Ascii("81A4")
    ensures HexValue(DIR_IDENT) == 0x41ED && HexValue(FILE_IDENT) == 0x81A4 && HexValue(MAGIC) == 0x070701
    ensures NUL == 0 && SLASH == '/' as int && NAME_SIZE == 16 && HEADER_SIZE == 6 + 13 * 8
  {
    FourDigits(DIR_IDENT);
    FourDigits(FILE_IDENT);
    MagicValue();
  }

  lemma MagicValue()
    ensures HexValue(MAGIC) == 0x070701
  {
    assert MAGIC[..5] == [48, 55, 48, 55, 48] && MAGIC[..5][..4] == [48, 55, 48, 55];
    FourDigits([48, 55, 48, 55]);
    assert HexValue([48, 55, 48, 55, 48]) == HexValue([48, 55, 48, 55]) * 16;
  }

  // ---- paths ---------------------------------------------------------------------------

  /** The components of a path. */
  function Split(path: Bytes): (c: seq<Bytes>)
    ensures |c| >= 1
  {
    if path == [] then [[]]
    else
      var front, last := Split(path[..|path| - 1]), path[|path| - 1];
      if last == SLASH then front + [[]] else front[..|front| - 1] + [front[|front| - 1] + [last]]
  }

  function Join(c: seq<Bytes>): Bytes
    requires |c| >= 1
  {
    if |c| == 1 then c[0] else Join(c[..|c| - 1]) + [SLASH] + c[|c| - 1]
  }

  /** Splitting is undone by joining, and no component contains a slash. */
  lemma {:induction false} SplitJoins(path: Bytes)
    ensures Join(Split(path)) == path
    ensures forall i :: 0 <= i < |Split(path)| ==> SLASH !in Split(path)[i]
  {
    if path != [] {
      var front, last := path[..|path| - 1], path[|path| - 1];
      SplitJoins(front);
      assert path == front + [last];
      if last == SLASH {
        JoinNew(Split(front));
      } else {
        JoinMore(Split(front), last);
      }
    }
  }

  lemma JoinNew(c: seq<Bytes>)
    requires |c| >= 1
    ensures Join(c + [[]]) == Join(c) + [SLASH]
  {
    var d := c + [[]];
    assert d[..|d| - 1] == c;
  }

  lemma JoinMore(c: seq<Bytes>, b: int)
    requires |c| >= 1
    ensures Join(c[..|c| - 1] + [c[|c| - 1] + [b]]) == Join(c) + [b]
  {
    var d := c[..|c| - 1] + [c[|c| - 1] + [b]];
    if |c| > 1 {
      assert d[..|d| - 1] == c[..|c| - 1];
      var front := Join(c[..|c| - 1]);
      assert front + [SLASH] + (c[|c| - 1] + [b]) == (front + [SLASH] + c[|c| - 1]) + [b];
    }
  }

  function Base(path: Bytes): Bytes {
    var c := Split(path); c[|c| - 1]
  }

  /** The component before the last, or nothing. */
  function ParentName(path: Bytes): Bytes {
    var c := Split(path); if |c| == 1 then [] else c[|c| - 2]
  }

  /** The base name is what follows the last slash, and the parent's name what lies between the last two. */
  lemma NamesInPath(path: Bytes)
    ensures SLASH !in Base(path) && SLASH !in ParentName(path)
    ensures SLASH !in path ==> Base(path) == path && ParentName(path) == []
    ensures SLASH in path ==> exists front ::
      path == front + ParentName(path) + [SLASH] + Base(path) && (front == [] || front[|front| - 1] == SLASH)
  {
    SplitJoins(path);
    var c := Split(path);
    hide Split, Join;
    if |c| == 1 {
      JoinOne(c);
    } else {
      var front := JoinTwo(c);
      assert path == front + ParentName(path) + [SLASH] + Base(path);
      assert path[|front| + |ParentName(path)|] == SLASH;
    }
  }

  lemma JoinOne(c: seq<Bytes>)
    requires |c| == 1
    ensures Join(c) == c[0]
  {
  }

  lemma JoinTwo(c: seq<Bytes>) returns (front: Bytes)
    requires |c| >= 2
    ensures Join(c) == front + c[|c| - 2] + [SLASH] + c[|c| - 1] && (front == [] || front[|front| - 1] == SLASH)
  {
    var mine := c[..|c| - 1];
    assert mine[|mine| - 1] == c[|c| - 2];
    assert Join(c) == Join(mine) + [SLASH] + c[|c| - 1];
    if |c| == 2 {
      front := [];
      assert Join(mine) == front + c[0];
    } else {
      front := Join(mine[..|mine| - 1]) + [SLASH];
      assert Join(mine) == front + c[|c| - 2];
    }
  }

  /** Reading one more byte of a path. */
  lemma NameStep(path: Bytes, b: int)
    ensures b == SLASH ==> Base(path + [b]) == [] && ParentName(path + [b]) == Base(path)
    ensures b != SLASH ==> Base(path + [b]) == Base(path) + [b] && ParentName(path + [b]) == ParentName(path)
  {
    assert (path + [b])[..|path|] == path;
  }

  // ---- archives ------------------------------------------------------------------------

  /** An archive member. Fields the parser does not interpret are arbitrary bytes. */
  datatype Entry = Entry(ino: Bytes, modeHigh: Bytes, isDir: bool, ids: Bytes, devMajor: Bytes, devMinor: Bytes,
                         rdev: Bytes, check: Bytes, path: Bytes, data: Bytes)

  function RoundUp4(n: nat): (r: nat)
    ensures n <= r < n + 4 && r % 4 == 0
  {
    (n + 3) / 4 * 4
  }

  /** The 110 header bytes. */
  function Header(e: Entry): Bytes {
    MAGIC + e.ino + e.modeHigh + (if e.isDir then DIR_IDENT else FILE_IDENT) + e.ids + HexPrint(|e.data|, 8)
    + e.devMajor + e.devMinor + e.rdev + HexPrint(|e.path| + 1, 8) + e.check
  }

  function NameEnd(e: Entry): nat {
    RoundUp4(HEADER_SIZE + |e.path| + 1)
  }

  function Encode(e: Entry): Bytes {
    Header(e) + e.path + Zeros(NameEnd(e) - HEADER_SIZE - |e.path|) + e.data + Zeros(RoundUp4(|e.data|) - |e.data|)
  }

  function EntrySize(e: Entry): nat {
    NameEnd(e) + RoundUp4(|e.data|)
  }

  /** Field widths, a path of NUL-free components of 1 to 15 bytes that is not taken for the trailer, 32-bit sizes. */
  predicate EntryOK(e: Entry) {
    && |e.ino| == 8 && |e.modeHigh| == 4 && |e.ids| == 32 && |e.devMajor| == 8 && |e.devMinor| == 8
    && |e.rdev| == 16 && |e.check| == 8
    && NUL !in e.path && !(TRAILER <= e.path)
    && (forall i :: 0 <= i < |Split(e.path)| ==> 1 <= |Split(e.path)[i]| < NAME_SIZE)
    && |e.path| + 1 < Power16(8) && |e.data| < Power16(8)
    && (e.isDir ==> e.data == [])
  }

  function Archive(entries: seq<Entry>, n: nat): Bytes
    requires n <= |entries|
  {
    if n == 0 then [] else Archive(entries, n - 1) + Encode(entries[n - 1])
  }

  function Position(entries: seq<Entry>, n: nat): nat
    requires n <= |entries|
  {
    if n == 0 then 0 else Position(entries, n - 1) + EntrySize(entries[n - 1])
  }

  lemma {:induction false} ArchivePrefix(entries: seq<Entry>, m: nat, n: nat)
    requires m <= n <= |entries| && forall i :: 0 <= i < |entries| ==> EntryOK(entries[i])
    ensures |Archive(entries, m)| == Position(entries, m) && Archive(entries, m) <= Archive(entries, n)
    decreases n
  {
    if m < n {
      ArchivePrefix(entries, m, n - 1);
    } else if n > 0 {
      ArchivePrefix(entries, n - 1, n - 1);
      assert |Encode(entries[n - 1])| == EntrySize(entries[n - 1]);
    }
  }

  // ---- reading an image ----------------------------------------------------------------

  /** Memory past the end of the image reads as zero. */
  function ByteAt(image: Bytes, i: int): int {
    if 0 <= i < |image| then image[i] else 0
  }

  function Slice(image: Bytes, pos: int, n: nat): (s: Bytes)
    ensures |s| == n && forall i :: 0 <= i < n ==> s[i] == ByteAt(image, pos + i)
  {
    seq(n, i => ByteAt(image, pos + i))
  }

  /** The bytes from `pos` up to the next NUL. */
  function PathText(image: Bytes, pos: nat): Bytes
    decreases |image| - pos
  {
    if pos >= |image| || image[pos] == NUL then [] else [image[pos]] + PathText(image, pos + 1)
  }

  /** The image starts with the entries and a trailer record. */
  predicate Printed(image: Bytes, entries: seq<Entry>) {
    var end := Position(entries, |entries|);
    && Archive(entries, |entries|) <= image
    && Slice(image, end, 6) == MAGIC
    && Slice(image, end + HEADER_SIZE, 10) == TRAILER
  }

  /** A whole archive: the entries, then a record with the trailer's name and any header fields, then anything. */
  function Print(entries: seq<Entry>, fields: Bytes, rest: Bytes): Bytes {
    Archive(entries, |entries|) + MAGIC + fields + TRAILER + rest
  }

  lemma PrintIsPrinted(entries: seq<Entry>, fields: Bytes, rest: Bytes)
    requires (forall i :: 0 <= i < |entries| ==> EntryOK(entries[i])) && |fields| == HEADER_SIZE - 6
    ensures Printed(Print(entries, fields, rest), entries)
  {
    var image, n := Print(entries, fields, rest), |Archive(entries, |entries|)|;
    ArchivePrefix(entries, |entries|, |entries|);
    hide EntryOK, Position, Archive;
    assert image[n..n + 6] == MAGIC && image[n + HEADER_SIZE..n + HEADER_SIZE + 10] == TRAILER;
    assert Archive(entries, |entries|) == image[..n];
    SliceIs(image, n, MAGIC);
    SliceIs(image, n + HEADER_SIZE, TRAILER);
  }

  lemma SliceIs(image: Bytes, pos: nat, s: Bytes)
    requires pos + |s| <= |image| && image[pos..pos + |s|] == s
    ensures Slice(image, pos, |s|) == s
  {
    var part := image[pos..pos + |s|];
    forall i | 0 <= i < |s| ensures Slice(image, pos, |s|)[i] == s[i] {
      assert part[i] == image[pos + i];
    }
  }

  /** What the parser meets at entry k. */
  lemma EntryBytes(image: Bytes, entries: seq<Entry>, k: nat)
    requires k < |entries| && (forall i :: 0 <= i < |entries| ==> EntryOK(entries[i])) && Printed(image, entries)
    ensures var pos, e := Position(entries, k), entries[k];
      pos + EntrySize(e) <= |image| && image[pos..pos + EntrySize(e)] == Encode(e)
  {
    var pos, e := Position(entries, k), entries[k];
    ArchivePrefix(entries, k, k + 1);
    ArchivePrefix(entries, k + 1, |entries|);
    assert Archive(entries, k + 1) == Archive(entries, k) + Encode(e);
    assert EntryOK(e) && |Encode(e)| == EntrySize(e);
    hide EntryOK, Encode, EntrySize, Archive, Position;
    MiddleSlice(image, Archive(entries, k), Encode(e));
  }

  lemma MiddleSlice(image: Bytes, a: Bytes, c: Bytes)
    requires a + c <= image
    ensures |a| + |c| <= |image| && image[|a|..|a| + |c|] == c
  {
    assert (a + c)[|a|..|a| + |c|] == c;
  }

  lemma SliceOf(image: Bytes, pos: nat, n: nat, code: Bytes, i: nat, m: nat)
    requires pos + n <= |image| && image[pos..pos + n] == code && i + m <= n
    ensures Slice(image, pos + i, m) == code[i..i + m]
  {
    var s, t := Slice(image, pos + i, m), code[i..i + m];
    forall k | 0 <= k < m ensures s[k] == t[k] {
      assert image[pos + i + k] == image[pos..pos + n][i + k];
    }
  }

  lemma HeaderFields(e: Entry)
    requires EntryOK(e)
    ensures |Header(e)| == HEADER_SIZE
    ensures Header(e)[..6] == MAGIC
    ensures Header(e)[18..22] == if e.isDir then DIR_IDENT else FILE_IDENT
    ensures Header(e)[54..62] == HexPrint(|e.data|, 8)
    ensures Header(e)[94..102] == HexPrint(|e.path| + 1, 8)
  {
  }

  /** Every field of the entry is where the parser looks for it. */
  predicate ReadsAs(image: Bytes, pos: nat, e: Entry) {
    && Slice(image, pos, 6) == MAGIC
    && Slice(image, pos + 18, 4) == (if e.isDir then DIR_IDENT else FILE_IDENT)
    && HexValue(Slice(image, pos + 54, 8)) == |e.data|
    && HexValue(Slice(image, pos + 94, 8)) == |e.path| + 1
    && PathText(image, pos + HEADER_SIZE) == e.path
    && pos + NameEnd(e) + |e.data| <= |image|
    && image[pos + NameEnd(e)..pos + NameEnd(e) + |e.data|] == e.data
  }

  lemma EntryReads(image: Bytes, entries: seq<Entry>, k: nat)
    requires k < |entries| && (forall i :: 0 <= i < |entries| ==> EntryOK(entries[i])) && Printed(image, entries)
    ensures ReadsAs(image, Position(entries, k), entries[k])
  {
    hide EntryOK, Printed, Encode, EntrySize, Position, ReadsAs;
    EntryBytes(image, entries, k);
    EncodedAt(image, Position(entries, k), entries[k]);
  }

  lemma EncodedAt(image: Bytes, pos: nat, e: Entry)
    requires EntryOK(e) && pos + EntrySize(e) <= |image| && image[pos..pos + EntrySize(e)] == Encode(e)
    ensures ReadsAs(image, pos, e)
  {
    hide Encode, EntryOK, HexPrint, HexValue, EntrySize, NameEnd, PathText, Slice, Power16, ReadsAs;
    EncodeFields(e);
    HeaderAt(image, pos, e);
    NulFree(e);
    PathIs(image, pos + HEADER_SIZE, e.path, pos, Encode(e), EntrySize(e));
    DataIs(image, pos, EntrySize(e), Encode(e), NameEnd(e), |e.data|);
    ReadsIntro(image, pos, e);
  }

  lemma NulFree(e: Entry)
    requires EntryOK(e)
    ensures NUL !in e.path && |e.data| < Power16(8) && |e.path| + 1 < Power16(8)
  {
    hide Power16, Split;
  }

  lemma HeaderAt(image: Bytes, pos: nat, e: Entry)
    requires EntryOK(e) && pos + EntrySize(e) <= |image| && image[pos..pos + EntrySize(e)] == Encode(e)
    ensures Slice(image, pos, 6) == MAGIC && Slice(image, pos + 18, 4) == (if e.isDir then DIR_IDENT else FILE_IDENT)
    ensures HexValue(Slice(image, pos + 54, 8)) == |e.data| && HexValue(Slice(image, pos + 94, 8)) == |e.path| + 1
  {
    hide Encode, EntryOK, HexPrint, HexValue, EntrySize, NameEnd, PathText, Slice, Power16, ReadsAs;
    EncodeFields(e);
    NulFree(e);
    HexRoundTrip(|e.data|, 8);
    HexRoundTrip(|e.path| + 1, 8);
    SliceOf(image, pos, EntrySize(e), Encode(e), 0, 6);
    SliceOf(image, pos, EntrySize(e), Encode(e), 18, 4);
    SliceOf(image, pos, EntrySize(e), Encode(e), 54, 8);
    SliceOf(image, pos, EntrySize(e), Encode(e), 94, 8);
  }

  lemma ReadsIntro(image: Bytes, pos: nat, e: Entry)
    requires Slice(image, pos, 6) == MAGIC && Slice(image, pos + 18, 4) == (if e.isDir then DIR_IDENT else FILE_IDENT)
    requires HexValue(Slice(image, pos + 54, 8)) == |e.data| && HexValue(Slice(image, pos + 94, 8)) == |e.path| + 1
    requires PathText(image, pos + HEADER_SIZE) == e.path
    requires pos + NameEnd(e) + |e.data| <= |image| && image[pos + NameEnd(e)..pos + NameEnd(e) + |e.data|] == e.data
    ensures ReadsAs(image, pos, e)
  {
    hide Slice, HexValue, PathText, NameEnd;
  }

  lemma DataIs(image: Bytes, pos: nat, n: nat, code: Bytes, i: nat, m: nat)
    requires pos + n <= |image| && image[pos..pos + n] == code && i + m <= n
    ensures image[pos + i..pos + i + m] == code[i..i + m]
  {
    var s, t := image[pos + i..pos + i + m], code[i..i + m];
    forall k | 0 <= k < m ensures s[k] == t[k] {
      assert image[pos + i + k] == image[pos..pos + n][i + k];
    }
  }

  lemma EncodeFields(e: Entry)
    requires EntryOK(e)
    ensures var c := Encode(e);
      && |c| == EntrySize(e) && HEADER_SIZE + |e.path| < NameEnd(e) <= NameEnd(e) + |e.data| <= EntrySize(e)
      && c[0..6] == MAGIC && c[18..22] == (if e.isDir then DIR_IDENT else FILE_IDENT)
      && c[54..62] == HexPrint(|e.data|, 8) && c[94..102] == HexPrint(|e.path| + 1, 8)
      && c[HEADER_SIZE..HEADER_SIZE + |e.path|] == e.path && c[HEADER_SIZE + |e.path|] == NUL
      && c[NameEnd(e)..NameEnd(e) + |e.data|] == e.data
  {
    HeaderFields(e);
    var h, c := Header(e), Encode(e);
    assert c[..HEADER_SIZE] == h;
    hide Header, HexPrint, EntryOK;
    assert c[0..6] == h[..6] && c[18..22] == h[18..22] && c[54..62] == h[54..62] && c[94..102] == h[94..102];
  }

  lemma {:induction false} TextIs(image: Bytes, pos: nat, path: Bytes)
    requires NUL !in path && pos + |path| < |image| && image[pos..pos + |path|] == path && image[pos + |path|] == NUL
    ensures PathText(image, pos) == path
    decreases |path|
  {
    if path != [] {
      assert image[pos] == path[0];
      assert image[pos + 1..pos + 1 + |path[1..]|] == path[1..];
      TextIs(image, pos + 1, path[1..]);
    }
  }

  lemma PathIs(image: Bytes, at: nat, path: Bytes, pos: nat, code: Bytes, n: nat)
    requires pos + n <= |image| && image[pos..pos + n] == code && at == pos + HEADER_SIZE
    requires NUL !in path && HEADER_SIZE + |path| < n
    requires code[HEADER_SIZE..HEADER_SIZE + |path|] == path && code[HEADER_SIZE + |path|] == NUL
    ensures PathText(image, at) == path
  {
    assert image[at..at + |path|] == image[pos..pos + n][HEADER_SIZE..HEADER_SIZE + |path|];
    assert image[at + |path|] == image[pos..pos + n][HEADER_SIZE + |path|];
    TextIs(image, at, path);
  }
}
