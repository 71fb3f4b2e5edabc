/** The parser of kernel/rootfs.c: loops over bytes, name buffers, and the file and inode arrays. */
module RootFs {
  import opened Cpio

  const FILE_COUNT := 256
  const INODE_COUNT := 256
  const NONE := -1

  datatype FileType = INVALID | DIRECTORY | REGULAR

  /** The union in struct file: NULL, a first child, or an inode. */
  datatype Link = NoLink | Child(file: int) | Ino(inode: int)

  /** struct file; pointers to files are indices, NULL is -1. */
  datatype File = File(name: Bytes, parent: int, ftype: FileType, next: int, link: Link)

  datatype Inode = Inode(data: int, number: Bytes, device: Bytes, size: int)

  // ---- helpers that scan bytes ---------------------------------------------------------

  /** int_from_string on `size` bytes. */
  method IntFromString(image: Bytes, pos: int, size: nat) returns (total: int)
    ensures total == HexValue(Slice(image, pos, size))
  {
    if size == 0 {
      return 0;
    }
    total := DigitValue(ByteAt(image, pos));
    HexFirst(image, pos);
    if total == -1 {
      HexBad(image, pos, 1, size);
      return;
    }
    var i := 1;
    while i < size
      invariant 1 <= i <= size
      invariant total == HexValue(Slice(image, pos, i)) != -1
    {
      var current := DigitValue(ByteAt(image, pos + i));
      HexNext(image, pos, i);
      if current == -1 {
        HexBad(image, pos, i + 1, size);
        return current;
      }
      total := total * 16 + current;
      HexBound(Slice(image, pos, i + 1));
      i := i + 1;
    }
  }

  lemma HexFirst(image: Bytes, pos: int)
    ensures HexValue(Slice(image, pos, 1)) == DigitValue(ByteAt(image, pos))
  {
    var s := Slice(image, pos, 1);
    assert s[..0] == [] && s[0] == ByteAt(image, pos);
  }

  lemma HexNext(image: Bytes, pos: int, i: nat)
    ensures var v, d := HexValue(Slice(image, pos, i)), DigitValue(ByteAt(image, pos + i));
      HexValue(Slice(image, pos, i + 1)) == if v == -1 || d == -1 then -1 else v * 16 + d
  {
    var s := Slice(image, pos, i + 1);
    assert s[..i] == Slice(image, pos, i) && s[i] == ByteAt(image, pos + i);
  }

  lemma {:induction false} HexBad(image: Bytes, pos: int, i: nat, n: nat)
    requires i <= n && HexValue(Slice(image, pos, i)) == -1
    ensures HexValue(Slice(image, pos, n)) == -1
    decreases n
  {
    if i < n {
      HexBad(image, pos, i, n - 1);
      HexNext(image, pos, n - 1);
    }
  }

  /** The comparison loop of check_magic, check_end_archive and get_file_type. */
  method Matches(image: Bytes, pos: int, text: Bytes) returns (same: bool)
    ensures same <==> Slice(image, pos, |text|) == text
  {
    var i := 0;
    while i < |text|
      invariant 0 <= i <= |text|
      invariant forall k :: 0 <= k < i ==> ByteAt(image, pos + k) == text[k]
    {
      if ByteAt(image, pos + i) != text[i] {
        assert Slice(image, pos, |text|)[i] != text[i];
        return false;
      }
      i := i + 1;
    }
    assert Slice(image, pos, |text|) == text;
    return true;
  }

  method GetFileType(image: Bytes, pos: int) returns (t: FileType)
    ensures t == TypeOf(Slice(image, pos, 4))
    ensures t == DIRECTORY <==> HexValue(Slice(image, pos, 4)) == 0x41ED
    ensures t == REGULAR <==> HexValue(Slice(image, pos, 4)) == 0x81A4
  {
    TypeOfMode(Slice(image, pos, 4));
    var regular := Matches(image, pos, FILE_IDENT);
    if regular {
      return REGULAR;
    }
    var directory := Matches(image, pos, DIR_IDENT);
    if directory {
      return DIRECTORY;
    }
    return INVALID;
  }

  function TypeOf(mode: Bytes): FileType {
    if mode == FILE_IDENT then REGULAR else if mode == DIR_IDENT then DIRECTORY else INVALID
  }

  /** The low half of the mode decides: 41ED is a directory, 81A4 a regular file. */
  lemma TypeOfMode(mode: Bytes)
    requires |mode| == 4
    ensures TypeOf(mode) == DIRECTORY <==> HexValue(mode) == 0x41ED
    ensures TypeOf(mode) == REGULAR <==> HexValue(mode) == 0x81A4
  {
    FormatConstants();
    if HexValue(mode) == 0x41ED {
      DigitsUnique(mode, DIR_IDENT);
    }
    if HexValue(mode) == 0x81A4 {
      DigitsUnique(mode, FILE_IDENT);
    }
  }

  /** The text of a name buffer: what comes before its first NUL. */
  function Text(buffer: Bytes): Bytes {
    if buffer == [] || buffer[0] == NUL then [] else [buffer[0]] + Text(buffer[1..])
  }

  /** Up to the end of the first string the two agree. */
  ghost predicate SameUpToEnd(a: Bytes, b: Bytes)
    requires |a| == |b|
  {
    forall i :: 0 <= i < |a| && 0 !in a[..i + 1] ==> a[i] == b[i]
  }

  lemma {:induction false} TextUpTo(a: Bytes, z: nat)
    requires z < |a| && a[z] == 0 && 0 !in a[..z]
    ensures Text(a) == a[..z]
    decreases z
  {
    if z > 0 {
      assert a[0] in a[..z] && a[1..][..z - 1] == a[..z][1..];
      TextUpTo(a[1..], z - 1);
      assert a[..z] == [a[0]] + a[1..][..z - 1];
    }
  }

  lemma {:induction false} FirstNul(a: Bytes, i: nat) returns (z: nat)
    requires i < |a| && a[i] == 0
    ensures z <= i && a[z] == 0 && 0 !in a[..z]
  {
    if k :| 0 <= k < i && a[k] == 0 {
      z := FirstNul(a, k);
    } else {
      z := i;
    }
  }

  lemma PrefixLiteral(a: Bytes, b: Bytes)
    requires |a| == |b| && NUL in a
    ensures Text(a) <= b <==> SameUpToEnd(a, b)
  {
    var i :| 0 <= i < |a| && a[i] == 0;
    var z := FirstNul(a, i);
    TextUpTo(a, z);
    hide Text;
    if a[..z] <= b {
      forall i | 0 <= i < |a| && 0 !in a[..i + 1] ensures a[i] == b[i] {
        NulBefore(a, z, i);
        assert a[..z][i] == b[i];
      }
    }
    if SameUpToEnd(a, b) {
      forall i | 0 <= i < z ensures a[i] == b[i] {
        NulBefore(a, z, i);
      }
    }
  }

  lemma NulBefore(a: Bytes, z: nat, i: nat)
    requires z < |a| && a[z] == 0 && 0 !in a[..z] && i < |a|
    ensures 0 !in a[..i + 1] <==> i < z
  {
    if i < z {
      assert a[..i + 1] == a[..z][..i + 1];
    } else {
      assert a[..i + 1][z] == 0;
    }
  }

  /** strequal: true exactly when the first text is a prefix of the second buffer. */
  method StrEqual(a: Bytes, b: Bytes) returns (r: bool)
    requires |a| == |b| && NUL in a
    ensures r <==> Text(a) <= b
    ensures r <==> SameUpToEnd(a, b)
  {
    hide SameUpToEnd, Text;
    PrefixLiteral(a, b);
    ghost var z := FirstNulOf(a);
    var i := 0;
    while a[i] != NUL
      invariant 0 <= i <= z && a[..i] == b[..i]
      decreases |a| - i
    {
      if a[i] != b[i] {
        DiffersAt(a, b, z, i);
        return false;
      }
      assert a[..i + 1] == a[..i] + [a[i]] && b[..i + 1] == b[..i] + [b[i]];
      i := i + 1;
    }
    StopsAt(a, z, i);
    return true;
  }

  lemma FirstNulOf(a: Bytes) returns (z: nat)
    requires NUL in a
    ensures z < |a| && a[z] == 0 && 0 !in a[..z] && Text(a) == a[..z]
  {
    var i :| 0 <= i < |a| && a[i] == 0;
    z := FirstNul(a, i);
    TextUpTo(a, z);
  }

  lemma DiffersAt(a: Bytes, b: Bytes, z: nat, i: nat)
    requires |a| == |b| && i < z < |a| && a[i] != b[i]
    ensures !(a[..z] <= b)
  {
    assert a[..z][i] == a[i];
  }

  lemma StopsAt(a: Bytes, z: nat, i: nat)
    requires i <= z < |a| && 0 !in a[..z] && a[i] == 0
    ensures i == z
  {
    forall k | 0 <= k < z ensures a[k] != 0 {
      assert a[..z][k] == a[k];
    }
  }

  lemma {:induction false} TextOfPad(s: Bytes)
    requires |s| < NAME_SIZE && NUL !in s
    ensures Text(Pad16(s)) == s && NUL in Pad16(s)
  {
    TextOfPrefix(s, Zeros(NAME_SIZE - |s|));
    assert Pad16(s)[|s|] == NUL;
  }

  lemma {:induction false} TextOfPrefix(s: Bytes, rest: Bytes)
    requires NUL !in s && |rest| > 0 && rest[0] == NUL
    ensures Text(s + rest) == s
  {
    if s != [] {
      assert (s + rest)[1..] == s[1..] + rest;
      TextOfPrefix(s[1..], rest);
    } else {
      assert s + rest == rest;
    }
  }

  // ---- the name loop -------------------------------------------------------------------

  /** The buffers after reading `done`: the last two components, as far as they fit. */
  ghost predicate Buffers(file: Bytes, dir: Bytes, index: int, done: Bytes) {
    && |file| == NAME_SIZE && |dir| == NAME_SIZE && 0 <= index < NAME_SIZE
    && (|Base(done)| < NAME_SIZE ==> index == |Base(done)| && file == Pad16(Base(done)))
    && (|ParentName(done)| < NAME_SIZE ==> dir == Pad16(ParentName(done)))
    && NUL in dir
  }

  lemma BuffersStart()
    ensures Buffers(Zeros(NAME_SIZE), Zeros(NAME_SIZE), 0, [])
  {
    assert Zeros(NAME_SIZE) == Pad16([]) && Zeros(NAME_SIZE)[0] == NUL;
  }

  lemma BuffersSlash(file: Bytes, dir: Bytes, index: nat, done: Bytes)
    requires Buffers(file, dir, index, done)
    ensures Buffers(Zeros(NAME_SIZE), file[..index] + Zeros(NAME_SIZE - index), 0, done + [SLASH])
  {
    NameStep(done, SLASH);
    var dir' := file[..index] + Zeros(NAME_SIZE - index);
    assert dir'[index] == NUL;
    assert Zeros(NAME_SIZE) == Pad16([]);
    if |Base(done)| < NAME_SIZE {
      assert file[..index] == Base(done);
    }
  }

  lemma BuffersByte(file: Bytes, dir: Bytes, index: nat, done: Bytes, b: int)
    requires Buffers(file, dir, index, done) && b != SLASH
    ensures Buffers(file[index := b], dir, (index + 1) % NAME_SIZE, done + [b])
  {
    NameStep(done, b);
    hide Base, ParentName;
    if |Base(done)| < NAME_SIZE - 1 {
      assert file[index := b] == Pad16(Base(done) + [b]);
    }
  }

  /** Split the path at `pos` in place, in two 16-byte buffers. Long components wrap around in the buffer;
      the last two come out whole whenever they fit. */
  method ParseName(image: Bytes, pos: nat) returns (name: Bytes, parent: Bytes)
    ensures |name| == 16 && NUL in name && |parent| == 16 && NUL in parent
    ensures var path := PathText(image, pos);
      && (|Base(path)| < 16 ==> name == Pad16(Base(path)))
      && (|ParentName(path)| < 16 ==> parent == Pad16(ParentName(path)))
  {
    hide Base, ParentName, PathText, Buffers, Pad16;
    var file, dir := new int[NAME_SIZE](_ => NUL), new int[NAME_SIZE](_ => NUL);
    var index, at := 0, pos;
    ghost var done: Bytes := [];
    assert file[..] == Zeros(NAME_SIZE) && dir[..] == Zeros(NAME_SIZE);
    BuffersStart();
    hide Zeros;
    while true
      invariant pos <= at && 0 <= index < NAME_SIZE
      invariant PathText(image, pos) == done + PathText(image, at)
      invariant Buffers(file[..], dir[..], index, done)
      decreases |image| - at
    {
      var b := ByteAt(image, at);
      ghost var was := file[..];
      if b == SLASH {
        BuffersSlash(file[..], dir[..], index, done);
        ShiftBuffers(file, dir, index);
        index := 0;
      } else if b == NUL {
        file[index] := b;
        assert file[..] == was[index := NUL] && file[..][index] == NUL;
        TextEnds(image, pos, done, at);
        LastNul(was, dir[..], index, done);
        break;
      } else {
        BuffersByte(file[..], dir[..], index, done, b);
        file[index] := b;
        assert file[..] == was[index := b];
        index := (index + 1) % NAME_SIZE;
      }
      TextGoesOn(image, pos, done, at);
      done := done + [b];
      at := at + 1;
    }
    name, parent := file[..], dir[..];
  }

  lemma LastNul(file: Bytes, dir: Bytes, index: nat, done: Bytes)
    requires Buffers(file, dir, index, done)
    ensures |Base(done)| < NAME_SIZE ==> file[index := NUL] == Pad16(Base(done))
    ensures |ParentName(done)| < NAME_SIZE ==> dir == Pad16(ParentName(done))
    ensures |dir| == NAME_SIZE && NUL in dir
  {
  }

  lemma TextEnds(image: Bytes, pos: nat, done: Bytes, at: nat)
    requires PathText(image, pos) == done + PathText(image, at) && ByteAt(image, at) == NUL
    ensures PathText(image, pos) == done
  {
  }

  lemma TextGoesOn(image: Bytes, pos: nat, done: Bytes, at: nat)
    requires PathText(image, pos) == done + PathText(image, at) && ByteAt(image, at) != NUL
    ensures at < |image| && PathText(image, pos) == (done + [ByteAt(image, at)]) + PathText(image, at + 1)
  {
  }

  /** At a slash the name becomes the parent and both tails are cleared. */
  method ShiftBuffers(file: array<int>, dir: array<int>, index: nat)
    requires file.Length == NAME_SIZE && dir.Length == NAME_SIZE && file != dir && index < NAME_SIZE
    modifies file, dir
    ensures file[..] == Zeros(NAME_SIZE)
    ensures dir[..] == old(file[..index]) + Zeros(NAME_SIZE - index)
  {
    var j := 0;
    while j < index
      invariant 0 <= j <= index
      invariant forall k :: 0 <= k < j ==> dir[k] == old(file[k]) && file[k] == NUL
      invariant forall k :: j <= k < NAME_SIZE ==> file[k] == old(file[k])
    {
      dir[j] := file[j];
      file[j] := NUL;
      j := j + 1;
    }
    while j < NAME_SIZE
      invariant index <= j <= NAME_SIZE
      invariant forall k :: 0 <= k < index ==> dir[k] == old(file[k])
      invariant forall k :: index <= k < j ==> dir[k] == NUL
      invariant forall k :: 0 <= k < j ==> file[k] == NUL
    {
      dir[j] := NUL;
      file[j] := NUL;
      j := j + 1;
    }
  }
}
