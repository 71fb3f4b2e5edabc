/** Lines of kernel/kalloc.c, kernel/vmem.c and kernel/string.c that do something other than what the code
    around them needs. Each is stated as written, with the exact condition under which it does what was meant. */
module Departures {
  import opened Kalloc
  import opened PageTree

  // ---- kalloc_init ---------------------------------------------------------------------

  /** The free list kalloc_init builds always ends with a frame that reaches past the end of the region. */
  lemma LastFrameOverruns(list: seq<int>, start: int, end: int)
    requires start + PAGE_SIZE < end && Evenly(list, start) && |list| == (end - start) / PAGE_SIZE + 1
    ensures var last := list[|list| - 1];
      last <= end < last + PAGE_SIZE && (last == end <==> (end - start) % PAGE_SIZE == 0)
  {
    var n := (end - start) / PAGE_SIZE;
    assert list[n] == start + n * PAGE_SIZE;
  }

  /** Every frame between the two bounds is on the list: all of the archive that begins at 0x8000000. */
  lemma ArchiveOnList(list: seq<int>, start: int, end: int, f: int)
    requires IsFrame(start) && start + PAGE_SIZE < end && start <= f <= end && IsFrame(f)
    requires Evenly(list, start) && |list| == (end - start) / PAGE_SIZE + 1
    ensures f in list
  {
    var i := (f - start) / PAGE_SIZE;
    assert list[i] == start + i * PAGE_SIZE == f;
  }

  // ---- kfree(page) ---------------------------------------------------------------------

  /** kfree on the address `page` itself: the frame freed is the one the page's first word names, be it NULL. */
  function LiteralKfree(mem: Memory, head: int, page: int): (r: (Memory, int))
    requires page in mem && |mem[page]| == WORDS
  {
    var f := mem[page][0];
    (mem[f := ZeroPage()[0 := head]], f)
  }

  /** It frees the page only if the page happens to start with its own address. */
  lemma LiteralKfreeExact(mem: Memory, head: int, page: int)
    requires page in mem && |mem[page]| == WORDS
    ensures LiteralKfree(mem, head, page) == (mem[page := ZeroPage()[0 := head]], page) <==> mem[page][0] == page
  {
  }

  /** On a table that has become empty the first word is NULL: the head of the free list is lost, and with it every
      frame that was free. The next kalloc fails, and the page is neither cleared nor freed. */
  lemma LiteralKfreeOfEmptyTable(mem: Memory, head: int, page: int, list: seq<int>)
    requires page in mem && |mem[page]| == WORDS && page != NULL && mem[page][0] == NULL
    requires NULL !in list && IsList(LiteralKfree(mem, head, page).0, LiteralKfree(mem, head, page).1, list)
    ensures list == [] && LiteralKfree(mem, head, page).0[page] == mem[page]
  {
  }

  /** On a page that starts with another address, that frame is cleared and freed in its place. */
  lemma LiteralKfreeOfOtherPage(mem: Memory, head: int, page: int, list: seq<int>)
    requires page in mem && |mem[page]| == WORDS && IsList(mem, head, list) && page !in list
    requires var f := mem[page][0]; f != NULL && f != page && f !in list
    ensures var (mem', head') := LiteralKfree(mem, head, page);
      IsList(mem', head', [mem[page][0]] + list) && page !in [mem[page][0]] + list && mem'[page] == mem[page]
  {
    var all := [mem[page][0]] + list;
    assert forall i :: 0 < i <= |all| ==> Link(all, i) == Link(list, i - 1);
  }

  // ---- free_page -----------------------------------------------------------------------

  /** The index free_page uses on its way down: LVL_ADDR(va, i-1) expands to a shift by 39 - (i - 1*9). */
  function LiteralIndex(va: int, i: nat): int
    requires 1 <= i <= 4
  {
    (if i == 1 then va / 0x8000_0000_0000 else if i == 2 then va / 0x4000_0000_0000
     else if i == 3 then va / 0x2000_0000_0000 else va / 0x1000_0000_0000) % WORDS
  }

  /** The one page number that is looked up in the right entries, for each value of address bits 55..48. */
  function LuckyPage(top: int): int {
    (top * 2 + top / 128) * 0x800_0000 + (top % 128 * 4 + top / 64) * 0x4_0000 + (top % 64 * 8 + top / 32) * 0x200
    + (top % 32 * 16 + top / 16)
  }

  /** The four literal indices are made of address bits 55..44. */
  lemma LiteralDigits(x: int)
    requires x >= 0
    ensures var top, first := x / 512 % 256, x % 512;
      && x / 256 % 512 == top * 2 + first / 256 && x / 128 % 512 == top % 128 * 4 + first / 128
      && x / 64 % 512 == top % 64 * 8 + first / 64 && x / 32 % 512 == top % 32 * 16 + first / 32
  {
    var z, top, first := x / 512 / 256, x / 512 % 256, x % 512;
    assert x == 0x2_0000 * z + 512 * top + first;
    Digit256(z, top, first);
    Digit128(z, top, first);
    Digit64(z, top, first);
    Digit32(z, top, first);
  }

  lemma Digit256(z: int, top: int, first: int)
    requires 0 <= top < 256 && 0 <= first < 512
    ensures (0x2_0000 * z + 512 * top + first) / 256 % 512 == top % 256 * 2 + first / 256
  {
    var n := 0x2_0000 / 256 * z + 2 * top;
    assert (n * 256 + first) / 256 == n + first / 256;
    Low512(1 * z + top / 256, top % 256 * 2 + first / 256);
  }

  lemma Digit128(z: int, top: int, first: int)
    requires 0 <= top < 256 && 0 <= first < 512
    ensures (0x2_0000 * z + 512 * top + first) / 128 % 512 == top % 128 * 4 + first / 128
  {
    var n := 0x2_0000 / 128 * z + 4 * top;
    assert (n * 128 + first) / 128 == n + first / 128;
    Low512(2 * z + top / 128, top % 128 * 4 + first / 128);
  }

  lemma Digit64(z: int, top: int, first: int)
    requires 0 <= top < 256 && 0 <= first < 512
    ensures (0x2_0000 * z + 512 * top + first) / 64 % 512 == top % 64 * 8 + first / 64
  {
    var n := 0x2_0000 / 64 * z + 8 * top;
    assert (n * 64 + first) / 64 == n + first / 64;
    Low512(4 * z + top / 64, top % 64 * 8 + first / 64);
  }

  lemma Digit32(z: int, top: int, first: int)
    requires 0 <= top < 256 && 0 <= first < 512
    ensures (0x2_0000 * z + 512 * top + first) / 32 % 512 == top % 32 * 16 + first / 32
  {
    var n := 0x2_0000 / 32 * z + 16 * top;
    assert (n * 32 + first) / 32 == n + first / 32;
    Low512(8 * z + top / 32, top % 32 * 16 + first / 32);
  }

  lemma Low512(n: int, low: int)
    requires 0 <= low < 512
    ensures (512 * n + low) % 512 == low
  {
  }

  lemma DigitsAgree(top: int, i0: int, i1: int, i2: int, i3: int)
    requires 0 <= top < 256 && 0 <= i0 < 512 && 0 <= i1 < 512 && 0 <= i2 < 512 && 0 <= i3 < 512
    ensures (i0 == top * 2 + i0 / 256 && i1 == top % 128 * 4 + i0 / 128 && i2 == top % 64 * 8 + i0 / 64
             && i3 == top % 32 * 16 + i0 / 32) <==>
      i0 * 0x800_0000 + i1 * 0x4_0000 + i2 * 0x200 + i3 == LuckyPage(top)
  {
    FirstDigit(top, i0);
    if i0 == top * 2 + top / 128 {
      assert i0 / 128 == top / 64 && i0 / 64 == top / 32 && i0 / 32 == top / 16;
    }
  }

  lemma FirstDigit(top: int, i0: int)
    requires 0 <= top < 256 && 0 <= i0 < 512
    ensures i0 == top * 2 + i0 / 256 <==> i0 == top * 2 + top / 128
  {
  }

  lemma LiteralShifts(va: int)
    requires va >= 0
    ensures var x := va / 0x80_0000_0000;
      && va / 0x8000_0000_0000 == x / 256 && va / 0x4000_0000_0000 == x / 128
      && va / 0x2000_0000_0000 == x / 64 && va / 0x1000_0000_0000 == x / 32 && va / 0x1_0000_0000_0000 == x / 512
  {
  }

  /** Whatever the address, all four indices are right exactly on the one lucky page for its bits 55..48. */
  lemma LiteralIndexExact(va: int)
    requires va >= 0
    ensures (forall i :: 1 <= i <= 4 ==> LiteralIndex(va, i) == Index(va, i - 1)) <==>
      PageNumber(va) == LuckyPage(va / 0x1_0000_0000_0000 % 256)
  {
    var x := va / 0x80_0000_0000;
    LiteralShifts(va);
    LiteralDigits(x);
    PageDigits(va);
    var top := x / 512 % 256;
    DigitsAgree(top, Index(va, 0), Index(va, 1), Index(va, 2), Index(va, 3));
    hide LuckyPage;
    assert LiteralIndex(va, 1) == top * 2 + Index(va, 0) / 256;
    assert LiteralIndex(va, 2) == top % 128 * 4 + Index(va, 0) / 128;
    assert LiteralIndex(va, 3) == top % 64 * 8 + Index(va, 0) / 64;
    assert LiteralIndex(va, 4) == top % 32 * 16 + Index(va, 0) / 32;
  }

  /** For user addresses that is page 0, for kernel addresses (from VKERN_START up) the last page there is. */
  lemma LiteralIndexCanonical(va: int)
    requires 0 <= va < 0x1_0000_0000_0000 || 0xFFFF_0000_0000_0000 <= va < 0x1_0000_0000_0000_0000
    ensures (forall i :: 1 <= i <= 4 ==> LiteralIndex(va, i) == Index(va, i - 1)) <==>
      PageNumber(va) == if va < 0x1_0000_0000_0000 then 0 else PHYS_LIMIT - 1
  {
    assert LuckyPage(0) == 0 && LuckyPage(255) == PHYS_LIMIT - 1;
    hide LuckyPage, LiteralIndex, Index, PageNumber;
    CanonicalTop(va);
    LiteralIndexExact(va);
  }

  lemma CanonicalTop(va: int)
    requires 0 <= va < 0x1_0000_0000_0000 || 0xFFFF_0000_0000_0000 <= va < 0x1_0000_0000_0000_0000
    ensures va / 0x1_0000_0000_0000 % 256 == if va < 0x1_0000_0000_0000 then 0 else 255
  {
    assert va / 0x1_0000_0000_0000 == if va < 0x1_0000_0000_0000 then 0 else 0xFFFF;
  }

  /** The presence test of line 216 with the indices repaired: all four look into the root table. */
  predicate LiteralGate(mem: Memory, root: int, va: int)
    requires root in mem && |mem[root]| == WORDS
  {
    forall i: nat :: i < 4 ==> Present(mem[root][Index(va, i)])
  }

  /** It passes exactly when the root table has entries for all four indices of the address. So a mapped page
      is left mapped as soon as one of the other three is missing, and an unmapped page can pass. */
  lemma LiteralGateExact(mem: Memory, nodes: Nodes, va: int)
    requires Tree(mem, nodes)
    ensures nodes[Top] in mem && |mem[nodes[Top]]| == WORDS
    ensures LiteralGate(mem, nodes[Top], va) <==> forall i: nat :: i < 4 ==> Sub(Top, Index(va, i)) in nodes
    ensures LeafAt(nodes, va).Some? ==> (LiteralGate(mem, nodes[Top], va) <==>
      forall i: nat :: 1 <= i < 4 ==> Sub(Top, Index(va, i)) in nodes)
  {
    assert TableOK(mem, nodes, Top);
    if LeafAt(nodes, va).Some? && PathOf(va, 1) !in nodes {
      PrefixMissing(nodes, va, 1, 4);
    }
    assert PathOf(va, 1) == Sub(Top, Index(va, 0));
  }

  // ---- strcpy --------------------------------------------------------------------------

  /** strcpy, whose pointers stay where they are. */
  method LiteralStrcpy(src: array<int>, dst: array<int>, size: nat)
    requires src != dst && src.Length == dst.Length == size
    modifies dst
    ensures size > 0 ==> dst[..] == [src[0]] + old(dst[1..])
    ensures dst[..] == src[..] <==> forall i :: 1 <= i < size ==> old(dst[i]) == src[i]
  {
    var i := 0;
    while i < size
      invariant 0 <= i <= size
      invariant i == 0 ==> dst[..] == old(dst[..])
      invariant i > 0 ==> dst[..] == [src[0]] + old(dst[1..])
    {
      dst[0] := src[0];
      i := i + 1;
    }
    assert size > 0 ==> forall k :: 1 <= k < size ==> dst[..][k] == old(dst[k]);
    assert dst[..] == src[..] ==> forall k :: 0 <= k < size ==> dst[..][k] == src[..][k];
  }
}
