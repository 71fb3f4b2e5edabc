/** The physical frame allocator of kernel/kalloc.c: an intrusive free list threaded
    through the first word of every free frame. */
module Kalloc {
  const PAGE_SIZE := 4096
  const WORDS := 512
  const NULL := 0
  const PHYS_LIMIT := 0x10_0000_0000

  /** Physical memory: frame address to the frame's 512 words. */
  type Memory = map<int, seq<int>>

  /** Addresses the allocator may hand out: aligned, not NULL, within the 36-bit entry field. */
  predicate IsFrame(f: int) {
    0 < f < PHYS_LIMIT && f % PAGE_SIZE == 0
  }

  function ZeroPage(): (p: seq<int>)
    ensures |p| == WORDS && forall i :: 0 <= i < WORDS ==> p[i] == 0
  {
    seq(WORDS, _ => 0)
  }

  /** The word stored in the link that leads to element `i` of the list. */
  function Link(list: seq<int>, i: nat): int {
    if i < |list| then list[i] else NULL
  }

  /** The frames on a list. */
  function Listed(free: seq<int>): set<int> {
    set f | f in free
  }

  ghost predicate Distinct(list: seq<int>) {
    forall i, j :: 0 <= i < j < |list| ==> list[i] != list[j]
  }

  /** `list` is exactly what is found by following `next` words from `head`. */
  ghost predicate IsList(mem: Memory, head: int, list: seq<int>) {
    && head == Link(list, 0)
    && Distinct(list)
    && forall i :: 0 <= i < |list| ==>
         list[i] in mem && |mem[list[i]]| == WORDS && mem[list[i]][0] == Link(list, i + 1)
  }

  /** `list` is start, start + 4096, start + 8192, ... */
  ghost predicate Evenly(list: seq<int>, start: int) {
    forall i :: 0 <= i < |list| ==> list[i] == start + i * PAGE_SIZE
  }

  /** An unfinished list: every frame but the last links to its successor. */
  ghost predicate Chain(mem: Memory, list: seq<int>) {
    && Distinct(list)
    && (forall i :: 0 <= i < |list| ==> IsFrame(list[i]) && list[i] in mem && |mem[list[i]]| == WORDS)
    && (forall i :: 0 <= i < |list| - 1 ==> mem[list[i]][0] == list[i + 1])
  }

  lemma ChainExtend(mem: Memory, list: seq<int>, next: int)
    requires Chain(mem, list) && |list| > 0
    requires IsFrame(next) && next !in list && next in mem && |mem[next]| == WORDS
    ensures var last := list[|list| - 1]; Chain(mem[last := mem[last][0 := next]], list + [next])
  {
  }

  lemma ChainEnd(mem: Memory, list: seq<int>)
    requires Chain(mem, list) && |list| > 0
    ensures var last := list[|list| - 1]; IsList(mem[last := mem[last][0 := NULL]], list[0], list)
  {
  }

  /** Frames from `start` on have been threaded, in order; nothing else has changed. */
  ghost predicate Threaded(mem: Memory, mem': Memory, list: seq<int>, start: int) {
    && |list| >= 1 && Evenly(list, start) && Chain(mem', list) && mem'.Keys == mem.Keys
    && (forall f :: f in mem' ==> |mem'[f]| == WORDS)
    && (forall f :: f in mem' && f !in list ==> mem'[f] == mem[f])
  }

  lemma ThreadStart(mem: Memory, start: int)
    requires start in mem && IsFrame(start) && forall f :: f in mem ==> |mem[f]| == WORDS
    ensures Threaded(mem, mem, [start], start)
  {
  }

  lemma ThreadStep(mem: Memory, mem': Memory, list: seq<int>, start: int, end: int)
    requires Threaded(mem, mem', list, start) && IsFrame(start) && end < PHYS_LIMIT
    requires forall f :: start <= f <= end && IsFrame(f) ==> f in mem
    requires start + |list| * PAGE_SIZE <= end
    ensures var last, next := start + (|list| - 1) * PAGE_SIZE, start + |list| * PAGE_SIZE;
      last in mem' && |mem'[last]| == WORDS && Threaded(mem, mem'[last := mem'[last][0 := next]], list + [next], start)
  {
    var last, next := list[|list| - 1], start + |list| * PAGE_SIZE;
    assert IsFrame(next) && next !in list;
    ChainExtend(mem', list, next);
    hide Chain, IsFrame;
    assert last in list;
  }

  lemma ThreadEnd(mem: Memory, mem': Memory, list: seq<int>, start: int)
    requires Threaded(mem, mem', list, start)
    ensures start + (|list| - 1) * PAGE_SIZE in mem' && |mem'[start + (|list| - 1) * PAGE_SIZE]| == WORDS
    ensures var last := start + (|list| - 1) * PAGE_SIZE;
      var done := mem'[last := mem'[last][0 := NULL]];
      && IsList(done, start, list) && Evenly(list, start) && done.Keys == mem.Keys
      && (forall f :: f in done ==> |done[f]| == WORDS) && (forall f :: f in list ==> IsFrame(f))
      && forall f :: f in done && f !in list ==> done[f] == mem[f]
  {
    LastThreaded(mem, mem', list, start);
    ChainEnd(mem', list);
    hide IsList, Chain, Evenly, IsFrame;
  }

  lemma LastThreaded(mem: Memory, mem': Memory, list: seq<int>, start: int)
    requires Threaded(mem, mem', list, start)
    ensures list[0] == start && list[|list| - 1] == start + (|list| - 1) * PAGE_SIZE && list[|list| - 1] in list
    ensures list[|list| - 1] in mem' && forall f :: f in list ==> IsFrame(f)
  {
  }

  /** kfree puts a frame that is not on the list at its head. */
  lemma ListExtends(mem: Memory, head: int, list: seq<int>, f: int)
    requires IsList(mem, head, list) && f !in list
    ensures IsList(mem[f := ZeroPage()[0 := head]], f, [f] + list)
  {
    assert forall i :: 0 < i <= |list| + 1 ==> Link([f] + list, i) == Link(list, i - 1);
  }

  /** Two lists that meet run on together, as far as the frames of the first are the same in both memories. */
  lemma {:induction false} ListsRunOn(mem: Memory, head: int, list: seq<int>, mem': Memory, head': int, list': seq<int>,
                                      at: nat, j: nat)
    requires IsList(mem, head, list) && IsList(mem', head', list') && j < |list| && NULL !in list
    requires Link(list', at) == head && forall k :: 0 <= k < j ==> list[k] in mem' && mem'[list[k]] == mem[list[k]]
    ensures at + j < |list'| && list'[at + j] == list[j]
  {
    assert list[j] in list;
    if j > 0 {
      ListsRunOn(mem, head, list, mem', head', list', at, j - 1);
      assert mem'[list'[at + j - 1]][0] == Link(list', at + j) == list[j];
    }
  }

  lemma {:induction false} FirstAmong(list: seq<int>, some: set<int>, i: nat) returns (j: nat)
    requires i < |list| && list[i] in some
    ensures j < |list| && list[j] in some && forall k :: 0 <= k < j ==> list[k] !in some
  {
    if k :| 0 <= k < i && list[k] in some {
      j := FirstAmong(list, some, k);
    } else {
      j := i;
    }
  }

  /** kfree of a frame that is free already makes the list circular: nothing is left that is a list. */
  lemma DoubleFreeCycles(mem: Memory, head: int, list: seq<int>, f: int, list': seq<int>)
    requires IsList(mem, head, list) && f in list && NULL !in list
    ensures !IsList(mem[f := ZeroPage()[0 := head]], f, list')
  {
    var mem' := mem[f := ZeroPage()[0 := head]];
    if IsList(mem', f, list') {
      assert f != NULL && list'[0] == f && Link(list', 1) == head;
      var i :| 0 <= i < |list| && list[i] == f;
      var j := FirstAmong(list, {f}, i);
      ListsRunOn(mem, head, list, mem', f, list', 1, j);
    }
  }

  /** `free` is the list that starts at `head`, and all of it belongs to the pool. */
  ghost predicate Healthy(mem: Memory, head: int, free: seq<int>, pool: set<int>) {
    && (forall f :: f in mem ==> |mem[f]| == WORDS)
    && (forall f :: f in pool ==> f in mem && IsFrame(f))
    && (forall f :: f in free ==> f in pool)
    && IsList(mem, head, free)
  }

  class Allocator {
    var mem: Memory
    var head: int
    /** The free list, head first. */
    ghost var free: seq<int>
    /** Every frame the allocator has ever been responsible for. */
    ghost var pool: set<int>

    ghost predicate Valid()
      reads this
    {
      Healthy(mem, head, free, pool)
    }

    /** The allocator before boot: all of RAM present, nothing handed over yet. */
    constructor (ram: Memory)
      requires forall f :: f in ram ==> |ram[f]| == WORDS
      ensures Valid() && mem == ram && free == [] && pool == {}
    {
      mem, head, free, pool := ram, NULL, [], {};
    }

    /** kalloc_init: frames start, start + 4096, ... while the address is <= end. */
    method Init(start: int, end: int)
      requires Valid() && free == [] && pool == {}
      requires IsFrame(start) && end < PHYS_LIMIT
      requires forall f :: start <= f <= end && IsFrame(f) ==> f in mem
      modifies this
      ensures Valid()
      ensures |free| == if start + 4096 < end then (end - start) / 4096 + 1 else 0
      ensures Evenly(free, start) && forall i :: 0 <= i < |free| ==> free[i] == start + i * 4096
      ensures pool == Listed(free)
      ensures mem.Keys == old(mem).Keys
      ensures forall f :: f in mem && f !in free ==> mem[f] == old(mem)[f]
    {
      if start + PAGE_SIZE < end {
        head := start;
        free := ThreadFrames(start, end);
        pool := Listed(free);
      }
    }

    /** The threading loop of kalloc_init. */
    method ThreadFrames(start: int, end: int) returns (ghost list: seq<int>)
      requires forall f :: f in mem ==> |mem[f]| == WORDS
      requires IsFrame(start) && start + PAGE_SIZE < end < PHYS_LIMIT
      requires forall f :: start <= f <= end && IsFrame(f) ==> f in mem
      modifies this`mem
      ensures |list| == (end - start) / PAGE_SIZE + 1 && Evenly(list, start)
      ensures IsList(mem, start, list)
      ensures mem.Keys == old(mem).Keys
      ensures forall f :: f in mem ==> |mem[f]| == WORDS
      ensures forall f :: f in list ==> IsFrame(f)
      ensures forall f :: f in mem && f !in list ==> mem[f] == old(mem)[f]
    {
      hide Threaded, IsList, Evenly;
      var previous, current := start, start + PAGE_SIZE;
      list := [previous];
      ThreadStart(mem, start);
      while current <= end
        invariant |list| >= 1 && previous == start + (|list| - 1) * PAGE_SIZE <= end && current == previous + PAGE_SIZE
        invariant Threaded(old(mem), mem, list, start)
        decreases end - current
      {
        ThreadStep(old(mem), mem, list, start, end);
        mem := mem[previous := mem[previous][0 := current]];
        list := list + [current];
        previous, current := current, current + PAGE_SIZE;
      }
      ThreadEnd(old(mem), mem, list, start);
      mem := mem[previous := mem[previous][0 := NULL]];
    }

    /** clear_page: the link word, then the data words one by one. An address without known contents is written too. */
    method ClearPage(f: int)
      requires f in mem ==> |mem[f]| == WORDS
      modifies this`mem
      ensures mem == old(mem)[f := ZeroPage()]
    {
      var page := (if f in mem then mem[f] else ZeroPage())[0 := NULL];
      var i := 1;
      while i < WORDS
        invariant 1 <= i <= WORDS && |page| == WORDS
        invariant forall k :: 0 <= k < i ==> page[k] == 0
      {
        page := page[i := 0];
        i := i + 1;
      }
      assert page == ZeroPage();
      mem := mem[f := page];
    }

    /** What kfree writes, given the address of a variable holding `f`, whatever `f` is. */
    method Release(f: int)
      requires f in mem ==> |mem[f]| == WORDS
      modifies this`mem, this`head
      ensures mem == old(mem)[f := ZeroPage()[0 := old(head)]] && head == f
    {
      ClearPage(f);
      mem := mem[f := mem[f][0 := head]];
      head := f;
    }

    /** kfree of a frame that is not free. A frame from outside the pool is adopted. */
    method Kfree(f: int)
      requires Valid()
      requires f in mem && IsFrame(f) && f !in free
      modifies this
      ensures Valid()
      ensures free == [f] + old(free)
      ensures pool == old(pool) + {f}
      ensures f in old(pool) ==> pool == old(pool)
      ensures mem == old(mem)[f := ZeroPage()[0 := Link(old(free), 0)]]
    {
      ListExtends(mem, head, free, f);
      Release(f);
      free := [f] + free;
      pool := pool + {f};
    }

    /** kalloc: unlink and clear the head frame; NULL stands for the -1 return. */
    method Kalloc() returns (f: int)
      requires Valid()
      modifies this`mem, this`head, this`free
      ensures Valid()
      ensures f == NULL <==> old(free) == []
      ensures f == NULL ==> mem == old(mem) && free == old(free) && head == old(head)
      ensures f != NULL ==> f == old(free)[0] && free == old(free)[1..] && mem == old(mem)[f := ZeroPage()]
      ensures f != NULL ==> f in pool && f !in free
    {
      f := head;
      if f == NULL {
        return;
      }
      assert f == free[0];
      head := mem[f][0];
      ClearPage(f);
      free := free[1..];
      assert forall i :: 0 <= i <= |free| ==> Link(free, i) == Link(old(free), i + 1);
    }

    /** A load from a frame that somebody owns; a frame on the free list may not be read this way. */
    method Load(f: int, i: int) returns (w: int)
      requires Valid() && f in mem && f !in free && 0 <= i < WORDS
      ensures w == mem[f][i]
    {
      w := mem[f][i];
    }

    /** A whole-page copy between owned frames, word by word. */
    method CopyPage(from: int, to: int)
      requires Valid() && from in mem && to in mem && to !in free
      modifies this`mem
      ensures Valid()
      ensures mem == old(mem)[to := old(mem)[from]]
    {
      var page := mem[to];
      var i := 0;
      while i < WORDS
        invariant 0 <= i <= WORDS && |page| == WORDS
        invariant forall k :: 0 <= k < i ==> page[k] == mem[from][k]
      {
        page := page[i := mem[from][i]];
        i := i + 1;
      }
      assert page == mem[from];
      mem := mem[to := page];
    }

    /** A store into a frame that somebody owns. */
    method Store(f: int, i: int, w: int)
      requires Valid() && f in mem && f !in free && 0 <= i < WORDS
      modifies this`mem
      ensures Valid()
      ensures mem == old(mem)[f := old(mem)[f][i := w]]
    {
      mem := mem[f := mem[f][i := w]];
    }
  }

  lemma PoolFrame(a: Allocator, f: int)
    requires a.Valid() && f in a.pool
    ensures f in a.mem && IsFrame(f)
  {
  }
}
