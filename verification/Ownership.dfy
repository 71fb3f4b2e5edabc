/** Who holds each physical frame: the free list, a page table, a process slot, or the caller of kalloc.
    Every kernel operation moves frames between the free list and one other owner, so in every
    run the pool stays the disjoint union of what the owners hold. */
module Ownership {
  import opened Kalloc
  import opened PageTree
  import opened Process

  datatype Owner = FreeList | Pages(root: int) | Slot(index: int) | Loose

  /** Everything that claims frames. `building` has the slots under construction by a fork, with the frames it has
      taken for them so far. */
  datatype Books = Books(free: seq<int>, pool: set<int>, spaces: map<int, Nodes>, table: Table, loose: set<int>,
                         building: map<int, set<int>>)

  ghost function Holding(b: Books, o: Owner): set<int> {
    match o
    case FreeList => Listed(b.free)
    case Pages(r) => if r in b.spaces then b.spaces[r].Values * b.pool else {}
    case Slot(i) =>
      if i in b.building then b.building[i]
      else if 0 <= i < |b.table| && b.table[i].state != FREE then {b.table[i].stackFrame, b.table[i].trapFrame} else {}
    case Loose => b.loose
  }

  ghost predicate Holds(b: Books, o: Owner, f: int) {
    f in Holding(b, o)
  }

  /** Every frame of the pool has exactly one owner, and nobody owns anything else. */
  ghost predicate Partition(b: Books) {
    && (forall o, f :: Holds(b, o, f) ==> f in b.pool)
    && (forall f :: f in b.pool ==> exists o :: Holds(b, o, f))
    && (forall o, o', f :: Holds(b, o, f) && Holds(b, o', f) ==> o == o')
  }

  /** Frames move between the free list and owner `x`; nobody else is affected. */
  ghost predicate Exchange(b: Books, b': Books, x: Owner) {
    && x != FreeList && b'.pool == b.pool
    && (forall f :: Holds(b', FreeList, f) || Holds(b', x, f) <==> Holds(b, FreeList, f) || Holds(b, x, f))
    && (forall f :: !(Holds(b', FreeList, f) && Holds(b', x, f)))
    && (forall o, f :: o != FreeList && o != x ==> (Holds(b', o, f) <==> Holds(b, o, f)))
  }

  lemma ExchangeKeepsPartition(b: Books, b': Books, x: Owner)
    requires Partition(b) && Exchange(b, b', x)
    ensures Partition(b') && b'.pool == b.pool
  {
    hide Holds;
    forall f | f in b'.pool ensures exists o :: Holds(b', o, f) {
      var o :| Holds(b, o, f);
      if o != FreeList && o != x {
        assert Holds(b', o, f);
      } else {
        assert Holds(b', FreeList, f) || Holds(b', x, f);
      }
    }
    forall o, o', f | Holds(b', o, f) && Holds(b', o', f) ensures o == o' {
      var p := if o == FreeList || o == x then (if Holds(b, FreeList, f) then FreeList else x) else o;
      var p' := if o' == FreeList || o' == x then (if Holds(b, FreeList, f) then FreeList else x) else o';
      assert Holds(b, p, f) && Holds(b, p', f);
    }
  }

  ghost predicate Moves(b: Books, b': Books) {
    exists x :: Exchange(b, b', x)
  }

  /** Frame conservation over every run of exchanges. */
  lemma {:induction false} RunConserves(run: seq<Books>)
    requires |run| > 0 && Partition(run[0])
    requires forall i :: 0 <= i < |run| - 1 ==> Moves(run[i], run[i + 1])
    ensures Partition(run[|run| - 1]) && run[|run| - 1].pool == run[0].pool
    decreases |run|
  {
    hide Partition, Exchange;
    if |run| > 1 {
      var init := run[..|run| - 1];
      RunConserves(init);
      assert Moves(run[|run| - 2], run[|run| - 1]);
      var x :| Exchange(run[|run| - 2], run[|run| - 1], x);
      ExchangeKeepsPartition(run[|run| - 2], run[|run| - 1], x);
    }
  }

  // ---- page tables beside the operation ------------------------------------------------

  /** All trees on the books are in order. */
  ghost predicate Sound(mem: Memory, b: Books) {
    forall r :: r in b.spaces ==> SpaceIn(mem, b.free, b.pool, b.spaces[r]) && b.spaces[r][Top] == r
  }

  /** Only frames of the free list and of `x` are written. */
  ghost predicate WritesOnly(b: Books, x: Owner, mem: Memory, mem': Memory) {
    mem'.Keys == mem.Keys &&
    forall g :: g in mem && !Holds(b, FreeList, g) && !Holds(b, x, g) ==> mem'[g] == mem[g]
  }

  /** A tree that belongs to somebody else survives the exchange. */
  lemma OtherTreeKept(b: Books, b': Books, x: Owner, mem: Memory, mem': Memory, r: int)
    requires Partition(b) && Exchange(b, b', x) && WritesOnly(b, x, mem, mem') && Partition(b')
    requires r in b.spaces && x != Pages(r) && SpaceIn(mem, b.free, b.pool, b.spaces[r])
    ensures SpaceIn(mem', b'.free, b'.pool, b.spaces[r])
  {
    var nodes := b.spaces[r];
    forall p | p in nodes ensures nodes[p] !in b'.free {
      if nodes[p] in b.pool {
        assert Holds(b, Pages(r), nodes[p]);
        assert Holds(b', Pages(r), nodes[p]);
        assert !Holds(b', FreeList, nodes[p]);
      } else {
        assert !Holds(b', FreeList, nodes[p]);
      }
    }
    forall p | p in nodes && Level(p) < 4 ensures TableOK(mem', nodes, p) {
      assert TableOK(mem, nodes, p);
      assert Holds(b, Pages(r), nodes[p]);
      SameTable(mem, mem', nodes, nodes, p);
    }
  }

  /** After an exchange the books still balance, and only the tree of `x` remains to be checked. */
  lemma Settle(b: Books, b': Books, x: Owner, mem: Memory, mem': Memory)
    requires Partition(b) && Sound(mem, b) && Exchange(b, b', x) && WritesOnly(b, x, mem, mem')
    requires forall r :: r in b'.spaces && x != Pages(r) ==> r in b.spaces && b'.spaces[r] == b.spaces[r]
    requires x.Pages? && x.root in b'.spaces ==>
      SpaceIn(mem', b'.free, b'.pool, b'.spaces[x.root]) && b'.spaces[x.root][Top] == x.root
    ensures Partition(b') && Sound(mem', b')
  {
    ExchangeKeepsPartition(b, b', x);
    forall r | r in b'.spaces ensures SpaceIn(mem', b'.free, b'.pool, b'.spaces[r]) && b'.spaces[r][Top] == r {
      if x != Pages(r) {
        OtherTreeKept(b, b', x, mem, mem', r);
      }
    }
  }

  // ---- recognising an exchange ---------------------------------------------------------

  lemma LooseExchange(b: Books, b': Books)
    requires b'.pool == b.pool && b'.spaces == b.spaces && b'.table == b.table && b'.building == b.building
    requires Listed(b'.free) + b'.loose == Listed(b.free) + b.loose && Listed(b'.free) !! b'.loose
    ensures Exchange(b, b', Loose)
  {
    assert forall o, f :: o != FreeList && o != Loose ==> (Holds(b', o, f) <==> Holds(b, o, f));
    assert forall f :: Holds(b', FreeList, f) || Holds(b', Loose, f) <==> f in Listed(b'.free) + b'.loose;
    assert forall f :: Holds(b, FreeList, f) || Holds(b, Loose, f) <==> f in Listed(b.free) + b.loose;
  }

  lemma PagesExchange(b: Books, b': Books, r: int)
    requires b'.pool == b.pool && b'.loose == b.loose && b'.table == b.table && b'.building == b.building
    requires b'.spaces - {r} == b.spaces - {r}
    requires Listed(b'.free) + Holding(b', Pages(r)) == Listed(b.free) + Holding(b, Pages(r))
    requires Listed(b'.free) !! Holding(b', Pages(r))
    ensures Exchange(b, b', Pages(r))
  {
    forall o, f | o != FreeList && o != Pages(r) ensures Holds(b', o, f) <==> Holds(b, o, f) {
      if o.Pages? {
        assert o.root in b.spaces - {r} <==> o.root in b.spaces;
        assert o.root in b'.spaces - {r} <==> o.root in b'.spaces;
      }
    }
    assert forall f :: Holds(b', FreeList, f) || Holds(b', Pages(r), f) <==>
      f in Listed(b'.free) + Holding(b', Pages(r));
    assert forall f :: Holds(b, FreeList, f) || Holds(b, Pages(r), f) <==> f in Listed(b.free) + Holding(b, Pages(r));
  }

  lemma SlotExchange(b: Books, b': Books, i: int)
    requires b'.pool == b.pool && b'.loose == b.loose && b'.spaces == b.spaces
    requires forall k :: k != i ==> Holding(b', Slot(k)) == Holding(b, Slot(k))
    requires Listed(b'.free) + Holding(b', Slot(i)) == Listed(b.free) + Holding(b, Slot(i))
    requires Listed(b'.free) !! Holding(b', Slot(i))
    ensures Exchange(b, b', Slot(i))
  {
    forall o, f | o != FreeList && o != Slot(i) ensures Holds(b', o, f) <==> Holds(b, o, f) {
      if o.Slot? {
        assert Holding(b', Slot(o.index)) == Holding(b, Slot(o.index));
      }
    }
    assert forall f :: Holds(b', FreeList, f) || Holds(b', Slot(i), f) <==>
      f in Listed(b'.free) + Holding(b', Slot(i));
    assert forall f :: Holds(b, FreeList, f) || Holds(b, Slot(i), f) <==> f in Listed(b.free) + Holding(b, Slot(i));
  }
}
