/** The scratch bump allocator: every block handed out since the last reset is in bounds, aligned
    and apart from all others. */
module Scratch {
  import opened Options
  import opened Digits

  datatype Block = Block(addr: nat, size: nat, align: nat)
  {
    function End(): (e: nat)
    {
      addr + size
    }
  }

  /** A request for count objects of a type with a given size and alignment. */
  datatype Request = Request(count: nat, size: nat, align: nat)

  predicate Sensible(r: Request)
  {
    r.size > 0 && r.align > 0
  }

  /** Bytes to skip from an address to the next multiple of the alignment. */
  function Padding(addr: nat, align: nat): (p: nat)
    requires align > 0
  {
    (align - addr % align) % align
  }

  lemma PaddingAligns(addr: nat, align: nat)
    requires align > 0
    ensures Padding(addr, align) < align && (addr + Padding(addr, align)) % align == 0
  {
    var k, r := addr / align, addr % align;
    DivFacts(addr, align);
    if r == 0 {
      QuotientUnique(align, align, 1, 0);
    } else {
      QuotientUnique(align - r, align, 0, align - r);
      NextMultiple(addr, align, k, r);
    }
  }

  lemma NextMultiple(addr: nat, align: nat, k: nat, r: nat)
    requires r < align && addr == k * align + r
    ensures (addr + (align - r)) % align == 0
  {
    var n := addr + (align - r);
    assert n == (k + 1) * align + 0;
    QuotientUnique(n, align, k + 1, 0);
  }

  /** No shorter gap would do. */
  lemma PaddingIsLeast(addr: nat, align: nat, gap: nat)
    requires align > 0 && (addr + gap) % align == 0
    ensures Padding(addr, align) <= gap
  {
    var k, r := addr / align, addr % align;
    DivFacts(addr, align);
    if r == 0 {
      QuotientUnique(align, align, 1, 0);
    } else {
      QuotientUnique(align - r, align, 0, align - r);
      if gap < align - r {
        QuotientUnique(addr + gap, align, k, r + gap);
        assert false;
      }
    }
  }

  /** Whether a request fits at a position. */
  predicate Fits(base: nat, capacity: nat, pos: nat, r: Request)
    requires Sensible(r)
  {
    r.count > 0 && pos + Padding(base + pos, r.align) + r.count * r.size <= capacity
  }

  function BlockFor(base: nat, pos: nat, r: Request): (b: Block)
    requires Sensible(r)
  {
    Block(base + pos + Padding(base + pos, r.align), r.count * r.size, r.align)
  }

  /** In bounds, aligned, and each block after the ones before it. */
  ghost predicate Apart(base: nat, limit: nat, blocks: seq<Block>)
  {
    && (forall i :: 0 <= i < |blocks| ==>
          base <= blocks[i].addr && blocks[i].End() <= limit && blocks[i].size > 0
          && blocks[i].align > 0 && blocks[i].addr % blocks[i].align == 0)
    && (forall i, j :: 0 <= i < j < |blocks| ==> blocks[i].End() <= blocks[j].addr)
  }

  /** An address where a request could be served. */
  ghost predicate CouldHold(base: nat, capacity: nat, pos: nat, r: Request, a: nat)
    requires Sensible(r)
  {
    a % r.align == 0 && base + pos <= a && a + r.count * r.size <= base + capacity
  }

  /** A request fits exactly when there is such an address, and is served at the least one. */
  lemma ServedAtLeast(base: nat, capacity: nat, pos: nat, r: Request, a: nat)
    requires Sensible(r)
    ensures Fits(base, capacity, pos, r) ==> r.count > 0 && CouldHold(base, capacity, pos, r, BlockFor(base, pos, r).addr)
    ensures r.count > 0 && CouldHold(base, capacity, pos, r, a) ==>
              Fits(base, capacity, pos, r) && BlockFor(base, pos, r).addr <= a
  {
    PaddingAligns(base + pos, r.align);
    if CouldHold(base, capacity, pos, r, a) {
      PaddingIsLeast(base + pos, r.align, a - (base + pos));
    }
    hide Padding;
  }

  lemma BlockIsPlaced(base: nat, capacity: nat, pos: nat, r: Request)
    requires Sensible(r) && Fits(base, capacity, pos, r)
    ensures var b := BlockFor(base, pos, r);
            base + pos <= b.addr && b.size > 0 && b.End() <= base + capacity && b.addr % b.align == 0
  {
    PaddingAligns(base + pos, r.align);
    MulMonotone(1, r.size, r.count);
    hide Padding;
  }

  lemma AnotherApart(base: nat, pos: nat, blocks: seq<Block>, b: Block)
    requires Apart(base, base + pos, blocks)
    requires base + pos <= b.addr && b.size > 0 && b.align > 0 && b.addr % b.align == 0
    ensures Apart(base, b.End(), blocks + [b])
  {
  }

  /** What a run of requests hands out from a position on, and where it ends. */
  function Served(base: nat, capacity: nat, pos: nat, requests: seq<Request>): (r: (seq<Block>, nat))
    requires forall i :: 0 <= i < |requests| ==> Sensible(requests[i])
    decreases |requests|
  {
    if requests == [] then ([], pos)
    else
      var n := |requests| - 1;
      var (blocks, at) := Served(base, capacity, pos, requests[..n]);
      if Fits(base, capacity, at, requests[n])
      then (blocks + [BlockFor(base, at, requests[n])], BlockFor(base, at, requests[n]).End() - base)
      else (blocks, at)
  }

  /** Every run of requests, with any mix of successes and failures, hands out blocks that are in
      bounds, aligned and disjoint. */
  lemma {:induction false} ServedApart(base: nat, capacity: nat, pos: nat, requests: seq<Request>)
    requires pos <= capacity
    requires forall i :: 0 <= i < |requests| ==> Sensible(requests[i])
    ensures var (blocks, end) := Served(base, capacity, pos, requests);
            pos <= end <= capacity && Apart(base + pos, base + end, blocks)
    decreases |requests|
  {
    if requests != [] {
      var n := |requests| - 1;
      ServedApart(base, capacity, pos, requests[..n]);
      var (blocks, at) := Served(base, capacity, pos, requests[..n]);
      if Fits(base, capacity, at, requests[n]) {
        BlockIsPlaced(base, capacity, at, requests[n]);
        AnotherApart(base + pos, at - pos, blocks, BlockFor(base, at, requests[n]));
      }
    }
  }

  /** Blocks served by a child over the remaining space come after all blocks of the parent. */
  lemma ChildBeyondParent(base: nat, capacity: nat, mine: seq<Request>, childs: seq<Request>)
    requires forall i :: 0 <= i < |mine| ==> Sensible(mine[i])
    requires forall i :: 0 <= i < |childs| ==> Sensible(childs[i])
    ensures var (blocks, pos) := Served(base, capacity, 0, mine);
            pos <= capacity &&
            var (inner, end) := Served(base + pos, capacity - pos, 0, childs);
            Apart(base, base + capacity, blocks + inner)
  {
    hide Served;
    ServedApart(base, capacity, 0, mine);
    var (blocks, pos) := Served(base, capacity, 0, mine);
    ServedApart(base + pos, capacity - pos, 0, childs);
  }

  class ScratchAllocator {
    const base: nat
    const capacity: nat
    var pos: nat
    ghost var blocks: seq<Block>

    ghost predicate Valid()
      reads this
    {
      pos <= capacity && Apart(base, base + pos, blocks)
    }

    constructor (base: nat, capacity: nat)
      ensures Valid() && this.base == base && this.capacity == capacity && pos == 0 && blocks == []
    {
      this.base, this.capacity := base, capacity;
      pos := 0;
      blocks := [];
    }

    function Available(): (n: nat)
      requires pos <= capacity
      reads this
      ensures n == capacity - pos
    {
      if pos < capacity then capacity - pos else 0
    }

    /** Fails exactly when the request is empty or no aligned address has room, and then changes
        nothing; otherwise serves the least address that has. */
    method Allocate(r: Request) returns (p: Option<nat>)
      requires Valid() && Sensible(r)
      modifies this
      ensures Valid()
      ensures p.Some? <==> Fits(base, capacity, old(pos), r)
      ensures p.None? ==> pos == old(pos) && blocks == old(blocks)
      ensures p.Some? ==> var b := BlockFor(base, old(pos), r);
                          p.value == b.addr && base + pos == b.End() && blocks == old(blocks) + [b]
      ensures p.None? ==> r.count == 0 || forall a: nat :: !CouldHold(base, capacity, old(pos), r, a)
      ensures p.Some? ==> r.count > 0 && CouldHold(base, capacity, old(pos), r, p.value)
                          && base + pos == p.value + r.count * r.size
                          && forall a: nat :: CouldHold(base, capacity, old(pos), r, a) ==> p.value <= a
    {
      forall a: nat {
        ServedAtLeast(base, capacity, pos, r, a);
      }
      hide CouldHold;
      GuardIsProduct(r, Available());
      if r.count == 0 || r.count > Available() / r.size {
        return None;
      }
      var size := r.count * r.size;
      var addr := base + pos;
      var alignmentOffset := (r.align - addr % r.align) % r.align;
      if alignmentOffset > Available() || size > Available() - alignmentOffset {
        return None;
      }
      BlockIsPlaced(base, capacity, pos, r);
      AnotherApart(base, pos, blocks, BlockFor(base, pos, r));
      blocks := blocks + [BlockFor(base, pos, r)];
      pos := pos + (alignmentOffset + size);
      p := Some(addr + alignmentOffset);
    }

    method Reset()
      modifies this
      ensures Valid() && pos == 0 && blocks == []
    {
      pos := 0;
      blocks := [];
    }

    /** A child over the space not yet handed out: everything it can return lies beyond every block
        of this allocator. */
    method Rest() returns (child: ScratchAllocator)
      requires Valid()
      ensures fresh(child) && child.Valid() && child.pos == 0 && child.capacity == capacity - pos
      ensures child.capacity > 0 ==>
                child.base == base + pos && forall i :: 0 <= i < |blocks| ==> blocks[i].End() <= child.base
    {
      if pos >= capacity {
        child := new ScratchAllocator(0, 0);
      } else {
        child := new ScratchAllocator(base + pos, capacity - pos);
      }
    }
  }

  /** Comparing the count with a quotient is comparing the product, without computing it. */
  lemma GuardIsProduct(r: Request, available: nat)
    requires Sensible(r)
    ensures r.count > available / r.size <==> r.count * r.size > available
  {
    DivBelow(available, r.size, r.count);
  }
}
