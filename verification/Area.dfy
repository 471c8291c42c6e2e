/**
 The hierarchical allocator of lib/area.c.  An area heads a doubly linked list of
 chunks, whose back links are addresses of next fields, and has areas below it.
 Memory may run out at every allocation; error callbacks are not modelled.
 */
module Area {
  import opened Sequences

  /** The address of a next field: that of a list head, or that of a chunk. */
  datatype Slot = HeadOf(area: Node) | NextOf(chunk: Chunk) | Unset

  /** struct A_chunk; the bytes behind it are not modelled. */
  class Chunk {
    var size: nat
    var next: Chunk?
    var prev: Slot

    constructor (size: nat)
      ensures this.size == size
    {
      this.size := size;
      next, prev := null, Unset;
    }
  }

  // ----- the chunk list of one area -----

  /** Next links lead from first through s to last; every back link is the address its chunk hangs on. */
  ghost predicate Segment(first: Chunk?, s: seq<Chunk>, slot: Slot, last: Chunk?)
    reads s`next, s`prev
    decreases |s|
  {
    if s == [] then first == last
    else first == s[0] && s[0].prev == slot && Segment(s[0].next, s[1..], NextOf(s[0]), last)
  }

  /** The address that the chunk behind s hangs on. */
  ghost function EndSlot(s: seq<Chunk>, slot: Slot): Slot {
    if s == [] then slot else NextOf(s[|s| - 1])
  }

  lemma {:induction false} SegmentAround(first: Chunk?, a: seq<Chunk>, x: Chunk, b: seq<Chunk>, slot: Slot)
    ensures Segment(first, a + [x] + b, slot, null) <==>
            Segment(first, a, slot, x) && x.prev == EndSlot(a, slot) && Segment(x.next, b, NextOf(x), null)
    decreases |a|
  {
    var s := a + [x] + b;
    if a == [] {
      assert s[1..] == b;
    } else {
      assert s[1..] == a[1..] + [x] + b;
      SegmentAround(a[0].next, a[1..], x, b, NextOf(a[0]));
    }
  }

  ghost function SizeSum(s: seq<Chunk>): nat
    reads s`size
    decreases |s|
  {
    if s == [] then 0 else s[0].size + SizeSum(s[1..])
  }

  lemma {:induction false} SizeSumAround(a: seq<Chunk>, x: Chunk, b: seq<Chunk>)
    ensures SizeSum(a + [x] + b) == SizeSum(a + b) + x.size
    decreases |a|
  {
    var s := a + [x] + b;
    if a == [] {
      assert s[1..] == b && a + b == b;
    } else {
      assert s[1..] == a[1..] + [x] + b && (a + b)[1..] == a[1..] + b;
      SizeSumAround(a[1..], x, b);
    }
  }

  ghost function Place(slot: Slot): set<object> {
    match slot
    case HeadOf(a) => {a}
    case NextOf(c) => {c}
    case Unset => {}
  }

  /** What the address holds. */
  function Held(slot: Slot): Chunk?
    reads Place(slot)
  {
    match slot
    case HeadOf(a) => a.list
    case NextOf(c) => c.next
    case Unset => null
  }

  /** _A_INVALID_PTR: nothing at the back link leads to the chunk. */
  predicate InvalidPtr(cp: Chunk)
    reads cp, Place(cp.prev)
  {
    Held(cp.prev) != cp
  }

  /** struct A_node. */
  class Node {
    var parent: Node?
    var nodes: seq<Node>
    var total: int
    var list: Chunk?
    ghost var chunks: seq<Chunk>

    constructor (parent: Node?)
      ensures this.parent == parent && nodes == [] && chunks == [] && Books()
    {
      this.parent := parent;
      nodes, total, list, chunks := [], 0, null, [];
    }

    /** The links spell out the chunks. */
    ghost predicate Chained()
      reads this`list, this`chunks, chunks`next, chunks`prev
    {
      true == (Segment(list, chunks, HeadOf(this), null) && NoneTwice(chunks))
    }

    ghost function Front(): set<Chunk>
      reads this`list
    {
      if list != null then {list} else {}
    }

    lemma FrontIs()
      requires Chained()
      ensures forall c :: c in Front() ==> c in chunks
    {
    }

    /** By how much the counter exceeds the sum of the recorded sizes. */
    ghost function Gap(): int
      reads this`total, this`chunks, chunks`size
    {
      total - SizeSum(chunks)
    }

    ghost predicate Books()
      reads this`list, this`total, this`chunks, chunks
    {
      true == (Chained() && Gap() == 0)
    }

    /** No linked chunk is taken for an invalid pointer. */
    lemma NeverInvalid(cp: Chunk)
      requires Chained() && cp in chunks
      ensures !InvalidPtr(cp)
    {
      var k :| 0 <= k < |chunks| && chunks[k] == cp;
      var a, b := chunks[..k], chunks[k + 1..];
      assert chunks == a + [cp] + b;
      SegmentAround(list, a, cp, b, HeadOf(this));
      if a != [] {
        var q := a[k - 1];
        assert a == a[..k - 1] + [q];
        SegmentEnd(list, a[..k - 1], q, HeadOf(this), cp);
      }
    }

    /** _A_ADD_CHUNK with LIST_INSERT_HEAD. */
    method AddChunk(cp: Chunk)
      requires Chained() && cp !in chunks
      modifies this`list, this`total, this`chunks, Front()`prev, cp`next, cp`prev
      ensures Chained() && chunks == [cp] + old(chunks)
      ensures total == old(total) + cp.size && Gap() == old(Gap())
    {
      ghost var was := chunks;
      NoneTwiceFirst(cp, was);
      InsertHead(cp);
      total := total + cp.size;
      chunks := [cp] + was;
      assert chunks[1..] == was;
    }

    method InsertHead(cp: Chunk)
      requires Segment(list, chunks, HeadOf(this), null) && NoneTwice(chunks) && cp !in chunks
      modifies this`list, Front()`prev, cp`next, cp`prev
      ensures Segment(list, [cp] + chunks, HeadOf(this), null)
    {
      ghost var was := chunks;
      cp.next := list;
      if cp.next != null {
        cp.next.prev := NextOf(cp);
      }
      list := cp;
      cp.prev := HeadOf(this);
      assert ([cp] + was)[1..] == was;
    }
  }

  /** LIST_REMOVE of a chunk that is linked in area o; nothing but the chunk says where that is. */
  method Extract(cp: Chunk, ghost o: Node) returns (ghost k: nat)
    requires o.Chained() && cp in o.chunks
    modifies o`list, o`chunks, o.chunks`next, o.chunks`prev
    ensures o.Chained() && k < |old(o.chunks)| && old(o.chunks)[k] == cp
    ensures o.chunks == old(o.chunks)[..k] + old(o.chunks)[k + 1..]
    ensures SizeSum(o.chunks) == old(SizeSum(o.chunks)) - cp.size
  {
    k :| 0 <= k < |o.chunks| && o.chunks[k] == cp;
    ghost var was, a, b := o.chunks, o.chunks[..k], o.chunks[k + 1..];
    assert was == a + [cp] + b;
    NoneTwiceAround(a, cp, b);
    Unlink(cp, o, a, b);
    o.chunks := a + b;
    SizeSumAround(a, cp, b);
    assert SizeSum(was) == old(SizeSum(was));
  }

  /** The chunk behind takes over the back link, the address in front the next link. */
  method Unlink(cp: Chunk, ghost o: Node, ghost a: seq<Chunk>, ghost b: seq<Chunk>)
    requires Segment(o.list, a + [cp] + b, HeadOf(o), null) && NoneTwice(a + b) && cp !in a && cp !in b
    modifies o`list, a`next, a`prev, b`next, b`prev
    ensures Segment(o.list, a + b, HeadOf(o), null)
  {
    SegmentAround(o.list, a, cp, b, HeadOf(o));
    if cp.prev.HeadOf? {
      assert a == [] && a + b == b;
      UnlinkFirst(cp, o, b);
    } else {
      ghost var a', q := a[..|a| - 1], a[|a| - 1];
      assert a == a' + [q];
      NoneTwiceAround(a', q, b);
      assert a == a' + [q] + [];
      SegmentEnd(o.list, a', q, HeadOf(o), cp);
      UnlinkAfter(cp, o, a', q, b);
    }
  }

  method UnlinkFirst(cp: Chunk, ghost o: Node, ghost b: seq<Chunk>)
    requires cp.prev == HeadOf(o) && Segment(cp.next, b, NextOf(cp), null) && NoneTwice(b) && cp !in b
    modifies o`list, b`next, b`prev
    ensures Segment(o.list, b, HeadOf(o), null)
  {
    if cp.next != null {
      cp.next.prev := cp.prev;
    }
    cp.prev.area.list := cp.next;
  }

  method UnlinkAfter(cp: Chunk, ghost o: Node, ghost a: seq<Chunk>, ghost q: Chunk, ghost b: seq<Chunk>)
    requires cp.prev == NextOf(q) && Segment(cp.next, b, NextOf(cp), null)
    requires NoneTwice(a + [q] + b) && cp !in a + [q] + b
    requires Segment(o.list, a, HeadOf(o), q) && q.prev == EndSlot(a, HeadOf(o))
    modifies q`next, q`prev, b`next, b`prev
    ensures Segment(o.list, a + [q] + b, HeadOf(o), null)
  {
    NoneTwiceAround(a, q, b);
    NoneShared(a, b);
    assert cp.next != null ==> b[0] == cp.next && cp.next in b && cp.next !in a && cp.next != q;
    if cp.next != null {
      cp.next.prev := cp.prev;
    }
    assert Segment(o.list, a, HeadOf(o), q) && cp.next == old(cp.next);
    cp.prev.chunk.next := cp.next;
    assert Segment(o.list, a, HeadOf(o), q) && Segment(q.next, b, NextOf(q), null);
    SegmentAround(o.list, a, q, b, HeadOf(o));
  }

  lemma {:induction false} SegmentEnd(first: Chunk?, a: seq<Chunk>, q: Chunk, slot: Slot, last: Chunk?)
    requires Segment(first, a + [q], slot, last)
    ensures Segment(first, a, slot, q) && q.prev == EndSlot(a, slot) && q.next == last
    decreases |a|
  {
    if a != [] {
      assert (a + [q])[1..] == a[1..] + [q];
      SegmentEnd(a[0].next, a[1..], q, NextOf(a[0]), last);
    } else {
      assert (a + [q])[1..] == [];
    }
  }

  // ----- trees of areas -----

  /** An area with what hangs below it, and its siblings. */
  datatype Forest = Nil | Tree(area: Node, kids: Forest, rest: Forest)

  ghost function Roots(f: Forest): seq<Node> {
    match f
    case Nil => []
    case Tree(a, k, r) => [a] + Roots(r)
  }

  ghost function Members(f: Forest): set<Node> {
    match f
    case Nil => {}
    case Tree(a, k, r) => {a} + Members(k) + Members(r)
  }

  ghost predicate Distinct(f: Forest) {
    match f
    case Nil => true
    case Tree(a, k, r) =>
      a !in Members(k) && a !in Members(r) && Members(k) !! Members(r) && Distinct(k) && Distinct(r)
  }

  /** The areas right below a, in list order. */
  ghost function Kids(f: Forest, a: Node): seq<Node> {
    match f
    case Nil => []
    case Tree(x, k, r) => if x == a then Roots(k) else if a in Members(k) then Kids(k, a) else Kids(r, a)
  }

  ghost function Parent(f: Forest, a: Node, up: Node?): Node? {
    match f
    case Nil => null
    case Tree(x, k, r) => if x == a then up else if a in Members(k) then Parent(k, a, x) else Parent(r, a, up)
  }

  ghost predicate Linked(f: Forest, up: Node?)
    reads Members(f)`nodes, Members(f)`parent
  {
    forall a :: a in Members(f) ==> a.nodes == Kids(f, a) && a.parent == Parent(f, a, up)
  }

  ghost function Owned(areas: set<Node>): set<Chunk>
    reads areas`chunks
  {
    set a, c | a in areas && c in a.chunks :: c
  }

  /** Every counter is right. */
  ghost predicate Balanced(areas: set<Node>)
    reads areas`total, areas`chunks, Owned(areas)`size
  {
    forall a :: a in areas ==> assert forall c :: c in a.chunks ==> c in Owned(areas); a.Gap() == 0
  }

  /** The lists of the areas are in order, and no chunk is in two of them; the counters may be wrong. */
  ghost predicate Chains(areas: set<Node>)
    reads areas`list, areas`chunks, Owned(areas)`next, Owned(areas)`prev
  {
    true == (
      && (forall a :: a in areas ==> assert forall c :: c in a.chunks ==> c in Owned(areas); a.Chained())
      && (forall a, b, c :: a in areas && b in areas && a != b && c in a.chunks ==> c !in b.chunks))
  }

  /** The C heap: what has been allocated and not yet freed. */
  class Memory {
    var areas: set<Node>
    var chunks: set<Chunk>

    constructor ()
      ensures areas == {} && chunks == {}
    {
      areas, chunks := {}, {};
    }

    method FreeChunk(c: Chunk)
      requires c in chunks
      modifies this`chunks
      ensures chunks == old(chunks) - {c}
    {
      chunks := chunks - {c};
    }

    method FreeArea(a: Node)
      requires a in areas
      modifies this`areas
      ensures areas == old(areas) - {a}
    {
      areas := areas - {a};
    }
  }

  ghost predicate Living(areas: set<Node>, mem: Memory)
    reads mem, areas`chunks
  {
    areas <= mem.areas && Owned(areas) <= mem.chunks
  }

  /** The areas of a program: one tree beside the other, alive, their lists in order; the counters may be wrong. */
  ghost predicate Shaped(f: Forest, mem: Memory)
    reads mem, Members(f), Owned(Members(f))
  {
    true == (Distinct(f) && Linked(f, null) && Chains(Members(f)) && Living(Members(f), mem))
  }

  /** The same with every counter right. */
  ghost predicate Family(f: Forest, mem: Memory)
    reads mem, Members(f), Owned(Members(f))
  {
    true == (Shaped(f, mem) && Balanced(Members(f)))
  }

  lemma FamilyIs(f: Forest, mem: Memory)
    ensures Family(f, mem) <==> Shaped(f, mem) && forall a :: a in Members(f) ==> a.Gap() == 0
  {
  }

  lemma ChainsSplit(areas: set<Node>, ap: Node)
    requires ap in areas
    ensures var rest := areas - {ap};
            && (Chains(areas) <==> ap.Chained() && Chains(rest) && forall c :: c in Owned(rest) ==> c !in ap.chunks)
            && Owned(areas) == Owned(rest) + set c | c in ap.chunks
  {
    var rest := areas - {ap};
    assert areas == rest + {ap};
    assert forall a, c :: a in rest && c in a.chunks ==> c in Owned(rest);
  }

  // ----- chunks -----

  /** _A_ADD_CHUNK among the areas of a tree. */
  method Enter(ap: Node, cp: Chunk, ghost areas: set<Node>)
    requires Chains(areas) && ap in areas && cp !in Owned(areas)
    modifies ap`list, ap`total, ap`chunks, ap.Front()`prev, cp`next, cp`prev
    ensures Chains(areas) && ap.chunks == [cp] + old(ap.chunks) && cp.size == old(cp.size)
    ensures ap.total == old(ap.total) + cp.size
    ensures Owned(areas) == old(Owned(areas)) + {cp}
    ensures forall a :: a in areas ==> a.Gap() == old(a.Gap())
  {
    ghost var rest := areas - {ap};
    ChainsSplit(areas, ap);
    assert allocated(rest) && allocated(Owned(rest));
    ap.AddChunk(cp);
    ChainsSplit(areas, ap);
  }

  /** What taking a chunk out of o and off the counter of ap does to the gap of a. */
  ghost function Shift(a: Node, ap: Node, o: Node, size: nat): int {
    (if a == o then size else 0) - if a == ap then size else 0
  }

  /** Charging a chunk of o to ap leaves the books right exactly if these are one area, or the chunk is empty. */
  lemma Balance(ap: Node, o: Node, size: nat, mem: Memory, f: Forest)
    requires Shaped(f, mem) && ap in Members(f) && o in Members(f)
    requires forall a :: a in Members(f) ==> a.Gap() == Shift(a, ap, o, size)
    ensures Family(f, mem) <==> o == ap || size == 0
  {
    FamilyIs(f, mem);
    assert Shift(ap, ap, o, size) == if o == ap then 0 else 0 - size;
  }

  /** The list half of _A_DEL_CHUNK among the areas of a tree. */
  method Pull(cp: Chunk, ghost o: Node, ghost areas: set<Node>) returns (ghost k: nat)
    requires Chains(areas) && o in areas && cp in o.chunks
    modifies o`list, o`chunks, o.chunks`next, o.chunks`prev
    ensures Chains(areas) && k < |old(o.chunks)| && old(o.chunks)[k] == cp && cp.size == old(cp.size)
    ensures o.chunks == old(o.chunks)[..k] + old(o.chunks)[k + 1..]
    ensures Owned(areas) == old(Owned(areas)) - {cp}
    ensures forall a :: a in areas ==> SizeSum(a.chunks) == old(SizeSum(a.chunks)) - if a == o then cp.size else 0
  {
    ghost var was, rest := o.chunks, areas - {o};
    ChainsSplit(areas, o);
    assert allocated(rest) && allocated(Owned(rest));
    k := Extract(cp, o);
    LeftOver(was, k);
    ChainsSplit(areas, o);
  }

  method Charge(ap: Node, size: int)
    modifies ap`total
    ensures ap.total == old(ap.total) - size
  {
    ap.total := ap.total - size;
  }

  /** The other half: the counter shrinks, and nothing else changes. */
  method ChargeOnly(ap: Node, size: int, ghost areas: set<Node>)
    requires Chains(areas) && ap in areas
    modifies ap`total
    ensures Chains(areas) && ap.total == old(ap.total) - size && Owned(areas) == old(Owned(areas))
    ensures forall a :: a in areas ==> SizeSum(a.chunks) == old(SizeSum(a.chunks))
  {
    assert allocated(areas) && allocated(Owned(areas));
    Charge(ap, size);
  }

  /** _A_DEL_CHUNK among the areas of a tree: the chunk leaves the list it is in, and the counter of ap shrinks. */
  method Leave(ap: Node, cp: Chunk, ghost o: Node, ghost areas: set<Node>) returns (ghost k: nat)
    requires Chains(areas) && ap in areas && o in areas && cp in o.chunks
    modifies ap`total, o`list, o`chunks, o.chunks`next, o.chunks`prev
    ensures Chains(areas) && k < |old(o.chunks)| && old(o.chunks)[k] == cp && cp.size == old(cp.size)
    ensures ap.total == old(ap.total) - cp.size
    ensures o.chunks == old(o.chunks)[..k] + old(o.chunks)[k + 1..]
    ensures Owned(areas) == old(Owned(areas)) - {cp}
    ensures forall a :: a in areas ==> a.Gap() == old(a.Gap()) + Shift(a, ap, o, cp.size)
  {
    assert allocated(areas) && allocated(Owned(areas));
    k := Pull(cp, o, areas);
    ChargeOnly(ap, cp.size, areas);
  }

  /** _A_ADD_CHUNK in a tree. */
  method Put(ap: Node, cp: Chunk, mem: Memory, ghost f: Forest)
    requires Shaped(f, mem) && ap in Members(f) && cp !in Owned(Members(f)) && cp in mem.chunks
    modifies ap`list, ap`total, ap`chunks, ap.Front()`prev, cp`next, cp`prev
    ensures Shaped(f, mem) && ap.chunks == [cp] + old(ap.chunks) && cp.size == old(cp.size)
    ensures Total(f) == old(Total(f)) + cp.size
    ensures Owned(Members(f)) == old(Owned(Members(f))) + {cp}
    ensures forall a :: a in Members(f) ==> a.Gap() == old(a.Gap())
  {
    ghost var areas := Members(f);
    ghost var m := map a: Node | a in areas :: a.total;
    TotalIsSum(f, m);
    assert allocated(areas) && allocated(Owned(areas));
    Enter(ap, cp, areas);
    Changed(f, m, ap);
    assert Linked(f, null);
    assert Living(areas, mem);
  }

  /** _A_DEL_CHUNK in a tree. */
  method TakeOut(ap: Node, cp: Chunk, mem: Memory, ghost o: Node, ghost f: Forest) returns (ghost k: nat)
    requires Shaped(f, mem) && ap in Members(f) && o in Members(f) && cp in o.chunks
    modifies ap`total, o`list, o`chunks, o.chunks`next, o.chunks`prev
    ensures Shaped(f, mem) && k < |old(o.chunks)| && old(o.chunks)[k] == cp && cp.size == old(cp.size)
    ensures Total(f) == old(Total(f)) - cp.size
    ensures o.chunks == old(o.chunks)[..k] + old(o.chunks)[k + 1..]
    ensures Owned(Members(f)) == old(Owned(Members(f))) - {cp}
    ensures forall a :: a in Members(f) ==> a.Gap() == old(a.Gap()) + Shift(a, ap, o, cp.size)
  {
    ghost var areas := Members(f);
    ghost var m := map a: Node | a in areas :: a.total;
    TotalIsSum(f, m);
    assert allocated(areas) && allocated(Owned(areas));
    k := Leave(ap, cp, o, areas);
    Changed(f, m, ap);
    assert Linked(f, null);
    assert Living(areas, mem);
  }

  /** malloc or calloc of a new chunk. */
  method New(size: nat, mem: Memory, ghost f: Forest) returns (cp: Chunk)
    requires Shaped(f, mem)
    modifies mem`chunks
    ensures fresh(cp) && cp.size == size && mem.chunks == old(mem.chunks) + {cp} && cp !in Owned(Members(f))
    ensures Shaped(f, mem) && Owned(Members(f)) == old(Owned(Members(f)))
    ensures forall a :: a in Members(f) ==> a.Gap() == old(a.Gap())
  {
    assert allocated(Members(f)) && allocated(Owned(Members(f)));
    cp := new Chunk(size);
    mem.chunks := mem.chunks + {cp};
  }

  /** a_malloc and a_calloc, which record the size they are asked for; there is room for the chunk or not. */
  method Malloc(ap: Node, size: nat, room: bool, mem: Memory, ghost f: Forest) returns (cp: Chunk?)
    requires Shaped(f, mem) && ap in Members(f)
    modifies mem`chunks, ap`list, ap`total, ap`chunks, ap.Front()`prev
    ensures Shaped(f, mem) && forall a :: a in Members(f) ==> a.Gap() == old(a.Gap())
    ensures Family(f, mem) <==> old(Family(f, mem))
    ensures cp != null <==> room
    ensures cp == null ==>
              && ap.chunks == old(ap.chunks) && mem.chunks == old(mem.chunks)
              && Owned(Members(f)) == old(Owned(Members(f)))
    ensures cp != null ==>
              && fresh(cp) && cp.size == size && ap.chunks == [cp] + old(ap.chunks)
              && mem.chunks == old(mem.chunks) + {cp} && Owned(Members(f)) == old(Owned(Members(f))) + {cp}
  {
    if !room {
      return null;
    }
    FamilyIs(f, mem);
    assert allocated(Members(f)) && allocated(Owned(Members(f)));
    cp := New(size, mem, f);
    Put(ap, cp, mem, f);
    FamilyIs(f, mem);
  }

  datatype Code = Done | Efault | Einval | Enomem

  /**
   _a_free.  A pointer that no link leads to is refused.  The chunk may be linked in any area o: it is
   freed all the same, but if that is not the area named the counters are off by its size.
   */
  method Free(ap: Node, cp: Chunk?, mem: Memory, ghost o: Node, ghost f: Forest) returns (code: Code, ghost k: nat)
    requires Shaped(f, mem) && ap in Members(f) && o in Members(f)
    requires cp != null ==> cp in o.chunks || InvalidPtr(cp)
    modifies mem`chunks, ap`total, o`list, o`chunks, o.chunks`next, o.chunks`prev
    ensures Shaped(f, mem)
    ensures code == if cp == null then Einval else if cp in old(o.chunks) then Done else Efault
    ensures code == Done ==>
              && mem.chunks == old(mem.chunks) - {cp} && k < |old(o.chunks)| && old(o.chunks)[k] == cp
              && o.chunks == old(o.chunks)[..k] + old(o.chunks)[k + 1..]
              && Owned(Members(f)) == old(Owned(Members(f))) - {cp}
    ensures code == Done ==> forall a :: a in Members(f) ==> a.Gap() == old(a.Gap()) + Shift(a, ap, o, cp.size)
    ensures code != Done ==>
              && o.chunks == old(o.chunks) && mem.chunks == old(mem.chunks)
              && Owned(Members(f)) == old(Owned(Members(f))) && forall a :: a in Members(f) ==> a.Gap() == old(a.Gap())
    ensures old(Family(f, mem)) ==> (Family(f, mem) <==> code != Done || o == ap || cp.size == 0)
  {
    k := 0;
    ghost var right := Family(f, mem);
    FamilyIs(f, mem);
    if cp == null {
      return Einval, k;
    }
    if cp in o.chunks {
      o.NeverInvalid(cp);
    }
    if InvalidPtr(cp) {
      return Efault, k;
    }
    k := TakeOut(ap, cp, mem, o, f);
    Release(cp, mem, f);
    if right {
      Balance(ap, o, cp.size, mem, f);
    }
    code := Done;
  }

  /** free of a chunk that is in no list any more. */
  method Release(cp: Chunk, mem: Memory, ghost f: Forest)
    requires Shaped(f, mem) && cp in mem.chunks && cp !in Owned(Members(f))
    modifies mem`chunks
    ensures Shaped(f, mem) && mem.chunks == old(mem.chunks) - {cp} && Owned(Members(f)) == old(Owned(Members(f)))
    ensures forall a :: a in Members(f) ==> a.Gap() == old(a.Gap())
  {
    assert allocated(Members(f)) && allocated(Owned(Members(f)));
    mem.FreeChunk(cp);
  }

  /** The lists after a chunk of o has been replaced by cp in ap, or lost where cp is null. */
  ghost predicate Replaced(ap: Node, o: Node, cp: Chunk?, apWas: seq<Chunk>, oWas: seq<Chunk>, k: nat,
                           apNow: seq<Chunk>, oNow: seq<Chunk>) {
    true == (
      && k < |oWas|
      && var left := oWas[..k] + oWas[k + 1..];
         var front := if cp == null then [] else [cp];
         if o == ap then apNow == front + left else oNow == left && apNow == front + apWas)
  }

  lemma IsReplaced(ap: Node, o: Node, cp: Chunk?, apWas: seq<Chunk>, oWas: seq<Chunk>, k: nat,
                   apMid: seq<Chunk>, oMid: seq<Chunk>, apNow: seq<Chunk>, oNow: seq<Chunk>)
    requires k < |oWas| && oMid == oWas[..k] + oWas[k + 1..] && apMid == if o == ap then oMid else apWas
    requires apNow == (if cp == null then apMid else [cp] + apMid) && oNow == if o == ap then apNow else oMid
    ensures Replaced(ap, o, cp, apWas, oWas, k, apNow, oNow)
  {
  }

  lemma FrontOf(a: Node, f: Forest, mem: Memory)
    requires Shaped(f, mem) && a in Members(f)
    ensures forall c :: c in a.Front() ==> c in a.chunks
  {
    assert a.Chained();
    a.FrontIs();
  }

  lemma OneLess<T>(s: seq<T>, k: nat)
    requires k < |s|
    ensures forall x :: x in s[..k] + s[k + 1..] ==> x in s
  {
  }

  /** real_realloc: a chunk that cannot grow is unlinked, yet stays allocated, out of reach. */
  method RealRealloc(ap: Node, size: nat, old0: Chunk, room: bool, mem: Memory, ghost o: Node, ghost f: Forest)
    returns (cp: Chunk?, ghost k: nat)
    requires Shaped(f, mem) && ap in Members(f) && o in Members(f) && old0 in o.chunks
    modifies mem`chunks, ap`list, ap`total, ap`chunks, ap.chunks`next, ap.chunks`prev
    modifies o`list, o`chunks, o.chunks`next, o.chunks`prev, o.chunks`size
    ensures Shaped(f, mem) && k < |old(o.chunks)| && old(o.chunks)[k] == old0 && (cp != null <==> room)
    ensures Replaced(ap, o, cp, old(ap.chunks), old(o.chunks), k, ap.chunks, o.chunks)
    ensures forall a :: a in Members(f) ==> a.Gap() == old(a.Gap()) + Shift(a, ap, o, old(old0.size))
    ensures cp == null ==> mem.chunks == old(mem.chunks) && Owned(Members(f)) == old(Owned(Members(f))) - {old0}
    ensures cp != null ==>
              && cp.size == size && (cp == old0 || fresh(cp)) && mem.chunks == old(mem.chunks) - {old0} + {cp}
              && Owned(Members(f)) == old(Owned(Members(f))) - {old0} + {cp}
  {
    ghost var apWas, oWas := ap.chunks, o.chunks;
    cp, k := Rework(ap, size, old0, room, mem, o, f);
    ghost var apMid, oMid := ap.chunks, o.chunks;
    if cp != null {
      Put(ap, cp, mem, f);
      IsReplaced(ap, o, cp, apWas, oWas, k, apMid, oMid, ap.chunks, o.chunks);
    } else {
      IsReplaced(ap, o, cp, apWas, oWas, k, apMid, oMid, apMid, oMid);
    }
  }

  /** The first half of real_realloc: the chunk is unlinked, then grown. */
  method Rework(ap: Node, size: nat, old0: Chunk, room: bool, mem: Memory, ghost o: Node, ghost f: Forest)
    returns (cp: Chunk?, ghost k: nat)
    requires Shaped(f, mem) && ap in Members(f) && o in Members(f) && old0 in o.chunks
    modifies mem`chunks, ap`total, o`list, o`chunks, o.chunks`next, o.chunks`prev, o.chunks`size
    ensures Shaped(f, mem) && k < |old(o.chunks)| && old(o.chunks)[k] == old0 && (cp != null <==> room)
    ensures o.chunks == old(o.chunks)[..k] + old(o.chunks)[k + 1..]
    ensures ap.chunks == if o == ap then o.chunks else old(ap.chunks)
    ensures forall c :: c in ap.Front() ==> c in old(ap.chunks) || c in old(o.chunks)
    ensures forall a :: a in Members(f) ==> a.Gap() == old(a.Gap()) + Shift(a, ap, o, old(old0.size))
    ensures Owned(Members(f)) == old(Owned(Members(f))) - {old0}
    ensures cp == null ==> mem.chunks == old(mem.chunks)
    ensures cp != null ==>
              cp.size == size && (cp == old0 || fresh(cp)) && mem.chunks == old(mem.chunks) - {old0} + {cp}
    ensures cp != null ==> cp !in Owned(Members(f))
  {
    ghost var was := o.chunks;
    k := TakeOut(ap, old0, mem, o, f);
    OneLess(was, k);
    FrontOf(ap, f, mem);
    cp := Regrow(old0, size, room, mem, f);
  }

  method Regrow(old0: Chunk, size: nat, room: bool, mem: Memory, ghost f: Forest) returns (cp: Chunk?)
    requires Shaped(f, mem) && old0 in mem.chunks && old0 !in Owned(Members(f))
    modifies mem`chunks, old0`size
    ensures Shaped(f, mem) && Owned(Members(f)) == old(Owned(Members(f))) && (cp != null <==> room)
    ensures forall a :: a in Members(f) ==> a.Gap() == old(a.Gap())
    ensures cp == null ==> mem.chunks == old(mem.chunks)
    ensures cp != null ==> cp.size == size && mem.chunks == old(mem.chunks) - {old0} + {cp} && (cp == old0 || fresh(cp))
    ensures cp != null ==> cp !in Owned(Members(f))
  {
    assert allocated(Members(f)) && allocated(Owned(Members(f)));
    assert forall a :: a in Members(f) ==> old0 !in a.chunks;
    cp := CRealloc(old0, size, room, mem);
  }

  /** realloc: in place, moved, or refused with the old block left alone. */
  method CRealloc(old0: Chunk, size: nat, room: bool, mem: Memory) returns (cp: Chunk?)
    requires old0 in mem.chunks
    modifies mem`chunks, old0`size
    ensures cp != null <==> room
    ensures cp == null ==> mem.chunks == old(mem.chunks) && old0.size == old(old0.size)
    ensures cp != null ==> cp.size == size && mem.chunks == old(mem.chunks) - {old0} + {cp} && (cp == old0 || fresh(cp))
  {
    if !room {
      return null;
    }
    var moved := *;
    if moved {
      mem.FreeChunk(old0);
      cp := new Chunk(size);
      mem.chunks := mem.chunks + {cp};
    } else {
      cp := old0;
      cp.size := size;
    }
  }

  /** a_realloc; the pointer may be to a chunk of any area o. */
  method Realloc(ap: Node, ptr: Chunk?, size: nat, room: bool, mem: Memory, ghost o: Node, ghost f: Forest)
    returns (cp: Chunk?, ghost k: nat)
    requires Shaped(f, mem) && ap in Members(f) && o in Members(f)
    requires ptr != null ==> ptr in o.chunks || InvalidPtr(ptr)
    modifies mem`chunks, ap`list, ap`total, ap`chunks, ap.chunks`next, ap.chunks`prev
    modifies o`list, o`chunks, o.chunks`next, o.chunks`prev, o.chunks`size
    ensures Shaped(f, mem)
    ensures cp != null <==> room || (ptr != null && ptr in old(o.chunks) && old(ptr.size) == size)
    ensures ptr == null || ptr !in old(o.chunks) ==>
              && ap.chunks == (if cp == null then old(ap.chunks) else [cp] + old(ap.chunks))
              && (cp != null ==> cp.size == size)
              && Owned(Members(f)) == old(Owned(Members(f))) + if cp == null then {} else {cp}
    ensures ptr != null && ptr in old(o.chunks) && old(ptr.size) == size ==>
              cp == ptr && o.chunks == old(o.chunks) && ap.chunks == old(ap.chunks) && mem.chunks == old(mem.chunks)
              && Owned(Members(f)) == old(Owned(Members(f)))
    ensures ptr != null && ptr in old(o.chunks) && old(ptr.size) != size ==>
              && k < |old(o.chunks)| && old(o.chunks)[k] == ptr
              && Replaced(ap, o, cp, old(ap.chunks), old(o.chunks), k, ap.chunks, o.chunks)
              && (cp != null ==> cp.size == size && (cp == ptr || fresh(cp)))
              && Owned(Members(f)) == old(Owned(Members(f))) - {ptr} + if cp == null then {} else {cp}
    ensures forall a :: a in Members(f) ==>
              a.Gap() == old(a.Gap()) + Shift(a, ap, o, old(Replacing(ptr, size, o)))
    ensures old(Family(f, mem)) ==> (Family(f, mem) <==> o == ap || old(Replacing(ptr, size, o)) == 0)
  {
    k := 0;
    ghost var right, was := Family(f, mem), Replacing(ptr, size, o);
    FamilyIs(f, mem);
    if ptr == null {
      cp := Malloc(ap, size, room, mem, f);
      return;
    }
    if ptr in o.chunks {
      o.NeverInvalid(ptr);
    }
    if InvalidPtr(ptr) {
      cp := Malloc(ap, size, room, mem, f);
      return;
    }
    if ptr.size != size {
      cp, k := RealRealloc(ap, size, ptr, room, mem, o, f);
      if right {
        Balance(ap, o, was, mem, f);
      }
    } else {
      cp := ptr;
    }
  }

  /** The size of the chunk that a reallocation takes out of o, if it takes one out. */
  ghost function Replacing(ptr: Chunk?, size: nat, o: Node): nat
    reads o`chunks, if ptr != null then {ptr} else {}
  {
    if ptr != null && ptr in o.chunks && ptr.size != size then ptr.size else 0
  }

  // ----- totals -----

  /** What area_size should find: the sizes of all chunks below. */
  ghost function Total(f: Forest): int
    reads Members(f)`total
  {
    match f
    case Nil => 0
    case Tree(a, k, r) => a.total + Total(k) + Total(r)
  }

  ghost function Sum(f: Forest, m: map<Node, int>): int
    requires Members(f) <= m.Keys
  {
    match f
    case Nil => 0
    case Tree(a, k, r) => m[a] + Sum(k, m) + Sum(r, m)
  }

  lemma {:induction false} TotalIsSum(f: Forest, m: map<Node, int>)
    requires Members(f) <= m.Keys && forall a :: a in Members(f) ==> m[a] == a.total
    ensures Total(f) == Sum(f, m)
  {
    match f
    case Nil =>
    case Tree(a, k, r) =>
      TotalIsSum(k, m);
      TotalIsSum(r, m);
  }

  lemma {:induction false} SumSame(f: Forest, m: map<Node, int>, n: map<Node, int>)
    requires Members(f) <= m.Keys && Members(f) <= n.Keys && forall a :: a in Members(f) ==> m[a] == n[a]
    ensures Sum(f, m) == Sum(f, n)
  {
    match f
    case Nil =>
    case Tree(a, k, r) =>
      SumSame(k, m, n);
      SumSame(r, m, n);
  }

  /** One counter changes: the sum changes by as much. */
  lemma {:induction false} SumChange(f: Forest, m: map<Node, int>, n: map<Node, int>, x: Node)
    requires Distinct(f) && Members(f) <= m.Keys && Members(f) <= n.Keys && x in Members(f)
    requires forall a :: a in Members(f) && a != x ==> m[a] == n[a]
    ensures Sum(f, n) == Sum(f, m) + n[x] - m[x]
  {
    match f
    case Tree(a, k, r) =>
      if x == a {
        SumSame(k, m, n);
        SumSame(r, m, n);
      } else if x in Members(k) {
        SumChange(k, m, n, x);
        SumSame(r, m, n);
      } else {
        SumSame(k, m, n);
        SumChange(r, m, n, x);
      }
  }

  /** The counter of one area was changed. */
  lemma Changed(f: Forest, m: map<Node, int>, x: Node)
    requires Distinct(f) && x in Members(f) && Members(f) <= m.Keys
    requires forall a :: a in Members(f) && a != x ==> m[a] == a.total
    ensures Total(f) == Sum(f, m) + x.total - m[x]
  {
    var n := map a: Node | a in Members(f) :: a.total;
    SumChange(f, m, n, x);
    TotalIsSum(f, n);
  }

  /** The lists after cp has gone from o to np. */
  method Transfer(op: Node, np: Node, cp: Chunk, mem: Memory, ghost o: Node, ghost f: Forest) returns (ghost k: nat)
    requires Shaped(f, mem) && op in Members(f) && o in Members(f) && np in Members(f) && cp in o.chunks
    modifies op`total, o`list, o`chunks, o.chunks`next, o.chunks`prev
    modifies np`list, np`total, np`chunks, np.chunks`next, np.chunks`prev
    ensures Shaped(f, mem) && k < |old(o.chunks)| && old(o.chunks)[k] == cp && cp.size == old(cp.size)
    ensures Replaced(np, o, cp, old(np.chunks), old(o.chunks), k, np.chunks, o.chunks)
    ensures Total(f) == old(Total(f)) && Owned(Members(f)) == old(Owned(Members(f)))
    ensures forall a :: a in Members(f) ==> a.Gap() == old(a.Gap()) + Shift(a, op, o, cp.size)
  {
    ghost var npWas, oWas, own := np.chunks, o.chunks, Owned(Members(f));
    assert own - {cp} + {cp} == own;
    k := TakeOut(op, cp, mem, o, f);
    OneLess(oWas, k);
    FrontOf(np, f, mem);
    assert forall c :: c in np.Front() ==> c in npWas || c in oWas;
    ghost var npMid, oMid := np.chunks, o.chunks;
    Put(np, cp, mem, f);
    IsReplaced(np, o, cp, npWas, oWas, k, npMid, oMid, np.chunks, o.chunks);
  }

  /** area_relink: the chunk changes its area, or leaves the tree where there is no new one. */
  method Relink(op: Node, np: Node?, cp: Chunk, mem: Memory, ghost o: Node, ghost f: Forest)
    returns (done: bool, ghost k: nat)
    requires Shaped(f, mem) && op in Members(f) && o in Members(f) && (np != null ==> np in Members(f))
    requires cp in o.chunks || InvalidPtr(cp)
    modifies op`total, o`list, o`chunks, o.chunks`next, o.chunks`prev
    modifies (if np != null then {np} else {})`list, (if np != null then {np} else {})`total
    modifies (if np != null then {np} else {})`chunks
    modifies (if np != null then np.chunks else [])`next, (if np != null then np.chunks else [])`prev
    ensures Shaped(f, mem)
    ensures done <==> cp in old(o.chunks)
    ensures Total(f) == old(Total(f)) - if done && np == null then cp.size else 0
    ensures forall a :: a in Members(f) ==> a.Gap() == old(a.Gap()) + Shift(a, op, o, if done then cp.size else 0)
    ensures done ==> k < |old(o.chunks)| && old(o.chunks)[k] == cp && cp.size == old(cp.size)
    ensures done && np != null ==> Replaced(np, o, cp, old(Chunks(np)), old(o.chunks), k, np.chunks, o.chunks)
    ensures done && np == null ==> o.chunks == old(o.chunks)[..k] + old(o.chunks)[k + 1..]
    ensures Owned(Members(f)) == old(Owned(Members(f))) - if done && np == null then {cp} else {}
    ensures !done ==> o.chunks == old(o.chunks)
    ensures old(Family(f, mem)) ==> (Family(f, mem) <==> !done || o == op || cp.size == 0)
  {
    ghost var right := Family(f, mem);
    FamilyIs(f, mem);
    if cp in o.chunks {
      o.NeverInvalid(cp);
    }
    k := 0;
    if InvalidPtr(cp) {
      return false, k;
    }
    if np != null {
      k := Transfer(op, np, cp, mem, o, f);
    } else {
      k := TakeOut(op, cp, mem, o, f);
    }
    if right {
      Balance(op, o, cp.size, mem, f);
    }
    done := true;
  }

  ghost function Chunks(a: Node?): seq<Chunk>
    reads if a != null then {a} else {}
  {
    if a != null then a.chunks else []
  }

  // ----- areas below areas -----

  /** The links downwards, and upwards. */
  ghost predicate Down(f: Forest)
    reads Members(f)`nodes
  {
    true == (Distinct(f) && forall a :: a in Members(f) ==> a.nodes == Kids(f, a))
  }

  ghost predicate Up(f: Forest, up: Node?)
    reads Members(f)`parent
  {
    true == forall a :: a in Members(f) ==> a.parent == Parent(f, a, up)
  }

  lemma DownParts(f: Forest)
    requires Down(f) && f.Tree?
    ensures Down(f.kids) && Down(f.rest) && f.area.nodes == Roots(f.kids) && Down(Tree(f.area, f.kids, Nil))
  {
    assert forall a :: a in Members(f.kids) ==> a in Members(f);
  }

  lemma UpParts(f: Forest, up: Node?)
    requires Distinct(f) && Up(f, up) && f.Tree?
    ensures Up(f.kids, f.area) && Up(f.rest, up) && f.area.parent == up && Up(Tree(f.area, f.kids, Nil), up)
  {
    assert forall a :: a in Members(f.kids) ==> a in Members(f);
  }

  /** From position i on, the list is that of the roots of f. */
  ghost predicate RootsFrom(f: Forest, s: seq<Node>, i: nat) {
    |Roots(f)| + i == |s| && forall j :: 0 <= j < |Roots(f)| ==> Roots(f)[j] == s[i + j]
  }

  lemma RootsNext(f: Forest, s: seq<Node>, i: nat)
    requires RootsFrom(f, s, i) && i < |s|
    ensures f.Tree? && f.area == s[i] && RootsFrom(f.rest, s, i + 1)
  {
    assert Roots(f)[0] == s[i + 0];
    forall j | 0 <= j < |Roots(f.rest)| ensures Roots(f.rest)[j] == s[i + 1 + j] {
      assert Roots(f)[j + 1] == s[i + (j + 1)];
    }
  }

  lemma TotalNone(f: Forest)
    requires Roots(f) == []
    ensures Total(f) == 0
  {
  }

  /** area_size: the counters of an area and of everything below it. */
  method Size(ap: Node, ghost k: Forest) returns (size: int)
    requires Down(k) && ap.nodes == Roots(k)
    ensures size == ap.total + Total(k)
    decreases k, 1
  {
    ghost var todo, goal := k, ap.total + Total(k);
    size := ap.total;
    assert allocated(Members(k));
    for i := 0 to |ap.nodes|
      invariant Down(todo) && RootsFrom(todo, ap.nodes, i)
      invariant size + Total(todo) == goal && (todo == k || todo < k)
    {
      var n;
      n, todo := SizeNext(ap.nodes, i, todo);
      size := size + n;
    }
    TotalNone(todo);
  }

  /** One area of a list: what is left to add shrinks by what it holds. */
  method SizeNext(s: seq<Node>, i: nat, ghost f: Forest) returns (size: int, ghost rest: Forest)
    requires Down(f) && i < |s| && RootsFrom(f, s, i)
    ensures Down(rest) && RootsFrom(rest, s, i + 1) && size + Total(rest) == old(Total(f)) && rest < f
    decreases f, 0
  {
    RootsNext(f, s, i);
    DownParts(f);
    rest := f.rest;
    assert allocated(Members(rest)) && allocated(Members(f.kids));
    size := Size(s[i], f.kids);
  }

  lemma TotalNil(a: Node, k: Forest)
    ensures Total(Tree(a, k, Nil)) == a.total + Total(k)
  {
    assert Total(Nil) == 0;
  }

  /** The chunk sizes below an area, summed. */
  ghost function Sizes(f: Forest): nat
    reads Members(f)`chunks, Owned(Members(f))`size
  {
    match f
    case Nil => 0
    case Tree(a, k, r) =>
      assert forall c :: c in a.chunks ==> c in Owned(Members(f));
      SizeSum(a.chunks) + Sizes(k) + Sizes(r)
  }

  /** By how much the counters of all areas together exceed the recorded sizes. */
  ghost function Gaps(f: Forest): int
    reads Members(f)`total, Members(f)`chunks, Owned(Members(f))`size
  {
    match f
    case Nil => 0
    case Tree(a, k, r) =>
      assert forall c :: c in a.chunks ==> c in Owned(Members(f));
      a.Gap() + Gaps(k) + Gaps(r)
  }

  /** The counters add up to the recorded sizes and the gaps, and where all are right to the sizes. */
  lemma {:induction false} TotalIsSizes(f: Forest)
    ensures Total(f) == Sizes(f) + Gaps(f)
    ensures Balanced(Members(f)) ==> Gaps(f) == 0
  {
    match f
    case Nil =>
    case Tree(a, k, r) =>
      assert Balanced(Members(f)) ==> Balanced(Members(k)) && Balanced(Members(r)) && a.Gap() == 0;
      TotalIsSizes(k);
      TotalIsSizes(r);
  }

  lemma GapsRoot(a: Node, f: Forest)
    ensures Gaps(Tree(a, Nil, f)) == a.Gap() + Gaps(f)
  {
    var none := Nil;
    assert Gaps(none) == 0;
  }

  lemma {:induction false} GapsAre(f: Forest, m: map<Node, int>)
    requires Members(f) <= m.Keys && forall a :: a in Members(f) ==> m[a] == a.Gap()
    ensures Gaps(f) == Sum(f, m)
  {
    match f
    case Nil =>
    case Tree(a, k, r) =>
      GapsAre(k, m);
      GapsAre(r, m);
  }

  /** Charging a chunk of one area to another leaves the sum of all gaps as it was. */
  lemma GapsShifted(f: Forest, m: map<Node, int>, ap: Node, o: Node, size: nat)
    requires Distinct(f) && ap in Members(f) && o in Members(f) && Members(f) <= m.Keys
    requires forall a :: a in Members(f) ==> a.Gap() == m[a] + Shift(a, ap, o, size)
    ensures Gaps(f) == Sum(f, m)
  {
    var taken := m[o := m[o] + size];
    var now := taken[ap := taken[ap] - size];
    SumChange(f, m, taken, o);
    SumChange(f, taken, now, ap);
    GapsAre(f, now);
  }

  lemma ChainsPart(areas: set<Node>, part: set<Node>)
    requires Chains(areas) && part <= areas
    ensures Chains(part)
  {
  }

  // ----- destruction -----

  function Removed<T(==)>(s: seq<T>, x: T): seq<T> {
    if s == [] then [] else if s[0] == x then s[1..] else [s[0]] + Removed(s[1..], x)
  }

  /** The second loop of area_destroy: every chunk is freed once, its successor read before. */
  method FreeChunks(rp: Node, mem: Memory)
    requires rp.Chained() && forall c :: c in rp.chunks ==> c in mem.chunks
    modifies mem`chunks
    ensures mem.chunks == old(mem.chunks) - set c | c in rp.chunks
  {
    var cp := rp.list;
    ghost var i, slot := 0, HeadOf(rp);
    while cp != null
      invariant i <= |rp.chunks| && Segment(cp, rp.chunks[i..], slot, null)
      invariant mem.chunks == old(mem.chunks) - set c | c in rp.chunks[..i]
      decreases |rp.chunks| - i
    {
      var next := cp.next;
      assert cp == rp.chunks[i] && rp.chunks[i..][1..] == rp.chunks[i + 1..];
      assert cp !in rp.chunks[..i];
      assert rp.chunks[..i + 1] == rp.chunks[..i] + [cp];
      mem.FreeChunk(cp);
      slot := NextOf(cp);
      cp := next;
      i := i + 1;
    }
    assert rp.chunks[..i] == rp.chunks;
  }

  ghost function AreasOf(rp: Node, k: Forest): set<Node> {
    {rp} + Members(k)
  }

  /** An area with what is below it, all of it alive, its chunks in no two areas. */
  ghost predicate Standing(rp: Node, k: Forest, mem: Memory)
    reads mem, AreasOf(rp, k), Owned(AreasOf(rp, k))
  {
    true == (
      && rp !in Members(k) && Down(k) && Up(k, rp) && rp.nodes == Roots(k) && NoneTwice(Roots(k))
      && Chains(AreasOf(rp, k)) && Living(AreasOf(rp, k), mem))
  }

  lemma {:induction false} RootsOnce(f: Forest)
    requires Distinct(f)
    ensures NoneTwice(Roots(f)) && forall a :: a in Roots(f) ==> a in Members(f)
  {
    match f
    case Nil =>
    case Tree(a, k, r) =>
      RootsOnce(r);
      NoneTwiceFirst(a, Roots(r));
  }

  lemma OwnedUnion(a: set<Node>, b: set<Node>)
    ensures Owned(a + b) == Owned(a) + Owned(b)
  {
  }

  /** The first area below, and what stays when it is gone. */
  lemma StandingKid(rp: Node, k: Forest, mem: Memory)
    requires Standing(rp, k, mem) && k.Tree?
    ensures Standing(k.area, k.kids, mem)
    ensures k.area.parent == rp && rp.nodes == [k.area] + Roots(k.rest)
    ensures Down(k.rest) && Up(k.rest, rp) && NoneTwice(Roots(k.rest)) && rp !in Members(k.rest)
    ensures AreasOf(k.area, k.kids) !! AreasOf(rp, k.rest)
    ensures forall c :: c in Owned(AreasOf(k.area, k.kids)) ==> c !in Owned(AreasOf(rp, k.rest))
    ensures Chains(AreasOf(rp, k.rest)) && Living(AreasOf(rp, k.rest), mem)
  {
    DownParts(k);
    UpParts(k, rp);
    RootsOnce(k.kids);
    RootsOnce(k.rest);
    ChainsPart(AreasOf(rp, k), AreasOf(k.area, k.kids));
    ChainsPart(AreasOf(rp, k), AreasOf(rp, k.rest));
  }

  /** SLIST_REMOVE of an area from the list it is in. */
  method RemoveNode(parent: Node, rp: Node)
    requires rp in parent.nodes
    modifies parent`nodes
    ensures parent.nodes == Removed(old(parent.nodes), rp)
  {
    parent.nodes := Removed(parent.nodes, rp);
  }

  /** area_destroy: every area and every chunk below is freed exactly once, and the parent forgets the area. */
  method Destroy(rp: Node, mem: Memory, ghost k: Forest)
    requires Standing(rp, k, mem)
    requires rp.parent != null ==> rp.parent !in AreasOf(rp, k) && rp in rp.parent.nodes
    modifies mem`areas, mem`chunks, AreasOf(rp, k)`nodes, (if rp.parent != null then {rp.parent} else {})`nodes
    ensures mem.areas == old(mem.areas) - AreasOf(rp, k) && mem.chunks == old(mem.chunks) - Owned(AreasOf(rp, k))
    ensures rp.parent != null ==> rp.parent.nodes == Removed(old(rp.parent.nodes), rp)
    decreases k, 1
  {
    DestroyKids(rp, mem, k);
    FreeChunks(rp, mem);
    if rp.parent != null {
      RemoveNode(rp.parent, rp);
    }
    mem.FreeArea(rp);
  }

  /** One turn of the first loop of area_destroy; the area takes itself out of the list. */
  method DestroyFirst(rp: Node, ap: Node, mem: Memory, ghost f: Forest)
    requires Standing(rp, f, mem) && f.Tree? && f.area == ap
    modifies mem`areas, mem`chunks, AreasOf(ap, f.kids)`nodes, rp`nodes
    ensures Standing(rp, f.rest, mem)
    ensures mem.areas == old(mem.areas) - AreasOf(ap, f.kids)
    ensures mem.chunks == old(mem.chunks) - Owned(AreasOf(ap, f.kids))
    decreases f.kids, 2
  {
    StandingKid(rp, f, mem);
    ghost var kid, rest := AreasOf(ap, f.kids), AreasOf(rp, f.rest);
    assert allocated(kid) && allocated(rest) && allocated(Owned(rest)) && allocated(Owned(kid));
    Destroy(ap, mem, f.kids);
    assert Down(f.rest) && Up(f.rest, rp);
    assert Chains(rest);
  }

  lemma OwnedApart(rp: Node, f: Forest, mem: Memory)
    requires Standing(rp, f, mem) && f.Tree?
    ensures Members(f) == AreasOf(f.area, f.kids) + Members(f.rest) && AreasOf(f.area, f.kids) !! Members(f.rest)
    ensures Owned(Members(f)) == Owned(AreasOf(f.area, f.kids)) + Owned(Members(f.rest))
    ensures Owned(AreasOf(f.area, f.kids)) !! Owned(Members(f.rest))
  {
    StandingKid(rp, f, mem);
    OwnedUnion(AreasOf(f.area, f.kids), Members(f.rest));
  }

  /** All that is left of now, apart from base. */
  ghost predicate Leaves<T>(now: set<T>, base: set<T>, all: set<T>) {
    true == (now == base + all && base !! all)
  }

  lemma Fewer<T>(now: set<T>, base: set<T>, all: set<T>, gone: set<T>, rest: set<T>)
    requires Leaves(now, base, all) && all == gone + rest && gone !! rest
    ensures Leaves(now - gone, base, rest)
  {
  }

  /** The first loop of area_destroy; the successor is read before the area is gone. */
  method DestroyKids(rp: Node, mem: Memory, ghost k: Forest)
    requires Standing(rp, k, mem)
    modifies mem`areas, mem`chunks, Members(k)`nodes, rp`nodes
    ensures mem.areas == old(mem.areas) - Members(k) && mem.chunks == old(mem.chunks) - Owned(Members(k))
    ensures rp.nodes == []
    decreases k, 0
  {
    ghost var todo, areas, chunks := k, mem.areas - Members(k), mem.chunks - Owned(Members(k));
    var ap := if rp.nodes == [] then null else rp.nodes[0];
    while ap != null
      invariant Going(rp, todo, mem, areas, chunks) && Members(todo) <= Members(k) && (todo == k || todo < k)
      invariant ap == if rp.nodes == [] then null else rp.nodes[0]
      decreases todo
    {
      var apnxt := if |rp.nodes| > 1 then rp.nodes[1] else null;
      GoingOn(rp, todo, mem, areas, chunks);
      DestroyNext(rp, ap, mem, todo, areas, chunks);
      todo := todo.rest;
      ap := apnxt;
    }
    GoingOn(rp, todo, mem, areas, chunks);
  }

  /** In the first loop of area_destroy: apart from these areas and chunks, all that is left is in the tree below rp. */
  ghost predicate Going(rp: Node, todo: Forest, mem: Memory, areas: set<Node>, chunks: set<Chunk>)
    reads mem, AreasOf(rp, todo), Owned(AreasOf(rp, todo))
  {
    true == (
      && Standing(rp, todo, mem)
      && Leaves(mem.areas, areas, Members(todo))
      && (OwnedUnion({rp}, Members(todo)); Leaves(mem.chunks, chunks, Owned(Members(todo)))))
  }

  lemma GoingOn(rp: Node, todo: Forest, mem: Memory, areas: set<Node>, chunks: set<Chunk>)
    requires Going(rp, todo, mem, areas, chunks)
    ensures rp.nodes == Roots(todo)
    ensures todo == Nil ==> mem.areas == areas && mem.chunks == chunks
    ensures todo.Tree? ==> rp.nodes == [todo.area] + Roots(todo.rest) && Members(todo.rest) <= Members(todo)
  {
  }

  method DestroyNext(rp: Node, ap: Node, mem: Memory, ghost f: Forest, ghost areas: set<Node>, ghost chunks: set<Chunk>)
    requires Going(rp, f, mem, areas, chunks) && f.Tree? && f.area == ap
    modifies mem`areas, mem`chunks, AreasOf(ap, f.kids)`nodes, rp`nodes
    ensures Going(rp, f.rest, mem, areas, chunks)
    decreases f.kids, 3
  {
    ghost var gone, rest := Owned(AreasOf(ap, f.kids)), Owned(Members(f.rest));
    OwnedApart(rp, f, mem);
    Fewer(mem.areas, areas, Members(f), AreasOf(ap, f.kids), Members(f.rest));
    Fewer(mem.chunks, chunks, Owned(Members(f)), gone, rest);
    DestroyFirst(rp, ap, mem, f);
    assert Owned(Members(f.rest)) == rest;
  }

  // ----- growing and pruning a tree -----

  /** A new area right below rp, first in its list. */
  ghost function Grown(f: Forest, rp: Node, x: Node): Forest {
    match f
    case Nil => Nil
    case Tree(a, k, r) =>
      if a == rp then Tree(a, Tree(x, Nil, k), r)
      else if rp in Members(k) then Tree(a, Grown(k, rp, x), r)
      else Tree(a, k, Grown(r, rp, x))
  }

  lemma {:induction false} GrownMembers(f: Forest, rp: Node, x: Node)
    requires Distinct(f) && rp in Members(f) && x !in Members(f)
    ensures Members(Grown(f, rp, x)) == Members(f) + {x} && Distinct(Grown(f, rp, x))
    ensures Roots(Grown(f, rp, x)) == Roots(f)
  {
    match f
    case Tree(a, k, r) =>
      if a == rp {
        var t := Tree(x, Nil, k);
        assert Members(t) == Members(k) + {x} && Distinct(t);
        assert Grown(f, rp, x) == Tree(a, t, r);
      } else if rp in Members(k) {
        GrownMembers(k, rp, x);
      } else {
        GrownMembers(r, rp, x);
      }
  }

  lemma {:induction false} GrownLinks(f: Forest, rp: Node, x: Node, up: Node?, b: Node)
    requires Distinct(f) && rp in Members(f) && x !in Members(f) && b in Members(f) + {x}
    ensures Kids(Grown(f, rp, x), b) == if b == x then [] else if b == rp then [x] + Kids(f, b) else Kids(f, b)
    ensures Parent(Grown(f, rp, x), b, up) == if b == x then rp else Parent(f, b, up)
  {
    GrownMembers(f, rp, x);
    match f
    case Tree(a, k, r) =>
      if a == rp {
        var t := Tree(x, Nil, k);
        assert Roots(t) == [x] + Roots(k) && (b in Members(k) ==> Kids(t, b) == Kids(k, b));
        assert b in Members(t) <==> b == x || b in Members(k);
        assert b == x ==> Kids(t, b) == [];
        assert Grown(f, rp, x) == Tree(a, t, r);
      } else if rp in Members(k) {
        GrownMembers(k, rp, x);
        if b in Members(k) + {x} {
          GrownLinks(k, rp, x, a, b);
        }
        assert Grown(f, rp, x) == Tree(a, Grown(k, rp, x), r);
      } else {
        GrownMembers(r, rp, x);
        if b in Members(r) + {x} {
          GrownLinks(r, rp, x, up, b);
        }
        assert Grown(f, rp, x) == Tree(a, k, Grown(r, rp, x));
      }
  }

  lemma {:induction false} GrownTotal(f: Forest, rp: Node, x: Node)
    requires Distinct(f) && rp in Members(f) && x !in Members(f)
    ensures Total(Grown(f, rp, x)) == Total(f) + x.total
  {
    match f
    case Tree(a, k, r) =>
      if a == rp {
        assert Total(Nil) == 0;
      } else if rp in Members(k) {
        GrownTotal(k, rp, x);
      } else {
        GrownTotal(r, rp, x);
      }
  }

  lemma {:induction false} GapsGrown(f: Forest, rp: Node, x: Node)
    requires Distinct(f) && rp in Members(f) && x !in Members(f) && x.Gap() == 0
    ensures Gaps(Grown(f, rp, x)) == Gaps(f)
  {
    match f
    case Tree(a, k, r) =>
      if a == rp {
        assert Gaps(Tree(x, Nil, k)) == Gaps(k);
      } else if rp in Members(k) {
        GapsGrown(k, rp, x);
      } else {
        GapsGrown(r, rp, x);
      }
  }

  lemma ChainsGrow(areas: set<Node>, ap: Node)
    requires Chains(areas) && ap !in areas && ap.Books() && ap.chunks == []
    ensures Chains(areas + {ap}) && Owned(areas + {ap}) == Owned(areas)
  {
    ChainsSplit(areas + {ap}, ap);
    assert areas + {ap} - {ap} == areas;
  }

  lemma ShapedGrown(f: Forest, rp: Node, ap: Node, mem: Memory)
    requires Distinct(f) && rp in Members(f) && ap !in Members(f) && ap in mem.areas
    requires Chains(Members(f)) && Living(Members(f), mem)
    requires ap.Books() && ap.chunks == [] && ap.nodes == [] && ap.parent == rp
    requires rp.nodes == [ap] + Kids(f, rp) && rp.parent == Parent(f, rp, null)
    requires forall b :: b in Members(f) && b != rp ==> b.nodes == Kids(f, b) && b.parent == Parent(f, b, null)
    ensures Shaped(Grown(f, rp, ap), mem)
  {
    GrownMembers(f, rp, ap);
    ChainsGrow(Members(f), ap);
    forall b | b in Members(Grown(f, rp, ap))
      ensures b.nodes == Kids(Grown(f, rp, ap), b) && b.parent == Parent(Grown(f, rp, ap), b, null)
    {
      GrownLinks(f, rp, ap, null, b);
    }
  }

  /** SLIST_INSERT_HEAD of an area in the list of another. */
  method InsertNode(rp: Node, ap: Node)
    modifies rp`nodes
    ensures rp.nodes == [ap] + old(rp.nodes)
  {
    rp.nodes := [ap] + rp.nodes;
  }

  method NewNode(rp: Node?, mem: Memory) returns (ap: Node)
    modifies mem`areas
    ensures fresh(ap) && mem.areas == old(mem.areas) + {ap}
    ensures ap.Books() && ap.chunks == [] && ap.nodes == [] && ap.parent == rp
  {
    ap := new Node(rp);
    mem.areas := mem.areas + {ap};
  }

  /** area_node: there is room for the area or not. */
  method AreaNode(rp: Node, room: bool, mem: Memory, ghost f: Forest) returns (ap: Node?)
    requires Shaped(f, mem) && rp in Members(f)
    modifies mem`areas, rp`nodes
    ensures ap != null <==> room
    ensures ap != null ==> rp.nodes == [ap] + old(rp.nodes) && ap.parent == rp && ap.nodes == []
    ensures ap == null ==> Shaped(f, mem) && rp.nodes == old(rp.nodes) && mem.areas == old(mem.areas)
    ensures ap != null ==>
              && fresh(ap) && mem.areas == old(mem.areas) + {ap} && ap.chunks == [] && ap.Gap() == 0
              && Shaped(Grown(f, rp, ap), mem) && Total(Grown(f, rp, ap)) == old(Total(f))
    ensures forall a :: a in Members(f) ==> a.Gap() == old(a.Gap())
    ensures ap != null && old(Family(f, mem)) ==> Family(Grown(f, rp, ap), mem)
  {
    if !room {
      return null;
    }
    ap := HangNode(rp, mem, f);
    GrownMembers(f, rp, ap);
  }

  /** area_node where there is memory for the area. */
  method HangNode(rp: Node, mem: Memory, ghost f: Forest) returns (ap: Node)
    requires Shaped(f, mem) && rp in Members(f)
    modifies mem`areas, rp`nodes
    ensures fresh(ap) && mem.areas == old(mem.areas) + {ap} && ap.chunks == [] && ap.Gap() == 0
    ensures rp.nodes == [ap] + old(rp.nodes) && ap.parent == rp && ap.nodes == []
    ensures Shaped(Grown(f, rp, ap), mem) && Total(Grown(f, rp, ap)) == old(Total(f))
    ensures forall a :: a in Members(f) ==> a.Gap() == old(a.Gap())
  {
    ghost var total := Total(f);
    assert allocated(Members(f)) && allocated(Owned(Members(f)));
    ap := NewNode(rp, mem);
    assert allocated(Members(f)) && allocated(Owned(Members(f)));
    InsertNode(rp, ap);
    assert Total(f) == total;
    ShapedGrown(f, rp, ap, mem);
    GrownTotal(f, rp, ap);
  }

  /** What hangs below x. */
  ghost function Below(f: Forest, x: Node): Forest {
    match f
    case Nil => Nil
    case Tree(a, k, r) => if a == x then k else if x in Members(k) then Below(k, x) else Below(r, x)
  }

  /** Without x and what hangs below it. */
  ghost function Pruned(f: Forest, x: Node): Forest {
    match f
    case Nil => Nil
    case Tree(a, k, r) =>
      if a == x then r else if x in Members(k) then Tree(a, Pruned(k, x), r) else Tree(a, k, Pruned(r, x))
  }

  lemma {:induction false} BelowMembers(f: Forest, x: Node)
    requires Distinct(f) && x in Members(f)
    ensures Members(Below(f, x)) <= Members(f) && x !in Members(Below(f, x)) && Distinct(Below(f, x))
    ensures Kids(f, x) == Roots(Below(f, x))
  {
    match f
    case Tree(a, k, r) =>
      if a != x {
        BelowMembers(if x in Members(k) then k else r, x);
      }
  }

  lemma {:induction false} BelowLinks(f: Forest, x: Node, up: Node?, b: Node)
    requires Distinct(f) && x in Members(f) && b in Members(Below(f, x))
    ensures Kids(Below(f, x), b) == Kids(f, b) && Parent(Below(f, x), b, x) == Parent(f, b, up)
  {
    BelowMembers(f, x);
    match f
    case Tree(a, k, r) =>
      if a != x {
        BelowMembers(if x in Members(k) then k else r, x);
        if x in Members(k) {
          BelowLinks(k, x, a, b);
        } else {
          BelowLinks(r, x, up, b);
        }
      }
  }

  lemma {:induction false} PrunedRoots(f: Forest, x: Node)
    requires Distinct(f) && x in Members(f)
    ensures Roots(Pruned(f, x)) == Removed(Roots(f), x)
  {
    match f
    case Tree(a, k, r) =>
      if a == x {
      } else if x in Members(k) {
        RootsOnce(r);
        RemovedNone(Roots(r), x);
      } else {
        PrunedRoots(r, x);
      }
  }

  lemma {:induction false} PrunedMembers(f: Forest, x: Node)
    requires Distinct(f) && x in Members(f)
    ensures Members(Pruned(f, x)) == Members(f) - AreasOf(x, Below(f, x)) && Distinct(Pruned(f, x))
    ensures Roots(Pruned(f, x)) == Removed(Roots(f), x)
  {
    BelowMembers(f, x);
    PrunedRoots(f, x);
    match f
    case Tree(a, k, r) =>
      if a == x {
      } else if x in Members(k) {
        BelowMembers(k, x);
        PrunedMembers(k, x);
      } else {
        BelowMembers(r, x);
        PrunedMembers(r, x);
      }
  }

  lemma {:induction false} RemovedNone<T>(s: seq<T>, x: T)
    requires x !in s
    ensures Removed(s, x) == s
  {
    if s != [] {
      RemovedNone(s[1..], x);
    }
  }

  /** The parent is what it hangs on: the area outside for a root, another member for the rest. */
  lemma {:induction false} ParentWithin(f: Forest, x: Node, up: Node?)
    requires Distinct(f) && x in Members(f) && up !in Members(f)
    ensures if x in Roots(f) then Parent(f, x, up) == up else Parent(f, x, up) in Members(f)
  {
    match f
    case Tree(a, k, r) =>
      RootsOnce(r);
      if a != x {
        if x in Members(k) {
          ParentWithin(k, x, a);
        } else {
          ParentWithin(r, x, up);
        }
      }
  }

  lemma {:induction false} PrunedLinks(f: Forest, x: Node, up: Node?, b: Node)
    requires Distinct(f) && x in Members(f) && b in Members(Pruned(f, x)) && up !in Members(f)
    ensures Kids(Pruned(f, x), b) == if Parent(f, x, up) == b then Removed(Kids(f, b), x) else Kids(f, b)
    ensures Parent(Pruned(f, x), b, up) == Parent(f, b, up)
  {
    PrunedMembers(f, x);
    match f
    case Tree(a, k, r) =>
      if a == x {
      } else if x in Members(k) {
        PrunedMembers(k, x);
        ParentWithin(k, x, a);
        if b == a {
          if x !in Roots(k) {
            RemovedNone(Roots(k), x);
          }
        } else if b in Members(k) {
          PrunedLinks(k, x, a, b);
        }
      } else {
        PrunedMembers(r, x);
        ParentWithin(r, x, up);
        if b in Members(r) {
          PrunedLinks(r, x, up, b);
        }
      }
  }

  lemma {:induction false} TotalPruned(f: Forest, x: Node)
    requires Distinct(f) && x in Members(f)
    ensures Total(f) == Total(Pruned(f, x)) + Total(Tree(x, Below(f, x), Nil))
  {
    match f
    case Tree(a, k, r) =>
      if a == x {
        TotalNil(a, k);
      } else if x in Members(k) {
        TotalPruned(k, x);
      } else {
        TotalPruned(r, x);
      }
  }

  lemma {:induction false} GapsPruned(f: Forest, x: Node)
    requires Distinct(f) && x in Members(f)
    ensures Gaps(f) == Gaps(Pruned(f, x)) + Gaps(Tree(x, Below(f, x), Nil))
  {
    match f
    case Tree(a, k, r) =>
      if a == x {
        assert Gaps(Nil) == 0;
      } else if x in Members(k) {
        GapsPruned(k, x);
      } else {
        GapsPruned(r, x);
      }
  }

  /** What Destroy asks of the area above. */
  lemma {:induction false} ParentLists(f: Forest, x: Node, up: Node?)
    requires Distinct(f) && x in Members(f) && up !in Members(f)
    ensures var p := Parent(f, x, up);
            p != null && p != up ==> p in Members(f) && x in Kids(f, p) && p !in AreasOf(x, Below(f, x))
  {
    BelowMembers(f, x);
    match f
    case Tree(a, k, r) =>
      RootsOnce(k);
      RootsOnce(r);
      if a != x {
        if x in Members(k) {
          BelowMembers(k, x);
          ParentWithin(k, x, a);
          ParentLists(k, x, a);
        } else {
          BelowMembers(r, x);
          ParentWithin(r, x, up);
          ParentLists(r, x, up);
        }
      }
  }

  lemma StandingBelow(f: Forest, x: Node, mem: Memory)
    requires Shaped(f, mem) && x in Members(f)
    ensures Standing(x, Below(f, x), mem) && Down(Tree(x, Below(f, x), Nil))
    ensures AreasOf(x, Below(f, x)) <= Members(f)
  {
    var k := Below(f, x);
    BelowMembers(f, x);
    RootsOnce(k);
    ChainsPart(Members(f), AreasOf(x, k));
    forall b | b in Members(k) ensures b.nodes == Kids(k, b) && b.parent == Parent(k, b, x) {
      BelowLinks(f, x, null, b);
    }
    assert Owned(AreasOf(x, k)) <= Owned(Members(f));
  }

  /** area_size finds the sum of the recorded sizes of all chunks in the area and below it, and the gaps there. */
  method AreaSize(ap: Node, mem: Memory, ghost f: Forest) returns (size: int)
    requires Shaped(f, mem) && ap in Members(f)
    ensures var t := Tree(ap, Below(f, ap), Nil);
            size == Sizes(t) + Gaps(t) && (Balanced(Members(t)) ==> size == Sizes(t))
    ensures Family(f, mem) ==> size == Sizes(Tree(ap, Below(f, ap), Nil))
  {
    ghost var t := Tree(ap, Below(f, ap), Nil);
    StandingBelow(f, ap, mem);
    TotalIsSizes(t);
    TotalNil(ap, Below(f, ap));
    assert allocated(Members(t)) && allocated(Owned(Members(t)));
    size := Size(ap, Below(f, ap));
  }

  lemma ShapedPruned(f: Forest, x: Node, mem: Memory)
    requires Distinct(f) && x in Members(f) && Chains(Members(f)) && Living(Members(Pruned(f, x)), mem)
    requires forall b :: b in Members(Pruned(f, x)) ==> b.parent == Parent(f, b, null)
    requires forall b :: b in Members(Pruned(f, x)) ==>
                           b.nodes == if Parent(f, x, null) == b then Removed(Kids(f, b), x) else Kids(f, b)
    ensures Shaped(Pruned(f, x), mem)
  {
    PrunedMembers(f, x);
    ChainsPart(Members(f), Members(Pruned(f, x)));
    forall b | b in Members(Pruned(f, x))
      ensures b.nodes == Kids(Pruned(f, x), b) && b.parent == Parent(Pruned(f, x), b, null)
    {
      PrunedLinks(f, x, null, b);
    }
    assert Linked(Pruned(f, x), null);
    assert Chains(Members(Pruned(f, x)));
    assert Distinct(Pruned(f, x));
  }

  /** What lives on after an area and all below it are gone. */
  lemma LivingOn(f: Forest, x: Node, mem: Memory)
    requires Shaped(f, mem) && x in Members(f)
    ensures Members(Pruned(f, x)) <= mem.areas - AreasOf(x, Below(f, x))
    ensures Owned(Members(Pruned(f, x))) <= mem.chunks - Owned(AreasOf(x, Below(f, x)))
  {
    PrunedMembers(f, x);
    BelowMembers(f, x);
  }

  /** area_destroy on an area of a tree: all of it from there down is freed, and the rest stands. */
  method AreaDestroy(rp: Node, mem: Memory, ghost f: Forest)
    requires Shaped(f, mem) && rp in Members(f)
    modifies mem`areas, mem`chunks, Members(f)`nodes
    ensures Shaped(Pruned(f, rp), mem)
    ensures mem.areas == old(mem.areas) - AreasOf(rp, Below(f, rp))
    ensures mem.chunks == old(mem.chunks) - old(Owned(AreasOf(rp, Below(f, rp))))
    ensures forall a :: a in Members(f) ==> a.Gap() == old(a.Gap())
    ensures old(Family(f, mem)) ==> Family(Pruned(f, rp), mem)
    ensures Total(Pruned(f, rp)) == old(Total(f) - Total(Tree(rp, Below(f, rp), Nil)))
    ensures Gaps(Pruned(f, rp)) == old(Gaps(f) - Gaps(Tree(rp, Below(f, rp), Nil)))
  {
    ghost var total, gaps := Total(Pruned(f, rp)), Gaps(Pruned(f, rp));
    TotalPruned(f, rp);
    GapsPruned(f, rp);
    PrunedMembers(f, rp);
    assert allocated(Members(f)) && allocated(Owned(Members(f)));
    TearDown(rp, mem, f);
    assert Total(Pruned(f, rp)) == total && Gaps(Pruned(f, rp)) == gaps;
  }

  method TearDown(rp: Node, mem: Memory, ghost f: Forest)
    requires Shaped(f, mem) && rp in Members(f)
    modifies mem`areas, mem`chunks, Members(f)`nodes
    ensures Shaped(Pruned(f, rp), mem)
    ensures mem.areas == old(mem.areas) - AreasOf(rp, Below(f, rp))
    ensures mem.chunks == old(mem.chunks) - old(Owned(AreasOf(rp, Below(f, rp))))
  {
    ghost var k, rest := Below(f, rp), Members(Pruned(f, rp));
    StandingBelow(f, rp, mem);
    ParentLists(f, rp, null);
    LivingOn(f, rp, mem);
    PrunedMembers(f, rp);
    assert allocated(Members(f)) && allocated(Owned(Members(f)));
    Destroy(rp, mem, k);
    ShapedPruned(f, rp, mem);
  }

  lemma ShapedRoot(f: Forest, ap: Node, mem: Memory)
    requires Shaped(f, mem) && ap !in Members(f) && ap in mem.areas
    requires ap.Books() && ap.chunks == [] && ap.nodes == [] && ap.parent == null
    ensures Shaped(Tree(ap, Nil, f), mem) && Total(Tree(ap, Nil, f)) == Total(f)
  {
    ChainsGrow(Members(f), ap);
    assert Members(Tree(ap, Nil, f)) == Members(f) + {ap};
    assert Total(Nil) == 0;
  }

  /** area_root: without an error handler the new area is lost, and so it is where its handler finds no memory. */
  method AreaRoot(handler: bool, room: bool, mem: Memory, ghost f: Forest) returns (ap: Node?, ghost made: Node)
    requires Shaped(f, mem)
    modifies mem`areas
    ensures ap != null <==> handler && room
    ensures fresh(made) && mem.areas == old(mem.areas) + {made}
    ensures forall a :: a in Members(f) ==> a.Gap() == old(a.Gap())
    ensures ap == null ==> Shaped(f, mem)
    ensures old(Family(f, mem)) ==> Family(if ap == null then f else Tree(ap, Nil, f), mem)
    ensures ap != null ==>
              && handler && ap == made && ap.chunks == [] && ap.Gap() == 0
              && Shaped(Tree(ap, Nil, f), mem) && Total(Tree(ap, Nil, f)) == old(Total(f))
  {
    assert allocated(Members(f)) && allocated(Owned(Members(f)));
    var area := NewNode(null, mem);
    made := area;
    assert Shaped(f, mem);
    if handler && room {
      ShapedRoot(f, area, mem);
      ap := area;
    } else {
      ap := null;
    }
  }
}
