/**
 Programs over the allocator of lib/area.c: any areas, any chunks, any order of
 operations.  A chunk may be handed to another area than the one it is in.
 */
module AreaRun {
  import opened Area
  import opened Sequences

  /** A record of all areas of a tree, and of the area each linked chunk is in. */
  ghost predicate Recorded(areas: set<Node>, owner: map<Chunk, Node>, f: Forest)
    reads Members(f)`chunks
  {
    true == (
      && areas == Members(f) && owner.Keys == Owned(Members(f))
      && forall c :: c in owner ==> owner[c] in Members(f) && c in owner[c].chunks)
  }

  lemma RecordedChunks(areas: set<Node>, owner: map<Chunk, Node>, f: Forest)
    requires Recorded(areas, owner, f)
    ensures forall a, c :: a in areas && c in a.chunks ==> c in owner
  {
    assert forall a, c :: a in areas && c in a.chunks ==> c in Owned(Members(f));
  }

  lemma OneList(a: Node, f: Forest, mem: Memory)
    requires Shaped(f, mem) && a in Members(f)
    ensures NoneTwice(a.chunks)
  {
    assert a.Chained();
  }

  lemma Apart(f: Forest, mem: Memory)
    requires Shaped(f, mem)
    ensures forall a, b, c :: a in Members(f) && b in Members(f) && a != b && c in a.chunks ==> c !in b.chunks
  {
  }

  /** The part of the record that is about these areas. */
  ghost predicate Placed(others: set<Node>, owner: map<Chunk, Node>)
    reads others`chunks
  {
    true == (forall c :: c in owner && owner[c] in others ==> c in owner[c].chunks)
  }

  /** The part that is about two areas, whose lists these are or were. */
  ghost predicate Homed(areas: set<Node>, owner: map<Chunk, Node>, o: Node, np: Node, oWas: seq<Chunk>,
                        npWas: seq<Chunk>) {
    true == (
      && o in areas && np in areas && NoneTwice(oWas)
      && forall c :: c in owner ==>
           owner[c] in areas && (owner[c] == o ==> c in oWas) && (owner[c] == np ==> c in npWas))
  }

  /** The record after cp has gone and r, if it is one, has come. */
  function Rehomed(owner: map<Chunk, Node>, cp: Chunk, np: Node, r: Chunk?): map<Chunk, Node> {
    if r == null then owner - {cp} else (owner - {cp})[r := np]
  }

  lemma RehomedKeys(owner: map<Chunk, Node>, cp: Chunk, np: Node, r: Chunk?)
    ensures forall c :: c in Rehomed(owner, cp, np, r).Keys ==> c in owner.Keys || c == r
  {
  }

  lemma RehomedSame(owner: map<Chunk, Node>, cp: Chunk, np: Node)
    ensures Rehomed(owner, cp, np, cp) == owner[cp := np] && Rehomed(owner, cp, np, null) == owner - {cp}
  {
  }

  /** Chunk k of o has left, and r, if it is one, has come to np; the other lists are as they were. */
  lemma RecordedMoved(areas: set<Node>, owner: map<Chunk, Node>, f: Forest, oWas: seq<Chunk>, npWas: seq<Chunk>,
                      o: Node, cp: Chunk, k: nat, np: Node, r: Chunk?)
    requires areas == Members(f) && Homed(areas, owner, o, np, oWas, npWas) && Placed(areas - {o, np}, owner)
    requires Replaced(np, o, r, npWas, oWas, k, np.chunks, o.chunks) && oWas[k] == cp && cp in owner && owner[cp] == o
    requires Owned(Members(f)) == owner.Keys - {cp} + Only(r)
    ensures Recorded(areas, Rehomed(owner, cp, np, r), f)
  {
    LeftOver(oWas, k);
  }

  ghost function Only(r: Chunk?): set<Chunk> {
    if r == null then {} else {r}
  }

  /** What has to hold before an operation on a chunk of o, in the terms of that operation. */
  lemma Ready(o: Node, np: Node, cp: Chunk, mem: Memory, areas: set<Node>, owner: map<Chunk, Node>, f: Forest)
    requires Shaped(f, mem) && Recorded(areas, owner, f) && cp in owner && owner[cp] == o && np in areas
    ensures areas == Members(f) && o in areas && cp in o.chunks && owner.Keys == Owned(Members(f))
    ensures Homed(areas, owner, o, np, o.chunks, np.chunks) && Placed(areas - {o, np}, owner)
  {
    OneList(o, f, mem);
  }

  /** The accounts of a program: the sum of all gaps, and whether every counter is right. */
  ghost predicate Sums(f: Forest, sum: int, right: bool)
    reads Members(f)`total, Members(f)`chunks, Owned(Members(f))`size
  {
    true == (Gaps(f) == sum && (right ==> Balanced(Members(f))))
  }

  lemma SumsAre(f: Forest, sum: int, right: bool, gaps: map<Node, int>)
    requires Sums(f, sum, right) && gaps.Keys == Members(f) && forall a :: a in Members(f) ==> gaps[a] == a.Gap()
    ensures Sum(f, gaps) == sum && (right ==> forall a :: a in Members(f) ==> gaps[a] == 0)
  {
    GapsAre(f, gaps);
  }

  /** Where a chunk of o is charged to ap the gaps move, and their sum stays. */
  lemma Conserved(f: Forest, sum: int, right: bool, gaps: map<Node, int>, ap: Node, o: Node, size: nat)
    requires Distinct(f) && ap in Members(f) && o in Members(f) && gaps.Keys == Members(f)
    requires forall a :: a in Members(f) ==> a.Gap() == gaps[a] + Shift(a, ap, o, size)
    requires Sum(f, gaps) == sum && (right ==> forall a :: a in Members(f) ==> gaps[a] == 0)
    requires right ==> o == ap || size == 0
    ensures Sums(f, sum, right)
  {
    GapsShifted(f, gaps, ap, o, size);
  }

  /** a_malloc. */
  method Gotten(ap: Node, size: nat, room: bool, mem: Memory, ghost areas: set<Node>, ghost owner: map<Chunk, Node>,
                ghost f: Forest, ghost sum: int, ghost right: bool) returns (cp: Chunk?)
    requires Sums(f, sum, right) && Shaped(f, mem) && Recorded(areas, owner, f) && ap in areas
    modifies mem`chunks, ap`list, ap`total, ap`chunks, ap.chunks`next, ap.chunks`prev
    ensures Shaped(f, mem) && (cp != null ==> fresh(cp)) && (cp != null <==> room)
    ensures Recorded(areas, if cp != null then owner[cp := ap] else owner, f)
    ensures Sums(f, sum, right)
  {
    ghost var was, others := ap.chunks, areas - {ap};
    OneList(ap, f, mem);
    assert Homed(areas, owner, ap, ap, was, was) && Placed(others, owner) && allocated(areas);
    cp := MallocLinked(ap, size, room, mem, f, sum, right);
    assert Placed(others, owner);
    RecordedGot(areas, owner, f, was, ap, cp);
  }

  method MallocLinked(ap: Node, size: nat, room: bool, mem: Memory, ghost f: Forest, ghost sum: int,
                      ghost right: bool) returns (cp: Chunk?)
    requires Shaped(f, mem) && Sums(f, sum, right) && ap in Members(f)
    modifies mem`chunks, ap`list, ap`total, ap`chunks, ap.chunks`next, ap.chunks`prev
    ensures Shaped(f, mem) && Sums(f, sum, right) && (cp != null ==> fresh(cp) && cp !in old(Owned(Members(f))))
    ensures cp != null <==> room
    ensures ap.chunks == (if cp == null then [] else [cp]) + old(ap.chunks)
    ensures Owned(Members(f)) == old(Owned(Members(f))) + Only(cp)
  {
    ghost var gaps := map a: Node | a in Members(f) :: a.Gap();
    SumsAre(f, sum, right, gaps);
    cp := Malloc(ap, size, room, mem, f);
    Conserved(f, sum, right, gaps, ap, ap, 0);
  }

  lemma RecordedGot(areas: set<Node>, owner: map<Chunk, Node>, f: Forest, was: seq<Chunk>, ap: Node, cp: Chunk?)
    requires areas == Members(f) && Homed(areas, owner, ap, ap, was, was) && Placed(areas - {ap}, owner)
    requires ap.chunks == (if cp == null then [] else [cp]) + was && (cp != null ==> cp !in owner)
    requires Owned(Members(f)) == owner.Keys + Only(cp)
    ensures Recorded(areas, if cp != null then owner[cp := ap] else owner, f)
  {
  }

  /** a_free of a chunk of o. */
  method FreeLinked(ap: Node, cp: Chunk, mem: Memory, ghost o: Node, ghost f: Forest, ghost sum: int,
                    ghost right: bool) returns (ghost k: nat)
    requires Shaped(f, mem) && Sums(f, sum, right) && ap in Members(f) && o in Members(f) && cp in o.chunks
    requires right ==> o == ap || cp.size == 0
    modifies mem`chunks, ap`total, o`list, o`chunks, o.chunks`next, o.chunks`prev
    ensures Shaped(f, mem) && k < |old(o.chunks)| && old(o.chunks)[k] == cp
    ensures Replaced(o, o, null, old(o.chunks), old(o.chunks), k, o.chunks, o.chunks)
    ensures Owned(Members(f)) == old(Owned(Members(f))) - {cp} + Only(null)
    ensures Sums(f, sum, right) && mem.chunks == old(mem.chunks) - {cp}
  {
    ghost var gaps, was := map a: Node | a in Members(f) :: a.Gap(), cp.size;
    SumsAre(f, sum, right, gaps);
    var code;
    code, k := Free(ap, cp, mem, o, f);
    Conserved(f, sum, right, gaps, ap, o, was);
  }

  /** a_realloc of a chunk of o to another size. */
  method ReallocLinked(ap: Node, cp: Chunk, size: nat, room: bool, mem: Memory, ghost o: Node, ghost f: Forest,
                       ghost sum: int, ghost right: bool)
    returns (r: Chunk?, ghost k: nat)
    requires Shaped(f, mem) && Sums(f, sum, right) && ap in Members(f) && o in Members(f)
    requires cp in o.chunks && cp.size != size
    requires right ==> o == ap || cp.size == 0
    modifies mem`chunks, ap`list, ap`total, ap`chunks, ap.chunks`next, ap.chunks`prev
    modifies o`list, o`chunks, o.chunks`next, o.chunks`prev, o.chunks`size
    ensures Shaped(f, mem) && (r == null || r == cp || fresh(r)) && (r != null <==> room)
    ensures k < |old(o.chunks)| && old(o.chunks)[k] == cp
    ensures Replaced(ap, o, r, old(ap.chunks), old(o.chunks), k, ap.chunks, o.chunks)
    ensures Owned(Members(f)) == old(Owned(Members(f))) - {cp} + Only(r)
    ensures Sums(f, sum, right)
  {
    ghost var gaps, was := map a: Node | a in Members(f) :: a.Gap(), cp.size;
    SumsAre(f, sum, right, gaps);
    r, k := Realloc(ap, cp, size, room, mem, o, f);
    Conserved(f, sum, right, gaps, ap, o, was);
  }

  /** area_relink of a chunk of o to no area. */
  method RelinkOut(op: Node, cp: Chunk, mem: Memory, ghost o: Node, ghost f: Forest, ghost sum: int,
                   ghost right: bool) returns (ghost k: nat)
    requires Shaped(f, mem) && Sums(f, sum, right) && op in Members(f) && o in Members(f) && cp in o.chunks
    requires right ==> o == op || cp.size == 0
    modifies op`total, o`list, o`chunks, o.chunks`next, o.chunks`prev
    ensures Shaped(f, mem) && k < |old(o.chunks)| && old(o.chunks)[k] == cp
    ensures Replaced(o, o, null, old(o.chunks), old(o.chunks), k, o.chunks, o.chunks)
    ensures Owned(Members(f)) == old(Owned(Members(f))) - {cp} + Only(null)
    ensures Sums(f, sum, right)
  {
    ghost var gaps, was := map a: Node | a in Members(f) :: a.Gap(), cp.size;
    SumsAre(f, sum, right, gaps);
    var done;
    done, k := Relink(op, null, cp, mem, o, f);
    Conserved(f, sum, right, gaps, op, o, was);
  }

  /** area_relink of a chunk of o. */
  method RelinkTo(op: Node, np: Node, cp: Chunk, mem: Memory, ghost o: Node, ghost f: Forest, ghost sum: int,
                  ghost right: bool) returns (ghost k: nat)
    requires Shaped(f, mem) && Sums(f, sum, right) && op in Members(f) && o in Members(f)
    requires np in Members(f) && cp in o.chunks
    requires right ==> o == op || cp.size == 0
    modifies op`total, o`list, o`chunks, o.chunks`next, o.chunks`prev
    modifies np`list, np`total, np`chunks, np.chunks`next, np.chunks`prev
    ensures Shaped(f, mem) && k < |old(o.chunks)| && old(o.chunks)[k] == cp
    ensures Replaced(np, o, cp, old(np.chunks), old(o.chunks), k, np.chunks, o.chunks)
    ensures Owned(Members(f)) == old(Owned(Members(f))) - {cp} + Only(cp)
    ensures Sums(f, sum, right)
  {
    ghost var gaps, was := map a: Node | a in Members(f) :: a.Gap(), cp.size;
    SumsAre(f, sum, right, gaps);
    var done;
    done, k := Relink(op, np, cp, mem, o, f);
    Conserved(f, sum, right, gaps, op, o, was);
  }

  method GivenBack(ap: Node, cp: Chunk, mem: Memory, ghost o: Node, ghost areas: set<Node>,
                   ghost owner: map<Chunk, Node>, ghost f: Forest, ghost sum: int, ghost right: bool)
    requires Sums(f, sum, right) && Shaped(f, mem) && Recorded(areas, owner, f)
    requires cp in owner && owner[cp] == o && ap in areas
    requires right ==> o == ap || cp.size == 0
    modifies mem`chunks, ap`total, o`list, o`chunks, o.chunks`next, o.chunks`prev
    ensures Shaped(f, mem) && Recorded(areas, Rehomed(owner, cp, o, null), f)
    ensures Sums(f, sum, right) && mem.chunks == old(mem.chunks) - {cp}
  {
    ghost var oWas, npWas, others := o.chunks, o.chunks, areas - {o, o};
    Ready(o, o, cp, mem, areas, owner, f);
    ghost var k := FreeLinked(ap, cp, mem, o, f, sum, right);
    assert Placed(others, owner);
    RecordedMoved(areas, owner, f, oWas, npWas, o, cp, k, o, null);
  }

  method Resized(ap: Node, cp: Chunk, size: nat, room: bool, mem: Memory, ghost o: Node, ghost areas: set<Node>,
                 ghost owner: map<Chunk, Node>, ghost f: Forest, ghost sum: int, ghost right: bool) returns (r: Chunk?)
    requires Sums(f, sum, right) && Shaped(f, mem) && Recorded(areas, owner, f)
    requires cp in owner && owner[cp] == o && ap in areas
    requires cp.size != size
    requires right ==> o == ap || cp.size == 0
    modifies mem`chunks, ap`list, ap`total, ap`chunks, ap.chunks`next, ap.chunks`prev
    modifies o`list, o`chunks, o.chunks`next, o.chunks`prev, o.chunks`size
    ensures Shaped(f, mem) && (r == null || r == cp || fresh(r)) && (r != null <==> room)
    ensures Recorded(areas, Rehomed(owner, cp, ap, r), f)
    ensures Sums(f, sum, right)
  {
    ghost var oWas, npWas, others := o.chunks, ap.chunks, areas - {o, ap};
    Ready(o, ap, cp, mem, areas, owner, f);
    ghost var k;
    r, k := ReallocLinked(ap, cp, size, room, mem, o, f, sum, right);
    assert Placed(others, owner);
    RecordedMoved(areas, owner, f, oWas, npWas, o, cp, k, ap, r);
  }

  method Cut(op: Node, cp: Chunk, mem: Memory, ghost o: Node, ghost areas: set<Node>, ghost owner: map<Chunk, Node>,
             ghost f: Forest, ghost sum: int, ghost right: bool)
    requires Sums(f, sum, right) && Shaped(f, mem) && Recorded(areas, owner, f)
    requires cp in owner && owner[cp] == o && op in areas
    requires right ==> o == op || cp.size == 0
    modifies op`total, o`list, o`chunks, o.chunks`next, o.chunks`prev
    ensures Shaped(f, mem) && Recorded(areas, Rehomed(owner, cp, o, null), f)
    ensures Sums(f, sum, right)
  {
    ghost var oWas, npWas, others := o.chunks, o.chunks, areas - {o, o};
    Ready(o, o, cp, mem, areas, owner, f);
    ghost var k := RelinkOut(op, cp, mem, o, f, sum, right);
    assert Placed(others, owner);
    RecordedMoved(areas, owner, f, oWas, npWas, o, cp, k, o, null);
  }

  method Moved(op: Node, np: Node, cp: Chunk, mem: Memory, ghost o: Node, ghost areas: set<Node>,
               ghost owner: map<Chunk, Node>, ghost f: Forest, ghost sum: int, ghost right: bool)
    requires Sums(f, sum, right) && Shaped(f, mem) && Recorded(areas, owner, f)
    requires cp in owner && owner[cp] == o && op in areas && np in areas
    requires right ==> o == op || cp.size == 0
    modifies op`total, o`list, o`chunks, o.chunks`next, o.chunks`prev
    modifies np`list, np`total, np`chunks, np.chunks`next, np.chunks`prev
    ensures Shaped(f, mem) && Recorded(areas, Rehomed(owner, cp, np, cp), f)
    ensures Sums(f, sum, right)
  {
    ghost var oWas, npWas, others := o.chunks, np.chunks, areas - {o, np};
    Ready(o, np, cp, mem, areas, owner, f);
    ghost var k := RelinkTo(op, np, cp, mem, o, f, sum, right);
    assert Placed(others, owner);
    RecordedMoved(areas, owner, f, oWas, npWas, o, cp, k, np, cp);
  }

  /** The record of the chunks in some areas. */
  function Among(owner: map<Chunk, Node>, left: set<Node>): map<Chunk, Node> {
    map c | c in owner && owner[c] in left :: owner[c]
  }

  lemma RecordedPruned(areas: set<Node>, owner: map<Chunk, Node>, f: Forest, rp: Node, left: set<Node>,
                       kept: map<Chunk, Node>, g: Forest)
    requires Recorded(areas, owner, f) && Distinct(f) && rp in Members(f)
    requires forall a, b, c :: a in areas && b in areas && a != b && c in a.chunks ==> c !in b.chunks
    requires left == areas - AreasOf(rp, Below(f, rp)) && kept == Among(owner, left) && g == Pruned(f, rp)
    ensures Recorded(left, kept, g)
  {
    PrunedMembers(f, rp);
    RecordedChunks(areas, owner, f);
  }

  method Torn(rp: Node, mem: Memory, areas: set<Node>, owner: map<Chunk, Node>, ghost f: Forest, ghost sum: int,
              ghost right: bool) returns (left: set<Node>, kept: map<Chunk, Node>, ghost g: Forest)
    requires Sums(f, sum, right) && Shaped(f, mem) && Recorded(areas, owner, f) && rp in areas
    modifies mem`areas, mem`chunks, areas`nodes
    ensures left == areas - AreasOf(rp, Below(f, rp)) && kept == Among(owner, left)
    ensures g == Pruned(f, rp) && Shaped(g, mem)
    ensures Recorded(left, kept, g)
    ensures Sums(g, sum - old(Gaps(Tree(rp, Below(f, rp), Nil))), right)
  {
    ghost var gone := AreasOf(rp, Below(f, rp));
    assert areas <= mem.areas && allocated(areas);
    Apart(f, mem);
    AreaDestroy(rp, mem, f);
    left := set a | a in areas && a in mem.areas;
    assert left == areas - gone;
    kept, g := Among(owner, left), Pruned(f, rp);
    RecordedPruned(areas, owner, f, rp, left, kept, g);
    PrunedMembers(f, rp);
  }

  /** The areas and chunks of a program, and its accounts. */
  ghost predicate Stands(f: Forest, mem: Memory, areas: set<Node>, owner: map<Chunk, Node>, fair: bool, lost: int)
    reads mem, Members(f), Owned(Members(f))
  {
    true == (
      && Shaped(f, mem) && Recorded(areas, owner, f) && Sums(f, 0 - lost, fair))
  }

  /**
   What a program holds on to: its areas, and the area each of its chunks is in.  Two ghosts
   keep the accounts: whether every chunk was charged to the area it was in, and the gaps that
   went with areas that have been destroyed.
   */
  class Program {
    const mem: Memory
    var areas: set<Node>
    var owner: map<Chunk, Node>
    ghost var f: Forest
    ghost var fair: bool
    ghost var lost: int

    ghost predicate Valid()
      reads this, mem, Members(f), Owned(Members(f))
    {
      Stands(f, mem, areas, owner, fair, lost)
    }

    ghost function Objects(): set<object>
      reads this
    {
      {this, mem} + areas + owner.Keys
    }

    constructor ()
      ensures Valid() && fresh(mem) && areas == {} && owner == map[] && fair && lost == 0
    {
      mem := new Memory();
      areas, owner, f, fair, lost := {}, map[], Nil, true, 0;
    }

    method Keep(areas: set<Node>, owner: map<Chunk, Node>, ghost f: Forest, ghost fair: bool, ghost lost: int)
      requires Stands(f, mem, areas, owner, fair, lost)
      modifies this`areas, this`owner, this`f, this`fair, this`lost
      ensures Valid() && this.areas == areas && this.owner == owner && this.f == f
      ensures this.fair == fair && this.lost == lost
    {
      assert allocated(Members(f)) && allocated(Owned(Members(f)));
      Record(areas, owner, f, fair, lost);
    }

    method Record(areas: set<Node>, owner: map<Chunk, Node>, ghost f: Forest, ghost fair: bool, ghost lost: int)
      modifies this`areas, this`owner, this`f, this`fair, this`lost
      ensures this.areas == areas && this.owner == owner && this.f == f && this.fair == fair && this.lost == lost
    {
      this.areas, this.owner := areas, owner;
      this.f, this.fair, this.lost := f, fair, lost;
    }

    lemma Known()
      requires Valid()
      ensures areas == Members(f) && owner.Keys == Owned(Members(f))
      ensures forall a, c :: a in areas && c in a.chunks ==> c in owner.Keys
      ensures forall c :: c in owner ==> owner[c] in areas
      ensures Shaped(f, mem) && Recorded(areas, owner, f) && Sums(f, 0 - lost, fair)
    {
      RecordedChunks(areas, owner, f);
    }

    /** area_root. */
    method NewRoot(handler: bool, room: bool) returns (ap: Node?)
      requires Valid()
      modifies Objects()
      ensures Valid() && forall o :: o in Objects() ==> o in old(Objects()) || fresh(o)
      ensures fair == old(fair) && lost == old(lost) && owner == old(owner) && (ap != null <==> handler && room)
      ensures areas == if ap != null then old(areas) + {ap} else old(areas)
    {
      Known();
      assert allocated(areas) && allocated(owner.Keys);
      ghost var made;
      ap, made := AreaRoot(handler, room, mem, f);
      assert Sums(f, 0 - lost, fair);
      if ap != null {
        RecordedRoot(areas, owner, f, ap, 0 - lost, fair);
        Keep(areas + {ap}, owner, Tree(ap, Nil, f), fair, lost);
      } else {
        Keep(areas, owner, f, fair, lost);
      }
    }

    lemma RecordedRoot(areas: set<Node>, owner: map<Chunk, Node>, f: Forest, ap: Node, sum: int, right: bool)
      requires Recorded(areas, owner, f) && Sums(f, sum, right) && ap.chunks == [] && ap.Gap() == 0
      ensures Recorded(areas + {ap}, owner, Tree(ap, Nil, f)) && Sums(Tree(ap, Nil, f), sum, right)
    {
      assert Members(Tree(ap, Nil, f)) == Members(f) + {ap};
      GapsRoot(ap, f);
    }

    /** area_node. */
    method NewBelow(rp: Node, room: bool) returns (ap: Node?)
      requires Valid() && rp in areas
      modifies Objects()
      ensures Valid() && forall o :: o in Objects() ==> o in old(Objects()) || fresh(o)
      ensures fair == old(fair) && lost == old(lost) && owner == old(owner) && (ap != null <==> room)
      ensures areas == if ap != null then old(areas) + {ap} else old(areas)
    {
      Known();
      assert allocated(areas) && allocated(owner.Keys);
      ap := AreaNode(rp, room, mem, f);
      assert Sums(f, 0 - lost, fair);
      if ap != null {
        RecordedGrown(areas, owner, f, rp, ap, 0 - lost, fair);
        Keep(areas + {ap}, owner, Grown(f, rp, ap), fair, lost);
      } else {
        Keep(areas, owner, f, fair, lost);
      }
    }

    lemma RecordedGrown(areas: set<Node>, owner: map<Chunk, Node>, f: Forest, rp: Node, ap: Node, sum: int, right: bool)
      requires Recorded(areas, owner, f) && Sums(f, sum, right)
      requires ap.chunks == [] && Distinct(f) && rp in Members(f) && ap !in Members(f) && ap.Gap() == 0
      ensures Recorded(areas + {ap}, owner, Grown(f, rp, ap)) && Sums(Grown(f, rp, ap), sum, right)
    {
      GrownMembers(f, rp, ap);
      GapsGrown(f, rp, ap);
    }

    /** The objects that an operation on chunk cp may change. */
    lemma Holds(cp: Chunk, o: Node, np: Node)
      requires Valid() && cp in owner && owner[cp] == o && np in areas
      ensures o in areas && cp in o.chunks
      ensures forall c :: c in o.chunks || c in np.chunks ==> c in owner.Keys
      ensures Shaped(f, mem) && Recorded(areas, owner, f) && Sums(f, 0 - lost, fair)
    {
      RecordedChunks(areas, owner, f);
    }

    /** a_malloc. */
    method Get(ap: Node, size: nat, room: bool) returns (cp: Chunk?)
      requires Valid() && ap in areas
      modifies Objects()
      ensures Valid() && forall o :: o in Objects() ==> o in old(Objects()) || fresh(o)
      ensures fair == old(fair) && lost == old(lost) && areas == old(areas) && (cp != null <==> room)
      ensures owner == if cp != null then old(owner)[cp := ap] else old(owner)
    {
      Known();
      cp := Gotten(ap, size, room, mem, areas, owner, f, 0 - lost, fair);
      Keep(areas, if cp != null then owner[cp := ap] else owner, f, fair, lost);
    }

    /** Whether a call that names area ap for chunk cp leaves the accounts as right as they were. */
    ghost predicate Fairly(ap: Node, cp: Chunk)
      requires cp in owner
      reads this, cp
    {
      owner[cp] == ap || cp.size == 0
    }

    /** a_free. */
    method GiveBack(cp: Chunk, ap: Node)
      requires Valid() && cp in owner && ap in areas
      modifies Objects()
      ensures Valid() && forall o :: o in Objects() ==> o in old(Objects()) || fresh(o)
      ensures fair == (old(fair) && old(Fairly(ap, cp))) && lost == old(lost)
      ensures areas == old(areas) && owner == old(owner) - {cp} && mem.chunks == old(mem.chunks) - {cp}
    {
      var held, was, o := areas, owner, owner[cp];
      ghost var g, gone := f, lost;
      Holds(cp, o, ap);
      ghost var right := fair && Fairly(ap, cp);
      GivenBack(ap, cp, mem, o, held, was, g, 0 - gone, right);
      RehomedKeys(was, cp, o, null);
      Keep(held, Rehomed(was, cp, o, null), g, right, gone);
    }

    /** a_realloc; a chunk that cannot grow is lost. */
    method Resize(cp: Chunk, ap: Node, size: nat, room: bool) returns (r: Chunk?)
      requires Valid() && cp in owner && ap in areas
      modifies Objects()
      ensures Valid() && forall o :: o in Objects() ==> o in old(Objects()) || fresh(o)
      ensures fair == (old(fair) && (old(cp.size) == size || old(Fairly(ap, cp)))) && lost == old(lost)
      ensures areas == old(areas) && (r != null <==> room || old(cp.size) == size)
      ensures owner == if old(cp.size) == size then old(owner) else Rehomed(old(owner), cp, ap, r)
    {
      r := cp;
      if cp.size != size {
        r := Regrow(cp, ap, size, room);
      }
    }

    method Regrow(cp: Chunk, ap: Node, size: nat, room: bool) returns (r: Chunk?)
      requires Valid() && cp in owner && ap in areas && cp.size != size
      modifies Objects()
      ensures Valid() && forall o :: o in Objects() ==> o in old(Objects()) || fresh(o)
      ensures fair == (old(fair) && old(Fairly(ap, cp))) && lost == old(lost)
      ensures areas == old(areas) && owner == Rehomed(old(owner), cp, ap, r) && (r != null <==> room)
    {
      var held, was, o := areas, owner, owner[cp];
      ghost var g, gone := f, lost;
      Holds(cp, o, ap);
      ghost var right := fair && Fairly(ap, cp);
      r := Resized(ap, cp, size, room, mem, o, held, was, g, 0 - gone, right);
      RehomedKeys(was, cp, ap, r);
      Keep(held, Rehomed(was, cp, ap, r), g, right, gone);
    }

    /** area_relink to no area. */
    method Detach(cp: Chunk, op: Node)
      requires Valid() && cp in owner && op in areas
      modifies Objects()
      ensures Valid() && forall o :: o in Objects() ==> o in old(Objects()) || fresh(o)
      ensures fair == (old(fair) && old(Fairly(op, cp))) && lost == old(lost)
      ensures areas == old(areas) && owner == old(owner) - {cp}
    {
      var held, was, o := areas, owner, owner[cp];
      ghost var g, gone := f, lost;
      Holds(cp, o, op);
      ghost var right := fair && Fairly(op, cp);
      Cut(op, cp, mem, o, held, was, g, 0 - gone, right);
      RehomedKeys(was, cp, o, null);
      Keep(held, Rehomed(was, cp, o, null), g, right, gone);
    }

    /** area_relink. */
    method Move(cp: Chunk, op: Node, np: Node)
      requires Valid() && cp in owner && op in areas && np in areas
      modifies Objects()
      ensures Valid() && forall o :: o in Objects() ==> o in old(Objects()) || fresh(o)
      ensures fair == (old(fair) && old(Fairly(op, cp))) && lost == old(lost)
      ensures areas == old(areas) && owner == old(owner)[cp := np]
    {
      var held, was, o := areas, owner, owner[cp];
      ghost var g, gone := f, lost;
      Holds(cp, o, np);
      ghost var right := fair && Fairly(op, cp);
      Moved(op, np, cp, mem, o, held, was, g, 0 - gone, right);
      RehomedKeys(was, cp, np, cp);
      RehomedSame(was, cp, np);
      Keep(held, Rehomed(was, cp, np, cp), g, right, gone);
    }

    /** area_destroy: the gaps of what is destroyed are gone with it. */
    method Tear(rp: Node)
      requires Valid() && rp in areas
      modifies Objects()
      ensures Valid() && forall o :: o in Objects() ==> o in old(Objects()) || fresh(o)
      ensures fair == old(fair) && lost == old(lost + Gaps(Tree(rp, Below(f, rp), Nil)))
      ensures areas == old(areas) - old(AreasOf(rp, Below(f, rp))) && owner == Among(old(owner), areas)
    {
      var left, kept;
      ghost var g;
      ghost var more := Gaps(Tree(rp, Below(f, rp), Nil));
      left, kept, g := Torn(rp, mem, areas, owner, f, 0 - lost, fair);
      Keep(left, kept, g, fair, lost + more);
    }

    /** One operation, whichever: some area, some chunk, some size. */
    method Step(size: nat, handler: bool, room: bool)
      requires Valid()
      modifies Objects()
      ensures Valid() && forall o :: o in Objects() ==> o in old(Objects()) || fresh(o)
    {
      var which: nat := *;
      if which == 0 || areas == {} {
        var root := NewRoot(handler, room);
        return;
      }
      var ap :| ap in areas;
      if which == 1 {
        var below := NewBelow(ap, room);
      } else if which == 2 {
        Tear(ap);
      } else if which == 3 || owner.Keys == {} {
        var cp := Get(ap, size, room);
      } else {
        StepOn(which, ap, size, room);
      }
    }

    method StepOn(which: nat, ap: Node, size: nat, room: bool)
      requires Valid() && ap in areas && owner.Keys != {}
      modifies Objects()
      ensures Valid() && forall o :: o in Objects() ==> o in old(Objects()) || fresh(o)
    {
      var cp :| cp in owner.Keys;
      if which == 4 {
        GiveBack(cp, ap);
      } else if which == 5 {
        var r := Resize(cp, ap, size, room);
      } else if which == 6 {
        var np :| np in areas;
        Move(cp, ap, np);
      } else {
        Detach(cp, ap);
      }
    }
  }

  /**
   Any run, whatever areas the calls name: the trees and lists are in order, and nothing is freed
   that is not allocated.  The counters add up to the recorded sizes, but for the gaps that went
   with destroyed areas; every single counter is right if each chunk was charged to its area.
   */
  method Run(sizes: seq<nat>, handlers: seq<bool>) returns (p: Program)
    requires |handlers| == |sizes|
    ensures p.Valid() && Shaped(p.f, p.mem) && Total(p.f) + p.lost == Sizes(p.f)
    ensures p.fair ==> Family(p.f, p.mem) && p.lost == 0
  {
    p := new Program();
    for i := 0 to |sizes|
      invariant p.Valid() && forall o :: o in p.Objects() ==> fresh(o)
    {
      var room := *;
      p.Step(sizes[i], handlers[i], room);
    }
    TotalIsSizes(p.f);
  }
}
