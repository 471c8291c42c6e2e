/**
 The two-level hash table of lib/hash.c in the configuration of the connection
 tables: data compared (HASHTABLE_CHMATCH), colliding keys refused (no
 HASHTABLE_ALLOWCOLL), no lookup cache.

 The red-black tree is keyed by the first hash.  Every tree node carries a bucket,
 a singly linked list in ascending order of the second hash.  The second hash of
 an entry that is alone in its bucket may still be uncomputed, stored as 0.
 Nothing here depends on what the two hash functions compute.
 */
module HashTable {
  import opened RbShape
  import opened RbTree
  import opened Words
  import opened Sequences

  type Hash = Bytes -> uint32

  const HASH_OK := 1
  const HASH_DUP := 0
  const HASH_ECOLL := -1
  const HASH_ENOTFOUND := -2
  const HASH_UNSPEC := -63
  const HASH_EMEM := -127
  const HASH_EINVAL := -126

  /** struct hash_list_node. */
  class Entry<V> {
    const data: Bytes
    const arg: V
    var hash: uint32
    var next: Entry?<V>

    constructor (data: Bytes, arg: V)
      ensures this.data == data && this.arg == arg && hash == 0 && next == null
    {
      this.data, this.arg := data, arg;
      hash, next := 0, null;
    }
  }

  /** Following next from first leads through s, in order, to last. */
  ghost predicate Segment<V>(first: Entry?<V>, s: seq<Entry<V>>, last: Entry?<V>)
    reads s
    decreases |s|
  {
    if s == [] then first == last else first == s[0] && Segment(s[0].next, s[1..], last)
  }

  /** The links of a bucket: an SLIST from first through items. */
  ghost predicate Chain<V>(first: Entry?<V>, items: seq<Entry<V>>)
    reads items
  {
    Segment(first, items, null) && NoneTwice(items)
  }

  lemma {:induction false} NextInChain<V>(first: Entry?<V>, s: seq<Entry<V>>, k: nat)
    requires Segment(first, s, null) && k < |s|
    ensures s[k].next == if k + 1 < |s| then s[k + 1] else null
    decreases |s|
  {
    if k > 0 {
      NextInChain(s[0].next, s[1..], k - 1);
    } else if |s| > 1 {
      assert s[1..][0] == s[1];
    }
  }

  lemma {:induction false} SegmentAround<V>(first: Entry?<V>, a: seq<Entry<V>>, x: Entry<V>, b: seq<Entry<V>>)
    ensures Segment(first, a + [x] + b, null) <==> Segment(first, a, x) && Segment(x.next, b, null)
    decreases |a|
  {
    var s := a + [x] + b;
    if a == [] {
      assert s[1..] == b;
    } else {
      assert s[1..] == a[1..] + [x] + b;
      SegmentAround(a[0].next, a[1..], x, b);
    }
  }

  ghost predicate Hashed<V>(items: seq<Entry<V>>, h2: Hash)
    reads items
  {
    forall e :: e in items ==> e.hash == h2(e.data)
  }

  /** Strictly ascending second hashes: no two entries of a bucket collide. */
  ghost predicate Ascending<V>(items: seq<Entry<V>>, h2: Hash) {
    forall i, j :: 0 <= i < j < |items| ==> h2(items[i].data) < h2(items[j].data)
  }

  ghost predicate AllIn<V>(items: seq<Entry<V>>, key: int, h1: Hash) {
    forall e :: e in items ==> h1(e.data) == key && e.data != []
  }

  lemma AscendingWith<V>(items: seq<Entry<V>>, x: Entry<V>, k: nat, h2: Hash)
    requires k <= |items| && Ascending(items, h2)
    requires forall j :: 0 <= j < k ==> h2(items[j].data) < h2(x.data)
    requires forall j :: k <= j < |items| ==> h2(x.data) < h2(items[j].data)
    ensures Ascending(items[..k] + [x] + items[k..], h2)
    ensures forall y :: y in items ==> h2(y.data) != h2(x.data)
  {
    var s := items[..k] + [x] + items[k..];
    assert forall i :: 0 <= i < |s| ==> s[i] == if i < k then items[i] else if i == k then x else items[i - 1];
  }

  lemma AscendingWithout<V>(items: seq<Entry<V>>, k: nat, h2: Hash)
    requires k < |items| && Ascending(items, h2)
    ensures Ascending(items[..k] + items[k + 1..], h2)
    ensures forall e :: e in items[..k] + items[k + 1..] ==> e in items
  {
    var s := items[..k] + items[k + 1..];
    assert forall i :: 0 <= i < |s| ==> s[i] == items[if i < k then i else i + 1];
  }

  lemma Opened<V>(items: seq<V>, k: nat, x: V)
    requires 0 < k <= |items| && items[k - 1] == x
    ensures items == items[..k] + items[k..] && items[..k] == items[..k - 1] + [x]
  {
  }

  /** An entry joins a bucket, or stays out because coll has its second hash. */
  ghost predicate Added<V>(was: seq<Entry<V>>, now: seq<Entry<V>>, lnode: Entry<V>, coll: Entry?<V>, k: nat, h2: Hash) {
    true == if coll != null then
      now == was && coll in was && h2(coll.data) == h2(lnode.data)
    else
      k <= |was| && now == was[..k] + [lnode] + was[k..] && forall x :: x in was ==> h2(x.data) != h2(lnode.data)
  }

  ghost predicate Dropped<V>(was: seq<Entry<V>>, now: seq<Entry<V>>, lnode: Entry<V>, k: nat) {
    true == (k < |was| && was[k] == lnode && now == was[..k] + was[k + 1..])
  }

  lemma DroppedMembers<V>(was: seq<Entry<V>>, now: seq<Entry<V>>, lnode: Entry<V>, k: nat)
    requires Dropped(was, now, lnode, k)
    ensures forall e :: e in now ==> e in was
  {
  }

  lemma DroppedWhole<V>(x: seq<Entry<V>>, items: seq<Entry<V>>, y: seq<Entry<V>>, es: seq<Entry<V>>, now: seq<Entry<V>>,
                        lnode: Entry<V>, k: nat, p: nat)
    requires es == x + items + y && Dropped(items, now, lnode, k) && p == |x| + k
    ensures Dropped(es, x + now + y, lnode, p)
  {
    Unwoven(x, items, y, k);
  }

  lemma AddedMembers<V>(was: seq<Entry<V>>, now: seq<Entry<V>>, lnode: Entry<V>, coll: Entry?<V>, k: nat, h2: Hash)
    requires Added(was, now, lnode, coll, k, h2)
    ensures forall e :: e in now ==> e in was || e == lnode
    ensures forall e :: e in was ==> e in now
    ensures |now| == if coll != null then |was| else |was| + 1
  {
  }

  lemma Placed<V>(was: seq<Entry<V>>, now: seq<Entry<V>>, x: Entry<V>, k: nat, h2: Hash)
    requires k <= |was| && Ascending(was, h2) && now == was[..k] + [x] + was[k..]
    requires forall j :: 0 <= j < k ==> h2(was[j].data) < h2(x.data)
    requires forall j :: k <= j < |was| ==> h2(x.data) < h2(was[j].data)
    ensures Ascending(now, h2) && Added(was, now, x, null, k, h2)
    ensures forall e :: e in now ==> e in was || e == x
  {
    AscendingWith(was, x, k, h2);
    AddedMembers(was, now, x, null, k, h2);
  }

  /** Between smaller and greater second hashes. */
  lemma Belongs<V>(items: seq<Entry<V>>, x: Entry<V>, k: nat, h2: Hash)
    requires Hashed(items, h2) && Ascending(items, h2) && x.hash == h2(x.data) && k <= |items|
    requires forall j :: 0 <= j < k ==> items[j].hash < x.hash
    requires k < |items| ==> x.hash < items[k].hash
    ensures forall j :: 0 <= j < k ==> h2(items[j].data) < h2(x.data)
    ensures forall j :: k <= j < |items| ==> h2(x.data) < h2(items[j].data)
  {
  }

  /** The list part of struct hash_tree_node. */
  class Bucket<V> {
    var elms: nat
    var first: Entry?<V>
    ghost var items: seq<Entry<V>>

    constructor ()
      ensures elms == 0 && first == null && items == []
    {
      elms, first, items := 0, null, [];
    }

    ghost predicate Listed(key: int, h1: Hash, h2: Hash)
      reads this, items
    {
      true == (
        && Chain(first, items) && AllIn(items, key, h1) && Ascending(items, h2)
        && (Hashed(items, h2) || (|items| == 1 && items[0].hash == 0)))
    }

    /** As _setup_node leaves it, before its first entry. */
    ghost predicate New()
      reads this
    {
      elms == 0 && first == null && items == []
    }

    ghost predicate Full(key: int, h1: Hash, h2: Hash)
      reads this, items
    {
      Listed(key, h1, h2) && items != [] && elms == |items|
    }

    /** The loop of _insert_entry: links lnode at its place unless its second hash is taken. */
    method InsertEntry(lnode: Entry<V>, ghost h2: Hash) returns (coll: Entry?<V>, ghost k: nat)
      requires Chain(first, items) && Hashed(items, h2) && Ascending(items, h2) && items != []
      requires lnode !in items && lnode.hash == h2(lnode.data)
      modifies this, items, lnode
      ensures elms == old(elms) && Hashed(items, h2)
      ensures Added(old(items), items, lnode, coll, k, h2)
      ensures Chain(first, items) && Ascending(items, h2)
      ensures coll != null ==> first == old(first)
    {
      var lent, oldent: Entry?<V> := first, null;
      k := 0;
      while lent != null
        invariant k <= |items| && Segment(lent, items[k..], null)
        invariant oldent == if k > 0 then items[k - 1] else null
        invariant forall j :: 0 <= j < k ==> items[j].hash < lnode.hash
        decreases |items| - k
      {
        if lnode.hash == lent.hash {
          return lent, k;
        }
        if lnode.hash < lent.hash {
          break;
        }
        oldent := lent;
        lent := lent.next;
        k := k + 1;
      }
      coll := null;
      InsertAt(oldent, lnode, k, h2);
    }

    /** The end of _insert_entry, when place k is found to be the one. */
    method InsertAt(oldent: Entry?<V>, lnode: Entry<V>, ghost k: nat, ghost h2: Hash)
      requires Chain(first, items) && Hashed(items, h2) && Ascending(items, h2)
      requires lnode !in items && lnode.hash == h2(lnode.data)
      requires k <= |items| && oldent == if k > 0 then items[k - 1] else null
      requires forall j :: 0 <= j < k ==> items[j].hash < lnode.hash
      requires k < |items| ==> lnode.hash < items[k].hash
      modifies this, items, lnode
      ensures elms == old(elms) && Hashed(items, h2)
      ensures Added(old(items), items, lnode, null, k, h2)
      ensures Chain(first, items) && Ascending(items, h2)
    {
      ghost var was := items;
      Belongs(was, lnode, k, h2);
      Link(oldent, lnode, k);
      Placed(was, items, lnode, k, h2);
    }

    /** SLIST_INSERT_AFTER, or SLIST_INSERT_HEAD for the first place. */
    method Link(oldent: Entry?<V>, lnode: Entry<V>, ghost k: nat)
      requires Chain(first, items) && lnode !in items && k <= |items|
      requires oldent == if k > 0 then items[k - 1] else null
      modifies this, items, lnode
      ensures elms == old(elms) && lnode.hash == old(lnode.hash)
      ensures forall x :: x in old(items) ==> x.hash == old(x.hash)
      ensures items == old(items)[..k] + [lnode] + old(items)[k..] && Chain(first, items)
    {
      if oldent != null {
        LinkBehind(oldent, lnode, k);
      } else {
        LinkFirst(lnode);
        assert items == old(items)[..k] + [lnode] + old(items)[k..];
      }
    }

    method LinkBehind(oldent: Entry<V>, lnode: Entry<V>, ghost k: nat)
      requires Chain(first, items) && lnode !in items && 0 < k <= |items| && oldent == items[k - 1]
      modifies this, items, lnode
      ensures elms == old(elms) && lnode.hash == old(lnode.hash)
      ensures forall x :: x in old(items) ==> x.hash == old(x.hash)
      ensures items == old(items)[..k] + [lnode] + old(items)[k..] && Chain(first, items)
    {
      ghost var was, a, b := items, items[..k], items[k..];
      Opened(was, k, oldent);
      NoneTwiceAround(a, lnode, b);
      LinkAfter(oldent, lnode, items[..k - 1], b);
      assert forall x :: x in was ==> x.hash == old(x.hash);
      items := a + [lnode] + b;
    }

    method LinkFirst(lnode: Entry<V>)
      requires Chain(first, items) && lnode !in items
      modifies this, lnode
      ensures elms == old(elms) && lnode.hash == old(lnode.hash)
      ensures items == [lnode] + old(items) && Chain(first, items)
    {
      NoneTwiceFirst(lnode, items);
      lnode.next := first;
      first := lnode;
      items := [lnode] + items;
      assert items[1..] == old(items);
    }

    method LinkAfter(oldent: Entry<V>, lnode: Entry<V>, ghost a: seq<Entry<V>>, ghost b: seq<Entry<V>>)
      requires Segment(first, a + [oldent] + b, null) && NoneTwice(a + [oldent] + b) && lnode !in a + [oldent] + b
      modifies oldent, lnode
      ensures lnode.hash == old(lnode.hash) && oldent.hash == old(oldent.hash)
      ensures Segment(first, a + [oldent] + [lnode] + b, null)
    {
      NoneTwiceAround(a, oldent, b);
      SegmentAround(first, a, oldent, b);
      lnode.next := oldent.next;
      oldent.next := lnode;
      assert ([lnode] + b)[1..] == b;
      SegmentAround(first, a, oldent, [lnode] + b);
      assert a + [oldent] + [lnode] + b == a + [oldent] + ([lnode] + b);
    }

    /** SLIST_REMOVE. */
    method Unlink(elm: Entry<V>) returns (ghost k: nat)
      requires Chain(first, items) && elm in items
      modifies this, items
      ensures elms == old(elms)
      ensures forall x :: x in old(items) ==> x.hash == old(x.hash)
      ensures k < |old(items)| && old(items)[k] == elm && items == old(items)[..k] + old(items)[k + 1..]
      ensures Chain(first, items)
    {
      k :| 0 <= k < |items| && items[k] == elm;
      assert items == items[..k] + [elm] + items[k + 1..];
      UnlinkAt(elm, items[..k], items[k + 1..]);
    }

    method UnlinkAt(elm: Entry<V>, ghost a: seq<Entry<V>>, ghost b: seq<Entry<V>>)
      requires Chain(first, items) && items == a + [elm] + b
      modifies this, items
      ensures elms == old(elms)
      ensures forall x :: x in old(items) ==> x.hash == old(x.hash)
      ensures items == a + b && Chain(first, items)
    {
      NoneTwiceAround(a, elm, b);
      SegmentAround(first, a, elm, b);
      if first == elm {
        assert a == [] && a + b == b;
        first := first.next;
        items := b;
      } else {
        var curelm := Before(elm, |a|);
        assert a == a[..|a| - 1] + [curelm];
        UnlinkAfter(curelm, elm, a[..|a| - 1], b);
        items := a + b;
      }
    }

    /** The search loop of SLIST_REMOVE. */
    method Before(elm: Entry<V>, ghost k: nat) returns (curelm: Entry<V>)
      requires Chain(first, items) && k < |items| && items[k] == elm && first != elm
      ensures k > 0 && curelm == items[k - 1]
    {
      curelm := first;
      ghost var i := 0;
      while curelm.next != elm
        invariant 0 <= i < k && curelm == items[i] && Segment(curelm, items[i..], null)
        decreases k - i
      {
        assert items[i..][1..] == items[i + 1..];
        curelm := curelm.next;
        i := i + 1;
      }
      assert items[i..][1..] == items[i + 1..];
      assert items[i + 1] == elm;
    }

    method UnlinkAfter(curelm: Entry<V>, elm: Entry<V>, ghost a: seq<Entry<V>>, ghost b: seq<Entry<V>>)
      requires Segment(first, a + [curelm] + [elm] + b, null) && NoneTwice(a + [curelm] + [elm] + b)
      modifies curelm
      ensures curelm.hash == old(curelm.hash)
      ensures Segment(first, a + [curelm] + b, null)
    {
      assert a + [curelm] + [elm] + b == a + [curelm] + ([elm] + b);
      NoneTwiceAround(a, curelm, [elm] + b);
      assert ([elm] + b)[1..] == b;
      SegmentAround(first, a, curelm, [elm] + b);
      curelm.next := curelm.next.next;
      SegmentAround(first, a, curelm, b);
    }

    /** The list half of hashtable_add. */
    method Add(lnode: Entry<V>, ghost key: int, ghost h1: Hash, h2: Hash) returns (coll: Entry?<V>, ghost k: nat)
      requires Full(key, h1, h2) || New()
      requires lnode !in items && lnode.data != [] && h1(lnode.data) == key
      modifies this, items, lnode
      ensures Full(key, h1, h2)
      ensures Added(old(items), items, lnode, coll, k, h2)
    {
      if first != null {
        coll, k := AddSorted(lnode, key, h1, h2);
      } else {
        lnode.hash := 0;
        lnode.next := first;
        first := lnode;
        coll, k, items := null, 0, [lnode];
        assert Chain(first, items);
      }
      if coll == null {
        elms := elms + 1;
      }
    }

    /** The first entry gets the second hash it may lack; an entry that hashes to 0 gets it again. */
    method Rehash(h2: Hash)
      requires Chain(first, items) && first != null && (Hashed(items, h2) || |items| == 1)
      modifies items
      ensures Chain(first, items)
      ensures old(Hashed(items, h2)) || old(first.hash) == 0 ==> Hashed(items, h2)
    {
      if first.hash == 0 {
        assert items == [first] || h2(first.data) == 0;
        first.hash := h2(first.data);
      }
    }

    /** The second hashes are computed only once a second entry arrives. */
    method AddSorted(lnode: Entry<V>, ghost key: int, ghost h1: Hash, h2: Hash) returns (coll: Entry?<V>, ghost k: nat)
      requires Full(key, h1, h2) && first != null
      requires lnode !in items && lnode.data != [] && h1(lnode.data) == key
      modifies this, items, lnode
      ensures Listed(key, h1, h2) && elms == old(elms) && items != []
      ensures Added(old(items), items, lnode, coll, k, h2)
    {
      Rehash(h2);
      lnode.hash := h2(lnode.data);
      ghost var was := items;
      coll, k := InsertEntry(lnode, h2);
      AddedMembers(was, items, lnode, coll, k, h2);
    }

    /** The list half of _search_in_table: a lone entry is taken as it is, whatever its data. */
    method Search(data: Bytes, old0: Entry?<V>, ghost key: int, ghost h1: Hash, h2: Hash)
      returns (ret: int, lnode: Entry?<V>)
      requires Full(key, h1, h2)
      ensures ret == HASH_OK || ret == HASH_ENOTFOUND
      ensures ret == HASH_OK <==> exists e :: e in items && e.data == data
      ensures ret == HASH_OK ==> lnode != null && lnode in items && lnode.data == data
      ensures ret == HASH_ENOTFOUND ==> lnode == if |items| == 1 then items[0] else old0
    {
      lnode := old0;
      if elms == 1 {
        lnode := first;
        assert items == [lnode];
        return if lnode.data == data then HASH_OK else HASH_ENOTFOUND, lnode;
      }
      var hash2 := h2(data);
      var lent := first;
      ghost var k := 0;
      while lent != null
        invariant k <= |items| && Segment(lent, items[k..], null)
        invariant forall j :: 0 <= j < k ==> items[j].data != data
        decreases |items| - k
      {
        if lent.hash == hash2 && lent.data == data {
          return HASH_OK, lent;
        }
        lent := lent.next;
        k := k + 1;
      }
      ret := HASH_ENOTFOUND;
    }

    /** The list half of hashtable_del. */
    method Drop(lnode: Entry<V>, ghost key: int, ghost h1: Hash, ghost h2: Hash) returns (ghost k: nat)
      requires Full(key, h1, h2) && lnode in items
      modifies this, items
      ensures items == [] || Full(key, h1, h2)
      ensures elms == |items| && (items == [] ==> first == null)
      ensures Dropped(old(items), items, lnode, k)
    {
      ghost var was := items;
      k := Unlink(lnode);
      AscendingWithout(was, k, h2);
      elms := elms - 1;
    }
  }

  // ----- all buckets, in tree order -----

  ghost function Buckets<V>(ns: seq<Node<Bucket<V>>>): set<Bucket<V>> {
    set n | n in ns :: n.item
  }

  /** Every stored entry, bucket after bucket. */
  ghost function All<V>(ns: seq<Node<Bucket<V>>>): seq<Entry<V>>
    reads Buckets(ns)
    decreases |ns|
  {
    if ns == [] then [] else ns[0].item.items + All(ns[1..])
  }

  /** The same entries as a set, for framing. */
  ghost function Owned<V>(ns: seq<Node<Bucket<V>>>): set<Entry<V>>
    reads Buckets(ns)
    decreases |ns|
  {
    if ns == [] then {} else (set e | e in ns[0].item.items) + Owned(ns[1..])
  }

  ghost predicate Filled<V>(ns: seq<Node<Bucket<V>>>, h1: Hash, h2: Hash)
    reads Buckets(ns), Owned(ns)
    decreases |ns|
  {
    true == (ns != [] ==>
      assert ns[0].item in Buckets(ns) && Buckets(ns[1..]) <= Buckets(ns);
      ns[0].item.Full(ns[0].key, h1, h2) && Filled(ns[1..], h1, h2))
  }

  lemma {:induction false} FilledAround<V>(a: seq<Node<Bucket<V>>>, n: Node<Bucket<V>>, z: seq<Node<Bucket<V>>>,
                                           h1: Hash, h2: Hash)
    ensures All(a + [n] + z) == All(a) + n.item.items + All(z)
    ensures Filled(a + [n] + z, h1, h2) <==> Filled(a, h1, h2) && n.item.Full(n.key, h1, h2) && Filled(z, h1, h2)
    decreases |a|
  {
    var s := a + [n] + z;
    if a == [] {
      assert s[1..] == z;
    } else {
      assert s[1..] == a[1..] + [n] + z;
      FilledAround(a[1..], n, z, h1, h2);
    }
  }

  lemma {:induction false} FilledAppend<V>(a: seq<Node<Bucket<V>>>, z: seq<Node<Bucket<V>>>, h1: Hash, h2: Hash)
    ensures All(a + z) == All(a) + All(z)
    ensures Filled(a + z, h1, h2) <==> Filled(a, h1, h2) && Filled(z, h1, h2)
    decreases |a|
  {
    if a == [] {
      assert a + z == z;
    } else {
      assert (a + z)[1..] == a[1..] + z;
      FilledAppend(a[1..], z, h1, h2);
    }
  }

  /** The bucket of a key is found by its first hash alone. */
  lemma {:induction false} KeysOf<V>(ns: seq<Node<Bucket<V>>>, h1: Hash, h2: Hash)
    requires Filled(ns, h1, h2)
    ensures forall e :: e in All(ns) ==> e.data != [] && exists n :: n in ns && n.key == h1(e.data) && e in n.item.items
    ensures forall n :: n in ns ==> n.item.Full(n.key, h1, h2) && (forall e :: e in n.item.items ==> e in All(ns))
    ensures forall e :: e in All(ns) <==> e in Owned(ns)
    decreases |ns|
  {
    if ns != [] {
      KeysOf(ns[1..], h1, h2);
      forall e | e in All(ns)
        ensures e.data != [] && exists n :: n in ns && n.key == h1(e.data) && e in n.item.items
      {
        if e in ns[0].item.items {
          assert ns[0] in ns;
        } else {
          assert e in All(ns[1..]);
          var n :| n in ns[1..] && n.key == h1(e.data) && e in n.item.items;
          assert n in ns;
        }
      }
    }
  }

  /** A bucket and the others, which share neither objects nor first hash with it. */
  ghost predicate Beside<V>(n: Node<Bucket<V>>, rest: seq<Node<Bucket<V>>>, h1: Hash, h2: Hash)
    reads n.item, Buckets(rest), Owned(rest)
  {
    true == (
      && Filled(rest, h1, h2) && n.item !in Buckets(rest)
      && (forall e :: e in Owned(rest) ==> e !in n.item.items && h1(e.data) != n.key))
  }

  /** The buckets rest own these entries, none of this key. */
  ghost predicate Holding<V>(rest: seq<Node<Bucket<V>>>, owned: set<Entry<V>>, key: int, h1: Hash, h2: Hash)
    reads Buckets(rest), Owned(rest)
  {
    true == (Filled(rest, h1, h2) && Owned(rest) == owned && forall e :: e in owned ==> h1(e.data) != key)
  }

  lemma BesideHolding<V>(n: Node<Bucket<V>>, rest: seq<Node<Bucket<V>>>, owned: set<Entry<V>>, h1: Hash, h2: Hash)
    requires owned == Owned(rest)
    ensures Beside(n, rest, h1, h2) <==>
            && Holding(rest, owned, n.key, h1, h2) && n.item !in Buckets(rest)
            && forall e :: e in owned ==> e !in n.item.items
  {
  }

  /** An entry that no other bucket owns has come to this one. */
  lemma BesideAdded<V>(n: Node<Bucket<V>>, rest: seq<Node<Bucket<V>>>, owned: set<Entry<V>>, was: seq<Entry<V>>,
                       lnode: Entry<V>, coll: Entry?<V>, k: nat, h1: Hash, h2: Hash)
    requires owned == Owned(rest) && Holding(rest, owned, n.key, h1, h2) && n.item !in Buckets(rest)
    requires lnode !in owned && (forall e :: e in owned ==> e !in was)
    requires Added(was, n.item.items, lnode, coll, k, h2)
    ensures Beside(n, rest, h1, h2)
  {
    AddedMembers(was, n.item.items, lnode, coll, k, h2);
    BesideHolding(n, rest, owned, h1, h2);
  }

  lemma Gap<V>(ns: seq<Node<Bucket<V>>>, n: Node<Bucket<V>>, h1: Hash, h2: Hash)
    returns (a: seq<Node<Bucket<V>>>, z: seq<Node<Bucket<V>>>)
    requires Filled(ns, h1, h2) && n.item !in Buckets(ns) && n.item.items == []
    requires forall m :: m in ns ==> m.key != n.key
    ensures ns == a + z && Inserted(ns, n) == a + [n] + z
    ensures All(ns) == All(a) + n.item.items + All(z) && Beside(n, ns, h1, h2)
  {
    var k := InsertedAt(ns, n);
    a, z := ns[..k], ns[k..];
    FilledAppend(a, z, h1, h2);
    OtherKeys(ns, n.key, h1, h2);
    assert All(a) + [] == All(a);
  }

  lemma Around<V>(ns: seq<Node<Bucket<V>>>, n: Node<Bucket<V>>, h1: Hash, h2: Hash)
    returns (a: seq<Node<Bucket<V>>>, z: seq<Node<Bucket<V>>>)
    requires Filled(ns, h1, h2) && n in ns && Sorted(ns)
    ensures ns == a + [n] + z && n.item.Full(n.key, h1, h2)
    ensures All(ns) == All(a) + n.item.items + All(z) && Beside(n, a + z, h1, h2)
  {
    a, z := Parted(ns, n);
    FilledAround(a, n, z, h1, h2);
    FilledAppend(a, z, h1, h2);
    SortedAround(a, n, z);
    Apart(a + z, n, h1, h2);
  }

  lemma BucketsAround<V>(a: seq<Node<Bucket<V>>>, n: Node<Bucket<V>>, z: seq<Node<Bucket<V>>>)
    ensures Buckets(a) <= Buckets(a + z) && Buckets(z) <= Buckets(a + z)
  {
    assert forall m :: m in a || m in z ==> m in a + z;
  }

  lemma Woven<N>(x: seq<N>, s: seq<N>, y: seq<N>, k: nat, e: N)
    requires k <= |s|
    ensures x + (s[..k] + [e] + s[k..]) + y == (x + s + y)[..|x| + k] + [e] + (x + s + y)[|x| + k..]
  {
  }

  lemma Unwoven<N>(x: seq<N>, s: seq<N>, y: seq<N>, k: nat)
    requires k < |s|
    ensures x + (s[..k] + s[k + 1..]) + y == (x + s + y)[..|x| + k] + (x + s + y)[|x| + k + 1..]
    ensures (x + s + y)[|x| + k] == s[k]
  {
  }

  /** Buckets of different keys share no object. */
  lemma Apart<V>(a: seq<Node<Bucket<V>>>, n: Node<Bucket<V>>, h1: Hash, h2: Hash)
    requires Filled(a, h1, h2) && n.item.Full(n.key, h1, h2)
    requires forall m :: m in a ==> m.key != n.key
    ensures Beside(n, a, h1, h2)
  {
    OtherKeys(a, n.key, h1, h2);
    KeysOf(a, h1, h2);
    assert n.item.items[0] in n.item.items;
  }

  lemma OtherKeys<V>(ns: seq<Node<Bucket<V>>>, key: int, h1: Hash, h2: Hash)
    requires Filled(ns, h1, h2) && forall m :: m in ns ==> m.key != key
    ensures forall e :: e in Owned(ns) ==> h1(e.data) != key
  {
    KeysOf(ns, h1, h2);
  }

  // ----- what the table means -----

  ghost predicate Earlier<V>(d: Entry<V>, e: Entry<V>, h1: Hash, h2: Hash) {
    h1(d.data) < h1(e.data) || (h1(d.data) == h1(e.data) && h2(d.data) < h2(e.data))
  }

  /** Strictly ascending in (first hash, second hash). */
  ghost predicate InOrder<V>(s: seq<Entry<V>>, h1: Hash, h2: Hash) {
    forall i, j :: 0 <= i < j < |s| ==> Earlier(s[i], s[j], h1, h2)
  }

  lemma NoneMeet<V>(s: seq<Entry<V>>, i: nat, j: nat, h1: Hash, h2: Hash)
    requires InOrder(s, h1, h2) && i < |s| && j < |s|
    ensures i < j ==> h1(s[i].data) != h1(s[j].data) || h2(s[i].data) != h2(s[j].data)
  {
    if i < j {
      assert Earlier(s[i], s[j], h1, h2);
    }
  }

  /** Where an entry of a bucket stands in the whole table. */
  lemma Within<V>(x: seq<Entry<V>>, items: seq<Entry<V>>, y: seq<Entry<V>>, e: Entry<V>, i: nat, h1: Hash, h2: Hash)
    returns (k: nat)
    requires InOrder(x + items + y, h1, h2) && e in items && i < |x + items + y| && (x + items + y)[i] == e
    ensures k < |items| && items[k] == e && i == |x| + k
  {
    k :| 0 <= k < |items| && items[k] == e;
    assert (x + items + y)[|x| + k] == e;
    NoneMeet(x + items + y, i, |x| + k, h1, h2);
    NoneMeet(x + items + y, |x| + k, i, h1, h2);
  }

  /** Tree order and list order together order the whole table. */
  lemma {:induction false} AllInOrder<V>(ns: seq<Node<Bucket<V>>>, h1: Hash, h2: Hash)
    requires Filled(ns, h1, h2) && Sorted(ns)
    ensures InOrder(All(ns), h1, h2)
    decreases |ns|
  {
    if ns != [] {
      AllInOrder(ns[1..], h1, h2);
      KeysOf(ns[1..], h1, h2);
      var a, b := ns[0].item.items, All(ns[1..]);
      assert InOrder(a, h1, h2) by {
        forall i, j | 0 <= i < j < |a| ensures Earlier(a[i], a[j], h1, h2) {
          assert a[i] in a && a[j] in a;
        }
      }
      InOrderAppend(a, b, h1, h2);
    }
  }

  lemma InOrderAppend<V>(a: seq<Entry<V>>, b: seq<Entry<V>>, h1: Hash, h2: Hash)
    requires InOrder(a, h1, h2) && InOrder(b, h1, h2)
    requires forall x, y :: x in a && y in b ==> Earlier(x, y, h1, h2)
    ensures InOrder(a + b, h1, h2)
  {
  }

  ghost function Pairs<V>(s: seq<Entry<V>>): map<Bytes, V> {
    if s == [] then map[] else Pairs(s[1..])[s[0].data := s[0].arg]
  }

  lemma {:induction false} PairsMeaning<V>(s: seq<Entry<V>>, h1: Hash, h2: Hash)
    requires InOrder(s, h1, h2)
    ensures forall e :: e in s ==> e.data in Pairs(s) && Pairs(s)[e.data] == e.arg
    ensures forall d :: d in Pairs(s) ==> exists e :: e in s && e.data == d
  {
    if s != [] {
      PairsMeaning(s[1..], h1, h2);
      forall e | e in s ensures e.data in Pairs(s) && Pairs(s)[e.data] == e.arg {
        if e != s[0] {
          var j :| 0 < j < |s| && s[j] == e;
          assert Earlier(s[0], s[j], h1, h2);
        }
      }
      forall d | d in Pairs(s) ensures exists e :: e in s && e.data == d {
        if d != s[0].data {
          assert d in Pairs(s[1..]);
          var e :| e in s[1..] && e.data == d;
          assert e in s;
        } else {
          assert s[0] in s;
        }
      }
    }
  }

  lemma {:induction false} PairsAround<V>(a: seq<Entry<V>>, e: Entry<V>, b: seq<Entry<V>>)
    requires forall x :: x in a ==> x.data != e.data
    ensures Pairs(a + [e] + b) == Pairs(a + b)[e.data := e.arg]
    decreases |a|
  {
    var s := a + [e] + b;
    if a == [] {
      assert s[1..] == b && a + b == b;
    } else {
      PairsAround(a[1..], e, b);
      assert s[1..] == a[1..] + [e] + b && (a + b)[1..] == a[1..] + b;
    }
  }

  lemma PairsWithout<V>(a: seq<Entry<V>>, e: Entry<V>, b: seq<Entry<V>>)
    requires forall x :: x in a || x in b ==> x.data != e.data
    ensures Pairs(a + b) == Pairs(a + [e] + b) - {e.data}
  {
    PairsAround(a, e, b);
    PairsKeys(a + b);
  }

  lemma {:induction false} PairsKeys<V>(s: seq<Entry<V>>)
    ensures forall d :: d in Pairs(s) ==> exists e :: e in s && e.data == d
  {
    if s != [] {
      PairsKeys(s[1..]);
      assert s[0] in s && forall e :: e in s[1..] ==> e in s;
    }
  }

  function Verdict<V>(e: Entry<V>, coll: Entry?<V>): int {
    if coll == null then HASH_OK else if e.data == coll.data then HASH_DUP else HASH_ECOLL
  }

  /** What an addition makes of the entries es: the verdict, and the entry the handle will point at. */
  ghost predicate Outcome<V>(es: seq<Entry<V>>, now: seq<Entry<V>>, data: Bytes, arg: V, ret: int,
                             lnode: Entry<V>, collnode: Entry?<V>, p: nat, h1: Hash, h2: Hash)
  {
    true == if ret == HASH_OK then
      && p <= |es| && now == es[..p] + [lnode] + es[p..] && lnode.data == data && lnode.arg == arg && collnode == null
      && forall e :: e in es ==> h1(e.data) != h1(data) || h2(e.data) != h2(data)
    else
      && now == es && lnode in es && h1(lnode.data) == h1(data) && h2(lnode.data) == h2(data)
      && if lnode.data == data then ret == HASH_DUP && collnode == null
         else ret == HASH_ECOLL && collnode != null && collnode.data == data && collnode.arg == arg
  }

  lemma OutcomeMembers<V>(es: seq<Entry<V>>, now: seq<Entry<V>>, data: Bytes, arg: V, ret: int,
                          lnode: Entry<V>, collnode: Entry?<V>, p: nat, h1: Hash, h2: Hash)
    requires Outcome(es, now, data, arg, ret, lnode, collnode, p, h1, h2)
    ensures forall e :: e in now ==> e in es || (ret == HASH_OK && e == lnode)
  {
  }

  lemma AddedOutcome<V>(x: seq<Entry<V>>, items: seq<Entry<V>>, y: seq<Entry<V>>, es: seq<Entry<V>>, now: seq<Entry<V>>,
                        key: int, e: Entry<V>, coll: Entry?<V>, k: nat,
                        ret: int, lnode: Entry<V>, collnode: Entry?<V>, p: nat, h1: Hash, h2: Hash)
    requires es == x + items + y && Added(items, now, e, coll, k, h2)
    requires p == |x| + k && ret == Verdict(e, coll) && lnode == (if coll != null then coll else e)
    requires collnode == if ret == HASH_ECOLL then e else null
    requires AllIn(now, key, h1) && forall o :: o in x + y ==> h1(o.data) != key
    requires h1(e.data) == key
    ensures Outcome(es, x + now + y, e.data, e.arg, ret, lnode, collnode, p, h1, h2) && lnode in now
  {
    AddedMembers(items, now, e, coll, k, h2);
    if coll == null {
      Woven(x, items, y, k, e);
    }
  }

  /** The verdict says exactly whether the key is new, stored, or shut out by another, and what the map becomes. */
  lemma OutcomeMeaning<V>(es: seq<Entry<V>>, now: seq<Entry<V>>, data: Bytes, arg: V, ret: int,
                          lnode: Entry<V>, collnode: Entry?<V>, p: nat, h1: Hash, h2: Hash)
    requires Outcome(es, now, data, arg, ret, lnode, collnode, p, h1, h2) && InOrder(es, h1, h2)
    ensures ret == HASH_OK <==> forall e :: e in es ==> h1(e.data) != h1(data) || h2(e.data) != h2(data)
    ensures ret == HASH_DUP <==> data in Pairs(es)
    ensures ret == HASH_ECOLL <==>
              data !in Pairs(es) && exists e :: e in es && h1(e.data) == h1(data) && h2(e.data) == h2(data)
    ensures Pairs(now) == if ret == HASH_OK then Pairs(es)[data := arg] else Pairs(es)
  {
    PairsMeaning(es, h1, h2);
    if ret == HASH_OK {
      assert es == es[..p] + es[p..];
      PairsAround(es[..p], lnode, es[p..]);
    } else {
      forall e | e in es && e.data == data ensures e == lnode {
        var i, j :| 0 <= i < |es| && 0 <= j < |es| && es[i] == e && es[j] == lnode;
        NoneMeet(es, i, j, h1, h2);
        NoneMeet(es, j, i, h1, h2);
      }
    }
  }

  // ----- the operations on a plain map -----

  datatype Op<V> = Adding(data: Bytes, arg: V) | Deleting(data: Bytes, arg: V) | Finding(data: Bytes, arg: V)

  /** A key of m has both hashes of data. */
  ghost predicate Taken<V>(m: map<Bytes, V>, data: Bytes, h1: Hash, h2: Hash) {
    exists d :: d in m && h1(d) == h1(data) && h2(d) == h2(data)
  }

  /** The operation on a plain map: the verdict, and the map after it. */
  ghost function Step<V>(m: map<Bytes, V>, op: Op<V>, h1: Hash, h2: Hash): (int, map<Bytes, V>) {
    match op
    case Adding(data, arg) =>
      if data == [] then (HASH_EINVAL, m)
      else if data in m then (HASH_DUP, m)
      else if Taken(m, data, h1, h2) then (HASH_ECOLL, m)
      else (HASH_OK, m[data := arg])
    case Deleting(data, _) =>
      if data == [] then (HASH_EINVAL, m)
      else if data in m then (HASH_OK, m - {data})
      else (HASH_ENOTFOUND, m)
    case Finding(data, _) =>
      (if data in m then HASH_OK else HASH_ENOTFOUND, m)
  }

  /** The answers in numbers. */
  lemma Answers<V>(m: map<Bytes, V>, data: Bytes, arg: V, h1: Hash, h2: Hash)
    ensures Step(m, Adding(data, arg), h1, h2) ==
            if data == [] then (-126, m)
            else if data in m then (0, m)
            else if exists d :: d in m && h1(d) == h1(data) && h2(d) == h2(data) then (-1, m)
            else (1, m[data := arg])
    ensures Step(m, Deleting(data, arg), h1, h2) ==
            if data == [] then (-126, m) else if data in m then (1, m - {data}) else (-2, m)
    ensures Step(m, Finding(data, arg), h1, h2) == (if data in m then 1 else -2, m)
  {
  }

  /** What an addition makes of the entries is what the operation makes of their map. */
  lemma StepOfOutcome<V>(es: seq<Entry<V>>, now: seq<Entry<V>>, data: Bytes, arg: V, ret: int,
                         lnode: Entry<V>, collnode: Entry?<V>, p: nat, h1: Hash, h2: Hash)
    requires Outcome(es, now, data, arg, ret, lnode, collnode, p, h1, h2) && InOrder(es, h1, h2) && data != []
    ensures (ret, Pairs(now)) == Step(Pairs(es), Adding(data, arg), h1, h2)
  {
    OutcomeMeaning(es, now, data, arg, ret, lnode, collnode, p, h1, h2);
    PairsMeaning(es, h1, h2);
  }

  lemma DroppedMeaning<V>(es: seq<Entry<V>>, now: seq<Entry<V>>, e: Entry<V>, p: nat, h1: Hash, h2: Hash)
    requires Dropped(es, now, e, p) && InOrder(es, h1, h2)
    ensures Pairs(now) == Pairs(es) - {e.data}
  {
    assert es == es[..p] + [e] + es[p + 1..];
    forall x | x in es[..p] || x in es[p + 1..] ensures x.data != e.data {
      var i :| 0 <= i < |es| && i != p && es[i] == x;
      NoneMeet(es, i, p, h1, h2);
      NoneMeet(es, p, i, h1, h2);
    }
    PairsWithout(es[..p], e, es[p + 1..]);
  }

  lemma NotBefore<T>(a: seq<Node<T>>, x: Node<T>, z: seq<Node<T>>)
    requires Sorted(a + [x] + z)
    ensures x !in a
  {
    var s := a + [x] + z;
    assert s[|a|] == x && forall i :: 0 <= i < |a| ==> s[i] == a[i];
  }

  lemma InsertedAt<T>(s: seq<Node<T>>, x: Node<T>) returns (k: nat)
    ensures k <= |s| && Inserted(s, x) == s[..k] + [x] + s[k..]
  {
    if s == [] || x.key < s[0].key {
      k := 0;
    } else {
      var j := InsertedAt(s[1..], x);
      k := j + 1;
      assert s[1..][..j] == s[1..k] && [s[0]] + s[1..k] == s[..k] && s[1..][j..] == s[k..];
    }
  }

  /** struct hash_struct: a handle holding a key, and where the last operation left it. */
  class Handle<V> {
    var data: Bytes
    var arg: V
    var hash: uint32
    var lnode: Entry?<V>
    var tnode: Node?<Bucket<V>>
    var ret: int
    var collnode: Entry?<V>

    /** hash_new. */
    constructor (data: Bytes, arg: V, h1: Hash)
      ensures Fresh(h1) && this.data == data && (data != [] ==> this.arg == arg)
    {
      this.data, this.arg, hash := data, arg, if data != [] then h1(data) else 0;
      lnode, tnode, collnode, ret := null, null, null, HASH_UNSPEC;
    }

    ghost predicate Fresh(h1: Hash)
      reads this
    {
      lnode == null && tnode == null && (data != [] ==> hash == h1(data))
    }

    /** hash_set. */
    method Set(data: Bytes, arg: V, ghost h1: Hash, fnv: Hash)
      requires fnv == h1 && (this.data != [] ==> hash == h1(this.data))
      modifies this
      ensures Fresh(h1) && ret == HASH_UNSPEC
      ensures this.data == if data != [] then data else old(this.data)
      ensures this.arg == if data != [] then arg else old(this.arg)
    {
      if data != [] {
        this.data, this.arg, hash := data, arg, fnv(data);
      }
      lnode, tnode, ret := null, null, HASH_UNSPEC;
    }

    /** _hinfo_remake: the handle takes over key and value of the entry it points at. */
    method Remake(ret: int)
      requires lnode != null && tnode != null && 0 <= tnode.key < 0x1_0000_0000
      modifies this
      ensures lnode == old(lnode) && tnode == old(tnode) && collnode == old(collnode) && this.ret == ret
      ensures data == lnode.data && arg == lnode.arg && hash == tnode.key
    {
      data, arg, hash, this.ret := lnode.data, lnode.arg, tnode.key, ret;
    }

    /** _HI_CLEAN, then _hinfo_reset with the position just searched. */
    method Point(tnode: Node?<Bucket<V>>, lnode: Entry?<V>, ret: int, collnode: Entry?<V>)
      requires tnode != null ==> 0 <= tnode.key < 0x1_0000_0000
      modifies this
      ensures this.collnode == collnode
      ensures lnode == null || tnode == null ==>
                && this.lnode == null && this.tnode == null
                && data == old(data) && arg == old(arg) && hash == old(hash) && this.ret == old(this.ret)
      ensures lnode != null && tnode != null ==>
                && this.lnode == lnode && this.tnode == tnode && this.ret == ret
                && data == lnode.data && arg == lnode.arg && hash == tnode.key
    {
      this.collnode := collnode;
      if lnode == null || tnode == null {
        this.lnode, this.tnode := null, null;
      } else {
        this.lnode, this.tnode := lnode, tnode;
        Remake(ret);
      }
    }

    /** The handle after its entry is gone: it keeps key and value of it, and what the search for it said. */
    method Forget(entry: Entry<V>, ret: int)
      requires data == entry.data
      modifies this
      ensures lnode == null && tnode == null && collnode == null
      ensures data == old(data) && hash == old(hash) && arg == entry.arg && this.ret == ret
    {
      data, arg, this.ret := entry.data, entry.arg, ret;
      lnode, tnode, collnode := null, null, null;
    }
  }

  class HashTable<V> {
    const h1: Hash
    const h2: Hash
    const tree: Tree<Bucket<V>>

    /** hashtable_new: h1 and h2 stand for the two hash functions. */
    constructor (h1: Hash, h2: Hash)
      ensures Valid() && Entries() == [] && Contents() == map[]
      ensures this.h1 == h1 && this.h2 == h2 && fresh(Footprint())
    {
      this.h1, this.h2 := h1, h2;
      tree := new Tree();
    }

    ghost predicate Valid()
      reads tree, Elems(tree.shape), Buckets(tree.Elements()), Owned(tree.Elements())
    {
      true == (tree.Valid() && Filled(tree.Elements(), h1, h2))
    }

    ghost function Entries(): seq<Entry<V>>
      reads tree, Buckets(tree.Elements())
    {
      All(tree.Elements())
    }

    /** The map this table stands for. */
    ghost function Contents(): map<Bytes, V>
      reads tree, Buckets(tree.Elements())
    {
      Pairs(Entries())
    }

    ghost function Footprint(): set<object>
      reads tree, Buckets(tree.Elements())
    {
      {tree} + Elems(tree.shape) + Buckets(tree.Elements()) + Owned(tree.Elements())
    }

    lemma Objects()
      requires Valid()
      ensures forall n :: n in Elems(tree.shape) <==> n in tree.Elements()
      ensures forall e :: e in Owned(tree.Elements()) <==> e in Entries()
    {
      InorderElems(tree.shape);
      KeysOf(tree.Elements(), h1, h2);
    }

    /** Where a handle may point between operations: nowhere, or at a stored entry it agrees with. */
    ghost predicate Synced(hi: Handle<V>)
      reads hi, tree, Buckets(tree.Elements())
    {
      true == (
        && (hi.data != [] ==> hi.hash == h1(hi.data))
        && (hi.lnode == null <==> hi.tnode == null)
        && (hi.lnode != null ==> Attached(hi)))
    }

    ghost predicate Attached(hi: Handle<V>)
      reads hi, tree, Buckets(tree.Elements())
    {
      true == (
        && hi.tnode != null && hi.tnode in tree.Elements() && hi.tnode.item in Buckets(tree.Elements())
        && hi.lnode != null && hi.lnode in hi.tnode.item.items
        && hi.data == hi.lnode.data && hi.arg == hi.lnode.arg && hi.hash == hi.tnode.key)
    }

    lemma Points(hi: Handle<V>)
      requires Synced(hi)
      ensures hi !in Footprint()
      ensures hi.data != [] ==> hi.hash == h1(hi.data)
      ensures hi.tnode == null <==> hi.lnode == null
      ensures hi.lnode != null ==>
                && hi.tnode in tree.Elements() && hi.lnode in hi.tnode.item.items
                && hi.lnode.data == hi.data && hi.tnode.key == hi.hash
    {
    }

    /** The entries of a valid table are in strict (first hash, second hash) order, so no two collide. */
    lemma Meaning()
      requires Valid()
      ensures InOrder(Entries(), h1, h2)
      ensures forall e :: e in Entries() ==> e.data in Contents() && Contents()[e.data] == e.arg
      ensures forall d :: d in Contents() ==> exists e :: e in Entries() && e.data == d
      ensures forall d, e ::
                d in Entries() && e in Entries() && h1(d.data) == h1(e.data) && h2(d.data) == h2(e.data) ==> d == e
    {
      AllInOrder(tree.Elements(), h1, h2);
      PairsMeaning(Entries(), h1, h2);
      var s := Entries();
      forall d, e | d in s && e in s && h1(d.data) == h1(e.data) && h2(d.data) == h2(e.data) ensures d == e {
        var i, j :| 0 <= i < |s| && 0 <= j < |s| && s[i] == d && s[j] == e;
        NoneMeet(s, i, j, h1, h2);
        NoneMeet(s, j, i, h1, h2);
      }
    }

    lemma BucketOf(n: Node<Bucket<V>>)
      requires Valid() && n in tree.Elements()
      ensures n in Elems(tree.shape)
      ensures n.item.Full(n.key, h1, h2) && n.item in Buckets(tree.Elements())
      ensures forall e :: e in n.item.items ==> e in Entries() && h1(e.data) == n.key
      ensures forall e :: e in Entries() && h1(e.data) == n.key ==> e in n.item.items
    {
      InorderElems(tree.shape);
      KeysOf(tree.Elements(), h1, h2);
      forall e | e in Entries() && h1(e.data) == n.key ensures e in n.item.items {
        var m :| m in tree.Elements() && m.key == n.key && e in m.item.items;
        assert m == n;
      }
    }

    /** _search_in_table without the cache: the bucket of a first hash, and what the entry pointer becomes. */
    method Search(data: Bytes, hash: uint32, old0: Entry?<V>)
      returns (ret: int, tnode: Node?<Bucket<V>>, lnode: Entry?<V>)
      requires Valid() && (data != [] ==> hash == h1(data))
      ensures Valid() && Entries() == old(Entries()) && Footprint() == old(Footprint())
      ensures ret == HASH_OK || ret == HASH_ENOTFOUND
      ensures ret == HASH_OK <==> exists e :: e in Entries() && e.data == data
      ensures tnode != null ==> tnode in tree.Elements() && tnode.key == hash
      ensures tnode == null ==> forall e :: e in Entries() ==> h1(e.data) != hash
      ensures ret == HASH_OK ==> tnode != null && lnode != null && lnode in tnode.item.items && lnode.data == data
      ensures ret == HASH_ENOTFOUND ==>
                lnode == if tnode != null && |tnode.item.items| == 1 then tnode.item.items[0] else old0
    {
      assert allocated(Elems(tree.shape)) && allocated(Buckets(tree.Elements())) && allocated(Owned(tree.Elements()));
      lnode := old0;
      tnode := FindNode(hash);
      if tnode == null {
        NoBucket(hash);
        return HASH_ENOTFOUND, tnode, lnode;
      }
      BucketOf(tnode);
      ret, lnode := tnode.item.Search(data, lnode, hash, h1, h2);
      BucketOf(tnode);
      NotEmpty();
      forall e | e in Entries() && e.data == data ensures e in tnode.item.items {
        assert h1(e.data) == hash;
      }
      assert ret == HASH_OK ==> lnode in Entries();
    }

    /** A handle turns to what a search found; the table does not change. */
    method Aim(hi: Handle<V>, tnode: Node?<Bucket<V>>, lnode: Entry?<V>, ret: int, collnode: Entry?<V>)
      requires Valid()
      requires tnode != null ==> tnode in tree.Elements() && (lnode != null ==> lnode in tnode.item.items)
      modifies hi
      ensures Valid() && Entries() == old(Entries()) && Footprint() == old(Footprint())
      ensures old(hi.data != [] ==> hi.hash == h1(hi.data)) ==> Synced(hi)
      ensures hi.collnode == collnode && (lnode == null || tnode == null ==> hi.lnode == null && hi.tnode == null)
      ensures lnode == null || tnode == null ==>
                hi.data == old(hi.data) && hi.arg == old(hi.arg) && hi.hash == old(hi.hash) && hi.ret == old(hi.ret)
      ensures lnode != null && tnode != null ==> Attached(hi) && hi.tnode == tnode && hi.lnode == lnode && hi.ret == ret
    {
      if tnode != null {
        BucketOf(tnode);
        assert tnode.item.items[0] in tnode.item.items;
      }
      assert allocated(Elems(tree.shape)) && allocated(Buckets(tree.Elements())) && allocated(Owned(tree.Elements()));
      hi.Point(tnode, lnode, ret, collnode);
    }

    lemma NotEmpty()
      requires Valid()
      ensures forall e :: e in Entries() ==> e.data != []
    {
      KeysOf(tree.Elements(), h1, h2);
    }

    lemma NoBucket(hash: int)
      requires Valid() && forall n :: n in tree.Elements() ==> n.key != hash
      ensures forall e :: e in Entries() ==> h1(e.data) != hash && e.data != []
    {
      KeysOf(tree.Elements(), h1, h2);
    }

    /**
     hashtable_find with a handle in sync.  A miss forgets the position, except
     exactly when a single entry has the first hash of the key: the handle then
     takes over that other entry.
     */
    method Find(hi: Handle<V>) returns (ret: int)
      requires Valid() && Synced(hi)
      modifies hi
      ensures Valid() && Synced(hi) && Entries() == old(Entries()) && Footprint() == old(Footprint())
      ensures ret == HASH_OK || ret == HASH_ENOTFOUND
      ensures ret == HASH_OK <==> old(hi.data) in Contents()
      ensures ret == HASH_OK ==>
                Attached(hi) && hi.ret == HASH_OK && hi.data == old(hi.data) && hi.arg == Contents()[hi.data]
      ensures ret == HASH_ENOTFOUND ==> (hi.lnode != null <==> exists e :: e in Entries() && Alone(e, old(hi.hash)))
      ensures hi.collnode == null && (ret == HASH_OK ==> hi.hash == old(hi.hash))
      ensures ret == HASH_ENOTFOUND && hi.lnode == null ==>
                hi.tnode == null && hi.hash == old(hi.hash) && hi.ret == old(hi.ret)
      ensures ret == HASH_ENOTFOUND ==>
                if hi.lnode == null then hi.data == old(hi.data) && hi.arg == old(hi.arg)
                else Attached(hi) && hi.ret == ret && hi.data != old(hi.data) && hi.hash == old(hi.hash)
                     && hi.tnode.item.items == [hi.lnode] && Alone(hi.lnode, hi.hash)
    {
      var tnode, lnode;
      ret, tnode, lnode := FindEntry(hi.data, hi.hash, hi.tnode, hi.lnode);
      Aim(hi, tnode, lnode, ret, null);
    }

    /** The only entry with this first hash. */
    ghost predicate Alone(e: Entry<V>, hash: uint32)
      reads tree, Buckets(tree.Elements())
    {
      true == (h1(e.data) == hash && forall d :: d in Entries() && h1(d.data) == hash ==> d == e)
    }

    /** Where a search that found nothing leaves off: at the only entry with this first hash, if there is one. */
    ghost predicate Missed(data: Bytes, hash: uint32, tnode: Node?<Bucket<V>>, lnode: Entry?<V>)
      reads tree, Buckets(tree.Elements())
    {
      true == (
        && (tnode != null && lnode != null <==> exists e :: e in Entries() && Alone(e, hash))
        && (tnode != null && lnode != null ==>
              && tnode.item in Buckets(tree.Elements()) && tnode.item.items == [lnode]
              && lnode.data != data && Alone(lnode, hash)))
    }

    lemma AloneIs(tnode: Node?<Bucket<V>>, hash: uint32)
      requires Valid()
      requires if tnode == null then forall e :: e in Entries() ==> h1(e.data) != hash
               else tnode in tree.Elements() && tnode.key == hash
      ensures (tnode != null && |tnode.item.items| == 1) <==> exists e :: e in Entries() && Alone(e, hash)
      ensures tnode != null && |tnode.item.items| == 1 ==>
                tnode.item.items[0] in Entries() && Alone(tnode.item.items[0], hash)
    {
      if tnode != null {
        BucketOf(tnode);
        var items := tnode.item.items;
        assert items[0] in items && h1(items[0].data) == hash;
        if |items| == 1 {
          assert Alone(items[0], hash);
        } else {
          assert items[1] in items && items[0] != items[1] && h1(items[1].data) == hash;
        }
      }
    }

    /** The search of hashtable_find; a handle that points at its entry cannot miss. */
    method FindEntry(data: Bytes, hash: uint32, ghost tnode0: Node?<Bucket<V>>, lnode0: Entry?<V>)
      returns (ret: int, tnode: Node?<Bucket<V>>, lnode: Entry?<V>)
      requires Valid() && (data != [] ==> hash == h1(data))
      requires lnode0 != null ==> tnode0 in tree.Elements() && lnode0 in tnode0.item.items && lnode0.data == data
      ensures Valid() && Entries() == old(Entries()) && Footprint() == old(Footprint())
      ensures ret == HASH_OK || ret == HASH_ENOTFOUND
      ensures ret == HASH_OK <==> data in Contents()
      ensures ret == HASH_OK ==> tnode != null && lnode != null && lnode.data == data && lnode.arg == Contents()[data]
      ensures tnode != null ==> tnode in tree.Elements() && tnode.item in Buckets(tree.Elements()) && tnode.key == hash
      ensures tnode != null && lnode != null ==> lnode in tnode.item.items && h1(lnode.data) == hash
      ensures ret == HASH_ENOTFOUND && tnode != null && lnode != null ==>
                lnode.data != data && tnode.item.items == [lnode] && Alone(lnode, hash)
      ensures ret == HASH_ENOTFOUND ==>
                (tnode != null && lnode != null <==> exists e :: e in Entries() && Alone(e, hash))
    {
      if lnode0 != null {
        BucketOf(tnode0);
      }
      ret, tnode, lnode := Search(data, hash, lnode0);
      HeldBy(data, lnode);
      InBucket(tnode, hash);
      AloneIs(tnode, hash);
    }

    lemma HeldBy(data: Bytes, e: Entry?<V>)
      requires Valid()
      ensures data in Contents() <==> exists d :: d in Entries() && d.data == data
      ensures e != null && e in Entries() && e.data == data ==> data in Contents() && e.arg == Contents()[data]
    {
      Meaning();
    }

    lemma InBucket(tnode: Node?<Bucket<V>>, hash: uint32)
      requires Valid() && (tnode != null ==> tnode in tree.Elements() && tnode.key == hash)
      ensures tnode != null ==>
                && tnode.item in Buckets(tree.Elements())
                && forall e :: e in tnode.item.items ==> e in Entries() && h1(e.data) == hash
    {
      if tnode != null {
        BucketOf(tnode);
      }
    }

    /** RB_FIND in the tree of buckets. */
    method FindNode(hash: uint32) returns (found: Node?<Bucket<V>>)
      requires Valid()
      ensures found != null ==> found in tree.Elements() && found.key == hash
      ensures found == null ==> forall n :: n in tree.Elements() ==> n.key != hash
      ensures Valid() && Entries() == old(Entries())
    {
      assert allocated(Elems(tree.shape)) && allocated(Buckets(tree.Elements())) && allocated(Owned(tree.Elements()));
      ghost var comparisons;
      found, comparisons := tree.Find(hash);
    }

    /** _setup_node: the bucket of a first hash, new and empty if there is none. */
    method SetupNode(hash: uint32)
      returns (tnode: Node<Bucket<V>>, ghost a: seq<Node<Bucket<V>>>, ghost z: seq<Node<Bucket<V>>>)
      requires Valid()
      modifies tree, Elems(tree.shape)
      ensures tree.Valid() && tree.Elements() == a + [tnode] + z && tnode.key == hash
      ensures Beside(tnode, a + z, h1, h2) && Buckets(a + z) <= old(Buckets(tree.Elements()))
      ensures All(a) + tnode.item.items + All(z) == old(Entries())
      ensures tnode.item.Full(hash, h1, h2) || tnode.item.New()
      ensures fresh(tnode.item) || tnode.item in old(Buckets(tree.Elements()))
      ensures forall n :: n in tree.Elements() ==> n in old(tree.Elements()) || (fresh(n) && fresh(n.item))
      ensures forall e :: e in tnode.item.items ==> e in old(Entries())
    {
      var node := FindNode(hash);
      if node == null {
        tnode, a, z := NewNode(hash);
      } else {
        tnode := node;
        a, z := Around(tree.Elements(), tnode, h1, h2);
        BucketOf(tnode);
        assert forall n :: n in a + z ==> n in a + [tnode] + z;
      }
    }

    /** The half of _setup_node that allocates. */
    method NewNode(hash: uint32)
      returns (tnode: Node<Bucket<V>>, ghost a: seq<Node<Bucket<V>>>, ghost z: seq<Node<Bucket<V>>>)
      requires Valid() && forall n :: n in tree.Elements() ==> n.key != hash
      modifies tree, Elems(tree.shape)
      ensures tree.Valid() && tree.Elements() == a + [tnode] + z && tnode.key == hash
      ensures Beside(tnode, a + z, h1, h2) && a + z == old(tree.Elements())
      ensures All(a) + tnode.item.items + All(z) == old(Entries())
      ensures fresh(tnode) && fresh(tnode.item) && tnode.item.New()
    {
      InorderElems(tree.shape);
      ghost var ns := tree.Elements();
      assert allocated(Elems(tree.shape)) && allocated(Buckets(ns)) && allocated(Owned(ns));
      var bucket := new Bucket();
      tnode := new Node(hash, bucket);
      a, z := Gap(ns, tnode, h1, h2);
      BucketsAround(a, tnode, z);
      AddNode(tnode, a, z);
    }

    method AddNode(tnode: Node<Bucket<V>>, ghost a: seq<Node<Bucket<V>>>, ghost z: seq<Node<Bucket<V>>>)
      requires tree.Valid() && tnode !in Elems(tree.shape) && (forall m :: m in tree.Elements() ==> m.key != tnode.key)
      requires tree.Elements() == a + z && Inserted(a + z, tnode) == a + [tnode] + z
      requires Beside(tnode, a + z, h1, h2)
      modifies tree, Elems(tree.shape), tnode
      ensures tree.Valid() && tree.Elements() == a + [tnode] + z
      ensures Beside(tnode, a + z, h1, h2) && unchanged(Buckets(a + z)) && unchanged(tnode.item)
    {
      assert allocated(Buckets(a + z)) && allocated(Owned(a + z));
      var res := tree.Insert(tnode);
    }

    /** The list half of hashtable_add, seen from the other buckets. */
    method Put(tnode: Node<Bucket<V>>, lnode: Entry<V>, ghost rest: seq<Node<Bucket<V>>>)
      returns (coll: Entry?<V>, ghost k: nat)
      requires tree.Valid() && Beside(tnode, rest, h1, h2)
      requires tnode.item.Full(tnode.key, h1, h2) || tnode.item.New()
      requires lnode !in Owned(rest) && lnode !in tnode.item.items && lnode.data != [] && h1(lnode.data) == tnode.key
      modifies tnode.item, tnode.item.items, lnode
      ensures true == (tree.Valid() && tree.Elements() == old(tree.Elements()))
      ensures Beside(tnode, rest, h1, h2) && tnode.item.Full(tnode.key, h1, h2) && unchanged(Buckets(rest))
      ensures Added(old(tnode.item.items), tnode.item.items, lnode, coll, k, h2)
    {
      assert allocated(Elems(tree.shape)) && allocated(Buckets(rest));
      coll, k := PutAside(tnode, lnode, rest);
    }

    method PutAside(tnode: Node<Bucket<V>>, lnode: Entry<V>, ghost rest: seq<Node<Bucket<V>>>)
      returns (coll: Entry?<V>, ghost k: nat)
      requires Beside(tnode, rest, h1, h2)
      requires tnode.item.Full(tnode.key, h1, h2) || tnode.item.New()
      requires lnode !in Owned(rest) && lnode !in tnode.item.items && lnode.data != [] && h1(lnode.data) == tnode.key
      modifies tnode.item, tnode.item.items, lnode
      ensures Beside(tnode, rest, h1, h2) && tnode.item.Full(tnode.key, h1, h2) && unchanged(Buckets(rest))
      ensures Added(old(tnode.item.items), tnode.item.items, lnode, coll, k, h2)
    {
      assert allocated(Buckets(rest)) && allocated(Owned(rest));
      ghost var was, owned := tnode.item.items, Owned(rest);
      BesideHolding(tnode, rest, owned, h1, h2);
      coll, k := tnode.item.Add(lnode, tnode.key, h1, h2);
      assert Holding(rest, owned, tnode.key, h1, h2);
      BesideAdded(tnode, rest, owned, was, lnode, coll, k, h1, h2);
    }

    /** The table half of hashtable_add. */
    method AddEntry(data: Bytes, arg: V, hash: uint32)
      returns (ret: int, tnode: Node<Bucket<V>>, lnode: Entry<V>, collnode: Entry?<V>, ghost p: nat)
      requires Valid() && data != [] && hash == h1(data)
      modifies Footprint()
      ensures Valid() && tnode in tree.Elements() && tnode.key == hash && lnode in tnode.item.items
      ensures Outcome(old(Entries()), Entries(), data, arg, ret, lnode, collnode, p, h1, h2)
      ensures forall n :: n in tree.Elements() ==> n in old(tree.Elements()) || (fresh(n) && fresh(n.item))
      ensures ret == HASH_OK ==> fresh(lnode)
    {
      assert allocated(Elems(tree.shape)) && allocated(Buckets(tree.Elements())) && allocated(Owned(tree.Elements()));
      Objects();
      ghost var es, a, z := Entries(), [], [];
      assert allocated(es);
      lnode := new Entry(data, arg);
      assert lnode !in es;
      tnode, a, z := SetupNode(hash);
      ret, lnode, collnode, p := Store(tnode, lnode, a, z, es);
    }

    /**
     hashtable_add where there is no memory for the entry, and room for its bucket or not: no entry is touched,
     but a bucket made for it stays in the tree, empty, and a traversal that comes to it ends there.
     */
    method AddStarved(data: Bytes, hash: uint32, room: bool)
      returns (ret: int, tnode: Node?<Bucket<V>>, ghost a: seq<Node<Bucket<V>>>, ghost z: seq<Node<Bucket<V>>>)
      requires Valid() && data != [] && hash == h1(data)
      modifies tree, Elems(tree.shape)
      ensures ret == HASH_EMEM && tree.Valid() && Entries() == old(Entries())
      ensures Valid() <==> tnode == null || exists e :: e in Entries() && h1(e.data) == hash
      ensures tnode == null <==> !room && forall e :: e in Entries() ==> h1(e.data) != hash
      ensures !Valid() ==>
                && tnode != null && tree.Elements() == a + [tnode] + z && tnode.key == hash
                && tnode.item.first == null && Entries() == All(a) + All(z)
    {
      ret, a, z := HASH_EMEM, [], [];
      tnode := FindNode(hash);
      if tnode == null {
        NoBucket(hash);
        if room {
          tnode, a, z := NewNode(hash);
          FilledAround(a, tnode, z, h1, h2);
          assert All(a) + [] == All(a);
        }
      } else {
        BucketOf(tnode);
        var items := tnode.item.items;
        assert items[0] in items;
      }
    }

    /** The table grows by new objects only. */
    method Grow(data: Bytes, arg: V, hash: uint32)
      returns (ret: int, tnode: Node<Bucket<V>>, lnode: Entry<V>, collnode: Entry?<V>, ghost p: nat)
      requires Valid() && data != [] && hash == h1(data)
      modifies Footprint()
      ensures Valid() && tnode in tree.Elements() && tnode.key == hash && lnode in tnode.item.items
      ensures Outcome(old(Entries()), Entries(), data, arg, ret, lnode, collnode, p, h1, h2)
      ensures forall o :: o in Footprint() ==> o in old(Footprint()) || fresh(o)
    {
      Objects();
      ghost var es := Entries();
      ret, tnode, lnode, collnode, p := AddEntry(data, arg, hash);
      OutcomeMembers(es, Entries(), data, arg, ret, lnode, collnode, p, h1, h2);
      Objects();
    }

    /** The list goes first, then _insert_collision settles the verdict. */
    method Store(tnode: Node<Bucket<V>>, entry: Entry<V>, ghost a: seq<Node<Bucket<V>>>, ghost z: seq<Node<Bucket<V>>>,
                 ghost es: seq<Entry<V>>)
      returns (ret: int, lnode: Entry<V>, collnode: Entry?<V>, ghost p: nat)
      requires tree.Valid() && tree.Elements() == a + [tnode] + z && Beside(tnode, a + z, h1, h2)
      requires tnode.item.Full(tnode.key, h1, h2) || tnode.item.New()
      requires es == All(a) + tnode.item.items + All(z) && entry !in es && entry.data != []
      requires h1(entry.data) == tnode.key
      modifies tnode.item, tnode.item.items, entry
      ensures Valid() && tnode in tree.Elements() && lnode in tnode.item.items
      ensures Outcome(es, Entries(), entry.data, entry.arg, ret, lnode, collnode, p, h1, h2)
      ensures tree.Elements() == old(tree.Elements()) && (ret == HASH_OK ==> lnode == entry)
    {
      ghost var x, items, y := All(a), tnode.item.items, All(z);
      OthersApart(a, tnode, z);
      var coll;
      ghost var k;
      coll, k := Put(tnode, entry, a + z);
      p := |x| + k;
      ret := Verdict(entry, coll);
      lnode := if coll != null then coll else entry;
      collnode := if ret == HASH_ECOLL then entry else null;
      AddedOutcome(x, items, y, es, tnode.item.items, tnode.key, entry, coll, k, ret, lnode, collnode, p, h1, h2);
      Rejoined(a, tnode, z);
      assert Entries() == x + tnode.item.items + y;
    }

    lemma OthersApart(a: seq<Node<Bucket<V>>>, n: Node<Bucket<V>>, z: seq<Node<Bucket<V>>>)
      requires Beside(n, a + z, h1, h2)
      ensures Buckets(a) <= Buckets(a + z) && Buckets(z) <= Buckets(a + z)
      ensures forall o :: o in All(a) + All(z) <==> o in Owned(a + z)
      ensures forall o :: o in All(a) + All(z) ==> h1(o.data) != n.key
    {
      BucketsAround(a, n, z);
      KeysOf(a + z, h1, h2);
      FilledAppend(a, z, h1, h2);
    }

    lemma Rejoined(a: seq<Node<Bucket<V>>>, n: Node<Bucket<V>>, z: seq<Node<Bucket<V>>>)
      requires tree.Valid() && tree.Elements() == a + [n] + z
      requires Beside(n, a + z, h1, h2) && n.item.Full(n.key, h1, h2)
      ensures Valid() && Entries() == All(a) + n.item.items + All(z) && n in tree.Elements()
    {
      FilledAround(a, n, z, h1, h2);
      FilledAppend(a, z, h1, h2);
    }

    /**
     hashtable_add.  OK when no stored key shares both hashes, DUP when the key is
     stored, ECOLL when another key shares both hashes; only OK changes the table.
     */
    method Add(hi: Handle<V>) returns (ret: int, ghost p: nat)
      requires Valid() && Synced(hi)
      modifies hi, Footprint()
      ensures Valid() && Synced(hi)
      ensures ret == HASH_EINVAL <==> old(hi.data) == []
      ensures ret == HASH_EINVAL ==> unchanged(hi) && Entries() == old(Entries())
      ensures ret != HASH_EINVAL ==> Attached(hi) && hi.ret == ret
      ensures ret != HASH_EINVAL ==>
                Outcome(old(Entries()), Entries(), old(hi.data), old(hi.arg), ret, hi.lnode, hi.collnode, p, h1, h2)
      ensures (ret, Contents()) == Step(old(Contents()), Adding(old(hi.data), old(hi.arg)), h1, h2)
      ensures forall o :: o in Footprint() ==> o in old(Footprint()) || fresh(o)
    {
      if hi.data == [] {
        return HASH_EINVAL, 0;
      }
      Meaning();
      var data, arg := hi.data, hi.arg;
      ghost var es := Entries();
      var tnode, lnode, collnode;
      ret, tnode, lnode, collnode, p := Grow(data, arg, hi.hash);
      ghost var now := Entries();
      StepOfOutcome(es, now, data, arg, ret, lnode, collnode, p, h1, h2);
      Aim(hi, tnode, lnode, ret, collnode);
    }

    /** SLIST_REMOVE in one bucket, seen from the others. */
    method DropFrom(tnode: Node<Bucket<V>>, lnode: Entry<V>, ghost rest: seq<Node<Bucket<V>>>) returns (ghost k: nat)
      requires tree.Valid() && Beside(tnode, rest, h1, h2) && tnode.item.Full(tnode.key, h1, h2)
      requires lnode in tnode.item.items
      modifies tnode.item, tnode.item.items
      ensures true == (tree.Valid() && tree.Elements() == old(tree.Elements()))
      ensures Beside(tnode, rest, h1, h2) && unchanged(Buckets(rest))
      ensures Dropped(old(tnode.item.items), tnode.item.items, lnode, k)
      ensures tnode.item.items == [] || tnode.item.Full(tnode.key, h1, h2)
      ensures tnode.item.elms == |tnode.item.items|
    {
      assert allocated(Elems(tree.shape)) && allocated(Buckets(rest));
      k := DropAside(tnode, lnode, rest);
    }

    method DropAside(tnode: Node<Bucket<V>>, lnode: Entry<V>, ghost rest: seq<Node<Bucket<V>>>) returns (ghost k: nat)
      requires Beside(tnode, rest, h1, h2) && tnode.item.Full(tnode.key, h1, h2) && lnode in tnode.item.items
      modifies tnode.item, tnode.item.items
      ensures Beside(tnode, rest, h1, h2) && unchanged(Buckets(rest))
      ensures Dropped(old(tnode.item.items), tnode.item.items, lnode, k)
      ensures tnode.item.items == [] || tnode.item.Full(tnode.key, h1, h2)
      ensures tnode.item.elms == |tnode.item.items|
    {
      assert allocated(Buckets(rest)) && allocated(Owned(rest));
      ghost var was, owned := tnode.item.items, Owned(rest);
      BesideHolding(tnode, rest, owned, h1, h2);
      k := tnode.item.Drop(lnode, tnode.key, h1, h2);
      assert Holding(rest, owned, tnode.key, h1, h2);
      DroppedMembers(was, tnode.item.items, lnode, k);
      BesideHolding(tnode, rest, owned, h1, h2);
    }

    /** RB_REMOVE of an emptied bucket, seen from the others. */
    method RemoveNode(tnode: Node<Bucket<V>>, ghost a: seq<Node<Bucket<V>>>, ghost z: seq<Node<Bucket<V>>>)
      requires tree.Valid() && tree.Elements() == a + [tnode] + z && Beside(tnode, a + z, h1, h2)
      modifies tree, Elems(tree.shape)
      ensures Valid() && tree.Elements() == a + z && unchanged(Buckets(a + z))
    {
      assert allocated(Buckets(a + z)) && allocated(Owned(a + z));
      InorderElems(tree.shape);
      assert tnode in tree.Elements();
      NotBefore(a, tnode, z);
      WithoutMiddle(a, tnode, z);
      var res := tree.Remove(tnode);
    }

    /** The bucket goes with its last entry. */
    method Shrink(tnode: Node<Bucket<V>>, ghost a: seq<Node<Bucket<V>>>, ghost z: seq<Node<Bucket<V>>>,
                  ghost now: seq<Entry<V>>)
      requires tree.Valid() && tree.Elements() == a + [tnode] + z && Beside(tnode, a + z, h1, h2)
      requires tnode.item.elms == |tnode.item.items| && (tnode.item.items == [] || tnode.item.Full(tnode.key, h1, h2))
      requires now == All(a) + tnode.item.items + All(z)
      modifies tree, Elems(tree.shape)
      ensures Valid() && Entries() == now && forall n :: n in tree.Elements() ==> n in old(tree.Elements())
    {
      if tnode.item.elms == 0 {
        FilledAppend(a, z, h1, h2);
        assert tnode.item.items == [] && All(a) + [] == All(a);
        ghost var rest := a + z;
        assert now == All(rest);
        RemoveNode(tnode, a, z);
      } else {
        Rejoined(a, tnode, z);
      }
    }

    /** The table half of hashtable_del. */
    method RemoveEntry(tnode: Node<Bucket<V>>, lnode: Entry<V>) returns (ghost p: nat)
      requires Valid() && tnode in tree.Elements() && lnode in tnode.item.items
      modifies Footprint()
      ensures Valid() && forall n :: n in tree.Elements() ==> n in old(tree.Elements())
      ensures Dropped(old(Entries()), Entries(), lnode, p)
    {
      BucketOf(tnode);
      KeysOf(tree.Elements(), h1, h2);
      ghost var a, z := Around(tree.Elements(), tnode, h1, h2);
      p := Take(tnode, lnode, a, z, Entries());
    }

    method Take(tnode: Node<Bucket<V>>, lnode: Entry<V>, ghost a: seq<Node<Bucket<V>>>, ghost z: seq<Node<Bucket<V>>>,
                ghost es: seq<Entry<V>>) returns (ghost p: nat)
      requires tree.Valid() && tree.Elements() == a + [tnode] + z && Beside(tnode, a + z, h1, h2)
      requires tnode.item.Full(tnode.key, h1, h2) && lnode in tnode.item.items
      requires es == All(a) + tnode.item.items + All(z)
      modifies tree, Elems(tree.shape), tnode.item, tnode.item.items
      ensures Valid() && forall n :: n in tree.Elements() ==> n in old(tree.Elements())
      ensures Dropped(es, Entries(), lnode, p)
    {
      ghost var x, items, y := All(a), tnode.item.items, All(z);
      OthersApart(a, tnode, z);
      ghost var k := DropFrom(tnode, lnode, a + z);
      p := |x| + k;
      ghost var now := x + tnode.item.items + y;
      DroppedWhole(x, items, y, es, tnode.item.items, lnode, k, p);
      Shrink(tnode, a, z, now);
    }

    /**
     hashtable_del.  A handle that points nowhere is looked up; one that points at
     an entry loses that entry if its last operation met one.
     */
    method Del(hi: Handle<V>) returns (ret: int, ghost gone: Entry?<V>, ghost p: nat)
      requires Valid() && Synced(hi)
      modifies hi, Footprint()
      ensures Valid() && Synced(hi)
      ensures ret == HASH_OK || ret == HASH_ENOTFOUND || ret == HASH_EINVAL
      ensures ret == HASH_EINVAL <==> old(hi.data) == []
      ensures ret == HASH_OK <==>
                (old(hi.data) != [] &&
                 if old(hi.lnode) == null then old(hi.data) in old(Contents())
                 else old(hi.ret) in {HASH_OK, HASH_DUP, HASH_ECOLL})
      ensures ret == HASH_OK ==>
                && hi.lnode == null && hi.data == old(hi.data) && gone != null && gone.data == hi.data
                && Dropped(old(Entries()), Entries(), gone, p)
      ensures ret == HASH_OK ==>
                && hi.data in old(Contents()) && hi.arg == old(Contents())[hi.data] && hi.hash == old(hi.hash)
                && hi.ret == (if old(hi.lnode) == null then HASH_OK else old(hi.ret)) && hi.collnode == null
      ensures ret == HASH_EINVAL ==> unchanged(hi)
      ensures ret == HASH_ENOTFOUND && old(hi.lnode) != null ==>
                && hi.lnode == old(hi.lnode) && hi.tnode == old(hi.tnode) && hi.data == old(hi.data)
                && hi.arg == old(hi.arg) && hi.hash == old(hi.hash) && hi.ret == old(hi.ret) && hi.collnode == null
      ensures ret == HASH_ENOTFOUND && old(hi.lnode) == null ==>
                (hi.lnode != null <==> exists e :: e in Entries() && Alone(e, old(hi.hash))) && hi.collnode == null
      ensures ret == HASH_ENOTFOUND && old(hi.lnode) == null ==>
                if hi.lnode == null then
                  && hi.tnode == null && hi.data == old(hi.data) && hi.arg == old(hi.arg)
                  && hi.hash == old(hi.hash) && hi.ret == old(hi.ret)
                else
                  && Attached(hi) && hi.ret == ret && hi.data != old(hi.data) && hi.hash == old(hi.hash)
                  && hi.tnode.item.items == [hi.lnode] && Alone(hi.lnode, hi.hash)
      ensures ret != HASH_OK ==> Entries() == old(Entries())
      ensures Contents() == if ret == HASH_OK then old(Contents()) - {old(hi.data)} else old(Contents())
      ensures forall o :: o in Footprint() ==> o in old(Footprint()) || fresh(o)
    {
      if hi.data == [] {
        return HASH_EINVAL, null, 0;
      }
      Points(hi);
      var data := hi.data;
      var tnode, lnode, last;
      ret, tnode, lnode, last, p := Lose(data, hi.hash, hi.tnode, hi.lnode, hi.ret);
      gone := lnode;
      if ret == HASH_OK {
        Release(hi, lnode, last);
      } else {
        Aim(hi, tnode, lnode, last, null);
      }
    }

    /** The handle of a removed entry points nowhere; the table does not change. */
    method Release(hi: Handle<V>, entry: Entry<V>, last: int)
      requires Valid() && hi.data == entry.data && hi.hash == h1(hi.data)
      modifies hi
      ensures Valid() && Entries() == old(Entries()) && Footprint() == old(Footprint())
      ensures Synced(hi) && hi.lnode == null && hi.tnode == null && hi.collnode == null
      ensures hi.data == old(hi.data) && hi.hash == old(hi.hash) && hi.arg == entry.arg && hi.ret == last
    {
      assert allocated(Elems(tree.shape)) && allocated(Buckets(tree.Elements())) && allocated(Owned(tree.Elements()));
      hi.Forget(entry, last);
    }

    /** The table half of hashtable_del: looks the entry up unless the handle names one, then removes it. */
    method DelEntry(data: Bytes, hash: uint32, tnode0: Node?<Bucket<V>>, lnode0: Entry?<V>, ret0: int)
      returns (ret: int, tnode: Node?<Bucket<V>>, lnode: Entry?<V>, last: int, ghost p: nat)
      requires Valid() && data != [] && hash == h1(data) && (tnode0 == null <==> lnode0 == null)
      requires lnode0 != null ==>
                 tnode0 in tree.Elements() && lnode0 in tnode0.item.items && lnode0.data == data && tnode0.key == hash
      modifies Footprint()
      ensures Valid() && (ret == HASH_OK || ret == HASH_ENOTFOUND)
      ensures ret == HASH_OK <==>
                if lnode0 == null then data in old(Contents()) else ret0 in {HASH_OK, HASH_DUP, HASH_ECOLL}
      ensures ret == HASH_OK ==> lnode != null && lnode.data == data && Dropped(old(Entries()), Entries(), lnode, p)
      ensures ret == HASH_OK ==> data in old(Contents()) && lnode.arg == old(Contents())[data]
      ensures last == if lnode0 != null then ret0 else ret
      ensures ret != HASH_OK ==> Entries() == old(Entries()) && (lnode0 != null ==> tnode == tnode0 && lnode == lnode0)
      ensures ret != HASH_OK && lnode0 == null ==> Missed(data, hash, tnode, lnode)
      ensures ret != HASH_OK && tnode != null ==>
                && tnode in tree.Elements() && tnode.key == hash && tnode.item in Buckets(tree.Elements())
                && (lnode != null ==> lnode in tnode.item.items && h1(lnode.data) == hash)
      ensures Contents() == if ret == HASH_OK then old(Contents()) - {data} else old(Contents())
      ensures forall n :: n in tree.Elements() ==> n in old(tree.Elements())
    {
      Meaning();
      ghost var es := Entries();
      last, tnode, lnode, p := ret0, tnode0, lnode0, 0;
      if lnode == null || tnode == null {
        last, tnode, lnode := FindEntry(data, hash, tnode, lnode);
      } else {
        InBucket(tnode, hash);
        HeldBy(data, lnode);
      }
      if last == HASH_OK || last == HASH_DUP || last == HASH_ECOLL {
        p := RemoveEntry(tnode, lnode);
        DroppedMeaning(es, Entries(), lnode, p, h1, h2);
        ret := HASH_OK;
      } else {
        if tnode != null {
          BucketOf(tnode);
        }
        ret := HASH_ENOTFOUND;
      }
    }

    /** The table gets hold of no other objects. */
    method Lose(data: Bytes, hash: uint32, tnode0: Node?<Bucket<V>>, lnode0: Entry?<V>, ret0: int)
      returns (ret: int, tnode: Node?<Bucket<V>>, lnode: Entry?<V>, last: int, ghost p: nat)
      requires Valid() && data != [] && hash == h1(data) && (tnode0 == null <==> lnode0 == null)
      requires lnode0 != null ==>
                 tnode0 in tree.Elements() && lnode0 in tnode0.item.items && lnode0.data == data && tnode0.key == hash
      modifies Footprint()
      ensures Valid() && (ret == HASH_OK || ret == HASH_ENOTFOUND)
      ensures ret == HASH_OK <==>
                if lnode0 == null then data in old(Contents()) else ret0 in {HASH_OK, HASH_DUP, HASH_ECOLL}
      ensures ret == HASH_OK ==> lnode != null && lnode.data == data && Dropped(old(Entries()), Entries(), lnode, p)
      ensures ret == HASH_OK ==> data in old(Contents()) && lnode.arg == old(Contents())[data]
      ensures last == if lnode0 != null then ret0 else ret
      ensures ret != HASH_OK ==> Entries() == old(Entries()) && (lnode0 != null ==> tnode == tnode0 && lnode == lnode0)
      ensures ret != HASH_OK && lnode0 == null ==> Missed(data, hash, tnode, lnode)
      ensures ret != HASH_OK && tnode != null ==>
                && tnode in tree.Elements() && tnode.key == hash && tnode.item in Buckets(tree.Elements())
                && (lnode != null ==> lnode in tnode.item.items && h1(lnode.data) == hash)
      ensures Contents() == if ret == HASH_OK then old(Contents()) - {data} else old(Contents())
      ensures forall o :: o in Footprint() ==> o in old(Footprint()) || fresh(o)
    {
      Objects();
      ghost var es := Entries();
      ret, tnode, lnode, last, p := DelEntry(data, hash, tnode0, lnode0, ret0);
      Objects();
      if ret == HASH_OK {
        DroppedMembers(es, Entries(), lnode, p);
      }
    }

    // ----- traversal -----

    /** The handle stands at the i-th entry of the table, or past the end. */
    ghost predicate Cursor(hi: Handle<V>, i: nat)
      reads hi, tree, Buckets(tree.Elements())
    {
      true == if i < |Entries()| then Attached(hi) && hi.lnode == Entries()[i] else hi.lnode == null && hi.tnode == null
    }

    /** The entry pair that follows position i; the values of a cursor. */
    ghost predicate At(tnode: Node?<Bucket<V>>, lnode: Entry?<V>, i: nat)
      reads tree, Buckets(tree.Elements())
    {
      true == if i < |Entries()| then
        tnode != null && tnode in tree.Elements() && tnode.item in Buckets(tree.Elements())
        && lnode == Entries()[i] && lnode in tnode.item.items
      else
        tnode == null && lnode == null
    }

    /** What follows position i: the next entry of its bucket, else the first of the next bucket. */
    lemma Position(tnode: Node<Bucket<V>>, lnode: Entry<V>, i: nat) returns (m: nat)
      requires Valid() && At(tnode, lnode, i) && i < |Entries()|
      ensures m < |tree.Elements()| && tree.Elements()[m] == tnode && tnode in Elems(tree.shape)
      ensures lnode.next != null ==>
                i + 1 < |Entries()| && Entries()[i + 1] == lnode.next && lnode.next in tnode.item.items
      ensures lnode.next == null ==>
                if m + 1 == |tree.Elements()| then i + 1 == |Entries()|
                else First(tree.Elements()[m + 1], i + 1)
    {
      Meaning();
      BucketOf(tnode);
      var a, z := Around(tree.Elements(), tnode, h1, h2);
      m := |a|;
      var k := Within(All(a), tnode.item.items, All(z), lnode, i, h1, h2);
      NextInChain(tnode.item.first, tnode.item.items, k);
      if z != [] {
        BucketOf(z[0]);
        assert All(z) == z[0].item.items + All(z[1..]);
      }
    }

    /** The first entry of bucket n is entry i of the table. */
    ghost predicate First(n: Node<Bucket<V>>, i: nat)
      reads tree, Buckets(tree.Elements()), n.item
    {
      && n in tree.Elements() && n.item in Buckets(tree.Elements()) && i < |Entries()|
      && n.item.first == Entries()[i] && Entries()[i] in n.item.items
    }

    /** The step of hashtable_next. */
    method Following(tnode0: Node<Bucket<V>>, lnode0: Entry<V>, ghost i: nat)
      returns (tnode: Node?<Bucket<V>>, lnode: Entry?<V>)
      requires Valid() && At(tnode0, lnode0, i) && i < |Entries()|
      ensures Valid() && Entries() == old(Entries()) && At(tnode, lnode, i + 1)
    {
      ghost var m := Position(tnode0, lnode0, i);
      assert allocated(Elems(tree.shape)) && allocated(Buckets(tree.Elements())) && allocated(Owned(tree.Elements()));
      tnode, lnode := tnode0, lnode0.next;
      if lnode == null {
        tnode := tree.Next(tnode0, m);
        if tnode != null {
          lnode := tnode.item.first;
        }
      }
    }

    method Least() returns (tnode: Node?<Bucket<V>>, lnode: Entry?<V>)
      requires Valid()
      ensures Valid() && Entries() == old(Entries()) && At(tnode, lnode, 0)
    {
      assert allocated(Elems(tree.shape)) && allocated(Buckets(tree.Elements())) && allocated(Owned(tree.Elements()));
      tnode := tree.MinMax(-1);
      lnode := null;
      if tnode != null {
        BucketOf(tnode);
        lnode := tnode.item.first;
      }
    }

    /** hashtable_begin. */
    method Begin(hi: Handle<V>)
      requires Valid()
      modifies hi
      ensures Valid() && Entries() == old(Entries()) && Cursor(hi, 0) && hi.collnode == null
      ensures hi.lnode != null ==> hi.ret == HASH_OK
      ensures hi.lnode == null ==>
                hi.data == old(hi.data) && hi.arg == old(hi.arg) && hi.hash == old(hi.hash) && hi.ret == old(hi.ret)
    {
      var tnode, lnode := Least();
      Aim(hi, tnode, lnode, HASH_OK, null);
    }

    /** hashtable_end. */
    predicate End(hi: Handle<V>)
      reads hi
    {
      hi.lnode == null || hi.tnode == null
    }

    /** hashtable_next. */
    method Next(hi: Handle<V>, ghost i: nat)
      requires Valid() && Cursor(hi, i) && i < |Entries()|
      modifies hi
      ensures Valid() && Entries() == old(Entries()) && Cursor(hi, i + 1) && hi.collnode == null
      ensures hi.lnode != null ==> hi.ret == HASH_OK
      ensures hi.lnode == null ==>
                hi.data == old(hi.data) && hi.arg == old(hi.arg) && hi.hash == old(hi.hash) && hi.ret == old(hi.ret)
    {
      var tnode, lnode := Following(hi.tnode, hi.lnode, i);
      Aim(hi, tnode, lnode, HASH_OK, null);
    }

    /** What the traversal has noted so far. */
    static ghost predicate Noted(seen: seq<(Bytes, V)>, es: seq<Entry<V>>)
      reads es
    {
      true == (|seen| <= |es| && forall i :: 0 <= i < |seen| ==> seen[i] == (es[i].data, es[i].arg))
    }

    static lemma NotedOne(seen: seq<(Bytes, V)>, es: seq<Entry<V>>, x: (Bytes, V))
      requires Noted(seen, es) && |seen| < |es| && x == (es[|seen|].data, es[|seen|].arg)
      ensures Noted(seen + [x], es)
    {
    }

    /** The handle of a cursor carries its entry. */
    lemma Carries(hi: Handle<V>, i: nat)
      requires Cursor(hi, i)
      ensures i < |Entries()| <==> !End(hi)
      ensures i < |Entries()| ==> (hi.data, hi.arg) == (Entries()[i].data, Entries()[i].arg)
    {
    }

    /** HASHTABLE_FOREACH with a body that notes what it sees: every entry once, in table order. */
    method Traverse(hi: Handle<V>) returns (seen: seq<(Bytes, V)>)
      requires Valid()
      modifies hi
      ensures Valid() && Entries() == old(Entries())
      ensures |seen| == |Entries()|
      ensures forall i :: 0 <= i < |seen| ==> seen[i] == (Entries()[i].data, Entries()[i].arg)
    {
      ghost var es := Entries();
      seen := [];
      Begin(hi);
      Carries(hi, 0);
      while !End(hi)
        invariant Valid() && Entries() == es && Cursor(hi, |seen|) && Noted(seen, es)
        invariant |seen| < |es| <==> !End(hi)
        decreases |es| - |seen|
      {
        ghost var i := |seen|;
        Carries(hi, i);
        NotedOne(seen, es, (hi.data, hi.arg));
        seen := seen + [(hi.data, hi.arg)];
        Next(hi, i);
        Carries(hi, i + 1);
      }
    }

    /** One operation on a handle that points nowhere. */
    method Perform(op: Op<V>, hi: Handle<V>) returns (ret: int)
      requires Valid() && Synced(hi) && hi.lnode == null && hi.data == op.data && (op.data != [] ==> hi.arg == op.arg)
      modifies hi, Footprint()
      ensures Valid() && forall o :: o in Footprint() ==> o in old(Footprint()) || fresh(o)
      ensures (ret, Contents()) == Step(old(Contents()), op, h1, h2)
      ensures ret == HASH_OK && !op.Adding? ==> hi.data == op.data && hi.arg == old(Contents())[op.data]
      ensures ret == HASH_OK && op.Adding? ==> hi.data == op.data && hi.arg == op.arg
    {
      match op {
        case Adding(data, arg) =>
          ghost var p;
          ret, p := Add(hi);
        case Deleting(data, _) =>
          ghost var gone, p;
          ret, gone, p := Del(hi);
        case Finding(data, _) =>
          ret := Find(hi);
      }
    }

    method Handled(op: Op<V>) returns (hi: Handle<V>)
      requires Valid()
      ensures fresh(hi) && Synced(hi) && hi.lnode == null && hi.data == op.data && (op.data != [] ==> hi.arg == op.arg)
      ensures Valid() && Entries() == old(Entries()) && Footprint() == old(Footprint())
    {
      assert allocated(Elems(tree.shape)) && allocated(Buckets(tree.Elements())) && allocated(Owned(tree.Elements()));
      hi := new Handle(op.data, op.arg, h1);
    }

    /** One operation, from hash_new to its verdict and hash_getarg. */
    method Serve(op: Op<V>) returns (ret: int, arg: V)
      requires Valid()
      modifies Footprint()
      ensures Valid() && forall o :: o in Footprint() ==> o in old(Footprint()) || fresh(o)
      ensures (ret, Contents()) == Step(old(Contents()), op, h1, h2)
      ensures ret == HASH_OK ==> arg == if op.Adding? then op.arg else old(Contents())[op.data]
    {
      var hi := Handled(op);
      ret := Perform(op, hi);
      arg := hi.arg;
    }
  }

  // ----- whole runs -----

  ghost function Replay<V>(ops: seq<Op<V>>, h1: Hash, h2: Hash): (seq<int>, map<Bytes, V>) {
    if ops == [] then ([], map[])
    else
      var r := Replay(ops[..|ops| - 1], h1, h2);
      var s := Step(r.1, ops[|ops| - 1], h1, h2);
      (r.0 + [s.0], s.1)
  }

  /** What a successful operation leaves in its handle: the value added, deleted or found. */
  ghost predicate Handed<V>(ops: seq<Op<V>>, rets: seq<int>, args: seq<V>, h1: Hash, h2: Hash) {
    true == (
      && |rets| == |args| <= |ops|
      && forall i :: 0 <= i < |rets| && rets[i] == HASH_OK ==>
           if ops[i].Adding? then args[i] == ops[i].arg
           else var m := Replay(ops[..i], h1, h2).1; ops[i].data in m && args[i] == m[ops[i].data])
  }

  lemma HandedOne<V>(ops: seq<Op<V>>, rets: seq<int>, args: seq<V>, ret: int, arg: V, h1: Hash, h2: Hash,
                     op: Op<V>, m: map<Bytes, V>)
    requires Handed(ops, rets, args, h1, h2) && |rets| < |ops|
    requires op == ops[|rets|] && m == Replay(ops[..|rets|], h1, h2).1
    requires ret == HASH_OK ==> if op.Adding? then arg == op.arg else op.data in m && arg == m[op.data]
    ensures Handed(ops, rets + [ret], args + [arg], h1, h2)
  {
  }

  /**
   Any run of operations on a new table answers like the map and hands its values back, and a traversal then
   lists that map in order.
   */
  method Run<V>(h1: Hash, h2: Hash, ops: seq<Op<V>>, hi: Handle<V>)
    returns (rets: seq<int>, args: seq<V>, seen: seq<(Bytes, V)>)
    modifies hi
    ensures rets == Replay(ops, h1, h2).0 && |rets| == |args| == |ops|
    ensures forall i :: 0 <= i < |ops| && rets[i] == HASH_OK && ops[i].Adding? ==> args[i] == ops[i].arg
    ensures forall i :: 0 <= i < |ops| && rets[i] == HASH_OK && !ops[i].Adding? ==>
              var m := Replay(ops[..i], h1, h2).1; ops[i].data in m && args[i] == m[ops[i].data]
    ensures var m := Replay(ops, h1, h2).1;
            && (forall x :: x in seen ==> x.0 in m && m[x.0] == x.1)
            && (forall d :: d in m ==> (d, m[d]) in seen)
    ensures forall i, j :: 0 <= i < j < |seen| ==>
              h1(seen[i].0) < h1(seen[j].0) || (h1(seen[i].0) == h1(seen[j].0) && h2(seen[i].0) < h2(seen[j].0))
  {
    var table := new HashTable(h1, h2);
    rets, args := [], [];
    for i := 0 to |ops|
      invariant table.Valid() && (forall o :: o in table.Footprint() ==> fresh(o)) && table.h1 == h1 && table.h2 == h2
      invariant (rets, table.Contents()) == Replay(ops[..i], h1, h2)
      invariant |rets| == i && Handed(ops, rets, args, h1, h2)
    {
      ghost var m := table.Contents();
      var ret, arg := table.Serve(ops[i]);
      HandedOne(ops, rets, args, ret, arg, h1, h2, ops[i], m);
      rets, args := rets + [ret], args + [arg];
      assert ops[..i + 1][..i] == ops[..i];
    }
    assert ops[..|ops|] == ops;
    table.Meaning();
    seen := table.Traverse(hi);
  }
}
