/**
 The splay tree of tree.h: the top-down splay with its two assembly trees, and
 the operations built on it.

 While the splay runs the nodes are in three places: the tree still below the
 root, the nodes known to be smaller (linked through their right fields, starting
 at the right field of the local header node) and the nodes known to be greater
 (linked through their left fields, starting at the header's left field).  The
 last link of either assembly is stale until SPLAY_ASSEMBLE closes it, so the
 spine predicates come in an open and a closed form.
 */
module SplayTree {

  class Node {
    const key: int
    var left: Node?
    var right: Node?

    constructor (key: int)
      ensures this.key == key && left == null && right == null
    {
      this.key := key;
      left, right := null, null;
    }
  }

  datatype Bin = Tip | Bin(left: Bin, node: Node, right: Bin)

  /** An assembly tree under construction; the last node is the one with the open link. */
  datatype Spine = Nil | Snoc(up: Spine, node: Node, sub: Bin)

  // ----- contents -----

  ghost function Inorder(t: Bin): seq<Node> {
    match t
    case Tip => []
    case Bin(l, n, r) => Inorder(l) + [n] + Inorder(r)
  }

  ghost function Elems(t: Bin): set<Node> {
    match t
    case Tip => {}
    case Bin(l, n, r) => Elems(l) + {n} + Elems(r)
  }

  ghost function SpineElems(s: Spine): set<Node> {
    match s
    case Nil => {}
    case Snoc(up, n, sub) => SpineElems(up) + {n} + Elems(sub)
  }

  /** The smaller nodes in order. */
  ghost function Smaller(s: Spine): seq<Node> {
    match s
    case Nil => []
    case Snoc(up, n, sub) => Smaller(up) + Inorder(sub) + [n]
  }

  /** The greater nodes in order. */
  ghost function Greater(s: Spine): seq<Node> {
    match s
    case Nil => []
    case Snoc(up, n, sub) => [n] + Inorder(sub) + Greater(up)
  }

  ghost function CloseLeft(s: Spine, t: Bin): Bin {
    match s
    case Nil => t
    case Snoc(up, n, sub) => CloseLeft(up, Bin(sub, n, t))
  }

  ghost function CloseRight(s: Spine, t: Bin): Bin {
    match s
    case Nil => t
    case Snoc(up, n, sub) => CloseRight(up, Bin(t, n, sub))
  }

  lemma {:induction false} CloseLeftOrder(s: Spine, t: Bin)
    ensures Inorder(CloseLeft(s, t)) == Smaller(s) + Inorder(t)
    ensures Elems(CloseLeft(s, t)) == SpineElems(s) + Elems(t)
  {
    if s.Snoc? {
      CloseLeftOrder(s.up, Bin(s.sub, s.node, t));
    }
  }

  lemma {:induction false} CloseRightOrder(s: Spine, t: Bin)
    ensures Inorder(CloseRight(s, t)) == Inorder(t) + Greater(s)
    ensures Elems(CloseRight(s, t)) == SpineElems(s) + Elems(t)
  {
    if s.Snoc? {
      CloseRightOrder(s.up, Bin(t, s.node, s.sub));
    }
  }

  ghost predicate Distinct(t: Bin) {
    match t
    case Tip => true
    case Bin(l, n, r) => n !in Elems(l) && n !in Elems(r) && Elems(l) !! Elems(r) && Distinct(l) && Distinct(r)
  }

  ghost predicate SpineDistinct(s: Spine) {
    match s
    case Nil => true
    case Snoc(up, n, sub) =>
      && n !in Elems(sub) && n !in SpineElems(up) && Elems(sub) !! SpineElems(up)
      && Distinct(sub) && SpineDistinct(up)
  }

  /** A rotation keeps the order and the members. */
  lemma Rotated(a: Bin, x: Node, b: Bin, y: Node, c: Bin)
    ensures Inorder(Bin(Bin(a, x, b), y, c)) == Inorder(Bin(a, x, Bin(b, y, c)))
    ensures Elems(Bin(Bin(a, x, b), y, c)) == Elems(Bin(a, x, Bin(b, y, c)))
    ensures Elems(Bin(a, x, Bin(b, y, c))) == Elems(a) + {x} + Elems(b) + {y} + Elems(c)
    ensures Distinct(Bin(Bin(a, x, b), y, c)) <==> Distinct(Bin(a, x, Bin(b, y, c)))
  {
    assert (Inorder(a) + [x] + Inorder(b)) + [y] + Inorder(c) == Inorder(a) + [x] + (Inorder(b) + [y] + Inorder(c));
  }

  ghost predicate Sorted(s: seq<Node>) {
    forall i, j :: 0 <= i < j < |s| ==> s[i].key < s[j].key
  }

  ghost predicate Below(s: seq<Node>, key: int) {
    forall x :: x in s ==> x.key < key
  }

  ghost predicate Above(s: seq<Node>, key: int) {
    forall x :: x in s ==> key < x.key
  }

  /** The order facts of a splay in progress. */
  ghost predicate Split(all: seq<Node>, l: Spine, t: Bin, r: Spine, key: int) {
    true == (t.Bin? && all == Smaller(l) + Inorder(t) + Greater(r) && Below(Smaller(l), key) && Above(Greater(r), key))
  }

  lemma SortedAround(a: seq<Node>, x: Node, z: seq<Node>)
    requires Sorted(a + [x] + z)
    ensures Below(a, x.key) && Above(z, x.key)
  {
    var s := a + [x] + z;
    assert forall i :: 0 <= i < |a| ==> a[i] == s[i] && s[|a|] == x;
    assert forall i :: 0 <= i < |z| ==> z[i] == s[|a| + 1 + i] && s[|a|] == x;
  }

  lemma SortedBetween(a: seq<Node>, x: Node, z: seq<Node>)
    requires Sorted(a + z) && Below(a, x.key) && Above(z, x.key)
    ensures Sorted(a + [x] + z)
    ensures multiset(a + [x] + z) == multiset(a + z) + multiset{x}
  {
    var s, s' := a + z, a + [x] + z;
    forall i, j | 0 <= i < j < |s'|
      ensures s'[i].key < s'[j].key
    {
      assert i < |a| ==> s'[i] == s[i] && s[i] in a;
      assert i > |a| ==> s'[i] == s[i - 1] && s[i - 1] in z;
      assert j < |a| ==> s'[j] == s[j] && s[j] in a;
      assert j > |a| ==> s'[j] == s[j - 1] && s[j - 1] in z;
    }
  }

  lemma SortedParts(a: seq<Node>, x: Node, z: seq<Node>)
    requires Sorted(a + [x] + z)
    ensures Sorted(a) && Sorted(z)
  {
    var s := a + [x] + z;
    assert forall i :: 0 <= i < |a| ==> a[i] == s[i];
    assert forall i :: 0 <= i < |z| ==> z[i] == s[|a| + 1 + i];
  }

  lemma SortedWithout(a: seq<Node>, x: Node, z: seq<Node>)
    requires Sorted(a + [x] + z)
    ensures Sorted(a + z)
    ensures multiset(a + [x] + z) == multiset(a + z) + multiset{x}
  {
    var s := a + [x] + z;
    forall i, j | 0 <= i < j < |a + z|
      ensures (a + z)[i].key < (a + z)[j].key
    {
      assert (a + z)[i] == s[if i < |a| then i else i + 1];
      assert (a + z)[j] == s[if j < |a| then j else j + 1];
    }
  }

  lemma HungBefore(l: Bin, n: Node, r: Bin, x: Node)
    requires Sorted(Inorder(Bin(l, n, r))) && x.key < n.key && Below(Inorder(l), x.key)
    ensures Sorted(Inorder(Bin(l, x, Bin(Tip, n, r))))
    ensures multiset(Inorder(Bin(l, x, Bin(Tip, n, r)))) == multiset(Inorder(Bin(l, n, r))) + multiset{x}
  {
    var a, z := Inorder(l), [n] + Inorder(r);
    SortedAround(a, n, Inorder(r));
    assert Inorder(Bin(l, n, r)) == a + z;
    assert Inorder(Bin(Tip, n, r)) == z;
    SortedBetween(a, x, z);
  }

  lemma HungAfter(l: Bin, n: Node, r: Bin, x: Node)
    requires Sorted(Inorder(Bin(l, n, r))) && x.key > n.key && Above(Inorder(r), x.key)
    ensures Sorted(Inorder(Bin(Bin(l, n, Tip), x, r)))
    ensures multiset(Inorder(Bin(Bin(l, n, Tip), x, r))) == multiset(Inorder(Bin(l, n, r))) + multiset{x}
  {
    var a, z := Inorder(l) + [n], Inorder(r);
    SortedAround(Inorder(l), n, z);
    assert Inorder(Bin(l, n, r)) == a + z;
    assert Inorder(Bin(l, n, Tip)) == a;
    SortedBetween(a, x, z);
  }

  lemma RightIsInside(t: Bin)
    requires t.Bin?
    ensures t.right.Bin? ==> t.right.node in Inorder(t.right) && t.right.node in Inorder(t)
  {
  }

  lemma SplitAround(all: seq<Node>, l: Spine, t: Bin, r: Spine, key: int)
    requires Split(all, l, t, r, key) && Sorted(all)
    ensures all == (Smaller(l) + Inorder(t.left)) + [t.node] + (Inorder(t.right) + Greater(r))
    ensures Below(Smaller(l) + Inorder(t.left), t.node.key) && Above(Inorder(t.right) + Greater(r), t.node.key)
  {
    assert all == (Smaller(l) + Inorder(t.left)) + [t.node] + (Inorder(t.right) + Greater(r));
    SortedAround(Smaller(l) + Inorder(t.left), t.node, Inorder(t.right) + Greater(r));
  }

  lemma RootIn(all: seq<Node>, l: Spine, t: Bin, r: Spine, key: int)
    requires Split(all, l, t, r, key)
    ensures t.node in all
  {
    assert t.node in Inorder(t);
  }

  lemma EndsAtRoot(t: Bin)
    requires t.Bin?
    ensures Inorder(t) != []
    ensures Inorder(t.left) == [] ==> Inorder(t)[0] == t.node
    ensures Inorder(t.right) == [] ==> Inorder(t)[|Inorder(t)| - 1] == t.node
  {
  }

  lemma LinkedLeft(all: seq<Node>, l: Spine, t: Bin, r: Spine, key: int)
    requires Split(all, l, t, r, key) && Sorted(all) && key < t.node.key && t.left.Bin?
    ensures Split(all, l, t.left, Snoc(r, t.node, t.right), key)
  {
    SplitAround(all, l, t, r, key);
    assert Greater(Snoc(r, t.node, t.right)) == [t.node] + (Inorder(t.right) + Greater(r));
  }

  lemma LinkedRight(all: seq<Node>, l: Spine, t: Bin, r: Spine, key: int)
    requires Split(all, l, t, r, key) && Sorted(all) && key > t.node.key && t.right.Bin?
    ensures Split(all, Snoc(l, t.node, t.left), t.right, r, key)
  {
    SplitAround(all, l, t, r, key);
    assert Smaller(Snoc(l, t.node, t.left)) == (Smaller(l) + Inorder(t.left)) + [t.node];
  }

  lemma {:induction false} CloseLeftDistinct(s: Spine, t: Bin)
    requires SpineDistinct(s) && Distinct(t) && SpineElems(s) !! Elems(t)
    ensures Distinct(CloseLeft(s, t))
  {
    if s.Snoc? {
      CloseLeftDistinct(s.up, Bin(s.sub, s.node, t));
    }
  }

  lemma {:induction false} CloseRightDistinct(s: Spine, t: Bin)
    requires SpineDistinct(s) && Distinct(t) && SpineElems(s) !! Elems(t)
    ensures Distinct(CloseRight(s, t))
  {
    if s.Snoc? {
      CloseRightDistinct(s.up, Bin(t, s.node, s.sub));
    }
  }

  ghost function Whole(l: Spine, t: Bin, r: Spine): Bin
    requires t.Bin?
  {
    Bin(CloseLeft(l, t.left), t.node, CloseRight(r, t.right))
  }

  /** The assembled tree holds the sequence and splits it at the key. */
  lemma Assembled(all: seq<Node>, l: Spine, t: Bin, r: Spine, key: int)
    requires Split(all, l, t, r, key) && Sorted(all)
    requires key < t.node.key ==> t.left.Tip?
    requires key > t.node.key ==> t.right.Tip?
    ensures Inorder(Whole(l, t, r)) == all
    ensures Elems(Whole(l, t, r)) == SpineElems(l) + Elems(t) + SpineElems(r)
    ensures key <= t.node.key ==> Below(Inorder(CloseLeft(l, t.left)), key)
    ensures key >= t.node.key ==> Above(Inorder(CloseRight(r, t.right)), key)
  {
    SplitAround(all, l, t, r, key);
    CloseLeftOrder(l, t.left);
    CloseRightOrder(r, t.right);
  }

  /** No node is in two of the three groups, and the header is in none. */
  ghost predicate Apart(header: Node, l: Spine, t: Bin, r: Spine) {
    true == (
      && Distinct(t) && SpineDistinct(l) && SpineDistinct(r)
      && Elems(t) !! SpineElems(l) && Elems(t) !! SpineElems(r) && SpineElems(l) !! SpineElems(r)
      && header !in Elems(t) && header !in SpineElems(l) && header !in SpineElems(r))
  }

  lemma LinkedApart(header: Node, l: Spine, t: Bin, r: Spine)
    requires Apart(header, l, t, r) && t.Bin?
    ensures Apart(header, l, t.left, Snoc(r, t.node, t.right))
    ensures Apart(header, Snoc(l, t.node, t.left), t.right, r)
    ensures t.node != header && t.node !in SpineElems(l) && t.node !in SpineElems(r)
    ensures t.node !in Elems(t.left) && t.node !in Elems(t.right)
    ensures Elems(t.left) !! SpineElems(r) && Elems(t.right) !! SpineElems(r)
    ensures Elems(t.left) !! SpineElems(l) && Elems(t.right) !! SpineElems(l)
    ensures header !in Elems(t.left) && header !in Elems(t.right)
    ensures SpineElems(l) !! SpineElems(r) && header !in SpineElems(l) && header !in SpineElems(r)
  {
  }

  lemma NoneBeyond(s: seq<Node>, all: seq<Node>, key: int)
    requires forall x :: x in s ==> x in all
    requires (Below(s, key) && Above(all, key)) || (Above(s, key) && Below(all, key))
    ensures s == []
  {
    FirstIn(s);
  }

  lemma FirstIn(s: seq<Node>)
    ensures s != [] ==> s[0] in s
  {
  }

  /** With the key outside the range of all, the assembled root is an end of the sequence. */
  lemma AssembledEnd(all: seq<Node>, l: Spine, t: Bin, r: Spine, key: int)
    requires Split(all, l, t, r, key) && Sorted(all) && (Above(all, key) || Below(all, key))
    requires if Above(all, key) then t.left.Tip? else t.right.Tip?
    ensures Inorder(Whole(l, t, r)) == all
    ensures Elems(Whole(l, t, r)) == SpineElems(l) + Elems(t) + SpineElems(r)
    ensures Above(all, key) ==> all[0] == t.node
    ensures !Above(all, key) ==> all[|all| - 1] == t.node
  {
    RootIn(all, l, t, r, key);
    Assembled(all, l, t, r, key);
    var w := Whole(l, t, r);
    EndsAtRoot(w);
    NoneBeyond(if Above(all, key) then Inorder(w.left) else Inorder(w.right), all, key);
  }

  lemma AssembledDistinct(header: Node, l: Spine, t: Bin, r: Spine)
    requires t.Bin? && Apart(header, l, t, r)
    ensures Distinct(Whole(l, t, r))
    ensures t.node !in Elems(CloseLeft(l, t.left)) && t.node !in Elems(CloseRight(r, t.right))
  {
    CloseLeftOrder(l, t.left);
    CloseRightOrder(r, t.right);
    CloseLeftDistinct(l, t.left);
    CloseRightDistinct(r, t.right);
  }

  // ----- links -----

  ghost function Root(t: Bin): Node? {
    if t.Bin? then t.node else null
  }

  ghost predicate Linked(t: Bin)
    reads Elems(t)
  {
    match t
    case Tip => true
    case Bin(l, n, r) => true == (n.left == Root(l) && n.right == Root(r) && Linked(l) && Linked(r))
  }

  /** The assembly of smaller nodes: right links from head to hole. */
  ghost predicate ClosedLeft(s: Spine, hole: Node?, head: Node?)
    reads SpineElems(s)
  {
    match s
    case Nil => head == hole
    case Snoc(up, n, sub) => true == (n.left == Root(sub) && Linked(sub) && n.right == hole && ClosedLeft(up, n, head))
  }

  ghost predicate OpenLeft(s: Spine, head: Node?)
    reads SpineElems(s)
  {
    s.Snoc? ==> true == (s.node.left == Root(s.sub) && Linked(s.sub) && ClosedLeft(s.up, s.node, head))
  }

  ghost predicate ClosedRight(s: Spine, hole: Node?, head: Node?)
    reads SpineElems(s)
  {
    match s
    case Nil => head == hole
    case Snoc(up, n, sub) => true == (n.right == Root(sub) && Linked(sub) && n.left == hole && ClosedRight(up, n, head))
  }

  ghost predicate OpenRight(s: Spine, head: Node?)
    reads SpineElems(s)
  {
    s.Snoc? ==> true == (s.node.right == Root(s.sub) && Linked(s.sub) && ClosedRight(s.up, s.node, head))
  }

  lemma {:induction false} ClosedLeftLinked(s: Spine, t: Bin, head: Node?)
    requires ClosedLeft(s, Root(t), head) && Linked(t)
    ensures Linked(CloseLeft(s, t)) && Root(CloseLeft(s, t)) == head
  {
    if s.Snoc? {
      ClosedLeftLinked(s.up, Bin(s.sub, s.node, t), head);
    }
  }

  lemma {:induction false} ClosedRightLinked(s: Spine, t: Bin, head: Node?)
    requires ClosedRight(s, Root(t), head) && Linked(t)
    ensures Linked(CloseRight(s, t)) && Root(CloseRight(s, t)) == head
  {
    if s.Snoc? {
      ClosedRightLinked(s.up, Bin(t, s.node, s.sub), head);
    }
  }

  ghost function Last(s: Spine, header: Node): Node {
    if s.Nil? then header else s.node
  }

  class Tree {
    var root: Node?
    ghost var shape: Bin

    ghost predicate Valid()
      reads this, Elems(shape)
    {
      Tidy() && Sorted(Elements())
    }

    ghost predicate Tidy()
      reads this, Elems(shape)
    {
      true == (root == Root(shape) && Linked(shape) && Distinct(shape))
    }

    ghost function Elements(): seq<Node>
      reads this
    {
      Inorder(shape)
    }

    /** The three groups of nodes during a splay, header being the local node of the splay. */
    ghost predicate Parts(header: Node, l: Spine, t: Bin, r: Spine)
      reads this, header, SpineElems(l), Elems(t), SpineElems(r)
    {
      true == (
        && root == Root(t) && Linked(t) && OpenLeft(l, header.right) && OpenRight(r, header.left)
        && Apart(header, l, t, r))
    }

    constructor ()
      ensures Valid() && Elements() == []
    {
      root := null;
      shape := Tip;
    }

    /** SPLAY_ROTATE_RIGHT, field by field. */
    method RotateRightLinks(tmp: Node)
      requires root != null && root.left == tmp && tmp != root
      modifies this, root, tmp
      ensures shape == old(shape) && root == tmp
      ensures tmp.right == old(root) && tmp.left == old(tmp.left)
      ensures old(root).left == old(tmp.right) && old(root).right == old(root.right)
    {
      root.left := tmp.right;
      tmp.right := root;
      root := tmp;
    }

    /** SPLAY_ROTATE_RIGHT on the shape. */
    method RotateRight(tmp: Node, ghost header: Node, ghost l: Spine, ghost t: Bin, ghost r: Spine)
      requires Parts(header, l, t, r) && t.Bin? && t.left.Bin? && t.left.node == tmp
      modifies this, Elems(t)
      ensures shape == old(shape)
      ensures Parts(header, l, Bin(t.left.left, tmp, Bin(t.left.right, t.node, t.right)), r)
    {
      Rotated(t.left.left, tmp, t.left.right, t.node, t.right);
      assert Linked(t.left) && Distinct(t.left);
      assert allocated(Elems(t)) && allocated(SpineElems(l)) && allocated(SpineElems(r));
      RotateRightLinks(tmp);
      assert OpenLeft(l, header.right) && OpenRight(r, header.left);
      assert Linked(t.left.left) && Linked(Bin(t.left.right, t.node, t.right));
    }

    /** SPLAY_ROTATE_LEFT, field by field. */
    method RotateLeftLinks(tmp: Node)
      requires root != null && root.right == tmp && tmp != root
      modifies this, root, tmp
      ensures shape == old(shape) && root == tmp
      ensures tmp.left == old(root) && tmp.right == old(tmp.right)
      ensures old(root).right == old(tmp.left) && old(root).left == old(root.left)
    {
      root.right := tmp.left;
      tmp.left := root;
      root := tmp;
    }

    /** SPLAY_ROTATE_LEFT on the shape. */
    method RotateLeft(tmp: Node, ghost header: Node, ghost l: Spine, ghost t: Bin, ghost r: Spine)
      requires Parts(header, l, t, r) && t.Bin? && t.right.Bin? && t.right.node == tmp
      modifies this, Elems(t)
      ensures shape == old(shape)
      ensures Parts(header, l, Bin(Bin(t.left, t.node, t.right.left), tmp, t.right.right), r)
    {
      Rotated(t.left, t.node, t.right.left, tmp, t.right.right);
      assert Linked(t.right) && Distinct(t.right);
      assert allocated(Elems(t)) && allocated(SpineElems(l)) && allocated(SpineElems(r));
      RotateLeftLinks(tmp);
      assert OpenLeft(l, header.right) && OpenRight(r, header.left);
      assert Linked(t.right.right) && Linked(Bin(t.left, t.node, t.right.left));
    }

    /** SPLAY_RIGHT(left) = hole: the assembly of smaller nodes is closed. */
    method SetRight(left: Node, hole: Node?, header: Node, ghost l: Spine)
      requires OpenLeft(l, header.right) && SpineDistinct(l) && left == Last(l, header) && header !in SpineElems(l)
      modifies header, SpineElems(l)
      ensures ClosedLeft(l, hole, header.right) && header.left == old(header.left)
    {
      assert l.Snoc? ==> Linked(l.sub) && ClosedLeft(l.up, l.node, header.right);
      left.right := hole;
      assert l.Snoc? ==> Linked(l.sub) && ClosedLeft(l.up, l.node, header.right);
    }

    /** SPLAY_LEFT(right) = hole: the assembly of greater nodes is closed. */
    method SetLeft(right: Node, hole: Node?, header: Node, ghost r: Spine)
      requires OpenRight(r, header.left) && SpineDistinct(r) && right == Last(r, header) && header !in SpineElems(r)
      modifies header, SpineElems(r)
      ensures ClosedRight(r, hole, header.left) && header.right == old(header.right)
    {
      assert r.Snoc? ==> Linked(r.sub) && ClosedRight(r.up, r.node, header.left);
      right.left := hole;
      assert r.Snoc? ==> Linked(r.sub) && ClosedRight(r.up, r.node, header.left);
    }

    /** SPLAY_LINKLEFT: the root and its right subtree join the greater nodes. */
    method LinkLeft(right: Node, header: Node, ghost l: Spine, ghost t: Bin, ghost r: Spine) returns (tmp: Node)
      requires Parts(header, l, t, r) && t.Bin? && right == Last(r, header)
      modifies this, header, SpineElems(r)
      ensures shape == old(shape)
      ensures tmp == t.node && Parts(header, l, t.left, Snoc(r, t.node, t.right))
    {
      LinkedApart(header, l, t, r);
      assert Linked(t.left) && Linked(t.right);
      assert allocated(Elems(t)) && allocated(SpineElems(l));
      SetLeft(right, root, header, r);
      tmp := root;
      root := root.left;
      assert Linked(t.left) && Linked(t.right) && OpenLeft(l, header.right);
    }

    /** SPLAY_LINKRIGHT: the root and its left subtree join the smaller nodes. */
    method LinkRight(left: Node, header: Node, ghost l: Spine, ghost t: Bin, ghost r: Spine) returns (tmp: Node)
      requires Parts(header, l, t, r) && t.Bin? && left == Last(l, header)
      modifies this, header, SpineElems(l)
      ensures shape == old(shape)
      ensures tmp == t.node && Parts(header, Snoc(l, t.node, t.left), t.right, r)
    {
      LinkedApart(header, l, t, r);
      assert Linked(t.left) && Linked(t.right);
      assert allocated(Elems(t)) && allocated(SpineElems(r));
      SetRight(left, root, header, l);
      tmp := root;
      root := root.right;
      assert Linked(t.left) && Linked(t.right) && OpenRight(r, header.left);
    }

    lemma RootLinks(header: Node, l: Spine, t: Bin, r: Spine)
      requires Parts(header, l, t, r) && t.Bin?
      ensures root == t.node && root.left == Root(t.left) && root.right == Root(t.right)
      ensures Elems(t.left) < Elems(t) && Elems(t.right) < Elems(t)
    {
      assert t.node in Elems(t);
    }

    /** A rotation in a turn of the splay: the left child becomes the root. */
    method RaiseLeft(tmp: Node, ghost header: Node, ghost key: int, ghost all: seq<Node>, ghost l: Spine, ghost t: Bin,
                     ghost r: Spine) returns (ghost t': Bin)
      requires Parts(header, l, t, r) && Split(all, l, t, r, key) && t.left.Bin? && t.left.node == tmp
      modifies this, Elems(t)
      ensures shape == old(shape) && t' == Bin(t.left.left, tmp, Bin(t.left.right, t.node, t.right))
      ensures Elems(t') == Elems(t) && Parts(header, l, t', r) && Split(all, l, t', r, key)
    {
      Rotated(t.left.left, tmp, t.left.right, t.node, t.right);
      RotateRight(tmp, header, l, t, r);
      t' := Bin(t.left.left, tmp, Bin(t.left.right, t.node, t.right));
    }

    /** The mirror image. */
    method RaiseRight(tmp: Node, ghost header: Node, ghost key: int, ghost all: seq<Node>, ghost l: Spine, ghost t: Bin,
                      ghost r: Spine) returns (ghost t': Bin)
      requires Parts(header, l, t, r) && Split(all, l, t, r, key) && t.right.Bin? && t.right.node == tmp
      modifies this, Elems(t)
      ensures shape == old(shape) && t' == Bin(Bin(t.left, t.node, t.right.left), tmp, t.right.right)
      ensures Elems(t') == Elems(t) && Parts(header, l, t', r) && Split(all, l, t', r, key)
    {
      Rotated(t.left, t.node, t.right.left, tmp, t.right.right);
      RotateLeft(tmp, header, l, t, r);
      t' := Bin(Bin(t.left, t.node, t.right.left), tmp, t.right.right);
    }

    /** The zig-zig rotation, when the key lies beyond the left child too. */
    method ZigLeft(key: int, tmp: Node, ghost header: Node, ghost all: seq<Node>, ghost l: Spine, ghost t: Bin,
                   ghost r: Spine)
      returns (ghost t': Bin)
      requires Parts(header, l, t, r) && Split(all, l, t, r, key)
      requires key < t.node.key && t.left.Bin? && t.left.node == tmp
      modifies this, Elems(t)
      ensures shape == old(shape) && Elems(t') == Elems(t)
      ensures Parts(header, l, t', r) && Split(all, l, t', r, key) && key < t'.node.key
    {
      t' := t;
      if key < tmp.key {
        t' := RaiseLeft(tmp, header, key, all, l, t, r);
      }
    }

    /** One turn of the splay loop with the key on the left of the root. */
    method TurnLeft(key: int, side0: Node, header: Node, ghost all: seq<Node>, ghost l: Spine, ghost t: Bin,
                    ghost r: Spine)
      returns (done: bool, side: Node, ghost t': Bin, ghost r': Spine)
      requires Parts(header, l, t, r) && Split(all, l, t, r, key) && Sorted(all)
      requires key < t.node.key && side0 == Last(r, header)
      modifies this, header, Elems(t), SpineElems(r)
      ensures shape == old(shape)
      ensures Parts(header, l, t', r') && Split(all, l, t', r', key)
      ensures side == Last(r', header)
      ensures Elems(t') + SpineElems(r') == Elems(t) + SpineElems(r)
      ensures done ==> t'.left.Tip? && key < t'.node.key
      ensures !done ==> Elems(t') < Elems(t)
    {
      side := side0;
      t', r' := t, r;
      var tmp := root.left;
      if tmp == null {
        return true, side, t', r';
      }
      t' := ZigLeft(key, tmp, header, all, l, t, r);
      RootLinks(header, l, t', r);
      if root.left == null {
        return true, side, t', r';
      }
      LinkedLeft(all, l, t', r, key);
      side := LinkLeft(side, header, l, t', r);
      done := false;
      r', t' := Snoc(r, t'.node, t'.right), t'.left;
    }

    /** The zig-zig rotation, when the key lies beyond the right child too. */
    method ZigRight(key: int, tmp: Node, ghost header: Node, ghost all: seq<Node>, ghost l: Spine,
                    ghost t: Bin, ghost r: Spine)
      returns (ghost t': Bin)
      requires Parts(header, l, t, r) && Split(all, l, t, r, key)
      requires key > t.node.key && t.right.Bin? && t.right.node == tmp
      modifies this, Elems(t)
      ensures shape == old(shape) && Elems(t') == Elems(t)
      ensures Parts(header, l, t', r) && Split(all, l, t', r, key) && key > t'.node.key
    {
      t' := t;
      if key > tmp.key {
        t' := RaiseRight(tmp, header, key, all, l, t, r);
      }
    }

    /** One turn of the splay loop with the key on the right of the root. */
    method TurnRight(key: int, side0: Node, header: Node, ghost all: seq<Node>, ghost l: Spine, ghost t: Bin,
                     ghost r: Spine)
      returns (done: bool, side: Node, ghost t': Bin, ghost l': Spine)
      requires Parts(header, l, t, r) && Split(all, l, t, r, key) && Sorted(all)
      requires key > t.node.key && side0 == Last(l, header)
      modifies this, header, Elems(t), SpineElems(l)
      ensures shape == old(shape)
      ensures Parts(header, l', t', r) && Split(all, l', t', r, key)
      ensures side == Last(l', header)
      ensures Elems(t') + SpineElems(l') == Elems(t) + SpineElems(l)
      ensures done ==> t'.right.Tip? && key > t'.node.key
      ensures !done ==> Elems(t') < Elems(t)
    {
      side := side0;
      t', l' := t, l;
      var tmp := root.right;
      if tmp == null {
        return true, side, t', l';
      }
      t' := ZigRight(key, tmp, header, all, l, t, r);
      RootLinks(header, l, t', r);
      if root.right == null {
        return true, side, t', l';
      }
      LinkedRight(all, l, t', r, key);
      side := LinkRight(side, header, l, t', r);
      done := false;
      l', t' := Snoc(l, t'.node, t'.left), t'.right;
    }

    /** Between two turns of a splay loop: nothing of the whole is lost. */
    ghost predicate Sifting(header: Node, left: Node, right: Node, l: Spine, t: Bin, r: Spine, all: seq<Node>, key: int,
                            whole: set<Node>)
      reads this, header, SpineElems(l), Elems(t), SpineElems(r)
    {
      true == (
        && Parts(header, l, t, r) && Split(all, l, t, r, key)
        && SpineElems(l) + Elems(t) + SpineElems(r) == whole
        && left == Last(l, header) && right == Last(r, header))
    }

    /** The loop of the splay: stops when the root is the key or has nothing on the key's side. */
    method Sift(key: int, header: Node)
      returns (left: Node, right: Node, ghost l: Spine, ghost t: Bin, ghost r: Spine)
      requires Valid() && root != null && header !in Elems(shape)
      modifies this, header, Elems(shape)
      ensures shape == old(shape) && Parts(header, l, t, r) && Split(Inorder(shape), l, t, r, key)
      ensures SpineElems(l) + Elems(t) + SpineElems(r) == Elems(shape)
      ensures left == Last(l, header) && right == Last(r, header)
      ensures key < t.node.key ==> t.left.Tip?
      ensures key > t.node.key ==> t.right.Tip?
    {
      left, right := header, header;
      ghost var all := Inorder(shape);
      l, t, r := Nil, shape, Nil;
      while key != root.key
        invariant root != null && shape == old(shape) && Sifting(header, left, right, l, t, r, all, key, Elems(shape))
        decreases Elems(t)
      {
        RootLinks(header, l, t, r);
        var done;
        if key < root.key {
          done, right, t, r := TurnLeft(key, right, header, all, l, t, r);
        } else {
          done, left, t, l := TurnRight(key, left, header, all, l, t, r);
        }
        RootLinks(header, l, t, r);
        if done {
          return;
        }
      }
      RootLinks(header, l, t, r);
    }

    /** The splay proper: the order stays, the root becomes the key or a neighbour of it. */
    method Splay(key: int)
      requires Valid() && root != null
      modifies this, Elems(shape)
      ensures Valid() && root != null && Elements() == old(Elements()) && Elems(shape) == old(Elems(shape))
      ensures shape.Bin?
      ensures key <= root.key ==> Below(Inorder(shape.left), key)
      ensures key >= root.key ==> Above(Inorder(shape.right), key)
      ensures root.key == key <==> exists x :: x in Elements() && x.key == key
    {
      assert allocated(Elems(shape));
      var header := new Node(key);
      ghost var l, t, r;
      ghost var all := Inorder(shape);
      var left, right;
      left, right, l, t, r := Sift(key, header);
      Assemble(header, left, right, l, t, r);
      Assembled(all, l, t, r, key);
      RootOnly(key);
    }

    /** The first half of SPLAY_ASSEMBLE: both assemblies are closed. */
    method CloseSpines(header: Node, left: Node, right: Node, ghost l: Spine, ghost t: Bin, ghost r: Spine)
      requires Parts(header, l, t, r) && t.Bin? && left == Last(l, header) && right == Last(r, header)
      modifies header, SpineElems(l), SpineElems(r)
      ensures ClosedLeft(l, Root(t.left), header.right) && ClosedRight(r, Root(t.right), header.left)
    {
      assert allocated(SpineElems(l)) && allocated(SpineElems(r));
      SetRight(left, root.left, header, l);
      assert OpenRight(r, header.left);
      SetLeft(right, root.right, header, r);
    }

    /** SPLAY_ASSEMBLE. */
    method Assemble(header: Node, left: Node, right: Node, ghost l: Spine, ghost t: Bin, ghost r: Spine)
      requires Parts(header, l, t, r) && t.Bin? && left == Last(l, header) && right == Last(r, header)
      modifies this, header, SpineElems(l), Elems(t), SpineElems(r)
      ensures shape == Whole(l, t, r) && Tidy()
    {
      assert allocated(Elems(t)) && allocated(SpineElems(l)) && allocated(SpineElems(r));
      assert t.node in Elems(t) && Linked(t.left) && Linked(t.right);
      CloseSpines(header, left, right, l, t, r);
      assert Linked(t.left) && Linked(t.right);
      ghost var cl, cr := CloseLeft(l, t.left), CloseRight(r, t.right);
      ClosedLeftLinked(l, t.left, header.right);
      ClosedRightLinked(r, t.right, header.left);
      AssembledDistinct(header, l, t, r);
      Hang(header, cl, t.node, cr);
    }

    /** The second half of SPLAY_ASSEMBLE: the closed assemblies become the subtrees of the root. */
    method Hang(header: Node, ghost cl: Bin, ghost n: Node, ghost cr: Bin)
      requires root == n && Linked(cl) && Linked(cr) && header.right == Root(cl) && header.left == Root(cr)
      requires Distinct(Bin(cl, n, cr)) && header != n
      modifies this, n
      ensures shape == Bin(cl, n, cr) && Tidy()
    {
      root.left := header.right;
      root.right := header.left;
      shape := Bin(cl, n, cr);
    }

    // ----- operations built on the splay -----

    /** SPLAY_FIND. */
    method Find(key: int) returns (res: Node?)
      requires Valid()
      modifies this, Elems(shape)
      ensures Valid() && Elements() == old(Elements())
      ensures res != null ==> res in Elements() && res.key == key && root == res
      ensures res == null ==> forall x :: x in Elements() ==> x.key != key
    {
      if root == null {
        return null;
      }
      Splay(key);
      RootOnly(key);
      res := if key == root.key then root else null;
    }

    /** After a splay only the root can hold the key. */
    lemma RootOnly(key: int)
      requires Valid() && shape.Bin?
      requires key <= root.key ==> Below(Inorder(shape.left), key)
      requires key >= root.key ==> Above(Inorder(shape.right), key)
      ensures root in Elements()
      ensures forall x :: x in Elements() && x.key == key ==> x == root
      ensures Below(Inorder(shape.left), root.key) && Above(Inorder(shape.right), root.key)
    {
      SortedAround(Inorder(shape.left), root, Inorder(shape.right));
    }

    /** The links of SPLAY_INSERT below a root greater than elm. */
    method HangBeforeLinks(elm: Node, ghost l: Bin, ghost n: Node, ghost r: Bin)
      requires Tidy() && shape == Bin(l, n, r) && elm !in Elems(shape)
      modifies this, n, elm
      ensures Tidy() && shape == Bin(l, elm, Bin(Tip, n, r))
    {
      assert Linked(l) && Linked(r);
      elm.left := root.left;
      elm.right := root;
      root.left := null;
      root := elm;
      assert Linked(l) && Linked(r) && Linked(Bin(Tip, n, r));
      shape := Bin(l, elm, Bin(Tip, n, r));
      assert Elems(Bin(Tip, n, r)) == {n} + Elems(r) && Distinct(Bin(Tip, n, r));
      assert Linked(shape) && Distinct(shape);
    }

    /** The branch of SPLAY_INSERT for a root greater than elm. */
    method HangBefore(elm: Node)
      requires Valid() && shape.Bin? && elm !in Elems(shape) && elm.key < root.key
      requires Below(Inorder(shape.left), elm.key)
      modifies this, Elems(shape), elm
      ensures Valid() && root == elm && multiset(Elements()) == multiset(old(Elements())) + multiset{elm}
    {
      ghost var l, n, r := shape.left, shape.node, shape.right;
      assert n in Elems(shape);
      HungBefore(l, n, r, elm);
      HangBeforeLinks(elm, l, n, r);
    }

    /** The links of SPLAY_INSERT below a root smaller than elm. */
    method HangAfterLinks(elm: Node, ghost l: Bin, ghost n: Node, ghost r: Bin)
      requires Tidy() && shape == Bin(l, n, r) && elm !in Elems(shape)
      modifies this, n, elm
      ensures Tidy() && shape == Bin(Bin(l, n, Tip), elm, r)
    {
      assert Linked(l) && Linked(r);
      elm.right := root.right;
      elm.left := root;
      root.right := null;
      root := elm;
      assert Linked(l) && Linked(r) && Linked(Bin(l, n, Tip));
      shape := Bin(Bin(l, n, Tip), elm, r);
      assert Elems(Bin(l, n, Tip)) == Elems(l) + {n} && Distinct(Bin(l, n, Tip));
      assert Linked(shape) && Distinct(shape);
    }

    /** The branch of SPLAY_INSERT for a root smaller than elm. */
    method HangAfter(elm: Node)
      requires Valid() && shape.Bin? && elm !in Elems(shape) && elm.key > root.key
      requires Above(Inorder(shape.right), elm.key)
      modifies this, Elems(shape), elm
      ensures Valid() && root == elm && multiset(Elements()) == multiset(old(Elements())) + multiset{elm}
    {
      ghost var l, n, r := shape.left, shape.node, shape.right;
      assert n in Elems(shape);
      HungAfter(l, n, r, elm);
      HangAfterLinks(elm, l, n, r);
    }

    /** SPLAY_INSERT: set insertion, or the member of equal key when there is one. */
    method Insert(elm: Node) returns (res: Node?)
      requires Valid() && elm !in Elems(shape)
      modifies this, Elems(shape), elm
      ensures Valid() && root == if res != null then res else elm
      ensures res != null ==> res in old(Elements()) && res.key == elm.key && Elements() == old(Elements())
      ensures res == null ==> forall x :: x in old(Elements()) ==> x.key != elm.key
      ensures res == null ==> multiset(Elements()) == multiset(old(Elements())) + multiset{elm}
    {
      if root == null {
        elm.left, elm.right := null, null;
        root := elm;
        shape := Bin(Tip, elm, Tip);
        return null;
      }
      assert allocated(Elems(shape));
      Splay(elm.key);
      RootOnly(elm.key);
      if elm.key < root.key {
        HangBefore(elm);
      } else if elm.key > root.key {
        HangAfter(elm);
      } else {
        return root;
      }
      return null;
    }

    /** The root has the greatest of the smaller keys, if there is one. */
    ghost predicate Foremost(key: int)
      reads this
    {
      forall x :: x in Elements() && x.key < key ==> root != null && x.key <= root.key < key
    }

    lemma LastIsRoot(a: seq<Node>, b: seq<Node>, key: int)
      requires Elements() == a + b && Sorted(a) && Below(a, key) && Above(b, key)
      requires a != [] ==> root == a[|a| - 1]
      ensures Foremost(key)
    {
      forall x | x in Elements() && x.key < key ensures root != null && x.key <= root.key < key {
        assert x in a;
        var i :| 0 <= i < |a| && a[i] == x;
        assert i < |a| - 1 ==> a[i].key < a[|a| - 1].key;
        assert a[|a| - 1] in a;
      }
    }

    /** SPLAY_REMOVE: set deletion of the key; elm itself is handed back when the key was there. */
    method Remove(elm: Node) returns (res: Node?)
      requires Valid()
      modifies this, Elems(shape)
      ensures Valid()
      ensures res == null ==> Elements() == old(Elements()) && forall x :: x in Elements() ==> x.key != elm.key
      ensures res != null ==>
                && res == elm
                && exists x :: x in old(Elements()) && x.key == elm.key
                               && multiset(old(Elements())) == multiset(Elements()) + multiset{x}
      ensures res != null ==> Foremost(elm.key)
    {
      if root == null {
        return null;
      }
      Splay(elm.key);
      RootOnly(elm.key);
      if elm.key != root.key {
        return null;
      }
      DropRoot(elm.key);
      return elm;
    }

    /** The part of SPLAY_REMOVE below the comparison: the root goes. */
    method DropRoot(key: int)
      requires Valid() && shape.Bin? && root.key == key
      modifies this, Elems(shape)
      ensures Valid() && Foremost(key)
      ensures multiset(old(Elements())) == multiset(Elements()) + multiset{old(root)}
    {
      ghost var l, r := shape.left, shape.right;
      SortedAround(Inorder(l), root, Inorder(r));
      SortedParts(Inorder(l), root, Inorder(r));
      SortedWithout(Inorder(l), root, Inorder(r));
      if root.left == null {
        TakeRight(r);
      } else {
        JoinSubtrees(key, l, r);
      }
      LastIsRoot(Inorder(l), Inorder(r), key);
    }

    /** The right subtree becomes the tree. */
    method TakeRight(ghost r: Bin)
      requires Tidy() && shape.Bin? && shape.left == Tip && shape.right == r && Sorted(Inorder(r))
      modifies this
      ensures Valid() && Elements() == [] + Inorder(r)
    {
      assert Linked(r) && Distinct(r) && root.right == Root(r);
      root := root.right;
      shape := r;
    }

    /** The branch of SPLAY_REMOVE for a root with a left subtree. */
    method JoinSubtrees(key: int, ghost l: Bin, ghost r: Bin)
      requires Tidy() && shape.Bin? && shape.left == l && shape.right == r && l.Bin?
      requires Sorted(Inorder(l)) && Sorted(Inorder(l) + Inorder(r)) && Below(Inorder(l), key)
      modifies this, Elems(l)
      ensures Valid() && Elements() == Inorder(l) + Inorder(r)
      ensures Inorder(l) != [] && root == Inorder(l)[|Inorder(l)| - 1]
    {
      assert Linked(l) && Linked(r) && Distinct(l) && Distinct(r);
      assert allocated(Elems(r));
      var tmp := root.right;
      root := root.left;
      shape := l;
      // every key of l is smaller, so the splay brings the greatest of them to the root
      Splay(key);
      RootOnly(key);
      JoinRight(tmp, r, key);
    }

    /** SPLAY_RIGHT(root) = tmp, after the greatest node has been brought to the root. */
    method JoinRight(tmp: Node?, ghost r: Bin, key: int)
      requires Valid() && shape.Bin? && Below(Elements(), key) && Above(Inorder(shape.right), key)
      requires Linked(r) && Distinct(r) && tmp == Root(r) && Elems(r) !! Elems(shape)
      requires Sorted(Elements() + Inorder(r))
      modifies this, Elems(shape)
      ensures Valid() && Elements() == old(Elements()) + Inorder(r)
      ensures old(Elements()) != [] && root == old(Elements()[|Elements()| - 1])
    {
      RightIsInside(shape);
      ghost var l := shape.left;
      assert root in Elems(shape) && Linked(l);
      root.right := tmp;
      assert Linked(l) && Linked(r);
      shape := Bin(l, root, r);
      assert Inorder(Bin(l, root, Tip)) == Inorder(l) + [root];
    }

    /** One turn of the SPLAY_MINMAX loop towards the left, key standing for the end of the order. */
    method MinTurn(side0: Node, header: Node, ghost key: int, ghost all: seq<Node>, ghost l: Spine,
                   ghost t: Bin, ghost r: Spine)
      returns (done: bool, side: Node, ghost t': Bin, ghost r': Spine)
      requires Parts(header, l, t, r) && Split(all, l, t, r, key) && Sorted(all) && Above(all, key)
      requires side0 == Last(r, header)
      modifies this, header, Elems(t), SpineElems(r)
      ensures shape == old(shape)
      ensures Parts(header, l, t', r') && Split(all, l, t', r', key)
      ensures side == Last(r', header)
      ensures Elems(t') + SpineElems(r') == Elems(t) + SpineElems(r)
      ensures done ==> t'.left.Tip?
      ensures !done ==> Elems(t') < Elems(t)
    {
      side := side0;
      t', r' := t, r;
      RootLinks(header, l, t, r);
      RootIn(all, l, t, r, key);
      var tmp := root.left;
      if tmp == null {
        return true, side, t', r';
      }
      t' := RaiseLeft(tmp, header, key, all, l, t, r);
      RootLinks(header, l, t', r);
      RootIn(all, l, t', r, key);
      if root.left == null {
        return true, side, t', r';
      }
      LinkedLeft(all, l, t', r, key);
      side := LinkLeft(side, header, l, t', r);
      done := false;
      r', t' := Snoc(r, t'.node, t'.right), t'.left;
    }

    /** One turn of the SPLAY_MINMAX loop towards the right, key standing for the end of the order. */
    method MaxTurn(side0: Node, header: Node, ghost key: int, ghost all: seq<Node>, ghost l: Spine,
                   ghost t: Bin, ghost r: Spine)
      returns (done: bool, side: Node, ghost t': Bin, ghost l': Spine)
      requires Parts(header, l, t, r) && Split(all, l, t, r, key) && Sorted(all) && Below(all, key)
      requires side0 == Last(l, header)
      modifies this, header, Elems(t), SpineElems(l)
      ensures shape == old(shape)
      ensures Parts(header, l', t', r) && Split(all, l', t', r, key)
      ensures side == Last(l', header)
      ensures Elems(t') + SpineElems(l') == Elems(t) + SpineElems(l)
      ensures done ==> t'.right.Tip?
      ensures !done ==> Elems(t') < Elems(t)
    {
      side := side0;
      t', l' := t, l;
      RootLinks(header, l, t, r);
      RootIn(all, l, t, r, key);
      var tmp := root.right;
      if tmp == null {
        return true, side, t', l';
      }
      t' := RaiseRight(tmp, header, key, all, l, t, r);
      RootLinks(header, l, t', r);
      RootIn(all, l, t', r, key);
      if root.right == null {
        return true, side, t', l';
      }
      LinkedRight(all, l, t', r, key);
      side := LinkRight(side, header, l, t', r);
      done := false;
      l', t' := Snoc(l, t'.node, t'.left), t'.right;
    }

    /** The loop of SPLAY_MINMAX. */
    method SiftEnd(comp: int, header: Node, ghost key: int)
      returns (left: Node, right: Node, ghost l: Spine, ghost t: Bin, ghost r: Spine)
      requires Valid() && root != null && comp != 0 && header !in Elems(shape)
      requires if comp < 0 then Above(Elements(), key) else Below(Elements(), key)
      modifies this, header, Elems(shape)
      ensures shape == old(shape) && Parts(header, l, t, r) && Split(Inorder(shape), l, t, r, key)
      ensures SpineElems(l) + Elems(t) + SpineElems(r) == Elems(shape)
      ensures left == Last(l, header) && right == Last(r, header)
      ensures if comp < 0 then t.left.Tip? else t.right.Tip?
    {
      ghost var all := Inorder(shape);
      l, t, r := Nil, shape, Nil;
      left, right := header, header;
      var done := false;
      while !done
        invariant shape == old(shape) && Sifting(header, left, right, l, t, r, all, key, Elems(shape))
        invariant done ==> if comp < 0 then t.left.Tip? else t.right.Tip?
        decreases !done, Elems(t)
      {
        if comp < 0 {
          done, right, t, r := MinTurn(right, header, key, all, l, t, r);
        } else {
          done, left, t, l := MaxTurn(left, header, key, all, l, t, r);
        }
      }
    }

    /** SPLAY_MINMAX: the least or the greatest member becomes the root; comp is never 0. */
    method MinMax(comp: int)
      requires Valid() && root != null && comp != 0
      modifies this, Elems(shape)
      ensures Valid() && root != null && Elements() == old(Elements())
      ensures Elements() != [] && root == if comp < 0 then Elements()[0] else Elements()[|Elements()| - 1]
    {
      assert allocated(Elems(shape));
      ghost var all := Elements();
      ghost var key := if comp < 0 then all[0].key - 1 else all[|all| - 1].key + 1;
      assert if comp < 0 then Above(all, key) else Below(all, key);
      var header := new Node(0);
      ghost var l, t, r;
      var left, right;
      left, right, l, t, r := SiftEnd(comp, header, key);
      RootIn(all, l, t, r, key);
      Assemble(header, left, right, l, t, r);
      AssembledEnd(all, l, t, r, key);
    }
  }
}
