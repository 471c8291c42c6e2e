/**
 The red-black tree of missing/sys/tree.h on the heap: nodes with left, right and
 parent links and a colour, as RB_GENERATE would make it for integer keys.

 State(p, t) says that the links spell out shape t in the hole of path p.  Every
 method that relinks or paints states the pair it turns one such state into; what
 that does to order and colours is the business of the lemmas in RbShape.
 */
module RbTree {
  import opened RbShape
  import opened Numbers

  class Node<T> {
    const key: int
    const item: T
    var left: Node?<T>
    var right: Node?<T>
    var parent: Node?<T>
    var color: Color

    constructor (key: int, item: T)
      ensures this.key == key && this.item == item
    {
      this.key, this.item := key, item;
      left, right, parent, color := null, null, null, Black;
    }
  }

  ghost function Root<T>(t: Shape<Node<T>>): Node?<T> {
    if t.Br? then t.node else null
  }

  ghost function Above<T>(p: Path<Node<T>>): Node?<T> {
    if p.Top? then null else p.node
  }

  /** The left, right, parent and colour fields of the nodes spell out the shape. */
  ghost predicate Linked<T>(t: Shape<Node<T>>, parent: Node?<T>)
    reads Elems(t)
  {
    match t
    case Leaf => true
    case Br(l, n, c, r) =>
      && n.left == Root(l) && n.right == Root(r) && n.parent == parent && n.color == c
      && Linked(l, n) && Linked(r, n)
  }

  ghost predicate PathLinked<T>(p: Path<Node<T>>, hole: Node?<T>, root: Node?<T>)
    reads PathElems(p)
  {
    match p
    case Top => root == hole
    case InLeft(up, n, c, r) =>
      && n.left == hole && n.right == Root(r) && n.parent == Above(up) && n.color == c
      && Linked(r, n) && PathLinked(up, n, root)
    case InRight(l, n, c, up) =>
      && n.left == Root(l) && n.right == hole && n.parent == Above(up) && n.color == c
      && Linked(l, n) && PathLinked(up, n, root)
  }

  // ----- ordered contents -----

  ghost predicate Sorted<T>(s: seq<Node<T>>) {
    forall i, j :: 0 <= i < j < |s| ==> s[i].key < s[j].key
  }

  ghost function Without<N>(s: seq<N>, x: N): seq<N> {
    if s == [] then [] else if s[0] == x then s[1..] else [s[0]] + Without(s[1..], x)
  }

  lemma SortedAround<T>(a: seq<Node<T>>, x: Node<T>, z: seq<Node<T>>)
    requires Sorted(a + [x] + z)
    ensures forall y :: y in a ==> y.key < x.key
    ensures forall y :: y in z ==> x.key < y.key
  {
    var s := a + [x] + z;
    assert forall i :: 0 <= i < |a| ==> a[i] == s[i] && s[|a|] == x;
    assert forall i :: 0 <= i < |z| ==> z[i] == s[|a| + 1 + i] && s[|a|] == x;
  }

  lemma {:induction false} WithoutMiddle<N>(a: seq<N>, x: N, z: seq<N>)
    requires x !in a
    ensures Without(a + [x] + z, x) == a + z
  {
    var s := a + [x] + z;
    if a == [] {
      assert s[1..] == z;
    } else {
      WithoutMiddle(a[1..], x, z);
      assert s[1..] == a[1..] + [x] + z;
    }
  }

  lemma SortedWithout<T>(a: seq<Node<T>>, x: Node<T>, z: seq<Node<T>>)
    requires Sorted(a + [x] + z)
    ensures Sorted(a + z) && Without(a + [x] + z, x) == a + z
    ensures x !in a && x !in z
  {
    var s := a + [x] + z;
    forall i, j | 0 <= i < j < |a + z|
      ensures (a + z)[i].key < (a + z)[j].key
    {
      assert (a + z)[i] == s[if i < |a| then i else i + 1];
      assert (a + z)[j] == s[if j < |a| then j else j + 1];
    }
    SortedAround(a, x, z);
    WithoutMiddle(a, x, z);
  }

  /** The keys outside the hole are on their side of key. */
  ghost predicate Narrowed<T>(p: Path<Node<T>>, key: int) {
    (forall x :: x in Before(p) ==> x.key < key) && (forall x :: x in After(p) ==> key < x.key)
  }

  lemma {:induction false} NarrowLeft<T>(p: Path<Node<T>>, t: Shape<Node<T>>, key: int)
    requires t.Br? && Sorted(Inorder(Plug(p, t))) && Narrowed(p, key) && key < t.node.key
    ensures Narrowed(LeftChild(p, t), key)
  {
    SplitAround(p, t);
    SortedAround(Before(p) + Inorder(t.left), t.node, Inorder(t.right) + After(p));
    assert After(LeftChild(p, t)) == [t.node] + (Inorder(t.right) + After(p));
  }

  lemma {:induction false} NarrowRight<T>(p: Path<Node<T>>, t: Shape<Node<T>>, key: int)
    requires t.Br? && Sorted(Inorder(Plug(p, t))) && Narrowed(p, key) && key > t.node.key
    ensures Narrowed(RightChild(p, t), key)
  {
    SplitAround(p, t);
    SortedAround(Before(p) + Inorder(t.left), t.node, Inorder(t.right) + After(p));
    assert Before(RightChild(p, t)) == (Before(p) + Inorder(t.left)) + [t.node];
  }

  /** The sorted sequence with x at its place. */
  ghost function Inserted<T>(s: seq<Node<T>>, x: Node<T>): seq<Node<T>> {
    if s == [] || x.key < s[0].key then [x] + s else [s[0]] + Inserted(s[1..], x)
  }

  lemma {:induction false} InsertedBetween<T>(a: seq<Node<T>>, x: Node<T>, z: seq<Node<T>>)
    requires forall y :: y in a ==> y.key < x.key
    requires forall y :: y in z ==> x.key < y.key
    ensures Inserted(a + z, x) == a + [x] + z
  {
    if a == [] {
      assert a + z == z;
    } else {
      InsertedBetween(a[1..], x, z);
      assert (a + z)[1..] == a[1..] + z;
    }
  }

  lemma SortedBetween<T>(a: seq<Node<T>>, x: Node<T>, z: seq<Node<T>>)
    requires Sorted(a + z)
    requires forall y :: y in a ==> y.key < x.key
    requires forall y :: y in z ==> x.key < y.key
    ensures Sorted(a + [x] + z)
  {
    var s, s' := a + z, a + [x] + z;
    forall i, j | 0 <= i < j < |s'|
      ensures s'[i].key < s'[j].key
    {
      assert i < |a| ==> s'[i] == s[i] && s[i] in a;
      assert i > |a| ==> s'[i] == s[i - 1] && s[i - 1] in z;
      assert j < |a| ==> s'[j] == s[j] && s[j] in a;
      assert j > |a| ==> s'[j] == s[j - 1] && s[j - 1] in z;
    }
  }

  lemma LeafColors<N>(p: Path<N>, x: N)
    requires RedBlack(Plug(p, Leaf))
    ensures Pending(p, Br(Leaf, x, Red, Leaf))
  {
    PlugFine(p, Leaf);
  }

  lemma LeafBetween<T>(s: seq<Node<T>>, a: seq<Node<T>>, x: Node<T>, z: seq<Node<T>>)
    requires s == a + z && Sorted(s)
    requires (forall y :: y in a ==> y.key < x.key) && forall y :: y in z ==> x.key < y.key
    ensures Inserted(s, x) == a + [x] + z && Sorted(Inserted(s, x)) && forall y :: y in s ==> y.key != x.key
  {
    InsertedBetween(a, x, z);
    SortedBetween(a, x, z);
  }

  lemma WholeLeaf<T>(p: Path<Node<T>>, x: Node<T>)
    ensures Whole(p, Br(Leaf, x, Red, Leaf)) == Before(p) + [x] + After(p)
  {
    assert Inorder(Br(Leaf, x, Red, Leaf)) == [x];
  }

  lemma LeafOrder<T>(p: Path<Node<T>>, x: Node<T>)
    requires Sorted(Inorder(Plug(p, Leaf))) && Narrowed(p, x.key)
    ensures Whole(p, Br(Leaf, x, Red, Leaf)) == Inserted(Inorder(Plug(p, Leaf)), x)
    ensures Sorted(Inserted(Inorder(Plug(p, Leaf)), x))
    ensures forall y :: y in Inorder(Plug(p, Leaf)) ==> y.key != x.key
  {
    PlugInorder(p, Leaf);
    var s := Inorder(Plug(p, Leaf));
    assert s == Before(p) + After(p);
    WholeLeaf(p, x);
    LeafBetween(s, Before(p), x, After(p));
  }

  class Tree<T> {
    var root: Node?<T>
    ghost var shape: Shape<Node<T>>

    ghost predicate State(p: Path<Node<T>>, t: Shape<Node<T>>)
      reads this, PathElems(p), Elems(t)
    {
      true == (
        && PathLinked(p, Root(t), root)
        && Linked(t, Above(p))
        && Distinct(t) && PathDistinct(p) && Elems(t) !! PathElems(p))
    }

    ghost predicate Valid()
      reads this, Elems(shape)
    {
      Sound() && Sorted(Elements())
    }

    /** The links spell out the shape and the colour rules hold. */
    ghost predicate Sound()
      reads this, Elems(shape)
    {
      true == (State(Top, shape) && RedBlack(shape))
    }

    ghost function Elements(): seq<Node<T>>
      reads this
    {
      Inorder(shape)
    }

    /** The step "if the parent exists, redirect its link, else the root" of the macros. */
    method ReplaceChild(parent: Node?<T>, elm: Node?<T>, tmp: Node?<T>, ghost p: Path<Node<T>>)
      requires PathLinked(p, elm, root) && PathDistinct(p) && parent == Above(p)
      requires p.InRight? ==> elm == null || elm !in PathElems(p)
      requires p.InRight? && elm == null ==> p.left.Br?
      modifies this, PathElems(p)
      ensures PathLinked(p, tmp, root) && shape == old(shape)
    {
      ghost var here := root;
      assert p.InLeft? ==> Linked(p.right, p.node) && PathLinked(p.up, p.node, here);
      assert p.InRight? ==> Linked(p.left, p.node) && PathLinked(p.up, p.node, here);
      if parent != null {
        if parent.left == elm {
          parent.left := tmp;
        } else {
          parent.right := tmp;
        }
      } else {
        root := tmp;
      }
      assert p.InLeft? ==> Linked(p.right, p.node) && PathLinked(p.up, p.node, root);
      assert p.InRight? ==> Linked(p.left, p.node) && PathLinked(p.up, p.node, root);
    }

    lemma LeftParts(p: Path<Node<T>>, a: Shape<Node<T>>, x: Node<T>, c: Color, b: Shape<Node<T>>,
                    y: Node<T>, d: Color, e: Shape<Node<T>>)
      requires State(p, Br(a, x, c, Br(b, y, d, e)))
      ensures Elems(Br(a, x, c, Br(b, y, d, e))) == Elems(a) + {x} + Elems(b) + {y} + Elems(e)
      ensures x.right == y && y.left == Root(b) && y.right == Root(e) && y.color == d
      ensures y !in Elems(b) && y !in Elems(e) && Elems(b) !! Elems(e)
      ensures Linked(a, x) && Linked(b, y) && Linked(e, y) && Distinct(b) && Distinct(e)
      ensures Distinct(Br(Br(a, x, c, b), y, d, e))
      ensures Elems(Br(Br(a, x, c, b), y, d, e)) == Elems(Br(a, x, c, Br(b, y, d, e)))
      ensures b.Br? ==>
                && Elems(b) == Elems(b.left) + {b.node} + Elems(b.right)
                && Linked(b.left, b.node) && Linked(b.right, b.node)
      ensures forall n :: n in Elems(a) || n in Elems(e) || (b.Br? && (n in Elems(b.left) || n in Elems(b.right))) ==>
                n !in PathElems(p) && n != x && n != y && (b.Br? ==> n != b.node)
    {
      var r := Br(b, y, d, e);
      assert Distinct(r) && Linked(r, x);
      assert Elems(Br(a, x, c, r)) == Elems(a) + {x} + Elems(r);
    }

    /** RB_ROTATE_LEFT, field by field. */
    method RotateLeftLinks(elm: Node<T>, ghost p: Path<Node<T>>) returns (tmp: Node<T>)
      requires PathLinked(p, elm, root) && PathDistinct(p) && elm.parent == Above(p) && elm !in PathElems(p)
      requires elm.right != null && elm.right != elm && elm.right !in PathElems(p)
      requires elm.right.left != null ==>
                 elm.right.left != elm && elm.right.left != elm.right && elm.right.left !in PathElems(p)
      modifies this, PathElems(p), elm, elm.right, if elm.right.left != null then {elm.right.left} else {}
      ensures PathLinked(p, tmp, root) && shape == old(shape)
      ensures tmp == old(elm.right) && tmp.left == elm && tmp.right == old(elm.right.right)
      ensures tmp.parent == Above(p) && tmp.color == old(elm.right.color)
      ensures elm.left == old(elm.left) && elm.right == old(elm.right.left) && elm.parent == tmp
      ensures elm.color == old(elm.color)
      ensures elm.right != null ==>
                && elm.right.parent == elm && elm.right.left == old(elm.right.left.left)
                && elm.right.right == old(elm.right.left.right) && elm.right.color == old(elm.right.left.color)
    {
      assert allocated(PathElems(p));
      tmp := elm.right;
      elm.right := tmp.left;
      if elm.right != null {
        tmp.left.parent := elm;
      }
      tmp.parent := elm.parent;
      ReplaceChild(elm.parent, elm, tmp, p);
      tmp.left := elm;
      elm.parent := tmp;
    }

    /** RB_ROTATE_LEFT on the shape. */
    method RotateLeft(elm: Node<T>, ghost p: Path<Node<T>>, ghost t: Shape<Node<T>>) returns (tmp: Node<T>)
      requires State(p, t) && t.Br? && t.node == elm && t.right.Br?
      modifies this, PathElems(p), Elems(t)
      ensures tmp == t.right.node && shape == old(shape)
      ensures State(p, Br(Br(t.left, elm, t.color, t.right.left), tmp, t.right.color, t.right.right))
    {
      ghost var b := t.right.left;
      LeftParts(p, t.left, elm, t.color, b, t.right.node, t.right.color, t.right.right);
      assert allocated(Elems(t));
      tmp := RotateLeftLinks(elm, p);
      assert b.Br? ==> Linked(b.left, b.node) && Linked(b.right, b.node);
      assert Linked(t.left, elm) && Linked(b, elm) && Linked(t.right.right, tmp);
      StateJoined(p, Br(Br(t.left, elm, t.color, b), tmp, t.right.color, t.right.right));
    }

    /** A position, part by part. */
    lemma StateJoined(p: Path<Node<T>>, t: Shape<Node<T>>)
      requires PathLinked(p, Root(t), root) && Distinct(t) && PathDistinct(p) && Elems(t) !! PathElems(p) && t.Br?
      requires t.node.parent == Above(p) && t.node.left == Root(t.left) && t.node.right == Root(t.right)
      requires t.node.color == t.color && Linked(t.left, t.node) && Linked(t.right, t.node)
      ensures State(p, t)
    {
    }

    lemma RightParts(p: Path<Node<T>>, a: Shape<Node<T>>, y: Node<T>, d: Color, b: Shape<Node<T>>,
                     x: Node<T>, c: Color, e: Shape<Node<T>>)
      requires State(p, Br(Br(a, y, d, b), x, c, e))
      ensures Elems(Br(Br(a, y, d, b), x, c, e)) == Elems(a) + {y} + Elems(b) + {x} + Elems(e)
      ensures x.left == y && y.left == Root(a) && y.right == Root(b) && y.color == d
      ensures y !in Elems(a) && y !in Elems(b) && Elems(a) !! Elems(b)
      ensures Linked(a, y) && Linked(b, y) && Linked(e, x) && Distinct(a) && Distinct(b)
      ensures Distinct(Br(a, y, d, Br(b, x, c, e)))
      ensures Elems(Br(a, y, d, Br(b, x, c, e))) == Elems(Br(Br(a, y, d, b), x, c, e))
      ensures b.Br? ==>
                && Elems(b) == Elems(b.left) + {b.node} + Elems(b.right)
                && Linked(b.left, b.node) && Linked(b.right, b.node)
      ensures forall n :: n in Elems(a) || n in Elems(e) || (b.Br? && (n in Elems(b.left) || n in Elems(b.right))) ==>
                n !in PathElems(p) && n != x && n != y && (b.Br? ==> n != b.node)
    {
      var l := Br(a, y, d, b);
      assert Distinct(l) && Linked(l, x);
      assert Elems(Br(l, x, c, e)) == Elems(l) + {x} + Elems(e);
    }

    /** RB_ROTATE_RIGHT, field by field. */
    method RotateRightLinks(elm: Node<T>, ghost p: Path<Node<T>>) returns (tmp: Node<T>)
      requires PathLinked(p, elm, root) && PathDistinct(p) && elm.parent == Above(p) && elm !in PathElems(p)
      requires elm.left != null && elm.left != elm && elm.left !in PathElems(p)
      requires elm.left.right != null ==>
                 elm.left.right != elm && elm.left.right != elm.left && elm.left.right !in PathElems(p)
      modifies this, PathElems(p), elm, elm.left, if elm.left.right != null then {elm.left.right} else {}
      ensures PathLinked(p, tmp, root) && shape == old(shape)
      ensures tmp == old(elm.left) && tmp.right == elm && tmp.left == old(elm.left.left)
      ensures tmp.parent == Above(p) && tmp.color == old(elm.left.color)
      ensures elm.right == old(elm.right) && elm.left == old(elm.left.right) && elm.parent == tmp
      ensures elm.color == old(elm.color)
      ensures elm.left != null ==>
                && elm.left.parent == elm && elm.left.left == old(elm.left.right.left)
                && elm.left.right == old(elm.left.right.right) && elm.left.color == old(elm.left.right.color)
    {
      assert allocated(PathElems(p));
      tmp := elm.left;
      elm.left := tmp.right;
      if elm.left != null {
        tmp.right.parent := elm;
      }
      tmp.parent := elm.parent;
      ReplaceChild(elm.parent, elm, tmp, p);
      tmp.right := elm;
      elm.parent := tmp;
    }

    /** RB_ROTATE_RIGHT on the shape. */
    method RotateRight(elm: Node<T>, ghost p: Path<Node<T>>, ghost t: Shape<Node<T>>) returns (tmp: Node<T>)
      requires State(p, t) && t.Br? && t.node == elm && t.left.Br?
      modifies this, PathElems(p), Elems(t)
      ensures tmp == t.left.node && shape == old(shape)
      ensures State(p, Br(t.left.left, tmp, t.left.color, Br(t.left.right, elm, t.color, t.right)))
    {
      ghost var b := t.left.right;
      RightParts(p, t.left.left, t.left.node, t.left.color, b, elm, t.color, t.right);
      assert allocated(Elems(t));
      tmp := RotateRightLinks(elm, p);
      assert b.Br? ==> Linked(b.left, b.node) && Linked(b.right, b.node);
      assert Linked(t.right, elm) && Linked(b, elm) && Linked(t.left.left, tmp);
      StateJoined(p, Br(t.left.left, tmp, t.left.color, Br(b, elm, t.color, t.right)));
    }

    method Paint(n: Node<T>, c: Color, ghost p: Path<Node<T>>, ghost t: Shape<Node<T>>)
      requires State(p, t) && t.Br? && t.node == n
      modifies n
      ensures State(p, t.(color := c))
    {
      n.color := c;
    }

    /** Painting a node, seen from its parent. */
    method PaintChild(n: Node<T>, c: Color, ghost p: Path<Node<T>>, ghost t: Shape<Node<T>>)
      requires !p.Top? && State(p.up, Up(p, t)) && t.Br? && t.node == n
      modifies n
      ensures State(p.up, Up(p, t.(color := c)))
    {
      StateUp(p, t);
      Paint(n, c, p, t);
      StateUp(p, t.(color := c));
    }

    lemma FromComposed(q: Path<Node<T>>, base: Path<Node<T>>, t: Shape<Node<T>>)
      ensures State(Compose(q, base), t) <==> State(base, Plug(q, t))
      ensures PathElems(Compose(q, base)) + Elems(t) == PathElems(base) + Elems(Plug(q, t))
    {
      ComposePlug(q, base, t);
      FromTop(Compose(q, base), t);
      FromTop(base, Plug(q, t));
      PlugElems(Compose(q, base), t);
      PlugElems(base, Plug(q, t));
    }

    /** The same heap seen from a node and from its parent. */
    lemma StateUp(p: Path<Node<T>>, t: Shape<Node<T>>)
      requires !p.Top?
      ensures State(p, t) <==> State(p.up, Up(p, t))
      ensures State(p, t) && t.Br? ==> (p.InLeft? <==> p.node.left == t.node)
      ensures State(p, t) && t.Br? ==> t.node.parent == p.node && (p.node.parent == Above(p.up))
    {
    }

    lemma ParentAbove(p: Path<Node<T>>, t: Shape<Node<T>>)
      requires State(p, t) && t.Br?
      ensures t.node.parent == Above(p) && (!p.Top? ==> p.node.color == p.color)
    {
    }

    /** The links around a hole and the colours of its nephews. */
    lemma SiblingLinks(p: Path<Node<T>>, t: Shape<Node<T>>)
      requires State(p, t) && !p.Top? && Sibling(p).Br?
      ensures p.InLeft? ==> p.node.left == Root(t) && p.node.right == Sibling(p).node
      ensures p.InRight? ==> p.node.right == Root(t) && p.node.left == Sibling(p).node && Root(t) != Sibling(p).node
      ensures var w := Sibling(p);
              && w.node.color == w.color && w.node.left == Root(w.left) && w.node.right == Root(w.right)
              && (w.left.Br? ==> w.left.node.color == w.left.color)
              && (w.right.Br? ==> w.right.node.color == w.right.color)
    {
      assert Linked(Sibling(p), p.node);
      assert Linked(Sibling(p).left, Sibling(p).node) && Linked(Sibling(p).right, Sibling(p).node);
    }

    lemma {:induction false} RootAbove(p: Path<Node<T>>, t: Shape<Node<T>>)
      requires State(p, t)
      ensures p.Top? ==> root == Root(t)
      ensures !p.Top? ==> root != null && root in PathElems(p) && root != Root(t)
      ensures t.Br? ==> t.node.color == t.color && t.node.parent == Above(p)
    {
      if !p.Top? {
        StateUp(p, t);
        RootAbove(p.up, Up(p, t));
      }
    }

    lemma {:induction false} FromTop(p: Path<Node<T>>, t: Shape<Node<T>>)
      ensures State(p, t) <==> State(Top, Plug(p, t))
    {
      if !p.Top? {
        StateUp(p, t);
        FromTop(p.up, Up(p, t));
      }
    }

    /** RB_SET_BLACKRED(black, red), for a node and its left or right child. */
    method SetBlackRed(black: Node<T>, red: Node<T>, ghost q: Path<Node<T>>, ghost g: Shape<Node<T>>)
      requires State(q, g) && g.Br? && g.node == red
      requires (g.left.Br? && g.left.node == black) || (g.right.Br? && g.right.node == black)
      modifies black, red
      ensures g.left.Br? && g.left.node == black ==> State(q, Br(g.left.(color := Black), red, Red, g.right))
      ensures g.right.Br? && g.right.node == black ==> State(q, Br(g.left, red, Red, g.right.(color := Black)))
    {
      ghost var p, t := LeftChild(q, g), g.left;
      if !(g.left.Br? && g.left.node == black) {
        p, t := RightChild(q, g), g.right;
      }
      PaintChild(black, Black, p, t);
      Paint(red, Red, q, Up(p, t.(color := Black)));
    }

    /** RB_COLOR(tmp) = RB_BLACK; RB_SET_BLACKRED(parent, gparent). */
    method FlipColors(tmp: Node<T>, parent: Node<T>, gparent: Node<T>, ghost q: Path<Node<T>>, ghost g: Shape<Node<T>>)
      requires State(q, g) && g.Br? && g.node == gparent && g.left.Br? && g.right.Br?
      requires (g.left.node == parent && g.right.node == tmp) || (g.left.node == tmp && g.right.node == parent)
      modifies tmp, parent, gparent
      ensures State(q, Flipped(g))
    {
      ghost var p, t := LeftChild(q, g), g.left;
      if g.left.node != tmp {
        p, t := RightChild(q, g), g.right;
      }
      PaintChild(tmp, Black, p, t);
      SetBlackRed(parent, gparent, q, Up(p, t.(color := Black)));
    }

    /** Black uncle on the right: straighten, recolour, rotate the grandparent right. */
    method InsertRotateRight(elm0: Node<T>, parent0: Node<T>, gparent: Node<T>,
                             ghost p: Path<Node<T>>, ghost t: Shape<Node<T>>)
      returns (elm: Node<T>)
      requires State(p, t) && t.Br? && t.node == elm0 && !p.Top? && p.node == parent0
      requires p.up.InLeft? && p.up.node == gparent && StraightLeft(p, t).left.Br?
      modifies this, PathElems(p), Elems(t)
      ensures shape == old(shape)
      ensures StraightLeft(p, t).left.node == elm
      ensures State(SettledLeft(p, t), StraightLeft(p, t).left)
    {
      elm := elm0;
      var parent := parent0;
      ghost var q, u := p.up.up, p.up.right;
      StateUp(p, t);
      WholeUp(p, t);
      WholeUp(p.up, Up(p, t));
      StraightOrder(p, t);
      assert Linked(t, parent);
      if parent.right == elm {
        var tmp := RotateLeft(parent, p.up, Up(p, t));
        tmp := parent;
        parent := elm;
        elm := tmp;
      }
      ghost var s := StraightLeft(p, t);
      StateUp(p.up, s);
      SetBlackRed(parent, gparent, q, Br(s, gparent, p.up.color, u));
      var tmp := RotateRight(gparent, q, Br(s.(color := Black), gparent, Red, u));
      StateUp(SettledLeft(p, t), s.left);
    }

    /** Black uncle on the left, the mirror image. */
    method InsertRotateLeft(elm0: Node<T>, parent0: Node<T>, gparent: Node<T>,
                            ghost p: Path<Node<T>>, ghost t: Shape<Node<T>>)
      returns (elm: Node<T>)
      requires State(p, t) && t.Br? && t.node == elm0 && !p.Top? && p.node == parent0
      requires p.up.InRight? && p.up.node == gparent && StraightRight(p, t).right.Br?
      modifies this, PathElems(p), Elems(t)
      ensures shape == old(shape)
      ensures StraightRight(p, t).right.node == elm
      ensures State(SettledRight(p, t), StraightRight(p, t).right)
    {
      elm := elm0;
      var parent := parent0;
      ghost var q, u := p.up.up, p.up.left;
      StateUp(p, t);
      WholeUp(p, t);
      WholeUp(p.up, Up(p, t));
      StraightOrder(p, t);
      assert Linked(t, parent);
      if parent.left == elm {
        var tmp := RotateRight(parent, p.up, Up(p, t));
        tmp := parent;
        parent := elm;
        elm := tmp;
      }
      ghost var s := StraightRight(p, t);
      StateUp(p.up, s);
      SetBlackRed(parent, gparent, q, Br(u, gparent, p.up.color, s));
      var tmp := RotateLeft(gparent, q, Br(u, gparent, Red, s.(color := Black)));
      StateUp(SettledRight(p, t), s.right);
    }

    /** One turn of the RB_INSERT_COLOR loop, the parent being a left child. */
    method InsertColorLeft(elm0: Node<T>, parent: Node<T>, gparent: Node<T>, ghost p: Path<Node<T>>,
                           ghost t: Shape<Node<T>>)
      returns (elm: Node<T>, ghost p': Path<Node<T>>, ghost t': Shape<Node<T>>)
      requires State(p, t) && Pending(p, t) && t.node == elm0 && !p.Top? && p.color == Red && p.node == parent
      requires p.up.InLeft? && p.up.node == gparent
      modifies this, PathElems(p), Elems(t)
      ensures State(p', t') && Pending(p', t') && t'.node == elm
      ensures PathElems(p') + Elems(t') == PathElems(p) + Elems(t)
      ensures Whole(p', t') == Whole(p, t) && Depth(p') < Depth(p)
    {
      elm := elm0;
      StateUp(p, t);
      RedParent(p, t);
      StateUp(p.up, Up(p, t));
      ghost var g := Grand(p, t);
      assert Linked(g.left, gparent) && Linked(g.right, gparent);
      var tmp := gparent.right;
      if tmp != null && tmp.color == Red {
        FlipKeeps(p, t);
        FlipColors(tmp, parent, gparent, p.up.up, g);
        elm := gparent;
        p', t' := p.up.up, Flipped(g);
      } else {
        SettledLeftOrder(p, t);
        SettledLeftKeeps(p, t);
        elm := InsertRotateRight(elm, parent, gparent, p, t);
        p', t' := SettledLeft(p, t), StraightLeft(p, t).left;
      }
    }

    /** One turn of the RB_INSERT_COLOR loop, the parent being a right child. */
    method InsertColorRight(elm0: Node<T>, parent: Node<T>, gparent: Node<T>, ghost p: Path<Node<T>>,
                            ghost t: Shape<Node<T>>)
      returns (elm: Node<T>, ghost p': Path<Node<T>>, ghost t': Shape<Node<T>>)
      requires State(p, t) && Pending(p, t) && t.node == elm0 && !p.Top? && p.color == Red && p.node == parent
      requires p.up.InRight? && p.up.node == gparent
      modifies this, PathElems(p), Elems(t)
      ensures State(p', t') && Pending(p', t') && t'.node == elm
      ensures PathElems(p') + Elems(t') == PathElems(p) + Elems(t)
      ensures Whole(p', t') == Whole(p, t) && Depth(p') < Depth(p)
    {
      elm := elm0;
      StateUp(p, t);
      RedParent(p, t);
      StateUp(p.up, Up(p, t));
      ghost var g := Grand(p, t);
      assert Linked(g.left, gparent) && Linked(g.right, gparent);
      var tmp := gparent.left;
      if tmp != null && tmp.color == Red {
        FlipKeeps(p, t);
        FlipColors(tmp, parent, gparent, p.up.up, g);
        elm := gparent;
        p', t' := p.up.up, Flipped(g);
      } else {
        SettledRightOrder(p, t);
        SettledRightKeeps(p, t);
        elm := InsertRotateLeft(elm, parent, gparent, p, t);
        p', t' := SettledRight(p, t), StraightRight(p, t).right;
      }
    }

    /** One turn of the RB_INSERT_COLOR loop. */
    method InsertColorStep(elm0: Node<T>, ghost p: Path<Node<T>>, ghost t: Shape<Node<T>>)
      returns (elm: Node<T>, ghost p': Path<Node<T>>, ghost t': Shape<Node<T>>)
      requires State(p, t) && Pending(p, t) && t.node == elm0 && !p.Top? && p.color == Red
      modifies this, PathElems(p), Elems(t)
      ensures State(p', t') && Pending(p', t') && t'.node == elm
      ensures PathElems(p') + Elems(t') == PathElems(p) + Elems(t)
      ensures Whole(p', t') == Whole(p, t) && Depth(p') < Depth(p)
    {
      RedParent(p, t);
      StateUp(p, t);
      StateUp(p.up, Up(p, t));
      var parent := elm0.parent;
      var gparent := parent.parent;
      if parent == gparent.left {
        elm, p', t' := InsertColorLeft(elm0, parent, gparent, p, t);
      } else {
        elm, p', t' := InsertColorRight(elm0, parent, gparent, p, t);
      }
    }

    /** RB_INSERT_COLOR: repairs a tree whose only fault is a red elm under a red parent. */
    method InsertColor(elm0: Node<T>, ghost p0: Path<Node<T>>, ghost t0: Shape<Node<T>>)
      requires State(p0, t0) && Pending(p0, t0) && t0.node == elm0
      modifies this, PathElems(p0), Elems(t0)
      ensures Sound()
      ensures Inorder(shape) == Whole(p0, t0)
    {
      var elm := elm0;
      ghost var p, t := p0, t0;
      ParentAbove(p, t);
      while elm.parent != null && elm.parent.color == Red
        invariant State(p, t) && Pending(p, t) && t.node == elm
        invariant elm.parent == Above(p) && (!p.Top? ==> p.node.color == p.color)
        invariant PathElems(p) + Elems(t) == PathElems(p0) + Elems(t0)
        invariant Whole(p, t) == Whole(p0, t0)
        decreases Depth(p)
      {
        elm, p, t := InsertColorStep(elm, p, t);
        ParentAbove(p, t);
      }
      BlackenRoot(p, t);
    }

    /** The closing "RB_COLOR(head->rbh_root) = RB_BLACK" of RB_INSERT_COLOR. */
    method BlackenRoot(ghost p: Path<Node<T>>, ghost t: Shape<Node<T>>)
      requires State(p, t) && Pending(p, t) && BlackAbove(p)
      modifies this, PathElems(p), Elems(t)
      ensures Sound() && Inorder(shape) == Whole(p, t)
    {
      FromTop(p, t);
      PendingDone(p, t);
      shape := Plug(p, t);
      Paint(root, Black, Top, shape);
      shape := Painted(shape, Black);
    }
    /** Red sibling on the right of the hole: it is rotated above the parent. */
    method LowerLeft(parent: Node<T>, tmp: Node<T>, ghost p: Path<Node<T>>, ghost t: Shape<Node<T>>)
      requires State(p, t) && p.InLeft? && p.node == parent && p.right.Br? && p.right.node == tmp
      modifies this, PathElems(p), Elems(t)
      ensures shape == old(shape)
      ensures State(Lowered(p), t)
    {
      ghost var q, w := p.up, p.right;
      StateUp(p, t);
      WholeUp(p, t);
      SetBlackRed(tmp, parent, q, Up(p, t));
      var top := RotateLeft(parent, q, Br(t, parent, Red, w.(color := Black)));
      StateUp(Lowered(p), t);
      StateUp(Lowered(p).up, Up(Lowered(p), t));
    }

    /** RB_COLOR(tmp) = RB_RED below a black sibling without red children. */
    method PaleLeft(tmp: Node<T>, ghost p: Path<Node<T>>, ghost t: Shape<Node<T>>)
      requires State(p, t) && p.InLeft? && p.right.Br? && p.right.node == tmp
      modifies tmp
      ensures State(p.up, Paler(p, t))
    {
      StateUp(p, t);
      PaintChild(tmp, Red, RightChild(p.up, Up(p, t)), p.right);
    }

    /** A sibling whose only red child is the inner one is rotated away from the hole. */
    method TurnOutLeft(tmp0: Node<T>, ghost sib: Path<Node<T>>, ghost w: Shape<Node<T>>) returns (tmp: Node<T>)
      requires State(sib, w) && w.Br? && w.node == tmp0 && !(IsBlack(w.left) && IsBlack(w.right))
      modifies this, PathElems(sib), Elems(w)
      ensures shape == old(shape)
      ensures State(sib, OuterRight(w)) && tmp == OuterRight(w).node
    {
      tmp := tmp0;
      assert Linked(w.left, tmp) && Linked(w.right, tmp);
      if tmp.right == null || tmp.right.color == Black {
        var oleft := tmp.left;
        SetBlackRed(oleft, tmp, sib, w);
        tmp := RotateRight(tmp, sib, Br(w.left.(color := Black), w.node, Red, w.right));
      }
    }

    /** The last case: a red child of the sibling makes up for the missing black. */
    method PayLeft(parent: Node<T>, tmp0: Node<T>, ghost p: Path<Node<T>>, ghost t: Shape<Node<T>>)
      requires State(p, t) && p.InLeft? && p.node == parent && p.right.Br? && p.right.node == tmp0
      requires p.right.color == Black && !(IsBlack(p.right.left) && IsBlack(p.right.right))
      modifies this, PathElems(p), Elems(t)
      ensures shape == old(shape)
      ensures State(p.up, Paid(p, t))
    {
      ghost var q, w := p.up, p.right;
      StateUp(p, t);
      WholeUp(p, t);
      OuterOrder(w);
      ghost var sib := RightChild(q, Up(p, t));
      StateUp(sib, w);
      var tmp := TurnOutLeft(tmp0, sib, w);
      w := OuterRight(w);
      Paint(tmp, parent.color, sib, w);
      w := w.(color := p.color);
      StateUp(sib, w);
      Paint(parent, Black, q, Br(t, parent, p.color, w));
      sib := RightChild(q, Br(t, parent, Black, w));
      StateUp(sib, w);
      assert Linked(w.right, tmp);
      if tmp.right != null {
        PaintChild(tmp.right, Black, RightChild(sib, w), w.right);
        w := w.(right := Painted(w.right, Black));
      }
      StateUp(sib, w);
      var top := RotateLeft(parent, q, Br(t, parent, Black, w));
    }

    /** Red sibling on the left of the hole, the mirror image. */
    method LowerRight(parent: Node<T>, tmp: Node<T>, ghost p: Path<Node<T>>, ghost t: Shape<Node<T>>)
      requires State(p, t) && p.InRight? && p.node == parent && p.left.Br? && p.left.node == tmp
      modifies this, PathElems(p), Elems(t)
      ensures shape == old(shape)
      ensures State(Lowered(p), t)
    {
      ghost var q, w := p.up, p.left;
      StateUp(p, t);
      WholeUp(p, t);
      SetBlackRed(tmp, parent, q, Up(p, t));
      var top := RotateRight(parent, q, Br(w.(color := Black), parent, Red, t));
      StateUp(Lowered(p), t);
      StateUp(Lowered(p).up, Up(Lowered(p), t));
    }

    method PaleRight(tmp: Node<T>, ghost p: Path<Node<T>>, ghost t: Shape<Node<T>>)
      requires State(p, t) && p.InRight? && p.left.Br? && p.left.node == tmp
      modifies tmp
      ensures State(p.up, Paler(p, t))
    {
      StateUp(p, t);
      PaintChild(tmp, Red, LeftChild(p.up, Up(p, t)), p.left);
    }

    method TurnOutRight(tmp0: Node<T>, ghost sib: Path<Node<T>>, ghost w: Shape<Node<T>>) returns (tmp: Node<T>)
      requires State(sib, w) && w.Br? && w.node == tmp0 && !(IsBlack(w.right) && IsBlack(w.left))
      modifies this, PathElems(sib), Elems(w)
      ensures shape == old(shape)
      ensures State(sib, OuterLeft(w)) && tmp == OuterLeft(w).node
    {
      tmp := tmp0;
      assert Linked(w.right, tmp) && Linked(w.left, tmp);
      if tmp.left == null || tmp.left.color == Black {
        var oright := tmp.right;
        SetBlackRed(oright, tmp, sib, w);
        tmp := RotateLeft(tmp, sib, Br(w.left, w.node, Red, w.right.(color := Black)));
      }
    }

    method PayRight(parent: Node<T>, tmp0: Node<T>, ghost p: Path<Node<T>>, ghost t: Shape<Node<T>>)
      requires State(p, t) && p.InRight? && p.node == parent && p.left.Br? && p.left.node == tmp0
      requires p.left.color == Black && !(IsBlack(p.left.right) && IsBlack(p.left.left))
      modifies this, PathElems(p), Elems(t)
      ensures shape == old(shape)
      ensures State(p.up, Paid(p, t))
    {
      ghost var q, w := p.up, p.left;
      StateUp(p, t);
      WholeUp(p, t);
      OuterOrder(w);
      ghost var sib := LeftChild(q, Up(p, t));
      StateUp(sib, w);
      var tmp := TurnOutRight(tmp0, sib, w);
      w := OuterLeft(w);
      Paint(tmp, parent.color, sib, w);
      w := w.(color := p.color);
      StateUp(sib, w);
      Paint(parent, Black, q, Br(w, parent, p.color, t));
      sib := LeftChild(q, Br(w, parent, Black, t));
      StateUp(sib, w);
      assert Linked(w.left, tmp);
      if tmp.left != null {
        PaintChild(tmp.left, Black, LeftChild(sib, w), w.left);
        w := w.(left := Painted(w.left, Black));
      }
      StateUp(sib, w);
      var top := RotateRight(parent, q, Br(w, parent, Black, t));
    }

    /** One turn of the RB_REMOVE_COLOR loop, the hole being a left child. */
    method RemoveColorLeft(parent: Node<T>, ghost p0: Path<Node<T>>, ghost t: Shape<Node<T>>)
      returns (done: bool, ghost p': Path<Node<T>>, ghost t': Shape<Node<T>>)
      requires State(p0, t) && Short(p0, t) && IsBlack(t) && p0.InLeft? && p0.node == parent
      modifies this, PathElems(p0), Elems(t)
      ensures shape == old(shape) && State(p', t')
      ensures Whole(p', t') == Whole(p0, t) && PathElems(p') + Elems(t') == PathElems(p0) + Elems(t)
      ensures done ==> Fine(p', t')
      ensures !done ==> Short(p', t') && t'.Br? && t'.node == parent
      ensures !done && IsBlack(t') ==> Depth(p') < Depth(p0)
    {
      ghost var p := p0;
      ShortSibling(p, t);
      SiblingLinks(p, t);
      var tmp := parent.right;
      if tmp.color == Red {
        LoweredKeeps(p, t);
        LoweredOrder(p, t);
        LowerLeft(parent, tmp, p, t);
        p := Lowered(p);
        ShortSibling(p, t);
        SiblingLinks(p, t);
        tmp := parent.right;
      }
      if (tmp.left == null || tmp.left.color == Black) && (tmp.right == null || tmp.right.color == Black) {
        PalerKeeps(p, t);
        PaleLeft(tmp, p, t);
        done, p', t' := false, p.up, Paler(p, t);
      } else {
        PaidKeeps(p, t);
        PaidOrder(p, t);
        PayLeft(parent, tmp, p, t);
        done, p', t' := true, p.up, Paid(p, t);
      }
    }

    /** One turn of the RB_REMOVE_COLOR loop, the hole being a right child. */
    method RemoveColorRight(parent: Node<T>, ghost p0: Path<Node<T>>, ghost t: Shape<Node<T>>)
      returns (done: bool, ghost p': Path<Node<T>>, ghost t': Shape<Node<T>>)
      requires State(p0, t) && Short(p0, t) && IsBlack(t) && p0.InRight? && p0.node == parent
      modifies this, PathElems(p0), Elems(t)
      ensures shape == old(shape) && State(p', t')
      ensures Whole(p', t') == Whole(p0, t) && PathElems(p') + Elems(t') == PathElems(p0) + Elems(t)
      ensures done ==> Fine(p', t')
      ensures !done ==> Short(p', t') && t'.Br? && t'.node == parent
      ensures !done && IsBlack(t') ==> Depth(p') < Depth(p0)
    {
      ghost var p := p0;
      ShortSibling(p, t);
      SiblingLinks(p, t);
      var tmp := parent.left;
      if tmp.color == Red {
        LoweredKeeps(p, t);
        LoweredOrder(p, t);
        LowerRight(parent, tmp, p, t);
        p := Lowered(p);
        ShortSibling(p, t);
        SiblingLinks(p, t);
        tmp := parent.left;
      }
      if (tmp.left == null || tmp.left.color == Black) && (tmp.right == null || tmp.right.color == Black) {
        PalerKeeps(p, t);
        PaleRight(tmp, p, t);
        done, p', t' := false, p.up, Paler(p, t);
      } else {
        PaidKeeps(p, t);
        PaidOrder(p, t);
        PayRight(parent, tmp, p, t);
        done, p', t' := true, p.up, Paid(p, t);
      }
    }

    /** The closing "if (elm) RB_COLOR(elm) = RB_BLACK" of RB_REMOVE_COLOR. */
    method BlackenLast(elm: Node?<T>, ghost paid: bool, ghost p: Path<Node<T>>, ghost t: Shape<Node<T>>)
      requires State(p, t)
      requires paid ==> Fine(p, t) && elm == root
      requires !paid ==> Short(p, t) && (p.Top? || !IsBlack(t)) && elm == Root(t)
      modifies this, PathElems(p), Elems(t)
      ensures Sound()
      ensures Inorder(shape) == Whole(p, t)
    {
      ghost var p', t' := p, t;
      if paid {
        FromTop(p, t);
        PlugFine(p, t);
        PlugInorder(p, t);
        PlugElems(p, t);
        p', t' := Top, Plug(p, t);
      } else {
        ShortDone(p, t);
        PlugInorder(p, Painted(t, Black));
      }
      if elm != null {
        Paint(elm, Black, p', t');
      }
      FromTop(p', Painted(t', Black));
      shape := Plug(p', Painted(t', Black));
    }

    /** RB_REMOVE_COLOR: restores the colour rules when everything below one position is a black node short. */
    method RemoveColor(parent0: Node?<T>, elm0: Node?<T>, ghost p0: Path<Node<T>>, ghost t0: Shape<Node<T>>)
      requires State(p0, t0) && Short(p0, t0) && parent0 == Above(p0) && elm0 == Root(t0)
      modifies this, PathElems(p0), Elems(t0)
      ensures Sound()
      ensures Inorder(shape) == Whole(p0, t0)
    {
      var parent, elm := parent0, elm0;
      ghost var p, t := p0, t0;
      RootAbove(p, t);
      var done := false;
      while (elm == null || elm.color == Black) && elm != root
        invariant State(p, t) && Short(p, t) && parent == Above(p) && elm == Root(t)
        invariant !done && (p.Top? <==> elm == root) && (t.Br? ==> elm.color == t.color)
        invariant PathElems(p) + Elems(t) == PathElems(p0) + Elems(t0)
        invariant Whole(p, t) == Whole(p0, t0)
        decreases if IsBlack(t) then Depth(p) + 1 else 0
      {
        ShortSibling(p, t);
        SiblingLinks(p, t);
        ghost var p', t';
        if parent.left == elm {
          done, p', t' := RemoveColorLeft(parent, p, t);
        } else {
          done, p', t' := RemoveColorRight(parent, p, t);
        }
        p, t := p', t';
        if done {
          elm := root;
          break;
        }
        elm := parent;
        RootAbove(p, t);
        parent := elm.parent;
      }
      BlackenLast(elm, done, p, t);
    }

    // ----- removal -----

    /** Unlinks elm, a node with at most one child, and puts that child in its place. */
    method SpliceOut(elm: Node<T>, child: Node?<T>, parent: Node?<T>, ghost p: Path<Node<T>>, ghost t: Shape<Node<T>>,
                     ghost c: Shape<Node<T>>)
      requires State(p, t) && t.Br? && t.node == elm && parent == Above(p) && child == Root(c)
      requires (t.left.Leaf? && c == t.right) || (t.right.Leaf? && c == t.left)
      modifies this, PathElems(p), Elems(c)
      ensures shape == old(shape)
      ensures State(p, c) && elm !in PathElems(p) && elm !in Elems(c)
    {
      assert Linked(c, elm) && Distinct(c);
      assert c.Br? ==> Linked(c.left, c.node) && Linked(c.right, c.node);
      assert allocated(Elems(c)) && allocated(PathElems(p));
      SpliceLink(elm, child, parent, p);
      assert c.Br? ==> Linked(c.left, c.node) && Linked(c.right, c.node);
      assert Linked(c, Above(p));
    }

    method SpliceLink(elm: Node<T>, child: Node?<T>, parent: Node?<T>, ghost p: Path<Node<T>>)
      requires PathLinked(p, elm, root) && PathDistinct(p) && parent == Above(p) && elm !in PathElems(p)
      requires child != null ==> child !in PathElems(p) && child != elm
      modifies this, PathElems(p), if child != null then {child} else {}
      ensures shape == old(shape) && PathLinked(p, child, root)
      ensures child != null ==>
                && child.parent == parent && child.left == old(child.left)
                && child.right == old(child.right) && child.color == old(child.color)
    {
      if child != null {
        child.parent := parent;
      }
      ReplaceChild(parent, elm, child, p);
    }

    /** Puts elm in the place of old0: its links, its colour, and the links that point to it. */
    method Transplant(old0: Node<T>, elm: Node<T>, ghost p: Path<Node<T>>, ghost t: Shape<Node<T>>)
      requires State(p, t) && t.Br? && t.node == old0 && t.left.Br?
      requires elm !in PathElems(p) && elm !in Elems(t)
      modifies this, PathElems(p), Elems(t), elm
      ensures shape == old(shape)
      ensures State(p, t.(node := elm))
    {
      ghost var l, r := t.left, t.right;
      assert Linked(l, old0) && Linked(r, old0) && Distinct(l) && Distinct(r);
      assert Linked(l.left, l.node) && Linked(l.right, l.node);
      assert r.Br? ==> Linked(r.left, r.node) && Linked(r.right, r.node);
      assert allocated(Elems(t)) && allocated(PathElems(p));
      TransplantLinks(old0, elm, p);
      assert Linked(l.left, l.node) && Linked(l.right, l.node);
      assert r.Br? ==> Linked(r.left, r.node) && Linked(r.right, r.node);
      assert Linked(l, elm) && Linked(r, elm);
      StateJoined(p, t.(node := elm));
    }

    method TransplantLinks(old0: Node<T>, elm: Node<T>, ghost p: Path<Node<T>>)
      requires PathLinked(p, old0, root) && PathDistinct(p) && old0.parent == Above(p) && old0 !in PathElems(p)
      requires old0.left != null && old0.left != old0.right && elm != old0
      requires {elm, old0.left} !! PathElems(p) && elm != old0.left
      requires old0.right != null ==> old0.right !in PathElems(p) && old0.right != elm && old0.right != old0
      requires old0.left != old0
      modifies this, PathElems(p), elm, old0.left, if old0.right != null then {old0.right} else {}
      ensures shape == old(shape) && PathLinked(p, elm, root)
      ensures elm.left == old(old0.left) && elm.right == old(old0.right)
      ensures elm.parent == Above(p) && elm.color == old(old0.color)
      ensures elm.left.parent == elm && elm.left.left == old(old0.left.left)
      ensures elm.left.right == old(old0.left.right) && elm.left.color == old(old0.left.color)
      ensures elm.right != null ==>
                && elm.right.parent == elm && elm.right.left == old(old0.right.left)
                && elm.right.right == old(old0.right.right) && elm.right.color == old(old0.right.color)
    {
      assert allocated(PathElems(p));
      elm.left, elm.right, elm.parent, elm.color := old0.left, old0.right, old0.parent, old0.color;
      ReplaceChild(old0.parent, old0, elm, p);
      old0.left.parent := elm;
      if old0.right != null {
        old0.right.parent := elm;
      }
    }

    /** Transplant, seen from a position inside the right subtree of the node replaced. */
    method ReplaceInside(old0: Node<T>, elm: Node<T>, ghost p: Path<Node<T>>, ghost t: Shape<Node<T>>,
                         ghost q: Path<Node<T>>, ghost s: Shape<Node<T>>)
      requires t.Br? && t.node == old0 && t.left.Br? && State(Compose(q, RightChild(p, t)), s)
      requires elm !in PathElems(Compose(q, RightChild(p, t))) && elm !in Elems(s)
      modifies this, PathElems(Compose(q, RightChild(p, t))), Elems(s), elm
      ensures shape == old(shape)
      ensures State(Compose(q, InRight(t.left, elm, t.color, p)), s)
    {
      ghost var t' := t.(right := Plug(q, s));
      FromComposed(q, RightChild(p, t), s);
      StateUp(RightChild(p, t), Plug(q, s));
      WholeUp(RightChild(p, t), Plug(q, s));
      Transplant(old0, elm, p, t');
      ghost var base := InRight(t.left, elm, t.color, p);
      StateUp(base, Plug(q, s));
      FromComposed(q, base, s);
    }

    lemma NodeLinks(p: Path<Node<T>>, t: Shape<Node<T>>)
      requires State(p, t) && t.Br?
      ensures t.node.left == Root(t.left) && t.node.right == Root(t.right)
      ensures t.node.parent == Above(p) && t.node.color == t.color
    {
    }

    /** The walk of RB_REMOVE to the least node right of old0. */
    method Successor(old0: Node<T>, ghost p: Path<Node<T>>, ghost t: Shape<Node<T>>)
      returns (elm: Node<T>, ghost q: Path<Node<T>>, ghost s: Shape<Node<T>>)
      requires State(p, t) && t.Br? && t.node == old0 && t.right.Br?
      ensures State(Compose(q, RightChild(p, t)), s) && s.Br? && s.node == elm && s.left.Leaf?
      ensures Leftmost(q) && Plug(q, s) == t.right
    {
      ghost var base := RightChild(p, t);
      q, s := Top, t.right;
      StateUp(base, s);
      elm := old0.right;
      while elm.left != null
        invariant State(Compose(q, base), s) && s.Br? && s.node == elm
        invariant Leftmost(q) && Plug(q, s) == t.right
        decreases s
      {
        StateUp(LeftChild(Compose(q, base), s), s.left);
        q, s := LeftChild(q, s), s.left;
        elm := elm.left;
      }
    }

    /** The branch of RB_REMOVE for a node with two children. */
    method RemoveSuccessor(old0: Node<T>, ghost p: Path<Node<T>>, ghost t: Shape<Node<T>>)
      returns (elm: Node<T>, child: Node?<T>, parent: Node?<T>, color: Color,
               ghost p': Path<Node<T>>, ghost t': Shape<Node<T>>)
      requires State(p, t) && Fine(p, t) && t.Br? && t.node == old0 && t.left.Br? && t.right.Br?
      modifies this, PathElems(p), Elems(t)
      ensures shape == old(shape) && State(p', t')
      ensures parent == Above(p') && child == Root(t')
      ensures if color == Red then Fine(p', t') else Short(p', t')
      ensures Whole(p', t') == (Before(p) + Inorder(t.left)) + (Inorder(t.right) + After(p))
      ensures PathElems(p') + Elems(t') <= PathElems(p) + Elems(t)
    {
      ghost var q, s;
      elm, q, s := Successor(old0, p, t);
      ghost var below := Compose(q, RightChild(p, t));
      p', t' := Compose(q, InRight(t.left, elm, t.color, p)), s.right;
      SuccessorMoved(p, t, q, s, p');
      NodeLinks(below, s);
      AboveComposed(q, RightChild(p, t));
      child := elm.right;
      parent := elm.parent;
      color := elm.color;
      SpliceOut(elm, child, parent, below, s, s.right);
      if elm.parent == old0 {
        parent := elm;
      }
      ReplaceInside(old0, elm, p, t, q, s.right);
    }

    /** RB_REMOVE up to the label color. */
    method Detach(elm0: Node<T>, ghost p: Path<Node<T>>, ghost t: Shape<Node<T>>)
      returns (child: Node?<T>, parent: Node?<T>, color: Color, ghost p': Path<Node<T>>, ghost t': Shape<Node<T>>)
      requires State(p, t) && Fine(p, t) && t.Br? && t.node == elm0
      modifies this, PathElems(p), Elems(t)
      ensures shape == old(shape) && State(p', t')
      ensures parent == Above(p') && child == Root(t')
      ensures if color == Red then Fine(p', t') else Short(p', t')
      ensures Whole(p', t') == (Before(p) + Inorder(t.left)) + (Inorder(t.right) + After(p))
      ensures PathElems(p') + Elems(t') <= PathElems(p) + Elems(t)
    {
      NodeLinks(p, t);
      if elm0.left != null && elm0.right != null {
        var elm;
        elm, child, parent, color, p', t' := RemoveSuccessor(elm0, p, t);
      } else {
        child := if elm0.left == null then elm0.right else elm0.left;
        parent := elm0.parent;
        color := elm0.color;
        p', t' := p, if t.left.Leaf? then t.right else t.left;
        SplicedOut(p, t, t');
        SpliceOut(elm0, child, parent, p, t, t');
      }
    }

    /** RB_REMOVE of a member: exactly that node goes, and the rules hold again. */
    method Remove(elm0: Node<T>) returns (res: Node<T>)
      requires Valid() && elm0 in Elems(shape)
      modifies this, Elems(shape)
      ensures Valid() && res == elm0
      ensures Elements() == Without(old(Elements()), elm0)
    {
      ghost var p, t := Locate(shape, elm0, Top);
      FromTop(p, t);
      PlugFine(p, t);
      PlugElems(p, t);
      PlugInorder(p, t);
      ghost var a, z := Before(p) + Inorder(t.left), Inorder(t.right) + After(p);
      SplitAround(p, t);
      ghost var p', t';
      var child, parent, color;
      child, parent, color, p', t' := Detach(elm0, p, t);
      if color == Black {
        RemoveColor(parent, child, p', t');
      } else {
        Settle(p', t');
      }
      res := elm0;
      SortedWithout(a, elm0, z);
    }

    /** A position in order is recorded as the whole tree. */
    ghost method Settle(p: Path<Node<T>>, t: Shape<Node<T>>)
      requires State(p, t) && Fine(p, t)
      modifies this
      ensures root == old(root) && Sound() && Inorder(shape) == Whole(p, t)
    {
      FromTop(p, t);
      PlugFine(p, t);
      PlugInorder(p, t);
      PlugElems(p, t);
      shape := Plug(p, t);
      assert State(Top, shape);
    }

    // ----- insertion, search, traversal -----

    constructor ()
      ensures Valid() && Elements() == [] && root == null && shape == Leaf
    {
      root := null;
      shape := Leaf;
    }

    /** A search position: the whole tree seen from p, every other key ruled out. */
    ghost predicate Seeking(p: Path<Node<T>>, t: Shape<Node<T>>, key: int)
      reads this, PathElems(p), Elems(t)
    {
      State(p, t) && Plug(p, t) == shape && Narrowed(p, key)
    }

    lemma SeekLeft(p: Path<Node<T>>, t: Shape<Node<T>>, key: int)
      requires Seeking(p, t, key) && Sorted(Elements()) && t.Br? && key < t.node.key
      ensures Seeking(LeftChild(p, t), t.left, key)
    {
      StateUp(LeftChild(p, t), t.left);
      NarrowLeft(p, t, key);
    }

    lemma SeekRight(p: Path<Node<T>>, t: Shape<Node<T>>, key: int)
      requires Seeking(p, t, key) && Sorted(Elements()) && t.Br? && key > t.node.key
      ensures Seeking(RightChild(p, t), t.right, key)
    {
      StateUp(RightChild(p, t), t.right);
      NarrowRight(p, t, key);
    }

    /** The height is at most 2 lg (n + 1). */
    lemma Balanced()
      requires Valid()
      ensures Pow2(Height(shape)) <= (|Elements()| + 1) * (|Elements()| + 1)
    {
      HeightBound(shape);
    }

    /** RB_FIND: decides membership, within 2 lg (n + 1) comparisons. */
    method Find(key: int) returns (res: Node?<T>, ghost comparisons: nat)
      requires Valid()
      ensures res != null ==> res in Elements() && res.key == key
      ensures res == null ==> forall x :: x in Elements() ==> x.key != key
      ensures Pow2(comparisons) <= (|Elements()| + 1) * (|Elements()| + 1)
    {
      Balanced();
      var tmp := root;
      ghost var p, t := Top, shape;
      comparisons := 0;
      res := null;
      while tmp != null
        invariant Seeking(p, t, key) && tmp == Root(t)
        invariant comparisons + Height(t) <= Height(shape)
        decreases t
      {
        NodeLinks(p, t);
        comparisons := comparisons + 1;
        if key < tmp.key {
          SeekLeft(p, t, key);
          p, t := LeftChild(p, t), t.left;
          tmp := tmp.left;
        } else if key > tmp.key {
          SeekRight(p, t, key);
          p, t := RightChild(p, t), t.right;
          tmp := tmp.right;
        } else {
          res := tmp;
          break;
        }
      }
      PlugInorder(p, t);
      Pow2Monotone(comparisons, Height(shape));
    }

    /** RB_SET and the linking of a new red leaf below parent. */
    method Attach(elm: Node<T>, parent: Node?<T>, comp: int, ghost p: Path<Node<T>>)
      requires State(p, Leaf) && parent == Above(p) && elm !in PathElems(p)
      requires (p.InLeft? ==> comp < 0) && (p.InRight? ==> comp > 0)
      modifies this, PathElems(p), elm
      ensures shape == old(shape)
      ensures State(p, Br(Leaf, elm, Red, Leaf))
    {
      assert p.InLeft? ==> Linked(p.right, p.node) && PathLinked(p.up, p.node, root);
      assert p.InRight? ==> Linked(p.left, p.node) && PathLinked(p.up, p.node, root);
      elm.parent := parent;
      elm.left, elm.right := null, null;
      elm.color := Red;
      if parent != null {
        if comp < 0 {
          parent.left := elm;
        } else {
          parent.right := elm;
        }
      } else {
        root := elm;
      }
      assert p.InLeft? ==> Linked(p.right, p.node) && PathLinked(p.up, p.node, root);
      assert p.InRight? ==> Linked(p.left, p.node) && PathLinked(p.up, p.node, root);
      assert PathLinked(p, elm, root);
      assert Linked(Br(Leaf, elm, Red, Leaf), Above(p));
      assert Elems(Br(Leaf, elm, Red, Leaf)) == {elm};
    }

    /** The descent of RB_INSERT: a node of equal key, or the free place for it. */
    method Descend(key: int) returns (found: Node?<T>, parent: Node?<T>, comp: int, ghost p: Path<Node<T>>)
      requires Valid()
      ensures found != null ==> found in Elements() && found.key == key
      ensures found == null ==>
                && Seeking(p, Leaf, key) && parent == Above(p)
                && (p.InLeft? ==> comp < 0) && (p.InRight? ==> comp > 0)
    {
      var tmp := root;
      ghost var t := shape;
      found, parent, comp, p := null, null, 0, Top;
      while tmp != null
        invariant Seeking(p, t, key) && tmp == Root(t) && parent == Above(p)
        invariant (p.InLeft? ==> comp < 0) && (p.InRight? ==> comp > 0)
        decreases t
      {
        NodeLinks(p, t);
        parent := tmp;
        comp := if key < tmp.key then -1 else if key > tmp.key then 1 else 0;
        if comp < 0 {
          SeekLeft(p, t, key);
          p, t := LeftChild(p, t), t.left;
          tmp := tmp.left;
        } else if comp > 0 {
          SeekRight(p, t, key);
          p, t := RightChild(p, t), t.right;
          tmp := tmp.right;
        } else {
          SplitAround(p, t);
          found := tmp;
          return;
        }
      }
    }

    /**
     RB_INSERT: adds exactly elm, or returns the node of equal key and changes nothing: the shape,
     which the links of every member spell out, stays as it was.
     */
    method Insert(elm: Node<T>) returns (res: Node?<T>)
      requires Valid() && elm !in Elems(shape)
      modifies this, Elems(shape), elm
      ensures Valid()
      ensures res != null ==> res in old(Elements()) && res.key == elm.key
      ensures res != null ==> unchanged(this) && unchanged(elm)
      ensures res == null ==> forall x :: x in old(Elements()) ==> x.key != elm.key
      ensures res == null ==> Elements() == Inserted(old(Elements()), elm)
    {
      ghost var p;
      var parent, comp;
      assert allocated(Elems(shape));
      res, parent, comp, p := Descend(elm.key);
      if res != null {
        return;
      }
      Place(elm, parent, comp, p);
    }

    /** The half of RB_INSERT that changes the tree. */
    method Place(elm: Node<T>, parent: Node?<T>, comp: int, ghost p: Path<Node<T>>)
      requires Valid() && elm !in Elems(shape) && Seeking(p, Leaf, elm.key) && parent == Above(p)
      requires (p.InLeft? ==> comp < 0) && (p.InRight? ==> comp > 0)
      modifies this, Elems(shape), elm
      ensures Valid() && Elements() == Inserted(old(Elements()), elm)
      ensures forall x :: x in old(Elements()) ==> x.key != elm.key
    {
      PlugElems(p, Leaf);
      LeafColors(p, elm);
      LeafOrder(p, elm);
      Attach(elm, parent, comp, p);
      InsertColor(elm, p, Br(Leaf, elm, Red, Leaf));
    }

    /** RB_MINMAX: the least member for a negative val, else the greatest. */
    method MinMax(val: int) returns (parent: Node?<T>)
      requires Valid()
      ensures parent == null <==> Elements() == []
      ensures parent != null ==> parent == (if val < 0 then Elements()[0] else Elements()[|Elements()| - 1])
    {
      var tmp := root;
      ghost var p, t := Top, shape;
      parent := null;
      while tmp != null
        invariant State(p, t) && Plug(p, t) == shape && tmp == Root(t) && parent == Above(p)
        invariant if val < 0 then Before(p) == [] else After(p) == []
        invariant parent == null <==> p.Top?
        invariant t == Leaf && p.Top? ==> shape == Leaf
        invariant val < 0 ==> p.Top? || p.InLeft?
        invariant val >= 0 ==> p.Top? || p.InRight?
        decreases t
      {
        NodeLinks(p, t);
        parent := tmp;
        if val < 0 {
          StateUp(LeftChild(p, t), t.left);
          p, t := LeftChild(p, t), t.left;
          tmp := tmp.left;
        } else {
          StateUp(RightChild(p, t), t.right);
          p, t := RightChild(p, t), t.right;
          tmp := tmp.right;
        }
      }
      PlugInorder(p, t);
    }

    /** The walk of RB_NEXT down the left links. */
    method LeastBelow(elm0: Node<T>, ghost q0: Path<Node<T>>, ghost s0: Shape<Node<T>>)
      returns (elm: Node<T>, ghost q: Path<Node<T>>, ghost s: Shape<Node<T>>)
      requires State(q0, s0) && s0.Br? && s0.node == elm0
      ensures s.Br? && s.node == elm && s.left.Leaf? && Plug(q, s) == Plug(q0, s0) && Before(q) == Before(q0)
    {
      elm := elm0;
      q, s := q0, s0;
      NodeLinks(q, s);
      while elm.left != null
        invariant State(q, s) && s.Br? && s.node == elm && elm.left == Root(s.left)
        invariant Plug(q, s) == Plug(q0, s0) && Before(q) == Before(q0)
        decreases s
      {
        StateUp(LeftChild(q, s), s.left);
        q, s := LeftChild(q, s), s.left;
        elm := elm.left;
        NodeLinks(q, s);
      }
    }

    /** RB_NEXT: the member after elm in order, null after the last. */
    method Next(elm0: Node<T>, ghost i: nat) returns (elm: Node?<T>)
      requires Valid() && i < |Elements()| && Elements()[i] == elm0
      ensures elm == if i + 1 < |Elements()| then Elements()[i + 1] else null
    {
      InorderElems(shape);
      ghost var p, t := Locate(shape, elm0, Top);
      FromTop(p, t);
      NodeLinks(p, t);
      ghost var z;
      if elm0.right != null {
        StateUp(RightChild(p, t), t.right);
        ghost var q, s;
        elm, q, s := LeastBelow(elm0.right, RightChild(p, t), t.right);
        z := [s.node] + (Inorder(s.right) + After(q));
        SplitTwice(p, t, q, s);
      } else {
        elm := Climb(elm0, p, t);
        z := After(p);
        SplitAround(p, t);
        assert [] + After(p) == After(p);
      }
      NextAt(Before(p) + Inorder(t.left), elm0, z);
    }

    /** The walk of RB_NEXT up the parent links. */
    method Climb(elm0: Node<T>, ghost p: Path<Node<T>>, ghost t: Shape<Node<T>>) returns (elm: Node?<T>)
      requires State(p, t) && t.Br? && t.node == elm0 && t.right.Leaf?
      ensures elm == if After(p) == [] then null else After(p)[0]
    {
      elm := elm0;
      ghost var q, s := p, t;
      NodeLinks(q, s);
      StateUpIf(q, s);
      if elm.parent != null && elm == elm.parent.left {
        elm := elm.parent;
      } else {
        while elm.parent != null && elm == elm.parent.right
          invariant State(q, s) && s.Br? && s.node == elm && elm.parent == Above(q)
          invariant After(q) == After(p)
          invariant !q.Top? ==> (q.InLeft? <==> q.node.left == s.node) && (q.InRight? <==> q.node.right == s.node)
          decreases Depth(q)
        {
          elm := elm.parent;
          StateUpIf(q, s);
          q, s := q.up, Up(q, s);
          NodeLinks(q, s);
          StateUpIf(q, s);
        }
        elm := elm.parent;
      }
    }

    lemma StateUpIf(p: Path<Node<T>>, t: Shape<Node<T>>)
      requires State(p, t) && t.Br?
      ensures !p.Top? ==> State(p.up, Up(p, t))
      ensures !p.Top? ==> (p.InLeft? <==> p.node.left == t.node) && (p.InRight? <==> p.node.right == t.node)
    {
      if !p.Top? {
        StateUp(p, t);
      }
    }
  }

  lemma {:induction false} SplitTwice<N>(p: Path<N>, t: Shape<N>, q: Path<N>, s: Shape<N>)
    requires t.Br? && s.Br? && s.left.Leaf? && Plug(q, s) == Plug(p, t) && Before(q) == Before(RightChild(p, t))
    ensures Inorder(Plug(p, t)) == (Before(p) + Inorder(t.left)) + [t.node] + ([s.node] + (Inorder(s.right) + After(q)))
  {
    SplitAround(q, s);
  }

  lemma NextAt<T>(a: seq<Node<T>>, x: Node<T>, z: seq<Node<T>>)
    requires Sorted(a + [x] + z)
    ensures forall i :: 0 <= i < |a + [x] + z| && (a + [x] + z)[i] == x ==> i == |a|
    ensures |a| + 1 < |a + [x] + z| <==> z != []
    ensures z != [] ==> (a + [x] + z)[|a| + 1] == z[0]
  {
    var s := a + [x] + z;
    assert s[|a|] == x;
  }
}
