/**
 Pure side of the red-black tree of tree.h: coloured shapes, the path from a
 position up to the root, and the colour rules stated about both.

 A position inside a tree is a pair (path, shape): plugging the shape into the
 path gives the whole tree.  The two repair loops of tree.h break the rules at
 exactly one position, so their invariants are stated as "the path fits a
 subtree of such a black height" and "the subtree is good".
 */
module RbShape {
  import opened Numbers

  datatype Color = Red | Black

  datatype Shape<N> =
    | Leaf
    | Br(left: Shape<N>, node: N, color: Color, right: Shape<N>)

  datatype Path<N> =
    | Top
    | InLeft(up: Path<N>, node: N, color: Color, right: Shape<N>)
    | InRight(left: Shape<N>, node: N, color: Color, up: Path<N>)

  // ----- contents -----

  ghost function Inorder<N>(t: Shape<N>): seq<N> {
    match t
    case Leaf => []
    case Br(l, n, _, r) => Inorder(l) + [n] + Inorder(r)
  }

  ghost function Elems<N>(t: Shape<N>): set<N> {
    match t
    case Leaf => {}
    case Br(l, n, _, r) => Elems(l) + {n} + Elems(r)
  }

  /** What lies left of the hole of a path, in order. */
  ghost function Before<N>(p: Path<N>): seq<N> {
    match p
    case Top => []
    case InLeft(up, _, _, _) => Before(up)
    case InRight(l, n, _, up) => Before(up) + Inorder(l) + [n]
  }

  /** What lies right of the hole of a path, in order. */
  ghost function After<N>(p: Path<N>): seq<N> {
    match p
    case Top => []
    case InLeft(up, n, _, r) => [n] + Inorder(r) + After(up)
    case InRight(_, _, _, up) => After(up)
  }

  ghost function PathElems<N>(p: Path<N>): set<N> {
    match p
    case Top => {}
    case InLeft(up, n, _, r) => PathElems(up) + {n} + Elems(r)
    case InRight(l, n, _, up) => PathElems(up) + {n} + Elems(l)
  }

  ghost function Plug<N>(p: Path<N>, t: Shape<N>): Shape<N> {
    match p
    case Top => t
    case InLeft(up, n, c, r) => Plug(up, Br(t, n, c, r))
    case InRight(l, n, c, up) => Plug(up, Br(l, n, c, t))
  }

  /** The path that continues below q with base. */
  ghost function Compose<N>(q: Path<N>, base: Path<N>): Path<N> {
    match q
    case Top => base
    case InLeft(up, n, c, r) => InLeft(Compose(up, base), n, c, r)
    case InRight(l, n, c, up) => InRight(l, n, c, Compose(up, base))
  }

  ghost function Depth<N>(p: Path<N>): nat {
    match p
    case Top => 0
    case InLeft(up, _, _, _) => 1 + Depth(up)
    case InRight(_, _, _, up) => 1 + Depth(up)
  }

  /** The subtree one step up. */
  ghost function Up<N>(p: Path<N>, t: Shape<N>): Shape<N>
    requires !p.Top?
  {
    if p.InLeft? then Br(t, p.node, p.color, p.right) else Br(p.left, p.node, p.color, t)
  }

  ghost function LeftChild<N>(p: Path<N>, t: Shape<N>): Path<N>
    requires t.Br?
  {
    InLeft(p, t.node, t.color, t.right)
  }

  ghost function RightChild<N>(p: Path<N>, t: Shape<N>): Path<N>
    requires t.Br?
  {
    InRight(t.left, t.node, t.color, p)
  }

  ghost function Sibling<N>(p: Path<N>): Shape<N>
    requires !p.Top?
  {
    if p.InLeft? then p.right else p.left
  }

  /** In-order contents of the tree at a position. */
  ghost function Whole<N>(p: Path<N>, t: Shape<N>): seq<N> {
    Before(p) + Inorder(t) + After(p)
  }

  lemma {:induction false} PlugInorder<N>(p: Path<N>, t: Shape<N>)
    ensures Inorder(Plug(p, t)) == Whole(p, t)
  {
    if !p.Top? {
      PlugInorder(p.up, Up(p, t));
      WholeUp(p, t);
    }
  }

  lemma WholeUp<N>(p: Path<N>, t: Shape<N>)
    requires !p.Top?
    ensures Whole(p, t) == Whole(p.up, Up(p, t))
    ensures PathElems(p) + Elems(t) == PathElems(p.up) + Elems(Up(p, t))
  {
  }

  /** The whole sequence, split at the node in focus. */
  lemma {:induction false} SplitAround<N>(p: Path<N>, t: Shape<N>)
    requires t.Br?
    ensures Inorder(Plug(p, t)) == (Before(p) + Inorder(t.left)) + [t.node] + (Inorder(t.right) + After(p))
  {
    PlugInorder(p, t);
  }

  lemma {:induction false} PlugElems<N>(p: Path<N>, t: Shape<N>)
    ensures Elems(Plug(p, t)) == PathElems(p) + Elems(t)
  {
    if !p.Top? {
      PlugElems(p.up, Up(p, t));
      WholeUp(p, t);
    }
  }

  lemma {:induction false} InorderElems<N>(t: Shape<N>)
    ensures forall x :: x in Inorder(t) <==> x in Elems(t)
  {
    match t
    case Leaf =>
    case Br(l, n, c, r) =>
      InorderElems(l);
      InorderElems(r);
  }

  lemma {:induction false} PathOrderElems<N>(p: Path<N>)
    ensures forall x :: x in Before(p) + After(p) <==> x in PathElems(p)
  {
    match p
    case Top =>
    case InLeft(up, n, c, r) =>
      PathOrderElems(up);
      InorderElems(r);
    case InRight(l, n, c, up) =>
      PathOrderElems(up);
      InorderElems(l);
  }

  lemma {:induction false} ComposePlug<N>(q: Path<N>, base: Path<N>, t: Shape<N>)
    ensures Plug(Compose(q, base), t) == Plug(base, Plug(q, t))
  {
    match q
    case Top =>
    case InLeft(up, n, c, r) => ComposePlug(up, base, Br(t, n, c, r));
    case InRight(l, n, c, up) => ComposePlug(up, base, Br(l, n, c, t));
  }

  /** Every member sits at some position. */
  lemma {:induction false} Locate<N>(t: Shape<N>, x: N, p: Path<N>) returns (q: Path<N>, s: Shape<N>)
    requires x in Elems(t)
    ensures s.Br? && s.node == x && Plug(q, s) == Plug(p, t)
    decreases t
  {
    if x == t.node {
      q, s := p, t;
    } else if x in Elems(t.left) {
      q, s := Locate(t.left, x, InLeft(p, t.node, t.color, t.right));
    } else {
      q, s := Locate(t.right, x, InRight(t.left, t.node, t.color, p));
    }
  }

  ghost predicate Distinct<N>(t: Shape<N>) {
    match t
    case Leaf => true
    case Br(l, n, _, r) =>
      && n !in Elems(l) && n !in Elems(r) && Elems(l) !! Elems(r)
      && Distinct(l) && Distinct(r)
  }

  ghost predicate PathDistinct<N>(p: Path<N>) {
    match p
    case Top => true
    case InLeft(up, n, _, r) =>
      && n !in Elems(r) && n !in PathElems(up) && Elems(r) !! PathElems(up)
      && Distinct(r) && PathDistinct(up)
    case InRight(l, n, _, up) =>
      && n !in Elems(l) && n !in PathElems(up) && Elems(l) !! PathElems(up)
      && Distinct(l) && PathDistinct(up)
  }

  /** A path made of left turns only: its hole is the least position below. */
  ghost predicate Leftmost<N>(q: Path<N>) {
    match q
    case Top => true
    case InLeft(up, _, _, _) => Leftmost(up)
    case InRight(_, _, _, _) => false
  }

  lemma {:induction false} LeftmostBefore<N>(q: Path<N>)
    requires Leftmost(q)
    ensures Before(q) == []
  {
    if !q.Top? {
      LeftmostBefore(q.up);
    }
  }

  // ----- the colour rules -----

  ghost predicate IsBlack<N>(t: Shape<N>) {
    t.Br? ==> t.color == Black
  }

  ghost function Unit(c: Color): nat {
    if c == Black then 1 else 0
  }

  /** Black nodes on the leftmost search path. */
  ghost function BlackHeight<N>(t: Shape<N>): nat {
    match t
    case Leaf => 0
    case Br(l, _, c, _) => BlackHeight(l) + Unit(c)
  }

  /** Equal black counts on all search paths, and no red node with a red child. */
  ghost predicate Good<N>(t: Shape<N>) {
    match t
    case Leaf => true
    case Br(l, _, c, r) =>
      && BlackHeight(l) == BlackHeight(r)
      && (c == Red ==> IsBlack(l) && IsBlack(r))
      && Good(l) && Good(r)
  }

  ghost predicate RedBlack<N>(t: Shape<N>) {
    Good(t) && IsBlack(t)
  }

  /** The colour above the hole; the root position counts as black. */
  ghost predicate BlackAbove<N>(p: Path<N>) {
    !p.Top? ==> p.color == Black
  }

  /** A black-rooted good subtree of black height h makes the whole tree red-black. */
  ghost predicate Fits<N>(p: Path<N>, h: nat) {
    match p
    case Top => true
    case InLeft(up, _, c, r) =>
      && Good(r) && BlackHeight(r) == h
      && (c == Red ==> IsBlack(r) && !up.Top? && BlackAbove(up))
      && Fits(up, h + Unit(c))
    case InRight(l, _, c, up) =>
      && Good(l) && BlackHeight(l) == h
      && (c == Red ==> IsBlack(l) && !up.Top? && BlackAbove(up))
      && Fits(up, h + Unit(c))
  }

  /**
   Position-wise form of RedBlack.

   Here and in the other modules "true == (...)" says no more than the conjunction inside
   it.  A predicate with a bare conjunction for its body is split into one proof obligation
   per conjunct wherever it has to be shown; written this way it is shown as a whole.
   */
  ghost predicate Fine<N>(p: Path<N>, t: Shape<N>) {
    true == (Good(t) && Fits(p, BlackHeight(t)) && (IsBlack(t) || (!p.Top? && BlackAbove(p))))
  }

  lemma GoodUp<N>(p: Path<N>, t: Shape<N>, h: nat)
    requires !p.Top? && h == BlackHeight(t)
    ensures Good(Up(p, t)) <==> Good(t) && Good(Sibling(p)) && BlackHeight(Sibling(p)) == h
                                && (p.color == Red ==> IsBlack(t) && IsBlack(Sibling(p)))
    ensures Good(Up(p, t)) ==> BlackHeight(Up(p, t)) == h + Unit(p.color)
    ensures IsBlack(Up(p, t)) <==> p.color == Black
  {
  }

  lemma FitsUp<N>(p: Path<N>, h: nat)
    requires !p.Top?
    ensures Fits(p, h) <==> Good(Sibling(p)) && BlackHeight(Sibling(p)) == h && Fits(p.up, h + Unit(p.color))
                            && (p.color == Red ==> IsBlack(Sibling(p)) && !p.up.Top? && BlackAbove(p.up))
  {
  }

  lemma FineUp<N>(p: Path<N>, t: Shape<N>)
    requires !p.Top?
    ensures Fine(p, t) <==> Fine(p.up, Up(p, t))
  {
    var h := BlackHeight(t);
    GoodUp(p, t, h);
    FitsUp(p, h);
  }

  lemma {:induction false} PlugFine<N>(p: Path<N>, t: Shape<N>)
    ensures Fine(p, t) <==> RedBlack(Plug(p, t))
  {
    if !p.Top? {
      FineUp(p, t);
      PlugFine(p.up, Up(p, t));
    }
  }

  /** Swapping one node for another above a position changes no colour rule. */
  lemma {:induction false} ComposeFits<N>(q: Path<N>, b: Path<N>, b': Path<N>, h: nat)
    requires b.InRight? && b'.InRight? && b' == b.(node := b'.node)
    requires Fits(Compose(q, b), h)
    ensures Fits(Compose(q, b'), h)
    ensures BlackAbove(Compose(q, b)) == BlackAbove(Compose(q, b'))
    ensures Compose(q, b).Top? == Compose(q, b').Top?
  {
    match q
    case Top =>
    case InLeft(up, n, c, r) => ComposeFits(up, b, b', h + Unit(c));
    case InRight(l, n, c, up) => ComposeFits(up, b, b', h + Unit(c));
  }

  lemma {:induction false} ComposeOrder<N>(q: Path<N>, b: Path<N>)
    ensures Before(Compose(q, b)) == Before(b) + Before(q)
    ensures After(Compose(q, b)) == After(q) + After(b)
  {
    match q
    case Top =>
    case InLeft(up, n, c, r) => ComposeOrder(up, b);
    case InRight(l, n, c, up) => ComposeOrder(up, b);
  }

  // ----- the insertion repair, one step at a time -----

  /** A red node whose parent may be red too, everything else in order. */
  ghost predicate Pending<N>(p: Path<N>, t: Shape<N>) {
    true == (t.Br? && t.color == Red && Good(t) && Fits(p, BlackHeight(t)))
  }

  ghost function Grand<N>(p: Path<N>, t: Shape<N>): Shape<N>
    requires !p.Top? && !p.up.Top?
  {
    Up(p.up, Up(p, t))
  }

  ghost function Painted<N>(t: Shape<N>, c: Color): Shape<N> {
    if t.Br? then t.(color := c) else t
  }

  ghost function Flipped<N>(g: Shape<N>): Shape<N>
    requires g.Br?
  {
    Br(Painted(g.left, Black), g.node, Red, Painted(g.right, Black))
  }

  lemma RedParent<N>(p: Path<N>, t: Shape<N>)
    requires Pending(p, t) && !p.Top? && p.color == Red
    ensures !p.up.Top? && p.up.color == Black
    ensures Fits(p.up, BlackHeight(t)) && Fits(p.up.up, BlackHeight(t) + 1)
    ensures IsBlack(if p.InLeft? then p.right else p.left)
    ensures Whole(p, t) == Whole(p.up.up, Grand(p, t))
    ensures PathElems(p) + Elems(t) == PathElems(p.up.up) + Elems(Grand(p, t))
  {
    WholeUp(p, t);
    WholeUp(p.up, Up(p, t));
  }

  lemma FlippedOrder<N>(g: Shape<N>)
    requires g.Br?
    ensures Inorder(Flipped(g)) == Inorder(g) && Elems(Flipped(g)) == Elems(g)
  {
  }

  /** Red uncle: the redness moves two levels up. */
  lemma FlipKeeps<N>(p: Path<N>, t: Shape<N>)
    requires Pending(p, t) && !p.Top? && p.color == Red && !p.up.Top?
    requires var g := Grand(p, t); !IsBlack(g.left) && !IsBlack(g.right)
    ensures Pending(p.up.up, Flipped(Grand(p, t)))
    ensures Whole(p.up.up, Flipped(Grand(p, t))) == Whole(p, t)
    ensures PathElems(p.up.up) + Elems(Flipped(Grand(p, t))) == PathElems(p) + Elems(t)
  {
    RedParent(p, t);
    var s := Up(p, t);
    assert Good(Painted(s, Black)) && BlackHeight(Painted(s, Black)) == BlackHeight(t) + 1;
    var u := Sibling(p.up);
    assert Good(Painted(u, Black)) && BlackHeight(Painted(u, Black)) == BlackHeight(t) + 1;
    FlippedOrder(Grand(p, t));
  }

  lemma Reassociate<N>(a: Shape<N>, x: N, b: Shape<N>, y: N, e: Shape<N>, c: Color, d: Color, c': Color, d': Color)
    ensures Inorder(Br(Br(a, x, c, b), y, d, e)) == Inorder(Br(a, x, c', Br(b, y, d', e)))
    ensures Elems(Br(Br(a, x, c, b), y, d, e)) == Elems(Br(a, x, c', Br(b, y, d', e)))
  {
    var i, j, k := Inorder(a), Inorder(b), Inorder(e);
    assert (i + [x] + j) + [y] + k == i + [x] + (j + [y] + k);
  }

  /** The parent after the inner rotation: the lower red node is an outer grandchild. */
  ghost function StraightLeft<N>(p: Path<N>, t: Shape<N>): Shape<N>
    requires !p.Top? && t.Br?
  {
    if p.InLeft? then Up(p, t) else Br(Br(p.left, p.node, p.color, t.left), t.node, t.color, t.right)
  }

  ghost function StraightRight<N>(p: Path<N>, t: Shape<N>): Shape<N>
    requires !p.Top? && t.Br?
  {
    if p.InRight? then Up(p, t) else Br(t.left, t.node, t.color, Br(t.right, p.node, p.color, p.right))
  }

  lemma StraightOrder<N>(p: Path<N>, t: Shape<N>)
    requires !p.Top? && t.Br?
    ensures Inorder(StraightLeft(p, t)) == Inorder(Up(p, t)) == Inorder(StraightRight(p, t))
    ensures Elems(StraightLeft(p, t)) == Elems(Up(p, t)) == Elems(StraightRight(p, t))
  {
  }

  /** Black uncle on the right: the position left by the rotations. */
  ghost function SettledLeft<N>(p: Path<N>, t: Shape<N>): Path<N>
    requires !p.Top? && t.Br? && !p.up.Top? && p.up.InLeft?
  {
    var s := StraightLeft(p, t);
    InLeft(p.up.up, s.node, Black, Br(s.right, p.up.node, Red, p.up.right))
  }

  ghost function SettledRight<N>(p: Path<N>, t: Shape<N>): Path<N>
    requires !p.Top? && t.Br? && !p.up.Top? && p.up.InRight?
  {
    var s := StraightRight(p, t);
    InRight(Br(p.up.left, p.up.node, Red, s.left), s.node, Black, p.up.up)
  }

  lemma SettledLeftOrder<N>(p: Path<N>, t: Shape<N>)
    requires !p.Top? && t.Br? && !p.up.Top? && p.up.InLeft? && StraightLeft(p, t).left.Br?
    ensures Whole(SettledLeft(p, t), StraightLeft(p, t).left) == Whole(p, t)
    ensures PathElems(SettledLeft(p, t)) + Elems(StraightLeft(p, t).left) == PathElems(p) + Elems(t)
  {
    WholeUp(p, t);
    WholeUp(p.up, Up(p, t));
    StraightOrder(p, t);
    var s := StraightLeft(p, t);
    WholeUp(SettledLeft(p, t), s.left);
    Reassociate(s.left, s.node, s.right, p.up.node, p.up.right, s.color, p.up.color, Black, Red);
  }

  lemma SettledLeftKeeps<N>(p: Path<N>, t: Shape<N>)
    requires Pending(p, t) && !p.Top? && p.color == Red && !p.up.Top? && p.up.InLeft? && IsBlack(p.up.right)
    ensures Pending(SettledLeft(p, t), StraightLeft(p, t).left)
  {
    RedParent(p, t);
    var s := StraightLeft(p, t);
    assert Good(s.left) && Good(s.right) && BlackHeight(s.left) == BlackHeight(s.right) == BlackHeight(t);
    assert !IsBlack(s.left) && IsBlack(s.right);
  }

  lemma SettledRightOrder<N>(p: Path<N>, t: Shape<N>)
    requires !p.Top? && t.Br? && !p.up.Top? && p.up.InRight? && StraightRight(p, t).right.Br?
    ensures Whole(SettledRight(p, t), StraightRight(p, t).right) == Whole(p, t)
    ensures PathElems(SettledRight(p, t)) + Elems(StraightRight(p, t).right) == PathElems(p) + Elems(t)
  {
    WholeUp(p, t);
    WholeUp(p.up, Up(p, t));
    StraightOrder(p, t);
    var s := StraightRight(p, t);
    WholeUp(SettledRight(p, t), s.right);
    Reassociate(p.up.left, p.up.node, s.left, s.node, s.right, Red, Black, p.up.color, s.color);
  }

  lemma SettledRightKeeps<N>(p: Path<N>, t: Shape<N>)
    requires Pending(p, t) && !p.Top? && p.color == Red && !p.up.Top? && p.up.InRight? && IsBlack(p.up.left)
    ensures Pending(SettledRight(p, t), StraightRight(p, t).right)
  {
    RedParent(p, t);
    var s := StraightRight(p, t);
    assert Good(s.left) && Good(s.right) && BlackHeight(s.left) == BlackHeight(s.right) == BlackHeight(t);
    assert !IsBlack(s.right) && IsBlack(s.left);
  }

  lemma PendingDone<N>(p: Path<N>, t: Shape<N>)
    requires Pending(p, t) && BlackAbove(p)
    ensures Plug(p, t).Br? && RedBlack(Painted(Plug(p, t), Black))
    ensures Inorder(Painted(Plug(p, t), Black)) == Whole(p, t)
    ensures Elems(Plug(p, t)) == PathElems(p) + Elems(t)
  {
    PlugInorder(p, t);
    PlugElems(p, t);
    if !p.Top? {
      PlugFine(p, t);
    }
  }

  // ----- the removal repair, one step at a time -----

  /** One black node short below the hole; a red t may have red children, painting it black cures both. */
  ghost predicate Short<N>(p: Path<N>, t: Shape<N>) {
    true == (Good(Painted(t, Black)) && Fits(p, BlackHeight(t) + 1))
  }

  lemma ShortSibling<N>(p: Path<N>, t: Shape<N>)
    requires Short(p, t) && !p.Top?
    ensures Sibling(p).Br? && Good(Sibling(p)) && BlackHeight(Sibling(p)) == BlackHeight(t) + 1
    ensures Fits(p.up, BlackHeight(t) + 1 + Unit(p.color))
    ensures p.color == Red ==> IsBlack(Sibling(p)) && !p.up.Top? && BlackAbove(p.up)
    ensures !IsBlack(Sibling(p)) ==> Sibling(p).left.Br? && Sibling(p).right.Br?
  {
  }

  /** Red sibling: rotated above the parent, which turns red. */
  ghost function Lowered<N>(p: Path<N>): Path<N>
    requires !p.Top? && Sibling(p).Br?
  {
    var w := Sibling(p);
    if p.InLeft? then
      InLeft(InLeft(p.up, w.node, Black, w.right), p.node, Red, w.left)
    else
      InRight(w.right, p.node, Red, InRight(w.left, w.node, Black, p.up))
  }

  lemma LoweredOrder<N>(p: Path<N>, t: Shape<N>)
    requires !p.Top? && Sibling(p).Br?
    ensures Whole(Lowered(p), t) == Whole(p, t)
    ensures PathElems(Lowered(p)) + Elems(t) == PathElems(p) + Elems(t)
  {
    var w, p' := Sibling(p), Lowered(p);
    WholeUp(p, t);
    WholeUp(p', t);
    WholeUp(p'.up, Up(p', t));
    if p.InLeft? {
      Reassociate(t, p.node, w.left, w.node, w.right, Red, Black, p.color, w.color);
    } else {
      Reassociate(w.left, w.node, w.right, p.node, t, w.color, p.color, Black, Red);
    }
  }

  lemma LoweredKeeps<N>(p: Path<N>, t: Shape<N>)
    requires Short(p, t) && !p.Top? && !IsBlack(Sibling(p))
    ensures Sibling(p).Br? && Short(Lowered(p), t) && IsBlack(Sibling(Lowered(p)))
  {
    ShortSibling(p, t);
    var w := Sibling(p);
    assert Good(w.left) && Good(w.right) && BlackHeight(w.left) == BlackHeight(w.right) == BlackHeight(t) + 1;
    assert Fits(Lowered(p).up, BlackHeight(t) + 1);
  }

  /** Black sibling without red children: it turns red and the fault moves up. */
  ghost function Paler<N>(p: Path<N>, t: Shape<N>): Shape<N>
    requires !p.Top?
  {
    var w := Painted(Sibling(p), Red);
    if p.InLeft? then Br(t, p.node, p.color, w) else Br(w, p.node, p.color, t)
  }

  lemma PalerKeeps<N>(p: Path<N>, t: Shape<N>)
    requires Short(p, t) && !p.Top? && IsBlack(t) && IsBlack(Sibling(p))
    requires Sibling(p).Br? && IsBlack(Sibling(p).left) && IsBlack(Sibling(p).right)
    ensures Short(p.up, Paler(p, t)) && Paler(p, t).color == p.color
    ensures Whole(p.up, Paler(p, t)) == Whole(p, t)
    ensures PathElems(p.up) + Elems(Paler(p, t)) == PathElems(p) + Elems(t)
  {
    ShortSibling(p, t);
    WholeUp(p, t);
    var w := Painted(Sibling(p), Red);
    assert Good(w) && BlackHeight(w) == BlackHeight(t);
    assert Inorder(w) == Inorder(Sibling(p)) && Elems(w) == Elems(Sibling(p));
    assert Inorder(Paler(p, t)) == Inorder(Up(p, t));
  }

  /** The sibling after its own rotation, if it needed one: its outer child is red. */
  ghost function OuterLeft<N>(w: Shape<N>): Shape<N>
    requires w.Br?
  {
    if IsBlack(w.left) && w.right.Br? then
      Br(Br(w.left, w.node, Red, w.right.left), w.right.node, Black, w.right.right)
    else w
  }

  ghost function OuterRight<N>(w: Shape<N>): Shape<N>
    requires w.Br?
  {
    if IsBlack(w.right) && w.left.Br? then
      Br(w.left.left, w.left.node, Black, Br(w.left.right, w.node, Red, w.right))
    else w
  }

  lemma OuterOrder<N>(w: Shape<N>)
    requires w.Br?
    ensures Inorder(OuterLeft(w)) == Inorder(w) == Inorder(OuterRight(w))
    ensures Elems(OuterLeft(w)) == Elems(w) == Elems(OuterRight(w))
  {
    if w.right.Br? {
      Reassociate(w.left, w.node, w.right.left, w.right.node, w.right.right, Red, Black, w.color, w.right.color);
    }
    if w.left.Br? {
      Reassociate(w.left.left, w.left.node, w.left.right, w.node, w.right, w.left.color, w.color, Black, Red);
    }
  }

  /** A red child of the black sibling: the last rotation pays the missing black. */
  ghost function Paid<N>(p: Path<N>, t: Shape<N>): Shape<N>
    requires !p.Top? && Sibling(p).Br?
  {
    if p.InLeft? then
      var w := OuterRight(Sibling(p));
      Br(Br(t, p.node, Black, w.left), w.node, p.color, Painted(w.right, Black))
    else
      var w := OuterLeft(Sibling(p));
      Br(Painted(w.left, Black), w.node, p.color, Br(w.right, p.node, Black, t))
  }

  lemma PaidOrder<N>(p: Path<N>, t: Shape<N>)
    requires !p.Top? && Sibling(p).Br?
    ensures Whole(p.up, Paid(p, t)) == Whole(p, t)
    ensures PathElems(p.up) + Elems(Paid(p, t)) == PathElems(p) + Elems(t)
  {
    WholeUp(p, t);
    OuterOrder(Sibling(p));
    if p.InLeft? {
      var w := OuterRight(Sibling(p));
      Reassociate(t, p.node, w.left, w.node, Painted(w.right, Black), Black, p.color, p.color, w.color);
    } else {
      var w := OuterLeft(Sibling(p));
      Reassociate(Painted(w.left, Black), w.node, w.right, p.node, t, w.color, p.color, p.color, Black);
    }
  }

  lemma PaidKeeps<N>(p: Path<N>, t: Shape<N>)
    requires Short(p, t) && !p.Top? && IsBlack(t) && IsBlack(Sibling(p))
    requires Sibling(p).Br? && !(IsBlack(Sibling(p).left) && IsBlack(Sibling(p).right))
    ensures Fine(p.up, Paid(p, t))
  {
    ShortSibling(p, t);
    var w := if p.InLeft? then OuterRight(Sibling(p)) else OuterLeft(Sibling(p));
    var o := if p.InLeft? then w.right else w.left;
    var i := if p.InLeft? then w.left else w.right;
    assert Good(w.left) && Good(w.right) && BlackHeight(w.left) == BlackHeight(w.right) == BlackHeight(t);
    assert Good(Painted(o, Black)) && BlackHeight(Painted(o, Black)) == BlackHeight(t) + 1;
    assert BlackHeight(Paid(p, t).left) == BlackHeight(t) + 1 == BlackHeight(Paid(p, t).right);
    assert Good(Paid(p, t));
  }

  /** Splicing out a node with a missing child leaves a sound or a one-short position. */
  lemma SplicedOut<N>(p: Path<N>, t: Shape<N>, child: Shape<N>)
    requires Fine(p, t) && t.Br?
    requires (t.left.Leaf? && child == t.right) || (t.right.Leaf? && child == t.left)
    ensures if t.color == Red then Fine(p, child) else Short(p, child)
    ensures Whole(p, child) == (Before(p) + Inorder(t.left)) + (Inorder(t.right) + After(p))
  {
    assert Good(child) && BlackHeight(child) == BlackHeight(t.left);
    assert Good(Painted(child, Black));
  }

  /** The successor m of x, the least node right of x, spliced out and put in the place of x. */
  lemma SuccessorColors<N>(p: Path<N>, l: Shape<N>, x: N, c: Color, q: Path<N>, m: N, d: Color, mr: Shape<N>)
    requires Fine(Compose(q, InRight(l, x, c, p)), Br(Leaf, m, d, mr))
    ensures var p' := Compose(q, InRight(l, m, c, p)); if d == Red then Fine(p', mr) else Short(p', mr)
  {
    var b, b' := InRight(l, x, c, p), InRight(l, m, c, p);
    SplicedOut(Compose(q, b), Br(Leaf, m, d, mr), mr);
    ComposeFits(q, b, b', BlackHeight(mr) + Unit(d));
  }

  lemma FineBelow<N>(p: Path<N>, t: Shape<N>, q: Path<N>, s: Shape<N>)
    requires Fine(p, t) && t.Br? && Plug(q, s) == t.right
    ensures Fine(Compose(q, RightChild(p, t)), s)
    ensures PathElems(Compose(q, RightChild(p, t))) + Elems(s) == PathElems(p) + Elems(t)
  {
    var below := Compose(q, RightChild(p, t));
    ComposePlug(q, RightChild(p, t), s);
    PlugFine(p, t);
    PlugFine(below, s);
    PlugElems(p, t);
    PlugElems(below, s);
  }

  lemma Regroup<N>(x: seq<N>, m: N, y: seq<N>, z: seq<N>, w: seq<N>)
    ensures x + [m] + y + (z + w) == x + ([m] + y + z + w)
  {
  }

  lemma SuccessorOrder<N>(p: Path<N>, l: Shape<N>, c: Color, q: Path<N>, m: N, d: Color, mr: Shape<N>)
    requires Leftmost(q)
    ensures Whole(Compose(q, InRight(l, m, c, p)), mr)
         == (Before(p) + Inorder(l)) + (Inorder(Plug(q, Br(Leaf, m, d, mr))) + After(p))
  {
    var b', s := InRight(l, m, c, p), Br(Leaf, m, d, mr);
    ComposeOrder(q, b');
    LeftmostBefore(q);
    PlugInorder(q, s);
    assert Inorder(s) == [m] + Inorder(mr);
    assert Whole(q, s) == [m] + Inorder(mr) + After(q);
    assert Before(Compose(q, b')) == Before(p) + Inorder(l) + [m];
    Regroup(Before(p) + Inorder(l), m, Inorder(mr), After(q), After(p));
  }

  lemma {:induction false} ComposeElems<N>(q: Path<N>, b: Path<N>)
    ensures PathElems(Compose(q, b)) == PathElems(q) + PathElems(b)
  {
    match q
    case Top =>
    case InLeft(up, n, c, r) => ComposeElems(up, b);
    case InRight(l, n, c, up) => ComposeElems(up, b);
  }

  lemma AboveComposed<N>(q: Path<N>, b: Path<N>)
    requires PathDistinct(Compose(q, b)) && !b.Top?
    ensures !q.Top? ==> Compose(q, b).node == q.node && q.node != b.node
  {
    if !q.Top? {
      ComposeElems(q.up, b);
    }
  }

  lemma SuccessorElems<N>(p: Path<N>, t: Shape<N>, q: Path<N>, m: N, d: Color, mr: Shape<N>)
    requires t.Br? && Plug(q, Br(Leaf, m, d, mr)) == t.right
    ensures PathElems(Compose(q, InRight(t.left, m, t.color, p))) + Elems(mr) <= PathElems(p) + Elems(t)
  {
    ComposeElems(q, InRight(t.left, m, t.color, p));
    PlugElems(q, Br(Leaf, m, d, mr));
  }

  /** All that RB_REMOVE needs to know when the successor s.node takes the place of t.node. */
  lemma SuccessorMoved<N>(p: Path<N>, t: Shape<N>, q: Path<N>, s: Shape<N>, p': Path<N>)
    requires Fine(p, t) && t.Br? && Leftmost(q) && Plug(q, s) == t.right && s.Br? && s.left.Leaf?
    requires p' == Compose(q, InRight(t.left, s.node, t.color, p))
    ensures if s.color == Red then Fine(p', s.right) else Short(p', s.right)
    ensures Whole(p', s.right) == (Before(p) + Inorder(t.left)) + (Inorder(t.right) + After(p))
    ensures PathElems(p') + Elems(s.right) <= PathElems(p) + Elems(t)
    ensures PathElems(Compose(q, RightChild(p, t))) + Elems(s) == PathElems(p) + Elems(t)
  {
    assert s == Br(Leaf, s.node, s.color, s.right);
    FineBelow(p, t, q, s);
    SuccessorColors(p, t.left, t.node, t.color, q, s.node, s.color, s.right);
    SuccessorOrder(p, t.left, t.color, q, s.node, s.color, s.right);
    SuccessorElems(p, t, q, s.node, s.color, s.right);
  }

  /** Painting the node below a shortage black repairs it. */
  lemma ShortDone<N>(p: Path<N>, t: Shape<N>)
    requires Short(p, t) && (p.Top? || !IsBlack(t))
    ensures RedBlack(Plug(p, Painted(t, Black)))
    ensures Inorder(Painted(t, Black)) == Inorder(t) && Elems(Painted(t, Black)) == Elems(t)
  {
    PlugFine(p, Painted(t, Black));
  }

  // ----- height -----

  ghost function Size<N>(t: Shape<N>): nat {
    |Inorder(t)|
  }

  ghost function Height<N>(t: Shape<N>): nat {
    match t
    case Leaf => 0
    case Br(l, _, _, r) => 1 + if Height(l) >= Height(r) then Height(l) else Height(r)
  }

  lemma {:induction false} ManyBlacksManyNodes<N>(t: Shape<N>)
    requires Good(t)
    ensures Pow2(BlackHeight(t)) <= Size(t) + 1
  {
    match t
    case Leaf =>
    case Br(l, n, c, r) =>
      ManyBlacksManyNodes(l);
      ManyBlacksManyNodes(r);
  }

  lemma {:induction false} HeightByBlacks<N>(t: Shape<N>)
    requires Good(t)
    ensures Height(t) <= 2 * BlackHeight(t) + if IsBlack(t) then 0 else 1
  {
    match t
    case Leaf =>
    case Br(l, n, c, r) =>
      HeightByBlacks(l);
      HeightByBlacks(r);
  }

  lemma SquareMonotone(a: nat, b: nat)
    requires a <= b
    ensures a * a <= b * b
  {
    assert a * a <= a * b <= b * b;
  }

  /** The height is at most 2 lg (n + 1), written without logarithms. */
  lemma HeightBound<N>(t: Shape<N>)
    requires RedBlack(t)
    ensures Pow2(Height(t)) <= (Size(t) + 1) * (Size(t) + 1)
  {
    var b := BlackHeight(t);
    HeightByBlacks(t);
    ManyBlacksManyNodes(t);
    Pow2Monotone(Height(t), b + b);
    Pow2Add(b, b);
    SquareMonotone(Pow2(b), Size(t) + 1);
  }
}
