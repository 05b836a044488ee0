/** The intrusive node of libdata and the ghost values that describe how nodes are linked.

  A snapshot `Store` of the node fields is compared with a zipper: a context `Ctx` (everything above
  and beside a position) and the `Tree` hanging at that position.  `At(c, t, nil, h)` says that the
  links recorded in `h` are exactly those of the zipper.  What the library promises about order,
  colours and balance marks is then stated about these values.
 */
module Links {

  /** One node serves all five structures.  In list mode `right` is the next link and `left` the
      previous one.  `mark` is the union of the red-black colour and the AVL balance. */
  class Node {
    var left: Node?
    var right: Node?
    var parent: Node?
    var key: int
    var mark: int

    constructor ()
      ensures left == null && right == null && parent == null
    {
      left, right, parent := null, null, null;
    }
  }

  const RED := 0
  const BLACK := 1

  const BALANCED := 0
  const LEFTHEAVY := 1
  const RIGHTHEAVY := 2

  /** The comparison callback: keys stand for their rank in the caller's order. */
  function Compare(a: int, b: int): int {
    a - b
  }

  datatype Cell = Cell(left: Node?, right: Node?, parent: Node?, key: int, mark: int)

  type Store = map<Node, Cell>

  ghost function Snap(S: set<Node>): (h: Store)
    reads S
    ensures h.Keys == S
  {
    map n | n in S :: Cell(n.left, n.right, n.parent, n.key, n.mark)
  }

  datatype Entry = Entry(n: Node, k: int)

  datatype Tree = Leaf | Fork(l: Tree, e: Entry, m: int, r: Tree)

  datatype Ctx =
    | Top
    | InL(up: Ctx, e: Entry, m: int, r: Tree)
    | InR(up: Ctx, l: Tree, e: Entry, m: int)

  ghost function Nodes(t: Tree): set<Node> {
    match t
    case Leaf => {}
    case Fork(l, e, _, r) => Nodes(l) + {e.n} + Nodes(r)
  }

  ghost function CNodes(c: Ctx): set<Node> {
    match c
    case Top => {}
    case InL(up, e, _, r) => CNodes(up) + {e.n} + Nodes(r)
    case InR(up, l, e, _) => CNodes(up) + {e.n} + Nodes(l)
  }

  ghost function Inorder(t: Tree): seq<Entry> {
    match t
    case Leaf => []
    case Fork(l, e, _, r) => Inorder(l) + [e] + Inorder(r)
  }

  /** The entries to the left of the hole of `c`, in order. */
  ghost function Before(c: Ctx): seq<Entry> {
    match c
    case Top => []
    case InL(up, _, _, _) => Before(up)
    case InR(up, l, e, _) => Before(up) + (Inorder(l) + [e])
  }

  /** The entries to the right of the hole of `c`, in order. */
  ghost function After(c: Ctx): seq<Entry> {
    match c
    case Top => []
    case InL(up, e, _, r) => [e] + Inorder(r) + After(up)
    case InR(up, _, _, _) => After(up)
  }

  /** The tree one step up from the hole of `c` when that holds `t`. */
  ghost function Up1(c: Ctx, t: Tree): Tree
    requires !c.Top?
  {
    match c
    case InL(_, e, m, r) => Fork(t, e, m, r)
    case InR(_, l, e, m) => Fork(l, e, m, t)
  }

  ghost function Plug(c: Ctx, t: Tree): Tree {
    if c.Top? then t else Plug(c.up, Up1(c, t))
  }

  ghost function Sibling(c: Ctx): Tree
    requires !c.Top?
  {
    if c.InL? then c.r else c.l
  }

  ghost function Depth(c: Ctx): nat {
    if c.Top? then 0 else 1 + Depth(c.up)
  }

  ghost function Height(t: Tree): nat {
    if t.Leaf? then 0 else 1 + if Height(t.l) < Height(t.r) then Height(t.r) else Height(t.l)
  }

  ghost predicate Distinct(t: Tree) {
    t.Fork? ==>
      && Distinct(t.l) && Distinct(t.r)
      && t.e.n !in Nodes(t.l) && t.e.n !in Nodes(t.r) && Nodes(t.l) !! Nodes(t.r)
  }

  ghost predicate CDistinct(c: Ctx) {
    match c
    case Top => true
    case InL(up, e, _, s) =>
      CDistinct(up) && Distinct(s) && e.n !in Nodes(s) && e.n !in CNodes(up) && CNodes(up) !! Nodes(s)
    case InR(up, s, e, _) =>
      CDistinct(up) && Distinct(s) && e.n !in Nodes(s) && e.n !in CNodes(up) && CNodes(up) !! Nodes(s)
  }

  /** The node a link to `t` points to. */
  ghost function Root(t: Tree, nil: Node): Node {
    if t.Leaf? then nil else t.e.n
  }

  /** The parent of the root of a tree in the hole of `c`. */
  ghost function Up(c: Ctx, nil: Node): Node {
    if c.Top? then nil else c.e.n
  }

  /** The links of `t`, whose root has parent `p`. */
  ghost predicate Shape(t: Tree, p: Node?, nil: Node, h: Store) {
    t.Fork? ==>
      && t.e.n in h && h[t.e.n] == Cell(Root(t.l, nil), Root(t.r, nil), p, t.e.k, t.m)
      && Shape(t.l, t.e.n, nil, h) && Shape(t.r, t.e.n, nil, h)
  }

  /** The links of the context `c` whose hole holds node `q`. */
  ghost predicate CShape(c: Ctx, q: Node, nil: Node, h: Store) {
    match c
    case Top => nil in h && h[nil].left == q && h[nil].right == nil
    case InL(up, e, m, r) =>
      && e.n in h && h[e.n] == Cell(q, Root(r, nil), Up(up, nil), e.k, m)
      && Shape(r, e.n, nil, h) && CShape(up, e.n, nil, h)
    case InR(up, l, e, m) =>
      && e.n in h && h[e.n] == Cell(Root(l, nil), q, Up(up, nil), e.k, m)
      && Shape(l, e.n, nil, h) && CShape(up, e.n, nil, h)
  }

  ghost predicate Apart(c: Ctx, t: Tree, nil: Node) {
    && CDistinct(c) && Distinct(t)
    && CNodes(c) !! Nodes(t)
    && nil !in CNodes(c) && nil !in Nodes(t)
  }

  /** The zipper `(c, t)` describes the tree that hangs from the sentinel `nil`. */
  ghost predicate At(c: Ctx, t: Tree, nil: Node, h: Store) {
    nil in h && Apart(c, t, nil) && CShape(c, Root(t, nil), nil, h) && Shape(t, Up(c, nil), nil, h)
  }

  // ----- heaps that differ in a few nodes

  /** What `h` says about nodes outside `D` still stands in `h'`. */
  ghost predicate Agree(h: Store, h': Store, D: set<Node>) {
    forall n | n in h && n !in D :: n in h' && h'[n] == h[n]
  }

  lemma {:induction false} Frame(t: Tree, p: Node?, nil: Node, h: Store, h': Store, D: set<Node>)
    requires Shape(t, p, nil, h) && Agree(h, h', D) && D !! Nodes(t)
    ensures Shape(t, p, nil, h')
  {
    if t.Fork? {
      Frame(t.l, t.e.n, nil, h, h', D);
      Frame(t.r, t.e.n, nil, h, h', D);
    }
  }

  ghost predicate SameRootLink(nil: Node, h: Store, h': Store) {
    nil in h && nil in h' && h'[nil].left == h[nil].left && h'[nil].right == h[nil].right
  }

  lemma {:induction false} CFrame(c: Ctx, q: Node, nil: Node, h: Store, h': Store, D: set<Node>)
    requires CShape(c, q, nil, h) && Agree(h, h', D) && D !! CNodes(c) && SameRootLink(nil, h, h')
    ensures CShape(c, q, nil, h')
  {
    match c
    case Top =>
    case InL(up, e, _, r) => Frame(r, e.n, nil, h, h', D); CFrame(up, e.n, nil, h, h', D);
    case InR(up, l, e, _) => Frame(l, e.n, nil, h, h', D); CFrame(up, e.n, nil, h, h', D);
  }

  lemma AtFrame(c: Ctx, t: Tree, nil: Node, h: Store, h': Store, D: set<Node>)
    requires At(c, t, nil, h) && Agree(h, h', D) && D !! CNodes(c) && D !! Nodes(t)
    requires SameRootLink(nil, h, h')
    ensures At(c, t, nil, h')
  {
    CFrame(c, Root(t, nil), nil, h, h', D);
    Frame(t, Up(c, nil), nil, h, h', D);
  }

  /** Only the root of `t` changed, and there only the parent link. */
  lemma Reparent(t: Tree, p: Node?, q: Node, nil: Node, h: Store, h': Store, D: set<Node>)
    requires Shape(t, p, nil, h) && Distinct(t) && Agree(h, h', D) && D * Nodes(t) <= {Root(t, nil)}
    requires t.Fork? ==> t.e.n in h' && h'[t.e.n] == h[t.e.n].(parent := q)
    ensures Shape(t, q, nil, h')
  {
    if t.Fork? {
      Frame(t.l, t.e.n, nil, h, h', D);
      Frame(t.r, t.e.n, nil, h, h', D);
    }
  }

  /** In `h'` the hole of `c` holds `q`; nothing else about its parent differs from `h`. */
  ghost predicate Rehung(c: Ctx, q: Node, nil: Node, h: Store, h': Store) {
    var g := Up(c, nil);
    && g in h && g in h'
    && (match c
        case Top => h'[g].left == q && h'[g].right == h[g].right
        case InL(_, _, _, _) => h'[g] == h[g].(left := q) && SameRootLink(nil, h, h')
        case InR(_, _, _, _) => h'[g] == h[g].(right := q) && SameRootLink(nil, h, h'))
  }

  lemma Rehang(c: Ctx, q: Node, q': Node, nil: Node, h: Store, h': Store, D: set<Node>)
    requires CShape(c, q, nil, h) && CDistinct(c) && Agree(h, h', D) && D * CNodes(c) <= {Up(c, nil)}
    requires nil !in CNodes(c) && Rehung(c, q', nil, h, h')
    ensures CShape(c, q', nil, h')
  {
    match c
    case Top =>
    case InL(up, e, _, r) => Frame(r, e.n, nil, h, h', D); CFrame(up, e.n, nil, h, h', D);
    case InR(up, l, e, _) => Frame(l, e.n, nil, h, h', D); CFrame(up, e.n, nil, h, h', D);
  }

  // ----- moving the focus of a zipper

  lemma FocusUp(c: Ctx, t: Tree, nil: Node, h: Store)
    requires !c.Top?
    ensures At(c, t, nil, h) <==> At(c.up, Up1(c, t), nil, h)
  {
  }

  lemma FocusLeft(c: Ctx, t: Tree, nil: Node, h: Store)
    requires t.Fork?
    ensures At(c, t, nil, h) <==> At(InL(c, t.e, t.m, t.r), t.l, nil, h)
  {
    FocusUp(InL(c, t.e, t.m, t.r), t.l, nil, h);
  }

  lemma FocusRight(c: Ctx, t: Tree, nil: Node, h: Store)
    requires t.Fork?
    ensures At(c, t, nil, h) <==> At(InR(c, t.l, t.e, t.m), t.r, nil, h)
  {
    FocusUp(InR(c, t.l, t.e, t.m), t.r, nil, h);
  }

  lemma {:induction false} FocusTop(c: Ctx, t: Tree, nil: Node, h: Store)
    ensures At(c, t, nil, h) <==> At(Top, Plug(c, t), nil, h)
    decreases c
  {
    if !c.Top? {
      FocusUp(c, t, nil, h);
      FocusTop(c.up, Up1(c, t), nil, h);
    }
  }

  lemma {:induction false} DistinctHole(c: Ctx, t: Tree)
    requires Distinct(Plug(c, t))
    ensures Distinct(t)
    decreases c
  {
    if !c.Top? {
      DistinctHole(c.up, Up1(c, t));
    }
  }

  lemma {:induction false} PlugInorder(c: Ctx, t: Tree)
    ensures Inorder(Plug(c, t)) == Before(c) + Inorder(t) + After(c)
    decreases c
  {
    if !c.Top? {
      PlugInorder(c.up, Up1(c, t));
    }
  }

  lemma SameInorder(c: Ctx, t: Tree, t': Tree)
    requires Inorder(t) == Inorder(t')
    ensures Inorder(Plug(c, t)) == Inorder(Plug(c, t'))
  {
    PlugInorder(c, t);
    PlugInorder(c, t');
  }

  lemma LeafInorder(t: Tree)
    requires t.Fork? && t.l.Leaf? && t.r.Leaf?
    ensures Inorder(t) == [t.e]
  {
  }

  /** The new mark of the root of `t`. */
  ghost function Painted(t: Tree, x: int): Tree {
    if t.Leaf? then Leaf else t.(m := x)
  }

  lemma PaintedInorder(c: Ctx, t: Tree, x: int)
    ensures Inorder(Painted(t, x)) == Inorder(t) && Inorder(Plug(c, Painted(t, x))) == Inorder(Plug(c, t))
  {
    SameInorder(c, t, Painted(t, x));
  }

  lemma Paint(c: Ctx, t: Tree, x: int, nil: Node, h: Store, h': Store)
    requires t.Fork? && At(c, t, nil, h)
    requires t.e.n in h && h' == h[t.e.n := h[t.e.n].(mark := x)]
    ensures At(c, Painted(t, x), nil, h')
  {
    CFrame(c, t.e.n, nil, h, h', {t.e.n});
    Frame(t.l, t.e.n, nil, h, h', {t.e.n});
    Frame(t.r, t.e.n, nil, h, h', {t.e.n});
  }

  lemma PaintLeft(c: Ctx, t: Tree, x: int, nil: Node, h: Store, h': Store)
    requires t.Fork? && t.l.Fork? && At(c, t, nil, h)
    requires t.l.e.n in h && h' == h[t.l.e.n := h[t.l.e.n].(mark := x)]
    ensures At(c, t.(l := Painted(t.l, x)), nil, h')
  {
    FocusLeft(c, t, nil, h);
    Paint(InL(c, t.e, t.m, t.r), t.l, x, nil, h, h');
    FocusLeft(c, t.(l := Painted(t.l, x)), nil, h');
  }

  lemma PaintRight(c: Ctx, t: Tree, x: int, nil: Node, h: Store, h': Store)
    requires t.Fork? && t.r.Fork? && At(c, t, nil, h)
    requires t.r.e.n in h && h' == h[t.r.e.n := h[t.r.e.n].(mark := x)]
    ensures At(c, t.(r := Painted(t.r, x)), nil, h')
  {
    FocusRight(c, t, nil, h);
    Paint(InR(c, t.l, t.e, t.m), t.r, x, nil, h, h');
    FocusRight(c, t.(r := Painted(t.r, x)), nil, h');
  }
}
