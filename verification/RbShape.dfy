/**
 The mathematical side of lib/core/ogs-rbtree.c: the shape a heap of linked
 nodes spells out, the one-hole contexts a fix-up loop climbs through, and the
 red-black rules on both.  Beside the class whose objects the heap links, everything
 here is about values.
 */
module RbShape {
  import opened Basics

  datatype Color = Black | Red

  /** ogs_timer_t with its intrusive members spelled out: `rbnode` is the four
      tree fields, `lnode` the two list fields. */
  class Timer {
    var parent: Timer?
    var left: Timer?
    var right: Timer?
    var color: Color

    var lprev: Timer?
    var lnext: Timer?

    var running: bool
    var timeout: int

    /** ogs_timer_add() clears the whole object. */
    constructor ()
      ensures parent == null && left == null && right == null && color == Black
      ensures lprev == null && lnext == null && !running && timeout == 0
    {
      parent, left, right, color := null, null, null, Black;
      lprev, lnext, running, timeout := null, null, false, 0;
    }
  }

  datatype Shape = Leaf | Node(left: Shape, n: Timer, color: Color, right: Shape)

  /** A tree with one hole: `LeftOf` says the hole is the left child of `n`. */
  datatype Ctx =
    | Top
    | LeftOf(up: Ctx, n: Timer, color: Color, right: Shape)
    | RightOf(left: Shape, n: Timer, color: Color, up: Ctx)

  ghost function Root(s: Shape): Timer? {
    if s.Leaf? then null else s.n
  }

  ghost function Nodes(s: Shape): set<Timer> {
    if s.Leaf? then {} else Nodes(s.left) + {s.n} + Nodes(s.right)
  }

  ghost function InOrder(s: Shape): seq<Timer> {
    if s.Leaf? then [] else InOrder(s.left) + [s.n] + InOrder(s.right)
  }

  /** No node occurs twice. */
  ghost predicate Proper(s: Shape) {
    s.Node? ==>
      && Proper(s.left) && Proper(s.right)
      && s.n !in Nodes(s.left) && s.n !in Nodes(s.right)
      && Nodes(s.left) !! Nodes(s.right)
  }

  ghost predicate IsRed(s: Shape) {
    s.Node? && s.color.Red?
  }

  /** `s` obeys the red-black rules below its root and has black height `h`. */
  ghost predicate RB(s: Shape, h: nat) {
    match s
    case Leaf => h == 0
    case Node(l, _, Black, r) => h >= 1 && RB(l, h - 1) && RB(r, h - 1)
    case Node(l, _, Red, r) => RB(l, h) && RB(r, h) && !IsRed(l) && !IsRed(r)
  }

  ghost function BlackHeight(s: Shape): nat {
    if s.Leaf? then 0 else BlackHeight(s.left) + if s.color.Black? then 1 else 0
  }

  lemma {:induction false} HeightUnique(s: Shape, h: nat)
    requires RB(s, h)
    ensures h == BlackHeight(s)
  {
    if s.Node? {
      HeightUnique(s.left, if s.color.Black? then h - 1 else h);
    }
  }

  /** The four red-black rules for a whole tree. */
  ghost predicate IsRbTree(s: Shape) {
    !IsRed(s) && RB(s, BlackHeight(s))
  }

  ghost function CNodes(c: Ctx): set<Timer> {
    match c
    case Top => {}
    case LeftOf(up, n, _, r) => CNodes(up) + {n} + Nodes(r)
    case RightOf(l, n, _, up) => CNodes(up) + {n} + Nodes(l)
  }

  ghost predicate ProperCtx(c: Ctx) {
    match c
    case Top => true
    case LeftOf(up, n, _, r) =>
      ProperCtx(up) && Proper(r) && n !in CNodes(up) && n !in Nodes(r) && Nodes(r) !! CNodes(up)
    case RightOf(l, n, _, up) =>
      ProperCtx(up) && Proper(l) && n !in CNodes(up) && n !in Nodes(l) && Nodes(l) !! CNodes(up)
  }

  /** The node the hole hangs from; `tp` is what the whole context hangs from. */
  ghost function Holder(c: Ctx, tp: Timer?): Timer? {
    if c.Top? then tp else c.n
  }

  /** The topmost node once the hole is filled by a subtree rooted at `hole`. */
  ghost function TopOf(c: Ctx, hole: Timer?): Timer? {
    if c.Top? then hole else TopOf(c.up, c.n)
  }

  ghost predicate BlackHolder(c: Ctx) {
    !c.Top? && c.color.Black?
  }

  /** Filling the hole with a subtree of black height `h` whose root is not red
      (or whose holder is black) gives a red-black tree. */
  ghost predicate CtxOk(c: Ctx, h: nat) {
    match c
    case Top => true
    case LeftOf(up, _, col, s) =>
      RB(s, h) && (col.Red? ==> !IsRed(s) && BlackHolder(up)) && CtxOk(up, if col.Black? then h + 1 else h)
    case RightOf(s, _, col, up) =>
      RB(s, h) && (col.Red? ==> !IsRed(s) && BlackHolder(up)) && CtxOk(up, if col.Black? then h + 1 else h)
  }

  /** In-order nodes before and after the hole. */
  ghost function Before(c: Ctx): seq<Timer> {
    match c
    case Top => []
    case LeftOf(up, _, _, _) => Before(up)
    case RightOf(l, n, _, up) => Before(up) + InOrder(l) + [n]
  }

  ghost function After(c: Ctx): seq<Timer> {
    match c
    case Top => []
    case LeftOf(up, n, _, r) => [n] + InOrder(r) + After(up)
    case RightOf(_, _, _, up) => After(up)
  }

  ghost function Fill(c: Ctx, s: Shape): Shape {
    match c
    case Top => s
    case LeftOf(up, n, col, r) => Fill(up, Node(s, n, col, r))
    case RightOf(l, n, col, up) => Fill(up, Node(l, n, col, s))
  }

  ghost function Depth(c: Ctx): nat {
    if c.Top? then 0 else 1 + Depth(c.up)
  }

  /** The subtree around the hole's holder, with `s` in the hole. */
  ghost function Up(c: Ctx, s: Shape): Shape
    requires !c.Top?
  {
    match c
    case LeftOf(_, n, col, r) => Node(s, n, col, r)
    case RightOf(l, n, col, _) => Node(l, n, col, s)
  }

  lemma Regroup<T>(a: seq<T>, b: seq<T>, c: seq<T>, d: seq<T>, e: seq<T>)
    ensures a + (b + c + d) + e == a + b + (c + d + e)
    ensures a + (b + c + d) + e == (a + b + c) + d + e
  {
  }

  lemma {:induction false} FillInOrder(c: Ctx, s: Shape)
    ensures InOrder(Fill(c, s)) == Before(c) + InOrder(s) + After(c)
  {
    match c
    case Top =>
    case LeftOf(up, n, col, r) =>
      FillInOrder(up, Node(s, n, col, r));
      Regroup(Before(up), InOrder(s), [n], InOrder(r), After(up));
    case RightOf(l, n, col, up) =>
      FillInOrder(up, Node(l, n, col, s));
      Regroup(Before(up), InOrder(l), [n], InOrder(s), After(up));
  }

  /** Subtrees with the same in-order nodes are interchangeable. */
  lemma {:induction false} SameInOrder(c: Ctx, s: Shape, s': Shape)
    requires InOrder(s) == InOrder(s')
    ensures InOrder(Fill(c, s)) == InOrder(Fill(c, s'))
  {
    FillInOrder(c, s);
    FillInOrder(c, s');
  }

  lemma {:induction false} FillNodes(c: Ctx, s: Shape)
    ensures Nodes(Fill(c, s)) == CNodes(c) + Nodes(s)
  {
    match c
    case Top =>
    case LeftOf(up, n, col, r) => FillNodes(up, Node(s, n, col, r));
    case RightOf(l, n, col, up) => FillNodes(up, Node(l, n, col, s));
  }

  lemma {:induction false} FillProper(c: Ctx, s: Shape)
    ensures Proper(Fill(c, s)) <==> Proper(s) && ProperCtx(c) && Nodes(s) !! CNodes(c)
  {
    match c
    case Top =>
    case LeftOf(up, n, col, r) => FillProper(up, Node(s, n, col, r));
    case RightOf(l, n, col, up) => FillProper(up, Node(l, n, col, s));
  }

  /** A fitting subtree completes its context to a red-black tree. */
  lemma {:induction false} FillRB(c: Ctx, s: Shape, h: nat)
    requires RB(s, h) && CtxOk(c, h) && (IsRed(s) ==> BlackHolder(c))
    ensures IsRbTree(Fill(c, s))
  {
    match c
    case Top => HeightUnique(s, h);
    case LeftOf(up, n, col, r) =>
      FillRB(up, Node(s, n, col, r), if col.Black? then h + 1 else h);
    case RightOf(l, n, col, up) =>
      FillRB(up, Node(l, n, col, s), if col.Black? then h + 1 else h);
  }

  lemma {:induction false} InOrderNodes(s: Shape)
    ensures forall x :: x in InOrder(s) <==> x in Nodes(s)
    ensures forall i :: 0 <= i < |InOrder(s)| ==> InOrder(s)[i] in Nodes(s)
  {
    if s.Node? {
      InOrderNodes(s.left);
      InOrderNodes(s.right);
    }
  }

  lemma {:induction false} InOrderDistinct(s: Shape)
    requires Proper(s)
    ensures Distinct(InOrder(s))
  {
    if s.Node? {
      InOrderDistinct(s.left);
      InOrderDistinct(s.right);
      InOrderNodes(s.left);
      InOrderNodes(s.right);
    }
  }

  lemma {:induction false} BeforeAfterNodes(c: Ctx)
    ensures forall x :: x in Before(c) || x in After(c) <==> x in CNodes(c)
  {
    match c
    case Top =>
    case LeftOf(up, n, _, r) => BeforeAfterNodes(up); InOrderNodes(r);
    case RightOf(l, n, _, up) => BeforeAfterNodes(up); InOrderNodes(l);
  }

  ghost predicate ProperAt(c: Ctx, s: Shape) {
    Proper(s) && ProperCtx(c) && Nodes(s) !! CNodes(c)
  }

  ghost function Painted(s: Shape, color: Color): Shape
    requires s.Node?
  {
    Node(s.left, s.n, color, s.right)
  }

  ghost function RotatedLeft(s: Shape): Shape
    requires s.Node? && s.right.Node?
  {
    Node(Node(s.left, s.n, s.color, s.right.left), s.right.n, s.right.color, s.right.right)
  }

  ghost function RotatedRight(s: Shape): Shape
    requires s.Node? && s.left.Node?
  {
    Node(s.left.left, s.left.n, s.left.color, Node(s.left.right, s.n, s.color, s.right))
  }

  /** Rotations keep the in-order sequence of the whole tree. */
  lemma {:induction false} RotateLeftInOrder(c: Ctx, s: Shape)
    requires s.Node? && s.right.Node?
    ensures InOrder(Fill(c, RotatedLeft(s))) == InOrder(Fill(c, s))
  {
    var a, m, b := s.left, s.right.left, s.right.right;
    Regroup(InOrder(a), [s.n], InOrder(m), [s.right.n], InOrder(b));
    assert InOrder(s.right) == InOrder(m) + [s.right.n] + InOrder(b);
    assert InOrder(s) == InOrder(a) + [s.n] + (InOrder(m) + [s.right.n] + InOrder(b));
    assert InOrder(RotatedLeft(s)) == (InOrder(a) + [s.n] + InOrder(m)) + [s.right.n] + InOrder(b);
    SameInOrder(c, s, RotatedLeft(s));
  }

  lemma {:induction false} RotateRightInOrder(c: Ctx, s: Shape)
    requires s.Node? && s.left.Node?
    ensures InOrder(Fill(c, RotatedRight(s))) == InOrder(Fill(c, s))
  {
    var t := RotatedRight(s);
    assert RotatedLeft(t) == s;
    RotateLeftInOrder(c, t);
  }

  lemma {:induction false} PaintInOrder(c: Ctx, s: Shape, color: Color)
    requires s.Node?
    ensures InOrder(Fill(c, Painted(s, color))) == InOrder(Fill(c, s))
  {
    SameInOrder(c, s, Painted(s, color));
  }

  lemma {:induction false} RotateLeftProper(c: Ctx, s: Shape)
    requires s.Node? && s.right.Node? && ProperAt(c, s)
    ensures ProperAt(c, RotatedLeft(s)) && Nodes(RotatedLeft(s)) == Nodes(s)
    ensures Apart(s.left, s.right.left, s.right.right, s.n, s.right.n)
    ensures Nodes(s) == Nodes(s.left) + Nodes(s.right.left) + Nodes(s.right.right) + {s.n, s.right.n}
  {
    assert Proper(s.left) && Proper(s.right);
    assert Proper(Node(s.left, s.n, s.color, s.right.left));
  }

  lemma {:induction false} RotateRightProper(c: Ctx, s: Shape)
    requires s.Node? && s.left.Node? && ProperAt(c, s)
    ensures ProperAt(c, RotatedRight(s)) && Nodes(RotatedRight(s)) == Nodes(s)
    ensures Apart(s.left.left, s.left.right, s.right, s.left.n, s.n)
    ensures Nodes(s) == Nodes(s.left.left) + Nodes(s.left.right) + Nodes(s.right) + {s.n, s.left.n}
  {
    assert Proper(s.left) && Proper(s.right);
    assert Proper(Node(s.left.right, s.n, s.color, s.right));
  }

  /** The three subtrees and two nodes of a rotation share nothing. */
  ghost predicate Apart(a: Shape, m: Shape, b: Shape, x: Timer, y: Timer) {
    && x != y && Proper(a) && Proper(m) && Proper(b)
    && Nodes(a) !! Nodes(m) && Nodes(a) !! Nodes(b) && Nodes(m) !! Nodes(b)
    && x !in Nodes(a) && x !in Nodes(m) && x !in Nodes(b)
    && y !in Nodes(a) && y !in Nodes(m) && y !in Nodes(b)
    && Root(m) != x && Root(m) != y && (m.Node? ==> Root(m) in Nodes(m))
  }

  ghost predicate IsAt(n: Timer?, s: Shape) {
    s.Node? && s.n == n
  }

  /** Grandparent subtree after "red parent, red uncle". */
  ghost function Flipped(g: Shape): Shape
    requires g.Node? && g.left.Node? && g.right.Node?
  {
    Node(Painted(g.left, Black), g.n, Red, Painted(g.right, Black))
  }

  /** Grandparent subtree after "red parent on the left, black uncle". */
  ghost function FixedLeft(g: Shape, node: Timer): Shape
    requires g.Node? && g.left.Node?
  {
    var p := if IsAt(node, g.left.right) then RotatedLeft(g.left) else g.left;
    RotatedRight(Node(Painted(p, Black), g.n, Red, g.right))
  }

  ghost function FixedRight(g: Shape, node: Timer): Shape
    requires g.Node? && g.right.Node?
  {
    var p := if IsAt(node, g.right.left) then RotatedRight(g.right) else g.right;
    RotatedLeft(Node(g.left, g.n, Red, Painted(p, Black)))
  }

  ghost predicate RedRed(c: Ctx, s: Shape, h: nat) {
    ProperAt(c, s) && IsRed(s) && RB(s, h) && CtxOk(c, h) && !c.Top? && c.color.Red?
  }

  lemma {:induction false} FlipStep(c: Ctx, s: Shape, h: nat)
    requires RedRed(c, s, h) && IsRed(if c.up.LeftOf? then c.up.right else c.up.left)
    ensures var g := Up(c.up, Up(c, s));
            RB(Flipped(g), h + 1) && CtxOk(c.up.up, h + 1)
            && InOrder(Fill(c.up.up, Flipped(g))) == InOrder(Fill(c, s))
  {
    var g, p := Up(c.up, Up(c, s)), Up(c, s);
    var u := if c.up.LeftOf? then c.up.right else c.up.left;
    assert CtxOk(c.up, h);
    assert RB(Painted(p, Black), h + 1) && RB(Painted(u, Black), h + 1);
    assert InOrder(Flipped(g)) == InOrder(g);
    SameInOrder(c.up.up, g, Flipped(g));
  }

  lemma {:induction false} FixLeftStep(c: Ctx, s: Shape, h: nat)
    requires RedRed(c, s, h) && c.up.LeftOf? && !IsRed(c.up.right)
    ensures var g := Up(c.up, Up(c, s)); var f := FixedLeft(g, s.n);
            RB(f.left, h) && IsRed(f.left) && f.color.Black?
            && CtxOk(LeftOf(c.up.up, f.n, f.color, f.right), h)
            && InOrder(Fill(c.up.up, f)) == InOrder(Fill(c, s))
  {
    var up, g, p := c.up.up, Up(c.up, Up(c, s)), Up(c, s);
    assert CtxOk(c.up, h) && CtxOk(up, h + 1) && RB(p.left, h) && RB(p.right, h);
    if IsAt(s.n, p.right) {
      RotateLeftInOrder(c.up, p);
      p := RotatedLeft(p);
    }
    PaintInOrder(c.up, p, Black);
    var g1 := Node(Painted(p, Black), g.n, g.color, g.right);
    PaintInOrder(up, g1, Red);
    RotateRightInOrder(up, Painted(g1, Red));
  }

  lemma {:induction false} FixRightStep(c: Ctx, s: Shape, h: nat)
    requires RedRed(c, s, h) && c.up.RightOf? && !IsRed(c.up.left)
    ensures var g := Up(c.up, Up(c, s)); var f := FixedRight(g, s.n);
            RB(f.right, h) && IsRed(f.right) && f.color.Black?
            && CtxOk(RightOf(f.left, f.n, f.color, c.up.up), h)
            && InOrder(Fill(c.up.up, f)) == InOrder(Fill(c, s))
  {
    var up, g, p := c.up.up, Up(c.up, Up(c, s)), Up(c, s);
    assert CtxOk(c.up, h) && CtxOk(up, h + 1) && RB(p.left, h) && RB(p.right, h);
    if IsAt(s.n, p.left) {
      RotateRightInOrder(c.up, p);
      p := RotatedRight(p);
    }
    PaintInOrder(c.up, p, Black);
    var g1 := Node(g.left, g.n, g.color, Painted(p, Black));
    PaintInOrder(up, g1, Red);
    RotateLeftInOrder(up, Painted(g1, Red));
  }

  lemma {:induction false} TopInCtx(c: Ctx, hole: Timer?)
    requires !c.Top?
    ensures TopOf(c, hole) != null && TopOf(c, hole) in CNodes(c)
  {
    if !c.up.Top? {
      TopInCtx(c.up, c.n);
    }
  }

  lemma {:induction false} FillNonempty(c: Ctx, s: Shape)
    requires s.Node?
    ensures Fill(c, s).Node? && Root(Fill(c, s)) == TopOf(c, Root(s))
  {
    if !c.Top? {
      FillNonempty(c.up, Up(c, s));
    }
  }

  // What the cases of rb_delete_color() make of the parent's subtree `p` when the
  // short side is on the left.

  ghost function RedSiblingLeft(p: Shape): Shape
    requires p.Node? && p.right.Node?
  {
    RotatedLeft(Node(p.left, p.n, Red, Painted(p.right, Black)))
  }

  ghost function NearNephewLeft(p: Shape): Shape
    requires p.Node? && p.right.Node? && p.right.left.Node?
  {
    var s := p.right;
    Node(p.left, p.n, p.color, RotatedRight(Node(Painted(s.left, Black), s.n, Red, s.right)))
  }

  ghost function FarNephewLeft(p: Shape): Shape
    requires p.Node? && p.right.Node? && p.right.right.Node?
  {
    var s := p.right;
    RotatedLeft(Node(p.left, p.n, Black, Node(s.left, s.n, p.color, Painted(s.right, Black))))
  }

  // And when it is on the right.

  ghost function RedSiblingRight(p: Shape): Shape
    requires p.Node? && p.left.Node?
  {
    RotatedRight(Node(Painted(p.left, Black), p.n, Red, p.right))
  }

  ghost function NearNephewRight(p: Shape): Shape
    requires p.Node? && p.left.Node? && p.left.right.Node?
  {
    var s := p.left;
    Node(RotatedLeft(Node(s.left, s.n, Red, Painted(s.right, Black))), p.n, p.color, p.right)
  }

  ghost function FarNephewRight(p: Shape): Shape
    requires p.Node? && p.left.Node? && p.left.left.Node?
  {
    var s := p.left;
    RotatedRight(Node(Node(Painted(s.left, Black), s.n, p.color, s.right), p.n, Black, p.right))
  }

  /** `s` is one black node short of what `c` needs; a red `s` may have red children,
      because painting it black makes up for both. */
  ghost predicate Short(c: Ctx, s: Shape, h: nat) {
    CtxOk(c, h + 1) && if IsRed(s) then RB(Painted(s, Black), h + 1) else RB(s, h)
  }

  lemma {:induction false} RedSiblingLeftStep(c: Ctx, s: Shape, h: nat) returns (c': Ctx)
    requires c.LeftOf? && !IsRed(s) && Short(c, s, h) && IsRed(c.right)
    ensures c'.LeftOf? && !IsRed(c'.right) && Short(c', s, h) && c'.color.Red? && c'.n == c.n
    ensures !c'.up.Top? && Depth(c'.up) == Depth(c)
    ensures Up(c'.up, Up(c', s)) == RedSiblingLeft(Up(c, s)) && c'.up.up == c.up
    ensures InOrder(Fill(c', s)) == InOrder(Fill(c, s))
  {
    var p, q := Up(c, s), RedSiblingLeft(Up(c, s));
    c' := LeftOf(LeftOf(c.up, q.n, q.color, q.right), p.n, Red, q.left.right);
    assert RB(c.right, h + 1) && RB(c.right.left, h + 1) && RB(c.right.right, h + 1);
    assert CtxOk(c'.up, h + 1);
    var p1 := Node(p.left, p.n, Red, Painted(p.right, Black));
    assert InOrder(p1) == InOrder(p);
    SameInOrder(c.up, p1, p);
    RotateLeftInOrder(c.up, p1);
  }

  lemma {:induction false} BlackNephewsLeftStep(c: Ctx, s: Shape, h: nat) returns (h': nat)
    requires c.LeftOf? && !IsRed(s) && Short(c, s, h)
    requires c.right.Node? && !IsRed(c.right) && !IsRed(c.right.left) && !IsRed(c.right.right)
    ensures var s' := Node(s, c.n, c.color, Painted(c.right, Red));
            Short(c.up, s', h') && InOrder(Fill(c.up, s')) == InOrder(Fill(c, s))
  {
    h' := if c.color.Black? then h + 1 else h;
    var s' := Node(s, c.n, c.color, Painted(c.right, Red));
    assert RB(Painted(c.right, Red), h);
    assert InOrder(s') == InOrder(Up(c, s));
    SameInOrder(c.up, s', Up(c, s));
  }

  /** Case 3 turns the sibling so that its far child is red. */
  lemma {:induction false} NearNephewLeftStep(c: Ctx, s: Shape, h: nat) returns (c': Ctx)
    requires c.LeftOf? && !IsRed(s) && Short(c, s, h)
    requires c.right.Node? && !IsRed(c.right) && IsRed(c.right.left) && !IsRed(c.right.right)
    ensures c'.LeftOf? && Short(c', s, h) && c'.up == c.up && Up(c', s) == NearNephewLeft(Up(c, s))
    ensures c'.right.Node? && !IsRed(c'.right) && IsRed(c'.right.right)
    ensures InOrder(Fill(c', s)) == InOrder(Fill(c, s))
  {
    var r := c.right;
    var r1 := Node(Painted(r.left, Black), r.n, Red, r.right);
    c' := LeftOf(c.up, c.n, c.color, RotatedRight(r1));
    assert RB(r.left, h) && RB(r.right, h);
    assert RB(Node(r.left.right, r.n, Red, r.right), h);
    var c1 := RightOf(s, c.n, c.color, c.up);
    assert InOrder(r1) == InOrder(r);
    SameInOrder(c1, r1, r);
    RotateRightInOrder(c1, r1);
  }

  /** Case 4 finishes the repair. */
  lemma {:induction false} FarNephewLeftStep(c: Ctx, s: Shape, h: nat)
    requires c.LeftOf? && !IsRed(s) && Short(c, s, h)
    requires c.right.Node? && !IsRed(c.right) && IsRed(c.right.right)
    ensures IsRbTree(Fill(c.up, FarNephewLeft(Up(c, s))))
    ensures InOrder(Fill(c.up, FarNephewLeft(Up(c, s)))) == InOrder(Fill(c, s))
  {
    var r := c.right;
    var q := FarNephewLeft(Up(c, s));
    assert RB(r.left, h) && RB(r.right, h);
    assert RB(q.left, h + 1) && RB(q.right, h + 1);
    FillRB(c.up, q, if c.color.Black? then h + 2 else h + 1);
    var r1 := Node(r.left, r.n, c.color, Painted(r.right, Black));
    var p1 := Node(s, c.n, Black, r1);
    assert InOrder(r1) == InOrder(r);
    assert InOrder(p1) == InOrder(Up(c, s));
    SameInOrder(c.up, p1, Up(c, s));
    RotateLeftInOrder(c.up, p1);
  }

  lemma {:induction false} RedSiblingRightStep(c: Ctx, s: Shape, h: nat) returns (c': Ctx)
    requires c.RightOf? && !IsRed(s) && Short(c, s, h) && IsRed(c.left)
    ensures c'.RightOf? && !IsRed(c'.left) && Short(c', s, h) && c'.color.Red? && c'.n == c.n
    ensures !c'.up.Top? && Depth(c'.up) == Depth(c)
    ensures Up(c'.up, Up(c', s)) == RedSiblingRight(Up(c, s)) && c'.up.up == c.up
    ensures InOrder(Fill(c', s)) == InOrder(Fill(c, s))
  {
    var p, q := Up(c, s), RedSiblingRight(Up(c, s));
    c' := RightOf(q.right.left, p.n, Red, RightOf(q.left, q.n, q.color, c.up));
    assert RB(c.left, h + 1) && RB(c.left.right, h + 1) && RB(c.left.left, h + 1);
    assert CtxOk(c'.up, h + 1);
    var p1 := Node(Painted(p.left, Black), p.n, Red, p.right);
    assert InOrder(p1) == InOrder(p);
    SameInOrder(c.up, p1, p);
    RotateRightInOrder(c.up, p1);
  }

  lemma {:induction false} BlackNephewsRightStep(c: Ctx, s: Shape, h: nat) returns (h': nat)
    requires c.RightOf? && !IsRed(s) && Short(c, s, h)
    requires c.left.Node? && !IsRed(c.left) && !IsRed(c.left.right) && !IsRed(c.left.left)
    ensures var s' := Node(Painted(c.left, Red), c.n, c.color, s);
            Short(c.up, s', h') && InOrder(Fill(c.up, s')) == InOrder(Fill(c, s))
  {
    h' := if c.color.Black? then h + 1 else h;
    var s' := Node(Painted(c.left, Red), c.n, c.color, s);
    assert RB(Painted(c.left, Red), h);
    assert InOrder(s') == InOrder(Up(c, s));
    SameInOrder(c.up, s', Up(c, s));
  }

  lemma {:induction false} NearNephewRightStep(c: Ctx, s: Shape, h: nat) returns (c': Ctx)
    requires c.RightOf? && !IsRed(s) && Short(c, s, h)
    requires c.left.Node? && !IsRed(c.left) && IsRed(c.left.right) && !IsRed(c.left.left)
    ensures c'.RightOf? && Short(c', s, h) && c'.up == c.up && Up(c', s) == NearNephewRight(Up(c, s))
    ensures c'.left.Node? && !IsRed(c'.left) && IsRed(c'.left.left)
    ensures InOrder(Fill(c', s)) == InOrder(Fill(c, s))
  {
    var r := c.left;
    var r1 := Node(r.left, r.n, Red, Painted(r.right, Black));
    c' := RightOf(RotatedLeft(r1), c.n, c.color, c.up);
    assert RB(r.right, h) && RB(r.left, h);
    assert RB(Node(r.left, r.n, Red, r.right.left), h);
    var c1 := LeftOf(c.up, c.n, c.color, s);
    assert InOrder(r1) == InOrder(r);
    SameInOrder(c1, r1, r);
    RotateLeftInOrder(c1, r1);
  }

  lemma {:induction false} FarNephewRightStep(c: Ctx, s: Shape, h: nat)
    requires c.RightOf? && !IsRed(s) && Short(c, s, h)
    requires c.left.Node? && !IsRed(c.left) && IsRed(c.left.left)
    ensures IsRbTree(Fill(c.up, FarNephewRight(Up(c, s))))
    ensures InOrder(Fill(c.up, FarNephewRight(Up(c, s)))) == InOrder(Fill(c, s))
  {
    var r := c.left;
    var q := FarNephewRight(Up(c, s));
    assert RB(r.right, h) && RB(r.left, h);
    assert RB(q.right, h + 1) && RB(q.left, h + 1);
    FillRB(c.up, q, if c.color.Black? then h + 2 else h + 1);
    var r1 := Node(Painted(r.left, Black), r.n, c.color, r.right);
    var p1 := Node(r1, c.n, Black, s);
    assert InOrder(r1) == InOrder(r);
    assert InOrder(p1) == InOrder(Up(c, s));
    SameInOrder(c.up, p1, Up(c, s));
    RotateRightInOrder(c.up, p1);
  }

  /** `path` hung below `base`. */
  ghost function Append(path: Ctx, base: Ctx): Ctx {
    match path
    case Top => base
    case LeftOf(up, n, col, r) => LeftOf(Append(up, base), n, col, r)
    case RightOf(l, n, col, up) => RightOf(l, n, col, Append(up, base))
  }

  ghost predicate LeftSpine(path: Ctx) {
    path.Top? || (path.LeftOf? && LeftSpine(path.up))
  }

  lemma {:induction false} AppendNodes(path: Ctx, base: Ctx)
    ensures CNodes(Append(path, base)) == CNodes(path) + CNodes(base)
    ensures ProperCtx(Append(path, base)) <==> ProperCtx(path) && ProperCtx(base) && CNodes(path) !! CNodes(base)
  {
    if !path.Top? {
      AppendNodes(path.up, base);
    }
  }

  lemma {:induction false} AppendFill(path: Ctx, base: Ctx, s: Shape)
    ensures Fill(Append(path, base), s) == Fill(base, Fill(path, s))
  {
    if !path.Top? {
      AppendFill(path.up, base, Up(path, s));
    }
  }

  /** The rules on a context do not mention which nodes it is made of. */
  lemma {:induction false} AppendOk(path: Ctx, b: Ctx, b': Ctx, h: nat)
    requires CtxOk(Append(path, b), h) && SameRules(b, b')
    ensures CtxOk(Append(path, b'), h)
  {
    if !path.Top? {
      AppendOk(path.up, b, b', if path.color.Black? then h + 1 else h);
    }
  }

  ghost predicate SameRules(b: Ctx, b': Ctx) {
    !b.Top? && !b'.Top? && b.color == b'.color && b.up == b'.up
    && (b.LeftOf? ==> b'.LeftOf? && b.right == b'.right)
    && (b.RightOf? ==> b'.RightOf? && b.left == b'.left)
  }

  /** Taking the first node off a left spine. */
  lemma {:induction false} SpineProper(c: Ctx, s: Shape, path: Ctx, y: Shape)
    requires ProperAt(c, s) && s.Node? && y.Node? && y.left.Leaf? && s.right == Fill(path, y)
    ensures ProperCtx(path) && Proper(y) && Nodes(y) !! CNodes(path) && Nodes(s.right) == CNodes(path) + Nodes(y)
    ensures Proper(Fill(path, y.right)) && Nodes(Fill(path, y.right)) == Nodes(s.right) - {y.n}
    ensures ProperAt(c, Node(s.left, y.n, s.color, Fill(path, y.right)))
    ensures Nodes(y) == {y.n} + Nodes(y.right)
  {
    FillProper(path, y);
    FillNodes(path, y);
    FillProper(path, y.right);
    FillNodes(path, y.right);
  }

  /** The parts of a tree at whose right subtree's left end `y` stands are apart. */
  lemma {:induction false} SpineParts(c: Ctx, s: Shape, path: Ctx, y: Shape)
    requires ProperAt(c, s) && s.Node? && s.left.Node? && y.Node? && y.left.Leaf? && s.right == Fill(path, y) && !path.Top?
    requires Nodes(s.right) == CNodes(path) + Nodes(y) && Nodes(Fill(path, y.right)) == Nodes(s.right) - {y.n}
    ensures s.left.n in Nodes(s.left) && path.n in CNodes(path) && y.n in Nodes(y)
    ensures Nodes(s.left) !! CNodes(path) && Nodes(s.left) !! Nodes(y)
    ensures CNodes(c) !! Nodes(s.left) + CNodes(path) + Nodes(y) && s.n !in CNodes(c) + Nodes(s.left) + CNodes(path) + Nodes(y)
    ensures CNodes(c) + Nodes(s) == CNodes(c) + Nodes(s.left) + Nodes(Fill(path, y.right)) + {s.n, y.n}
    ensures s.right.Node? && Fill(path, y.right).Node? && Fill(path, y.right).n == s.right.n
  {
    FillNonempty(path.up, Up(path, y));
    FillNonempty(path.up, Up(path, y.right));
  }

  /** Walking down a path keeps the fit. */
  lemma {:induction false} PathRB(path: Ctx, base: Ctx, s: Shape, h: nat) returns (h': nat)
    requires RB(Fill(path, s), h) && CtxOk(base, h) && (IsRed(Fill(path, s)) ==> BlackHolder(base))
    ensures RB(s, h') && CtxOk(Append(path, base), h') && (IsRed(s) ==> BlackHolder(Append(path, base)))
  {
    if path.Top? {
      h' := h;
    } else {
      h' := PathRB(path.up, base, Up(path, s), h);
      h' := if path.color.Black? then h' - 1 else h';
    }
  }

  lemma {:induction false} SpineInOrder(path: Ctx)
    requires LeftSpine(path)
    ensures Before(path) == []
  {
    if !path.Top? {
      SpineInOrder(path.up);
    }
  }

  lemma {:induction false} SpineFill(path: Ctx, s: Shape)
    requires LeftSpine(path)
    ensures InOrder(Fill(path, s)) == InOrder(s) + After(path)
  {
    SpineInOrder(path);
    FillInOrder(path, s);
    assert [] + InOrder(s) == InOrder(s);
  }

  ghost predicate RightSpine(path: Ctx) {
    path.Top? || (path.RightOf? && RightSpine(path.up))
  }

  lemma {:induction false} RightSpineInOrder(path: Ctx)
    requires RightSpine(path)
    ensures After(path) == []
  {
    if !path.Top? {
      RightSpineInOrder(path.up);
    }
  }

  lemma {:induction false} RightSpineFill(path: Ctx, s: Shape)
    requires RightSpine(path)
    ensures InOrder(Fill(path, s)) == Before(path) + InOrder(s)
  {
    RightSpineInOrder(path);
    FillInOrder(path, s);
    assert Before(path) + InOrder(s) + [] == Before(path) + InOrder(s);
  }

  /** Where the focus stands in the in-order sequence, and what surrounds it. */
  lemma {:induction false} PlaceOf(c: Ctx, s: Shape) returns (i: nat)
    requires s.Node?
    ensures var t := InOrder(Fill(c, s));
            && i < |t| && t[i] == s.n
            && t[..i] == Before(c) + InOrder(s.left) && t[i + 1..] == InOrder(s.right) + After(c)
  {
    FillInOrder(c, s);
    i := |Before(c)| + |InOrder(s.left)|;
    Regrouped(Before(c), InOrder(s.left), s.n, InOrder(s.right), After(c));
    Cut(Before(c) + InOrder(s.left), s.n, InOrder(s.right) + After(c));
  }

  lemma Regrouped<T>(a: seq<T>, l: seq<T>, x: T, r: seq<T>, b: seq<T>)
    ensures a + (l + [x] + r) + b == (a + l) + [x] + (r + b)
  {
  }

  lemma Cut<T>(a: seq<T>, x: T, b: seq<T>)
    ensures (a + [x] + b)[|a|] == x && (a + [x] + b)[..|a|] == a && (a + [x] + b)[|a| + 1..] == b
  {
  }

  /** `s` without its first `x`. */
  ghost function Without<T>(s: seq<T>, x: T): seq<T> {
    if s == [] then [] else if s[0] == x then s[1..] else [s[0]] + Without(s[1..], x)
  }

  lemma {:induction false} WithoutSplit<T>(a: seq<T>, x: T, b: seq<T>)
    requires x !in a
    ensures Without(a + [x] + b, x) == a + b
  {
    if a == [] {
      assert (a + [x] + b)[1..] == b;
    } else {
      assert (a + [x] + b)[1..] == a[1..] + [x] + b;
      WithoutSplit(a[1..], x, b);
    }
  }

  lemma {:induction false} WithoutMiddle<T>(a: seq<T>, l: seq<T>, x: T, r: seq<T>, b: seq<T>)
    requires x !in a && x !in l
    ensures Without(a + (l + [x] + r) + b, x) == a + (l + r) + b
  {
    assert a + (l + [x] + r) + b == (a + l) + [x] + (r + b);
    WithoutSplit(a + l, x, r + b);
    assert (a + l) + (r + b) == a + (l + r) + b;
  }

  /** Replacing the subtree of `s.n` by one with its other nodes removes `s.n`. */
  lemma {:induction false} RemoveInOrder(c: Ctx, s: Shape, s': Shape)
    requires ProperAt(c, s) && s.Node? && InOrder(s') == InOrder(s.left) + InOrder(s.right)
    ensures InOrder(Fill(c, s')) == Without(InOrder(Fill(c, s)), s.n)
  {
    FillInOrder(c, s);
    FillInOrder(c, s');
    BeforeAfterNodes(c);
    InOrderNodes(s.left);
    WithoutMiddle(Before(c), InOrder(s.left), s.n, InOrder(s.right), After(c));
  }

  lemma SuccessorFirst<T>(l: seq<T>, y: T, r: seq<T>, rest: seq<T>)
    ensures l + [y] + (r + rest) == l + ([] + [y] + r + rest)
  {
  }

  /** Removing a node with two children: its successor takes its place. */
  lemma {:induction false} SpliceInOrder(c: Ctx, s: Shape, path: Ctx, y: Shape)
    requires ProperAt(c, s) && s.Node? && LeftSpine(path) && y.Node? && y.left.Leaf? && s.right == Fill(path, y)
    ensures InOrder(Fill(Append(path, RightOf(s.left, y.n, s.color, c)), y.right))
         == Without(InOrder(Fill(c, s)), s.n)
  {
    var s' := Node(s.left, y.n, s.color, Fill(path, y.right));
    AppendFill(path, RightOf(s.left, y.n, s.color, c), y.right);
    SpineFill(path, y);
    SpineFill(path, y.right);
    SuccessorFirst(InOrder(s.left), y.n, InOrder(y.right), After(path));
    assert InOrder(y) == [] + [y.n] + InOrder(y.right);
    RemoveInOrder(c, s, s');
  }

  /** Rules and order when the successor `y` leaves its place and stands in for `s.n`. */
  lemma {:induction false} SpliceFacts(c: Ctx, s: Shape, h: nat, path: Ctx, y: Shape) returns (h': nat)
    requires ProperAt(c, s) && s.Node? && LeftSpine(path) && y.Node? && y.left.Leaf? && s.right == Fill(path, y)
    requires RB(s, h) && CtxOk(c, h) && (IsRed(s) ==> BlackHolder(c))
    ensures var c' := Append(path, RightOf(s.left, y.n, s.color, c));
            && InOrder(Fill(c', y.right)) == Without(InOrder(Fill(c, s)), s.n)
            && if IsRed(y) then RB(y.right, h') && CtxOk(c', h') && !IsRed(y.right) else Short(c', y.right, h')
  {
    var base, base' := RightOf(s.left, s.n, s.color, c), RightOf(s.left, y.n, s.color, c);
    h' := PathRB(path, base, y, if s.color.Black? then h - 1 else h);
    AppendOk(path, base, base', h');
    SpliceInOrder(c, s, path, y);
    h' := if y.color.Black? then h' - 1 else h';
  }

  /** Cut the tree open at node `x`. */
  ghost function Locate(s: Shape, x: Timer, c: Ctx): (r: (Ctx, Shape))
    requires x in Nodes(s)
    ensures r.1.Node? && r.1.n == x
    ensures Fill(r.0, r.1) == Fill(c, s)
  {
    if s.n == x then (c, s)
    else if x in Nodes(s.left) then Locate(s.left, x, LeftOf(c, s.n, s.color, s.right))
    else Locate(s.right, x, RightOf(s.left, s.n, s.color, c))
  }

  /** Every position of a red-black tree is a fitting pair. */
  lemma {:induction false} LocateRB(s: Shape, x: Timer, c: Ctx, h: nat) returns (h': nat)
    requires x in Nodes(s) && RB(s, h) && CtxOk(c, h) && (IsRed(s) ==> BlackHolder(c))
    ensures var r := Locate(s, x, c);
            RB(r.1, h') && CtxOk(r.0, h') && (IsRed(r.1) ==> BlackHolder(r.0))
  {
    var hc := if s.color.Black? then h - 1 else h;
    if s.n == x {
      h' := h;
    } else if x in Nodes(s.left) {
      h' := LocateRB(s.left, x, LeftOf(c, s.n, s.color, s.right), hc);
    } else {
      h' := LocateRB(s.right, x, RightOf(s.left, s.n, s.color, c), hc);
    }
  }
}
