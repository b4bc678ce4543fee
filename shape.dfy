/**
 * The ghost picture of an AVL tree's arena: which node id sits where.
 *
 * A `Tree` holds only node ids; keys, values, balances and links live in the
 * arena maps of `Avl.AVLTree`. A `Ctx` is a zipper frame list that records the
 * path from a position up to the root, so that a method working on one node
 * can say where that node is without walking the whole tree.
 */
module Shape {
  /** The null id: the arena's stand-in for `nullptr`. */
  const NIL: int := -1

  datatype Tree = Nil | Node(left: Tree, id: nat, right: Tree)

  /**
   * The path from a hole up to the root. `InLeft(up, p, r)`: the hole is the
   * left child of node `p`, whose right subtree is `r` and whose own position
   * is `up`; `InRight` is the mirror.
   */
  datatype Ctx = Top | InLeft(up: Ctx, id: nat, right: Tree) | InRight(left: Tree, id: nat, up: Ctx)

  function RootId(s: Tree): int
  {
    if s.Nil? then NIL else s.id
  }

  /** Only the empty tree has the NIL root id. */
  lemma RootIdNil(s: Tree)
    ensures RootId(s) == NIL <==> s.Nil?
  {
  }

  /** The id of the node directly above the hole, or NIL at the root. */
  function ParentId(c: Ctx): int
  {
    if c.Top? then NIL else c.id
  }

  /** Puts `s` into the hole of `c`, giving the whole tree. */
  function Plug(c: Ctx, s: Tree): Tree
  {
    match c
    case Top => s
    case InLeft(up, p, r) => Plug(up, Node(s, p, r))
    case InRight(l, p, up) => Plug(up, Node(l, p, s))
  }

  function Depth(c: Ctx): nat
  {
    match c
    case Top => 0
    case InLeft(up, _, _) => 1 + Depth(up)
    case InRight(_, _, up) => 1 + Depth(up)
  }

  /** The context `inner` continued by `outer`: `Plug(Append(inner, outer), s) == Plug(outer, Plug(inner, s))`. */
  function Append(inner: Ctx, outer: Ctx): Ctx
  {
    match inner
    case Top => outer
    case InLeft(up, p, r) => InLeft(Append(up, outer), p, r)
    case InRight(l, p, up) => InRight(l, p, Append(up, outer))
  }

  function Ids(s: Tree): set<nat>
  {
    match s
    case Nil => {}
    case Node(l, i, r) => Ids(l) + {i} + Ids(r)
  }

  /** The ids a context holds: the ancestors and their other subtrees. */
  function CtxIds(c: Ctx): set<nat>
  {
    match c
    case Top => {}
    case InLeft(up, p, r) => CtxIds(up) + {p} + Ids(r)
    case InRight(l, p, up) => CtxIds(up) + {p} + Ids(l)
  }

  function Max(a: int, b: int): int
  {
    if a < b then b else a
  }

  function Height(s: Tree): nat
  {
    match s
    case Nil => 0
    case Node(l, _, r) => 1 + Max(Height(l), Height(r))
  }

  /** The number of nodes of a tree. */
  function Size(s: Tree): nat
  {
    match s
    case Nil => 0
    case Node(l, _, r) => Size(l) + 1 + Size(r)
  }

  /** The ids in in-order (symmetric) order. */
  function InOrder(s: Tree): seq<nat>
  {
    match s
    case Nil => []
    case Node(l, i, r) => InOrder(l) + [i] + InOrder(r)
  }

  /** No id occurs twice: every node is owned by exactly one parent slot. */
  ghost predicate Distinct(s: Tree)
  {
    match s
    case Nil => true
    case Node(l, i, r) =>
      i !in Ids(l) && i !in Ids(r) && Ids(l) !! Ids(r) && Distinct(l) && Distinct(r)
  }

  ghost predicate DistinctCtx(c: Ctx)
  {
    match c
    case Top => true
    case InLeft(up, p, r) =>
      Distinct(r) && p !in Ids(r) && ({p} + Ids(r)) !! CtxIds(up) && DistinctCtx(up)
    case InRight(l, p, up) =>
      Distinct(l) && p !in Ids(l) && ({p} + Ids(l)) !! CtxIds(up) && DistinctCtx(up)
  }

  /** Every frame of `c` steps up from a right child: the hole is on the right spine of `Plug(c, _)`. */
  ghost predicate RightSpine(c: Ctx)
  {
    match c
    case Top => true
    case InLeft(_, _, _) => false
    case InRight(_, _, up) => RightSpine(up)
  }

  /** Every frame of `c` steps up from a left child: the hole is on the left spine of `Plug(c, _)`. */
  ghost predicate LeftSpine(c: Ctx)
  {
    match c
    case Top => true
    case InLeft(up, _, _) => LeftSpine(up)
    case InRight(_, _, _) => false
  }

  lemma {:induction false} PlugIds(c: Ctx, s: Tree)
    ensures Ids(Plug(c, s)) == CtxIds(c) + Ids(s)
  {
    match c
    case Top =>
    case InLeft(up, p, r) => PlugIds(up, Node(s, p, r));
    case InRight(l, p, up) => PlugIds(up, Node(l, p, s));
  }

  lemma {:induction false} PlugDistinct(c: Ctx, s: Tree)
    ensures Distinct(Plug(c, s)) <==> DistinctCtx(c) && Distinct(s) && CtxIds(c) !! Ids(s)
  {
    match c
    case Top =>
    case InLeft(up, p, r) => PlugDistinct(up, Node(s, p, r));
    case InRight(l, p, up) => PlugDistinct(up, Node(l, p, s));
  }

  /** Replacing the focus by a distinct tree over no new ids keeps the whole tree distinct. */
  lemma DistinctReplace(c: Ctx, s: Tree, s': Tree)
    requires Distinct(Plug(c, s)) && Distinct(s') && Ids(s') <= Ids(s)
    ensures Distinct(Plug(c, s'))
  {
    PlugDistinct(c, s);
    PlugDistinct(c, s');
  }

  /** Hanging a fresh leaf in the empty left slot of `p` keeps the ids distinct and adds exactly the leaf. */
  lemma HangLeftShape(c: Ctx, p: nat, r: Tree, n: nat)
    requires Distinct(Plug(c, Node(Nil, p, r))) && n !in Ids(Plug(c, Node(Nil, p, r)))
    ensures Distinct(Plug(c, Node(Node(Nil, n, Nil), p, r)))
    ensures Ids(Plug(c, Node(Node(Nil, n, Nil), p, r))) == Ids(Plug(c, Node(Nil, p, r))) + {n}
  {
    PlugIds(c, Node(Nil, p, r));
    PlugIds(c, Node(Node(Nil, n, Nil), p, r));
    PlugDistinct(c, Node(Nil, p, r));
    PlugDistinct(c, Node(Node(Nil, n, Nil), p, r));
  }

  /** The mirror image of `HangLeftShape`. */
  lemma HangRightShape(c: Ctx, l: Tree, p: nat, n: nat)
    requires Distinct(Plug(c, Node(l, p, Nil))) && n !in Ids(Plug(c, Node(l, p, Nil)))
    ensures Distinct(Plug(c, Node(l, p, Node(Nil, n, Nil))))
    ensures Ids(Plug(c, Node(l, p, Node(Nil, n, Nil)))) == Ids(Plug(c, Node(l, p, Nil))) + {n}
  {
    PlugIds(c, Node(l, p, Nil));
    PlugIds(c, Node(l, p, Node(Nil, n, Nil)));
    PlugDistinct(c, Node(l, p, Nil));
    PlugDistinct(c, Node(l, p, Node(Nil, n, Nil)));
  }

  lemma {:induction false} PlugAppend(inner: Ctx, outer: Ctx, s: Tree)
    ensures Plug(Append(inner, outer), s) == Plug(outer, Plug(inner, s))
  {
    match inner
    case Top =>
    case InLeft(up, p, r) => PlugAppend(up, outer, Node(s, p, r));
    case InRight(l, p, up) => PlugAppend(up, outer, Node(l, p, s));
  }

  lemma {:induction false} AppendIds(inner: Ctx, outer: Ctx)
    ensures CtxIds(Append(inner, outer)) == CtxIds(inner) + CtxIds(outer)
  {
    match inner
    case Top =>
    case InLeft(up, p, r) => AppendIds(up, outer);
    case InRight(l, p, up) => AppendIds(up, outer);
  }

  lemma {:induction false} AppendDepth(inner: Ctx, outer: Ctx)
    ensures Depth(Append(inner, outer)) == Depth(inner) + Depth(outer)
  {
    match inner
    case Top =>
    case InLeft(up, p, r) => AppendDepth(up, outer);
    case InRight(l, p, up) => AppendDepth(up, outer);
  }

  lemma {:induction false} DistinctSize(s: Tree)
    requires Distinct(s)
    ensures |Ids(s)| == Size(s)
  {
    match s
    case Nil =>
    case Node(l, i, r) =>
      DistinctSize(l);
      DistinctSize(r);
      assert Ids(l) !! {i};
      assert (Ids(l) + {i}) !! Ids(r);
  }

  // ---------------------------------------------------------------------------
  // Rotations on shapes
  // ---------------------------------------------------------------------------

  /** Left rotation: the right child becomes the top, the old top its left child. */
  function RotL(s: Tree): (r: Tree)
    requires s.Node? && s.right.Node?
    ensures r.Node? && r.id == s.right.id && r.left.Node? && r.left.id == s.id
  {
    Node(Node(s.left, s.id, s.right.left), s.right.id, s.right.right)
  }

  /** Right rotation: the mirror of `RotL`. */
  function RotR(s: Tree): (r: Tree)
    requires s.Node? && s.left.Node?
    ensures r.Node? && r.id == s.left.id && r.right.Node? && r.right.id == s.id
  {
    Node(s.left.left, s.left.id, Node(s.left.right, s.id, s.right))
  }

  /** A rotation keeps the node set, the in-order sequence and distinctness, and `RotR` undoes `RotL`. */
  lemma {:induction false} RotLProps(s: Tree)
    requires s.Node? && s.right.Node?
    ensures Ids(RotL(s)) == Ids(s)
    ensures InOrder(RotL(s)) == InOrder(s)
    ensures Distinct(s) ==> Distinct(RotL(s))
    ensures RotR(RotL(s)) == s
  {
    var a, x, b, y, c := s.left, s.id, s.right.left, s.right.id, s.right.right;
    assert InOrder(RotL(s)) == InOrder(a) + [x] + InOrder(b) + [y] + InOrder(c);
    assert InOrder(s) == InOrder(a) + [x] + (InOrder(b) + [y] + InOrder(c));
    assert Ids(RotL(s)) == Ids(a) + {x} + Ids(b) + {y} + Ids(c);
    if Distinct(s) {
      assert Distinct(s.right);
      assert Distinct(Node(a, x, b));
    }
  }

  lemma {:induction false} RotRProps(s: Tree)
    requires s.Node? && s.left.Node?
    ensures Ids(RotR(s)) == Ids(s)
    ensures InOrder(RotR(s)) == InOrder(s)
    ensures Distinct(s) ==> Distinct(RotR(s))
    ensures RotL(RotR(s)) == s
  {
    var a, x, b, y, c := s.left.left, s.left.id, s.left.right, s.id, s.right;
    assert InOrder(RotR(s)) == InOrder(a) + [x] + (InOrder(b) + [y] + InOrder(c));
    assert InOrder(s) == InOrder(a) + [x] + InOrder(b) + [y] + InOrder(c);
    assert Ids(s) == Ids(a) + {x} + Ids(b) + {y} + Ids(c);
    if Distinct(s) {
      assert Distinct(s.left);
      assert Distinct(Node(b, y, c));
    }
  }

  /** Replacing the focus by a tree with the same in-order sequence keeps the whole in-order sequence. */
  lemma {:induction false} PlugInOrder(c: Ctx, s: Tree, s': Tree)
    requires InOrder(s') == InOrder(s)
    ensures InOrder(Plug(c, s')) == InOrder(Plug(c, s))
  {
    match c
    case Top =>
    case InLeft(up, p, r) => PlugInOrder(up, Node(s, p, r), Node(s', p, r));
    case InRight(l, p, up) => PlugInOrder(up, Node(l, p, s), Node(l, p, s'));
  }

  // ---------------------------------------------------------------------------
  // Exchanging two ids (the base tree's node swap)
  // ---------------------------------------------------------------------------

  /** The id that `i` denotes once nodes `a` and `b` have exchanged places. */
  function Swap(a: nat, b: nat, i: int): (r: int)
    ensures i >= 0 ==> r >= 0
    ensures r == NIL <==> i == NIL
    ensures (i == a ==> r == b) && (i == b ==> r == a)
  {
    if i == a then b else if i == b then a else i
  }

  function Rename(s: Tree, a: nat, b: nat): (r: Tree)
    ensures RootId(r) == Swap(a, b, RootId(s))
  {
    match s
    case Nil => Nil
    case Node(l, i, rt) => Node(Rename(l, a, b), Swap(a, b, i) as nat, Rename(rt, a, b))
  }

  function RenameCtx(c: Ctx, a: nat, b: nat): (r: Ctx)
    ensures ParentId(r) == Swap(a, b, ParentId(c))
  {
    match c
    case Top => Top
    case InLeft(up, p, rt) => InLeft(RenameCtx(up, a, b), Swap(a, b, p) as nat, Rename(rt, a, b))
    case InRight(l, p, up) => InRight(Rename(l, a, b), Swap(a, b, p) as nat, RenameCtx(up, a, b))
  }

  lemma {:induction false} RenamePlug(c: Ctx, s: Tree, a: nat, b: nat)
    ensures Rename(Plug(c, s), a, b) == Plug(RenameCtx(c, a, b), Rename(s, a, b))
  {
    match c
    case Top =>
    case InLeft(up, p, r) => RenamePlug(up, Node(s, p, r), a, b);
    case InRight(l, p, up) => RenamePlug(up, Node(l, p, s), a, b);
  }

  /** Renaming leaves a tree that holds neither id as it is. */
  lemma {:induction false} RenameFresh(s: Tree, a: nat, b: nat)
    requires a !in Ids(s) && b !in Ids(s)
    ensures Rename(s, a, b) == s
  {
    match s
    case Nil =>
    case Node(l, i, r) => RenameFresh(l, a, b); RenameFresh(r, a, b);
  }

  lemma {:induction false} RenameCtxFresh(c: Ctx, a: nat, b: nat)
    requires a !in CtxIds(c) && b !in CtxIds(c)
    ensures RenameCtx(c, a, b) == c
  {
    match c
    case Top =>
    case InLeft(up, p, r) => RenameCtxFresh(up, a, b); RenameFresh(r, a, b);
    case InRight(l, p, up) => RenameCtxFresh(up, a, b); RenameFresh(l, a, b);
  }

  lemma {:induction false} RenameIds(s: Tree, a: nat, b: nat)
    requires a in Ids(s) && b in Ids(s)
    ensures Ids(Rename(s, a, b)) == Ids(s)
  {
    RenameIdsMap(s, a, b);
  }

  lemma {:induction false} RenameIdsMap(s: Tree, a: nat, b: nat)
    ensures forall i: nat :: i in Ids(Rename(s, a, b)) <==> Swap(a, b, i) in Ids(s)
  {
    match s
    case Nil =>
    case Node(l, i, r) => RenameIdsMap(l, a, b); RenameIdsMap(r, a, b);
  }

  lemma {:induction false} RenameDistinct(s: Tree, a: nat, b: nat)
    requires Distinct(s)
    ensures Distinct(Rename(s, a, b))
  {
    match s
    case Nil =>
    case Node(l, i, r) =>
      RenameDistinct(l, a, b);
      RenameDistinct(r, a, b);
      RenameIdsMap(l, a, b);
      RenameIdsMap(r, a, b);
  }

  lemma {:induction false} RenameHeight(s: Tree, a: nat, b: nat)
    ensures Height(Rename(s, a, b)) == Height(s)
  {
    match s
    case Nil =>
    case Node(l, i, r) => RenameHeight(l, a, b); RenameHeight(r, a, b);
  }

  /** The subtree of the node directly above the hole of `c`, with `s` in the hole. */
  function Lift(c: Ctx, s: Tree): (r: Tree)
    requires !c.Top?
    ensures r.Node? && r.id == c.id && Plug(c.up, r) == Plug(c, s)
  {
    if c.InLeft? then Node(s, c.id, c.right) else Node(c.left, c.id, s)
  }

  /** A rotation at the focus keeps the whole tree's ids and their distinctness. */
  lemma RotLPlug(c: Ctx, s: Tree)
    requires s.Node? && s.right.Node? && Distinct(Plug(c, s))
    ensures Ids(Plug(c, RotL(s))) == Ids(Plug(c, s)) && Distinct(Plug(c, RotL(s)))
  {
    PlugIds(c, s);
    PlugIds(c, RotL(s));
    PlugDistinct(c, s);
    RotLProps(s);
    DistinctReplace(c, s, RotL(s));
  }

  lemma RotRPlug(c: Ctx, s: Tree)
    requires s.Node? && s.left.Node? && Distinct(Plug(c, s))
    ensures Ids(Plug(c, RotR(s))) == Ids(Plug(c, s)) && Distinct(Plug(c, RotR(s)))
  {
    PlugIds(c, s);
    PlugIds(c, RotR(s));
    PlugDistinct(c, s);
    RotRProps(s);
    DistinctReplace(c, s, RotR(s));
  }

  // ---------------------------------------------------------------------------
  // Finding a node
  // ---------------------------------------------------------------------------

  /** The subtree of `s` rooted at node `n`, Nil when `n` does not occur in `s`. */
  function SubtreeAt(s: Tree, n: nat): (r: Tree)
    ensures r.Node? <==> n in Ids(s)
    ensures r.Node? ==> r.id == n
  {
    match s
    case Nil => Nil
    case Node(l, i, rt) =>
      if i == n then s else if n in Ids(l) then SubtreeAt(l, n) else SubtreeAt(rt, n)
  }

  /** Every node of `s` is the focus of some position in `s`. */
  lemma {:induction false} Locate(s: Tree, n: nat) returns (c: Ctx, f: Tree)
    requires n in Ids(s)
    ensures Plug(c, f) == s && f == SubtreeAt(s, n)
  {
    match s
    case Node(l, i, r) =>
      if i == n {
        c, f := Top, s;
      } else if n in Ids(l) {
        var c', f' := Locate(l, n);
        PlugAppend(c', InLeft(Top, i, r), f');
        c, f := Append(c', InLeft(Top, i, r)), f';
      } else {
        var c', f' := Locate(r, n);
        PlugAppend(c', InRight(l, i, Top), f');
        c, f := Append(c', InRight(l, i, Top)), f';
      }
  }

  /** Every non-empty tree has a rightmost node, reached from the top by right links only. */
  lemma {:induction false} Rightmost(s: Tree) returns (c: Ctx, l: Tree, m: nat)
    requires s.Node?
    ensures RightSpine(c) && Plug(c, Node(l, m, Nil)) == s
  {
    if s.right.Nil? {
      c, l, m := Top, s.left, s.id;
    } else {
      var c', l', m' := Rightmost(s.right);
      RightSpineAppend(c', InRight(s.left, s.id, Top));
      PlugAppend(c', InRight(s.left, s.id, Top), Node(l', m', Nil));
      c, l, m := Append(c', InRight(s.left, s.id, Top)), l', m';
    }
  }

  lemma {:induction false} RightSpineAppend(inner: Ctx, outer: Ctx)
    requires RightSpine(inner) && RightSpine(outer)
    ensures RightSpine(Append(inner, outer))
  {
    match inner
    case Top =>
    case InRight(l, p, up) => RightSpineAppend(up, outer);
  }

  lemma {:induction false} LeftSpineAppend(inner: Ctx, outer: Ctx)
    requires LeftSpine(inner) && LeftSpine(outer)
    ensures LeftSpine(Append(inner, outer))
  {
    match inner
    case Top =>
    case InLeft(up, p, r) => LeftSpineAppend(up, outer);
  }

  /**
   * Exchanging the places of a node `z` and the rightmost node `m` of its left
   * subtree puts `z` at `m`'s old place, below `m`.
   */
  lemma SwapWithRightmost(c0: Ctx, cl: Ctx, pl: Tree, m: nat, z: nat, r: Tree)
    requires Distinct(Plug(c0, Node(Plug(cl, Node(pl, m, Nil)), z, r)))
    ensures Rename(Plug(c0, Node(Plug(cl, Node(pl, m, Nil)), z, r)), z, m)
         == Plug(Append(cl, InLeft(c0, m, r)), Node(pl, z, Nil))
  {
    var l := Plug(cl, Node(pl, m, Nil));
    PlugDistinct(c0, Node(l, z, r));
    PlugDistinct(cl, Node(pl, m, Nil));
    PlugIds(cl, Node(pl, m, Nil));
    assert m in Ids(l);
    RenamePlug(c0, Node(l, z, r), z, m);
    RenameCtxFresh(c0, z, m);
    RenameFresh(r, z, m);
    RenamePlug(cl, Node(pl, m, Nil), z, m);
    RenameCtxFresh(cl, z, m);
    RenameFresh(pl, z, m);
    PlugAppend(cl, InLeft(c0, m, r), Node(pl, z, Nil));
  }
}
