/**
 * How the arena's `left`, `right` and `parent` links must look for a given
 * ghost shape, and how that picture survives local relinking.
 */
module Linking {
  import opened Shape

  /** The three link fields of every arena slot. */
  datatype Links = Links(left: map<nat, int>, right: map<nat, int>, parent: map<nat, int>)

  ghost predicate Has(g: Links, i: nat)
  {
    i in g.left && i in g.right && i in g.parent
  }

  /** Slot `i` has the same links in `g` and `g'`. */
  ghost predicate Agree(g: Links, g': Links, i: nat)
  {
    Has(g, i) && Has(g', i)
    && g'.left[i] == g.left[i] && g'.right[i] == g.right[i] && g'.parent[i] == g.parent[i]
  }

  /**
   * Every node of `s` links to its children and to its parent as its place in
   * `s` says; `pid` is the id of the node above `s` (NIL at the root).
   */
  ghost predicate LinkedTree(g: Links, s: Tree, pid: int)
  {
    match s
    case Nil => true
    case Node(l, i, r) =>
      Has(g, i) && g.left[i] == RootId(l) && g.right[i] == RootId(r) && g.parent[i] == pid
      && LinkedTree(g, l, i) && LinkedTree(g, r, i)
  }

  /**
   * Every ancestor that `c` records, and its other subtree, is linked as `c`
   * says; `cid` is the id in the hole; the top of `c` is `root`.
   */
  ghost predicate LinkedCtx(g: Links, root: int, c: Ctx, cid: int)
  {
    match c
    case Top => root == cid
    case InLeft(up, p, r) =>
      Has(g, p) && g.left[p] == cid && g.right[p] == RootId(r) && g.parent[p] == ParentId(up)
      && LinkedTree(g, r, p) && LinkedCtx(g, root, up, p)
    case InRight(l, p, up) =>
      Has(g, p) && g.left[p] == RootId(l) && g.right[p] == cid && g.parent[p] == ParentId(up)
      && LinkedTree(g, l, p) && LinkedCtx(g, root, up, p)
  }

  /** The whole arena is the tree `s`, hanging from `root`. */
  ghost predicate Linked(g: Links, root: int, s: Tree)
  {
    LinkedTree(g, s, NIL) && root == RootId(s)
  }

  /** A linked tree splits at any position into a linked focus and a linked context, and back. */
  lemma {:induction false} LinkedPlug(g: Links, root: int, c: Ctx, s: Tree)
    ensures Linked(g, root, Plug(c, s)) <==> LinkedTree(g, s, ParentId(c)) && LinkedCtx(g, root, c, RootId(s))
  {
    match c
    case Top =>
    case InLeft(up, p, r) => LinkedPlug(g, root, up, Node(s, p, r));
    case InRight(l, p, up) => LinkedPlug(g, root, up, Node(l, p, s));
  }

  lemma {:induction false} LinkedTreeHas(g: Links, s: Tree, pid: int)
    requires LinkedTree(g, s, pid)
    ensures forall i :: i in Ids(s) ==> Has(g, i)
  {
    match s
    case Nil =>
    case Node(l, i, r) => LinkedTreeHas(g, l, i); LinkedTreeHas(g, r, i);
  }

  lemma {:induction false} LinkedCtxHas(g: Links, root: int, c: Ctx, cid: int)
    requires LinkedCtx(g, root, c, cid)
    ensures forall i :: i in CtxIds(c) ==> Has(g, i)
  {
    match c
    case Top =>
    case InLeft(up, p, r) => LinkedTreeHas(g, r, p); LinkedCtxHas(g, root, up, p);
    case InRight(l, p, up) => LinkedTreeHas(g, l, p); LinkedCtxHas(g, root, up, p);
  }

  /** Links read only on the tree's own slots: other slots may change freely. */
  lemma {:induction false} LinkedTreeFrame(g: Links, g': Links, s: Tree, pid: int)
    requires LinkedTree(g, s, pid)
    requires forall i :: i in Ids(s) ==> Agree(g, g', i)
    ensures LinkedTree(g', s, pid)
  {
    match s
    case Nil =>
    case Node(l, i, r) =>
      assert Agree(g, g', i);
      LinkedTreeFrame(g, g', l, i);
      LinkedTreeFrame(g, g', r, i);
  }

  /** A linked subtree moved under another parent stays linked once its root's parent link is redirected. */
  lemma LinkedTreeReparent(g: Links, g': Links, s: Tree, pid: int, pid': int)
    requires LinkedTree(g, s, pid) && Distinct(s)
    requires forall i :: i in Ids(s) && i != RootId(s) ==> Agree(g, g', i)
    requires s.Node? ==> Has(g', s.id) && g'.left[s.id] == g.left[s.id] && g'.right[s.id] == g.right[s.id]
                         && g'.parent[s.id] == pid'
    ensures LinkedTree(g', s, pid')
  {
    match s
    case Nil =>
    case Node(l, i, r) =>
      LinkedTreeFrame(g, g', l, i);
      LinkedTreeFrame(g, g', r, i);
  }

  lemma {:induction false} LinkedCtxFrame(g: Links, g': Links, root: int, c: Ctx, cid: int)
    requires LinkedCtx(g, root, c, cid)
    requires forall i :: i in CtxIds(c) ==> Agree(g, g', i)
    ensures LinkedCtx(g', root, c, cid)
  {
    match c
    case Top =>
    case InLeft(up, p, r) =>
      assert Agree(g, g', p);
      LinkedTreeFrame(g, g', r, p);
      LinkedCtxFrame(g, g', root, up, p);
    case InRight(l, p, up) =>
      assert Agree(g, g', p);
      LinkedTreeFrame(g, g', l, p);
      LinkedCtxFrame(g, g', root, up, p);
  }

  /**
   * The old parent's child slot (or the root) now names `cid'` and no other
   * slot of the context changed: the context is linked around `cid'`.
   */
  lemma LinkedCtxRelink(g: Links, g': Links, root: int, root': int, c: Ctx, cid: int, cid': int)
    requires LinkedCtx(g, root, c, cid) && DistinctCtx(c)
    requires forall i :: i in CtxIds(c) && i != ParentId(c) ==> Agree(g, g', i)
    requires c.InLeft? ==> Has(g, c.id) && Has(g', c.id) && g'.left[c.id] == cid'
                           && g'.right[c.id] == g.right[c.id] && g'.parent[c.id] == g.parent[c.id]
    requires c.InRight? ==> Has(g, c.id) && Has(g', c.id) && g'.right[c.id] == cid'
                            && g'.left[c.id] == g.left[c.id] && g'.parent[c.id] == g.parent[c.id]
    requires root' == if c.Top? then cid' else root
    ensures LinkedCtx(g', root', c, cid')
  {
    match c
    case Top =>
    case InLeft(up, p, r) =>
      LinkedTreeFrame(g, g', r, p);
      LinkedCtxFrame(g, g', root, up, p);
    case InRight(l, p, up) =>
      LinkedTreeFrame(g, g', l, p);
      LinkedCtxFrame(g, g', root, up, p);
  }

  /**
   * Replacing the focus of a linked tree: if the new focus is linked below the
   * old parent, the old parent's child slot (or the root) now names it, and no
   * other slot of the context changed, the whole tree is linked again.
   */
  lemma LinkedReplace(g: Links, g': Links, root: int, root': int, c: Ctx, s: Tree, s': Tree)
    requires Linked(g, root, Plug(c, s)) && DistinctCtx(c)
    requires LinkedTree(g', s', ParentId(c))
    requires forall i :: i in CtxIds(c) && i != ParentId(c) ==> Agree(g, g', i)
    requires c.InLeft? ==> Has(g, c.id) && Has(g', c.id) && g'.left[c.id] == RootId(s')
                           && g'.right[c.id] == g.right[c.id] && g'.parent[c.id] == g.parent[c.id]
    requires c.InRight? ==> Has(g, c.id) && Has(g', c.id) && g'.right[c.id] == RootId(s')
                            && g'.left[c.id] == g.left[c.id] && g'.parent[c.id] == g.parent[c.id]
    requires root' == if c.Top? then RootId(s') else root
    ensures Linked(g', root', Plug(c, s'))
  {
    LinkedPlug(g, root, c, s);
    LinkedCtxRelink(g, g', root, root', c, RootId(s), RootId(s'));
    LinkedPlug(g', root', c, s');
  }

  // ---------------------------------------------------------------------------
  // Rotations
  // ---------------------------------------------------------------------------

  /**
   * The links after a left rotation at `s.id`, in the order avlbst.h rewrites
   * them: the right child `y` takes the node's place under its parent (or as
   * the root), `y`'s left subtree moves over to become the node's right
   * subtree, and the node becomes `y`'s left child.
   */
  function RotLLinks(g: Links, c: Ctx, s: Tree): Links
    requires s.Node? && s.right.Node?
  {
    var x, y, cc, pid := s.id, s.right.id, RootId(s.right.left), ParentId(c);
    var parent' := g.parent[y := pid][x := y];
    Links((if c.InLeft? then g.left[c.id := y] else g.left)[y := x],
          (if c.InRight? then g.right[c.id := y] else g.right)[x := cc],
          if cc == NIL then parent' else parent'[cc as nat := x])
  }

  /** The mirror image of `RotLLinks`. */
  function RotRLinks(g: Links, c: Ctx, s: Tree): Links
    requires s.Node? && s.left.Node?
  {
    var x, y, cc, pid := s.id, s.left.id, RootId(s.left.right), ParentId(c);
    var parent' := g.parent[y := pid][x := y];
    Links((if c.InLeft? then g.left[c.id := y] else g.left)[x := cc],
          (if c.InRight? then g.right[c.id := y] else g.right)[y := x],
          if cc == NIL then parent' else parent'[cc as nat := x])
  }

  /** `g'` has every slot of `g`, and the same links at every slot outside `xs`. */
  ghost predicate SameOutside(g: Links, g': Links, xs: set<int>)
  {
    forall i: nat :: Has(g, i) && i !in xs ==> Agree(g, g', i)
  }

  /** A linked subtree holding none of the rewritten slots stays linked. */
  lemma Untouched(g: Links, g': Links, t: Tree, pid: int, xs: set<int>)
    requires LinkedTree(g, t, pid) && SameOutside(g, g', xs)
    requires forall i :: i in Ids(t) ==> i !in xs
    ensures LinkedTree(g', t, pid)
  {
    LinkedTreeHas(g, t, pid);
    LinkedTreeFrame(g, g', t, pid);
  }

  /** A linked subtree whose root alone is rewritten, and only in its parent link, hangs linked under `pid'`. */
  lemma Reparented(g: Links, g': Links, t: Tree, pid: int, pid': int, xs: set<int>)
    requires LinkedTree(g, t, pid) && Distinct(t) && SameOutside(g, g', xs)
    requires forall i :: i in Ids(t) && i != RootId(t) ==> i !in xs
    requires t.Node? ==> Has(g', t.id) && g'.left[t.id] == g.left[t.id] && g'.right[t.id] == g.right[t.id]
                         && g'.parent[t.id] == pid'
    ensures LinkedTree(g', t, pid')
  {
    LinkedTreeHas(g, t, pid);
    LinkedTreeReparent(g, g', t, pid, pid');
  }

  lemma RotLLinksOutside(g: Links, c: Ctx, s: Tree)
    requires s.Node? && s.right.Node?
    ensures SameOutside(g, RotLLinks(g, c, s), {s.id, s.right.id, RootId(s.right.left), ParentId(c)})
  {
  }

  lemma RotRLinksOutside(g: Links, c: Ctx, s: Tree)
    requires s.Node? && s.left.Node?
    ensures SameOutside(g, RotRLinks(g, c, s), {s.id, s.left.id, RootId(s.left.right), ParentId(c)})
  {
  }

  /** The parent of a focus lies in the context, hence outside the focus. */
  lemma ParentOutside(c: Ctx, s: Tree)
    requires Distinct(Plug(c, s))
    ensures DistinctCtx(c) && Distinct(s)
    ensures forall i :: i in Ids(s) ==> i != ParentId(c)
    ensures forall i :: i in CtxIds(c) ==> i !in Ids(s)
  {
    PlugDistinct(c, s);
    assert !c.Top? ==> ParentId(c) in CtxIds(c);
  }

  /** The three rotated nodes of `Node(a, x, Node(b, y, d))` lie outside `a`, `d` and (but for its root) `b`. */
  lemma RotLApart(a: Tree, x: nat, b: Tree, y: nat, d: Tree)
    requires Distinct(Node(a, x, Node(b, y, d)))
    ensures Distinct(b)
    ensures forall i :: i in Ids(a) ==> i != x && i != y && i != RootId(b)
    ensures forall i :: i in Ids(d) ==> i != x && i != y && i != RootId(b)
    ensures forall i :: i in Ids(b) ==> i != x && i != y
    ensures x != y && x != RootId(b) && y != RootId(b)
  {
    assert Ids(Node(b, y, d)) == Ids(b) + {y} + Ids(d);
    assert y !in Ids(b) && y !in Ids(d) && x !in Ids(b) + {y} + Ids(d);
    assert b.Node? ==> b.id in Ids(b);
  }

  lemma RotRApart(a: Tree, y: nat, b: Tree, x: nat, d: Tree)
    requires Distinct(Node(Node(a, y, b), x, d))
    ensures Distinct(b)
    ensures forall i :: i in Ids(a) ==> i != x && i != y && i != RootId(b)
    ensures forall i :: i in Ids(d) ==> i != x && i != y && i != RootId(b)
    ensures forall i :: i in Ids(b) ==> i != x && i != y
    ensures x != y && x != RootId(b) && y != RootId(b)
  {
    assert Ids(Node(a, y, b)) == Ids(a) + {y} + Ids(b);
    assert y !in Ids(a) && y !in Ids(b) && x !in Ids(a) + {y} + Ids(b);
    assert b.Node? ==> b.id in Ids(b);
  }

  /** The node that moves down in a left rotation is linked over its new children. */
  lemma LinkedRotLLower(g: Links, c: Ctx, s: Tree)
    requires s.Node? && s.right.Node?
    requires LinkedTree(g, s, ParentId(c)) && Distinct(Plug(c, s))
    ensures LinkedTree(RotLLinks(g, c, s), Node(s.left, s.id, s.right.left), s.right.id)
  {
    var g' := RotLLinks(g, c, s);
    var a, x, b, y, d := s.left, s.id, s.right.left, s.right.id, s.right.right;
    var xs := {x, y, RootId(b), ParentId(c)};
    ParentOutside(c, s);
    RotLApart(a, x, b, y, d);
    RotLLinksOutside(g, c, s);
    assert Ids(a) <= Ids(s) && Ids(b) <= Ids(s);
    Untouched(g, g', a, x, xs);
    Reparented(g, g', b, y, x, xs);
  }

  lemma LinkedRotLFocus(g: Links, c: Ctx, s: Tree)
    requires s.Node? && s.right.Node?
    requires LinkedTree(g, s, ParentId(c)) && Distinct(Plug(c, s))
    ensures LinkedTree(RotLLinks(g, c, s), RotL(s), ParentId(c))
  {
    var g' := RotLLinks(g, c, s);
    var a, x, b, y, d := s.left, s.id, s.right.left, s.right.id, s.right.right;
    var xs := {x, y, RootId(b), ParentId(c)};
    ParentOutside(c, s);
    RotLApart(a, x, b, y, d);
    RotLLinksOutside(g, c, s);
    assert Ids(d) <= Ids(s);
    Untouched(g, g', d, y, xs);
    LinkedRotLLower(g, c, s);
  }

  lemma LinkedRotRLower(g: Links, c: Ctx, s: Tree)
    requires s.Node? && s.left.Node?
    requires LinkedTree(g, s, ParentId(c)) && Distinct(Plug(c, s))
    ensures LinkedTree(RotRLinks(g, c, s), Node(s.left.right, s.id, s.right), s.left.id)
  {
    var g' := RotRLinks(g, c, s);
    var a, y, b, x, d := s.left.left, s.left.id, s.left.right, s.id, s.right;
    var xs := {x, y, RootId(b), ParentId(c)};
    ParentOutside(c, s);
    RotRApart(a, y, b, x, d);
    RotRLinksOutside(g, c, s);
    assert Ids(b) <= Ids(s) && Ids(d) <= Ids(s);
    Untouched(g, g', d, x, xs);
    Reparented(g, g', b, y, x, xs);
  }

  lemma LinkedRotRFocus(g: Links, c: Ctx, s: Tree)
    requires s.Node? && s.left.Node?
    requires LinkedTree(g, s, ParentId(c)) && Distinct(Plug(c, s))
    ensures LinkedTree(RotRLinks(g, c, s), RotR(s), ParentId(c))
  {
    var g' := RotRLinks(g, c, s);
    var a, y, b, x, d := s.left.left, s.left.id, s.left.right, s.id, s.right;
    var xs := {x, y, RootId(b), ParentId(c)};
    ParentOutside(c, s);
    RotRApart(a, y, b, x, d);
    RotRLinksOutside(g, c, s);
    assert Ids(a) <= Ids(s);
    Untouched(g, g', a, y, xs);
    LinkedRotRLower(g, c, s);
  }

  /** The context of a left rotation is linked around the new top. */
  lemma LinkedRotLCtx(g: Links, root: int, c: Ctx, s: Tree)
    requires s.Node? && s.right.Node?
    requires LinkedCtx(g, root, c, s.id) && Distinct(Plug(c, s))
    ensures LinkedCtx(RotLLinks(g, c, s), if c.Top? then s.right.id else root, c, s.right.id)
  {
    var g' := RotLLinks(g, c, s);
    var xs := {s.id, s.right.id, RootId(s.right.left), ParentId(c)};
    ParentOutside(c, s);
    assert s.right.id in Ids(s) && (s.right.left.Node? ==> s.right.left.id in Ids(s));
    RotLLinksOutside(g, c, s);
    LinkedCtxHas(g, root, c, s.id);
    LinkedCtxRelink(g, g', root, if c.Top? then s.right.id else root, c, s.id, s.right.id);
  }

  lemma LinkedRotRCtx(g: Links, root: int, c: Ctx, s: Tree)
    requires s.Node? && s.left.Node?
    requires LinkedCtx(g, root, c, s.id) && Distinct(Plug(c, s))
    ensures LinkedCtx(RotRLinks(g, c, s), if c.Top? then s.left.id else root, c, s.left.id)
  {
    var g' := RotRLinks(g, c, s);
    var xs := {s.id, s.left.id, RootId(s.left.right), ParentId(c)};
    ParentOutside(c, s);
    assert s.left.id in Ids(s) && (s.left.right.Node? ==> s.left.right.id in Ids(s));
    RotRLinksOutside(g, c, s);
    LinkedCtxHas(g, root, c, s.id);
    LinkedCtxRelink(g, g', root, if c.Top? then s.left.id else root, c, s.id, s.left.id);
  }

  /** After a left rotation the arena is the rotated tree; the right child becomes the root when the node was. */
  lemma LinkedRotL(g: Links, root: int, c: Ctx, s: Tree)
    requires s.Node? && s.right.Node?
    requires Linked(g, root, Plug(c, s)) && Distinct(Plug(c, s))
    ensures Linked(RotLLinks(g, c, s), if c.Top? then s.right.id else root, Plug(c, RotL(s)))
  {
    LinkedPlug(g, root, c, s);
    LinkedRotLFocus(g, c, s);
    LinkedRotLCtx(g, root, c, s);
    LinkedPlug(RotLLinks(g, c, s), if c.Top? then s.right.id else root, c, RotL(s));
  }

  lemma LinkedRotR(g: Links, root: int, c: Ctx, s: Tree)
    requires s.Node? && s.left.Node?
    requires Linked(g, root, Plug(c, s)) && Distinct(Plug(c, s))
    ensures Linked(RotRLinks(g, c, s), if c.Top? then s.left.id else root, Plug(c, RotR(s)))
  {
    LinkedPlug(g, root, c, s);
    LinkedRotRFocus(g, c, s);
    LinkedRotRCtx(g, root, c, s);
    LinkedPlug(RotRLinks(g, c, s), if c.Top? then s.left.id else root, c, RotR(s));
  }

  // ---------------------------------------------------------------------------
  // Exchanging the places of two nodes
  // ---------------------------------------------------------------------------

  /** `m'` is link map `m` after nodes `a` and `b` exchanged places: slot `i` holds the renamed link of its partner. */
  ghost predicate Renamed(m: map<nat, int>, m': map<nat, int>, a: nat, b: nat)
  {
    a in m && b in m && m'.Keys == m.Keys
    && forall i :: i in m ==> m'[i] == Swap(a, b, m[Swap(a, b, i) as nat])
  }

  /** All three link maps renamed. */
  ghost predicate RenamedLinks(g: Links, g': Links, a: nat, b: nat)
  {
    Renamed(g.left, g'.left, a, b) && Renamed(g.right, g'.right, a, b) && Renamed(g.parent, g'.parent, a, b)
  }

  /** Computes a renamed link map. */
  method RenameSlots(m: map<nat, int>, a: nat, b: nat) returns (m': map<nat, int>)
    requires a in m && b in m
    ensures Renamed(m, m', a, b)
  {
    m' := map i | i in m :: Swap(a, b, m[Swap(a, b, i) as nat]);
  }

  lemma {:induction false} LinkedTreeRename(g: Links, g': Links, s: Tree, pid: int, a: nat, b: nat)
    requires RenamedLinks(g, g', a, b) && LinkedTree(g, s, pid)
    ensures LinkedTree(g', Rename(s, a, b), Swap(a, b, pid))
  {
    match s
    case Nil =>
    case Node(l, i, r) =>
      var j := Swap(a, b, i) as nat;
      assert Swap(a, b, j) == i;
      LinkedTreeRename(g, g', l, i, a, b);
      LinkedTreeRename(g, g', r, i, a, b);
  }

  /** After the exchange the arena is the renamed tree: each of `a`, `b` sits where the other sat. */
  lemma LinkedRename(g: Links, g': Links, root: int, s: Tree, a: nat, b: nat)
    requires RenamedLinks(g, g', a, b) && Linked(g, root, s)
    ensures Linked(g', Swap(a, b, root), Rename(s, a, b))
  {
    LinkedTreeRename(g, g', s, NIL, a, b);
  }

  // ---------------------------------------------------------------------------
  // Reading links, hanging a leaf, unhooking a node
  // ---------------------------------------------------------------------------

  /** The links at a focus node name its children and its parent, and the parent names it on the side the context says. */
  lemma LinkedAt(g: Links, root: int, c: Ctx, s: Tree)
    requires Linked(g, root, Plug(c, s)) && Distinct(Plug(c, s)) && s.Node?
    ensures Has(g, s.id) && g.left[s.id] == RootId(s.left) && g.right[s.id] == RootId(s.right)
    ensures g.parent[s.id] == ParentId(c)
    ensures c.Top? ==> root == s.id
    ensures !c.Top? ==> Has(g, c.id)
    ensures c.InLeft? ==> g.left[c.id] == s.id && g.right[c.id] != s.id
    ensures c.InRight? ==> g.right[c.id] == s.id && g.left[c.id] != s.id
  {
    LinkedPlug(g, root, c, s);
    PlugDistinct(c, s);
    assert s.id in Ids(s);
    match c
    case Top =>
    case InLeft(up, p, r) =>
      assert r.Node? ==> r.id in CtxIds(c);
    case InRight(l, p, up) =>
      assert l.Node? ==> l.id in CtxIds(c);
  }

  /** A new leaf `n` hung in the empty left slot of `p`. */
  lemma LinkedAttachLeft(g: Links, g': Links, root: int, c: Ctx, p: nat, r: Tree, n: nat)
    requires Linked(g, root, Plug(c, Node(Nil, p, r))) && Distinct(Plug(c, Node(Nil, p, r)))
    requires n !in Ids(Plug(c, Node(Nil, p, r)))
    requires g'.left == g.left[n := NIL][p := n] && g'.right == g.right[n := NIL]
    requires g'.parent == g.parent[n := p]
    ensures Linked(g', root, Plug(c, Node(Node(Nil, n, Nil), p, r)))
  {
    var s, s' := Node(Nil, p, r), Node(Node(Nil, n, Nil), p, r);
    LinkedPlug(g, root, c, s);
    PlugDistinct(c, s);
    PlugIds(c, s);
    AttachOutside(g, g', p, n);
    assert Ids(r) <= Ids(s);
    Untouched(g, g', r, p, {n, p});
    assert LinkedTree(g', Node(Nil, n, Nil), p);
    assert LinkedTree(g', s', ParentId(c));
    AttachCtx(g, g', root, c, p, n);
    LinkedPlug(g', root, c, s');
  }

  lemma LinkedAttachRight(g: Links, g': Links, root: int, c: Ctx, l: Tree, p: nat, n: nat)
    requires Linked(g, root, Plug(c, Node(l, p, Nil))) && Distinct(Plug(c, Node(l, p, Nil)))
    requires n !in Ids(Plug(c, Node(l, p, Nil)))
    requires g'.left == g.left[n := NIL] && g'.right == g.right[n := NIL][p := n]
    requires g'.parent == g.parent[n := p]
    ensures Linked(g', root, Plug(c, Node(l, p, Node(Nil, n, Nil))))
  {
    var s, s' := Node(l, p, Nil), Node(l, p, Node(Nil, n, Nil));
    LinkedPlug(g, root, c, s);
    PlugDistinct(c, s);
    PlugIds(c, s);
    AttachOutside(g, g', p, n);
    assert Ids(l) <= Ids(s);
    Untouched(g, g', l, p, {n, p});
    assert LinkedTree(g', Node(Nil, n, Nil), p);
    assert LinkedTree(g', s', ParentId(c));
    AttachCtx(g, g', root, c, p, n);
    LinkedPlug(g', root, c, s');
  }

  lemma AttachOutside(g: Links, g': Links, p: nat, n: nat)
    requires g'.left == g.left[n := NIL][p := n] || g'.left == g.left[n := NIL]
    requires g'.right == g.right[n := NIL][p := n] || g'.right == g.right[n := NIL]
    requires g'.parent == g.parent[n := p]
    ensures SameOutside(g, g', {n, p})
  {
  }

  /** The context above the slot where a leaf was hung is linked as before. */
  lemma AttachCtx(g: Links, g': Links, root: int, c: Ctx, p: nat, n: nat)
    requires LinkedCtx(g, root, c, p) && DistinctCtx(c) && SameOutside(g, g', {n, p})
    requires p !in CtxIds(c) && n !in CtxIds(c)
    ensures LinkedCtx(g', root, c, p)
  {
    LinkedCtxHas(g, root, c, p);
    LinkedCtxFrame(g, g', root, c, p);
  }

  /**
   * Unhooking node `s.id`, which has at most one child: the child (or nothing)
   * takes its place under the parent, and the node's slot is freed.
   */
  lemma LinkedSplice(g: Links, g': Links, root: int, root': int, c: Ctx, s: Tree)
    requires Linked(g, root, Plug(c, s)) && Distinct(Plug(c, s))
    requires s.Node? && (s.left.Nil? || s.right.Nil?)
    requires var ch := RootId(if s.left.Node? then s.left else s.right);
      && g'.left == (if c.InLeft? then g.left[c.id := ch] else g.left) - {s.id}
      && g'.right == (if c.InRight? then g.right[c.id := ch] else g.right) - {s.id}
      && g'.parent == (if ch != NIL then g.parent[ch as nat := ParentId(c)] else g.parent) - {s.id}
      && root' == if c.Top? then ch else root
    ensures Linked(g', root', Plug(c, if s.left.Node? then s.left else s.right))
  {
    var t := if s.left.Node? then s.left else s.right;
    var xs := {s.id, ParentId(c), RootId(t)};
    LinkedPlug(g, root, c, s);
    PlugDistinct(c, s);
    assert Ids(t) <= Ids(s) && s.id !in Ids(t);
    assert !c.Top? ==> c.id in CtxIds(c);
    SpliceOutside(g, g', c, s.id, RootId(t));
    Reparented(g, g', t, s.id, ParentId(c), xs);
    SpliceCtx(g, g', root, root', c, s.id, RootId(t), Ids(s));
    LinkedPlug(g', root', c, t);
  }

  lemma SpliceOutside(g: Links, g': Links, c: Ctx, z: nat, ch: int)
    requires ch >= NIL
    requires g'.left == (if c.InLeft? then g.left[c.id := ch] else g.left) - {z}
    requires g'.right == (if c.InRight? then g.right[c.id := ch] else g.right) - {z}
    requires g'.parent == (if ch != NIL then g.parent[ch as nat := ParentId(c)] else g.parent) - {z}
    ensures SameOutside(g, g', {z, ParentId(c), ch})
  {
  }

  /** The context of an unhooked node now leads down to the node's child. */
  lemma SpliceCtx(g: Links, g': Links, root: int, root': int, c: Ctx, z: nat, ch: int, focus: set<nat>)
    requires LinkedCtx(g, root, c, z) && DistinctCtx(c)
    requires z in focus && (ch != NIL ==> ch in focus) && CtxIds(c) !! focus
    requires SameOutside(g, g', {z, ParentId(c), ch})
    requires g'.left == (if c.InLeft? then g.left[c.id := ch] else g.left) - {z}
    requires g'.right == (if c.InRight? then g.right[c.id := ch] else g.right) - {z}
    requires g'.parent == (if ch != NIL then g.parent[ch as nat := ParentId(c)] else g.parent) - {z}
    requires root' == if c.Top? then ch else root
    ensures LinkedCtx(g', root', c, ch)
  {
    LinkedCtxHas(g, root, c, z);
    if !c.Top? {
      assert c.id in CtxIds(c);
      assert c.id != z && c.id != ch;
    }
    LinkedCtxRelink(g, g', root, root', c, z, ch);
  }
}
