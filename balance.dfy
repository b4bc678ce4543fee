/**
 * Balance factors: what the arena's `balance` map must hold for a shape, how
 * that survives changes elsewhere, and the local facts behind each case of
 * the two bottom-up fix-up walks (after insertion and after removal).
 */
module Balance {
  import opened Shape

  /** The range of the source's `int8_t` balance field. */
  predicate IsInt8(x: int)
  {
    -128 <= x < 128
  }

  /** Every node stores height(right) - height(left), and that lies in {-1, 0, 1}. */
  ghost predicate Balanced(bal: map<nat, int>, s: Tree)
  {
    match s
    case Nil => true
    case Node(l, i, r) =>
      i in bal && bal[i] == Height(r) - Height(l) && -1 <= bal[i] <= 1
      && Balanced(bal, l) && Balanced(bal, r)
  }

  /**
   * Every ancestor recorded in `c`, and its other subtree, stores the right
   * balance, when the hole has height `h`.
   */
  ghost predicate BalancedCtx(bal: map<nat, int>, c: Ctx, h: nat)
  {
    match c
    case Top => true
    case InLeft(up, p, r) =>
      p in bal && bal[p] == Height(r) - h && -1 <= bal[p] <= 1
      && Balanced(bal, r) && BalancedCtx(bal, up, 1 + Max(h, Height(r)))
    case InRight(l, p, up) =>
      p in bal && bal[p] == h - Height(l) && -1 <= bal[p] <= 1
      && Balanced(bal, l) && BalancedCtx(bal, up, 1 + Max(Height(l), h))
  }

  lemma {:induction false} PlugBalanced(bal: map<nat, int>, c: Ctx, s: Tree)
    ensures Balanced(bal, Plug(c, s)) <==> Balanced(bal, s) && BalancedCtx(bal, c, Height(s))
  {
    match c
    case Top =>
    case InLeft(up, p, r) => PlugBalanced(bal, up, Node(s, p, r));
    case InRight(l, p, up) => PlugBalanced(bal, up, Node(l, p, s));
  }

  /** In a balanced tree, the empty left slot of `p` sits in a balanced context of height 0. */
  lemma EmptyLeftSlot(bal: map<nat, int>, c: Ctx, p: nat, r: Tree)
    requires Balanced(bal, Plug(c, Node(Nil, p, r)))
    ensures BalancedCtx(bal, InLeft(c, p, r), 0)
  {
    PlugBalanced(bal, InLeft(c, p, r), Nil);
  }

  /** The mirror image of `EmptyLeftSlot`. */
  lemma EmptyRightSlot(bal: map<nat, int>, c: Ctx, l: Tree, p: nat)
    requires Balanced(bal, Plug(c, Node(l, p, Nil)))
    ensures BalancedCtx(bal, InRight(l, p, c), 0)
  {
    PlugBalanced(bal, InRight(l, p, c), Nil);
  }

  /** In a balanced tree every node's stored balance is its subtree's height difference, in {-1, 0, 1}. */
  lemma {:induction false} BalancedAt(bal: map<nat, int>, s: Tree, n: nat)
    requires Balanced(bal, s) && n in Ids(s)
    ensures n in bal && -1 <= bal[n] <= 1
    ensures bal[n] == Height(SubtreeAt(s, n).right) - Height(SubtreeAt(s, n).left)
  {
    match s
    case Node(l, i, r) =>
      if i == n {
      } else if n in Ids(l) {
        BalancedAt(bal, l, n);
      } else {
        BalancedAt(bal, r, n);
      }
  }

  /** Exchanging the places of `a` and `b` together with their stored balances keeps a tree balanced. */
  lemma {:induction false} RenameBalanced(bal: map<nat, int>, s: Tree, a: nat, b: nat)
    requires Balanced(bal, s) && a in bal && b in bal
    ensures Balanced(bal[a := bal[b]][b := bal[a]], Rename(s, a, b))
  {
    match s
    case Nil =>
    case Node(l, i, r) =>
      RenameBalanced(bal, l, a, b);
      RenameBalanced(bal, r, a, b);
      RenameHeight(l, a, b);
      RenameHeight(r, a, b);
  }

  /** `m'` agrees with `m` outside `x`. */
  ghost predicate SameExcept(m: map<nat, int>, m': map<nat, int>, x: set<nat>)
  {
    forall i :: i in m && i !in x ==> i in m' && m'[i] == m[i]
  }

  lemma {:induction false} BalancedFrame(bal: map<nat, int>, bal': map<nat, int>, s: Tree, x: set<nat>)
    requires Balanced(bal, s) && SameExcept(bal, bal', x) && x !! Ids(s)
    ensures Balanced(bal', s)
  {
    match s
    case Nil =>
    case Node(l, i, r) =>
      BalancedFrame(bal, bal', l, x);
      BalancedFrame(bal, bal', r, x);
  }

  lemma {:induction false} BalancedCtxFrame(bal: map<nat, int>, bal': map<nat, int>, c: Ctx, h: nat, x: set<nat>)
    requires BalancedCtx(bal, c, h) && SameExcept(bal, bal', x) && x !! CtxIds(c)
    ensures BalancedCtx(bal', c, h)
    decreases c, 1
  {
    if c.InLeft? {
      BalancedCtxFrameLeft(bal, bal', c, h, x);
    } else if c.InRight? {
      BalancedCtxFrameRight(bal, bal', c, h, x);
    }
  }

  lemma {:induction false} BalancedCtxFrameLeft(bal: map<nat, int>, bal': map<nat, int>, c: Ctx, h: nat, x: set<nat>)
    requires BalancedCtx(bal, c, h) && SameExcept(bal, bal', x) && x !! CtxIds(c) && c.InLeft?
    ensures BalancedCtx(bal', c, h)
    decreases c, 0
  {
    CtxApart(c, x);
    BalancedFrame(bal, bal', c.right, x);
    BalancedCtxFrame(bal, bal', c.up, 1 + Max(h, Height(c.right)), x);
  }

  lemma {:induction false} BalancedCtxFrameRight(bal: map<nat, int>, bal': map<nat, int>, c: Ctx, h: nat, x: set<nat>)
    requires BalancedCtx(bal, c, h) && SameExcept(bal, bal', x) && x !! CtxIds(c) && c.InRight?
    ensures BalancedCtx(bal', c, h)
    decreases c, 0
  {
    CtxApart(c, x);
    BalancedFrame(bal, bal', c.left, x);
    BalancedCtxFrame(bal, bal', c.up, 1 + Max(Height(c.left), h), x);
  }

  /** A set apart from a context is apart from each of its parts. */
  lemma CtxApart(c: Ctx, x: set<nat>)
    requires x !! CtxIds(c) && !c.Top?
    ensures c.id !in x && x !! CtxIds(c.up)
    ensures c.InLeft? ==> x !! Ids(c.right)
    ensures c.InRight? ==> x !! Ids(c.left)
  {
  }

  /**
   * A rebalanced focus with the height the context expects closes the walk:
   * the whole tree is balanced.
   */
  lemma Absorb(bal: map<nat, int>, bal': map<nat, int>, c: Ctx, s: Tree, s': Tree, h: nat, x: set<nat>)
    requires Distinct(Plug(c, s)) && x <= Ids(s)
    requires BalancedCtx(bal, c, h) && SameExcept(bal, bal', x)
    requires Balanced(bal', s') && Height(s') == h
    ensures Balanced(bal', Plug(c, s'))
  {
    PlugDistinct(c, s);
    BalancedCtxFrame(bal, bal', c, h, x);
    PlugBalanced(bal', c, s');
  }

  // ---------------------------------------------------------------------------
  // Rotations, locally
  // ---------------------------------------------------------------------------

  /**
   * Node `x` is two levels heavier on the right and its right child `y` leans
   * right or not at all: after a left rotation the balances avlbst.h assigns
   * match the heights; the height drops by one exactly when `y` leaned right.
   */
  lemma RotLLocal(bal: map<nat, int>, bal': map<nat, int>, t1: Tree, x: nat, t2: Tree, y: nat, t3: Tree)
    requires {x, y} !! Ids(t1) && {x, y} !! Ids(t2) && {x, y} !! Ids(t3)
    requires Balanced(bal, t1) && Balanced(bal, t2) && Balanced(bal, t3)
    requires y in bal && bal[y] == Height(t3) - Height(t2) && 0 <= bal[y] <= 1
    requires 1 + Max(Height(t2), Height(t3)) == Height(t1) + 2
    requires SameExcept(bal, bal', {x, y}) && x in bal' && y in bal'
    requires bal'[x] == (if bal[y] == 0 then 1 else 0)
    requires bal'[y] == (if bal[y] == 0 then -1 else 0)
    ensures Balanced(bal', Node(Node(t1, x, t2), y, t3))
    ensures Height(Node(Node(t1, x, t2), y, t3)) == Height(t1) + (if bal[y] == 0 then 3 else 2)
  {
    BalancedFrame(bal, bal', t1, {x, y});
    BalancedFrame(bal, bal', t2, {x, y});
    BalancedFrame(bal, bal', t3, {x, y});
  }

  /** The mirror image of `RotLLocal`. */
  lemma RotRLocal(bal: map<nat, int>, bal': map<nat, int>, t1: Tree, y: nat, t2: Tree, x: nat, t3: Tree)
    requires {x, y} !! Ids(t1) && {x, y} !! Ids(t2) && {x, y} !! Ids(t3)
    requires Balanced(bal, t1) && Balanced(bal, t2) && Balanced(bal, t3)
    requires y in bal && bal[y] == Height(t2) - Height(t1) && -1 <= bal[y] <= 0
    requires 1 + Max(Height(t1), Height(t2)) == Height(t3) + 2
    requires SameExcept(bal, bal', {x, y}) && x in bal' && y in bal'
    requires bal'[x] == (if bal[y] == 0 then -1 else 0)
    requires bal'[y] == (if bal[y] == 0 then 1 else 0)
    ensures Balanced(bal', Node(t1, y, Node(t2, x, t3)))
    ensures Height(Node(t1, y, Node(t2, x, t3))) == Height(t3) + (if bal[y] == 0 then 3 else 2)
  {
    BalancedFrame(bal, bal', t1, {x, y});
    BalancedFrame(bal, bal', t2, {x, y});
    BalancedFrame(bal, bal', t3, {x, y});
  }

  /**
   * The new balances of the outer nodes of a double rotation, left one first,
   * from the old balance of the node that ends up on top.
   */
  function ZigZagBalances(mid: int): (int, int)
  {
    if mid == 1 then (-1, 0) else if mid == -1 then (0, 1) else (0, 0)
  }

  /**
   * A double rotation brings `m` to the top, between `x` and `y`: with the
   * outer balances from `ZigZagBalances` and `m` at 0 every balance matches
   * the heights, and the result is two levels above `t1`.
   */
  lemma ZigZagLocal(bal: map<nat, int>, bal': map<nat, int>, t1: Tree, x: nat, a: Tree, m: nat, b: Tree, y: nat, t4: Tree)
    requires {x, m, y} !! Ids(t1) && {x, m, y} !! Ids(a) && {x, m, y} !! Ids(b) && {x, m, y} !! Ids(t4)
    requires Balanced(bal, t1) && Balanced(bal, a) && Balanced(bal, b) && Balanced(bal, t4)
    requires m in bal && bal[m] == Height(b) - Height(a) && -1 <= bal[m] <= 1
    requires Height(t4) == Height(t1) && 1 + Max(Height(a), Height(b)) == Height(t1) + 1
    requires SameExcept(bal, bal', {x, m, y}) && x in bal' && m in bal' && y in bal'
    requires bal'[x] == ZigZagBalances(bal[m]).0 && bal'[y] == ZigZagBalances(bal[m]).1 && bal'[m] == 0
    ensures Balanced(bal', Node(Node(t1, x, a), m, Node(b, y, t4)))
    ensures Height(Node(Node(t1, x, a), m, Node(b, y, t4))) == Height(t1) + 2
  {
    BalancedFrame(bal, bal', t1, {x, m, y});
    BalancedFrame(bal, bal', a, {x, m, y});
    BalancedFrame(bal, bal', b, {x, m, y});
    BalancedFrame(bal, bal', t4, {x, m, y});
  }

  lemma DistinctLeftRightOuter(t1: Tree, x: nat, a: Tree, m: nat, b: Tree, y: nat, t4: Tree)
    requires Distinct(Node(Node(t1, x, Node(a, m, b)), y, t4))
    ensures {x, m, y} !! Ids(t1) && {x, m, y} !! Ids(t4)
  {
  }

  lemma DistinctLeftRightInner(t1: Tree, x: nat, a: Tree, m: nat, b: Tree, y: nat, t4: Tree)
    requires Distinct(Node(Node(t1, x, Node(a, m, b)), y, t4))
    ensures {x, m, y} !! Ids(a) && {x, m, y} !! Ids(b)
  {
    assert Distinct(Node(t1, x, Node(a, m, b)));
    assert Distinct(Node(a, m, b));
    assert Ids(Node(a, m, b)) <= Ids(Node(t1, x, Node(a, m, b)));
  }

  /** A node of a distinct tree occurs neither below it nor among its context's ids. */
  lemma DistinctAt(c: Ctx, l: Tree, i: nat, r: Tree)
    requires Distinct(Plug(c, Node(l, i, r)))
    ensures {i} !! Ids(l) && {i} !! Ids(r) && {i} !! CtxIds(c)
  {
    PlugDistinct(c, Node(l, i, r));
  }

  /** The four subtrees of a left-right zig-zag do not hold its three nodes. */
  lemma DistinctLeftRight(t1: Tree, x: nat, a: Tree, m: nat, b: Tree, y: nat, t4: Tree)
    requires Distinct(Node(Node(t1, x, Node(a, m, b)), y, t4))
    ensures {x, m, y} !! Ids(t1) && {x, m, y} !! Ids(a) && {x, m, y} !! Ids(b) && {x, m, y} !! Ids(t4)
  {
    DistinctLeftRightOuter(t1, x, a, m, b, y, t4);
    DistinctLeftRightInner(t1, x, a, m, b, y, t4);
  }

  lemma DistinctRightLeftOuter(t1: Tree, x: nat, a: Tree, m: nat, b: Tree, y: nat, t4: Tree)
    requires Distinct(Node(t1, x, Node(Node(a, m, b), y, t4)))
    ensures {x, m, y} !! Ids(t1) && {x, m, y} !! Ids(t4)
  {
  }

  lemma DistinctRightLeftInner(t1: Tree, x: nat, a: Tree, m: nat, b: Tree, y: nat, t4: Tree)
    requires Distinct(Node(t1, x, Node(Node(a, m, b), y, t4)))
    ensures {x, m, y} !! Ids(a) && {x, m, y} !! Ids(b)
  {
    assert Distinct(Node(Node(a, m, b), y, t4));
    assert Distinct(Node(a, m, b));
    assert Ids(Node(a, m, b)) <= Ids(Node(Node(a, m, b), y, t4));
  }

  /** The mirror image of `DistinctLeftRight`. */
  lemma DistinctRightLeft(t1: Tree, x: nat, a: Tree, m: nat, b: Tree, y: nat, t4: Tree)
    requires Distinct(Node(t1, x, Node(Node(a, m, b), y, t4)))
    ensures {x, m, y} !! Ids(t1) && {x, m, y} !! Ids(a) && {x, m, y} !! Ids(b) && {x, m, y} !! Ids(t4)
  {
    DistinctRightLeftOuter(t1, x, a, m, b, y, t4);
    DistinctRightLeftInner(t1, x, a, m, b, y, t4);
  }

  lemma DistinctLeftLeft(t1: Tree, y: nat, t2: Tree, x: nat, t3: Tree)
    requires Distinct(Node(Node(t1, y, t2), x, t3))
    ensures {x, y} !! Ids(t1) && {x, y} !! Ids(t2) && {x, y} !! Ids(t3)
  {
    assert Distinct(Node(t1, y, t2));
  }

  lemma DistinctRightRight(t1: Tree, x: nat, t2: Tree, y: nat, t3: Tree)
    requires Distinct(Node(t1, x, Node(t2, y, t3)))
    ensures {x, y} !! Ids(t1) && {x, y} !! Ids(t2) && {x, y} !! Ids(t3)
  {
    assert Distinct(Node(t2, y, t3));
  }

  // ---------------------------------------------------------------------------
  // After insertion
  // ---------------------------------------------------------------------------

  /**
   * The state `insertFix(parent, child)` starts from: the focus is `parent`'s
   * subtree, internally balanced, one level taller than before the insertion,
   * leaning (±1) to one side; the ancestors still record the old height.
   */
  ghost predicate InsertFixState(bal: map<nat, int>, c: Ctx, s: Tree)
  {
    s.Node? && s.id in bal && (bal[s.id] == -1 || bal[s.id] == 1)
    && Balanced(bal, s) && BalancedCtx(bal, c, Height(s) - 1)
  }

  /**
   * A new leaf hung on the left of `p`: if `p` had no child it now leans left
   * and the walk starts at `p`; otherwise `p` is level and the tree is balanced.
   */
  lemma InsertLeafLeft(bal: map<nat, int>, bal': map<nat, int>, c: Ctx, p: nat, r: Tree, n: nat)
    requires Distinct(Plug(c, Node(Node(Nil, n, Nil), p, r)))
    requires BalancedCtx(bal, InLeft(c, p, r), 0)
    requires SameExcept(bal, bal', {p, n}) && n in bal' && bal'[n] == 0 && p in bal'
    requires bal'[p] == if bal[p] == 0 then -1 else 0
    ensures bal[p] == 0 ==> InsertFixState(bal', c, Node(Node(Nil, n, Nil), p, r))
    ensures bal[p] != 0 ==> Balanced(bal', Plug(c, Node(Node(Nil, n, Nil), p, r)))
  {
    PlugDistinct(c, Node(Node(Nil, n, Nil), p, r));
    BalancedFrame(bal, bal', r, {p, n});
    BalancedCtxFrame(bal, bal', c, 1 + Max(0, Height(r)), {p, n});
    if bal[p] != 0 {
      assert Height(r) == 1;
      assert Balanced(bal', Node(Node(Nil, n, Nil), p, r));
      PlugBalanced(bal', c, Node(Node(Nil, n, Nil), p, r));
    }
  }

  lemma InsertLeafRight(bal: map<nat, int>, bal': map<nat, int>, c: Ctx, l: Tree, p: nat, n: nat)
    requires Distinct(Plug(c, Node(l, p, Node(Nil, n, Nil))))
    requires BalancedCtx(bal, InRight(l, p, c), 0)
    requires SameExcept(bal, bal', {p, n}) && n in bal' && bal'[n] == 0 && p in bal'
    requires bal'[p] == if bal[p] == 0 then 1 else 0
    ensures bal[p] == 0 ==> InsertFixState(bal', c, Node(l, p, Node(Nil, n, Nil)))
    ensures bal[p] != 0 ==> Balanced(bal', Plug(c, Node(l, p, Node(Nil, n, Nil))))
  {
    PlugDistinct(c, Node(l, p, Node(Nil, n, Nil)));
    BalancedFrame(bal, bal', l, {p, n});
    BalancedCtxFrame(bal, bal', c, 1 + Max(Height(l), 0), {p, n});
    if bal[p] != 0 {
      assert Height(l) == 1;
      assert Balanced(bal', Node(l, p, Node(Nil, n, Nil)));
      PlugBalanced(bal', c, Node(l, p, Node(Nil, n, Nil)));
    }
  }

  /** Storing a new balance at `g` leaves every subtree and ancestor away from `g` as balanced as before. */
  lemma SetAt(bal: map<nat, int>, up: Ctx, l: Tree, g: nat, r: Tree, v: int, h: nat)
    requires Distinct(Plug(up, Node(l, g, r)))
    requires Balanced(bal, l) && Balanced(bal, r) && BalancedCtx(bal, up, h)
    ensures Balanced(bal[g := v], l) && Balanced(bal[g := v], r) && BalancedCtx(bal[g := v], up, h)
  {
    DistinctAt(up, l, g, r);
    assert SameExcept(bal, bal[g := v], {g});
    BalancedFrame(bal, bal[g := v], l, {g});
    BalancedFrame(bal, bal[g := v], r, {g});
    BalancedCtxFrame(bal, bal[g := v], up, h, {g});
  }

  /**
   * The grandparent takes the height gain on its left: balance +1 becomes 0 and
   * closes the walk (its height is unchanged), 0 becomes -1 and the walk
   * continues one level up.
   */
  lemma InsertStepLeft(bal: map<nat, int>, up: Ctx, s: Tree, g: nat, gr: Tree)
    requires Distinct(Plug(up, Node(s, g, gr)))
    requires InsertFixState(bal, InLeft(up, g, gr), s) && bal[g] != -1
    ensures var bal' := bal[g := bal[g] - 1];
      && (bal'[g] == 0 ==> Balanced(bal', Plug(up, Node(s, g, gr))))
      && (bal'[g] == -1 ==> InsertFixState(bal', up, Node(s, g, gr)))
  {
    var bal' := bal[g := bal[g] - 1];
    SetAt(bal, up, s, g, gr, bal[g] - 1, 1 + Max(Height(s) - 1, Height(gr)));
    if bal'[g] == 0 {
      assert Height(gr) == Height(s);
      assert Balanced(bal', Node(s, g, gr));
      PlugBalanced(bal', up, Node(s, g, gr));
    } else {
      assert Height(gr) + 1 == Height(s);
      assert Balanced(bal', Node(s, g, gr));
    }
  }

  lemma InsertStepRight(bal: map<nat, int>, up: Ctx, gl: Tree, g: nat, s: Tree)
    requires Distinct(Plug(up, Node(gl, g, s)))
    requires InsertFixState(bal, InRight(gl, g, up), s) && bal[g] != 1
    ensures var bal' := bal[g := bal[g] + 1];
      && (bal'[g] == 0 ==> Balanced(bal', Plug(up, Node(gl, g, s))))
      && (bal'[g] == 1 ==> InsertFixState(bal', up, Node(gl, g, s)))
  {
    var bal' := bal[g := bal[g] + 1];
    SetAt(bal, up, gl, g, s, bal[g] + 1, 1 + Max(Height(gl), Height(s) - 1));
    if bal'[g] == 0 {
      assert Height(gl) == Height(s);
      assert Balanced(bal', Node(gl, g, s));
      PlugBalanced(bal', up, Node(gl, g, s));
    } else {
      assert Height(gl) + 1 == Height(s);
      assert Balanced(bal', Node(gl, g, s));
    }
  }

  /**
   * Left-left: the grandparent went to -2 and the parent leans left; a right
   * rotation at the grandparent, with parent and grandparent set to 0,
   * restores balance and the pre-insertion height.
   */
  lemma InsertSingleLeft(bal: map<nat, int>, up: Ctx, s: Tree, g: nat, gr: Tree)
    requires Distinct(Plug(up, Node(s, g, gr)))
    requires InsertFixState(bal, InLeft(up, g, gr), s) && bal[g] == -1 && bal[s.id] == -1
    ensures Balanced(bal[g := -2][s.id := 0][g := 0], Plug(up, RotR(Node(s, g, gr))))
  {
    var bal' := bal[g := -2][s.id := 0][g := 0];
    PlugDistinct(up, Node(s, g, gr));
    DistinctLeftLeft(s.left, s.id, s.right, g, gr);
    RotRLocal(bal, bal', s.left, s.id, s.right, g, gr);
    Absorb(bal, bal', up, Node(s, g, gr), RotR(Node(s, g, gr)), 1 + Max(Height(s) - 1, Height(gr)), {s.id, g});
  }

  lemma InsertSingleRight(bal: map<nat, int>, up: Ctx, gl: Tree, g: nat, s: Tree)
    requires Distinct(Plug(up, Node(gl, g, s)))
    requires InsertFixState(bal, InRight(gl, g, up), s) && bal[g] == 1 && bal[s.id] == 1
    ensures Balanced(bal[g := 2][s.id := 0][g := 0], Plug(up, RotL(Node(gl, g, s))))
  {
    var bal' := bal[g := 2][s.id := 0][g := 0];
    PlugDistinct(up, Node(gl, g, s));
    DistinctRightRight(gl, g, s.left, s.id, s.right);
    RotLLocal(bal, bal', gl, g, s.left, s.id, s.right);
    Absorb(bal, bal', up, Node(gl, g, s), RotL(Node(gl, g, s)), 1 + Max(Height(gl), Height(s) - 1), {s.id, g});
  }

  /**
   * Left-right: the grandparent went to -2 and the parent leans right; a left
   * rotation at the parent, then a right rotation at the grandparent, with the
   * balances of `ZigZagBalances` for the parent (now on the left) and the
   * grandparent (now on the right) and 0 for the child on top, restores
   * balance and the pre-insertion height.
   */
  lemma InsertDoubleLeft(bal: map<nat, int>, up: Ctx, s: Tree, g: nat, gr: Tree)
    requires Distinct(Plug(up, Node(s, g, gr)))
    requires InsertFixState(bal, InLeft(up, g, gr), s) && bal[g] == -1 && bal[s.id] == 1
    ensures s.right.Node? && s.right.id in bal && -1 <= bal[s.right.id] <= 1
    ensures var b1, m := bal[g := -2], s.right.id;
      Balanced(b1[s.id := ZigZagBalances(b1[m]).0][g := ZigZagBalances(b1[m]).1][m := 0],
               Plug(up, RotR(Node(RotL(s), g, gr))))
  {
    PlugDistinct(up, Node(s, g, gr));
    DoubleLeftLocal(bal, s, g, gr);
    var b1, m := bal[g := -2], s.right.id;
    var bal': map<nat, int> := b1[s.id := ZigZagBalances(b1[m]).0][g := ZigZagBalances(b1[m]).1][m := 0];
    Absorb(bal, bal', up, Node(s, g, gr), RotR(Node(RotL(s), g, gr)), Height(s), {s.id, g, m});
  }

  /** The left-right double rotation of `InsertDoubleLeft`, on the subtree alone. */
  lemma DoubleLeftLocal(bal: map<nat, int>, s: Tree, g: nat, gr: Tree)
    requires Distinct(Node(s, g, gr)) && s.Node? && s.right.Node?
    requires Balanced(bal, s) && Balanced(bal, gr) && Height(s) == Height(gr) + 2 && bal[s.id] == 1
    ensures s.right.id in bal && -1 <= bal[s.right.id] <= 1
    ensures var b1, m := bal[g := -2], s.right.id;
      var bal' := b1[s.id := ZigZagBalances(b1[m]).0][g := ZigZagBalances(b1[m]).1][m := 0];
      && SameExcept(bal, bal', {s.id, g, m}) && {s.id, g, m} <= Ids(Node(s, g, gr))
      && Balanced(bal', RotR(Node(RotL(s), g, gr)))
      && Height(RotR(Node(RotL(s), g, gr))) == Height(s)
  {
    var sl, p, a, ch, b := s.left, s.id, s.right.left, s.right.id, s.right.right;
    assert Balanced(bal, s.right);
    DistinctLeftRight(sl, p, a, ch, b, g, gr);
    var b1 := bal[g := -2];
    assert b1[ch] == bal[ch];
    var bal': map<nat, int> := b1[p := ZigZagBalances(b1[ch]).0][g := ZigZagBalances(b1[ch]).1][ch := 0];
    ZigZagLocal(bal, bal', sl, p, a, ch, b, g, gr);
    assert RotR(Node(RotL(s), g, gr)) == Node(Node(sl, p, a), ch, Node(b, g, gr));
    assert ch in Ids(s.right);
  }

  lemma InsertDoubleRight(bal: map<nat, int>, up: Ctx, gl: Tree, g: nat, s: Tree)
    requires Distinct(Plug(up, Node(gl, g, s)))
    requires InsertFixState(bal, InRight(gl, g, up), s) && bal[g] == 1 && bal[s.id] == -1
    ensures s.left.Node? && s.left.id in bal && -1 <= bal[s.left.id] <= 1
    ensures var b1, m := bal[g := 2], s.left.id;
      Balanced(b1[g := ZigZagBalances(b1[m]).0][s.id := ZigZagBalances(b1[m]).1][m := 0],
               Plug(up, RotL(Node(gl, g, RotR(s)))))
  {
    PlugDistinct(up, Node(gl, g, s));
    DoubleRightLocal(bal, gl, g, s);
    var b1, m := bal[g := 2], s.left.id;
    var bal': map<nat, int> := b1[g := ZigZagBalances(b1[m]).0][s.id := ZigZagBalances(b1[m]).1][m := 0];
    Absorb(bal, bal', up, Node(gl, g, s), RotL(Node(gl, g, RotR(s))), Height(s), {s.id, g, m});
  }

  /** The right-left double rotation of `InsertDoubleRight`, on the subtree alone. */
  lemma DoubleRightLocal(bal: map<nat, int>, gl: Tree, g: nat, s: Tree)
    requires Distinct(Node(gl, g, s)) && s.Node? && s.left.Node?
    requires Balanced(bal, gl) && Balanced(bal, s) && Height(s) == Height(gl) + 2 && bal[s.id] == -1
    ensures s.left.id in bal && -1 <= bal[s.left.id] <= 1
    ensures var b1, m := bal[g := 2], s.left.id;
      var bal' := b1[g := ZigZagBalances(b1[m]).0][s.id := ZigZagBalances(b1[m]).1][m := 0];
      && SameExcept(bal, bal', {s.id, g, m}) && {s.id, g, m} <= Ids(Node(gl, g, s))
      && Balanced(bal', RotL(Node(gl, g, RotR(s))))
      && Height(RotL(Node(gl, g, RotR(s)))) == Height(s)
  {
    var a, ch, b, p, sr := s.left.left, s.left.id, s.left.right, s.id, s.right;
    assert Balanced(bal, s.left);
    DistinctRightLeft(gl, g, a, ch, b, p, sr);
    var b1 := bal[g := 2];
    assert b1[ch] == bal[ch];
    var bal': map<nat, int> := b1[g := ZigZagBalances(b1[ch]).0][p := ZigZagBalances(b1[ch]).1][ch := 0];
    ZigZagLocal(bal, bal', gl, g, a, ch, b, p, sr);
    assert RotL(Node(gl, g, RotR(s))) == Node(Node(gl, g, a), ch, Node(b, p, sr));
    assert ch in Ids(s.left);
  }

  // ---------------------------------------------------------------------------
  // After removal
  // ---------------------------------------------------------------------------

  /**
   * The height the context still records for `s` when the subtree on the side
   * `diff` names has lost one level: +1 means the left one shrank, -1 the right.
   */
  function OldHeight(s: Tree, diff: int): nat
    requires s.Node?
  {
    1 + Max(Height(s.left) + (if diff == 1 then 1 else 0), Height(s.right) + (if diff == -1 then 1 else 0))
  }

  /**
   * The state `removeFix(node, diff)` starts from: one subtree of `node` lost a
   * level, both subtrees are balanced, `node` still stores its old balance, so
   * that this plus `diff` is its new height difference, and the ancestors still
   * record the old height.
   */
  ghost predicate RemoveFixState(bal: map<nat, int>, c: Ctx, s: Tree, diff: int)
  {
    s.Node? && (diff == 1 || diff == -1) && s.id in bal && -1 <= bal[s.id] <= 1
    && Balanced(bal, s.left) && Balanced(bal, s.right)
    && bal[s.id] + diff == Height(s.right) - Height(s.left)
    && BalancedCtx(bal, c, OldHeight(s, diff))
  }

  /**
   * The balanced subtree `s` in the hole of `c` is one level lower than `c`
   * records: the walk continues at the parent, with +1 if `s` is its left
   * subtree; at the root the whole tree is balanced.
   */
  ghost predicate Shrunk(bal: map<nat, int>, c: Ctx, s: Tree)
  {
    match c
    case Top => Balanced(bal, s)
    case InLeft(up, p, r) => RemoveFixState(bal, up, Node(s, p, r), 1)
    case InRight(l, p, up) => RemoveFixState(bal, up, Node(l, p, s), -1)
  }

  /** A rebalanced focus one level lower than its context records hands the walk on to the parent. */
  lemma Propagate(bal: map<nat, int>, bal': map<nat, int>, c: Ctx, s: Tree, s': Tree, h: nat, x: set<nat>)
    requires Distinct(Plug(c, s)) && x <= Ids(s)
    requires BalancedCtx(bal, c, h) && SameExcept(bal, bal', x)
    requires Balanced(bal', s') && Height(s') + 1 == h
    ensures Shrunk(bal', c, s')
  {
    PlugDistinct(c, s);
    BalancedCtxFrame(bal, bal', c, h, x);
    ShrunkBelow(bal', c, s', h);
  }

  lemma ShrunkBelow(bal: map<nat, int>, c: Ctx, s: Tree, h: nat)
    requires BalancedCtx(bal, c, h) && Balanced(bal, s) && Height(s) + 1 == h
    ensures Shrunk(bal, c, s)
  {
    match c
    case Top =>
    case InLeft(up, p, r) => ShrunkLeft(bal, up, p, r, s, h);
    case InRight(l, p, up) => ShrunkRight(bal, up, l, p, s, h);
  }

  lemma ShrunkLeft(bal: map<nat, int>, up: Ctx, p: nat, r: Tree, s: Tree, h: nat)
    requires BalancedCtx(bal, InLeft(up, p, r), h) && Balanced(bal, s) && Height(s) + 1 == h
    ensures RemoveFixState(bal, up, Node(s, p, r), 1)
  {
    assert OldHeight(Node(s, p, r), 1) == 1 + Max(h, Height(r));
  }

  lemma ShrunkRight(bal: map<nat, int>, up: Ctx, l: Tree, p: nat, s: Tree, h: nat)
    requires BalancedCtx(bal, InRight(l, p, up), h) && Balanced(bal, s) && Height(s) + 1 == h
    ensures RemoveFixState(bal, up, Node(l, p, s), -1)
  {
    assert OldHeight(Node(l, p, s), -1) == 1 + Max(Height(l), h);
  }

  /**
   * Removing node `z`, which has at most one child, and hanging that child (or
   * nothing) in its place starts the walk at `z`'s parent.
   */
  lemma RemoveSplice(bal: map<nat, int>, bal': map<nat, int>, c: Ctx, s: Tree)
    requires Distinct(Plug(c, s)) && Balanced(bal, Plug(c, s))
    requires s.Node? && (s.left.Nil? || s.right.Nil?)
    requires SameExcept(bal, bal', {s.id})
    ensures Shrunk(bal', c, if s.left.Node? then s.left else s.right)
  {
    var child := if s.left.Node? then s.left else s.right;
    PlugBalanced(bal, c, s);
    DistinctAt(c, s.left, s.id, s.right);
    BalancedFrame(bal, bal', child, {s.id});
    Propagate(bal, bal', c, s, child, Height(s), {s.id});
  }

  /**
   * The new balance of `node` is in range: 0 means it lost a level and the walk
   * goes on; ±1 means its height is unchanged and the tree is balanced.
   */
  lemma RemoveFixLevel(bal: map<nat, int>, bal': map<nat, int>, c: Ctx, s: Tree, diff: int)
    requires Distinct(Plug(c, s)) && RemoveFixState(bal, c, s, diff)
    requires -1 <= bal[s.id] + diff <= 1
    requires SameExcept(bal, bal', {s.id}) && s.id in bal' && bal'[s.id] == bal[s.id] + diff
    ensures bal'[s.id] == 0 ==> Shrunk(bal', c, s)
    ensures bal'[s.id] != 0 ==> Balanced(bal', Plug(c, s))
  {
    DistinctAt(c, s.left, s.id, s.right);
    BalancedFrame(bal, bal', s.left, {s.id});
    BalancedFrame(bal, bal', s.right, {s.id});
    assert Balanced(bal', s);
    if bal'[s.id] == 0 {
      Propagate(bal, bal', c, s, s, OldHeight(s, diff), {s.id});
    } else {
      Absorb(bal, bal', c, s, s, OldHeight(s, diff), {s.id});
    }
  }

  /**
   * Right-heavy by two, right child level or leaning right: a left rotation with
   * avlbst.h's balances; the walk stops when the child was level.
   */
  lemma RemoveFixRotateLeft(bal: map<nat, int>, bal': map<nat, int>, c: Ctx, s: Tree, diff: int)
    requires Distinct(Plug(c, s)) && RemoveFixState(bal, c, s, diff)
    requires bal[s.id] + diff == 2 && s.right.Node? && s.right.id in bal && 0 <= bal[s.right.id]
    requires SameExcept(bal, bal', {s.id, s.right.id}) && s.id in bal' && s.right.id in bal'
    requires bal'[s.id] == (if bal[s.right.id] == 0 then 1 else 0)
    requires bal'[s.right.id] == (if bal[s.right.id] == 0 then -1 else 0)
    ensures bal[s.right.id] == 0 ==> Balanced(bal', Plug(c, RotL(s)))
    ensures bal[s.right.id] != 0 ==> Shrunk(bal', c, RotL(s))
  {
    var l, n, t2, y, t3 := s.left, s.id, s.right.left, s.right.id, s.right.right;
    PlugDistinct(c, s);
    DistinctRightRight(l, n, t2, y, t3);
    RotLLocal(bal, bal', l, n, t2, y, t3);
    if bal[y] == 0 {
      Absorb(bal, bal', c, s, RotL(s), OldHeight(s, diff), {n, y});
    } else {
      Propagate(bal, bal', c, s, RotL(s), OldHeight(s, diff), {n, y});
    }
  }

  lemma RemoveFixRotateRight(bal: map<nat, int>, bal': map<nat, int>, c: Ctx, s: Tree, diff: int)
    requires Distinct(Plug(c, s)) && RemoveFixState(bal, c, s, diff)
    requires bal[s.id] + diff == -2 && s.left.Node? && s.left.id in bal && bal[s.left.id] <= 0
    requires SameExcept(bal, bal', {s.id, s.left.id}) && s.id in bal' && s.left.id in bal'
    requires bal'[s.id] == (if bal[s.left.id] == 0 then -1 else 0)
    requires bal'[s.left.id] == (if bal[s.left.id] == 0 then 1 else 0)
    ensures bal[s.left.id] == 0 ==> Balanced(bal', Plug(c, RotR(s)))
    ensures bal[s.left.id] != 0 ==> Shrunk(bal', c, RotR(s))
  {
    var t1, y, t2, n, r := s.left.left, s.left.id, s.left.right, s.id, s.right;
    PlugDistinct(c, s);
    DistinctLeftLeft(t1, y, t2, n, r);
    RotRLocal(bal, bal', t1, y, t2, n, r);
    if bal[y] == 0 {
      Absorb(bal, bal', c, s, RotR(s), OldHeight(s, diff), {n, y});
    } else {
      Propagate(bal, bal', c, s, RotR(s), OldHeight(s, diff), {n, y});
    }
  }

  /**
   * Right-heavy by two, right child leaning left: a right rotation at the
   * child, then a left rotation at the node, with the balances of
   * `ZigZagBalances`, hands the walk on (the subtree lost a level).
   */
  lemma RemoveFixRotateRightLeft(bal: map<nat, int>, bal': map<nat, int>, c: Ctx, s: Tree, diff: int)
    requires Distinct(Plug(c, s)) && RemoveFixState(bal, c, s, diff)
    requires bal[s.id] + diff == 2 && s.right.Node? && s.right.id in bal && bal[s.right.id] == -1
    requires s.right.left.Node? && s.right.left.id in bal
    requires SameExcept(bal, bal', {s.id, s.right.id, s.right.left.id})
    requires s.id in bal' && s.right.id in bal' && s.right.left.id in bal'
    requires bal'[s.id] == ZigZagBalances(bal[s.right.left.id]).0
    requires bal'[s.right.id] == ZigZagBalances(bal[s.right.left.id]).1
    requires bal'[s.right.left.id] == 0
    ensures Shrunk(bal', c, RotL(Node(s.left, s.id, RotR(s.right))))
  {
    var l, n, r := s.left, s.id, s.right;
    var a, m, b, y, t4 := r.left.left, r.left.id, r.left.right, r.id, r.right;
    assert Balanced(bal, r) && Balanced(bal, r.left);
    PlugDistinct(c, s);
    DistinctRightLeft(l, n, a, m, b, y, t4);
    ZigZagLocal(bal, bal', l, n, a, m, b, y, t4);
    Propagate(bal, bal', c, s, RotL(Node(l, n, RotR(r))), OldHeight(s, diff), {n, m, y});
  }

  lemma RemoveFixRotateLeftRight(bal: map<nat, int>, bal': map<nat, int>, c: Ctx, s: Tree, diff: int)
    requires Distinct(Plug(c, s)) && RemoveFixState(bal, c, s, diff)
    requires bal[s.id] + diff == -2 && s.left.Node? && s.left.id in bal && bal[s.left.id] == 1
    requires s.left.right.Node? && s.left.right.id in bal
    requires SameExcept(bal, bal', {s.id, s.left.id, s.left.right.id})
    requires s.id in bal' && s.left.id in bal' && s.left.right.id in bal'
    requires bal'[s.left.id] == ZigZagBalances(bal[s.left.right.id]).0
    requires bal'[s.id] == ZigZagBalances(bal[s.left.right.id]).1
    requires bal'[s.left.right.id] == 0
    ensures Shrunk(bal', c, RotR(Node(RotL(s.left), s.id, s.right)))
  {
    var l, n, r := s.left, s.id, s.right;
    var t1, x, a, m, b := l.left, l.id, l.right.left, l.right.id, l.right.right;
    assert Balanced(bal, l) && Balanced(bal, l.right);
    PlugDistinct(c, s);
    DistinctLeftRight(t1, x, a, m, b, n, r);
    ZigZagLocal(bal, bal', t1, x, a, m, b, n, r);
    Propagate(bal, bal', c, s, RotR(Node(RotL(l), n, r)), OldHeight(s, diff), {n, m, x});
  }

  /**
   * The balances avlbst.h assigns to the node and its right child after the
   * right-left double rotation in `removeFix`, from the old balance of the
   * grandchild that ends up on top. They agree with `ZigZagBalances` except
   * when that grandchild leaned right.
   */
  function RemoveRightLeftAsWritten(mid: int): (r: (int, int))
    ensures r.0 == ZigZagBalances(mid).0
    ensures r == ZigZagBalances(mid) <==> mid == 0 || mid == -1
  {
    if mid == 0 then (0, 0) else if mid == 1 then (-1, 1) else (0, 1)
  }

  /** The subtree of the example below, rooted at id 2 after leaf 0 was removed. */
  function ExampleTree(): Tree
  {
    Node(Node(Nil, 1, Nil), 2, Node(Node(Nil, 3, Node(Nil, 4, Nil)), 5, Node(Nil, 6, Nil)))
  }

  /** Its stored balances when `removeFix(2, +1)` starts. */
  function ExampleBalances(): map<nat, int>
  {
    map[1 := 0, 2 := 1, 3 := 1, 4 := 0, 5 := -1, 6 := 0]
  }

  lemma ExampleReached()
    ensures RemoveFixState(ExampleBalances(), Top, ExampleTree(), 1)
  {
    var bal := ExampleBalances();
    assert Balanced(bal, Node(Nil, 4, Nil)) && Balanced(bal, Node(Nil, 6, Nil));
    assert Balanced(bal, Node(Nil, 3, Node(Nil, 4, Nil)));
  }

  lemma ExampleWritten(bal: map<nat, int>)
    requires bal == ExampleBalances()[2 := RemoveRightLeftAsWritten(1).0][5 := RemoveRightLeftAsWritten(1).1][3 := 0]
    ensures !Balanced(bal, Node(Node(Node(Nil, 1, Nil), 2, Nil), 3, Node(Node(Nil, 4, Nil), 5, Node(Nil, 6, Nil))))
  {
    assert bal[5] == 1;
  }

  lemma ExampleCorrected(bal: map<nat, int>)
    requires bal == ExampleBalances()[2 := ZigZagBalances(1).0][5 := ZigZagBalances(1).1][3 := 0]
    ensures Balanced(bal, Node(Node(Node(Nil, 1, Nil), 2, Nil), 3, Node(Node(Nil, 4, Nil), 5, Node(Nil, 6, Nil))))
  {
    assert bal[1] == 0 && bal[2] == -1 && bal[3] == 0 && bal[4] == 0 && bal[5] == 0 && bal[6] == 0;
    assert Balanced(bal, Node(Nil, 1, Nil)) && Balanced(bal, Node(Nil, 4, Nil)) && Balanced(bal, Node(Nil, 6, Nil));
    assert Balanced(bal, Node(Node(Nil, 1, Nil), 2, Nil));
    assert Balanced(bal, Node(Node(Nil, 4, Nil), 5, Node(Nil, 6, Nil)));
  }

  /**
   * With the grandchild leaning right the written balances are wrong: in the
   * AVL tree over ids 0..6 (id = key) rooted at 2, with 1 above leaf 0 on the
   * left and 5 above 3 (whose right child is 4) and 6 on the right, removing
   * leaf 0 reaches `removeFix(2, +1)` in the state of `ExampleTree`; after the
   * double rotation node 5 is stored as +1 although both of its subtrees are
   * leaves. `ZigZagBalances` gives 0 there and leaves the tree balanced.
   */
  lemma RemoveRightLeftAsWrittenUnbalanced()
    ensures var s := ExampleTree();
            var bal := ExampleBalances();
            var rotated := RotL(Node(s.left, s.id, RotR(s.right)));
            var written := bal[s.id := RemoveRightLeftAsWritten(bal[3]).0][5 := RemoveRightLeftAsWritten(bal[3]).1][3 := 0];
            var corrected := bal[s.id := ZigZagBalances(bal[3]).0][5 := ZigZagBalances(bal[3]).1][3 := 0];
            RemoveFixState(bal, Top, s, 1) && !Shrunk(written, Top, rotated) && Shrunk(corrected, Top, rotated)
  {
    ExampleReached();
    var s, bal := ExampleTree(), ExampleBalances();
    assert bal[3] == 1 && s.id == 2;
    assert RotL(Node(s.left, s.id, RotR(s.right)))
        == Node(Node(Node(Nil, 1, Nil), 2, Nil), 3, Node(Node(Nil, 4, Nil), 5, Node(Nil, 6, Nil)));
    ExampleWritten(bal[2 := RemoveRightLeftAsWritten(1).0][5 := RemoveRightLeftAsWritten(1).1][3 := 0]);
    ExampleCorrected(bal[2 := ZigZagBalances(1).0][5 := ZigZagBalances(1).1][3 := 0]);
  }
}
