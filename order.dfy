/**
 * The binary-search-tree ordering of the keys stored in the arena, and the
 * key/value map that a tree of node ids denotes.
 */
module Order {
  import opened Shape

  /** Strict BST order: every key of the left subtree is below the node's key, every key of the right subtree above. */
  ghost predicate Ordered(key: map<nat, int>, s: Tree)
  {
    match s
    case Nil => true
    case Node(l, i, r) =>
      i in key
      && (forall j :: j in Ids(l) ==> j in key && key[j] < key[i])
      && (forall j :: j in Ids(r) ==> j in key && key[i] < key[j])
      && Ordered(key, l) && Ordered(key, r)
  }

  /** `k` lies inside the key interval that position `c` leaves open. */
  ghost predicate Fits(key: map<nat, int>, c: Ctx, k: int)
  {
    match c
    case Top => true
    case InLeft(up, p, _) => p in key && k < key[p] && Fits(key, up, k)
    case InRight(_, p, up) => p in key && key[p] < k && Fits(key, up, k)
  }

  /** Every key of `s` fits position `c`. */
  ghost predicate AllFit(key: map<nat, int>, c: Ctx, s: Tree)
  {
    forall j :: j in Ids(s) ==> j in key && Fits(key, c, key[j])
  }

  /** The frames of `c` are ordered among themselves. */
  ghost predicate OrderedCtx(key: map<nat, int>, c: Ctx)
  {
    match c
    case Top => true
    case InLeft(up, p, r) =>
      Ordered(key, Node(Nil, p, r)) && AllFit(key, up, Node(Nil, p, r)) && OrderedCtx(key, up)
    case InRight(l, p, up) =>
      Ordered(key, Node(l, p, Nil)) && AllFit(key, up, Node(l, p, Nil)) && OrderedCtx(key, up)
  }

  /** A tree is ordered exactly when its context is, its focus is, and the focus's keys fit the context. */
  lemma {:induction false} PlugOrdered(key: map<nat, int>, c: Ctx, s: Tree)
    ensures Ordered(key, Plug(c, s)) <==> OrderedCtx(key, c) && Ordered(key, s) && AllFit(key, c, s)
  {
    match c
    case Top =>
    case InLeft(up, p, r) =>
      PlugOrdered(key, up, Node(s, p, r));
      OrderedStepLeft(key, up, s, p, r);
    case InRight(l, p, up) =>
      PlugOrdered(key, up, Node(l, p, s));
      OrderedStepRight(key, up, l, p, s);
  }

  lemma OrderedStepLeft(key: map<nat, int>, up: Ctx, s: Tree, p: nat, r: Tree)
    ensures (Ordered(key, Node(s, p, r)) && AllFit(key, up, Node(s, p, r)))
        <==> (Ordered(key, Node(Nil, p, r)) && AllFit(key, up, Node(Nil, p, r))
              && Ordered(key, s) && AllFit(key, InLeft(up, p, r), s))
  {
    assert Ids(Node(s, p, r)) == Ids(s) + Ids(Node(Nil, p, r));
    assert AllFit(key, up, Node(s, p, r)) <==> AllFit(key, up, s) && AllFit(key, up, Node(Nil, p, r));
  }

  lemma OrderedStepRight(key: map<nat, int>, up: Ctx, l: Tree, p: nat, s: Tree)
    ensures (Ordered(key, Node(l, p, s)) && AllFit(key, up, Node(l, p, s)))
        <==> (Ordered(key, Node(l, p, Nil)) && AllFit(key, up, Node(l, p, Nil))
              && Ordered(key, s) && AllFit(key, InRight(l, p, up), s))
  {
    assert Ids(Node(l, p, s)) == Ids(Node(l, p, Nil)) + Ids(s);
    assert AllFit(key, up, Node(l, p, s)) <==> AllFit(key, up, s) && AllFit(key, up, Node(l, p, Nil));
  }

  /** Replacing the focus by an ordered tree over a subset of its ids keeps the order. */
  lemma OrderedReplace(key: map<nat, int>, c: Ctx, s: Tree, s': Tree)
    requires Ordered(key, Plug(c, s)) && Ordered(key, s') && Ids(s') <= Ids(s)
    ensures Ordered(key, Plug(c, s'))
  {
    PlugOrdered(key, c, s);
    PlugOrdered(key, c, s');
  }

  /** Order reads the key map on the tree's own ids only. */
  lemma {:induction false} OrderedFrame(key: map<nat, int>, key': map<nat, int>, s: Tree)
    requires Ordered(key, s)
    requires forall i :: i in Ids(s) ==> i in key' && key'[i] == key[i]
    ensures Ordered(key', s)
  {
    match s
    case Nil =>
    case Node(l, i, r) =>
      OrderedFrame(key, key', l);
      OrderedFrame(key, key', r);
  }

  /** A left rotation keeps a subtree ordered. */
  lemma RotLOrdered(key: map<nat, int>, s: Tree)
    requires s.Node? && s.right.Node? && Ordered(key, s)
    ensures Ordered(key, RotL(s))
  {
    var a, x, b, y, d := s.left, s.id, s.right.left, s.right.id, s.right.right;
    assert Ids(Node(a, x, b)) == Ids(a) + {x} + Ids(b);
  }

  /** A right rotation keeps a subtree ordered. */
  lemma RotROrdered(key: map<nat, int>, s: Tree)
    requires s.Node? && s.left.Node? && Ordered(key, s)
    ensures Ordered(key, RotR(s))
  {
    var a, y, b, x, d := s.left.left, s.left.id, s.left.right, s.id, s.right;
    assert Ids(Node(b, x, d)) == Ids(b) + {x} + Ids(d);
  }

  lemma PlugOrderedSplit(key: map<nat, int>, c: Ctx, s: Tree)
    requires Ordered(key, Plug(c, s))
    ensures OrderedCtx(key, c) && Ordered(key, s) && AllFit(key, c, s)
  {
    PlugOrdered(key, c, s);
  }

  lemma PlugOrderedJoin(key: map<nat, int>, c: Ctx, s: Tree)
    requires OrderedCtx(key, c) && Ordered(key, s) && AllFit(key, c, s)
    ensures Ordered(key, Plug(c, s))
  {
    PlugOrdered(key, c, s);
  }

  /** A leaf whose key fits the empty left slot of `p` can hang there. */
  lemma OrderedAttachLeft(key: map<nat, int>, c: Ctx, p: nat, r: Tree, n: nat)
    requires Ordered(key, Plug(c, Node(Nil, p, r)))
    requires n in key && p in key && key[n] < key[p] && Fits(key, c, key[n])
    ensures Ordered(key, Plug(c, Node(Node(Nil, n, Nil), p, r)))
  {
    var s, s' := Node(Nil, p, r), Node(Node(Nil, n, Nil), p, r);
    PlugOrderedSplit(key, c, s);
    assert Ids(s') == {n} + Ids(s);
    assert Ordered(key, s');
    assert AllFit(key, c, s') by {
      forall j | j in Ids(s') ensures j in key && Fits(key, c, key[j]) {
        if j != n { assert j in Ids(s); }
      }
    }
    PlugOrderedJoin(key, c, s');
  }

  /** A leaf whose key fits the empty right slot of `p` can hang there. */
  lemma OrderedAttachRight(key: map<nat, int>, c: Ctx, l: Tree, p: nat, n: nat)
    requires Ordered(key, Plug(c, Node(l, p, Nil)))
    requires n in key && p in key && key[p] < key[n] && Fits(key, c, key[n])
    ensures Ordered(key, Plug(c, Node(l, p, Node(Nil, n, Nil))))
  {
    var s, s' := Node(l, p, Nil), Node(l, p, Node(Nil, n, Nil));
    PlugOrderedSplit(key, c, s);
    assert Ids(s') == Ids(s) + {n};
    assert Ordered(key, s');
    assert AllFit(key, c, s') by {
      forall j | j in Ids(s') ensures j in key && Fits(key, c, key[j]) {
        if j != n { assert j in Ids(s); }
      }
    }
    PlugOrderedJoin(key, c, s');
  }

  /** Dropping `m` from the right end of an ordered tree leaves only keys below `m`'s. */
  lemma RightmostDropped(key: map<nat, int>, cl: Ctx, pl: Tree, m: nat)
    requires RightSpine(cl) && Ordered(key, Plug(cl, Node(pl, m, Nil)))
    ensures Ordered(key, Plug(cl, pl)) && m in key
    ensures forall j :: j in Ids(Plug(cl, pl)) ==> j in Ids(Plug(cl, Node(pl, m, Nil))) && key[j] < key[m]
  {
    var l := Plug(cl, Node(pl, m, Nil));
    PlugOrderedSplit(key, cl, Node(pl, m, Nil));
    OrderedReplace(key, cl, Node(pl, m, Nil), pl);
    RightmostIsMax(key, cl, pl, m);
    OrderedDistinct(key, l);
    OrderedInjective(key, l);
    PlugDistinct(cl, Node(pl, m, Nil));
    PlugIds(cl, Node(pl, m, Nil));
    PlugIds(cl, pl);
  }

  /**
   * Putting the rightmost node `m` of `z`'s left subtree in `z`'s place, and
   * dropping `z`, keeps the tree ordered: `m` holds the largest key below `z`'s.
   */
  lemma RemoveTwoChildOrdered(key: map<nat, int>, c0: Ctx, cl: Ctx, pl: Tree, m: nat, z: nat, r: Tree)
    requires RightSpine(cl) && Ordered(key, Plug(c0, Node(Plug(cl, Node(pl, m, Nil)), z, r)))
    ensures Ordered(key, Plug(Append(cl, InLeft(c0, m, r)), pl))
  {
    PlugAppend(cl, InLeft(c0, m, r), pl);
    var l, l' := Plug(cl, Node(pl, m, Nil)), Plug(cl, pl);
    PlugOrderedSplit(key, c0, Node(l, z, r));
    RightmostDropped(key, cl, pl, m);
    assert m in Ids(l) by { PlugIds(cl, Node(pl, m, Nil)); }
    assert Ordered(key, Node(l', m, r));
    assert AllFit(key, c0, Node(l', m, r)) by {
      assert Ids(Node(l', m, r)) <= Ids(Node(l, z, r));
    }
    PlugOrderedJoin(key, c0, Node(l', m, r));
  }

  /** Putting the only child of a node in the node's place keeps the tree ordered. */
  lemma OrderedSplice(key: map<nat, int>, c: Ctx, s: Tree)
    requires Ordered(key, Plug(c, s)) && s.Node? && (s.left.Nil? || s.right.Nil?)
    ensures Ordered(key, Plug(c, if s.left.Node? then s.left else s.right))
  {
    PlugOrderedSplit(key, c, s);
    OrderedReplace(key, c, s, if s.left.Node? then s.left else s.right);
  }

  /** Whether a key fits a position does not depend on a slot outside the position's context. */
  lemma {:induction false} FitsFresh(key: map<nat, int>, c: Ctx, n: nat, k: int, j: int)
    requires n !in CtxIds(c)
    ensures Fits(key[n := k], c, j) <==> Fits(key, c, j)
  {
    match c
    case Top =>
    case InLeft(up, p, r) => FitsFresh(key, up, n, k, j);
    case InRight(l, p, up) => FitsFresh(key, up, n, k, j);
  }

  /** A fresh node for key `k` hung in the empty left slot of `p`, where `k` fits. */
  lemma OrderedHangLeft(key: map<nat, int>, c: Ctx, p: nat, r: Tree, n: nat, k: int)
    requires Ordered(key, Plug(c, Node(Nil, p, r))) && n !in Ids(Plug(c, Node(Nil, p, r)))
    requires p in key && k < key[p] && Fits(key, c, k)
    ensures Ordered(key[n := k], Plug(c, Node(Node(Nil, n, Nil), p, r)))
  {
    PlugIds(c, Node(Nil, p, r));
    assert p in Ids(Node(Nil, p, r));
    OrderedFrame(key, key[n := k], Plug(c, Node(Nil, p, r)));
    FitsFresh(key, c, n, k, k);
    OrderedAttachLeft(key[n := k], c, p, r, n);
  }

  /** A fresh node for key `k` hung in the empty right slot of `p`, where `k` fits. */
  lemma OrderedHangRight(key: map<nat, int>, c: Ctx, l: Tree, p: nat, n: nat, k: int)
    requires Ordered(key, Plug(c, Node(l, p, Nil))) && n !in Ids(Plug(c, Node(l, p, Nil)))
    requires p in key && key[p] < k && Fits(key, c, k)
    ensures Ordered(key[n := k], Plug(c, Node(l, p, Node(Nil, n, Nil))))
  {
    PlugIds(c, Node(l, p, Nil));
    assert p in Ids(Node(l, p, Nil));
    OrderedFrame(key, key[n := k], Plug(c, Node(l, p, Nil)));
    FitsFresh(key, c, n, k, k);
    OrderedAttachRight(key[n := k], c, l, p, n);
  }

  /** A key that fits an empty position of an ordered tree is held by none of its nodes. */
  lemma FitsNil(key: map<nat, int>, c: Ctx, k: int)
    requires Ordered(key, Plug(c, Nil)) && Fits(key, c, k)
    ensures forall i :: i in Ids(Plug(c, Nil)) ==> i in key && key[i] != k
  {
    PlugOrderedSplit(key, c, Nil);
    CtxKeysOutside(key, c);
    PlugIds(c, Nil);
  }

  /** Order forces distinct ids. */
  lemma {:induction false} OrderedDistinct(key: map<nat, int>, s: Tree)
    requires Ordered(key, s)
    ensures Distinct(s)
  {
    match s
    case Nil =>
    case Node(l, i, r) =>
      OrderedDistinct(key, l);
      OrderedDistinct(key, r);
      assert forall j :: j in Ids(l) ==> j !in Ids(r) by {
        forall j | j in Ids(l) ensures j !in Ids(r) { assert key[j] < key[i]; }
      }
  }

  /** Order forces distinct keys. */
  lemma {:induction false} OrderedInjective(key: map<nat, int>, s: Tree)
    requires Ordered(key, s)
    ensures Injective(key, Ids(s))
  {
    match s
    case Nil =>
    case Node(l, i, r) =>
      OrderedInjective(key, l);
      OrderedInjective(key, r);
  }

  lemma {:induction false} FitsConvex(key: map<nat, int>, c: Ctx, k1: int, k: int, k2: int)
    requires Fits(key, c, k1) && Fits(key, c, k2) && k1 <= k <= k2
    ensures Fits(key, c, k)
  {
    match c
    case Top =>
    case InLeft(up, _, _) => FitsConvex(key, up, k1, k, k2);
    case InRight(_, _, up) => FitsConvex(key, up, k1, k, k2);
  }

  /** No key held by the context fits the context's own hole. */
  lemma {:induction false} CtxKeysOutside(key: map<nat, int>, c: Ctx)
    requires OrderedCtx(key, c)
    ensures forall i :: i in CtxIds(c) ==> i in key && !Fits(key, c, key[i])
  {
    match c
    case Top =>
    case InLeft(up, p, r) =>
      CtxKeysOutside(key, up);
      assert Ids(Node(Nil, p, r)) == {p} + Ids(r);
    case InRight(l, p, up) =>
      CtxKeysOutside(key, up);
      assert Ids(Node(l, p, Nil)) == Ids(l) + {p};
  }

  /** Along the right spine every context key is below any key that fits the hole. */
  lemma {:induction false} RightSpineBelow(key: map<nat, int>, c: Ctx, k: int)
    requires RightSpine(c) && OrderedCtx(key, c) && Fits(key, c, k)
    ensures forall i :: i in CtxIds(c) ==> i in key && key[i] < k
  {
    match c
    case Top =>
    case InRight(l, p, up) =>
      RightSpineBelow(key, up, k);
      assert Ids(Node(l, p, Nil)) == Ids(l) + {p};
  }

  /** Along the left spine every context key is above any key that fits the hole. */
  lemma {:induction false} LeftSpineAbove(key: map<nat, int>, c: Ctx, k: int)
    requires LeftSpine(c) && OrderedCtx(key, c) && Fits(key, c, k)
    ensures forall i :: i in CtxIds(c) ==> i in key && k < key[i]
  {
    match c
    case Top =>
    case InLeft(up, p, r) =>
      LeftSpineAbove(key, up, k);
      assert Ids(Node(Nil, p, r)) == {p} + Ids(r);
  }

  /** The node reached by following right links to the end holds the largest key. */
  lemma RightmostIsMax(key: map<nat, int>, c: Ctx, l: Tree, m: nat)
    requires RightSpine(c) && Ordered(key, Plug(c, Node(l, m, Nil)))
    ensures m in key
    ensures forall j :: j in Ids(Plug(c, Node(l, m, Nil))) ==> j in key && key[j] <= key[m]
  {
    PlugOrdered(key, c, Node(l, m, Nil));
    RightSpineBelow(key, c, key[m]);
    PlugIds(c, Node(l, m, Nil));
  }

  /** The node reached by following left links to the end holds the smallest key. */
  lemma LeftmostIsMin(key: map<nat, int>, c: Ctx, m: nat, r: Tree)
    requires LeftSpine(c) && Ordered(key, Plug(c, Node(Nil, m, r)))
    ensures m in key
    ensures forall j :: j in Ids(Plug(c, Node(Nil, m, r))) ==> j in key && key[m] <= key[j]
  {
    PlugOrdered(key, c, Node(Nil, m, r));
    LeftSpineAbove(key, c, key[m]);
    PlugIds(c, Node(Nil, m, r));
  }

  /**
   * A key strictly between two keys of the focus is not held by the context:
   * the context lies wholly below or wholly above the focus.
   */
  lemma BetweenFocusKeys(key: map<nat, int>, c: Ctx, s: Tree, lo: nat, hi: nat, i: nat)
    requires Ordered(key, Plug(c, s)) && lo in Ids(s) && hi in Ids(s) && i in CtxIds(c)
    ensures lo in key && hi in key && i in key
    ensures !(key[lo] < key[i] < key[hi])
  {
    PlugOrdered(key, c, s);
    CtxKeysOutside(key, c);
    if key[lo] < key[i] < key[hi] {
      FitsConvex(key, c, key[lo], key[i], key[hi]);
    }
  }

  // ---------------------------------------------------------------------------
  // Neighbouring keys
  // ---------------------------------------------------------------------------

  /** A node without a left subtree holds the smallest key of its own subtree. */
  lemma MinOfLeftless(key: map<nat, int>, c: Ctx, s: Tree)
    requires Ordered(key, Plug(c, s)) && s.Node? && s.left.Nil?
    ensures s.id in key && forall i :: i in Ids(s) ==> i in key && key[s.id] <= key[i]
  {
    PlugOrderedSplit(key, c, s);
  }

  /** A node without a right subtree holds the largest key of its own subtree. */
  lemma MaxOfRightless(key: map<nat, int>, c: Ctx, s: Tree)
    requires Ordered(key, Plug(c, s)) && s.Node? && s.right.Nil?
    ensures s.id in key && forall i :: i in Ids(s) ==> i in key && key[i] <= key[s.id]
  {
    PlugOrderedSplit(key, c, s);
  }

  /** If `n` holds the smallest key of a left subtree, it still does one level up. */
  lemma MinStepUp(key: map<nat, int>, up: Ctx, s: Tree, p: nat, r: Tree, n: nat)
    requires Ordered(key, Plug(up, Node(s, p, r))) && n in Ids(s)
    requires n in key && forall i :: i in Ids(s) ==> i in key && key[n] <= key[i]
    ensures forall i :: i in Ids(Node(s, p, r)) ==> i in key && key[n] <= key[i]
  {
    PlugOrderedSplit(key, up, Node(s, p, r));
  }

  /** If `n` holds the largest key of a right subtree, it still does one level up. */
  lemma MaxStepUp(key: map<nat, int>, up: Ctx, l: Tree, p: nat, s: Tree, n: nat)
    requires Ordered(key, Plug(up, Node(l, p, s))) && n in Ids(s)
    requires n in key && forall i :: i in Ids(s) ==> i in key && key[i] <= key[n]
    ensures forall i :: i in Ids(Node(l, p, s)) ==> i in key && key[i] <= key[n]
  {
    PlugOrderedSplit(key, up, Node(l, p, s));
  }

  /** The rightmost node of `n`'s left subtree holds the largest key below `n`'s. */
  lemma PredecessorBelow(key: map<nat, int>, c: Ctx, cl: Ctx, pl: Tree, m: nat, n: nat, r: Tree)
    requires RightSpine(cl) && Ordered(key, Plug(c, Node(Plug(cl, Node(pl, m, Nil)), n, r)))
    ensures m in Ids(Plug(c, Node(Plug(cl, Node(pl, m, Nil)), n, r))) && m in key && n in key && key[m] < key[n]
    ensures forall i :: i in Ids(Plug(c, Node(Plug(cl, Node(pl, m, Nil)), n, r)))
              ==> i in key && (key[i] < key[n] ==> key[i] <= key[m])
  {
    var l := Plug(cl, Node(pl, m, Nil));
    var f := Node(l, n, r);
    PlugOrderedSplit(key, c, f);
    RightmostIsMax(key, cl, pl, m);
    PlugIds(c, f);
    PlugIds(cl, Node(pl, m, Nil));
    forall i | i in CtxIds(c) ensures i in key && (key[i] < key[n] ==> key[i] <= key[m]) {
      BetweenFocusKeys(key, c, f, m, n, i);
    }
  }

  /** The leftmost node of `n`'s right subtree holds the smallest key above `n`'s. */
  lemma SuccessorBelow(key: map<nat, int>, c: Ctx, l: Tree, n: nat, cr: Ctx, m: nat, pr: Tree)
    requires LeftSpine(cr) && Ordered(key, Plug(c, Node(l, n, Plug(cr, Node(Nil, m, pr)))))
    ensures m in Ids(Plug(c, Node(l, n, Plug(cr, Node(Nil, m, pr))))) && m in key && n in key && key[n] < key[m]
    ensures forall i :: i in Ids(Plug(c, Node(l, n, Plug(cr, Node(Nil, m, pr)))))
              ==> i in key && (key[n] < key[i] ==> key[m] <= key[i])
  {
    var r := Plug(cr, Node(Nil, m, pr));
    var f := Node(l, n, r);
    PlugOrderedSplit(key, c, f);
    LeftmostIsMin(key, cr, m, pr);
    PlugIds(c, f);
    PlugIds(cr, Node(Nil, m, pr));
    forall i | i in CtxIds(c) ensures i in key && (key[n] < key[i] ==> key[m] <= key[i]) {
      BetweenFocusKeys(key, c, f, n, m, i);
    }
  }

  /**
   * When `n` holds the smallest key of a right subtree, that subtree's parent
   * holds the largest key below `n`'s.
   */
  lemma PredecessorAbove(key: map<nat, int>, up: Ctx, l: Tree, p: nat, s: Tree, n: nat)
    requires Ordered(key, Plug(up, Node(l, p, s))) && n in Ids(s)
    requires n in key && forall i :: i in Ids(s) ==> i in key && key[n] <= key[i]
    ensures p in Ids(Plug(up, Node(l, p, s))) && p in key && key[p] < key[n]
    ensures forall i :: i in Ids(Plug(up, Node(l, p, s))) ==> i in key && (key[i] < key[n] ==> key[i] <= key[p])
  {
    var f := Node(l, p, s);
    PlugOrderedSplit(key, up, f);
    PlugIds(up, f);
    forall i | i in CtxIds(up) ensures i in key && (key[i] < key[n] ==> key[i] <= key[p]) {
      BetweenFocusKeys(key, up, f, p, n, i);
    }
  }

  /**
   * When `n` holds the largest key of a left subtree, that subtree's parent
   * holds the smallest key above `n`'s.
   */
  lemma SuccessorAbove(key: map<nat, int>, up: Ctx, s: Tree, p: nat, r: Tree, n: nat)
    requires Ordered(key, Plug(up, Node(s, p, r))) && n in Ids(s)
    requires n in key && forall i :: i in Ids(s) ==> i in key && key[i] <= key[n]
    ensures p in Ids(Plug(up, Node(s, p, r))) && p in key && key[n] < key[p]
    ensures forall i :: i in Ids(Plug(up, Node(s, p, r))) ==> i in key && (key[n] < key[i] ==> key[p] <= key[i])
  {
    var f := Node(s, p, r);
    PlugOrderedSplit(key, up, f);
    PlugIds(up, f);
    forall i | i in CtxIds(up) ensures i in key && (key[n] < key[i] ==> key[p] <= key[i]) {
      BetweenFocusKeys(key, up, f, n, p, i);
    }
  }

  // ---------------------------------------------------------------------------
  // The key/value map a tree denotes
  // ---------------------------------------------------------------------------

  ghost predicate Injective(key: map<nat, int>, ids: set<nat>)
  {
    forall i, j :: i in ids && j in ids && i in key && j in key && key[i] == key[j] ==> i == j
  }

  ghost function KeySet(key: map<nat, int>, ids: set<nat>): set<int>
  {
    set i | i in ids && i in key :: key[i]
  }

  /** One of the nodes `ids` holding key `k` (the only one, when the keys are injective). */
  ghost function Holder(key: map<nat, int>, ids: set<nat>, k: int): (i: nat)
    requires k in KeySet(key, ids)
    ensures i in ids && i in key && key[i] == k
  {
    var i :| i in ids && i in key && key[i] == k; i
  }

  /** The dictionary held by the nodes `ids`: each node's key mapped to its value. */
  ghost function Entries<V>(key: map<nat, int>, value: map<nat, V>, ids: set<nat>): map<int, V>
    requires ids <= key.Keys && ids <= value.Keys
  {
    map k | k in KeySet(key, ids) :: value[Holder(key, ids, k)]
  }

  /** With injective keys, every node's key maps to that node's value. */
  lemma EntriesAt<V>(key: map<nat, int>, value: map<nat, V>, ids: set<nat>, i: nat)
    requires ids <= key.Keys && ids <= value.Keys && Injective(key, ids) && i in ids
    ensures key[i] in Entries(key, value, ids) && Entries(key, value, ids)[key[i]] == value[i]
  {
    assert key[i] in KeySet(key, ids);
  }

  /** Entries read the key and value maps only on the given ids. */
  lemma InjectiveGrow(key: map<nat, int>, ids: set<nat>, n: nat, k: int)
    requires ids <= key.Keys && Injective(key, ids) && n !in ids
    ensures Injective(key[n := k], ids)
  {
    forall i, j | i in ids && j in ids && key[n := k][i] == key[n := k][j] ensures i == j {
      assert key[i] == key[j];
    }
  }

  /** Entries do not see a slot outside the given ids being allocated. */
  lemma EntriesGrow<V>(key: map<nat, int>, value: map<nat, V>, ids: set<nat>, n: nat, k: int, v: V)
    requires ids <= key.Keys && ids <= value.Keys && Injective(key, ids) && n !in ids
    requires Injective(key[n := k], ids)
    ensures Entries(key[n := k], value[n := v], ids) == Entries(key, value, ids)
  {
    EntriesGrowKeys(key, value, ids, n, k, v);
  }

  lemma EntriesGrowKeys<V>(key: map<nat, int>, value: map<nat, V>, ids: set<nat>, n: nat, k: int, v: V)
    requires ids <= key.Keys && ids <= value.Keys && Injective(key, ids) && n !in ids
    requires Injective(key[n := k], ids)
    ensures Entries(key[n := k], value[n := v], ids).Keys == Entries(key, value, ids).Keys
  {
  }

  /** Entries do not see a slot outside the given ids being freed. */
  lemma EntriesShrink<V>(key: map<nat, int>, value: map<nat, V>, ids: set<nat>, z: nat)
    requires ids <= key.Keys && ids <= value.Keys && Injective(key, ids) && z !in ids
    ensures Injective(key - {z}, ids)
    ensures Entries(key - {z}, value - {z}, ids) == Entries(key, value, ids)
  {
    var m, m' := Entries(key, value, ids), Entries(key - {z}, value - {z}, ids);
    forall q | q in m' ensures q in m && m'[q] == m[q] {
      var i :| i in ids && (key - {z})[i] == q;
      EntriesAt(key, value, ids, i);
    }
    forall q | q in m ensures q in m' {
      var i :| i in ids && key[i] == q;
      EntriesAt(key - {z}, value - {z}, ids, i);
    }
  }

  /** Adding a node with a new key adds exactly that key with the node's value. */
  lemma EntriesAdd<V>(key: map<nat, int>, value: map<nat, V>, ids: set<nat>, n: nat)
    requires ids <= key.Keys && ids <= value.Keys && n in key && n in value && n !in ids
    requires Injective(key, ids + {n})
    ensures Injective(key, ids)
    ensures Entries(key, value, ids + {n}) == Entries(key, value, ids)[key[n] := value[n]]
  {
    var m, m' := Entries(key, value, ids), Entries(key, value, ids + {n});
    forall k | k in m' ensures k in m[key[n] := value[n]] && m'[k] == m[key[n] := value[n]][k] {
      var i :| i in ids + {n} && key[i] == k;
      if i != n { EntriesAt(key, value, ids, i); }
    }
    forall k | k in m[key[n] := value[n]] ensures k in m' {
      if k != key[n] {
        var i :| i in ids && key[i] == k;
        EntriesAt(key, value, ids + {n}, i);
      }
    }
  }

  /** A fresh node with a key no node holds adds exactly that key, with the node's value. */
  lemma EntriesHang<V>(key: map<nat, int>, value: map<nat, V>, ids: set<nat>, n: nat, k: int, v: V)
    requires ids <= key.Keys && ids <= value.Keys && n !in ids && Injective(key, ids)
    requires forall i :: i in ids ==> key[i] != k
    ensures Injective(key[n := k], ids + {n}) && k !in Entries(key, value, ids)
    ensures Entries(key[n := k], value[n := v], ids + {n}) == Entries(key, value, ids)[k := v]
  {
    InjectiveGrow(key, ids, n, k);
    assert Injective(key[n := k], ids + {n});
    EntriesGrow(key, value, ids, n, k, v);
    EntriesAdd(key[n := k], value[n := v], ids, n);
    EntriesMissing(key, value, ids, k);
  }

  /** Dropping a node drops exactly its key. */
  lemma EntriesDrop<V>(key: map<nat, int>, value: map<nat, V>, ids: set<nat>, n: nat)
    requires ids <= key.Keys && ids <= value.Keys && n in ids && Injective(key, ids)
    ensures Injective(key, ids - {n})
    ensures Entries(key, value, ids - {n}) == Entries(key, value, ids) - {key[n]}
  {
    var m, m' := Entries(key, value, ids), Entries(key, value, ids - {n});
    forall k | k in m' ensures k in m - {key[n]} && m'[k] == m[k] {
      var i :| i in ids - {n} && key[i] == k;
      EntriesAt(key, value, ids, i);
    }
    forall k | k in m - {key[n]} ensures k in m' {
      var i :| i in ids && key[i] == k;
      EntriesAt(key, value, ids - {n}, i);
    }
  }

  /** Overwriting one node's value overwrites exactly its key's entry. */
  lemma EntriesOverwrite<V>(key: map<nat, int>, value: map<nat, V>, ids: set<nat>, n: nat, v: V)
    requires ids <= key.Keys && ids <= value.Keys && n in ids && Injective(key, ids)
    ensures Entries(key, value[n := v], ids) == Entries(key, value, ids)[key[n] := v]
  {
    var m, m' := Entries(key, value, ids), Entries(key, value[n := v], ids);
    forall k | k in m' ensures k in m && m'[k] == m[key[n] := v][k] {
      var i :| i in ids && key[i] == k;
      EntriesAt(key, value, ids, i);
    }
    forall k | k in m ensures k in m' {
      var i :| i in ids && key[i] == k;
      EntriesAt(key, value[n := v], ids, i);
    }
  }

  /** A key is missing from the dictionary exactly when no node holds it. */
  lemma EntriesMissing<V>(key: map<nat, int>, value: map<nat, V>, ids: set<nat>, k: int)
    requires ids <= key.Keys && ids <= value.Keys && Injective(key, ids)
    ensures k !in Entries(key, value, ids) <==> forall i :: i in ids ==> key[i] != k
  {
    if i :| i in ids && key[i] == k {
      EntriesAt(key, value, ids, i);
    }
  }

  /** Freeing the slot of node `z` takes exactly `z`'s key out of the dictionary. */
  lemma EntriesUnlink<V>(key: map<nat, int>, value: map<nat, V>, ids: set<nat>, z: nat)
    requires ids <= key.Keys && ids <= value.Keys && Injective(key, ids) && z in ids
    ensures Entries(key - {z}, value - {z}, ids - {z}) == Entries(key, value, ids) - {key[z]}
  {
    EntriesDrop(key, value, ids, z);
    EntriesShrink(key, value, ids - {z}, z);
  }

  /** Removing a missing key from a map changes nothing. */
  lemma RemoveMissing<V>(m: map<int, V>, k: int)
    requires k !in m
    ensures m - {k} == m
  {
  }
}
