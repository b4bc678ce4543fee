/**
 * The invariants of the node arena behind `AVLTree`, kept in a module of
 * their own.
 */
module Arenas {
  import opened Shape
  import opened Order
  import opened Linking
  import opened Balance

  /** The node arena of a tree: one slot per node of `t`, each below `nextId`, linked as `t` says. */
  ghost predicate Arena<V>(key: map<nat, int>, value: map<nat, V>, g: Links, root: int, nextId: nat, t: Tree)
  {
    key.Keys == Ids(t) && value.Keys == Ids(t)
    && (forall i :: i in Ids(t) ==> i < nextId)
    && Distinct(t) && Linked(g, root, t)
  }

  /** An arena holding an AVL tree: search order, and every balance correct and in {-1, 0, 1}. */
  ghost predicate Sound<V>(key: map<nat, int>, value: map<nat, V>, balance: map<nat, int>, g: Links, root: int,
                           nextId: nat, t: Tree)
  {
    Arena(key, value, g, root, nextId, t) && Ordered(key, t) && Balanced(balance, t)
  }

  /** An arena holding a search tree whose balances are still to be fixed. */
  ghost predicate Searchable<V>(key: map<nat, int>, value: map<nat, V>, g: Links, root: int, nextId: nat, t: Tree)
  {
    Arena(key, value, g, root, nextId, t) && Ordered(key, t)
  }

  // ---------------------------------------------------------------------------
  // Hanging a new leaf
  // ---------------------------------------------------------------------------

  /**
   * A fresh slot `nextId` for key `k` and value `v` hung as the left leaf of
   * `p`, whose left slot was empty and where `k` fits: the arena holds the
   * grown tree, still ordered, and its dictionary gained exactly `k`.
   */
  lemma HangLeftFacts<V>(key: map<nat, int>, value: map<nat, V>, bal: map<nat, int>, g: Links, root: int, nextId: nat,
                         t: Tree, c: Ctx, p: nat, r: Tree, k: int, v: V,
                         key': map<nat, int>, value': map<nat, V>, g': Links, nextId': nat, t': Tree)
    requires Sound(key, value, bal, g, root, nextId, t) && t == Plug(c, Node(Nil, p, r))
    requires p in key && k < key[p] && Fits(key, c, k)
    requires key' == key[nextId := k] && value' == value[nextId := v] && nextId' == nextId + 1
    requires g' == Links(g.left[nextId := NIL][p := nextId], g.right[nextId := NIL], g.parent[nextId := p])
    requires t' == Plug(c, Node(Node(Nil, nextId, Nil), p, r))
    ensures Searchable(key', value', g', root, nextId', t') && Ids(t') == Ids(t) + {nextId}
    ensures k !in Entries(key, value, Ids(t)) && Entries(key', value', Ids(t')) == Entries(key, value, Ids(t))[k := v]
  {
    HangLeftArena(key, value, g, root, nextId, t, c, p, r, k, v, key', value', g', nextId', t');
    HangContents(key, value, InLeft(c, p, r), t, nextId, k, v);
  }

  /** The arena part of `HangLeftFacts`. */
  lemma HangLeftArena<V>(key: map<nat, int>, value: map<nat, V>, g: Links, root: int, nextId: nat,
                         t: Tree, c: Ctx, p: nat, r: Tree, k: int, v: V,
                         key': map<nat, int>, value': map<nat, V>, g': Links, nextId': nat, t': Tree)
    requires Searchable(key, value, g, root, nextId, t) && t == Plug(c, Node(Nil, p, r))
    requires p in key && k < key[p] && Fits(key, c, k)
    requires key' == key[nextId := k] && value' == value[nextId := v] && nextId' == nextId + 1
    requires g' == Links(g.left[nextId := NIL][p := nextId], g.right[nextId := NIL], g.parent[nextId := p])
    requires t' == Plug(c, Node(Node(Nil, nextId, Nil), p, r))
    ensures Searchable(key', value', g', root, nextId', t') && Ids(t') == Ids(t) + {nextId}
  {
    assert nextId !in Ids(t);
    HangLeftShape(c, p, r, nextId);
    LinkedAttachLeft(g, g', root, c, p, r, nextId);
    OrderedHangLeft(key, c, p, r, nextId, k);
  }

  /** The mirror image of `HangLeftFacts`. */
  lemma HangRightFacts<V>(key: map<nat, int>, value: map<nat, V>, bal: map<nat, int>, g: Links, root: int, nextId: nat,
                          t: Tree, c: Ctx, l: Tree, p: nat, k: int, v: V,
                          key': map<nat, int>, value': map<nat, V>, g': Links, nextId': nat, t': Tree)
    requires Sound(key, value, bal, g, root, nextId, t) && t == Plug(c, Node(l, p, Nil))
    requires p in key && key[p] < k && Fits(key, c, k)
    requires key' == key[nextId := k] && value' == value[nextId := v] && nextId' == nextId + 1
    requires g' == Links(g.left[nextId := NIL], g.right[nextId := NIL][p := nextId], g.parent[nextId := p])
    requires t' == Plug(c, Node(l, p, Node(Nil, nextId, Nil)))
    ensures Searchable(key', value', g', root, nextId', t') && Ids(t') == Ids(t) + {nextId}
    ensures k !in Entries(key, value, Ids(t)) && Entries(key', value', Ids(t')) == Entries(key, value, Ids(t))[k := v]
  {
    HangRightArena(key, value, g, root, nextId, t, c, l, p, k, v, key', value', g', nextId', t');
    HangContents(key, value, InRight(l, p, c), t, nextId, k, v);
  }

  /** The arena part of `HangRightFacts`. */
  lemma HangRightArena<V>(key: map<nat, int>, value: map<nat, V>, g: Links, root: int, nextId: nat,
                          t: Tree, c: Ctx, l: Tree, p: nat, k: int, v: V,
                          key': map<nat, int>, value': map<nat, V>, g': Links, nextId': nat, t': Tree)
    requires Searchable(key, value, g, root, nextId, t) && t == Plug(c, Node(l, p, Nil))
    requires p in key && key[p] < k && Fits(key, c, k)
    requires key' == key[nextId := k] && value' == value[nextId := v] && nextId' == nextId + 1
    requires g' == Links(g.left[nextId := NIL], g.right[nextId := NIL][p := nextId], g.parent[nextId := p])
    requires t' == Plug(c, Node(l, p, Node(Nil, nextId, Nil)))
    ensures Searchable(key', value', g', root, nextId', t') && Ids(t') == Ids(t) + {nextId}
  {
    assert nextId !in Ids(t);
    HangRightShape(c, l, p, nextId);
    LinkedAttachRight(g, g', root, c, l, p, nextId);
    OrderedHangRight(key, c, l, p, nextId, k);
  }

  /**
   * A fresh slot `nextId` for key `k` and value `v` made the root of an empty
   * arena: the arena holds the one-node tree, whose dictionary is exactly
   * `k` mapped to `v`.
   */
  lemma RootFacts<V>(key: map<nat, int>, value: map<nat, V>, bal: map<nat, int>, g: Links, nextId: nat, t: Tree, k: int, v: V,
                     key': map<nat, int>, value': map<nat, V>, bal': map<nat, int>, g': Links, root': int, nextId': nat, t': Tree)
    requires Sound(key, value, bal, g, NIL, nextId, t)
    requires key' == key[nextId := k] && value' == value[nextId := v] && bal' == bal[nextId := 0] && nextId' == nextId + 1
    requires g' == Links(g.left[nextId := NIL], g.right[nextId := NIL], g.parent[nextId := NIL])
    requires root' == nextId && t' == Node(Nil, nextId, Nil)
    ensures Sound(key', value', bal', g', root', nextId', t') && Ids(t') == Ids(t) + {nextId}
    ensures k !in Entries(key, value, Ids(t)) && Entries(key', value', Ids(t')) == Entries(key, value, Ids(t))[k := v]
  {
    assert t == Nil;
    assert Entries(key', value', Ids(t')) == map[k := v] by {
      assert k in KeySet(key', Ids(t'));
    }
    assert Has(g', nextId);
    assert LinkedTree(g', t', NIL);
    assert root' == RootId(t');
  }

  /** A key that fits an empty position is missing from the dictionary, and a fresh slot for it adds exactly it. */
  lemma HangContents<V>(key: map<nat, int>, value: map<nat, V>, c: Ctx, t: Tree, nextId: nat, k: int, v: V)
    requires key.Keys == Ids(t) && value.Keys == Ids(t) && (forall i :: i in Ids(t) ==> i < nextId)
    requires Ordered(key, t) && t == Plug(c, Nil) && Fits(key, c, k)
    ensures Injective(key, Ids(t)) && Injective(key[nextId := k], Ids(t) + {nextId}) && k !in Entries(key, value, Ids(t))
    ensures Entries(key[nextId := k], value[nextId := v], Ids(t) + {nextId}) == Entries(key, value, Ids(t))[k := v]
  {
    OrderedInjective(key, t);
    FitsNil(key, c, k);
    EntriesHang(key, value, Ids(t), nextId, k, v);
  }

  // ---------------------------------------------------------------------------
  // Exchanging two nodes, unhooking a node
  // ---------------------------------------------------------------------------

  /** Two nodes of the arena that exchange their places leave an arena holding the renamed tree. */
  lemma SwapFacts<V>(key: map<nat, int>, value: map<nat, V>, g: Links, root: int, nextId: nat, t: Tree, a: nat, b: nat)
    requires Arena(key, value, g, root, nextId, t) && a in Ids(t) && b in Ids(t)
    ensures Has(g, a) && Has(g, b) && Ids(Rename(t, a, b)) == Ids(t)
    ensures forall g' :: RenamedLinks(g, g', a, b) ==> Arena(key, value, g', Swap(a, b, root), nextId, Rename(t, a, b))
  {
    LinkedTreeHas(g, t, NIL);
    RenameIds(t, a, b);
    RenameDistinct(t, a, b);
    forall g' | RenamedLinks(g, g', a, b)
      ensures Arena(key, value, g', Swap(a, b, root), nextId, Rename(t, a, b))
    {
      LinkedRename(g, g', root, t, a, b);
    }
  }

  /**
   * Node `s.id`, with at most one child, unhooked and its slot freed: the
   * arena holds the tree with the child in its place, still ordered, and the
   * balances around the hole record a subtree one level lower.
   */
  lemma UnlinkFacts<V>(key: map<nat, int>, value: map<nat, V>, bal: map<nat, int>, g: Links, root: int, nextId: nat,
                       c: Ctx, s: Tree,
                       key': map<nat, int>, value': map<nat, V>, bal': map<nat, int>, g': Links, root': int, t': Tree)
    requires Arena(key, value, g, root, nextId, Plug(c, s)) && Balanced(bal, Plug(c, s))
    requires s.Node? && (s.left.Nil? || s.right.Nil?)
    requires Ordered(key, Plug(c, if s.left.Node? then s.left else s.right))
    requires key' == key - {s.id} && value' == value - {s.id} && bal' == bal - {s.id}
    requires var ch := RootId(if s.left.Node? then s.left else s.right);
      && g'.left == (if c.InLeft? then g.left[c.id := ch] else g.left) - {s.id}
      && g'.right == (if c.InRight? then g.right[c.id := ch] else g.right) - {s.id}
      && g'.parent == (if ch != NIL then g.parent[ch as nat := ParentId(c)] else g.parent) - {s.id}
      && root' == if c.Top? then ch else root
    requires t' == Plug(c, if s.left.Node? then s.left else s.right)
    ensures Searchable(key', value', g', root', nextId, t') && Ids(t') == Ids(Plug(c, s)) - {s.id}
    ensures Shrunk(bal', c, if s.left.Node? then s.left else s.right)
  {
    UnlinkArena(key, value, g, root, nextId, c, s, key', value', g', root', t');
    assert SameExcept(bal, bal', {s.id});
    RemoveSplice(bal, bal', c, s);
  }

  /** The arena part of `UnlinkFacts`. */
  lemma UnlinkArena<V>(key: map<nat, int>, value: map<nat, V>, g: Links, root: int, nextId: nat, c: Ctx, s: Tree,
                       key': map<nat, int>, value': map<nat, V>, g': Links, root': int, t': Tree)
    requires Arena(key, value, g, root, nextId, Plug(c, s))
    requires s.Node? && (s.left.Nil? || s.right.Nil?)
    requires Ordered(key, Plug(c, if s.left.Node? then s.left else s.right))
    requires key' == key - {s.id} && value' == value - {s.id}
    requires var ch := RootId(if s.left.Node? then s.left else s.right);
      && g'.left == (if c.InLeft? then g.left[c.id := ch] else g.left) - {s.id}
      && g'.right == (if c.InRight? then g.right[c.id := ch] else g.right) - {s.id}
      && g'.parent == (if ch != NIL then g.parent[ch as nat := ParentId(c)] else g.parent) - {s.id}
      && root' == if c.Top? then ch else root
    requires t' == Plug(c, if s.left.Node? then s.left else s.right)
    ensures Searchable(key', value', g', root', nextId, t') && Ids(t') == Ids(Plug(c, s)) - {s.id}
  {
    UnlinkIds(c, s);
    OrderedFrame(key, key', t');
    LinkedSplice(g, g', root, root', c, s);
  }

  /** Unhooking a node with at most one child loses exactly that node's id. */
  lemma UnlinkIds(c: Ctx, s: Tree)
    requires Distinct(Plug(c, s)) && s.Node? && (s.left.Nil? || s.right.Nil?)
    ensures Ids(Plug(c, if s.left.Node? then s.left else s.right)) == Ids(Plug(c, s)) - {s.id}
    ensures Distinct(Plug(c, if s.left.Node? then s.left else s.right))
  {
    var ch := if s.left.Node? then s.left else s.right;
    PlugIds(c, s);
    PlugIds(c, ch);
    PlugDistinct(c, s);
    assert Ids(ch) <= Ids(s) && s.id !in Ids(ch);
    DistinctReplace(c, s, ch);
  }
}
