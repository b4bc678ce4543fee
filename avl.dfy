/**
 * The AVL tree of avlbst.h (`AVLTree` with its `AVLNode`s) over an arena of
 * node slots.
 *
 * Each node is a slot id; its fields `key`, `value`, `balance`, `left`,
 * `right` and `parent` live in one map per field, and NIL stands for
 * `nullptr`. The ghost field `t` is the shape the links describe; the ghost
 * `Ctx`/`Tree` parameters of the internal methods say where in `t` the node
 * they work on sits.
 */
module Avl {
  import opened Shape
  import opened Order
  import opened Linking
  import opened Balance
  import opened Arenas

  /** `a + b` stored into an `int8_t`: the sum wraps into [-128, 127]. */
  function AddInt8(a: int, b: int): (r: int)
    ensures IsInt8(r)
    ensures (a + b - r) % 256 == 0
    ensures IsInt8(a + b) ==> r == a + b
  {
    (a + b + 128) % 256 - 128
  }

  class AVLTree<V> {
    var key: map<nat, int>
    var value: map<nat, V>
    /** The `int8_t balance_` of each node: height(right) - height(left) between operations. */
    var balance: map<nat, int>
    var left: map<nat, int>
    var right: map<nat, int>
    var parent: map<nat, int>
    var root: int
    /** The next slot that has never been handed out. */
    var nextId: nat
    ghost var t: Tree

    ghost function Graph(): Links
      reads this`left, this`right, this`parent
    {
      Links(left, right, parent)
    }

    /** The arena holds exactly the nodes of `t`, linked as `t` says. */
    ghost predicate Shaped()
      reads this`key, this`value, this`left, this`right, this`parent, this`root, this`nextId, this`t
    {
      Arena(key, value, Graph(), root, nextId, t)
    }

    /** The arena holds a search tree, whose balances may still need fixing. */
    ghost predicate SearchTree()
      reads this`key, this`value, this`left, this`right, this`parent, this`root, this`nextId, this`t
    {
      Searchable(key, value, Graph(), root, nextId, t)
    }

    /** The AVL tree invariant: search order, and every balance correct and in {-1, 0, 1}. */
    ghost predicate Valid()
      reads this
    {
      Sound(key, value, balance, Graph(), root, nextId, t)
    }

    /** The dictionary the tree holds. */
    ghost function Contents(): map<int, V>
      reads this
      requires Shaped() && Ordered(key, t)
    {
      Entries(key, value, Ids(t))
    }

    /** An empty tree. */
    constructor()
      ensures Valid() && t == Nil && Contents() == map[]
    {
      key, value, balance := map[], map[], map[];
      left, right, parent := map[], map[], map[];
      root, nextId := NIL, 0;
      t := Nil;
    }

    // -------------------------------------------------------------------------
    // AVLNode balance accessors
    // -------------------------------------------------------------------------

    /** `getBalance`: in a valid tree, the height difference of `n`'s subtrees. */
    method GetBalance(n: nat) returns (b: int)
      requires n in balance
      ensures b == balance[n]
      ensures Valid() && n in Ids(t) ==>
        -1 <= b <= 1 && b == Height(SubtreeAt(t, n).right) - Height(SubtreeAt(t, n).left)
    {
      b := balance[n];
      if Valid() && n in Ids(t) {
        BalancedAt(balance, t, n);
      }
    }

    /** `setBalance`. */
    method SetBalance(n: nat, b: int)
      requires n in balance && IsInt8(b)
      modifies this`balance
      ensures balance == old(balance)[n := b]
    {
      balance := balance[n := b];
    }

    /** `updateBalance`: `balance_ += diff` on `int8_t`. */
    method UpdateBalance(n: nat, diff: int)
      requires n in balance && IsInt8(diff)
      modifies this`balance
      ensures balance == old(balance)[n := AddInt8(old(balance)[n], diff)]
    {
      balance := balance[n := AddInt8(balance[n], diff)];
    }

    /**
     * The balances after a double rotation that lifted `mid` above `lo` (now
     * its left child) and `hi` (now its right child): the side `mid` leaned
     * towards keeps 0, the other side takes the lean, and `mid` becomes level.
     */
    method SetZigZag(lo: nat, mid: nat, hi: nat)
      requires lo in balance && mid in balance && hi in balance && -1 <= balance[mid] <= 1
      requires lo != mid && mid != hi && lo != hi
      modifies this`balance
      ensures balance == old(balance)[lo := ZigZagBalances(old(balance)[mid]).0]
                                     [hi := ZigZagBalances(old(balance)[mid]).1][mid := 0]
    {
      if balance[mid] == -1 {
        SetBalance(lo, 0);
        SetBalance(hi, 1);
      } else if balance[mid] == 0 {
        SetBalance(lo, 0);
        SetBalance(hi, 0);
      } else {
        SetBalance(lo, -1);
        SetBalance(hi, 0);
      }
      SetBalance(mid, 0);
    }

    // -------------------------------------------------------------------------
    // Rotations
    // -------------------------------------------------------------------------

    /** `rotateLeft`: `x`'s right child takes `x`'s place and `x` becomes its left child. */
    method RotateLeft(x: nat, ghost c: Ctx, ghost s: Tree)
      requires Shaped() && t == Plug(c, s) && s.Node? && s.id == x && s.right.Node?
      modifies this`left, this`right, this`parent, this`root, this`t
      ensures Shaped() && t == Plug(c, RotL(s)) && Ids(t) == old(Ids(t))
      ensures old(Ordered(key, t)) ==> Ordered(key, t)
    {
      ghost var g, root0 := Graph(), root;
      RotLFacts(g, root, c, s);
      var y := right[x];
      var rootParent := parent[x];
      parent := parent[y := rootParent];
      if parent[x] == NIL {
        root := right[x];
      } else if right[rootParent as nat] == x {
        right := right[rootParent as nat := y];
      } else {
        left := left[rootParent as nat := y];
      }
      var cc := left[y];
      left := left[y := x];
      parent := parent[x := y];
      right := right[x := cc];
      if cc != NIL {
        parent := parent[cc as nat := x];
      }
      t := Plug(c, RotL(s));
      RotatedLeft(key, value, g, root0, nextId, c, s, Graph(), root);
    }

    /** `rotateRight`: `x`'s left child takes `x`'s place and `x` becomes its right child. */
    method RotateRight(x: nat, ghost c: Ctx, ghost s: Tree)
      requires Shaped() && t == Plug(c, s) && s.Node? && s.id == x && s.left.Node?
      modifies this`left, this`right, this`parent, this`root, this`t
      ensures Shaped() && t == Plug(c, RotR(s)) && Ids(t) == old(Ids(t))
      ensures old(Ordered(key, t)) ==> Ordered(key, t)
    {
      ghost var g, root0 := Graph(), root;
      RotRFacts(g, root, c, s);
      var y := left[x];
      var rootParent := parent[x];
      parent := parent[y := rootParent];
      if parent[x] == NIL {
        root := y;
      } else if right[rootParent as nat] == x {
        right := right[rootParent as nat := y];
      } else {
        left := left[rootParent as nat := y];
      }
      var cc := right[y];
      right := right[y := x];
      parent := parent[x := y];
      left := left[x := cc];
      if cc != NIL {
        parent := parent[cc as nat := x];
      }
      t := Plug(c, RotR(s));
      RotatedRight(key, value, g, root0, nextId, c, s, Graph(), root);
    }

    // -------------------------------------------------------------------------
    // Searching (the base tree's find and predecessor, and getSuccessor)
    // -------------------------------------------------------------------------

    /**
     * The base tree's `internalFind(key)`, which bst.h provides (bst.h is not
     * part of this model): the node holding `k`, NIL when no node does.
     */
    method InternalFind(k: int) returns (n: int)
      requires SearchTree()
      ensures n == NIL <==> k !in Contents()
      ensures n != NIL ==> n >= 0 && n in Ids(t) && key[n] == k
    {
      n := root;
      ghost var c, s := Top, t;
      while n != NIL
        invariant t == Plug(c, s) && RootId(s) == n && Fits(key, c, k)
        decreases Height(s)
      {
        LinkedAt(Graph(), root, c, s);
        PlugIds(c, s);
        var i := n as nat;
        if k == key[i] {
          assert k in KeySet(key, Ids(t));
          return;
        } else if k < key[i] {
          c, s := InLeft(c, i, s.right), s.left;
          n := left[i];
        } else {
          c, s := InRight(s.left, i, c), s.right;
          n := right[i];
        }
      }
      FitsNil(key, c, k);
      OrderedInjective(key, t);
      EntriesMissing(key, value, Ids(t), k);
    }

    /**
     * The base tree's `predecessor(node)` (bst.h is not part of this model):
     * the node holding the largest key below `n`'s, NIL when `n` holds the
     * smallest. It walks like `getSuccessor` with the sides exchanged: down to
     * the rightmost node of the left subtree, or up while it comes from a left
     * child.
     */
    method Predecessor(n: nat) returns (m: int)
      requires SearchTree() && n in Ids(t)
      ensures m == NIL <==> forall i :: i in Ids(t) ==> key[n] <= key[i]
      ensures m != NIL ==> m >= 0 && m in Ids(t) && key[m] < key[n]
      ensures m != NIL ==> forall i :: i in Ids(t) && key[i] < key[n] ==> key[i] <= key[m]
    {
      ghost var c, s := Locate(t, n);
      LinkedAt(Graph(), root, c, s);
      if left[n] != NIL {
        m := left[n];
        ghost var cl, sm := Top, s.left;
        LinkedAt(Graph(), root, InLeft(c, n, s.right), sm);
        while right[m as nat] != NIL
          invariant RightSpine(cl) && sm.Node? && sm.id == m && t == Plug(c, Node(Plug(cl, sm), n, s.right))
          invariant m in right && right[m] == RootId(sm.right) && Has(Graph(), m)
          decreases Height(sm)
        {
          RightSpineAppend(InRight(sm.left, m, Top), cl);
          PlugAppend(InRight(sm.left, m, Top), cl, sm.right);
          cl, sm := Append(InRight(sm.left, m, Top), cl), sm.right;
          PlugAppend(cl, InLeft(c, n, s.right), sm);
          LinkedAt(Graph(), root, Append(cl, InLeft(c, n, s.right)), sm);
          m := right[m as nat];
        }
        PredecessorBelow(key, c, cl, sm.left, m, n, s.right);
      } else {
        var cur := n;
        m := parent[n];
        ghost var cu, su := c, s;
        MinOfLeftless(key, c, s);
        while m != NIL && cur == left[m as nat]
          invariant t == Plug(cu, su) && su.Node? && su.id == cur && m == ParentId(cu) && n in Ids(su)
          invariant forall i :: i in Ids(su) ==> i in key && key[n] <= key[i]
          invariant !cu.Top? ==> Has(Graph(), cu.id) && (left[cu.id] == cur <==> cu.InLeft?)
          decreases Depth(cu)
        {
          MinStepUp(key, cu.up, su, cu.id, cu.right, n);
          cur := m as nat;
          cu, su := cu.up, Node(su, cu.id, cu.right);
          LinkedAt(Graph(), root, cu, su);
          m := parent[cur];
        }
        if m != NIL {
          PredecessorAbove(key, cu.up, cu.left, cu.id, su, n);
        }
      }
    }

    /**
     * `getSuccessor(node)`: the node holding the smallest key above `n`'s, NIL
     * when `n` holds the largest: the leftmost node of the right subtree, or
     * else the first ancestor reached from a left child.
     */
    method GetSuccessor(n: nat) returns (m: int)
      requires SearchTree() && n in Ids(t)
      ensures m == NIL <==> forall i :: i in Ids(t) ==> key[i] <= key[n]
      ensures m != NIL ==> m >= 0 && m in Ids(t) && key[n] < key[m]
      ensures m != NIL ==> forall i :: i in Ids(t) && key[n] < key[i] ==> key[m] <= key[i]
    {
      ghost var c, s := Locate(t, n);
      LinkedAt(Graph(), root, c, s);
      if right[n] != NIL {
        m := right[n];
        ghost var cr, sm := Top, s.right;
        LinkedAt(Graph(), root, InRight(s.left, n, c), sm);
        while left[m as nat] != NIL
          invariant LeftSpine(cr) && sm.Node? && sm.id == m && t == Plug(c, Node(s.left, n, Plug(cr, sm)))
          invariant m in left && left[m] == RootId(sm.left) && Has(Graph(), m)
          decreases Height(sm)
        {
          LeftSpineAppend(InLeft(Top, m, sm.right), cr);
          PlugAppend(InLeft(Top, m, sm.right), cr, sm.left);
          cr, sm := Append(InLeft(Top, m, sm.right), cr), sm.left;
          PlugAppend(cr, InRight(s.left, n, c), sm);
          LinkedAt(Graph(), root, Append(cr, InRight(s.left, n, c)), sm);
          m := left[m as nat];
        }
        SuccessorBelow(key, c, s.left, n, cr, m, sm.right);
      } else {
        var cur := n;
        m := parent[n];
        ghost var cu, su := c, s;
        MaxOfRightless(key, c, s);
        while m != NIL && cur == right[m as nat]
          invariant t == Plug(cu, su) && su.Node? && su.id == cur && m == ParentId(cu) && n in Ids(su)
          invariant forall i :: i in Ids(su) ==> i in key && key[i] <= key[n]
          invariant !cu.Top? ==> Has(Graph(), cu.id) && (right[cu.id] == cur <==> cu.InRight?)
          decreases Depth(cu)
        {
          MaxStepUp(key, cu.up, cu.left, cu.id, su, n);
          cur := m as nat;
          cu, su := cu.up, Node(cu.left, cu.id, su);
          LinkedAt(Graph(), root, cu, su);
          m := parent[cur];
        }
        if m != NIL {
          SuccessorAbove(key, cu.up, su, cu.id, cu.right, n);
        }
      }
    }

    // -------------------------------------------------------------------------
    // Insertion
    // -------------------------------------------------------------------------

    /**
     * `insert`: the tree maps `k` to `v` afterwards and is still a valid AVL
     * tree. A key already present only has its value replaced: no node, link
     * or balance changes.
     */
    method Insert(k: int, v: V)
      requires Valid()
      modifies this
      ensures Valid() && Contents() == old(Contents())[k := v]
      ensures k in old(Contents()) ==>
        t == old(t) && key == old(key) && balance == old(balance) && Graph() == old(Graph()) && root == old(root) && nextId == old(nextId)
      ensures k !in old(Contents()) ==> Ids(t) == old(Ids(t)) + {old(nextId)} && nextId == old(nextId) + 1
    {
      if root == NIL {
        InsertRoot(k, v);
        return;
      }
      LinkedAt(Graph(), root, Top, t);
      var p: nat := root as nat;
      ghost var c, s := Top, t;
      while true
        invariant t == Plug(c, s) && s.Node? && s.id == p && Fits(key, c, k)
        modifies {}
        decreases Height(s)
      {
        LinkedAt(Graph(), root, c, s);
        PlugIds(c, s);
        assert p in Ids(s);
        if k == key[p] {
          break;
        } else if k < key[p] {
          if left[p] == NIL {
            break;
          }
          p, c, s := left[p] as nat, InLeft(c, p, s.right), s.left;
        } else {
          if right[p] == NIL {
            break;
          }
          p, c, s := right[p] as nat, InRight(s.left, p, c), s.right;
        }
      }
      InsertAt(p, k, v, c, s);
    }

    /**
     * The end of `insert`'s descent at node `p`: overwrite its value when it
     * holds `k`, otherwise hang a new leaf in the empty slot on `k`'s side.
     */
    method InsertAt(p: nat, k: int, v: V, ghost c: Ctx, ghost s: Tree)
      requires Valid() && t == Plug(c, s) && s.Node? && s.id == p && Fits(key, c, k)
      requires p in key && (k < key[p] ==> s.left.Nil?) && (key[p] < k ==> s.right.Nil?)
      modifies this
      ensures Valid() && Contents() == old(Contents())[k := v]
      ensures k in old(Contents()) ==>
        t == old(t) && key == old(key) && balance == old(balance) && Graph() == old(Graph()) && root == old(root) && nextId == old(nextId)
      ensures k !in old(Contents()) ==> Ids(t) == old(Ids(t)) + {old(nextId)} && nextId == old(nextId) + 1
    {
      if k == key[p] {
        Overwrite(p, v, c, s);
      } else {
        InsertLeaf(p, k, v, c, s);
      }
    }

    /** A new key: a fresh leaf hung under `p` on `k`'s side, then the balance step. */
    method InsertLeaf(p: nat, k: int, v: V, ghost c: Ctx, ghost s: Tree)
      requires Valid() && t == Plug(c, s) && s.Node? && s.id == p && Fits(key, c, k)
      requires p in key && k != key[p] && (k < key[p] ==> s.left.Nil?) && (key[p] < k ==> s.right.Nil?)
      modifies this`key, this`value, this`balance, this`left, this`right, this`parent, this`root, this`nextId, this`t
      ensures Valid() && k !in old(Contents()) && Contents() == old(Contents())[k := v]
      ensures Ids(t) == old(Ids(t)) + {old(nextId)} && nextId == old(nextId) + 1
    {
      ghost var bal0 := balance;
      var n;
      if k < key[p] {
        EmptyLeftSlot(balance, c, p, s.right);
        n := HangLeft(p, k, v, c, s.right);
        InsertBalance(p, n, c, Node(Nil, n, Nil), s.right, bal0);
      } else {
        EmptyRightSlot(balance, c, s.left, p);
        n := HangRight(p, k, v, c, s.left);
        InsertBalance(p, n, c, s.left, Node(Nil, n, Nil), bal0);
      }
    }

    /** `setValue` on the node `p` that already holds `k`: only its value changes. */
    method Overwrite(p: nat, v: V, ghost c: Ctx, ghost s: Tree)
      requires Valid() && t == Plug(c, s) && s.Node? && s.id == p && p in key
      modifies this`value
      ensures Valid() && key[p] in old(Contents()) && Contents() == old(Contents())[key[p] := v]
    {
      ghost var ids := Ids(t);
      OrderedInjective(key, t);
      PlugIds(c, s);
      EntriesOverwrite(key, value, ids, p, v);
      EntriesAt(key, value, ids, p);
      value := value[p := v];
    }

    /** `insert` into an empty tree: the new node becomes the root. */
    method InsertRoot(k: int, v: V)
      requires Valid() && root == NIL
      modifies this`key, this`value, this`balance, this`left, this`right, this`parent, this`root, this`nextId, this`t
      ensures Valid() && Contents() == old(Contents())[k := v] && k !in old(Contents())
      ensures Ids(t) == old(Ids(t)) + {old(nextId)} && nextId == old(nextId) + 1
    {
      ghost var key0, value0, bal0, g0, t0 := key, value, balance, Graph(), t;
      var n := NewNode(k, v, NIL);
      root := n;
      t := Node(Nil, n, Nil);
      RootFacts(key0, value0, bal0, g0, n, t0, k, v, key, value, balance, Graph(), root, nextId, t);
    }

    /** `new AVLNode(key, value, parent)`: a fresh slot holding a leaf with balance 0. */
    method NewNode(k: int, v: V, p: int) returns (n: nat)
      modifies this`key, this`value, this`balance, this`left, this`right, this`parent, this`nextId
      ensures n == old(nextId) && nextId == n + 1
      ensures key == old(key)[n := k] && value == old(value)[n := v] && balance == old(balance)[n := 0]
      ensures left == old(left)[n := NIL] && right == old(right)[n := NIL] && parent == old(parent)[n := p]
    {
      n := nextId;
      nextId := n + 1;
      key, value, balance := key[n := k], value[n := v], balance[n := 0];
      left, right, parent := left[n := NIL], right[n := NIL], parent[n := p];
    }

    /**
     * The new node `n` for `k` hung in the empty left slot of `p`, where `k`
     * fits: `k` was not in the tree and now maps to `v`.
     */
    method HangLeft(p: nat, k: int, v: V, ghost c: Ctx, ghost r: Tree) returns (n: nat)
      requires Valid() && t == Plug(c, Node(Nil, p, r)) && p in key && k < key[p] && Fits(key, c, k)
      modifies this`key, this`value, this`balance, this`left, this`right, this`parent, this`nextId, this`t
      ensures SearchTree() && n == old(nextId) && nextId == n + 1
      ensures t == Plug(c, Node(Node(Nil, n, Nil), p, r)) && Ids(t) == old(Ids(t)) + {n}
      ensures balance == old(balance)[n := 0]
      ensures Contents() == old(Contents())[k := v] && k !in old(Contents())
    {
      ghost var key0, value0, bal0, g0, t0 := key, value, balance, Graph(), t;
      n := NewNode(k, v, p);
      left := left[p := n];
      t := Plug(c, Node(Node(Nil, n, Nil), p, r));
      HangLeftFacts(key0, value0, bal0, g0, root, n, t0, c, p, r, k, v, key, value, Graph(), nextId, t);
    }

    /** The mirror image of `HangLeft`, for the empty right slot of `p`. */
    method HangRight(p: nat, k: int, v: V, ghost c: Ctx, ghost l: Tree) returns (n: nat)
      requires Valid() && t == Plug(c, Node(l, p, Nil)) && p in key && key[p] < k && Fits(key, c, k)
      modifies this`key, this`value, this`balance, this`left, this`right, this`parent, this`nextId, this`t
      ensures SearchTree() && n == old(nextId) && nextId == n + 1
      ensures t == Plug(c, Node(l, p, Node(Nil, n, Nil))) && Ids(t) == old(Ids(t)) + {n}
      ensures balance == old(balance)[n := 0]
      ensures Contents() == old(Contents())[k := v] && k !in old(Contents())
    {
      ghost var key0, value0, bal0, g0, t0 := key, value, balance, Graph(), t;
      n := NewNode(k, v, p);
      right := right[p := n];
      t := Plug(c, Node(l, p, Node(Nil, n, Nil)));
      HangRightFacts(key0, value0, bal0, g0, root, n, t0, c, l, p, k, v, key, value, Graph(), nextId, t);
    }

    /**
     * The balance step of `insert` after the new leaf `n` was hung under `p`:
     * if `p` leaned away from the new leaf it becomes level and nothing above
     * changes; otherwise `p` leans towards `n` and `insertFix` walks up.
     */
    method InsertBalance(p: nat, n: nat, ghost c: Ctx, ghost l: Tree, ghost r: Tree, ghost bal0: map<nat, int>)
      requires Shaped() && Ordered(key, t) && t == Plug(c, Node(l, p, r)) && balance == bal0[n := 0]
      requires (l == Node(Nil, n, Nil) && BalancedCtx(bal0, InLeft(c, p, r), 0))
            || (r == Node(Nil, n, Nil) && BalancedCtx(bal0, InRight(l, p, c), 0))
      modifies this`balance, this`left, this`right, this`parent, this`root, this`t
      ensures Valid() && Ids(t) == old(Ids(t))
    {
      LinkedAt(Graph(), root, c, Node(l, p, r));
      ChildrenApart(c, Node(l, p, r));
      DistinctAt(c, l, p, r);
      assert n in Ids(l) + Ids(r);
      if balance[p] == -1 || balance[p] == 1 {
        SetBalance(p, 0);
        if l == Node(Nil, n, Nil) {
          InsertLeafLeft(bal0, balance, c, p, r, n);
        } else {
          InsertLeafRight(bal0, balance, c, l, p, n);
        }
        return;
      }
      if left[p] == n {
        SetBalance(p, -1);
        InsertLeafLeft(bal0, balance, c, p, r, n);
      } else {
        SetBalance(p, 1);
        InsertLeafRight(bal0, balance, c, l, p, n);
      }
      InsertFix(p, n, c, Node(l, p, r));
    }

    /**
     * `insertFix(parent, child)`: `p`'s subtree grew by one level and `p` now
     * leans towards `ch`; walk up, adjusting balances, until a node absorbs the
     * growth or a single or double rotation restores the old height.
     */
    method InsertFix(p: nat, ch: nat, ghost c: Ctx, ghost s: Tree)
      requires Shaped() && Ordered(key, t)
      requires t == Plug(c, s) && s.Node? && s.id == p && InsertFixState(balance, c, s)
      requires balance[p] == -1 ==> ch == RootId(s.left)
      requires balance[p] == 1 ==> ch == RootId(s.right)
      modifies this`balance, this`left, this`right, this`parent, this`root, this`t
      ensures Valid() && Ids(t) == old(Ids(t))
      decreases Depth(c)
    {
      LinkedAt(Graph(), root, c, s);
      ChildrenApart(c, s);
      var gp := parent[p];
      if gp == NIL {
        return;
      }
      ghost var bal0 := balance;
      var g := gp as nat;
      if p == left[g] {
        ghost var up, gr := c.up, c.right;
        SetBalance(g, balance[g] - 1);
        if balance[g] == 0 {
          InsertStepLeft(bal0, up, s, g, gr);
          return;
        }
        if balance[g] == -1 {
          InsertStepLeft(bal0, up, s, g, gr);
          InsertFix(g, p, up, Node(s, g, gr));
          return;
        }
        InsertRebalanceLeft(p, ch, g, up, s, gr, bal0);
      } else {
        ghost var gl, up := c.left, c.up;
        SetBalance(g, balance[g] + 1);
        if balance[g] == 0 {
          InsertStepRight(bal0, up, gl, g, s);
          return;
        }
        if balance[g] == 1 {
          InsertStepRight(bal0, up, gl, g, s);
          InsertFix(g, p, up, Node(gl, g, s));
          return;
        }
        InsertRebalanceRight(p, ch, g, gl, s, up, bal0);
      }
    }

    /**
     * The left half of `insertFix` once the grandparent `g` is two levels
     * heavier on the left: a right rotation when `ch` is the left child of `p`,
     * a left-right double rotation otherwise.
     */
    method InsertRebalanceLeft(p: nat, ch: nat, g: nat, ghost up: Ctx, ghost s: Tree, ghost gr: Tree, ghost bal0: map<nat, int>)
      requires Shaped() && Ordered(key, t)
      requires t == Plug(up, Node(s, g, gr)) && s.Node? && s.id == p
      requires InsertFixState(bal0, InLeft(up, g, gr), s) && bal0[g] == -1 && balance == bal0[g := -2]
      requires bal0[p] == -1 ==> ch == RootId(s.left)
      requires bal0[p] == 1 ==> ch == RootId(s.right)
      modifies this`balance, this`left, this`right, this`parent, this`root, this`t
      ensures Valid() && Ids(t) == old(Ids(t))
    {
      LinkedAt(Graph(), root, InLeft(up, g, gr), s);
      ChildrenApart(InLeft(up, g, gr), s);
      if ch == left[p] {
        RebalanceLeftLeft(p, g, up, s, gr, bal0);
      } else {
        RebalanceLeftRight(p, ch, g, up, s, gr, bal0);
      }
    }

    /** Left-left: one right rotation at `g`; `p` and `g` end level. */
    method RebalanceLeftLeft(p: nat, g: nat, ghost up: Ctx, ghost s: Tree, ghost gr: Tree, ghost bal0: map<nat, int>)
      requires Shaped() && Ordered(key, t)
      requires t == Plug(up, Node(s, g, gr)) && s.Node? && s.id == p && s.left.Node?
      requires InsertFixState(bal0, InLeft(up, g, gr), s) && bal0[g] == -1 && bal0[p] == -1 && balance == bal0[g := -2]
      modifies this`balance, this`left, this`right, this`parent, this`root, this`t
      ensures Valid() && Ids(t) == old(Ids(t))
    {
      RotateRight(g, up, Node(s, g, gr));
      SetBalance(p, 0);
      SetBalance(g, 0);
      InsertSingleLeft(bal0, up, s, g, gr);
    }

    /**
     * Left-right: a left rotation at `p`, then a right rotation at `g`, lift
     * `ch` above both; the balances follow `ch`'s old lean.
     */
    method RebalanceLeftRight(p: nat, ch: nat, g: nat, ghost up: Ctx, ghost s: Tree, ghost gr: Tree, ghost bal0: map<nat, int>)
      requires Shaped() && Ordered(key, t)
      requires t == Plug(up, Node(s, g, gr)) && s.Node? && s.id == p && s.right.Node? && s.right.id == ch
      requires InsertFixState(bal0, InLeft(up, g, gr), s) && bal0[g] == -1 && bal0[p] == 1 && balance == bal0[g := -2]
      modifies this`balance, this`left, this`right, this`parent, this`root, this`t
      ensures Valid() && Ids(t) == old(Ids(t))
    {
      RotateLeft(p, InLeft(up, g, gr), s);
      LeftRightFinish(p, ch, g, up, s, gr, bal0);
    }

    /** The second rotation of `RebalanceLeftRight` and the balances it leaves. */
    method LeftRightFinish(p: nat, ch: nat, g: nat, ghost up: Ctx, ghost s: Tree, ghost gr: Tree, ghost bal0: map<nat, int>)
      requires Shaped() && Ordered(key, t)
      requires s.Node? && s.id == p && s.right.Node? && s.right.id == ch && t == Plug(up, Node(RotL(s), g, gr))
      requires Distinct(Plug(up, Node(s, g, gr)))
      requires InsertFixState(bal0, InLeft(up, g, gr), s) && bal0[g] == -1 && bal0[p] == 1 && balance == bal0[g := -2]
      modifies this`balance, this`left, this`right, this`parent, this`root, this`t
      ensures Valid() && Ids(t) == old(Ids(t))
    {
      ChildApart(InLeft(up, g, gr), s, ch);
      BalancedAt(bal0, s.right, ch);
      RotateRight(g, up, Node(RotL(s), g, gr));
      SetZigZag(p, ch, g);
      InsertDoubleLeft(bal0, up, s, g, gr);
    }

    /** The mirror image of `InsertRebalanceLeft`, for the right half of `insertFix`. */
    method InsertRebalanceRight(p: nat, ch: nat, g: nat, ghost gl: Tree, ghost s: Tree, ghost up: Ctx, ghost bal0: map<nat, int>)
      requires Shaped() && Ordered(key, t)
      requires t == Plug(up, Node(gl, g, s)) && s.Node? && s.id == p
      requires InsertFixState(bal0, InRight(gl, g, up), s) && bal0[g] == 1 && balance == bal0[g := 2]
      requires bal0[p] == -1 ==> ch == RootId(s.left)
      requires bal0[p] == 1 ==> ch == RootId(s.right)
      modifies this`balance, this`left, this`right, this`parent, this`root, this`t
      ensures Valid() && Ids(t) == old(Ids(t))
    {
      LinkedAt(Graph(), root, InRight(gl, g, up), s);
      ChildrenApart(InRight(gl, g, up), s);
      if ch == right[p] {
        RebalanceRightRight(p, g, gl, s, up, bal0);
      } else {
        RebalanceRightLeft(p, ch, g, gl, s, up, bal0);
      }
    }

    /** Right-right: one left rotation at `g`; `p` and `g` end level. */
    method RebalanceRightRight(p: nat, g: nat, ghost gl: Tree, ghost s: Tree, ghost up: Ctx, ghost bal0: map<nat, int>)
      requires Shaped() && Ordered(key, t)
      requires t == Plug(up, Node(gl, g, s)) && s.Node? && s.id == p && s.right.Node?
      requires InsertFixState(bal0, InRight(gl, g, up), s) && bal0[g] == 1 && bal0[p] == 1 && balance == bal0[g := 2]
      modifies this`balance, this`left, this`right, this`parent, this`root, this`t
      ensures Valid() && Ids(t) == old(Ids(t))
    {
      RotateLeft(g, up, Node(gl, g, s));
      SetBalance(p, 0);
      SetBalance(g, 0);
      InsertSingleRight(bal0, up, gl, g, s);
    }

    /**
     * Right-left: a right rotation at `p`, then a left rotation at `g`, lift
     * `ch` above both; the balances follow `ch`'s old lean.
     */
    method RebalanceRightLeft(p: nat, ch: nat, g: nat, ghost gl: Tree, ghost s: Tree, ghost up: Ctx, ghost bal0: map<nat, int>)
      requires Shaped() && Ordered(key, t)
      requires t == Plug(up, Node(gl, g, s)) && s.Node? && s.id == p && s.left.Node? && s.left.id == ch
      requires InsertFixState(bal0, InRight(gl, g, up), s) && bal0[g] == 1 && bal0[p] == -1 && balance == bal0[g := 2]
      modifies this`balance, this`left, this`right, this`parent, this`root, this`t
      ensures Valid() && Ids(t) == old(Ids(t))
    {
      RotateRight(p, InRight(gl, g, up), s);
      RightLeftFinish(p, ch, g, gl, s, up, bal0);
    }

    /** The second rotation of `RebalanceRightLeft` and the balances it leaves. */
    method RightLeftFinish(p: nat, ch: nat, g: nat, ghost gl: Tree, ghost s: Tree, ghost up: Ctx, ghost bal0: map<nat, int>)
      requires Shaped() && Ordered(key, t)
      requires s.Node? && s.id == p && s.left.Node? && s.left.id == ch && t == Plug(up, Node(gl, g, RotR(s)))
      requires Distinct(Plug(up, Node(gl, g, s)))
      requires InsertFixState(bal0, InRight(gl, g, up), s) && bal0[g] == 1 && bal0[p] == -1 && balance == bal0[g := 2]
      modifies this`balance, this`left, this`right, this`parent, this`root, this`t
      ensures Valid() && Ids(t) == old(Ids(t))
    {
      ChildApart(InRight(gl, g, up), s, ch);
      BalancedAt(bal0, s.left, ch);
      RotateLeft(g, up, Node(gl, g, RotR(s)));
      SetZigZag(g, ch, p);
      InsertDoubleRight(bal0, up, gl, g, s);
    }

    // -------------------------------------------------------------------------
    // Removal
    // -------------------------------------------------------------------------

    /**
     * `remove(key)`: afterwards the tree no longer holds `k` and is still an
     * AVL tree with correct balances; when `k` was absent nothing changes.
     */
    method Remove(k: int)
      requires Valid()
      modifies this
      ensures Valid() && Contents() == old(Contents()) - {k} && nextId == old(nextId)
      ensures k !in old(Contents()) ==>
        t == old(t) && key == old(key) && value == old(value) && balance == old(balance) && Graph() == old(Graph())
        && root == old(root)
      ensures k in old(Contents()) ==> |Ids(t)| + 1 == |old(Ids(t))|
    {
      if root == NIL {
        assert t == Nil;
        assert k !in Contents();
        RemoveMissing(Contents(), k);
        return;
      }
      var z := InternalFind(k);
      if z == NIL {
        RemoveMissing(Contents(), k);
        return;
      }
      RemoveNode(z as nat);
    }

    /**
     * The removal of node `z` in `remove`: a node with two children first
     * exchanges places with its predecessor, the rightmost node of its left
     * subtree, so that it has at most one child when it is unhooked.
     */
    method RemoveNode(z: nat)
      requires Valid() && z in Ids(t)
      modifies this
      ensures Valid() && Ids(t) == old(Ids(t)) - {z} && nextId == old(nextId)
      ensures z in old(key) && Contents() == old(Contents()) - {old(key)[z]}
    {
      ghost var c, s := Locate(t, z);
      ghost var k := key[z];
      LinkedAt(Graph(), root, c, s);
      RootIdNil(s.left);
      RootIdNil(s.right);
      OrderedInjective(key, t);
      if left[z] != NIL && right[z] != NIL {
        RemoveTwoChildren(z, k, c, s);
      } else {
        OrderedSplice(key, c, s);
        Unhook(z, k, c, s);
      }
    }

    /** A node with two children first exchanges places with its predecessor, then is unhooked. */
    method RemoveTwoChildren(z: nat, ghost k: int, ghost c: Ctx, ghost s: Tree)
      requires Valid() && t == Plug(c, s) && s.Node? && s.id == z && s.left.Node? && s.right.Node?
      requires Injective(key, Ids(t)) && z in key && key[z] == k
      modifies this`key, this`value, this`balance, this`left, this`right, this`parent, this`root, this`t
      ensures Valid() && Ids(t) == old(Ids(t)) - {z}
      ensures Contents() == old(Entries(key, value, Ids(t))) - {k}
    {
      var pred, c', s' := SwapWithPredecessor(z, c, s);
      Unhook(z, k, c', s');
    }

    /**
     * The two-children case of `remove`: `z` exchanges places and balances
     * with its predecessor `pred`, the node holding the largest key below
     * `z`'s; afterwards `z` sits where `pred` sat, with no right child, and
     * the tree without `z` is still ordered.
     */
    method SwapWithPredecessor(z: nat, ghost c: Ctx, ghost s: Tree) returns (pred: nat, ghost c': Ctx, ghost s': Tree)
      requires Valid() && t == Plug(c, s) && s.Node? && s.id == z && s.left.Node? && s.right.Node?
      modifies this`balance, this`left, this`right, this`parent, this`root, this`t
      ensures pred in Ids(t) && pred in key && z in key && key[pred] < key[z]
      ensures forall i :: i in Ids(t) ==> i in key && (key[i] < key[z] ==> key[i] <= key[pred])
      ensures t == Rename(old(t), z, pred) && root == Swap(z, pred, old(root))
      ensures old(z in balance && pred in balance) && balance == old(balance)[z := old(balance)[pred]][pred := old(balance)[z]]
      ensures Shaped() && Balanced(balance, t) && Ids(t) == old(Ids(t))
      ensures t == Plug(c', s') && s'.Node? && s'.id == z && s'.right.Nil?
      ensures Ordered(key, Plug(c', s'.left))
    {
      OrderedInjective(key, t);
      PlugIds(c, s);
      assert z in Ids(s);
      var p := Predecessor(z);
      ghost var cl, pl, m := Rightmost(s.left);
      PredecessorBelow(key, c, cl, pl, m, z, s.right);
      assert p == m;
      pred := p as nat;
      ExchangeWithRightmost(z, pred, c, cl, pl, s.right);
      c', s' := Append(cl, InLeft(c, m, s.right)), Node(pl, z, Nil);
    }

    /** `nodeSwap(nodeToRemove, pred)` where `m` is the rightmost node of `z`'s left subtree. */
    method ExchangeWithRightmost(z: nat, m: nat, ghost c: Ctx, ghost cl: Ctx, ghost pl: Tree, ghost r: Tree)
      requires Valid() && RightSpine(cl) && t == Plug(c, Node(Plug(cl, Node(pl, m, Nil)), z, r))
      modifies this`balance, this`left, this`right, this`parent, this`root, this`t
      ensures t == Rename(old(t), z, m) && root == Swap(z, m, old(root))
      ensures old(z in balance && m in balance) && balance == old(balance)[z := old(balance)[m]][m := old(balance)[z]]
      ensures Shaped() && Balanced(balance, t) && Ids(t) == old(Ids(t))
      ensures t == Plug(Append(cl, InLeft(c, m, r)), Node(pl, z, Nil))
      ensures Ordered(key, Plug(Append(cl, InLeft(c, m, r)), pl))
    {
      PlugIds(c, Node(Plug(cl, Node(pl, m, Nil)), z, r));
      PlugIds(cl, Node(pl, m, Nil));
      NodeSwap(z, m);
      SwapWithRightmost(c, cl, pl, m, z, r);
      RemoveTwoChildOrdered(key, c, cl, pl, m, z, r);
    }

    /**
     * The second half of `remove`: node `z`, which has at most one child, is
     * unhooked and freed, and the walk of `removeFix` starts at its parent.
     */
    method Unhook(z: nat, ghost k: int, ghost c: Ctx, ghost s: Tree)
      requires Shaped() && Balanced(balance, t) && t == Plug(c, s) && s.Node? && s.id == z && (s.left.Nil? || s.right.Nil?)
      requires Ordered(key, Plug(c, if s.left.Node? then s.left else s.right)) && Injective(key, Ids(t))
      requires z in key && key[z] == k
      modifies this`key, this`value, this`balance, this`left, this`right, this`parent, this`root, this`t
      ensures Valid() && Ids(t) == old(Ids(t)) - {z}
      ensures Contents() == old(Entries(key, value, Ids(t))) - {k}
    {
      PlugIds(c, s);
      assert z in Ids(s);
      EntriesUnlink(key, value, Ids(t), z);
      var p, diff := Unlink(z, c, s);
      if p != NIL {
        RemoveFix(p as nat, diff, c.up, Lift(c, if s.left.Node? then s.left else s.right));
      }
    }

    /**
     * The link surgery of `remove`: the only child of `z` (or nothing) takes
     * `z`'s place under `z`'s parent, or becomes the root, and `z` is freed.
     * `diff` says which side of the parent lost a level.
     */
    method Unlink(z: nat, ghost c: Ctx, ghost s: Tree) returns (p: int, diff: int)
      requires Shaped() && Balanced(balance, t) && t == Plug(c, s) && s.Node? && s.id == z && (s.left.Nil? || s.right.Nil?)
      requires Ordered(key, Plug(c, if s.left.Node? then s.left else s.right))
      modifies this`key, this`value, this`balance, this`left, this`right, this`parent, this`root, this`t
      ensures SearchTree() && t == Plug(c, if s.left.Node? then s.left else s.right) && Ids(t) == old(Ids(t)) - {z}
      ensures Shrunk(balance, c, if s.left.Node? then s.left else s.right)
      ensures key == old(key) - {z} && value == old(value) - {z} && balance == old(balance) - {z}
      ensures p == ParentId(c) && diff == (if c.InLeft? then 1 else if c.InRight? then -1 else 0)
    {
      LinkedAt(Graph(), root, c, s);
      p := parent[z];
      var child := if left[z] != NIL then left[z] else right[z];
      diff := 0;
      var isLeftChild := false;
      if p != NIL {
        isLeftChild := left[p as nat] == z;
        if isLeftChild {
          diff := 1;
        } else {
          diff := -1;
        }
      }
      ghost var key0, value0, bal0, g0, root0 := key, value, balance, Graph(), root;
      if p == NIL {
        root := child;
        if child != NIL {
          parent := parent[child as nat := NIL];
        }
      } else {
        if isLeftChild {
          left := left[p as nat := child];
        } else {
          right := right[p as nat := child];
        }
        if child != NIL {
          parent := parent[child as nat := p];
        }
      }
      FreeNode(z);
      t := Plug(c, if s.left.Node? then s.left else s.right);
      UnlinkFacts(key0, value0, bal0, g0, root0, nextId, c, s, key, value, balance, Graph(), root, t);
    }

    /** `delete nodeToRemove`: the slot of `z` is freed. */
    method FreeNode(z: nat)
      modifies this`key, this`value, this`balance, this`left, this`right, this`parent
      ensures key == old(key) - {z} && value == old(value) - {z} && balance == old(balance) - {z}
      ensures left == old(left) - {z} && right == old(right) - {z} && parent == old(parent) - {z}
    {
      key, value, balance := key - {z}, value - {z}, balance - {z};
      left, right, parent := left - {z}, right - {z}, parent - {z};
    }

    // -------------------------------------------------------------------------
    // Removal fix-up
    // -------------------------------------------------------------------------

    /**
     * `removeFix(node, diff)`: one subtree of `n` lost a level (`diff` is +1
     * when it was the left one, -1 when the right one). `n`'s balance moves by
     * `diff`; a node that ends level passes the loss on to its parent, one that
     * ends leaning by one absorbs it, and one two levels off is rotated.
     */
    method RemoveFix(n: nat, diff: int, ghost c: Ctx, ghost s: Tree)
      requires SearchTree() && t == Plug(c, s) && s.Node? && s.id == n && RemoveFixState(balance, c, s, diff)
      modifies this`balance, this`left, this`right, this`parent, this`root, this`t
      ensures Valid() && Ids(t) == old(Ids(t))
      decreases Depth(c), 4
    {
      LinkedAt(Graph(), root, c, s);
      var p := parent[n];
      var nextDiff := 0;
      if p != NIL {
        var isLeftChild := left[p as nat] == n;
        nextDiff := if isLeftChild then 1 else -1;
      }
      ghost var bal0 := balance;
      UpdateBalance(n, diff);
      if balance[n] == 0 {
        RemoveFixLevel(bal0, balance, c, s, diff);
        if p != NIL {
          RemoveFix(p as nat, nextDiff, c.up, Lift(c, s));
        }
      } else if balance[n] == 1 || balance[n] == -1 {
        RemoveFixLevel(bal0, balance, c, s, diff);
        return;
      } else if balance[n] == 2 {
        RemoveFixRight(n, p, nextDiff, diff, c, s, bal0);
      } else {
        RemoveFixLeft(n, p, nextDiff, diff, c, s, bal0);
      }
    }

    /**
     * The right half of `removeFix`, once `n` is two levels heavier on the
     * right: a double rotation when its right child leans left, otherwise a
     * single left rotation.
     */
    method RemoveFixRight(n: nat, p: int, nextDiff: int, diff: int, ghost c: Ctx, ghost s: Tree, ghost bal0: map<nat, int>)
      requires SearchTree() && t == Plug(c, s) && s.Node? && s.id == n
      requires RemoveFixState(bal0, c, s, diff) && bal0[n] + diff == 2 && balance == bal0[n := 2]
      requires p == ParentId(c) && nextDiff == (if c.InLeft? then 1 else if c.InRight? then -1 else 0)
      modifies this`balance, this`left, this`right, this`parent, this`root, this`t
      ensures Valid() && Ids(t) == old(Ids(t))
      decreases Depth(c), 3
    {
      LinkedAt(Graph(), root, c, s);
      ChildApart(c, s, s.right.id);
      var rc := right[n] as nat;
      if balance[rc] == -1 {
        RemoveRightLeft(n, rc, p, nextDiff, diff, c, s, bal0);
      } else {
        RemoveSingleLeft(n, rc, p, nextDiff, diff, c, s, bal0);
      }
    }

    /**
     * A left rotation at `n`: if the right child `rc` was level the subtree
     * keeps its height and the walk stops, otherwise both end level and the
     * walk goes on at the parent.
     */
    method RemoveSingleLeft(n: nat, rc: nat, p: int, nextDiff: int, diff: int, ghost c: Ctx, ghost s: Tree,
                            ghost bal0: map<nat, int>)
      requires SearchTree() && t == Plug(c, s) && s.Node? && s.id == n && s.right.Node? && s.right.id == rc
      requires RemoveFixState(bal0, c, s, diff) && bal0[n] + diff == 2 && balance == bal0[n := 2]
      requires rc in bal0 && 0 <= bal0[rc] && rc != n
      requires p == ParentId(c) && nextDiff == (if c.InLeft? then 1 else if c.InRight? then -1 else 0)
      modifies this`balance, this`left, this`right, this`parent, this`root, this`t
      ensures Valid() && Ids(t) == old(Ids(t))
      decreases Depth(c), 1
    {
      assert Distinct(Plug(c, s));
      RotateLeft(n, c, s);
      RemoveSingleLeftBalances(n, rc, p, nextDiff, diff, c, s, bal0);
    }

    /** The balances after the left rotation of `RemoveSingleLeft`, and the rest of the walk. */
    method RemoveSingleLeftBalances(n: nat, rc: nat, p: int, nextDiff: int, diff: int, ghost c: Ctx, ghost s: Tree,
                                    ghost bal0: map<nat, int>)
      requires s.Node? && s.id == n && s.right.Node? && s.right.id == rc && SearchTree() && t == Plug(c, RotL(s))
      requires Distinct(Plug(c, s))
      requires RemoveFixState(bal0, c, s, diff) && bal0[n] + diff == 2 && balance == bal0[n := 2]
      requires rc in bal0 && 0 <= bal0[rc] && rc != n
      requires p == ParentId(c) && nextDiff == (if c.InLeft? then 1 else if c.InRight? then -1 else 0)
      modifies this`balance, this`left, this`right, this`parent, this`root, this`t
      ensures Valid() && Ids(t) == old(Ids(t))
      decreases Depth(c), 0
    {
      if balance[rc] == 0 {
        SetBalance(n, 1);
        SetBalance(rc, -1);
        RemoveFixRotateLeft(bal0, balance, c, s, diff);
        return;
      } else {
        SetBalance(n, 0);
        SetBalance(rc, 0);
        RemoveFixRotateLeft(bal0, balance, c, s, diff);
        if p != NIL {
          RemoveFix(p as nat, nextDiff, c.up, Lift(c, RotL(s)));
        }
      }
    }

    /** Right child `rc` leaning left: first a right rotation at `rc`. */
    method RemoveRightLeft(n: nat, rc: nat, p: int, nextDiff: int, diff: int, ghost c: Ctx, ghost s: Tree,
                           ghost bal0: map<nat, int>)
      requires SearchTree() && t == Plug(c, s) && s.Node? && s.id == n && s.right.Node? && s.right.id == rc
      requires RemoveFixState(bal0, c, s, diff) && bal0[n] + diff == 2 && balance == bal0[n := 2]
      requires rc in bal0 && bal0[rc] == -1
      requires p == ParentId(c) && nextDiff == (if c.InLeft? then 1 else if c.InRight? then -1 else 0)
      modifies this`balance, this`left, this`right, this`parent, this`root, this`t
      ensures Valid() && Ids(t) == old(Ids(t))
      decreases Depth(c), 2
    {
      assert Distinct(Plug(c, s));
      assert Balanced(bal0, s.right);
      RotateRight(rc, InRight(s.left, n, c), s.right);
      RemoveRightLeftFinish(n, rc, p, nextDiff, diff, c, s, bal0);
    }

    /**
     * Then a left rotation at `n` lifts `rc`'s old left child above both; the
     * balances follow that child's lean, and the walk goes on at the parent.
     */
    method RemoveRightLeftFinish(n: nat, rc: nat, p: int, nextDiff: int, diff: int, ghost c: Ctx, ghost s: Tree,
                                 ghost bal0: map<nat, int>)
      requires SearchTree() && s.Node? && s.id == n && s.right.Node? && s.right.id == rc && s.right.left.Node?
      requires t == Plug(c, Node(s.left, n, RotR(s.right))) && Distinct(Plug(c, s))
      requires RemoveFixState(bal0, c, s, diff) && bal0[n] + diff == 2 && balance == bal0[n := 2]
      requires rc in bal0 && bal0[rc] == -1
      requires p == ParentId(c) && nextDiff == (if c.InLeft? then 1 else if c.InRight? then -1 else 0)
      modifies this`balance, this`left, this`right, this`parent, this`root, this`t
      ensures Valid() && Ids(t) == old(Ids(t))
      decreases Depth(c), 1
    {
      ghost var l, a, m, b, t4 := s.left, s.right.left.left, s.right.left.id, s.right.left.right, s.right.right;
      ChildApart(c, s, m);
      ChildApart(c, s, rc);
      ChildApart(InRight(l, n, c), s.right, m);
      BalancedAt(bal0, s.right, m);
      RotateLeft(n, c, Node(l, n, RotR(s.right)));
      RemoveRightLeftBalances(n, rc, p, nextDiff, diff, c, s, bal0);
    }

    /** The balances after the double rotation of `RemoveRightLeft`, and the rest of the walk. */
    method RemoveRightLeftBalances(n: nat, rc: nat, p: int, nextDiff: int, diff: int, ghost c: Ctx, ghost s: Tree,
                                   ghost bal0: map<nat, int>)
      requires SearchTree() && s.Node? && s.id == n && s.right.Node? && s.right.id == rc && s.right.left.Node?
      requires t == Plug(c, RotL(Node(s.left, n, RotR(s.right)))) && Distinct(Plug(c, s))
      requires RemoveFixState(bal0, c, s, diff) && bal0[n] + diff == 2 && balance == bal0[n := 2]
      requires rc in bal0 && bal0[rc] == -1 && s.right.left.id in bal0 && -1 <= bal0[s.right.left.id] <= 1
      requires n != s.right.left.id && rc != s.right.left.id && n != rc
      requires p == ParentId(c) && nextDiff == (if c.InLeft? then 1 else if c.InRight? then -1 else 0)
      modifies this`balance, this`left, this`right, this`parent, this`root, this`t
      ensures Valid() && Ids(t) == old(Ids(t))
      decreases Depth(c), 0
    {
      ghost var l, a, m, b, t4 := s.left, s.right.left.left, s.right.left.id, s.right.left.right, s.right.right;
      assert RotL(Node(l, n, RotR(s.right))) == Node(Node(l, n, a), m, Node(b, rc, t4));
      LinkedAt(Graph(), root, InLeft(c, m, Node(b, rc, t4)), Node(l, n, a));
      var newTop := parent[n] as nat;
      SetZigZag(n, newTop, rc);
      RemoveFixRotateRightLeft(bal0, balance, c, s, diff);
      if p != NIL {
        RemoveFix(p as nat, nextDiff, c.up, Lift(c, RotL(Node(l, n, RotR(s.right)))));
      }
    }

    /** The mirror image of `RemoveFixRight`, once `n` is two levels heavier on the left. */
    method RemoveFixLeft(n: nat, p: int, nextDiff: int, diff: int, ghost c: Ctx, ghost s: Tree, ghost bal0: map<nat, int>)
      requires SearchTree() && t == Plug(c, s) && s.Node? && s.id == n
      requires RemoveFixState(bal0, c, s, diff) && bal0[n] + diff == -2 && balance == bal0[n := -2]
      requires p == ParentId(c) && nextDiff == (if c.InLeft? then 1 else if c.InRight? then -1 else 0)
      modifies this`balance, this`left, this`right, this`parent, this`root, this`t
      ensures Valid() && Ids(t) == old(Ids(t))
      decreases Depth(c), 3
    {
      LinkedAt(Graph(), root, c, s);
      ChildApart(c, s, s.left.id);
      var lc := left[n] as nat;
      if balance[lc] == 1 {
        RemoveLeftRight(n, lc, p, nextDiff, diff, c, s, bal0);
      } else {
        RemoveSingleRight(n, lc, p, nextDiff, diff, c, s, bal0);
      }
    }

    /** The mirror image of `RemoveSingleLeft`: a right rotation at `n`. */
    method RemoveSingleRight(n: nat, lc: nat, p: int, nextDiff: int, diff: int, ghost c: Ctx, ghost s: Tree,
                             ghost bal0: map<nat, int>)
      requires SearchTree() && t == Plug(c, s) && s.Node? && s.id == n && s.left.Node? && s.left.id == lc
      requires RemoveFixState(bal0, c, s, diff) && bal0[n] + diff == -2 && balance == bal0[n := -2]
      requires lc in bal0 && bal0[lc] <= 0 && lc != n
      requires p == ParentId(c) && nextDiff == (if c.InLeft? then 1 else if c.InRight? then -1 else 0)
      modifies this`balance, this`left, this`right, this`parent, this`root, this`t
      ensures Valid() && Ids(t) == old(Ids(t))
      decreases Depth(c), 1
    {
      assert Distinct(Plug(c, s));
      RotateRight(n, c, s);
      RemoveSingleRightBalances(n, lc, p, nextDiff, diff, c, s, bal0);
    }

    /** The balances after the right rotation of `RemoveSingleRight`, and the rest of the walk. */
    method RemoveSingleRightBalances(n: nat, lc: nat, p: int, nextDiff: int, diff: int, ghost c: Ctx, ghost s: Tree,
                                     ghost bal0: map<nat, int>)
      requires s.Node? && s.id == n && s.left.Node? && s.left.id == lc && SearchTree() && t == Plug(c, RotR(s))
      requires Distinct(Plug(c, s))
      requires RemoveFixState(bal0, c, s, diff) && bal0[n] + diff == -2 && balance == bal0[n := -2]
      requires lc in bal0 && bal0[lc] <= 0 && lc != n
      requires p == ParentId(c) && nextDiff == (if c.InLeft? then 1 else if c.InRight? then -1 else 0)
      modifies this`balance, this`left, this`right, this`parent, this`root, this`t
      ensures Valid() && Ids(t) == old(Ids(t))
      decreases Depth(c), 0
    {
      if balance[lc] == 0 {
        SetBalance(n, -1);
        SetBalance(lc, 1);
        RemoveFixRotateRight(bal0, balance, c, s, diff);
        return;
      } else {
        SetBalance(n, 0);
        SetBalance(lc, 0);
        RemoveFixRotateRight(bal0, balance, c, s, diff);
        if p != NIL {
          RemoveFix(p as nat, nextDiff, c.up, Lift(c, RotR(s)));
        }
      }
    }

    /** Left child `lc` leaning right: first a left rotation at `lc`. */
    method RemoveLeftRight(n: nat, lc: nat, p: int, nextDiff: int, diff: int, ghost c: Ctx, ghost s: Tree,
                           ghost bal0: map<nat, int>)
      requires SearchTree() && t == Plug(c, s) && s.Node? && s.id == n && s.left.Node? && s.left.id == lc
      requires RemoveFixState(bal0, c, s, diff) && bal0[n] + diff == -2 && balance == bal0[n := -2]
      requires lc in bal0 && bal0[lc] == 1
      requires p == ParentId(c) && nextDiff == (if c.InLeft? then 1 else if c.InRight? then -1 else 0)
      modifies this`balance, this`left, this`right, this`parent, this`root, this`t
      ensures Valid() && Ids(t) == old(Ids(t))
      decreases Depth(c), 2
    {
      assert Distinct(Plug(c, s));
      assert Balanced(bal0, s.left);
      RotateLeft(lc, InLeft(c, n, s.right), s.left);
      RemoveLeftRightFinish(n, lc, p, nextDiff, diff, c, s, bal0);
    }

    /** Then a right rotation at `n` lifts `lc`'s old right child above both. */
    method RemoveLeftRightFinish(n: nat, lc: nat, p: int, nextDiff: int, diff: int, ghost c: Ctx, ghost s: Tree,
                                 ghost bal0: map<nat, int>)
      requires SearchTree() && s.Node? && s.id == n && s.left.Node? && s.left.id == lc && s.left.right.Node?
      requires t == Plug(c, Node(RotL(s.left), n, s.right)) && Distinct(Plug(c, s))
      requires RemoveFixState(bal0, c, s, diff) && bal0[n] + diff == -2 && balance == bal0[n := -2]
      requires lc in bal0 && bal0[lc] == 1
      requires p == ParentId(c) && nextDiff == (if c.InLeft? then 1 else if c.InRight? then -1 else 0)
      modifies this`balance, this`left, this`right, this`parent, this`root, this`t
      ensures Valid() && Ids(t) == old(Ids(t))
      decreases Depth(c), 1
    {
      ghost var t1, a, m, b, r := s.left.left, s.left.right.left, s.left.right.id, s.left.right.right, s.right;
      ChildApart(c, s, m);
      ChildApart(c, s, lc);
      ChildApart(InLeft(c, n, r), s.left, m);
      BalancedAt(bal0, s.left, m);
      RotateRight(n, c, Node(RotL(s.left), n, r));
      RemoveLeftRightBalances(n, lc, p, nextDiff, diff, c, s, bal0);
    }

    /** The balances after the double rotation of `RemoveLeftRight`, and the rest of the walk. */
    method RemoveLeftRightBalances(n: nat, lc: nat, p: int, nextDiff: int, diff: int, ghost c: Ctx, ghost s: Tree,
                                   ghost bal0: map<nat, int>)
      requires SearchTree() && s.Node? && s.id == n && s.left.Node? && s.left.id == lc && s.left.right.Node?
      requires t == Plug(c, RotR(Node(RotL(s.left), n, s.right))) && Distinct(Plug(c, s))
      requires RemoveFixState(bal0, c, s, diff) && bal0[n] + diff == -2 && balance == bal0[n := -2]
      requires lc in bal0 && bal0[lc] == 1 && s.left.right.id in bal0 && -1 <= bal0[s.left.right.id] <= 1
      requires n != s.left.right.id && lc != s.left.right.id && n != lc
      requires p == ParentId(c) && nextDiff == (if c.InLeft? then 1 else if c.InRight? then -1 else 0)
      modifies this`balance, this`left, this`right, this`parent, this`root, this`t
      ensures Valid() && Ids(t) == old(Ids(t))
      decreases Depth(c), 0
    {
      ghost var t1, a, m, b, r := s.left.left, s.left.right.left, s.left.right.id, s.left.right.right, s.right;
      assert RotR(Node(RotL(s.left), n, r)) == Node(Node(t1, lc, a), m, Node(b, n, r));
      LinkedAt(Graph(), root, InRight(Node(t1, lc, a), m, c), Node(b, n, r));
      var newTop := parent[n] as nat;
      SetZigZag(lc, newTop, n);
      RemoveFixRotateLeftRight(bal0, balance, c, s, diff);
      if p != NIL {
        RemoveFix(p as nat, nextDiff, c.up, Lift(c, RotR(Node(RotL(s.left), n, r))));
      }
    }
    // -------------------------------------------------------------------------
    // Exchanging two nodes
    // -------------------------------------------------------------------------

    /**
     * `nodeSwap(n1, n2)`: the two nodes exchange their places in the tree
     * and then their balances, so that each position keeps its balance and
     * the balances stay correct.
     */
    method NodeSwap(a: nat, b: nat)
      requires Shaped() && Balanced(balance, t) && a in Ids(t) && b in Ids(t)
      modifies this`balance, this`left, this`right, this`parent, this`root, this`t
      ensures Shaped() && t == Rename(old(t), a, b) && Ids(t) == old(Ids(t))
      ensures RenamedLinks(old(Graph()), Graph(), a, b)
      ensures root == Swap(a, b, old(root))
      ensures old(a in balance && b in balance) && balance == old(balance)[a := old(balance)[b]][b := old(balance)[a]]
      ensures Balanced(balance, t)
    {
      BalancedAt(balance, t, a);
      BalancedAt(balance, t, b);
      ghost var bal0, t0 := balance, t;
      BaseNodeSwap(a, b);
      var tempB := balance[a];
      SetBalance(a, balance[b]);
      SetBalance(b, tempB);
      RenameBalanced(bal0, t0, a, b);
    }

    /**
     * The base tree's `nodeSwap(n1, n2)`: `a` and `b` exchange their places,
     * each taking over the other's parent, children and root pointer, and
     * each keeping its own key, value and balance.
     */
    method BaseNodeSwap(a: nat, b: nat)
      requires Shaped() && a in Ids(t) && b in Ids(t)
      modifies this`left, this`right, this`parent, this`root, this`t
      ensures Shaped() && t == Rename(old(t), a, b) && Ids(t) == old(Ids(t))
      ensures RenamedLinks(old(Graph()), Graph(), a, b)
      ensures root == Swap(a, b, old(root))
    {
      SwapFacts(key, value, Graph(), root, nextId, t, a, b);
      var l := RenameSlots(left, a, b);
      var r := RenameSlots(right, a, b);
      var p := RenameSlots(parent, a, b);
      left, right, parent := l, r, p;
      root := Swap(a, b, root);
      t := Rename(t, a, b);
    }
  }

  /** What `rotateLeft` reads from the links before it rewires them. */
  lemma RotLFacts(g: Links, root: int, c: Ctx, s: Tree)
    requires Linked(g, root, Plug(c, s)) && Distinct(Plug(c, s)) && s.Node? && s.right.Node?
    ensures Has(g, s.id) && Has(g, s.right.id) && g.right[s.id] == s.right.id && g.parent[s.id] == ParentId(c)
    ensures g.left[s.right.id] == RootId(s.right.left) && (s.right.left.Node? ==> Has(g, s.right.left.id))
    ensures !c.Top? ==> Has(g, c.id) && (g.right[c.id] == s.id <==> c.InRight?)
    ensures s.id != s.right.id && (!c.Top? ==> c.id != s.right.id)
  {
    ChildApart(c, s, s.right.id);
    LinkedAt(g, root, c, s);
    LinkedAt(g, root, InRight(s.left, s.id, c), s.right);
    if s.right.left.Node? {
      LinkedAt(g, root, InLeft(InRight(s.left, s.id, c), s.right.id, s.right.right), s.right.left);
    }
  }

  /** What `rotateRight` reads from the links before it rewires them. */
  lemma RotRFacts(g: Links, root: int, c: Ctx, s: Tree)
    requires Linked(g, root, Plug(c, s)) && Distinct(Plug(c, s)) && s.Node? && s.left.Node?
    ensures Has(g, s.id) && Has(g, s.left.id) && g.left[s.id] == s.left.id && g.parent[s.id] == ParentId(c)
    ensures g.right[s.left.id] == RootId(s.left.right) && (s.left.right.Node? ==> Has(g, s.left.right.id))
    ensures !c.Top? ==> Has(g, c.id) && (g.right[c.id] == s.id <==> c.InRight?)
    ensures s.id != s.left.id && (!c.Top? ==> c.id != s.left.id)
  {
    ChildApart(c, s, s.left.id);
    LinkedAt(g, root, c, s);
    LinkedAt(g, root, InLeft(c, s.id, s.right), s.left);
    if s.left.right.Node? {
      LinkedAt(g, root, InRight(s.left.left, s.left.id, InLeft(c, s.id, s.right)), s.left.right);
    }
  }

  /** The two children of a node are different nodes. */
  lemma ChildrenApart(c: Ctx, s: Tree)
    requires Distinct(Plug(c, s)) && s.Node?
    ensures s.right.Node? ==> RootId(s.left) != s.right.id
    ensures s.left.Node? ==> RootId(s.right) != s.left.id
  {
    PlugDistinct(c, s);
    assert s.left.Node? ==> s.left.id in Ids(s.left);
    assert s.right.Node? ==> s.right.id in Ids(s.right);
  }

  /** A node below the focus is neither the focus nor the focus's parent. */
  lemma ChildApart(c: Ctx, s: Tree, n: nat)
    requires Distinct(Plug(c, s)) && s.Node? && n in Ids(s.left) + Ids(s.right)
    ensures n != s.id && (!c.Top? ==> n != c.id)
  {
    PlugDistinct(c, s);
    if !c.Top? {
      assert c.id in CtxIds(c);
    }
  }

  /**
   * The links after `rotateLeft(x)`, update by update, and the new root: `x`
   * becomes the left child of its old right child `y`, and only the links of
   * `x`, `y`, their old parent and the subtree that moves across change.
   */
  function RotateLeftLinks(g: Links, root: int, x: nat): (r: (Links, int))
    requires Has(g, x) && g.right[x] >= 0 && Has(g, g.right[x] as nat)
    requires g.parent[x] != NIL ==> g.parent[x] >= 0 && Has(g, g.parent[x] as nat)
    ensures var y := g.right[x] as nat; y in r.0.left && r.0.left[y] == x && x in r.0.right
    ensures r.1 == (if g.parent[x] == NIL then g.right[x] else root)
    ensures forall i :: i in g.left && i != g.right[x] && i != g.parent[x] ==> i in r.0.left && r.0.left[i] == g.left[i]
    ensures forall i :: i in g.right && i != x && i != g.parent[x] ==> i in r.0.right && r.0.right[i] == g.right[i]
    ensures forall i :: i in g.parent && i != x && i != g.right[x] && i != r.0.right[x] ==> i in r.0.parent && r.0.parent[i] == g.parent[i]
  {
    var y := g.right[x] as nat;
    var rootParent := g.parent[x];
    var p1 := g.parent[y := rootParent];
    var root1 := if rootParent == NIL then y else root;
    var r1 := if rootParent != NIL && g.right[rootParent as nat] == x then g.right[rootParent as nat := y] else g.right;
    var l1 := if rootParent != NIL && g.right[rootParent as nat] != x then g.left[rootParent as nat := y] else g.left;
    var cc := l1[y];
    var p2 := p1[x := y];
    (Links(l1[y := x], r1[x := cc], if cc >= 0 then p2[cc as nat := x] else p2), root1)
  }

  /** The links after `rotateRight(x)`: the mirror image of `RotateLeftLinks`. */
  function RotateRightLinks(g: Links, root: int, x: nat): (r: (Links, int))
    requires Has(g, x) && g.left[x] >= 0 && Has(g, g.left[x] as nat)
    requires g.parent[x] != NIL ==> g.parent[x] >= 0 && Has(g, g.parent[x] as nat)
    ensures var y := g.left[x] as nat; y in r.0.right && r.0.right[y] == x && x in r.0.left
    ensures r.1 == (if g.parent[x] == NIL then g.left[x] else root)
    ensures forall i :: i in g.left && i != x && i != g.parent[x] ==> i in r.0.left && r.0.left[i] == g.left[i]
    ensures forall i :: i in g.right && i != g.left[x] && i != g.parent[x] ==> i in r.0.right && r.0.right[i] == g.right[i]
    ensures forall i :: i in g.parent && i != x && i != g.left[x] && i != r.0.left[x] ==> i in r.0.parent && r.0.parent[i] == g.parent[i]
  {
    var y := g.left[x] as nat;
    var rootParent := g.parent[x];
    var p1 := g.parent[y := rootParent];
    var root1 := if rootParent == NIL then y else root;
    var r1 := if rootParent != NIL && g.right[rootParent as nat] == x then g.right[rootParent as nat := y] else g.right;
    var l1 := if rootParent != NIL && g.right[rootParent as nat] != x then g.left[rootParent as nat := y] else g.left;
    var cc := r1[y];
    var p2 := p1[x := y];
    (Links(l1[x := cc], r1[y := x], if cc >= 0 then p2[cc as nat := x] else p2), root1)
  }

  /** The links `rotateLeft` leaves behind describe the rotated tree, in the same search order. */
  lemma RotatedLeft<V>(key: map<nat, int>, value: map<nat, V>, g: Links, root: int, nextId: nat, c: Ctx, s: Tree,
                        g': Links, root': int)
    requires Arena(key, value, g, root, nextId, Plug(c, s)) && s.Node? && s.right.Node?
    requires Has(g, s.id) && g.right[s.id] >= 0 && Has(g, g.right[s.id] as nat)
    requires g.parent[s.id] != NIL ==> g.parent[s.id] >= 0 && Has(g, g.parent[s.id] as nat)
    requires (g', root') == RotateLeftLinks(g, root, s.id)
    ensures Arena(key, value, g', root', nextId, Plug(c, RotL(s))) && Ids(Plug(c, RotL(s))) == Ids(Plug(c, s))
    ensures Ordered(key, Plug(c, s)) ==> Ordered(key, Plug(c, RotL(s)))
  {
    RotLFacts(g, root, c, s);
    RotLPlug(c, s);
    LinkedRotL(g, root, c, s);
    assert (g', root') == (RotLLinks(g, c, s), if c.Top? then s.right.id else root);
    if Ordered(key, Plug(c, s)) {
      OrderedRotL(key, c, s);
    }
  }

  /** The links `rotateRight` leaves behind describe the rotated tree, in the same search order. */
  lemma RotatedRight<V>(key: map<nat, int>, value: map<nat, V>, g: Links, root: int, nextId: nat, c: Ctx, s: Tree,
                        g': Links, root': int)
    requires Arena(key, value, g, root, nextId, Plug(c, s)) && s.Node? && s.left.Node?
    requires Has(g, s.id) && g.left[s.id] >= 0 && Has(g, g.left[s.id] as nat)
    requires g.parent[s.id] != NIL ==> g.parent[s.id] >= 0 && Has(g, g.parent[s.id] as nat)
    requires (g', root') == RotateRightLinks(g, root, s.id)
    ensures Arena(key, value, g', root', nextId, Plug(c, RotR(s))) && Ids(Plug(c, RotR(s))) == Ids(Plug(c, s))
    ensures Ordered(key, Plug(c, s)) ==> Ordered(key, Plug(c, RotR(s)))
  {
    RotRFacts(g, root, c, s);
    RotRPlug(c, s);
    LinkedRotR(g, root, c, s);
    assert (g', root') == (RotRLinks(g, c, s), if c.Top? then s.left.id else root);
    if Ordered(key, Plug(c, s)) {
      OrderedRotR(key, c, s);
    }
  }

  lemma OrderedRotL(key: map<nat, int>, c: Ctx, s: Tree)
    requires s.Node? && s.right.Node? && Ordered(key, Plug(c, s))
    ensures Ordered(key, Plug(c, RotL(s)))
  {
    PlugOrderedSplit(key, c, s);
    RotLOrdered(key, s);
    RotLProps(s);
    OrderedReplace(key, c, s, RotL(s));
  }

  lemma OrderedRotR(key: map<nat, int>, c: Ctx, s: Tree)
    requires s.Node? && s.left.Node? && Ordered(key, Plug(c, s))
    ensures Ordered(key, Plug(c, RotR(s)))
  {
    PlugOrderedSplit(key, c, s);
    RotROrdered(key, s);
    RotRProps(s);
    OrderedReplace(key, c, s, RotR(s));
  }
}
