/** The steps of the insertion and deletion loops (rtl/avlsupp.c:206-393), as facts about
    record snapshots: what one turn of each loop does to the subtree below the current
    record and to the context above it. */
module AvlClimb {
  import opened AvlShape
  import opened AvlSupport

  /** The subtree one level further up the context. */
  ghost function Lifted(c: Ctx, t: Tree): Tree
    requires !c.Top?
  {
    if c.InLeft? then Node(c.n, t, c.r) else Node(c.n, c.l, t)
  }

  /** The side of its parent on which the hole is: the sentinel's only child is on the right. */
  ghost function Side(c: Ctx): int {
    if c.InLeft? then -1 else 1
  }

  ghost function Sibling(c: Ctx): Tree
    requires !c.Top?
  {
    if c.InLeft? then c.r else c.l
  }

  /** RtlIsLeftChildAvl tells on which side of its parent a placed subtree hangs. */
  lemma SideOfRoot(m: Mem, c: Ctx, t: Tree, s: Links)
    requires Placed(m, t, c, s) && t.Node?
    ensures t.n in m && m[t.n].parent == CtxNode(c, s) && m[t.n].parent in m
    ensures (m[m[t.n].parent].left == t.n) <==> c.InLeft?
    ensures (m[m[t.n].parent].right == t.n) <==> !c.InLeft?
  {
    assert c.InRight? && c.l.Node? ==> c.l.n in Nodes(c.l);
    assert c.InLeft? && c.r.Node? ==> c.r.n in Nodes(c.r);
  }

  lemma Ascend(m: Mem, c: Ctx, t: Tree, s: Links)
    requires Placed(m, t, c, s) && !c.Top?
    ensures Placed(m, Lifted(c, t), c.up, s)
    ensures c.n in m && c.n != s
  {
    assert Plug(c, t) == Plug(c.up, Lifted(c, t));
    PlugPlaced(m, c, t, s);
    PlugPlaced(m, c.up, Lifted(c, t), s);
  }

  /** The subtree below the hole is balanced and the context fits a hole of height h. */
  ghost predicate Climbing(m: Mem, c: Ctx, t: Tree, s: Links, h: int) {
    Placed(m, t, c, s) && Balanced(m, t) && CtxBalanced(m, c, h)
  }

  lemma AbsorbBalanced(m: Mem, m': Mem, c: Ctx, t: Tree, h: int, b: int)
    requires Balanced(m, t) && CtxBalanced(m, c, h) && !c.Top?
    requires c.n !in Nodes(t) && c.n !in Nodes(Sibling(c)) && c.n !in CtxNodes(c.up)
    requires c.n in m && m' == WithBalance(m, c.n, b)
    requires b == (if c.InLeft? then H(c.r) - H(t) else H(t) - H(c.l)) && -1 <= b <= 1
    ensures Balanced(m', t) && Balanced(m', Sibling(c)) && CtxBalanced(m', c.up, 1 + Max(h, H(Sibling(c))))
  {
    OthersKept(m, m', c.n, Nodes(t) + Nodes(Sibling(c)) + CtxNodes(c.up));
    BalancedFrame(m, m', t);
    BalancedFrame(m, m', Sibling(c));
    AboveBalanced(m, c, h);
    CtxBalancedFrame(m, m', c.up, 1 + Max(h, H(Sibling(c))));
  }

  lemma OthersKept(m: Mem, m': Mem, n: Links, nodes: set<Links>)
    requires n in m && m'.Keys == m.Keys && n !in nodes && forall x :: x in m && x != n ==>
              m'[x].balance == m[x].balance
    ensures SameBalances(m, m', nodes)
  {
  }

  lemma AboveBalanced(m: Mem, c: Ctx, h: int)
    requires CtxBalanced(m, c, h) && !c.Top?
    ensures Balanced(m, Sibling(c)) && CtxBalanced(m, c.up, 1 + Max(h, H(Sibling(c))))
  {
  }

  /** Rewriting the balance of the record above the hole: the subtree grows by that record. */
  lemma Absorb(m: Mem, m': Mem, c: Ctx, t: Tree, s: Links, h: int, b: int)
    requires Climbing(m, c, t, s, h) && !c.Top?
    requires c.n in m && m' == WithBalance(m, c.n, b)
    requires b == (if c.InLeft? then H(c.r) - H(t) else H(t) - H(c.l)) && -1 <= b <= 1
    ensures Placed(m', Lifted(c, t), c.up, s) && Balanced(m', Lifted(c, t))
    ensures CtxBalanced(m', c.up, 1 + Max(h, H(Sibling(c))))
    ensures H(Lifted(c, t)) == 1 + Max(H(t), H(Sibling(c)))
  {
    Ascend(m, c, t, s);
    PlacedFrame(m, m', Lifted(c, t), c.up, s);
    AbsorbBalanced(m, m', c, t, h, b);
  }

  /** Rebalancing at the record above the hole, when the subtree below tilted it. */
  lemma Restructure(m: Mem, m': Mem, c: Ctx, t: Tree, s: Links, h: int, u: int) returns (t': Tree)
    requires Climbing(m, c, t, s, h) && !c.Top? && u == 1 + Max(h, H(Sibling(c)))
    requires c.n in m && Tilted(m, c.n, Lifted(c, t).l, Lifted(c, t).r)
    requires CanRebalance(m, c.n) ==> m' == Rebalanced(m, c.n)
    ensures CanRebalance(m, c.n) && m' == Rebalanced(m, c.n)
    ensures HeavyChild(m, c.n) == Heavy(m, c.n, Lifted(c, t).l, Lifted(c, t).r).n
    ensures t'.Node? && InOrder(t') == InOrder(Lifted(c, t)) && Nodes(t') == Nodes(Lifted(c, t))
    ensures Climbing(m', c.up, t', s, u)
    ensures
      var heavy := Heavy(m, c.n, Lifted(c, t).l, Lifted(c, t).r);
      && heavy.n in m
      && H(t') == H(heavy) + (if m[heavy.n].balance == 0 then 1 else 0)
      && (m[heavy.n].balance != 0 ==> c.n in m' && m'[c.n].parent == t'.n)
    ensures s in m' && m'[s].balance == m[s].balance
  {
    var l, r := Lifted(c, t).l, Lifted(c, t).r;
    Ascend(m, c, t, s);
    t' := RebalancedPlaced(m, c.n, l, r, c.up, s);
    AboveUntouched(m, m', c.up, t', u, s);
  }

  lemma AboveUntouched(m: Mem, m': Mem, up: Ctx, t: Tree, h: int, s: Links)
    requires CtxBalanced(m, up, h) && Placed(m', t, up, s) && SameBalances(m, m', m.Keys - Nodes(t))
    ensures CtxBalanced(m', up, h)
  {
    CtxBalancedFrame(m, m', up, h);
  }

  /** Once the height below the hole is the one the context expects, the whole is balanced. */
  lemma Whole(m: Mem, c: Ctx, t: Tree, s: Links)
    requires Climbing(m, c, t, s, H(t)) || (c.Top? && Placed(m, t, c, s) && Balanced(m, t))
    ensures Placed(m, Plug(c, t), Top, s) && Balanced(m, Plug(c, t)) && H(Plug(c, t)) == CtxH(c, H(t))
  {
    PlugPlaced(m, c, t, s);
    PlugBalanced(m, c, t);
    PlugHeight(c, t);
  }

  // ----- insertion: the subtree below the hole has grown by one level

  ghost predicate Grown(m: Mem, c: Ctx, t: Tree, s: Links, h: int) {
    && Climbing(m, c, t, s, h) && H(t) == h + 1 && t.Node? && t.n in m
    && (h > 0 ==> m[t.n].balance != 0)
    && s in m && m[s].balance == -1
  }

  /** The height a subtree of height h stands for, one level further up. */
  ghost function UpHeight(c: Ctx, h: int): int
    requires !c.Top?
  {
    1 + Max(h, H(Sibling(c)))
  }

  lemma UpSame(c: Ctx, t: Tree, h: int)
    requires !c.Top?
    ensures Plug(c.up, Lifted(c, t)) == Plug(c, t) && CtxH(c.up, UpHeight(c, h)) == CtxH(c, h)
  {
  }

  /** A balanced parent now leans towards the grown side, and has grown itself. */
  lemma GrowthPasses(m: Mem, m': Mem, c: Ctx, t: Tree, s: Links, h: int)
    requires Grown(m, c, t, s, h) && !c.Top? && c.n in m && m[c.n].balance == 0
    requires m' == WithBalance(m, c.n, Side(c))
    ensures Grown(m', c.up, Lifted(c, t), s, h + 1) && UpHeight(c, h) == h + 1
  {
    Absorb(m, m', c, t, s, h, Side(c));
  }

  /** A parent leaning towards the grown side is restructured and keeps its height. */
  lemma GrowthRestructured(m: Mem, m': Mem, c: Ctx, t: Tree, s: Links, h: int) returns (t': Tree)
    requires Grown(m, c, t, s, h) && !c.Top? && c.n in m && m[c.n].balance == Side(c)
    requires CanRebalance(m, c.n) ==> m' == Rebalanced(m, c.n)
    ensures CanRebalance(m, c.n)
    ensures Climbing(m', c.up, t', s, UpHeight(c, h)) && H(t') == UpHeight(c, h)
    ensures InOrder(t') == InOrder(Lifted(c, t)) && Nodes(t') == Nodes(Lifted(c, t))
  {
    assert h > 0;
    t' := Restructure(m, m', c, t, s, h, UpHeight(c, h));
  }

  /** What the loop reads: the side of the grown subtree and the balance above it. */
  lemma GrownView(m: Mem, c: Ctx, t: Tree, s: Links, h: int)
    requires Grown(m, c, t, s, h)
    ensures t.Node? && t.n in m && s in m && m[s].balance == -1
    ensures m[t.n].parent == CtxNode(c, s) && CtxNode(c, s) in m
    ensures (m[CtxNode(c, s)].left == t.n) <==> c.InLeft?
    ensures !c.Top? ==>
              && c.n != s && m[c.n].parent == CtxNode(c.up, s) && m[c.n].balance in {-1, 0, 1}
              && (m[c.n].balance == Side(c) ==> CanRebalance(m, c.n))
    ensures CtxNode(c, s) == s <==> c.Top?
    ensures Placed(m, t, c, s) && Balanced(m, t) && H(t) == h + 1
  {
    SideOfRoot(m, c, t, s);
    if !c.Top? && m[c.n].balance == Side(c) {
      var m' := if CanRebalance(m, c.n) then Rebalanced(m, c.n) else m;
      var t' := GrowthRestructured(m, m', c, t, s, h);
    }
  }

  /** Replacing a subtree by one with the same records in the same order. */
  lemma PlugSame(c: Ctx, t: Tree, t': Tree)
    requires InOrder(t) == InOrder(t') && Nodes(t) == Nodes(t')
    ensures InOrder(Plug(c, t)) == InOrder(Plug(c, t')) && Nodes(Plug(c, t)) == Nodes(Plug(c, t'))
  {
    PlugInOrder(c, t);
    PlugInOrder(c, t');
    PlugNodes(c, t);
    PlugNodes(c, t');
  }

  /** The whole table after a loop has ended: same records in the same order. */
  ghost predicate Finished(m: Mem, tree: Tree, s: Links, depth: int, order: seq<Links>, nodes: set<Links>) {
    && Placed(m, tree, Top, s) && Balanced(m, tree) && H(tree) == depth
    && InOrder(tree) == order && Nodes(tree) == nodes
  }

  lemma SentinelBalance(m: Mem, m': Mem, c: Ctx, t: Tree, s: Links, h: int, b: int)
    requires Climbing(m, c, t, s, h) && m' == WithBalance(m, s, b)
    ensures Climbing(m', c, t, s, h)
  {
    PlacedFrame(m, m', t, c, s);
    BalancedFrame(m, m', t);
    CtxBalancedFrame(m, m', c, h);
  }

  /** A parent leaning the other way becomes balanced; at the sentinel the tree has grown. */
  lemma GrowthEnds(m: Mem, m': Mem, c: Ctx, t: Tree, s: Links, h: int)
    requires Grown(m, c, t, s, h) && CtxNode(c, s) in m && m[CtxNode(c, s)].balance == -Side(c)
    requires m' == WithBalance(m, CtxNode(c, s), 0)
    ensures s in m' && (m'[s].balance == 0 <==> c.Top?)
    ensures Finished(m', Plug(c, t), s, CtxH(c, h) + (if c.Top? then 1 else 0),
                     InOrder(Plug(c, t)), Nodes(Plug(c, t)))
  {
    if c.Top? {
      SentinelBalance(m, m', c, t, s, h, 0);
    } else {
      Absorb(m, m', c, t, s, h, 0);
      UpSame(c, t, h);
      Whole(m', c.up, Lifted(c, t), s);
    }
  }

  /** A parent leaning towards the grown side is restructured, and the height is as before. */
  lemma GrowthTurned(m: Mem, m': Mem, c: Ctx, t: Tree, s: Links, h: int) returns (tree: Tree)
    requires Grown(m, c, t, s, h) && !c.Top? && c.n in m && m[c.n].balance == Side(c)
    requires CanRebalance(m, c.n) && m' == Rebalanced(m, c.n)
    ensures Finished(m', tree, s, CtxH(c, h), InOrder(Plug(c, t)), Nodes(Plug(c, t)))
  {
    var t' := GrowthRestructured(m, m', c, t, s, h);
    UpSame(c, t, h);
    PlugSame(c.up, Lifted(c, t), t');
    Whole(m', c.up, t', s);
    tree := Plug(c.up, t');
  }

  // ----- deletion: the subtree below the hole has shrunk by one level

  ghost predicate Shrunk(m: Mem, c: Ctx, t: Tree, s: Links, h: int) {
    Climbing(m, c, t, s, h) && H(t) == h - 1 && s in m && m[s].balance == 0
  }

  lemma ShrunkView(m: Mem, c: Ctx, t: Tree, s: Links, h: int)
    requires Shrunk(m, c, t, s, h)
    ensures s in m && CtxNode(c, s) in m && (CtxNode(c, s) == s <==> c.Top?)
    ensures !c.Top? ==> m[c.n].balance in {-1, 0, 1} && m[c.n].parent == CtxNode(c.up, s)
    ensures c.Top? ==> m[s].balance == 0
    ensures !c.Top? && m[c.n].balance == -Side(c) ==> CanRebalance(m, c.n)
    ensures !c.Top? && m[c.n].balance == -Side(c) ==>
              HeavyChild(m, c.n) != null && HeavyChild(m, c.n) in m && m[HeavyChild(m, c.n)].balance in {-1, 0, 1}
  {
    if !c.Top? && m[c.n].balance == -Side(c) {
      ShrunkTilts(m, c, t, s, h);
      var m' := if CanRebalance(m, c.n) then Rebalanced(m, c.n) else m;
      var t' := Restructure(m, m', c, t, s, h, UpHeight(c, h));
      assert Balanced(m, Sibling(c));
    }
  }

  /** A parent leaning towards the shrunk side becomes balanced and has shrunk itself. */
  lemma ShrinkPasses(m: Mem, m': Mem, c: Ctx, t: Tree, s: Links, h: int)
    requires Shrunk(m, c, t, s, h) && !c.Top? && c.n in m && m[c.n].balance == Side(c)
    requires m' == WithBalance(m, c.n, 0)
    ensures Shrunk(m', c.up, Lifted(c, t), s, UpHeight(c, h)) && Lifted(c, t).n == c.n
  {
    Absorb(m, m', c, t, s, h, 0);
  }

  /** A balanced parent now leans away and keeps its height; at the sentinel the tree has shrunk. */
  lemma ShrinkEnds(m: Mem, m': Mem, c: Ctx, t: Tree, s: Links, h: int)
    requires Shrunk(m, c, t, s, h) && CtxNode(c, s) in m && m[CtxNode(c, s)].balance == 0
    requires m' == WithBalance(m, CtxNode(c, s), -Side(c))
    ensures s in m' && (m'[s].balance != 0 <==> c.Top?)
    ensures Finished(m', Plug(c, t), s, CtxH(c, h) - (if c.Top? then 1 else 0),
                     InOrder(Plug(c, t)), Nodes(Plug(c, t)))
  {
    if c.Top? {
      SentinelBalance(m, m', c, t, s, h, -1);
    } else {
      Absorb(m, m', c, t, s, h, -Side(c));
      UpSame(c, t, h);
      Whole(m', c.up, Lifted(c, t), s);
    }
  }

  lemma ShrunkTilts(m: Mem, c: Ctx, t: Tree, s: Links, h: int)
    requires Shrunk(m, c, t, s, h) && !c.Top? && c.n in m && m[c.n].balance == -Side(c)
    ensures Tilted(m, c.n, Lifted(c, t).l, Lifted(c, t).r)
    ensures Heavy(m, c.n, Lifted(c, t).l, Lifted(c, t).r) == Sibling(c)
    ensures H(Sibling(c)) == h + 1 && UpHeight(c, h) == h + 2
    ensures Sibling(c).n in m && m[Sibling(c).n].balance in {-1, 0, 1}
  {
  }

  lemma ShrinkRestructured(m: Mem, m': Mem, c: Ctx, t: Tree, s: Links, h: int) returns (t': Tree)
    requires Shrunk(m, c, t, s, h) && !c.Top? && c.n in m && m[c.n].balance == -Side(c)
    requires CanRebalance(m, c.n) && m' == Rebalanced(m, c.n)
    ensures HeavyChild(m, c.n) != null && HeavyChild(m, c.n) in m && UpHeight(c, h) == h + 2
    ensures InOrder(t') == InOrder(Lifted(c, t)) && Nodes(t') == Nodes(Lifted(c, t))
    ensures Climbing(m', c.up, t', s, UpHeight(c, h)) && t'.Node? && s in m' && m'[s].balance == 0
    ensures H(t') == h + 1 + (if m[HeavyChild(m, c.n)].balance == 0 then 1 else 0)
    ensures m[HeavyChild(m, c.n)].balance != 0 ==> c.n in m' && m'[c.n].parent == t'.n
  {
    ShrunkTilts(m, c, t, s, h);
    t' := Restructure(m, m', c, t, s, h, UpHeight(c, h));
  }

  /** A parent leaning away is restructured; the loop goes on unless the height was kept. */
  lemma ShrinkTurned(m: Mem, m': Mem, c: Ctx, t: Tree, s: Links, h: int) returns (t': Tree)
    requires Shrunk(m, c, t, s, h) && !c.Top? && c.n in m && m[c.n].balance == -Side(c)
    requires CanRebalance(m, c.n) && m' == Rebalanced(m, c.n)
    ensures HeavyChild(m, c.n) != null && HeavyChild(m, c.n) in m
    ensures InOrder(Plug(c.up, t')) == InOrder(Plug(c, t)) && Nodes(Plug(c.up, t')) == Nodes(Plug(c, t))
    ensures m[HeavyChild(m, c.n)].balance != 0 ==>
              && Shrunk(m', c.up, t', s, UpHeight(c, h)) && t'.Node?
              && c.n in m' && m'[c.n].parent == t'.n
    ensures m[HeavyChild(m, c.n)].balance == 0 ==>
              Finished(m', Plug(c.up, t'), s, CtxH(c, h), InOrder(Plug(c, t)), Nodes(Plug(c, t)))
  {
    t' := ShrinkRestructured(m, m', c, t, s, h);
    TurnedSame(c, t, h, t');
    if m[HeavyChild(m, c.n)].balance == 0 {
      TurnedEnds(m', c, t, s, h, t');
    }
  }

  lemma TurnedSame(c: Ctx, t: Tree, h: int, t': Tree)
    requires !c.Top? && InOrder(t') == InOrder(Lifted(c, t)) && Nodes(t') == Nodes(Lifted(c, t))
    ensures InOrder(Plug(c.up, t')) == InOrder(Plug(c, t)) && Nodes(Plug(c.up, t')) == Nodes(Plug(c, t))
    ensures CtxH(c.up, UpHeight(c, h)) == CtxH(c, h)
  {
    UpSame(c, t, h);
    PlugSame(c.up, Lifted(c, t), t');
  }

  lemma TurnedEnds(m': Mem, c: Ctx, t: Tree, s: Links, h: int, t': Tree)
    requires !c.Top? && InOrder(t') == InOrder(Lifted(c, t)) && Nodes(t') == Nodes(Lifted(c, t))
    requires Climbing(m', c.up, t', s, UpHeight(c, h)) && H(t') == UpHeight(c, h)
    ensures Finished(m', Plug(c.up, t'), s, CtxH(c, h), InOrder(Plug(c, t)), Nodes(Plug(c, t)))
  {
    TurnedSame(c, t, h, t');
    Whole(m', c.up, t', s);
  }
}
