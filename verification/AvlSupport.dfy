/** Rotation and rebalancing (rtl/avlsupp.c:99-204), on records linked in place. */
module AvlSupport {
  import opened AvlShape

  /** Rotating the record n above its parent p: n is p's left or right child. */
  datatype Rotation = Rotation(left: bool, n: Links, p: Links, a: Tree, b: Tree, c: Tree) {
    ghost function Before(): Tree {
      if left then Node(p, Node(n, a, b), c) else Node(p, a, Node(n, b, c))
    }

    ghost function After(): Tree {
      if left then Node(n, a, Node(p, b, c)) else Node(n, Node(p, a, b), c)
    }
  }

  ghost predicate IsLeft(m: Mem, n: Links)
    requires n in m && m[n].parent in m
  {
    m[m[n].parent].left == n
  }

  ghost function Inner(m: Mem, n: Links): Links?
    requires n in m && m[n].parent in m
  {
    if IsLeft(m, n) then m[n].right else m[n].left
  }

  ghost predicate CanPromote(m: Mem, n: Links) {
    && n in m && m[n].parent in m && m[m[n].parent].parent in m
    && n != m[n].parent && m[n].parent != m[m[n].parent].parent && n != m[m[n].parent].parent
    && (Inner(m, n) == null || Inner(m, n) in m)
    && Inner(m, n) != n && Inner(m, n) != m[n].parent && Inner(m, n) != m[m[n].parent].parent
  }

  ghost function WithParent(m: Mem, n: Links, p: Links): (m': Mem)
    requires n in m
    ensures m'.Keys == m.Keys
  {
    m[n := m[n].(parent := p)]
  }

  ghost function WithChild(m: Mem, n: Links, left: bool, x: Links?): (m': Mem)
    requires n in m
    ensures m'.Keys == m.Keys
  {
    m[n := if left then m[n].(left := x) else m[n].(right := x)]
  }

  ghost function WithBalance(m: Mem, n: Links, b: int): (m': Mem)
    requires n in m
    ensures m'.Keys == m.Keys
  {
    m[n := m[n].(balance := b)]
  }

  /** The records after the link writes of RtlpPromoteAvlTreeNode, in the order of the writes. */
  ghost function Promoted(m: Mem, n: Links): (m': Mem)
    requires CanPromote(m, n)
    ensures m'.Keys == m.Keys && SameBalances(m, m', m.Keys)
  {
    var p := m[n].parent;
    var g := m[p].parent;
    var left := IsLeft(m, n);
    var x := Inner(m, n);
    var m1 := WithChild(m, p, left, x);
    var m2 := if x == null then m1 else WithParent(m1, x, p);
    var m3 := WithChild(m2, n, !left, p);
    var m4 := WithParent(m3, p, n);
    WithParent(WithChild(m4, g, m4[g].left == p, n), n, g)
  }

  lemma PromotedBelow(m: Mem, rot: Rotation, up: Ctx, s: Links)
    requires Placed(m, rot.Before(), up, s)
    ensures CanPromote(m, rot.n)
    ensures m[rot.n].parent == rot.p && m[rot.p].parent == CtxNode(up, s) && IsLeft(m, rot.n) == rot.left
    ensures Inner(m, rot.n) == Root(rot.b)
  {
    assert Linked(m, if rot.left then Node(rot.n, rot.a, rot.b) else Node(rot.n, rot.b, rot.c), rot.p);
    assert rot.a.Node? ==> rot.a.n in Nodes(rot.a);
    assert rot.b.Node? ==> rot.b.n in Nodes(rot.b);
    assert Linked(m, rot.b, rot.n);
  }

  lemma RotationShape(rot: Rotation)
    requires Proper(rot.Before())
    ensures Nodes(rot.Before()) == {rot.n, rot.p} + Nodes(rot.a) + Nodes(rot.b) + Nodes(rot.c)
    ensures Nodes(rot.After()) == Nodes(rot.Before()) && InOrder(rot.After()) == InOrder(rot.Before())
    ensures Proper(rot.After())
    ensures rot.n != rot.p && {rot.n, rot.p} !! Nodes(rot.a) + Nodes(rot.b) + Nodes(rot.c)
    ensures Nodes(rot.a) !! Nodes(rot.b) && Nodes(rot.a) !! Nodes(rot.c) && Nodes(rot.b) !! Nodes(rot.c)
    ensures Proper(rot.b)
  {
    if rot.left {
      assert Proper(Node(rot.n, rot.a, rot.b));
      assert InOrder(rot.a) + [rot.n] + InOrder(rot.b) + [rot.p] + InOrder(rot.c)
          == InOrder(rot.a) + [rot.n] + (InOrder(rot.b) + [rot.p] + InOrder(rot.c));
    } else {
      assert Proper(Node(rot.n, rot.b, rot.c));
      assert InOrder(rot.a) + [rot.p] + InOrder(rot.b) + [rot.n] + InOrder(rot.c)
          == InOrder(rot.a) + [rot.p] + (InOrder(rot.b) + [rot.n] + InOrder(rot.c));
    }
  }

  /** The record above the hole has its link to the hole changed, and nothing else. */
  lemma ChildAbove(m: Mem, m': Mem, up: Ctx, s: Links, was: Links?, now: Links?)
    requires CtxLinked(m, up, s, was) && CtxProper(up) && s !in CtxNodes(up) && s in m
    requires SameLinks(m, m', CtxNodes(up) + {s} - {CtxNode(up, s)})
    requires
      var g := CtxNode(up, s);
      g in m' && m'[g].parent == m[g].parent
      && m'[g].left == (if up.InLeft? then now else m[g].left)
      && m'[g].right == (if up.InLeft? then m[g].right else now)
    ensures CtxLinked(m', up, s, now)
  {
    if up.InLeft? {
      FrameBeside(m, m', up.n, up.r, up.up, s);
    } else if up.InRight? {
      FrameBeside(m, m', up.n, up.l, up.up, s);
    }
  }

  ghost function Rehung(g: Rec, was: Links, now: Links): Rec {
    if g.left == was then g.(left := now) else g.(right := now)
  }

  lemma FrameBeside(m: Mem, m': Mem, n: Links, t: Tree, up: Ctx, s: Links)
    requires Linked(m, t, n) && CtxLinked(m, up, s, n)
    requires n !in Nodes(t) && n !in CtxNodes(up) && n != s
    requires SameLinks(m, m', {n} + Nodes(t) + CtxNodes(up) + {s} - {n})
    ensures Linked(m', t, n) && CtxLinked(m', up, s, n)
  {
    LinkedFrame(m, m', t, n);
    CtxLinkedFrame(m, m', up, s, n);
  }

  /** The same four records as seen one by one: m' is m after a promotion below g. */
  ghost predicate Turned(m: Mem, m': Mem, rot: Rotation, g: Links) {
    && {rot.n, rot.p, g} <= m.Keys && m'.Keys == m.Keys
    && (rot.b.Node? ==> rot.b.n in m)
    && m'[rot.n] == (if rot.left then m[rot.n].(parent := g, right := rot.p) else m[rot.n].(parent := g, left := rot.p))
    && m'[rot.p] == (if rot.left then m[rot.p].(parent := rot.n, left := Root(rot.b))
                     else m[rot.p].(parent := rot.n, right := Root(rot.b)))
    && m'[g] == Rehung(m[g], rot.p, rot.n)
    && (rot.b.Node? ==> m'[rot.b.n] == m[rot.b.n].(parent := rot.p))
    && (forall x :: x in m && x !in {rot.n, rot.p, g} && x != Root(rot.b) ==> m'[x] == m[x])
  }

  lemma PromotedTurned(m: Mem, rot: Rotation, g: Links)
    requires CanPromote(m, rot.n) && m[rot.n].parent == rot.p && m[rot.p].parent == g
    requires IsLeft(m, rot.n) == rot.left && Inner(m, rot.n) == Root(rot.b)
    ensures Turned(m, Promoted(m, rot.n), rot, g)
  {
  }

  lemma TurnedLinked(m: Mem, m': Mem, rot: Rotation, g: Links)
    requires Linked(m, rot.Before(), g) && Proper(rot.Before()) && g !in Nodes(rot.Before())
    requires Turned(m, m', rot, g)
    ensures Linked(m', rot.After(), g)
  {
    RotationShape(rot);
    var n, p, a, b, c := rot.n, rot.p, rot.a, rot.b, rot.c;
    assert b.Node? ==> b.n in Nodes(b) && Nodes(b.l) <= Nodes(b) && Nodes(b.r) <= Nodes(b);
    assert SameLinks(m, m', Nodes(a)) && SameLinks(m, m', Nodes(c));
    assert b.Node? ==> SameLinks(m, m', Nodes(b.l) + Nodes(b.r));
    if rot.left {
      assert Linked(m, Node(n, a, b), p);
      LinkedFrame(m, m', a, n);
      LinkedFrame(m, m', c, p);
      TurnedInner(m, m', b, n, p);
      assert Linked(m', Node(p, b, c), n);
    } else {
      assert Linked(m, Node(n, b, c), p);
      LinkedFrame(m, m', a, p);
      LinkedFrame(m, m', c, n);
      TurnedInner(m, m', b, n, p);
      assert Linked(m', Node(p, a, b), n);
    }
  }

  lemma TurnedInner(m: Mem, m': Mem, b: Tree, was: Links, now: Links)
    requires Linked(m, b, was) && Proper(b)
    requires b.Node? ==> b.n in m' && m'[b.n] == m[b.n].(parent := now)
    requires b.Node? ==> SameLinks(m, m', Nodes(b.l) + Nodes(b.r))
    ensures Linked(m', b, now)
  {
    if b.Node? {
      LinkedFrame(m, m', b.l, b.n);
      LinkedFrame(m, m', b.r, b.n);
    }
  }

  /** Rotation moves one subtree across and re-hangs the pair; nothing is lost or shared. */
  lemma PromotedPlaced(m: Mem, rot: Rotation, up: Ctx, s: Links)
    requires Placed(m, rot.Before(), up, s)
    ensures CanPromote(m, rot.n)
    ensures Placed(Promoted(m, rot.n), rot.After(), up, s)
    ensures SameBalances(m, Promoted(m, rot.n), m.Keys)
    ensures Nodes(rot.After()) == Nodes(rot.Before()) && InOrder(rot.After()) == InOrder(rot.Before())
  {
    PromotedBelow(m, rot, up, s);
    PromotedTurned(m, rot, CtxNode(up, s));
    TurnedPlaced(m, Promoted(m, rot.n), rot, up, s);
  }

  lemma TurnedPlaced(m: Mem, m': Mem, rot: Rotation, up: Ctx, s: Links)
    requires Placed(m, rot.Before(), up, s) && Turned(m, m', rot, CtxNode(up, s))
    ensures Placed(m', rot.After(), up, s)
    ensures Nodes(rot.After()) == Nodes(rot.Before()) && InOrder(rot.After()) == InOrder(rot.Before())
  {
    RotationShape(rot);
    assert CtxNode(up, s) in CtxNodes(up) + {s};
    assert rot.b.Node? ==> rot.b.n in Nodes(rot.b);
    TurnedLinked(m, m', rot, CtxNode(up, s));
    assert up.InRight? && up.l.Node? ==> up.l.n in Nodes(up.l);
    ChildAbove(m, m', up, s, rot.p, rot.n);
  }

  /** RtlSetParent (rtl/rtlavl.h:47-53). */
  method SetParent(node: Links, parent: Links, ghost all: set<Links>)
    requires node in all
    modifies node`Parent
    ensures Snap(all) == WithParent(old(Snap(all)), node, parent)
  {
    node.Parent := parent;
  }

  /** A write through the pointer to one of a record's child links. */
  method SetChild(node: Links, left: bool, child: Links?, ghost all: set<Links>)
    requires node in all
    modifies node`LeftChild, node`RightChild
    ensures Snap(all) == WithChild(old(Snap(all)), node, left, child)
  {
    if left { node.LeftChild := child; } else { node.RightChild := child; }
  }

  /** RtlSetBalance (rtl/rtlavl.h:55-61). */
  method SetBalance(node: Links, balance: int, ghost all: set<Links>)
    requires node in all
    modifies node`Balance
    ensures Snap(all) == WithBalance(old(Snap(all)), node, balance)
  {
    node.Balance := balance;
  }

  /** RtlpPromoteAvlTreeNode (rtl/avlsupp.c:97-125). */
  method Promote(node: Links, ghost all: set<Links>)
    requires CanPromote(Snap(all), node)
    modifies all`Parent, all`LeftChild, all`RightChild
    ensures Snap(all) == Promoted(old(Snap(all)), node)
  {
    // grab parents up to two levels high
    var parentNode := node.Parent;
    var superParentNode := parentNode.Parent;

    // pick which links will be swapped
    var isLeft := node.Parent.LeftChild == node;
    var inner := if isLeft then node.RightChild else node.LeftChild;

    // do the rotation
    SetChild(parentNode, isLeft, inner, all);
    if inner != null { SetParent(inner, parentNode, all); }
    SetChild(node, !isLeft, parentNode, all);
    SetParent(parentNode, node, all);

    // make the super-parent point at the promoted record
    SetChild(superParentNode, superParentNode.LeftChild == parentNode, node, all);
    SetParent(node, superParentNode, all);
  }

  /** A tree whose root is one level too heavy on one side; both sides are balanced. */
  ghost predicate Tilted(m: Mem, n: Links, l: Tree, r: Tree) {
    && n in m && Balanced(m, l) && Balanced(m, r)
    && ((m[n].balance == -1 && H(l) == H(r) + 2) || (m[n].balance == 1 && H(r) == H(l) + 2))
  }

  ghost function Heavy(m: Mem, n: Links, l: Tree, r: Tree): Tree
    requires n in m
  {
    if m[n].balance == 1 then r else l
  }

  lemma PlacedFrame(m: Mem, m': Mem, t: Tree, up: Ctx, s: Links)
    requires Placed(m, t, up, s) && SameLinks(m, m', m.Keys)
    ensures Placed(m', t, up, s)
  {
    LinkedFrame(m, m', t, CtxNode(up, s));
    CtxLinkedFrame(m, m', up, s, Root(t));
  }

  /** The rotation that lifts the heavy child of node. */
  ghost function Single(m: Mem, node: Links, l: Tree, r: Tree): (rot: Rotation)
    requires Tilted(m, node, l, r)
  {
    if m[node].balance == -1
    then Rotation(true, l.n, node, l.l, l.r, r)
    else Rotation(false, r.n, node, l, r.l, r.r)
  }

  /** The heavy child leans inwards: the record lifted twice, and the two rotations. */
  ghost predicate LeansInwards(m: Mem, node: Links, l: Tree, r: Tree) {
    && Tilted(m, node, l, r)
    && m[Heavy(m, node, l, r).n].balance == -m[node].balance
  }

  ghost function Sub(m: Mem, node: Links, l: Tree, r: Tree): (t: Tree)
    requires LeansInwards(m, node, l, r)
    ensures t.Node?
  {
    if m[node].balance == -1 then l.r else r.l
  }

  ghost function First(m: Mem, node: Links, l: Tree, r: Tree): (rot: Rotation)
    requires LeansInwards(m, node, l, r)
    ensures rot.Before() == Heavy(m, node, l, r)
  {
    var sub := Sub(m, node, l, r);
    if m[node].balance == -1
    then Rotation(false, sub.n, l.n, l.l, sub.l, sub.r)
    else Rotation(true, sub.n, r.n, sub.l, sub.r, r.r)
  }

  ghost function Second(m: Mem, node: Links, l: Tree, r: Tree): (rot: Rotation)
    requires LeansInwards(m, node, l, r)
  {
    var sub := Sub(m, node, l, r);
    if m[node].balance == -1
    then Rotation(true, sub.n, node, Node(l.n, l.l, sub.l), sub.r, r)
    else Rotation(false, sub.n, node, l, sub.l, Node(r.n, sub.r, r.r))
  }

  lemma DoublePlaced(m: Mem, node: Links, l: Tree, r: Tree, up: Ctx, s: Links) returns (m1: Mem)
    requires Placed(m, Node(node, l, r), up, s) && LeansInwards(m, node, l, r)
    ensures
      var x := Sub(m, node, l, r).n;
      && CanPromote(m, x) && m1 == Promoted(m, x) && CanPromote(m1, x)
      && Placed(Promoted(m1, x), Second(m, node, l, r).After(), up, s)
      && SameBalances(m, Promoted(m1, x), m.Keys)
    ensures
      var t := Second(m, node, l, r).After();
      InOrder(t) == InOrder(Node(node, l, r)) && Nodes(t) == Nodes(Node(node, l, r))
  {
    var x := Sub(m, node, l, r).n;
    var rot1, rot2 := First(m, node, l, r), Second(m, node, l, r);
    var up1 := if m[node].balance == -1 then InLeft(node, r, up) else InRight(node, l, up);
    assert Plug(up1, rot1.Before()) == Plug(up, Node(node, l, r));
    PlugPlaced(m, up, Node(node, l, r), s);
    PlugPlaced(m, up1, rot1.Before(), s);
    PromotedPlaced(m, rot1, up1, s);
    m1 := Promoted(m, x);
    assert Plug(up1, rot1.After()) == Plug(up, rot2.Before());
    PlugPlaced(m1, up1, rot1.After(), s);
    PlugPlaced(m1, up, rot2.Before(), s);
    PromotedPlaced(m1, rot2, up, s);
  }

  ghost function HeavyChild(m: Mem, node: Links): Links?
    requires node in m
  {
    if m[node].balance == 1 then m[node].right else m[node].left
  }

  ghost function InwardChild(m: Mem, node: Links, child: Links): Links?
    requires node in m && child in m
  {
    if m[node].balance == 1 then m[child].left else m[child].right
  }

  ghost predicate CanRebalance(m: Mem, node: Links) {
    && node in m && m[node].balance in {-1, 1}
    && var child := HeavyChild(m, node);
    && child != null && child in m && child != node
    && if m[child].balance == -m[node].balance then
         var x := InwardChild(m, node, child);
         x != null && x != node && x != child && CanPromote(m, x) && CanPromote(Promoted(m, x), x)
       else
         CanPromote(m, child)
  }

  /** The balances written after a double rotation; b and lean are node's and x's old ones. */
  ghost function SettleDouble(m: Mem, node: Links, child: Links, x: Links, b: int, lean: int): (m': Mem)
    requires node in m && child in m && x in m && node != child && child != x && node != x
    ensures m'.Keys == m.Keys && SameLinks(m, m', m.Keys) && SameBalances(m, m', m.Keys - {node, child, x})
    ensures m'[x].balance == 0
    ensures m'[child].balance == (if lean == -b then b else 0)
    ensures m'[node].balance == (if lean == b then -b else 0)
  {
    WithBalance(WithBalance(WithBalance(m, child, if lean == -b then b else 0),
                            node, if lean == b then -b else 0), x, 0)
  }

  /** The balances written after a single rotation; b and lean are node's and child's old ones. */
  ghost function SettleSingle(m: Mem, node: Links, child: Links, b: int, lean: int): (m': Mem)
    requires node in m && child in m && node != child
    ensures m'.Keys == m.Keys && SameLinks(m, m', m.Keys) && SameBalances(m, m', m.Keys - {node, child})
    ensures m'[child].balance == (if lean == b then 0 else -b)
    ensures m'[node].balance == (if lean == b then 0 else m[node].balance)
  {
    if lean == b then WithBalance(WithBalance(m, child, 0), node, 0) else WithBalance(m, child, -b)
  }

  /** The records after RtlpRebalanceAvlTreeNode: rotations, then new balances. */
  ghost function Rebalanced(m: Mem, node: Links): (m': Mem)
    requires CanRebalance(m, node)
    ensures m'.Keys == m.Keys
  {
    var b := m[node].balance;
    var child := HeavyChild(m, node);
    if m[child].balance == -b then
      var x := InwardChild(m, node, child);
      SettleDouble(Promoted(Promoted(m, x), x), node, child, x, b, m[x].balance)
    else
      SettleSingle(Promoted(m, child), node, child, b, m[child].balance)
  }

  /** RtlpRebalanceAvlTreeNode (rtl/avlsupp.c:127-204). */
  method Rebalance(node: Links, ghost all: set<Links>) returns (kept: bool)
    requires CanRebalance(Snap(all), node)
    modifies all`Parent, all`LeftChild, all`RightChild, all`Balance
    ensures Snap(all) == Rebalanced(old(Snap(all)), node)
    ensures kept == old(HeavyChild(Snap(all), node).Balance !in {-1, 1})
  {
    // figure out which child to go down on
    ghost var m := Snap(all);
    var balance := node.Balance;
    var childNode := if balance == 1 then node.RightChild else node.LeftChild;

    // same balance: promote the child
    if childNode.Balance == balance {
      Promote(childNode, all);
      SetBalance(childNode, 0, all);
      SetBalance(node, 0, all);
      return false;
    }

    // opposite balance: promote the child's child twice
    if childNode.Balance == -balance {
      var subChildNode := if balance == 1 then childNode.LeftChild else childNode.RightChild;
      Promote(subChildNode, all);
      Promote(subChildNode, all);
      var lean := subChildNode.Balance;
      assert lean == m[subChildNode].balance;
      if lean == balance {
        SetBalance(childNode, 0, all);
        SetBalance(node, -balance, all);
      } else if lean == -balance {
        SetBalance(childNode, balance, all);
        SetBalance(node, 0, all);
      } else {
        SetBalance(childNode, 0, all);
        SetBalance(node, 0, all);
      }
      SetBalance(subChildNode, 0, all);
      return false;
    }

    // the child was balanced: this only happens on deletion
    Promote(childNode, all);
    SetBalance(childNode, -balance, all);
    return true;
  }

  /** Exact balances on the two turned records make the rotated tree balanced. */
  lemma RotatedBalanced(m: Mem, rot: Rotation)
    requires Balanced(m, rot.a) && Balanced(m, rot.b) && Balanced(m, rot.c)
    requires rot.n in m && rot.p in m
    requires
      var a, b, c := H(rot.a), H(rot.b), H(rot.c);
      && m[rot.p].balance == (if rot.left then c - b else b - a)
      && m[rot.n].balance == (if rot.left then 1 + Max(b, c) - a else c - 1 - Max(a, b))
      && -1 <= m[rot.p].balance <= 1 && -1 <= m[rot.n].balance <= 1
    ensures Balanced(m, rot.After())
    ensures H(rot.After()) == 1 +
            (if rot.left then Max(H(rot.a), 1 + Max(H(rot.b), H(rot.c)))
             else Max(1 + Max(H(rot.a), H(rot.b)), H(rot.c)))
  {
    if rot.left {
      var t := Node(rot.p, rot.b, rot.c);
      assert H(t) == 1 + Max(H(rot.b), H(rot.c)) && Balanced(m, t);
    } else {
      var t := Node(rot.p, rot.a, rot.b);
      assert H(t) == 1 + Max(H(rot.a), H(rot.b)) && Balanced(m, t);
    }
  }

  /** After a single rotation the two turned records carry exact balances again. */
  lemma SingleBalanced(m0: Mem, m: Mem, node: Links, l: Tree, r: Tree)
    requires Tilted(m0, node, l, r) && Proper(Node(node, l, r))
    requires SameBalances(m0, m, m0.Keys - {node, Heavy(m0, node, l, r).n})
    requires Heavy(m0, node, l, r).n in m && node in m
    requires
      var b, h := m0[node].balance, Heavy(m0, node, l, r).n;
      || (m0[h].balance == b && m[h].balance == 0 && m[node].balance == 0)
      || (m0[h].balance == 0 && m[h].balance == -b && m[node].balance == b)
    ensures
      var t := Single(m0, node, l, r).After();
      && Balanced(m, t)
      && H(t) == H(Heavy(m0, node, l, r)) + (if m0[Heavy(m0, node, l, r).n].balance == 0 then 1 else 0)
  {
    SingleHeights(m0, m, node, l, r);
    RotatedBalanced(m, Single(m0, node, l, r));
  }

  lemma SingleHeights(m0: Mem, m: Mem, node: Links, l: Tree, r: Tree)
    requires Tilted(m0, node, l, r) && Proper(Node(node, l, r))
    requires SameBalances(m0, m, m0.Keys - {node, Heavy(m0, node, l, r).n})
    ensures
      var rot := Single(m0, node, l, r);
      && Balanced(m, rot.a) && Balanced(m, rot.b) && Balanced(m, rot.c)
      && (m0[node].balance == -1 ==>
            && H(rot.a) - H(rot.b) == -m0[rot.n].balance
            && H(rot.c) == Max(H(rot.a), H(rot.b)) - 1)
      && (m0[node].balance == 1 ==>
            && H(rot.c) - H(rot.b) == m0[rot.n].balance
            && H(rot.a) == Max(H(rot.b), H(rot.c)) - 1)
      && H(Heavy(m0, node, l, r)) ==
         1 + (if m0[node].balance == -1 then Max(H(rot.a), H(rot.b)) else Max(H(rot.b), H(rot.c)))
  {
    var rot := Single(m0, node, l, r);
    RotationShape(rot);
    assert Balanced(m0, Heavy(m0, node, l, r));
    BalancedFrame(m0, m, rot.a);
    BalancedFrame(m0, m, rot.b);
    BalancedFrame(m0, m, rot.c);
  }

  /** The balances written after a double rotation, by where the lifted record x leaned. */
  ghost predicate Settled(m0: Mem, m: Mem, node: Links, h: Links, x: Links)
    requires node in m0 && x in m0
  {
    var b := m0[node].balance;
    && node in m && h in m && x in m && m[x].balance == 0
    && m[h].balance == (if m0[x].balance == -b then b else 0)
    && m[node].balance == (if m0[x].balance == b then -b else 0)
  }

  /** After a double rotation the three turned records carry exact balances again. */
  lemma DoubleBalanced(m0: Mem, m: Mem, node: Links, l: Tree, r: Tree)
    requires LeansInwards(m0, node, l, r) && Proper(Node(node, l, r))
    requires SameBalances(m0, m, m0.Keys - {node, Heavy(m0, node, l, r).n, Sub(m0, node, l, r).n})
    requires Sub(m0, node, l, r).n in m0
    requires Settled(m0, m, node, Heavy(m0, node, l, r).n, Sub(m0, node, l, r).n)
    ensures
      var t := Second(m0, node, l, r).After();
      Balanced(m, t) && H(t) == H(Heavy(m0, node, l, r))
  {
    DoubleHeights(m0, m, node, l, r);
    RotatedBalanced(m, Second(m0, node, l, r));
  }

  lemma DoubleHeights(m0: Mem, m: Mem, node: Links, l: Tree, r: Tree)
    requires LeansInwards(m0, node, l, r) && Proper(Node(node, l, r))
    requires SameBalances(m0, m, m0.Keys - {node, Heavy(m0, node, l, r).n, Sub(m0, node, l, r).n})
    requires Sub(m0, node, l, r).n in m0
    requires Settled(m0, m, node, Heavy(m0, node, l, r).n, Sub(m0, node, l, r).n)
    ensures
      var rot := Second(m0, node, l, r);
      && Balanced(m, rot.a) && Balanced(m, rot.b) && Balanced(m, rot.c)
      && m[rot.p].balance == (if rot.left then H(rot.c) - H(rot.b) else H(rot.b) - H(rot.a))
      && -1 <= m[rot.p].balance <= 1
      && (if rot.left then H(rot.a) == 1 + Max(H(rot.b), H(rot.c)) == H(l) - 1
          else H(rot.c) == 1 + Max(H(rot.a), H(rot.b)) == H(r) - 1)
  {
    if m0[node].balance == -1 {
      assert Proper(l);
      DoubleHeightsLeft(m0, m, node, l, r);
    } else {
      assert Proper(r);
      DoubleHeightsRight(m0, m, node, l, r);
    }
  }

  lemma DoubleHeightsLeft(m0: Mem, m: Mem, node: Links, h: Tree, r: Tree)
    requires h.Node? && h.r.Node? && {node, h.n, h.r.n} <= m0.Keys
    requires m0[node].balance == -1 && m0[h.n].balance == 1 && H(h) == H(r) + 2
    requires Balanced(m0, h) && Balanced(m0, r) && Proper(h)
    requires node !in Nodes(h) && node !in Nodes(r) && Nodes(h) !! Nodes(r)
    requires SameBalances(m0, m, m0.Keys - {node, h.n, h.r.n})
    requires Settled(m0, m, node, h.n, h.r.n)
    ensures Balanced(m, Node(h.n, h.l, h.r.l)) && Balanced(m, h.r.r) && Balanced(m, r)
    ensures m[node].balance == H(r) - H(h.r.r) && -1 <= m[node].balance <= 1
    ensures 1 + Max(H(h.l), H(h.r.l)) == 1 + Max(H(h.r.r), H(r)) == H(h) - 1
  {
    var x := h.r;
    assert Balanced(m0, x) && Proper(x);
    assert H(h) == 1 + H(x) && H(x) == 1 + Max(H(x.l), H(x.r)) && H(h.l) == H(x) - 1 == H(r);
    BalancedFrame(m0, m, h.l);
    BalancedFrame(m0, m, x.l);
    BalancedFrame(m0, m, x.r);
    BalancedFrame(m0, m, r);
  }

  lemma DoubleHeightsRight(m0: Mem, m: Mem, node: Links, l: Tree, h: Tree)
    requires h.Node? && h.l.Node? && {node, h.n, h.l.n} <= m0.Keys
    requires m0[node].balance == 1 && m0[h.n].balance == -1 && H(h) == H(l) + 2
    requires Balanced(m0, h) && Balanced(m0, l) && Proper(h)
    requires node !in Nodes(h) && node !in Nodes(l) && Nodes(h) !! Nodes(l)
    requires SameBalances(m0, m, m0.Keys - {node, h.n, h.l.n})
    requires Settled(m0, m, node, h.n, h.l.n)
    ensures Balanced(m, Node(h.n, h.l.r, h.r)) && Balanced(m, h.l.l) && Balanced(m, l)
    ensures m[node].balance == H(h.l.l) - H(l) && -1 <= m[node].balance <= 1
    ensures 1 + Max(H(h.l.r), H(h.r)) == 1 + Max(H(l), H(h.l.l)) == H(h) - 1
  {
    var x := h.l;
    assert Balanced(m0, x) && Proper(x);
    assert H(h) == 1 + H(x) && H(x) == 1 + Max(H(x.l), H(x.r)) && H(h.r) == H(x) - 1 == H(l);
    BalancedFrame(m0, m, h.r);
    BalancedFrame(m0, m, x.l);
    BalancedFrame(m0, m, x.r);
    BalancedFrame(m0, m, l);
  }

  /** What holds once the turned records carry their new balances. */
  ghost predicate Rebuilt(m: Mem, m': Mem, node: Links, l: Tree, r: Tree, t: Tree, up: Ctx, s: Links)
    requires node in m && Heavy(m, node, l, r).Node? && Heavy(m, node, l, r).n in m
  {
    var heavy := Heavy(m, node, l, r);
    && Placed(m', t, up, s) && Balanced(m', t) && SameBalances(m, m', m.Keys - Nodes(t))
    && H(t) == H(heavy) + (if m[heavy.n].balance == 0 then 1 else 0)
    && (m[heavy.n].balance != 0 ==> node in m' && t.Node? && m'[node].parent == t.n)
  }

  lemma OutwardsRebuilt(m: Mem, m1: Mem, m': Mem, node: Links, l: Tree, r: Tree, up: Ctx, s: Links)
    requires Tilted(m, node, l, r) && !LeansInwards(m, node, l, r) && Proper(Node(node, l, r))
    requires Heavy(m, node, l, r).n in m && Balanced(m, Heavy(m, node, l, r))
    requires Placed(m1, Single(m, node, l, r).After(), up, s)
    requires m1.Keys == m.Keys == m'.Keys && SameBalances(m, m1, m.Keys) && SameLinks(m1, m', m.Keys)
    requires SameBalances(m1, m', m.Keys - {node, Heavy(m, node, l, r).n})
    requires
      var b, h := m[node].balance, Heavy(m, node, l, r).n;
      && (m[h].balance == b ==> m'[h].balance == 0 && m'[node].balance == 0)
      && (m[h].balance != b ==> m'[h].balance == -b && m'[node].balance == b)
    ensures Rebuilt(m, m', node, l, r, Single(m, node, l, r).After(), up, s)
  {
    var t := Single(m, node, l, r).After();
    RotationShape(Single(m, node, l, r));
    PlacedFrame(m1, m', t, up, s);
    SingleBalanced(m, m', node, l, r);
    if m[node].balance == -1 {
      assert Linked(m', t.r, t.n);
    } else {
      assert Linked(m', t.l, t.n);
    }
  }

  lemma InwardsRebuilt(m: Mem, m2: Mem, m': Mem, node: Links, l: Tree, r: Tree, up: Ctx, s: Links)
    requires LeansInwards(m, node, l, r) && Proper(Node(node, l, r))
    requires Heavy(m, node, l, r).n in m && Sub(m, node, l, r).n in m
    requires
      var t := Second(m, node, l, r).After();
      Placed(m2, t, up, s) && Nodes(t) == Nodes(Node(node, l, r))
    requires m2.Keys == m.Keys == m'.Keys && SameBalances(m, m2, m.Keys) && SameLinks(m2, m', m.Keys)
    requires SameBalances(m2, m', m.Keys - {node, Heavy(m, node, l, r).n, Sub(m, node, l, r).n})
    requires Settled(m, m', node, Heavy(m, node, l, r).n, Sub(m, node, l, r).n)
    ensures Rebuilt(m, m', node, l, r, Second(m, node, l, r).After(), up, s)
  {
    var t := Second(m, node, l, r).After();
    PlacedFrame(m2, m', t, up, s);
    DoubleBalanced(m, m', node, l, r);
    if m[node].balance == -1 {
      assert Linked(m', t.r, t.n);
    } else {
      assert Linked(m', t.l, t.n);
    }
  }

  lemma CanRebalanceOutwards(m: Mem, node: Links, l: Tree, r: Tree, up: Ctx, s: Links)
    requires Placed(m, Node(node, l, r), up, s) && Tilted(m, node, l, r) && !LeansInwards(m, node, l, r)
    requires Heavy(m, node, l, r).n != node && Heavy(m, node, l, r).n in m
    ensures CanRebalance(m, node) && HeavyChild(m, node) == Heavy(m, node, l, r).n
    ensures CanPromote(m, Heavy(m, node, l, r).n)
  {
    PromotedPlaced(m, Single(m, node, l, r), up, s);
  }

  lemma RebalancedOutwards(m: Mem, node: Links, l: Tree, r: Tree, up: Ctx, s: Links) returns (t: Tree)
    requires Placed(m, Node(node, l, r), up, s) && Tilted(m, node, l, r) && !LeansInwards(m, node, l, r)
    requires Heavy(m, node, l, r).n != node && Linked(m, Heavy(m, node, l, r), node)
    requires Balanced(m, Heavy(m, node, l, r))
    requires CanRebalance(m, node) && HeavyChild(m, node) == Heavy(m, node, l, r).n
    ensures t.Node? && InOrder(t) == InOrder(Node(node, l, r)) && Nodes(t) == Nodes(Node(node, l, r))
    ensures Rebuilt(m, Rebalanced(m, node), node, l, r, t, up, s)
  {
    var rot := Single(m, node, l, r);
    PromotedPlaced(m, rot, up, s);
    t := rot.After();
    var m1 := Promoted(m, rot.n);
    var m' := SettleSingle(m1, node, rot.n, m[node].balance, m[rot.n].balance);
    OutwardsRebuilt(m, m1, m', node, l, r, up, s);
  }

  lemma CanRebalanceInwards(m: Mem, node: Links, l: Tree, r: Tree, up: Ctx, s: Links)
    requires Placed(m, Node(node, l, r), up, s) && LeansInwards(m, node, l, r)
    requires Heavy(m, node, l, r).n != node && Linked(m, Heavy(m, node, l, r), node)
    ensures CanRebalance(m, node) && HeavyChild(m, node) == Heavy(m, node, l, r).n
    ensures InwardChild(m, node, Heavy(m, node, l, r).n) == Sub(m, node, l, r).n
    ensures Sub(m, node, l, r).n in m
  {
    var heavy, sub := Heavy(m, node, l, r), Sub(m, node, l, r);
    assert Linked(m, sub, heavy.n) && Proper(heavy);
    assert sub.n in Nodes(sub) && Nodes(sub) <= Nodes(heavy) && sub.n != heavy.n && sub.n != node;
    var m1 := DoublePlaced(m, node, l, r, up, s);
  }

  lemma RebalancedInwards(m: Mem, node: Links, l: Tree, r: Tree, up: Ctx, s: Links) returns (t: Tree)
    requires Placed(m, Node(node, l, r), up, s) && LeansInwards(m, node, l, r)
    requires CanRebalance(m, node) && HeavyChild(m, node) == Heavy(m, node, l, r).n
    requires InwardChild(m, node, Heavy(m, node, l, r).n) == Sub(m, node, l, r).n
    requires Sub(m, node, l, r).n in m
    ensures t.Node? && InOrder(t) == InOrder(Node(node, l, r)) && Nodes(t) == Nodes(Node(node, l, r))
    ensures Rebuilt(m, Rebalanced(m, node), node, l, r, t, up, s)
  {
    var sub := Sub(m, node, l, r);
    var m1 := DoublePlaced(m, node, l, r, up, s);
    var m2 := Promoted(m1, sub.n);
    t := Second(m, node, l, r).After();
    InwardsSettled(m, m2, node, l, r, t, up, s);
  }

  lemma InwardsSettled(m: Mem, m2: Mem, node: Links, l: Tree, r: Tree, t: Tree, up: Ctx, s: Links)
    requires LeansInwards(m, node, l, r) && Proper(Node(node, l, r))
    requires Heavy(m, node, l, r).n in m && Sub(m, node, l, r).n in m
    requires node != Heavy(m, node, l, r).n && node != Sub(m, node, l, r).n
    requires Heavy(m, node, l, r).n != Sub(m, node, l, r).n
    requires t == Second(m, node, l, r).After() && Placed(m2, t, up, s) && Nodes(t) == Nodes(Node(node, l, r))
    requires m2.Keys == m.Keys && SameBalances(m, m2, m.Keys)
    ensures
      var h, x := Heavy(m, node, l, r).n, Sub(m, node, l, r).n;
      Rebuilt(m, SettleDouble(m2, node, h, x, m[node].balance, m[x].balance), node, l, r, t, up, s)
  {
    var h, x := Heavy(m, node, l, r).n, Sub(m, node, l, r).n;
    InwardsRebuilt(m, m2, SettleDouble(m2, node, h, x, m[node].balance, m[x].balance), node, l, r, up, s);
  }

  /** Rebalancing a tilted subtree gives a balanced one with the same records in the same
      order; its height shrinks unless the heavy child was itself balanced. */
  lemma RebalancedPlaced(m: Mem, node: Links, l: Tree, r: Tree, up: Ctx, s: Links) returns (t: Tree)
    requires Placed(m, Node(node, l, r), up, s) && Tilted(m, node, l, r)
    ensures Heavy(m, node, l, r).Node? && Heavy(m, node, l, r).n in m
    ensures CanRebalance(m, node) && HeavyChild(m, node) == Heavy(m, node, l, r).n
    ensures t.Node? && InOrder(t) == InOrder(Node(node, l, r)) && Nodes(t) == Nodes(Node(node, l, r))
    ensures Rebuilt(m, Rebalanced(m, node), node, l, r, t, up, s)
  {
    var heavy := Heavy(m, node, l, r);
    assert Linked(m, heavy, node) && Balanced(m, heavy);
    assert heavy.n in Nodes(heavy) && Nodes(heavy) <= Nodes(Node(node, l, r));
    if LeansInwards(m, node, l, r) {
      CanRebalanceInwards(m, node, l, r, up, s);
      t := RebalancedInwards(m, node, l, r, up, s);
    } else {
      CanRebalanceOutwards(m, node, l, r, up, s);
      t := RebalancedOutwards(m, node, l, r, up, s);
    }
  }
}
