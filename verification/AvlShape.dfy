/** The shape of an AVL table (rtl/avlsupp.c, rtl/avltable.c): the link record of one
    element, the ghost tree that describes how records are linked, and the one-hole
    contexts along which the insertion and deletion loops climb. */
module AvlShape {

  /** RTL_BALANCED_LINKS together with the key part of the user data that follows it. */
  class Links {
    var Parent: Links
    var LeftChild: Links?
    var RightChild: Links?
    var Balance: int
    const Key: int

    constructor (key: int)
      ensures Key == key
      ensures Parent == this && LeftChild == null && RightChild == null && Balance == 0
    {
      Key := key;
      Parent, LeftChild, RightChild, Balance := this, null, null, 0;
    }
  }

  /** The links and balance of one record, as a value. */
  datatype Rec = Rec(parent: Links?, left: Links?, right: Links?, balance: int)

  /** What a set of records holds at one moment. */
  type Mem = map<Links, Rec>

  ghost function Snap(all: set<Links>): (m: Mem)
    reads all
    ensures m.Keys == all
  {
    map n | n in all :: if n in all then Rec(n.Parent, n.LeftChild, n.RightChild, n.Balance)
        else Rec(null, null, null, 0)
  }

  datatype Tree = Leaf | Node(n: Links, l: Tree, r: Tree)

  /** A tree with one subtree removed, seen from the hole upwards. */
  datatype Ctx = Top | InLeft(n: Links, r: Tree, up: Ctx) | InRight(n: Links, l: Tree, up: Ctx)

  ghost function Root(t: Tree): Links? {
    if t.Leaf? then null else t.n
  }

  ghost function H(t: Tree): nat {
    match t
    case Leaf => 0
    case Node(_, l, r) => 1 + Max(H(l), H(r))
  }

  ghost function Max(a: int, b: int): int {
    if a < b then b else a
  }

  ghost function Nodes(t: Tree): set<Links> {
    match t
    case Leaf => {}
    case Node(n, l, r) => {n} + Nodes(l) + Nodes(r)
  }

  ghost function InOrder(t: Tree): seq<Links> {
    match t
    case Leaf => []
    case Node(n, l, r) => InOrder(l) + [n] + InOrder(r)
  }

  /** No record occurs twice. */
  ghost predicate Proper(t: Tree) {
    match t
    case Leaf => true
    case Node(n, l, r) =>
      && n !in Nodes(l) && n !in Nodes(r) && Nodes(l) !! Nodes(r)
      && Proper(l) && Proper(r)
  }

  /** Parent and child links agree with the tree. */
  ghost predicate Linked(m: Mem, t: Tree, p: Links) {
    match t
    case Leaf => true
    case Node(n, l, r) =>
      && n in m && m[n].parent == p && m[n].left == Root(l) && m[n].right == Root(r)
      && Linked(m, l, n) && Linked(m, r, n)
  }

  /** Every stored balance is exactly right height minus left height, and in -1..1. */
  ghost predicate Balanced(m: Mem, t: Tree) {
    match t
    case Leaf => true
    case Node(n, l, r) =>
      && n in m && m[n].balance == H(r) - H(l) && -1 <= m[n].balance <= 1
      && Balanced(m, l) && Balanced(m, r)
  }

  ghost predicate Sorted(s: seq<Links>) {
    forall i, j :: 0 <= i < j < |s| ==> s[i].Key < s[j].Key
  }

  // ----- contexts

  ghost function Plug(c: Ctx, t: Tree): Tree {
    match c
    case Top => t
    case InLeft(n, r, up) => Plug(up, Node(n, t, r))
    case InRight(n, l, up) => Plug(up, Node(n, l, t))
  }

  ghost function CtxNodes(c: Ctx): set<Links> {
    match c
    case Top => {}
    case InLeft(n, r, up) => {n} + Nodes(r) + CtxNodes(up)
    case InRight(n, l, up) => {n} + Nodes(l) + CtxNodes(up)
  }

  /** The record the hole hangs from; the sentinel when the hole is the whole tree. */
  ghost function CtxNode(c: Ctx, s: Links): Links {
    if c.Top? then s else c.n
  }

  ghost predicate CtxProper(c: Ctx) {
    match c
    case Top => true
    case InLeft(n, r, up) =>
      && n !in Nodes(r) && n !in CtxNodes(up) && Nodes(r) !! CtxNodes(up)
      && Proper(r) && CtxProper(up)
    case InRight(n, l, up) =>
      && n !in Nodes(l) && n !in CtxNodes(up) && Nodes(l) !! CtxNodes(up)
      && Proper(l) && CtxProper(up)
  }

  ghost predicate CtxLinked(m: Mem, c: Ctx, s: Links, child: Links?) {
    match c
    case Top => s in m && m[s].right == child
    case InLeft(n, r, up) =>
      && n in m && m[n].left == child && m[n].right == Root(r) && m[n].parent == CtxNode(up, s)
      && Linked(m, r, n) && CtxLinked(m, up, s, n)
    case InRight(n, l, up) =>
      && n in m && m[n].right == child && m[n].left == Root(l) && m[n].parent == CtxNode(up, s)
      && Linked(m, l, n) && CtxLinked(m, up, s, n)
  }

  /** Balances along the context are exact for a hole of height h. */
  ghost predicate CtxBalanced(m: Mem, c: Ctx, h: int) {
    match c
    case Top => true
    case InLeft(n, r, up) =>
      && n in m && m[n].balance == H(r) - h && -1 <= m[n].balance <= 1
      && Balanced(m, r) && CtxBalanced(m, up, 1 + Max(h, H(r)))
    case InRight(n, l, up) =>
      && n in m && m[n].balance == h - H(l) && -1 <= m[n].balance <= 1
      && Balanced(m, l) && CtxBalanced(m, up, 1 + Max(h, H(l)))
  }

  /** Height of the whole tree when the hole has height h. */
  ghost function CtxH(c: Ctx, h: int): int {
    match c
    case Top => h
    case InLeft(_, r, up) => CtxH(up, 1 + Max(h, H(r)))
    case InRight(_, l, up) => CtxH(up, 1 + Max(h, H(l)))
  }

  /** The records before the hole, and after it, in key order. */
  ghost function Pre(c: Ctx): seq<Links> {
    match c
    case Top => []
    case InLeft(n, r, up) => Pre(up)
    case InRight(n, l, up) => Pre(up) + InOrder(l) + [n]
  }

  ghost function Post(c: Ctx): seq<Links> {
    match c
    case Top => []
    case InLeft(n, r, up) => [n] + InOrder(r) + Post(up)
    case InRight(n, l, up) => Post(up)
  }

  /** The tree t hangs in the context up below the sentinel s, without sharing. */
  ghost predicate Placed(m: Mem, t: Tree, up: Ctx, s: Links) {
    && Linked(m, t, CtxNode(up, s)) && CtxLinked(m, up, s, Root(t))
    && Proper(t) && CtxProper(up) && Nodes(t) !! CtxNodes(up)
    && s !in Nodes(t) && s !in CtxNodes(up)
    && s in m && m[s].parent == s && m[s].left == null
  }

  // ----- what a tree depends on

  ghost predicate SameLinks(m: Mem, m': Mem, on: set<Links>) {
    forall n :: n in on && n in m ==>
      n in m' && m'[n].parent == m[n].parent && m'[n].left == m[n].left && m'[n].right == m[n].right
  }

  ghost predicate SameBalances(m: Mem, m': Mem, on: set<Links>) {
    forall n :: n in on && n in m ==> n in m' && m'[n].balance == m[n].balance
  }

  lemma LinkedFrame(m: Mem, m': Mem, t: Tree, p: Links)
    requires Linked(m, t, p) && SameLinks(m, m', Nodes(t))
    ensures Linked(m', t, p)
  {
    match t
    case Leaf =>
    case Node(n, l, r) => LinkedFrame(m, m', l, n); LinkedFrame(m, m', r, n);
  }

  lemma CtxLinkedFrame(m: Mem, m': Mem, c: Ctx, s: Links, child: Links?)
    requires CtxLinked(m, c, s, child) && SameLinks(m, m', CtxNodes(c) + {s})
    ensures CtxLinked(m', c, s, child)
  {
    match c
    case Top =>
    case InLeft(n, r, up) => LinkedFrame(m, m', r, n); CtxLinkedFrame(m, m', up, s, n);
    case InRight(n, l, up) => LinkedFrame(m, m', l, n); CtxLinkedFrame(m, m', up, s, n);
  }

  lemma BalancedFrame(m: Mem, m': Mem, t: Tree)
    requires Balanced(m, t) && SameBalances(m, m', Nodes(t))
    ensures Balanced(m', t)
  {
    match t
    case Leaf =>
    case Node(n, l, r) => BalancedFrame(m, m', l); BalancedFrame(m, m', r);
  }

  lemma CtxBalancedFrame(m: Mem, m': Mem, c: Ctx, h: int)
    requires CtxBalanced(m, c, h) && SameBalances(m, m', CtxNodes(c))
    ensures CtxBalanced(m', c, h)
  {
    match c
    case Top =>
    case InLeft(n, r, up) => BalancedFrame(m, m', r); CtxBalancedFrame(m, m', up, 1 + Max(h, H(r)));
    case InRight(n, l, up) => BalancedFrame(m, m', l); CtxBalancedFrame(m, m', up, 1 + Max(h, H(l)));
  }

  // ----- facts about plugging

  lemma {:induction false} PlugInOrder(c: Ctx, t: Tree)
    ensures InOrder(Plug(c, t)) == Pre(c) + InOrder(t) + Post(c)
    decreases c
  {
    match c
    case Top =>
    case InLeft(n, r, up) =>
      PlugInOrder(up, Node(n, t, r));
      assert Pre(up) + (InOrder(t) + [n] + InOrder(r)) + Post(up)
          == Pre(up) + InOrder(t) + ([n] + InOrder(r) + Post(up));
    case InRight(n, l, up) =>
      PlugInOrder(up, Node(n, l, t));
      assert Pre(up) + (InOrder(l) + [n] + InOrder(t)) + Post(up)
          == (Pre(up) + InOrder(l) + [n]) + InOrder(t) + Post(up);
  }

  lemma {:induction false} PlugHeight(c: Ctx, t: Tree)
    ensures H(Plug(c, t)) == CtxH(c, H(t))
    decreases c
  {
    match c
    case Top =>
    case InLeft(n, r, up) =>
      var t' := Node(n, t, r);
      assert H(t') == 1 + Max(H(t), H(r));
      PlugHeight(up, t');
    case InRight(n, l, up) =>
      var t' := Node(n, l, t);
      assert H(t') == 1 + Max(H(l), H(t)) == 1 + Max(H(t), H(l));
      PlugHeight(up, t');
  }

  lemma {:induction false} PlugNodes(c: Ctx, t: Tree)
    ensures Nodes(Plug(c, t)) == Nodes(t) + CtxNodes(c)
    decreases c
  {
    match c
    case Top =>
    case InLeft(n, r, up) => PlugNodes(up, Node(n, t, r));
    case InRight(n, l, up) => PlugNodes(up, Node(n, l, t));
  }

  lemma {:induction false} PlugProper(c: Ctx, t: Tree)
    ensures Proper(Plug(c, t)) <==> Proper(t) && CtxProper(c) && Nodes(t) !! CtxNodes(c)
    decreases c
  {
    match c
    case Top =>
    case InLeft(n, r, up) => PlugProper(up, Node(n, t, r));
    case InRight(n, l, up) => PlugProper(up, Node(n, l, t));
  }

  lemma {:induction false} PlugLinked(m: Mem, c: Ctx, t: Tree, s: Links)
    requires s in m
    ensures Linked(m, Plug(c, t), s) && m[s].right == Root(Plug(c, t))
       <==> Linked(m, t, CtxNode(c, s)) && CtxLinked(m, c, s, Root(t))
    decreases c
  {
    match c
    case Top =>
    case InLeft(n, r, up) => PlugLinked(m, up, Node(n, t, r), s);
    case InRight(n, l, up) => PlugLinked(m, up, Node(n, l, t), s);
  }

  lemma {:induction false} PlugBalanced(m: Mem, c: Ctx, t: Tree)
    ensures Balanced(m, Plug(c, t)) <==> Balanced(m, t) && CtxBalanced(m, c, H(t))
    decreases c
  {
    match c
    case Top =>
    case InLeft(n, r, up) => PlugBalanced(m, up, Node(n, t, r));
    case InRight(n, l, up) => PlugBalanced(m, up, Node(n, l, t));
  }

  /** A placed tree is a well-linked whole, and the other way round. */
  lemma PlugPlaced(m: Mem, c: Ctx, t: Tree, s: Links)
    ensures Placed(m, t, c, s) <==> Placed(m, Plug(c, t), Top, s)
  {
    if s in m {
      PlugLinked(m, c, t, s);
      PlugProper(c, t);
      PlugNodes(c, t);
    }
  }

  lemma {:induction false} NodesInOrder(t: Tree, x: Links)
    ensures x in InOrder(t) <==> x in Nodes(t)
  {
    match t
    case Leaf =>
    case Node(n, l, r) => NodesInOrder(l, x); NodesInOrder(r, x);
  }

  /** Every record of a tree sits below some context. */
  lemma {:induction false} Locate(t: Tree, x: Links, c: Ctx) returns (d: Ctx, l: Tree, r: Tree)
    requires x in Nodes(t)
    ensures Plug(d, Node(x, l, r)) == Plug(c, t)
    decreases t
  {
    if t.n == x {
      d, l, r := c, t.l, t.r;
    } else if x in Nodes(t.l) {
      d, l, r := Locate(t.l, x, InLeft(t.n, t.r, c));
    } else {
      d, l, r := Locate(t.r, x, InRight(t.n, t.l, c));
    }
  }

  /** The fewest records an AVL tree of height h can hold. */
  ghost function Fewest(h: nat): nat {
    if h < 2 then h else 1 + Fewest(h - 1) + Fewest(h - 2)
  }

  lemma {:induction false} FewestGrows(h: nat)
    ensures Fewest(h) <= Fewest(h + 1)
  {
    if h > 1 { FewestGrows(h - 1); FewestGrows(h - 2); }
  }

  /** Exact balances bound the depth: a tree of height h holds at least the Fibonacci-like minimum. */
  lemma {:induction false} DepthBound(m: Mem, t: Tree)
    requires Balanced(m, t)
    ensures |InOrder(t)| >= Fewest(H(t))
  {
    if t.Node? {
      DepthBound(m, t.l);
      DepthBound(m, t.r);
      if H(t) > 2 { FewestGrows(H(t) - 2); }
    }
  }
}
