/** The AVL table (rtl/avlsupp.c:30-393, rtl/avltable.c): find, insert, delete and
    enumerate over records linked in place below a sentinel. */
module AvlTable {
  import opened AvlShape
  import opened AvlSupport
  import opened AvlClimb
  import Enum = AvlEnumeration

  datatype SearchResult = TableEmptyTree | TableFoundNode | TableInsertAsLeft | TableInsertAsRight

  class Table {
    const BalancedRoot: Links
    var NumberGenericTableElements: nat
    var DepthOfTree: int
    var RestartKey: Links?
    var DeleteCount: nat
    ghost var tree: Tree
    ghost var all: set<Links>

    ghost predicate Valid()
      reads this, all
    {
      && BalancedRoot in all && all == Nodes(tree) + {BalancedRoot}
      && Placed(Snap(all), tree, Top, BalancedRoot)
      && Balanced(Snap(all), tree)
      && Sorted(InOrder(tree))
      && NumberGenericTableElements == |InOrder(tree)|
      && DepthOfTree == H(tree)
      && (RestartKey != null ==> RestartKey in all)
    }

    /** A tree of the recorded depth cannot hold fewer records than an AVL tree of that height, so the depth
        is logarithmic in the number of elements. */
    lemma EnoughRecords()
      requires Valid()
      ensures DepthOfTree >= 0 && |Elements()| >= Fewest(DepthOfTree)
    {
      DepthBound(Snap(all), tree);
    }

    /** The records of the table in key order. */
    ghost function Elements(): seq<Links>
      reads this
    {
      InOrder(tree)
    }

    /** RtlInitializeGenericTableAvl (rtl/avltable.c:25-39). */
    constructor ()
      ensures Valid() && Elements() == [] && RestartKey == null
      ensures fresh(all)
    {
      BalancedRoot := new Links(0);
      NumberGenericTableElements, DepthOfTree, RestartKey, DeleteCount := 0, 0, null, 0;
      tree := Leaf;
      new;
      all := {BalancedRoot};
    }

    /** RtlpFindAvlTableNodeOrParent (rtl/avlsupp.c:30-93). */
    method FindNodeOrParent(key: int) returns (res: SearchResult, nodeOrParent: Links?, ghost c: Ctx, ghost t: Tree)
      requires Valid()
      ensures Plug(c, t) == tree
      ensures res == TableEmptyTree ==> tree == Leaf && c == Top && nodeOrParent == null
      ensures res == TableFoundNode ==> t.Node? && t.n == nodeOrParent && t.n.Key == key
      ensures res == TableInsertAsLeft ==> c.InLeft? && c.n == nodeOrParent
      ensures res == TableInsertAsRight ==> c.InRight? && c.n == nodeOrParent
      ensures res != TableFoundNode ==>
                t == Leaf && Below(Pre(c), key) && Above(Post(c), key)
    {
      c, t := Top, tree;
      nodeOrParent := null;
      if NumberGenericTableElements == 0 {
        assert tree == Leaf;
        return TableEmptyTree, null, c, t;
      }
      ghost var m := Snap(all);
      var currentNode := BalancedRoot.RightChild;
      while true
        invariant Plug(c, t) == tree && t.Node? && t.n == currentNode
        invariant Below(Pre(c), key) && Above(Post(c), key)
        decreases t
      {
        PlugPlaced(m, c, t, BalancedRoot);
        PlugInOrder(c, t);
        Narrow(Pre(c), InOrder(t.l), t.n, InOrder(t.r), Post(c), key);
        if key < currentNode.Key {
          var childNode := currentNode.LeftChild;
          c, t := InLeft(t.n, t.r, c), t.l;
          if childNode != null {
            currentNode := childNode;
          } else {
            return TableInsertAsLeft, currentNode, c, t;
          }
        } else if currentNode.Key < key {
          var childNode := currentNode.RightChild;
          c, t := InRight(t.n, t.l, c), t.r;
          if childNode != null {
            currentNode := childNode;
          } else {
            return TableInsertAsRight, currentNode, c, t;
          }
        } else {
          return TableFoundNode, currentNode, c, t;
        }
      }
    }

    /** The parent leaned the other way, or is the sentinel (rtl/avlsupp.c:271-283). */
    method EndGrowth(parent: Links, ghost c: Ctx, ghost sub: Tree, ghost h: int)
      requires Grown(Snap(all), c, sub, BalancedRoot, h) && CtxH(c, h) == DepthOfTree
      requires parent == CtxNode(c, BalancedRoot) && parent in all && parent.Balance == -Side(c)
      modifies this`DepthOfTree, parent`Balance
      ensures Finished(Snap(all), Plug(c, sub), BalancedRoot, DepthOfTree, InOrder(Plug(c, sub)), Nodes(Plug(c, sub)))
      ensures all == old(all) && Others(old(RestartKey), old(DeleteCount), old(NumberGenericTableElements))
    {
      ghost var m := Snap(all);
      SetBalance(parent, 0, all);
      ghost var m' := Snap(all);
      GrowthEnds(m, m', c, sub, BalancedRoot, h);
      if BalancedRoot.Balance == 0 {
        // the depth has increased
        DepthOfTree := DepthOfTree + 1;
      }
      assert Snap(all) == m';
    }

    /** The tree is unbalanced at the parent (rtl/avlsupp.c:284-289). */
    method TurnGrowth(parent: Links, ghost c: Ctx, ghost sub: Tree, ghost h: int) returns (ghost t: Tree)
      requires Grown(Snap(all), c, sub, BalancedRoot, h) && CtxH(c, h) == DepthOfTree
      requires !c.Top? && parent == c.n && parent in all && parent.Balance == Side(c)
      requires CanRebalance(Snap(all), parent)
      modifies all`Parent, all`LeftChild, all`RightChild, all`Balance
      ensures Finished(Snap(all), t, BalancedRoot, DepthOfTree, InOrder(Plug(c, sub)), Nodes(Plug(c, sub)))
      ensures all == old(all) && Others(old(RestartKey), old(DeleteCount), old(NumberGenericTableElements))
    {
      ghost var m := Snap(all);
      var kept := Rebalance(parent, all);
      t := GrowthTurned(m, Snap(all), c, sub, BalancedRoot, h);
    }

    /** The loop of RtlpInsertAvlTreeNode (rtl/avlsupp.c:256-290). */
    method PassGrowth(parent: Links, balance: int, ghost c: Ctx, ghost sub: Tree, ghost h: int)
      requires Grown(Snap(all), c, sub, BalancedRoot, h) && parent == CtxNode(c, BalancedRoot) && parent in all
          && !c.Top?
      requires parent.Balance == 0 && balance == Side(c)
      modifies parent`Balance
      ensures Grown(Snap(all), c.up, Lifted(c, sub), BalancedRoot, h + 1) && CtxH(c.up, h + 1) == CtxH(c, h)
      ensures Plug(c.up, Lifted(c, sub)) == Plug(c, sub) && parent.Parent == old(parent.Parent)
      ensures all == old(all) && DepthOfTree == old(DepthOfTree)
          && Others(old(RestartKey), old(DeleteCount), old(NumberGenericTableElements))
    {
      ghost var m := Snap(all);
      SetBalance(parent, balance, all);
      GrowthPasses(m, Snap(all), c, sub, BalancedRoot, h);
      UpSame(c, sub, h);
    }

    method ClimbAfterInsert(newNode: Links, nodeOrParent: Links, ghost hole: Ctx) returns (ghost t: Tree)
      requires Grown(Snap(all), hole, Node(newNode, Leaf, Leaf), BalancedRoot, 0)
      requires !hole.Top? && hole.n == nodeOrParent && CtxH(hole, 0) == DepthOfTree
      modifies this`DepthOfTree, all`Parent, all`LeftChild, all`RightChild, all`Balance
      ensures
        var whole := Plug(hole, Node(newNode, Leaf, Leaf));
        Finished(Snap(all), t, BalancedRoot, DepthOfTree, InOrder(whole), Nodes(whole))
      ensures all == old(all) && Others(old(RestartKey), old(DeleteCount), old(NumberGenericTableElements))
    {
      ghost var s := BalancedRoot;
      var node, parent: Links := newNode, nodeOrParent;
      ghost var c, sub, h := hole, Node(newNode, Leaf, Leaf), 0;
      ghost var whole := Plug(hole, sub);
      while true
        invariant sub.Node? && Grown(Snap(all), c, sub, s, h) && CtxH(c, h) == DepthOfTree
        invariant Plug(c, sub) == whole
        invariant node == sub.n && parent == CtxNode(c, s)
        invariant all == old(all) && Others(old(RestartKey), old(DeleteCount), old(NumberGenericTableElements))
        decreases c
      {
        ghost var m := Snap(all);
        GrownView(m, c, sub, s, h);
        var balance := if node.Parent.LeftChild == node then -1 else 1;
        if parent.Balance == 0 {
          // it is not balanced anymore; move up
          PassGrowth(parent, balance, c, sub, h);
          sub, c, h := Lifted(c, sub), c.up, h + 1;
          node := parent;
          parent := parent.Parent;
        } else if parent.Balance != balance {
          EndGrowth(parent, c, sub, h);
          return Plug(c, sub);
        } else {
          t := TurnGrowth(parent, c, sub, h);
          return;
        }
      }
    }

    /** Hang a fresh record below its parent (rtl/avlsupp.c:216-245). */
    method Hang(newNode: Links, parent: Links, left: bool, ghost hole: Ctx)
      requires Placed(Snap(all), Leaf, hole, BalancedRoot) && CtxBalanced(Snap(all), hole, 0)
      requires !hole.Top? && hole.n == parent && left == hole.InLeft?
      requires newNode !in all && parent in all && BalancedRoot in all && CtxNodes(hole) <= all
      modifies this`all, parent`LeftChild, parent`RightChild
      modifies newNode`Parent, newNode`LeftChild, newNode`RightChild, newNode`Balance
      ensures all == old(all) + {newNode}
      ensures Climbing(Snap(all), hole, Node(newNode, Leaf, Leaf), BalancedRoot, 0)
      ensures DepthOfTree == old(DepthOfTree)
      ensures Others(old(RestartKey), old(DeleteCount), old(NumberGenericTableElements))
    {
      ghost var m := Snap(all);
      newNode.LeftChild, newNode.RightChild, newNode.Balance := null, null, 0;
      if left {
        parent.LeftChild := newNode;
      } else {
        parent.RightChild := newNode;
      }
      newNode.Parent := parent;
      all := all + {newNode};
      Hooked(m, Snap(all), hole, newNode, BalancedRoot);
    }

    /** The fields that relinking leaves alone. */
    ghost predicate Others(restartKey: Links?, deleteCount: nat, count: nat)
      reads this
    {
      RestartKey == restartKey && DeleteCount == deleteCount && NumberGenericTableElements == count
    }

    /** The tree describes other links from now on; no record changes. */
    ghost method Describe(t: Tree)
      modifies this`tree
      ensures tree == t && all == old(all) && Snap(all) == old(Snap(all)) && DepthOfTree == old(DepthOfTree)
      ensures Others(old(RestartKey), old(DeleteCount), old(NumberGenericTableElements))
    {
      tree := t;
    }

    method CountElement()
      modifies this`NumberGenericTableElements
      ensures NumberGenericTableElements == old(NumberGenericTableElements) + 1
      ensures Snap(all) == old(Snap(all)) && Others(old(RestartKey), old(DeleteCount), NumberGenericTableElements)
    {
      NumberGenericTableElements := NumberGenericTableElements + 1;
    }

    /** Link a fresh record below its parent and restore the balances on the way up. */
    method InsertBelow(newNode: Links, parent: Links, left: bool, ghost hole: Ctx)
      requires Placed(Snap(all), Leaf, hole, BalancedRoot) && CtxBalanced(Snap(all), hole, 0)
      requires !hole.Top? && hole.n == parent && left == hole.InLeft? && CtxH(hole, 0) == DepthOfTree
      requires newNode !in all && parent in all && all == CtxNodes(hole) + {BalancedRoot}
      modifies this`all, this`DepthOfTree, this`tree, all`Parent, all`LeftChild, all`RightChild, all`Balance
      modifies newNode`Parent, newNode`LeftChild, newNode`RightChild, newNode`Balance
      ensures all == old(all) + {newNode}
      ensures Finished(Snap(all), tree, BalancedRoot, DepthOfTree, Pre(hole) + [newNode] + Post(hole),
          all - {BalancedRoot})
      ensures Others(old(RestartKey), old(DeleteCount), old(NumberGenericTableElements))
    {
      ghost var sub := Node(newNode, Leaf, Leaf);
      NewInOrder(hole, newNode);
      Hang(newNode, parent, left, hole);

      // the sentinel's balance will tell the loop that it has reached the root
      ghost var m := Snap(all);
      SetBalance(BalancedRoot, -1, all);
      SentinelBalance(m, Snap(all), hole, sub, BalancedRoot, 0, -1);
      ghost var t := ClimbAfterInsert(newNode, parent, hole);
      Describe(t);
    }

    /** RtlpInsertAvlTreeNode (rtl/avlsupp.c:208-291). */
    method InsertNode(newNode: Links, nodeOrParent: Links?, searchResult: SearchResult, ghost hole: Ctx)
      requires Valid() && newNode !in all && Plug(hole, Leaf) == tree
      requires searchResult == TableEmptyTree ==> hole == Top
      requires searchResult == TableInsertAsLeft ==> hole.InLeft? && hole.n == nodeOrParent
      requires searchResult == TableInsertAsRight ==> hole.InRight? && hole.n == nodeOrParent
      requires searchResult != TableFoundNode
      requires Sorted(Pre(hole) + [newNode] + Post(hole))
      modifies this, all, newNode
      ensures Valid() && all == old(all) + {newNode}
      ensures Elements() == Pre(hole) + [newNode] + Post(hole)
      ensures RestartKey == old(RestartKey) && DeleteCount == old(DeleteCount)
    {
      HoleOf(Snap(all), hole, BalancedRoot);
      PlugInOrder(hole, Leaf);
      CountElement();
      if searchResult == TableEmptyTree {
        HangRoot(newNode);
        assert Pre(hole) + [newNode] + Post(hole) == [newNode];
        return;
      }
      InsertBelow(newNode, nodeOrParent, searchResult == TableInsertAsLeft, hole);
    }

    /** The first record of an empty table (rtl/avlsupp.c:224-233). */
    method HangRoot(newNode: Links)
      requires newNode !in all && all == {BalancedRoot} && Placed(Snap(all), Leaf, Top, BalancedRoot)
      modifies this`all, this`tree, this`DepthOfTree, BalancedRoot`RightChild
      modifies newNode`Parent, newNode`LeftChild, newNode`RightChild, newNode`Balance
      ensures all == old(all) + {newNode}
      ensures Finished(Snap(all), tree, BalancedRoot, DepthOfTree, [newNode], {newNode})
      ensures Others(old(RestartKey), old(DeleteCount), old(NumberGenericTableElements))
    {
      newNode.LeftChild, newNode.RightChild, newNode.Balance := null, null, 0;
      BalancedRoot.RightChild := newNode;
      newNode.Parent := BalancedRoot;
      DepthOfTree := 1;
      tree := Node(newNode, Leaf, Leaf);
      all := all + {newNode};
      assert Nodes(tree) == {newNode} && InOrder(tree) == [newNode] && Proper(tree);
      assert Linked(Snap(all), tree, BalancedRoot);
    }

    /** Where enumeration goes on after a record: the sentinel stands before the first one. */
    ghost function After(x: Links): nat
      reads this
    {
      if x == BalancedRoot then 0 else Rank(Elements(), x.Key) + 1
    }

    /** Keep going until the left-most child. */
    method LeftMost(from: Links, ghost c: Ctx, ghost t: Tree) returns (x: Links, ghost c': Ctx, ghost t': Tree)
      requires Valid() && Plug(c, t) == tree && t.Node? && t.n == from
      ensures Plug(c', t') == tree && t'.Node? && t'.n == x && t'.l == Leaf
      ensures Pre(c') == Pre(c)
      ensures |Pre(c)| < |Elements()| && Elements()[|Pre(c)|] == x && x in Nodes(tree)
    {
      x, c', t' := from, c, t;
      PlugPlaced(Snap(all), c', t', BalancedRoot);
      while x.LeftChild != null
        invariant Plug(c', t') == tree && t'.Node? && t'.n == x && Pre(c') == Pre(c)
        invariant Linked(Snap(all), t', CtxNode(c', BalancedRoot))
        decreases t'
      {
        c', t' := InLeft(t'.n, t'.r, c'), t'.l;
        x := x.LeftChild;
      }
      assert t'.l == Leaf;
      AtRank(tree, c', t');
    }

    /** Keep going until the right-most child. */
    method RightMost(from: Links, ghost c: Ctx, ghost t: Tree) returns (x: Links, ghost c': Ctx, ghost t': Tree)
      requires Valid() && Plug(c, t) == tree && t.Node? && t.n == from
      ensures Plug(c', t') == tree && t'.Node? && t'.n == x && t'.r == Leaf
      ensures Post(c') == Post(c) && x in Nodes(tree)
      ensures Rank(Elements(), x.Key) + 1 + |Post(c)| == |Elements()|
    {
      x, c', t' := from, c, t;
      PlugPlaced(Snap(all), c', t', BalancedRoot);
      while x.RightChild != null
        invariant Plug(c', t') == tree && t'.Node? && t'.n == x && Post(c') == Post(c)
        invariant Linked(Snap(all), t', CtxNode(c', BalancedRoot))
        decreases t'
      {
        c', t' := InRight(t'.n, t'.l, c'), t'.r;
        x := x.RightChild;
      }
      assert t'.r == Leaf;
      AtRank(tree, c', t');
      PlugInOrder(c', t');
    }

    /** RtlRealSuccessor (rtl/splaytree.c:388-410). */
    method RealSuccessor(links: Links) returns (next: Links?)
      requires Valid() && links in all
      ensures next == if After(links) < |Elements()| then Elements()[After(links)] else null
    {
      ghost var m, s := Snap(all), BalancedRoot;
      ghost var c, t := Top, tree;
      ghost var d, l, r := Top, Leaf, Leaf;
      if links != BalancedRoot {
        d, l, r := Standing(tree, links);
        c, t := InRight(links, l, d), r;
      }
      ghost var here := After(links);
      assert here == |Pre(c)| && CtxNode(c, s) == links;
      PlugPlaced(m, c, t, s);
      PlugInOrder(c, t);
      assert m[links].right == Root(t);

      var child := links.RightChild;
      if child != null {
        next, c, t := LeftMost(child, c, t);
        return;
      }

      // no right child: keep climbing until a record is not a right child
      child := links;
      c, t := d, if links == s then tree else Node(links, l, r);
      while child.Parent.RightChild == child
        invariant child in all && (child == s ==> here == |InOrder(tree)|)
        invariant child != s ==> Plug(c, t) == tree && t.Node? && t.n == child && |Pre(c)| + |InOrder(t)| == here
        decreases child != s, c
      {
        ClimbView(m, c, t, s, tree);
        child := child.Parent;
        if !c.Top? {
          c, t := c.up, Lifted(c, t);
        }
      }
      if child != s {
        ClimbView(m, c, t, s, tree);
      }
      if child.Parent.LeftChild == child {
        return child.Parent;
      }
      return null;
    }

    /** RtlRealPredecessor (rtl/splaytree.c:359-381): the sentinel precedes the first record. */
    method RealPredecessor(links: Links) returns (prev: Links?)
      requires Valid() && links in Nodes(tree)
      ensures prev != null && prev in all && prev != links && After(prev) == After(links) - 1
    {
      ghost var m, s := Snap(all), BalancedRoot;
      ghost var d, l, r := Standing(tree, links);
      ghost var c, t := InLeft(links, r, d), l;
      ghost var here := After(links) - 1;
      PlugPlaced(m, c, t, s);
      PlugInOrder(c, t);
      assert here == |Pre(c)| + |InOrder(t)| && here + |Post(c)| == |Elements()|;
      assert m[links].left == Root(t);

      var child := links.LeftChild;
      if child != null {
        prev, c, t := RightMost(child, c, t);
        return;
      }

      // no left child: keep climbing until a record is not a left child
      child := links;
      c, t := d, Node(links, l, r);
      while child.Parent.LeftChild == child
        invariant child in all && child != s
        invariant Plug(c, t) == tree && t.Node? && t.n == child && |Pre(c)| == here
        decreases c
      {
        ClimbView(m, c, t, s, tree);
        child := child.Parent;
        c, t := c.up, Lifted(c, t);
      }
      ClimbView(m, c, t, s, tree);
      if c.InRight? {
        AtRank(tree, c.up, Lifted(c, t));
      }
      return child.Parent;
    }

    /** The step of RtlEnumerateGenericTableWithoutSplayingAvl (rtl/avltable.c:247-278). */
    method EnumerateWithoutSplaying(restartKey: Links?) returns (node: Links?, newKey: Links?)
      requires Valid() && (restartKey != null ==> restartKey in all)
      ensures node == if Cursor(restartKey) < |Elements()| then Elements()[Cursor(restartKey)] else null
      ensures newKey == if node != null then node else restartKey
      ensures newKey != null ==> newKey in all
      ensures node != null ==> After(node) == Cursor(restartKey) + 1
    {
      newKey := restartKey;
      if NumberGenericTableElements == 0 {
        return null, newKey;
      }
      assert tree.Node?;
      if restartKey == null {
        ghost var c, t;
        node, c, t := LeftMost(BalancedRoot.RightChild, Top, tree);
        newKey := node;
      } else {
        node := RealSuccessor(restartKey);
        if node != null { newKey := node; }
      }
      if node != null {
        RankIndex(tree, Cursor(restartKey));
      }
    }

    /** How many records enumeration has passed. */
    ghost function Cursor(restartKey: Links?): nat
      reads this
    {
      if restartKey == null then 0 else After(restartKey)
    }

    /** The table as the enumeration machine sees it. */
    ghost function View(): Enum.State
      reads this
    {
      Enum.State(KeysOf(Elements()), Cursor(RestartKey))
    }

    /** RtlEnumerateGenericTableAvl (rtl/avltable.c:186-197). */
    method Enumerate(restart: bool) returns (node: Links?)
      requires Valid()
      modifies this`RestartKey
      ensures Valid()
      ensures
        var before := if restart then old(View()).(cursor := 0) else old(View());
        && View() == Enum.Step(before, Enum.Next)
        && node == if before.cursor < |Elements()| then Elements()[before.cursor] else null
    {
      if restart { RestartKey := null; }
      var key;
      node, key := EnumerateWithoutSplaying(RestartKey);
      SetRestartKey(key);
    }

    /** RtlLookupElementGenericTableAvl (rtl/avltable.c:142-176). */
    method LookupElement(key: int) returns (node: Links?)
      requires Valid()
      ensures node == FindIn(Elements(), key)
    {
      var res;
      ghost var c, t;
      res, node, c, t := FindNodeOrParent(key);
      SearchMeaning(tree, c, t, res, key);
      if res != TableFoundNode {
        return null;
      }
    }

    /** RtlInsertElementGenericTableAvl (rtl/avltable.c:45-117); the allocation routine may fail. */
    method InsertElement(key: int, memory: bool) returns (node: Links?, isNew: bool)
      requires Valid()
      modifies this, all
      ensures Valid()
      ensures isNew == (memory && FindIn(old(Elements()), key) == null)
      ensures !isNew ==> node == FindIn(old(Elements()), key) && Elements() == old(Elements()) && View() == old(View())
      ensures isNew ==>
                && node != null && fresh(node) && node.Key == key
                && Elements() == Inserted(old(Elements()), node) && View() == Enum.Step(old(View()), Enum.Insert(key))
    {
      var res, nodeOrParent;
      ghost var c, t;
      res, nodeOrParent, c, t := FindNodeOrParent(key);
      SearchMeaning(tree, c, t, res, key);
      if res == TableFoundNode {
        return nodeOrParent, false;
      }
      if !memory {
        return null, false;
      }
      node := new Links(key);
      isNew := true;
      ghost var before := Elements();
      KnownKey(tree, RestartKey, BalancedRoot);
      HoleSorted(tree, c, node);
      InsertedView(before, node, RestartKey, BalancedRoot);
      InsertNode(node, nodeOrParent, res, c);
    }

    /** RtlDeleteElementGenericTableAvl (rtl/avltable.c:297-324). */
    method DeleteElement(key: int) returns (found: bool)
      requires Valid()
      modifies this, all
      ensures Valid()
      ensures found == (FindIn(old(Elements()), key) != null)
      ensures Elements() == Removed(old(Elements()), key)
      ensures View() == Enum.Step(old(View()), Enum.Delete(key))
      ensures DeleteCount == old(DeleteCount) + if found then 1 else 0
    {
      var res, node;
      ghost var c, t;
      res, node, c, t := FindNodeOrParent(key);
      SearchMeaning(tree, c, t, res, key);
      if res != TableFoundNode {
        AbsentView(Elements(), key, RestartKey, BalancedRoot);
        return false;
      }
      MoveKeyOff(node);
      Remove(node);
      return true;
    }

    /** Deleting the restart key moves it to its predecessor (rtl/avltable.c:308-309). */
    method MoveKeyOff(node: Links)
      requires Valid() && node in Nodes(tree)
      modifies this`RestartKey
      ensures Valid() && RestartKey != node
      ensures StateOf(Removed(Elements(), node.Key), RestartKey, BalancedRoot) == Enum.Step(old(View()),
          Enum.Delete(node.Key))
    {
      var key := RestartKey;
      if node == RestartKey {
        key := RealPredecessor(node);
      }
      KnownKey(tree, RestartKey, BalancedRoot);
      KnownKey(tree, key, BalancedRoot);
      NodesInOrder(tree, node);
      DeletedView(Elements(), node, RestartKey, key, BalancedRoot);
      SetRestartKey(key);
    }

    method SetRestartKey(key: Links?)
      requires Valid() && (key != null ==> key in all)
      modifies this`RestartKey
      ensures Valid() && RestartKey == key
    {
      RestartKey := key;
      assert Snap(all) == old(Snap(all));
    }

    /** rtl/avltable.c:311-314. */
    method Remove(node: Links)
      requires Valid() && node in Nodes(tree) && RestartKey != node
      modifies this, all
      ensures Valid()
      ensures Elements() == Removed(old(Elements()), node.Key) && RestartKey == old(RestartKey)
      ensures DeleteCount == old(DeleteCount) + 1
    {
      ghost var d, l, r := Standing(tree, node);
      RemovedAt(Pre(d) + InOrder(l), node, InOrder(r) + Post(d));
      DeleteCount := DeleteCount + 1;
      DeleteNode(node);
      UncountElement();
    }

    /** Which record to unlink (rtl/avlsupp.c:302-318): the record itself when it has at most one
        child, otherwise its neighbour on the longer side. a and b are the records around node. */
    method PickVictim(node: Links, ghost d: Ctx, ghost l: Tree, ghost r: Tree, ghost a: seq<Links>, ghost b: seq<Links>)
      returns (victim: Links, ghost c: Ctx, ghost t: Tree)
      requires Valid() && Plug(d, Node(node, l, r)) == tree
      requires a == Pre(d) + InOrder(l) && b == InOrder(r) + Post(d)
      ensures Plug(c, t) == tree && t.Node? && t.n == victim && (t.l == Leaf || t.r == Leaf)
      ensures Around(Pre(c) + (InOrder(t.l) + InOrder(t.r)) + Post(c), victim, node, a, b)
    {
      PlugPlaced(Snap(all), d, Node(node, l, r), BalancedRoot);
      if node.LeftChild == null || node.RightChild == null {
        victim, c, t := node, d, Node(node, l, r);
        assert Pre(d) + (InOrder(l) + InOrder(r)) + Post(d) == a + b;
      } else if node.Balance >= 0 {
        victim, c, t := LeftMost(node.RightChild, InRight(node, l, d), r);
        PickedSuccessor(d, l, r, node, c, t);
      } else {
        victim, c, t := RightMost(node.LeftChild, InLeft(node, r, d), l);
        Assoc([node], InOrder(r), Post(d));
        PickedDiffers(r, d, node, c, t);
        PickedPredecessor(d, l, r, node, c, t);
      }
    }

    /** Put the victim's only child, if any, in its place (rtl/avlsupp.c:320-341). */
    method Unlink(victim: Links, ghost c: Ctx, ghost t: Tree) returns (parent: Links, balance: int, ghost sub: Tree)
      requires Climbing(Snap(all), c, t, BalancedRoot, H(t)) && t.Node? && t.n == victim
      requires t.l == Leaf || t.r == Leaf
      requires BalancedRoot in all
      modifies all`Parent, all`LeftChild, all`RightChild, BalancedRoot`Balance
      ensures all == old(all) && DepthOfTree == old(DepthOfTree) && tree == old(tree)
      ensures Others(old(RestartKey), old(DeleteCount), old(NumberGenericTableElements))
      ensures sub == (if t.l.Node? then t.l else t.r)
      ensures Shrunk(Snap(all), c, sub, BalancedRoot, H(t))
      ensures parent == CtxNode(c, BalancedRoot) && balance == Side(c)
      ensures Snap(all)[victim] == old(Snap(all)[victim])
    {
      ghost var m := Snap(all);
      SideOfRoot(m, c, t, BalancedRoot);
      sub := if t.l.Node? then t.l else t.r;
      parent := victim.Parent;
      var child := if victim.LeftChild != null then victim.LeftChild else victim.RightChild;
      var isLeft := victim.Parent.LeftChild == victim;
      balance := if isLeft then -1 else 1;
      VictimView(m, c, t, sub, BalancedRoot);
      SetChild(parent, isLeft, child, all);
      if child != null {
        SetParent(child, parent, all);
      }
      // assume a balanced root, to notice the loss of a level
      ghost var m1 := Snap(all);
      Unlinked(m, m1, c, t, sub, BalancedRoot);
      SetBalance(BalancedRoot, 0, all);
      SentinelBalance(m1, Snap(all), c, sub, BalancedRoot, H(t), 0);
    }

    /** The loop of RtlpDeleteAvlTreeNode (rtl/avlsupp.c:343-377). */
    method ClimbAfterDelete(from: Links, side: int, ghost hole: Ctx, ghost below: Tree, ghost height: int)
        returns (ghost t: Tree)
      requires Shrunk(Snap(all), hole, below, BalancedRoot, height) && CtxH(hole, height) == DepthOfTree
      requires from == CtxNode(hole, BalancedRoot) && side == Side(hole)
      modifies this`DepthOfTree, all`Parent, all`LeftChild, all`RightChild, all`Balance
      ensures
        var whole := Plug(hole, below);
        Finished(Snap(all), t, BalancedRoot, DepthOfTree, InOrder(whole), Nodes(whole))
      ensures all == old(all) && Others(old(RestartKey), old(DeleteCount), old(NumberGenericTableElements))
    {
      ghost var s, whole := BalancedRoot, Plug(hole, below);
      var parent, balance := from, side;
      ghost var c, sub, h := hole, below, height;
      while true
        invariant Shrunk(Snap(all), c, sub, s, h) && CtxH(c, h) == DepthOfTree
        invariant InOrder(Plug(c, sub)) == InOrder(whole) && Nodes(Plug(c, sub)) == Nodes(whole)
        invariant parent == CtxNode(c, s) && balance == Side(c)
        invariant all == old(all) && Others(old(RestartKey), old(DeleteCount), old(NumberGenericTableElements))
        decreases c
      {
        ShrunkView(Snap(all), c, sub, s, h);
        if parent.Balance == balance {
          PassShrink(parent, c, sub, h);
          UpSame(c, sub, h);
          sub, c, h := Lifted(c, sub), c.up, UpHeight(c, h);
        } else if parent.Balance == 0 {
          t := Plug(c, sub);
          EndShrink(parent, balance, c, sub, h);
          return;
        } else {
          var kept;
          ghost var t';
          kept, t' := TurnShrink(parent, c, sub, h);
          if kept {
            return Plug(c.up, t');
          }
          // get the new parent after the rebalance
          UpSame(c, sub, h);
          parent := parent.Parent;
          sub, c, h := t', c.up, UpHeight(c, h);
        }
        ShrunkSide(Snap(all), c, sub, s, h);
        balance := if parent.Parent.RightChild == parent then 1 else -1;
        parent := parent.Parent;
      }
    }

    /** The parent leaned towards the shrunk side (rtl/avlsupp.c:346-351). */
    method PassShrink(parent: Links, ghost c: Ctx, ghost sub: Tree, ghost h: int)
      requires Shrunk(Snap(all), c, sub, BalancedRoot, h) && !c.Top? && parent == c.n && parent in all
      requires parent.Balance == Side(c)
      modifies parent`Balance
      ensures Shrunk(Snap(all), c.up, Lifted(c, sub), BalancedRoot, UpHeight(c, h))
      ensures all == old(all) && DepthOfTree == old(DepthOfTree)
          && Others(old(RestartKey), old(DeleteCount), old(NumberGenericTableElements))
    {
      ghost var m := Snap(all);
      SetBalance(parent, 0, all);
      ShrinkPasses(m, Snap(all), c, sub, BalancedRoot, h);
    }

    /** The tree has become unbalanced at the parent (rtl/avlsupp.c:361-369). */
    method TurnShrink(parent: Links, ghost c: Ctx, ghost sub: Tree, ghost h: int) returns (kept: bool, ghost t: Tree)
      requires Shrunk(Snap(all), c, sub, BalancedRoot, h) && !c.Top? && parent == c.n && parent in all
      requires parent.Balance == -Side(c) && CanRebalance(Snap(all), parent)
      modifies all`Parent, all`LeftChild, all`RightChild, all`Balance
      ensures InOrder(Plug(c.up, t)) == InOrder(Plug(c, sub)) && Nodes(Plug(c.up, t)) == Nodes(Plug(c, sub))
      ensures !kept ==> t.Node? && parent.Parent == t.n && Shrunk(Snap(all), c.up, t, BalancedRoot, UpHeight(c, h))
      ensures kept ==>
                Finished(Snap(all), Plug(c.up, t), BalancedRoot, CtxH(c, h), InOrder(Plug(c, sub)), Nodes(Plug(c, sub)))
      ensures all == old(all) && DepthOfTree == old(DepthOfTree)
          && Others(old(RestartKey), old(DeleteCount), old(NumberGenericTableElements))
    {
      ghost var m := Snap(all);
      ShrunkView(m, c, sub, BalancedRoot, h);
      kept := Rebalance(parent, all);
      t := ShrinkTurned(m, Snap(all), c, sub, BalancedRoot, h);
    }

    /** A balanced parent, or the sentinel, ends the loop (rtl/avlsupp.c:352-360). */
    method EndShrink(parent: Links, balance: int, ghost c: Ctx, ghost sub: Tree, ghost h: int)
      requires Shrunk(Snap(all), c, sub, BalancedRoot, h) && CtxH(c, h) == DepthOfTree
      requires parent == CtxNode(c, BalancedRoot) && parent in all && parent.Balance == 0 && balance == Side(c)
      modifies this`DepthOfTree, parent`Balance
      ensures Finished(Snap(all), Plug(c, sub), BalancedRoot, DepthOfTree, InOrder(Plug(c, sub)), Nodes(Plug(c, sub)))
      ensures all == old(all) && Others(old(RestartKey), old(DeleteCount), old(NumberGenericTableElements))
    {
      ghost var m := Snap(all);
      SetBalance(parent, -balance, all);
      ghost var m' := Snap(all);
      ShrinkEnds(m, m', c, sub, BalancedRoot, h);
      if BalancedRoot.Balance != 0 {
        // the loss of a tree level
        DepthOfTree := DepthOfTree - 1;
      }
      assert Snap(all) == m';
    }

    /** The unlinked victim takes the place of the record to delete (rtl/avlsupp.c:379-392). */
    method TakePlace(node: Links, victim: Links, ghost d: Ctx, ghost l: Tree, ghost r: Tree)
      requires Climbing(Snap(all), d, Node(node, l, r), BalancedRoot, H(Node(node, l, r)))
      requires victim in all - Nodes(Node(node, l, r)) - CtxNodes(d) - {BalancedRoot}
      modifies all`Parent, all`LeftChild, all`RightChild, all`Balance
      ensures Climbing(Snap(all), d, Node(victim, l, r), BalancedRoot, H(Node(node, l, r)))
      ensures all == old(all) && DepthOfTree == old(DepthOfTree) && tree == old(tree)
          && Others(old(RestartKey), old(DeleteCount), old(NumberGenericTableElements))
    {
      ghost var m := Snap(all);
      SideOfRoot(m, d, Node(node, l, r), BalancedRoot);
      PlaceView(m, node, l, r, d, BalancedRoot);
      MoveInto(victim, node, all);
      Replaced(m, Snap(all), node, victim, l, r, d, BalancedRoot);
    }

    /** Unlink the record, or the neighbour that will stand in for it, and restore the balances
        (rtl/avlsupp.c:302-377). a and b are the records around node. */
    method Detach(node: Links, ghost d: Ctx, ghost l: Tree, ghost r: Tree, ghost a: seq<Links>, ghost b: seq<Links>)
      returns (victim: Links, ghost t: Tree)
      requires Valid() && Plug(d, Node(node, l, r)) == tree
      requires a == Pre(d) + InOrder(l) && b == InOrder(r) + Post(d)
      modifies this`DepthOfTree, all`Parent, all`LeftChild, all`RightChild, all`Balance
      ensures Finished(Snap(all), t, BalancedRoot, DepthOfTree, InOrder(t), Nodes(t))
      ensures Around(InOrder(t), victim, node, a, b) && Sorted(InOrder(t))
      ensures Nodes(t) + {victim} == all - {BalancedRoot} && victim !in Nodes(t) && victim != BalancedRoot
      ensures all == old(all) && Others(old(RestartKey), old(DeleteCount), old(NumberGenericTableElements))
    {
      ghost var c, part;
      victim, c, part := PickVictim(node, d, l, r, a, b);
      PartOfWhole(Snap(all), c, part, BalancedRoot, tree);
      var parent, balance;
      ghost var sub;
      parent, balance, sub := Unlink(victim, c, part);
      UnlinkedOrder(c, part, sub);
      t := ClimbAfterDelete(parent, balance, c, sub, H(part));
    }

    /** The unlinked victim stands in for the record to delete (rtl/avlsupp.c:379-392). */
    method StandIn(node: Links, victim: Links, ghost t: Tree, ghost a: seq<Links>, ghost b: seq<Links>)
        returns (ghost t': Tree)
      requires Finished(Snap(all), t, BalancedRoot, DepthOfTree, InOrder(t), Nodes(t)) && Sorted(InOrder(t))
      requires Around(InOrder(t), victim, node, a, b) && victim != node
      requires Nodes(t) + {victim} == all - {BalancedRoot} && victim !in Nodes(t) && victim != BalancedRoot
      modifies all`Parent, all`LeftChild, all`RightChild, all`Balance
      ensures Finished(Snap(all), t', BalancedRoot, DepthOfTree, a + b, Nodes(t) - {node} + {victim})
      ensures all == old(all) && Others(old(RestartKey), old(DeleteCount), old(NumberGenericTableElements))
      ensures DepthOfTree == old(DepthOfTree)
    {
      ghost var d, l, r := FindStandIn(Snap(all), t, BalancedRoot, node, victim, a, b);
      TakePlace(node, victim, d, l, r);
      t' := Plug(d, Node(victim, l, r));
      StoodIn(Snap(all), d, node, victim, l, r, BalancedRoot);
    }

    /** RtlpDeleteAvlTreeNode (rtl/avlsupp.c:295-393). */
    method DeleteNode(node: Links)
      requires Valid() && node in Nodes(tree)
      modifies this`DepthOfTree, this`tree, this`all, all`Parent, all`LeftChild, all`RightChild, all`Balance
      ensures all == old(all) - {node}
      ensures Finished(Snap(all), tree, BalancedRoot, DepthOfTree, Removed(old(Elements()), node.Key),
          all - {BalancedRoot})
      ensures Others(old(RestartKey), old(DeleteCount), old(NumberGenericTableElements))
    {
      ghost var d, l, r := Standing(tree, node);
      ghost var a, b := Pre(d) + InOrder(l), InOrder(r) + Post(d);
      RemovedAt(a, node, b);
      ghost var t := Excise(node, d, l, r, a, b);
      Forget(node, t);
    }

    /** Unlink the record, and let its neighbour stand in for it if that was unlinked instead. */
    method Excise(node: Links, ghost d: Ctx, ghost l: Tree, ghost r: Tree, ghost a: seq<Links>, ghost b: seq<Links>)
      returns (ghost t: Tree)
      requires Valid() && Plug(d, Node(node, l, r)) == tree && node in Nodes(tree)
      requires a == Pre(d) + InOrder(l) && b == InOrder(r) + Post(d)
      modifies this`DepthOfTree, all`Parent, all`LeftChild, all`RightChild, all`Balance
      ensures Finished(Snap(all), t, BalancedRoot, DepthOfTree, a + b, all - {node} - {BalancedRoot})
      ensures node !in Nodes(t) + {BalancedRoot}
      ensures all == old(all) && Others(old(RestartKey), old(DeleteCount), old(NumberGenericTableElements))
    {
      var victim;
      victim, t := Detach(node, d, l, r, a, b);
      OthersLeft(Nodes(t), victim, node, all, BalancedRoot);
      if node != victim {
        t := StandIn(node, victim, t, a, b);
      }
    }

    method UncountElement()
      requires NumberGenericTableElements > 0
      modifies this`NumberGenericTableElements
      ensures NumberGenericTableElements == old(NumberGenericTableElements) - 1
      ensures Snap(all) == old(Snap(all)) && Others(old(RestartKey), old(DeleteCount), NumberGenericTableElements)
    {
      NumberGenericTableElements := NumberGenericTableElements - 1;
    }

    /** The deleted record no longer belongs to the table. */
    ghost method Forget(node: Links, t: Tree)
      requires Placed(Snap(all), t, Top, BalancedRoot) && Balanced(Snap(all), t) && node !in Nodes(t) + {BalancedRoot}
      modifies this`tree, this`all
      ensures tree == t && all == old(all) - {node} && DepthOfTree == old(DepthOfTree)
      ensures Placed(Snap(all), t, Top, BalancedRoot) && Balanced(Snap(all), t)
      ensures Others(old(RestartKey), old(DeleteCount), old(NumberGenericTableElements))
    {
      ghost var m := Snap(all);
      tree := t;
      all := all - {node};
      LinkedFrame(m, Snap(all), t, BalancedRoot);
      CtxLinkedFrame(m, Snap(all), Top, BalancedRoot, Root(t));
      BalancedFrame(m, Snap(all), t);
    }
  }

  ghost predicate Below(s: seq<Links>, key: int) {
    forall i :: 0 <= i < |s| ==> s[i].Key < key
  }

  ghost predicate Above(s: seq<Links>, key: int) {
    forall i :: 0 <= i < |s| ==> key < s[i].Key
  }

  /** Descending left or right keeps the passed records on their side of the key. */
  lemma Narrow(a: seq<Links>, l: seq<Links>, n: Links, r: seq<Links>, b: seq<Links>, key: int)
    requires Sorted(a + (l + [n] + r) + b) && Below(a, key) && Above(b, key)
    ensures key < n.Key ==> Above([n] + r + b, key)
    ensures n.Key < key ==> Below(a + l + [n], key)
  {
    var s := a + (l + [n] + r) + b;
    assert s[|a| + |l|] == n;
    if key < n.Key {
      forall i | 0 <= i < |[n] + r + b| ensures key < ([n] + r + b)[i].Key {
        assert ([n] + r + b)[i] == s[|a| + |l| + i];
      }
    }
    if n.Key < key {
      forall i | 0 <= i < |a + l + [n]| ensures (a + l + [n])[i].Key < key {
        assert (a + l + [n])[i] == s[i];
      }
    }
  }

  /** What a hole in a valid table looks like. */
  lemma HoleOf(m: Mem, c: Ctx, s: Links)
    requires Placed(m, Plug(c, Leaf), Top, s) && Balanced(m, Plug(c, Leaf))
    ensures Placed(m, Leaf, c, s) && CtxBalanced(m, c, 0) && CtxH(c, 0) == H(Plug(c, Leaf))
    ensures Nodes(Plug(c, Leaf)) == CtxNodes(c)
    ensures !c.Top? ==> c.n in m && c.n != s
  {
    PlugPlaced(m, c, Leaf, s);
    PlugBalanced(m, c, Leaf);
    PlugHeight(c, Leaf);
    PlugNodes(c, Leaf);
  }

  /** A fresh record linked below the hole is a placed one-record subtree. */
  lemma Hooked(m: Mem, m': Mem, c: Ctx, x: Links, s: Links)
    requires Placed(m, Leaf, c, s) && CtxBalanced(m, c, 0) && !c.Top? && c.n in m
    requires x !in m.Keys && x !in CtxNodes(c) && x != s
    requires x in m' && m'[x] == Rec(c.n, null, null, 0)
    requires c.n in m' && m'[c.n] == WithChild(m, c.n, c.InLeft?, x)[c.n]
    requires forall y :: y in m && y != c.n ==> y in m' && m'[y] == m[y]
    ensures Climbing(m', c, Node(x, Leaf, Leaf), s, 0)
  {
    ChildAbove(m, m', c, s, null, x);
    CtxBalancedFrame(m, m', c, 0);
    assert CtxLinked(m', c, s, x);
    assert Linked(m', Node(x, Leaf, Leaf), CtxNode(c, s));
  }

  /** How many records have a smaller key. */
  ghost function Rank(s: seq<Links>, key: int): (r: nat)
    ensures r <= |s|
  {
    if s == [] then 0 else (if s[0].Key < key then 1 else 0) + Rank(s[1..], key)
  }

  lemma {:induction false} RankSplit(a: seq<Links>, b: seq<Links>, key: int)
    requires Below(a, key) && forall i :: 0 <= i < |b| ==> key <= b[i].Key
    ensures Rank(a + b, key) == |a|
    decreases |a| + |b|
  {
    if a != [] {
      assert (a + b)[1..] == a[1..] + b;
      RankSplit(a[1..], b, key);
    } else if b != [] {
      assert (a + b)[1..] == a + b[1..];
      RankSplit(a, b[1..], key);
    }
  }

  lemma RankAt(a: seq<Links>, n: Links, b: seq<Links>)
    requires Sorted(a + [n] + b)
    ensures Rank(a + [n] + b, n.Key) == |a|
  {
    var s := a + [n] + b;
    assert s[|a|] == n;
    assert forall i :: 0 <= i < |a| ==> a[i] == s[i];
    assert forall i :: 0 <= i < |[n] + b| ==> ([n] + b)[i] == s[|a| + i];
    assert s == a + ([n] + b);
    RankSplit(a, [n] + b, n.Key);
  }

  lemma Assoc(a: seq<Links>, b: seq<Links>, c: seq<Links>)
    ensures (a + b) + c == a + (b + c)
  {
  }

  lemma Regroup(a: seq<Links>, l: seq<Links>, n: Links, r: seq<Links>, b: seq<Links>)
    ensures a + (l + [n] + r) + b == (a + l) + [n] + (r + b)
  {
  }

  /** The position of a record: what is below it, before it and after it. */
  lemma Standing(t: Tree, x: Links) returns (d: Ctx, l: Tree, r: Tree)
    requires x in Nodes(t) && Sorted(InOrder(t))
    ensures Plug(d, Node(x, l, r)) == t
    ensures InOrder(t) == Pre(d) + InOrder(l) + [x] + (InOrder(r) + Post(d))
    ensures Rank(InOrder(t), x.Key) == |Pre(d)| + |InOrder(l)|
  {
    d, l, r := Locate(t, x, Top);
    PlugInOrder(d, Node(x, l, r));
    Regroup(Pre(d), InOrder(l), x, InOrder(r), Post(d));
    RankAt(Pre(d) + InOrder(l), x, InOrder(r) + Post(d));
  }

  lemma AtRank(tree: Tree, c: Ctx, t: Tree)
    requires t.Node? && Plug(c, t) == tree && Sorted(InOrder(tree))
    ensures Rank(InOrder(tree), t.n.Key) == |Pre(c)| + |InOrder(t.l)| && t.n in Nodes(tree)
    ensures Rank(InOrder(tree), t.n.Key) < |InOrder(tree)| && InOrder(tree)[|Pre(c)| + |InOrder(t.l)|] == t.n
  {
    PlugInOrder(c, t);
    PlugNodes(c, t);
    Regroup(Pre(c), InOrder(t.l), t.n, InOrder(t.r), Post(c));
    RankAt(Pre(c) + InOrder(t.l), t.n, InOrder(t.r) + Post(c));
  }

  /** What a climbing loop reads at a record of the tree. */
  lemma ClimbView(m: Mem, c: Ctx, t: Tree, s: Links, tree: Tree)
    requires Plug(c, t) == tree && t.Node? && Placed(m, tree, Top, s)
    ensures t.n in m && m[t.n].parent == CtxNode(c, s) && CtxNode(c, s) in m
    ensures (m[CtxNode(c, s)].left == t.n) <==> c.InLeft?
    ensures (m[CtxNode(c, s)].right == t.n) <==> !c.InLeft?
    ensures m[s].parent == s && m[s].left == null && m[s].right != s
    ensures CtxNode(c, s) == s <==> c.Top?
    ensures InOrder(tree) == Pre(c) + InOrder(t) + Post(c)
    ensures !c.Top? ==> Plug(c.up, Lifted(c, t)) == tree && CtxNode(c, s) != t.n
  {
    PlugPlaced(m, c, t, s);
    SideOfRoot(m, c, t, s);
    PlugInOrder(c, t);
    assert tree.n in Nodes(tree);
  }

  /** The record at position i has rank i. */
  lemma RankIndex(t: Tree, i: nat)
    requires Sorted(InOrder(t)) && i < |InOrder(t)|
    ensures Rank(InOrder(t), InOrder(t)[i].Key) == i && InOrder(t)[i] in Nodes(t)
  {
    var s := InOrder(t);
    assert s == s[..i] + [s[i]] + s[i + 1..];
    RankAt(s[..i], s[i], s[i + 1..]);
    NodesInOrder(t, s[i]);
  }

  /** The order x left after unlinking the victim: putting the victim where node was gives
      exactly the records around node. */
  ghost predicate Around(x: seq<Links>, victim: Links, node: Links, a: seq<Links>, b: seq<Links>) {
    if victim == node then x == a + b
    else exists i {:trigger StandsAt(x, i, victim, node, a, b)} :: StandsAt(x, i, victim, node, a, b)
  }

  /** Where node stands in x, the victim makes it a and b. */
  ghost predicate StandsAt(x: seq<Links>, i: int, victim: Links, node: Links, a: seq<Links>, b: seq<Links>) {
    0 <= i < |x| && x[i] == node && x[i := victim] == a + b
  }

  lemma AroundAt(p: seq<Links>, q: seq<Links>, victim: Links, node: Links, a: seq<Links>, b: seq<Links>)
    requires p + [victim] + q == a + b && victim != node
    ensures Around(p + [node] + q, victim, node, a, b)
  {
    var x := p + [node] + q;
    assert x[|p|] == node && x[|p| := victim] == p + [victim] + q;
    assert StandsAt(x, |p|, victim, node, a, b);
  }

  lemma SuccessorAround(tn: Links, tr: seq<Links>, post: seq<Links>, a: seq<Links>, node: Links, b: seq<Links>)
    requires (a + [node]) + ([] + [tn] + tr) + post == a + [node] + b && Sorted(a + [node] + b)
    ensures Around((a + [node]) + ([] + tr) + post, tn, node, a, b)
  {
    var q := tr + post;
    var e := a + [node] + b;
    assert e == (a + [node]) + ([tn] + q);
    assert e[|a|] == node && e[|a| + 1] == tn;
    assert b == e[|a| + 1..] == [tn] + q;
    assert a + [tn] + q == a + b;
    AroundAt(a, q, tn, node, a, b);
    assert (a + [node]) + ([] + tr) + post == a + [node] + q;
  }

  lemma PredecessorAround(pre: seq<Links>, tl: seq<Links>, tn: Links, tr: seq<Links>, post: seq<Links>,
                          a: seq<Links>, node: Links, b: seq<Links>, e: seq<Links>)
    requires tr == [] && post == [node] + b && tn != node
    requires e == pre + (tl + [tn] + tr) + post && e == a + [node] + b
    ensures Around(pre + (tl + tr) + post, tn, node, a, b)
  {
    var p := pre + tl;
    assert e == (p + [tn]) + ([node] + b);
    assert |a| == |p| + 1;
    assert e[|p|] == tn && e[|a|] == node;
    assert a == e[..|a|] == p + [tn];
    assert p + [tn] + b == a + b;
    AroundAt(p, b, tn, node, a, b);
    assert pre + (tl + tr) + post == p + [node] + b;
  }

  /** A record differs from the one after it. */
  lemma NextDiffers(pre: seq<Links>, tl: seq<Links>, tn: Links, node: Links, b: seq<Links>, e: seq<Links>)
    requires e == pre + (tl + [tn] + []) + ([node] + b) && Sorted(e)
    ensures tn != node
  {
    var i := |pre| + |tl|;
    assert e[i] == tn && e[i + 1] == node;
  }

  lemma NewInOrder(hole: Ctx, n: Links)
    ensures
      var sub := Node(n, Leaf, Leaf);
      && InOrder(Plug(hole, sub)) == Pre(hole) + [n] + Post(hole) && Nodes(Plug(hole, sub)) == CtxNodes(hole) + {n}
      && InOrder(sub) == [n] && Nodes(sub) == {n}
  {
    var sub := Node(n, Leaf, Leaf);
    PlugInOrder(hole, sub);
    PlugNodes(hole, sub);
    assert InOrder(sub) == [n] && Nodes(sub) == {n};
  }

  lemma PickedSuccessor(d: Ctx, l: Tree, r: Tree, node: Links, c: Ctx, t: Tree)
    requires Plug(c, t) == Plug(d, Node(node, l, r)) && t.Node? && t.l == Leaf
    requires Pre(c) == Pre(d) + InOrder(l) + [node] && Sorted(InOrder(Plug(c, t)))
    ensures Around(Pre(c) + (InOrder(t.l) + InOrder(t.r)) + Post(c), t.n, node, Pre(d) + InOrder(l),
        InOrder(r) + Post(d))
  {
    PlugInOrder(c, t);
    PlugInOrder(d, Node(node, l, r));
    Regroup(Pre(d), InOrder(l), node, InOrder(r), Post(d));
    SuccessorAround(t.n, InOrder(t.r), Post(c), Pre(d) + InOrder(l), node, InOrder(r) + Post(d));
  }

  lemma PartOrder(c: Ctx, t: Tree)
    requires t.Node?
    ensures InOrder(Plug(c, t)) == Pre(c) + (InOrder(t.l) + [t.n] + InOrder(t.r)) + Post(c)
  {
    PlugInOrder(c, t);
  }

  lemma HoleOrder(d: Ctx, node: Links, l: Tree, r: Tree)
    ensures InOrder(Plug(d, Node(node, l, r))) == (Pre(d) + InOrder(l)) + [node] + (InOrder(r) + Post(d))
  {
    PlugInOrder(d, Node(node, l, r));
    Regroup(Pre(d), InOrder(l), node, InOrder(r), Post(d));
  }

  lemma OthersLeft(nodes: set<Links>, victim: Links, node: Links, all: set<Links>, root: Links)
    requires nodes + {victim} == all - {root} && victim !in nodes
    ensures if node == victim then nodes == all - {node} - {root}
        else nodes - {node} + {victim} == all - {node} - {root}
  {
  }

  lemma PickedDiffers(r: Tree, d: Ctx, node: Links, c: Ctx, t: Tree)
    requires t.Node? && t.r == Leaf && Post(c) == [node] + (InOrder(r) + Post(d)) && Sorted(InOrder(Plug(c, t)))
    ensures t.n != node
  {
    PartOrder(c, t);
    NextDiffers(Pre(c), InOrder(t.l), t.n, node, InOrder(r) + Post(d), InOrder(Plug(c, t)));
  }

  lemma PickedPredecessor(d: Ctx, l: Tree, r: Tree, node: Links, c: Ctx, t: Tree)
    requires Plug(c, t) == Plug(d, Node(node, l, r)) && t.Node? && t.r == Leaf && t.n != node
    requires Post(c) == [node] + (InOrder(r) + Post(d))
    ensures Around(Pre(c) + (InOrder(t.l) + InOrder(t.r)) + Post(c), t.n, node, Pre(d) + InOrder(l),
        InOrder(r) + Post(d))
  {
    PickedBoth(d, l, r, node, c, t, InOrder(Plug(c, t)));
    PickedAround(Pre(c), InOrder(t.l), t.n, InOrder(t.r), Post(c), Pre(d) + InOrder(l), node, InOrder(r) + Post(d),
        InOrder(Plug(c, t)));
  }

  /** The record tn stands just before node in e. */
  ghost predicate Gathered(pre: seq<Links>, tl: seq<Links>, tn: Links, tr: seq<Links>, post: seq<Links>,
                           a: seq<Links>, node: Links, b: seq<Links>, e: seq<Links>)
  {
    tr == [] && post == [node] + b && tn != node && e == pre + (tl + [tn] + tr) + post && e == a + [node] + b
  }

  lemma PickedBoth(d: Ctx, l: Tree, r: Tree, node: Links, c: Ctx, t: Tree, e: seq<Links>)
    requires Plug(c, t) == Plug(d, Node(node, l, r)) && t.Node? && t.r == Leaf && t.n != node
        && e == InOrder(Plug(c, t))
    requires Post(c) == [node] + (InOrder(r) + Post(d))
    ensures Gathered(Pre(c), InOrder(t.l), t.n, InOrder(t.r), Post(c), Pre(d) + InOrder(l), node,
        InOrder(r) + Post(d), e)
  {
    PartOrder(c, t);
    HoleOrder(d, node, l, r);
  }

  lemma PickedAround(pre: seq<Links>, tl: seq<Links>, tn: Links, tr: seq<Links>, post: seq<Links>,
                     a: seq<Links>, node: Links, b: seq<Links>, e: seq<Links>)
    requires Gathered(pre, tl, tn, tr, post, a, node, b, e)
    ensures Around(pre + (tl + tr) + post, tn, node, a, b)
  {
    PredecessorAround(pre, tl, tn, tr, post, a, node, b, e);
  }

  lemma ShrunkSide(m: Mem, c: Ctx, t: Tree, s: Links, h: int)
    requires Shrunk(m, c, t, s, h) && t.Node?
    ensures t.n in m && m[t.n].parent == CtxNode(c, s) && m[t.n].parent in m
    ensures (m[m[t.n].parent].right == t.n) <==> !c.InLeft?
  {
    SideOfRoot(m, c, t, s);
  }

  /** The victim's only child, and the record it will hang from. */
  lemma VictimView(m: Mem, c: Ctx, t: Tree, sub: Tree, s: Links)
    requires Climbing(m, c, t, s, H(t)) && t.Node? && (t.l == Leaf || t.r == Leaf)
    requires sub == if t.l.Node? then t.l else t.r
    ensures CtxNode(c, s) in m && t.n in m && Root(sub) == (if m[t.n].left != null then m[t.n].left else m[t.n].right)
    ensures Root(sub) != null ==> Root(sub) in m && Root(sub) != t.n && Root(sub) != s
    ensures CtxNode(c, s) != t.n && CtxNode(c, s) != Root(sub) && H(sub) == H(t) - 1
    ensures Linked(m, sub, t.n) && Balanced(m, sub) && Proper(sub)
    ensures Nodes(sub) <= Nodes(t)
  {
    assert CtxNode(c, s) in CtxNodes(c) + {s};
    assert Linked(m, sub, t.n);
    if sub.Node? {
      assert sub.n in Nodes(sub) && sub.n in m;
    }
  }

  /** Bypassing a record with at most one child leaves its subtree one level lower. */
  lemma Unlinked(m: Mem, m': Mem, c: Ctx, t: Tree, sub: Tree, s: Links)
    requires Climbing(m, c, t, s, H(t)) && t.Node? && (t.l == Leaf || t.r == Leaf)
    requires sub == if t.l.Node? then t.l else t.r
    requires CtxNode(c, s) in m && (Root(sub) != null ==> Root(sub) in m)
    requires
      var m1 := WithChild(m, CtxNode(c, s), c.InLeft?, Root(sub));
      m' == if Root(sub) == null then m1 else WithParent(m1, Root(sub), CtxNode(c, s))
    ensures Climbing(m', c, sub, s, H(t))
  {
    VictimView(m, c, t, sub, s);
    Bypassed(m, m', c, sub, t.n, s, H(t));
  }

  lemma Bypassed(m: Mem, m': Mem, c: Ctx, sub: Tree, was: Links, s: Links, h: int)
    requires CtxLinked(m, c, s, was) && CtxBalanced(m, c, h) && CtxProper(c) && s !in CtxNodes(c)
    requires Linked(m, sub, was) && Balanced(m, sub) && Proper(sub) && Nodes(sub) !! CtxNodes(c) && s !in Nodes(sub)
    requires s in m && m[s].parent == s && m[s].left == null
    requires m'.Keys == m.Keys && SameBalances(m, m', m.Keys)
    requires forall x :: x in m && x != CtxNode(c, s) && x != Root(sub) ==> m'[x] == m[x]
    requires sub.Node? ==> m'[sub.n] == m[sub.n].(parent := CtxNode(c, s))
    requires CtxNode(c, s) in m
    requires m'[CtxNode(c, s)] == WithChild(m, CtxNode(c, s), c.InLeft?, Root(sub))[CtxNode(c, s)]
    ensures Climbing(m', c, sub, s, h)
  {
    var g := CtxNode(c, s);
    assert g in CtxNodes(c) + {s};
    assert sub.Node? ==> sub.n in Nodes(sub) && sub.n !in Nodes(sub.l) + Nodes(sub.r);
    ChildAbove(m, m', c, s, was, Root(sub));
    BalancedFrame(m, m', sub);
    CtxBalancedFrame(m, m', c, h);
    TurnedInner(m, m', sub, was, g);
  }

  /** RtlpCopyAvlNodeData (rtl/rtlavl.h:27-33). */
  method CopyNodeData(to: Links, from: Links, ghost all: set<Links>)
    requires to in all && from in all
    modifies to`Parent, to`LeftChild, to`RightChild, to`Balance
    ensures Snap(all) == old(Snap(all))[to := old(Snap(all))[from]]
  {
    to.Parent, to.LeftChild, to.RightChild, to.Balance := from.Parent, from.LeftChild, from.RightChild, from.Balance;
  }

  /** The parent's link and the children's parents, pointed at a record that has just been copied. */
  method Relink(x: Links, isLeft: bool, ghost all: set<Links>)
    requires x in all && x.Parent in all && x.Parent != x
    requires x.LeftChild != null ==> x.LeftChild in all && x.LeftChild != x && x.LeftChild != x.Parent
    requires x.RightChild != null ==> x.RightChild in all && x.RightChild != x && x.RightChild != x.Parent
    requires x.LeftChild == null || x.LeftChild != x.RightChild
    modifies all`Parent, all`LeftChild, all`RightChild
    ensures
      var m, g, l, r := old(Snap(all)), old(x.Parent), old(x.LeftChild), old(x.RightChild);
      && Snap(all)[g] == WithChild(m, g, isLeft, x)[g]
      && (l != null ==> Snap(all)[l] == m[l].(parent := x))
      && (r != null ==> Snap(all)[r] == m[r].(parent := x))
      && forall y :: y in m && y != g && y != l && y != r ==> Snap(all)[y] == m[y]
  {
    SetChild(x.Parent, isLeft, x, all);
    if x.LeftChild != null { SetParent(x.LeftChild, x, all); }
    if x.RightChild != null { SetParent(x.RightChild, x, all); }
  }

  /** Copy the links and the balance, then relink the parent and the children. */
  method MoveInto(x: Links, node: Links, ghost all: set<Links>)
    requires x in all && node in all && x != node && node.Parent in all && node.Parent != x
    requires node.LeftChild != null ==> node.LeftChild in all && node.LeftChild != x && node.LeftChild != node.Parent
    requires node.RightChild != null ==>
              node.RightChild in all && node.RightChild != x && node.RightChild != node.Parent
    requires node.LeftChild == null || node.LeftChild != node.RightChild
    modifies all`Parent, all`LeftChild, all`RightChild, all`Balance
    ensures
      var m, g, l, r := old(Snap(all)), old(node.Parent), old(node.LeftChild), old(node.RightChild);
      && Took(m, Snap(all), node, x, g, m[g].left == node)
      && (l != null ==> Snap(all)[l] == m[l].(parent := x))
      && (r != null ==> Snap(all)[r] == m[r].(parent := x))
      && SameElsewhere(m, Snap(all), {x, g, l, r})
  {
    var isLeft := node.Parent.LeftChild == node;
    CopyNodeData(x, node, all);
    Relink(x, isLeft, all);
  }

  lemma PlaceView(m: Mem, node: Links, l: Tree, r: Tree, d: Ctx, s: Links)
    requires Placed(m, Node(node, l, r), d, s)
    ensures node in m && m[node].left == Root(l) && m[node].right == Root(r) && m[node].parent == CtxNode(d, s)
    ensures Root(l) != null ==> Root(l) in m && Root(l) in Nodes(l)
    ensures Root(r) != null ==> Root(r) in m && Root(r) in Nodes(r)
    ensures CtxNode(d, s) in CtxNodes(d) + {s} && CtxNode(d, s) in m
    ensures Nodes(l) !! Nodes(r) && CtxNode(d, s) !in Nodes(l) + Nodes(r)
  {
    assert Linked(m, l, node) && Linked(m, r, node);
  }

  ghost predicate SameElsewhere(m: Mem, m': Mem, touched: set<Links?>) {
    forall y :: y in m && y !in touched ==> y in m' && m'[y] == m[y]
  }

  ghost predicate Took(m: Mem, m': Mem, node: Links, x: Links, g: Links, left: bool) {
    && node in m && x in m' && m'[x] == m[node]
    && g in m && g in m' && m'[g] == WithChild(m, g, left, x)[g]
  }

  ghost predicate Adopted(m: Mem, m': Mem, t: Tree, x: Links) {
    t.Node? ==> t.n in m && t.n in m' && m'[t.n] == m[t.n].(parent := x)
  }

  /** The place of node, with its links and balance, is taken over by a record from outside. */
  lemma Replaced(m: Mem, m': Mem, node: Links, x: Links, l: Tree, r: Tree, d: Ctx, s: Links)
    requires Climbing(m, d, Node(node, l, r), s, H(Node(node, l, r)))
    requires x !in Nodes(Node(node, l, r)) + CtxNodes(d) + {s}
    requires Took(m, m', node, x, CtxNode(d, s), d.InLeft?) && Adopted(m, m', l, x) && Adopted(m, m', r, x)
    requires SameElsewhere(m, m', {x, CtxNode(d, s), Root(l), Root(r)})
    ensures Climbing(m', d, Node(x, l, r), s, H(Node(node, l, r)))
  {
    var h := H(Node(node, l, r));
    var g := CtxNode(d, s);
    PlaceView(m, node, l, r, d, s);
    ReplacedSubtrees(m, m', node, x, l, r, g);
    ReplacedAbove(m, m', node, x, Nodes(l) + Nodes(r), d, s, h);
    assert H(Node(x, l, r)) == h;
  }

  lemma ReplacedSubtrees(m: Mem, m': Mem, node: Links, x: Links, l: Tree, r: Tree, g: Links)
    requires Linked(m, l, node) && Linked(m, r, node) && Balanced(m, l) && Balanced(m, r)
    requires Proper(l) && Proper(r) && Nodes(l) !! Nodes(r) && x !in Nodes(l) + Nodes(r) && g !in Nodes(l) + Nodes(r)
    requires Adopted(m, m', l, x) && Adopted(m, m', r, x)
    requires SameElsewhere(m, m', {x, g, Root(l), Root(r)})
    ensures Linked(m', l, x) && Linked(m', r, x) && Balanced(m', l) && Balanced(m', r)
  {
    ReplacedBelow(m, m', l, node, x, {x, g} + Nodes(r));
    ReplacedBelow(m, m', r, node, x, {x, g} + Nodes(l));
  }

  lemma ReplacedAbove(m: Mem, m': Mem, node: Links, x: Links, below: set<Links>, d: Ctx, s: Links, h: int)
    requires CtxLinked(m, d, s, node) && CtxBalanced(m, d, h) && CtxProper(d) && s !in CtxNodes(d)
    requires below !! CtxNodes(d) + {s} && x !in CtxNodes(d) + {s}
    requires s in m && m[s].parent == s && m[s].left == null
    requires CtxNode(d, s) in m && CtxNode(d, s) in m'
    requires m'[CtxNode(d, s)] == WithChild(m, CtxNode(d, s), d.InLeft?, x)[CtxNode(d, s)]
    requires forall y :: y in m && y != x && y != CtxNode(d, s) && y !in below ==> y in m' && m'[y] == m[y]
    ensures CtxLinked(m', d, s, x) && CtxBalanced(m', d, h)
    ensures s in m' && m'[s].parent == s && m'[s].left == null
  {
    assert SameBalances(m, m', CtxNodes(d));
    ChildAbove(m, m', d, s, node, x);
    CtxBalancedFrame(m, m', d, h);
  }

  lemma ReplacedBelow(m: Mem, m': Mem, t: Tree, node: Links, x: Links, others: set<Links>)
    requires Linked(m, t, node) && Balanced(m, t) && Proper(t) && others !! Nodes(t)
    requires t.Node? ==> t.n in m' && m'[t.n] == m[t.n].(parent := x)
    requires forall y :: y in m && y !in others && y != Root(t) ==> y in m' && m'[y] == m[y]
    ensures Linked(m', t, x) && Balanced(m', t)
  {
    if t.Node? {
      assert t.n in Nodes(t) && t.n !in Nodes(t.l) + Nodes(t.r);
      assert Nodes(t.l) <= Nodes(t) && Nodes(t.r) <= Nodes(t);
    }
    TurnedInner(m, m', t, node, x);
    BalancedFrame(m, m', t);
  }

  /** The records without the one that has this key, if there is one. */
  ghost function Removed(s: seq<Links>, key: int): seq<Links> {
    var i := Rank(s, key);
    if i < |s| && s[i].Key == key then s[..i] + s[i + 1..] else s
  }

  lemma RemovedAt(a: seq<Links>, n: Links, b: seq<Links>)
    requires Sorted(a + [n] + b)
    ensures Removed(a + [n] + b, n.Key) == a + b && Sorted(a + b)
    ensures n !in a + b
  {
    var s := a + [n] + b;
    RankAt(a, n, b);
    assert s[|a|] == n && s[..|a|] == a && s[|a| + 1..] == b;
    assert forall i :: 0 <= i < |a + b| ==> (a + b)[i] == s[if i < |a| then i else i + 1];
  }

  /** A subtree of a valid table, with the context above it. */
  lemma PartOfWhole(m: Mem, c: Ctx, t: Tree, s: Links, tree: Tree)
    requires Plug(c, t) == tree && Placed(m, tree, Top, s) && Balanced(m, tree)
    ensures Climbing(m, c, t, s, H(t)) && CtxH(c, H(t)) == H(tree)
  {
    PlugPlaced(m, c, t, s);
    PlugBalanced(m, c, t);
    PlugHeight(c, t);
  }

  lemma Regroup4(a: seq<Links>, l: seq<Links>, r: seq<Links>, b: seq<Links>)
    ensures a + (l + r) + b == (a + l) + (r + b)
  {
  }

  lemma UnlinkedOrder(c: Ctx, t: Tree, sub: Tree)
    requires t.Node? && (t.l == Leaf || t.r == Leaf) && sub == if t.l.Node? then t.l else t.r
    requires Sorted(InOrder(Plug(c, t))) && Proper(Plug(c, t))
    ensures InOrder(Plug(c, sub)) == Pre(c) + (InOrder(t.l) + InOrder(t.r)) + Post(c)
    ensures Sorted(InOrder(Plug(c, sub)))
    ensures Nodes(Plug(c, t)) == Nodes(Plug(c, sub)) + {t.n} && t.n !in Nodes(Plug(c, sub))
  {
    UnlinkedSorted(c, t);
    SubOrder(c, t, sub);
    UnlinkedNodes(c, t, sub);
  }

  lemma SubOrder(c: Ctx, t: Tree, sub: Tree)
    requires t.Node? && (t.l == Leaf || t.r == Leaf) && sub == if t.l.Node? then t.l else t.r
    ensures InOrder(Plug(c, sub)) == Pre(c) + (InOrder(t.l) + InOrder(t.r)) + Post(c)
  {
    PlugInOrder(c, sub);
    assert InOrder(sub) == InOrder(t.l) + InOrder(t.r);
  }

  lemma UnlinkedSorted(c: Ctx, t: Tree)
    requires t.Node? && Sorted(InOrder(Plug(c, t)))
    ensures Sorted(Pre(c) + (InOrder(t.l) + InOrder(t.r)) + Post(c))
  {
    PlugInOrder(c, t);
    Regroup(Pre(c), InOrder(t.l), t.n, InOrder(t.r), Post(c));
    RemovedAt(Pre(c) + InOrder(t.l), t.n, InOrder(t.r) + Post(c));
    Regroup4(Pre(c), InOrder(t.l), InOrder(t.r), Post(c));
  }

  lemma UnlinkedNodes(c: Ctx, t: Tree, sub: Tree)
    requires t.Node? && (t.l == Leaf || t.r == Leaf) && sub == if t.l.Node? then t.l else t.r
    requires Proper(Plug(c, t))
    ensures Nodes(Plug(c, t)) == Nodes(Plug(c, sub)) + {t.n} && t.n !in Nodes(Plug(c, sub))
  {
    PlugNodes(c, sub);
    PlugNodes(c, t);
    PlugProper(c, t);
    assert Nodes(t) == Nodes(sub) + {t.n} && t.n !in Nodes(sub);
  }

  lemma Replace(p: seq<Links>, x: Links, q: seq<Links>, i: nat, y: Links)
    requires Sorted(p + [x] + q) && i < |p + [x] + q| && (p + [x] + q)[i] == x
    ensures (p + [x] + q)[i := y] == p + [y] + q
  {
    assert (p + [x] + q)[|p|] == x;
  }

  /** Putting y where x stands changes one record of the order. */
  lemma Swapped(d: Ctx, x: Links, y: Links, l: Tree, r: Tree, i: nat)
    requires Sorted(InOrder(Plug(d, Node(x, l, r))))
    requires i < |InOrder(Plug(d, Node(x, l, r)))| && InOrder(Plug(d, Node(x, l, r)))[i] == x
    ensures InOrder(Plug(d, Node(y, l, r))) == InOrder(Plug(d, Node(x, l, r)))[i := y]
  {
    PlugInOrder(d, Node(x, l, r));
    PlugInOrder(d, Node(y, l, r));
    Regroup(Pre(d), InOrder(l), x, InOrder(r), Post(d));
    Regroup(Pre(d), InOrder(l), y, InOrder(r), Post(d));
    Replace(Pre(d) + InOrder(l), x, InOrder(r) + Post(d), i, y);
  }

  lemma SwappedNodes(d: Ctx, x: Links, y: Links, l: Tree, r: Tree)
    requires Proper(Plug(d, Node(x, l, r)))
    ensures Nodes(Plug(d, Node(y, l, r))) == Nodes(Plug(d, Node(x, l, r))) - {x} + {y}
  {
    PlugNodes(d, Node(x, l, r));
    PlugNodes(d, Node(y, l, r));
    PlugProper(d, Node(x, l, r));
    var others := Nodes(l) + Nodes(r) + CtxNodes(d);
    assert x !in others;
    assert Nodes(Node(x, l, r)) + CtxNodes(d) == {x} + others;
    assert Nodes(Node(y, l, r)) + CtxNodes(d) == {y} + others;
  }

  /** Where the record to delete stands after the victim has been unlinked. */
  lemma FindStandIn(m: Mem, t: Tree, s: Links, node: Links, victim: Links, a: seq<Links>, b: seq<Links>)
    returns (d: Ctx, l: Tree, r: Tree)
    requires Placed(m, t, Top, s) && Balanced(m, t) && victim != node && victim !in Nodes(t) + {s}
    requires Around(InOrder(t), victim, node, a, b) && Sorted(InOrder(t))
    ensures Plug(d, Node(node, l, r)) == t
    ensures Climbing(m, d, Node(node, l, r), s, H(Node(node, l, r))) && CtxH(d, H(Node(node, l, r))) == H(t)
    ensures victim !in Nodes(Node(node, l, r)) && victim !in CtxNodes(d)
    ensures InOrder(Plug(d, Node(victim, l, r))) == a + b
    ensures Nodes(Plug(d, Node(victim, l, r))) == Nodes(t) - {node} + {victim}
  {
    var i :| StandsAt(InOrder(t), i, victim, node, a, b);
    NodesInOrder(t, node);
    d, l, r := Standing(t, node);
    PartOfWhole(m, d, Node(node, l, r), s, t);
    PlugNodes(d, Node(node, l, r));
    Swapped(d, node, victim, l, r, i);
    SwappedNodes(d, node, victim, l, r);
  }

  lemma StoodIn(m: Mem, d: Ctx, node: Links, x: Links, l: Tree, r: Tree, s: Links)
    requires Climbing(m, d, Node(x, l, r), s, H(Node(node, l, r)))
    ensures Placed(m, Plug(d, Node(x, l, r)), Top, s) && Balanced(m, Plug(d, Node(x, l, r)))
    ensures H(Plug(d, Node(x, l, r))) == CtxH(d, H(Node(node, l, r)))
  {
    assert H(Node(x, l, r)) == H(Node(node, l, r));
    PlugPlaced(m, d, Node(x, l, r), s);
    PlugBalanced(m, d, Node(x, l, r));
    PlugHeight(d, Node(x, l, r));
  }

  // ----- the table by keys

  ghost function KeysOf(s: seq<Links>): (k: seq<int>)
    ensures |k| == |s| && forall i :: 0 <= i < |s| ==> k[i] == s[i].Key
  {
    seq(|s|, i requires 0 <= i < |s| => s[i].Key)
  }

  /** The record that has this key, if there is one. */
  ghost function FindIn(s: seq<Links>, key: int): Links? {
    var i := Rank(s, key);
    if i < |s| && s[i].Key == key then s[i] else null
  }

  ghost function Inserted(s: seq<Links>, n: Links): seq<Links> {
    s[..Rank(s, n.Key)] + [n] + s[Rank(s, n.Key)..]
  }

  ghost function CursorOf(s: seq<Links>, key: Links?, root: Links): nat {
    if key == null || key == root then 0 else Rank(s, key.Key) + 1
  }

  ghost function StateOf(s: seq<Links>, key: Links?, root: Links): Enum.State {
    Enum.State(KeysOf(s), CursorOf(s, key, root))
  }

  /** A restart key is absent, the sentinel, or a record of the table. */
  ghost predicate Known(s: seq<Links>, key: Links?, root: Links) {
    root !in s && (key == null || key == root || key in s)
  }

  lemma KnownKey(tree: Tree, key: Links?, root: Links)
    requires root !in Nodes(tree) && (key != null ==> key in Nodes(tree) + {root})
    ensures Known(InOrder(tree), key, root)
  {
    NodesInOrder(tree, root);
    if key != null { NodesInOrder(tree, key); }
  }

  lemma RankAtIndex(s: seq<Links>, i: nat)
    requires Sorted(s) && i < |s|
    ensures Rank(s, s[i].Key) == i
  {
    assert s == s[..i] + [s[i]] + s[i + 1..];
    RankAt(s[..i], s[i], s[i + 1..]);
  }

  lemma {:induction false} RankKeys(s: seq<Links>, key: int)
    ensures Enum.Rank(KeysOf(s), key) == Rank(s, key)
  {
    if s != [] {
      assert KeysOf(s)[1..] == KeysOf(s[1..]);
      RankKeys(s[1..], key);
    }
  }

  /** What the outcome of the search says about the table's keys. */
  lemma FoundMeaning(tree: Tree, c: Ctx, t: Tree)
    requires Plug(c, t) == tree && Sorted(InOrder(tree)) && t.Node?
    ensures FindIn(InOrder(tree), t.n.Key) == t.n && t.n in Nodes(tree)
  {
    AtRank(tree, c, t);
  }

  lemma MissingMeaning(tree: Tree, c: Ctx, key: int)
    requires Plug(c, Leaf) == tree && Sorted(InOrder(tree)) && Below(Pre(c), key) && Above(Post(c), key)
    ensures FindIn(InOrder(tree), key) == null && InOrder(tree) == Pre(c) + Post(c)
        && Rank(InOrder(tree), key) == |Pre(c)|
  {
    PlugInOrder(c, Leaf);
    assert InOrder(tree) == Pre(c) + Post(c);
    RankSplit(Pre(c), Post(c), key);
  }

  lemma SearchMeaning(tree: Tree, c: Ctx, t: Tree, res: SearchResult, key: int)
    requires Plug(c, t) == tree && Sorted(InOrder(tree))
    requires if res == TableFoundNode then t.Node? && t.n.Key == key
        else t == Leaf && Below(Pre(c), key) && Above(Post(c), key)
    ensures if res == TableFoundNode then FindIn(InOrder(tree), key) == t.n && t.n in Nodes(tree)
            else FindIn(InOrder(tree), key) == null
  {
    if res == TableFoundNode {
      FoundMeaning(tree, c, t);
    } else {
      MissingMeaning(tree, c, key);
    }
  }

  /** A key is found exactly when some record has it. */
  lemma FindInMeaning(s: seq<Links>, key: int)
    requires Sorted(s)
    ensures FindIn(s, key) != null <==> exists i :: 0 <= i < |s| && s[i].Key == key
    ensures FindIn(s, key) != null ==> FindIn(s, key) in s && FindIn(s, key).Key == key
  {
    if i :| 0 <= i < |s| && s[i].Key == key {
      RankAtIndex(s, i);
    }
  }

  lemma HoleSorted(tree: Tree, c: Ctx, n: Links)
    requires Plug(c, Leaf) == tree && Sorted(InOrder(tree)) && Below(Pre(c), n.Key) && Above(Post(c), n.Key)
    ensures Sorted(Pre(c) + [n] + Post(c)) && Pre(c) + [n] + Post(c) == Inserted(InOrder(tree), n)
  {
    MissingMeaning(tree, c, n.Key);
    SpreadSorted(Pre(c), n, Post(c));
  }

  lemma SpreadSorted(a: seq<Links>, n: Links, b: seq<Links>)
    requires Sorted(a + b) && Below(a, n.Key) && Above(b, n.Key)
    ensures Sorted(a + [n] + b)
  {
    var s := a + [n] + b;
    assert forall i {:trigger s[i]} :: 0 <= i < |s| ==>
              s[i] == if i < |a| then (a + b)[i] else if i == |a| then n else (a + b)[i - 1];
    assert forall i :: 0 <= i < |a| ==> (a + b)[i] == a[i];
    assert forall i :: |a| <= i < |a + b| ==> (a + b)[i] == b[i - |a|];
  }

  lemma InsertedKeys(s: seq<Links>, n: Links)
    requires Sorted(s) && FindIn(s, n.Key) == null
    ensures KeysOf(Inserted(s, n)) == Enum.With(KeysOf(s), n.Key) && n.Key !in KeysOf(s)
  {
    RankKeys(s, n.Key);
    FindInMeaning(s, n.Key);
  }

  lemma InsertedView(s: seq<Links>, n: Links, key: Links?, root: Links)
    requires Sorted(s) && FindIn(s, n.Key) == null && Known(s, key, root) && Sorted(Inserted(s, n))
    ensures StateOf(Inserted(s, n), key, root) == Enum.Step(StateOf(s, key, root), Enum.Insert(n.Key))
  {
    InsertedKeys(s, n);
    RankKeys(s, n.Key);
    if key != null && key in s { InsertedRank(s, n, key); }
  }

  lemma InsertedRank(s: seq<Links>, n: Links, key: Links)
    requires Sorted(s) && key in s && Sorted(Inserted(s, n))
    ensures Rank(Inserted(s, n), key.Key) == Rank(s, key.Key) + (if Rank(s, key.Key) < Rank(s, n.Key) then 0 else 1)
    ensures Rank(s, key.Key) < |s| && s[Rank(s, key.Key)] == key
  {
    var i :| 0 <= i < |s| && s[i] == key;
    RankAtIndex(s, i);
    InsertedIndex(s, n, i);
    RankAtIndex(Inserted(s, n), if i < Rank(s, n.Key) then i else i + 1);
  }

  lemma InsertedIndex(s: seq<Links>, n: Links, i: nat)
    requires i < |s|
    ensures
      var j := if i < Rank(s, n.Key) then i else i + 1;
      j < |Inserted(s, n)| && Inserted(s, n)[j] == s[i]
  {
  }

  lemma AbsentView(s: seq<Links>, k: int, key: Links?, root: Links)
    requires Sorted(s) && FindIn(s, k) == null
    ensures Enum.Step(StateOf(s, key, root), Enum.Delete(k)) == StateOf(s, key, root) && Removed(s, k) == s
  {
    RankKeys(s, k);
    FindInMeaning(s, k);
  }

  lemma DeletedKeys(s: seq<Links>, key: int)
    requires Sorted(s) && FindIn(s, key) != null
    ensures KeysOf(Removed(s, key)) == Enum.Without(KeysOf(s), key) && key in KeysOf(s)
  {
    RankKeys(s, key);
    KeysWithout(s, Rank(s, key));
    assert KeysOf(s)[Rank(s, key)] == key;
  }

  lemma KeysWithout(s: seq<Links>, i: nat)
    requires i < |s|
    ensures KeysOf(s[..i] + s[i + 1..]) == KeysOf(s)[..i] + KeysOf(s)[i + 1..]
  {
  }

  lemma DeletedCursor(s: seq<Links>, j: nat, i: nat)
    requires Sorted(s) && i < |s| && j < |s| && i != j
    ensures Rank(Removed(s, s[j].Key), s[i].Key) == if j < i then i - 1 else i
  {
    var a, b := s[..j], s[j + 1..];
    assert s == a + [s[j]] + b;
    RankAtIndex(s, j);
    RemovedAt(a, s[j], b);
    RankAtIndex(a + b, if j < i then i - 1 else i);
  }

  lemma DeletedView(s: seq<Links>, n: Links, was: Links?, now: Links?, root: Links)
    requires Sorted(s) && n in s && Known(s, was, root) && Known(s, now, root)
    requires if was == n then now != null && now != n && CursorOf(s, now, root) == CursorOf(s, n, root) - 1
        else now == was
    ensures StateOf(Removed(s, n.Key), now, root) == Enum.Step(StateOf(s, was, root), Enum.Delete(n.Key))
  {
    var j :| 0 <= j < |s| && s[j] == n;
    RankAtIndex(s, j);
    DeletedKeys(s, n.Key);
    RankKeys(s, n.Key);
    MovedCursor(s, j, now, root);
  }

  lemma MovedCursor(s: seq<Links>, j: nat, key: Links?, root: Links)
    requires Sorted(s) && j < |s| && Known(s, key, root) && key != s[j]
    ensures CursorOf(Removed(s, s[j].Key), key, root)
         == if j < CursorOf(s, key, root) then CursorOf(s, key, root) - 1 else CursorOf(s, key, root)
  {
    if key != null && key in s {
      var i :| 0 <= i < |s| && s[i] == key;
      RankAtIndex(s, i);
      DeletedCursor(s, j, i);
    }
  }
}
