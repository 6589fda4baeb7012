/**
  `TreeNode<String>`: a binary-tree cell whose data and two child references
  are updated in place. The ghost `Repr` is the set of nodes reachable from
  the cell; `Valid` says they form a tree (no node shared, no cycle), which
  is what makes the recursive operations terminate.
 */
module Nodes {
  import opened JavaLang
  import opened CodeTreeModel

  class TreeNode {
    var data: JString
    var leftChild: TreeNode?
    var rightChild: TreeNode?
    ghost var Repr: set<TreeNode>

    ghost predicate Valid()
      reads this, Repr
      decreases Repr
    {
      && this in Repr
      && (leftChild != null ==>
            && leftChild in Repr && leftChild.Repr <= Repr && this !in leftChild.Repr
            && leftChild.Valid())
      && (rightChild != null ==>
            && rightChild in Repr && rightChild.Repr <= Repr && this !in rightChild.Repr
            && rightChild.Valid())
      && (leftChild != null && rightChild != null ==> leftChild.Repr !! rightChild.Repr)
    }

    /** `TreeNode(T dataNode)`: the given data and no children. */
    constructor (dataNode: JString)
      ensures Valid() && fresh(Repr) && Repr == {this}
      ensures data == dataNode && leftChild == null && rightChild == null
      ensures ModelOf(this) == Leaf(dataNode)
    {
      data := dataNode;
      leftChild := null;
      rightChild := null;
      Repr := {this};
    }

    /**
      `TreeNode(TreeNode<T> node)`: a deep copy. It holds the same data and
      copies of the children, a null child copied as null; every node of the
      copy is new, so the copy shares no node with the original.
     */
    constructor Copy(node: TreeNode)
      requires node.Valid()
      ensures Valid() && fresh(Repr)
      ensures data == node.data
      ensures ModelOf(this) == ModelOf(node)
      decreases node.Repr
    {
      label Start:
      var d := node.data;
      var l := node.leftChild;
      var lc: TreeNode? := null;
      if l != null {
        lc := new TreeNode.Copy(l);
        ModelOfUnchanged@Start(l);
      }
      label LeftCopied:
      var r := node.rightChild;
      var rc: TreeNode? := null;
      if r != null {
        rc := new TreeNode.Copy(r);
        ModelOfUnchanged@Start(r);
      }
      label RightCopied:
      ghost var below := (if lc == null then {} else lc.Repr) + (if rc == null then {} else rc.Repr);
      data := d;
      leftChild := lc;
      rightChild := rc;
      Repr := {this} + below;
      new;
      if lc != null {
        ModelOfUnchanged@LeftCopied(lc);
      }
      if rc != null {
        ModelOfUnchanged@RightCopied(rc);
      }
      ModelOfUnchanged@Start(node);
    }

    method GetData() returns (d: JString)
      ensures d == data
    {
      d := data;
    }

    method GetLeftChild() returns (c: TreeNode?)
      ensures c == leftChild
    {
      c := leftChild;
    }

    method GetRightChild() returns (c: TreeNode?)
      ensures c == rightChild
    {
      c := rightChild;
    }

    /** Replaces the left child reference, and nothing else. */
    method SetLeftChild(c: TreeNode?)
      modifies this
      ensures leftChild == c
      ensures data == old(data) && rightChild == old(rightChild) && Repr == old(Repr)
    {
      leftChild := c;
    }

    /** Replaces the right child reference, and nothing else. */
    method SetRightChild(c: TreeNode?)
      modifies this
      ensures rightChild == c
      ensures data == old(data) && leftChild == old(leftChild) && Repr == old(Repr)
    {
      rightChild := c;
    }
  }

  /** The tree a node reference denotes; `null` denotes the empty tree. */
  ghost function ModelOf(n: TreeNode?): Tree
    reads if n == null then {} else n.Repr
    requires n == null || n.Valid()
    decreases if n == null then {} else n.Repr
  {
    if n == null then Nil else Node(n.data, ModelOf(n.leftChild), ModelOf(n.rightChild))
  }

  /**
    The left child of `n` was replaced or changed below, and `n.Repr` took in
    its nodes, while `n`'s data, its right child and every node under the
    right child stayed as they were: `n` is still a tree, with the new left
    subtree in place of the old one.
   */
  twostate lemma LeftReplaced(n: TreeNode)
    requires old(n.Valid())
    requires n.leftChild != null && n.leftChild.Valid() && n !in n.leftChild.Repr
    requires n.data == old(n.data) && n.rightChild == old(n.rightChild)
    requires n.Repr == old(n.Repr) + n.leftChild.Repr
    requires n.rightChild != null ==> unchanged(old(n.rightChild.Repr)) && n.rightChild.Repr !! n.leftChild.Repr
    ensures n.Valid()
    ensures ModelOf(n) == Node(old(n.data), ModelOf(n.leftChild), old(ModelOf(n.rightChild)))
  {
    if n.rightChild != null {
      ModelOfUnchanged(n.rightChild);
    }
  }

  /** The mirror image of `LeftReplaced`. */
  twostate lemma RightReplaced(n: TreeNode)
    requires old(n.Valid())
    requires n.rightChild != null && n.rightChild.Valid() && n !in n.rightChild.Repr
    requires n.data == old(n.data) && n.leftChild == old(n.leftChild)
    requires n.Repr == old(n.Repr) + n.rightChild.Repr
    requires n.leftChild != null ==> unchanged(old(n.leftChild.Repr)) && n.leftChild.Repr !! n.rightChild.Repr
    ensures n.Valid()
    ensures ModelOf(n) == Node(old(n.data), old(ModelOf(n.leftChild)), ModelOf(n.rightChild))
  {
    if n.leftChild != null {
      ModelOfUnchanged(n.leftChild);
    }
  }

  /** A subtree none of whose nodes changed is still a tree and denotes the same value. */
  twostate lemma {:induction false} ModelOfUnchanged(n: TreeNode)
    requires old(n.Valid()) && unchanged(old(n.Repr))
    ensures n.Valid() && ModelOf(n) == old(ModelOf(n))
    decreases old(n.Repr)
  {
    if n.leftChild != null {
      ModelOfUnchanged(n.leftChild);
    }
    if n.rightChild != null {
      ModelOfUnchanged(n.rightChild);
    }
  }

  /**
    A copy can be changed, at its top node and at the node below it, without
    changing the original.
   */
  method CopyIsIndependent(node: TreeNode, c: TreeNode?)
    requires node.Valid()
    ensures ModelOf(node) == old(ModelOf(node))
  {
    var copy := new TreeNode.Copy(node);
    var below := copy.leftChild;
    if below != null {
      below.SetLeftChild(c);
      below.SetRightChild(null);
    }
    copy.SetLeftChild(c);
    copy.SetRightChild(null);
  }
}
