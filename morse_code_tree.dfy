/**
  `MorseCodeTree`: the root of a tree of `TreeNode`s, the recursive insert
  and fetch along a code, the building of the letter table and the in-order
  traversal. Each operation is proved against its counterpart on `Tree`
  values in `CodeTreeModel`.
 */
module MorseCodeTrees {
  import opened JavaLang
  import opened CodeTreeModel
  import opened Nodes
  import MorseAlphabet

  class MorseCodeTree {
    var root: TreeNode?
    ghost var Repr: set<object>

    ghost predicate Valid()
      reads this, Repr
    {
      this in Repr && (root != null ==> root in Repr && root.Repr <= Repr && root.Valid())
    }

    /** The tree of letters the object holds. */
    ghost function Abs(): Tree
      reads this, Repr
      requires Valid()
    {
      ModelOf(root)
    }

    /** `MorseCodeTree()`: builds the letter table. */
    constructor ()
      ensures Valid()
      ensures Abs() == MorseAlphabet.Table()
    {
      root := null;
      Repr := {this};
      new;
      BuildTree();
    }

    method GetRoot() returns (r: TreeNode?)
      ensures r == root
    {
      r := root;
    }

    /** Makes the given node the root: the tree now holds that node's subtree. */
    method SetRoot(newNode: TreeNode?)
      requires newNode == null || newNode.Valid()
      modifies this
      ensures Valid() && root == newNode
      ensures Repr == {this} + (if newNode == null then {} else newNode.Repr)
      ensures Abs() == ModelOf(newNode)
    {
      root := newNode;
      Repr := {this} + (if newNode == null then {} else newNode.Repr);
    }

    /** `insert(code, result)`: `addNode` from the root. */
    method Insert(code: string, result: JString) returns (outcome: Outcome)
      requires Valid()
      modifies Repr
      ensures Valid() && fresh(Repr - old(Repr)) && root == old(root)
      ensures outcome == InsertOutcome(old(Abs()), code, result)
      ensures old(root) != null && code != [] ==> outcome == Pass
      ensures Abs() == Put(old(Abs()), code, result)
    {
      outcome := AddNode(root, code, result);
      if root != null {
        Repr := Repr + root.Repr;
      }
    }

    /**
      `addNode(root, code, letter)` as intended: walks down `code` from
      `subRoot`, creating a null-data placeholder for each missing child on
      the way, and at the last symbol replaces that child with a new leaf
      holding `letter`. A symbol other than `.` or `-` ends the walk with no
      further change. As written, the placeholder constructor call raises a
      null-pointer exception instead (`CodeTreeModel.InsertAsWritten`); the
      two agree whenever the code's parent node exists.
     */
    method AddNode(subRoot: TreeNode?, code: string, letter: JString) returns (outcome: Outcome)
      requires subRoot == null || subRoot.Valid()
      modifies if subRoot == null then {} else subRoot.Repr
      ensures subRoot != null ==> subRoot.Valid() && fresh(subRoot.Repr - old(subRoot.Repr))
      ensures outcome == InsertOutcome(old(ModelOf(subRoot)), code, letter)
      ensures ModelOf(subRoot) == Put(old(ModelOf(subRoot)), code, letter)
      decreases |code|, 1
    {
      if |code| == 1 {
        outcome := AttachLeaf(subRoot, code, letter);
        return;
      }
      if |code| == 0 {
        return Fail(StringIndexOutOfBounds);
      }
      var direction := code[0];
      if direction == '.' {
        outcome := AddLeft(subRoot, code, letter);
      } else if direction == '-' {
        outcome := AddRight(subRoot, code, letter);
      } else {
        InsertOther(ModelOf(subRoot), code, letter);
        outcome := Pass;
      }
    }

    /**
      `addNode` on a code of two or more symbols starting with a dot: a
      placeholder left child if there is none (the intended behaviour; as
      written this raises), then `addNode` on the left child with the rest of
      the code.
     */
    method AddLeft(subRoot: TreeNode?, code: string, letter: JString) returns (outcome: Outcome)
      requires |code| >= 2 && code[0] == '.'
      requires subRoot == null || subRoot.Valid()
      modifies if subRoot == null then {} else subRoot.Repr
      ensures subRoot != null ==> subRoot.Valid() && fresh(subRoot.Repr - old(subRoot.Repr))
      ensures outcome == InsertOutcome(old(ModelOf(subRoot)), code, letter)
      ensures ModelOf(subRoot) == Put(old(ModelOf(subRoot)), code, letter)
      decreases |code|, 0
    {
      if subRoot == null {
        return Fail(NullPointer);
      }
      InsertStep(ModelOf(subRoot), code, letter);
      var l := subRoot.leftChild;
      if l == null {
        l := new TreeNode(Null);
        subRoot.SetLeftChild(l);
      }
      var _ := AddNode(l, code[1..], letter);
      subRoot.Repr := subRoot.Repr + l.Repr;
      LeftReplaced(subRoot);
      return Pass;
    }

    /** The mirror image of `AddLeft`: a code starting with a dash goes down the right child. */
    method AddRight(subRoot: TreeNode?, code: string, letter: JString) returns (outcome: Outcome)
      requires |code| >= 2 && code[0] == '-'
      requires subRoot == null || subRoot.Valid()
      modifies if subRoot == null then {} else subRoot.Repr
      ensures subRoot != null ==> subRoot.Valid() && fresh(subRoot.Repr - old(subRoot.Repr))
      ensures outcome == InsertOutcome(old(ModelOf(subRoot)), code, letter)
      ensures ModelOf(subRoot) == Put(old(ModelOf(subRoot)), code, letter)
      decreases |code|, 0
    {
      if subRoot == null {
        return Fail(NullPointer);
      }
      InsertStep(ModelOf(subRoot), code, letter);
      var r := subRoot.rightChild;
      if r == null {
        r := new TreeNode(Null);
        subRoot.SetRightChild(r);
      }
      var _ := AddNode(r, code[1..], letter);
      subRoot.Repr := subRoot.Repr + r.Repr;
      RightReplaced(subRoot);
      return Pass;
    }

    /**
      The last symbol of `addNode`: a new leaf holding `letter` replaces the
      child the step names; any other symbol changes nothing.
     */
    method AttachLeaf(subRoot: TreeNode?, code: string, letter: JString) returns (outcome: Outcome)
      requires |code| == 1
      requires subRoot == null || subRoot.Valid()
      modifies if subRoot == null then {} else {subRoot}
      ensures subRoot != null ==> subRoot.Valid() && fresh(subRoot.Repr - old(subRoot.Repr))
      ensures outcome == InsertOutcome(old(ModelOf(subRoot)), code, letter)
      ensures ModelOf(subRoot) == Put(old(ModelOf(subRoot)), code, letter)
    {
      InsertLast(ModelOf(subRoot), code, letter);
      if code == "." {
        if subRoot == null {
          return Fail(NullPointer);
        }
        var leaf := new TreeNode(letter);
        subRoot.SetLeftChild(leaf);
        subRoot.Repr := subRoot.Repr + leaf.Repr;
        LeftReplaced(subRoot);
      } else if code == "-" {
        if subRoot == null {
          return Fail(NullPointer);
        }
        var leaf := new TreeNode(letter);
        subRoot.SetRightChild(leaf);
        subRoot.Repr := subRoot.Repr + leaf.Repr;
        RightReplaced(subRoot);
      }
      return Pass;
    }

    /** `fetch(code)`: `fetchNode` from the root. */
    function Fetch(code: string): (r: Result<JString>)
      reads this, Repr
      requires Valid()
      ensures r == FetchIn(Abs(), code)
    {
      FetchNode(root, code)
    }

    /** `fetchNode(root, code)`: follows `code` from `subRoot` and reads the data where it ends. */
    function FetchNode(subRoot: TreeNode?, code: string): (r: Result<JString>)
      reads if subRoot == null then {} else subRoot.Repr
      requires subRoot == null || subRoot.Valid()
      ensures r == FetchIn(ModelOf(subRoot), code)
      decreases |code|
    {
      if |code| == 0 then
        if subRoot == null then Err(NullPointer) else Ok(subRoot.data)
      else if code[0] == '.' then
        if subRoot == null then Err(NullPointer) else FetchNode(subRoot.leftChild, code[1..])
      else if code[0] == '-' then
        if subRoot == null then Err(NullPointer) else FetchNode(subRoot.rightChild, code[1..])
      else Ok(Null)
    }

    /** `delete(data)`: not supported. */
    method Delete(data: JString) returns (r: Result<MorseCodeTree>)
      ensures r == Err(UnsupportedOperation)
    {
      r := Err(UnsupportedOperation);
    }

    /** `update()`: not supported. */
    method Update() returns (r: Result<MorseCodeTree>)
      ensures r == Err(UnsupportedOperation)
    {
      r := Err(UnsupportedOperation);
    }

    /** `buildTree()`: a new root holding the empty string, then the 26 letters, shortest codes first. */
    method BuildTree()
      requires Valid()
      modifies Repr
      ensures Valid()
      ensures Abs() == MorseAlphabet.Table()
    {
      root := new TreeNode(Str(""));
      Repr := {this} + root.Repr;
      ghost var start := Abs();
      InsertLetters();
      MorseAlphabet.LettersMakeTable(start);
    }

    /** The 26 insert calls of `buildTree`, block by block. */
    method InsertLetters()
      requires Valid()
      modifies Repr
      ensures Valid() && fresh(Repr - old(Repr)) && root == old(root)
      ensures Abs() == MorseAlphabet.Letters(old(Abs()))
    {
      InsertLevel1();
      InsertLevel2();
      InsertLevel3();
      InsertLevel4();
    }

    /** The block of `buildTree` that inserts the codes of one symbol. */
    method InsertLevel1()
      requires Valid()
      modifies Repr
      ensures Valid() && fresh(Repr - old(Repr)) && root == old(root)
      ensures Abs() == MorseAlphabet.Level1(old(Abs()))
    {
      var outcome := Insert(".", Str("e"));
      assert root != null ==> outcome == Pass;
      outcome := Insert("-", Str("t"));
      assert root != null ==> outcome == Pass;
    }

    /** The block of `buildTree` that inserts the codes of two symbols. */
    method InsertLevel2()
      requires Valid()
      modifies Repr
      ensures Valid() && fresh(Repr - old(Repr)) && root == old(root)
      ensures Abs() == MorseAlphabet.Level2(old(Abs()))
    {
      var outcome := Insert("..", Str("i"));
      assert root != null ==> outcome == Pass;
      outcome := Insert(".-", Str("a"));
      assert root != null ==> outcome == Pass;
      outcome := Insert("-.", Str("n"));
      assert root != null ==> outcome == Pass;
      outcome := Insert("--", Str("m"));
      assert root != null ==> outcome == Pass;
    }

    /** The block of `buildTree` that inserts the codes of three symbols. */
    method InsertLevel3()
      requires Valid()
      modifies Repr
      ensures Valid() && fresh(Repr - old(Repr)) && root == old(root)
      ensures Abs() == MorseAlphabet.Level3(old(Abs()))
    {
      var outcome := Insert("...", Str("s"));
      assert root != null ==> outcome == Pass;
      outcome := Insert("..-", Str("u"));
      assert root != null ==> outcome == Pass;
      outcome := Insert(".-.", Str("r"));
      assert root != null ==> outcome == Pass;
      outcome := Insert(".--", Str("w"));
      assert root != null ==> outcome == Pass;
      outcome := Insert("-..", Str("d"));
      assert root != null ==> outcome == Pass;
      outcome := Insert("-.-", Str("k"));
      assert root != null ==> outcome == Pass;
      outcome := Insert("--.", Str("g"));
      assert root != null ==> outcome == Pass;
      outcome := Insert("---", Str("o"));
      assert root != null ==> outcome == Pass;
    }

    /** The block of `buildTree` that inserts the codes of four symbols. */
    method InsertLevel4()
      requires Valid()
      modifies Repr
      ensures Valid() && fresh(Repr - old(Repr)) && root == old(root)
      ensures Abs() == MorseAlphabet.Level4(old(Abs()))
    {
      InsertFourDots();
      InsertFourDashes();
    }

    /** The first half of that block: the six codes that start with a dot. */
    method InsertFourDots()
      requires Valid()
      modifies Repr
      ensures Valid() && fresh(Repr - old(Repr)) && root == old(root)
      ensures Abs() == MorseAlphabet.FourDots(old(Abs()))
    {
      var outcome := Insert("....", Str("h"));
      assert root != null ==> outcome == Pass;
      outcome := Insert("...-", Str("v"));
      assert root != null ==> outcome == Pass;
      outcome := Insert("..-.", Str("f"));
      assert root != null ==> outcome == Pass;
      outcome := Insert(".-..", Str("l"));
      assert root != null ==> outcome == Pass;
      outcome := Insert(".--.", Str("p"));
      assert root != null ==> outcome == Pass;
      outcome := Insert(".---", Str("j"));
      assert root != null ==> outcome == Pass;
    }

    /** The second half: the six codes that start with a dash. */
    method InsertFourDashes()
      requires Valid()
      modifies Repr
      ensures Valid() && fresh(Repr - old(Repr)) && root == old(root)
      ensures Abs() == MorseAlphabet.FourDashes(old(Abs()))
    {
      var outcome := Insert("-...", Str("b"));
      assert root != null ==> outcome == Pass;
      outcome := Insert("-..-", Str("x"));
      assert root != null ==> outcome == Pass;
      outcome := Insert("-.--", Str("y"));
      assert root != null ==> outcome == Pass;
      outcome := Insert("--..", Str("z"));
      assert root != null ==> outcome == Pass;
      outcome := Insert("--.-", Str("q"));
      assert root != null ==> outcome == Pass;
      outcome := Insert("-.-.", Str("c"));
      assert root != null ==> outcome == Pass;
    }

    /** `toArrayList()`: a new list of the data in in-order (LNR) order. */
    method ToArrayList() returns (list: ArrayList)
      requires Valid()
      ensures fresh(list)
      ensures list.items == InOrder(Abs())
    {
      list := new ArrayList();
      LNROutputTraversal(root, list);
    }

    /** `LNRoutputTraversal(root, list)`: appends the subtree's data to `list`, left subtree, node, right subtree. */
    method LNROutputTraversal(subRoot: TreeNode?, list: ArrayList)
      requires subRoot == null || subRoot.Valid()
      modifies list
      ensures list.items == old(list.items) + InOrder(old(ModelOf(subRoot)))
      decreases if subRoot == null then {} else subRoot.Repr
    {
      if subRoot != null {
        ghost var before := list.items;
        ghost var left, right := InOrder(ModelOf(subRoot.leftChild)), InOrder(ModelOf(subRoot.rightChild));
        LNROutputTraversal(subRoot.leftChild, list);
        list.Add(subRoot.data);
        LNROutputTraversal(subRoot.rightChild, list);
        InOrderRegroup(before, left, subRoot.data, right);
      }
    }
  }
}
