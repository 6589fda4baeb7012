/**
  The value a Morse code tree denotes, and what `addNode`, `fetchNode` and
  the in-order traversal do to it. A `.` step goes to the left (dot) child and
  a `-` step to the right (dash) child; `Nil` is a null child reference.
 */
module CodeTreeModel {
  import opened JavaLang

  datatype Tree = Nil | Node(data: JString, left: Tree, right: Tree)

  /** A symbol that moves down the tree. */
  predicate IsStep(c: char)
  {
    c == '.' || c == '-'
  }

  /** A string of steps only, i.e. a path from the root. */
  predicate IsCode(s: string)
  {
    forall i :: 0 <= i < |s| ==> IsStep(s[i])
  }

  /** A node built by the one-argument `TreeNode` constructor. */
  function Leaf(v: JString): Tree
  {
    Node(v, Nil, Nil)
  }

  /**
    The child the intended `addNode` descends into: the existing one, or a
    new placeholder holding null (see `InsertAsWritten` for what the code as
    written does instead).
   */
  function Grow(c: Tree): Tree
  {
    if c.Nil? then Leaf(Null) else c
  }

  /**
    `addNode(t, code, v)` as intended: the tree it leaves, or the exception
    it raises. A missing child on the way is replaced by a placeholder holding
    null, so it fails exactly on the empty code (`charAt(0)`) and on a null
    subtree asked to take a step. The code as written raises at a missing
    child instead; `InsertAsWritten` models that, and agrees with this
    function whenever the code's parent node exists.
   */
  function InsertIn(t: Tree, code: string, v: JString): (r: Result<Tree>)
    ensures r.Err? <==> code == [] || (t.Nil? && IsStep(code[0]))
    ensures r.Ok? ==> (r.value.Nil? <==> t.Nil?) && (t.Node? ==> r.value.data == t.data)
    decreases |code|
  {
    if |code| == 1 then
      if code[0] == '.' then (if t.Nil? then Err(NullPointer) else Ok(t.(left := Leaf(v))))
      else if code[0] == '-' then (if t.Nil? then Err(NullPointer) else Ok(t.(right := Leaf(v))))
      else Ok(t)
    else if |code| == 0 then Err(StringIndexOutOfBounds)
    else if code[0] == '.' then
      if t.Nil? then Err(NullPointer)
      else
        var l := InsertIn(Grow(t.left), code[1..], v);
        if l.Ok? then Ok(t.(left := l.value)) else l
    else if code[0] == '-' then
      if t.Nil? then Err(NullPointer)
      else
        var r := InsertIn(Grow(t.right), code[1..], v);
        if r.Ok? then Ok(t.(right := r.value)) else r
    else Ok(t)
  }

  /** The tree after an `insert` call: unchanged when the call raised. */
  function Put(t: Tree, code: string, v: JString): (r: Tree)
    ensures r.Nil? <==> t.Nil?
    ensures t.Node? ==> r.data == t.data
  {
    var r := InsertIn(t, code, v);
    if r.Ok? then r.value else t
  }

  /** The outcome of an `insert` call. */
  function InsertOutcome(t: Tree, code: string, v: JString): (r: Outcome)
    ensures r == if code == [] then Fail(StringIndexOutOfBounds)
                else if t.Nil? && IsStep(code[0]) then Fail(NullPointer)
                else Pass
  {
    var r := InsertIn(t, code, v);
    if r.Ok? then Pass else Fail(r.error)
  }

  /** One step of `addNode` on an existing node with more than one symbol left. */
  lemma InsertStep(t: Tree, code: string, v: JString)
    requires t.Node? && |code| >= 2 && IsStep(code[0])
    ensures InsertOutcome(t, code, v) == Pass
    ensures Put(t, code, v) ==
      if code[0] == '.' then t.(left := Put(Grow(t.left), code[1..], v))
      else t.(right := Put(Grow(t.right), code[1..], v))
  {
  }

  /** The last symbol of `addNode`: a new leaf for a step, no change for any other symbol. */
  lemma InsertLast(t: Tree, code: string, v: JString)
    requires |code| == 1
    ensures InsertOutcome(t, code, v) == if t.Nil? && IsStep(code[0]) then Fail(NullPointer) else Pass
    ensures Put(t, code, v) ==
      if t.Nil? then t
      else if code[0] == '.' then t.(left := Leaf(v))
      else if code[0] == '-' then t.(right := Leaf(v))
      else t
  {
  }

  /** `addNode` on a first symbol that is not a step, with more to follow: no change. */
  lemma InsertOther(t: Tree, code: string, v: JString)
    requires |code| >= 2 && !IsStep(code[0])
    ensures InsertOutcome(t, code, v) == Pass && Put(t, code, v) == t
  {
  }

  /**
    `addNode(t, code, v)` as the code is written. The placeholder
    `new TreeNode<>(null)` (MorseCodeTree.java:80 and :85) resolves to the
    more specific copy constructor `TreeNode(TreeNode<T>)`, which calls
    `getData()` on its null argument (TreeNode.java:30). So a missing child
    on the way raises a null-pointer exception before anything is linked,
    and the tree is left as it was. When it succeeds it does what the
    intended insert does.
   */
  function InsertAsWritten(t: Tree, code: string, v: JString): (r: Result<Tree>)
    ensures r.Ok? ==> r == InsertIn(t, code, v)
    ensures r.Err? && code != [] ==> r.error == NullPointer
    decreases |code|
  {
    if |code| == 1 then
      if code[0] == '.' then (if t.Nil? then Err(NullPointer) else Ok(t.(left := Leaf(v))))
      else if code[0] == '-' then (if t.Nil? then Err(NullPointer) else Ok(t.(right := Leaf(v))))
      else Ok(t)
    else if |code| == 0 then Err(StringIndexOutOfBounds)
    else if code[0] == '.' then
      if t.Nil? || t.left.Nil? then Err(NullPointer)
      else
        var l := InsertAsWritten(t.left, code[1..], v);
        if l.Ok? then Ok(t.(left := l.value)) else l
    else if code[0] == '-' then
      if t.Nil? || t.right.Nil? then Err(NullPointer)
      else
        var r := InsertAsWritten(t.right, code[1..], v);
        if r.Ok? then Ok(t.(right := r.value)) else r
    else Ok(t)
  }

  /**
    `fetchNode(t, code)`: the data at the end of the path, null as soon as a
    symbol other than a step is met, and a null-pointer exception when the
    path reaches a missing node and goes on reading it.
   */
  function FetchIn(t: Tree, code: string): (r: Result<JString>)
    ensures r.Err? ==> r.error == NullPointer
    decreases |code|
  {
    if |code| == 0 then (if t.Nil? then Err(NullPointer) else Ok(t.data))
    else if code[0] == '.' then (if t.Nil? then Err(NullPointer) else FetchIn(t.left, code[1..]))
    else if code[0] == '-' then (if t.Nil? then Err(NullPointer) else FetchIn(t.right, code[1..]))
    else Ok(Null)
  }

  /** The only exception `fetch` raises is the null-pointer exception. */
  lemma {:induction false} FetchRaisesNullPointer(t: Tree, code: string)
    ensures FetchIn(t, code).Err? ==> FetchIn(t, code).error == NullPointer
    decreases |code|
  {
    if |code| > 0 && t.Node? {
      FetchRaisesNullPointer(t.left, code[1..]);
      FetchRaisesNullPointer(t.right, code[1..]);
    }
  }

  /** The data of every node, left subtree first, then the node, then the right subtree. */
  function InOrder(t: Tree): (r: seq<JString>)
    ensures r == [] <==> t.Nil?
  {
    match t
    case Nil => []
    case Node(d, l, r) => InOrder(l) + [d] + InOrder(r)
  }

  function Size(t: Tree): nat
  {
    match t
    case Nil => 0
    case Node(_, l, r) => Size(l) + 1 + Size(r)
  }

  /** The number of nodes on the longest path from the root. */
  function Height(t: Tree): nat
  {
    match t
    case Nil => 0
    case Node(_, l, r) => 1 + if Height(l) < Height(r) then Height(r) else Height(l)
  }

  /** The child a step leads to; a missing node has no children. */
  function Child(t: Tree, step: char): Tree
  {
    if t.Nil? then Nil else if step == '.' then t.left else t.right
  }

  /** One step of `fetchNode` on an existing node. */
  lemma FetchStep(t: Tree, c: string)
    requires t.Node? && c != [] && IsStep(c[0])
    ensures FetchIn(t, c) == FetchIn(Child(t, c[0]), c[1..])
  {
  }

  /** A code of steps at least as long as the tree is high runs out of nodes. */
  lemma {:induction false} FetchBeyondHeight(t: Tree, c: string)
    requires IsCode(c) && |c| >= Height(t)
    ensures FetchIn(t, c) == Err(NullPointer)
    decreases t
  {
    if t.Node? {
      FetchBeyondHeight(Child(t, c[0]), c[1..]);
    }
  }

  /** No node holds a null: the tree has no placeholder left. */
  predicate NoPlaceholders(t: Tree)
  {
    match t
    case Nil => true
    case Node(d, l, r) => d.Str? && NoPlaceholders(l) && NoPlaceholders(r)
  }

  /** The list after a subtree's traversal, regrouped: what it held, then the subtree's in-order data. */
  lemma InOrderRegroup(before: seq<JString>, left: seq<JString>, d: JString, right: seq<JString>)
    ensures before + left + [d] + right == before + (left + [d] + right)
  {
  }

  /** The in-order traversal lists each node once. */
  lemma {:induction false} InOrderLength(t: Tree)
    ensures |InOrder(t)| == Size(t)
  {
    match t
    case Nil =>
    case Node(_, l, r) =>
      InOrderLength(l);
      InOrderLength(r);
  }

  /** A path of steps leaving a missing node always raises. */
  lemma FetchInNil(p: string)
    requires IsCode(p)
    ensures FetchIn(Nil, p) == Err(NullPointer)
  {
  }

  lemma FetchInGrow(c: Tree, p: string)
    requires IsCode(p)
    ensures FetchIn(Grow(c), p) == if c.Node? then FetchIn(c, p) else if p == [] then Ok(Null) else Err(NullPointer)
  {
    if c.Nil? && p != [] {
      FetchInNil(p[1..]);
    }
  }

  /** Insert-then-fetch round trip: a code of steps fetches what was inserted under it. */
  lemma {:induction false} FetchInserted(t: Tree, code: string, v: JString)
    requires t.Node? && code != [] && IsCode(code)
    ensures FetchIn(Put(t, code, v), code) == Ok(v)
    decreases |code|
  {
    if |code| > 1 {
      var c := if code[0] == '.' then t.left else t.right;
      FetchInserted(Grow(c), code[1..], v);
    }
  }

  /**
    Everything `fetch` sees after an insert of a code of steps: the value at
    the code; the old data at the nodes above it, or null at a placeholder
    created there; an exception below it, since the new node is a leaf that
    replaced the old subtree; and the old answer on every other path.
   */
  lemma {:induction false} FetchAfterInsert(t: Tree, code: string, v: JString, probe: string)
    requires t.Node? && code != [] && IsCode(code) && IsCode(probe)
    ensures FetchIn(Put(t, code, v), probe) ==
      if probe == code then Ok(v)
      else if probe < code then (if FetchIn(t, probe).Ok? then FetchIn(t, probe) else Ok(Null))
      else if code < probe then Err(NullPointer)
      else FetchIn(t, probe)
    decreases |code|
  {
    var t' := Put(t, code, v);
    if probe == [] {
      assert probe < code;
    } else if probe[0] != code[0] {
      assert !(probe < code) && !(code < probe) && probe != code;
    } else {
      var c := if code[0] == '.' then t.left else t.right;
      var c' := if code[0] == '.' then t'.left else t'.right;
      assert FetchIn(t', probe) == FetchIn(c', probe[1..]);
      assert FetchIn(t, probe) == FetchIn(c, probe[1..]);
      assert probe == [probe[0]] + probe[1..] && code == [code[0]] + code[1..];
      assert probe == code <==> probe[1..] == code[1..];
      assert probe < code <==> probe[1..] < code[1..];
      assert code < probe <==> code[1..] < probe[1..];
      if |code| == 1 {
        assert c' == Leaf(v);
        if |probe| > 1 {
          FetchInNil(probe[2..]);
        }
      } else {
        assert c' == Put(Grow(c), code[1..], v);
        FetchAfterInsert(Grow(c), code[1..], v, probe[1..]);
        FetchInGrow(c, probe[1..]);
      }
    }
  }

  /**
    `fetch` answers null at the first symbol that is not a step, when the
    node before it is reachable; when that node's parent is missing it raises.
   */
  lemma {:induction false} FetchStopsAtOtherSymbol(t: Tree, p: string, x: char, rest: string)
    requires IsCode(p) && !IsStep(x)
    ensures FetchIn(t, p + [x] + rest) ==
      if p == [] || FetchIn(t, p[..|p| - 1]).Ok? then Ok(Null) else Err(NullPointer)
    decreases |p|
  {
    if p == [] {
      assert (p + [x] + rest)[0] == x;
    } else {
      assert (p + [x] + rest)[0] == p[0];
      assert (p + [x] + rest)[1..] == p[1..] + [x] + rest;
      var parent := p[..|p| - 1];
      if |p| > 1 {
        assert parent[0] == p[0] && parent[1..] == p[1..][..|p| - 2];
      }
      if t.Node? {
        var c := if p[0] == '.' then t.left else t.right;
        FetchStopsAtOtherSymbol(c, p[1..], x, rest);
      }
    }
  }

  /**
    An insert whose code meets a symbol other than a step after the steps `p`
    changes nothing but adding null placeholders along `p`.
   */
  lemma {:induction false} InsertStopsAtOtherSymbol(t: Tree, p: string, x: char, rest: string, v: JString, probe: string)
    requires t.Node? && IsCode(p) && !IsStep(x) && IsCode(probe)
    ensures InsertIn(t, p + [x] + rest, v).Ok?
    ensures FetchIn(Put(t, p + [x] + rest, v), probe) ==
      if probe <= p && FetchIn(t, probe).Err? then Ok(Null) else FetchIn(t, probe)
    decreases |p|
  {
    var code := p + [x] + rest;
    if p == [] {
      assert code[0] == x;
    } else {
      assert code[0] == p[0] && code[1..] == p[1..] + [x] + rest;
      var c := if p[0] == '.' then t.left else t.right;
      InsertStopsAtOtherSymbol(Grow(c), p[1..], x, rest, v, if probe == [] then [] else probe[1..]);
      if probe != [] && probe[0] == p[0] {
        assert probe == [probe[0]] + probe[1..] && p == [p[0]] + p[1..];
        assert probe <= p <==> probe[1..] <= p[1..];
        FetchInGrow(c, probe[1..]);
      }
    }
  }

  /**
    Inserting a letter whose parent node already exists into a tree without
    placeholders leaves no placeholder: this is why building in order of
    non-decreasing code length leaves none.
   */
  lemma {:induction false} InsertKeepsNoPlaceholders(t: Tree, code: string, v: JString)
    requires t.Node? && NoPlaceholders(t) && v.Str?
    requires code != [] && IsCode(code) && FetchIn(t, code[..|code| - 1]).Ok?
    ensures NoPlaceholders(Put(t, code, v))
    decreases |code|
  {
    if |code| > 1 {
      var c := if code[0] == '.' then t.left else t.right;
      assert code[..|code| - 1][0] == code[0];
      assert code[..|code| - 1][1..] == code[1..][..|code| - 2];
      if c.Nil? {
        FetchInNil(code[1..][..|code| - 2]);
      }
      InsertKeepsNoPlaceholders(c, code[1..], v);
    }
  }

  /**
    The insert as written succeeds exactly when the node the code's last step
    starts from exists, and then it leaves the same tree as the intended
    insert; otherwise it raises a null-pointer exception. `buildTree` inserts
    every code after its parent, which is the case where the two agree.
   */
  lemma {:induction false} InsertAsWrittenAgrees(t: Tree, code: string, v: JString)
    requires code != [] && IsCode(code)
    ensures FetchIn(t, code[..|code| - 1]).Ok? ==> InsertAsWritten(t, code, v) == InsertIn(t, code, v)
    ensures FetchIn(t, code[..|code| - 1]).Err? ==> InsertAsWritten(t, code, v) == Err(NullPointer)
    decreases |code|
  {
    var parent := code[..|code| - 1];
    if |code| >= 2 && t.Node? {
      assert parent[0] == code[0] && parent[1..] == code[1..][..|code| - 2];
      var c := if code[0] == '.' then t.left else t.right;
      assert FetchIn(t, parent) == FetchIn(c, parent[1..]);
      if c.Nil? {
        assert FetchIn(c, parent[1..]).Err?;
      } else {
        InsertAsWrittenAgrees(c, code[1..], v);
      }
    }
  }

  /**
    The discrepancy on the smallest input: inserting `..` under a lone root
    raises as written, where the intended insert links a placeholder holding
    null and puts the new leaf under it.
   */
  lemma PlaceholderRaises()
    ensures InsertAsWritten(Leaf(Str("")), "..", Str("i")) == Err(NullPointer)
    ensures InsertIn(Leaf(Str("")), "..", Str("i")) == Ok(Node(Str(""), Node(Null, Leaf(Str("i")), Nil), Nil))
  {
  }
}
