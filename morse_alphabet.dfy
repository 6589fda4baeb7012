/**
  The tree `buildTree` produces: the 26 letters of the International Morse
  Code (Recommendation ITU-R M.1677-1), inserted level by level under a root
  holding the empty string.
 */
module MorseAlphabet {
  import opened JavaLang
  import opened CodeTreeModel

  /** The 26 inserts of `buildTree`, in its four blocks of codes of one to four symbols. */
  function Letters(t: Tree): Tree
  {
    Level4(Level3(Level2(Level1(t))))
  }

  /** `buildTree`'s first block of inserts: the codes of one symbol. */
  function Level1(t: Tree): Tree
  {
    var t := Put(t, ".", Str("e"));
    var t := Put(t, "-", Str("t"));
    t
  }

  /** The second block: the codes of two symbols. */
  function Level2(t: Tree): Tree
  {
    var t := Put(t, "..", Str("i"));
    var t := Put(t, ".-", Str("a"));
    var t := Put(t, "-.", Str("n"));
    var t := Put(t, "--", Str("m"));
    t
  }

  /** The third block: the codes of three symbols. */
  function Level3(t: Tree): Tree
  {
    var t := Put(t, "...", Str("s"));
    var t := Put(t, "..-", Str("u"));
    var t := Put(t, ".-.", Str("r"));
    var t := Put(t, ".--", Str("w"));
    var t := Put(t, "-..", Str("d"));
    var t := Put(t, "-.-", Str("k"));
    var t := Put(t, "--.", Str("g"));
    var t := Put(t, "---", Str("o"));
    t
  }

  /** The fourth block: the twelve letters whose codes have four symbols. */
  function Level4(t: Tree): Tree
  {
    FourDashes(FourDots(t))
  }

  /** The first six inserts of the fourth block: codes that start with a dot. */
  function FourDots(t: Tree): Tree
  {
    var t := Put(t, "....", Str("h"));
    var t := Put(t, "...-", Str("v"));
    var t := Put(t, "..-.", Str("f"));
    var t := Put(t, ".-..", Str("l"));
    var t := Put(t, ".--.", Str("p"));
    var t := Put(t, ".---", Str("j"));
    t
  }

  /** The last six inserts of the fourth block: codes that start with a dash. */
  function FourDashes(t: Tree): Tree
  {
    var t := Put(t, "-...", Str("b"));
    var t := Put(t, "-..-", Str("x"));
    var t := Put(t, "-.--", Str("y"));
    var t := Put(t, "--..", Str("z"));
    var t := Put(t, "--.-", Str("q"));
    var t := Put(t, "-.-.", Str("c"));
    t
  }

  function Letter(s: string): Tree
  {
    Leaf(Str(s))
  }

  /** The letter table written out node by node: dots to the left, dashes to the right. */
  function Table(): Tree
  {
    Node(Str(""),
      Node(Str("e"),
        Node(Str("i"),
          Node(Str("s"), Letter("h"), Letter("v")),
          Node(Str("u"), Letter("f"), Nil)),
        Node(Str("a"),
          Node(Str("r"), Letter("l"), Nil),
          Node(Str("w"), Letter("p"), Letter("j")))),
      Node(Str("t"),
        Node(Str("n"),
          Node(Str("d"), Letter("b"), Letter("x")),
          Node(Str("k"), Letter("c"), Letter("y"))),
        Node(Str("m"),
          Node(Str("g"), Letter("z"), Letter("q")),
          Letter("o"))))
  }

  /** `buildTree`'s inserts, made under a lone root holding the empty string, produce exactly the letter table. */
  lemma LettersMakeTable(t: Tree)
    requires t.Node? && t.data == Str("") && t.left == Nil && t.right == Nil
    ensures Letters(t) == Table()
  {
    assert t == Leaf(Str(""));
    OneSymbolLevel();
    TwoSymbolLevel();
    ThreeSymbolLevel();
    FourSymbolLevel();
  }

  /** The table after the codes of one symbol. */
  function AfterLevel1(): Tree
  {
    Node(Str(""), Letter("e"), Letter("t"))
  }

  /** The table after the codes of two symbols. */
  function AfterLevel2(): Tree
  {
    Node(Str(""),
      Node(Str("e"), Letter("i"), Letter("a")),
      Node(Str("t"), Letter("n"), Letter("m")))
  }

  /** The table after the codes of three symbols. */
  function AfterLevel3(): Tree
  {
    Node(Str(""),
      Node(Str("e"),
        Node(Str("i"), Letter("s"), Letter("u")),
        Node(Str("a"), Letter("r"), Letter("w"))),
      Node(Str("t"),
        Node(Str("n"), Letter("d"), Letter("k")),
        Node(Str("m"), Letter("g"), Letter("o"))))
  }

  lemma OneSymbolLevel()
    ensures Level1(Leaf(Str(""))) == AfterLevel1()
  {
  }

  lemma TwoSymbolLevel()
    ensures Level2(AfterLevel1()) == AfterLevel2()
  {
  }

  lemma ThreeSymbolLevel()
    ensures Level3(AfterLevel2()) == AfterLevel3()
  {
  }

  lemma FourSymbolLevel()
    ensures Level4(AfterLevel3()) == Table()
  {
    FourDotsLevel();
    FourDashesLevel();
  }

  lemma FourDotsLevel()
    ensures FourDots(AfterLevel3()) == AfterDotsOfFour()
  {
  }

  lemma FourDashesLevel()
    ensures FourDashes(AfterDotsOfFour()) == Table()
  {
  }

  /** The table once the six codes of four symbols that start with a dot are in. */
  function AfterDotsOfFour(): Tree
  {
    Node(Str(""),
      Node(Str("e"),
        Node(Str("i"),
          Node(Str("s"), Letter("h"), Letter("v")),
          Node(Str("u"), Letter("f"), Nil)),
        Node(Str("a"),
          Node(Str("r"), Letter("l"), Nil),
          Node(Str("w"), Letter("p"), Letter("j")))),
      Node(Str("t"),
        Node(Str("n"), Letter("d"), Letter("k")),
        Node(Str("m"), Letter("g"), Letter("o"))))
  }

  /** The letters the table holds. */
  predicate IsLetter(ch: char)
  {
    'a' <= ch <= 'z'
  }

  /** Part I, section 1.1.1 of Recommendation ITU-R M.1677-1: the code of each letter. */
  function Code(ch: char): (c: string)
    requires IsLetter(ch)
    ensures 1 <= |c| <= 4 && IsCode(c)
  {
    match ch
    case 'a' => ".-"   case 'b' => "-..." case 'c' => "-.-." case 'd' => "-.."
    case 'e' => "."    case 'f' => "..-." case 'g' => "--."  case 'h' => "...."
    case 'i' => ".."   case 'j' => ".---" case 'k' => "-.-"  case 'l' => ".-.."
    case 'm' => "--"   case 'n' => "-."   case 'o' => "---"  case 'p' => ".--."
    case 'q' => "--.-" case 'r' => ".-."  case 's' => "..."  case 't' => "-"
    case 'u' => "..-"  case 'v' => "...-" case 'w' => ".--"  case 'x' => "-..-"
    case 'y' => "-.--" case _ => "--.."
  }

  /** Distinct letters have distinct codes, since fetching a code gives back its letter. */
  lemma CodeInjective(a: char, b: char)
    requires IsLetter(a) && IsLetter(b) && Code(a) == Code(b)
    ensures a == b
  {
    FetchLetters(a);
    FetchLetters(b);
    assert [a][0] == a && [b][0] == b;
  }

  /** A tree in which every letter's code fetches that letter. */
  ghost predicate Spells(t: Tree)
  {
    forall ch :: IsLetter(ch) ==> FetchIn(t, Code(ch)) == Ok(Str([ch]))
  }

  /** The letter table spells every letter. */
  lemma TableSpells()
    ensures Spells(Table())
  {
    forall ch | IsLetter(ch)
      ensures FetchIn(Table(), Code(ch)) == Ok(Str([ch]))
    {
      FetchLetters(ch);
    }
  }

  /** The four paths of four steps that no letter takes. */
  const Unused: set<string> := {"..--", ".-.-", "---.", "----"}

  /** The unused paths all have four steps. */
  lemma UnusedAreFour(c: string)
    ensures c in Unused ==> |c| == 4
  {
  }

  /** In the letter table, every letter's code fetches that letter. */
  lemma FetchLetters(ch: char)
    requires IsLetter(ch)
    ensures FetchIn(Table(), Code(ch)) == Ok(Str([ch]))
  {
    if ch <= 'm' {
      FetchLettersAToM(ch);
    } else if ch <= 's' {
      FetchLettersNToS(ch);
    } else {
      FetchLettersTToZ(ch);
    }
  }

  /** The letters `a` to `m`. */
  lemma FetchLettersAToM(ch: char)
    requires 'a' <= ch <= 'm'
    ensures FetchIn(Table(), Code(ch)) == Ok(Str([ch]))
  {
    match ch
    case 'a' => assert FetchIn(Table(), ".-") == Ok(Str("a"));
    case 'b' => assert FetchIn(Table(), "-...") == Ok(Str("b"));
    case 'c' => assert FetchIn(Table(), "-.-.") == Ok(Str("c"));
    case 'd' => assert FetchIn(Table(), "-..") == Ok(Str("d"));
    case 'e' => assert FetchIn(Table(), ".") == Ok(Str("e"));
    case 'f' => assert FetchIn(Table(), "..-.") == Ok(Str("f"));
    case 'g' => assert FetchIn(Table(), "--.") == Ok(Str("g"));
    case 'h' => assert FetchIn(Table(), "....") == Ok(Str("h"));
    case 'i' => assert FetchIn(Table(), "..") == Ok(Str("i"));
    case 'j' => assert FetchIn(Table(), ".---") == Ok(Str("j"));
    case 'k' => assert FetchIn(Table(), "-.-") == Ok(Str("k"));
    case 'l' => assert FetchIn(Table(), ".-..") == Ok(Str("l"));
    case _ =>
      assert ch == 'm';
      assert FetchIn(Table(), "--") == Ok(Str("m"));
  }

  /** The letters `n` to `s`. */
  lemma FetchLettersNToS(ch: char)
    requires 'n' <= ch <= 's'
    ensures FetchIn(Table(), Code(ch)) == Ok(Str([ch]))
  {
    match ch
    case 'n' => assert FetchIn(Table(), "-.") == Ok(Str("n"));
    case 'o' => assert FetchIn(Table(), "---") == Ok(Str("o"));
    case 'p' => assert FetchIn(Table(), ".--.") == Ok(Str("p"));
    case 'q' => assert FetchIn(Table(), "--.-") == Ok(Str("q"));
    case 'r' => assert FetchIn(Table(), ".-.") == Ok(Str("r"));
    case _ =>
      assert ch == 's';
      assert FetchIn(Table(), "...") == Ok(Str("s"));
  }

  /** The letters `t` to `z`. */
  lemma FetchLettersTToZ(ch: char)
    requires 't' <= ch <= 'z'
    ensures FetchIn(Table(), Code(ch)) == Ok(Str([ch]))
  {
    match ch
    case 't' => assert FetchIn(Table(), "-") == Ok(Str("t"));
    case 'u' => assert FetchIn(Table(), "..-") == Ok(Str("u"));
    case 'v' => assert FetchIn(Table(), "...-") == Ok(Str("v"));
    case 'w' => assert FetchIn(Table(), ".--") == Ok(Str("w"));
    case 'x' => assert FetchIn(Table(), "-..-") == Ok(Str("x"));
    case 'y' => assert FetchIn(Table(), "-.--") == Ok(Str("y"));
    case _ =>
      assert ch == 'z';
      assert FetchIn(Table(), "--..") == Ok(Str("z"));
  }

  /**
    In the letter table, `fetch` of a code of steps returns normally exactly
    for the empty code, every code of up to three steps and the twelve codes
    of four steps that `buildTree` inserts; on every other code it raises.
   */
  lemma FetchDefinedExactly(c: string)
    requires IsCode(c)
    ensures FetchIn(Table(), c).Ok? <==> |c| <= 3 || (|c| == 4 && c !in Unused)
  {
    if |c| >= 5 {
      TableHeight();
      FetchBeyondHeight(Table(), c);
    } else if |c| == 4 {
      FetchTableFour(c);
    } else {
      FetchTableShort(c);
    }
  }

  lemma TableHeight()
    ensures Height(Table()) == 5
  {
  }

  lemma FetchTableFour(c: string)
    requires IsCode(c) && |c| == 4
    ensures FetchIn(Table(), c).Ok? <==> c !in Unused
  {
    FetchStep(Table(), c);
    assert c in Unused <==> c == "..--" || c == ".-.-" || c == "---." || c == "----";
    if c[0] == '.' {
      FetchDotFour(c);
    } else {
      FetchDashFour(c);
    }
  }

  /** The four-step codes below the dot child: only `..--` and `.-.-` run out of nodes. */
  lemma FetchDotFour(c: string)
    requires IsCode(c) && |c| == 4 && c[0] == '.'
    ensures FetchIn(Table().left, c[1..]).Ok? <==> c != "..--" && c != ".-.-"
  {
    FetchBelowThree(Table().left, c);
  }

  /** The four-step codes below the dash child: only `---.` and `----` run out of nodes. */
  lemma FetchDashFour(c: string)
    requires IsCode(c) && |c| == 4 && c[0] == '-'
    ensures FetchIn(Table().right, c[1..]).Ok? <==> c != "---." && c != "----"
  {
    FetchBelowThree(Table().right, c);
  }

  /** The last three steps of a four-step code, from a child of the root. */
  lemma FetchBelowThree(t1: Tree, c: string)
    requires IsCode(c) && |c| == 4
    requires t1.Node? && t1.left.Node? && t1.right.Node?
    ensures FetchIn(t1, c[1..]) == FetchIn(Child(Child(Child(t1, c[1]), c[2]), c[3]), [])
  {
    assert c == [c[0], c[1], c[2], c[3]];
    var t2 := Child(t1, c[1]);
    FetchStep(t1, c[1..]);
    assert c[1..][0] == c[1] && c[1..][1..] == c[2..];
    if t2.Node? {
      FetchStep(t2, c[2..]);
    }
    assert c[2..][0] == c[2] && c[2..][1..] == c[3..];
  }

  lemma FetchTableShort(c: string)
    requires IsCode(c) && |c| <= 3
    ensures FetchIn(Table(), c).Ok?
  {
    if c != [] {
      var t1 := Child(Table(), c[0]);
      FetchStep(Table(), c);
      if |c| >= 2 {
        var t2 := Child(t1, c[1]);
        FetchStep(t1, c[1..]);
        assert c[1..][0] == c[1];
        if |c| == 3 {
          FetchStep(t2, c[2..]);
          assert c[2..][0] == c[2] && c[3..] == [];
        }
      }
    }
  }

  /** Inserting level by level leaves no placeholder: every node of the table holds a string. */
  lemma TableHasNoPlaceholders()
    ensures NoPlaceholders(Table())
  {
  }

  /** The in-order traversal of the table: 26 letters and the root's empty string. */
  lemma InOrderTable()
    ensures Size(Table()) == 27
    ensures InOrder(Table()) ==
      ([Str("h"), Str("s"), Str("v"), Str("i"), Str("f"), Str("u")] + [Str("e")] +
       [Str("l"), Str("r"), Str("a"), Str("p"), Str("w"), Str("j")]) +
      [Str("")] +
      ([Str("b"), Str("d"), Str("x"), Str("n"), Str("c"), Str("k"), Str("y")] + [Str("t")] +
       [Str("z"), Str("g"), Str("q"), Str("m"), Str("o")])
  {
    InOrderDots();
    InOrderDashes();
    InOrderLength(Table());
  }

  lemma InOrderDots()
    ensures InOrder(Table().left) ==
      [Str("h"), Str("s"), Str("v"), Str("i"), Str("f"), Str("u")] + [Str("e")] +
      [Str("l"), Str("r"), Str("a"), Str("p"), Str("w"), Str("j")]
  {
    assert InOrder(Table().left.left) == [Str("h"), Str("s"), Str("v"), Str("i"), Str("f"), Str("u")];
    assert InOrder(Table().left.right) == [Str("l"), Str("r"), Str("a"), Str("p"), Str("w"), Str("j")];
  }

  lemma InOrderDashes()
    ensures InOrder(Table().right) ==
      [Str("b"), Str("d"), Str("x"), Str("n"), Str("c"), Str("k"), Str("y")] + [Str("t")] +
      [Str("z"), Str("g"), Str("q"), Str("m"), Str("o")]
  {
    assert InOrder(Table().right.left) == [Str("b"), Str("d"), Str("x"), Str("n"), Str("c"), Str("k"), Str("y")];
    assert InOrder(Table().right.right) == [Str("z"), Str("g"), Str("q"), Str("m"), Str("o")];
  }
}
