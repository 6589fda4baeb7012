/**
  `MorseCodeConverter`: the three static methods, each a loop that appends to
  a `StringBuilder`, proved against the functions of `Decoding`. The static
  tree the class builds once is passed in as `tree`.
 */
module MorseCodeConverter {
  import opened JavaLang
  import opened JavaStrings
  import opened CodeTreeModel
  import opened MorseCodeTrees
  import opened Decoding

  /** `printTree()`: the in-order list of the tree's data, each item followed by a space, trimmed. */
  method PrintTree(tree: MorseCodeTree) returns (s: string)
    requires tree.Valid()
    ensures s == TreeText(tree.Abs())
  {
    var list := tree.ToArrayList();
    var items := list.items;
    var sb := "";
    for i := 0 to |items|
      invariant sb == AppendEach(items[..i])
    {
      assert items[..i + 1][..i] == items[..i];
      sb := sb + Show(items[i]) + " ";
    }
    assert items[..|items|] == items;
    s := Trim(sb);
  }

  /**
    `convertToEnglish(code)`: for each word between `" / "`, the fetched text
    of each letter between single spaces, then a space; the whole trimmed. A
    letter whose `fetch` raises ends the conversion with that exception.
   */
  method ConvertToEnglish(tree: MorseCodeTree, code: string) returns (r: Result<string>)
    requires tree.Valid()
    ensures r == ConvertLine(tree.Abs(), code)
  {
    var result := "";
    var words := Split(code, " / ");
    for i := 0 to |words|
      invariant DecodeWords(tree.Abs(), words[..i]) == Ok(result)
    {
      var appended := AppendWord(tree, result, words[i]);
      if appended.Err? {
        WordRaises(tree.Abs(), code, words, i, result);
        return appended;
      }
      WordAppended(tree.Abs(), words, i, result);
      result := appended.value;
    }
    WordsDone(tree.Abs(), code, words, result);
    return Ok(Trim(result));
  }

  /**
    The body of the word loop: each letter of `word` between single spaces
    fetched and appended to `result`, then a space.
   */
  method AppendWord(tree: MorseCodeTree, result: string, word: string) returns (r: Result<string>)
    requires tree.Valid()
    ensures r == Concat(Ok(result), DecodeWord(tree.Abs(), word))
  {
    ghost var t := tree.Abs();
    var letters := Split(word, " ");
    var sb := result;
    for j := 0 to |letters|
      invariant DecodeLetters(t, letters[..j]).Ok?
      invariant sb == result + DecodeLetters(t, letters[..j]).value
    {
      var fetched := tree.Fetch(letters[j]);
      if fetched.Err? {
        LetterRaises(t, result, word, letters, j);
        return Err(fetched.error);
      }
      LetterAppended(t, letters, j, result, sb);
      sb := sb + Show(fetched.value);
    }
    LettersDone(t, result, word, letters, sb);
    return Ok(sb + " ");
  }

  /**
    `convertToEnglish(codeFile)` on the file's lines: each line trimmed, a
    blank one skipped, any other converted and followed by a newline; the
    whole trimmed. An exception from a line ends the conversion.
   */
  method ConvertLinesToEnglish(tree: MorseCodeTree, lines: seq<string>) returns (r: Result<string>)
    requires tree.Valid()
    ensures r == ConvertLines(tree.Abs(), lines)
  {
    var result := "";
    for k := 0 to |lines|
      invariant tree.Valid() && Block(tree.Abs(), lines[..k]) == Ok(result)
    {
      var text := ConvertNextLine(tree, lines[k]);
      if text.Err? {
        LineRaises(tree.Abs(), lines, k, result);
        assert text == LineText(tree.Abs(), lines[k]);
        assert ConvertLines(tree.Abs(), lines) == LineText(tree.Abs(), lines[k]);
        return text;
      }
      LineAppended(tree.Abs(), lines, k, result);
      result := result + text.value;
    }
    LinesDone(tree.Abs(), lines, result);
    return Ok(Trim(result));
  }

  /**
    The body of the file loop: the line trimmed, nothing for a blank line,
    otherwise its conversion followed by a newline.
   */
  method ConvertNextLine(tree: MorseCodeTree, raw: string) returns (r: Result<string>)
    requires tree.Valid()
    ensures r == LineText(tree.Abs(), raw)
  {
    var line := Trim(raw);
    if line == [] {
      return Ok("");
    }
    r := ConvertToEnglish(tree, line);
    if r.Ok? {
      r := Ok(r.value + "\n");
    }
  }

  /** A letter whose `fetch` raises makes its word raise that exception. */
  lemma LetterRaises(t: Tree, result: string, word: string, letters: seq<string>, j: nat)
    requires letters == Split(word, " ") && j < |letters| && DecodeLetters(t, letters[..j]).Ok?
    requires FetchIn(t, letters[j]).Err?
    ensures Concat(Ok(result), DecodeWord(t, word)) == Err(FetchIn(t, letters[j]).error)
  {
    LettersStep(t, letters, j);
    LettersErrorSticks(t, letters, j + 1);
  }

  /** A letter whose `fetch` returns adds its text to the word's letters so far. */
  lemma LetterAppended(t: Tree, letters: seq<string>, j: nat, before: string, sb: string)
    requires j < |letters| && DecodeLetters(t, letters[..j]).Ok?
    requires sb == before + DecodeLetters(t, letters[..j]).value
    requires FetchIn(t, letters[j]).Ok?
    ensures DecodeLetters(t, letters[..j + 1]).Ok?
    ensures sb + Show(FetchIn(t, letters[j]).value) == before + DecodeLetters(t, letters[..j + 1]).value
  {
    LettersStep(t, letters, j);
    AppendAssociative(before, DecodeLetters(t, letters[..j]).value, Show(FetchIn(t, letters[j]).value));
  }

  /** After the last letter, the word adds what its letters added and a space. */
  lemma LettersDone(t: Tree, result: string, word: string, letters: seq<string>, sb: string)
    requires letters == Split(word, " ") && DecodeLetters(t, letters[..|letters|]).Ok?
    requires sb == result + DecodeLetters(t, letters[..|letters|]).value
    ensures Concat(Ok(result), DecodeWord(t, word)) == Ok(sb + " ")
  {
    assert letters[..|letters|] == letters;
    AppendAssociative(result, DecodeLetters(t, letters).value, " ");
  }

  /** A word that raises makes the whole line raise that exception. */
  lemma WordRaises(t: Tree, code: string, words: seq<string>, i: nat, result: string)
    requires words == Split(code, " / ") && i < |words| && DecodeWords(t, words[..i]) == Ok(result)
    requires Concat(Ok(result), DecodeWord(t, words[i])).Err?
    ensures ConvertLine(t, code) == Concat(Ok(result), DecodeWord(t, words[i]))
  {
    WordsStep(t, words, i);
    WordsErrorSticks(t, words, i + 1);
  }

  /** A word that returns adds its text to the line so far. */
  lemma WordAppended(t: Tree, words: seq<string>, i: nat, result: string)
    requires i < |words| && DecodeWords(t, words[..i]) == Ok(result)
    ensures DecodeWords(t, words[..i + 1]) == Concat(Ok(result), DecodeWord(t, words[i]))
  {
    WordsStep(t, words, i);
  }

  /** A line whose conversion raises makes the whole file raise that exception. */
  lemma LineRaises(t: Tree, lines: seq<string>, k: nat, result: string)
    requires k < |lines| && Block(t, lines[..k]) == Ok(result) && LineText(t, lines[k]).Err?
    ensures ConvertLines(t, lines) == LineText(t, lines[k])
  {
    BlockStep(t, lines, k);
    BlockErrorSticks(t, lines, k + 1);
  }

  /** A line that converts adds its text to the file's text so far. */
  lemma LineAppended(t: Tree, lines: seq<string>, k: nat, result: string)
    requires k < |lines| && Block(t, lines[..k]) == Ok(result) && LineText(t, lines[k]).Ok?
    ensures Block(t, lines[..k + 1]) == Ok(result + LineText(t, lines[k]).value)
  {
    BlockStep(t, lines, k);
  }

  /** After the last word, the line's text is what the words added, trimmed. */
  lemma WordsDone(t: Tree, code: string, words: seq<string>, result: string)
    requires words == Split(code, " / ") && DecodeWords(t, words[..|words|]) == Ok(result)
    ensures ConvertLine(t, code) == Ok(Trim(result))
  {
    assert words[..|words|] == words;
  }

  /** After the last line, the file's text is what the lines added, trimmed. */
  lemma LinesDone(t: Tree, lines: seq<string>, result: string)
    requires Block(t, lines[..|lines|]) == Ok(result)
    ensures ConvertLines(t, lines) == Ok(Trim(result))
  {
    assert lines[..|lines|] == lines;
  }
}
