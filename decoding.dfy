/**
  What the converter computes, as functions of the tree it reads: the text
  `convertToEnglish` builds for one line of Morse code, the text of the
  line-by-line variant and the text `printTree` builds. A letter is a code
  between single spaces, a word ends at `" / "`.
 */
module Decoding {
  import opened JavaLang
  import opened JavaStrings
  import opened CodeTreeModel
  import MorseAlphabet

  /** What `result.append(fetch(letter))` adds: the fetched string, `null` written out, or the exception `fetch` raised. */
  function ShowFetch(t: Tree, letter: string): Result<string>
  {
    match FetchIn(t, letter)
    case Ok(s) => Ok(Show(s))
    case Err(e) => Err(e)
  }

  /** What each letter of one word adds. */
  function LetterTexts(t: Tree, letters: seq<string>): seq<Result<string>>
  {
    seq(|letters|, i requires 0 <= i < |letters| => ShowFetch(t, letters[i]))
  }

  /** The letters of one word, looked up and appended in order. */
  function DecodeLetters(t: Tree, letters: seq<string>): Result<string>
  {
    Appended(LetterTexts(t, letters))
  }

  /** What one word adds: its letters, then one space. */
  function DecodeWord(t: Tree, word: string): (r: Result<string>)
    ensures r.Ok? ==> r.value != [] && r.value[|r.value| - 1] == ' '
  {
    Concat(DecodeLetters(t, Split(word, " ")), Ok(" "))
  }

  /** What each word of one line adds. */
  function WordTexts(t: Tree, words: seq<string>): seq<Result<string>>
  {
    seq(|words|, i requires 0 <= i < |words| => DecodeWord(t, words[i]))
  }

  /** The words' contributions, in order. */
  function DecodeWords(t: Tree, words: seq<string>): (r: Result<string>)
    ensures r.Ok? <==> forall i :: 0 <= i < |words| ==> DecodeWord(t, words[i]).Ok?
  {
    var pieces := WordTexts(t, words);
    assert forall i :: 0 <= i < |words| ==> pieces[i] == DecodeWord(t, words[i]);
    Appended(pieces)
  }

  /** `convertToEnglish(String)`: the words decoded, then the whole trimmed. */
  function ConvertLine(t: Tree, code: string): (r: Result<string>)
    ensures r.Ok? && r.value != [] ==> !IsWhite(r.value[0]) && !IsWhite(r.value[|r.value| - 1])
  {
    match DecodeWords(t, Split(code, " / "))
    case Ok(s) => Ok(Trim(s))
    case Err(e) => Err(e)
  }

  /** What one line of a file adds: nothing when it is blank once trimmed, else its conversion and a newline. */
  function LineText(t: Tree, line: string): (r: Result<string>)
    ensures Trim(line) == [] ==> r == Ok("")
    ensures r.Ok? && r.value != [] ==> r.value[|r.value| - 1] == '\n'
  {
    var l := Trim(line);
    if l == [] then Ok("") else Concat(ConvertLine(t, l), Ok("\n"))
  }

  /** What each line of a file adds. */
  function LineTexts(t: Tree, lines: seq<string>): seq<Result<string>>
  {
    seq(|lines|, i requires 0 <= i < |lines| => LineText(t, lines[i]))
  }

  /** The lines' contributions, in order. */
  function Block(t: Tree, lines: seq<string>): (r: Result<string>)
    ensures r.Ok? <==> forall i :: 0 <= i < |lines| ==> LineText(t, lines[i]).Ok?
  {
    var pieces := LineTexts(t, lines);
    assert forall i :: 0 <= i < |lines| ==> pieces[i] == LineText(t, lines[i]);
    Appended(pieces)
  }

  /** `convertToEnglish(File)` on the file's lines: the lines' contributions, trimmed. */
  function ConvertLines(t: Tree, lines: seq<string>): (r: Result<string>)
    ensures r.Ok? <==> forall i :: 0 <= i < |lines| ==> LineText(t, lines[i]).Ok?
    ensures r.Ok? && r.value != [] ==> !IsWhite(r.value[0]) && !IsWhite(r.value[|r.value| - 1])
  {
    match Block(t, lines)
    case Ok(s) => Ok(Trim(s))
    case Err(e) => Err(e)
  }

  /** The loop of `printTree`: every string, each followed by a space. */
  function AppendEach(xs: seq<JString>): string
  {
    if xs == [] then "" else AppendEach(xs[..|xs| - 1]) + Show(xs[|xs| - 1]) + " "
  }

  /** `printTree`: the in-order data, each followed by a space, trimmed. */
  function TreeText(t: Tree): (r: string)
    ensures r != [] ==> !IsWhite(r[0]) && !IsWhite(r[|r| - 1])
  {
    Trim(AppendEach(InOrder(t)))
  }

  // ---------------------------------------------------------------------
  // Encoding: the inverse the decoder is checked against.
  // ---------------------------------------------------------------------

  /** A word the table can spell: one or more letters `a` to `z`. */
  predicate IsWord(w: string)
  {
    w != [] && forall i :: 0 <= i < |w| ==> MorseAlphabet.IsLetter(w[i])
  }

  /** A line of text the table can spell: one or more words. */
  predicate IsText(ws: seq<string>)
  {
    |ws| >= 1 && forall i :: 0 <= i < |ws| ==> IsWord(ws[i])
  }

  /** The code of each letter of `w`. */
  function Codes(w: string): seq<string>
    requires forall i :: 0 <= i < |w| ==> MorseAlphabet.IsLetter(w[i])
  {
    seq(|w|, i requires 0 <= i < |w| => MorseAlphabet.Code(w[i]))
  }

  /** A word in Morse code: its letters' codes between single spaces. */
  function EncodeWord(w: string): string
    requires IsWord(w)
  {
    JoinWith(Codes(w), " ")
  }

  /** The code of each word of `ws`. */
  function EncodeWords(ws: seq<string>): seq<string>
    requires forall i :: 0 <= i < |ws| ==> IsWord(ws[i])
  {
    seq(|ws|, i requires 0 <= i < |ws| => EncodeWord(ws[i]))
  }

  /** A text in Morse code: its words' codes separated by `" / "`. */
  function EncodeText(ws: seq<string>): string
    requires IsText(ws)
  {
    JoinWith(EncodeWords(ws), " / ")
  }

  // ---------------------------------------------------------------------
  // How the pieces combine.
  // ---------------------------------------------------------------------

  /** One more letter appends what it fetches. */
  lemma LettersSnoc(t: Tree, letters: seq<string>, letter: string)
    ensures DecodeLetters(t, letters + [letter]) == Concat(DecodeLetters(t, letters), ShowFetch(t, letter))
  {
    var all, front := LetterTexts(t, letters + [letter]), LetterTexts(t, letters);
    forall i | 0 <= i < |letters|
      ensures all[i] == front[i]
    {
      assert (letters + [letter])[i] == letters[i];
    }
    assert all == front + [ShowFetch(t, letter)];
    AppendedSnoc(front, ShowFetch(t, letter));
  }

  lemma LettersStep(t: Tree, letters: seq<string>, k: nat)
    requires k < |letters|
    ensures DecodeLetters(t, letters[..k + 1]) == Concat(DecodeLetters(t, letters[..k]), ShowFetch(t, letters[k]))
  {
    assert letters[..k + 1] == letters[..k] + [letters[k]];
    LettersSnoc(t, letters[..k], letters[k]);
  }

  /** One more word appends what it decodes to. */
  lemma WordsSnoc(t: Tree, words: seq<string>, word: string)
    ensures DecodeWords(t, words + [word]) == Concat(DecodeWords(t, words), DecodeWord(t, word))
  {
    var all, front := WordTexts(t, words + [word]), WordTexts(t, words);
    forall i | 0 <= i < |words|
      ensures all[i] == front[i]
    {
      assert (words + [word])[i] == words[i];
    }
    assert all == front + [DecodeWord(t, word)];
    AppendedSnoc(front, DecodeWord(t, word));
  }

  lemma WordsStep(t: Tree, words: seq<string>, k: nat)
    requires k < |words|
    ensures DecodeWords(t, words[..k + 1]) == Concat(DecodeWords(t, words[..k]), DecodeWord(t, words[k]))
  {
    assert words[..k + 1] == words[..k] + [words[k]];
    WordsSnoc(t, words[..k], words[k]);
  }

  /** One more line appends what it converts to. */
  lemma BlockSnoc(t: Tree, lines: seq<string>, line: string)
    ensures Block(t, lines + [line]) == Concat(Block(t, lines), LineText(t, line))
  {
    var all, front := LineTexts(t, lines + [line]), LineTexts(t, lines);
    forall i | 0 <= i < |lines|
      ensures all[i] == front[i]
    {
      assert (lines + [line])[i] == lines[i];
    }
    assert all == front + [LineText(t, line)];
    AppendedSnoc(front, LineText(t, line));
  }

  lemma BlockStep(t: Tree, lines: seq<string>, k: nat)
    requires k < |lines|
    ensures Block(t, lines[..k + 1]) == Concat(Block(t, lines[..k]), LineText(t, lines[k]))
  {
    assert lines[..k + 1] == lines[..k] + [lines[k]];
    BlockSnoc(t, lines[..k], lines[k]);
  }

  /** The lines of a file contribute piecewise: a prefix, then the rest. */
  lemma BlockAppend(t: Tree, a: seq<string>, b: seq<string>)
    ensures Block(t, a + b) == Concat(Block(t, a), Block(t, b))
  {
    var all, front, back := LineTexts(t, a + b), LineTexts(t, a), LineTexts(t, b);
    forall i | 0 <= i < |a| + |b|
      ensures all[i] == (front + back)[i]
    {
      if i < |a| {
        assert (a + b)[i] == a[i];
      } else {
        assert (a + b)[i] == b[i - |a|];
      }
    }
    assert all == front + back;
    AppendedAppend(front, back);
  }

  /** Once a letter raises, the word raises that exception, whatever follows. */
  lemma LettersErrorSticks(t: Tree, letters: seq<string>, k: nat)
    requires k <= |letters| && DecodeLetters(t, letters[..k]).Err?
    ensures DecodeLetters(t, letters) == DecodeLetters(t, letters[..k])
  {
    var all, front := LetterTexts(t, letters), LetterTexts(t, letters[..k]);
    forall i | 0 <= i < k
      ensures front[i] == all[i]
    {
      assert letters[..k][i] == letters[i];
    }
    assert front == all[..k];
    AppendedErrorSticks(all, k);
  }

  /** Once a word raises, the line raises that exception, whatever follows. */
  lemma WordsErrorSticks(t: Tree, words: seq<string>, k: nat)
    requires k <= |words| && DecodeWords(t, words[..k]).Err?
    ensures DecodeWords(t, words) == DecodeWords(t, words[..k])
  {
    var all, front := WordTexts(t, words), WordTexts(t, words[..k]);
    forall i | 0 <= i < k
      ensures front[i] == all[i]
    {
      assert words[..k][i] == words[i];
    }
    assert front == all[..k];
    AppendedErrorSticks(all, k);
  }

  /** Once a line raises, the file raises that exception, whatever follows. */
  lemma BlockErrorSticks(t: Tree, lines: seq<string>, k: nat)
    requires k <= |lines| && Block(t, lines[..k]).Err?
    ensures Block(t, lines) == Block(t, lines[..k])
  {
    var all, front := LineTexts(t, lines), LineTexts(t, lines[..k]);
    forall i | 0 <= i < k
      ensures front[i] == all[i]
    {
      assert lines[..k][i] == lines[i];
    }
    assert front == all[..k];
    AppendedErrorSticks(all, k);
  }

  // ---------------------------------------------------------------------
  // Decoding what was encoded.
  // ---------------------------------------------------------------------

  /** The letters of a word, coded one by one, decode to the word. */
  lemma DecodeCodes(t: Tree, w: string)
    requires MorseAlphabet.Spells(t)
    requires forall i :: 0 <= i < |w| ==> MorseAlphabet.IsLetter(w[i])
    ensures DecodeLetters(t, Codes(w)) == Ok(w)
  {
    var cs := Codes(w);
    forall i | 0 <= i < |w|
      ensures LetterTexts(t, cs)[i] == Ok([w[i]])
    {
      SpelledLetter(t, w[i]);
    }
    AppendedChars(LetterTexts(t, cs), w);
  }

  /** Pieces each of one character append to those characters, in order. */
  lemma {:induction false} AppendedChars(pieces: seq<Result<string>>, w: string)
    requires |pieces| == |w| && forall i :: 0 <= i < |w| ==> pieces[i] == Ok([w[i]])
    ensures Appended(pieces) == Ok(w)
    decreases |w|
  {
    if w != [] {
      var n := |w| - 1;
      AppendedStep(pieces, n);
      AppendedChars(pieces[..n], w[..n]);
      assert pieces[..n + 1] == pieces;
      assert w[..n] + [w[n]] == w;
    }
  }

  /** A tree that spells every letter fetches each letter's code as that letter. */
  lemma SpelledLetter(t: Tree, ch: char)
    requires MorseAlphabet.Spells(t) && MorseAlphabet.IsLetter(ch)
    ensures ShowFetch(t, MorseAlphabet.Code(ch)) == Ok([ch])
  {
  }

  /** A word's code splits back into its letters' codes. */
  lemma SplitEncodedWord(w: string)
    requires IsWord(w)
    ensures Split(EncodeWord(w), " ") == Codes(w)
  {
    var cs := Codes(w);
    forall i | 0 <= i < |cs|
      ensures Free(cs[i], ' ') && cs[i] != []
    {
      assert MorseAlphabet.IsLetter(w[i]);
    }
    assert Marked(" ", 0);
    SplitOfJoin(cs, " ", 0);
  }

  /** Each word's code decodes to the word and a space. */
  lemma DecodeEncodedWord(t: Tree, w: string)
    requires MorseAlphabet.Spells(t) && IsWord(w)
    ensures DecodeWord(t, EncodeWord(w)) == Ok(w + " ")
  {
    SplitEncodedWord(w);
    DecodeCodes(t, w);
  }

  /** The words' codes decode to the words, each followed by a space. */
  lemma DecodeEncodedWords(t: Tree, ws: seq<string>)
    requires MorseAlphabet.Spells(t) && IsText(ws)
    ensures DecodeWords(t, EncodeWords(ws)) == Ok(JoinWith(ws, " ") + " ")
  {
    var es := EncodeWords(ws);
    forall i | 0 <= i < |ws|
      ensures WordTexts(t, es)[i] == Ok(ws[i] + " ")
    {
      DecodeEncodedWord(t, ws[i]);
    }
    AppendedSpaced(WordTexts(t, es), ws);
  }

  /** Pieces each of a word and a space append to those words joined by spaces, and a space. */
  lemma {:induction false} AppendedSpaced(pieces: seq<Result<string>>, ws: seq<string>)
    requires |pieces| == |ws| >= 1
    requires forall i :: 0 <= i < |ws| ==> pieces[i] == Ok(ws[i] + " ")
    ensures Appended(pieces) == Ok(JoinWith(ws, " ") + " ")
    decreases |ws|
  {
    var n := |ws| - 1;
    var w := ws[n];
    AppendedStep(pieces, n);
    assert pieces[..n + 1] == pieces;
    if n == 0 {
      assert pieces[..0] == [];
      assert "" + (w + " ") == w + " ";
    } else {
      var ws' := ws[..n];
      AppendedSpaced(pieces[..n], ws');
      JoinWithLast(ws, " ");
      Regroup(JoinWith(ws', " "), " ", w, " ");
    }
  }

  /** A text's code splits back into its words' codes. */
  lemma SplitEncodedText(ws: seq<string>)
    requires IsText(ws)
    ensures Split(EncodeText(ws), " / ") == EncodeWords(ws)
  {
    var es := EncodeWords(ws);
    forall i | 0 <= i < |es|
      ensures Free(es[i], '/') && es[i] != []
    {
      EncodedWordShape(ws[i]);
    }
    assert Marked(" / ", 1);
    SplitOfJoin(es, " / ", 1);
  }

  /** A word's code has no `/` in it, and starts and ends with a step. */
  lemma EncodedWordShape(w: string)
    requires IsWord(w)
    ensures var e := EncodeWord(w); Free(e, '/') && e != [] && IsStep(e[0]) && IsStep(e[|e| - 1])
  {
    var cs := Codes(w);
    forall j | 0 <= j < |cs|
      ensures Free(cs[j], '/') && cs[j] != []
    {
      assert MorseAlphabet.IsLetter(w[j]);
    }
    JoinWithFree(cs, " ", '/');
    JoinWithEnds(cs, " ");
    assert MorseAlphabet.IsLetter(w[0]) && MorseAlphabet.IsLetter(w[|w| - 1]);
  }

  /**
    Decoding inverts encoding: the code of one or more words, read with a
    tree in which every letter's code fetches that letter, is the words with
    single spaces between them.
   */
  lemma ConvertEncoded(t: Tree, ws: seq<string>)
    requires MorseAlphabet.Spells(t) && IsText(ws)
    ensures ConvertLine(t, EncodeText(ws)) == Ok(JoinWith(ws, " "))
  {
    SplitEncodedText(ws);
    DecodeEncodedWords(t, ws);
    TrimSpacedWords(ws);
  }

  /** `trim` removes the space after the last word and nothing else. */
  lemma TrimSpacedWords(ws: seq<string>)
    requires IsText(ws)
    ensures Trim(JoinWith(ws, " ") + " ") == JoinWith(ws, " ")
  {
    PlainEnds(ws);
    TrimSpaced(JoinWith(ws, " "), ' ');
  }

  /** The tree `buildTree` makes decodes every encoded text. */
  lemma ConvertEncodedTable(ws: seq<string>)
    requires IsText(ws)
    ensures ConvertLine(MorseAlphabet.Table(), EncodeText(ws)) == Ok(JoinWith(ws, " "))
  {
    MorseAlphabet.TableSpells();
    ConvertEncoded(MorseAlphabet.Table(), ws);
  }

  // ---------------------------------------------------------------------
  // Lines that are not the code of a text.
  // ---------------------------------------------------------------------

  /** A line with no space is one letter code: what `fetch` gives for it, trimmed, or what `fetch` raised. */
  lemma ConvertOneCode(t: Tree, c: string)
    requires Free(c, ' ')
    ensures ConvertLine(t, c).Ok? <==> FetchIn(t, c).Ok?
    ensures FetchIn(t, c).Ok? ==> ConvertLine(t, c).value == Trim(Show(FetchIn(t, c).value) + " ")
    ensures FetchIn(t, c).Err? ==> ConvertLine(t, c).error == FetchIn(t, c).error
  {
    SplitOfFree(c, " / ", 0);
    SplitOfFree(c, " ", 0);
    assert LetterTexts(t, [c]) == [ShowFetch(t, c)];
    AppendedOne(ShowFetch(t, c));
    assert WordTexts(t, [c]) == [DecodeWord(t, c)];
    AppendedOne(DecodeWord(t, c));
  }

  /**
    With the letter table, a single code of steps raises exactly
    when it is longer than four steps or one of the four unused paths of four
    steps, and what it raises is a null-pointer exception.
   */
  lemma ConvertCode(c: string)
    requires IsCode(c)
    ensures ConvertLine(MorseAlphabet.Table(), c).Err? <==> |c| >= 5 || c in MorseAlphabet.Unused
    ensures ConvertLine(MorseAlphabet.Table(), c).Err? ==> ConvertLine(MorseAlphabet.Table(), c).error == NullPointer
  {
    ConvertStepsOnly(MorseAlphabet.Table(), c);
    MorseAlphabet.FetchDefinedExactly(c);
    MorseAlphabet.UnusedAreFour(c);
  }

  /** A code of steps alone converts normally exactly when `fetch` returns normally; otherwise it raises a null-pointer exception. */
  lemma ConvertStepsOnly(t: Tree, c: string)
    requires IsCode(c)
    ensures ConvertLine(t, c).Err? <==> FetchIn(t, c).Err?
    ensures ConvertLine(t, c).Err? ==> ConvertLine(t, c).error == NullPointer
  {
    assert Free(c, ' ') by {
      forall i | 0 <= i < |c|
        ensures c[i] != ' '
      {
        assert IsStep(c[i]);
      }
    }
    ConvertOneCode(t, c);
    FetchRaisesNullPointer(t, c);
  }

  /** A letter code that starts with a symbol other than a step, such as a lone `/`, reads as `null`. */
  lemma OtherSymbolReadsNull(t: Tree, c: string)
    requires c != [] && Free(c, ' ') && !IsStep(c[0])
    ensures ConvertLine(t, c) == Ok("null")
  {
    ConvertOneCode(t, c);
    assert FetchIn(t, c) == Ok(Null);
    TrimSpaced("null", ' ');
  }

  /**
    The same inside a word: a letter code that starts with a symbol other than
    a step appends the four characters `null` between its neighbours' texts.
   */
  lemma OtherLetterAppendsNull(t: Tree, a: seq<string>, c: string, b: seq<string>)
    requires c != [] && !IsStep(c[0])
    ensures DecodeLetters(t, a + [c] + b) == Concat(Concat(DecodeLetters(t, a), Ok("null")), DecodeLetters(t, b))
  {
    var ta, tb := LetterTexts(t, a), LetterTexts(t, b);
    assert ShowFetch(t, c) == Ok("null");
    assert LetterTexts(t, a + [c] + b) == ta + [Ok("null")] + tb;
    AppendedAppend(ta + [Ok("null")], tb);
    AppendedSnoc(ta, Ok("null"));
  }

  /** An empty line reads the root's data: with a root holding the empty string, it converts to the empty string. */
  lemma ConvertEmptyLine(t: Tree)
    requires t.Node? && t.data == Str("")
    ensures ConvertLine(t, "") == Ok("")
  {
    ConvertOneCode(t, "");
    AllWhiteTrimsToEmpty(" ");
  }

  // ---------------------------------------------------------------------
  // Files.
  // ---------------------------------------------------------------------

  /** An empty letter code reads the root: with a root holding the empty string it adds nothing. */
  lemma EmptyLetterAddsNothing(t: Tree, a: seq<string>, b: seq<string>)
    requires t.Node? && t.data == Str("")
    ensures DecodeLetters(t, a + [""] + b) == DecodeLetters(t, a + b)
  {
    var ta, tb := LetterTexts(t, a), LetterTexts(t, b);
    assert LetterTexts(t, a + [""] + b) == ta + [Ok("")] + tb;
    assert LetterTexts(t, a + b) == ta + tb;
    AppendedAppend(ta + [Ok("")], tb);
    AppendedSnoc(ta, Ok(""));
    ConcatEmpty(Appended(ta));
    AppendedAppend(ta, tb);
  }

  /** A space before a word's first letter adds an empty letter code, which adds nothing. */
  lemma LeadingSpaceIgnored(t: Tree, w: string)
    requires t.Node? && t.data == Str("") && HasOther(w, ' ')
    ensures DecodeWord(t, " " + w) == DecodeWord(t, w)
  {
    var letters := Split(w, " ");
    SplitLeadingMark(w, ' ');
    EmptyLetterAddsNothing(t, [], letters);
    NothingBefore(letters);
  }

  /** No letters before the given ones. */
  lemma NothingBefore(letters: seq<string>)
    ensures [] + [""] + letters == [""] + letters && [] + letters == letters
  {
  }

  /** Two spaces between letters add an empty letter code between them, which adds nothing. */
  lemma DoubledSpaceIgnored(t: Tree, a: string, w: string)
    requires t.Node? && t.data == Str("") && Free(a, ' ') && HasOther(w, ' ')
    ensures DecodeWord(t, a + "  " + w) == DecodeWord(t, a + " " + w)
  {
    var letters := Split(w, " ");
    SplitDoubledMark(a, w, ' ');
    EmptyLetterAddsNothing(t, [a], letters);
    assert DecodeLetters(t, Split(a + "  " + w, " ")) == DecodeLetters(t, Split(a + " " + w, " "));
  }

  /** A space after a word's last letter makes no letter code: `split` drops the empty piece. */
  lemma TrailingSpaceIgnored(t: Tree, w: string)
    requires HasOther(w, ' ')
    ensures DecodeWord(t, w + " ") == DecodeWord(t, w)
  {
    SplitKeepsSomething(w, ' ');
    SplitTrailingMark(w, ' ');
  }

  /** A line that is blank once trimmed adds nothing to the file's text. */
  lemma BlankLineSkipped(t: Tree, a: seq<string>, blank: string, b: seq<string>)
    requires Trim(blank) == []
    ensures ConvertLines(t, a + [blank] + b) == ConvertLines(t, a + b)
  {
    BlockSnoc(t, a, blank);
    ConcatEmpty(Block(t, a));
    BlockAppend(t, a + [blank], b);
    BlockAppend(t, a, b);
  }

  /** An encoded text neither starts nor ends with a white character, so `trim` keeps it. */
  lemma TrimEncodedText(ws: seq<string>)
    requires IsText(ws)
    ensures EncodeText(ws) != [] && Trim(EncodeText(ws)) == EncodeText(ws)
  {
    var es := EncodeWords(ws);
    forall i | 0 <= i < |es|
      ensures es[i] != []
    {
      EncodedWordShape(ws[i]);
    }
    var first, last := es[0], es[|es| - 1];
    EncodedWordShape(ws[0]);
    EncodedWordShape(ws[|ws| - 1]);
    assert !IsWhite(first[0]) && !IsWhite(last[|last| - 1]);
    TrimJoinClean(es, " / ");
  }

  /** The line of a file holding an encoded text adds the text and a newline. */
  lemma EncodedLineText(t: Tree, ws: seq<string>)
    requires MorseAlphabet.Spells(t) && IsText(ws)
    ensures LineText(t, EncodeText(ws)) == Ok(JoinWith(ws, " ") + "\n")
  {
    TrimEncodedText(ws);
    ConvertEncoded(t, ws);
  }

  /** A file holding one encoded text per line. */
  function EncodeLines(texts: seq<seq<string>>): seq<string>
    requires forall k :: 0 <= k < |texts| ==> IsText(texts[k])
  {
    seq(|texts|, k requires 0 <= k < |texts| => EncodeText(texts[k]))
  }

  /** The texts, each with single spaces between its words. */
  function Plain(texts: seq<seq<string>>): seq<string>
  {
    seq(|texts|, k requires 0 <= k < |texts| => JoinWith(texts[k], " "))
  }

  lemma EncodeLinesSnoc(texts: seq<seq<string>>)
    requires |texts| >= 1 && forall k :: 0 <= k < |texts| ==> IsText(texts[k])
    ensures EncodeLines(texts) == EncodeLines(texts[..|texts| - 1]) + [EncodeText(texts[|texts| - 1])]
  {
  }

  lemma PlainSnoc(texts: seq<seq<string>>)
    requires |texts| >= 1
    ensures Plain(texts) == Plain(texts[..|texts| - 1]) + [JoinWith(texts[|texts| - 1], " ")]
  {
  }

  /** The lines of an encoded file add their texts, each followed by a newline. */
  lemma {:induction false} BlockEncoded(t: Tree, texts: seq<seq<string>>)
    requires MorseAlphabet.Spells(t)
    requires forall k :: 0 <= k < |texts| ==> IsText(texts[k])
    ensures Block(t, EncodeLines(texts)) == Ok(EachFollowedBy(Plain(texts), "\n"))
    decreases |texts|
  {
    if texts != [] {
      var n := |texts|;
      var texts' := texts[..n - 1];
      var last := JoinWith(texts[n - 1], " ");
      EncodeLinesSnoc(texts);
      PlainSnoc(texts);
      BlockSnoc(t, EncodeLines(texts'), EncodeText(texts[n - 1]));
      EncodedLineText(t, texts[n - 1]);
      BlockEncoded(t, texts');
      EachFollowedBySnoc(Plain(texts'), last, "\n");
    }
  }

  /**
    The file-reading variant inverts encoding line by line: a file whose
    lines are encoded texts converts to those texts, one per line.
   */
  lemma ConvertLinesEncoded(t: Tree, texts: seq<seq<string>>)
    requires MorseAlphabet.Spells(t)
    requires forall k :: 0 <= k < |texts| ==> IsText(texts[k])
    ensures ConvertLines(t, EncodeLines(texts)) == Ok(JoinWith(Plain(texts), "\n"))
  {
    BlockEncoded(t, texts);
    if texts == [] {
      AllWhiteTrimsToEmpty("");
    } else {
      TrimPlain(texts);
    }
  }

  /** `trim` removes the newline after the last of the texts and nothing else. */
  lemma TrimPlain(texts: seq<seq<string>>)
    requires |texts| >= 1 && forall k :: 0 <= k < |texts| ==> IsText(texts[k])
    ensures Trim(EachFollowedBy(Plain(texts), "\n")) == JoinWith(Plain(texts), "\n")
  {
    var ps := Plain(texts);
    forall k | 0 <= k < |ps|
      ensures ps[k] != []
    {
      PlainEnds(texts[k]);
    }
    PlainEnds(texts[0]);
    PlainEnds(texts[|texts| - 1]);
    EachFollowedByJoin(ps, "\n");
    TrimJoinSpaced(ps, "\n", '\n');
  }

  /** A text with single spaces between its words starts and ends with a letter. */
  lemma PlainEnds(ws: seq<string>)
    requires IsText(ws)
    ensures var p := JoinWith(ws, " "); p != [] && MorseAlphabet.IsLetter(p[0]) && MorseAlphabet.IsLetter(p[|p| - 1])
  {
    JoinWithEnds(ws, " ");
    var first, last := ws[0], ws[|ws| - 1];
    assert MorseAlphabet.IsLetter(first[0]) && MorseAlphabet.IsLetter(last[|last| - 1]);
  }

  // ---------------------------------------------------------------------
  // The printed tree.
  // ---------------------------------------------------------------------

  /** The loop of `printTree` over two lists is the loop over each, one after the other. */
  lemma {:induction false} AppendEachAppend(a: seq<JString>, b: seq<JString>)
    ensures AppendEach(a + b) == AppendEach(a) + AppendEach(b)
    decreases |b|
  {
    if b == [] {
      assert a + b == a;
      assert AppendEach(a) + "" == AppendEach(a);
    } else {
      var b', x := b[..|b| - 1], b[|b| - 1];
      assert (a + b)[..|a + b| - 1] == a + b';
      assert (a + b)[|a + b| - 1] == x;
      AppendEachAppend(a, b');
      AppendAssociative(AppendEach(a), AppendEach(b'), Show(x));
      AppendAssociative(AppendEach(a), AppendEach(b') + Show(x), " ");
    }
  }

  /**
    A root holding the empty string, as `buildTree` makes it, prints as an
    empty item: a second space between the left subtree's text, which ends
    with a space, and the right subtree's text.
   */
  lemma EmptyRootPrintsDoubleSpace(t: Tree)
    requires t.Node? && t.data == Str("")
    ensures AppendEach(InOrder(t)) == AppendEach(InOrder(t.left)) + " " + AppendEach(InOrder(t.right))
  {
    var left, right := InOrder(t.left), InOrder(t.right);
    assert InOrder(t) == (left + [t.data]) + right;
    AppendEachAppend(left + [t.data], right);
    AppendEachAppend(left, [t.data]);
    AppendEachOne(t.data);
    assert Show(t.data) + " " == " ";
  }

  /** The loop of `printTree` over one item. */
  lemma AppendEachOne(x: JString)
    ensures AppendEach([x]) == Show(x) + " "
  {
    assert [x][..0] == [];
    assert "" + Show(x) == Show(x);
  }

  /** The print loop over one more item. */
  lemma AppendEachSnoc(xs: seq<JString>, x: JString)
    ensures AppendEach(xs + [x]) == AppendEach(xs) + Show(x) + " "
  {
    assert (xs + [x])[..|xs|] == xs;
  }

  /** The print loop over five one-letter items. */
  lemma AppendEachFive(a: char, b: char, c: char, d: char, e: char)
    ensures AppendEach([Str([a]), Str([b]), Str([c]), Str([d]), Str([e])]) == [a, ' ', b, ' ', c, ' ', d, ' ', e, ' ']
  {
    var xs := [Str([a]), Str([b]), Str([c]), Str([d]), Str([e])];
    assert xs[..0] == [];
    assert xs[..1] == xs[..0] + [xs[0]];
    AppendEachSnoc(xs[..0], xs[0]);
    assert xs[..2] == xs[..1] + [xs[1]];
    AppendEachSnoc(xs[..1], xs[1]);
    assert xs[..3] == xs[..2] + [xs[2]];
    AppendEachSnoc(xs[..2], xs[2]);
    assert xs[..4] == xs[..3] + [xs[3]];
    AppendEachSnoc(xs[..3], xs[3]);
    assert xs == xs[..4] + [xs[4]];
    AppendEachSnoc(xs[..4], xs[4]);
  }

  /** The print loop over six one-letter items. */
  lemma AppendEachSix(a: char, b: char, c: char, d: char, e: char, f: char)
    ensures AppendEach([Str([a]), Str([b]), Str([c]), Str([d]), Str([e]), Str([f])]) == [a, ' ', b, ' ', c, ' ', d, ' ', e, ' ', f, ' ']
  {
    var xs := [Str([a]), Str([b]), Str([c]), Str([d]), Str([e]), Str([f])];
    assert xs == xs[..5] + [xs[5]] && xs[..5] == [Str([a]), Str([b]), Str([c]), Str([d]), Str([e])];
    AppendEachFive(a, b, c, d, e);
    AppendEachSnoc(xs[..5], xs[5]);
  }

  /** The print loop over seven one-letter items. */
  lemma AppendEachSeven(a: char, b: char, c: char, d: char, e: char, f: char, g: char)
    ensures AppendEach([Str([a]), Str([b]), Str([c]), Str([d]), Str([e]), Str([f]), Str([g])]) == [a, ' ', b, ' ', c, ' ', d, ' ', e, ' ', f, ' ', g, ' ']
  {
    var xs := [Str([a]), Str([b]), Str([c]), Str([d]), Str([e]), Str([f]), Str([g])];
    assert xs == xs[..6] + [xs[6]] && xs[..6] == [Str([a]), Str([b]), Str([c]), Str([d]), Str([e]), Str([f])];
    AppendEachSix(a, b, c, d, e, f);
    AppendEachSnoc(xs[..6], xs[6]);
  }

  /** The printed text of the dot subtree: its letters, each followed by a space. */
  lemma PrintDots()
    ensures AppendEach(InOrder(MorseAlphabet.Table().left)) == "h s v i f u " + "e " + "l r a p w j "
  {
    var front, back := [Str("h"), Str("s"), Str("v"), Str("i"), Str("f"), Str("u")], [Str("l"), Str("r"), Str("a"), Str("p"), Str("w"), Str("j")];
    MorseAlphabet.InOrderDots();
    AppendEachAppend(front + [Str("e")], back);
    AppendEachAppend(front, [Str("e")]);
    AppendEachSix('h', 's', 'v', 'i', 'f', 'u');
    AppendEachOne(Str("e"));
    AppendEachSix('l', 'r', 'a', 'p', 'w', 'j');
  }

  /** The printed text of the dash subtree: its letters, each followed by a space. */
  lemma PrintDashes()
    ensures AppendEach(InOrder(MorseAlphabet.Table().right)) == ("b d x n c k y " + "t " + "z g q m o") + " "
  {
    var front, back := [Str("b"), Str("d"), Str("x"), Str("n"), Str("c"), Str("k"), Str("y")], [Str("z"), Str("g"), Str("q"), Str("m"), Str("o")];
    MorseAlphabet.InOrderDashes();
    AppendEachAppend(front + [Str("t")], back);
    AppendEachAppend(front, [Str("t")]);
    AppendEachSeven('b', 'd', 'x', 'n', 'c', 'k', 'y');
    AppendEachOne(Str("t"));
    AppendEachFive('z', 'g', 'q', 'm', 'o');
  }

  /**
    `printTree` on the tree `buildTree` makes: the 26 letters in in-order
    order, single spaces between them, and two spaces where the root's empty
    string stands between the dot subtree and the dash subtree.
   */
  lemma PrintTable()
    ensures TreeText(MorseAlphabet.Table()) ==
      ("h s v i f u " + "e " + "l r a p w j ") + " " + ("b d x n c k y " + "t " + "z g q m o")
  {
    var dots, dashes := "h s v i f u " + "e " + "l r a p w j ", "b d x n c k y " + "t " + "z g q m o";
    PrintTableUntrimmed();
    AppendAssociative(dots + " ", dashes, " ");
    PrintedEnds(dots, dashes);
    TrimSpaced(dots + " " + dashes, ' ');
  }

  /** The same text written out in one piece. */
  lemma PrintTableFlat()
    ensures TreeText(MorseAlphabet.Table()) == "h s v i f u e l r a p w j  b d x n c k y t z g q m o"
  {
    PrintTable();
    FlatTable();
  }

  /** The grouped text of `PrintTable` equals the flat one. */
  lemma FlatTable()
    ensures ("h s v i f u " + "e " + "l r a p w j ") + " " + ("b d x n c k y " + "t " + "z g q m o")
      == "h s v i f u e l r a p w j  b d x n c k y t z g q m o"
  {
    FlatDots();
    FlatDashes();
    FlatJoin("h s v i f u e l r a p w j ", "b d x n c k y t z g q m o");
  }

  /** The dot half, regrouped. */
  lemma FlatDots()
    ensures "h s v i f u " + "e " + "l r a p w j " == "h s v i f u e l r a p w j "
  {
  }

  /** The dash half, regrouped. */
  lemma FlatDashes()
    ensures "b d x n c k y " + "t " + "z g q m o" == "b d x n c k y t z g q m o"
  {
  }

  /** The two halves joined by the root's space. */
  lemma FlatJoin(dots: string, dashes: string)
    requires dots == "h s v i f u e l r a p w j "
    requires dashes == "b d x n c k y t z g q m o"
    ensures dots + " " + dashes == "h s v i f u e l r a p w j  b d x n c k y t z g q m o"
  {
  }

  /** The print loop over the table, before the trim. */
  lemma PrintTableUntrimmed()
    ensures AppendEach(InOrder(MorseAlphabet.Table())) ==
      ("h s v i f u " + "e " + "l r a p w j ") + " " + (("b d x n c k y " + "t " + "z g q m o") + " ")
  {
    EmptyRootPrintsDoubleSpace(MorseAlphabet.Table());
    PrintDots();
    PrintDashes();
  }

  /** The printed table starts with `h` and ends with `o`. */
  lemma PrintedEnds(dots: string, dashes: string)
    requires dots == "h s v i f u " + "e " + "l r a p w j "
    requires dashes == "b d x n c k y " + "t " + "z g q m o"
    ensures var s := dots + " " + dashes; s != [] && s[0] == 'h' && s[|s| - 1] == 'o'
  {
    assert dots[0] == 'h';
    assert dashes[|dashes| - 1] == 'o';
  }
}
