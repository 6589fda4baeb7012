# Morse code tree and converter, modelled in Dafny

This is a model of a small Java library that decodes international Morse code
(ITU-R M.1677-1, letters `a` to `z` only) with a binary tree. It covers:

- `TreeNode`: a node holding a string and two child links.
- `MorseCodeTree`: builds the tree. The root holds the empty string. A dot
  leads to the left child and a dash to the right child. Each letter sits
  where its code leads. The class inserts along a code, fetches along a code,
  and lists the data in in-order (LNR) order.
- `MorseCodeConverter`: three static methods.
  - `convertToEnglish(String)` decodes a line. Letters are separated by `" "`
    and words by `" / "`.
  - `convertToEnglish(File)` decodes a file line by line.
  - `printTree()` prints the in-order list.

The model keeps the Java behaviour, edge cases included, with one exception:
the placeholder step of `addNode`, which as written raises (see
"## Findings"). The tree operations model the intended placeholder insert;
`InsertAsWritten` models the code as written.

- **Exceptions.**
  - A null-pointer dereference is the `NullPointer` error of a `Result`
    (or `Outcome`).
  - `charAt(0)` on an empty code is `StringIndexOutOfBounds`.
  - `delete` and `update` always fail with `UnsupportedOperation`.
- **Null strings.** A Java `String` that may be `null` is
  `JString = Null | Str(chars)`. `StringBuilder.append` writes a null as the
  four characters `null`.
- **Heap classes.** `TreeNode` and `MorseCodeTree` are Dafny classes with the
  Java fields. Each has a ghost footprint `Repr` and a ghost abstraction onto
  the value `Tree = Nil | Node(data, left, right)` (`ModelOf`, `Abs`). Every
  heap operation is proved against a function on `Tree`:
  - `insert`/`addNode` against `InsertIn`/`Put`;
  - `fetch`/`fetchNode` against `FetchIn`;
  - the traversal against `InOrder`.
- **Converter loops.** Each loop is a Dafny loop with invariants. It is proved
  equal to a function of the tree: `ConvertLine`, `ConvertLines` or
  `TreeText`.
- **String library.**
  - `String.split` with a delimiter without metacharacters is `Split`. It
    keeps leading empty pieces, drops trailing ones, and returns the whole
    string when the delimiter does not occur.
  - `String.trim` (removes characters up to `' '` at both ends) is `Trim`.

Main results:

- **Letter table.** The tree `buildTree` makes is the literal letter table
  (`MorseAlphabet.Table`). Each letter's code fetches that letter.
- **Which codes fetch.** A code of dots and dashes fetches normally exactly
  when it has at most three symbols, or four symbols and is not one of the
  four unused codes `..--`, `.-.-`, `---.` and `----`. Every other code
  raises `NullPointerException`.
- **Round trip.** Any text of lower-case words, encoded with the letters'
  codes, decodes back to the words joined by single spaces. The same holds
  line by line for a file.
- **Insert then fetch.** After the intended insert of a code of dots and
  dashes, every code of dots and dashes fetches as follows:
  - the inserted code returns the inserted value;
  - a code inside the inserted code's path returns what it returned before,
    or `null` at a newly created placeholder;
  - a code that extends the inserted code raises, because the new leaf
    replaced the old subtree;
  - every other code fetches exactly what it fetched before.

  Codes that contain another symbol are covered by the next item
  (`InsertStopsAtOtherSymbol`, `FetchStopsAtOtherSymbol`).
- **Insert as written.** As written, `addNode` raises
  `NullPointerException` at a missing child before the last symbol, and the
  tree is left unchanged. Whenever the parent node of the code exists, it
  agrees with the intended insert. `buildTree` inserts each code after its
  parent (MorseCodeTree.java:156-187), so the table is built as intended.
- **Other symbols.** A symbol other than `.` or `-` ends the walk of both
  `insert` and `fetch`, and whatever follows it is ignored.
  - The intended `insert` first walks the steps before the symbol and adds a
    null placeholder for each missing child on the way. It changes nothing
    more.
  - `fetch` returns `null` at the symbol if every step before it is taken
    from an existing node. The last of those steps may reach a missing child.
    It raises `NullPointerException` only when a step is taken from a missing
    node.
- **Spaces in a word.** A leading space, a doubled space or a trailing space
  between letter codes changes nothing. Each gives an empty letter code,
  which reads the root's empty string, or it is dropped by `split`.
- **Printed tree.** The in-order list of the built tree has 27 items.
  `printTree` returns `h s v i f u e l r a p w j  b d x n c k y t z g q m o`,
  with two spaces where the root's empty string sits.

## Model

| member | source | states |
|---|---|---|
| Nodes.TreeNode.constructor | TreeNode.java:18-22 | the new node holds the given data and no children; as a value it is a leaf |
| Nodes.TreeNode.Copy | TreeNode.java:29-33 | the copy holds the same data and, recursively, the same tree of values, and is built only from newly allocated nodes (deep copy, no sharing) |
| Nodes.CopyIsIndependent | TreeNode.java:29-33 | relinking the children of a copy, at its top node and at the node below it, leaves the original's tree of values unchanged |
| Nodes.TreeNode.GetData | TreeNode.java:40-42 | returns the node's data |
| Nodes.TreeNode.GetLeftChild | TreeNode.java:49-51 | returns the left link |
| Nodes.TreeNode.SetLeftChild | TreeNode.java:58-60 | the left link becomes the argument; data and right link are unchanged |
| Nodes.TreeNode.GetRightChild | TreeNode.java:67-69 | returns the right link |
| Nodes.TreeNode.SetRightChild | TreeNode.java:76-78 | the right link becomes the argument; data and left link are unchanged |
| MorseCodeTrees.MorseCodeTree.constructor | MorseCodeTree.java:24-26 | a new tree holds exactly the letter table |
| MorseCodeTrees.MorseCodeTree.GetRoot | MorseCodeTree.java:35-37 | returns the root node |
| MorseCodeTrees.MorseCodeTree.SetRoot | MorseCodeTree.java:45-47 | the tree now holds the given node's subtree (nothing for null) |
| MorseCodeTrees.MorseCodeTree.Insert | MorseCodeTree.java:56-58 | intended insert (see "## Findings"): the tree after the call is `Put` of the tree before, and the call raises exactly what `addNode` from the root raises; once there is a root, a non-empty code never raises |
| MorseCodeTrees.MorseCodeTree.AddNode | MorseCodeTree.java:69-90 | intended insert (see "## Findings"): the subtree becomes `Put` of the old one: a length-1 step code replaces that child with a new leaf; a longer one descends, creating a null placeholder for a missing child; another first symbol changes nothing; an empty code raises out-of-bounds, and a step from a null node raises a null-pointer exception |
| MorseCodeTrees.MorseCodeTree.AttachLeaf | MorseCodeTree.java:70-75 | the last symbol: `.` or `-` replaces that child with a new leaf holding the letter (null-pointer on a null node); another symbol changes nothing |
| MorseCodeTrees.MorseCodeTree.AddLeft | MorseCodeTree.java:78-82 | intended insert (see "## Findings"): a leading dot descends left, adding a placeholder if the left child is missing, and inserts the rest of the code there |
| MorseCodeTrees.MorseCodeTree.AddRight | MorseCodeTree.java:83-87 | intended insert (see "## Findings"): a leading dash descends right, adding a placeholder if the right child is missing, and inserts the rest of the code there |
| MorseCodeTrees.MorseCodeTree.Fetch | MorseCodeTree.java:99-101 | the result is what `FetchIn` reads along the code from the tree's root |
| MorseCodeTrees.MorseCodeTree.FetchNode | MorseCodeTree.java:111-123 | the result is what `FetchIn` reads from the node's subtree: the data where the code ends; null at a symbol that is neither `.` nor `-`, even on a missing node; a null-pointer exception when a step is taken from a missing node or the code ends at one |
| MorseCodeTrees.MorseCodeTree.Delete | MorseCodeTree.java:133-135 | always raises the unsupported-operation exception |
| MorseCodeTrees.MorseCodeTree.Update | MorseCodeTree.java:144-146 | always raises the unsupported-operation exception |
| MorseCodeTrees.MorseCodeTree.BuildTree | MorseCodeTree.java:152-189 | a new root holding the empty string, then the 26 inserts, leave exactly the letter table |
| MorseCodeTrees.MorseCodeTree.InsertLetters | MorseCodeTree.java:156-187 | the 26 inserts, shortest codes first, turn the tree into `Letters` of the old tree; in each block every insert is stated not to raise once there is a root |
| MorseCodeTrees.MorseCodeTree.InsertLevel1 | MorseCodeTree.java:156-157 | the inserts of `e` and `t` |
| MorseCodeTrees.MorseCodeTree.InsertLevel2 | MorseCodeTree.java:160-163 | the inserts of `i`, `a`, `n`, `m` |
| MorseCodeTrees.MorseCodeTree.InsertLevel3 | MorseCodeTree.java:166-173 | the inserts of the eight three-symbol letters |
| MorseCodeTrees.MorseCodeTree.InsertLevel4 | MorseCodeTree.java:176-187 | the inserts of the twelve four-symbol letters |
| MorseCodeTrees.MorseCodeTree.InsertFourDots | MorseCodeTree.java:176-181 | the inserts of `h v f l p j` |
| MorseCodeTrees.MorseCodeTree.InsertFourDashes | MorseCodeTree.java:182-187 | the inserts of `b x y z q c` |
| MorseCodeTrees.MorseCodeTree.ToArrayList | MorseCodeTree.java:197-201 | a new list holding the tree's data in in-order order |
| MorseCodeTrees.MorseCodeTree.LNROutputTraversal | MorseCodeTree.java:210-217 | the list gains the subtree's in-order data at its end and keeps what it held |
| JavaLang.ArrayList.Add | MorseCodeTree.java:213 | the item is appended at the end of the list |
| CodeTreeModel.Put | MorseCodeTree.java:69-90 | intended insert (see "## Findings"): the tree after `addNode`, unchanged when it raises; the root stays present, with its data, exactly when it was present |
| CodeTreeModel.InsertOutcome | MorseCodeTree.java:69-90 | intended insert (see "## Findings"): the completion of `addNode`: out-of-bounds for the empty code, a null-pointer exception for a step from a missing node, normal otherwise |
| CodeTreeModel.FetchIn | MorseCodeTree.java:111-123 | what `fetchNode` returns or raises along a code; the only exception is the null-pointer one |
| CodeTreeModel.InOrder | MorseCodeTree.java:210-217 | the data of the nodes, left subtree, node, right subtree; empty exactly for an empty tree |
| CodeTreeModel.InsertIn | MorseCodeTree.java:69-90 | intended insert (see "## Findings"): the insert raises exactly for an empty code or a step from a missing node; on success the root keeps its data and stays present |
| CodeTreeModel.InsertStep | MorseCodeTree.java:77-87 | intended insert (see "## Findings"): on a present node, a code of two or more symbols starting with a step succeeds and inserts the rest into the (grown) child |
| CodeTreeModel.InsertLast | MorseCodeTree.java:70-75 | a one-symbol code replaces the child with a leaf for a step (null-pointer on a missing node) and changes nothing otherwise |
| CodeTreeModel.InsertOther | MorseCodeTree.java:76-89 | a longer code starting with neither `.` nor `-` succeeds and changes nothing |
| CodeTreeModel.FetchRaisesNullPointer | MorseCodeTree.java:111-123 | the only exception `fetchNode` raises is the null-pointer exception |
| CodeTreeModel.FetchStep | MorseCodeTree.java:115-120 | on a present node, fetching a code starting with a step is fetching the rest from that child |
| CodeTreeModel.FetchBeyondHeight | MorseCodeTree.java:111-123 | a code of steps at least as long as the tree's height raises a null-pointer exception |
| CodeTreeModel.FetchInNil | MorseCodeTree.java:112-113 | from a missing node every code of steps raises |
| CodeTreeModel.FetchInGrow | MorseCodeTree.java:79-86 | intended insert (see "## Findings"): a placeholder added by the insert reads null at its own position and raises below it; an existing child reads as before |
| CodeTreeModel.FetchInserted | MorseCodeTree.java:56-123 | intended insert (see "## Findings"): insert-then-fetch round trip: after inserting a value under a code of steps, fetching that code returns the value |
| CodeTreeModel.FetchAfterInsert | MorseCodeTree.java:56-123 | intended insert (see "## Findings"): after an insert of a code of steps, a code of steps fetches: the value at the inserted code; the old data, or null at a new placeholder, at a proper prefix of it; a null-pointer exception at any extension of it, whose old subtree the new leaf replaced; exactly the old answer everywhere else |
| CodeTreeModel.InsertAsWritten | MorseCodeTree.java:69-90 | `addNode` as written: a normal result is the intended insert's result, and a failure on a non-empty code is a null-pointer exception (the placeholder constructor call dereferences null) |
| CodeTreeModel.InsertAsWrittenAgrees | MorseCodeTree.java:69-90 | for a non-empty code of steps, `addNode` as written gives exactly the intended insert's result when the code's parent fetches normally, and raises a null-pointer exception when it does not |
| CodeTreeModel.PlaceholderRaises | MorseCodeTree.java:78-87 | inserting `..` into a lone root raises a null-pointer exception as written, while the intended insert links a null placeholder and a leaf |
| CodeTreeModel.FetchStopsAtOtherSymbol | MorseCodeTree.java:115-122 | a code whose steps are followed by another symbol fetches null when the node before that symbol's parent exists (or the steps are empty), and raises a null-pointer exception otherwise; what follows the symbol is ignored |
| CodeTreeModel.InsertStopsAtOtherSymbol | MorseCodeTree.java:76-89 | intended insert (see "## Findings"): inserting a code whose steps are followed by another symbol succeeds and only adds null placeholders along those steps: every code of steps fetches what it did, except a prefix of the steps that raised, which now fetches null |
| CodeTreeModel.InsertKeepsNoPlaceholders | MorseCodeTree.java:69-90 | inserting a non-null value where every prefix already exists leaves no node holding null |
| CodeTreeModel.InOrderLength | MorseCodeTree.java:210-217 | the in-order list has one entry per node |
| MorseAlphabet.LettersMakeTable | MorseCodeTree.java:152-189 | the 26 inserts into a lone root holding the empty string give exactly the literal letter table |
| MorseAlphabet.OneSymbolLevel | MorseCodeTree.java:156-157 | the first two inserts give the table's first level |
| MorseAlphabet.TwoSymbolLevel | MorseCodeTree.java:160-163 | the next four inserts give the second level |
| MorseAlphabet.ThreeSymbolLevel | MorseCodeTree.java:166-173 | the next eight inserts give the third level |
| MorseAlphabet.FourSymbolLevel | MorseCodeTree.java:176-187 | the last twelve inserts complete the table |
| MorseAlphabet.FourDotsLevel | MorseCodeTree.java:176-181 | the six dot-first four-symbol inserts |
| MorseAlphabet.FourDashesLevel | MorseCodeTree.java:182-187 | the six dash-first four-symbol inserts complete the table |
| MorseAlphabet.Code | MorseCodeTree.java:156-187 | each letter's code, as `buildTree` inserts it, is one to four steps |
| MorseAlphabet.CodeInjective | MorseCodeTree.java:156-187 | no two letters share a code |
| MorseAlphabet.FetchLetters | MorseCodeTree.java:156-187 | in the table, each letter's code fetches exactly that letter |
| MorseAlphabet.FetchLettersAToM | MorseCodeTree.java:156-187 | the same for the letters `a` to `m` |
| MorseAlphabet.FetchLettersNToS | MorseCodeTree.java:156-187 | the same for the letters `n` to `s` |
| MorseAlphabet.FetchLettersTToZ | MorseCodeTree.java:156-187 | the same for the letters `t` to `z` |
| MorseAlphabet.TableSpells | MorseCodeTree.java:156-187 | the table spells every letter |
| MorseAlphabet.FetchDefinedExactly | MorseCodeTree.java:111-123 | in the table, a code of steps fetches normally if and only if it has at most three symbols, or four and is not one of the four unused codes |
| MorseAlphabet.FetchTableShort | MorseCodeTree.java:160-173 | every code of at most three steps reaches a node of the table |
| MorseAlphabet.FetchTableFour | MorseCodeTree.java:176-187 | a four-step code fetches normally exactly when it is not unused |
| MorseAlphabet.FetchDotFour | MorseCodeTree.java:176-181 | dot-first four-step codes: all but `..--` and `.-.-` reach a node |
| MorseAlphabet.FetchDashFour | MorseCodeTree.java:182-187 | dash-first four-step codes: all but `---.` and `----` reach a node |
| MorseAlphabet.FetchBelowThree | MorseCodeTree.java:115-119 | fetching three steps below a node with both children is fetching at the node those steps lead to |
| MorseAlphabet.UnusedAreFour | MorseCodeTree.java:176-187 | the codes the table leaves unused all have four symbols |
| MorseAlphabet.TableHeight | MorseCodeTree.java:152-189 | the table is five levels high, so every code of five or more steps raises |
| MorseAlphabet.TableHasNoPlaceholders | MorseCodeTree.java:152-189 | no node of the table holds null: no insert creates a placeholder, since each code's parent is inserted first |
| MorseAlphabet.InOrderTable | MorseCodeTree.java:197-217 | the built tree has 27 nodes and its in-order list is `h s v i f u e l r a p w j`, the root's empty string, then `b d x n c k y t z g q m o` |
| MorseAlphabet.InOrderDots | MorseCodeTree.java:210-217 | the in-order list of the dot subtree |
| MorseAlphabet.InOrderDashes | MorseCodeTree.java:210-217 | the in-order list of the dash subtree |
| MorseCodeConverter.PrintTree | MorseCodeConverter.java:30-37 | the result is the tree's in-order data, each followed by a space, trimmed |
| MorseCodeConverter.ConvertToEnglish | MorseCodeConverter.java:46-57 | the result is `ConvertLine` of the tree: each word's letters fetched and appended, then a space, the whole trimmed; the first exception a fetch raises is the result |
| MorseCodeConverter.AppendWord | MorseCodeConverter.java:50-54 | one word's letters fetched and appended (null written out) and a space; the first exception wins |
| MorseCodeConverter.ConvertLinesToEnglish | MorseCodeConverter.java:67-78 | the result is `ConvertLines`: each line trimmed, a blank one skipped, any other converted and followed by a newline, the whole trimmed; a line's exception ends the conversion |
| MorseCodeConverter.ConvertNextLine | MorseCodeConverter.java:71-74 | one line: nothing if it is blank once trimmed, otherwise its conversion and a newline |
| Decoding.DecodeWord | MorseCodeConverter.java:50-54 | one word's letters fetched and appended, then a space; a normal result ends with that space |
| Decoding.DecodeWords | MorseCodeConverter.java:49-55 | the words' results appended in order; normal exactly when every word's result is |
| Decoding.ConvertLine | MorseCodeConverter.java:46-57 | `convertToEnglish(String)`: the words decoded and the whole trimmed; a normal result neither starts nor ends with white space |
| Decoding.LineText | MorseCodeConverter.java:70-75 | one line of a file: nothing for a line blank once trimmed; a non-empty normal result ends with a newline |
| Decoding.Block | MorseCodeConverter.java:70-75 | the lines' results appended in order; normal exactly when every line's result is |
| Decoding.ConvertLines | MorseCodeConverter.java:67-78 | `convertToEnglish(File)` on the lines: normal exactly when every line converts; a normal result neither starts nor ends with white space |
| Decoding.TreeText | MorseCodeConverter.java:30-37 | `printTree`: the in-order data, each followed by a space, trimmed; the text neither starts nor ends with white space |
| MorseCodeConverter.LetterRaises | MorseCodeConverter.java:51-53 | a letter whose fetch raises makes the word raise that exception |
| MorseCodeConverter.LetterAppended | MorseCodeConverter.java:51-53 | a letter whose fetch returns adds the returned text |
| MorseCodeConverter.LettersDone | MorseCodeConverter.java:50-54 | after the last letter the word adds its letters' texts and one space |
| MorseCodeConverter.WordRaises | MorseCodeConverter.java:49-55 | a word that raises makes the line raise that exception |
| MorseCodeConverter.WordAppended | MorseCodeConverter.java:49-55 | a word that returns adds its text to the line |
| MorseCodeConverter.WordsDone | MorseCodeConverter.java:56 | after the last word the line is the words' text trimmed |
| MorseCodeConverter.LineRaises | MorseCodeConverter.java:70-75 | a line that raises makes the file raise that exception |
| MorseCodeConverter.LineAppended | MorseCodeConverter.java:70-75 | a line that converts adds its text |
| MorseCodeConverter.LinesDone | MorseCodeConverter.java:77 | after the last line the file's text is the lines' text trimmed |
| Decoding.LettersSnoc | MorseCodeConverter.java:51-53 | one more letter appends what its fetch gives |
| Decoding.LettersStep | MorseCodeConverter.java:51-53 | the letters up to one more index append that letter's text |
| Decoding.WordsSnoc | MorseCodeConverter.java:49-55 | one more word appends what it decodes to |
| Decoding.WordsStep | MorseCodeConverter.java:49-55 | the words up to one more index append that word's text |
| Decoding.BlockSnoc | MorseCodeConverter.java:70-75 | one more line appends what it converts to |
| Decoding.BlockStep | MorseCodeConverter.java:70-75 | the lines up to one more index append that line's text |
| Decoding.BlockAppend | MorseCodeConverter.java:70-75 | a file's lines contribute piecewise: a prefix's text, then the rest's |
| Decoding.LettersErrorSticks | MorseCodeConverter.java:51-53 | once a letter raises, later letters cannot change the word's outcome |
| Decoding.WordsErrorSticks | MorseCodeConverter.java:49-55 | once a word raises, later words cannot change the line's outcome |
| Decoding.BlockErrorSticks | MorseCodeConverter.java:70-75 | once a line raises, later lines cannot change the file's outcome |
| Decoding.SpelledLetter | MorseCodeConverter.java:52 | a tree that spells every letter appends each letter for its code |
| Decoding.DecodeCodes | MorseCodeConverter.java:51-53 | the codes of a word's letters decode to the word |
| Decoding.SplitEncodedWord | MorseCodeConverter.java:50 | splitting a word's code at single spaces gives back its letters' codes |
| Decoding.DecodeEncodedWord | MorseCodeConverter.java:50-54 | a word's code decodes to the word followed by a space |
| Decoding.DecodeEncodedWords | MorseCodeConverter.java:49-55 | the words' codes decode to the words joined by spaces, plus one space |
| Decoding.SplitEncodedText | MorseCodeConverter.java:48 | splitting a text's code at `" / "` gives back its words' codes |
| Decoding.EncodedWordShape | MorseCodeConverter.java:48 | a word's code contains no `/` and starts and ends with a step |
| Decoding.TrimSpacedWords | MorseCodeConverter.java:56 | the trim removes only the space after the last word |
| Decoding.ConvertEncoded | MorseCodeConverter.java:46-57 | decode-after-encode round trip: for any tree that spells every letter, the code of a text converts back to its words joined by single spaces |
| Decoding.ConvertEncodedTable | MorseCodeConverter.java:23 | the same round trip for the tree the converter builds |
| Decoding.ConvertOneCode | MorseCodeConverter.java:46-57 | a line without spaces converts normally exactly when its fetch does, to the fetched text trimmed, and raises what the fetch raised otherwise |
| Decoding.ConvertStepsOnly | MorseCodeConverter.java:46-57 | a line of steps alone raises exactly when its fetch raises, and then with a null-pointer exception |
| Decoding.ConvertCode | MorseCodeConverter.java:46-57 | with the built tree, a code of steps raises if and only if it has five or more symbols or is one of the four unused codes, always with a null-pointer exception |
| Decoding.OtherSymbolReadsNull | MorseCodeConverter.java:46-57 | a line that is one space-free code starting with a symbol other than `.` or `-` (a stray `/`, say) converts to the text `null` |
| Decoding.OtherLetterAppendsNull | MorseCodeConverter.java:51-53 | inside a word, a letter code starting with a symbol other than `.` or `-` appends the text `null` between its neighbours' texts |
| Decoding.ConvertEmptyLine | MorseCodeConverter.java:46-57 | the empty line reads the root's empty string and converts to the empty string |
| Decoding.BlankLineSkipped | MorseCodeConverter.java:71-74 | inserting a blank line anywhere in a file does not change the file's conversion |
| Decoding.TrimEncodedText | MorseCodeConverter.java:71 | an encoded text is non-empty and survives the line trim unchanged |
| Decoding.EncodedLineText | MorseCodeConverter.java:71-74 | a file line holding an encoded text adds the text and a newline |
| Decoding.BlockEncoded | MorseCodeConverter.java:70-75 | the lines of an encoded file add their texts, each followed by a newline |
| Decoding.ConvertLinesEncoded | MorseCodeConverter.java:67-78 | decode-after-encode round trip for files: one encoded text per line converts to the texts joined by newlines |
| Decoding.TrimPlain | MorseCodeConverter.java:77 | the final trim removes only the newline after the last text |
| Decoding.PlainEnds | MorseCodeConverter.java:77 | a decoded text starts and ends with a letter |
| Decoding.AppendEachAppend | MorseCodeConverter.java:33-35 | the print loop over two lists is the loop over each, one after the other |
| Decoding.AppendEachOne | MorseCodeConverter.java:33-35 | the print loop over one item adds it and a space |
| Decoding.AppendEachSnoc | MorseCodeConverter.java:33-35 | one more item in the print loop adds that item and a space |
| Decoding.PrintTable | MorseCodeConverter.java:30-37 | `printTree` on the built tree gives the 26 letters in in-order order, separated by single spaces, with two spaces where the root's empty string stands |
| Decoding.PrintTableFlat | MorseCodeConverter.java:30-37 | the same text written out as one literal: `h s v i f u e l r a p w j  b d x n c k y t z g q m o` |
| Decoding.EmptyLetterAddsNothing | MorseCodeConverter.java:50-53 | an empty letter code among a word's letter codes reads the root's empty string and adds nothing |
| Decoding.LeadingSpaceIgnored | MorseCodeConverter.java:50-54 | a space before a word's first letter code does not change the word's result |
| Decoding.DoubledSpaceIgnored | MorseCodeConverter.java:50-54 | two spaces between letter codes give the same result as one |
| Decoding.TrailingSpaceIgnored | MorseCodeConverter.java:50-54 | a space after a word's last letter code does not change the word's result |
| Decoding.EmptyRootPrintsDoubleSpace | MorseCodeConverter.java:30-37 | a root holding the empty string prints as an empty item, so two spaces separate the left subtree's letters from the right's |
| JavaLang.Show | MorseCodeConverter.java:52 | the text `append` adds for a string; it is `null` exactly for a null reference or the string `"null"` itself |
| JavaLang.Concat | MorseCodeConverter.java:52-54 | appending two partial results: the first exception wins, and two normal texts are concatenated |
| JavaLang.Appended | MorseCodeConverter.java:49-55 | a builder after appending each piece in turn: normal exactly when every piece is |
| JavaLang.ArrayList.constructor | MorseCodeTree.java:198 | a new list is empty |
| JavaLang.ConcatAssociative | MorseCodeConverter.java:52-54 | appending partial results, where the first exception wins, is associative |
| JavaLang.ConcatEmpty | MorseCodeConverter.java:52-54 | appending the empty string changes nothing |
| JavaLang.AppendedStep | MorseCodeConverter.java:51-53 | appending the pieces up to one more index appends that piece |
| JavaLang.AppendedSnoc | MorseCodeConverter.java:51-53 | appending one more piece |
| JavaLang.AppendedAppend | MorseCodeConverter.java:49-55 | appending two runs of pieces is appending their results |
| JavaLang.AppendedErrorSticks | MorseCodeConverter.java:49-55 | once a piece raises, the result is that exception whatever follows |
| Decoding.AppendedChars | MorseCodeConverter.java:51-53 | pieces of one character each append to those characters in order |
| Decoding.AppendedSpaced | MorseCodeConverter.java:49-55 | pieces each of a word and a space append to the words joined by spaces, plus a space |
| JavaStrings.TrimLeft | MorseCodeConverter.java:56 | `trim` from the left: a suffix of the input that drops exactly the leading characters up to `' '` |
| JavaStrings.TrimRight | MorseCodeConverter.java:56 | `trim` from the right: a prefix of the input that drops exactly the trailing characters up to `' '` |
| JavaStrings.Trim | MorseCodeConverter.java:56 | the trimmed string is no longer than the input and neither starts nor ends with a white character |
| JavaStrings.TrimKeepsClean | MorseCodeConverter.java:56 | a string with non-white ends is kept by `trim` |
| JavaStrings.TrimSpaced | MorseCodeConverter.java:56 | `trim` removes one white character added after a string with non-white ends |
| JavaStrings.TrimDropsPadding | MorseCodeConverter.java:71 | white padding on both sides does not change `trim` |
| JavaStrings.AllWhiteTrimsToEmpty | MorseCodeConverter.java:71-72 | an all-white line loses all of its characters to the left trim, so it trims to the empty string |
| JavaStrings.Pieces | MorseCodeConverter.java:48 | the split always yields at least one piece |
| JavaStrings.DropTrailingEmpty | MorseCodeConverter.java:48 | a prefix of the pieces, ending in a non-empty piece, that drops only empty ones |
| JavaStrings.PiecesOfFree | MorseCodeConverter.java:50 | a string without the delimiter is one piece |
| JavaStrings.PiecesCut | MorseCodeConverter.java:48 | a first piece free of the delimiter, then the delimiter, is cut off as the first piece |
| JavaStrings.PiecesOfJoin | MorseCodeConverter.java:48-50 | joining pieces free of the delimiter and cutting them again gives them back |
| JavaStrings.SplitOfJoin | MorseCodeConverter.java:48-50 | `split` of a join gives the joined strings, trailing empty ones dropped |
| JavaStrings.SplitOfFree | MorseCodeConverter.java:48-50 | `split` of a string without the delimiter is that string alone |
| JavaStrings.DropTrailingEmptyAppend | MorseCodeConverter.java:50 | dropping trailing empty pieces after a prefix only affects the part after the prefix, when that part keeps a piece |
| JavaStrings.PiecesOfOther | MorseCodeConverter.java:50 | a string with a character other than the one-character delimiter has a non-empty piece |
| JavaStrings.SplitKeepsSomething | MorseCodeConverter.java:50 | such a string splits into a list whose last entry is non-empty |
| JavaStrings.SplitCut | MorseCodeConverter.java:50 | a delimiter-free first part, then the delimiter, is cut off as the first entry of the split |
| JavaStrings.SplitLeadingMark | MorseCodeConverter.java:50 | a leading delimiter gives a leading empty entry (Java keeps leading empty strings) |
| JavaStrings.SplitDoubledMark | MorseCodeConverter.java:50 | a doubled delimiter gives an empty entry between its neighbours |
| JavaStrings.PiecesSnocMark | MorseCodeConverter.java:50 | a trailing delimiter adds an empty last piece |
| JavaStrings.SplitTrailingMark | MorseCodeConverter.java:50 | `split` drops that trailing empty piece, so a trailing delimiter changes nothing |
| JavaStrings.Split | MorseCodeConverter.java:48-50 | `String.split` on a literal delimiter: a prefix of the cut pieces that drops only empty ones, ending in a non-empty entry when it has two or more |
| JavaStrings.PiecesJoin | MorseCodeConverter.java:48-50 | the cut pieces joined again with the delimiter give back the string: cutting loses nothing |
| JavaStrings.JoinWithSnoc | MorseCodeConverter.java:54 | joining one more string adds the delimiter and the string |
| JavaStrings.EachFollowedByJoin | MorseCodeConverter.java:73 | each string followed by the delimiter is their join plus the delimiter |
| JavaStrings.JoinWithFree | MorseCodeConverter.java:48 | a join of strings and a delimiter free of a character is free of it |
| JavaStrings.TrimJoinClean | MorseCodeConverter.java:56 | a join of strings with non-white ends is kept by `trim` |
| JavaStrings.TrimJoinSpaced | MorseCodeConverter.java:56 | `trim` removes exactly the white character after such a join |
| JavaStrings.JoinWithEnds | MorseCodeConverter.java:56 | a join starts with the first string's first character and ends with the last one's last |

## Left out

- File access and `Scanner` are not modelled. `convertToEnglish(File)` is
  modelled on the file's lines as a sequence of strings
  (`ConvertLinesToEnglish`), so `FileNotFoundException` is not modelled.
- The converter's static tree (`MorseCodeConverter.java:23`) is a parameter
  of each converter method. Each method requires that the tree is well formed.
  The round-trip lemmas are stated for the letter table, which is what the
  constructor builds.
- `String.split` takes a regular expression. The regex engine is not
  modelled. Both delimiters the source uses, `" "` and `" / "`, contain no
  metacharacters, so `Split` is the literal split Java performs on them.
- The generic parameter `T` of `TreeNode` is fixed to `String`. The tree
  interface `LinkedConverterTreeInterface` and the node's generic type are
  not part of this model.
- Getter calls are field reads:
  - in `TreeNode.Copy`, `AddNode`, `FetchNode` and `LNROutputTraversal`;
  - the getters themselves are modelled separately.

  The setter calls of `addNode` stay calls of `SetLeftChild` and
  `SetRightChild`.
- Loop and branch bodies are separate methods: the inner loop of
  `convertToEnglish` (`AppendWord`), the file loop's body
  (`ConvertNextLine`), the three branches of `addNode` (`AttachLeaf`,
  `AddLeft`, `AddRight`) and the groups of inserts in `buildTree`. The
  statements are the same and the order of effects is the same.
- MorseCodeTrees.MorseCodeTree.constructor: does not state that the nodes it
  creates are new (no `fresh(Repr)`), only that the tree holds the letter
  table.
- MorseCodeTrees.MorseCodeTree.BuildTree: does not state that the nodes it
  creates are new, only that the tree holds the letter table.
- A `fetch` past the end of the tree raises `NullPointerException`. At a
  missing child, `fetchNode` recurses with the null child and calls
  `getData` (or a child getter) on it (`MorseCodeTree.java:112-119`). It does
  not return `null` there. The model raises the same exception.
- When `addNode` descends into a missing child from a null node, the code
  raises `NullPointerException` at the first `getLeftChild`/`getRightChild`
  call, before it creates anything. The model raises at the same point and
  leaves the tree unchanged.
- Every heap operation requires `Valid()`: the nodes form a tree, with no
  node shared and no cycle. Java's public `setLeftChild`, `setRightChild`
  and `setRoot` accept any node, so a caller can build a shared or cyclic
  structure. On such a structure `fetchNode` still works along a code, but the
  copy constructor and `LNRoutputTraversal` recurse without end. Those
  structures are not modelled.
- Code strings are non-null. The `NullPointerException` for a null code
  (`MorseCodeTree.java:70`, `MorseCodeTree.java:112`,
  `MorseCodeConverter.java:48`) is not modelled. Data strings may be null
  (`JString`).
- Overflow and Unicode are not modelled. Strings are sequences of `char` and
  lengths are unbounded integers. Java's `trim` treats every character up to
  `' '` as white space, and so does the model.
- CodeTreeModel.Put: states the intended insert, which links a null placeholder at a
  missing child. The code as written raises `NullPointerException` there
  instead (see "## Findings" and `CodeTreeModel.InsertAsWritten`).
- CodeTreeModel.InsertOutcome: states the intended insert, which links a null placeholder at a
  missing child. The code as written raises `NullPointerException` there
  instead (see "## Findings" and `CodeTreeModel.InsertAsWritten`).
- CodeTreeModel.InsertStep: states the intended insert, which links a null placeholder at a
  missing child. The code as written raises `NullPointerException` there
  instead (see "## Findings" and `CodeTreeModel.InsertAsWritten`).
- CodeTreeModel.FetchInserted: states the intended insert, which links a null placeholder at a
  missing child. The code as written raises `NullPointerException` there
  instead (see "## Findings" and `CodeTreeModel.InsertAsWritten`).
- CodeTreeModel.InsertIn: states the intended insert, which links a null placeholder at a
  missing child. The code as written raises `NullPointerException` there
  instead (see "## Findings" and `CodeTreeModel.InsertAsWritten`).
- CodeTreeModel.FetchInGrow: states the intended insert, which links a null placeholder at a
  missing child. The code as written raises `NullPointerException` there
  instead (see "## Findings" and `CodeTreeModel.InsertAsWritten`).
- CodeTreeModel.FetchAfterInsert: states the intended insert, which links a null placeholder at a
  missing child. The code as written raises `NullPointerException` there
  instead (see "## Findings" and `CodeTreeModel.InsertAsWritten`).
- CodeTreeModel.InsertStopsAtOtherSymbol: states the intended insert, which links a null placeholder at a
  missing child. The code as written raises `NullPointerException` there
  instead (see "## Findings" and `CodeTreeModel.InsertAsWritten`).
- MorseCodeTrees.MorseCodeTree.AddNode: states the intended insert, which links a null placeholder at a
  missing child. The code as written raises `NullPointerException` there
  instead (see "## Findings" and `CodeTreeModel.InsertAsWritten`).
- MorseCodeTrees.MorseCodeTree.AddLeft: states the intended insert, which links a null placeholder at a
  missing child. The code as written raises `NullPointerException` there
  instead (see "## Findings" and `CodeTreeModel.InsertAsWritten`).
- MorseCodeTrees.MorseCodeTree.AddRight: states the intended insert, which links a null placeholder at a
  missing child. The code as written raises `NullPointerException` there
  instead (see "## Findings" and `CodeTreeModel.InsertAsWritten`).
- MorseCodeTrees.MorseCodeTree.Insert: states the intended insert, which links a null placeholder at a
  missing child. The code as written raises `NullPointerException` there
  instead (see "## Findings" and `CodeTreeModel.InsertAsWritten`).
- Nodes.TreeNode.Copy: the argument is a node, never null. The only null
  argument in the code is `new TreeNode<>(null)` in `addNode`
  (`MorseCodeTree.java:80`, `MorseCodeTree.java:85`), which raises
  `NullPointerException` at `TreeNode.java:30`. That exception is modelled by
  `CodeTreeModel.InsertAsWritten`, not by a null parameter of `Copy`.

## Findings

| source | as written | input that shows it | evidently intended | confidence | as-written member | corrected member |
|---|---|---|---|---|---|---|
| MorseCodeTree.java:78-87 | `new TreeNode<>(null)` resolves to the copy constructor `TreeNode(TreeNode<T>)`, the most specific overload, which calls `getData()` on null (`TreeNode.java:30`); a missing child before the last symbol raises `NullPointerException` and the tree is left unchanged | `insert("..", "i")` on a tree holding only the root | a new node holding null is linked in as a placeholder and the walk continues | not executed; high (Java's most-specific overload rule) | CodeTreeModel.PlaceholderRaises | CodeTreeModel.FetchAfterInsert |
