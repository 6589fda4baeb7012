/**
  The few Java library values the decoder relies on: nullable strings, the
  exceptions its code can raise, what `StringBuilder.append` writes for a
  string, and the growable list that the in-order traversal fills.
 */
module JavaLang {

  /** A Java `String` reference: `null` or a sequence of characters. */
  datatype JString = Null | Str(chars: string)

  /** The unchecked exceptions the modelled code can raise. */
  datatype Exception =
    | NullPointer             // a method called on a null reference
    | StringIndexOutOfBounds  // `charAt(0)` on the empty string
    | UnsupportedOperation    // the tree's `delete` and `update`

  /** A value, or the exception that aborted its computation. */
  datatype Result<+T> = Ok(value: T) | Err(error: Exception)

  /** The completion of a `void` call: normal, or by an exception. */
  datatype Outcome = Pass | Fail(error: Exception)

  /** The text `StringBuilder.append(String)` adds: a null reference is written as `null`. */
  function Show(s: JString): (r: string)
    ensures r == "null" <==> s == Null || s == Str("null")
  {
    match s
    case Null => "null"
    case Str(chars) => chars
  }

  /** Appending two partial results: the first exception raised wins. */
  function Concat(a: Result<string>, b: Result<string>): (r: Result<string>)
    ensures a.Err? ==> r == a
    ensures a.Ok? && b.Err? ==> r == b
    ensures a.Ok? && b.Ok? ==> r == Ok(a.value + b.value)
  {
    match a
    case Err(e) => Err(e)
    case Ok(x) =>
      match b
      case Err(e) => Err(e)
      case Ok(y) => Ok(x + y)
  }

  /** The empty string is a unit of appending. */
  lemma ConcatEmpty(a: Result<string>)
    ensures Concat(a, Ok("")) == a && Concat(Ok(""), a) == a
  {
    if a.Ok? {
      assert a.value + "" == a.value && "" + a.value == a.value;
    }
  }

  lemma ConcatAssociative(a: Result<string>, b: Result<string>, c: Result<string>)
    ensures Concat(Concat(a, b), c) == Concat(a, Concat(b, c))
  {
    if a.Ok? && b.Ok? && c.Ok? {
      assert (a.value + b.value) + c.value == a.value + (b.value + c.value);
    }
  }

  /**
    What a `StringBuilder` holds after appending each piece in turn: their
    concatenation, or the first exception raised while computing them.
   */
  function Appended(pieces: seq<Result<string>>): (r: Result<string>)
    ensures r.Ok? <==> forall i :: 0 <= i < |pieces| ==> pieces[i].Ok?
  {
    if pieces == [] then Ok("")
    else Concat(Appended(pieces[..|pieces| - 1]), pieces[|pieces| - 1])
  }

  /** Appending one more piece. */
  lemma AppendedStep(pieces: seq<Result<string>>, k: nat)
    requires k < |pieces|
    ensures Appended(pieces[..k + 1]) == Concat(Appended(pieces[..k]), pieces[k])
  {
    assert pieces[..k + 1][..k] == pieces[..k];
  }

  /** Appending a single piece gives that piece. */
  lemma AppendedOne(p: Result<string>)
    ensures Appended([p]) == p
  {
    assert [p][..0] == [];
    ConcatEmpty(p);
  }

  /** Appending a run of pieces, then one more. */
  lemma AppendedSnoc(pieces: seq<Result<string>>, p: Result<string>)
    ensures Appended(pieces + [p]) == Concat(Appended(pieces), p)
  {
    assert (pieces + [p])[..|pieces|] == pieces;
  }

  /** Appending two runs of pieces is appending the first, then the second. */
  lemma {:induction false} AppendedAppend(a: seq<Result<string>>, b: seq<Result<string>>)
    ensures Appended(a + b) == Concat(Appended(a), Appended(b))
    decreases |b|
  {
    if b == [] {
      assert a + b == a;
      ConcatEmpty(Appended(a));
    } else {
      var b' := b[..|b| - 1];
      assert (a + b)[..|a + b| - 1] == a + b';
      assert (a + b)[|a + b| - 1] == b[|b| - 1];
      AppendedAppend(a, b');
      ConcatAssociative(Appended(a), Appended(b'), b[|b| - 1]);
    }
  }

  /** Once a piece raises, nothing appended after it matters: the result is that exception. */
  lemma {:induction false} AppendedErrorSticks(pieces: seq<Result<string>>, k: nat)
    requires k <= |pieces| && Appended(pieces[..k]).Err?
    ensures Appended(pieces) == Appended(pieces[..k])
    decreases |pieces| - k
  {
    if k < |pieces| {
      AppendedStep(pieces, k);
      AppendedErrorSticks(pieces, k + 1);
    } else {
      assert pieces[..k] == pieces;
    }
  }

  /** `java.util.ArrayList<String>`, restricted to what the traversal uses. */
  class ArrayList {
    var items: seq<JString>

    constructor ()
      ensures items == []
    {
      items := [];
    }

    method Add(s: JString)
      modifies this
      ensures items == old(items) + [s]
    {
      items := items + [s];
    }
  }
}
