/**
 * The string splitting done by the test reply helpers with strchr and strtok
 * (src/tests/client_server/libtest_convenience_server_reply.c), as pure functions.
 */
module TextSplit {
  import opened Wrappers

  /** strchr: the index of the first occurrence of c in s, or None (NULL). */
  function FirstIndexOf(s: string, c: char): (r: Option<nat>)
    ensures r.None? <==> c !in s
    ensures r.Some? ==> r.value < |s| && s[r.value] == c && c !in s[..r.value]
  {
    if s == [] then None
    else if s[0] == c then Some(0)
    else match FirstIndexOf(s[1..], c)
      case None => None
      case Some(k) =>
        assert s[1..][..k] == s[1..k + 1];
        Some(k + 1)
  }

  /**
   * Split at the first c: the part before it, and the part after it when c occurs
   * (what the helpers get by writing a NUL over the separator).
   */
  function SplitAtFirst(s: string, c: char): (r: (string, Option<string>))
    ensures r.1.None? <==> c !in s
    ensures r.1.None? ==> r.0 == s
    ensures r.1.Some? ==> r.0 + [c] + r.1.value == s && c !in r.0
  {
    match FirstIndexOf(s, c)
    case None => (s, None)
    case Some(k) =>
      assert s[..k] + [c] + s[k + 1..] == s;
      (s[..k], Some(s[k + 1..]))
  }

  /** Every field between separators, empty ones included. */
  function SplitOn(s: string, c: char): (fields: seq<string>)
    ensures |fields| >= 1
    ensures forall i :: 0 <= i < |fields| ==> c !in fields[i]
    decreases |s|
  {
    match FirstIndexOf(s, c)
    case None => [s]
    case Some(k) => [s[..k]] + SplitOn(s[k + 1..], c)
  }

  /** The fields put back together with the separator between them. */
  function Join(fields: seq<string>, c: char): string
    decreases |fields|
  {
    if fields == [] then []
    else if |fields| == 1 then fields[0]
    else fields[0] + [c] + Join(fields[1..], c)
  }

  /** Splitting and joining again gives back the text. */
  lemma {:induction false} JoinSplitOn(s: string, c: char)
    ensures Join(SplitOn(s, c), c) == s
    decreases |s|
  {
    match FirstIndexOf(s, c)
    case None =>
    case Some(k) =>
      var rest := SplitOn(s[k + 1..], c);
      JoinSplitOn(s[k + 1..], c);
      assert SplitOn(s, c) == [s[..k]] + rest;
      assert ([s[..k]] + rest)[1..] == rest;
      assert s[..k] + [c] + s[k + 1..] == s;
  }

  /** The non-empty fields, in order. */
  function NonEmpty(fields: seq<string>): (r: seq<string>)
    ensures forall i :: 0 <= i < |r| ==> r[i] != [] && r[i] in fields
    ensures |r| <= |fields|
    decreases |fields|
  {
    if fields == [] then []
    else if fields[0] == [] then NonEmpty(fields[1..])
    else [fields[0]] + NonEmpty(fields[1..])
  }

  /**
   * The tokens a strtok loop returns: the non-empty runs of characters other than
   * the delimiter (strtok never returns an empty token).
   */
  function Tokens(s: string, c: char): (toks: seq<string>)
    ensures forall i :: 0 <= i < |toks| ==> toks[i] != [] && c !in toks[i]
  {
    NonEmpty(SplitOn(s, c))
  }

  /** NonEmpty filters element by element: it distributes over concatenation. */
  lemma {:induction false} NonEmptyAppend(a: seq<string>, b: seq<string>)
    ensures NonEmpty(a + b) == NonEmpty(a) + NonEmpty(b)
    decreases |a|
  {
    if a != [] {
      var ab := a + b;
      assert ab[0] == a[0];
      assert ab[1..] == a[1..] + b;
      NonEmptyAppend(a[1..], b);
      if a[0] == [] {
        assert NonEmpty(ab) == NonEmpty(a[1..] + b);
        assert NonEmpty(a) == NonEmpty(a[1..]);
      } else {
        assert NonEmpty(ab) == [a[0]] + NonEmpty(a[1..] + b);
        assert NonEmpty(a) == [a[0]] + NonEmpty(a[1..]);
      }
    } else {
      assert a + b == b;
    }
  }

  /**
   * What one strtok step does, for every text: with no delimiter the whole text
   * is the last token (none if it is empty); otherwise the field before the first
   * delimiter is a token unless it is empty, and tokenising goes on after it.
   */
  lemma TokensStep(s: string, c: char)
    ensures c !in s ==> Tokens(s, c) == (if s == [] then [] else [s])
    ensures c in s ==>
      var k := FirstIndexOf(s, c).value;
      Tokens(s, c) == (if k == 0 then [] else [s[..k]]) + Tokens(s[k + 1..], c)
  {
    match FirstIndexOf(s, c)
    case None =>
      assert SplitOn(s, c) == [s];
      assert NonEmpty([s]) == (if s == [] then [] else [s]) by {
        assert [s][1..] == [];
      }
    case Some(k) =>
      var rest := SplitOn(s[k + 1..], c);
      assert SplitOn(s, c) == [s[..k]] + rest;
      NonEmptyAppend([s[..k]], rest);
      assert [s[..k]][1..] == [];
  }

  /** The first delimiter of x + [c] + rest is the one after x, when x has none. */
  lemma FirstIndexAfter(x: string, rest: string, c: char)
    requires c !in x
    ensures FirstIndexOf(x + [c] + rest, c) == Some(|x|)
  {
    var s := x + [c] + rest;
    var k := FirstIndexOf(s, c).value;
    assert s[..|x|] == x;
    assert s[|x|] == c;
    assert k <= |x| by {
      if k > |x| {
        assert false;
      }
    }
    assert k >= |x| by {
      if k < |x| {
        assert false;
      }
    }
  }

  /** A text without the delimiter is one token, or none when it is empty. */
  lemma TokensOfField(x: string, c: char)
    requires c !in x
    ensures Tokens(x, c) == (if x == [] then [] else [x])
  {
    TokensStep(x, c);
  }

  /** A delimiter after the field x: x is a token (unless empty) and tokenising goes on after it. */
  lemma TokensAfterField(x: string, rest: string, c: char)
    requires c !in x
    ensures Tokens(x + [c] + rest, c) == (if x == [] then [] else [x]) + Tokens(rest, c)
  {
    var s := x + [c] + rest;
    FirstIndexAfter(x, rest, c);
    TokensStep(s, c);
    assert s[..|x|] == x;
    assert s[|x| + 1..] == rest;
  }

  /** A leading delimiter gives no empty token. */
  lemma TokensSkipLeadingDelimiter(y: string, c: char)
    ensures Tokens([c] + y, c) == Tokens(y, c)
  {
    assert [c] + y == [] + [c] + y;
    TokensAfterField([], y, c);
  }

  /** A doubled delimiter between two fields gives no empty token. */
  lemma TokensSkipDoubledDelimiter(x: string, y: string, c: char)
    requires x != [] && y != [] && c !in x && c !in y
    ensures Tokens(x + [c, c] + y, c) == [x, y]
  {
    var rest := [c] + y;
    assert x + [c, c] + y == x + [c] + rest;
    TokensAfterField(x, rest, c);
    TokensSkipLeadingDelimiter(y, c);
    TokensOfField(y, c);
  }

  /** A delimiter at either end gives no empty token. */
  lemma TokensSkipOuterDelimiters(x: string, c: char)
    requires x != [] && c !in x
    ensures Tokens([c] + x + [c], c) == [x]
  {
    assert [c] + x + [c] == [] + [c] + (x + [c] + []);
    TokensAfterField([], x + [c] + [], c);
    TokensAfterField(x, [], c);
    TokensOfField([], c);
  }

  /** Concatenation of a sequence of strings. */
  function Concat(pieces: seq<string>): string
    decreases |pieces|
  {
    if pieces == [] then [] else pieces[0] + Concat(pieces[1..])
  }

  lemma {:induction false} NonEmptyKeepsAll(fields: seq<string>)
    requires forall i :: 0 <= i < |fields| ==> fields[i] != []
    ensures NonEmpty(fields) == fields
    decreases |fields|
  {
    if fields != [] {
      NonEmptyKeepsAll(fields[1..]);
    }
  }

  /**
   * Without empty fields (no leading, trailing or doubled delimiter) the tokens
   * are every field, and joining them gives back the text.
   */
  lemma TokensOfWellFormed(s: string, c: char)
    requires forall i :: 0 <= i < |SplitOn(s, c)| ==> SplitOn(s, c)[i] != []
    ensures Tokens(s, c) == SplitOn(s, c)
    ensures Join(Tokens(s, c), c) == s
  {
    NonEmptyKeepsAll(SplitOn(s, c));
    JoinSplitOn(s, c);
  }
}
