/** Text helpers the page relies on: ASCII lowercasing (`str.lower`),
    literal substring search (`str.contains`) and splitting on a separator
    (`str.split`). */
module Text {

  predicate IsUpper(c: char) {
    'A' <= c <= 'Z'
  }

  /** Lowercase of one character; only the ASCII letters are folded. */
  function LowerChar(c: char): char {
    if IsUpper(c) then (c as int - 'A' as int + 'a' as int) as char else c
  }

  /** No ASCII capital letter occurs in `s`. */
  predicate IsLowerCase(s: string) {
    forall i :: 0 <= i < |s| ==> !IsUpper(s[i])
  }

  /** `s.lower()`, restricted to ASCII: the string keeps its length, each
      character is folded on its own, the result holds no capital letter, and
      a string that is already lower case is left as it is. */
  function Lower(s: string): (r: string)
    ensures |r| == |s|
    ensures forall i :: 0 <= i < |s| ==> r[i] == LowerChar(s[i])
    ensures IsLowerCase(r)
    ensures IsLowerCase(s) ==> r == s
  {
    if s == [] then [] else [LowerChar(s[0])] + Lower(s[1..])
  }

  /** Lowercasing twice is lowercasing once. */
  lemma LowerIdempotent(s: string)
    ensures Lower(Lower(s)) == Lower(s)
  {
  }

  /** `q` occurs in `s` starting at index `i`. */
  predicate OccursAt(s: string, q: string, i: int) {
    0 <= i && i + |q| <= |s| && s[i..i + |q|] == q
  }

  lemma OccursShift(s: string, q: string, i: int)
    requires s != [] && 0 <= i
    ensures OccursAt(s[1..], q, i) <==> OccursAt(s, q, i + 1)
  {
    if i + |q| <= |s| - 1 {
      assert s[1..][i..i + |q|] == s[i + 1..i + 1 + |q|];
    }
  }

  /** Literal substring test: true exactly when `q` occurs somewhere in `s`. */
  function Contains(s: string, q: string): (b: bool)
    ensures b <==> exists i :: OccursAt(s, q, i)
    decreases |s|
  {
    if |q| <= |s| && s[..|q|] == q then
      assert OccursAt(s, q, 0);
      true
    else if s == [] then
      false
    else
      var b := Contains(s[1..], q);
      ContainsStep(s, q);
      b
  }

  lemma ContainsStep(s: string, q: string)
    requires s != []
    requires !(|q| <= |s| && s[..|q|] == q)
    ensures (exists i :: OccursAt(s[1..], q, i)) <==> (exists i :: OccursAt(s, q, i))
  {
    if i :| OccursAt(s[1..], q, i) {
      OccursShift(s, q, i);
    }
    if i :| OccursAt(s, q, i) {
      assert i != 0;
      OccursShift(s, q, i - 1);
    }
  }

  /** `s.split(sep)`: the pieces between the separators, in order; there is
      one piece more than there are separators, so exactly one piece when `s`
      holds no separator. */
  function Split(s: string, sep: char): (parts: seq<string>)
    ensures |parts| >= 1
    ensures |parts| == 1 <==> sep !in s
    ensures forall k :: 0 <= k < |parts| ==> sep !in parts[k]
    decreases |s|
  {
    if s == [] then
      [""]
    else
      var rest := Split(s[1..], sep);
      if s[0] == sep then [""] + rest
      else [[s[0]] + rest[0]] + rest[1..]
  }

  /** `sep.join(parts)`. */
  function Join(parts: seq<string>, sep: char): string
    requires |parts| >= 1
    decreases |parts|
  {
    if |parts| == 1 then parts[0] else parts[0] + [sep] + Join(parts[1..], sep)
  }

  /** Splitting and joining again gives back the original string. */
  lemma {:induction false} JoinSplit(s: string, sep: char)
    ensures Join(Split(s, sep), sep) == s
    decreases |s|
  {
    if s != [] {
      var rest := Split(s[1..], sep);
      JoinSplit(s[1..], sep);
      if s[0] == sep {
        assert Split(s, sep)[1..] == rest;
      } else if |rest| == 1 {
      } else {
        var parts := Split(s, sep);
        assert parts[1..] == rest[1..];
        assert Join(rest, sep) == rest[0] + [sep] + Join(rest[1..], sep);
      }
    }
  }

  /** `s.split(sep)[-1]`. */
  function LastPiece(s: string, sep: char): string {
    var parts := Split(s, sep);
    parts[|parts| - 1]
  }

  /** The last piece of a split is the text after the last separator: it is
      a suffix of `s` holding no separator, and it is either all of `s` or
      preceded by a separator. */
  lemma {:induction false} LastPieceIsAfterLastSeparator(s: string, sep: char)
    ensures var e := LastPiece(s, sep);
      && sep !in e
      && |e| <= |s|
      && e == s[|s| - |e|..]
      && (|e| < |s| ==> s[|s| - |e| - 1] == sep)
    decreases |s|
  {
    if s != [] {
      var rest := Split(s[1..], sep);
      LastPieceIsAfterLastSeparator(s[1..], sep);
      if s[0] == sep {
        assert LastPiece(s, sep) == LastPiece(s[1..], sep);
      } else if |rest| == 1 {
        assert sep !in s[1..];
        assert LastPiece(s, sep) == [s[0]] + rest[0];
        assert rest[0] == s[1..];
        assert s == [s[0]] + s[1..];
      } else {
        assert LastPiece(s, sep) == LastPiece(s[1..], sep);
      }
    }
  }

  /** A string without the separator is its own last piece. */
  lemma LastPieceWithoutSeparator(s: string, sep: char)
    requires sep !in s
    ensures LastPiece(s, sep) == s
  {
    JoinSplit(s, sep);
  }

  /** The last piece of `p + sep + e` is `e` when `e` holds no separator. */
  lemma LastPieceAfterSeparator(p: string, e: string, sep: char)
    requires sep !in e
    ensures LastPiece(p + [sep] + e, sep) == e
  {
    var s := p + [sep] + e;
    var e' := LastPiece(s, sep);
    LastPieceIsAfterLastSeparator(s, sep);
    assert forall k :: |s| - |e| <= k < |s| ==> s[k] == e[k - (|s| - |e|)];
    assert s[|s| - |e| - 1] == sep;
    if |e'| > |e| {
      assert false;
    } else if |e'| < |e| {
      assert false;
    }
    assert e == s[|s| - |e|..];
  }
}
