/** What equal texts have in common. */
module JsonTexts {
  import opened JsonTable
  import opened JsonGrammar

  lemma Cancel(x: string, a: string, b: string)
    requires x + a == x + b
    ensures a == b
  {
    assert (x + a)[|x|..] == a && (x + b)[|x|..] == b;
  }

  /** The same run of characters, up to the first that is none of them */
  predicate Off(P: char -> bool, a: string) { a == [] || !P(a[0]) }

  predicate All(P: char -> bool, s: string) { forall i :: 0 <= i < |s| ==> P(s[i]) }

  lemma Shorter(P: char -> bool, s: string, a: string, t: string, b: string)
    requires All(P, t) && Off(P, a) && s + a == t + b
    ensures |s| >= |t|
  {
    if |s| < |t| {
      SameAt(s, a, t, b);
    }
  }

  lemma SameAt(s: string, a: string, t: string, b: string)
    requires s + a == t + b && |s| < |t|
    ensures a != [] && a[0] == t[|s|]
  {
    assert (s + a)[|s|] == (t + b)[|s|] == t[|s|];
  }

  lemma SameRun(P: char -> bool, s: string, a: string, t: string, b: string)
    requires All(P, s) && All(P, t) && Off(P, a) && Off(P, b) && s + a == t + b
    ensures s == t && a == b
  {
    Shorter(P, s, a, t, b);
    Shorter(P, t, b, s, a);
    assert (s + a)[..|s|] == s && (t + b)[..|t|] == t;
    Cancel(s, a, b);
  }

  predicate NoWhiteFirst(a: string) { a == [] || !IsWhite(a[0]) }

  lemma SameWhite(s: string, a: string, t: string, b: string)
    requires Ws(s) && Ws(t) && NoWhiteFirst(a) && NoWhiteFirst(b) && s + a == t + b
    ensures s == t && a == b
  {
    SameRun(c => IsWhite(c), s, a, t, b);
  }

  lemma WhiteNone(s: string, a: string, b: string)
    requires Ws(s) && NoWhiteFirst(a) && NoWhiteFirst(b) && s + a == b
    ensures s == "" && a == b
  {
    assert "" + b == b;
    SameWhite(s, a, "", b);
  }

  predicate NoDigitFirst(a: string) { a == [] || !IsDigit(a[0]) }

  lemma SameDigits(s: string, a: string, t: string, b: string)
    requires Digits(s) && Digits(t) && NoDigitFirst(a) && NoDigitFirst(b) && s + a == t + b
    ensures s == t && a == b
  {
    SameRun(c => IsDigit(c), s, a, t, b);
  }

  /** What may stand behind a number */
  predicate Stops(a: string) {
    a == [] || !(IsDigit(a[0]) || a[0] == '.' || a[0] == 'e' || a[0] == 'E' || a[0] == '+' || a[0] == '-')
  }
}
