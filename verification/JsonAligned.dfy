/** A text that the printer has written and that means the tree it was written for: everything stands where it stood. */
module JsonAligned {
  import opened Options
  import opened JsonTable
  import opened JsonGrammar
  import opened JsonLayout
  import opened JsonPrint
  import opened JsonRoundTrip
  import opened JsonTexts

  // ----- keys -----

  lemma {:induction false} CharSizes(x: StrChar)
    requires ValidChar(x)
    ensures 1 <= |CharValue(x)| <= |CharText(x)| && (|CharValue(x)| == |CharText(x)| ==> x.Plain?)
  {}

  lemma {:induction false} CharQuote(x: StrChar, i: nat)
    requires ValidChar(x) && i < |CharText(x)| && CharText(x)[i] == '"'
    ensures i == 1 && CharValue(x) == ['"']
  {
    assert CharText(x)[i] in CharText(x);
    if x.Uni? {
      HexNoQuote(x.h);
    } else if x.Pair? {
      HexNoQuote(x.hi);
      HexNoQuote(x.lo);
    }
  }

  lemma {:induction false} HexNoQuote(h: string)
    requires IsHex4(h)
    ensures '"' !in h
  {}

  lemma {:induction false} ValidLast(cs: seq<StrChar>)
    requires ValidChars(cs) && cs != []
    ensures ValidChars(cs[..|cs| - 1]) && ValidChar(cs[|cs| - 1])
    ensures CharsText(cs) == CharsText(cs[..|cs| - 1]) + CharText(cs[|cs| - 1])
    ensures CharsValue(cs) == CharsValue(cs[..|cs| - 1]) + CharValue(cs[|cs| - 1])
  {
    hide ValidChar;
  }

  /** A text is longer than what it means unless it has no escapes. */
  lemma {:induction false} CharsSizes(cs: seq<StrChar>)
    requires ValidChars(cs)
    ensures |CharsValue(cs)| <= |CharsText(cs)|
    ensures |CharsValue(cs)| == |CharsText(cs)| ==> CharsValue(cs) == CharsText(cs) && PrintableKey(CharsValue(cs))
  {
    if cs != [] {
      var x := cs[|cs| - 1];
      ValidLast(cs);
      CharsSizes(cs[..|cs| - 1]);
      CharSizes(x);
      hide CharsText;
      hide CharsValue;
      if x.Plain? { assert CharText(x) == CharValue(x) == [x.c]; }
      hide CharText;
      hide CharValue;
    }
  }

  /** A quote in a text comes from a quote in its meaning, which stands further ahead. */
  lemma {:induction false} QuoteAhead(cs: seq<StrChar>, j: nat) returns (i: nat)
    requires ValidChars(cs) && j < |CharsText(cs)| && CharsText(cs)[j] == '"'
    ensures i < j && i < |CharsValue(cs)| && CharsValue(cs)[i] == '"'
  {
    ValidLast(cs);
    var r, x := cs[..|cs| - 1], cs[|cs| - 1];
    CharsSizes(r);
    hide ValidChar;
    hide CharText;
    hide CharValue;
    if j < |CharsText(r)| {
      i := QuoteAhead(r, j);
    } else {
      CharQuote(x, j - |CharsText(r)|);
      i := |CharsValue(r)|;
    }
  }

  /** If the text begins with its own meaning, there is no quote in that part of it, or right behind it. */
  lemma {:induction false} NoQuote(cs: seq<StrChar>, j: nat)
    requires ValidChars(cs) && CharsValue(cs) <= CharsText(cs) && j <= |CharsValue(cs)| && j < |CharsText(cs)|
    ensures CharsText(cs)[j] != '"'
  {
    if CharsText(cs)[j] == '"' {
      var i := QuoteAhead(cs, j);
      NoQuote(cs, i);
    }
  }

  lemma {:induction false} KeyAligned(cs: seq<StrChar>, key: string, a: string, b: string)
    requires ValidChars(cs) && CharsValue(cs) == key && CharsText(cs) + "\"" + a == key + "\"" + b
    ensures CharsText(cs) == key && a == b && PrintableKey(key)
  {
    hide *;
    CharsSizes(cs);
    var t := CharsText(cs);
    var w := t + "\"" + a;
    assert w[..|key|] == key by { assert (key + "\"" + b)[..|key|] == key; }
    assert w[|key|] == '"' by { assert (key + "\"" + b)[|key|] == '"'; }
    assert t[..|key|] == w[..|key|];
    if |t| > |key| {
      assert t[|key|] == w[|key|];
      NoQuote(cs, |key|);
    }
    assert t == key;
    Cancel(key + "\"", a, b);
  }

  // ----- strings -----

  lemma {:induction false} EscapedConcat(s: string, r: string)
    ensures Escaped(s + r) == Escaped(s) + Escaped(r)
  {
    hide *;
    EscapedNone();
    if r == [] {
      assert s + r == s && Escaped(s) + [] == Escaped(s);
    } else {
      var q, c := r[..|r| - 1], r[|r| - 1];
      EscapedConcat(s, q);
      EscapedSnoc(q, c);
      EscapedSnoc(s + q, c);
      assert q + [c] == r && (s + q) + [c] == s + r;
      Reassociate(Escaped(s), Escaped(q), EscapeChar(c));
    }
  }

  lemma {:induction false} EscapedSnoc(r: string, c: char)
    ensures Escaped(r + [c]) == Escaped(r) + EscapeChar(c)
  {
    hide EscapeChar;
    assert (r + [c])[..|r|] == r;
  }

  /** The text of a character, where the printed form of what it means stands */
  lemma {:induction false} CharAligned(x: StrChar, w: string)
    requires ValidChar(x) && CharText(x) <= w && CharValue(x) != [] && EscapeChar(CharValue(x)[0]) <= w
    ensures CharText(x) == EscapeChar(CharValue(x)[0]) && CharValue(x) == [CharValue(x)[0]]
    ensures PrintableChar(CharValue(x)[0])
  {
    var e := EscapeChar(CharValue(x)[0]);
    assert w[0] == CharText(x)[0] == e[0];
    if |CharText(x)| > 1 && |e| > 1 {
      assert w[1] == CharText(x)[1] == e[1];
    }
  }

  lemma {:induction false} EscapedFirst(c: char, r: string)
    ensures Escaped([c] + r) == EscapeChar(c) + Escaped(r)
  {
    hide *;
    EscapedConcat([c], r);
    EscapedSnoc([], c);
    EscapedNone();
    assert [] + [c] == [c] && [] + EscapeChar(c) == EscapeChar(c);
  }

  lemma {:induction false} StringAligned(cs: seq<StrChar>, rest: seq<StrChar>, s: string, a: string, b: string)
    requires ValidChars(cs) && ValidChars(rest) && ValidChars(cs + rest) && CharsValue(cs + rest) == s
    requires CharsText(cs + rest) + a == Escaped(s) + b
    requires CharsText(cs) == Escaped(CharsValue(cs)) && PrintableString(CharsValue(cs))
    ensures CharsText(cs + rest) == Escaped(s) && PrintableString(s)
    decreases |rest|
  {
    hide *;
    if rest == [] {
      assert cs + rest == cs;
    } else {
      var x := rest[0];
      var cs1 := cs + [x];
      assert cs + rest == cs1 + rest[1..];
      NextAligned(cs, rest, s, a, b);
      StringAligned(cs1, rest[1..], s, a, b);
    }
  }

  lemma {:induction false} ValidParts(cs: seq<StrChar>, ds: seq<StrChar>)
    ensures ValidChars(cs + ds) <==> ValidChars(cs) && ValidChars(ds)
  {
    hide ValidChar;
    if ValidChars(cs + ds) {
      forall i | 0 <= i < |cs| ensures ValidChar(cs[i]) { assert (cs + ds)[i] == cs[i]; }
      forall i | 0 <= i < |ds| ensures ValidChar(ds[i]) { assert (cs + ds)[|cs| + i] == ds[i]; }
    }
  }

  lemma {:induction false} TextParts(cs: seq<StrChar>, ds: seq<StrChar>)
    requires ValidChars(cs) && ValidChars(ds)
    ensures ValidChars(cs + ds) && CharsText(cs + ds) == CharsText(cs) + CharsText(ds)
    ensures CharsValue(cs + ds) == CharsValue(cs) + CharsValue(ds)
  {
    ValidParts(cs, ds);
    hide ValidChar;
    hide CharText;
    hide CharValue;
    if ds == [] {
      assert cs + ds == cs;
    } else {
      var r := ds[..|ds| - 1];
      assert (cs + ds)[..|cs + ds| - 1] == cs + r && (cs + ds)[|cs + ds| - 1] == ds[|ds| - 1];
      TextParts(cs, r);
    }
  }

  lemma {:induction false} TextOne(x: StrChar)
    requires ValidChar(x)
    ensures ValidChars([x]) && CharsText([x]) == CharText(x) && CharsValue([x]) == CharValue(x)
  {
    assert [x][..0] == [] && [] + CharText(x) == CharText(x) && [] + CharValue(x) == CharValue(x);
    hide CharText;
    hide CharValue;
    hide ValidChar;
  }

  lemma Reassociate(x: string, y: string, z: string)
    ensures x + y + z == x + (y + z)
  {}

  lemma Behind(x: string, y: string, a: string, v: string, w: string, b: string)
    requires x + y + a == v + w + b && x == v
    ensures y + a == w + b
  {
    assert x + y + a == x + (y + a) && v + w + b == v + (w + b);
    Cancel(x, y + a, w + b);
  }

  /** The first of some characters */
  lemma {:induction false} HeadAligned(x: StrChar, more: seq<StrChar>, a: string, b: string)
    requires ValidChar(x) && ValidChars(more)
    requires CharText(x) + CharsText(more) + a == Escaped(CharValue(x) + CharsValue(more)) + b
    ensures CharValue(x) != [] && CharText(x) == EscapeChar(CharValue(x)[0]) && CharValue(x) == [CharValue(x)[0]]
    ensures PrintableChar(CharValue(x)[0])
  {
    hide *;
    CharSizes(x);
    var c, v := CharValue(x)[0], CharValue(x)[1..] + CharsValue(more);
    assert CharValue(x) + CharsValue(more) == [c] + v;
    EscapedFirst(c, v);
    var w := CharText(x) + CharsText(more) + a;
    assert CharText(x) <= w && w == EscapeChar(c) + Escaped(v) + b;
    assert EscapeChar(c) <= w;
    CharAligned(x, w);
  }

  lemma {:induction false} NextAligned(cs: seq<StrChar>, rest: seq<StrChar>, s: string, a: string, b: string)
    requires ValidChars(cs) && rest != [] && ValidChars(rest) && ValidChars(cs + rest) && CharsValue(cs + rest) == s
    requires CharsText(cs + rest) + a == Escaped(s) + b
    requires CharsText(cs) == Escaped(CharsValue(cs)) && PrintableString(CharsValue(cs))
    ensures ValidChars(cs + [rest[0]]) && ValidChars(rest[1..])
    ensures CharsText(cs + [rest[0]]) == Escaped(CharsValue(cs + [rest[0]]))
    ensures PrintableString(CharsValue(cs + [rest[0]]))
  {
    var x, more := rest[0], rest[1..];
    assert rest == [x] + more;
    hide *;
    ValidParts([x], more);
    FirstValid(rest);
    TextOne(x);
    TextParts(cs, rest);
    TextParts([x], more);
    EscapedConcat(CharsValue(cs), CharsValue(rest));
    Behind(CharsText(cs), CharsText(rest), a, Escaped(CharsValue(cs)), Escaped(CharsValue(rest)), b);
    HeadAligned(x, more, a, b);
    OneAligned(cs, x);
  }

  lemma {:induction false} OneAligned(cs: seq<StrChar>, x: StrChar)
    requires ValidChars(cs) && ValidChar(x) && CharsText(cs) == Escaped(CharsValue(cs))
    requires CharValue(x) != [] && CharText(x) == EscapeChar(CharValue(x)[0]) && CharValue(x) == [CharValue(x)[0]]
    requires PrintableChar(CharValue(x)[0]) && PrintableString(CharsValue(cs))
    ensures ValidChars(cs + [x]) && CharsText(cs + [x]) == Escaped(CharsValue(cs + [x]))
    ensures PrintableString(CharsValue(cs + [x]))
  {
    hide *;
    var c := CharValue(x)[0];
    TextOne(x);
    TextParts(cs, [x]);
    EscapedFirst(c, []);
    EscapedNone();
    assert [c] + [] == [c] && EscapeChar(c) + [] == EscapeChar(c);
    EscapedConcat(CharsValue(cs), [c]);
    PrintableSnoc(CharsValue(cs), c);
  }

  lemma {:induction false} EscapedNone()
    ensures Escaped([]) == []
  {}

  lemma {:induction false} FirstValid(cs: seq<StrChar>)
    requires ValidChars(cs) && cs != []
    ensures ValidChar(cs[0])
  {}

  /** A string in quotes */
  lemma {:induction false} QuotedAligned(cs: seq<StrChar>, s: string, a: string, b: string)
    requires ValidChars(cs) && CharsValue(cs) == s && CharsText(cs) + "\"" + a == Escaped(s) + "\"" + b
    ensures CharsText(cs) == Escaped(s) && a == b
  {
    hide *;
    Nothing();
    assert [] + cs == cs;
    Reassociate(CharsText(cs), "\"", a);
    Reassociate(Escaped(s), "\"", b);
    StringAligned([], cs, s, "\"" + a, "\"" + b);
    Cancel(Escaped(s) + "\"", a, b);
  }

  lemma {:induction false} Nothing()
    ensures ValidChars([]) && CharsText([]) == Escaped(CharsValue([])) && PrintableString(CharsValue([]))
  {}

  // ----- scalars -----

  lemma {:induction false} DecimalFirst(n: int)
    requires n != 0
    ensures Decimal(n) != [] && (Decimal(n)[0] == '-' || IsDigit(Decimal(n)[0]))
  {
    DigitsValue(if n < 0 then -n else n);
    hide DigitsOf;
    hide Natural;
  }

  lemma {:induction false} BehindDigits(x: string, a: string)
    requires Stops(a)
    ensures NoDigitFirst(a)
  {}

  /** A number that is read as an integer, where an integer is printed */
  lemma {:induction false} NumberAligned(n: Number, k: int, a: string, b: string)
    requires ValidNumber(n) && n.frac.None? && n.exp.None? && Stops(a) && Stops(b)
    requires WholeText(n) + a == (if k != 0 then Decimal(k) else "0") + b
    ensures a == b
  {
    if k != 0 {
      DigitsValue(if k < 0 then -k else k);
      DecimalFirst(k);
    }
    var ds := if k == 0 then "0" else DigitsOf(if k < 0 then -k else k);
    var text := if k != 0 then Decimal(k) else "0";
    hide Natural;
    hide DigitsOf;
    assert text == (if k < 0 then "-" else "") + ds && Digits(ds) && ds != [];
    hide Decimal;
    SignAligned(n.neg, n.whole, a, k < 0, ds, b);
    SameDigits(n.whole, a, ds, b);
  }

  lemma {:induction false} SignAligned(neg: bool, s: string, a: string, minus: bool, t: string, b: string)
    requires Digits(s) && Digits(t) && s != [] && t != []
    requires (if neg then "-" else "") + s + a == (if minus then "-" else "") + t + b
    ensures neg == minus && s + a == t + b
  {
    var w := (if neg then "-" else "") + s + a;
    assert w[0] == if neg then '-' else s[0];
    assert w[0] == if minus then '-' else t[0];
    Reassociate(if neg then "-" else "", s, a);
    Reassociate(if minus then "-" else "", t, b);
    Cancel(if neg then "-" else "", s + a, t + b);
  }

  /** What a printed value begins with */
  lemma {:induction false} ScalarFirst(t: Tree, one: int)
    requires !t.FloatTree? && (IsNode(t) ==> t.kids == [])
    ensures var s := ScalarText(t, one); s != [] && !IsWhite(s[0]) && s[0] != '[' && s[0] != '{'
    ensures ScalarText(t, one)[0] == 't' ==> t.TrueTree? && one == 0
  {
    if t.IntTree? && t.n != 0 { DecimalFirst(t.n); }
    if t.TrueTree? && one != 0 { DecimalFirst(one); }
    hide Decimal;
    hide Escaped;
  }

  lemma {:induction false} BareNode(t: Tree, one: int)
    requires NoFloats(t) && (IsNode(t) ==> t.kids == [])
    ensures NodeText(Kid(None, t), one) == ScalarText(t, one)
  {
    hide ScalarText;
  }

  lemma {:induction false} NodeFirst(t: Tree, one: int)
    requires NoFloats(t)
    ensures var s := NodeText(Kid(None, t), one); s != [] && !IsWhite(s[0])
  {
    if IsNode(t) && t.kids != [] {
      NodeAround(t, one);
      hide NodeText;
      hide ListText;
    } else {
      BareNode(t, one);
      ScalarFirst(t, one);
      hide NodeText;
      hide ScalarText;
    }
  }

  lemma {:induction false} ScalarAligned(v: Value, t: Tree, one: int, a: string, b: string)
    requires ValidValue(v) && Meaning(v) == t && NoFloats(t) && !v.VArr? && !v.VObj?
    requires Text(v) + a == NodeText(Kid(None, t), one) + b && Stops(a) && Stops(b)
    ensures a == b && !IsNode(t)
  {
    BareNode(t, one);
    ScalarFirst(t, one);
    hide NodeText;
    var s := ScalarText(t, one);
    var w := Text(v) + a;
    assert w[0] == s[0];
    match v {
      case VNum(n) =>
        assert Text(v) == WholeText(n) by { hide WholeText; }
        NumberAligned(n, t.n, a, b);
      case VStr(cs) =>
        Reassociate("\"", CharsText(cs) + "\"", a);
        Reassociate("\"", Escaped(t.s) + "\"", b);
        assert Text(v) == "\"" + (CharsText(cs) + "\"");
        assert s == "\"" + (Escaped(t.s) + "\"");
        Cancel("\"", CharsText(cs) + "\"" + a, Escaped(t.s) + "\"" + b);
        QuotedAligned(cs, t.s, a, b);
      case VTrue => Cancel("true", a, b);
      case VFalse => Cancel("false", a, b);
      case VNull => Cancel("null", a, b);
      case VEmptyObj(_) =>
      case VEmptyArr(_) =>
    }
  }

  // ----- trees -----

  /** Keys in objects only, and of characters that the printer does not have to escape */
  predicate Keyed(t: Tree)
    decreases t
  {
    IsNode(t) ==> KeyedKids(t.kids, t.ObjTree?)
  }

  predicate KeyedKids(kids: seq<Kid>, keyed: bool)
    decreases kids
  {
    kids == [] ||
    (assert kids[0].t < kids[0];
     && (if keyed then kids[0].key.Some? && PrintableKey(kids[0].key.value) else kids[0].key.None?)
     && Keyed(kids[0].t) && KeyedKids(kids[1..], keyed))
  }

  /** If a value, read from where a tree has been printed, is that tree, then it ends where the printed tree ends, and
      the keys of the tree are fit to be printed. */
  lemma {:induction false} ValueAligned(v: Value, t: Tree, one: int, a: string, b: string)
    requires ValidValue(v) && Meaning(v) == t && NoFloats(t)
    requires Text(v) + a == NodeText(Kid(None, t), one) + b && Stops(a) && Stops(b)
    ensures a == b && Keyed(t)
    decreases v, 1
  {
    if v.VArr? {
      ArrayAligned(v.es, t, one, a, b);
    } else if v.VObj? {
      ObjectAligned(v.ms, t, one, a, b);
    } else {
      hide *;
      ScalarAligned(v, t, one, a, b);
      KeyedScalar(t);
    }
  }

  lemma {:induction false} ArrayAligned(es: seq<Elem>, t: Tree, one: int, a: string, b: string)
    requires ValidValue(VArr(es)) && Meaning(VArr(es)) == t && NoFloats(t)
    requires Text(VArr(es)) + a == NodeText(Kid(None, t), one) + b
    ensures a == b && Keyed(t)
    decreases es, 1
  {
    hide *;
    ArrayText(es, t, one);
    Reassociate("[", ElemsText(es) + "]", a);
    Reassociate("[", ListText(t.kids, Square, one), b);
    Cancel("[", ElemsText(es) + "]" + a, ListText(t.kids, Square, one) + b);
    ElemsAligned(es, t.kids, one, a, b);
    KeyedNode(t);
  }

  lemma {:induction false} ObjectAligned(ms: seq<Member>, t: Tree, one: int, a: string, b: string)
    requires ValidValue(VObj(ms)) && Meaning(VObj(ms)) == t && NoFloats(t)
    requires Text(VObj(ms)) + a == NodeText(Kid(None, t), one) + b
    ensures a == b && Keyed(t)
    decreases ms, 1
  {
    hide *;
    ObjectText(ms, t, one);
    Reassociate("{", MembersText(ms) + "}", a);
    Reassociate("{", ListText(t.kids, Curly, one), b);
    Cancel("{", MembersText(ms) + "}" + a, ListText(t.kids, Curly, one) + b);
    MembersAligned(ms, t.kids, one, a, b);
    KeyedNode(t);
  }

  lemma {:induction false} KeyedNode(t: Tree)
    requires IsNode(t) && KeyedKids(t.kids, t.ObjTree?)
    ensures Keyed(t)
  {}

  lemma {:induction false} KeyedScalar(t: Tree)
    requires !IsNode(t)
    ensures Keyed(t)
  {}

  lemma {:induction false} ArrayText(es: seq<Elem>, t: Tree, one: int)
    requires ValidValue(VArr(es)) && Meaning(VArr(es)) == t && NoFloats(t)
    ensures es != [] && ValidElems(es) && t == ArrTree(ElemsMeaning(es)) && t.kids != [] && NoFloatKids(t.kids)
    ensures Text(VArr(es)) == "[" + (ElemsText(es) + "]")
    ensures NodeText(Kid(None, t), one) == "[" + ListText(t.kids, Square, one)
  {
    NodeAround(t, one);
    hide NodeText;
    hide ListText;
    hide ElemsText;
    Reassociate("[", ElemsText(es), "]");
  }

  lemma {:induction false} ObjectText(ms: seq<Member>, t: Tree, one: int)
    requires ValidValue(VObj(ms)) && Meaning(VObj(ms)) == t && NoFloats(t)
    ensures ms != [] && ValidMembers(ms) && t == ObjTree(MembersMeaning(ms)) && t.kids != [] && NoFloatKids(t.kids)
    ensures Text(VObj(ms)) == "{" + (MembersText(ms) + "}")
    ensures NodeText(Kid(None, t), one) == "{" + ListText(t.kids, Curly, one)
  {
    NodeAround(t, one);
    hide NodeText;
    hide ListText;
    hide MembersText;
    Reassociate("{", MembersText(ms), "}");
  }

  /** White space, a value and what follows it, where a printed value and its mark stand */
  lemma {:induction false} ItemAligned(v: Value, t: Tree, one: int, ws0: string, ws1: string, more: string,
                                       rest: string)
    requires ValidValue(v) && Meaning(v) == t && NoFloats(t) && Ws(ws0) && Ws(ws1)
    requires ws0 + (Text(v) + (ws1 + more)) == NodeText(Kid(None, t), one) + rest
    requires more != [] && rest != [] && IsMark(more[0]) && IsMark(rest[0])
    ensures more == rest && Keyed(t)
    decreases v, 2
  {
    hide *;
    NodeFirst(t, one);
    TextFirst(v);
    var node := NodeText(Kid(None, t), one);
    FirstOf(Text(v), ws1 + more);
    FirstOf(node, rest);
    WhiteNone(ws0, Text(v) + (ws1 + more), node + rest);
    MarkStops(ws1, more);
    MarkStops("", rest);
    assert "" + rest == rest;
    ValueAligned(v, t, one, ws1 + more, rest);
    MarkNoWhite(more);
    MarkNoWhite(rest);
    WhiteNone(ws1, more, rest);
  }

  predicate IsMark(c: char) { c == ',' || c == ']' || c == '}' }

  lemma {:induction false} FirstOf(x: string, y: string)
    requires x != [] && !IsWhite(x[0])
    ensures NoWhiteFirst(x + y)
  {}

  lemma {:induction false} MarkStops(ws: string, more: string)
    requires Ws(ws) && more != [] && IsMark(more[0])
    ensures Stops(ws + more)
  {}

  lemma {:induction false} MarkNoWhite(more: string)
    requires more != [] && IsMark(more[0])
    ensures NoWhiteFirst(more)
  {}

  lemma {:induction false} TextFirst(v: Value)
    requires ValidValue(v)
    ensures Text(v) != [] && !IsWhite(Text(v)[0])
  {
    hide CharsText;
    hide MembersText;
    hide ElemsText;
  }

  /** The text of a list of elements, up to its end */
  lemma {:induction false} ElemsSplit(es: seq<Elem>, a: string)
    requires es != []
    ensures ElemsText(es) + "]" + a
         == es[0].ws0 + (Text(es[0].v) + (es[0].ws1
            + ((if |es| == 1 then "" else ",") + (ElemsText(es[1..]) + "]" + a))))
  {
    hide Text;
    if |es| == 1 { assert es[1..] == []; }
  }

  lemma {:induction false} ListSplit(kids: seq<Kid>, b: Bracket, one: int, rest: string)
    requires kids != [] && NoFloatKids(kids) && !b.NoBracket?
    ensures NoFloats(kids[0].t) && NoFloatKids(kids[1..])
    ensures ListText(kids, b, one) + rest
         == KeyText(kids[0].key)
            + (NodeText(Kid(None, kids[0].t), one)
               + ((if |kids| > 1 then "," else Close(b)) + (ListText(kids[1..], b, one) + rest)))
  {
    assert !b.NoBracket?;
    hide *;
    var k := kids[0];
    var mark := if |kids| > 1 then "," else Close(b);
    ListCons(kids, b, one);
    NodeTextKey(k.key, k.t, one);
    assert k == Kid(k.key, k.t);
    Ungroup(KeyText(k.key), NodeText(Kid(None, k.t), one), mark, ListText(kids[1..], b, one), rest);
  }

  lemma Ungroup(key: string, node: string, mark: string, list: string, rest: string)
    ensures (key + node) + mark + list + rest == key + (node + (mark + (list + rest)))
  {}

  lemma {:induction false} ElemsAligned(es: seq<Elem>, kids: seq<Kid>, one: int, a: string, b: string)
    requires es != [] && ValidElems(es) && kids == ElemsMeaning(es) && NoFloatKids(kids)
    requires ElemsText(es) + "]" + a == ListText(kids, Square, one) + b
    ensures a == b && KeyedKids(kids, false)
    decreases es, 0
  {
    var v, t := es[0].v, kids[0].t;
    ElemsHead(es, kids);
    ElemsSplit(es, a);
    ListSplit(kids, Square, one, b);
    var more := (if |es| == 1 then "" else ",") + (ElemsText(es[1..]) + "]" + a);
    var rest := (if |kids| > 1 then "," else "]") + (ListText(kids[1..], Square, one) + b);
    assert KeyText(None) == "" && Close(Square) == "]";
    hide *;
    assert "" + (NodeText(Kid(None, t), one) + rest) == NodeText(Kid(None, t), one) + rest;
    LastElem(es, a);
    LastKid(kids, Square, one, b);
    assert IsMark(more[0]) && IsMark(rest[0]) by { Marks(); }
    ItemAligned(v, t, one, es[0].ws0, es[0].ws1, more, rest);
    if |es| == 1 {
      Cancel("]", a, b);
      KeyedCons(kids, false);
    } else {
      Cancel(",", ElemsText(es[1..]) + "]" + a, ListText(kids[1..], Square, one) + b);
      ElemsAligned(es[1..], kids[1..], one, a, b);
      KeyedCons(kids, false);
    }
  }

  lemma {:induction false} Marks()
    ensures IsMark(',') && IsMark(']') && IsMark('}')
  {}

  lemma {:induction false} KeyedCons(kids: seq<Kid>, keyed: bool)
    requires kids != [] && Keyed(kids[0].t) && (|kids| > 1 ==> KeyedKids(kids[1..], keyed))
    requires if keyed then kids[0].key.Some? && PrintableKey(kids[0].key.value) else kids[0].key.None?
    ensures KeyedKids(kids, keyed)
  {
    hide Keyed;
    assert kids[0].t < kids[0];
    if |kids| == 1 { assert kids[1..] == []; }
  }

  lemma {:induction false} ElemsHead(es: seq<Elem>, kids: seq<Kid>)
    requires es != [] && ValidElems(es) && kids == ElemsMeaning(es)
    ensures |kids| == |es| && kids[0].key.None? && ValidValue(es[0].v) && Meaning(es[0].v) == kids[0].t
    ensures Ws(es[0].ws0) && Ws(es[0].ws1) && ValidElems(es[1..]) && kids[1..] == ElemsMeaning(es[1..])
  {
    ElemsCount(es);
    hide Meaning;
    hide ValidValue;
  }

  lemma {:induction false} ElemsCount(es: seq<Elem>)
    requires ValidElems(es)
    ensures |ElemsMeaning(es)| == |es|
  {
    hide Meaning;
    hide ValidValue;
    if es != [] { ElemsCount(es[1..]); }
  }

  lemma {:induction false} LastElem(es: seq<Elem>, a: string)
    requires es != []
    ensures |es| == 1 ==> ElemsText(es[1..]) + "]" + a == "]" + a
  {
    hide Text;
    if |es| == 1 { assert es[1..] == []; }
  }

  lemma {:induction false} LastKid(kids: seq<Kid>, b: Bracket, one: int, rest: string)
    requires kids != [] && NoFloatKids(kids[1..])
    ensures |kids| == 1 ==> ListText(kids[1..], b, one) + rest == rest
  {
    hide NodeText;
    if |kids| == 1 { assert kids[1..] == []; }
  }

  /** The text of a list of members, up to its end */
  lemma {:induction false} MembersSplit(ms: seq<Member>, a: string)
    requires ms != []
    ensures var m := ms[0];
            MembersText(ms) + "}" + a
            == m.ws0 + ("\"" + (CharsText(m.key) + "\"" + (m.ws1 + (":" + (m.ws2 + (Text(m.v) + (m.ws3
               + ((if |ms| == 1 then "" else ",") + (MembersText(ms[1..]) + "}" + a)))))))))
  {
    var m := ms[0];
    assert Quoted(m.key) == "\"" + CharsText(m.key) + "\"";
    hide Text;
    hide CharsText;
    hide Quoted;
    if |ms| == 1 { assert ms[1..] == []; }
    var rest := (if |ms| == 1 then "" else ",") + (MembersText(ms[1..]) + "}" + a);
    assert MembersText(ms) + "}" + a
        == (m.ws0 + Quoted(m.key) + m.ws1 + ":" + m.ws2) + Text(m.v) + m.ws3 + rest;
    hide MembersText;
    Regroup(m.ws0, CharsText(m.key), m.ws1, m.ws2, Text(m.v), m.ws3, rest);
  }

  lemma Regroup(ws0: string, key: string, ws1: string, ws2: string, v: string, ws3: string, rest: string)
    ensures (ws0 + ("\"" + key + "\"") + ws1 + ":" + ws2) + v + ws3 + rest
         == ws0 + ("\"" + (key + "\"" + (ws1 + (":" + (ws2 + (v + (ws3 + rest)))))))
  {}

  lemma {:induction false} MembersHead(ms: seq<Member>, kids: seq<Kid>)
    requires ms != [] && ValidMembers(ms) && kids == MembersMeaning(ms)
    ensures |kids| == |ms| && ValidChars(ms[0].key) && kids[0].key == Some(CharsValue(ms[0].key))
    ensures ValidValue(ms[0].v) && Meaning(ms[0].v) == kids[0].t
    ensures Ws(ms[0].ws0) && Ws(ms[0].ws1) && Ws(ms[0].ws2) && Ws(ms[0].ws3)
    ensures ValidMembers(ms[1..]) && kids[1..] == MembersMeaning(ms[1..])
  {
    MembersCount(ms);
    hide Meaning;
    hide ValidValue;
    hide CharsValue;
    hide ValidChars;
  }

  lemma {:induction false} MembersCount(ms: seq<Member>)
    requires ValidMembers(ms)
    ensures |MembersMeaning(ms)| == |ms|
  {
    hide Meaning;
    hide ValidValue;
    hide CharsValue;
    hide ValidChars;
    if ms != [] { MembersCount(ms[1..]); }
  }

  lemma {:induction false} LastMember(ms: seq<Member>, a: string)
    requires ms != []
    ensures |ms| == 1 ==> MembersText(ms[1..]) + "}" + a == "}" + a
  {
    hide Text;
    hide CharsText;
    if |ms| == 1 { assert ms[1..] == []; }
  }

  /** White space, a key, and what follows it, where a printed key stands */
  lemma {:induction false} KeyItemAligned(ws0: string, cs: seq<StrChar>, key: string, ws1: string, more: string,
                                          rest: string)
    requires Ws(ws0) && Ws(ws1) && ValidChars(cs) && CharsValue(cs) == key
    requires ws0 + ("\"" + (CharsText(cs) + "\"" + (ws1 + (":" + more)))) == KeyText(Some(key)) + rest
    ensures more == rest && PrintableKey(key)
  {
    hide *;
    var left := CharsText(cs) + "\"" + (ws1 + (":" + more));
    var right := key + "\"" + (":" + rest);
    KeySplit(key, rest);
    QuoteFirst(left);
    QuoteFirst(right);
    WhiteNone(ws0, "\"" + left, "\"" + right);
    Cancel("\"", left, right);
    KeyAligned(cs, key, ws1 + (":" + more), ":" + rest);
    ColonFirst(more);
    ColonFirst(rest);
    WhiteNone(ws1, ":" + more, ":" + rest);
    Cancel(":", more, rest);
  }

  lemma KeySplit(key: string, rest: string)
    ensures KeyText(Some(key)) + rest == "\"" + (key + "\"" + (":" + rest))
  {}

  lemma QuoteFirst(x: string)
    ensures NoWhiteFirst("\"" + x)
  {}

  lemma ColonFirst(x: string)
    ensures NoWhiteFirst(":" + x)
  {}

  lemma {:induction false} MembersAligned(ms: seq<Member>, kids: seq<Kid>, one: int, a: string, b: string)
    requires ms != [] && ValidMembers(ms) && kids == MembersMeaning(ms) && NoFloatKids(kids)
    requires MembersText(ms) + "}" + a == ListText(kids, Curly, one) + b
    ensures a == b && KeyedKids(kids, true)
    decreases ms, 0
  {
    var m, t := ms[0], kids[0].t;
    MembersHead(ms, kids);
    MembersSplit(ms, a);
    ListSplit(kids, Curly, one, b);
    var more := (if |ms| == 1 then "" else ",") + (MembersText(ms[1..]) + "}" + a);
    var rest := (if |kids| > 1 then "," else "}") + (ListText(kids[1..], Curly, one) + b);
    assert Close(Curly) == "}";
    hide *;
    LastMember(ms, a);
    LastKid(kids, Curly, one, b);
    assert IsMark(more[0]) && IsMark(rest[0]) by { Marks(); }
    var key := kids[0].key.value;
    KeyItemAligned(m.ws0, m.key, key, m.ws1, m.ws2 + (Text(m.v) + (m.ws3 + more)), NodeText(Kid(None, t), one) + rest);
    ItemAligned(m.v, t, one, m.ws2, m.ws3, more, rest);
    if |ms| == 1 {
      Cancel("}", a, b);
      KeyedCons(kids, true);
    } else {
      Cancel(",", MembersText(ms[1..]) + "}" + a, ListText(kids[1..], Curly, one) + b);
      MembersAligned(ms[1..], kids[1..], one, a, b);
      KeyedCons(kids, true);
    }
  }
}
