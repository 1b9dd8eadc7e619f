/** The language of the table and the grammar of RFC 8259: which texts of each are texts of the other. */
module JsonRfc {
  import opened Options
  import opened JsonTable
  import opened JsonGrammar
  import opened JsonSound
  import opened JsonTexts
  import opened JsonAligned

  // ----- the grammar of the standard -----

  /** Section 7 of RFC 8259: any character that is not a control character, an escape, or four hexadecimal digits. A
      pair of surrogates is two of the last kind. */
  predicate JsonChar(x: StrChar) {
    match x
    case Plain(c) => ' ' <= c && c != '"' && c != '\\'
    case Esc(c) => c != 'u' && Unescape(c).Some?
    case Uni(h) => IsHex4(h)
    case Pair(_, _) => false
  }

  predicate JsonChars(cs: seq<StrChar>) { forall i :: 0 <= i < |cs| ==> JsonChar(cs[i]) }

  /** Section 6; a number that need not be full may have a point without digits behind it. */
  predicate JsonNumber(n: Number, full: bool) {
    && n.whole != [] && Digits(n.whole) && (n.whole[0] == '0' ==> |n.whole| == 1)
    && (n.frac.Some? ==> Digits(n.frac.value) && (full ==> n.frac.value != ""))
    && (n.exp.Some? ==> ValidExponent(n.exp.value))
  }

  /** Sections 2 to 5 */
  predicate JsonValue(v: Value, full: bool)
    decreases v
  {
    match v
    case VNum(n) => JsonNumber(n, full)
    case VStr(cs) => JsonChars(cs)
    case VEmptyObj(ws) => Ws(ws)
    case VObj(ms) => ms != [] && JsonMembers(ms, full)
    case VEmptyArr(ws) => Ws(ws)
    case VArr(es) => es != [] && JsonElems(es, full)
    case _ => true
  }

  predicate JsonMembers(ms: seq<Member>, full: bool)
    decreases ms
  {
    ms == [] ||
    (Ws(ms[0].ws0) && JsonChars(ms[0].key) && Ws(ms[0].ws1) && Ws(ms[0].ws2) && JsonValue(ms[0].v, full)
     && Ws(ms[0].ws3) && JsonMembers(ms[1..], full))
  }

  predicate JsonElems(es: seq<Elem>, full: bool)
    decreases es
  {
    es == [] || (Ws(es[0].ws0) && JsonValue(es[0].v, full) && Ws(es[0].ws1) && JsonElems(es[1..], full))
  }

  /** A JSON text of RFC 8259, whose characters are bytes here */
  ghost predicate RfcText(text: string) {
    exists ws0, v, ws1 :: RfcParts(text, ws0, v, ws1)
  }

  ghost predicate RfcParts(text: string, ws0: string, v: Value, ws1: string) {
    Ws(ws0) && JsonValue(v, true) && Ws(ws1) && text == ws0 + (Text(v) + ws1)
  }

  // ----- a text has one syntax tree -----

  lemma {:induction false} HeadUnique(x: StrChar, y: StrChar, a: string, b: string)
    requires JsonChar(x) && JsonChar(y) && CharText(x) + a == CharText(y) + b
    ensures x == y && a == b
  {
    var w := CharText(x) + a;
    assert w[0] == CharText(x)[0] == CharText(y)[0];
    if !x.Plain? && !y.Plain? {
      assert w[1] == CharText(x)[1] == CharText(y)[1];
      if x.Uni? {
        assert CharText(x) == "\\u" + x.h && CharText(y) == "\\u" + y.h;
        assert w[2..6] == x.h && (CharText(y) + b)[2..6] == y.h;
      }
    }
    Cancel(CharText(x), a, b);
  }

  lemma {:induction false} HeadFirst(x: StrChar)
    requires JsonChar(x)
    ensures CharText(x) != [] && CharText(x)[0] != '"'
  {}

  lemma {:induction false} FrontText(cs: seq<StrChar>)
    requires cs != []
    ensures CharsText(cs) == CharText(cs[0]) + CharsText(cs[1..])
  {
    hide CharText;
    var n := |cs| - 1;
    if n == 0 {
      assert cs[..0] == [] && cs[1..] == [];
      assert [] + CharText(cs[0]) == CharText(cs[0]) + [];
    } else {
      FrontText(cs[..n]);
      assert cs[..n][1..] == cs[1..][..n - 1];
    }
  }

  lemma {:induction false} CharsSplit(cs: seq<StrChar>, rest: string)
    requires JsonChars(cs) && cs != []
    ensures JsonChar(cs[0]) && JsonChars(cs[1..])
    ensures CharsText(cs) + rest == CharText(cs[0]) + (CharsText(cs[1..]) + rest)
  {
    FrontText(cs);
    hide CharText;
    hide CharsText;
    hide JsonChar;
  }

  lemma {:induction false} CharsNone(rest: string)
    ensures CharsText([]) + rest == rest
  {}

  /** No characters stand where there are some. */
  lemma {:induction false} SomeChars(cs: seq<StrChar>, a: string, b: string)
    requires JsonChars(cs) && cs != []
    ensures CharsText(cs) + ("\"" + a) != "\"" + b
  {
    CharsSplit(cs, "\"" + a);
    HeadFirst(cs[0]);
    hide *;
    var w := CharText(cs[0]) + (CharsText(cs[1..]) + ("\"" + a));
    assert w[0] == CharText(cs[0])[0];
  }

  lemma {:induction false} UniqueChars(cs: seq<StrChar>, ds: seq<StrChar>, a: string, b: string)
    requires JsonChars(cs) && JsonChars(ds) && CharsText(cs) + ("\"" + a) == CharsText(ds) + ("\"" + b)
    ensures cs == ds && a == b
    decreases |cs|
  {
    hide *;
    CharsNone("\"" + a);
    CharsNone("\"" + b);
    if cs == [] {
      if ds != [] { SomeChars(ds, b, a); }
      Cancel("\"", a, b);
    } else if ds == [] {
      SomeChars(cs, a, b);
    } else {
      CharsSplit(cs, "\"" + a);
      CharsSplit(ds, "\"" + b);
      HeadUnique(cs[0], ds[0], CharsText(cs[1..]) + ("\"" + a), CharsText(ds[1..]) + ("\"" + b));
      UniqueChars(cs[1..], ds[1..], a, b);
      assert cs == [cs[0]] + cs[1..] && ds == [ds[0]] + ds[1..];
    }
  }

  /** A string in quotes */
  lemma {:induction false} UniqueQuoted(cs: seq<StrChar>, ds: seq<StrChar>, a: string, b: string)
    requires JsonChars(cs) && JsonChars(ds) && Quoted(cs) + a == Quoted(ds) + b
    ensures cs == ds && a == b
  {
    var c, d := CharsText(cs), CharsText(ds);
    assert Quoted(cs) + a == "\"" + (c + ("\"" + a)) && Quoted(ds) + b == "\"" + (d + ("\"" + b));
    hide *;
    Cancel("\"", c + ("\"" + a), d + ("\"" + b));
    UniqueChars(cs, ds, a, b);
  }

  // ----- numbers -----

  function FracText(n: Number): string { if n.frac.Some? then "." + n.frac.value else "" }

  function ExpText(x: Option<Exponent>): string {
    if x.Some? then [x.value.e] + (x.value.sign + x.value.digits) else ""
  }

  lemma {:induction false} NumberParts(n: Number, a: string)
    ensures NumberText(n) + a == (if n.neg then "-" else "") + n.whole + (FracText(n) + (ExpText(n.exp) + a))
  {}

  lemma {:induction false} UniqueDigits(x: Exponent, y: Exponent, a: string, b: string)
    requires ValidExponent(x) && ValidExponent(y) && Stops(a) && Stops(b)
    requires x.sign + x.digits + a == y.sign + y.digits + b
    ensures x.sign == y.sign && x.digits == y.digits && a == b
  {
    var w := x.sign + x.digits + a;
    assert w[0] == (if x.sign == "" then x.digits[0] else x.sign[0]);
    assert w[0] == (if y.sign == "" then y.digits[0] else y.sign[0]);
    Reassociate(x.sign, x.digits, a);
    Reassociate(y.sign, y.digits, b);
    Cancel(x.sign, x.digits + a, y.digits + b);
    SameDigits(x.digits, a, y.digits, b);
  }

  lemma {:induction false} UniqueExponent(x: Option<Exponent>, y: Option<Exponent>, a: string, b: string)
    requires (x.Some? ==> ValidExponent(x.value)) && (y.Some? ==> ValidExponent(y.value)) && Stops(a) && Stops(b)
    requires ExpText(x) + a == ExpText(y) + b
    ensures x == y && a == b
  {
    ExpFirst(x, a);
    ExpFirst(y, b);
    hide *;
    if x.Some? && y.Some? {
      var s, t := x.value.sign + x.value.digits + a, y.value.sign + y.value.digits + b;
      assert ([x.value.e] + s)[0] == ([y.value.e] + t)[0];
      Cancel([x.value.e], s, t);
      UniqueDigits(x.value, y.value, a, b);
      assert x.value == Exponent(x.value.e, x.value.sign, x.value.digits);
    } else if x.Some? {
      StopsExponent(x.value, x.value.sign + x.value.digits + a, b);
    } else if y.Some? {
      StopsExponent(y.value, y.value.sign + y.value.digits + b, a);
    }
  }

  lemma {:induction false} ExpFirst(x: Option<Exponent>, a: string)
    ensures ExpText(x) + a == if x.Some? then [x.value.e] + (x.value.sign + x.value.digits + a) else a
  {}

  lemma {:induction false} StopsExponent(x: Exponent, s: string, b: string)
    requires ValidExponent(x) && Stops(b)
    ensures [x.e] + s != b
  {
    assert ([x.e] + s)[0] == x.e;
  }

  /** What stands behind the digits of a number, or of its fraction */
  lemma {:induction false} ExpStops(x: Option<Exponent>, a: string)
    requires (x.Some? ==> ValidExponent(x.value)) && Stops(a)
    ensures NoDigitFirst(ExpText(x) + a) && (ExpText(x) + a == [] || (ExpText(x) + a)[0] != '.')
  {
    var w := ExpText(x) + a;
    assert x.Some? ==> w[0] == x.value.e;
    assert x.None? ==> w == a;
  }

  lemma {:induction false} UniqueFraction(m: Number, n: Number, a: string, b: string)
    requires JsonNumber(m, false) && JsonNumber(n, false) && Stops(a) && Stops(b)
    requires FracText(m) + (ExpText(m.exp) + a) == FracText(n) + (ExpText(n.exp) + b)
    ensures m.frac == n.frac && m.exp == n.exp && a == b
  {
    hide ValidExponent;
    ExpStops(m.exp, a);
    ExpStops(n.exp, b);
    var p, q := ExpText(m.exp) + a, ExpText(n.exp) + b;
    hide ExpText;
    var w := FracText(m) + p;
    assert m.frac.Some? ==> w[0] == '.';
    assert n.frac.Some? ==> w[0] == '.';
    assert m.frac.None? ==> w == p;
    assert n.frac.None? ==> w == q;
    if m.frac.Some? && n.frac.Some? {
      Reassociate(".", m.frac.value, p);
      Reassociate(".", n.frac.value, q);
      Cancel(".", m.frac.value + p, n.frac.value + q);
      SameDigits(m.frac.value, p, n.frac.value, q);
    }
    UniqueExponent(m.exp, n.exp, a, b);
  }

  lemma {:induction false} FracStops(n: Number, a: string)
    requires JsonNumber(n, false) && Stops(a)
    ensures NoDigitFirst(FracText(n) + (ExpText(n.exp) + a))
  {
    ExpStops(n.exp, a);
    hide ExpText;
    var w := FracText(n) + (ExpText(n.exp) + a);
    assert n.frac.Some? ==> w[0] == '.';
    assert n.frac.None? ==> w == ExpText(n.exp) + a;
  }

  lemma {:induction false} UniqueNumber(m: Number, n: Number, a: string, b: string)
    requires JsonNumber(m, false) && JsonNumber(n, false) && Stops(a) && Stops(b)
    requires NumberText(m) + a == NumberText(n) + b
    ensures m == n && a == b
  {
    NumberParts(m, a);
    NumberParts(n, b);
    FracStops(m, a);
    FracStops(n, b);
    var p, q := FracText(m) + (ExpText(m.exp) + a), FracText(n) + (ExpText(n.exp) + b);
    hide NumberText;
    hide FracText;
    hide ExpText;
    SignAligned(m.neg, m.whole, p, n.neg, n.whole, q);
    SameDigits(m.whole, p, n.whole, q);
    UniqueFraction(m, n, a, b);
  }

  // ----- values -----

  /** The kind of a value shows in its first character. */
  function KindOf(v: Value): nat {
    match v
    case VNum(_) => 0
    case VStr(_) => 1
    case VTrue => 2
    case VFalse => 3
    case VNull => 4
    case VEmptyObj(_) => 5
    case VObj(_) => 5
    case VEmptyArr(_) => 6
    case VArr(_) => 6
  }

  function KindShown(c: char): nat {
    if c == '-' || IsDigit(c) then 0 else if c == '"' then 1 else if c == 't' then 2 else if c == 'f' then 3
    else if c == 'n' then 4 else if c == '{' then 5 else if c == '[' then 6 else 7
  }

  lemma {:induction false} ValueFirst(v: Value, a: string)
    requires JsonValue(v, false)
    ensures Text(v) != [] && !IsWhite(Text(v)[0]) && KindShown(Text(v)[0]) == KindOf(v)
    ensures Text(v)[0] != ']' && NoWhiteFirst(Text(v) + a) && (Text(v) + a)[0] == Text(v)[0]
  {
    hide CharsText;
    hide MembersText;
    hide ElemsText;
    if v.VNum? { NumberParts(v.n, ""); }
  }

  lemma {:induction false} UniqueScalar(v: Value, w: Value, a: string, b: string)
    requires JsonValue(v, false) && JsonValue(w, false) && Text(v) + a == Text(w) + b && Stops(a) && Stops(b)
    requires KindOf(v) == KindOf(w) < 5
    ensures v == w && a == b
  {
    match v {
      case VNum(n) => UniqueNumber(n, w.n, a, b);
      case VStr(cs) => UniqueQuoted(cs, w.cs, a, b);
      case VTrue => Cancel("true", a, b);
      case VFalse => Cancel("false", a, b);
      case VNull => Cancel("null", a, b);
    }
  }

  /** One syntax tree, up to where the value ends */
  lemma {:induction false} UniqueValue(v: Value, w: Value, a: string, b: string)
    requires JsonValue(v, false) && JsonValue(w, false) && Text(v) + a == Text(w) + b && Stops(a) && Stops(b)
    ensures v == w && a == b
    decreases v, 1
  {
    ValueFirst(v, a);
    ValueFirst(w, b);
    if KindOf(v) < 5 {
      UniqueScalar(v, w, a, b);
    } else if KindOf(v) == 5 {
      UniqueObject(v, w, a, b);
    } else {
      UniqueArray(v, w, a, b);
    }
  }

  // ----- arrays -----

  lemma {:induction false} ArrayParts(v: Value, a: string)
    requires JsonValue(v, false) && KindOf(v) == 6
    ensures v.VArr? ==> v.es != [] && JsonElems(v.es, false) && Text(v) + a == "[" + (ElemsText(v.es) + "]" + a)
    ensures v.VEmptyArr? ==> Ws(v.ws) && Text(v) + a == "[" + (v.ws + ("]" + a))
  {
    hide ElemsText;
  }

  lemma {:induction false} UniqueArray(v: Value, w: Value, a: string, b: string)
    requires JsonValue(v, false) && JsonValue(w, false) && Text(v) + a == Text(w) + b
    requires KindOf(v) == KindOf(w) == 6
    ensures v == w && a == b
    decreases v, 0
  {
    ArrayParts(v, a);
    ArrayParts(w, b);
    assert v.VArr? || v.VEmptyArr?;
    assert w.VArr? || w.VEmptyArr?;
    hide *;
    var s := if v.VArr? then ElemsText(v.es) + "]" + a else v.ws + ("]" + a);
    var t := if w.VArr? then ElemsText(w.es) + "]" + b else w.ws + ("]" + b);
    Cancel("[", s, t);
    if v.VArr? && w.VArr? {
      UniqueElems(v.es, w.es, a, b);
    } else if v.VArr? {
      SomeElems(v.es, a, w.ws, b);
    } else if w.VArr? {
      SomeElems(w.es, b, v.ws, a);
    } else {
      BracketFirst("]", a);
      BracketFirst("]", b);
      SameWhite(v.ws, "]" + a, w.ws, "]" + b);
      Cancel("]", a, b);
    }
  }

  lemma {:induction false} BracketFirst(x: string, a: string)
    requires x == "]" || x == "}"
    ensures NoWhiteFirst(x + a) && (x + a)[0] == x[0]
  {}

  /** An array is not empty if it has elements. */
  lemma {:induction false} SomeElems(es: seq<Elem>, a: string, ws: string, b: string)
    requires es != [] && JsonElems(es, false) && Ws(ws)
    ensures ElemsText(es) + "]" + a != ws + ("]" + b)
  {
    var e := es[0];
    ElemsSplit(es, a);
    var rest := e.ws1 + ((if |es| == 1 then "" else ",") + (ElemsText(es[1..]) + "]" + a));
    assert Ws(e.ws0) && JsonValue(e.v, false);
    hide *;
    if ElemsText(es) + "]" + a == ws + ("]" + b) {
      ValueFirst(e.v, rest);
      BracketFirst("]", b);
      SameWhite(e.ws0, Text(e.v) + rest, ws, "]" + b);
    }
  }

  /** A value between white space, up to the mark behind it */
  lemma {:induction false} UniqueItem(v: Value, w: Value, s0: string, s1: string, t0: string, t1: string, more: string,
                                      rest: string)
    requires JsonValue(v, false) && JsonValue(w, false) && Ws(s0) && Ws(s1) && Ws(t0) && Ws(t1)
    requires s0 + (Text(v) + (s1 + more)) == t0 + (Text(w) + (t1 + rest))
    requires more != [] && rest != [] && IsMark(more[0]) && IsMark(rest[0])
    ensures s0 == t0 && v == w && s1 == t1 && more == rest
    decreases v, 2
  {
    hide *;
    ValueFirst(v, s1 + more);
    ValueFirst(w, t1 + rest);
    SameWhite(s0, Text(v) + (s1 + more), t0, Text(w) + (t1 + rest));
    MarkStops(s1, more);
    MarkStops(t1, rest);
    UniqueValue(v, w, s1 + more, t1 + rest);
    MarkNoWhite(more);
    MarkNoWhite(rest);
    SameWhite(s1, more, t1, rest);
  }

  lemma {:induction false} SameEnd(one: bool, other: bool, end: string, p: string, q: string, a: string, b: string)
    requires end == "]" || end == "}"
    requires (one ==> p == end + a) && (other ==> q == end + b)
    requires (if one then "" else ",") + p == (if other then "" else ",") + q
    ensures one == other && p == q && (one ==> a == b)
  {
    var w := (if one then "" else ",") + p;
    assert w[0] == if one then end[0] else ',';
    assert w[0] == if other then end[0] else ',';
    Cancel(if one then "" else ",", p, q);
    if one { Cancel(end, a, b); }
  }

  lemma {:induction false} UniqueElems(es: seq<Elem>, fs: seq<Elem>, a: string, b: string)
    requires es != [] && fs != [] && JsonElems(es, false) && JsonElems(fs, false)
    requires ElemsText(es) + "]" + a == ElemsText(fs) + "]" + b
    ensures es == fs && a == b
    decreases es, 0
  {
    ElemsSplit(es, a);
    ElemsSplit(fs, b);
    LastElem(es, a);
    LastElem(fs, b);
    assert JsonElems(es[1..], false) && JsonElems(fs[1..], false);
    var p, q := ElemsText(es[1..]) + "]" + a, ElemsText(fs[1..]) + "]" + b;
    var e, f := es[0], fs[0];
    assert Ws(e.ws0) && Ws(e.ws1) && JsonValue(e.v, false) && Ws(f.ws0) && Ws(f.ws1) && JsonValue(f.v, false);
    var more, rest := (if |es| == 1 then "" else ",") + p, (if |fs| == 1 then "" else ",") + q;
    hide *;
    assert IsMark(more[0]) && IsMark(rest[0]) by { Marks(); }
    UniqueItem(e.v, f.v, e.ws0, e.ws1, f.ws0, f.ws1, more, rest);
    SameEnd(|es| == 1, |fs| == 1, "]", p, q, a, b);
    if |es| > 1 {
      UniqueElems(es[1..], fs[1..], a, b);
    }
    SameList(es, fs);
  }

  // ----- objects -----

  lemma {:induction false} ObjectParts(v: Value, a: string)
    requires JsonValue(v, false) && KindOf(v) == 5
    ensures v.VObj? ==> v.ms != [] && JsonMembers(v.ms, false) && Text(v) + a == "{" + (MembersText(v.ms) + "}" + a)
    ensures v.VEmptyObj? ==> Ws(v.ws) && Text(v) + a == "{" + (v.ws + ("}" + a))
  {
    hide MembersText;
  }

  lemma {:induction false} UniqueObject(v: Value, w: Value, a: string, b: string)
    requires JsonValue(v, false) && JsonValue(w, false) && Text(v) + a == Text(w) + b
    requires KindOf(v) == KindOf(w) == 5
    ensures v == w && a == b
    decreases v, 0
  {
    ObjectParts(v, a);
    ObjectParts(w, b);
    assert v.VObj? || v.VEmptyObj?;
    assert w.VObj? || w.VEmptyObj?;
    hide *;
    var s := if v.VObj? then MembersText(v.ms) + "}" + a else v.ws + ("}" + a);
    var t := if w.VObj? then MembersText(w.ms) + "}" + b else w.ws + ("}" + b);
    Cancel("{", s, t);
    if v.VObj? && w.VObj? {
      UniqueMembers(v.ms, w.ms, a, b);
    } else if v.VObj? {
      SomeMembers(v.ms, a, w.ws, b);
    } else if w.VObj? {
      SomeMembers(w.ms, b, v.ws, a);
    } else {
      BracketFirst("}", a);
      BracketFirst("}", b);
      SameWhite(v.ws, "}" + a, w.ws, "}" + b);
      Cancel("}", a, b);
    }
  }

  lemma {:induction false} SomeMembers(ms: seq<Member>, a: string, ws: string, b: string)
    requires ms != [] && JsonMembers(ms, false) && Ws(ws)
    ensures MembersText(ms) + "}" + a != ws + ("}" + b)
  {
    var m := ms[0];
    MembersSplit(ms, a);
    var rest := CharsText(m.key) + "\"" + (m.ws1 + (":" + (m.ws2 + (Text(m.v) + (m.ws3
                + ((if |ms| == 1 then "" else ",") + (MembersText(ms[1..]) + "}" + a)))))));
    assert Ws(m.ws0);
    hide *;
    if MembersText(ms) + "}" + a == ws + ("}" + b) {
      QuoteFirst(rest);
      BracketFirst("}", b);
      SameWhite(m.ws0, "\"" + rest, ws, "}" + b);
    }
  }

  /** A key with the colon behind it */
  lemma {:induction false} UniqueKey(s0: string, cs: seq<StrChar>, s1: string, t0: string, ds: seq<StrChar>, t1: string,
                                     more: string, rest: string)
    requires Ws(s0) && Ws(s1) && Ws(t0) && Ws(t1) && JsonChars(cs) && JsonChars(ds)
    requires s0 + ("\"" + (CharsText(cs) + "\"" + (s1 + (":" + more))))
          == t0 + ("\"" + (CharsText(ds) + "\"" + (t1 + (":" + rest))))
    ensures s0 == t0 && cs == ds && s1 == t1 && more == rest
  {
    hide *;
    var p, q := s1 + (":" + more), t1 + (":" + rest);
    var left, right := CharsText(cs) + "\"" + p, CharsText(ds) + "\"" + q;
    QuoteFirst(left);
    QuoteFirst(right);
    SameWhite(s0, "\"" + left, t0, "\"" + right);
    Cancel("\"", left, right);
    Reassociate(CharsText(cs), "\"", p);
    Reassociate(CharsText(ds), "\"", q);
    UniqueChars(cs, ds, p, q);
    ColonFirst(more);
    ColonFirst(rest);
    SameWhite(s1, ":" + more, t1, ":" + rest);
    Cancel(":", more, rest);
  }

  lemma {:induction false} UniqueMembers(ms: seq<Member>, ns: seq<Member>, a: string, b: string)
    requires ms != [] && ns != [] && JsonMembers(ms, false) && JsonMembers(ns, false)
    requires MembersText(ms) + "}" + a == MembersText(ns) + "}" + b
    ensures ms == ns && a == b
    decreases ms, 0
  {
    var m, n := ms[0], ns[0];
    var p, q := MembersText(ms[1..]) + "}" + a, MembersText(ns[1..]) + "}" + b;
    var more, rest := (if |ms| == 1 then "" else ",") + p, (if |ns| == 1 then "" else ",") + q;
    hide *;
    MembersSplit(ms, a);
    MembersSplit(ns, b);
    LastMember(ms, a);
    LastMember(ns, b);
    FirstMember(ms);
    FirstMember(ns);
    MemberParts(m);
    MemberParts(n);
    assert IsMark(more[0]) && IsMark(rest[0]) by { Marks(); }
    UniqueKey(m.ws0, m.key, m.ws1, n.ws0, n.key, n.ws1, m.ws2 + (Text(m.v) + (m.ws3 + more)),
              n.ws2 + (Text(n.v) + (n.ws3 + rest)));
    UniqueItem(m.v, n.v, m.ws2, m.ws3, n.ws2, n.ws3, more, rest);
    SameEnd(|ms| == 1, |ns| == 1, "}", p, q, a, b);
    if |ms| > 1 {
      UniqueMembers(ms[1..], ns[1..], a, b);
    }
    SameList(ms, ns);
  }

  lemma SameList<T>(s: seq<T>, t: seq<T>)
    requires s != [] && t != [] && s[0] == t[0] && s[1..] == t[1..]
    ensures s == t
  {
    assert s == [s[0]] + s[1..] && t == [t[0]] + t[1..];
  }

  lemma {:induction false} FirstMember(ms: seq<Member>)
    requires ms != [] && JsonMembers(ms, false)
    ensures JsonMember(ms[0]) && JsonMembers(ms[1..], false)
  {
    hide JsonValue;
    hide JsonChars;
  }

  predicate JsonMember(m: Member) {
    Ws(m.ws0) && JsonChars(m.key) && Ws(m.ws1) && Ws(m.ws2) && JsonValue(m.v, false) && Ws(m.ws3)
  }

  lemma {:induction false} MemberParts(m: Member)
    requires JsonMember(m)
    ensures Ws(m.ws0) && JsonChars(m.key) && Ws(m.ws1) && Ws(m.ws2) && JsonValue(m.v, false) && Ws(m.ws3)
  {}

  // ----- strings of the table and of the standard -----

  predicate IsHigh(x: StrChar) { x.Uni? && IsHex4(x.h) && IsHighSurrogate(HexValue(x.h)) }

  predicate IsLow(x: StrChar) { x.Uni? && IsHex4(x.h) && IsLowSurrogate(HexValue(x.h)) }

  /** Every escape of a high surrogate stands right before one of a low surrogate, and there are no other of these. */
  predicate Paired(cs: seq<StrChar>) {
    cs == [] ||
    if IsHigh(cs[0]) then |cs| >= 2 && IsLow(cs[1]) && Paired(cs[2..]) else !IsLow(cs[0]) && Paired(cs[1..])
  }

  predicate Ascii(cs: seq<StrChar>) { forall i :: 0 <= i < |cs| && cs[i].Plain? ==> cs[i].c as int < 128 }

  /** The characters of the table as characters of the standard */
  function Parted(cs: seq<StrChar>): seq<StrChar> {
    if cs == [] then []
    else (if cs[0].Pair? then [Uni(cs[0].hi), Uni(cs[0].lo)] else [cs[0]]) + Parted(cs[1..])
  }

  function Joined(cs: seq<StrChar>): seq<StrChar> {
    if cs == [] then []
    else if |cs| >= 2 && IsHigh(cs[0]) && IsLow(cs[1]) then [Pair(cs[0].h, cs[1].h)] + Joined(cs[2..])
    else [cs[0]] + Joined(cs[1..])
  }

  lemma {:induction false} TwoText(x: StrChar, y: StrChar, rest: seq<StrChar>)
    ensures CharsText([x, y] + rest) == CharText(x) + CharText(y) + CharsText(rest)
  {
    hide CharText;
    hide CharsText;
    var cs := [x, y] + rest;
    FrontText(cs);
    FrontText(cs[1..]);
    assert cs[1..] == [y] + rest && cs[1..][1..] == rest;
  }

  lemma {:induction false} OneText(x: StrChar, rest: seq<StrChar>)
    ensures CharsText([x] + rest) == CharText(x) + CharsText(rest)
  {
    hide CharText;
    hide CharsText;
    FrontText([x] + rest);
    assert ([x] + rest)[1..] == rest;
  }

  lemma {:induction false} JsonFront(x: StrChar, rest: seq<StrChar>)
    ensures JsonChars([x] + rest) <==> JsonChar(x) && JsonChars(rest)
    ensures Ascii([x] + rest) <==> (x.Plain? ==> x.c as int < 128) && Ascii(rest)
    ensures ValidChars([x] + rest) <==> ValidChar(x) && ValidChars(rest)
  {
    hide JsonChar;
    hide ValidChar;
    var cs := [x] + rest;
    assert cs[0] == x;
    forall i | 0 <= i < |rest| ensures cs[i + 1] == rest[i] {}
    if JsonChar(x) && JsonChars(rest) {
      forall i | 0 <= i < |cs| ensures JsonChar(cs[i]) { if i > 0 { assert cs[i] == rest[i - 1]; } }
    }
    if ValidChar(x) && ValidChars(rest) {
      forall i | 0 <= i < |cs| ensures ValidChar(cs[i]) { if i > 0 { assert cs[i] == rest[i - 1]; } }
    }
    if Ascii(rest) && (x.Plain? ==> x.c as int < 128) {
      forall i | 0 <= i < |cs| && cs[i].Plain? ensures cs[i].c as int < 128 {
        if i > 0 { assert cs[i] == rest[i - 1]; }
      }
    }
  }

  ghost predicate PartedWell(cs: seq<StrChar>) {
    var ds := Parted(cs);
    JsonChars(ds) && Paired(ds) && Ascii(ds) && CharsText(ds) == CharsText(cs)
  }

  lemma {:induction false} PartedIs(cs: seq<StrChar>)
    requires ValidChars(cs)
    ensures PartedWell(cs)
  {
    if cs != [] {
      var x, rest := cs[0], cs[1..];
      assert cs == [x] + rest;
      JsonFront(x, rest);
      PartedIs(rest);
      PartedCons(x, rest);
    }
  }

  ghost predicate Standing(ds: seq<StrChar>) { JsonChars(ds) && Paired(ds) && Ascii(ds) }

  lemma {:induction false} StandingOne(x: StrChar, ds: seq<StrChar>)
    requires JsonChar(x) && (x.Plain? ==> x.c as int < 128) && !IsHigh(x) && !IsLow(x) && Standing(ds)
    ensures Standing([x] + ds)
  {
    JsonFront(x, ds);
    assert ([x] + ds)[1..] == ds;
    hide JsonChars;
    hide Ascii;
  }

  lemma {:induction false} StandingTwo(x: StrChar, y: StrChar, ds: seq<StrChar>)
    requires IsHigh(x) && IsLow(y) && Standing(ds)
    ensures Standing([x, y] + ds)
  {
    var rest := [y] + ds;
    assert [x, y] + ds == [x] + rest;
    JsonFront(y, ds);
    JsonFront(x, rest);
    assert ([x] + rest)[2..] == ds;
    hide JsonChars;
    hide Ascii;
  }

  lemma {:induction false} PartedCons(x: StrChar, rest: seq<StrChar>)
    requires ValidChar(x) && PartedWell(rest)
    ensures PartedWell([x] + rest)
  {
    var ds := Parted(rest);
    var all := Parted([x] + rest);
    assert ([x] + rest)[1..] == rest;
    assert all == (if x.Pair? then [Uni(x.hi), Uni(x.lo)] else [x]) + ds;
    OneText(x, rest);
    assert x.Pair? ==> IsHigh(Uni(x.hi)) && IsLow(Uni(x.lo));
    assert x.Pair? ==> CharText(x) == CharText(Uni(x.hi)) + CharText(Uni(x.lo));
    assert !x.Pair? ==> JsonChar(x) && (x.Plain? ==> x.c as int < 128) && !IsHigh(x) && !IsLow(x);
    hide Parted;
    hide CharsText;
    hide CharText;
    hide JsonChars;
    hide JsonChar;
    hide Ascii;
    hide Paired;
    hide IsHigh;
    hide IsLow;
    hide ValidChar;
    if x.Pair? {
      StandingTwo(Uni(x.hi), Uni(x.lo), ds);
      TwoText(Uni(x.hi), Uni(x.lo), ds);
    } else {
      StandingOne(x, ds);
      OneText(x, ds);
    }
  }

  ghost predicate JoinedWell(cs: seq<StrChar>) {
    ValidChars(Joined(cs)) && CharsText(Joined(cs)) == CharsText(cs)
  }

  lemma {:induction false} JoinedIs(cs: seq<StrChar>)
    requires JsonChars(cs) && Ascii(cs) && Paired(cs)
    ensures JoinedWell(cs)
    decreases |cs|
  {
    if cs != [] {
      var x, rest := cs[0], cs[1..];
      assert cs == [x] + rest;
      JsonFront(x, rest);
      if IsHigh(x) {
        var y, more := cs[1], cs[2..];
        assert rest == [y] + more;
        JsonFront(y, more);
        JoinedIs(more);
        JoinedPair(x, y, more);
        assert cs == [x, y] + more;
      } else {
        JoinedIs(rest);
        JoinedCons(x, rest);
      }
    }
  }

  lemma {:induction false} JoinedPair(x: StrChar, y: StrChar, more: seq<StrChar>)
    requires IsHigh(x) && IsLow(y) && JoinedWell(more)
    ensures JoinedWell([x, y] + more)
  {
    var cs, p := [x, y] + more, Pair(x.h, y.h);
    hide *;
    assert Joined(cs) == [p] + Joined(more) by { JoinedFront(x, y, more); }
    JsonFront(p, Joined(more));
    OneText(p, Joined(more));
    TwoText(x, y, more);
    PairText(x, y);
    JoinedParts(more);
    JoinedFrom(cs);
  }

  lemma {:induction false} JoinedFront(x: StrChar, y: StrChar, more: seq<StrChar>)
    requires IsHigh(x) && IsLow(y)
    ensures Joined([x, y] + more) == [Pair(x.h, y.h)] + Joined(more)
  {
    assert ([x, y] + more)[2..] == more;
    hide IsHigh;
    hide IsLow;
  }

  lemma {:induction false} PairText(x: StrChar, y: StrChar)
    requires IsHigh(x) && IsLow(y)
    ensures ValidChar(Pair(x.h, y.h)) && CharText(Pair(x.h, y.h)) == CharText(x) + CharText(y)
  {}

  lemma {:induction false} JoinedParts(cs: seq<StrChar>)
    requires JoinedWell(cs)
    ensures ValidChars(Joined(cs)) && CharsText(Joined(cs)) == CharsText(cs)
  {}

  lemma {:induction false} JoinedFrom(cs: seq<StrChar>)
    requires ValidChars(Joined(cs)) && CharsText(Joined(cs)) == CharsText(cs)
    ensures JoinedWell(cs)
  {}

  lemma {:induction false} JoinedCons(x: StrChar, rest: seq<StrChar>)
    requires JsonChar(x) && (x.Plain? ==> x.c as int < 128) && !IsHigh(x) && !IsLow(x) && JoinedWell(rest)
    ensures JoinedWell([x] + rest)
  {
    assert ([x] + rest)[1..] == rest && Joined([x] + rest) == [x] + Joined(rest);
    JsonFront(x, Joined(rest));
    OneText(x, Joined(rest));
    OneText(x, rest);
    assert ValidChar(x);
    hide Joined;
    hide CharsText;
  }

  // ----- values of the table and of the standard -----

  /** No number has a point without digits behind it. */
  predicate FullFractions(v: Value)
    decreases v
  {
    match v
    case VNum(n) => n.frac != Some("")
    case VObj(ms) => FullMembers(ms)
    case VArr(es) => FullElems(es)
    case _ => true
  }

  predicate FullMembers(ms: seq<Member>)
    decreases ms
  {
    ms == [] || (FullFractions(ms[0].v) && FullMembers(ms[1..]))
  }

  predicate FullElems(es: seq<Elem>)
    decreases es
  {
    es == [] || (FullFractions(es[0].v) && FullElems(es[1..]))
  }

  /** What the table wants of a value of the standard: no exponent behind a bare zero, and strings of ASCII whose
      escapes of surrogates are pairs */
  predicate Taken(v: Value)
    decreases v
  {
    match v
    case VNum(n) => n.exp.Some? && n.whole == "0" ==> n.frac.Some?
    case VStr(cs) => Ascii(cs) && Paired(cs)
    case VObj(ms) => TakenMembers(ms)
    case VArr(es) => TakenElems(es)
    case _ => true
  }

  predicate TakenMembers(ms: seq<Member>)
    decreases ms
  {
    ms == [] || (Ascii(ms[0].key) && Paired(ms[0].key) && Taken(ms[0].v) && TakenMembers(ms[1..]))
  }

  predicate TakenElems(es: seq<Elem>)
    decreases es
  {
    es == [] || (Taken(es[0].v) && TakenElems(es[1..]))
  }

  lemma {:induction false} FullIs(v: Value)
    ensures JsonValue(v, true) <==> JsonValue(v, false) && FullFractions(v)
    decreases v, 1
  {
    match v {
      case VObj(ms) => FullMembersAre(ms);
      case VArr(es) => FullElemsAre(es);
      case _ =>
    }
  }

  lemma {:induction false} FullMembersAre(ms: seq<Member>)
    ensures JsonMembers(ms, true) <==> JsonMembers(ms, false) && FullMembers(ms)
    decreases ms, 0
  {
    hide JsonValue;
    hide FullFractions;
    if ms != [] {
      FullIs(ms[0].v);
      FullMembersAre(ms[1..]);
    }
  }

  lemma {:induction false} FullElemsAre(es: seq<Elem>)
    ensures JsonElems(es, true) <==> JsonElems(es, false) && FullElems(es)
    decreases es, 0
  {
    hide JsonValue;
    hide FullFractions;
    if es != [] {
      FullIs(es[0].v);
      FullElemsAre(es[1..]);
    }
  }

  /** The value of the standard that has the text of a value of the table */
  function Standard(v: Value): Value
    decreases v
  {
    match v
    case VStr(cs) => VStr(Parted(cs))
    case VObj(ms) => VObj(StandardMembers(ms))
    case VArr(es) => VArr(StandardElems(es))
    case _ => v
  }

  function StandardMembers(ms: seq<Member>): (r: seq<Member>)
    ensures |r| == |ms|
    decreases ms
  {
    if ms == [] then []
    else
      var m := ms[0];
      [Member(m.ws0, Parted(m.key), m.ws1, m.ws2, Standard(m.v), m.ws3)] + StandardMembers(ms[1..])
  }

  function StandardElems(es: seq<Elem>): (r: seq<Elem>)
    ensures |r| == |es|
    decreases es
  {
    if es == [] then [] else [Elem(es[0].ws0, Standard(es[0].v), es[0].ws1)] + StandardElems(es[1..])
  }

  ghost predicate StandardWell(v: Value, w: Value) {
    && JsonValue(w, false) && Taken(w) && Text(w) == Text(v) && (FullFractions(w) <==> FullFractions(v))
    && Depth(w) == Depth(v) && (IsContainer(w) <==> IsContainer(v))
  }

  lemma {:induction false} StandardIs(v: Value)
    requires ValidValue(v)
    ensures StandardWell(v, Standard(v))
    decreases v, 1
  {
    match v {
      case VStr(cs) => PartedIs(cs);
      case VObj(ms) => StandardMembersAre(ms);
      case VArr(es) => StandardElemsAre(es);
      case _ =>
    }
  }

  ghost predicate StandardMembersWell(ms: seq<Member>, ns: seq<Member>) {
    && JsonMembers(ns, false) && TakenMembers(ns) && MembersText(ns) == MembersText(ms)
    && (FullMembers(ns) <==> FullMembers(ms)) && MembersDepth(ns) == MembersDepth(ms)
  }

  lemma {:induction false} StandardMembersAre(ms: seq<Member>)
    requires ValidMembers(ms)
    ensures StandardMembersWell(ms, StandardMembers(ms))
    decreases ms, 0
  {
    if ms != [] {
      var m := ms[0];
      PartedIs(m.key);
      StandardIs(m.v);
      StandardMembersAre(ms[1..]);
      var ns := StandardMembers(ms);
      assert ns[0] == Member(m.ws0, Parted(m.key), m.ws1, m.ws2, Standard(m.v), m.ws3);
      assert ns[1..] == StandardMembers(ms[1..]);
      hide Parted;
      hide Standard;
      hide StandardMembers;
      hide ValidValue;
      hide JsonValue;
      hide Taken;
      hide FullFractions;
      hide Text;
      hide Depth;
      hide ValidChars;
      hide JsonChars;
      hide Ascii;
      hide Paired;
      hide CharsText;
    }
  }

  ghost predicate StandardElemsWell(es: seq<Elem>, fs: seq<Elem>) {
    && JsonElems(fs, false) && TakenElems(fs) && ElemsText(fs) == ElemsText(es)
    && (FullElems(fs) <==> FullElems(es)) && ElemsDepth(fs) == ElemsDepth(es)
  }

  lemma {:induction false} StandardElemsAre(es: seq<Elem>)
    requires ValidElems(es)
    ensures StandardElemsWell(es, StandardElems(es))
    decreases es, 0
  {
    if es != [] {
      var e := es[0];
      StandardIs(e.v);
      StandardElemsAre(es[1..]);
      var fs := StandardElems(es);
      assert fs[0] == Elem(e.ws0, Standard(e.v), e.ws1) && fs[1..] == StandardElems(es[1..]);
      hide Standard;
      hide StandardElems;
      hide ValidValue;
      hide JsonValue;
      hide Taken;
      hide FullFractions;
      hide Text;
      hide Depth;
    }
  }

  /** The value of the table that has the text of a value of the standard */
  function Tabled(v: Value): Value
    decreases v
  {
    match v
    case VStr(cs) => VStr(Joined(cs))
    case VObj(ms) => VObj(TabledMembers(ms))
    case VArr(es) => VArr(TabledElems(es))
    case _ => v
  }

  function TabledMembers(ms: seq<Member>): (r: seq<Member>)
    ensures |r| == |ms|
    decreases ms
  {
    if ms == [] then []
    else
      var m := ms[0];
      [Member(m.ws0, Joined(m.key), m.ws1, m.ws2, Tabled(m.v), m.ws3)] + TabledMembers(ms[1..])
  }

  function TabledElems(es: seq<Elem>): (r: seq<Elem>)
    ensures |r| == |es|
    decreases es
  {
    if es == [] then [] else [Elem(es[0].ws0, Tabled(es[0].v), es[0].ws1)] + TabledElems(es[1..])
  }

  ghost predicate TabledWell(v: Value, w: Value) {
    ValidValue(w) && Text(w) == Text(v) && Depth(w) == Depth(v) && (IsContainer(w) <==> IsContainer(v))
  }

  lemma {:induction false} TabledIs(v: Value)
    requires JsonValue(v, false) && Taken(v)
    ensures TabledWell(v, Tabled(v))
    decreases v, 1
  {
    match v {
      case VStr(cs) => JoinedIs(cs);
      case VObj(ms) => TabledMembersAre(ms);
      case VArr(es) => TabledElemsAre(es);
      case _ =>
    }
  }

  ghost predicate TabledMembersWell(ms: seq<Member>, ns: seq<Member>) {
    ValidMembers(ns) && MembersText(ns) == MembersText(ms) && MembersDepth(ns) == MembersDepth(ms)
  }

  lemma {:induction false} TabledMembersAre(ms: seq<Member>)
    requires JsonMembers(ms, false) && TakenMembers(ms)
    ensures TabledMembersWell(ms, TabledMembers(ms))
    decreases ms, 0
  {
    if ms != [] {
      var m := ms[0];
      JoinedIs(m.key);
      TabledIs(m.v);
      TabledMembersAre(ms[1..]);
      var ns := TabledMembers(ms);
      assert ns[0] == Member(m.ws0, Joined(m.key), m.ws1, m.ws2, Tabled(m.v), m.ws3);
      assert ns[1..] == TabledMembers(ms[1..]);
      hide Joined;
      hide Tabled;
      hide TabledMembers;
      hide ValidValue;
      hide JsonValue;
      hide Taken;
      hide Text;
      hide Depth;
      hide ValidChars;
      hide JsonChars;
      hide Ascii;
      hide Paired;
      hide CharsText;
    }
  }

  ghost predicate TabledElemsWell(es: seq<Elem>, fs: seq<Elem>) {
    ValidElems(fs) && ElemsText(fs) == ElemsText(es) && ElemsDepth(fs) == ElemsDepth(es)
  }

  lemma {:induction false} TabledElemsAre(es: seq<Elem>)
    requires JsonElems(es, false) && TakenElems(es)
    ensures TabledElemsWell(es, TabledElems(es))
    decreases es, 0
  {
    if es != [] {
      var e := es[0];
      TabledIs(e.v);
      TabledElemsAre(es[1..]);
      var fs := TabledElems(es);
      assert fs[0] == Elem(e.ws0, Tabled(e.v), e.ws1) && fs[1..] == TabledElems(es[1..]);
      hide Tabled;
      hide TabledElems;
      hide ValidValue;
      hide JsonValue;
      hide Taken;
      hide Text;
      hide Depth;
    }
  }

  // ----- the two languages -----

  /** A text has one syntax tree. */
  lemma {:induction false} UniqueText(s0: string, v: Value, s1: string, t0: string, w: Value, t1: string)
    requires Ws(s0) && Ws(s1) && Ws(t0) && Ws(t1) && JsonValue(v, false) && JsonValue(w, false)
    requires s0 + (Text(v) + s1) == t0 + (Text(w) + t1)
    ensures s0 == t0 && v == w && s1 == t1
  {
    hide *;
    ValueFirst(v, s1);
    ValueFirst(w, t1);
    SameWhite(s0, Text(v) + s1, t0, Text(w) + t1);
    WsStops(s1);
    WsStops(t1);
    UniqueValue(v, w, s1, t1);
  }

  lemma {:induction false} WsStops(ws: string)
    requires Ws(ws)
    ensures Stops(ws)
  {}

  lemma {:induction false} DocIs(d: Doc)
    requires ValidDoc(d) && d.Doc?
    ensures DocText(d) == d.ws0 + (Text(d.v) + d.ws1) && Ws(d.ws0) && Ws(d.ws1) && ValidValue(d.v)
    ensures IsContainer(d.v) && Depth(d.v) <= 15
  {
    Reassociate(d.ws0, Text(d.v), d.ws1);
  }

  predicate Accepted(text: string) { Finished(Run(START, text)) }

  /** An accepted text that is not blank, written as a syntax tree, is a text of RFC 8259 if and only if no number in
      it has a point without digits behind it. */
  lemma {:induction false} AcceptedIsRfc(d: Doc)
    requires ValidDoc(d) && d.Doc?
    ensures Accepted(DocText(d)) && (RfcText(DocText(d)) <==> FullFractions(d.v))
  {
    var text := DocText(d);
    var w := Standard(d.v);
    hide *;
    assert Accepted(text) by { AcceptedDoc(d); }
    DocIs(d);
    StandardIs(d.v);
    WellParts(d.v, w);
    FullIs(w);
    if FullFractions(d.v) {
      RfcFrom(text, d.ws0, w, d.ws1);
    }
    if RfcText(text) {
      var t0, r, t1 := RfcTree(text);
      FullIs(r);
      UniqueText(d.ws0, w, d.ws1, t0, r, t1);
    }
  }

  lemma {:induction false} WellParts(v: Value, w: Value)
    requires StandardWell(v, w)
    ensures JsonValue(w, false) && Taken(w) && Text(w) == Text(v) && (FullFractions(w) <==> FullFractions(v))
    ensures Depth(w) == Depth(v) && (IsContainer(w) <==> IsContainer(v))
  {
  }

  lemma {:induction false} AcceptedDoc(d: Doc)
    requires ValidDoc(d)
    ensures Accepted(DocText(d))
  {
    hide Run;
    hide ValidDoc;
    hide DocText;
    ParsesExactly(DocText(d));
  }

  lemma {:induction false} RfcFrom(text: string, ws0: string, v: Value, ws1: string)
    requires Ws(ws0) && JsonValue(v, true) && Ws(ws1) && text == ws0 + (Text(v) + ws1)
    ensures RfcText(text)
  {
    hide JsonValue;
    hide Text;
    assert RfcParts(text, ws0, v, ws1);
  }

  lemma {:induction false} RfcTree(text: string) returns (ws0: string, v: Value, ws1: string)
    requires RfcText(text)
    ensures Ws(ws0) && JsonValue(v, true) && Ws(ws1) && text == ws0 + (Text(v) + ws1)
  {
    hide JsonValue;
    hide Text;
    ws0, v, ws1 :| RfcParts(text, ws0, v, ws1);
  }

  /** A text of RFC 8259 is accepted if and only if it is a container nested at most 15 deep, of ASCII, whose escapes
      of surrogates are pairs, and without an exponent right behind a bare zero. */
  lemma {:induction false} RfcIsAccepted(ws0: string, v: Value, ws1: string)
    requires Ws(ws0) && JsonValue(v, true) && Ws(ws1)
    ensures Accepted(ws0 + (Text(v) + ws1)) <==> IsContainer(v) && Depth(v) <= 15 && Taken(v)
  {
    var text := ws0 + (Text(v) + ws1);
    hide *;
    FullIs(v);
    if IsContainer(v) && Depth(v) <= 15 && Taken(v) {
      TabledIs(v);
      var d := TabledDoc(ws0, v, Tabled(v), ws1);
      AcceptedDoc(d);
    }
    if Accepted(text) {
      var d := AcceptedTree(ws0, v, ws1);
      DocIs(d);
      StandardIs(d.v);
      WellParts(d.v, Standard(d.v));
      UniqueText(d.ws0, Standard(d.v), d.ws1, ws0, v, ws1);
    }
  }

  lemma {:induction false} TabledDoc(ws0: string, v: Value, w: Value, ws1: string) returns (d: Doc)
    requires Ws(ws0) && Ws(ws1) && TabledWell(v, w) && IsContainer(v) && Depth(v) <= 15
    ensures ValidDoc(d) && DocText(d) == ws0 + (Text(v) + ws1)
  {
    hide ValidValue;
    hide Text;
    hide Depth;
    d := Doc(ws0, w, ws1);
    Reassociate(ws0, Text(w), ws1);
  }

  lemma {:induction false} AcceptedTree(ws0: string, v: Value, ws1: string) returns (d: Doc)
    requires Ws(ws0) && Ws(ws1) && JsonValue(v, false) && Accepted(ws0 + (Text(v) + ws1))
    ensures ValidDoc(d) && d.Doc? && DocText(d) == ws0 + (Text(v) + ws1)
  {
    var text := ws0 + (Text(v) + ws1);
    ValueFirst(v, ws1);
    hide Run;
    hide Text;
    hide JsonValue;
    hide ValidValue;
    ParsesExactly(text);
    d :| ValidDoc(d) && DocText(d) == text;
    assert text[|ws0|] == (Text(v) + ws1)[0];
  }

  // ----- texts in which they differ -----

  /** `[1.]` is accepted and is no JSON text. */
  lemma {:induction false} EmptyFraction()
    ensures Accepted("[1.]") && !RfcText("[1.]")
  {
    var v := VNum(Number(false, "1", Some(""), None));
    var d := Doc("", VArr([Elem("", v, "")]), "");
    OneElem(v);
    assert Text(v) == "1.";
    assert DocText(d) == "[1.]";
    hide *;
    assert ValidDoc(d) && !FullFractions(d.v) by { OneDoc(v); }
    AcceptedIsRfc(d);
  }

  lemma {:induction false} OneDoc(v: Value)
    requires v.VNum? && ValidNumber(v.n)
    ensures ValidDoc(Doc("", VArr([Elem("", v, "")]), ""))
    ensures v.n.frac == Some("") ==> !FullFractions(VArr([Elem("", v, "")]))
  {
    OneElem(v);
    hide ValidNumber;
  }

  /** A JSON text that is refused: an array of one value that the table does not take */
  lemma {:induction false} OneRefused(v: Value, text: string)
    requires !IsContainer(v) && JsonValue(v, true) && !Taken(v) && text == "[" + Text(v) + "]"
    ensures RfcText(text) && !Accepted(text)
  {
    var w := VArr([Elem("", v, "")]);
    OneElem(v);
    hide *;
    assert "" + (Text(w) + "") == text;
    RfcFrom(text, "", w, "");
    RfcIsAccepted("", w, "");
  }

  /** `[0e1]` is a JSON text and is refused. */
  lemma {:induction false} BareZero()
    ensures RfcText("[0e1]") && !Accepted("[0e1]")
  {
    var v := VNum(Number(false, "0", None, Some(Exponent('e', "", "1"))));
    assert Text(v) == "0e1";
    OneRefused(v, "[0e1]");
  }

  lemma {:induction false} OneString(x: StrChar, text: string)
    requires JsonChar(x) && !(Ascii([x]) && Paired([x])) && text == "[\"" + CharText(x) + "\"]"
    ensures RfcText(text) && !Accepted(text)
  {
    OneText(x, []);
    assert [x] + [] == [x] && CharsText([]) == "";
    assert Text(VStr([x])) == "\"" + CharText(x) + "\"";
    hide CharText;
    OneRefused(VStr([x]), text);
  }

  /** So is a string with a character that ASCII does not have. */
  lemma {:induction false} NotAscii()
    ensures RfcText("[\"\U{00e9}\"]") && !Accepted("[\"\U{00e9}\"]")
  {
    var x := Plain('\U{00e9}');
    assert [x][0] == x && !Ascii([x]);
    assert CharText(x) == "\U{00e9}";
    OneString(x, "[\"\U{00e9}\"]");
  }

  /** So is a string with an escape of a single surrogate. */
  lemma {:induction false} SingleSurrogate()
    ensures RfcText("[\"\\ud800\"]") && !Accepted("[\"\\ud800\"]")
  {
    var x := Uni("d800");
    assert IsHigh([x][0]) && !Paired([x]);
    assert CharText(x) == "\\ud800";
    OneString(x, "[\"\\ud800\"]");
  }

  /** So is a text that is a single number, and a blank text is accepted and is none. */
  lemma {:induction false} TopLevel()
    ensures RfcText("1") && !Accepted("1") && Accepted("") && !RfcText("")
  {
    var v := VNum(Number(false, "1", None, None));
    assert Text(v) == "1" && "" + (Text(v) + "") == "1";
    RfcFrom("1", "", v, "");
    RfcIsAccepted("", v, "");
    var d := Blank("");
    assert ValidDoc(d) && DocText(d) == "";
    AcceptedDoc(d);
    hide Text;
    hide JsonValue;
    if RfcText("") {
      var ws0, w, ws1 := RfcTree("");
      FullIs(w);
      ValueFirst(w, ws1);
    }
  }

  lemma {:induction false} OneElem(v: Value)
    requires !IsContainer(v)
    ensures var w := VArr([Elem("", v, "")]);
            && IsContainer(w) && Text(w) == "[" + Text(v) + "]" && Depth(w) == 1 && (ValidValue(w) <==> ValidValue(v))
            && (FullFractions(w) <==> FullFractions(v)) && (Taken(w) <==> Taken(v))
            && (JsonValue(w, true) <==> JsonValue(v, true))
  {
    var es := [Elem("", v, "")];
    assert es[0] == Elem("", v, "") && es[1..] == [];
    assert ElemsText(es) == Text(v);
    assert ElemsDepth([]) == 0 && ElemsDepth(es) == Max(Depth(v), ElemsDepth([])) && Depth(v) == 0;
    assert ValidElems([]) && (ValidElems(es) <==> ValidValue(v));
    assert FullElems([]) && (FullElems(es) <==> FullFractions(v));
    assert TakenElems([]) && (TakenElems(es) <==> Taken(v));
    assert JsonElems([], true) && (JsonElems(es, true) <==> JsonValue(v, true));
  }
}
