/** Printing a tree and parsing the text gives the tree back. */
module JsonRoundTrip {
  import opened Options
  import opened JsonTable
  import opened JsonGrammar
  import opened JsonLayout
  import opened JsonPrint
  import opened JsonSound

  // ----- the trees that survive -----

  predicate PrintableChar(c: char) {
    (' ' <= c && c as int < 128 && c != '\'')
    || c == '\n' || c == '\t' || c == '\r' || c == '\U{0008}' || c == '\U{000C}'
  }

  predicate KeyChar(c: char) { ' ' <= c && c as int < 128 && c != '"' && c != '\\' }

  predicate PrintableString(s: string) { forall i :: 0 <= i < |s| ==> PrintableChar(s[i]) }

  predicate PrintableKey(s: string) { forall i :: 0 <= i < |s| ==> KeyChar(s[i]) }

  /** No floats, no empty containers, integers of 64 bits, keys where they belong, and characters that the parser
      takes back. */
  predicate Printable(t: Tree)
    decreases t
  {
    match t
    case FloatTree(_) => false
    case IntTree(n) => Fits64(n)
    case StrTree(s) => PrintableString(s)
    case ArrTree(kids) => kids != [] && PrintableKids(kids, false)
    case ObjTree(kids) => kids != [] && PrintableKids(kids, true)
    case _ => true
  }

  predicate PrintableKids(kids: seq<Kid>, keyed: bool)
    decreases kids
  {
    kids == [] ||
    (assert kids[0].t < kids[0];
     && (if keyed then kids[0].key.Some? && PrintableKey(kids[0].key.value) else kids[0].key.None?)
     && Printable(kids[0].t) && PrintableKids(kids[1..], keyed))
  }

  /** The nesting of containers. */
  function TreeDepth(t: Tree): nat
    decreases t
  {
    if IsNode(t) then 1 + KidsDepth(t.kids) else 0
  }

  function KidsDepth(kids: seq<Kid>): nat
    decreases kids
  {
    if kids == [] then 0
    else
      assert kids[0].t < kids[0];
      Max(TreeDepth(kids[0].t), KidsDepth(kids[1..]))
  }

  /** The tree that the text of a tree means: true is printed as the number of its node, unless that is 0. */
  function Reread(t: Tree, one: int): Tree
    decreases t
  {
    match t
    case TrueTree => if one == 0 then t else IntTree(one)
    case ArrTree(kids) => ArrTree(RereadKids(kids, one))
    case ObjTree(kids) => ObjTree(RereadKids(kids, one))
    case _ => t
  }

  function RereadKids(kids: seq<Kid>, one: int): seq<Kid>
    decreases kids
  {
    if kids == [] then []
    else
      assert kids[0].t < kids[0];
      [Kid(kids[0].key, Reread(kids[0].t, one))] + RereadKids(kids[1..], one)
  }

  // ----- strings -----

  /** The syntax of an escaped character. */
  function CharOf(c: char): StrChar {
    if c == '"' then Esc('"') else if c == '\\' then Esc('\\') else if c == '\n' then Esc('n')
    else if c == '\U{0008}' then Esc('b') else if c == '\t' then Esc('t') else if c == '\U{000C}' then Esc('f')
    else if c == '\r' then Esc('r') else if c == '\'' then Esc('\'') else Plain(c)
  }

  function CharsOf(s: string): (cs: seq<StrChar>)
    ensures |cs| == |s|
  {
    if s == [] then [] else CharsOf(s[..|s| - 1]) + [CharOf(s[|s| - 1])]
  }

  lemma {:induction false} CharBack(c: char)
    ensures CharText(CharOf(c)) == EscapeChar(c)
    ensures ValidChar(CharOf(c)) <==> PrintableChar(c)
    ensures ValidChar(CharOf(c)) ==> CharValue(CharOf(c)) == [c]
  {}

  lemma {:induction false} CharsSnoc(cs: seq<StrChar>, x: StrChar)
    ensures CharsText(cs + [x]) == CharsText(cs) + CharText(x)
    ensures ValidChars(cs + [x]) <==> ValidChars(cs) && ValidChar(x)
    ensures ValidChars(cs + [x]) ==> CharsValue(cs + [x]) == CharsValue(cs) + CharValue(x)
  {
    var all := cs + [x];
    assert all[..|cs|] == cs && all[|cs|] == x;
    assert ValidChars(cs) && ValidChar(x) ==> ValidChars(all);
    if ValidChars(all) {
      forall i | 0 <= i < |cs| ensures ValidChar(cs[i]) { assert all[i] == cs[i]; }
    }
  }

  /** The escaped text of a string is string syntax exactly for printable strings, and then means the string. */
  lemma {:induction false} StringBack(s: string)
    ensures CharsText(CharsOf(s)) == Escaped(s)
    ensures ValidChars(CharsOf(s)) <==> PrintableString(s)
    ensures PrintableString(s) ==> CharsValue(CharsOf(s)) == s
  {
    if s != [] {
      var r, c := s[..|s| - 1], s[|s| - 1];
      assert s == r + [c];
      StringBack(r);
      CharBack(c);
      CharsSnoc(CharsOf(r), CharOf(c));
      PrintableSnoc(r, c);
      hide CharText;
      hide CharValue;
      hide ValidChar;
      hide PrintableString;
      hide EscapeChar;
      hide CharOf;
    }
  }

  lemma {:induction false} PrintableSnoc(r: string, c: char)
    ensures PrintableString(r + [c]) <==> PrintableString(r) && PrintableChar(c)
  {
    var s := r + [c];
    if PrintableString(s) {
      forall i | 0 <= i < |r| ensures PrintableChar(r[i]) { assert s[i] == r[i]; }
      assert s[|r|] == c;
    }
  }

  function PlainOf(s: string): (cs: seq<StrChar>)
    ensures |cs| == |s|
  {
    if s == [] then [] else PlainOf(s[..|s| - 1]) + [Plain(s[|s| - 1])]
  }

  lemma {:induction false} KeyBack(s: string)
    requires PrintableKey(s)
    ensures ValidChars(PlainOf(s)) && CharsText(PlainOf(s)) == s && CharsValue(PlainOf(s)) == s
  {
    if s != [] {
      var r, c := s[..|s| - 1], s[|s| - 1];
      assert s == r + [c];
      KeyBack(r);
      CharsSnoc(PlainOf(r), Plain(c));
    }
  }

  // ----- values -----

  function NumberOf(n: int): Number {
    if n == 0 then Number(false, "0", None, None) else Number(n < 0, DigitsOf(if n < 0 then -n else n), None, None)
  }

  lemma {:induction false} WholeNumber(neg: bool, ds: string)
    requires ds != [] && Digits(ds) && (ds[0] == '0' ==> |ds| == 1)
    ensures var n := Number(neg, ds, None, None);
            && ValidNumber(n) && NumberMeaning(n) == IntTree(Stored(if neg then -Natural(ds) else Natural(ds)))
            && NumberText(n) == if neg then "-" + ds else ds
  {
    hide Natural;
    hide Digits;
    var n := Number(neg, ds, None, None);
    assert NumberText(n) == WholeText(n);
  }

  lemma {:induction false} StoredSame(n: int)
    requires Fits64(n)
    ensures Stored(n) == n
  {}

  lemma {:induction false} NumberBack(n: int)
    requires Fits64(n)
    ensures ValidNumber(NumberOf(n)) && NumberMeaning(NumberOf(n)) == IntTree(n)
    ensures NumberText(NumberOf(n)) == if n != 0 then Decimal(n) else "0"
  {
    var m := if n < 0 then -n else n;
    hide DigitsOf;
    hide Natural;
    hide ValidNumber;
    hide NumberMeaning;
    hide NumberText;
    hide Fits64;
    hide Stored;
    DigitsValue(m);
    StoredSame(n);
    if n == 0 {
      ZeroNatural();
      WholeNumber(false, "0");
    } else {
      WholeNumber(n < 0, DigitsOf(m));
    }
  }

  lemma {:induction false} ZeroNatural()
    ensures Natural("0") == 0
  {
    NaturalSnoc([], '0');
    assert [] + ['0'] == "0";
  }

  /** The syntax of the printed text. */
  function ValueOf(t: Tree, one: int): Value
    requires Printable(t)
    decreases t
  {
    match t
    case IntTree(n) => VNum(NumberOf(n))
    case StrTree(s) => VStr(CharsOf(s))
    case TrueTree => if one == 0 then VTrue else VNum(NumberOf(one))
    case FalseTree => VFalse
    case NullTree => VNull
    case ArrTree(kids) => VArr(ElemsOf(kids, one))
    case ObjTree(kids) => VObj(MembersOf(kids, one))
  }

  function ElemsOf(kids: seq<Kid>, one: int): seq<Elem>
    requires PrintableKids(kids, false)
    decreases kids
  {
    if kids == [] then []
    else
      assert kids[0].t < kids[0];
      [Elem("", ValueOf(kids[0].t, one), "")] + ElemsOf(kids[1..], one)
  }

  function MembersOf(kids: seq<Kid>, one: int): seq<Member>
    requires PrintableKids(kids, true)
    decreases kids
  {
    if kids == [] then []
    else
      assert kids[0].t < kids[0];
      [Member("", PlainOf(kids[0].key.value), "", "", ValueOf(kids[0].t, one), "")] + MembersOf(kids[1..], one)
  }

  lemma {:induction false} PrintableNoFloats(t: Tree)
    requires Printable(t)
    ensures NoFloats(t)
    decreases t, 1
  {
    if IsNode(t) { KidsNoFloats(t.kids, t.ObjTree?); }
  }

  lemma {:induction false} KidsNoFloats(kids: seq<Kid>, keyed: bool)
    requires PrintableKids(kids, keyed)
    ensures NoFloatKids(kids)
    decreases kids, 0
  {
    if kids != [] {
      assert kids[0].t < kids[0];
      PrintableNoFloats(kids[0].t);
      KidsNoFloats(kids[1..], keyed);
    }
  }

  /** The text of a value under its key is that of its syntax, which means the value. */
  ghost predicate Back(t: Tree, one: int)
    requires Printable(t) && NoFloats(t)
  {
    var v := ValueOf(t, one);
    ValidValue(v) && Text(v) == NodeText(Kid(None, t), one) && Meaning(v) == Reread(t, one) && Depth(v) == TreeDepth(t)
    && (IsContainer(v) <==> IsNode(t))
  }

  lemma {:induction false} NodeTextKey(key: Option<string>, t: Tree, one: int)
    requires NoFloats(t)
    ensures NodeText(Kid(key, t), one) == KeyText(key) + NodeText(Kid(None, t), one)
  {
    hide ListText;
    hide ScalarText;
  }

  lemma {:induction false} ScalarNode(t: Tree, one: int)
    requires NoFloats(t) && !IsNode(t)
    ensures NodeText(Kid(None, t), one) == ScalarText(t, one)
  {
    hide ScalarText;
  }

  lemma {:induction false} NumBack(t: Tree, n: int, one: int)
    requires !IsNode(t) && Printable(t) && NoFloats(t) && Fits64(n)
    requires ValueOf(t, one) == VNum(NumberOf(n)) && ScalarText(t, one) == (if n != 0 then Decimal(n) else "0")
    requires Reread(t, one) == IntTree(n)
    ensures Back(t, one)
  {
    hide *;
    ScalarNode(t, one);
    NumberBack(n);
    assert TreeDepth(t) == 0 by { LeafDepth(t); }
    BackNumber(t, NumberOf(n), one);
  }

  lemma LeafDepth(t: Tree)
    requires !IsNode(t)
    ensures TreeDepth(t) == 0
  {}

  lemma BackNumber(t: Tree, n: Number, one: int)
    requires !IsNode(t) && Printable(t) && NoFloats(t) && ValueOf(t, one) == VNum(n) && ValidNumber(n)
    requires NumberText(n) == NodeText(Kid(None, t), one) && NumberMeaning(n) == Reread(t, one) && TreeDepth(t) == 0
    ensures Back(t, one)
  {
    hide ValueOf, NodeText, NumberText, NumberMeaning, Reread, TreeDepth, ValidNumber, Printable, NoFloats;
  }

  lemma {:induction false} StrBack(s: string, one: int)
    requires PrintableString(s)
    ensures NoFloats(StrTree(s)) && Back(StrTree(s), one)
  {
    ScalarNode(StrTree(s), one);
    StringBack(s);
    hide NodeText;
    hide Escaped;
    hide CharsOf;
    hide CharsText;
    hide CharsValue;
    hide ValidChars;
    hide PrintableString;
  }

  lemma {:induction false} LiteralBack(t: Tree, one: int)
    requires t.FalseTree? || t.NullTree? || (t.TrueTree? && one == 0)
    ensures Printable(t) && NoFloats(t) && Back(t, one)
  {
    ScalarNode(t, one);
    hide NodeText;
  }

  lemma {:induction false} ScalarBack(t: Tree, one: int)
    requires Printable(t) && NoFloats(t) && !IsNode(t) && Fits64(one)
    ensures Back(t, one)
  {
    if t.IntTree? {
      NumBack(t, t.n, one);
    } else if t.StrTree? {
      StrBack(t.s, one);
    } else if t.TrueTree? && one != 0 {
      NumBack(t, one, one);
    } else {
      LiteralBack(t, one);
    }
  }

  /** A container's text around the text of its children. */
  lemma {:induction false} NodeAround(t: Tree, one: int)
    requires NoFloats(t) && IsNode(t) && t.kids != []
    ensures NodeText(Kid(None, t), one) == Open(BracketOf(t)) + ListText(t.kids, BracketOf(t), one)
  {
    hide ListText;
  }

  lemma {:induction false} ArrayBack(kids: seq<Kid>, one: int)
    requires Printable(ArrTree(kids)) && NoFloats(ArrTree(kids)) && ElemsAre(kids, one)
    ensures Back(ArrTree(kids), one)
  {
    NodeAround(ArrTree(kids), one);
    hide NodeText;
    hide ListText;
    hide ElemsText;
    hide MembersText;
    hide ElemsMeaning;
    hide MembersMeaning;
    hide ElemsDepth;
    hide MembersDepth;
    hide ElemsOf;
    hide MembersOf;
    hide ValidElems;
    hide ValidMembers;
    hide RereadKids;
    hide KidsDepth;
    hide PrintableKids;
    hide NoFloatKids;
  }

  lemma {:induction false} ObjectBack(kids: seq<Kid>, one: int)
    requires Printable(ObjTree(kids)) && NoFloats(ObjTree(kids)) && MembersAre(kids, one)
    ensures Back(ObjTree(kids), one)
  {
    NodeAround(ObjTree(kids), one);
    hide NodeText;
    hide ListText;
    hide ElemsText;
    hide MembersText;
    hide ElemsMeaning;
    hide MembersMeaning;
    hide ElemsDepth;
    hide MembersDepth;
    hide ElemsOf;
    hide MembersOf;
    hide ValidElems;
    hide ValidMembers;
    hide RereadKids;
    hide KidsDepth;
    hide PrintableKids;
    hide NoFloatKids;
  }

  lemma {:induction false} ValueBack(t: Tree, one: int)
    requires Printable(t) && NoFloats(t) && Fits64(one)
    ensures Back(t, one)
    decreases t, 1
  {
    hide Back;
    hide ElemsAre;
    hide MembersAre;
    if !IsNode(t) {
      ScalarBack(t, one);
    } else if t.ArrTree? {
      ElemsBack(t.kids, one);
      ArrayBack(t.kids, one);
    } else {
      MembersBack(t.kids, one);
      ObjectBack(t.kids, one);
    }
  }

  /** The elements of an array read the printed text of its children. */
  ghost predicate ElemsAre(kids: seq<Kid>, one: int)
    requires PrintableKids(kids, false) && NoFloatKids(kids)
  {
    var es := ElemsOf(kids, one);
    && |es| == |kids| && ValidElems(es) && ElemsMeaning(es) == RereadKids(kids, one)
    && ElemsDepth(es) == KidsDepth(kids)
    && (kids != [] ==> ElemsText(es) + "]" == ListText(kids, Square, one))
  }

  ghost predicate MembersAre(kids: seq<Kid>, one: int)
    requires PrintableKids(kids, true) && NoFloatKids(kids)
  {
    var ms := MembersOf(kids, one);
    && |ms| == |kids| && ValidMembers(ms) && MembersMeaning(ms) == RereadKids(kids, one)
    && MembersDepth(ms) == KidsDepth(kids)
    && (kids != [] ==> MembersText(ms) + "}" == ListText(kids, Curly, one))
  }

  lemma {:induction false} ListCons(kids: seq<Kid>, b: Bracket, one: int)
    requires kids != [] && NoFloatKids(kids)
    ensures NoFloats(kids[0].t) && NoFloatKids(kids[1..])
    ensures ListText(kids, b, one) ==
            NodeText(kids[0], one) + (if b.NoBracket? then "" else if |kids| > 1 then "," else Close(b))
            + ListText(kids[1..], b, one)
    ensures |kids| == 1 ==> ListText(kids[1..], b, one) == ""
  {
    hide NodeText;
  }

  lemma {:induction false} ElemsUnfold(kids: seq<Kid>, one: int)
    requires kids != [] && PrintableKids(kids, false)
    ensures kids[0].t < kids[0] && kids[0].key.None? && Printable(kids[0].t) && PrintableKids(kids[1..], false)
    ensures ElemsOf(kids, one) == [Elem("", ValueOf(kids[0].t, one), "")] + ElemsOf(kids[1..], one)
    ensures RereadKids(kids, one) == [Kid(None, Reread(kids[0].t, one))] + RereadKids(kids[1..], one)
    ensures KidsDepth(kids) == Max(TreeDepth(kids[0].t), KidsDepth(kids[1..]))
  {
    hide ValueOf;
    hide Reread;
    hide TreeDepth;
  }

  lemma {:induction false} NoWhite()
    ensures Ws("")
  {}

  lemma {:induction false} Spaceless(q: string, t: string)
    ensures "" + q + "" + ":" + ("" + t + "") == (q + ":") + t
    ensures "" + t + "" == t
  {}

  lemma {:induction false} Regroup(t: string, r: string, close: string)
    ensures (t + ([','] + r)) + close == t + "," + (r + close)
  {}

  lemma {:induction false} ElemsText1(v: Value, xs: seq<Elem>, text: string, rest: string)
    requires ValidValue(v) && ValidElems(xs) && Text(v) == text && (xs != [] ==> ElemsText(xs) + "]" == rest)
    ensures var es := [Elem("", v, "")] + xs;
            && ValidElems(es) && ElemsDepth(es) == Max(Depth(v), ElemsDepth(xs))
            && ElemsMeaning(es) == [Kid(None, Meaning(v))] + ElemsMeaning(xs)
            && ElemsText(es) + "]" == if xs == [] then text + "]" else text + "," + rest
  {
    var x := Elem("", v, "");
    hide *;
    NoWhite();
    ElemsCons(x, xs, []);
    ElemMeaning(x, xs);
    Spaceless("", Text(v));
    Regroup(text, ElemsText(xs), "]");
  }

  lemma {:induction false} ElemMeaning(x: Elem, xs: seq<Elem>)
    requires ValidElems([x] + xs)
    ensures ValidValue(x.v) && ValidElems(xs)
    ensures ElemsMeaning([x] + xs) == [Kid(None, Meaning(x.v))] + ElemsMeaning(xs)
  {
    assert ([x] + xs)[1..] == xs;
    hide Meaning;
    hide ValidValue;
  }

  lemma {:induction false} ElemsBack(kids: seq<Kid>, one: int)
    requires PrintableKids(kids, false) && NoFloatKids(kids) && Fits64(one)
    ensures ElemsAre(kids, one)
    decreases kids, 0
  {
    if kids != [] {
      var k := kids[0];
      ElemsUnfold(kids, one);
      ListCons(kids, Square, one);
      ValueBack(k.t, one);
      ElemsBack(kids[1..], one);
      ElemsText1(ValueOf(k.t, one), ElemsOf(kids[1..], one), NodeText(k, one), ListText(kids[1..], Square, one));
      assert k == Kid(None, k.t);
    }
    hide NodeText;
    hide ListText;
    hide Text;
    hide Meaning;
    hide Depth;
    hide ValidValue;
    hide ValueOf;
    hide Reread;
    hide RereadKids;
    hide TreeDepth;
    hide KidsDepth;
    hide Printable;
    hide PrintableKids;
    hide NoFloats;
    hide ElemsText;
    hide ElemsMeaning;
    hide ElemsDepth;
    hide ValidElems;
  }

  lemma {:induction false} MemberBack(key: string)
    requires PrintableKey(key)
    ensures ValidChars(PlainOf(key)) && CharsValue(PlainOf(key)) == key
    ensures Quoted(PlainOf(key)) + ":" == KeyText(Some(key))
  {
    KeyBack(key);
    assert "\":" == "\"" + ":";
  }

  lemma {:induction false} MembersUnfold1(kids: seq<Kid>, one: int)
    requires kids != [] && PrintableKids(kids, true)
    ensures kids[0].t < kids[0] && kids[0].key.Some? && PrintableKey(kids[0].key.value)
    ensures Printable(kids[0].t) && PrintableKids(kids[1..], true)
    ensures MembersOf(kids, one) ==
            [Member("", PlainOf(kids[0].key.value), "", "", ValueOf(kids[0].t, one), "")] + MembersOf(kids[1..], one)
    ensures RereadKids(kids, one) == [Kid(kids[0].key, Reread(kids[0].t, one))] + RereadKids(kids[1..], one)
    ensures KidsDepth(kids) == Max(TreeDepth(kids[0].t), KidsDepth(kids[1..]))
  {
    hide ValueOf;
    hide Reread;
    hide TreeDepth;
    hide PlainOf;
  }

  lemma {:induction false} MemberMeaning(x: Member, xs: seq<Member>)
    requires ValidMembers([x] + xs)
    ensures ValidChars(x.key) && ValidValue(x.v) && ValidMembers(xs)
    ensures MembersMeaning([x] + xs) == [Kid(Some(CharsValue(x.key)), Meaning(x.v))] + MembersMeaning(xs)
  {
    assert ([x] + xs)[1..] == xs;
    hide Meaning;
    hide CharsValue;
    hide ValidChars;
    hide ValidValue;
  }

  lemma {:induction false} MembersText1(key: string, v: Value, xs: seq<Member>, text: string, rest: string)
    requires PrintableKey(key) && ValidValue(v) && ValidMembers(xs) && KeyText(Some(key)) + Text(v) == text
    requires xs != [] ==> MembersText(xs) + "}" == rest
    ensures var ms := [Member("", PlainOf(key), "", "", v, "")] + xs;
            && ValidMembers(ms) && MembersDepth(ms) == Max(Depth(v), MembersDepth(xs))
            && MembersMeaning(ms) == [Kid(Some(key), Meaning(v))] + MembersMeaning(xs)
            && MembersText(ms) + "}" == if xs == [] then text + "}" else text + "," + rest
  {
    var x := Member("", PlainOf(key), "", "", v, "");
    hide *;
    NoWhite();
    MemberBack(key);
    MembersCons(x, xs, []);
    MemberMeaning(x, xs);
    Spaceless(Quoted(x.key), Text(v));
    Regroup(text, MembersText(xs), "}");
  }

  lemma {:induction false} MembersBack(kids: seq<Kid>, one: int)
    requires PrintableKids(kids, true) && NoFloatKids(kids) && Fits64(one)
    ensures MembersAre(kids, one)
    decreases kids, 0
  {
    if kids != [] {
      var k := kids[0];
      MembersUnfold1(kids, one);
      ListCons(kids, Curly, one);
      ValueBack(k.t, one);
      NodeTextKey(k.key, k.t, one);
      assert k == Kid(k.key, k.t);
      MembersBack(kids[1..], one);
      MembersText1(k.key.value, ValueOf(k.t, one), MembersOf(kids[1..], one), NodeText(k, one),
                   ListText(kids[1..], Curly, one));
    }
    hide NodeText;
    hide KeyText;
    hide ListText;
    hide Text;
    hide Meaning;
    hide Depth;
    hide ValidValue;
    hide ValueOf;
    hide Reread;
    hide RereadKids;
    hide TreeDepth;
    hide KidsDepth;
    hide Printable;
    hide PrintableKids;
    hide PrintableKey;
    hide NoFloats;
    hide MembersText;
    hide MembersMeaning;
    hide MembersDepth;
    hide ValidMembers;
  }

  // ----- whole trees -----

  lemma {:induction false} PrintedDoc(t: Tree, one: int) returns (d: Doc)
    requires Printable(t) && IsNode(t) && TreeDepth(t) <= 15 && Fits64(one)
    ensures NoFloats(t) && ValidDoc(d) && DocText(d) == PrintText(t, one) && DocMeaning(d) == Some(Reread(t, one))
  {
    PrintableNoFloats(t);
    ValueBack(t, one);
    d := Doc("", ValueOf(t, one), "");
    assert Back(t, one);
    hide ValueOf;
    hide Text;
    hide NodeText;
    hide ValidValue;
    hide Meaning;
    hide Reread;
    hide Printable;
    hide NoFloats;
    hide TreeDepth;
    hide Depth;
    NoWhite();
    Spaceless("", Text(d.v));
  }

  /** The printed text of a printable tree is accepted, with the events of the tree that it means. */
  lemma {:induction false} PrintThenParse(t: Tree, one: int)
    requires Printable(t) && IsNode(t) && TreeDepth(t) <= 15 && Fits64(one)
    ensures NoFloats(t) && Finished(Run(START, PrintText(t, one)))
    ensures Run(START, PrintText(t, one)).value.events == EventsOf(Reread(t, one))
  {
    hide Run;
    hide Step;
    hide EventsOf;
    hide Reread;
    hide PrintText;
    hide Printable;
    hide NoFloats;
    var d := PrintedDoc(t, one);
    ParsesExactly(PrintText(t, one));
    hide ValidDoc;
    hide DocText;
    hide DocMeaning;
    assert DocEvents(Some(Reread(t, one))) == EventsOf(Reread(t, one));
  }

  predicate NoTrue(t: Tree)
    decreases t
  {
    !t.TrueTree? && (IsNode(t) ==> NoTrueKids(t.kids))
  }

  predicate NoTrueKids(kids: seq<Kid>)
    decreases kids
  {
    kids == [] || (assert kids[0].t < kids[0]; NoTrue(kids[0].t) && NoTrueKids(kids[1..]))
  }

  /** A tree is read back as itself exactly when its true nodes hold 0, as the constructors leave them,
      or when it has none: a parsed true holds 1 and is printed as that number. */
  lemma {:induction false} RereadSame(t: Tree, one: int)
    ensures Reread(t, one) == t <==> one == 0 || NoTrue(t)
    decreases t, 1
  {
    if IsNode(t) { RereadSameKids(t.kids, one); }
  }

  lemma {:induction false} RereadSameKids(kids: seq<Kid>, one: int)
    ensures RereadKids(kids, one) == kids <==> one == 0 || NoTrueKids(kids)
    decreases kids, 0
  {
    if kids != [] {
      assert kids[0].t < kids[0];
      RereadSame(kids[0].t, one);
      RereadSameKids(kids[1..], one);
      assert kids == [kids[0]] + kids[1..];
      var r := RereadKids(kids, one);
      assert r[0] == Kid(kids[0].key, Reread(kids[0].t, one)) && r[1..] == RereadKids(kids[1..], one);
      hide Reread;
      hide RereadKids;
    }
  }

  /** An empty array is printed as the number 0 and does not come back. */
  lemma {:induction false} EmptyContainerLost()
    ensures var t := ArrTree([Kid(None, ArrTree([]))]);
            NoFloats(t) && PrintText(t, 0) == "[0]" && PrintText(t, 0) == PrintText(ArrTree([Kid(None, IntTree(0))]), 0)
  {}
}
