/** From the functions that make a tree, through the printer, to the parser. */
module JsonReadBack {
  import opened Options
  import opened JsonTable
  import opened JsonGrammar
  import opened JsonBuild
  import opened JsonLayout
  import opened JsonContexts
  import opened JsonSound
  import opened JsonParsers
  import opened JsonPrint
  import opened JsonPrinters
  import opened JsonRoundTrip
  import opened JsonExact
  import opened JsonForests
  import opened JsonProperties
  import opened JsonUnicode
  import opened JsonAligned
  import opened JsonRfc

  // ----- texts without NUL -----

  /** Strings and keys that C can hold */
  predicate Strings(t: Tree)
    decreases t
  {
    (t.StrTree? ==> '\0' !in t.s) && (IsNode(t) ==> StringsKids(t.kids))
  }

  predicate StringsKids(kids: seq<Kid>)
    decreases kids
  {
    kids == [] ||
    (assert kids[0].t < kids[0];
     (kids[0].key.Some? ==> '\0' !in kids[0].key.value) && Strings(kids[0].t) && StringsKids(kids[1..]))
  }

  lemma {:induction false} EscapedClean(s: string)
    requires '\0' !in s
    ensures '\0' !in Escaped(s)
  {
    if s != [] {
      assert s[|s| - 1] in s;
      EscapedClean(s[..|s| - 1]);
    }
  }

  lemma {:induction false} DigitsClean(n: nat)
    ensures '\0' !in DigitsOf(n)
  {
    if n > 0 { DigitsClean(n / 10); }
  }

  lemma {:induction false} ScalarClean(t: Tree)
    requires !t.FloatTree? && Strings(t)
    ensures '\0' !in ScalarText(t, 0)
  {
    if t.StrTree? { EscapedClean(t.s); }
    if t.IntTree? { DigitsClean(if t.n < 0 then -t.n else t.n); }
    hide DigitsOf;
    hide Escaped;
  }

  lemma {:induction false} NodeClean(k: Kid)
    requires NoFloats(k.t) && Strings(k.t) && (k.key.Some? ==> '\0' !in k.key.value)
    ensures '\0' !in NodeText(k, 0)
    decreases k.t, 1
  {
    ScalarClean(k.t);
    if IsNode(k.t) { ListClean(k.t.kids, BracketOf(k.t)); }
    assert '\0' !in KeyText(k.key);
    hide ScalarText;
    hide ListText;
  }

  lemma {:induction false} ListClean(kids: seq<Kid>, b: Bracket)
    requires NoFloatKids(kids) && StringsKids(kids)
    ensures '\0' !in ListText(kids, b, 0)
    decreases kids, 0
  {
    if kids != [] {
      assert kids[0].t < kids[0];
      NodeClean(kids[0]);
      ListClean(kids[1..], b);
      hide NodeText;
      hide Strings;
      hide NoFloats;
    }
  }

  // ----- there and back -----

  /** The tree that the parser has built is the one that was made, exactly when its text comes back. */
  lemma {:induction false} SameTree(text: string, t: Tree, cx: JsonContext, root: JsonItem?)
    requires NoFloats(t) && Ints64(t) && text == PrintText(t, 0)
    requires root != null <==> exists d :: ValidDoc(d) && d.Doc? && DocText(d) == text
    requires forall d :: ValidDoc(d) && DocText(d) == text ==> HoldsTree(cx, root, DocMeaning(d))
    ensures HoldsTree(cx, root, Some(t)) <==> IsNode(t) && Printable(t) && TreeDepth(t) <= 15
    ensures root != null ==> exists u :: HoldsTree(cx, root, Some(u))
  {
    hide *;
    if root != null {
      var d :| ValidDoc(d) && d.Doc? && DocText(d) == text;
      HasMeaning(d);
      assert HoldsTree(cx, root, Some(DocMeaning(d).value));
    }
    Exactly(t);
    if IsNode(t) && Printable(t) && TreeDepth(t) <= 15 {
      var d := MadeDoc(t);
      assert HoldsTree(cx, root, DocMeaning(d));
    } else if HoldsTree(cx, root, Some(t)) {
      RootThere(cx, root, t);
      var d :| ValidDoc(d) && d.Doc? && DocText(d) == text;
      OneTree(cx, root, t, DocMeaning(d));
      ParsesExactly(text);
      Back(t, d);
      assert false;
    }
  }

  lemma {:induction false} Exactly(t: Tree)
    requires NoFloats(t) && Ints64(t)
    ensures ComesBack(t, 0) <==> IsNode(t) && Printable(t) && TreeDepth(t) <= 15
  {
    hide ComesBack;
    hide Printable;
    ReadBackExactly(t, 0);
  }

  lemma {:induction false} MadeDoc(t: Tree) returns (d: Doc)
    requires IsNode(t) && Printable(t) && TreeDepth(t) <= 15
    ensures NoFloats(t) && ValidDoc(d) && DocText(d) == PrintText(t, 0) && DocMeaning(d) == Some(t)
  {
    hide Printable;
    hide ValidDoc;
    d := PrintedDoc(t, 0);
    RereadSame(t, 0);
  }

  lemma {:induction false} HasMeaning(d: Doc)
    requires ValidDoc(d) && d.Doc?
    ensures DocMeaning(d).Some? && DocMeaning(d) == Some(DocMeaning(d).value)
  {
    hide ValidDoc;
  }

  lemma {:induction false} RootThere(cx: JsonContext, root: JsonItem?, t: Tree)
    requires HoldsTree(cx, root, Some(t))
    ensures root != null
  {}

  lemma {:induction false} OneTree(cx: JsonContext, root: JsonItem?, t: Tree, u: Option<Tree>)
    requires HoldsTree(cx, root, Some(t)) && HoldsTree(cx, root, u)
    ensures u == Some(t)
  {
    if u.Some? {
      RepUnique(cx.view.nodes, 0, None, t, None, u.value, 1);
    }
  }

  lemma {:induction false} Back(t: Tree, d: Doc)
    requires NoFloats(t) && ValidDoc(d) && DocText(d) == PrintText(t, 0) && DocMeaning(d) == Some(t)
    requires var r := Run(START, DocText(d)); Finished(r) && r.value.events == DocEvents(DocMeaning(d))
    ensures ComesBack(t, 0)
  {
    hide Run;
    hide ValidDoc;
  }

  /** json_to_string and then init_json_parser: whatever tree the functions of JsonProperties have made, the parser
      builds that tree again from its text exactly when it is a container without empty containers, not nested too
      deep, with keys in objects only that need no escapes, and strings of characters that the parser takes back. */
  method PrintThenRead(made: JsonNodes, head: JsonItem, ghost i: nat) returns (root: JsonItem?, ghost cx: JsonContext)
    requires made.Valid() && i < |made.items| == |made.nodes| == |made.trees| && head == made.items[i]
    requires made.nodes[i].father.None? && NoFloats(made.trees[i]) && Ints64(made.trees[i]) && Strings(made.trees[i])
    ensures var t := made.trees[i];
            && (HoldsTree(cx, root, Some(t)) <==> IsNode(t) && Printable(t) && TreeDepth(t) <= 15)
            && (IsNode(t) && Printable(t) && TreeDepth(t) <= 15 ==> root != null)
            && (root != null ==> exists u :: HoldsTree(cx, root, Some(u)))
    ensures root != null <==> exists d :: ValidDoc(d) && d.Doc? && DocText(d) == PrintText(made.trees[i], 0)
  {
    ghost var t := made.trees[i];
    Standing(made, i);
    NodeClean(Kid(None, t));
    hide *;
    var out := ToString(head, made.items, made.nodes, i, t, 0);
    var text := out.jstring[..out.len];
    Written(out);
    root, cx := InitJsonParser(text);
    SameTree(text, t, cx, root);
    if HoldsTree(cx, root, Some(t)) { RootThere(cx, root, t); }
  }

  lemma {:induction false} Standing(made: JsonNodes, i: nat)
    requires made.Valid() && i < |made.items| == |made.nodes| == |made.trees| && made.nodes[i].father.None?
    ensures ShowAll(made.items, made.nodes) && made.nodes[i].next.None?
    ensures Rep(made.nodes, i, None, made.trees[i], 0)
  {
    assert ChildOk(made.nodes, made.lasts, i);
    assert Rep(made.nodes, i, made.nodes[i].key, made.trees[i], 0);
  }

  lemma {:induction false} Written(out: JsonString)
    requires out.Valid()
    ensures out.len <= out.jstring.Length && out.Contents() == out.jstring[..out.len]
  {}

  // ----- code points -----

  lemma {:induction false} OneMeans(v: Value)
    requires ValidValue(v)
    ensures var w := VArr([Elem("", v, "")]); ValidValue(w) && Meaning(w) == ArrTree([Kid(None, Meaning(v))])
  {
    var es := [Elem("", v, "")];
    assert es[0] == Elem("", v, "") && es[1..] == [];
    assert ValidElems([]) && ValidElems(es);
    assert ElemsMeaning([]) == [] && ElemsMeaning(es) == [Kid(None, Meaning(v))];
    hide Meaning;
    hide ValidValue;
  }

  lemma {:induction false} StringOf(x: StrChar)
    requires ValidChar(x)
    ensures ValidValue(VStr([x])) && Text(VStr([x])) == "\"" + CharText(x) + "\""
    ensures Meaning(VStr([x])) == StrTree(CharValue(x))
  {
    TextOne(x);
    hide CharText;
    hide CharValue;
    hide ValidChar;
    hide CharsText;
    hide CharsValue;
    hide ValidChars;
  }

  lemma {:induction false} EscapeDoc(x: StrChar) returns (d: Doc)
    requires ValidChar(x)
    ensures ValidDoc(d) && d.Doc? && DocText(d) == "[\"" + CharText(x) + "\"]"
    ensures DocMeaning(d) == Some(ArrTree([Kid(None, StrTree(CharValue(x)))]))
  {
    var v := VStr([x]);
    var w := VArr([Elem("", v, "")]);
    hide *;
    d := Doc("", w, "");
    StringOf(x);
    NoContainer(x);
    OneMeans(v);
    OneElem(v);
    BareDoc(w);
    assert "[" + ("\"" + CharText(x) + "\"") + "]" == "[\"" + CharText(x) + "\"]";
  }

  lemma NoContainer(x: StrChar)
    ensures !IsContainer(VStr([x]))
  {}

  lemma {:induction false} BareDoc(w: Value)
    requires ValidValue(w) && IsContainer(w) && Depth(w) == 1
    ensures var d := Doc("", w, ""); ValidDoc(d) && DocText(d) == Text(w) && DocMeaning(d) == Some(Meaning(w))
  {
    hide Text;
    hide Meaning;
    hide ValidValue;
    hide Depth;
    assert "" + Text(w) + "" == Text(w);
  }

  /** For every code point but the surrogates: the text of an array with one string, which is the escape of the code
      point, is read as such an array, with bytes that encode it. */
  method ReadCodePoint(u: int, upper: bool) returns (root: JsonItem?, ghost cx: JsonContext, ghost bytes: string)
    requires 0 <= u < 0xD800 || 0xE000 <= u < 0x110000
    ensures root != null && HoldsTree(cx, root, Some(ArrTree([Kid(None, StrTree(bytes))])))
    ensures Decode(bytes) == Some(u)
  {
    hide *;
    EscapeRead(u, upper);
    EscapeShown(u, upper);
    ghost var d := EscapeDoc(EscapeOf(u, upper));
    bytes := CharValue(EscapeOf(u, upper));
    root, cx := InitJsonParser("[\"" + CharText(EscapeOf(u, upper)) + "\"]");
  }

  lemma {:induction false} EscapeShown(u: int, upper: bool)
    requires 0 <= u < 0x110000
    ensures '\0' !in "[\"" + CharText(EscapeOf(u, upper)) + "\"]"
  {
    if u < 0x10000 {
      HexShown(u, upper);
    } else {
      HexShown(0xD800 + (u - 0x10000) / 1024, upper);
      HexShown(0xDC00 + (u - 0x10000) % 1024, upper);
    }
    hide Hex;
  }

  lemma {:induction false} HexShown(n: int, upper: bool)
    requires 0 <= n < 0x10000
    ensures '\0' !in Hex(n, upper)
  {
    HexBack(n, upper);
    hide HexValue;
    hide Hex;
  }
}
