/** What digits, limits, marks and nodes are, written out. */
module JsonLiterals {
  import opened Options
  import opened JsonTable
  import opened JsonGrammar
  import opened JsonBuild
  import opened JsonLayout
  import opened JsonPrint
  import opened JsonRfc
  import JsonRoundTrip
  import Words

  // ----- numbers -----

  const DIGITS := "0123456789"

  lemma DigitIs(k: nat)
    requires k < 10
    ensures IsDigit(DIGITS[k]) && DigitValue(DIGITS[k]) == k && DigitChar(k) == DIGITS[k]
  {
    assert DIGITS[k] as int == 48 + k;
  }

  /** Every digit counts for the power of ten of its place. */
  lemma {:induction false} NaturalIs(c: char, ds: string)
    ensures Natural([c] + ds) == DigitValue(c) * Words.Pow(10, |ds|) + Natural(ds)
  {
    if ds == [] {
      assert Natural([c]) == 10 * Natural([c][..0]) + DigitValue(c) && Words.Pow(10, 0) == 1;
    } else {
      var n := |ds| - 1;
      NaturalIs(c, ds[..n]);
      assert ([c] + ds)[..n + 1] == [c] + ds[..n] && ([c] + ds)[n + 1] == ds[n];
      var d: int, p: int := DigitValue(c), Words.Pow(10, n);
      assert Words.Pow(10, n + 1) == 10 * p;
      Tenfold(d, p);
    }
  }

  lemma Tenfold(d: int, p: int)
    ensures 10 * (d * p) == d * (10 * p)
  {}

  /** Integers are kept within 64 bits: the nearest number that has a place there. */
  lemma StoredIs(n: int)
    ensures var p: int := Words.Pow(2, 63);
            Stored(n) == if n < -p then -p else if n >= p then p - 1 else n
  {
    assert Words.Pow(2, 8) == 256 by {
      assert Words.Pow(2, 4) == 16;
    }
    Words.PowMul(2, 8, 7);
    Words.PowAdd(2, 56, 7);
    assert Words.Pow(2, 7) == 128;
    assert Words.Pow(256, 4) == 0x1_0000_0000;
    assert Words.Pow(256, 7) == 0x100_0000_0000_0000;
  }

  // ----- strings -----

  const MARKED := "\"\\\n\t\r'\U{0008}\U{000C}"
  const MARKS := "\"\\ntr'bf"

  /** A backslash and a letter for eight characters, and the others as they are */
  lemma EscapeCharIs(c: char)
    ensures forall k :: 0 <= k < 8 && c == MARKED[k] ==> EscapeChar(c) == ['\\', MARKS[k]]
    ensures (forall k :: 0 <= k < 8 ==> c != MARKED[k]) ==> EscapeChar(c) == [c]
  {
    assert MARKED[0] == '"' && MARKED[1] == '\\' && MARKED[2] == '\n' && MARKED[3] == '\t' && MARKED[4] == '\r';
    assert MARKED[5] == '\'' && MARKED[6] == '\U{0008}' && MARKED[7] == '\U{000C}';
  }

  // ----- nodes -----

  /** The fields of a node that stands for a tree */
  lemma HoldsIs(x: Item, t: Tree, one: int)
    ensures Holds(x, t, one) <==>
              && x.int_value == (if t.IntTree? then t.n else if t.TrueTree? then one else 0)
              && x.float_value == (if t.FloatTree? then t.text else "")
              && x.str == (if t.StrTree? then Some(t.s) else None)
              && x.childType == (if t.ArrTree? then ArrChild else if t.ObjTree? then ObjChild else NullChild)
              && x.typ == match t
                          case IntTree(_) => TInteger
                          case FloatTree(_) => TFloat
                          case NullTree => TNull
                          case TrueTree => TTrue
                          case FalseTree => TFalse
                          case StrTree(_) => TString
                          case _ => NoType
  {}

  // ----- nesting -----

  function Repeated(c: char, n: nat): string { seq(n, _ => c) }

  /** Arrays within each other, the innermost one empty */
  function Nest(n: nat): Value { if n <= 1 then VEmptyArr("") else VArr([Elem("", Nest(n - 1), "")]) }

  lemma {:induction false} NestIs(n: nat)
    requires n >= 1
    ensures JsonValue(Nest(n), true) && Depth(Nest(n)) == n && IsContainer(Nest(n)) && Taken(Nest(n))
    ensures Text(Nest(n)) == Repeated('[', n) + Repeated(']', n)
  {
    if n == 1 {
      assert Text(VEmptyArr("")) == "[]" && Repeated('[', 1) == "[" && Repeated(']', 1) == "]";
    } else {
      NestIs(n - 1);
      OneNested(Nest(n - 1));
      hide *;
      assert Repeated('[', n) == "[" + Repeated('[', n - 1) && Repeated(']', n) == Repeated(']', n - 1) + "]" by {
        Longer(n);
      }
      assert Nest(n) == VArr([Elem("", Nest(n - 1), "")]) by { NestNext(n); }
      Around(Repeated('[', n - 1), Repeated(']', n - 1));
    }
  }

  lemma Longer(n: nat)
    requires n > 1
    ensures Repeated('[', n) == "[" + Repeated('[', n - 1) && Repeated(']', n) == Repeated(']', n - 1) + "]"
  {}

  lemma NestNext(n: nat)
    requires n > 1
    ensures Nest(n) == VArr([Elem("", Nest(n - 1), "")])
  {}

  lemma Around(a: string, b: string)
    ensures "[" + (a + b) + "]" == "[" + a + (b + "]")
  {}

  lemma OneNested(v: Value)
    requires JsonValue(v, true) && Taken(v)
    ensures var w := VArr([Elem("", v, "")]);
            JsonValue(w, true) && Taken(w) && Depth(w) == 1 + Depth(v) && Text(w) == "[" + Text(v) + "]"
  {
    var es := [Elem("", v, "")];
    assert es[1..] == [];
    assert JsonElems([], true) && TakenElems([]) && ElemsDepth([]) == 0;
    assert JsonElems(es, true) && TakenElems(es) && ElemsDepth(es) == Depth(v);
    assert ElemsText(es) == Text(v) by {
      assert ElemsText(es) == "" + Text(v) + "" + "";
      hide ElemsText, Text;
    }
    hide ElemsText, JsonElems, TakenElems, ElemsDepth;
  }

  /** So many brackets and as many closing ones are accepted exactly for up to 15. */
  lemma NestedAccepted(n: nat)
    requires n >= 1
    ensures Accepted(Repeated('[', n) + Repeated(']', n)) <==> n <= 15
  {
    NestIs(n);
    hide *;
    RfcIsAccepted("", Nest(n), "");
    var text := Repeated('[', n) + Repeated(']', n);
    assert "" + (text + "") == text;
    assert Ws("") by { NoWhite(); }
  }

  lemma NoWhite()
    ensures Ws("")
  {}

  // ----- what is printed -----

  /** Two values with a comma between them, in brackets */
  lemma TwoPrinted(a: Kid, b: Kid, kind: Bracket, one: int)
    requires NoFloats(a.t) && NoFloats(b.t) && !kind.NoBracket?
    ensures NoFloatKids([a, b])
    ensures ListText([a, b], kind, one)
         == NodeText(a, one) + "," + NodeText(b, one) + (if kind.Square? then "]" else "}")
  {
    var kids := [a, b];
    assert kids[1..] == [b] && [b][1..] == [];
    assert NoFloatKids([b]);
    hide NodeText;
    assert ListText([], kind, one) == "";
    assert ListText([b], kind, one) == NodeText(b, one) + Close(kind) + "";
    assert ListText(kids, kind, one) == NodeText(a, one) + "," + ListText([b], kind, one);
  }

  /** Nothing is written around the marks. */
  lemma PrintedArray(a: Tree, b: Tree, one: int)
    requires NoFloats(a) && NoFloats(b)
    ensures var x := ArrTree([Kid(None, a), Kid(None, b)]);
            NoFloats(x) && PrintText(x, one) == "[" + (PrintText(a, one) + "," + PrintText(b, one) + "]")
  {
    var kids := [Kid(None, a), Kid(None, b)];
    hide *;
    TwoPrinted(kids[0], kids[1], Square, one);
    ContainerPrinted(kids, one);
    KeyPrinted("", a, one);
    KeyPrinted("", b, one);
  }

  lemma PrintedObject(a: Tree, b: Tree, j: string, k: string, one: int)
    requires NoFloats(a) && NoFloats(b)
    ensures var x := ObjTree([Kid(Some(j), a), Kid(Some(k), b)]);
            var first, second := "\"" + j + "\":" + PrintText(a, one), "\"" + k + "\":" + PrintText(b, one);
            NoFloats(x) && PrintText(x, one) == "{" + (first + "," + second + "}")
  {
    var kids := [Kid(Some(j), a), Kid(Some(k), b)];
    hide *;
    TwoPrinted(kids[0], kids[1], Curly, one);
    ContainerPrinted(kids, one);
    KeyPrinted(j, a, one);
    KeyPrinted(k, b, one);
  }

  lemma KeyPrinted(key: string, t: Tree, one: int)
    requires NoFloats(t)
    ensures NodeText(Kid(Some(key), t), one) == "\"" + key + "\":" + PrintText(t, one)
    ensures NodeText(Kid(None, t), one) == PrintText(t, one)
  {
    JsonRoundTrip.NodeTextKey(Some(key), t, one);
    hide NodeText;
  }

  lemma ContainerPrinted(kids: seq<Kid>, one: int)
    requires kids != [] && NoFloatKids(kids)
    ensures NoFloats(ArrTree(kids)) && PrintText(ArrTree(kids), one) == "[" + ListText(kids, Square, one)
    ensures NoFloats(ObjTree(kids)) && PrintText(ObjTree(kids), one) == "{" + ListText(kids, Curly, one)
  {
    hide ListText, NoFloatKids;
  }

  /** The values without children */
  lemma PrintedLeaf(s: string, one: int)
    ensures PrintText(TrueTree, 0) == "true" && PrintText(FalseTree, one) == "false"
    ensures PrintText(NullTree, one) == "null" && PrintText(StrTree(s), one) == "\"" + Escaped(s) + "\""
    ensures PrintText(IntTree(0), one) == "0" && PrintText(IntTree(-1), one) == "-1"
  {}

  // ----- the foreseen size -----

  predicate Numbers(kids: seq<Kid>) { forall i :: 0 <= i < |kids| ==> kids[i].key.None? && kids[i].t.IntTree? }

  /** 16 characters for a number, and two around them all */
  lemma {:induction false} SizeOfNumbers(kids: seq<Kid>)
    requires Numbers(kids)
    ensures SizeOf(kids) == 16 * |kids| + 2
  {
    if kids != [] {
      SizeOfNumbers(kids[1..]);
    }
  }

  /** Three more than its length for a string, and as much for a key; nothing for a list but what is in it */
  lemma SizeOfOthers(key: string, s: string, kids: seq<Kid>, list: bool)
    requires kids != []
    ensures SizeOfNode(Kid(Some(key), StrTree(s))) == |key| + 3 + |s| + 3
    ensures SizeOfNode(Kid(None, if list then ArrTree(kids) else ObjTree(kids))) == SizeOf(kids)
    ensures SizeOfNode(Kid(None, if list then ArrTree([]) else ObjTree([]))) == 16
    ensures SizeOf(kids) == SizeOfNode(kids[0]) + SizeOf(kids[1..])
  {}
}
