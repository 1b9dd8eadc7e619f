/** json_to_string of src/json.c on the nodes of a tree, writing into a buffer of foreseen size. */
module JsonPrinters {
  import opened Options
  import opened JsonTable
  import opened JsonGrammar
  import opened JsonBuild
  import opened JsonLayout
  import opened JsonContexts
  import opened JsonPrint

  lemma {:induction false} DigitsStep(n: nat, tail: string)
    requires n > 0
    ensures DigitsOf(n) + tail == DigitsOf(n / 10) + ([DigitChar(n % 10)] + tail)
    ensures |DigitsOf(n)| == |DigitsOf(n / 10)| + 1
  {}

  lemma {:induction false} NoDigits()
    ensures DigitsOf(0) == []
  {}

  lemma {:induction false} DecimalSign(n: int)
    ensures Decimal(n) == if n < 0 then ['-'] + DigitsOf(-n) else DigitsOf(n)
  {}

  /** One more character before the text at the end of the buffer. */
  method PutBefore(output: array<char>, i: nat, c: char, ghost tail: string)
    requires i + 1 < output.Length && output[i + 1..output.Length - 1] == tail && output[output.Length - 1] == '\0'
    modifies output
    ensures output[i..output.Length - 1] == [c] + tail && output[output.Length - 1] == '\0'
  {
    output[i] := c;
  }

  /** itos of src/utils.c: digits from the end of the buffer backwards, then the sign. */
  method Itos(input: int, output: array<char>) returns (offset: nat)
    requires output.Length > |Decimal(input)|
    modifies output
    ensures offset == output.Length - 1 - |Decimal(input)|
    ensures output[offset..output.Length - 1] == Decimal(input) && output[output.Length - 1] == '\0'
  {
    hide *;
    DecimalSign(input);
    var len := output.Length;
    var n, sign := input, false;
    if n < 0 {
      n, sign := -n, true;
    }
    output[len - 1] := '\0';
    ghost var all := DigitsOf(n);
    ghost var tail: string := [];
    assert all + tail == all;
    var i := 2;
    while n != 0
      invariant n >= 0 && 2 <= i && |all| + (if sign then 1 else 0) < len
      invariant |DigitsOf(n)| + (i - 2) == |all|
      invariant DigitsOf(n) + tail == all && output[len - i + 1..len - 1] == tail
      invariant output[len - 1] == '\0'
      decreases n
    {
      DigitsStep(n, tail);
      PutBefore(output, len - i, DigitChar(n % 10), tail);
      tail := [DigitChar(n % 10)] + tail;
      n, i := n / 10, i + 1;
    }
    NoDigits();
    assert [] + tail == tail;
    if sign {
      PutBefore(output, len - i, '-', tail);
      i := i + 1;
    }
    offset := len - (i - 1);
  }

  /** struct jsontring */
  class JsonString {
    const jstring: array<char>
    var len: nat

    constructor (jsize: nat)
      ensures Valid() && len == 0 && jstring.Length == jsize + 1 && fresh(jstring)
    {
      jstring := new char[jsize + 1];
      len := 0;
    }

    ghost predicate Valid()
      reads this
    {
      len < jstring.Length
    }

    ghost function Contents(): string
      requires Valid()
      reads this, jstring
    {
      jstring[..len]
    }

    /** string->jstring[string->len++] = c */
    method Add(c: char)
      requires Valid() && len + 1 < jstring.Length
      modifies this, jstring
      ensures Valid() && len == old(len) + 1 && Contents() == old(Contents()) + [c]
    {
      jstring[len] := c;
      len := len + 1;
    }

    lemma Empty()
      requires Valid() && len == 0
      ensures Contents() == ""
    {}

    /** string->jstring[string->len] = 0 */
    method Terminate()
      requires Valid()
      modifies jstring
      ensures Valid() && Contents() == old(Contents()) && jstring[len] == '\0'
    {
      jstring[len] := '\0';
    }

    /** memcpy at the end of the text */
    method Append(s: string)
      requires Valid() && len + |s| < jstring.Length
      modifies this, jstring
      ensures Valid() && len == old(len) + |s| && Contents() == old(Contents()) + s
    {
      var i := 0;
      while i < |s|
        invariant 0 <= i <= |s|
        invariant Valid() && len == old(len) + i && Contents() == old(Contents()) + s[..i]
      {
        Add(s[i]);
        i := i + 1;
      }
    }

    /** The cases of escape_json_out. */
    method AddEscaped(c: char)
      requires Valid() && len + |EscapeChar(c)| < jstring.Length
      modifies this, jstring
      ensures Valid() && len == old(len) + |EscapeChar(c)| && Contents() == old(Contents()) + EscapeChar(c)
    {
      match c {
        case '"' => Append("\\\"");
        case '\\' => Append("\\\\");
        case '\n' => Append("\\n");
        case '\U{0008}' => Append("\\b");
        case '\t' => Append("\\t");
        case '\U{000C}' => Append("\\f");
        case '\r' => Append("\\r");
        case '\'' => Append("\\'");
        case _ => Add(c);
      }
    }

    /** escape_json_string */
    method AppendEscaped(s: string)
      requires Valid() && len + |Escaped(s)| < jstring.Length
      modifies this, jstring
      ensures Valid() && len == old(len) + |Escaped(s)| && Contents() == old(Contents()) + Escaped(s)
    {
      hide EscapeChar;
      var i := 0;
      assert s[..|s|] == s;
      while i < |s|
        invariant 0 <= i <= |s|
        invariant Valid() && len == old(len) + |Escaped(s[..i])| && Contents() == old(Contents()) + Escaped(s[..i])
      {
        EscapedPrefix(s, i);
        AddEscaped(s[i]);
        i := i + 1;
      }
    }

    method AppendNumber(n: int)
      requires Valid() && len + |Decimal(n)| < jstring.Length
      modifies this, jstring
      ensures Valid() && len == old(len) + |Decimal(n)| && Contents() == old(Contents()) + Decimal(n)
    {
      var l := |DigitsOf(if n < 0 then -n else n)|;
      var integer_str := new char[l + 2];
      var offset := Itos(n, integer_str);
      Append(integer_str[offset..l + 1]);
    }
  }

  lemma {:induction false} EscapedPrefix(s: string, i: nat)
    requires i < |s|
    ensures Escaped(s[..i + 1]) == Escaped(s[..i]) + EscapeChar(s[i])
    ensures |Escaped(s[..i + 1])| <= |Escaped(s)|
  {
    assert s[..i + 1][..i] == s[..i];
    EscapedMonotone(s, i + 1);
  }

  lemma {:induction false} EscapedMonotone(s: string, i: nat)
    requires i <= |s|
    ensures |Escaped(s[..i])| <= |Escaped(s)|
    decreases |s|
  {
    if i == |s| {
      assert s[..i] == s;
    } else {
      EscapedMonotone(s[..|s| - 1], i);
      assert s[..|s| - 1][..i] == s[..i];
    }
  }

  // ----- the nodes of a tree -----

  function ChildTypeOf(b: Bracket): ChildType {
    match b case Square => ArrChild case Curly => ObjChild case NoBracket => NullChild
  }

  /** The pointer head starts the list of these siblings below a father with the bracket b; the root has none. */
  ghost predicate Siblings(items: seq<JsonItem>, nodes: seq<Item>, head: JsonItem?, o: Option<nat>, kids: seq<Kid>,
                           father: Option<nat>, b: Bracket, one: int)
    reads items
  {
    && ShowAll(items, nodes) && Points(items, head, o) && RepKids(nodes, o, kids, father, one) && NoFloatKids(kids)
    && (father.None? <==> b.NoBracket?)
    && (father.Some? ==> father.value < |nodes| && nodes[father.value].childType == ChildTypeOf(b))
  }

  predicate HasKids(t: Tree) { IsNode(t) && t.kids != [] }

  /** The node of one sibling, as its fields show it. */
  ghost predicate NodeOf(x: JsonItem, k: Kid, one: int)
    reads x
  {
    && x.key == k.key && (x.child == null <==> !HasKids(k.t))
    && x.str == (if k.t.StrTree? then Some(k.t.s) else None)
    && x.int_value == (if k.t.IntTree? then k.t.n else if k.t.TrueTree? then one else 0)
    && (x.typ.TTrue? <==> k.t.TrueTree?) && (x.typ.TFalse? <==> k.t.FalseTree?) && (x.typ.TNull? <==> k.t.NullTree?)
    && (IsNode(k.t) ==> x.childType == ChildTypeOf(BracketOf(k.t)))
  }

  lemma {:induction false} SiblingFields(items: seq<JsonItem>, nodes: seq<Item>, head: JsonItem, o: Option<nat>,
                                         kids: seq<Kid>,
                                         father: Option<nat>, b: Bracket, one: int)
    requires Siblings(items, nodes, head, o, kids, father, b, one) && kids != []
    ensures o.Some? && o.value < |nodes| && NodeOf(head, kids[0], one) && NoFloats(kids[0].t)
    ensures Siblings(items, nodes, head.next, nodes[o.value].next, kids[1..], father, b, one)
    ensures head.next == null <==> |kids| == 1
    ensures head.father == null <==> b.NoBracket?
    ensures head.father != null ==> head.father.childType == ChildTypeOf(b)
    ensures HasKids(kids[0].t) ==>
              Siblings(items, nodes, head.child, nodes[o.value].child, kids[0].t.kids, o, BracketOf(kids[0].t), one)
    ensures HasKids(kids[0].t) ==> KidsSize(kids[0].t.kids) < KidsSize(kids)
    ensures KidsSize(kids[1..]) < KidsSize(kids)
  {
    var k, i := kids[0], o.value;
    assert k.t < k;
    ShowsAt(items, nodes, i);
    if father.Some? { ShowsAt(items, nodes, father.value); }
    RepBound(nodes, i, k.key, k.t, one);
    hide Rep;
    hide ShowAll;
  }

  lemma {:induction false} NoSibling(items: seq<JsonItem>, nodes: seq<Item>, head: JsonItem?, o: Option<nat>,
                                     kids: seq<Kid>,
                                     father: Option<nat>, b: Bracket, one: int)
    requires Siblings(items, nodes, head, o, kids, father, b, one)
    ensures head == null <==> kids == []
  {}

  lemma {:induction false} SizeUnfold(kids: seq<Kid>)
    ensures kids == [] ==> SizeOf(kids) == 2
    ensures kids != [] ==> SizeOf(kids) == SizeOfNode(kids[0]) + SizeOf(kids[1..])
  {}

  /** json_evaluate_string_size */
  method EvaluateStringSize(head: JsonItem?, ghost items: seq<JsonItem>, ghost nodes: seq<Item>, ghost o: Option<nat>,
                            ghost kids: seq<Kid>, ghost father: Option<nat>, ghost b: Bracket, ghost one: int)
    returns (evalsize: nat)
    requires Siblings(items, nodes, head, o, kids, father, b, one)
    ensures evalsize == SizeOf(kids)
    decreases KidsSize(kids)
  {
    hide Siblings;
    hide SizeOf;
    hide KidsSize;
    evalsize := 2;
    var x := head;
    ghost var at, rest := o, kids;
    SizeUnfold([]);
    while x != null
      invariant Siblings(items, nodes, x, at, rest, father, b, one) && KidsSize(rest) <= KidsSize(kids)
      invariant evalsize + SizeOf(rest) == SizeOf(kids) + 2
      decreases KidsSize(rest)
    {
      NoSibling(items, nodes, x, at, rest, father, b, one);
      SiblingFields(items, nodes, x, at, rest, father, b, one);
      SizeUnfold(rest);
      ghost var t := rest[0].t;
      if x.key != None {
        evalsize := evalsize + |x.key.value| + 3;
      }
      if x.str != None {
        evalsize := evalsize + |x.str.value| + 3;
      } else if x.child == null {
        evalsize := evalsize + 16;
      }
      if x.child != null {
        var below := EvaluateStringSize(x.child, items, nodes, nodes[at.value].child, t.kids, at, BracketOf(t), one);
        evalsize := evalsize + below;
      }
      at, rest := nodes[at.value].next, rest[1..];
      x := x.next;
    }
    NoSibling(items, nodes, x, at, rest, father, b, one);
  }

  /** The branches of json_to_string that write a value without its children. */
  method WriteScalar(x: JsonItem, out: JsonString, ghost k: Kid, ghost one: int)
    requires NodeOf(x, k, one) && NoFloats(k.t)
    requires out.Valid() && out.len + |ScalarText(k.t, one)| < out.jstring.Length
    modifies out, out.jstring
    ensures out.Valid() && out.Contents() == old(out.Contents()) + ScalarText(k.t, one)
    ensures out.len == old(out.len) + |ScalarText(k.t, one)|
  {
    hide Escaped;
    hide Decimal;
    if x.str != None {
      out.Add('"');
      out.AppendEscaped(x.str.value);
      out.Add('"');
    } else if x.int_value != 0 {
      out.AppendNumber(x.int_value);
    } else if x.typ == TTrue {
      out.Append("true");
    } else if x.typ == TFalse {
      out.Append("false");
    } else if x.typ == TNull {
      out.Append("null");
    } else if x.child == null {
      out.Append("0");
    }
  }

  method WriteKey(x: JsonItem, out: JsonString)
    requires out.Valid() && out.len + |KeyText(x.key)| < out.jstring.Length
    modifies out, out.jstring
    ensures out.Valid() && out.Contents() == old(out.Contents()) + KeyText(x.key)
    ensures out.len == old(out.len) + |KeyText(x.key)|
  {
    hide JsonString.Valid;
    hide JsonString.Contents;
    if x.key != None {
      ghost var was := out.Contents();
      out.Add('"');
      out.Append(x.key.value);
      out.Add('"');
      out.Add(':');
      KeyPieces(was, x.key.value);
    } else {
      NoPiece(out.Contents());
    }
  }

  lemma KeyPieces(was: string, key: string)
    ensures was + ['"'] + key + ['"'] + [':'] == was + KeyText(Some(key))
    ensures |KeyText(Some(key))| == |key| + 3
  {}

  lemma NoPiece(was: string)
    ensures was + KeyText(None) == was && |KeyText(None)| == 0
  {}

  method WriteOpen(x: JsonItem, out: JsonString, ghost t: Tree)
    requires IsNode(t) && x.childType == ChildTypeOf(BracketOf(t))
    requires out.Valid() && out.len + |Open(BracketOf(t))| < out.jstring.Length
    modifies out, out.jstring
    ensures out.Valid() && out.Contents() == old(out.Contents()) + Open(BracketOf(t))
    ensures out.len == old(out.len) + |Open(BracketOf(t))|
  {
    match x.childType {
      case ObjChild => out.Add('{');
      case ArrChild => out.Add('[');
      case NullChild =>
    }
  }

  /** What follows a node: a comma, or the closing bracket of its father. */
  function Ending(kids: seq<Kid>, b: Bracket): string {
    if b.NoBracket? then "" else if |kids| > 1 then "," else Close(b)
  }

  method WriteEnding(x: JsonItem, out: JsonString, ghost kids: seq<Kid>, ghost b: Bracket)
    requires kids != [] && (x.next == null <==> |kids| == 1) && (x.father == null <==> b.NoBracket?)
    requires x.father != null ==> x.father.childType == ChildTypeOf(b)
    requires out.Valid() && out.len + |Ending(kids, b)| < out.jstring.Length
    modifies out, out.jstring
    ensures out.Valid() && out.Contents() == old(out.Contents()) + Ending(kids, b)
    ensures out.len == old(out.len) + |Ending(kids, b)|
  {
    if x.father != null {
      if x.next != null {
        out.Add(',');
      } else {
        match x.father.childType {
          case ObjChild => out.Add('}');
          case ArrChild => out.Add(']');
          case NullChild =>
        }
      }
    }
  }

  lemma {:induction false} ListUnfold(kids: seq<Kid>, b: Bracket, one: int)
    requires kids != [] && NoFloatKids(kids)
    ensures NoFloats(kids[0].t) && NoFloatKids(kids[1..])
    ensures ListText(kids, b, one) == NodeText(kids[0], one) + Ending(kids, b) + ListText(kids[1..], b, one)
  {
    hide NodeText;
  }

  lemma {:induction false} NodeUnfold(k: Kid, one: int)
    requires NoFloats(k.t)
    ensures !k.t.FloatTree? && (HasKids(k.t) ==> NoFloatKids(k.t.kids))
    ensures NodeText(k, one) == KeyText(k.key) + ScalarText(k.t, one)
            + (if HasKids(k.t) then Open(BracketOf(k.t)) + ListText(k.t.kids, BracketOf(k.t), one) else "")
  {
    hide ListText;
    hide ScalarText;
    hide KeyText;
  }

  lemma {:induction false} NodeFields(x: JsonItem, k: Kid, one: int)
    requires NodeOf(x, k, one)
    ensures x.key == k.key && (x.child == null <==> !HasKids(k.t)) && (HasKids(k.t) ==> IsNode(k.t) && k.t.kids != [])
    ensures IsNode(k.t) ==> x.childType == ChildTypeOf(BracketOf(k.t))
  {}

  lemma {:induction false} EmptyList(b: Bracket, one: int)
    ensures ListText([], b, one) == ""
  {}

  /** The part of the loop of json_to_string that writes one node and what is below it. */
  method WriteNode(x: JsonItem, out: JsonString, ghost items: seq<JsonItem>, ghost nodes: seq<Item>, ghost o: nat,
                   ghost kids: seq<Kid>, ghost father: Option<nat>, ghost b: Bracket, ghost one: int)
    requires Siblings(items, nodes, x, Some(o), kids, father, b, one) && kids != [] && NoFloats(kids[0].t)
    requires out.Valid() && out.len + |NodeText(kids[0], one)| < out.jstring.Length
    modifies out, out.jstring
    ensures out.Valid() && out.Contents() == old(out.Contents()) + NodeText(kids[0], one)
    ensures out.len == old(out.len) + |NodeText(kids[0], one)|
    decreases KidsSize(kids), 0
  {
    hide *;
    ghost var k := kids[0];
    SiblingFields(items, nodes, x, Some(o), kids, father, b, one);
    NodeUnfold(k, one);
    NodeFields(x, k, one);
    WriteKey(x, out);
    WriteScalar(x, out, k, one);
    if x.child != null {
      WriteOpen(x, out, k.t);
      WriteList(x.child, out, items, nodes, nodes[o].child, k.t.kids, Some(o), BracketOf(k.t), one);
      Joined(old(out.Contents()), KeyText(k.key), ScalarText(k.t, one), Open(BracketOf(k.t)),
             ListText(k.t.kids, BracketOf(k.t), one));
    } else {
      Joined(old(out.Contents()), KeyText(k.key), ScalarText(k.t, one), "", "");
    }
  }

  lemma {:induction false} Joined(s: string, a: string, b: string, c: string, d: string)
    ensures s + a + b + c + d == s + (a + b + (c + d))
    ensures s + a + b + "" == s + a + b && a + b + "" == a + b
    ensures s + a + b == s + (a + b)
  {}

  lemma {:induction false} Appended(done: string, n: string, e: string, r: string)
    ensures done + (n + e + r) == (done + n + e) + r
  {}

  /** json_to_string below the top level, without freeing the nodes. */
  method WriteList(head: JsonItem?, out: JsonString, ghost items: seq<JsonItem>, ghost nodes: seq<Item>,
                   ghost o: Option<nat>, ghost kids: seq<Kid>, ghost father: Option<nat>, ghost b: Bracket,
                   ghost one: int)
    requires Siblings(items, nodes, head, o, kids, father, b, one) && NoFloatKids(kids)
    requires out.Valid() && out.len + |ListText(kids, b, one)| < out.jstring.Length
    modifies out, out.jstring
    ensures out.Valid() && out.Contents() == old(out.Contents()) + ListText(kids, b, one)
    ensures out.len == old(out.len) + |ListText(kids, b, one)| && out.jstring[out.len] == '\0'
    decreases KidsSize(kids), 1
  {
    hide *;
    var x := head;
    ghost var before := out.Contents();
    ghost var at, rest, done := o, kids, "";
    Joined(before, "", "", "", "");
    Joined("", ListText(kids, b, one), "", "", "");
    while x != null
      invariant Siblings(items, nodes, x, at, rest, father, b, one) && KidsSize(rest) <= KidsSize(kids)
      invariant NoFloatKids(rest)
      invariant out.Valid() && done + ListText(rest, b, one) == ListText(kids, b, one)
      invariant out.Contents() == before + done && out.len == old(out.len) + |done|
      decreases KidsSize(rest)
    {
      NoSibling(items, nodes, x, at, rest, father, b, one);
      SiblingFields(items, nodes, x, at, rest, father, b, one);
      ListUnfold(rest, b, one);
      ghost var n, end := NodeText(rest[0], one), Ending(rest, b);
      Appended(done, n, end, ListText(rest[1..], b, one));
      Appended(before, done, n, end);
      WriteNode(x, out, items, nodes, at.value, rest, father, b, one);
      WriteEnding(x, out, rest, b);
      done := done + n + end;
      at, rest := nodes[at.value].next, rest[1..];
      x := x.next;
    }
    NoSibling(items, nodes, x, at, rest, father, b, one);
    EmptyList(b, one);
    Joined(done, "", "", "", "");
    out.Terminate();
  }

  /** json_to_string on a whole tree: the foreseen size is enough, and the text is that of the tree. */
  method ToString(head: JsonItem, ghost items: seq<JsonItem>, ghost nodes: seq<Item>, ghost o: nat, ghost t: Tree,
                  ghost one: int)
    returns (out: JsonString)
    requires ShowAll(items, nodes) && o < |items| && head == items[o]
    requires Rep(nodes, o, None, t, one) && nodes[o].father.None? && nodes[o].next.None?
    requires NoFloats(t) && Ints64(t) && (one == 0 || one == 1)
    ensures fresh(out) && fresh(out.jstring) && out.Valid()
    ensures out.Contents() == PrintText(t, one) && out.jstring[out.len] == '\0'
  {
    ghost var kids := [Kid(None, t)];
    RootList(items, nodes, head, o, t, one);
    hide *;
    TextFits(kids, NoBracket, one);
    var jsize := EvaluateStringSize(head, items, nodes, Some(o), kids, None, NoBracket, one);
    out := new JsonString(jsize * 2);
    out.Empty();
    WriteList(head, out, items, nodes, Some(o), kids, None, NoBracket, one);
    Joined("", PrintText(t, one), "", "", "");
  }

  lemma {:induction false} RootList(items: seq<JsonItem>, nodes: seq<Item>, head: JsonItem, o: nat, t: Tree, one: int)
    requires ShowAll(items, nodes) && o < |items| && head == items[o]
    requires Rep(nodes, o, None, t, one) && nodes[o].father.None? && nodes[o].next.None?
    requires NoFloats(t) && Ints64(t)
    ensures Siblings(items, nodes, head, Some(o), [Kid(None, t)], None, NoBracket, one)
    ensures NoFloatKids([Kid(None, t)]) && Ints64Kids([Kid(None, t)])
    ensures ListText([Kid(None, t)], NoBracket, one) == PrintText(t, one)
  {
    hide ShowAll;
    hide NodeText;
    ghost var kids := [Kid(None, t)];
    assert kids[1..] == [];
    assert PrintText(t, one) == NodeText(kids[0], one);
    assert RepKids(nodes, nodes[o].next, kids[1..], None, one);
    RepBound(nodes, o, None, t, one);
    assert |nodes| == |items| by { ShowsAt(items, nodes, o); }
    assert RepKids(nodes, Some(o), kids, None, one);
    assert NoFloatKids(kids);
    assert Points(items, head, Some(o));
    assert Siblings(items, nodes, head, Some(o), kids, None, NoBracket, one);
  }
}
