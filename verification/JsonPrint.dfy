/** What json_to_string of src/json.c writes, as a function of the tree, and what the parser makes of it. */
module JsonPrint {
  import opened Options
  import opened JsonTable
  import opened JsonGrammar
  import opened JsonLayout
  import opened JsonSound

  // ----- numbers -----

  function DigitChar(d: nat): (c: char)
    requires d < 10
    ensures IsDigit(c) && DigitValue(c) == d
  {
    ('0' as int + d) as char
  }

  /** The digits that itos writes: none for zero. */
  function DigitsOf(n: nat): string { if n == 0 then [] else DigitsOf(n / 10) + [DigitChar(n % 10)] }

  function Decimal(n: int): string { if n < 0 then "-" + DigitsOf(-n) else DigitsOf(n) }

  lemma {:induction false} NaturalSnoc(ds: string, c: char)
    ensures Natural(ds + [c]) == 10 * Natural(ds) + DigitValue(c)
  {
    assert (ds + [c])[..|ds|] == ds;
  }

  lemma {:induction false} DigitsValue(n: nat)
    ensures Digits(DigitsOf(n)) && Natural(DigitsOf(n)) == n
    ensures n > 0 ==> DigitsOf(n) != [] && DigitsOf(n)[0] != '0'
  {
    if n > 0 {
      DigitsValue(n / 10);
      hide DigitChar;
      NaturalSnoc(DigitsOf(n / 10), DigitChar(n % 10));
      hide Natural;
    }
  }

  /** n has at most k digits. */
  lemma {:induction false} DigitsLength(n: nat, k: nat)
    requires n < Power10(k)
    ensures |DigitsOf(n)| <= k
    decreases k
  {
    if n > 0 { DigitsLength(n / 10, k - 1); }
  }

  function Power10(k: nat): nat { if k == 0 then 1 else 10 * Power10(k - 1) }

  // ----- strings -----

  /** escape_json_string on one character */
  function EscapeChar(c: char): string {
    if c == '"' then "\\\"" else if c == '\\' then "\\\\" else if c == '\n' then "\\n"
    else if c == '\U{0008}' then "\\b" else if c == '\t' then "\\t" else if c == '\U{000C}' then "\\f"
    else if c == '\r' then "\\r" else if c == '\'' then "\\'" else [c]
  }

  function Escaped(s: string): (r: string)
    ensures |s| <= |r| <= 2 * |s|
  {
    if s == [] then [] else Escaped(s[..|s| - 1]) + EscapeChar(s[|s| - 1])
  }

  // ----- trees -----

  /** The text of a value without its children. The node of true holds the number `one`. */
  function ScalarText(t: Tree, one: int): string
    requires !t.FloatTree?
  {
    match t
    case StrTree(s) => "\"" + Escaped(s) + "\""
    case IntTree(n) => if n != 0 then Decimal(n) else "0"
    case TrueTree => if one != 0 then Decimal(one) else "true"
    case FalseTree => "false"
    case NullTree => "null"
    case ArrTree(kids) => if kids == [] then "0" else ""
    case ObjTree(kids) => if kids == [] then "0" else ""
  }

  function KeyText(key: Option<string>): string { if key.Some? then "\"" + key.value + "\":" else "" }

  predicate NoFloats(t: Tree)
    decreases t
  {
    !t.FloatTree? && (IsNode(t) ==> NoFloatKids(t.kids))
  }

  predicate NoFloatKids(kids: seq<Kid>)
    decreases kids
  {
    kids == [] || (assert kids[0].t < kids[0]; NoFloats(kids[0].t) && NoFloatKids(kids[1..]))
  }

  datatype Bracket = Square | Curly | NoBracket

  function BracketOf(t: Tree): Bracket { if t.ArrTree? then Square else if t.ObjTree? then Curly else NoBracket }

  function Open(b: Bracket): string { match b case Square => "[" case Curly => "{" case NoBracket => "" }

  function Close(b: Bracket): string { match b case Square => "]" case Curly => "}" case NoBracket => "" }

  /** A node with its key and everything below it. */
  function NodeText(k: Kid, one: int): string
    requires NoFloats(k.t)
    decreases k.t, 1
  {
    KeyText(k.key) + ScalarText(k.t, one)
    + (if IsNode(k.t) && k.t.kids != [] then Open(BracketOf(k.t)) + ListText(k.t.kids, BracketOf(k.t), one) else "")
  }

  /** A list of siblings; the last one writes the closing bracket of its father. */
  function ListText(kids: seq<Kid>, b: Bracket, one: int): string
    requires NoFloatKids(kids)
    decreases kids, 0
  {
    if kids == [] then ""
    else
      assert kids[0].t < kids[0];
      NodeText(kids[0], one)
      + (if b.NoBracket? then "" else if |kids| > 1 then "," else Close(b))
      + ListText(kids[1..], b, one)
  }

  /** The text of a whole tree. */
  function PrintText(t: Tree, one: int): string
    requires NoFloats(t)
  {
    NodeText(Kid(None, t), one)
  }

  // ----- the size that json_evaluate_string_size foresees -----

  function SizeOf(kids: seq<Kid>): (n: nat)
    decreases kids
  {
    if kids == [] then 2
    else
      assert kids[0].t < kids[0];
      SizeOfNode(kids[0]) + SizeOf(kids[1..])
  }

  function SizeOfNode(k: Kid): nat
    decreases k.t
  {
    (if k.key.Some? then |k.key.value| + 3 else 0)
    + (if k.t.StrTree? then |k.t.s| + 3 else if IsNode(k.t) && k.t.kids != [] then SizeOf(k.t.kids) else 16)
  }

  /** Integers fit in 64 bits. */
  predicate Fits64(n: int) { -0x8000_0000_0000_0000 < n < 0x8000_0000_0000_0000 }

  predicate Ints64(t: Tree)
    decreases t
  {
    (t.IntTree? ==> Fits64(t.n)) && (IsNode(t) ==> Ints64Kids(t.kids))
  }

  predicate Ints64Kids(kids: seq<Kid>)
    decreases kids
  {
    kids == [] || (assert kids[0].t < kids[0]; Ints64(kids[0].t) && Ints64Kids(kids[1..]))
  }

  lemma {:induction false} DecimalLength(n: int)
    requires Fits64(n)
    ensures |Decimal(n)| <= 20
  {
    assert Power10(19) == 10_000_000_000_000_000_000 by {
      assert Power10(4) == 10_000;
      assert Power10(8) == 100_000_000;
      assert Power10(12) == 1_000_000_000_000;
      assert Power10(16) == 10_000_000_000_000_000;
    }
    DigitsLength(if n < 0 then -n else n, 19);
  }

  lemma {:induction false} ScalarFits(k: Kid, one: int)
    requires NoFloats(k.t) && Ints64(k.t) && (one == 0 || one == 1)
    ensures |KeyText(k.key)| <= 2 * if k.key.Some? then |k.key.value| + 3 else 0
    ensures if IsNode(k.t) && k.t.kids != [] then ScalarText(k.t, one) == ""
            else |ScalarText(k.t, one)| + 1 <= 2 * if k.t.StrTree? then |k.t.s| + 3 else 16
  {
    if k.t.IntTree? { DecimalLength(k.t.n); }
    DecimalLength(one);
    hide Decimal;
    hide Escaped;
    hide NoFloats;
    hide Ints64;
  }

  /** Twice the foreseen size is always enough. */
  lemma {:induction false} TextFits(kids: seq<Kid>, b: Bracket, one: int)
    requires NoFloatKids(kids) && Ints64Kids(kids) && (one == 0 || one == 1)
    ensures |ListText(kids, b, one)| + 2 <= 2 * SizeOf(kids)
    decreases kids
  {
    if kids != [] {
      var k := kids[0];
      assert k.t < k;
      hide ScalarText;
      hide KeyText;
      NodeFits(k, one);
      hide NodeText;
      hide SizeOfNode;
      TextFits(kids[1..], b, one);
    }
  }

  lemma {:induction false} NodeFits(k: Kid, one: int)
    requires NoFloats(k.t) && Ints64(k.t) && (one == 0 || one == 1)
    ensures |NodeText(k, one)| + 1 <= 2 * SizeOfNode(k)
    decreases k.t
  {
    ScalarFits(k, one);
    if IsNode(k.t) && k.t.kids != [] {
      TextFits(k.t.kids, BracketOf(k.t), one);
    }
    hide ScalarText;
    hide KeyText;
    hide ListText;
    hide SizeOf;
  }
}
