/** Domain names of deps/udns-0.0.9/udns_dn.c: labels, their wire form (section 3.1 of RFC 1035) and their text form
    (section 5.1 of RFC 1035). */
module DnsNames {
  import opened Bytes

  type Label = seq<Byte>

  const MAX_NAME := 255
  const MAX_LABEL := 63
  const MAX_TEXT := 1024
  const DOT: Byte := 46
  const BACKSLASH: Byte := 92
  const ZERO: Byte := 48

  /** The labels on the wire, without the byte that ends the name */
  function Prefixed(labels: seq<Label>): (w: seq<Byte>)
    requires Short(labels)
  {
    if labels == [] then [] else [|labels[0]|] + labels[0] + Prefixed(labels[1..])
  }

  function Wire(labels: seq<Label>): (w: seq<Byte>)
    requires Short(labels)
  {
    Prefixed(labels) + [0]
  }

  /** A length that fits in its byte and is not taken for the end of the name */
  ghost predicate Short(labels: seq<Label>) { forall i :: 0 <= i < |labels| ==> 1 <= |labels[i]| < 256 }

  ghost predicate GoodLabels(labels: seq<Label>) { forall i :: 0 <= i < |labels| ==> 1 <= |labels[i]| <= 63 }

  /** What section 2.3.4 of RFC 1035 allows */
  ghost predicate ValidName(labels: seq<Label>) { GoodLabels(labels) && |Wire(labels)| <= 255 }

  /** So much of a buffer is used for a name. */
  function Limit(dnsiz: nat): nat { if dnsiz >= MAX_NAME then MAX_NAME else dnsiz }

  /** The answer for a name that has no room: a larger buffer may do, or none will. */
  function Failed(dnsiz: nat): int { if dnsiz >= MAX_NAME then -1 else 0 }

  predicate Special(b: Byte) {
    b == DOT || b == BACKSLASH || b == 34 || b == 59 || b == 64 || b == 36
  }

  function Digits(b: Byte): seq<Byte> { [ZERO + b / 100, ZERO + b % 100 / 10, ZERO + b % 10] }

  function Escape(b: Byte): seq<Byte> {
    if Special(b) then [BACKSLASH, b]
    else if b <= 0x20 || b >= 0x7f then [BACKSLASH] + Digits(b)
    else [b]
  }

  /** The text of the first n bytes of a label */
  const SPECIAL: string := ".\\\";@$"

  /** A backslash before the six special characters, three decimal digits for what is not printed, and the others as
      they are */
  lemma EscapeIs(b: Byte)
    ensures (exists k :: 0 <= k < 6 && b as char == SPECIAL[k]) ==> Escape(b) == ['\\' as int, b]
    ensures 0x21 <= b <= 0x7e && (forall k :: 0 <= k < 6 ==> b as char != SPECIAL[k]) ==> Escape(b) == [b]
    ensures b < 0x21 || 0x7e < b ==>
              var e := Escape(b);
              && |e| == 4 && e[0] as char == '\\' && (forall i :: 1 <= i < 4 ==> '0' as int <= e[i] <= '9' as int)
              && 100 * (e[1] - '0' as int) + 10 * (e[2] - '0' as int) + (e[3] - '0' as int) == b
  {
    assert SPECIAL[0] == '.' && SPECIAL[1] == '\\' && SPECIAL[2] == '"';
    assert SPECIAL[3] == ';' && SPECIAL[4] == '@' && SPECIAL[5] == '$';
  }

  function LabelTextTo(lab: Label, n: nat): (t: seq<Byte>)
    requires n <= |lab|
  {
    if n == 0 then [] else LabelTextTo(lab, n - 1) + Escape(lab[n - 1])
  }

  function LabelText(lab: Label): seq<Byte> { LabelTextTo(lab, |lab|) }

  /** The text of the first k labels */
  function TextTo(labels: seq<Label>, k: nat): (t: seq<Byte>)
    requires k <= |labels|
  {
    if k == 0 then [] else TextTo(labels, k - 1) + (if k == 1 then [] else [DOT]) + LabelText(labels[k - 1])
  }

  function Text(labels: seq<Label>): seq<Byte> { TextTo(labels, |labels|) }

  // ----- sizes -----

  lemma {:induction false} PrefixedAppend(a: seq<Label>, b: seq<Label>)
    requires Short(a) && Short(b)
    ensures Prefixed(a + b) == Prefixed(a) + Prefixed(b)
  {
    if a == [] {
      assert a + b == b;
    } else {
      assert (a + b)[1..] == a[1..] + b;
      PrefixedAppend(a[1..], b);
    }
  }

  lemma PrefixedOne(labels: seq<Label>, l: Label)
    requires Short(labels) && 1 <= |l| < 256
    ensures Prefixed(labels + [l]) == Prefixed(labels) + [|l|] + l
  {
    PrefixedAppend(labels, [l]);
    assert Prefixed([l][1..]) == [];
  }

  lemma {:induction false} LabelTextBound(lab: Label, n: nat)
    requires n <= |lab|
    ensures n <= |LabelTextTo(lab, n)| <= 4 * n
  {
    if n > 0 {
      LabelTextBound(lab, n - 1);
    }
  }

  lemma {:induction false} TextBound(labels: seq<Label>, k: nat)
    requires Short(labels) && k <= |labels|
    ensures Short(labels[..k]) && |TextTo(labels, k)| <= 4 * |Prefixed(labels[..k])|
    ensures k > 0 ==> 0 < |TextTo(labels, k)| <= 4 * |Prefixed(labels[..k])| - 4
  {
    if k > 0 {
      TextBound(labels, k - 1);
      LabelTextBound(labels[k - 1], |labels[k - 1]|);
      hide LabelTextTo;
      hide Prefixed;
      assert labels[..k - 1] + [labels[k - 1]] == labels[..k];
      PrefixedOne(labels[..k - 1], labels[k - 1]);
    }
  }

  /** dns_dntop_size never gives up on a name that is valid. */
  lemma ValidTextFits(labels: seq<Label>)
    requires ValidName(labels)
    ensures |Text(labels)| + 1 <= 1024
  {
    TextBound(labels, |labels|);
    assert labels[..|labels|] == labels;
  }

  // ----- printing -----

  lemma LabelTextNext(lab: Label, n: nat)
    requires n < |lab|
    ensures LabelTextTo(lab, n + 1) == LabelTextTo(lab, n) + Escape(lab[n])
  {}

  lemma Assoc(a: seq<Byte>, b: seq<Byte>, c: seq<Byte>)
    ensures a + b + c == a + (b + c)
  {}

  lemma TextNext(labels: seq<Label>, k: nat)
    requires k < |labels|
    ensures TextTo(labels, k + 1) == TextTo(labels, k) + (if k == 0 then [] else [DOT]) + LabelText(labels[k])
  {}

  lemma {:induction false} LabelTextPrefix(lab: Label, n: nat, m: nat)
    requires n <= m <= |lab|
    ensures LabelTextTo(lab, n) <= LabelTextTo(lab, m)
    decreases m
  {
    if n < m {
      LabelTextPrefix(lab, n, m - 1);
    }
  }

  lemma {:induction false} TextPrefix(labels: seq<Label>, k: nat, m: nat)
    requires k <= m <= |labels|
    ensures TextTo(labels, k) <= TextTo(labels, m)
    decreases m
  {
    if k < m {
      TextPrefix(labels, k, m - 1);
    }
  }

  /** The label that stands at i */
  ghost predicate LabelAt(dn: seq<Byte>, i: nat, lab: Label) {
    lab != [] && i + 1 + |lab| <= |dn| && dn[i] == |lab| && dn[i + 1..i + 1 + |lab|] == lab
  }

  lemma LabelByte(dn: seq<Byte>, i: nat, lab: Label, n: nat)
    requires LabelAt(dn, i, lab) && n < |lab|
    ensures dn[i + 1 + n] == lab[n]
  {
    assert dn[i + 1..i + 1 + |lab|][n] == lab[n];
  }

  /** Where a label stands on the wire, and where the next one does */
  lemma {:induction false} AtLabel(dn: seq<Byte>, labels: seq<Label>, k: nat)
    requires Short(labels) && k <= |labels| && Wire(labels) <= dn
    ensures Short(labels[..k]) && |Prefixed(labels[..k])| < |dn|
    ensures var i := |Prefixed(labels[..k])|;
            if k == |labels| then dn[i] == 0
            else && Short(labels[..k + 1]) && LabelAt(dn, i, labels[k]) && dn[i] == |labels[k]| > 0
                 && |Prefixed(labels[..k + 1])| == i + 1 + |labels[k]|
  {
    assert labels == labels[..k] + labels[k..];
    PrefixedAppend(labels[..k], labels[k..]);
    var a := Prefixed(labels[..k]);
    if k == |labels| {
      assert Prefixed(labels[k..]) == [] && Wire(labels) == a + [0];
      hide Prefixed;
      assert dn[|a|] == Wire(labels)[|a|];
    } else {
      assert labels[k..][1..] == labels[k + 1..];
      assert labels[..k + 1] == labels[..k] + [labels[k]];
      PrefixedOne(labels[..k], labels[k]);
      var rest := Prefixed(labels[k + 1..]) + [0];
      assert Wire(labels) == a + ([|labels[k]|] + labels[k] + rest);
      LabelBetween(dn, a, labels[k], rest);
      hide Prefixed;
    }
  }

  lemma LabelBetween(dn: seq<Byte>, a: seq<Byte>, lab: Label, rest: seq<Byte>)
    requires 1 <= |lab| < 256 && a + ([|lab|] + lab + rest) <= dn
    ensures LabelAt(dn, |a|, lab)
  {
    var w := a + ([|lab|] + lab + rest);
    assert w[|a|] == |lab| && w[|a| + 1..|a| + 1 + |lab|] == lab;
    assert dn[..|w|] == w && dn[|a|] == w[|a|];
    assert dn[|a| + 1..|a| + 1 + |lab|] == dn[..|w|][|a| + 1..|a| + 1 + |lab|];
  }

  /** A walk over a name has come to label k, at i. */
  ghost predicate Standing(dn: seq<Byte>, labels: seq<Label>, k: nat, i: nat) {
    k <= |labels| && Short(labels[..k]) && i == |Prefixed(labels[..k])| < |dn|
  }

  lemma StandingFirst(dn: seq<Byte>, labels: seq<Label>)
    requires Short(labels) && Wire(labels) <= dn
    ensures Standing(dn, labels, 0, 0) && 0 < |dn|
  {}

  lemma StandingNext(dn: seq<Byte>, labels: seq<Label>, k: nat, i: nat)
    requires Short(labels) && Wire(labels) <= dn && Standing(dn, labels, k, i)
    ensures i < |dn| && k <= |labels| && (dn[i] == 0 <==> k == |labels|)
    ensures k < |labels| ==>
              LabelAt(dn, i, labels[k]) && Standing(dn, labels, k + 1, i + 1 + dn[i]) && i + 1 + dn[i] < |dn|
    ensures k == |labels| ==> i + 1 == |Wire(labels)|
  {
    AtLabel(dn, labels, k);
    if k < |labels| {
      AtLabel(dn, labels, k + 1);
    } else {
      assert labels[..k] == labels;
    }
  }

  /** So much of the text is in the buffer. */
  ghost predicate Written(name: array<Byte>, text: seq<Byte>)
    reads name
  {
    |text| <= name.Length && name[..|text|] == text
  }

  /** What dns_dntop does with one byte of a label */
  method PutByte(b: Byte, name: array<Byte>, np: nat, ghost text: seq<Byte>) returns (ok: bool, after: nat)
    requires np == |text| && Written(name, text)
    modifies name
    ensures ok <==> after != np
    ensures ok ==> Written(name, text + Escape(b)) && after == np + |Escape(b)|
    ensures !ok ==> np + |Escape(b)| >= name.Length
  {
    after := np;
    if Special(b) {
      if np + 2 > name.Length {
        return false, np;
      }
      name[np], name[np + 1] := BACKSLASH, b;
      after := np + 2;
    } else if b <= 0x20 || b >= 0x7f {
      if np + 4 >= name.Length {
        return false, np;
      }
      name[np] := BACKSLASH;
      name[np + 1] := ZERO + b / 100;
      name[np + 2] := ZERO + b % 100 / 10;
      name[np + 3] := ZERO + b % 10;
      after := np + 4;
    } else {
      if np >= name.Length {
        return false, np;
      }
      name[np] := b;
      after := np + 1;
    }
    ok := true;
  }

  /** One byte of a label in dns_dntop */
  method PutNextByte(dn: seq<Byte>, d: nat, ghost lab: Label, ghost n: nat, name: array<Byte>, np: nat,
                     ghost text: seq<Byte>)
    returns (ok: bool, after: nat)
    requires n < |lab| && d < |dn| && dn[d] == lab[n]
    requires np == |text| + |LabelTextTo(lab, n)| && Written(name, text + LabelTextTo(lab, n))
    modifies name
    ensures ok ==> after == |text| + |LabelTextTo(lab, n + 1)| && Written(name, text + LabelTextTo(lab, n + 1))
    ensures !ok ==> |text| + |LabelText(lab)| >= name.Length
  {
    LabelTextNext(lab, n);
    LabelTextPrefix(lab, n + 1, |lab|);
    assert LabelText(lab) == LabelTextTo(lab, |lab|);
    hide *;
    Assoc(text, LabelTextTo(lab, n), Escape(lab[n]));
    ok, after := PutByte(dn[d], name, np, text + LabelTextTo(lab, n));
  }

  /** One label of dns_dntop */
  method PutLabel(dn: seq<Byte>, i: nat, ghost lab: Label, name: array<Byte>, np: nat, ghost text: seq<Byte>)
    returns (ok: bool, after: nat)
    requires np == |text| && Written(name, text) && LabelAt(dn, i, lab)
    modifies name
    ensures ok ==> Written(name, text + LabelText(lab)) && after == np + |LabelText(lab)|
    ensures !ok ==> np + |LabelText(lab)| >= name.Length
  {
    var le := i + dn[i] + 1;
    var d := i + 1;
    ok, after := true, np;
    var more := true;
    ghost var n: nat := 0;
    assert LabelTextTo(lab, 0) == [] && le == i + 1 + |lab| <= |dn|;
    assert text + [] == text && LabelText(lab) == LabelTextTo(lab, |lab|) && lab != [];
    hide *;
    while more
      invariant n <= |lab| && d == i + 1 + n && (more <==> n < |lab|)
      invariant after == np + |LabelTextTo(lab, n)| && Written(name, text + LabelTextTo(lab, n))
      decreases |lab| - n
    {
      LabelByte(dn, i, lab, n);
      ok, after := PutNextByte(dn, d, lab, n, name, after, text);
      if !ok {
        return;
      }
      d := d + 1;
      n := n + 1;
      more := d < le;
    }
    ok := true;
  }

  function Refused(size: nat): int { if size >= MAX_TEXT then -1 else 0 }

  lemma RefusedIs(size: nat)
    ensures MAX_TEXT == 1024 && Refused(size) == if size >= 1024 then -1 else 0
  {}

  /** One turn of the loop of dns_dntop */
  method PutNext(dn: seq<Byte>, i: nat, ghost labels: seq<Label>, ghost k: nat, name: array<Byte>, np: nat)
    returns (ok: bool, after: nat)
    requires k < |labels| && LabelAt(dn, i, labels[k])
    requires Printed(name, labels, k, np)
    modifies name
    ensures ok ==> Printed(name, labels, k + 1, after)
    ensures !ok ==> |Text(labels)| >= name.Length
  {
    ghost var text := TextTo(labels, k);
    TextNext(labels, k);
    TextPrefix(labels, k + 1, |labels|);
    LabelTextBound(labels[k], |labels[k]|);
    hide Written;
    hide TextTo;
    hide LabelTextTo;
    hide LabelAt;
    after := np;
    if after != 0 {
      if after >= name.Length {
        return false, np;
      }
      Put(name, after, DOT, text);
      text := text + [DOT];
      after := after + 1;
    } else {
      assert text + [] == text;
    }
    ok, after := PutLabel(dn, i, labels[k], name, after, text);
  }

  /** The text of the first k labels is in the buffer. */
  ghost predicate Printed(name: array<Byte>, labels: seq<Label>, k: nat, np: nat)
    requires k <= |labels|
    reads name
  {
    np == |TextTo(labels, k)| && Written(name, TextTo(labels, k)) && (np == 0 <==> k == 0)
  }

  lemma PrintedFirst(name: array<Byte>, labels: seq<Label>)
    ensures Printed(name, labels, 0, 0)
  {}

  lemma PrintedLast(name: array<Byte>, labels: seq<Label>, np: nat)
    requires Printed(name, labels, |labels|, np)
    ensures np == |Text(labels)| && Written(name, Text(labels))
  {}

  /** dns_dntop: it prints the name if that and the zero at its end fit. */
  method DnToP(dn: seq<Byte>, name: array<Byte>, ghost labels: seq<Label>) returns (r: int)
    requires Short(labels) && Wire(labels) <= dn
    modifies name
    ensures if |Text(labels)| + 1 <= name.Length then r == |Text(labels)| + 1 && Written(name, Text(labels) + [0])
            else r == if name.Length >= 1024 then -1 else 0
  {
    RefusedIs(name.Length);
    hide *;
    var np: nat, i: nat := 0, 0;
    ghost var k: nat := 0;
    StandingFirst(dn, labels);
    PrintedFirst(name, labels);
    while dn[i] != 0
      invariant k <= |labels| && i < |dn| && Standing(dn, labels, k, i) && Printed(name, labels, k, np)
      decreases |labels| - k
    {
      StandingNext(dn, labels, k, i);
      var ok, after := PutNext(dn, i, labels, k, name, np);
      if !ok {
        return Refused(name.Length);
      }
      np := after;
      i := i + dn[i] + 1;
      k := k + 1;
    }
    StandingNext(dn, labels, k, i);
    PrintedLast(name, labels, np);
    if np >= name.Length {
      return Refused(name.Length);
    }
    Put(name, np, 0, Text(labels));
    return np + 1;
  }

  /** *np++ = b */
  method Put(name: array<Byte>, np: nat, b: Byte, ghost text: seq<Byte>)
    requires np == |text| && Written(name, text) && np < name.Length
    modifies name
    ensures Written(name, text + [b])
  {
    name[np] := b;
  }

  /** One byte of dns_dntop_size */
  method ByteSize(b: Byte) returns (size: nat)
    ensures size == |Escape(b)|
  {
    if Special(b) {
      size := 2;
    } else if b <= 0x20 || b >= 0x7f {
      size := 4;
    } else {
      size := 1;
    }
  }

  /** One label of dns_dntop_size */
  method LabelSize(dn: seq<Byte>, i: nat, ghost lab: Label) returns (size: nat)
    requires LabelAt(dn, i, lab)
    ensures size == |LabelText(lab)|
  {
    size := 0;
    var le := i + dn[i] + 1;
    var d := i + 1;
    ghost var n: nat := 0;
    var more := true;
    assert LabelTextTo(lab, 0) == [] && le == i + 1 + |lab| <= |dn|;
    hide Escape;
    hide LabelTextTo;
    hide LabelAt;
    while more
      invariant n <= |lab| && d == i + 1 + n && (more <==> n < |lab|)
      invariant size == |LabelTextTo(lab, n)|
      decreases |lab| - n
    {
      LabelByte(dn, i, lab, n);
      LabelTextNext(lab, n);
      var b := ByteSize(dn[d]);
      size := size + b;
      d := d + 1;
      n := n + 1;
      more := d < le;
    }
  }

  /** What dns_dntop_size has counted for the first k labels */
  ghost predicate Counted(labels: seq<Label>, k: nat, size: nat)
    requires k <= |labels|
  {
    size == |TextTo(labels, k)| && (size == 0 <==> k == 0)
  }

  lemma CountedNext(dn: seq<Byte>, i: nat, labels: seq<Label>, k: nat, size: nat)
    requires k < |labels| && LabelAt(dn, i, labels[k]) && Counted(labels, k, size)
    ensures Counted(labels, k + 1, size + (if size == 0 then 0 else 1) + |LabelText(labels[k])|)
  {
    TextNext(labels, k);
    LabelTextBound(labels[k], |labels[k]|);
    hide TextTo;
    hide LabelTextTo;
  }

  lemma CountedEnds(labels: seq<Label>)
    ensures Counted(labels, 0, 0) && forall size: nat :: Counted(labels, |labels|, size) ==> size == |Text(labels)|
  {}

  /** dns_dntop_size */
  method DnToPSize(dn: seq<Byte>, ghost labels: seq<Label>) returns (size: nat)
    requires Short(labels) && Wire(labels) <= dn
    ensures size == if |Text(labels)| + 1 > 1024 then 0 else |Text(labels)| + 1
  {
    hide *;
    size := 0;
    var i: nat := 0;
    ghost var k: nat := 0;
    StandingFirst(dn, labels);
    CountedEnds(labels);
    while dn[i] != 0
      invariant k <= |labels| && i < |dn| && Standing(dn, labels, k, i) && Counted(labels, k, size)
      decreases |labels| - k
    {
      StandingNext(dn, labels, k, i);
      CountedNext(dn, i, labels, k, size);
      if size != 0 {
        size := size + 1;
      }
      var more := LabelSize(dn, i, labels[k]);
      size := size + more;
      i := i + dn[i] + 1;
      k := k + 1;
    }
    StandingNext(dn, labels, k, i);
    size := size + 1;
    RefusedIs(size);
    if size > MAX_TEXT {
      size := 0;
    }
  }

  /** dns_dnlen */
  method DnLen(dn: seq<Byte>, ghost labels: seq<Label>) returns (n: nat)
    requires Short(labels) && Wire(labels) <= dn
    ensures n == |Wire(labels)|
  {
    hide *;
    var i: nat := 0;
    ghost var k: nat := 0;
    StandingFirst(dn, labels);
    while dn[i] != 0
      invariant k <= |labels| && i < |dn| && Standing(dn, labels, k, i)
      decreases |labels| - k
    {
      StandingNext(dn, labels, k, i);
      i := i + 1 + dn[i];
      k := k + 1;
    }
    StandingNext(dn, labels, k, i);
    return i + 1;
  }
}
