/** Reading a domain name from text: dns_ptodn of deps/udns-0.0.9/udns_dn.c, and its round trip with dns_dntop. */
module DnsTexts {
  import opened Bytes
  import opened Options
  import opened DnsNames

  datatype Piece = Dot | Char(b: Byte)

  predicate Digit(b: Byte) { ZERO <= b <= 57 }

  /** The number after a backslash: up to three digits */
  function EscapedNumber(t: seq<Byte>, i: nat): (r: Option<(Byte, nat)>)
    requires i < |t| && Digit(t[i])
    ensures r.Some? ==> i < r.value.1 <= |t|
  {
    var c := t[i] - ZERO;
    if i + 1 == |t| || !Digit(t[i + 1]) then Some((c, i + 1))
    else
      var d := c * 10 + t[i + 1] - ZERO;
      if i + 2 == |t| || !Digit(t[i + 2]) then Some((d, i + 2))
      else
        var e := d * 10 + t[i + 2] - ZERO;
        if e > 255 then None else Some((e, i + 3))
  }

  /** What comes at i, and where it ends */
  function First(t: seq<Byte>, i: nat): (r: Option<(Piece, nat)>)
    requires i < |t|
    ensures r.Some? ==> i < r.value.1 <= |t|
  {
    if t[i] == DOT then Some((Dot, i + 1))
    else if t[i] != BACKSLASH then Some((Char(t[i]), i + 1))
    else if i + 1 == |t| then None
    else if !Digit(t[i + 1]) then Some((Char(t[i + 1]), i + 2))
    else match EscapedNumber(t, i + 1)
         case None => None
         case Some(d) => Some((Char(d.0), d.1))
  }

  function Before(p: Piece, s: seq<Label>): (r: seq<Label>)
    requires s != []
    ensures r != []
  {
    match p
    case Dot => [[]] + s
    case Char(b) => [[b] + s[0]] + s[1..]
  }

  /** What stands between the dots from i on, if every escape is good */
  function Segments(t: seq<Byte>, i: nat): (r: Option<seq<Label>>)
    requires i <= |t|
    ensures r.Some? ==> r.value != []
    decreases |t| - i
  {
    if i == |t| then Some([[]])
    else match First(t, i)
         case None => None
         case Some(f) =>
           match Segments(t, f.1)
           case None => None
           case Some(s) => Some(Before(f.0, s))
  }

  ghost function Last(s: Option<seq<Label>>): Label {
    if s.Some? && s.value != [] then s.value[|s.value| - 1] else []
  }

  /** A dot at the end says that the name is absolute, and adds no label. */
  function Body(s: seq<Label>): seq<Label>
    requires s != []
  {
    if s[|s| - 1] == [] then s[..|s| - 1] else s
  }

  /** The name that a text stands for: a dot alone, and nothing at all, is the root. */
  ghost function Meaning(t: seq<Byte>): (r: Option<seq<Label>>)
    ensures r.Some? ==> GoodLabels(r.value) && Short(r.value)
  {
    match Segments(t, 0)
    case None => None
    case Some(s) =>
      if t == [DOT] then Some([])
      else if GoodLabels(Body(s)) then Some(Body(s))
      else None
  }

  // ----- what has been read -----

  function With(read: seq<Label>, cur: Label, rest: Option<seq<Label>>): Option<seq<Label>>
    requires rest.Some? ==> rest.value != []
  {
    match rest
    case None => None
    case Some(s) => Some(read + [cur + s[0]] + s[1..])
  }

  /** Labels that have been read, a label that is being read, and what comes at i */
  ghost predicate Reading(t: seq<Byte>, i: nat, read: seq<Label>, cur: Label) {
    && i <= |t| && GoodLabels(read) && (read == [] && cur == [] ==> i == 0)
    && Segments(t, 0) == With(read, cur, Segments(t, i))
  }

  lemma ReadingNone(t: seq<Byte>, read: seq<Label>, cur: Label)
    requires Reading(t, 0, read, cur) && |t| == 1 && t[0] == DOT
    ensures read == [] && cur == [] && t == [DOT]
  {
    assert Segments(t, 1) == Some([[]]) && First(t, 0) == Some((Dot, 1));
    var s := Segments(t, 0).value;
    assert |s| == 2 && s[0] == [] && s[1] == [];
    assert |read + [cur + s[0]] + s[1..]| == |read| + 2;
    assert (read + [cur + s[0]] + s[1..])[0] == cur;
  }

  lemma ReadingFirst(t: seq<Byte>)
    ensures Reading(t, 0, [], [])
  {
    if Segments(t, 0).Some? {
      var s := Segments(t, 0).value;
      assert [] + s[0] == s[0] && [] + [s[0]] + s[1..] == s;
    }
  }

  lemma ReadingChar(t: seq<Byte>, i: nat, read: seq<Label>, cur: Label)
    requires Reading(t, i, read, cur) && i < |t| && First(t, i).Some? && First(t, i).value.0.Char?
    ensures Reading(t, First(t, i).value.1, read, cur + [First(t, i).value.0.b])
  {
    var f := First(t, i).value;
    match Segments(t, f.1)
    case None =>
    case Some(s) =>
      assert cur + ([f.0.b] + s[0]) == cur + [f.0.b] + s[0];
  }

  lemma WithDot(read: seq<Label>, cur: Label, s: seq<Label>)
    requires s != []
    ensures With(read, cur, Some(Before(Dot, s))) == With(read + [cur], [], Some(s))
  {
    assert ([[]] + s)[1..] == s && cur + [] == cur && [] + s[0] == s[0];
    assert read + [cur] + s == read + [cur] + [s[0]] + s[1..];
  }

  lemma ReadingDot(t: seq<Byte>, i: nat, read: seq<Label>, cur: Label)
    requires Reading(t, i, read, cur) && i < |t| && t[i] == DOT && 1 <= |cur| <= MAX_LABEL
    ensures Reading(t, i + 1, read + [cur], [])
  {
    DotRead(t, i);
    if Segments(t, i + 1).Some? {
      WithDot(read, cur, Segments(t, i + 1).value);
    }
    hide Before;
    hide First;
  }

  /** A label before a dot that is empty or too long spoils the text, if the text is not a dot alone. */
  lemma BadLabel(t: seq<Byte>, i: nat, read: seq<Label>, cur: Label)
    requires Reading(t, i, read, cur) && i < |t| && t[i] == DOT && t != [DOT] && !(1 <= |cur| <= MAX_LABEL)
    ensures Meaning(t) == None
  {
    if Segments(t, 0).Some? {
      var s := Segments(t, 0).value;
      assert s[|read|] == cur && |read| + 1 < |s|;
      assert Body(s)[|read|] == cur;
    }
  }

  lemma TooLong(t: seq<Byte>, read: seq<Label>, cur: Label)
    requires Reading(t, |t|, read, cur) && |cur| > MAX_LABEL
    ensures Meaning(t) == None
  {
    assert Segments(t, 0).value[|read|] == cur && Body(Segments(t, 0).value)[|read|] == cur;
  }

  lemma BadEscape(t: seq<Byte>, i: nat, read: seq<Label>, cur: Label)
    requires Reading(t, i, read, cur) && i < |t| && First(t, i) == None
    ensures Meaning(t) == None
  {}

  /** All has been read. */
  lemma ReadingLast(t: seq<Byte>, read: seq<Label>, cur: Label)
    requires Reading(t, |t|, read, cur) && |cur| <= MAX_LABEL
    ensures Segments(t, 0) == Some(read + [cur])
    ensures Meaning(t) == Some(if cur == [] then read else read + [cur])
  {
    assert cur + [] == cur;
    assert read + [cur] + [[]][1..] == read + [cur];
    assert (read + [cur])[..|read|] == read;
  }

  /** When one more byte comes, the name is longer than the labels, that byte and the zero at the end. */
  lemma NoRoom(t: seq<Byte>, i: nat, read: seq<Label>, cur: Label)
    requires Reading(t, i, read, cur) && i < |t| && t[i] != DOT
    requires Meaning(t).Some?
    ensures Short(read) && |Wire(Meaning(t).value)| >= |Prefixed(read)| + |cur| + 3
  {
    var s := Segments(t, i).value;
    var m := Meaning(t).value;
    var l := cur + s[0];
    assert s[0] != [];
    assert m[..|read|] == read && m[|read|] == l;
    assert m == read + [l] + m[|read| + 1..];
    PrefixedAppend(read + [l], m[|read| + 1..]);
    PrefixedOne(read, l);
  }

  // ----- the buffer -----

  ghost predicate Filled(dn: array<Byte>, read: seq<Label>, cur: Label, llab: nat, dp: nat)
    reads dn
  {
    && Short(read) && llab == |Prefixed(read)| + 1 && dp == llab + |cur| && dp <= Limit(dn.Length)
    && (cur != [] ==> dp < Limit(dn.Length))
    && dn[..llab - 1] == Prefixed(read) && dn[llab..dp] == cur
  }

  /** *dp++ = b */
  method AddByte(dn: array<Byte>, ghost read: seq<Label>, ghost cur: Label, llab: nat, dp: nat, b: Byte)
    requires Filled(dn, read, cur, llab, dp) && dp + 1 < Limit(dn.Length)
    modifies dn
    ensures Filled(dn, read, cur + [b], llab, dp + 1)
  {
    dn[dp] := b;
    assert dn[llab..dp + 1] == dn[llab..dp] + [b];
  }

  /** llab[-1] = c */
  method SetLength(dn: array<Byte>, ghost read: seq<Label>, ghost cur: Label, llab: nat, dp: nat)
    requires Filled(dn, read, cur, llab, dp) && |cur| <= MAX_LABEL
    modifies dn
    ensures dn[..dp] == Prefixed(read) + [|cur|] + cur
    ensures cur != [] ==> Filled(dn, read + [cur], [], dp + 1, dp + 1)
    ensures cur == [] ==> dn[..dp] == Wire(read)
  {
    dn[llab - 1] := dp - llab;
    assert dn[..dp] == dn[..llab - 1] + [dn[llab - 1]] + dn[llab..dp];
    if cur != [] {
      PrefixedOne(read, cur);
    }
  }

  predicate IsDigit(b: Byte) { '0' as int <= b <= '9' as int }

  /** Where a piece of the text ends, and what it stands for: one, two or three digits after a backslash are a decimal
      number, which is at most 255. */
  lemma FirstIs(t: seq<Byte>, i: nat)
    requires i < |t|
    ensures t[i] as char == '.' ==> First(t, i) == Some((Dot, i + 1))
    ensures t[i] as char != '.' && t[i] as char != '\\' ==> First(t, i) == Some((Char(t[i]), i + 1))
    ensures t[i] as char == '\\' && i + 1 == |t| ==> First(t, i) == None
    ensures t[i] as char == '\\' && i + 1 < |t| && !IsDigit(t[i + 1]) ==>
              First(t, i) == Some((Char(t[i + 1]), i + 2))
    ensures t[i] as char == '\\' && i + 1 < |t| && IsDigit(t[i + 1]) && !(i + 2 < |t| && IsDigit(t[i + 2])) ==>
              First(t, i) == Some((Char(t[i + 1] - '0' as int), i + 2))
    ensures t[i] as char == '\\' && i + 2 < |t| && IsDigit(t[i + 1]) && IsDigit(t[i + 2]) &&
            !(i + 3 < |t| && IsDigit(t[i + 3])) ==>
              First(t, i) == Some((Char(10 * (t[i + 1] - '0' as int) + (t[i + 2] - '0' as int)), i + 3))
    ensures t[i] as char == '\\' && i + 3 < |t| && IsDigit(t[i + 1]) && IsDigit(t[i + 2]) && IsDigit(t[i + 3]) ==>
              var n := 100 * (t[i + 1] - '0' as int) + 10 * (t[i + 2] - '0' as int) + (t[i + 3] - '0' as int);
              First(t, i) == if n <= 255 then Some((Char(n), i + 4)) else None
  {}

  /** The byte that dns_ptodn takes at np, when there is no dot */
  method TakeByte(t: seq<Byte>, np: nat) returns (ok: bool, b: Byte, after: nat)
    requires np < |t| && t[np] != DOT
    ensures ok <==> First(t, np).Some?
    ensures ok ==> First(t, np) == Some((Char(b), after))
  {
    if t[np] != BACKSLASH {
      return true, t[np], np + 1;
    }
    after := np + 1;
    if after == |t| {
      return false, 0, after;
    }
    if !Digit(t[after]) {
      return true, t[after], after + 1;
    }
    var c: nat := t[after] - ZERO;
    after := after + 1;
    if after < |t| && Digit(t[after]) {
      c := c * 10 + t[after] - ZERO;
      after := after + 1;
      if after < |t| && Digit(t[after]) {
        c := c * 10 + t[after] - ZERO;
        after := after + 1;
        if c > 255 {
          return false, 0, after;
        }
      }
    }
    return true, c, after;
  }

  /** What dns_ptodn answers for a text and a buffer */
  ghost predicate Answer(t: seq<Byte>, dnsiz: nat, r: int) {
    match Meaning(t)
    case None => r == -1 || (r == 0 && dnsiz < 255)
    case Some(labels) =>
      if |Wire(labels)| <= dnsiz && |Wire(labels)| <= 255 then r == |Wire(labels)|
      else r == if dnsiz >= 255 then -1 else 0
  }

  lemma Root()
    ensures Segments([DOT], 0) == Some([[], []]) && Meaning([DOT]) == Some([])
  {
    var s: seq<Label> := [[]];
    assert Segments([DOT], 1) == Some(s) && First([DOT], 0) == Some((Dot, 1));
    assert [[]] + s == [[], []];
  }

  lemma FilledIs(dn: array<Byte>, read: seq<Label>, cur: Label, llab: nat, dp: nat)
    requires Filled(dn, read, cur, llab, dp)
    ensures dp == llab + |cur| && dp <= Limit(dn.Length) && (cur != [] ==> dp < Limit(dn.Length))
    ensures Short(read) && dp == |Prefixed(read)| + |cur| + 1
  {}

  /** What dns_ptodn does at a dot */
  method TakeDot(t: seq<Byte>, dn: array<Byte>, np: nat, ghost read: seq<Label>, ghost cur: Label, llab: nat, dp: nat)
    returns (ok: bool)
    requires np < |t| && t[np] == DOT && t != [DOT] && Reading(t, np, read, cur) && Filled(dn, read, cur, llab, dp)
    modifies dn
    ensures ok ==> Reading(t, np + 1, read + [cur], []) && Filled(dn, read + [cur], [], dp + 1, dp + 1)
    ensures !ok ==> Meaning(t) == None
  {
    FilledIs(dn, read, cur, llab, dp);
    hide *;
    var c := dp - llab;
    if c == 0 || c > MAX_LABEL {
      BadLabel(t, np, read, cur);
      return false;
    }
    SetLength(dn, read, cur, llab, dp);
    ReadingDot(t, np, read, cur);
    return true;
  }

  /** What dns_ptodn does with another byte */
  method TakeOther(t: seq<Byte>, dn: array<Byte>, np: nat, ghost read: seq<Label>, ghost cur: Label, llab: nat, dp: nat)
    returns (r: Option<(Byte, nat)>, failed: int)
    requires np < |t| && t[np] != DOT && Reading(t, np, read, cur) && Filled(dn, read, cur, llab, dp) && dn.Length > 0
    modifies dn
    ensures match r
            case None => Answer(t, dn.Length, failed) && failed <= 0
            case Some(f) =>
              && np < f.1 <= |t| && Reading(t, f.1, read, cur + [f.0])
              && Filled(dn, read, cur + [f.0], llab, dp + 1)
  {
    FilledIs(dn, read, cur, llab, dp);
    hide Reading;
    hide Filled;
    hide Meaning;
    hide First;
    if dp >= Limit(dn.Length) - 1 {
      if Meaning(t).Some? {
        NoRoom(t, np, read, cur);
      }
      return None, Failed(dn.Length);
    }
    var ok, b, after := TakeByte(t, np);
    if !ok {
      BadEscape(t, np, read, cur);
      return None, -1;
    }
    AddByte(dn, read, cur, llab, dp, b);
    ReadingChar(t, np, read, cur);
    return Some((b, after)), 0;
  }

  /** What dns_ptodn does at the end of the text */
  method Close(dn: array<Byte>, ghost read: seq<Label>, ghost cur: Label, llab: nat, dp: nat) returns (r: nat)
    requires Filled(dn, read, cur, llab, dp) && |cur| <= MAX_LABEL
    modifies dn
    ensures Short(read) && cur == [] ==> r <= Limit(dn.Length) && r > 0 && dn[..r] == Wire(read) && r == |Wire(read)|
    ensures Short(read) && cur != [] ==>
              r <= Limit(dn.Length) && r > 0 && dn[..r] == Wire(read + [cur]) && r == |Wire(read + [cur])|
  {
    FilledIs(dn, read, cur, llab, dp);
    SetLength(dn, read, cur, llab, dp);
    r := dp;
    if dp != llab {
      PrefixedOne(read, cur);
      dn[dp] := 0;
      r := dp + 1;
      assert dn[..r] == dn[..dp] + [0];
    }
  }

  lemma NeverEmpty(t: seq<Byte>)
    ensures Answer(t, 0, 0)
  {}

  lemma NoName(t: seq<Byte>, dnsiz: nat)
    requires Meaning(t) == None
    ensures Answer(t, dnsiz, -1)
  {}

  lemma Fits(t: seq<Byte>, dnsiz: nat, r: nat)
    requires Meaning(t).Some? && |Wire(Meaning(t).value)| == r <= Limit(dnsiz)
    ensures Answer(t, dnsiz, r) && ValidName(Meaning(t).value)
  {}

  /** The end of dns_ptodn, after all of the text or after the dot of the root */
  method Finish(t: seq<Byte>, dn: array<Byte>, ghost read: seq<Label>, ghost cur: Label, llab: nat, dp: nat)
    returns (r: int, isabs: bool)
    requires Filled(dn, read, cur, llab, dp)
    requires Reading(t, |t|, read, cur) || (t == [DOT] && read == [] && cur == [])
    modifies dn
    ensures Answer(t, dn.Length, r)
    ensures r > 0 ==> ValidName(Meaning(t).value) && dn[..r] == Wire(Meaning(t).value)
    ensures r > 0 ==> (isabs <==> Last(Segments(t, 0)) == [])
  {
    FilledIs(dn, read, cur, llab, dp);
    if dp - llab > MAX_LABEL {
      TooLong(t, read, cur);
      NoName(t, dn.Length);
      return -1, false;
    }
    if t == [DOT] {
      Root();
    }
    if Reading(t, |t|, read, cur) {
      ReadingLast(t, read, cur);
    }
    assert cur == [] ==> Meaning(t) == Some(read) && Last(Segments(t, 0)) == [];
    assert cur != [] ==> Meaning(t) == Some(read + [cur]) && Last(Segments(t, 0)) == cur;
    hide *;
    isabs := dp == llab;
    r := Close(dn, read, cur, llab, dp);
    Fits(t, dn.Length, r);
  }

  /** dns_ptodn: the wire form of the name, if the text stands for one that fits. */
  method PToDn(t: seq<Byte>, dn: array<Byte>) returns (r: int, isabs: bool)
    modifies dn
    ensures Answer(t, dn.Length, r)
    ensures r > 0 ==> ValidName(Meaning(t).value) && dn[..r] == Wire(Meaning(t).value)
    ensures r > 0 ==> (isabs <==> Last(Segments(t, 0)) == [])
  {
    isabs := false;
    if dn.Length == 0 {
      NeverEmpty(t);
      return 0, false;
    }
    var np: nat, llab: nat, dp: nat := 0, 1, 1;
    ghost var read: seq<Label>, cur: Label := [], [];
    ReadingFirst(t);
    hide *;
    while np < |t|
      invariant np <= |t| && Reading(t, np, read, cur) && Filled(dn, read, cur, llab, dp)
      invariant t == [DOT] ==> np == 0
      decreases |t| - np
    {
      if t[np] == DOT {
        if np == 0 && np + 1 == |t| {
          ReadingNone(t, read, cur);
          break;
        }
        var ok := TakeDot(t, dn, np, read, cur, llab, dp);
        if !ok {
          NoName(t, dn.Length);
          return -1, false;
        }
        dp := dp + 1;
        llab := dp;
        read, cur := read + [cur], [];
        np := np + 1;
      } else {
        var next, failed := TakeOther(t, dn, np, read, cur, llab, dp);
        match next
        case None =>
          return failed, false;
        case Some(f) =>
          cur := cur + [f.0];
          dp := dp + 1;
          np := f.1;
      }
    }
    r, isabs := Finish(t, dn, read, cur, llab, dp);
  }

  // ----- the round trip -----

  lemma EscapeRead(t: seq<Byte>, i: nat, b: Byte)
    requires EscapeAt(t, i, b)
    ensures First(t, i) == Some((Char(b), i + |Escape(b)|))
  {
    forall j | 0 <= j < |Escape(b)| ensures t[i + j] == Escape(b)[j] {
      assert t[i..i + |Escape(b)|][j] == t[i + j];
    }
    assert t[i] == Escape(b)[0];
    if Special(b) || b <= 0x20 || b >= 0x7f {
      assert t[i + 1] == Escape(b)[1];
      if !Special(b) {
        assert t[i + 2] == Escape(b)[2] && t[i + 3] == Escape(b)[3];
      }
    }
  }

  /** What comes before the text of label k */
  ghost function Head(labels: seq<Label>, k: nat): seq<Byte>
    requires k < |labels|
  {
    TextTo(labels, k) + if k == 0 then [] else [DOT]
  }

  /** Where the text of byte n of label k starts */
  ghost function Position(labels: seq<Label>, k: nat, n: nat): nat
    requires k < |labels| && n <= |labels[k]|
  {
    |Head(labels, k)| + |LabelTextTo(labels[k], n)|
  }

  lemma HeadThenLabel(labels: seq<Label>, k: nat)
    requires k < |labels|
    ensures Head(labels, k) + LabelText(labels[k]) == TextTo(labels, k + 1) <= Text(labels)
  {
    TextPrefix(labels, k + 1, |labels|);
  }

  lemma ByteInLabel(lab: Label, n: nat)
    requires n < |lab|
    ensures LabelTextTo(lab, n) + Escape(lab[n]) == LabelTextTo(lab, n + 1) <= LabelText(lab)
  {
    LabelTextPrefix(lab, n + 1, |lab|);
  }

  lemma Inside(t: seq<Byte>, h: seq<Byte>, l: seq<Byte>, m: seq<Byte>, e: seq<Byte>, i: nat)
    requires h + l <= t && m + e <= l && i == |h| + |m|
    ensures i + |e| <= |t| && t[i..i + |e|] == e
  {
    forall j | 0 <= j < |e| ensures t[i + j] == e[j] {
      assert (m + e)[|m| + j] == l[|m| + j];
      assert (h + l)[i + j] == t[i + j];
    }
  }

  lemma PositionIs(labels: seq<Label>, k: nat, n: nat)
    requires k < |labels| && n <= |labels[k]|
    ensures Position(labels, k, n) == |Head(labels, k)| + |LabelTextTo(labels[k], n)|
  {}

  /** The text of a byte stands at i. */
  ghost predicate EscapeAt(t: seq<Byte>, i: nat, b: Byte) {
    i + |Escape(b)| <= |t| && t[i..i + |Escape(b)|] == Escape(b)
  }

  lemma ByteAt(labels: seq<Label>, k: nat, n: nat)
    requires k < |labels| && n < |labels[k]|
    ensures EscapeAt(Text(labels), Position(labels, k, n), labels[k][n])
    ensures Position(labels, k, n + 1) == Position(labels, k, n) + |Escape(labels[k][n])|
  {
    HeadThenLabel(labels, k);
    ByteInLabel(labels[k], n);
    PositionIs(labels, k, n);
    PositionIs(labels, k, n + 1);
    var lab, t := labels[k], Text(labels);
    hide Text;
    hide TextTo;
    hide LabelText;
    hide LabelTextTo;
    hide Escape;
    hide Head;
    hide Position;
    Inside(t, Head(labels, k), LabelText(lab), LabelTextTo(lab, n), Escape(lab[n]), Position(labels, k, n));
  }

  lemma AfterLabel(labels: seq<Label>, k: nat)
    requires k < |labels|
    ensures Position(labels, k, |labels[k]|) == |TextTo(labels, k + 1)| <= |Text(labels)|
  {
    HeadThenLabel(labels, k);
    hide TextTo;
    hide LabelTextTo;
  }

  lemma DotBetween(labels: seq<Label>, k: nat)
    requires k + 1 < |labels|
    ensures var i := |TextTo(labels, k + 1)|;
            i < |Text(labels)| && Text(labels)[i] == DOT && Position(labels, k + 1, 0) == i + 1
  {
    HeadThenLabel(labels, k + 1);
    var h, l, t := Head(labels, k + 1), LabelText(labels[k + 1]), Text(labels);
    assert h == TextTo(labels, k + 1) + [DOT] && Position(labels, k + 1, 0) == |h|;
    hide *;
    assert (h + l)[|h| - 1] == t[|h| - 1];
  }

  ghost function Rest(labels: seq<Label>, k: nat, n: nat): (r: seq<Label>)
    requires k < |labels| && n <= |labels[k]|
    ensures r != []
  {
    [labels[k][n..]] + labels[k + 1..]
  }

  /** From a byte of a label, or from its end, the rest of the labels is read. */
  ghost predicate RestRead(labels: seq<Label>, k: nat, n: nat) {
    && k < |labels| && n <= |labels[k]| && Position(labels, k, n) <= |Text(labels)|
    && Segments(Text(labels), Position(labels, k, n)) == Some(Rest(labels, k, n))
  }

  lemma RestReadIs(labels: seq<Label>, k: nat, n: nat)
    requires RestRead(labels, k, n)
    ensures Position(labels, k, n) <= |Text(labels)|
    ensures Segments(Text(labels), Position(labels, k, n)) == Some(Rest(labels, k, n))
  {}

  lemma IsRestRead(labels: seq<Label>, k: nat, n: nat)
    requires k < |labels| && n <= |labels[k]| && Position(labels, k, n) <= |Text(labels)|
    requires Segments(Text(labels), Position(labels, k, n)) == Some(Rest(labels, k, n))
    ensures RestRead(labels, k, n)
  {}

  lemma FromByte(labels: seq<Label>, k: nat, n: nat)
    requires k < |labels| && n < |labels[k]| && RestRead(labels, k, n + 1)
    ensures RestRead(labels, k, n)
  {
    hide *;
    var t, b, i := Text(labels), labels[k][n], Position(labels, k, n);
    RestReadIs(labels, k, n + 1);
    ByteAt(labels, k, n);
    EscapeRead(t, i, b);
    TakeOne(labels, k, n);
    SegmentsNext(t, i, Char(b), i + |Escape(b)|, Rest(labels, k, n + 1));
    IsRestRead(labels, k, n);
  }

  lemma FromLast(labels: seq<Label>, k: nat)
    requires k + 1 == |labels|
    ensures RestRead(labels, k, |labels[k]|)
  {
    AfterLabel(labels, k);
    SegmentsEnd(Text(labels));
    hide Position;
    hide TextTo;
    hide Segments;
    assert labels[k][|labels[k]|..] == [] && labels[k + 1..] == [];
    assert Rest(labels, k, |labels[k]|) == [[]];
  }

  lemma FromEnd(labels: seq<Label>, k: nat)
    requires k + 1 < |labels| && RestRead(labels, k + 1, 0)
    ensures RestRead(labels, k, |labels[k]|)
  {
    hide *;
    var t, i := Text(labels), Position(labels, k, |labels[k]|);
    RestReadIs(labels, k + 1, 0);
    AfterLabel(labels, k);
    DotBetween(labels, k);
    DotRead(t, i);
    NextLabel(labels, k);
    SegmentsNext(t, i, Dot, i + 1, Rest(labels, k + 1, 0));
    IsRestRead(labels, k, |labels[k]|);
  }

  lemma {:induction false} SegmentsFrom(labels: seq<Label>, k: nat, n: nat)
    requires k < |labels| && n <= |labels[k]|
    ensures RestRead(labels, k, n)
    decreases |labels| - k, |labels[k]| - n
  {
    hide *;
    if n < |labels[k]| {
      SegmentsFrom(labels, k, n + 1);
      FromByte(labels, k, n);
    } else if k + 1 < |labels| {
      SegmentsFrom(labels, k + 1, 0);
      FromEnd(labels, k);
    } else {
      FromLast(labels, k);
    }
  }

  lemma SegmentsEnd(t: seq<Byte>)
    ensures Segments(t, |t|) == Some([[]])
  {}

  lemma DotRead(t: seq<Byte>, i: nat)
    requires i < |t| && t[i] == DOT
    ensures First(t, i) == Some((Dot, i + 1))
  {}

  lemma NextLabel(labels: seq<Label>, k: nat)
    requires k + 1 < |labels|
    ensures Before(Dot, Rest(labels, k + 1, 0)) == Rest(labels, k, |labels[k]|)
  {
    assert Rest(labels, k + 1, 0) == labels[k + 1..];
    assert labels[k][|labels[k]|..] == [];
  }

  lemma TakeOne(labels: seq<Label>, k: nat, n: nat)
    requires k < |labels| && n < |labels[k]|
    ensures Before(Char(labels[k][n]), Rest(labels, k, n + 1)) == Rest(labels, k, n)
  {
    assert [labels[k][n]] + labels[k][n + 1..] == labels[k][n..];
  }

  lemma SegmentsNext(t: seq<Byte>, i: nat, p: Piece, j: nat, s: seq<Label>)
    requires i < |t| && First(t, i) == Some((p, j)) && j <= |t| && Segments(t, j) == Some(s) && s != []
    ensures Segments(t, i) == Some(Before(p, s))
  {}

  /** dns_ptodn reads what dns_dntop has printed: every valid name comes back. */
  lemma PrintThenRead(labels: seq<Label>)
    requires ValidName(labels)
    ensures Meaning(Text(labels)) == Some(labels)
  {
    if labels != [] {
      SegmentsFrom(labels, 0, 0);
      assert Rest(labels, 0, 0) == labels;
      assert Position(labels, 0, 0) == 0;
      var last := labels[|labels| - 1];
      assert 1 <= |last|;
      if Text(labels) == [DOT] {
        Root();
        assert false;
      }
    }
  }
}
