/**
  The lenient decoder of core/inkdrop_bencode.py and its agreement with the
  strict one.  It takes any spelling Python's int() takes, keys of any hashable
  kind, any depth, and ignores whatever follows the first value.
 */
module LenientBencode {
  import opened Outcomes
  import opened Bencode
  import opened BencodeDecoders

  // ------------------------------------------------------- int() on bytes

  const PLUS: Byte := 43
  const UNDERSCORE: Byte := 95

  predicate IsSpace(b: Byte) { b == 32 || 9 <= b <= 13 }

  function LStrip(s: Bytes): Bytes {
    if s != [] && IsSpace(s[0]) then LStrip(s[1..]) else s
  }

  function RStrip(s: Bytes): Bytes {
    if s != [] && IsSpace(s[|s| - 1]) then RStrip(s[..|s| - 1]) else s
  }

  /** Digits with single underscores between them, without the underscores. */
  function Ungroup(s: Bytes): (r: Option<Bytes>) {
    if s == [] || !IsDigit(s[0]) then None
    else if |s| == 1 then Some(s)
    else
      var rest := Ungroup(if s[1] == UNDERSCORE then s[2..] else s[1..]);
      if rest.None? then None else Some([s[0]] + rest.value)
  }

  function PyInt(raw: Bytes): Option<int> {
    var s := RStrip(LStrip(raw));
    var signed := s != [] && (s[0] == PLUS || s[0] == MINUS);
    match Ungroup(if signed then s[1..] else s)
    case None => None
    case Some(digits) =>
      if |digits| > MAX_INT_DIGITS then None
      else
        var m: int := NatValue(digits);
        Some(if s[0] == MINUS then -m else m)
  }

  lemma {:induction false} UngroupPlain(s: Bytes)
    requires s != [] && forall k | 0 <= k < |s| :: IsDigit(s[k])
    ensures Ungroup(s) == Some(s)
  {
    if |s| > 1 {
      UngroupPlain(s[1..]);
      assert s == [s[0]] + s[1..];
    }
  }

  lemma Unpadded(s: Bytes)
    requires s != [] && !IsSpace(s[0]) && !IsSpace(s[|s| - 1])
    ensures RStrip(LStrip(s)) == s
  {
  }

  lemma PyIntOfSigned(digits: Bytes, negative: bool, s: Bytes)
    requires digits != [] && |digits| <= MAX_INT_DIGITS && forall k | 0 <= k < |digits| :: IsDigit(digits[k])
    requires s == if negative then [MINUS] + digits else digits
    ensures PyInt(s) == Some(if negative then -(NatValue(digits) as int) else NatValue(digits) as int)
  {
    hide NatValue, Ungroup, RStrip, LStrip;
    UngroupPlain(digits);
    Unpadded(s);
    assert negative ==> s[1..] == digits;
  }

  /** The one spelling the strict decoder takes means the same number to int(). */
  lemma PyIntReadsCanonical(n: int)
    requires IntFits(n)
    ensures PyInt(PrintInt(n)) == Some(n)
  {
    hide PyInt, NatValue, PrintNat;
    var m := if n < 0 then -n else n;
    PrintNatRoundTrip(m);
    DigitsOnly(PrintNat(m));
    PyIntOfSigned(PrintNat(m), n < 0, PrintInt(n));
  }

  /** int() of text that starts with a digit is not negative. */
  lemma PyIntOfDigits(raw: Bytes)
    requires raw != [] && IsDigit(raw[0]) && PyInt(raw).Some?
    ensures PyInt(raw).value >= 0
  {
    assert LStrip(raw) == raw;
    RStripKeepsFirst(raw);
  }

  lemma {:induction false} RStripKeepsFirst(s: Bytes)
    requires s != [] && !IsSpace(s[0])
    ensures RStrip(s) != [] && RStrip(s)[0] == s[0]
  {
    if IsSpace(s[|s| - 1]) {
      RStripKeepsFirst(s[..|s| - 1]);
    }
  }

  // ------------------------------------------------------------ the decoder

  datatype Reading<+T> = Unreadable | Read(value: T, rest: Bytes)

  predicate Hashable(v: Value) { v.VInt? || v.VBytes? }

  function LenientInt(s: Bytes): (r: Reading<Value>)
    ensures r.Read? ==> |r.rest| < |s|
  {
    match Find(s, LOWER_E, |s|)
    case None => Unreadable
    case Some(end) =>
      match PyInt(s[..end])
      case None => Unreadable
      case Some(n) => Read(VInt(n), s[end + 1..])
  }

  function LenientStr(s: Bytes): (r: Reading<Value>)
    ensures r.Read? ==> |r.rest| < |s|
  {
    match Find(s, COLON, |s|)
    case None => Unreadable
    case Some(colon) =>
      match PyInt(s[..colon])
      case None => Unreadable
      case Some(length) =>
        var body := s[colon + 1..];
        if !(0 <= length <= |body|) then Unreadable else Read(VBytes(body[..length]), body[length..])
  }

  function Lenient(s: Bytes): (r: Reading<Value>)
    ensures r.Read? ==> |r.rest| < |s|
    decreases |s|, 0
  {
    if s == [] then Unreadable
    else if s[0] == LOWER_I then LenientInt(s[1..])
    else if s[0] == LOWER_L then
      match LenientItems(s[1..])
      case Unreadable => Unreadable
      case Read(vs, rest) => Read(VList(vs), rest)
    else if s[0] == LOWER_D then
      match LenientFields(s[1..], [])
      case Unreadable => Unreadable
      case Read(d, rest) => Read(VDict(d), rest)
    else if IsDigit(s[0]) then LenientStr(s)
    else Unreadable
  }

  function LenientItems(s: Bytes): (r: Reading<seq<Value>>)
    ensures r.Read? ==> |r.rest| < |s|
    decreases |s|, 1
  {
    if s == [] then Unreadable
    else if s[0] == LOWER_E then Read([], s[1..])
    else
      match Lenient(s)
      case Unreadable => Unreadable
      case Read(v, rest) =>
        match LenientItems(rest)
        case Unreadable => Unreadable
        case Read(vs, rest') => Read([v] + vs, rest')
  }

  function LenientFields(s: Bytes, d: seq<Field>): (r: Reading<seq<Field>>)
    ensures r.Read? ==> |r.rest| < |s|
    decreases |s|, 1
  {
    if s == [] then Unreadable
    else if s[0] == LOWER_E then Read(d, s[1..])
    else
      match Lenient(s)
      case Unreadable => Unreadable
      case Read(k, rest) =>
        match Lenient(rest)
        case Unreadable => Unreadable
        case Read(v, rest') => if Hashable(k) then LenientFields(rest', Put(d, k, v)) else Unreadable
  }

  // -------------------------------------------------------------- agreement

  lemma LenientIntReads(n: int, rest: Bytes)
    requires IntFits(n)
    ensures LenientInt(PrintInt(n) + ([LOWER_E] + rest)) == Read(VInt(n), rest)
  {
    hide PyInt, PrintNat;
    var s := PrintInt(n) + ([LOWER_E] + rest);
    PrintIntRoundTrip(n);
    FindAfter(PrintInt(n), LOWER_E, rest, |s|);
    PyIntReadsCanonical(n);
    assert s[..|PrintInt(n)|] == PrintInt(n) && s[|PrintInt(n)| + 1..] == rest;
  }

  lemma LenientStrReads(str: Bytes, rest: Bytes)
    requires StrFits(str)
    ensures LenientStr(PrintStr(str) + rest) == Read(VBytes(str), rest)
  {
    hide PyInt, PrintNat;
    var digits := PrintNat(|str|);
    var s := digits + ([COLON] + (str + rest));
    PrintNatRoundTrip(|str|);
    DigitsOnly(digits);
    assert PrintStr(str) + rest == s;
    FindAfter(digits, COLON, str + rest, |s|);
    PyIntReadsCanonical(|str|);
    assert s[..|digits|] == digits && s[|digits| + 1..] == str + rest;
    assert (str + rest)[..|str|] == str && (str + rest)[|str|..] == rest;
  }

  /** The lenient decoder reads every printed tree as the value the tree denotes. */
  lemma {:induction false} LenientReads(t: Tree, s: Bytes, rest: Bytes)
    requires s == Print(t) + rest && NumbersFit(t)
    ensures s != [] && s[0] != LOWER_E && Lenient(s) == Read(ValueOf(t), rest)
    decreases t, 0
  {
    hide PrintNat, PrintItems, PrintEntries, LenientItems, LenientFields, LenientInt, LenientStr;
    FirstByte(t, rest);
    match t {
      case TInt(n) =>
        Tagged(LOWER_I, PrintInt(n), rest);
        LenientIntReads(n, rest);
      case TStr(str) =>
        LenientStrReads(str, rest);
      case TList(ts) =>
        Tagged(LOWER_L, PrintItems(ts), rest);
        LenientReadsItems(ts, s[1..], rest);
      case TDict(es) =>
        Tagged(LOWER_D, PrintEntries(es), rest);
        LenientReadsFields(es, s[1..], rest, []);
    }
  }

  lemma {:induction false} LenientReadsItems(ts: Trees, s: Bytes, rest: Bytes)
    requires s == PrintItems(ts) + ([LOWER_E] + rest) && ItemNumbersFit(ts)
    ensures LenientItems(s) == Read(ItemValues(ts), rest)
    decreases ts, 0
  {
    hide Lenient, Print, ValueOf;
    match ts {
      case NoTrees =>
        assert s == [LOWER_E] + rest && s[1..] == rest;
      case MoreTrees(t, tail) =>
        var after := PrintItems(tail) + ([LOWER_E] + rest);
        Assoc(Print(t), PrintItems(tail), [LOWER_E] + rest);
        LenientReads(t, s, after);
        LenientReadsItems(tail, after, rest);
    }
  }

  lemma {:induction false} LenientReadsFields(es: Entries, s: Bytes, rest: Bytes, d: seq<Field>)
    requires s == PrintEntries(es) + ([LOWER_E] + rest) && EntryNumbersFit(es)
    ensures LenientFields(s, d) == Read(PutAll(d, es), rest)
    decreases es, 0
  {
    hide Lenient, Print, PrintStr, ValueOf, Put;
    match es {
      case NoEntries =>
        assert s == [LOWER_E] + rest && s[1..] == rest;
      case MoreEntries(k, v, tail) =>
        var afterValue := PrintEntries(tail) + ([LOWER_E] + rest);
        var afterKey := Print(v) + afterValue;
        EntryText(k, v, tail, [LOWER_E] + rest);
        LenientReadsKey(k, s, afterKey);
        LenientReads(v, afterKey, afterValue);
        LenientReadsFields(tail, afterValue, rest, Put(d, VBytes(k), ValueOf(v)));
    }
  }

  lemma LenientReadsKey(k: Bytes, s: Bytes, rest: Bytes)
    requires s == PrintStr(k) + rest && StrFits(k)
    ensures s != [] && s[0] != LOWER_E && Lenient(s) == Read(VBytes(k), rest)
  {
    hide PrintNat, LenientStr;
    FirstByte(TStr(k), rest);
    LenientStrReads(k, rest);
  }

  /** On every payload the strict decoder accepts, the lenient one returns the same value. */
  lemma LenientAgrees(p: Bytes)
    requires Parse(p, 0, 0).Done? && Parse(p, 0, 0).rest == []
    ensures Lenient(p) == Read(ValueOf(Parse(p, 0, 0).value), [])
  {
    hide Parse, Lenient, Print;
    Sound(p, 0, 0);
    LenientReads(Parse(p, 0, 0).value, p, []);
  }

  // ------------------------------------------------- the decoder as written

  /** What a call of the lenient decoder's parse must do, given what stands at its index. */
  ghost predicate Answered<T>(data: Bytes, spec: Reading<T>, r: Result<(T, nat)>) {
    match spec
    case Unreadable => r.Raised?
    case Read(v, rest) => |rest| <= |data| && r == Ok((v, |data| - |rest|))
  }

  method Decode(data: Bytes) returns (r: Result<Value>)
    ensures r == match Lenient(data) case Unreadable => Raised case Read(v, _) => Ok(v)
  {
    assert data[0..] == data;
    var value := ParseValue(data, 0);
    if value.Raised? {
      return Raised;
    }
    r := Ok(value.value.0);
  }

  method ParseValue(data: Bytes, index: nat) returns (r: Result<(Value, nat)>)
    requires index <= |data|
    ensures Answered(data, Lenient(data[index..]), r)
    ensures r.Ok? ==> index < r.value.1 <= |data| && data[r.value.1..] == Lenient(data[index..]).rest
    decreases |data| - index, 2
  {
    hide LenientInt, LenientStr, LenientItems, LenientFields;
    if index >= |data| {
      return Raised;
    }
    assert data[index..][0] == data[index] && data[index..][1..] == data[index + 1..];
    if data[index] == LOWER_I {
      r := ReadInt(data, index);
    } else if data[index] == LOWER_L {
      r := ReadList(data, index);
    } else if data[index] == LOWER_D {
      r := ReadDict(data, index);
    } else if IsDigit(data[index]) {
      r := ReadStr(data, index);
    } else {
      r := Raised;
    }
  }

  method ReadInt(data: Bytes, index: nat) returns (r: Result<(Value, nat)>)
    requires index < |data|
    ensures Answered(data, LenientInt(data[index + 1..]), r)
    ensures r.Ok? ==> index < r.value.1 <= |data| && data[r.value.1..] == LenientInt(data[index + 1..]).rest
  {
    var tail := data[index + 1..];
    match Find(tail, LOWER_E, |tail|) {
      case None => r := Raised;
      case Some(end) =>
        match PyInt(tail[..end]) {
          case None => r := Raised;
          case Some(n) =>
            assert tail[end + 1..] == data[index + 1 + end + 1..];
            r := Ok((VInt(n), index + 1 + end + 1));
        }
    }
  }

  method ReadList(data: Bytes, index: nat) returns (r: Result<(Value, nat)>)
    requires index < |data|
    ensures match LenientItems(data[index + 1..])
            case Unreadable => r.Raised?
            case Read(vs, rest) => r == Ok((VList(vs), |data| - |rest|)) && data[|data| - |rest|..] == rest
    decreases |data| - index, 1
  {
    hide Lenient;
    ghost var whole := LenientItems(data[index + 1..]);
    var values: seq<Value> := [];
    var i := index + 1;
    assert whole.Read? ==> values + whole.value == whole.value;
    while i < |data| && data[i] != LOWER_E
      invariant index < i <= |data|
      invariant var left := LenientItems(data[i..]);
                if whole.Unreadable? then left.Unreadable?
                else left.Read? && left.rest == whole.rest && values + left.value == whole.value
      decreases |data| - i
    {
      assert data[i..][0] == data[i];
      var item := ParseValue(data, i);
      if item.Raised? {
        return Raised;
      }
      values, i := values + [item.value.0], item.value.1;
    }
    ItemsEnd(data, i);
    if i >= |data| {
      return Raised;
    }
    assert values + [] == values;
    r := Ok((VList(values), i + 1));
  }

  method ReadDict(data: Bytes, index: nat) returns (r: Result<(Value, nat)>)
    requires index < |data|
    ensures match LenientFields(data[index + 1..], [])
            case Unreadable => r.Raised?
            case Read(d, rest) => r == Ok((VDict(d), |data| - |rest|)) && data[|data| - |rest|..] == rest
    decreases |data| - index, 1
  {
    hide Lenient;
    ghost var whole := LenientFields(data[index + 1..], []);
    var fields: seq<Field> := [];
    var i := index + 1;
    while i < |data| && data[i] != LOWER_E
      invariant index < i <= |data|
      invariant LenientFields(data[i..], fields) == whole
      decreases |data| - i
    {
      assert data[i..][0] == data[i];
      var key := ParseValue(data, i);
      if key.Raised? {
        return Raised;
      }
      var val := ParseValue(data, key.value.1);
      if val.Raised? || !Hashable(key.value.0) {
        return Raised;
      }
      fields, i := Put(fields, key.value.0, val.value.0), val.value.1;
    }
    FieldsEnd(data, i, fields);
    if i >= |data| {
      return Raised;
    }
    r := Ok((VDict(fields), i + 1));
  }

  lemma ItemsEnd(data: Bytes, i: nat)
    requires i <= |data| && (i < |data| ==> data[i] == LOWER_E)
    ensures LenientItems(data[i..]) == if i == |data| then Unreadable else Read([], data[i + 1..])
  {
    assert i < |data| ==> data[i..][0] == data[i] && data[i..][1..] == data[i + 1..];
  }

  lemma FieldsEnd(data: Bytes, i: nat, d: seq<Field>)
    requires i <= |data| && (i < |data| ==> data[i] == LOWER_E)
    ensures LenientFields(data[i..], d) == if i == |data| then Unreadable else Read(d, data[i + 1..])
  {
    assert i < |data| ==> data[i..][0] == data[i] && data[i..][1..] == data[i + 1..];
  }

  method ReadStr(data: Bytes, index: nat) returns (r: Result<(Value, nat)>)
    requires index < |data| && IsDigit(data[index])
    ensures Answered(data, LenientStr(data[index..]), r)
    ensures r.Ok? ==> index < r.value.1 <= |data| && data[r.value.1..] == LenientStr(data[index..]).rest
  {
    var tail := data[index..];
    match Find(tail, COLON, |tail|) {
      case None => r := Raised;
      case Some(colon) =>
        match PyInt(tail[..colon]) {
          case None => r := Raised;
          case Some(length) =>
            assert colon > 0;
            PyIntOfDigits(tail[..colon]);
            var start := index + colon + 1;
            var end := start + length;
            if end > |data| {
              r := Raised;
            } else {
              assert tail[colon + 1..] == data[start..];
              assert tail[colon + 1..][..length] == data[start..end];
              assert tail[colon + 1..][length..] == data[end..];
              r := Ok((VBytes(data[start..end]), end));
            }
        }
    }
  }

  // --------------------------------------------------------- what int() takes

  predicate Blank(s: Bytes) { forall i | 0 <= i < |s| :: IsSpace(s[i]) }

  /** Digits, with at most one underscore between any two. */
  predicate Grouped(s: Bytes) {
    s != [] && IsDigit(s[0]) && IsDigit(s[|s| - 1])
    && (forall i | 0 <= i < |s| :: IsPart(s[i])) && forall i: nat | 0 < i < |s| :: Separated(s, i)
  }

  predicate IsPart(b: Byte) { IsDigit(b) || b == UNDERSCORE }

  predicate Separated(s: Bytes, i: nat)
    requires 0 < i < |s|
  {
    IsDigit(s[i]) || IsDigit(s[i - 1])
  }

  function DigitsOf(s: Bytes): Bytes {
    if s == [] then [] else (if IsDigit(s[0]) then [s[0]] else []) + DigitsOf(s[1..])
  }

  /** Blanks, a sign or none, grouped digits, blanks. */
  predicate Spells(raw: Bytes, a: Bytes, sign: Bytes, body: Bytes, b: Bytes) {
    raw == a + (sign + body) + b && Blank(a) && Blank(b) && (sign == [] || sign == [PLUS] || sign == [MINUS])
    && Grouped(body)
  }

  lemma {:induction false} UngroupExactly(s: Bytes)
    ensures Ungroup(s) == if Grouped(s) then Some(DigitsOf(s)) else None
  {
    if s == [] || !IsDigit(s[0]) {
    } else if |s| == 1 {
      DigitsStep(s);
      assert s[1..] == [] && s == [s[0]] + [] && IsPart(s[0]);
    } else if s[1] == UNDERSCORE {
      var rest := s[2..];
      UngroupExactly(rest);
      GroupedAfter(s, 2);
      DigitsStep(s);
      DigitsStep(s[1..]);
      assert s[1..][1..] == rest;
    } else {
      UngroupExactly(s[1..]);
      GroupedAfter(s, 1);
      DigitsStep(s);
    }
  }

  lemma DigitsStep(s: Bytes)
    requires s != []
    ensures DigitsOf(s) == if IsDigit(s[0]) then [s[0]] + DigitsOf(s[1..]) else DigitsOf(s[1..])
  {
    assert [] + DigitsOf(s[1..]) == DigitsOf(s[1..]);
  }

  lemma GroupedAfter(s: Bytes, n: nat)
    requires |s| > 1 && IsDigit(s[0]) && n == if s[1] == UNDERSCORE then 2 else 1
    ensures Grouped(s) <==> Grouped(s[n..])
  {
    var rest := s[n..];
    assert forall i | 0 <= i < |rest| :: rest[i] == s[i + n];
    if Grouped(s) {
      if n == 2 {
        assert s[|s| - 1] != s[1];
        assert Separated(s, 2);
      } else {
        assert IsPart(s[1]);
      }
      forall i: nat | 0 < i < |rest|
        ensures Separated(rest, i)
      {
        assert Separated(s, i + n);
      }
    }
    if Grouped(rest) {
      forall i | 0 <= i < |s|
        ensures IsPart(s[i])
      {
        if i >= n {
          assert IsPart(rest[i - n]);
        }
      }
      forall i: nat | 0 < i < |s|
        ensures Separated(s, i)
      {
        if i > n {
          assert Separated(rest, i - n);
        }
      }
      assert s[|s| - 1] == rest[|rest| - 1];
    }
  }

  lemma {:induction false} LStripBlank(a: Bytes, s: Bytes)
    requires Blank(a) && s != [] && !IsSpace(s[0])
    ensures LStrip(a + s) == s
  {
    if a == [] {
      assert a + s == s;
    } else {
      assert (a + s)[1..] == a[1..] + s;
      LStripBlank(a[1..], s);
    }
  }

  lemma {:induction false} RStripBlank(s: Bytes, b: Bytes)
    requires Blank(b) && s != [] && !IsSpace(s[|s| - 1])
    ensures RStrip(s + b) == s
  {
    if b == [] {
      assert s + b == s;
    } else {
      assert (s + b)[..|s + b| - 1] == s + b[..|b| - 1];
      RStripBlank(s, b[..|b| - 1]);
    }
  }

  lemma {:induction false} LStripParts(s: Bytes) returns (a: Bytes)
    ensures Blank(a) && s == a + LStrip(s)
  {
    if s != [] && IsSpace(s[0]) {
      var rest := LStripParts(s[1..]);
      a := [s[0]] + rest;
    } else {
      a := [];
    }
  }

  lemma {:induction false} RStripParts(s: Bytes) returns (b: Bytes)
    ensures Blank(b) && s == RStrip(s) + b
  {
    if s != [] && IsSpace(s[|s| - 1]) {
      var rest := RStripParts(s[..|s| - 1]);
      b := rest + [s[|s| - 1]];
    } else {
      b := [];
    }
  }

  /** A text of that form is read as its digits say, unless there are too many. */
  lemma PyIntReads(raw: Bytes, a: Bytes, sign: Bytes, body: Bytes, b: Bytes)
    requires Spells(raw, a, sign, body, b)
    ensures var n: int := NatValue(DigitsOf(body));
            PyInt(raw) == if |DigitsOf(body)| > MAX_INT_DIGITS then None else Some(if sign == [MINUS] then -n else n)
  {
    hide NatValue, LStrip, RStrip, Ungroup, DigitsOf;
    var s := sign + body;
    assert s[|s| - 1] == body[|body| - 1];
    assert raw == a + (s + b);
    LStripBlank(a, s + b);
    RStripBlank(s, b);
    assert RStrip(LStrip(raw)) == s;
    if sign == [] {
      assert s == body && s[0] != PLUS && s[0] != MINUS;
    } else {
      assert s[0] == sign[0] && s[1..] == body;
    }
    UngroupExactly(body);
  }

  /** int() takes no other text. */
  lemma PyIntSpelled(raw: Bytes)
    requires PyInt(raw).Some?
    ensures exists a, sign, body, b :: Spells(raw, a, sign, body, b)
  {
    hide NatValue, LStrip, RStrip, Ungroup, DigitsOf, Grouped;
    var a := LStripParts(raw);
    var b := RStripParts(LStrip(raw));
    var s := RStrip(LStrip(raw));
    var signed := s != [] && (s[0] == PLUS || s[0] == MINUS);
    var body := if signed then s[1..] else s;
    var sign := if signed then [s[0]] else [];
    UngroupExactly(body);
    assert Grouped(body) && Blank(a) && Blank(b);
    assert s == sign + body && a + (s + b) == a + s + b;
    assert Spells(raw, a, sign, body, b);
  }
}
