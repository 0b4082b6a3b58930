/**
  Bencoding (BEP 3): syntax trees, their one canonical spelling, and the strict
  parser of core/inkdrop_acquire.py as a function on trees.  The central results
  are Sound and Complete: the strict parser accepts exactly the printed trees
  that fit its limits, and reads each of them back.
 */
module Bencode {
  import opened Outcomes

  type Byte = b: int | 0 <= b < 256
  type Bytes = seq<Byte>

  const MINUS: Byte := 45
  const ZERO: Byte := 48
  const NINE: Byte := 57
  const COLON: Byte := 58
  const LOWER_D: Byte := 100
  const LOWER_E: Byte := 101
  const LOWER_I: Byte := 105
  const LOWER_L: Byte := 108

  const MAX_DEPTH: nat := 32
  const MAX_NODES: nat := 100_000
  /** A string's ":" is looked for in the 24 bytes from its first digit. */
  const MAX_LENGTH_DIGITS: nat := 23

  // ---------------------------------------------------------------- trees

  /** Bencoded syntax: dictionary entries keep their order and their repetitions. */
  datatype Tree =
    | TInt(n: int)
    | TStr(s: Bytes)
    | TList(items: Trees)
    | TDict(entries: Entries)
  datatype Trees = NoTrees | MoreTrees(head: Tree, tail: Trees)
  datatype Entries = NoEntries | MoreEntries(key: Bytes, value: Tree, rest: Entries)

  function PrintNat(n: nat): (s: Bytes)
    ensures |s| > 0
  {
    if n < 10 then [ZERO + n] else PrintNat(n / 10) + [ZERO + n % 10]
  }

  function PrintInt(n: int): Bytes {
    if n < 0 then [MINUS] + PrintNat(-n) else PrintNat(n)
  }

  function PrintStr(s: Bytes): Bytes {
    PrintNat(|s|) + ([COLON] + s)
  }

  function Print(t: Tree): (s: Bytes)
    ensures |s| > 0
  {
    match t
    case TInt(n) => [LOWER_I] + (PrintInt(n) + [LOWER_E])
    case TStr(s) => PrintStr(s)
    case TList(items) => [LOWER_L] + (PrintItems(items) + [LOWER_E])
    case TDict(entries) => [LOWER_D] + (PrintEntries(entries) + [LOWER_E])
  }

  function PrintItems(ts: Trees): Bytes {
    match ts
    case NoTrees => []
    case MoreTrees(t, rest) => Print(t) + PrintItems(rest)
  }

  function PrintEntries(es: Entries): Bytes {
    match es
    case NoEntries => []
    case MoreEntries(k, v, rest) => PrintStr(k) + (Print(v) + PrintEntries(rest))
  }

  // --------------------------------------------------------------- limits

  /** Calls of the parser a tree costs: one per value and one per dictionary key. */
  function Nodes(t: Tree): (n: nat)
    ensures n > 0
  {
    match t
    case TInt(_) => 1
    case TStr(_) => 1
    case TList(items) => 1 + ItemNodes(items)
    case TDict(entries) => 1 + EntryNodes(entries)
  }

  function ItemNodes(ts: Trees): nat {
    match ts
    case NoTrees => 0
    case MoreTrees(t, rest) => Nodes(t) + ItemNodes(rest)
  }

  function EntryNodes(es: Entries): nat {
    match es
    case NoEntries => 0
    case MoreEntries(_, v, rest) => 1 + Nodes(v) + EntryNodes(rest)
  }

  /** The tree has at most h levels below its root. */
  predicate Shallow(t: Tree, h: int) {
    h >= 0 &&
    match t
    case TInt(_) => true
    case TStr(_) => true
    case TList(items) => ItemsShallow(items, h - 1)
    case TDict(entries) => EntriesShallow(entries, h - 1)
  }

  predicate ItemsShallow(ts: Trees, h: int) {
    match ts
    case NoTrees => true
    case MoreTrees(t, rest) => Shallow(t, h) && ItemsShallow(rest, h)
  }

  predicate EntriesShallow(es: Entries, h: int) {
    match es
    case NoEntries => true
    case MoreEntries(_, v, rest) => Shallow(v, h) && EntriesShallow(rest, h)
  }

  predicate IntFits(n: int) {
    |PrintNat(if n < 0 then -n else n)| <= MAX_INT_DIGITS
  }

  predicate StrFits(s: Bytes) {
    |PrintNat(|s|)| <= MAX_LENGTH_DIGITS
  }

  /** Every number in the tree is short enough to be read back. */
  predicate NumbersFit(t: Tree) {
    match t
    case TInt(n) => IntFits(n)
    case TStr(s) => StrFits(s)
    case TList(items) => ItemNumbersFit(items)
    case TDict(entries) => EntryNumbersFit(entries)
  }

  predicate ItemNumbersFit(ts: Trees) {
    match ts
    case NoTrees => true
    case MoreTrees(t, rest) => NumbersFit(t) && ItemNumbersFit(rest)
  }

  predicate EntryNumbersFit(es: Entries) {
    match es
    case NoEntries => true
    case MoreEntries(k, v, rest) => StrFits(k) && NumbersFit(v) && EntryNumbersFit(rest)
  }

  predicate WithinLimits(t: Tree) {
    Shallow(t, MAX_DEPTH) && Nodes(t) <= MAX_NODES && NumbersFit(t)
  }

  // -------------------------------------------------------------- numbers

  predicate IsDigit(b: Byte) { ZERO <= b <= NINE }

  predicate AllDigits(s: Bytes) {
    s == [] || (IsDigit(s[|s| - 1]) && AllDigits(s[..|s| - 1]))
  }

  lemma {:induction false} DigitsOnly(s: Bytes)
    requires AllDigits(s)
    ensures forall k | 0 <= k < |s| :: IsDigit(s[k])
  {
    if s != [] {
      DigitsOnly(s[..|s| - 1]);
    }
  }

  /** The pattern 0|[1-9][0-9]* */
  predicate CanonicalNat(s: Bytes) {
    |s| > 0 && AllDigits(s) && (|s| == 1 || s[0] != ZERO)
  }

  /** The pattern 0|-?[1-9][0-9]* */
  predicate CanonicalInt(s: Bytes) {
    CanonicalNat(s) || (|s| > 1 && s[0] == MINUS && CanonicalNat(s[1..]) && s[1] != ZERO)
  }

  /** The number a digit string denotes, most significant digit first. */
  function NatValue(s: Bytes): nat {
    if s == [] || !IsDigit(s[|s| - 1]) then 0 else 10 * NatValue(s[..|s| - 1]) + (s[|s| - 1] - ZERO)
  }

  function IntValue(s: Bytes): int
    requires s != []
  {
    var m: int := if s[0] == MINUS then NatValue(s[1..]) else NatValue(s);
    if s[0] == MINUS then -m else m
  }

  lemma {:induction false} PrintNatRoundTrip(n: nat)
    ensures CanonicalNat(PrintNat(n)) && NatValue(PrintNat(n)) == n
    ensures n > 0 ==> PrintNat(n)[0] != ZERO
  {
    if n >= 10 {
      PrintNatRoundTrip(n / 10);
      var s := PrintNat(n);
      assert s[..|s| - 1] == PrintNat(n / 10);
    } else {
      var s := PrintNat(n);
      assert s[..0] == [];
    }
  }

  lemma {:induction false} CanonicalNatReprints(s: Bytes)
    requires CanonicalNat(s)
    ensures PrintNat(NatValue(s)) == s
    ensures s[0] != ZERO ==> NatValue(s) > 0
  {
    var init := s[..|s| - 1];
    if |s| == 1 {
      assert init == [];
    } else {
      CanonicalNatReprints(init);
      assert s == init + [s[|s| - 1]];
    }
  }

  lemma PrintIntRoundTrip(n: int)
    ensures CanonicalInt(PrintInt(n)) && IntValue(PrintInt(n)) == n
    ensures LOWER_E !in PrintInt(n)
  {
    var m := if n < 0 then -n else n;
    PrintNatRoundTrip(m);
    DigitsOnly(PrintNat(m));
    if n < 0 {
      assert PrintInt(n)[1..] == PrintNat(-n);
    }
  }

  lemma CanonicalIntReprints(s: Bytes)
    requires CanonicalInt(s)
    ensures PrintInt(IntValue(s)) == s
    ensures IntFits(IntValue(s)) <==> |s| - (if s[0] == MINUS then 1 else 0) <= MAX_INT_DIGITS
  {
    if CanonicalNat(s) {
      DigitsOnly(s);
      CanonicalNatReprints(s);
    } else {
      CanonicalNatReprints(s[1..]);
      assert s == [MINUS] + s[1..];
    }
  }

  // --------------------------------------------------------------- parser

  /** bytes.find of one byte in s[..limit]. */
  function Find(s: Bytes, b: Byte, limit: nat): (r: Option<nat>)
    requires limit <= |s|
    ensures r.Some? ==> r.value < limit
  {
    if limit == 0 then None
    else
      var r := Find(s, b, limit - 1);
      if r.Some? || s[limit - 1] != b then r else Some(limit - 1)
  }

  lemma {:induction false} FindsFirst(s: Bytes, b: Byte, limit: nat)
    requires limit <= |s|
    ensures var r := Find(s, b, limit);
            if r.Some? then s[r.value] == b && b !in s[..r.value] else b !in s[..limit]
  {
    if limit > 0 {
      FindsFirst(s, b, limit - 1);
      assert s[..limit] == s[..limit - 1] + [s[limit - 1]];
    }
  }

  /** A value read from the front of some bytes, the bytes after it, and the calls made so far. */
  datatype Parsed<+T> = Failed | Done(value: T, rest: Bytes, nodes: nat)

  /** The digits of an integer and its "e", at the front of s. */
  function ParseInt(s: Bytes): (r: Option<(int, Bytes)>)
    ensures r.Some? ==> |r.value.1| < |s|
  {
    match Find(s, LOWER_E, |s|)
    case None => None
    case Some(end) =>
      if CanonicalInt(s[..end]) && DigitCount(s[..end]) <= MAX_INT_DIGITS
      then Some((IntValue(s[..end]), s[end + 1..])) else None
  }

  function DigitCount(raw: Bytes): int
    requires |raw| > 0
  {
    |raw| - (if raw[0] == MINUS then 1 else 0)
  }

  /** A string at the front of s. */
  function ParseStr(s: Bytes): (r: Option<(Bytes, Bytes)>)
    ensures r.Some? ==> |r.value.1| < |s|
  {
    match Find(s, COLON, if |s| < 24 then |s| else 24)
    case None => None
    case Some(colon) =>
      if !CanonicalNat(s[..colon]) then None
      else
        var body := s[colon + 1..];
        var length := NatValue(s[..colon]);
        if length > |body| then None else Some((body[..length], body[length..]))
  }

  /** One value at the front of s; nodes counts the calls made before this one. */
  function Parse(s: Bytes, depth: nat, nodes: nat): (r: Parsed<Tree>)
    ensures r.Done? ==> |r.rest| < |s|
    decreases |s|, 0
  {
    if depth > MAX_DEPTH || nodes + 1 > MAX_NODES || s == [] then Failed
    else if s[0] == LOWER_I then
      match ParseInt(s[1..])
      case None => Failed
      case Some((n, rest)) => Done(TInt(n), rest, nodes + 1)
    else if s[0] == LOWER_L then
      match ParseItems(s[1..], depth, nodes + 1)
      case Failed => Failed
      case Done(ts, rest, n) => Done(TList(ts), rest, n)
    else if s[0] == LOWER_D then
      match ParseEntries(s[1..], depth, nodes + 1)
      case Failed => Failed
      case Done(es, rest, n) => Done(TDict(es), rest, n)
    else
      match ParseStr(s)
      case None => Failed
      case Some((str, rest)) => Done(TStr(str), rest, nodes + 1)
  }

  /** The rest of a list at the given depth, up to and including its "e". */
  function ParseItems(s: Bytes, depth: nat, nodes: nat): (r: Parsed<Trees>)
    ensures r.Done? ==> |r.rest| < |s|
    decreases |s|, 1
  {
    if s == [] then Failed
    else if s[0] == LOWER_E then Done(NoTrees, s[1..], nodes)
    else
      match Parse(s, depth + 1, nodes)
      case Failed => Failed
      case Done(t, rest, n) =>
        match ParseItems(rest, depth, n)
        case Failed => Failed
        case Done(ts, rest', m) => Done(MoreTrees(t, ts), rest', m)
  }

  /** The rest of a dictionary at the given depth, up to and including its "e". */
  function ParseEntries(s: Bytes, depth: nat, nodes: nat): (r: Parsed<Entries>)
    ensures r.Done? ==> |r.rest| < |s|
    decreases |s|, 1
  {
    if s == [] then Failed
    else if s[0] == LOWER_E then Done(NoEntries, s[1..], nodes)
    else
      match Parse(s, depth + 1, nodes)
      case Failed => Failed
      case Done(k, rest, n) =>
        if !k.TStr? then Failed else
        match Parse(rest, depth + 1, n)
        case Failed => Failed
        case Done(v, rest', n') =>
          match ParseEntries(rest', depth, n')
          case Failed => Failed
          case Done(es, rest'', m) => Done(MoreEntries(k.s, v, es), rest'', m)
  }

  lemma Assoc(a: Bytes, b: Bytes, c: Bytes)
    ensures (a + b) + c == a + (b + c)
  {
  }

  // ------------------------------------------------------------ soundness

  lemma ParseIntSound(s: Bytes)
    requires ParseInt(s).Some?
    ensures var (n, rest) := ParseInt(s).value; s == PrintInt(n) + ([LOWER_E] + rest) && IntFits(n)
  {
    var end := Find(s, LOWER_E, |s|).value;
    FindsFirst(s, LOWER_E, |s|);
    CanonicalIntReprints(s[..end]);
    assert s == s[..end] + ([s[end]] + s[end + 1..]);
  }

  lemma ParseStrSound(s: Bytes)
    requires ParseStr(s).Some?
    ensures var (str, rest) := ParseStr(s).value; s == PrintStr(str) + rest && StrFits(str)
  {
    hide PrintNat, NatValue, AllDigits, Find;
    var colon := Find(s, COLON, if |s| < 24 then |s| else 24).value;
    FindsFirst(s, COLON, if |s| < 24 then |s| else 24);
    CanonicalNatReprints(s[..colon]);
    assert s == s[..colon] + ([s[colon]] + s[colon + 1..]);
  }

  /** Whatever the parser accepts is spelled the one way Print spells it, and fits the limits. */
  lemma {:induction false} Sound(s: Bytes, depth: nat, nodes: nat)
    requires Parse(s, depth, nodes).Done?
    ensures var r := Parse(s, depth, nodes);
            s == Print(r.value) + r.rest && r.nodes == nodes + Nodes(r.value) <= MAX_NODES
            && Shallow(r.value, MAX_DEPTH - depth) && NumbersFit(r.value)
    decreases |s|, 0
  {
    hide ParseInt, ParseStr, ParseItems, ParseEntries, PrintNat, PrintItems, PrintEntries;
    assert s == [s[0]] + s[1..];
    if s[0] == LOWER_I {
      var (n, rest) := ParseInt(s[1..]).value;
      ParseIntSound(s[1..]);
      Tagged(LOWER_I, PrintInt(n), rest);
    } else if s[0] == LOWER_L {
      var r := ParseItems(s[1..], depth, nodes + 1);
      ItemsSound(s[1..], depth, nodes + 1);
      Tagged(LOWER_L, PrintItems(r.value), r.rest);
    } else if s[0] == LOWER_D {
      var r := ParseEntries(s[1..], depth, nodes + 1);
      EntriesSound(s[1..], depth, nodes + 1);
      Tagged(LOWER_D, PrintEntries(r.value), r.rest);
    } else {
      ParseStrSound(s);
    }
  }

  lemma Tagged(tag: Byte, body: Bytes, rest: Bytes)
    ensures ([tag] + (body + [LOWER_E])) + rest == [tag] + (body + ([LOWER_E] + rest))
    ensures (([tag] + (body + [LOWER_E])) + rest)[1..] == body + ([LOWER_E] + rest)
  {
    Assoc([tag], body + [LOWER_E], rest);
    Assoc(body, [LOWER_E], rest);
  }

  lemma {:induction false} ItemsSound(s: Bytes, depth: nat, nodes: nat)
    requires nodes <= MAX_NODES && ParseItems(s, depth, nodes).Done?
    ensures var r := ParseItems(s, depth, nodes);
            s == PrintItems(r.value) + ([LOWER_E] + r.rest) && r.nodes == nodes + ItemNodes(r.value) <= MAX_NODES
            && ItemsShallow(r.value, MAX_DEPTH - depth - 1) && ItemNumbersFit(r.value)
    decreases |s|, 1
  {
    hide Parse, ParseInt, ParseStr, Print, PrintStr, PrintNat;
    if s[0] == LOWER_E {
      assert s == [] + ([s[0]] + s[1..]);
    } else {
      var head := Parse(s, depth + 1, nodes);
      var tail := ParseItems(head.rest, depth, head.nodes);
      assert ParseItems(s, depth, nodes) == Done(MoreTrees(head.value, tail.value), tail.rest, tail.nodes);
      Sound(s, depth + 1, nodes);
      ItemsSound(head.rest, depth, head.nodes);
      Assoc(Print(head.value), PrintItems(tail.value), [LOWER_E] + tail.rest);
    }
  }

  lemma {:induction false} EntriesSound(s: Bytes, depth: nat, nodes: nat)
    requires nodes <= MAX_NODES && ParseEntries(s, depth, nodes).Done?
    ensures var r := ParseEntries(s, depth, nodes);
            s == PrintEntries(r.value) + ([LOWER_E] + r.rest) && r.nodes == nodes + EntryNodes(r.value) <= MAX_NODES
            && EntriesShallow(r.value, MAX_DEPTH - depth - 1) && EntryNumbersFit(r.value)
    decreases |s|, 1
  {
    hide Parse, ParseInt, ParseStr, PrintStr, PrintNat;
    if s[0] == LOWER_E {
      assert s == [] + ([s[0]] + s[1..]);
    } else {
      var key := Parse(s, depth + 1, nodes);
      var val := Parse(key.rest, depth + 1, key.nodes);
      var tail := ParseEntries(val.rest, depth, val.nodes);
      assert ParseEntries(s, depth, nodes)
             == Done(MoreEntries(key.value.s, val.value, tail.value), tail.rest, tail.nodes);
      Sound(s, depth + 1, nodes);
      Sound(key.rest, depth + 1, key.nodes);
      EntriesSound(val.rest, depth, val.nodes);
      assert Shallow(val.value, MAX_DEPTH - depth - 1);
      EntryText(key.value.s, val.value, tail.value, [LOWER_E] + tail.rest);
    }
  }

  lemma EntryText(k: Bytes, v: Tree, es: Entries, end: Bytes)
    ensures PrintEntries(MoreEntries(k, v, es)) + end == PrintStr(k) + (Print(v) + (PrintEntries(es) + end))
  {
    Assoc(PrintStr(k), Print(v) + PrintEntries(es), end);
    Assoc(Print(v), PrintEntries(es), end);
  }

  // --------------------------------------------------------- completeness

  lemma FindAfter(s: Bytes, b: Byte, rest: Bytes, limit: nat)
    requires b !in s && |s| < limit <= |s + ([b] + rest)|
    ensures Find(s + ([b] + rest), b, limit) == Some(|s|)
  {
    var all := s + ([b] + rest);
    FindsFirst(all, b, limit);
    assert all[..limit][|s|] == b && all[|s|] == b && all[..|s|] == s;
    assert forall k | 0 <= k < |s| :: all[k] == s[k];
    assert forall k | |s| < k <= |all| :: all[..k][|s|] == b;
  }

  lemma ParseIntComplete(n: int, rest: Bytes)
    requires IntFits(n)
    ensures ParseInt(PrintInt(n) + ([LOWER_E] + rest)) == Some((n, rest))
  {
    var s := PrintInt(n) + ([LOWER_E] + rest);
    PrintIntRoundTrip(n);
    FindAfter(PrintInt(n), LOWER_E, rest, |s|);
    CanonicalIntReprints(PrintInt(n));
    assert s[..|PrintInt(n)|] == PrintInt(n) && s[|PrintInt(n)| + 1..] == rest;
  }

  lemma ParseStrComplete(str: Bytes, rest: Bytes)
    requires StrFits(str)
    ensures ParseStr(PrintStr(str) + rest) == Some((str, rest))
  {
    var digits := PrintNat(|str|);
    var s := digits + ([COLON] + (str + rest));
    PrintNatRoundTrip(|str|);
    DigitsOnly(digits);
    assert PrintStr(str) + rest == s;
    FindAfter(digits, COLON, str + rest, if |s| < 24 then |s| else 24);
    assert s[..|digits|] == digits && s[|digits| + 1..] == str + rest;
  }

  /** The first byte of a printed tree tells which case of the parser reads it. */
  lemma FirstByte(t: Tree, rest: Bytes)
    ensures var b := (Print(t) + rest)[0];
            b == Print(t)[0] && b != LOWER_E && (t.TStr? ==> IsDigit(b))
  {
    if t.TStr? {
      PrintNatRoundTrip(|t.s|);
      DigitsOnly(PrintNat(|t.s|));
    }
  }

  lemma {:induction false} Complete(t: Tree, s: Bytes, rest: Bytes, depth: nat, nodes: nat)
    requires s == Print(t) + rest
    requires Shallow(t, MAX_DEPTH - depth) && nodes + Nodes(t) <= MAX_NODES && NumbersFit(t)
    ensures s != [] && s[0] != LOWER_E
    ensures Parse(s, depth, nodes) == Done(t, rest, nodes + Nodes(t))
    decreases t, 0
  {
    hide PrintNat, PrintItems, PrintEntries, ParseItems, ParseEntries, Find;
    FirstByte(t, rest);
    match t {
      case TInt(n) =>
        Tagged(LOWER_I, PrintInt(n), rest);
        ParseIntComplete(n, rest);
      case TStr(str) =>
        ParseStrComplete(str, rest);
      case TList(ts) =>
        Tagged(LOWER_L, PrintItems(ts), rest);
        ItemsComplete(ts, s[1..], rest, depth, nodes + 1);
      case TDict(es) =>
        Tagged(LOWER_D, PrintEntries(es), rest);
        EntriesComplete(es, s[1..], rest, depth, nodes + 1);
    }
  }

  lemma {:induction false} ItemsComplete(ts: Trees, s: Bytes, rest: Bytes, depth: nat, nodes: nat)
    requires s == PrintItems(ts) + ([LOWER_E] + rest)
    requires ItemsShallow(ts, MAX_DEPTH - depth - 1) && nodes + ItemNodes(ts) <= MAX_NODES && ItemNumbersFit(ts)
    ensures ParseItems(s, depth, nodes) == Done(ts, rest, nodes + ItemNodes(ts))
    decreases ts, 0
  {
    hide ParseStr, ParseInt, PrintNat, Parse, Print;
    match ts {
      case NoTrees =>
        assert s == [LOWER_E] + rest && s[1..] == rest;
      case MoreTrees(t, tail) =>
        var after := PrintItems(tail) + ([LOWER_E] + rest);
        Assoc(Print(t), PrintItems(tail), [LOWER_E] + rest);
        ItemsComplete(tail, after, rest, depth, nodes + Nodes(t));
        HeadComplete(t, s, after, depth, nodes, tail, rest, nodes + ItemNodes(ts));
    }
  }

  lemma {:induction false} HeadComplete(t: Tree, s: Bytes, s': Bytes, depth: nat, nodes: nat, ts: Trees, rest: Bytes,
                                        m: nat)
    requires s == Print(t) + s'
    requires Shallow(t, MAX_DEPTH - depth - 1) && nodes + Nodes(t) <= MAX_NODES && NumbersFit(t)
    requires ParseItems(s', depth, nodes + Nodes(t)) == Done(ts, rest, m)
    ensures ParseItems(s, depth, nodes) == Done(MoreTrees(t, ts), rest, m)
    decreases t, 1
  {
    hide ParseStr, ParseInt, PrintNat, Parse, Print;
    Complete(t, s, s', depth + 1, nodes);
  }

  lemma {:induction false} EntriesComplete(es: Entries, s: Bytes, rest: Bytes, depth: nat, nodes: nat)
    requires s == PrintEntries(es) + ([LOWER_E] + rest)
    requires EntriesShallow(es, MAX_DEPTH - depth - 1) && nodes + EntryNodes(es) <= MAX_NODES && EntryNumbersFit(es)
    ensures ParseEntries(s, depth, nodes) == Done(es, rest, nodes + EntryNodes(es))
    decreases es, 0
  {
    hide ParseStr, ParseInt, PrintNat, Parse, Print, PrintStr;
    match es {
      case NoEntries =>
        assert s == [LOWER_E] + rest && s[1..] == rest;
      case MoreEntries(k, v, tail) =>
        var afterValue := PrintEntries(tail) + ([LOWER_E] + rest);
        var afterKey := Print(v) + afterValue;
        EntryText(k, v, tail, [LOWER_E] + rest);
        EntriesComplete(tail, afterValue, rest, depth, nodes + 1 + Nodes(v));
        EntryComplete(k, v, s, afterKey, afterValue, depth, nodes, tail, rest, nodes + EntryNodes(es));
    }
  }

  lemma {:induction false} EntryComplete(k: Bytes, v: Tree, s: Bytes, s': Bytes, s'': Bytes, depth: nat, nodes: nat,
                                         es: Entries, rest: Bytes, m: nat)
    requires s == PrintStr(k) + s' && s' == Print(v) + s''
    requires StrFits(k) && Shallow(v, MAX_DEPTH - depth - 1) && nodes + 1 + Nodes(v) <= MAX_NODES && NumbersFit(v)
    requires ParseEntries(s'', depth, nodes + 1 + Nodes(v)) == Done(es, rest, m)
    ensures ParseEntries(s, depth, nodes) == Done(MoreEntries(k, v, es), rest, m)
    decreases v, 1
  {
    hide ParseStr, ParseInt, PrintNat, Parse, Print, PrintStr;
    KeyComplete(k, s, s', depth + 1, nodes);
    Complete(v, s', s'', depth + 1, nodes + 1);
  }

  lemma KeyComplete(k: Bytes, s: Bytes, rest: Bytes, depth: nat, nodes: nat)
    requires s == PrintStr(k) + rest
    requires depth <= MAX_DEPTH && nodes + 1 <= MAX_NODES && StrFits(k)
    ensures s != [] && s[0] != LOWER_E
    ensures Parse(s, depth, nodes) == Done(TStr(k), rest, nodes + 1)
  {
    FirstByte(TStr(k), rest);
    ParseStrComplete(k, rest);
  }

  // --------------------------------------------------------- main results

  /** Parsing a printed tree gives that tree and its whole text, exactly when it fits. */
  lemma PrintThenParse(t: Tree)
    ensures Parse(Print(t), 0, 0) == Done(t, [], Nodes(t)) <==> WithinLimits(t)
  {
    var s := Print(t);
    assert s + [] == s;
    if WithinLimits(t) {
      Complete(t, s, [], 0, 0);
    } else if Parse(s, 0, 0).Done? {
      Sound(s, 0, 0);
    }
  }

  /** A payload is accepted whole exactly when it is the text of a tree that fits. */
  lemma AcceptedExactlyPrinted(p: Bytes)
    ensures (exists t :: WithinLimits(t) && Print(t) == p) <==> Parse(p, 0, 0).Done? && Parse(p, 0, 0).rest == []
    ensures Parse(p, 0, 0).Done? && Parse(p, 0, 0).rest == [] ==> Print(Parse(p, 0, 0).value) == p
  {
    if Parse(p, 0, 0).Done? && Parse(p, 0, 0).rest == [] {
      Sound(p, 0, 0);
      var t := Parse(p, 0, 0).value;
      assert Print(t) + [] == Print(t);
      assert WithinLimits(t) && Print(t) == p;
    }
    forall t | WithinLimits(t) && Print(t) == p
      ensures Parse(p, 0, 0).Done? && Parse(p, 0, 0).rest == []
    {
      PrintThenParse(t);
    }
  }

  /** No two trees within the limits share a text. */
  lemma SpellingIsUnique(t: Tree, u: Tree)
    requires WithinLimits(t) && WithinLimits(u) && Print(t) == Print(u)
    ensures t == u
  {
    PrintThenParse(t);
    PrintThenParse(u);
  }
}
