/**
  The two bencode decoders as they are written: the strict one of
  core/inkdrop_acquire.py, which counts calls and records where the root's
  "info" value lies, and the lenient one of core/inkdrop_bencode.py.
 */
module BencodeDecoders {
  import opened Outcomes
  import opened Bencode

  // ---------------------------------------------------------------- values

  /** Decoded values.  A dictionary lists its keys once each, oldest first. */
  datatype Value =
    | VInt(n: int)
    | VBytes(s: Bytes)
    | VList(items: seq<Value>)
    | VDict(fields: seq<Field>)
  datatype Field = Field(key: Value, value: Value)

  /** d[k] = v: a key already present keeps its place. */
  function Put(d: seq<Field>, k: Value, v: Value): seq<Field> {
    if d == [] then [Field(k, v)]
    else if d[0].key == k then [Field(k, v)] + d[1..]
    else [d[0]] + Put(d[1..], k, v)
  }

  function Lookup(d: seq<Field>, k: Value): Option<Value> {
    if d == [] then None
    else if d[0].key == k then Some(d[0].value)
    else Lookup(d[1..], k)
  }

  lemma {:induction false} LookupPut(d: seq<Field>, k: Value, v: Value, q: Value)
    ensures Lookup(Put(d, k, v), q) == if q == k then Some(v) else Lookup(d, q)
  {
    if d != [] && d[0].key != k {
      LookupPut(d[1..], k, v, q);
      assert Put(d, k, v)[1..] == Put(d[1..], k, v);
    } else if d != [] {
      assert Put(d, k, v)[1..] == d[1..];
    }
  }

  /** The value a syntax tree denotes. */
  function ValueOf(t: Tree): Value {
    match t
    case TInt(n) => VInt(n)
    case TStr(s) => VBytes(s)
    case TList(ts) => VList(ItemValues(ts))
    case TDict(es) => VDict(PutAll([], es))
  }

  function ItemValues(ts: Trees): seq<Value> {
    match ts
    case NoTrees => []
    case MoreTrees(t, rest) => [ValueOf(t)] + ItemValues(rest)
  }

  function PutAll(d: seq<Field>, es: Entries): seq<Field>
    decreases es
  {
    match es
    case NoEntries => d
    case MoreEntries(k, v, rest) => PutAll(Put(d, VBytes(k), ValueOf(v)), rest)
  }

  /** The tree a key is bound to: its last occurrence counts. */
  function LastBound(es: Entries, k: Bytes, before: Option<Tree>): Option<Tree>
    decreases es
  {
    match es
    case NoEntries => before
    case MoreEntries(key, v, rest) => LastBound(rest, k, if key == k then Some(v) else before)
  }

  lemma {:induction false} LookupLastBound(d: seq<Field>, es: Entries, k: Bytes, before: Option<Tree>)
    requires Lookup(d, VBytes(k)) == if before.Some? then Some(ValueOf(before.value)) else None
    ensures var last := LastBound(es, k, before);
            Lookup(PutAll(d, es), VBytes(k)) == if last.Some? then Some(ValueOf(last.value)) else None
    decreases es
  {
    if es.MoreEntries? {
      LookupPut(d, VBytes(es.key), ValueOf(es.value), VBytes(k));
      LookupLastBound(Put(d, VBytes(es.key), ValueOf(es.value)), es.rest, k,
                      if es.key == k then Some(es.value) else before);
    }
  }

  // ------------------------------------------------------------ the info span

  const INFO: Bytes := [105, 110, 102, 111]

  /** Where the value last bound to "info" lies, when the entries start at offset pos. */
  function InfoSpan(es: Entries, pos: nat, before: Option<(nat, nat)>): Option<(nat, nat)>
    decreases es
  {
    match es
    case NoEntries => before
    case MoreEntries(k, v, rest) =>
      var from := pos + |PrintStr(k)|;
      InfoSpan(rest, from + |Print(v)|, if k == INFO then Some((from, from + |Print(v)|)) else before)
  }

  /** The span recorded for "info" holds exactly the text of the value last bound to it. */
  lemma {:induction false} InfoSpanText(p: Bytes, es: Entries, pos: nat, end: Bytes,
                                         before: Option<(nat, nat)>, beforeTree: Option<Tree>)
    requires pos <= |p| && p[pos..] == PrintEntries(es) + end
    requires before.Some? <==> beforeTree.Some?
    requires before.Some? ==> before.value.0 <= before.value.1 <= |p|
                              && p[before.value.0..before.value.1] == Print(beforeTree.value)
    ensures var span := InfoSpan(es, pos, before);
            var last := LastBound(es, INFO, beforeTree);
            (span.Some? <==> last.Some?)
            && (span.Some? ==> span.value.0 <= span.value.1 <= |p|
                               && p[span.value.0..span.value.1] == Print(last.value))
    decreases es
  {
    hide Print, PrintStr;
    if es.MoreEntries? {
      var from := pos + |PrintStr(es.key)|;
      var next := from + |Print(es.value)|;
      EntryText(es.key, es.value, es.rest, end);
      var afterKey := Print(es.value) + (PrintEntries(es.rest) + end);
      assert p[pos..] == PrintStr(es.key) + afterKey;
      assert p[from..] == p[pos..][|PrintStr(es.key)|..] == afterKey;
      assert p[next..] == p[from..][|Print(es.value)|..] == PrintEntries(es.rest) + end;
      assert p[from..next] == p[from..][..|Print(es.value)|] == Print(es.value);
      var hit := es.key == INFO;
      InfoSpanText(p, es.rest, next, end, if hit then Some((from, next)) else before,
                   if hit then Some(es.value) else beforeTree);
    }
  }

  // ------------------------------------------------------- the strict decoder

  /** What one call of the strict decoder's parse must do, given what stands at its index. */
  ghost predicate Answers(payload: Bytes, spec: Parsed<Tree>, r: Result<(Value, nat)>, nodes: nat) {
    match spec
    case Failed => r.Raised?
    case Done(t, rest, n) => |rest| <= |payload| && r == Ok((ValueOf(t), |payload| - |rest|)) && nodes == n
  }

  class StrictDecoder {
    const payload: Bytes
    var nodes: nat
    var infoSpan: Option<(nat, nat)>

    constructor (payload: Bytes)
      ensures this.payload == payload && nodes == 0 && infoSpan == None
    {
      this.payload := payload;
      nodes, infoSpan := 0, None;
    }

    method ParseValue(index: nat, depth: nat) returns (r: Result<(Value, nat)>)
      requires index <= |payload|
      modifies this
      ensures Answers(payload, Parse(payload[index..], depth, old(nodes)), r, nodes)
      ensures var spec := Parse(payload[index..], depth, old(nodes));
              spec.Done? ==>
                infoSpan == if depth == 0 && spec.value.TDict?
                            then InfoSpan(spec.value.entries, index + 1, old(infoSpan))
                            else old(infoSpan)
      decreases |payload| - index, 2
    {
      hide ParseInt, ParseStr, ParseItems, ParseEntries, InfoSpan, ItemValues, PutAll;
      nodes := nodes + 1;
      if depth > MAX_DEPTH || nodes > MAX_NODES || index >= |payload| {
        return Raised;
      }
      assert payload[index..][1..] == payload[index + 1..];
      assert payload[index..][0] == payload[index];
      if payload[index] == LOWER_I {
        r := ReadInt(index);
      } else if payload[index] == LOWER_L {
        r := ReadList(index, depth);
      } else if payload[index] == LOWER_D {
        r := ReadDict(index, depth);
      } else {
        r := ReadStr(index);
      }
    }

    method ReadInt(index: nat) returns (r: Result<(Value, nat)>)
      requires index < |payload|
      ensures match ParseInt(payload[index + 1..])
              case None => r.Raised?
              case Some((n, rest)) => r == Ok((VInt(n), |payload| - |rest|))
    {
      var tail := payload[index + 1..];
      match Find(tail, LOWER_E, |tail|) {
        case None => r := Raised;
        case Some(end) =>
          var raw := tail[..end];
          if !CanonicalInt(raw) || DigitCount(raw) > MAX_INT_DIGITS {
            r := Raised;
          } else {
            r := Ok((VInt(IntValue(raw)), index + 1 + end + 1));
          }
      }
    }

    method ReadStr(index: nat) returns (r: Result<(Value, nat)>)
      requires index < |payload|
      ensures match ParseStr(payload[index..])
              case None => r.Raised?
              case Some((s, rest)) => r == Ok((VBytes(s), |payload| - |rest|))
    {
      var tail := payload[index..];
      match Find(tail, COLON, if |tail| < 24 then |tail| else 24) {
        case None => r := Raised;
        case Some(colon) =>
          var raw := tail[..colon];
          if !CanonicalNat(raw) {
            return Raised;
          }
          var start := index + colon + 1;
          var end := start + NatValue(raw);
          if end > |payload| {
            r := Raised;
          } else {
            assert tail[colon + 1..][..NatValue(raw)] == payload[start..end];
            r := Ok((VBytes(payload[start..end]), end));
          }
      }
    }

    method ReadList(index: nat, depth: nat) returns (r: Result<(Value, nat)>)
      requires index < |payload|
      modifies this
      ensures match ParseItems(payload[index + 1..], depth, old(nodes))
              case Failed => r.Raised?
              case Done(ts, rest, n) =>
                r == Ok((VList(ItemValues(ts)), |payload| - |rest|)) && nodes == n && infoSpan == old(infoSpan)
      decreases |payload| - index, 1
    {
      hide Parse, ParseItems;
      ghost var whole := ParseItems(payload[index + 1..], depth, nodes);
      var items: seq<Value> := [];
      var i := index + 1;
      assert whole.Done? ==> items + ItemValues(whole.value) == ItemValues(whole.value);
      while i < |payload| && payload[i] != LOWER_E
        invariant index < i <= |payload|
        invariant infoSpan == old(infoSpan)
        invariant var left := ParseItems(payload[i..], depth, nodes);
                  if whole.Failed? then left.Failed?
                  else left.Done? && left.rest == whole.rest && left.nodes == whole.nodes
                       && items + ItemValues(left.value) == ItemValues(whole.value)
        decreases |payload| - i
      {
        ItemStep(payload, i, depth, nodes);
        var item := ParseValue(i, depth + 1);
        if item.Raised? {
          return Raised;
        }
        i := item.value.1;
        items := items + [item.value.0];
      }
      ListEnd(payload, i, depth, nodes);
      if i >= |payload| {
        return Raised;
      }
      assert items + [] == items;
      r := Ok((VList(items), i + 1));
    }

    method ReadDict(index: nat, depth: nat) returns (r: Result<(Value, nat)>)
      requires index < |payload|
      modifies this
      ensures match ParseEntries(payload[index + 1..], depth, old(nodes))
              case Failed => r.Raised?
              case Done(es, rest, n) =>
                r == Ok((VDict(PutAll([], es)), |payload| - |rest|)) && nodes == n
                && infoSpan == if depth == 0 then InfoSpan(es, index + 1, old(infoSpan)) else old(infoSpan)
      decreases |payload| - index, 1
    {
      hide Parse, ParseEntries, Print, PrintStr, ValueOf, Put;
      ghost var whole := ParseEntries(payload[index + 1..], depth, nodes);
      var fields: seq<Field> := [];
      var i := index + 1;
      while i < |payload| && payload[i] != LOWER_E
        invariant index < i <= |payload|
        invariant var left := ParseEntries(payload[i..], depth, nodes);
                  if whole.Failed? then left.Failed?
                  else left.Done? && left.rest == whole.rest && left.nodes == whole.nodes
                       && PutAll(fields, left.value) == PutAll([], whole.value)
                       && (depth == 0 ==>
                             InfoSpan(left.value, i, infoSpan) == InfoSpan(whole.value, index + 1, old(infoSpan)))
        invariant depth > 0 ==> infoSpan == old(infoSpan)
        decreases |payload| - i
      {
        EntryStep(payload, i, depth, nodes);
        var key := ParseValue(i, depth + 1);
        if key.Raised? || !key.value.0.VBytes? {
          return Raised;
        }
        var valueStart := key.value.1;
        var val := ParseValue(valueStart, depth + 1);
        if val.Raised? {
          return Raised;
        }
        i := val.value.1;
        if depth == 0 && key.value.0.s == INFO {
          infoSpan := Some((valueStart, i));
        }
        fields := Put(fields, key.value.0, val.value.0);
      }
      DictEnd(payload, i, depth, nodes);
      if i >= |payload| {
        return Raised;
      }
      r := Ok((VDict(fields), i + 1));
    }
  }

  /** One pass of the list loop: reading an item moves it from what is left to what is read. */
  lemma ItemStep(p: Bytes, i: nat, depth: nat, nodes: nat)
    requires i < |p| && p[i] != LOWER_E
    ensures var left := ParseItems(p[i..], depth, nodes);
            var head := Parse(p[i..], depth + 1, nodes);
            if head.Failed? then left.Failed?
            else |head.rest| < |p| - i &&
                 var next := ParseItems(p[|p| - |head.rest|..], depth, head.nodes);
                 if next.Failed? then left.Failed?
                 else left == Done(MoreTrees(head.value, next.value), next.rest, next.nodes)
  {
    hide Parse;
    assert p[i..][0] == p[i];
    if Parse(p[i..], depth + 1, nodes).Done? {
      RestIsSuffix(p, i, depth + 1, nodes);
    }
  }

  lemma ListEnd(p: Bytes, i: nat, depth: nat, nodes: nat)
    requires i <= |p| && (i < |p| ==> p[i] == LOWER_E)
    ensures var left := ParseItems(p[i..], depth, nodes);
            if i == |p| then left.Failed? else left == Done(NoTrees, p[i + 1..], nodes)
  {
    hide Parse;
    assert i < |p| ==> p[i..][0] == p[i] && p[i..][1..] == p[i + 1..];
  }

  /** One pass of the dictionary loop: a key and its value are read. */
  lemma EntryStep(p: Bytes, i: nat, depth: nat, nodes: nat)
    requires i < |p| && p[i] != LOWER_E
    ensures var left := ParseEntries(p[i..], depth, nodes);
            var key := Parse(p[i..], depth + 1, nodes);
            if key.Failed? then left.Failed?
            else |key.rest| < |p| - i && (ValueOf(key.value).VBytes? <==> key.value.TStr?) &&
                 var valueStart := |p| - |key.rest|;
                 var val := Parse(p[valueStart..], depth + 1, key.nodes);
                 if !key.value.TStr? || val.Failed? then left.Failed?
                 else ValueOf(key.value) == VBytes(key.value.s) && valueStart == i + |PrintStr(key.value.s)|
                      && |val.rest| < |p| - valueStart && |p| - |val.rest| == valueStart + |Print(val.value)| &&
                      var next := ParseEntries(p[|p| - |val.rest|..], depth, val.nodes);
                      if next.Failed? then left.Failed?
                      else left == Done(MoreEntries(key.value.s, val.value, next.value), next.rest, next.nodes)
  {
    hide Parse, Print;
    assert p[i..][0] == p[i];
    var key := Parse(p[i..], depth + 1, nodes);
    if key.Done? {
      BytesAreStrings(key.value);
      RestIsSuffix(p, i, depth + 1, nodes);
      var valueStart := |p| - |key.rest|;
      if Parse(p[valueStart..], depth + 1, key.nodes).Done? {
        RestIsSuffix(p, valueStart, depth + 1, key.nodes);
      }
    }
  }

  lemma DictEnd(p: Bytes, i: nat, depth: nat, nodes: nat)
    requires i <= |p| && (i < |p| ==> p[i] == LOWER_E)
    ensures var left := ParseEntries(p[i..], depth, nodes);
            if i == |p| then left.Failed? else left == Done(NoEntries, p[i + 1..], nodes)
  {
    hide Parse;
    assert i < |p| ==> p[i..][0] == p[i] && p[i..][1..] == p[i + 1..];
  }

  lemma BytesAreStrings(t: Tree)
    ensures ValueOf(t).VBytes? <==> t.TStr?
    ensures t.TStr? ==> ValueOf(t) == VBytes(t.s) && Print(t) == PrintStr(t.s)
  {
  }

  /** What follows an accepted value is the payload from the offset the decoder returns. */
  lemma RestIsSuffix(p: Bytes, i: nat, depth: nat, nodes: nat)
    requires i <= |p| && Parse(p[i..], depth, nodes).Done?
    ensures var r := Parse(p[i..], depth, nodes);
            |r.rest| == |p| - i - |Print(r.value)| && p[|p| - |r.rest|..] == r.rest
  {
    hide Parse, Print;
    Sound(p[i..], depth, nodes);
    var r := Parse(p[i..], depth, nodes);
    assert p[|p| - |r.rest|..] == p[i..][|Print(r.value)|..];
  }
}
