/**
  What the decoders build (core/inkdrop_acquire.py, core/inkdrop_bencode.py):
  dictionaries keep their keys in the order they were first read, lists keep
  their items in order, and every value is read back from its own text.
 */
module DecodedValues {
  import opened Outcomes
  import opened Bencode
  import opened BencodeDecoders

  // ------------------------------------------------------- the order of the keys

  function KeysOf(d: seq<Field>): (ks: seq<Value>)
    ensures |ks| == |d| && forall i | 0 <= i < |d| :: ks[i] == d[i].key
  {
    seq(|d|, i requires 0 <= i < |d| => d[i].key)
  }

  /** A store leaves the keys alone, or puts a key that is new behind all others. */
  lemma {:induction false} PutKeys(d: seq<Field>, k: Value, v: Value)
    ensures KeysOf(Put(d, k, v)) == if k in KeysOf(d) then KeysOf(d) else KeysOf(d) + [k]
  {
    if d != [] && d[0].key != k {
      PutKeys(d[1..], k, v);
      assert KeysOf(d) == [d[0].key] + KeysOf(d[1..]);
      assert KeysOf(Put(d, k, v)) == [d[0].key] + KeysOf(Put(d[1..], k, v));
    } else if d != [] {
      assert KeysOf(d)[0] == k;
    }
  }

  /** The keys of a dictionary's text, as they are read. */
  function KeysRead(es: Entries): seq<Bytes> {
    match es
    case NoEntries => []
    case MoreEntries(k, _, rest) => [k] + KeysRead(rest)
  }

  /** The fields of a dictionary's text, one for each entry. */
  function FieldsRead(es: Entries): (fs: seq<Field>)
    ensures |fs| == |KeysRead(es)| && forall i | 0 <= i < |fs| :: fs[i].key == VBytes(KeysRead(es)[i])
  {
    match es
    case NoEntries => []
    case MoreEntries(k, t, rest) => [Field(VBytes(k), ValueOf(t))] + FieldsRead(rest)
  }

  predicate Distinct<T(==)>(s: seq<T>) { forall i, j | 0 <= i < j < |s| :: s[i] != s[j] }

  /** The p-th key read had not been read before. */
  predicate FirstAt(ks: seq<Bytes>, p: nat) { p < |ks| && ks[p] !in ks[..p] }

  /** These are, in order, the places of the keys read for the first time, and the fields have those keys. */
  ghost predicate InReadingOrder(d: seq<Field>, ks: seq<Bytes>, ps: seq<nat>) {
    |ps| == |d| && (forall i, j | 0 <= i < j < |ps| :: ps[i] < ps[j])
    && (forall i | 0 <= i < |ps| :: FirstAt(ks, ps[i]) && d[i].key == VBytes(ks[ps[i]]))
    && forall p: nat | FirstAt(ks, p) :: p in ps
  }

  /** One more key is read: its place is the last, if it is new. */
  lemma ReadOne(d: seq<Field>, ks: seq<Bytes>, ps: seq<nat>, k: Bytes, v: Value) returns (ps': seq<nat>)
    requires InReadingOrder(d, ks, ps)
    ensures InReadingOrder(Put(d, VBytes(k), v), ks + [k], ps')
  {
    PutKeys(d, VBytes(k), v);
    ReadBefore(d, ks, ps, k);
    ps' := if k in ks then ps else ps + [|ks|];
    ReadPlaces(d, Put(d, VBytes(k), v), ks, ps, k);
  }

  lemma ReadPlaces(d: seq<Field>, d': seq<Field>, ks: seq<Bytes>, ps: seq<nat>, k: Bytes)
    requires InReadingOrder(d, ks, ps)
    requires KeysOf(d') == if k in ks then KeysOf(d) else KeysOf(d) + [VBytes(k)]
    ensures InReadingOrder(d', ks + [k], if k in ks then ps else ps + [|ks|])
  {
    var (ks', ps') := (ks + [k], if k in ks then ps else ps + [|ks|]);
    forall p: nat
      ensures FirstAt(ks', p) <==> FirstAt(ks, p) || (p == |ks| && k !in ks)
    {
      assert p <= |ks| ==> ks'[..p] == ks[..p];
    }
    forall i | 0 <= i < |ps'|
      ensures FirstAt(ks', ps'[i]) && d'[i].key == VBytes(ks'[ps'[i]])
    {
      assert KeysOf(d')[i] == d'[i].key;
      assert i < |ps| ==> KeysOf(d)[i] == d[i].key;
    }
    if k !in ks {
      assert ps'[|ps|] == |ks|;
      assert forall p | p in ps :: p in ps';
    }
  }

  lemma ReadBefore(d: seq<Field>, ks: seq<Bytes>, ps: seq<nat>, k: Bytes)
    requires InReadingOrder(d, ks, ps)
    ensures VBytes(k) in KeysOf(d) <==> k in ks
  {
    if k in ks {
      var p := FirstOf(ks, k);
      var i :| 0 <= i < |ps| && ps[i] == p;
      assert KeysOf(d)[i] == VBytes(k);
    }
    if VBytes(k) in KeysOf(d) {
      var i :| 0 <= i < |d| && KeysOf(d)[i] == VBytes(k);
      assert ks[ps[i]] == k;
    }
  }

  lemma {:induction false} FirstOf(ks: seq<Bytes>, k: Bytes) returns (p: nat)
    requires k in ks
    ensures FirstAt(ks, p) && ks[p] == k
  {
    var n := |ks| - 1;
    if k in ks[..n] {
      p := FirstOf(ks[..n], k);
      assert ks[..p] == ks[..n][..p];
    } else {
      p := n;
    }
  }

  lemma {:induction false} ReadOn(d: seq<Field>, ks: seq<Bytes>, ps: seq<nat>, es: Entries) returns (ps': seq<nat>)
    requires InReadingOrder(d, ks, ps)
    ensures InReadingOrder(PutAll(d, es), ks + KeysRead(es), ps')
    decreases es
  {
    hide InReadingOrder;
    match es
    case NoEntries =>
      assert ks + [] == ks;
      ps' := ps;
    case MoreEntries(k, t, rest) =>
      var one := ReadOne(d, ks, ps, k, ValueOf(t));
      ps' := ReadOn(Put(d, VBytes(k), ValueOf(t)), ks + [k], one, rest);
      assert ks + ([k] + KeysRead(rest)) == ks + [k] + KeysRead(rest);
  }

  /**
    A decoded dictionary has each key of its text once, in the order in which the
    keys are read for the first time.
   */
  lemma KeysInReadingOrder(es: Entries) returns (ps: seq<nat>)
    ensures InReadingOrder(PutAll([], es), KeysRead(es), ps)
    ensures Distinct(KeysOf(PutAll([], es)))
  {
    ps := ReadOn([], [], [], es);
    assert [] + KeysRead(es) == KeysRead(es);
    DistinctPlaces(PutAll([], es), KeysRead(es), ps);
  }

  lemma DistinctPlaces(d: seq<Field>, ks: seq<Bytes>, ps: seq<nat>)
    requires InReadingOrder(d, ks, ps)
    ensures Distinct(KeysOf(d))
  {
    forall i, j | 0 <= i < j < |d|
      ensures KeysOf(d)[i] != KeysOf(d)[j]
    {
      assert ks[ps[i]] in ks[..ps[j]];
    }
  }

  lemma {:induction false} PutNew(d: seq<Field>, k: Value, v: Value)
    requires k !in KeysOf(d)
    ensures Put(d, k, v) == d + [Field(k, v)]
  {
    if d != [] {
      assert KeysOf(d)[0] == d[0].key && KeysOf(d) == [d[0].key] + KeysOf(d[1..]);
      PutNew(d[1..], k, v);
      assert d == [d[0]] + d[1..];
    }
  }

  lemma {:induction false} PutAllNew(d: seq<Field>, es: Entries)
    requires Distinct(KeysOf(d + FieldsRead(es)))
    ensures PutAll(d, es) == d + FieldsRead(es)
    decreases es
  {
    hide ValueOf;
    match es
    case NoEntries => assert d + [] == d;
    case MoreEntries(k, t, rest) =>
      var all := d + FieldsRead(es);
      var f := Field(VBytes(k), ValueOf(t));
      assert all == d + [f] + FieldsRead(rest);
      NewInOrder(d, f, FieldsRead(rest), all);
      PutNew(d, f.key, f.value);
      PutAllNew(d + [f], rest);
  }

  lemma NewInOrder(d: seq<Field>, f: Field, rest: seq<Field>, all: seq<Field>)
    requires all == d + [f] + rest && Distinct(KeysOf(all))
    ensures f.key !in KeysOf(d)
  {
    assert KeysOf(all)[|d|] == f.key;
    assert forall i | 0 <= i < |d| :: KeysOf(all)[i] == KeysOf(d)[i];
  }

  /** A dictionary text without a repeated key is read entry by entry, in order. */
  lemma EntriesInOrder(es: Entries)
    requires Distinct(KeysRead(es))
    ensures PutAll([], es) == FieldsRead(es)
  {
    var fs := FieldsRead(es);
    assert [] + fs == fs;
    assert forall i | 0 <= i < |fs| :: KeysOf(fs)[i] == VBytes(KeysRead(es)[i]);
    PutAllNew([], es);
  }

  // ------------------------------------------------------------- decoded values

  /** Dictionaries have byte strings for keys, no key twice, at every level. */
  predicate Proper(v: Value)
    decreases v, 1
  {
    match v
    case VInt(_) => true
    case VBytes(_) => true
    case VList(items) => ProperItems(items)
    case VDict(fields) => Distinct(KeysOf(fields)) && ProperFields(fields)
  }

  predicate ProperItems(items: seq<Value>)
    decreases items, 0
  {
    items == [] || (Proper(items[0]) && ProperItems(items[1..]))
  }

  predicate ProperFields(fields: seq<Field>)
    decreases fields, 0
  {
    fields == [] || (ProperField(fields[0]) && ProperFields(fields[1..]))
  }

  predicate ProperField(f: Field)
    decreases f, 0
  {
    match f
    case Field(key, value) => key.VBytes? && Proper(value)
  }

  lemma {:induction false} PutProper(d: seq<Field>, k: Bytes, v: Value)
    requires ProperFields(d) && Proper(v)
    ensures ProperFields(Put(d, VBytes(k), v))
  {
    hide Proper;
    if d != [] {
      assert ProperField(d[0]);
      if d[0].key == VBytes(k) {
        assert Put(d, VBytes(k), v)[1..] == d[1..];
      } else {
        PutProper(d[1..], k, v);
        assert Put(d, VBytes(k), v)[1..] == Put(d[1..], VBytes(k), v);
      }
    }
  }

  /** Whatever text is decoded, its value is proper. */
  lemma {:induction false} DecodedIsProper(t: Tree)
    ensures Proper(ValueOf(t))
    decreases t
  {
    match t
    case TInt(_) =>
    case TStr(_) =>
    case TList(ts) => ItemsProper(ts);
    case TDict(es) =>
      FieldsProper([], es);
      var _ := KeysInReadingOrder(es);
  }

  lemma {:induction false} ItemsProper(ts: Trees)
    ensures ProperItems(ItemValues(ts))
    decreases ts
  {
    hide Proper;
    if ts.MoreTrees? {
      DecodedIsProper(ts.head);
      ItemsProper(ts.tail);
      assert ItemValues(ts)[1..] == ItemValues(ts.tail);
    }
  }

  lemma {:induction false} FieldsProper(d: seq<Field>, es: Entries)
    requires ProperFields(d)
    ensures ProperFields(PutAll(d, es))
    decreases es
  {
    hide Proper, ProperFields;
    if es.MoreEntries? {
      DecodedIsProper(es.value);
      PutProper(d, es.key, ValueOf(es.value));
      FieldsProper(Put(d, VBytes(es.key), ValueOf(es.value)), es.rest);
    }
  }

  // ----------------------------------------------------------------- round trip

  /** The text of a value: its items and fields in order. */
  function TreeOf(v: Value): Tree
    requires Proper(v)
    decreases v, 1
  {
    match v
    case VInt(n) => TInt(n)
    case VBytes(s) => TStr(s)
    case VList(items) => TList(TreesOf(items))
    case VDict(fields) => TDict(EntriesOf(fields))
  }

  function TreesOf(items: seq<Value>): Trees
    requires ProperItems(items)
    decreases items, 0
  {
    if items == [] then NoTrees else MoreTrees(TreeOf(items[0]), TreesOf(items[1..]))
  }

  function EntriesOf(fields: seq<Field>): Entries
    requires ProperFields(fields)
    decreases fields, 0
  {
    if fields == [] then NoEntries
    else
      assert ProperField(fields[0]);
      MoreEntries(fields[0].key.s, FieldTree(fields[0]), EntriesOf(fields[1..]))
  }

  function FieldTree(f: Field): Tree
    requires ProperField(f)
    decreases f, 0
  {
    match f
    case Field(_, value) => TreeOf(value)
  }

  /** Every proper value is what its own text denotes. */
  lemma {:induction false} ValueOfTreeOf(v: Value)
    requires Proper(v)
    ensures ValueOf(TreeOf(v)) == v
    decreases v, 1
  {
    match v
    case VInt(_) =>
    case VBytes(_) =>
    case VList(items) => ValuesOfTreesOf(items);
    case VDict(fields) =>
      EmptyDistinct(fields);
      FieldsOfEntriesOf([], fields);
  }

  lemma EmptyDistinct(fields: seq<Field>)
    ensures [] + fields == fields
  {
  }

  lemma {:induction false} ValuesOfTreesOf(items: seq<Value>)
    requires ProperItems(items)
    ensures ItemValues(TreesOf(items)) == items
    decreases items, 0
  {
    hide Proper;
    if items != [] {
      ValueOfTreeOf(items[0]);
      ValuesOfTreesOf(items[1..]);
      assert items == [items[0]] + items[1..];
    }
  }

  lemma {:induction false} FieldsOfEntriesOf(d: seq<Field>, fields: seq<Field>)
    requires ProperFields(fields) && Distinct(KeysOf(d + fields))
    ensures PutAll(d, EntriesOf(fields)) == d + fields
    decreases fields, 0
  {
    hide Proper;
    if fields == [] {
      assert d + fields == d;
    } else {
      var f := fields[0];
      FieldOfTree(f);
      assert d + [f] + fields[1..] == d + fields;
      NewInOrder(d, f, fields[1..], d + fields);
      PutNew(d, f.key, f.value);
      FieldsOfEntriesOf(d + [f], fields[1..]);
    }
  }

  lemma {:induction false} FieldOfTree(f: Field)
    requires ProperField(f)
    ensures ValueOf(FieldTree(f)) == f.value && VBytes(f.key.s) == f.key
    decreases f, 0
  {
    match f
    case Field(_, value) => ValueOfTreeOf(value);
  }

  /** A value within the limits is decoded whole from its text, with its items and fields as they were. */
  lemma EncodeThenDecode(v: Value)
    requires Proper(v) && WithinLimits(TreeOf(v))
    ensures var parsed := Parse(Print(TreeOf(v)), 0, 0);
            parsed.Done? && parsed.rest == [] && ValueOf(parsed.value) == v
  {
    hide *;
    PrintThenParse(TreeOf(v));
    ValueOfTreeOf(v);
  }
}
