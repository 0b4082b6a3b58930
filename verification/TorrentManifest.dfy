/**
  The file manifest of a decoded torrent (core/inkdrop_acquire.py): the v1 file
  list (BEP 3), the v2 file tree (BEP 52), and their agreement in a hybrid.
 */
module TorrentManifest {
  import opened Outcomes
  import opened Bencode
  import opened BencodeDecoders

  // ----------------------------------------------------------------- paths

  /** The text functions the manifest uses.  Their Unicode tables are not part of this model. */
  datatype Text = Text(
    decode: Bytes -> Option<string>,   // strict UTF-8
    nfkc: string -> string,
    casefold: string -> string,
    isControl: char -> bool)           // category C

  /** Case folding neither makes nor removes a slash. */
  ghost predicate FoldsPlainly(u: Text) {
    forall s :: '/' !in s ==> '/' !in u.casefold(s)
  }

  predicate DriveLetter(s: string) {
    |s| > 1 && ('A' <= s[0] <= 'Z' || 'a' <= s[0] <= 'z') && s[1] == ':'
  }

  predicate PlainComponent(u: Text, s: string) {
    s != "" && s != "." && s != ".." && '/' !in s && '\\' !in s && !DriveLetter(s)
    && s[|s| - 1] != ' ' && s[|s| - 1] != '.' && forall c | c in s :: !u.isControl(c)
  }

  datatype Name = Name(shown: string, key: string)

  /** _torrent_path_component */
  function Component(u: Text, v: Value): Option<Name> {
    if !v.VBytes? then None
    else
      match u.decode(v.s)
      case None => None
      case Some(raw) =>
        var text := u.nfkc(raw);
        if PlainComponent(u, text) then Some(Name(text, u.casefold(text))) else None
  }

  /** All components, or nothing when one of them is invalid. */
  function Components(u: Text, parts: seq<Value>): (r: Option<seq<Name>>)
    ensures r.Some? ==> |r.value| == |parts|
  {
    if parts == [] then Some([])
    else
      match (Component(u, parts[0]), Components(u, parts[1..]))
      case (Some(n), Some(ns)) => Some([n] + ns)
      case _ => None
  }

  function Shown(ns: seq<Name>): seq<string> {
    if ns == [] then [] else [ns[0].shown] + Shown(ns[1..])
  }

  function Keys(ns: seq<Name>): (ks: seq<string>)
    ensures |ks| == |ns| && forall i | 0 <= i < |ns| :: ks[i] == ns[i].key
  {
    if ns == [] then [] else [ns[0].key] + Keys(ns[1..])
  }

  function Join(parts: seq<string>): string {
    if parts == [] then ""
    else if |parts| == 1 then parts[0]
    else parts[0] + "/" + Join(parts[1..])
  }

  /** The names between separators of either kind. */
  function Segments(path: string): seq<string> {
    var k := FirstSeparator(path);
    if k == |path| then [path] else [path[..k]] + Segments(path[k + 1..])
  }

  predicate Separator(c: char) { c == '/' || c == '\\' }

  function FirstSeparator(s: string): (k: nat)
    ensures k <= |s| && (forall i | 0 <= i < k :: !Separator(s[i])) && (k < |s| ==> Separator(s[k]))
  {
    if s == "" || Separator(s[0]) then 0 else 1 + FirstSeparator(s[1..])
  }

  /** A name that leads nowhere else: not empty, no dots, no drive. */
  predicate Stays(name: string) { name != "" && name != "." && name != ".." && !DriveLetter(name) }

  lemma {:induction false} JoinSegments(parts: seq<string>)
    requires parts != [] && forall i, j | 0 <= i < |parts| && 0 <= j < |parts[i]| :: !Separator(parts[i][j])
    ensures Segments(Join(parts)) == parts
  {
    var p := parts[0];
    if |parts| == 1 {
      assert FirstSeparator(p) == |p|;
    } else {
      var (path, rest) := (Join(parts), Join(parts[1..]));
      assert path == p + "/" + rest && path[|p|] == '/';
      assert forall i | 0 <= i < |p| :: path[i] == p[i];
      assert FirstSeparator(path) == |p| && path[..|p|] == p && path[|p| + 1..] == rest;
      JoinSegments(parts[1..]);
    }
  }

  lemma {:induction false} ShownStays(u: Text, parts: seq<Value>)
    requires Components(u, parts).Some?
    ensures var shown := Shown(Components(u, parts).value);
            |shown| == |parts| && forall i | 0 <= i < |shown| ::
                Stays(shown[i]) && '/' !in shown[i] && '\\' !in shown[i]
  {
    hide DriveLetter;
    if parts != [] {
      ShownStays(u, parts[1..]);
    }
  }

  /**
    A path of accepted components, read with either separator, has exactly those
    components as its names, and none of them leads out of the directory.
   */
  lemma AcceptedPathStays(u: Text, parts: seq<Value>)
    requires parts != [] && Components(u, parts).Some?
    ensures var shown := Shown(Components(u, parts).value);
            Segments(Join(shown)) == shown && |shown| == |parts| && forall i | 0 <= i < |shown| :: Stays(shown[i])
  {
    ShownStays(u, parts);
    hide Stays, Components;
    JoinSegments(Shown(Components(u, parts).value));
  }

  predicate SlashFree(parts: seq<string>) {
    forall i | 0 <= i < |parts| :: '/' !in parts[i]
  }

  function FirstSlash(s: string): (k: nat)
    ensures k <= |s| && '/' !in s[..k] && (k < |s| ==> s[k] == '/')
  {
    if s == "" || s[0] == '/' then 0
    else
      var k := FirstSlash(s[1..]);
      assert s[..k + 1] == [s[0]] + s[1..][..k];
      k + 1
  }

  lemma FirstSlashAfter(a: string, b: string)
    requires '/' !in a && (b == "" || b[0] == '/')
    ensures FirstSlash(a + b) == |a|
  {
    var s := a + b;
    assert forall k | 0 <= k < |a| :: s[k] == a[k];
    assert forall k | |a| < k <= |s| :: s[..k][|a|] == b[0];
  }

  /** Joining with slashes loses nothing: equal joins come from equal components. */
  lemma {:induction false} JoinInjective(a: seq<string>, b: seq<string>)
    requires a != [] && b != [] && SlashFree(a) && SlashFree(b)
    requires Join(a) == Join(b)
    ensures a == b
    decreases |a|
  {
    var ra := if |a| == 1 then "" else "/" + Join(a[1..]);
    var rb := if |b| == 1 then "" else "/" + Join(b[1..]);
    assert Join(a) == a[0] + ra && Join(b) == b[0] + rb;
    FirstSlashAfter(a[0], ra);
    FirstSlashAfter(b[0], rb);
    assert a[0] == Join(a)[..|a[0]|] && b[0] == Join(b)[..|b[0]|];
    assert ra == Join(a)[|a[0]|..] && rb == Join(b)[|b[0]|..];
    if |a| > 1 {
      assert ra[1..] == Join(a[1..]) && rb[1..] == Join(b[1..]);
      JoinInjective(a[1..], b[1..]);
      assert a == [a[0]] + a[1..] && b == [b[0]] + b[1..];
    } else {
      assert |b| == 1;
      assert a == [a[0]] && b == [b[0]];
    }
  }

  // --------------------------------------------------------------- entries

  datatype Entry = Entry(path: string, key: string, length: int, padding: bool)

  /** What a manifest call returns per file. */
  datatype Listed = Listed(path: string, length: int, padding: bool)

  /** The settings every step shares: the torrent's own name is "" when it is unusable. */
  datatype Context = Context(u: Text, strict: bool, root: Name)

  /** A target list with its set of seen path keys. */
  datatype Book = Book(entries: seq<Entry>, seen: set<string>)

  const EMPTY_BOOK := Book([], {})

  function Prefix(s: string): seq<string> { if s == "" then [] else [s] }

  function PathKey(c: Context, names: seq<Name>): string {
    Join(Prefix(c.root.key) + Keys(names))
  }

  function EntryOf(c: Context, names: seq<Name>, length: int, padding: bool): Entry {
    Entry(Join(Prefix(c.root.shown) + Shown(names)), PathKey(c, names), length, padding)
  }

  /** A step that only the strict mode refuses: None is the exception. */
  function Skip(c: Context, b: Book): Option<Book> {
    if c.strict then None else Some(b)
  }

  function Append(c: Context, parts: seq<Value>, length: int, padding: bool, b: Book): Option<Book> {
    match Components(c.u, parts)
    case None => Skip(c, b)
    case Some(names) =>
      if names == [] || PathKey(c, names) in b.seen then Skip(c, b)
      else Some(Book(b.entries + [EntryOf(c, names, length, padding)], b.seen + {PathKey(c, names)}))
  }

  // ------------------------------------------------------- dictionary access

  const K_ATTR: Bytes := [97, 116, 116, 114]
  const K_FILE_TREE: Bytes := [102, 105, 108, 101, 32, 116, 114, 101, 101]
  const K_FILES: Bytes := [102, 105, 108, 101, 115]
  const K_LENGTH: Bytes := [108, 101, 110, 103, 116, 104]
  const K_NAME: Bytes := [110, 97, 109, 101]
  const K_NAME_UTF8: Bytes := [110, 97, 109, 101, 46, 117, 116, 102, 45, 56]
  const K_PATH: Bytes := [112, 97, 116, 104]
  const K_PATH_UTF8: Bytes := [112, 97, 116, 104, 46, 117, 116, 102, 45, 56]
  const K_PIECES_ROOT: Bytes := [112, 105, 101, 99, 101, 115, 32, 114, 111, 111, 116]
  const LOWER_P: Byte := 112

  predicate Truthy(v: Value) {
    match v
    case VInt(n) => n != 0
    case VBytes(s) => s != []
    case VList(items) => items != []
    case VDict(fields) => fields != []
  }

  /** Python's a or b on two looked-up values. */
  function Either(a: Option<Value>, b: Option<Value>): Option<Value> {
    if a.Some? && Truthy(a.value) then a else b
  }

  function Get(d: seq<Field>, key: Bytes): Option<Value> {
    Lookup(d, VBytes(key))
  }

  predicate IsPadding(d: seq<Field>) {
    var attr := Get(d, K_ATTR);
    attr.Some? && attr.value.VBytes? && LOWER_P in attr.value.s
  }

  // ------------------------------------------------------------ the v1 list

  predicate RowUsable(row: Value) {
    row.VDict? &&
    var parts := Either(Get(row.fields, K_PATH_UTF8), Get(row.fields, K_PATH));
    var length := Get(row.fields, K_LENGTH);
    parts.Some? && parts.value.VList? && parts.value.items != []
    && length.Some? && length.value.VInt? && length.value.n >= 0
  }

  function ListRow(c: Context, row: Value, b: Book): Option<Book> {
    if !RowUsable(row) then Skip(c, b)
    else
      Append(c, Either(Get(row.fields, K_PATH_UTF8), Get(row.fields, K_PATH)).value.items,
             Get(row.fields, K_LENGTH).value.n, IsPadding(row.fields), b)
  }

  function ListRows(c: Context, rows: seq<Value>, b: Book): Option<Book> {
    if rows == [] then Some(b)
    else
      match ListRow(c, rows[0], b)
      case None => None
      case Some(b') => ListRows(c, rows[1..], b')
  }

  // ------------------------------------------------------------ the v2 tree

  const MAX_TREE_DEPTH: nat := 32

  predicate IsLeafNode(fields: seq<Field>) { Get(fields, []).Some? }

  function LeafFields(fields: seq<Field>): seq<Field>
    requires IsLeafNode(fields)
  {
    var leaf := Get(fields, []).value;
    if leaf.VDict? then leaf.fields else []
  }

  predicate LeafUsable(fields: seq<Field>, parts: seq<Value>)
    requires IsLeafNode(fields)
  {
    var leaf := LeafFields(fields);
    var length := Get(leaf, K_LENGTH);
    var piecesRoot := Get(leaf, K_PIECES_ROOT);
    parts != [] && |fields| == 1 && Get(fields, []).value.VDict?
    && length.Some? && length.value.VInt? && length.value.n >= 0
    && (length.value.n == 0 ==> piecesRoot.None?)
    && (length.value.n > 0 ==> piecesRoot.Some? && piecesRoot.value.VBytes? && |piecesRoot.value.s| == 32)
  }

  /** visit_tree: the entries of a node are added in the order of its keys. */
  function Visit(c: Context, node: Value, parts: seq<Value>, depth: nat, b: Book): Option<Book>
    decreases if depth > MAX_TREE_DEPTH then 0 else MAX_TREE_DEPTH + 1 - depth, 1, 0
  {
    if depth > MAX_TREE_DEPTH || !node.VDict? || node.fields == [] then Skip(c, b)
    else if IsLeafNode(node.fields) then
      if !LeafUsable(node.fields, parts) then Skip(c, b)
      else
        var leaf := LeafFields(node.fields);
        Append(c, parts, Get(leaf, K_LENGTH).value.n, IsPadding(leaf), b)
    else VisitFields(c, node.fields, parts, depth, b)
  }

  function VisitFields(c: Context, fields: seq<Field>, parts: seq<Value>, depth: nat, b: Book): Option<Book>
    requires depth <= MAX_TREE_DEPTH
    decreases MAX_TREE_DEPTH + 1 - depth, 0, |fields|
  {
    if fields == [] then Some(b)
    else if Component(c.u, fields[0].key).None? then
      if c.strict then None else VisitFields(c, fields[1..], parts, depth, b)
    else
      match Visit(c, fields[0].value, parts + [fields[0].key], depth + 1, b)
      case None => None
      case Some(b') => VisitFields(c, fields[1..], parts, depth, b')
  }

  // ---------------------------------------------- the tree, flattened at once

  datatype Leaf = Leaf(parts: seq<Value>, length: int, padding: bool)

  /** What a well-formed tree holds, left to right: one item per leaf. */
  function Leaves(node: Value, parts: seq<Value>): seq<Leaf>
    decreases node, 1
  {
    if !node.VDict? then []
    else if IsLeafNode(node.fields) then
      var leaf := LeafFields(node.fields);
      var length := Get(leaf, K_LENGTH);
      [Leaf(parts, if length.Some? && length.value.VInt? then length.value.n else 0, IsPadding(leaf))]
    else LeavesOf(node.fields, parts)
  }

  function LeavesOf(fields: seq<Field>, parts: seq<Value>): seq<Leaf>
    decreases fields, 0
  {
    if fields == [] then []
    else FieldLeaves(fields[0], parts) + LeavesOf(fields[1..], parts)
  }

  function FieldLeaves(f: Field, parts: seq<Value>): seq<Leaf>
    decreases f, 0
  {
    match f
    case Field(key, child) => Leaves(child, parts + [key])
  }

  predicate WellFormed(u: Text, node: Value, parts: seq<Value>, depth: nat)
    decreases node, 1
  {
    depth <= MAX_TREE_DEPTH && node.VDict? && node.fields != []
    && if IsLeafNode(node.fields) then LeafUsable(node.fields, parts)
       else WellFormedFields(u, node.fields, parts, depth)
  }

  predicate WellFormedFields(u: Text, fields: seq<Field>, parts: seq<Value>, depth: nat)
    decreases fields, 0
  {
    fields == [] || (WellFormedField(u, fields[0], parts, depth) && WellFormedFields(u, fields[1..], parts, depth))
  }

  predicate WellFormedField(u: Text, f: Field, parts: seq<Value>, depth: nat)
    decreases f, 0
  {
    match f
    case Field(key, child) => Component(u, key).Some? && WellFormed(u, child, parts + [key], depth + 1)
  }

  function AppendLeaves(c: Context, leaves: seq<Leaf>, b: Book): Option<Book> {
    if leaves == [] then Some(b)
    else
      match Append(c, leaves[0].parts, leaves[0].length, leaves[0].padding, b)
      case None => None
      case Some(b') => AppendLeaves(c, leaves[1..], b')
  }

  lemma {:induction false} AppendLeavesSplit(c: Context, a: seq<Leaf>, z: seq<Leaf>, b: Book)
    ensures AppendLeaves(c, a + z, b) ==
            match AppendLeaves(c, a, b) case None => None case Some(b') => AppendLeaves(c, z, b')
    decreases |a|
  {
    hide Append;
    if a == [] {
      assert a + z == z;
    } else {
      assert (a + z)[0] == a[0] && (a + z)[1..] == a[1..] + z;
      match Append(c, a[0].parts, a[0].length, a[0].padding, b)
      case None =>
      case Some(b') => AppendLeavesSplit(c, a[1..], z, b');
    }
  }

  /** In strict mode the walk over a tree adds exactly its leaves, and refuses exactly the ill-formed trees. */
  lemma {:induction false} VisitFlattens(c: Context, node: Value, parts: seq<Value>, depth: nat, b: Book)
    requires c.strict
    ensures Visit(c, node, parts, depth, b)
         == if WellFormed(c.u, node, parts, depth) then AppendLeaves(c, Leaves(node, parts), b) else None
    decreases node, 1
  {
    hide Append, Component, LeafUsable, VisitFields, LeavesOf, WellFormedFields;
    if depth <= MAX_TREE_DEPTH && node.VDict? && node.fields != [] {
      if IsLeafNode(node.fields) {
        if LeafUsable(node.fields, parts) {
          LeafOnly(c, node, parts, b);
        }
      } else {
        VisitFieldsFlattens(c, node.fields, parts, depth, b);
      }
    }
  }

  lemma LeafOnly(c: Context, node: Value, parts: seq<Value>, b: Book)
    requires node.VDict? && IsLeafNode(node.fields) && LeafUsable(node.fields, parts)
    ensures var leaf := LeafFields(node.fields);
            Get(leaf, K_LENGTH).Some? && Get(leaf, K_LENGTH).value.VInt?
            && AppendLeaves(c, Leaves(node, parts), b)
            == Append(c, parts, Get(leaf, K_LENGTH).value.n, IsPadding(leaf), b)
  {
    hide Append, Lookup;
    var ls := Leaves(node, parts);
    assert ls[1..] == [];
  }

  lemma {:induction false} VisitFieldsFlattens(c: Context, fields: seq<Field>, parts: seq<Value>, depth: nat, b: Book)
    requires c.strict && depth <= MAX_TREE_DEPTH
    ensures VisitFields(c, fields, parts, depth, b)
         == if WellFormedFields(c.u, fields, parts, depth) then AppendLeaves(c, LeavesOf(fields, parts), b) else None
    decreases fields, 0
  {
    hide Append, Component, Visit, Leaves, WellFormed;
    if fields != [] {
      var here := parts + [fields[0].key];
      VisitFieldFlattens(c, fields[0], parts, depth, b);
      AppendLeavesSplit(c, FieldLeaves(fields[0], parts), LeavesOf(fields[1..], parts), b);
      match Visit(c, fields[0].value, here, depth + 1, b)
      case None =>
      case Some(b') => VisitFieldsFlattens(c, fields[1..], parts, depth, b');
    }
  }

  lemma {:induction false} VisitFieldFlattens(c: Context, f: Field, parts: seq<Value>, depth: nat, b: Book)
    requires c.strict && depth <= MAX_TREE_DEPTH
    ensures Component(c.u, f.key).Some? ==>
              Visit(c, f.value, parts + [f.key], depth + 1, b)
              == if WellFormedField(c.u, f, parts, depth) then AppendLeaves(c, FieldLeaves(f, parts), b) else None
    ensures Component(c.u, f.key).None? ==> !WellFormedField(c.u, f, parts, depth)
    decreases f, 0
  {
    hide Append, Component, Visit, Leaves, WellFormed;
    match f
    case Field(key, child) => VisitFlattens(c, child, parts + [key], depth + 1, b);
  }

  // ----------------------------------------------- what appending amounts to

  /** A leaf's entry; only leaves with valid, non-empty paths get one. */
  function LeafEntry(c: Context, leaf: Leaf): Entry {
    match Components(c.u, leaf.parts)
    case None => Entry("", "", leaf.length, leaf.padding)
    case Some(names) => EntryOf(c, names, leaf.length, leaf.padding)
  }

  function LeafEntries(c: Context, leaves: seq<Leaf>): (es: seq<Entry>)
    ensures |es| == |leaves| && forall i | 0 <= i < |leaves| :: es[i] == LeafEntry(c, leaves[i])
  {
    if leaves == [] then [] else [LeafEntry(c, leaves[0])] + LeafEntries(c, leaves[1..])
  }

  predicate HasName(u: Text, leaf: Leaf) { leaf.parts != [] && Components(u, leaf.parts).Some? }

  predicate Nameable(u: Text, leaves: seq<Leaf>) {
    forall i | 0 <= i < |leaves| :: HasName(u, leaves[i])
  }

  predicate DistinctKeys(es: seq<Entry>) {
    forall i, j | 0 <= i < j < |es| :: es[i].key != es[j].key
  }

  function KeySet(es: seq<Entry>): set<string> {
    set i | 0 <= i < |es| :: es[i].key
  }

  /** Appending leaves in strict mode succeeds exactly when all their paths are valid and distinct. */
  lemma {:induction false} AppendLeavesResult(c: Context, leaves: seq<Leaf>, b: Book)
    requires c.strict
    ensures var es := LeafEntries(c, leaves);
            if Nameable(c.u, leaves) && DistinctKeys(es) && KeySet(es) !! b.seen
            then AppendLeaves(c, leaves, b) == Some(Book(b.entries + es, b.seen + KeySet(es)))
            else AppendLeaves(c, leaves, b) == None
    decreases |leaves|
  {
    hide Components, EntryOf, PathKey, LeafEntries, LeafEntry, Append, Nameable, KeySet, DistinctKeys;
    if leaves == [] {
      NoLeaves(c, b);
    } else {
      var (e, rest) := (LeafEntry(c, leaves[0]), LeafEntries(c, leaves[1..]));
      LeavesCons(c, leaves);
      KeySetCons(e, rest);
      AppendOne(c, leaves[0], b);
      if HasName(c.u, leaves[0]) && e.key !in b.seen {
        AppendLeavesResult(c, leaves[1..], Book(b.entries + [e], b.seen + {e.key}));
        BookCons(b, e, rest);
      }
    }
  }

  lemma NoLeaves(c: Context, b: Book)
    ensures Nameable(c.u, []) && LeafEntries(c, []) == [] && DistinctKeys([]) && KeySet([]) == {}
    ensures Book(b.entries + [], b.seen + {}) == b
  {
  }

  lemma LeavesCons(c: Context, leaves: seq<Leaf>)
    requires leaves != []
    ensures LeafEntries(c, leaves) == [LeafEntry(c, leaves[0])] + LeafEntries(c, leaves[1..])
    ensures Nameable(c.u, leaves) <==> HasName(c.u, leaves[0]) && Nameable(c.u, leaves[1..])
  {
    hide Components, LeafEntry;
    assert forall i | 1 <= i < |leaves| :: leaves[i] == leaves[1..][i - 1];
  }

  lemma BookCons(b: Book, e: Entry, rest: seq<Entry>)
    ensures b.entries + ([e] + rest) == (b.entries + [e]) + rest
    ensures b.seen + ({e.key} + KeySet(rest)) == (b.seen + {e.key}) + KeySet(rest)
  {
  }

  lemma AppendOne(c: Context, leaf: Leaf, b: Book)
    requires c.strict
    ensures Append(c, leaf.parts, leaf.length, leaf.padding, b)
         == if leaf.parts != [] && Components(c.u, leaf.parts).Some? && LeafEntry(c, leaf).key !in b.seen
            then Some(Book(b.entries + [LeafEntry(c, leaf)], b.seen + {LeafEntry(c, leaf).key})) else None
  {
  }

  lemma KeySetCons(e: Entry, es: seq<Entry>)
    ensures KeySet([e] + es) == {e.key} + KeySet(es)
    ensures DistinctKeys([e] + es) <==> DistinctKeys(es) && e.key !in KeySet(es)
  {
    var all := [e] + es;
    assert forall i | 0 <= i < |es| :: all[i + 1] == es[i];
    assert all[0] == e;
    forall k | k in {e.key} + KeySet(es) ensures k in KeySet(all) {
      if k in KeySet(es) {
        var i :| 0 <= i < |es| && es[i].key == k;
        assert all[i + 1].key == k;
      }
    }
  }

  function TotalLength(es: seq<Entry>): int {
    if es == [] then 0 else es[0].length + TotalLength(es[1..])
  }

  lemma {:induction false} TotalLengthSplit(a: seq<Entry>, b: seq<Entry>)
    ensures TotalLength(a + b) == TotalLength(a) + TotalLength(b)
    decreases |a|
  {
    if a == [] {
      assert a + b == b;
    } else {
      TotalLengthSplit(a[1..], b);
      assert (a + b)[1..] == a[1..] + b;
    }
  }

  lemma {:induction false} LeafEntriesSplit(c: Context, a: seq<Leaf>, z: seq<Leaf>)
    ensures LeafEntries(c, a + z) == LeafEntries(c, a) + LeafEntries(c, z)
  {
    hide LeafEntries, LeafEntry;
  }

  /** The bytes a tree declares. */
  function TreeSize(node: Value): int
    decreases node, 1
  {
    if !node.VDict? then 0
    else if IsLeafNode(node.fields) then
      var length := Get(LeafFields(node.fields), K_LENGTH);
      if length.Some? && length.value.VInt? then length.value.n else 0
    else FieldsSize(node.fields)
  }

  function FieldsSize(fields: seq<Field>): int
    decreases fields, 0
  {
    if fields == [] then 0 else FieldSize(fields[0]) + FieldsSize(fields[1..])
  }

  function FieldSize(f: Field): int
    decreases f, 0
  {
    match f
    case Field(_, child) => TreeSize(child)
  }

  lemma {:induction false} LengthsConserved(c: Context, node: Value, parts: seq<Value>)
    ensures TotalLength(LeafEntries(c, Leaves(node, parts))) == TreeSize(node)
    decreases node, 1
  {
    hide Lookup, LeafEntry;
    if node.VDict? && !IsLeafNode(node.fields) {
      FieldLengthsConserved(c, node.fields, parts);
    } else if node.VDict? {
      LeafEntryLength(c, Leaves(node, parts)[0]);
      var es := LeafEntries(c, Leaves(node, parts));
      assert es[1..] == [];
    }
  }

  lemma LeafEntryLength(c: Context, leaf: Leaf)
    ensures LeafEntry(c, leaf).length == leaf.length
  {
  }

  lemma {:induction false} FieldLengthsConserved(c: Context, fields: seq<Field>, parts: seq<Value>)
    ensures TotalLength(LeafEntries(c, LeavesOf(fields, parts))) == FieldsSize(fields)
    decreases fields, 0
  {
    hide Leaves, LeafEntry, TreeSize;
    if fields != [] {
      OneFieldConserved(c, fields[0], parts);
      FieldLengthsConserved(c, fields[1..], parts);
      LeafEntriesSplit(c, FieldLeaves(fields[0], parts), LeavesOf(fields[1..], parts));
      TotalLengthSplit(LeafEntries(c, FieldLeaves(fields[0], parts)), LeafEntries(c, LeavesOf(fields[1..], parts)));
    }
  }

  lemma {:induction false} OneFieldConserved(c: Context, f: Field, parts: seq<Value>)
    ensures TotalLength(LeafEntries(c, FieldLeaves(f, parts))) == FieldSize(f)
    decreases f, 0
  {
    match f
    case Field(key, child) => LengthsConserved(c, child, parts + [key]);
  }

  lemma {:induction false} ComponentsSnoc(u: Text, parts: seq<Value>, v: Value)
    ensures Components(u, parts + [v]).Some? <==> Components(u, parts).Some? && Component(u, v).Some?
    decreases |parts|
  {
    hide Component;
    if parts == [] {
      assert parts + [v] == [v] && [v][1..] == [];
    } else {
      ComponentsSnoc(u, parts[1..], v);
      assert (parts + [v])[1..] == parts[1..] + [v];
    }
  }

  lemma {:induction false} WellFormedNameable(u: Text, node: Value, parts: seq<Value>, depth: nat)
    requires WellFormed(u, node, parts, depth) && Components(u, parts).Some?
    ensures Nameable(u, Leaves(node, parts)) && Leaves(node, parts) != []
    decreases node, 1
  {
    hide Components, Component;
    if !IsLeafNode(node.fields) {
      WellFormedFieldsNameable(u, node.fields, parts, depth);
    }
  }

  lemma {:induction false} WellFormedFieldsNameable(u: Text, fields: seq<Field>, parts: seq<Value>, depth: nat)
    requires WellFormedFields(u, fields, parts, depth) && Components(u, parts).Some?
    ensures Nameable(u, LeavesOf(fields, parts)) && (fields != [] ==> LeavesOf(fields, parts) != [])
    decreases fields, 0
  {
    hide Components, Component, Leaves, WellFormed;
    if fields != [] {
      WellFormedFieldNameable(u, fields[0], parts, depth);
      WellFormedFieldsNameable(u, fields[1..], parts, depth);
    }
  }

  lemma {:induction false} WellFormedFieldNameable(u: Text, f: Field, parts: seq<Value>, depth: nat)
    requires WellFormedField(u, f, parts, depth) && Components(u, parts).Some?
    ensures Nameable(u, FieldLeaves(f, parts)) && FieldLeaves(f, parts) != []
    decreases f, 0
  {
    match f
    case Field(key, child) =>
      ComponentsSnoc(u, parts, key);
      WellFormedNameable(u, child, parts + [key], depth + 1);
  }

  /**
    The strict walk over a v2 file tree: it succeeds exactly on well-formed
    trees whose normalised paths are pairwise distinct, and then lists one
    entry per leaf, left to right, with every declared byte accounted for.
   */
  lemma FlattenTree(c: Context, tree: Value)
    requires c.strict
    ensures var leaves := Leaves(tree, []);
            var es := LeafEntries(c, leaves);
            if WellFormed(c.u, tree, [], 0) && DistinctKeys(es)
            then Visit(c, tree, [], 0, EMPTY_BOOK) == Some(Book(es, KeySet(es)))
                 && |es| == |leaves| > 0 && TotalLength(es) == TreeSize(tree)
            else Visit(c, tree, [], 0, EMPTY_BOOK) == None
  {
    hide Visit, Leaves, LeafEntries, WellFormed, AppendLeaves;
    var leaves := Leaves(tree, []);
    var es := LeafEntries(c, leaves);
    VisitFlattens(c, tree, [], 0, EMPTY_BOOK);
    AppendLeavesResult(c, leaves, EMPTY_BOOK);
    LengthsConserved(c, tree, []);
    assert [] + es == es && {} + KeySet(es) == KeySet(es);
    if WellFormed(c.u, tree, [], 0) {
      WellFormedNameable(c.u, tree, [], 0);
    }
  }

  // ------------------------------------------------- the v1 list as leaves

  function RowLeaf(row: Value): Leaf
    requires RowUsable(row)
  {
    Leaf(Either(Get(row.fields, K_PATH_UTF8), Get(row.fields, K_PATH)).value.items,
         Get(row.fields, K_LENGTH).value.n, IsPadding(row.fields))
  }

  function RowLeaves(rows: seq<Value>): (leaves: seq<Leaf>)
    requires forall row | row in rows :: RowUsable(row)
    ensures |leaves| == |rows| && forall i | 0 <= i < |rows| :: leaves[i] == RowLeaf(rows[i])
  {
    if rows == [] then [] else [RowLeaf(rows[0])] + RowLeaves(rows[1..])
  }

  lemma {:induction false} ListRowsFlattens(c: Context, rows: seq<Value>, b: Book)
    requires c.strict
    ensures ListRows(c, rows, b)
         == if forall row | row in rows :: RowUsable(row) then AppendLeaves(c, RowLeaves(rows), b) else None
    decreases |rows|
  {
    hide Append, RowUsable, Get, IsPadding;
    if rows != [] {
      if RowUsable(rows[0]) {
        match ListRow(c, rows[0], b)
        case None =>
        case Some(b') => ListRowsFlattens(c, rows[1..], b');
      }
      assert rows == [rows[0]] + rows[1..];
    }
  }

  /** The strict v1 list: one entry per row, in order, and only when all normalised paths differ. */
  lemma FlattenList(c: Context, rows: seq<Value>)
    requires c.strict
    ensures if (forall row | row in rows :: RowUsable(row)) && Nameable(c.u, RowLeaves(rows))
               && DistinctKeys(LeafEntries(c, RowLeaves(rows)))
            then var es := LeafEntries(c, RowLeaves(rows));
                 |es| == |rows| && ListRows(c, rows, EMPTY_BOOK) == Some(Book(es, KeySet(es)))
            else ListRows(c, rows, EMPTY_BOOK) == None
  {
    hide ListRows, LeafEntries, AppendLeaves, Nameable, RowUsable;
    ListRowsFlattens(c, rows, EMPTY_BOOK);
    if forall row | row in rows :: RowUsable(row) {
      var es := LeafEntries(c, RowLeaves(rows));
      AppendLeavesResult(c, RowLeaves(rows), EMPTY_BOOK);
      assert [] + es == es && {} + KeySet(es) == KeySet(es);
    }
  }

  // --------------------------------------------------------------- collisions

  lemma {:induction false} ComponentKeysSlashFree(u: Text, parts: seq<Value>)
    requires FoldsPlainly(u) && Components(u, parts).Some?
    ensures SlashFree(Keys(Components(u, parts).value))
  {
    if parts != [] {
      ComponentKeysSlashFree(u, parts[1..]);
    }
  }

  /** Two paths collide only when their folded components are the same: no false collisions. */
  lemma CollisionsAreReal(c: Context, a: seq<Value>, b: seq<Value>)
    requires FoldsPlainly(c.u) && '/' !in c.root.key
    requires a != [] && b != [] && Components(c.u, a).Some? && Components(c.u, b).Some?
    ensures var na := Components(c.u, a).value;
            var nb := Components(c.u, b).value;
            PathKey(c, na) == PathKey(c, nb) <==> Keys(na) == Keys(nb)
  {
    hide Components, Join;
    var ka := Keys(Components(c.u, a).value);
    var kb := Keys(Components(c.u, b).value);
    var pre := Prefix(c.root.key);
    ComponentKeysSlashFree(c.u, a);
    ComponentKeysSlashFree(c.u, b);
    if Join(pre + ka) == Join(pre + kb) {
      JoinInjective(pre + ka, pre + kb);
      assert ka == (pre + ka)[|pre|..] && kb == (pre + kb)[|pre|..];
    }
  }

  // ------------------------------------------------------- the whole manifest

  /** The info dictionary; None when the source would fail on a value that is no dictionary. */
  function InfoFields(root: Value): Option<seq<Field>> {
    if !root.VDict? then Some([])
    else
      match Get(root.fields, INFO)
      case None => Some([])
      case Some(v) => if !Truthy(v) then Some([]) else if v.VDict? then Some(v.fields) else None
  }

  function RootName(u: Text, strict: bool, info: seq<Field>): Option<Name> {
    var v := Either(Get(info, K_NAME_UTF8), Get(info, K_NAME));
    var name := if v.None? then None else Component(u, v.value);
    if name.Some? then name else if strict then None else Some(Name("", ""))
  }

  predicate HasFileList(info: seq<Field>) {
    Get(info, K_FILES).Some? && Get(info, K_FILES).value.VList?
  }

  predicate HasLength(info: seq<Field>) {
    Get(info, K_LENGTH).Some? && Get(info, K_LENGTH).value.VInt?
  }

  predicate HasTree(info: seq<Field>) {
    Get(info, K_FILE_TREE).Some? && Get(info, K_FILE_TREE).value.VDict?
  }

  function V1Entries(c: Context, info: seq<Field>): Option<seq<Entry>> {
    if HasFileList(info) then
      var files := Get(info, K_FILES).value.items;
      if c.strict && files == [] then None
      else
        match ListRows(c, files, EMPTY_BOOK)
        case None => None
        case Some(b) => Some(b.entries)
    else if HasLength(info) then
      var n := Get(info, K_LENGTH).value.n;
      if c.strict && n <= 0 then None
      else if c.root.shown != "" && n > 0 then Some([Entry(c.root.shown, c.root.key, n, false)])
      else Some([])
    else Some([])
  }

  function V2Entries(c: Context, info: seq<Field>): Option<seq<Entry>> {
    if !HasTree(info) then Some([])
    else
      match Visit(c, Get(info, K_FILE_TREE).value, [], 0, EMPTY_BOOK)
      case None => None
      case Some(b) => Some(b.entries)
  }

  /** The files a manifest compares: padding is left out. */
  function Pairs(es: seq<Entry>): seq<(string, int)> {
    if es == [] then []
    else (if es[0].padding then [] else [(es[0].key, es[0].length)]) + Pairs(es[1..])
  }

  /** BEP 52 wraps a single file in a directory of its own name. */
  predicate Wraps(v1: seq<(string, int)>, v2: seq<(string, int)>) {
    |v1| == 1 && |v2| == 1 && v2[0] == (v1[0].0 + "/" + v1[0].0, v1[0].1)
  }

  predicate Diverge(info: seq<Field>, v1: seq<Entry>, v2: seq<Entry>) {
    var p1, p2 := Pairs(v1), Pairs(v2);
    var unwrapped := if !HasFileList(info) && HasLength(info) && Wraps(p1, p2) then p1 else p2;
    p1 != unwrapped
  }

  function List(es: seq<Entry>): (ls: seq<Listed>)
    ensures |ls| == |es| && forall i | 0 <= i < |es| :: ls[i] == Listed(es[i].path, es[i].length, es[i].padding)
  {
    if es == [] then [] else [Listed(es[0].path, es[0].length, es[0].padding)] + List(es[1..])
  }

  function FileEntries(u: Text, root: Value, strict: bool): Option<seq<Listed>> {
    match InfoFields(root)
    case None => None
    case Some(info) =>
      match RootName(u, strict, info)
      case None => None
      case Some(name) =>
        var c := Context(u, strict, name);
        match (V1Entries(c, info), V2Entries(c, info))
        case (Some(v1), Some(v2)) =>
          if v1 != [] && v2 != [] && Diverge(info, v1, v2) then None
          else
            var out := if v1 != [] then v1 else v2;
            if strict && out == [] then None else Some(List(out))
        case _ => None
  }

  /**
    What a strict manifest promises.  Whatever it lists has pairwise distinct
    normalised paths.  A v2 tree contributes one entry per leaf with its bytes
    conserved.  When both versions are present, they name the same non-padding
    files with the same lengths in the same order, up to the wrapping of a
    single file.
   */
  lemma StrictManifest(u: Text, root: Value)
    requires FileEntries(u, root, true).Some?
    ensures InfoFields(root).Some? && RootName(u, true, InfoFields(root).value).Some?
    ensures var info := InfoFields(root).value;
            var c := Context(u, true, RootName(u, true, info).value);
            V1Entries(c, info).Some? && V2Entries(c, info).Some? &&
            var (v1, v2) := (V1Entries(c, info).value, V2Entries(c, info).value);
            FileEntries(u, root, true).value == List(if v1 != [] then v1 else v2)
            && (v1 != [] || v2 != [])
            && DistinctKeys(v1) && DistinctKeys(v2)
            && (HasTree(info) ==>
                  var tree := Get(info, K_FILE_TREE).value;
                  |v2| == |Leaves(tree, [])| > 0 && v2 == LeafEntries(c, Leaves(tree, []))
                  && TotalLength(v2) == TreeSize(tree))
            && (v1 != [] && v2 != [] ==>
                  Pairs(v1) == Pairs(v2)
                  || (!HasFileList(info) && HasLength(info) && Wraps(Pairs(v1), Pairs(v2))))
  {
    hide Visit, ListRows, Leaves, LeafEntries, TreeSize, Pairs, Component, List;
    var info := InfoFields(root).value;
    var c := Context(u, true, RootName(u, true, info).value);
    if HasTree(info) {
      FlattenTree(c, Get(info, K_FILE_TREE).value);
    }
    if HasFileList(info) {
      FlattenList(c, Get(info, K_FILES).value.items);
    }
  }
}
