/**
  A v2 file tree (BEP 52) read as a set of paths: what each path leads to, which
  trees the strict walk of core/inkdrop_acquire.py accepts, and that it lists
  every file of them once, in the order of the keys.
 */
module TorrentTree {
  import opened Outcomes
  import opened Bencode
  import opened BencodeDecoders
  import opened DecodedValues
  import opened TorrentManifest

  /** The bytes of an ASCII text. */
  function Ascii(s: string): Bytes {
    seq(|s|, i requires 0 <= i < |s| => if s[i] < 128 as char then s[i] as int else 0)
  }

  /** d.get(key) */
  function At(d: seq<Field>, key: string): Option<Value> { Lookup(d, VBytes(Ascii(key))) }

  /** The dictionary keys the manifest reads. */
  lemma KeyNames()
    ensures K_ATTR == Ascii("attr") && K_FILE_TREE == Ascii("file tree") && K_FILES == Ascii("files")
    ensures K_LENGTH == Ascii("length") && K_NAME == Ascii("name") && K_NAME_UTF8 == Ascii("name.utf-8")
    ensures K_PATH == Ascii("path") && K_PATH_UTF8 == Ascii("path.utf-8")
    ensures K_PIECES_ROOT == Ascii("pieces root") && INFO == Ascii("info") && Ascii("") == []
    ensures [LOWER_P] == Ascii("p")
    ensures [LOWER_I, LOWER_L, LOWER_D, LOWER_E, COLON, MINUS] == Ascii("ilde:-")
  {
  }

  // ----------------------------------------------------------------- names

  /** A component that names something in its own directory, in a text without control characters. */
  predicate Harmless(u: Text, text: string) {
    text !in {"", ".", ".."}
    && (forall i | 0 <= i < |text| :: text[i] != '/' && text[i] != '\\' && !u.isControl(text[i]))
    && !(|text| >= 2 && text[1] == ':' && ('a' <= text[0] <= 'z' || 'A' <= text[0] <= 'Z'))
    && text[|text| - 1] !in {' ', '.'}
  }

  /** The normal form of a component's text. */
  predicate Named(u: Text, v: Value, text: string) {
    v.VBytes? && u.decode(v.s).Some? && text == u.nfkc(u.decode(v.s).value)
  }

  ghost predicate ValidName(u: Text, v: Value) { exists text :: Named(u, v, text) && Harmless(u, text) }

  /** What a valid component is compared by. */
  ghost function Folded(u: Text, v: Value): (key: string)
    requires ValidName(u, v)
    ensures exists text :: Named(u, v, text) && key == u.casefold(text)
  {
    var text :| Named(u, v, text) && Harmless(u, text);
    u.casefold(text)
  }

  /** A component is accepted exactly when it is valid, shown in normal form and compared by that form, folded. */
  lemma ComponentExactly(u: Text, v: Value)
    ensures Component(u, v).Some? <==> ValidName(u, v)
    ensures Component(u, v).Some?
            ==> Named(u, v, Component(u, v).value.shown) && Component(u, v).value.key == Folded(u, v)
  {
    if v.VBytes? && u.decode(v.s).Some? {
      var text := u.nfkc(u.decode(v.s).value);
      HarmlessExactly(u, text);
      assert Named(u, v, text);
    }
  }

  lemma HarmlessExactly(u: Text, text: string)
    ensures PlainComponent(u, text) <==> Harmless(u, text)
  {
    assert PlainComponent(u, text) ==> forall i | 0 <= i < |text| :: text[i] in text;
  }

  // ------------------------------------------------------------------ paths

  /** A node with an entry under the empty key stands for a file. */
  predicate IsFile(node: Value) { node.VDict? && At(node.fields, "").Some? }

  /** Where a path leads; nothing lies below a file. */
  function NodeAt(node: Value, path: seq<Value>): Option<Value>
    decreases |path|
  {
    if path == [] then Some(node)
    else if !node.VDict? || IsFile(node) then None
    else
      match Lookup(node.fields, path[0])
      case None => None
      case Some(child) => NodeAt(child, path[1..])
  }

  /** What a file node must say: a length, and the root of its pieces exactly when there are any. */
  predicate FileNode(node: Value, length: int, padding: bool) {
    node.VDict? && |node.fields| == 1 && node.fields[0].key == VBytes([]) && node.fields[0].value.VDict?
    && var meta := node.fields[0].value.fields;
       At(meta, "length") == Some(VInt(length)) && length >= 0
       && (length == 0 ==> At(meta, "pieces root") == None)
       && (length > 0 ==>
             At(meta, "pieces root").Some? && At(meta, "pieces root").value.VBytes?
             && |At(meta, "pieces root").value.s| == 32)
       && (padding <==> At(meta, "attr").Some? && At(meta, "attr").value.VBytes?
                        && Ascii("p")[0] in At(meta, "attr").value.s)
  }

  /** What the strict walk asks of one node, by the path that leads to it. */
  ghost predicate GoodNode(u: Text, node: Value, path: seq<Value>) {
    node.VDict? && node.fields != [] && |path| <= 32
    && if IsFile(node) then path != [] && exists length, padding :: FileNode(node, length, padding)
       else forall i | 0 <= i < |node.fields| :: ValidName(u, node.fields[i].key)
  }

  /** Every node that some path leads to is good. */
  ghost predicate GoodTree(u: Text, tree: Value) {
    forall path, node :: NodeAt(tree, path) == Some(node) ==> GoodNode(u, node, path)
  }

  /** The same below a node that itself lies at parts. */
  ghost predicate GoodBelow(u: Text, node: Value, parts: seq<Value>) {
    forall path, n :: NodeAt(node, path) == Some(n) ==> GoodNode(u, n, parts + path)
  }

  lemma FileNodeExactly(node: Value, parts: seq<Value>)
    requires IsFile(node)
    ensures IsLeafNode(node.fields)
    ensures LeafUsable(node.fields, parts) <==> parts != [] && exists length, padding :: FileNode(node, length, padding)
    ensures forall length, padding | FileNode(node, length, padding) ::
              Leaves(node, parts) == [Leaf(parts, length, padding)]
  {
    KeyNames();
    hide Lookup;
    if |node.fields| == 1 {
      OnlyField(node.fields[0]);
      assert node.fields == [node.fields[0]];
    }
    if LeafUsable(node.fields, parts) {
      var leaf := LeafFields(node.fields);
      assert FileNode(node, Get(leaf, K_LENGTH).value.n, IsPadding(leaf));
    }
  }

  lemma OnlyField(f: Field)
    ensures forall k :: Lookup([f], k) == if k == f.key then Some(f.value) else None
  {
  }

  lemma {:induction false} FieldFound(fields: seq<Field>, i: nat)
    requires Distinct(KeysOf(fields)) && i < |fields|
    ensures Lookup(fields, fields[i].key) == Some(fields[i].value)
    decreases i
  {
    assert KeysOf(fields)[i] == fields[i].key && KeysOf(fields)[0] == fields[0].key;
    if i > 0 {
      DistinctTail(fields);
      FieldFound(fields[1..], i - 1);
    }
  }

  lemma DistinctTail(fields: seq<Field>)
    requires Distinct(KeysOf(fields)) && fields != []
    ensures Distinct(KeysOf(fields[1..]))
  {
    assert KeysOf(fields[1..]) == KeysOf(fields)[1..];
  }

  lemma {:induction false} LookupFinds(fields: seq<Field>, k: Value) returns (i: nat)
    requires Lookup(fields, k).Some?
    ensures i < |fields| && fields[i].key == k && fields[i].value == Lookup(fields, k).value
  {
    if fields[0].key == k {
      i := 0;
    } else {
      var j := LookupFinds(fields[1..], k);
      i := j + 1;
    }
  }

  lemma {:induction false} ProperFieldAt(fields: seq<Field>, i: nat)
    requires ProperFields(fields) && i < |fields|
    ensures ProperField(fields[i])
    decreases i
  {
    if i > 0 {
      ProperFieldAt(fields[1..], i - 1);
    }
  }

  /** Below an inner node lie its fields, each below its own key. */
  lemma GoodBelowFields(u: Text, node: Value, parts: seq<Value>)
    requires node.VDict? && !IsFile(node) && Distinct(KeysOf(node.fields))
    ensures GoodBelow(u, node, parts)
            <==> GoodNode(u, node, parts)
                 && forall i | 0 <= i < |node.fields| ::
                      GoodBelow(u, node.fields[i].value, parts + [node.fields[i].key])
  {
    hide GoodNode, IsFile, Lookup;
    assert parts + [] == parts && NodeAt(node, []) == Some(node);
    if GoodBelow(u, node, parts) {
      forall i, path, n | 0 <= i < |node.fields| && NodeAt(node.fields[i].value, path) == Some(n)
        ensures GoodNode(u, n, parts + [node.fields[i].key] + path)
      {
        FieldFound(node.fields, i);
        var whole := [node.fields[i].key] + path;
        assert whole[1..] == path;
        assert NodeAt(node, whole) == Some(n);
        assert parts + whole == parts + [node.fields[i].key] + path;
      }
    }
    if GoodNode(u, node, parts) && forall i | 0 <= i < |node.fields| ::
         GoodBelow(u, node.fields[i].value, parts + [node.fields[i].key])
    {
      forall path, n | NodeAt(node, path) == Some(n)
        ensures GoodNode(u, n, parts + path)
      {
        if path != [] {
          var i := LookupFinds(node.fields, path[0]);
          assert GoodBelow(u, node.fields[i].value, parts + [node.fields[i].key]);
          assert parts + [node.fields[i].key] + path[1..] == parts + path;
        }
      }
    }
  }

  lemma FileBelow(u: Text, node: Value, parts: seq<Value>)
    requires !node.VDict? || IsFile(node)
    ensures GoodBelow(u, node, parts) <==> GoodNode(u, node, parts)
  {
    hide GoodNode, IsFile;
    assert NodeAt(node, []) == Some(node) && parts + [] == parts;
    assert forall path, n :: NodeAt(node, path) == Some(n) ==> path == [] && n == node;
  }

  /** The strict walk takes exactly the trees all of whose nodes are good. */
  lemma {:induction false} WellFormedBelow(u: Text, node: Value, parts: seq<Value>)
    requires Proper(node)
    ensures WellFormed(u, node, parts, |parts|) <==> GoodBelow(u, node, parts)
    decreases node, 1
  {
    hide GoodBelow, ValidName, Component, Lookup, FileNode, LeafUsable;
    if !node.VDict? || IsFile(node) {
      FileBelow(u, node, parts);
      if node.VDict? {
        FileNodeExactly(node, parts);
      }
    } else {
      GoodBelowFields(u, node, parts);
      FieldsBelow(u, node.fields, parts);
      InnerExactly(node);
    }
  }

  lemma InnerExactly(node: Value)
    requires node.VDict?
    ensures IsFile(node) <==> IsLeafNode(node.fields)
  {
    KeyNames();
  }

  lemma {:induction false} FieldsBelow(u: Text, fields: seq<Field>, parts: seq<Value>)
    requires ProperFields(fields)
    ensures WellFormedFields(u, fields, parts, |parts|)
            <==> forall i | 0 <= i < |fields| ::
                   ValidName(u, fields[i].key) && GoodBelow(u, fields[i].value, parts + [fields[i].key])
    decreases fields, 0
  {
    hide GoodBelow, ValidName, Component, WellFormed;
    if fields != [] {
      FieldBelow(u, fields[0], parts);
      FieldsBelow(u, fields[1..], parts);
      assert forall i | 0 < i < |fields| :: fields[i] == fields[1..][i - 1];
    }
  }

  lemma {:induction false} FieldBelow(u: Text, f: Field, parts: seq<Value>)
    requires ProperField(f)
    ensures WellFormedField(u, f, parts, |parts|)
            <==> ValidName(u, f.key) && GoodBelow(u, f.value, parts + [f.key])
    decreases f, 0
  {
    match f
    case Field(key, child) =>
      ComponentExactly(u, key);
      WellFormedBelow(u, child, parts + [key]);
  }

  /** A decoded tree is accepted exactly when every path in it leads to a good node. */
  lemma TreeExactly(u: Text, tree: Value)
    requires Proper(tree)
    ensures WellFormed(u, tree, [], 0) <==> GoodTree(u, tree)
  {
    hide WellFormed, GoodNode;
    WellFormedBelow(u, tree, []);
    assert forall path: seq<Value> :: [] + path == path;
  }

  // ------------------------------------------------------- the files of a tree

  /** This path leads to this file. */
  predicate FileAt(tree: Value, path: seq<Value>, length: int, padding: bool) {
    NodeAt(tree, path).Some? && FileNode(NodeAt(tree, path).value, length, padding)
  }

  /** Where the paths part, p takes the earlier key. */
  predicate Precedes(node: Value, p: seq<Value>, q: seq<Value>)
    decreases |p|
  {
    p != [] && q != [] && node.VDict?
    && if p[0] == q[0]
       then Lookup(node.fields, p[0]).Some? && Precedes(Lookup(node.fields, p[0]).value, p[1..], q[1..])
       else exists i, j :: 0 <= i < j < |node.fields| && node.fields[i].key == p[0] && node.fields[j].key == q[0]
  }

  /** The files of a tree: each path that leads to one, once, in the order of the keys. */
  ghost predicate ListsFiles(node: Value, parts: seq<Value>, files: seq<Leaf>) {
    (forall i | 0 <= i < |files| :: FileUnder(node, parts, files[i]))
    && (forall path, length, padding | FileAt(node, path, length, padding) ::
          Leaf(parts + path, length, padding) in files)
    && forall i, j | 0 <= i < j < |files| :: Earlier(node, parts, files[i], files[j])
  }

  predicate FileUnder(node: Value, parts: seq<Value>, file: Leaf) {
    parts <= file.parts && FileAt(node, file.parts[|parts|..], file.length, file.padding)
  }

  predicate Earlier(node: Value, parts: seq<Value>, f: Leaf, g: Leaf) {
    parts <= f.parts && parts <= g.parts && Precedes(node, f.parts[|parts|..], g.parts[|parts|..])
  }

  /** The same for the fields of a node from the k-th on. */
  ghost predicate ListsFrom(node: Value, parts: seq<Value>, k: nat, files: seq<Leaf>)
    requires node.VDict?
  {
    (forall i | 0 <= i < |files| :: FromField(node, parts, k, files[i]) && FileUnder(node, parts, files[i]))
    && (forall i, path, length, padding | k <= i < |node.fields|
        && FileAt(node.fields[i].value, path, length, padding) ::
          Leaf(parts + [node.fields[i].key] + path, length, padding) in files)
    && forall i, j | 0 <= i < j < |files| :: Earlier(node, parts, files[i], files[j])
  }

  predicate FromField(node: Value, parts: seq<Value>, k: nat, file: Leaf)
    requires node.VDict?
  {
    |parts| < |file.parts| && exists i :: k <= i < |node.fields| && node.fields[i].key == file.parts[|parts|]
  }

  /** The leaves the walk appends are the files of the tree. */
  lemma {:induction false} LeavesBelow(u: Text, node: Value, parts: seq<Value>)
    requires Proper(node) && WellFormed(u, node, parts, |parts|)
    ensures ListsFiles(node, parts, Leaves(node, parts))
    decreases node, 1, 0
  {
    InnerExactly(node);
    if IsFile(node) {
      FileAlone(node, parts);
    } else {
      FieldLeavesFrom(u, node, parts, 0, node.fields);
      AllFields(node, parts, LeavesOf(node.fields, parts));
    }
  }

  lemma FileAlone(node: Value, parts: seq<Value>)
    requires IsFile(node) && IsLeafNode(node.fields) && LeafUsable(node.fields, parts)
    ensures ListsFiles(node, parts, Leaves(node, parts))
  {
    FileNodeExactly(node, parts);
    hide Leaves, LeafUsable, FileNode, IsFile;
    var length, padding :| FileNode(node, length, padding);
    assert NodeAt(node, []) == Some(node) && parts[|parts|..] == [] && parts + [] == parts;
    forall path, n, b | FileAt(node, path, n, b)
      ensures Leaf(parts + path, n, b) in Leaves(node, parts)
    {
      assert path == [] && Leaves(node, parts) == [Leaf(parts, n, b)];
    }
  }

  lemma AllFields(node: Value, parts: seq<Value>, files: seq<Leaf>)
    requires node.VDict? && !IsFile(node) && ListsFrom(node, parts, 0, files)
    ensures ListsFiles(node, parts, files)
  {
    hide FileNode, Lookup, Precedes, IsFile;
    forall path, length, padding | FileAt(node, path, length, padding)
      ensures Leaf(parts + path, length, padding) in files
    {
      if path == [] {
        NotAFile(node, length, padding);
      } else {
        var i := LookupFinds(node.fields, path[0]);
        assert FileAt(node.fields[i].value, path[1..], length, padding);
        assert parts + [node.fields[i].key] + path[1..] == parts + path;
      }
    }
  }

  lemma NotAFile(node: Value, length: int, padding: bool)
    requires node.VDict? && !IsFile(node)
    ensures !FileNode(node, length, padding)
  {
    KeyNames();
  }

  lemma {:induction false} FieldLeavesFrom(u: Text, node: Value, parts: seq<Value>, k: nat, fields: seq<Field>)
    requires node.VDict? && !IsFile(node) && Distinct(KeysOf(node.fields)) && k <= |node.fields|
    requires fields == node.fields[k..] && ProperFields(fields) && WellFormedFields(u, fields, parts, |parts|)
    ensures ListsFrom(node, parts, k, LeavesOf(fields, parts))
    decreases fields, 0, 0
  {
    hide Proper, WellFormed, Component, Leaves, ListsFrom, IsFile;
    if fields == [] {
      NoFields(node, parts, k);
    } else {
      assert ProperField(fields[0]) && WellFormedField(u, fields[0], parts, |parts|);
      FieldLeavesBelow(u, fields[0], parts);
      FieldLeavesFrom(u, node, parts, k + 1, fields[1..]);
      OneMoreField(node, parts, k, FieldLeaves(fields[0], parts), LeavesOf(fields[1..], parts));
    }
  }

  lemma {:induction false} FieldLeavesBelow(u: Text, f: Field, parts: seq<Value>)
    requires ProperField(f) && WellFormedField(u, f, parts, |parts|)
    ensures ListsFiles(f.value, parts + [f.key], FieldLeaves(f, parts))
    decreases f, 0, 0
  {
    match f
    case Field(key, child) => LeavesBelow(u, child, parts + [key]);
  }

  lemma NoFields(node: Value, parts: seq<Value>, k: nat)
    requires node.VDict? && k == |node.fields|
    ensures ListsFrom(node, parts, k, [])
  {
  }

  /** The files below one field come before those below the fields after it. */
  lemma OneMoreField(node: Value, parts: seq<Value>, k: nat, a: seq<Leaf>, b: seq<Leaf>)
    requires node.VDict? && !IsFile(node) && k < |node.fields| && Distinct(KeysOf(node.fields))
    requires ListsFiles(node.fields[k].value, parts + [node.fields[k].key], a) && ListsFrom(node, parts, k + 1, b)
    ensures ListsFrom(node, parts, k, a + b)
  {
    hide FileAt, Precedes, IsFile;
    var f := node.fields[k];
    forall i | 0 <= i < |a|
      ensures FromField(node, parts, k, a[i]) && FileUnder(node, parts, a[i]) && |parts| < |a[i].parts|
              && a[i].parts[|parts|] == f.key
    {
      OneDown(node, parts, k, a[i]);
    }
    forall i, j | 0 <= i < j < |a|
      ensures Earlier(node, parts, a[i], a[j])
    {
      BothDown(node, parts, k, a[i], a[j]);
    }
    forall i, j | 0 <= i < |a| && 0 <= j < |b|
      ensures Earlier(node, parts, a[i], b[j])
    {
      FieldsApart(node, parts, k, a[i], b[j]);
    }
    forall i, path, length, padding | k <= i < |node.fields| && FileAt(node.fields[i].value, path, length, padding)
      ensures Leaf(parts + [node.fields[i].key] + path, length, padding) in a + b
    {
    }
    assert forall i | |a| <= i < |a + b| :: (a + b)[i] == b[i - |a|];
  }

  lemma OneDown(node: Value, parts: seq<Value>, k: nat, file: Leaf)
    requires node.VDict? && !IsFile(node) && k < |node.fields| && Distinct(KeysOf(node.fields))
    requires FileUnder(node.fields[k].value, parts + [node.fields[k].key], file)
    ensures FileUnder(node, parts, file) && FromField(node, parts, k, file) && file.parts[|parts|] == node.fields[k].key
  {
    hide FileNode, IsFile;
    FieldFound(node.fields, k);
    var path := file.parts[|parts|..];
    assert path[0] == (parts + [node.fields[k].key])[|parts|];
    assert path[1..] == file.parts[|parts| + 1..];
  }

  lemma BothDown(node: Value, parts: seq<Value>, k: nat, f: Leaf, g: Leaf)
    requires node.VDict? && k < |node.fields| && Distinct(KeysOf(node.fields))
    requires Earlier(node.fields[k].value, parts + [node.fields[k].key], f, g)
    ensures Earlier(node, parts, f, g)
  {
    FieldFound(node.fields, k);
    var (p, q) := (f.parts[|parts|..], g.parts[|parts|..]);
    assert p[0] == (parts + [node.fields[k].key])[|parts|] && q[0] == p[0];
    assert p[1..] == f.parts[|parts| + 1..] && q[1..] == g.parts[|parts| + 1..];
  }

  lemma FieldsApart(node: Value, parts: seq<Value>, k: nat, f: Leaf, g: Leaf)
    requires node.VDict? && k < |node.fields| && Distinct(KeysOf(node.fields)) && parts <= f.parts && parts <= g.parts
    requires |parts| < |f.parts| && f.parts[|parts|] == node.fields[k].key && FromField(node, parts, k + 1, g)
    ensures Earlier(node, parts, f, g)
  {
    var j :| k + 1 <= j < |node.fields| && node.fields[j].key == g.parts[|parts|];
    assert KeysOf(node.fields)[k] != KeysOf(node.fields)[j];
    assert f.parts[|parts|..][0] == node.fields[k].key && g.parts[|parts|..][0] == node.fields[j].key;
  }

  /**
    The strict walk over a decoded tree it accepts lists every path that leads to a
    file, once, with the file's length, in the order in which the keys were read.
   */
  lemma LeavesAreTheFiles(u: Text, tree: Value)
    requires Proper(tree) && GoodTree(u, tree)
    ensures ListsFiles(tree, [], Leaves(tree, []))
  {
    hide ListsFiles, GoodTree, WellFormed;
    TreeExactly(u, tree);
    LeavesBelow(u, tree, []);
  }
}
