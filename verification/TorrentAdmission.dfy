/**
  Which torrents are admitted (core/inkdrop_acquire.py), said of the decoded
  dictionary itself: its fields, its rows, its tree and the agreement of the two.
 */
module TorrentAdmission {
  import opened Outcomes
  import opened Bencode
  import opened BencodeDecoders
  import opened DecodedValues
  import opened TorrentManifest
  import opened TorrentEntries
  import opened TorrentTree
  import opened TorrentPayload

  /** Case folding neither makes nor removes a slash, and empties no text. */
  ghost predicate FoldsWell(u: Text) { FoldsPlainly(u) && forall s :: s != "" ==> u.casefold(s) != "" }

  // -------------------------------------------------------------- file by file

  ghost predicate ValidPath(u: Text, parts: seq<Value>) {
    parts != [] && forall i | 0 <= i < |parts| :: ValidName(u, parts[i])
  }

  /** What a path is compared by: its components, each normalised and folded. */
  ghost function FoldedPath(u: Text, parts: seq<Value>): (keys: seq<string>)
    requires ValidPath(u, parts)
    ensures |keys| == |parts| && forall i | 0 <= i < |parts| :: keys[i] == Folded(u, parts[i])
  {
    seq(|parts|, i requires 0 <= i < |parts| => Folded(u, parts[i]))
  }

  /** All paths are valid, and no two are the same once normalised and folded. */
  ghost predicate SoundFiles(u: Text, files: seq<Leaf>) {
    (forall i | 0 <= i < |files| :: ValidPath(u, files[i].parts))
    && forall i, j | 0 <= i < j < |files| :: FoldedPath(u, files[i].parts) != FoldedPath(u, files[j].parts)
  }

  /** The files that are no padding: what the two versions must agree on. */
  ghost function Content(u: Text, files: seq<Leaf>): seq<(seq<string>, int)>
    requires forall i | 0 <= i < |files| :: ValidPath(u, files[i].parts)
  {
    if files == [] then []
    else
      (if files[0].padding then [] else [(FoldedPath(u, files[0].parts), files[0].length)]) + Content(u, files[1..])
  }

  lemma {:induction false} ComponentsExactly(u: Text, parts: seq<Value>)
    ensures Components(u, parts).Some? <==> forall i | 0 <= i < |parts| :: ValidName(u, parts[i])
    ensures Components(u, parts).Some? ==>
              forall i | 0 <= i < |parts| :: Keys(Components(u, parts).value)[i] == Folded(u, parts[i])
  {
    hide Component, ValidName, Folded;
    if parts != [] {
      ComponentExactly(u, parts[0]);
      ComponentsExactly(u, parts[1..]);
      assert forall i | 1 <= i < |parts| :: parts[i] == parts[1..][i - 1];
    }
  }

  lemma NameExactly(u: Text, leaf: Leaf)
    ensures HasName(u, leaf) <==> ValidPath(u, leaf.parts)
    ensures HasName(u, leaf) ==> Keys(Components(u, leaf.parts).value) == FoldedPath(u, leaf.parts)
  {
    hide Components, ValidName, Folded;
    ComponentsExactly(u, leaf.parts);
  }

  /** Two entries have one key exactly when their folded paths are the same. */
  lemma SameKeyExactly(c: Context, f: Leaf, g: Leaf)
    requires FoldsPlainly(c.u) && '/' !in c.root.key && HasName(c.u, f) && HasName(c.u, g)
    ensures ValidPath(c.u, f.parts) && ValidPath(c.u, g.parts)
    ensures LeafEntry(c, f).key == LeafEntry(c, g).key <==> FoldedPath(c.u, f.parts) == FoldedPath(c.u, g.parts)
  {
    NameExactly(c.u, f);
    NameExactly(c.u, g);
    hide Components, ValidPath, FoldedPath;
    CollisionsAreReal(c, f.parts, g.parts);
  }

  lemma SoundExactly(c: Context, files: seq<Leaf>)
    requires FoldsPlainly(c.u) && '/' !in c.root.key
    ensures Nameable(c.u, files) && DistinctKeys(LeafEntries(c, files)) <==> SoundFiles(c.u, files)
  {
    hide HasName, LeafEntry, ValidPath, FoldedPath, LeafEntries, FoldsPlainly;
    forall i | 0 <= i < |files|
      ensures HasName(c.u, files[i]) <==> ValidPath(c.u, files[i].parts)
    {
      NameExactly(c.u, files[i]);
    }
    if Nameable(c.u, files) {
      forall i, j | 0 <= i < j < |files|
        ensures LeafEntries(c, files)[i].key == LeafEntries(c, files)[j].key
                <==> FoldedPath(c.u, files[i].parts) == FoldedPath(c.u, files[j].parts)
      {
        assert HasName(c.u, files[i]) && HasName(c.u, files[j]);
        SameKeyExactly(c, files[i], files[j]);
      }
    }
  }

  /** The compared pairs are the content, each path behind the torrent's own name. */
  lemma {:induction false} PairsAreContent(c: Context, files: seq<Leaf>)
    requires c.root.key != "" && Nameable(c.u, files)
    ensures forall i | 0 <= i < |files| :: ValidPath(c.u, files[i].parts)
    ensures var (pairs, content) := (Pairs(LeafEntries(c, files)), Content(c.u, files));
            |pairs| == |content| && forall i | 0 <= i < |pairs| ::
              content[i].0 != [] && pairs[i] == (Join([c.root.key] + content[i].0), content[i].1)
  {
    hide Components, ValidPath, FoldedPath, Join;
    forall i | 0 <= i < |files|
      ensures ValidPath(c.u, files[i].parts)
    {
      assert HasName(c.u, files[i]);
      NameExactly(c.u, files[i]);
    }
    if files != [] {
      assert HasName(c.u, files[0]);
      NameExactly(c.u, files[0]);
      PathNotEmpty(c.u, files[0].parts);
      NameableTail(c.u, files);
      PairsAreContent(c, files[1..]);
      EntriesTail(c, files);
    }
  }

  lemma PathNotEmpty(u: Text, parts: seq<Value>)
    requires ValidPath(u, parts)
    ensures FoldedPath(u, parts) != []
  {
  }

  lemma NameableTail(u: Text, files: seq<Leaf>)
    requires Nameable(u, files) && files != []
    ensures Nameable(u, files[1..])
  {
    hide HasName;
  }

  lemma EntriesTail(c: Context, files: seq<Leaf>)
    requires files != []
    ensures LeafEntries(c, files)[0] == LeafEntry(c, files[0])
            && LeafEntries(c, files)[1..] == LeafEntries(c, files[1..])
  {
    hide LeafEntry;
  }

  ghost predicate SlashFreeContent(content: seq<(seq<string>, int)>) {
    forall i | 0 <= i < |content| :: SlashFree(content[i].0)
  }

  lemma {:induction false} ContentSlashFree(u: Text, files: seq<Leaf>)
    requires FoldsPlainly(u) && forall i | 0 <= i < |files| :: ValidPath(u, files[i].parts)
    ensures SlashFreeContent(Content(u, files))
  {
    hide ValidPath, FoldedPath;
    if files != [] {
      FoldedSlashFree(u, files[0].parts);
      assert forall i | 0 <= i < |files[1..]| :: files[1..][i] == files[i + 1];
      ContentSlashFree(u, files[1..]);
    }
  }

  lemma FoldedSlashFree(u: Text, parts: seq<Value>)
    requires FoldsPlainly(u) && ValidPath(u, parts)
    ensures SlashFree(FoldedPath(u, parts))
  {
    ComponentsExactly(u, parts);
    ComponentKeysSlashFree(u, parts);
  }

  /** The pairs agree exactly when the content does. */
  lemma AgreeExactly(c: Context, a: seq<Leaf>, b: seq<Leaf>)
    requires FoldsPlainly(c.u) && c.root.key != "" && '/' !in c.root.key && Nameable(c.u, a) && Nameable(c.u, b)
    ensures forall i | 0 <= i < |a| :: ValidPath(c.u, a[i].parts)
    ensures forall i | 0 <= i < |b| :: ValidPath(c.u, b[i].parts)
    ensures Pairs(LeafEntries(c, a)) == Pairs(LeafEntries(c, b)) <==> Content(c.u, a) == Content(c.u, b)
  {
    hide ValidPath, Content, FoldedPath, Pairs, LeafEntries, Nameable, Join, FoldsPlainly;
    PairsAreContent(c, a);
    PairsAreContent(c, b);
    ContentSlashFree(c.u, a);
    ContentSlashFree(c.u, b);
    var (p, q, x, y) := (Pairs(LeafEntries(c, a)), Pairs(LeafEntries(c, b)), Content(c.u, a), Content(c.u, b));
    if p == q {
      forall i | 0 <= i < |x|
        ensures x[i] == y[i]
      {
        JoinedSame(c.root.key, x[i].0, y[i].0);
      }
    }
  }

  lemma JoinedSame(root: string, x: seq<string>, y: seq<string>)
    requires '/' !in root && SlashFree(x) && SlashFree(y) && Join([root] + x) == Join([root] + y)
    ensures x == y
  {
    JoinInjective([root] + x, [root] + y);
    assert x == ([root] + x)[1..] && y == ([root] + y)[1..];
  }

  // ---------------------------------------------------------------- the v1 list

  /** d.get(a) or d.get(b) */
  function Preferred(a: Option<Value>, b: Option<Value>): Option<Value> {
    if a.None? || a.value in {VInt(0), VBytes([]), VList([]), VDict([])} then b else a
  }

  /** What a row of the v1 list says of its file. */
  predicate RowSays(row: Value, file: Leaf) {
    row.VDict?
    && Preferred(At(row.fields, "path.utf-8"), At(row.fields, "path")) == Some(VList(file.parts))
    && file.parts != [] && At(row.fields, "length") == Some(VInt(file.length)) && file.length >= 0
    && (file.padding <==> At(row.fields, "attr").Some? && At(row.fields, "attr").value.VBytes?
                          && Ascii("p")[0] in At(row.fields, "attr").value.s)
  }

  predicate ListSays(rows: seq<Value>, files: seq<Leaf>) {
    |files| == |rows| && forall i | 0 <= i < |rows| :: RowSays(rows[i], files[i])
  }

  lemma RowExactly(row: Value, file: Leaf)
    ensures RowSays(row, file) <==> RowUsable(row) && file == RowLeaf(row)
  {
    KeyNames();
    hide Lookup;
  }

  lemma ListExactly(rows: seq<Value>, files: seq<Leaf>)
    ensures ListSays(rows, files) <==> (forall row | row in rows :: RowUsable(row)) && files == RowLeaves(rows)
  {
    hide RowSays, RowUsable, RowLeaf;
    if ListSays(rows, files) {
      forall i | 0 <= i < |rows|
        ensures RowUsable(rows[i]) && files[i] == RowLeaf(rows[i])
      {
        RowExactly(rows[i], files[i]);
      }
    }
    if (forall row | row in rows :: RowUsable(row)) && files == RowLeaves(rows) {
      forall i | 0 <= i < |rows|
        ensures RowSays(rows[i], files[i])
      {
        RowExactly(rows[i], files[i]);
      }
    }
  }

  // ------------------------------------------------------------ the whole manifest

  predicate HasRows(info: seq<Field>) { At(info, "files").Some? && At(info, "files").value.VList? }

  /** A torrent of one file: a length and no list. */
  predicate IsSingle(info: seq<Field>) { !HasRows(info) && At(info, "length").Some? && At(info, "length").value.VInt? }

  predicate HasFileTree(info: seq<Field>) { At(info, "file tree").Some? && At(info, "file tree").value.VDict? }

  /** The rows are usable, their paths valid and distinct, and a tree beside them has the same content. */
  ghost predicate GoodList(u: Text, info: seq<Field>)
    requires HasRows(info)
  {
    var rows := At(info, "files").value.items;
    rows != [] && exists files ::
      ListSays(rows, files) && SoundFiles(u, files)
      && (HasFileTree(info) ==>
            var leaves := Leaves(At(info, "file tree").value, []);
            SoundFiles(u, leaves) && Content(u, files) == Content(u, leaves))
  }

  /** A single file is not empty, and a tree beside it holds it alone, under its own name. */
  ghost predicate GoodSingle(u: Text, info: seq<Field>, name: Value)
    requires IsSingle(info) && ValidName(u, name)
  {
    var n := At(info, "length").value.n;
    n > 0
    && (HasFileTree(info) ==>
          var leaves := Leaves(At(info, "file tree").value, []);
          SoundFiles(u, leaves) && Content(u, leaves) == [([Folded(u, name)], n)])
  }

  /** What the strict manifest asks of an info dictionary with this name. */
  ghost predicate GoodFiles(u: Text, info: seq<Field>, name: Value)
    requires ValidName(u, name)
  {
    (HasRows(info) || IsSingle(info) || HasFileTree(info))
    && (HasRows(info) ==> GoodList(u, info))
    && (IsSingle(info) ==> GoodSingle(u, info, name))
    && (HasFileTree(info) ==>
          var tree := At(info, "file tree").value;
          GoodTree(u, tree) && SoundFiles(u, Leaves(tree, [])))
  }

  function NameOf(info: seq<Field>): Option<Value> { Preferred(At(info, "name.utf-8"), At(info, "name")) }

  ghost predicate GoodManifest(u: Text, info: seq<Field>) {
    NameOf(info).Some? && ValidName(u, NameOf(info).value) && GoodFiles(u, info, NameOf(info).value)
  }

  lemma NameOfExactly(u: Text, info: seq<Field>)
    ensures RootName(u, true, info).Some? <==> NameOf(info).Some? && ValidName(u, NameOf(info).value)
    ensures RootName(u, true, info).Some? && FoldsWell(u) ==>
              var root := RootName(u, true, info).value;
              root.key == Folded(u, NameOf(info).value) && root.key != "" && '/' !in root.key && root.shown != ""
  {
    KeyNames();
    hide Lookup, Component, ValidName, Folded;
    if NameOf(info).Some? {
      ComponentExactly(u, NameOf(info).value);
      if Component(u, NameOf(info).value).Some? {
        PlainName(u, NameOf(info).value);
      }
    }
  }

  lemma PlainName(u: Text, v: Value)
    requires Component(u, v).Some?
    ensures FoldsWell(u) ==> Component(u, v).value.key != "" && '/' !in Component(u, v).value.key
    ensures Component(u, v).value.shown != ""
  {
  }

  lemma FieldsExactly(info: seq<Field>)
    ensures HasRows(info) <==> HasFileList(info)
    ensures IsSingle(info) <==> !HasFileList(info) && HasLength(info)
    ensures HasFileTree(info) <==> HasTree(info)
    ensures At(info, "files") == Get(info, K_FILES) && At(info, "length") == Get(info, K_LENGTH)
    ensures At(info, "file tree") == Get(info, K_FILE_TREE)
  {
    KeyNames();
  }

  lemma TreeEntriesExactly(c: Context, info: seq<Field>)
    requires c.strict && FoldsPlainly(c.u) && '/' !in c.root.key && HasFileTree(info)
    requires Proper(At(info, "file tree").value)
    ensures var tree := At(info, "file tree").value;
            (V2Entries(c, info).Some? <==> GoodTree(c.u, tree) && SoundFiles(c.u, Leaves(tree, [])))
            && (V2Entries(c, info).Some? ==>
                  V2Entries(c, info) == Some(LeafEntries(c, Leaves(tree, []))) && Leaves(tree, []) != []
                  && Nameable(c.u, Leaves(tree, [])))
  {
    var tree := At(info, "file tree").value;
    FieldsExactly(info);
    TreeExactly(c.u, tree);
    FlattenTree(c, tree);
    SoundExactly(c, Leaves(tree, []));
    hide WellFormed, Leaves, LeafEntries, Nameable, SoundFiles, GoodTree, Visit, Components;
    if WellFormed(c.u, tree, [], 0) {
      NothingNamed(c.u);
      WellFormedNameable(c.u, tree, [], 0);
    }
  }

  lemma NothingNamed(u: Text)
    ensures Components(u, []).Some?
  {
  }

  lemma ListEntriesExactly(c: Context, info: seq<Field>)
    requires c.strict && FoldsPlainly(c.u) && '/' !in c.root.key && HasRows(info)
    ensures var rows := At(info, "files").value.items;
            (V1Entries(c, info).Some?
             <==> rows != [] && exists files :: ListSays(rows, files) && SoundFiles(c.u, files))
            && forall files | V1Entries(c, info).Some? && ListSays(rows, files) ::
                 V1Entries(c, info) == Some(LeafEntries(c, files)) && files != [] && Nameable(c.u, files)
  {
    var rows := At(info, "files").value.items;
    FieldsExactly(info);
    FlattenList(c, rows);
    hide RowUsable, ListSays, SoundFiles, Nameable, DistinctKeys, LeafEntries, RowLeaf, ListRows;
    forall files
      ensures ListSays(rows, files) <==> (forall row | row in rows :: RowUsable(row)) && files == RowLeaves(rows)
    {
      ListExactly(rows, files);
    }
    if forall row | row in rows :: RowUsable(row) {
      var files := RowLeaves(rows);
      assert ListSays(rows, files);
      SoundExactly(c, files);
    }
  }

  /** A single file agrees with a tree exactly when the tree holds it alone, in a directory of its name. */
  lemma SingleAgrees(c: Context, info: seq<Field>, n: int, leaves: seq<Leaf>)
    requires FoldsPlainly(c.u) && c.root.key != "" && '/' !in c.root.key && Nameable(c.u, leaves)
    requires !HasFileList(info) && HasLength(info)
    ensures forall i | 0 <= i < |leaves| :: ValidPath(c.u, leaves[i].parts)
    ensures Diverge(info, [Entry(c.root.shown, c.root.key, n, false)], LeafEntries(c, leaves))
            <==> Content(c.u, leaves) != [([c.root.key], n)]
  {
    var (key, v1) := (c.root.key, [Entry(c.root.shown, c.root.key, n, false)]);
    PairsAreContent(c, leaves);
    ContentSlashFree(c.u, leaves);
    OnePair(v1[0]);
    hide Pairs, Content, LeafEntries, Nameable, ValidPath, Join;
    var (p, content) := (Pairs(LeafEntries(c, leaves)), Content(c.u, leaves));
    JoinTwo(key);
    if |content| == 1 {
      var x := content[0].0;
      if p[0].0 == key {
        JoinedAlone(key, x);
      }
      if p[0].0 == key + "/" + key {
        JoinedSame(key, x, [key]);
      }
    }
  }

  lemma OnePair(e: Entry)
    ensures Pairs([e]) == if e.padding then [] else [(e.key, e.length)]
  {
  }

  lemma JoinTwo(key: string)
    ensures Join([key] + [key]) == key + "/" + key && Join([key]) == key
  {
    assert ([key] + [key])[1..] == [key];
  }

  /** Only the empty path behind the name is the name alone. */
  lemma JoinedAlone(key: string, x: seq<string>)
    requires '/' !in key && SlashFree(x) && Join([key] + x) == key
    ensures x == []
  {
    assert Join([key]) == key;
    JoinInjective([key] + x, [key]);
  }

  /** The entries of an info dictionary with a usable name: there are some, and the two versions agree. */
  ghost predicate Agreed(c: Context, info: seq<Field>) {
    V1Entries(c, info).Some? && V2Entries(c, info).Some?
    && var (v1, v2) := (V1Entries(c, info).value, V2Entries(c, info).value);
       (v1 != [] || v2 != []) && !(v1 != [] && v2 != [] && Diverge(info, v1, v2))
  }

  /** A name the entries are listed under. */
  ghost predicate Rooted(u: Text, c: Context, name: Value) {
    FoldsWell(u) && c == Context(u, true, c.root) && ValidName(u, name) && c.root.key == Folded(u, name)
    && c.root.key != "" && '/' !in c.root.key && c.root.shown != ""
  }

  lemma OneList(rows: seq<Value>, a: seq<Leaf>, b: seq<Leaf>)
    requires ListSays(rows, a) && ListSays(rows, b)
    ensures a == b
  {
    hide ListSays;
    ListExactly(rows, a);
    ListExactly(rows, b);
  }

  /** A list with these files, and a tree with these or none. */
  lemma GoodListExactly(u: Text, info: seq<Field>, files: seq<Leaf>)
    requires HasRows(info) && ListSays(At(info, "files").value.items, files)
    ensures GoodList(u, info)
            <==> At(info, "files").value.items != [] && SoundFiles(u, files)
                 && (HasFileTree(info) ==>
                       var leaves := Leaves(At(info, "file tree").value, []);
                       SoundFiles(u, leaves) && Content(u, files) == Content(u, leaves))
  {
    hide ListSays, SoundFiles, Content, HasFileTree, Leaves;
    var rows := At(info, "files").value.items;
    forall a | ListSays(rows, a)
      ensures a == files
    {
      OneList(rows, a, files);
    }
  }

  lemma ListGood(c: Context, info: seq<Field>, name: Value)
    requires Rooted(c.u, c, name) && HasRows(info) && !HasFileTree(info)
    ensures Agreed(c, info) <==> GoodFiles(c.u, info, name)
  {
    FieldsExactly(info);
    ListEntriesExactly(c, info);
    hide SoundFiles, ListSays, ListRows, LeafEntries, Nameable, Diverge, Folded, ValidName, FoldsWell;
  }

  /** A list and a tree that are both good on their own. */
  lemma BothGood(c: Context, info: seq<Field>, name: Value, files: seq<Leaf>, leaves: seq<Leaf>)
    requires Rooted(c.u, c, name) && HasRows(info) && HasFileTree(info)
    requires ListSays(At(info, "files").value.items, files) && At(info, "files").value.items != []
    requires SoundFiles(c.u, files) && files != [] && Nameable(c.u, files)
    requires leaves == Leaves(At(info, "file tree").value, []) && GoodTree(c.u, At(info, "file tree").value)
    requires SoundFiles(c.u, leaves) && leaves != [] && Nameable(c.u, leaves)
    requires V1Entries(c, info) == Some(LeafEntries(c, files)) && V2Entries(c, info) == Some(LeafEntries(c, leaves))
    ensures Agreed(c, info) <==> GoodFiles(c.u, info, name)
  {
    FieldsExactly(info);
    AgreeExactly(c, files, leaves);
    GoodListExactly(c.u, info, files);
    hide SoundFiles, ListSays, GoodTree, Content, LeafEntries, Nameable, Leaves, V1Entries, V2Entries, GoodList, Pairs;
    hide Folded, ValidName, FoldsWell;
  }

  lemma ListAndTree(c: Context, info: seq<Field>, name: Value)
    requires Rooted(c.u, c, name) && HasRows(info) && HasFileTree(info) && Proper(At(info, "file tree").value)
    ensures Agreed(c, info) <==> GoodFiles(c.u, info, name)
  {
    RootedPlainly(c, name);
    hide *;
    ListEntriesExactly(c, info);
    TreeEntriesExactly(c, info);
    var (rows, leaves) := (At(info, "files").value.items, Leaves(At(info, "file tree").value, []));
    if V1Entries(c, info).Some? && V2Entries(c, info).Some? {
      var files :| ListSays(rows, files) && SoundFiles(c.u, files);
      BothGood(c, info, name, files, leaves);
    } else {
      OneBad(c, info, name, rows);
    }
  }

  lemma RootedPlainly(c: Context, name: Value)
    requires Rooted(c.u, c, name)
    ensures c.strict && FoldsPlainly(c.u) && '/' !in c.root.key && ValidName(c.u, name)
  {
  }

  lemma OneBad(c: Context, info: seq<Field>, name: Value, rows: seq<Value>)
    requires HasRows(info) && HasFileTree(info) && ValidName(c.u, name) && rows == At(info, "files").value.items
    requires (exists files :: ListSays(rows, files) && SoundFiles(c.u, files)) && rows != []
             ==> V1Entries(c, info).Some?
    requires var tree := At(info, "file tree").value;
             GoodTree(c.u, tree) && SoundFiles(c.u, Leaves(tree, [])) ==> V2Entries(c, info).Some?
    requires !(V1Entries(c, info).Some? && V2Entries(c, info).Some?)
    ensures !Agreed(c, info) && !GoodFiles(c.u, info, name)
  {
    hide SoundFiles, ListSays, GoodTree, Content, Leaves, V1Entries, V2Entries, Diverge, ValidName, At;
  }

  lemma SingleEntries(c: Context, info: seq<Field>)
    requires c.strict && c.root.shown != "" && IsSingle(info)
    ensures var n := At(info, "length").value.n;
            V1Entries(c, info)
            == if n <= 0 then None else Some([Entry(c.root.shown, c.root.key, n, false)])
  {
    FieldsExactly(info);
  }

  lemma SingleGood(c: Context, info: seq<Field>, name: Value)
    requires Rooted(c.u, c, name) && IsSingle(info)
    requires HasFileTree(info) ==> Proper(At(info, "file tree").value)
    ensures Agreed(c, info) <==> GoodFiles(c.u, info, name)
  {
    SingleEntries(c, info);
    FieldsExactly(info);
    var n := At(info, "length").value.n;
    if HasFileTree(info) {
      TreeEntriesExactly(c, info);
      var leaves := Leaves(At(info, "file tree").value, []);
      if V2Entries(c, info).Some? {
        SingleAgrees(c, info, n, leaves);
      }
    }
    hide SoundFiles, GoodTree, Content, LeafEntries, Nameable, Leaves, V1Entries, Diverge, Folded, ValidName;
    hide FoldsWell, Visit;
  }

  lemma TreeGood(c: Context, info: seq<Field>, name: Value)
    requires Rooted(c.u, c, name) && !HasRows(info) && !IsSingle(info)
    requires HasFileTree(info) ==> Proper(At(info, "file tree").value)
    ensures Agreed(c, info) <==> GoodFiles(c.u, info, name)
  {
    FieldsExactly(info);
    if HasFileTree(info) {
      TreeEntriesExactly(c, info);
    }
    hide SoundFiles, GoodTree, LeafEntries, Nameable, Leaves, Diverge, Folded, ValidName, FoldsWell, Visit;
  }

  lemma AgreedExactly(c: Context, info: seq<Field>, name: Value)
    requires Rooted(c.u, c, name) && (HasFileTree(info) ==> Proper(At(info, "file tree").value))
    ensures Agreed(c, info) <==> GoodFiles(c.u, info, name)
  {
    hide *;
    if HasRows(info) {
      if HasFileTree(info) { ListAndTree(c, info, name); } else { ListGood(c, info, name); }
    } else if IsSingle(info) {
      SingleGood(c, info, name);
    } else {
      TreeGood(c, info, name);
    }
  }

  lemma {:induction false} ProperLookup(fields: seq<Field>, k: Value)
    requires ProperFields(fields) && Lookup(fields, k).Some?
    ensures Proper(Lookup(fields, k).value)
  {
    hide Proper;
    assert ProperField(fields[0]);
    if fields[0].key != k {
      ProperLookup(fields[1..], k);
    }
  }

  lemma ProperTree(info: seq<Field>)
    requires ProperFields(info) && HasFileTree(info)
    ensures Proper(At(info, "file tree").value)
  {
    ProperLookup(info, VBytes(Ascii("file tree")));
  }

  /** The strict manifest of an info dictionary exists exactly when its names, rows and tree are good. */
  lemma ManifestExactly(u: Text, root: Value, info: seq<Field>)
    requires FoldsWell(u) && root.VDict? && At(root.fields, "info") == Some(VDict(info)) && ProperFields(info)
    ensures FileEntries(u, root, true).Some? <==> GoodManifest(u, info)
  {
    InfoIs(root, info);
    NameOfExactly(u, info);
    hide FoldsWell, Folded, ValidName, V1Entries, V2Entries, Diverge, GoodFiles, NameOf, RootName, InfoFields, At, List;
    if RootName(u, true, info).Some? {
      var c := Context(u, true, RootName(u, true, info).value);
      if HasFileTree(info) {
        ProperTree(info);
      }
      AgreedExactly(c, info, NameOf(info).value);
    }
  }

  lemma InfoIs(root: Value, info: seq<Field>)
    requires root.VDict? && At(root.fields, "info") == Some(VDict(info))
    ensures InfoFields(root) == Some(info)
  {
    KeyNames();
  }

  // ---------------------------------------------------------- what is returned

  /** The names of a path are the normal forms of its components. */
  predicate Spells(u: Text, parts: seq<Value>, names: seq<string>) {
    |names| == |parts| && forall i | 0 <= i < |parts| :: Named(u, parts[i], names[i])
  }

  lemma {:induction false} ShownSpells(u: Text, parts: seq<Value>)
    requires Components(u, parts).Some?
    ensures Spells(u, parts, Shown(Components(u, parts).value))
  {
    hide Component, Named;
    if parts != [] {
      ComponentExactly(u, parts[0]);
      ShownSpells(u, parts[1..]);
    }
  }

  /** The path of an entry, read with either separator, names the torrent and then the components of its file. */
  lemma EntryPath(c: Context, name: Value, file: Leaf)
    requires Component(c.u, name) == Some(c.root) && HasName(c.u, file)
    ensures var path := LeafEntry(c, file).path;
            Spells(c.u, [name] + file.parts, Segments(path))
  {
    hide Component, Spells, Segments, Join;
    var parts := [name] + file.parts;
    assert parts[1..] == file.parts;
    var names := Components(c.u, file.parts).value;
    assert Components(c.u, parts) == Some([c.root] + names);
    AcceptedPathStays(c.u, parts);
    ShownSpells(c.u, parts);
    ShownCons(c.root, names);
    RootShown(c, name);
  }

  lemma ShownCons(n: Name, names: seq<Name>)
    ensures Shown([n] + names) == [n.shown] + Shown(names)
  {
    assert ([n] + names)[1..] == names;
  }

  lemma RootShown(c: Context, name: Value)
    requires Component(c.u, name) == Some(c.root)
    ensures Prefix(c.root.shown) == [c.root.shown]
  {
    PlainName(c.u, name);
  }

  /** The listed file is this one: its path spells the torrent's name and the file's own path. */
  predicate ListsFile(u: Text, name: Value, file: Leaf, listed: Listed) {
    Spells(u, [name] + file.parts, Segments(listed.path)) && listed.length == file.length
    && listed.padding == file.padding
  }

  lemma EntriesListed(c: Context, name: Value, files: seq<Leaf>)
    requires Component(c.u, name) == Some(c.root) && Nameable(c.u, files)
    ensures var listed := List(LeafEntries(c, files));
            |listed| == |files| && forall i | 0 <= i < |files| :: ListsFile(c.u, name, files[i], listed[i])
  {
    hide Component, Components, Spells, Segments, Join, HasName;
    forall i | 0 <= i < |files|
      ensures ListsFile(c.u, name, files[i], List(LeafEntries(c, files))[i])
    {
      assert HasName(c.u, files[i]);
      EntryPath(c, name, files[i]);
      EntrySizes(c, files[i]);
    }
  }

  lemma EntrySizes(c: Context, file: Leaf)
    ensures LeafEntry(c, file).length == file.length && LeafEntry(c, file).padding == file.padding
  {
  }

  /** The files of a good info dictionary: the rows of a list, else the single file, else the files of the tree. */
  predicate HasFiles(info: seq<Field>, files: seq<Leaf>) {
    if HasRows(info) then ListSays(At(info, "files").value.items, files)
    else if IsSingle(info) then files == [Leaf([], At(info, "length").value.n, false)]
    else HasFileTree(info) && files == Leaves(At(info, "file tree").value, [])
  }

  predicate ListsAll(u: Text, name: Value, files: seq<Leaf>, listed: seq<Listed>) {
    |listed| == |files| && forall i | 0 <= i < |files| :: ListsFile(u, name, files[i], listed[i])
  }

  /** A good manifest lists its files, each under the torrent's name, with its length. */
  lemma ManifestLists(u: Text, root: Value, info: seq<Field>, files: seq<Leaf>)
    requires FoldsWell(u) && root.VDict? && At(root.fields, "info") == Some(VDict(info)) && ProperFields(info)
    requires FileEntries(u, root, true).Some? && GoodManifest(u, info) && HasFiles(info, files)
    ensures NameOf(info).Some? && ListsAll(u, NameOf(info).value, files, FileEntries(u, root, true).value)
  {
    GoodName(u, info);
    FoldsPlain(u);
    hide *;
    InfoIs(root, info);
    NameOfExactly(u, info);
    RootNamed(u, info);
    ReturnedEntries(u, root, info);
    ListFiles(Context(u, true, RootName(u, true, info).value), NameOf(info).value, info, files,
              FileEntries(u, root, true).value);
  }

  lemma ListFiles(c: Context, name: Value, info: seq<Field>, files: seq<Leaf>, listed: seq<Listed>)
    requires c.strict && FoldsPlainly(c.u) && '/' !in c.root.key && Component(c.u, name) == Some(c.root)
    requires HasFiles(info, files) && Returned(c, info, listed)
    ensures ListsAll(c.u, name, files, listed)
  {
    hide At, ListsFile, V1Entries, V2Entries, Leaves, ListSays, FoldsPlainly, Component, List;
    if HasRows(info) {
      ListListed(c, info, name, files);
    } else if IsSingle(info) {
      PlainName(c.u, name);
      SingleEntries(c, info);
      SingleListed(c, name, At(info, "length").value.n);
    } else {
      TreeListed(c, info, name, files);
    }
  }

  lemma GoodName(u: Text, info: seq<Field>)
    requires GoodManifest(u, info)
    ensures NameOf(info).Some? && ValidName(u, NameOf(info).value)
  {
  }

  lemma FoldsPlain(u: Text)
    requires FoldsWell(u)
    ensures FoldsPlainly(u)
  {
  }

  lemma ListListed(c: Context, info: seq<Field>, name: Value, files: seq<Leaf>)
    requires c.strict && FoldsPlainly(c.u) && '/' !in c.root.key && Component(c.u, name) == Some(c.root)
    requires HasRows(info) && ListSays(At(info, "files").value.items, files) && V1Entries(c, info).Some?
    ensures var (v1, listed) := (V1Entries(c, info).value, List(V1Entries(c, info).value));
            v1 != [] && |listed| == |files| && forall i | 0 <= i < |files| :: ListsFile(c.u, name, files[i], listed[i])
  {
    ListEntriesExactly(c, info);
    hide *;
    EntriesListed(c, name, files);
    NotEmptied(c, files);
  }

  lemma NotEmptied(c: Context, files: seq<Leaf>)
    ensures |LeafEntries(c, files)| == |files|
  {
  }

  lemma TreeListed(c: Context, info: seq<Field>, name: Value, files: seq<Leaf>)
    requires c.strict && FoldsPlainly(c.u) && '/' !in c.root.key && Component(c.u, name) == Some(c.root)
    requires HasFileTree(info) && Proper(At(info, "file tree").value) && V2Entries(c, info).Some?
    requires files == Leaves(At(info, "file tree").value, [])
    ensures var listed := List(V2Entries(c, info).value);
            |listed| == |files| && forall i | 0 <= i < |files| :: ListsFile(c.u, name, files[i], listed[i])
  {
    TreeEntriesExactly(c, info);
    hide *;
    EntriesListed(c, name, files);
  }

  /** The strict manifest returns the list's entries, or the tree's where there is no list. */
  ghost predicate Returned(c: Context, info: seq<Field>, listed: seq<Listed>) {
    V1Entries(c, info).Some? && V2Entries(c, info).Some?
    && var (v1, v2) := (V1Entries(c, info).value, V2Entries(c, info).value);
       listed == List(if v1 != [] then v1 else v2)
       && (!HasRows(info) && !IsSingle(info) ==>
             v1 == [] && HasFileTree(info) && Proper(At(info, "file tree").value))
  }

  lemma ReturnedEntries(u: Text, root: Value, info: seq<Field>)
    requires InfoFields(root) == Some(info) && FileEntries(u, root, true).Some? && GoodManifest(u, info)
    requires ProperFields(info)
    ensures RootName(u, true, info).Some?
    ensures Returned(Context(u, true, RootName(u, true, info).value), info, FileEntries(u, root, true).value)
  {
    FieldsExactly(info);
    if HasFileTree(info) {
      ProperTree(info);
    }
    hide Visit, ListRows, Pairs, Component, List, Diverge, RootName, GoodList, GoodSingle, GoodTree;
    hide SoundFiles, ValidName;
  }

  lemma RootNamed(u: Text, info: seq<Field>)
    requires RootName(u, true, info).Some?
    ensures NameOf(info).Some? && Component(u, NameOf(info).value) == RootName(u, true, info)
  {
    KeyNames();
  }

  lemma SingleListed(c: Context, name: Value, n: int)
    requires Component(c.u, name) == Some(c.root)
    ensures var listed := List([Entry(c.root.shown, c.root.key, n, false)]);
            |listed| == 1 && ListsFile(c.u, name, Leaf([], n, false), listed[0])
  {
    hide Component, Segments;
    var listed := List([Entry(c.root.shown, c.root.key, n, false)]);
    assert [name] + [] == [name] && [name][1..] == [];
    assert [c.root] + [] == [c.root] && Components(c.u, [name]) == Some([c.root] + []);
    AcceptedPathStays(c.u, [name]);
    ShownSpells(c.u, [name]);
    assert [c.root][1..] == [] && Shown([c.root]) == [c.root.shown] && Join([c.root.shown]) == c.root.shown;
  }

  // ------------------------------------------------------------------- admission

  /** The fields every torrent needs, and those of one version at least. */
  predicate Usable(info: seq<Field>) {
    var (name, pieceLength) := (NameOf(info), At(info, "piece length"));
    name.Some? && name.value.VBytes? && 1 <= |name.value.s| <= 4096
    && pieceLength.Some? && pieceLength.value.VInt? && pieceLength.value.n >= 1
    && (HasDigests(info) || IsSecond(info))
  }

  /** Version 1: some digests of 20 bytes each, and a list or a length. */
  predicate HasDigests(info: seq<Field>) {
    var (pieces, length) := (At(info, "pieces"), At(info, "length"));
    pieces.Some? && pieces.value.VBytes? && |pieces.value.s| >= 20 && |pieces.value.s| % 20 == 0
    && (HasRows(info) || (length.Some? && length.value.VInt? && length.value.n >= 1))
  }

  /** Version 2: it says so and has a tree that is not empty. */
  predicate IsSecond(info: seq<Field>) {
    At(info, "meta version") == Some(VInt(2))
    && At(info, "file tree").Some? && At(info, "file tree").value !in {VInt(0), VBytes([]), VList([]), VDict([])}
  }

  lemma UsableExactly(info: seq<Field>)
    ensures Usable(info) <==> UsableInfo(info)
  {
    hide Lookup;
    KeyNames();
    AdmissionKeys();
    DigestsExactly(info);
    SecondExactly(info);
    hide UsableV1, HasDigests, UsableV2, IsSecond, Ascii;
  }

  lemma SecondExactly(info: seq<Field>)
    ensures IsSecond(info) <==> UsableV2(info)
  {
    hide Lookup;
    KeyNames();
    AdmissionKeys();
  }

  lemma AdmissionKeys()
    ensures K_META_VERSION == Ascii("meta version") && K_PIECES == Ascii("pieces")
    ensures K_PIECE_LENGTH == Ascii("piece length")
  {
  }

  lemma DigestsExactly(info: seq<Field>)
    ensures HasDigests(info) <==> UsableV1(info)
  {
    hide Lookup;
    KeyNames();
    AdmissionKeys();
  }

  /** A root with an info dictionary that is usable and whose manifest is good. */
  ghost predicate GoodTorrent(u: Text, root: Value) {
    root.VDict? && At(root.fields, "info").Some? && At(root.fields, "info").value.VDict?
    && var info := At(root.fields, "info").value.fields;
       Usable(info) && GoodManifest(u, info)
  }

  /** The text of a tree within the limits that denotes a good torrent. */
  ghost predicate GoodPayload(u: Text, payload: Bytes) {
    exists t :: WithinLimits(t) && Print(t) == payload && GoodTorrent(u, ValueOf(t))
  }

  /** An accepted payload is the text of its tree and of no other. */
  lemma WholeText(payload: Bytes)
    requires Parse(payload, 0, 0).Done? && Parse(payload, 0, 0).rest == []
    ensures var t := Parse(payload, 0, 0).value;
            WithinLimits(t) && Print(t) == payload
            && forall t' :: WithinLimits(t') && Print(t') == payload ==> t' == t
  {
    hide Parse, Print, WithinLimits;
    AcceptedExactlyPrinted(payload);
    var t := Parse(payload, 0, 0).value;
    PrintThenParse(t);
    forall t' | WithinLimits(t') && Print(t') == payload
      ensures t' == t
    {
      PrintThenParse(t');
    }
  }

  /** The span of a decoded root is there exactly when its info value is. */
  lemma SpanExactly(payload: Bytes)
    requires Parse(payload, 0, 0).Done? && Parse(payload, 0, 0).value.TDict?
    ensures var es := Parse(payload, 0, 0).value.entries;
            var span := InfoSpan(es, 1, None);
            (span.Some? <==> Lookup(PutAll([], es), VBytes(INFO)).Some?)
            && (span.Some? ==> span.value.0 <= span.value.1 <= |payload|)
  {
    hide Parse, InfoSpan, PutAll;
    SpanOfInfo(payload);
    LookupLastBound([], Parse(payload, 0, 0).value.entries, INFO, None);
  }

  lemma RootExactly(u: Text, payload: Bytes)
    requires FoldsWell(u) && Parse(payload, 0, 0).Done? && Parse(payload, 0, 0).rest == []
    ensures var root := ValueOf(Parse(payload, 0, 0).value);
            (Admit(u, payload).Some? <==> GoodTorrent(u, root))
            && (Admit(u, payload).Some? ==> Admit(u, payload).value.0 == root)
  {
    hide Parse, PutAll, InfoSpan, FileEntries, UsableInfo, Usable, GoodManifest, FoldsWell, Proper, Lookup;
    var t := Parse(payload, 0, 0).value;
    var root := ValueOf(t);
    KeyNames();
    if t.TDict? {
      SpanExactly(payload);
      DecodedIsProper(t);
      RootProper(root);
      if At(root.fields, "info").Some? && At(root.fields, "info").value.VDict? {
        var info := At(root.fields, "info").value.fields;
        ProperLookup(root.fields, VBytes(Ascii("info")));
        RootProper(VDict(info));
        UsableExactly(info);
        ManifestExactly(u, root, info);
      }
    }
  }

  lemma RootProper(root: Value)
    requires Proper(root) && root.VDict?
    ensures ProperFields(root.fields)
  {
  }

  /** A payload is admitted exactly when it is the text of a good torrent. */
  lemma AdmittedExactly(u: Text, payload: Bytes)
    requires FoldsWell(u)
    ensures Admit(u, payload).Some? <==> GoodPayload(u, payload)
    ensures Admit(u, payload).Some? ==> GoodTorrent(u, Admit(u, payload).value.0)
  {
    AcceptedExactlyPrinted(payload);
    OnlyWhole(u, payload);
    hide Parse, Print, WithinLimits, GoodTorrent, Admit, FoldsWell;
    if Parse(payload, 0, 0).Done? && Parse(payload, 0, 0).rest == [] {
      WholeText(payload);
      RootExactly(u, payload);
    }
  }

  lemma OnlyWhole(u: Text, payload: Bytes)
    ensures Admit(u, payload).Some? ==> Parse(payload, 0, 0).Done? && Parse(payload, 0, 0).rest == []
  {
    hide Parse, FileEntries, UsableInfo, InfoSpan;
  }

  /** The two directions as one fact about the payload. */
  lemma Exactness(u: Text, payload: Bytes) returns (admitted: bool)
    ensures admitted == Admit(u, payload).Some? && (FoldsWell(u) ==> (admitted <==> GoodPayload(u, payload)))
  {
    hide *;
    admitted := Admit(u, payload).Some?;
    if FoldsWell(u) {
      AdmittedExactly(u, payload);
    }
  }

  /** _decode_torrent_payload */
  method DecodeTorrentPayload(u: Text, payload: Bytes) returns (r: Result<(Value, Bytes)>)
    ensures r == match Admit(u, payload) case None => Raised case Some(v) => Ok(v)
    ensures FoldsWell(u) ==> (r.Ok? <==> GoodPayload(u, payload))
  {
    hide GoodPayload, GoodTorrent, FoldsWell;
    ghost var whole := Exactness(u, payload);
    hide Parse, InfoSpan, PutAll, FileEntries, UsableInfo, Lookup;
    var decoder := new StrictDecoder(payload);
    assert payload[0..] == payload;
    var parsed := decoder.ParseValue(0, 0);
    if parsed.Raised? {
      return Raised;
    }
    var (root, end) := parsed.value;
    if end != |payload| || !root.VDict? {
      return Raised;
    }
    var info := Get(root.fields, INFO);
    if info.None? || !info.value.VDict? || !UsableInfo(info.value.fields) || decoder.infoSpan.None? {
      return Raised;
    }
    var entries := TorrentFileEntries(u, root, true);
    if entries.Raised? {
      return Raised;
    }
    var (from, until) := decoder.infoSpan.value;
    SpanOfInfo(payload);
    r := Ok((root, payload[from..until]));
  }
}
