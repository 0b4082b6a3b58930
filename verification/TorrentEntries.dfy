/**
  The manifest builder as it is written: entry lists and sets of seen paths that
  grow while the file list is scanned and the file tree is walked.
 */
module TorrentEntries {
  import opened Outcomes
  import opened Bencode
  import opened BencodeDecoders
  import opened TorrentManifest

  /** The components of a path, or nothing at the first that is invalid. */
  method Normalize(u: Text, rawParts: seq<Value>) returns (r: Option<seq<Name>>)
    ensures r == Components(u, rawParts)
  {
    hide Component;
    var normalized: seq<Name> := [];
    var i := 0;
    assert rawParts[0..] == rawParts;
    while i < |rawParts|
      invariant 0 <= i <= |rawParts|
      invariant var left := Components(u, rawParts[i..]);
                var whole := Components(u, rawParts);
                if left.None? then whole.None? else whole.Some? && normalized + left.value == whole.value
    {
      assert rawParts[i..][0] == rawParts[i] && rawParts[i..][1..] == rawParts[i + 1..];
      match Component(u, rawParts[i]) {
        case None => return None;
        case Some(name) => normalized := normalized + [name];
      }
      i := i + 1;
    }
    assert rawParts[i..] == [] && normalized + [] == normalized;
    r := Some(normalized);
  }

  /** One target list with its set of seen path keys. */
  class EntryList {
    var entries: seq<Entry>
    var seen: set<string>

    constructor ()
      ensures Contents() == EMPTY_BOOK
    {
      entries, seen := [], {};
    }

    function Contents(): Book
      reads this
    {
      Book(entries, seen)
    }

    /** append_entry: the result says whether it returned rather than raised. */
    method AppendEntry(c: Context, rawParts: seq<Value>, length: int, padding: bool) returns (ok: bool)
      modifies this
      ensures match Append(c, rawParts, length, padding, old(Contents()))
              case None => !ok
              case Some(b) => ok && Contents() == b
    {
      hide Component, Components, EntryOf, PathKey;
      var named := Normalize(c.u, rawParts);
      if named.None? {
        return !c.strict;
      }
      var normalized := named.value;
      if normalized == [] {
        return !c.strict;
      }
      var pathKey := PathKey(c, normalized);
      if pathKey in seen {
        return !c.strict;
      }
      seen := seen + {pathKey};
      entries := entries + [EntryOf(c, normalized, length, padding)];
      ok := true;
    }

    /** visit_tree */
    method VisitTree(c: Context, node: Value, parts: seq<Value>, depth: nat) returns (ok: bool)
      modifies this
      ensures match Visit(c, node, parts, depth, old(Contents()))
              case None => !ok
              case Some(b) => ok && Contents() == b
      decreases if depth > MAX_TREE_DEPTH then 0 else MAX_TREE_DEPTH + 1 - depth
    {
      hide Append, Component, Lookup;
      if depth > MAX_TREE_DEPTH || !node.VDict? || node.fields == [] {
        return !c.strict;
      }
      var fields := node.fields;
      if IsLeafNode(fields) {
        if !LeafUsable(fields, parts) {
          return !c.strict;
        }
        var leaf := LeafFields(fields);
        ok := AppendEntry(c, parts, Get(leaf, K_LENGTH).value.n, IsPadding(leaf));
        return;
      }
      var i := 0;
      assert fields[0..] == fields;
      while i < |fields|
        invariant 0 <= i <= |fields|
        invariant VisitFields(c, fields[i..], parts, depth, Contents())
               == VisitFields(c, fields, parts, depth, old(Contents()))
      {
        assert fields[i..][0] == fields[i] && fields[i..][1..] == fields[i + 1..];
        if Component(c.u, fields[i].key).None? {
          if c.strict {
            return false;
          }
        } else {
          var walked := VisitTree(c, fields[i].value, parts + [fields[i].key], depth + 1);
          if !walked {
            return false;
          }
        }
        i := i + 1;
      }
      assert fields[i..] == [];
      ok := true;
    }
  }

  /** _torrent_file_entries */
  method TorrentFileEntries(u: Text, root: Value, strict: bool) returns (r: Result<seq<Listed>>)
    ensures r == match FileEntries(u, root, strict) case None => Raised case Some(ls) => Ok(ls)
  {
    hide Append, Visit, ListRow, ListRows, Component, Lookup, Diverge, List;
    if InfoFields(root).None? {
      return Raised;
    }
    var info := InfoFields(root).value;
    if RootName(u, strict, info).None? {
      return Raised;
    }
    var c := Context(u, strict, RootName(u, strict, info).value);
    var v1 := new EntryList();
    var v2 := new EntryList();
    if HasFileList(info) {
      var files := Get(info, K_FILES).value.items;
      if strict && files == [] {
        return Raised;
      }
      var ok := AppendRows(v1, c, files);
      if !ok {
        return Raised;
      }
    } else if HasLength(info) {
      var length := Get(info, K_LENGTH).value.n;
      if strict && length <= 0 {
        return Raised;
      }
      if c.root.shown != "" && length > 0 {
        v1.seen := v1.seen + {c.root.key};
        v1.entries := v1.entries + [Entry(c.root.shown, c.root.key, length, false)];
        assert v1.entries == [Entry(c.root.shown, c.root.key, length, false)];
      }
    }
    assert V1Entries(c, info) == Some(v1.entries);
    if HasTree(info) {
      var ok := v2.VisitTree(c, Get(info, K_FILE_TREE).value, [], 0);
      if !ok {
        return Raised;
      }
    }
    assert V2Entries(c, info) == Some(v2.entries);
    var out: seq<Entry>;
    if v1.entries != [] && v2.entries != [] {
      if Diverge(info, v1.entries, v2.entries) {
        return Raised;
      }
      out := v1.entries;
    } else {
      out := if v1.entries != [] then v1.entries else v2.entries;
    }
    if strict && out == [] {
      return Raised;
    }
    r := Ok(List(out));
  }

  /** The rows of the v1 file list. */
  method AppendRows(target: EntryList, c: Context, files: seq<Value>) returns (ok: bool)
    modifies target
    ensures match ListRows(c, files, old(target.Contents()))
            case None => !ok
            case Some(b) => ok && target.Contents() == b
  {
    hide ListRow;
    var i := 0;
    assert files[0..] == files;
    while i < |files|
      invariant 0 <= i <= |files|
      invariant ListRows(c, files[i..], target.Contents()) == ListRows(c, files, old(target.Contents()))
    {
      assert files[i..][0] == files[i] && files[i..][1..] == files[i + 1..];
      ok := AppendRow(target, c, files[i]);
      if !ok {
        return;
      }
      i := i + 1;
    }
    assert files[i..] == [];
    ok := true;
  }

  /** One row of the v1 file list. */
  method AppendRow(target: EntryList, c: Context, row: Value) returns (ok: bool)
    modifies target
    ensures match ListRow(c, row, old(target.Contents()))
            case None => !ok
            case Some(b) => ok && target.Contents() == b
  {
    hide Append;
    if !RowUsable(row) {
      return !c.strict;
    }
    ok := target.AppendEntry(c, Either(Get(row.fields, K_PATH_UTF8), Get(row.fields, K_PATH)).value.items,
                             Get(row.fields, K_LENGTH).value.n, IsPadding(row.fields));
  }
}
