/**
  Admission of a torrent payload (core/inkdrop_acquire.py): strict decoding, the
  checks on the info dictionary, and the raw bytes its hash is taken over.
 */
module TorrentPayload {
  import opened Outcomes
  import opened Bencode
  import opened BencodeDecoders
  import opened TorrentManifest

  const K_META_VERSION: Bytes := [109, 101, 116, 97, 32, 118, 101, 114, 115, 105, 111, 110]
  const K_PIECE_LENGTH: Bytes := [112, 105, 101, 99, 101, 32, 108, 101, 110, 103, 116, 104]
  const K_PIECES: Bytes := [112, 105, 101, 99, 101, 115]

  predicate UsableV1(info: seq<Field>) {
    var pieces := Get(info, K_PIECES);
    pieces.Some? && pieces.value.VBytes? && |pieces.value.s| > 0 && |pieces.value.s| % 20 == 0
    && ((HasLength(info) && Get(info, K_LENGTH).value.n > 0) || HasFileList(info))
  }

  predicate UsableV2(info: seq<Field>) {
    var tree := Get(info, K_FILE_TREE);
    Get(info, K_META_VERSION) == Some(VInt(2)) && tree.Some? && Truthy(tree.value)
  }

  predicate UsableInfo(info: seq<Field>) {
    var name := Either(Get(info, K_NAME_UTF8), Get(info, K_NAME));
    var pieceLength := Get(info, K_PIECE_LENGTH);
    name.Some? && name.value.VBytes? && 0 < |name.value.s| <= 4096
    && pieceLength.Some? && pieceLength.value.VInt? && pieceLength.value.n > 0
    && (UsableV1(info) || UsableV2(info))
  }

  /** What the admission returns: the root dictionary and the bytes of its info value. */
  function Admit(u: Text, payload: Bytes): Option<(Value, Bytes)> {
    match Parse(payload, 0, 0)
    case Failed => None
    case Done(t, rest, _) =>
      if rest != [] || !t.TDict? then None
      else
        var root := ValueOf(t);
        var info := Get(root.fields, INFO);
        var span := InfoSpan(t.entries, 1, None);
        if info.None? || !info.value.VDict? || !UsableInfo(info.value.fields) || span.None? then None
        else if FileEntries(u, root, true).None? then None
        else if !(span.value.0 <= span.value.1 <= |payload|) then None
        else Some((root, payload[span.value.0..span.value.1]))
  }

  /** The dictionary a torrent is identified by: the value last bound to "info". */
  function InfoTree(payload: Bytes): Option<Tree> {
    var r := Parse(payload, 0, 0);
    if r.Done? && r.value.TDict? then LastBound(r.value.entries, INFO, None) else None
  }

  lemma {:induction false} LastBoundFits(es: Entries, k: Bytes, before: Option<Tree>, h: int, n: nat)
    requires EntriesShallow(es, h) && EntryNodes(es) <= n && EntryNumbersFit(es)
    requires before.Some? ==> Shallow(before.value, h) && Nodes(before.value) <= n && NumbersFit(before.value)
    ensures var last := LastBound(es, k, before);
            last.Some? ==> Shallow(last.value, h) && Nodes(last.value) <= n && NumbersFit(last.value)
    decreases es
  {
    hide Shallow, Nodes, NumbersFit;
    if es.MoreEntries? {
      LastBoundFits(es.rest, k, if es.key == k then Some(es.value) else before, h, n);
    }
  }

  lemma {:induction false} DeeperIsShallow(t: Tree, h: int, h': int)
    requires Shallow(t, h) && h <= h'
    ensures Shallow(t, h')
    decreases t, 0
  {
    match t
    case TInt(_) =>
    case TStr(_) =>
    case TList(ts) => DeeperItems(ts, h - 1, h' - 1);
    case TDict(es) => DeeperEntries(es, h - 1, h' - 1);
  }

  lemma {:induction false} DeeperItems(ts: Trees, h: int, h': int)
    requires ItemsShallow(ts, h) && h <= h'
    ensures ItemsShallow(ts, h')
    decreases ts, 0
  {
    if ts.MoreTrees? {
      DeeperIsShallow(ts.head, h, h');
      DeeperItems(ts.tail, h, h');
    }
  }

  lemma {:induction false} DeeperEntries(es: Entries, h: int, h': int)
    requires EntriesShallow(es, h) && h <= h'
    ensures EntriesShallow(es, h')
    decreases es, 0
  {
    if es.MoreEntries? {
      DeeperIsShallow(es.value, h, h');
      DeeperEntries(es.rest, h, h');
    }
  }

  /** The span of a payload that decodes to a dictionary is the text of its info value. */
  lemma SpanOfInfo(payload: Bytes)
    requires Parse(payload, 0, 0).Done? && Parse(payload, 0, 0).value.TDict?
    ensures var es := Parse(payload, 0, 0).value.entries;
            var span := InfoSpan(es, 1, None);
            (span.Some? <==> InfoTree(payload).Some?)
            && (span.Some? ==> span.value.0 <= span.value.1 <= |payload|
                               && payload[span.value.0..span.value.1] == Print(InfoTree(payload).value))
  {
    hide Parse, PrintEntries, InfoSpan, LastBound;
    var r := Parse(payload, 0, 0);
    var es := r.value.entries;
    Sound(payload, 0, 0);
    Tagged(LOWER_D, PrintEntries(es), r.rest);
    assert payload[1..] == PrintEntries(es) + ([LOWER_E] + r.rest);
    InfoSpanText(payload, es, 1, [LOWER_E] + r.rest, None, None);
  }

  /**
    The hashed bytes are the info dictionary: in an admitted payload they are the
    text of the value last bound to "info", the validated dictionary is that
    value, and decoding those bytes alone yields it again, whole.
   */
  lemma HashedBytesAreTheInfo(u: Text, payload: Bytes)
    requires Admit(u, payload).Some?
    ensures var (root, raw) := Admit(u, payload).value;
            InfoTree(payload).Some? &&
            var info := InfoTree(payload).value;
            raw == Print(info) && info.TDict?
            && root.VDict? && Get(root.fields, INFO) == Some(ValueOf(info))
            && Parse(raw, 0, 0) == Done(info, [], Nodes(info))
  {
    hide Parse, PrintEntries, InfoSpan, LastBound, PutAll, FileEntries, UsableInfo;
    var r := Parse(payload, 0, 0);
    var es := r.value.entries;
    SpanOfInfo(payload);
    LookupLastBound([], es, INFO, None);
    var info := InfoTree(payload).value;
    Sound(payload, 0, 0);
    LastBoundFits(es, INFO, None, MAX_DEPTH - 1, MAX_NODES);
    DeeperIsShallow(info, MAX_DEPTH - 1, MAX_DEPTH);
    PrintThenParse(info);
  }

  /** With a collision-free digest, equal identities mean equal info dictionaries. */
  lemma SameDigestSameInfo(u: Text, a: Bytes, b: Bytes, digest: Bytes -> string)
    requires forall x, y :: digest(x) == digest(y) ==> x == y
    requires Admit(u, a).Some? && Admit(u, b).Some?
    requires digest(Admit(u, a).value.1) == digest(Admit(u, b).value.1)
    ensures var (rootA, rootB) := (Admit(u, a).value.0, Admit(u, b).value.0);
            rootA.VDict? && rootB.VDict? && Get(rootA.fields, INFO) == Get(rootB.fields, INFO)
  {
    hide Admit, Parse, InfoTree, Get;
    HashedBytesAreTheInfo(u, a);
    HashedBytesAreTheInfo(u, b);
  }
}
