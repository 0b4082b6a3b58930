/**
  Admission of a backup archive by its ZIP end records, before any library
  parses the central directory (core/inkdrop_backup_restore.py). Record layouts
  are those of sections 4.3.14 to 4.3.16 of PKWARE's APPNOTE.TXT.
 */
module ZipAdmission {
  import opened Outcomes

  type Byte = i: int | 0 <= i < 256

  // ------------------------------------------------- little-endian structures

  function Power(width: nat): (p: nat)
    ensures p > 0
  {
    if width == 0 then 1 else 256 * Power(width - 1)
  }

  function Little(b: seq<Byte>): nat {
    if b == [] then 0 else b[0] + 256 * Little(b[1..])
  }

  function Bytes(v: nat, width: nat): (b: seq<Byte>)
    ensures |b| == width
  {
    if width == 0 then [] else [v % 256] + Bytes(v / 256, width - 1)
  }

  lemma {:induction false} LittleBytes(v: nat, width: nat)
    ensures Little(Bytes(v, width)) == v <==> v < Power(width)
  {
    if width > 0 {
      LittleBytes(v / 256, width - 1);
      assert Bytes(v, width)[1..] == Bytes(v / 256, width - 1);
      LittleBelow(Bytes(v / 256, width - 1));
    }
  }

  lemma {:induction false} LittleBelow(b: seq<Byte>)
    ensures Little(b) < Power(|b|)
  {
    if b != [] {
      LittleBelow(b[1..]);
    }
  }

  lemma {:induction false} BytesLittle(b: seq<Byte>)
    ensures Bytes(Little(b), |b|) == b
  {
    if b != [] {
      BytesLittle(b[1..]);
      assert Little(b) / 256 == Little(b[1..]) && Little(b) % 256 == b[0];
    }
  }

  /** The widths of the integers in a packed record. */
  type Shape = seq<nat>

  function Size(shape: Shape): nat {
    if shape == [] then 0 else shape[0] + Size(shape[1..])
  }

  /** struct.pack with a "<" format. */
  function Pack(shape: Shape, values: seq<nat>): (b: seq<Byte>)
    requires |values| == |shape|
    ensures |b| == Size(shape)
  {
    if shape == [] then [] else Bytes(values[0], shape[0]) + Pack(shape[1..], values[1..])
  }

  /** struct.unpack with a "<" format. */
  function Unpack(shape: Shape, b: seq<Byte>): (values: seq<nat>)
    requires |b| == Size(shape)
    ensures |values| == |shape|
  {
    if shape == [] then [] else [Little(b[..shape[0]])] + Unpack(shape[1..], b[shape[0]..])
  }

  predicate Fits(shape: Shape, values: seq<nat>) {
    |values| == |shape| && forall k | 0 <= k < |shape| :: values[k] < Power(shape[k])
  }

  lemma {:induction false} PackThenUnpack(shape: Shape, values: seq<nat>)
    requires Fits(shape, values)
    ensures Unpack(shape, Pack(shape, values)) == values
  {
    if shape != [] {
      var rest := Pack(shape[1..], values[1..]);
      assert Fits(shape[1..], values[1..]);
      PackThenUnpack(shape[1..], values[1..]);
      LittleBytes(values[0], shape[0]);
      assert Pack(shape, values)[..shape[0]] == Bytes(values[0], shape[0]);
      assert Pack(shape, values)[shape[0]..] == rest;
    }
  }

  lemma {:induction false} UnpackFits(shape: Shape, b: seq<Byte>)
    requires |b| == Size(shape)
    ensures Fits(shape, Unpack(shape, b))
  {
    if shape != [] {
      hide Little, Power;
      var v := Unpack(shape[1..], b[shape[0]..]);
      UnpackFits(shape[1..], b[shape[0]..]);
      LittleBelow(b[..shape[0]]);
      assert forall k | 1 <= k < |shape| :: Unpack(shape, b)[k] == v[k - 1] && shape[k] == shape[1..][k - 1];
    }
  }

  lemma {:induction false} UnpackThenPack(shape: Shape, b: seq<Byte>)
    requires |b| == Size(shape)
    ensures Pack(shape, Unpack(shape, b)) == b
  {
    if shape != [] {
      hide Little, Bytes;
      var (head, rest) := (b[..shape[0]], b[shape[0]..]);
      UnpackThenPack(shape[1..], rest);
      BytesLittle(head);
      assert b == head + rest;
      PackCons(shape, Little(head), Unpack(shape[1..], rest));
    }
  }

  lemma PackCons(shape: Shape, value: nat, values: seq<nat>)
    requires shape != [] && |values| == |shape| - 1
    ensures Pack(shape, [value] + values) == Bytes(value, shape[0]) + Pack(shape[1..], values)
  {
    assert ([value] + values)[1..] == values;
  }

  // ----------------------------------------------------------------- end records

  const END_SIGNATURE: seq<Byte> := [0x50, 0x4B, 5, 6]
  const LOCATOR_SIGNATURE: seq<Byte> := [0x50, 0x4B, 6, 7]
  const END64_SIGNATURE: seq<Byte> := [0x50, 0x4B, 6, 6]

  /** After the four signature bytes: disks, entry counts, directory size and offset, comment length. */
  const END_SHAPE: Shape := [2, 2, 2, 2, 4, 4, 2]
  /** Disk, offset of the ZIP64 record, number of disks. */
  const LOCATOR_SHAPE: Shape := [4, 8, 4]
  /** Record size, versions, disks, entry counts, directory size and offset. */
  const END64_SHAPE: Shape := [8, 2, 2, 4, 4, 8, 8, 8, 8]

  const END_SIZE := 22
  const LOCATOR_SIZE := 20
  const END64_SIZE := 56
  const MAX_COMMENT := 65535
  const MAX_MEMBERS := 16
  const HEADER_MIN := 46

  lemma Sizes()
    ensures Size(END_SHAPE) == END_SIZE - 4 && Size(LOCATOR_SHAPE) == LOCATOR_SIZE - 4
            && Size(END64_SHAPE) == END64_SIZE - 4
    ensures Power(2) == 0x1_0000 && Power(4) == 0x1_0000_0000
  {
    assert Size([2]) == 2;
    assert Size([4, 2]) == 6;
    assert Size([4, 4, 2]) == 10;
    assert Size([2, 4, 4, 2]) == 12;
    assert Size([2, 2, 4, 4, 2]) == 14;
    assert Size([2, 2, 2, 4, 4, 2]) == 16;
    assert Size([8, 8, 8, 8]) == 32 by { assert Size([8, 8]) == 16; assert Size([8, 8, 8]) == 24; }
    assert Size([4, 4, 8, 8, 8, 8]) == 40 by { assert Size([4, 8, 8, 8, 8]) == 36; }
    assert Size([2, 2, 4, 4, 8, 8, 8, 8]) == 44 by { assert Size([2, 4, 4, 8, 8, 8, 8]) == 42; }
  }

  predicate Signed(file: seq<Byte>, i: nat, signature: seq<Byte>) {
    i + |signature| <= |file| && file[i..i + |signature|] == signature
  }

  /** The integers of a record that follow its signature. */
  function Fields(file: seq<Byte>, i: nat, shape: Shape): (values: seq<nat>)
    requires i + 4 + Size(shape) <= |file|
    ensures |values| == |shape|
  {
    Unpack(shape, file[i + 4..i + 4 + Size(shape)])
  }

  /** A genuine end record: its comment reaches exactly to the end of the file. */
  ghost predicate EndAt(file: seq<Byte>, i: nat) {
    Signed(file, i, END_SIGNATURE) && i + 4 + Size(END_SHAPE) <= |file|
    && i + END_SIZE + Fields(file, i, END_SHAPE)[6] == |file|
  }

  ghost predicate LastEnd(file: seq<Byte>, i: nat) {
    EndAt(file, i) && forall j: nat | i < j :: !EndAt(file, j)
  }

  /** No genuine record lies before the tail that is searched. */
  lemma EndInTail(file: seq<Byte>, i: nat)
    requires EndAt(file, i)
    ensures |file| - END_SIZE - MAX_COMMENT <= i <= |file| - END_SIZE
  {
    Sizes();
    UnpackFits(END_SHAPE, file[i + 4..i + 4 + Size(END_SHAPE)]);
    assert Fields(file, i, END_SHAPE)[6] < Power(END_SHAPE[6]);
  }

  /** The signature cannot overlap itself, so the search may skip to where it last matched. */
  lemma NoOverlap(file: seq<Byte>, i: nat, j: nat)
    requires Signed(file, i, END_SIGNATURE) && j < i < j + 4
    ensures !Signed(file, j, END_SIGNATURE)
  {
    assert file[i] == file[i..i + 4][0];
    assert j + 4 <= |file| ==> file[j..j + 4][i - j] == file[i];
  }

  /** bytes.rfind(signature, 0, end). */
  function RFind(b: seq<Byte>, signature: seq<Byte>, end: nat): (r: Option<nat>)
    requires end <= |b| && |signature| > 0
    ensures r.Some? ==> Signed(b, r.value, signature) && r.value + |signature| <= end
    ensures forall j: nat | Signed(b, j, signature) && j + |signature| <= end :: r.Some? && j <= r.value
  {
    if end < |signature| then None
    else if Signed(b, end - |signature|, signature) then Some(end - |signature|)
    else RFind(b, signature, end - 1)
  }

  lemma TailSigned(file: seq<Byte>, base: nat, j: nat, signature: seq<Byte>)
    requires base <= |file|
    ensures Signed(file[base..], j, signature) <==> Signed(file, base + j, signature)
  {
    if base + j + |signature| <= |file| {
      assert file[base..][j..j + |signature|] == file[base + j..base + j + |signature|];
    }
  }

  /** _find_end_of_central_directory: the last genuine end record, or none exists. */
  method FindEndOfCentralDirectory(file: seq<Byte>) returns (r: Result<nat>)
    ensures r.Ok? ==> LastEnd(file, r.value)
    ensures r.Raised? ==> forall j: nat :: !EndAt(file, j)
  {
    hide Fields, Signed, Size;
    Sizes();
    var tailSize := if |file| < END_SIZE + MAX_COMMENT then |file| else END_SIZE + MAX_COMMENT;
    var base := |file| - tailSize;
    var tail := file[base..];
    var searchEnd: nat := |tail|;
    forall j: nat | EndAt(file, j)
      ensures base <= j && j + 4 <= |file|
    {
      EndInTail(file, j);
    }
    while true
      invariant searchEnd <= |tail| && base + |tail| == |file| && tail == file[base..]
      invariant forall j: nat | base + searchEnd < j + 4 :: !EndAt(file, j)
      decreases searchEnd
    {
      var found := RFind(tail, END_SIGNATURE, searchEnd);
      forall j: nat | EndAt(file, j)
        ensures base <= j && j + 4 <= base + searchEnd && found.Some? && j <= base + found.value
      {
        EndInTail(file, j);
        assert base <= j;
        TailSigned(file, base, j - base, END_SIGNATURE);
        assert Signed(tail, j - base, END_SIGNATURE);
      }
      if found.None? {
        return Raised;
      }
      var idx := found.value;
      TailSigned(file, base, idx, END_SIGNATURE);
      if idx + END_SIZE <= |tail| {
        var fields := Fields(file, base + idx, END_SHAPE);
        if base + idx + END_SIZE + fields[6] == |file| {
          return Ok(base + idx);
        }
      }
      forall j: nat | base + idx < j + 4
        ensures !EndAt(file, j)
      {
        if j < base + idx {
          NoOverlap(file, base + idx, j);
        }
      }
      searchEnd := idx;
    }
  }

  // ------------------------------------------------------------------- admission

  /** Where a record says the central directory is; it must end by bound. */
  datatype Directory = Directory(disk: nat, startDisk: nat, onDisk: nat, total: nat, size: nat, offset: nat, bound: nat)

  predicate HasLocator(file: seq<Byte>, e: nat) {
    LOCATOR_SIZE <= e && Signed(file, e - LOCATOR_SIZE, LOCATOR_SIGNATURE)
  }

  function Classic(v: seq<nat>, bound: nat): Directory
    requires |v| == 7
  {
    Directory(v[0], v[1], v[2], v[3], v[4], v[5], bound)
  }

  function Zip64(v: seq<nat>, bound: nat): Directory
    requires |v| == 9
  {
    Directory(v[3], v[4], v[5], v[6], v[7], v[8], bound)
  }

  predicate Sentinel(d: Directory) {
    d.total == 0xFFFF || d.size == 0xFFFF_FFFF || d.offset == 0xFFFF_FFFF
  }

  /** The record that a locator names, or else the end record itself, is authoritative. */
  ghost predicate Governs(file: seq<Byte>, e: nat, d: Directory) {
    Sizes();
    e + END_SIZE <= |file| &&
    if HasLocator(file, e) then
      var o := Fields(file, e - LOCATOR_SIZE, LOCATOR_SHAPE)[1];
      o + END64_SIZE <= e - LOCATOR_SIZE && Signed(file, o, END64_SIGNATURE)
      && d == Zip64(Fields(file, o, END64_SHAPE), o)
    else
      d == Classic(Fields(file, e, END_SHAPE), e) && !Sentinel(d)
  }

  /** One disk, one count, few members, and a directory that fits and can hold them. */
  predicate Coherent(d: Directory) {
    d.disk == 0 && d.startDisk == 0 && d.onDisk == d.total && d.total <= MAX_MEMBERS
    && d.offset + d.size <= d.bound && d.total * HEADER_MIN <= d.size
  }

  ghost predicate AdmittedBy(file: seq<Byte>, e: nat, d: Directory) {
    LastEnd(file, e) && Governs(file, e, d) && Coherent(d)
  }

  ghost predicate Admits(file: seq<Byte>, n: nat) {
    exists e: nat, d :: AdmittedBy(file, e, d) && d.total == n
  }

  lemma AdmittedOnce(file: seq<Byte>, e: nat, d: Directory, e': nat, d': Directory)
    requires LastEnd(file, e) && Governs(file, e, d) && LastEnd(file, e') && Governs(file, e', d')
    ensures e == e' && d == d'
  {
    hide Fields, Signed, Size;
    assert !(e < e') && !(e' < e);
  }

  /** _admit_zip_central_directory: the declared member count, or a refusal. */
  method AdmitZipCentralDirectory(file: seq<Byte>) returns (r: Result<nat>)
    ensures r.Ok? ==> Admits(file, r.value) && forall n :: Admits(file, n) ==> n == r.value
    ensures r.Raised? ==> forall n :: !Admits(file, n)
  {
    hide Fields, Signed, Size, LastEnd, EndAt;
    Sizes();
    if |file| < END_SIZE {
      TooSmall(file);
      return Raised;
    }
    var found := FindEndOfCentralDirectory(file);
    if found.Raised? {
      NoEnd(file);
      return Raised;
    }
    var e := found.value;
    Fitting(file, e);
    Deciding(file, e);
    var d := Classic(Fields(file, e, END_SHAPE), e);
    var hasLocator := HasLocator(file, e);
    if Sentinel(d) && !hasLocator {
      return Raised;
    }
    if hasLocator {
      Fitting64(file, e);
      var o := Fields(file, e - LOCATOR_SIZE, LOCATOR_SHAPE)[1];
      if o + END64_SIZE > e - LOCATOR_SIZE || !Signed(file, o, END64_SIGNATURE) {
        return Raised;
      }
      d := Zip64(Fields(file, o, END64_SHAPE), o);
    }
    assert Governs(file, e, d);
    if d.disk != 0 || d.startDisk != 0 || d.onDisk != d.total || d.total > MAX_MEMBERS || d.offset + d.size > d.bound
       || (d.total > 0 && d.size < d.total * HEADER_MIN) {
      return Raised;
    }
    assert AdmittedBy(file, e, d);
    r := Ok(d.total);
  }

  lemma NoEnd(file: seq<Byte>)
    requires forall j: nat :: !EndAt(file, j)
    ensures forall n :: !Admits(file, n)
  {
  }

  lemma TooSmall(file: seq<Byte>)
    requires |file| < END_SIZE
    ensures forall n :: !Admits(file, n)
  {
    Sizes();
    NoEnd(file);
  }

  lemma Fitting(file: seq<Byte>, e: nat)
    requires LastEnd(file, e)
    ensures e + END_SIZE <= |file|
  {
    Sizes();
  }

  lemma Fitting64(file: seq<Byte>, e: nat)
    requires HasLocator(file, e) && e <= |file|
    ensures LOCATOR_SIZE <= e
  {
  }

  /** With the end record found, only its directory decides. */
  lemma Deciding(file: seq<Byte>, e: nat)
    requires LastEnd(file, e)
    ensures forall n, d :: Governs(file, e, d) ==> (Admits(file, n) <==> Coherent(d) && d.total == n)
    ensures forall n :: (forall d :: !Governs(file, e, d)) ==> !Admits(file, n)
  {
    hide Governs, LastEnd, Coherent;
    forall n, d | Governs(file, e, d)
      ensures Admits(file, n) <==> Coherent(d) && d.total == n
    {
      if Coherent(d) && d.total == n {
        assert AdmittedBy(file, e, d);
      }
      if Admits(file, n) {
        var e': nat, d' :| AdmittedBy(file, e', d') && d'.total == n;
        AdmittedOnce(file, e, d, e', d');
      }
    }
    forall e': nat, d' | AdmittedBy(file, e', d')
      ensures Governs(file, e, d')
    {
      LastOnce(file, e, e');
    }
  }

  lemma LastOnce(file: seq<Byte>, e: nat, e': nat)
    requires LastEnd(file, e) && LastEnd(file, e')
    ensures e == e'
  {
    hide EndAt;
    assert !(e < e') && !(e' < e);
  }

  // ----------------------------------------------------------------- written files

  /** What a ZIP64 writer adds, and the fields it leaves in the classic end record. */
  datatype Extra = Extra(recordSize: nat, madeBy: nat, needed: nat, sector: seq<Byte>, locatorDisk: nat, disks: nat,
                         classic: seq<nat>)

  /** A single-disk archive: data, directory headers, anything before the end records, and the comment. */
  datatype Layout = Layout(body: seq<Byte>, headers: seq<seq<Byte>>, gap: seq<Byte>, zip64: Option<Extra>,
                           comment: seq<Byte>)

  function Joined(parts: seq<seq<Byte>>): seq<Byte> {
    if parts == [] then [] else parts[0] + Joined(parts[1..])
  }

  function Head(l: Layout): seq<Byte> { l.body + Joined(l.headers) + l.gap }

  function EndFields(l: Layout): seq<nat> {
    (if l.zip64.Some? then l.zip64.value.classic
     else [0, 0, |l.headers|, |l.headers|, |Joined(l.headers)|, |l.body|]) + [|l.comment|]
  }

  function End64Fields(l: Layout, x: Extra): seq<nat> {
    [x.recordSize, x.madeBy, x.needed, 0, 0, |l.headers|, |l.headers|, |Joined(l.headers)|, |l.body|]
  }

  predicate WellFormed(l: Layout) {
    (forall k | 0 <= k < |l.headers| :: HEADER_MIN <= |l.headers[k]|)
    && Fits(END_SHAPE, EndFields(l))
    && match l.zip64
       case None => !Sentinel(TrueDirectory(l))
       case Some(x) => Fits(END64_SHAPE, End64Fields(l, x)) && Fits(LOCATOR_SHAPE, [x.locatorDisk, |Head(l)|, x.disks])
  }

  function Record64(l: Layout, x: Extra): seq<Byte> {
    END64_SIGNATURE + Pack(END64_SHAPE, End64Fields(l, x))
  }

  function Locator(l: Layout, x: Extra): seq<Byte> {
    LOCATOR_SIGNATURE + Pack(LOCATOR_SHAPE, [x.locatorDisk, |Head(l)|, x.disks])
  }

  function Middle(l: Layout): seq<Byte> {
    if l.zip64.None? then [] else Record64(l, l.zip64.value) + l.zip64.value.sector + Locator(l, l.zip64.value)
  }

  function EndRecord(l: Layout): seq<Byte>
    requires WellFormed(l)
  {
    END_SIGNATURE + Pack(END_SHAPE, EndFields(l))
  }

  function Write(l: Layout): seq<Byte>
    requires WellFormed(l)
  {
    Head(l) + Middle(l) + EndRecord(l) + l.comment
  }

  function TrueEnd(l: Layout): nat { |Head(l)| + |Middle(l)| }

  function TrueDirectory(l: Layout): Directory {
    Directory(0, 0, |l.headers|, |l.headers|, |Joined(l.headers)|, |l.body|,
              if l.zip64.Some? then |Head(l)| else TrueEnd(l))
  }

  /** No genuine-looking end record begins after the true one. */
  ghost predicate NoLaterEnd(l: Layout)
    requires WellFormed(l)
  {
    forall j: nat | TrueEnd(l) < j :: !EndAt(Write(l), j)
  }

  /** In a plain archive no locator signature stands 20 bytes before the end record. */
  predicate NoStrayLocator(l: Layout)
    requires WellFormed(l)
  {
    l.zip64.None? ==> !HasLocator(Write(l), TrueEnd(l))
  }

  /** A signed record inside a file is read back. */
  lemma ReadBack(pre: seq<Byte>, signature: seq<Byte>, shape: Shape, values: seq<nat>, post: seq<Byte>, file: seq<Byte>)
    requires |signature| == 4 && Fits(shape, values) && file == pre + (signature + Pack(shape, values)) + post
    ensures Signed(file, |pre|, signature) && |pre| + 4 + Size(shape) <= |file| && Fields(file, |pre|, shape) == values
  {
    hide Pack, Unpack, Size, Fits;
    PackThenUnpack(shape, values);
    assert file[|pre|..|pre| + 4] == signature;
    assert file[|pre| + 4..|pre| + 4 + Size(shape)] == Pack(shape, values);
  }

  lemma {:induction false} JoinedLength(headers: seq<seq<Byte>>)
    requires forall k | 0 <= k < |headers| :: HEADER_MIN <= |headers[k]|
    ensures |headers| * HEADER_MIN <= |Joined(headers)|
  {
    if headers != [] {
      JoinedLength(headers[1..]);
    }
  }

  lemma WrittenEnd(l: Layout)
    requires WellFormed(l)
    ensures EndAt(Write(l), TrueEnd(l)) && Fields(Write(l), TrueEnd(l), END_SHAPE) == EndFields(l)
  {
    hide Pack, Fields, Signed, Fits, Head, Middle, Size;
    Sizes();
    ReadBack(Head(l) + Middle(l), END_SIGNATURE, END_SHAPE, EndFields(l), l.comment, Write(l));
    assert |EndFields(l)| == 7 && EndFields(l)[6] == |l.comment| by { FieldCount(l); }
  }

  lemma FieldCount(l: Layout)
    requires WellFormed(l)
    ensures |EndFields(l)| == 7 && EndFields(l)[6] == |l.comment|
  {
  }

  lemma WrittenLocator(l: Layout)
    requires WellFormed(l) && l.zip64.Some?
    ensures var (x, e) := (l.zip64.value, TrueEnd(l));
            HasLocator(Write(l), e) && e <= |Write(l)| && Size(LOCATOR_SHAPE) == LOCATOR_SIZE - 4
            && Fields(Write(l), e - LOCATOR_SIZE, LOCATOR_SHAPE) == [x.locatorDisk, |Head(l)|, x.disks]
            && |Head(l)| + END64_SIZE <= e - LOCATOR_SIZE
  {
    hide Pack, Fields, Signed, Fits, Head, Size;
    Sizes();
    var x := l.zip64.value;
    var pre := Head(l) + Record64(l, x) + x.sector;
    assert Write(l) == pre + Locator(l, x) + (EndRecord(l) + l.comment);
    assert Fits(LOCATOR_SHAPE, [x.locatorDisk, |Head(l)|, x.disks]);
    ReadBack(pre, LOCATOR_SIGNATURE, LOCATOR_SHAPE, [x.locatorDisk, |Head(l)|, x.disks], EndRecord(l) + l.comment,
             Write(l));
    assert |pre| == TrueEnd(l) - LOCATOR_SIZE;
  }

  lemma Regroup<T>(head: seq<T>, a: seq<T>, b: seq<T>, c: seq<T>, d: seq<T>, e: seq<T>)
    ensures head + (a + b + c) + d + e == head + a + (b + c + d + e)
  {
  }

  lemma Split64(l: Layout, x: Extra)
    requires WellFormed(l) && l.zip64 == Some(x)
    ensures Write(l) == Head(l) + Record64(l, x) + (x.sector + Locator(l, x) + EndRecord(l) + l.comment)
    ensures Record64(l, x) == END64_SIGNATURE + Pack(END64_SHAPE, End64Fields(l, x))
  {
    hide Pack, Fits, Head, Size, WellFormed, Locator, EndRecord;
    Regroup(Head(l), Record64(l, x), x.sector, Locator(l, x), EndRecord(l), l.comment);
  }

  lemma WrittenRecord64(l: Layout)
    requires WellFormed(l) && l.zip64.Some?
    ensures |Head(l)| + 4 + Size(END64_SHAPE) <= |Write(l)| && Signed(Write(l), |Head(l)|, END64_SIGNATURE)
    ensures Fields(Write(l), |Head(l)|, END64_SHAPE) == End64Fields(l, l.zip64.value)
  {
    var x := l.zip64.value;
    Split64(l, x);
    hide *;
    ReadBack(Head(l), END64_SIGNATURE, END64_SHAPE, End64Fields(l, x),
             x.sector + Locator(l, x) + EndRecord(l) + l.comment, Write(l));
  }

  /** The true record governs exactly when no stray locator stands before a plain end record. */
  lemma Governing(l: Layout)
    requires WellFormed(l)
    ensures Governs(Write(l), TrueEnd(l), TrueDirectory(l)) <==> NoStrayLocator(l)
  {
    hide Pack, Fields, Signed, Fits, Head, Size, Write, Middle;
    Sizes();
    WrittenEnd(l);
    if l.zip64.Some? {
      WrittenLocator(l);
      WrittenRecord64(l);
    }
  }

  /** A well-formed archive is admitted on its own record exactly when nothing stray outshines it and it is small. */
  lemma AdmittedOnItsOwnRecord(l: Layout)
    requires WellFormed(l)
    ensures AdmittedBy(Write(l), TrueEnd(l), TrueDirectory(l))
            <==> NoLaterEnd(l) && NoStrayLocator(l) && |l.headers| <= MAX_MEMBERS
  {
    WrittenEnd(l);
    Governing(l);
    JoinedLength(l.headers);
    hide Write, Fits, Governs, EndAt, Joined, WellFormed, Middle, NoStrayLocator, Head, HasLocator, Sentinel, EndFields;
  }

  /** Then its true member count is the only one admitted, and a larger archive is refused. */
  lemma TrueCountAdmitted(l: Layout, n: nat)
    requires WellFormed(l) && NoLaterEnd(l) && NoStrayLocator(l)
    ensures Admits(Write(l), n) <==> n == |l.headers| <= MAX_MEMBERS
  {
    hide Write, Fits, Governs, EndAt;
    WrittenEnd(l);
    Governing(l);
    AdmittedOnItsOwnRecord(l);
    Deciding(Write(l), TrueEnd(l));
  }

  // --------------------------------------------------- a stray outside the comment

  /** An archive whose directory offset spells the end signature. */
  function Misleading(): Layout {
    Layout(seq(0x0605_4B50, _ => 0 as Byte), [seq(HEADER_MIN, _ => 0 as Byte)], [], None, seq(16, _ => 0 as Byte))
  }

  lemma MisleadingFields()
    ensures WellFormed(Misleading()) && EndFields(Misleading()) == [0, 0, 1, 1, 46, 0x0605_4B50, 16]
    ensures TrueEnd(Misleading()) == 0x0605_4B50 + 46
  {
    var l := Misleading();
    assert Joined(l.headers) == l.headers[0] + Joined([]) == l.headers[0];
    MisleadingFits([0, 0, 1, 1, 46, 0x0605_4B50, 16]);
  }

  lemma MisleadingFits(v: seq<nat>)
    requires v == [0, 0, 1, 1, 46, 0x0605_4B50, 16]
    ensures Fits(END_SHAPE, v)
  {
    Sizes();
  }

  lemma OffsetSpellsSignature()
    ensures Bytes(0x0605_4B50, 4) == END_SIGNATURE && Bytes(16, 2) == [16, 0]
  {
    assert Bytes(0x0605_4B50, 4) == [0x50] + Bytes(0x0605_4B, 3);
    assert Bytes(0x0605_4B, 3) == [0x4B] + Bytes(0x0605, 2);
    assert Bytes(0x0605, 2) == [5] + Bytes(6, 1);
    assert Bytes(6, 1) == [6] + Bytes(0, 0);
    assert Bytes(16, 2) == [16] + Bytes(0, 1);
    assert Bytes(0, 1) == [0] + Bytes(0, 0);
  }

  lemma PackedEnd(a: nat, b: nat, c: nat, d: nat, e: nat, f: nat, g: nat)
    ensures Pack(END_SHAPE, [a, b, c, d, e, f, g])
            == Bytes(a, 2) + (Bytes(b, 2) + (Bytes(c, 2) + (Bytes(d, 2) + (Bytes(e, 4) + (Bytes(f, 4) + Bytes(g, 2))))))
  {
    hide Bytes;
    assert Pack([2], [g]) == Bytes(g, 2) + Pack([], []) == Bytes(g, 2);
    assert Pack([4, 2], [f, g]) == Bytes(f, 4) + Pack([2], [g]);
    assert Pack([4, 4, 2], [e, f, g]) == Bytes(e, 4) + Pack([4, 2], [f, g]);
    assert Pack([2, 4, 4, 2], [d, e, f, g]) == Bytes(d, 2) + Pack([4, 4, 2], [e, f, g]);
    assert Pack([2, 2, 4, 4, 2], [c, d, e, f, g]) == Bytes(c, 2) + Pack([2, 4, 4, 2], [d, e, f, g]);
    assert Pack([2, 2, 2, 4, 4, 2], [b, c, d, e, f, g]) == Bytes(b, 2) + Pack([2, 2, 4, 4, 2], [c, d, e, f, g]);
  }

  lemma {:induction false} ZeroBytes(width: nat)
    ensures Bytes(0, width) == seq(width, _ => 0 as Byte)
  {
    if width > 0 {
      ZeroBytes(width - 1);
    }
  }

  /** From byte 16 on, the end record and its comment read as an end record of disk 16. */
  lemma MisleadingTail(pre: seq<Byte>, tail: seq<Byte>)
    requires pre == END_SIGNATURE + (Bytes(0, 2) + Bytes(0, 2) + Bytes(1, 2) + Bytes(1, 2) + Bytes(46, 4))
    requires tail == END_SIGNATURE + Pack(END_SHAPE, EndFields(Misleading())) + Misleading().comment
    ensures tail == pre + (END_SIGNATURE + Pack(END_SHAPE, [16, 0, 0, 0, 0, 0, 0])) && |pre| == 16
  {
    hide Bytes, Pack;
    MisleadingFields();
    OffsetSpellsSignature();
    PackedEnd(0, 0, 1, 1, 46, 0x0605_4B50, 16);
    PackedEnd(16, 0, 0, 0, 0, 0, 0);
    ZeroBytes(2);
    ZeroBytes(4);
  }

  /** Such an archive is well formed and its comment holds no signature byte, yet it is refused. */
  lemma MisleadingRefused(n: nat)
    ensures WellFormed(Misleading()) && (forall k | 0 <= k < 16 :: Misleading().comment[k] == 0)
    ensures !Admits(Write(Misleading()), n)
  {
    hide Pack, Bytes, Head, Write, Admits, WellFormed, EndFields, LastEnd;
    var l := Misleading();
    MisleadingFields();
    var pre := END_SIGNATURE + (Bytes(0, 2) + Bytes(0, 2) + Bytes(1, 2) + Bytes(1, 2) + Bytes(46, 4));
    var tail := END_SIGNATURE + Pack(END_SHAPE, EndFields(l)) + l.comment;
    MisleadingTail(pre, tail);
    MisleadingWritten(l, pre, tail, Write(l));
    MisleadingHead(Head(l));
    MisleadingLast(Head(l) + pre, Write(l), |Head(l) + pre|, n);
  }

  lemma MisleadingHead(head: seq<Byte>)
    requires head == Head(Misleading())
    ensures |head| > 20 && head[|head| - 4] == 0
  {
    var l := Misleading();
    assert Joined(l.headers) == l.headers[0] + Joined([]) == l.headers[0];
  }

  lemma Reattach<T>(head: seq<T>, record: seq<T>, comment: seq<T>, pre: seq<T>, rest: seq<T>)
    requires record + comment == pre + rest
    ensures head + [] + record + comment == (head + pre) + rest + []
  {
    assert head + [] + record + comment == head + (record + comment);
  }

  lemma MisleadingWritten(l: Layout, pre: seq<Byte>, tail: seq<Byte>, file: seq<Byte>)
    requires l == Misleading() && WellFormed(l) && file == Write(l)
    requires tail == END_SIGNATURE + Pack(END_SHAPE, EndFields(l)) + l.comment
    requires tail == pre + (END_SIGNATURE + Pack(END_SHAPE, [16, 0, 0, 0, 0, 0, 0]))
    ensures file == (Head(l) + pre) + (END_SIGNATURE + Pack(END_SHAPE, [16, 0, 0, 0, 0, 0, 0])) + []
  {
    hide Pack, Head, Bytes, Misleading, WellFormed;
    assert Middle(l) == [] by { MisleadingPlain(); }
    Reattach(Head(l), EndRecord(l), l.comment, pre, END_SIGNATURE + Pack(END_SHAPE, [16, 0, 0, 0, 0, 0, 0]));
  }

  lemma MisleadingPlain()
    ensures Misleading().zip64.None?
  {
  }

  lemma MisleadingLast(pre: seq<Byte>, file: seq<Byte>, p: nat, n: nat)
    requires file == pre + (END_SIGNATURE + Pack(END_SHAPE, [16, 0, 0, 0, 0, 0, 0])) + [] && p == |pre|
    requires p > 20 && pre[p - 20] == 0
    ensures LastEnd(file, p) && !Admits(file, n)
  {
    hide Pack, Fields, Size, Admits;
    Sizes();
    DiskSixteen();
    ReadBack(pre, END_SIGNATURE, END_SHAPE, [16, 0, 0, 0, 0, 0, 0], [], file);
    forall j: nat | EndAt(file, j)
      ensures j <= p
    {
      EndInTail(file, j);
    }
    assert file[p - LOCATOR_SIZE..p - LOCATOR_SIZE + 4][0] == 0;
    assert !HasLocator(file, p);
    Deciding(file, p);
    SpannedRefused(file, p);
    assert forall d | Governs(file, p, d) :: !Coherent(d);
    hide Governs, Coherent, LastEnd;
    if d :| Governs(file, p, d) {
      assert !Coherent(d);
    }
  }

  lemma DiskSixteen()
    ensures Fits(END_SHAPE, [16, 0, 0, 0, 0, 0, 0])
  {
    Sizes();
  }

  lemma SpannedRefused(file: seq<Byte>, p: nat)
    requires Size(END_SHAPE) == END_SIZE - 4 && p + END_SIZE <= |file| && !HasLocator(file, p)
             && Fields(file, p, END_SHAPE)[0] != 0
    ensures forall d | Governs(file, p, d) :: !Coherent(d)
  {
  }
}
