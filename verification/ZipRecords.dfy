/**
  The admission of a backup archive said byte by byte (core/inkdrop_backup_restore.py;
  sections 4.3.14 to 4.3.16 of PKWARE's APPNOTE.TXT).
 */
module ZipRecords {
  import opened Outcomes
  import opened ZipAdmission

  // ------------------------------------------------------------ numbers in a file

  function U16(file: seq<Byte>, i: nat): nat
    requires i + 2 <= |file|
  {
    file[i] as int + 0x100 * (file[i + 1] as int)
  }

  function U32(file: seq<Byte>, i: nat): nat
    requires i + 4 <= |file|
  {
    U16(file, i) + 0x1_0000 * U16(file, i + 2)
  }

  function U64(file: seq<Byte>, i: nat): nat
    requires i + 8 <= |file|
  {
    U32(file, i) + 0x1_0000_0000 * U32(file, i + 4)
  }

  lemma LittleOf2(file: seq<Byte>, i: nat)
    requires i + 2 <= |file|
    ensures Little(file[i..i + 2]) == U16(file, i)
  {
    var b := file[i..i + 2];
    assert Little(b) == b[0] as int + 256 * Little(b[1..]);
    assert Little(b[1..]) == b[1] as int + 256 * Little(b[1..][1..]);
    assert b[1..][1..] == [];
  }

  lemma {:induction false} LittleConcat(a: seq<Byte>, b: seq<Byte>)
    ensures Little(a + b) == Little(a) + Power(|a|) * Little(b)
  {
    if a == [] {
      assert a + b == b;
    } else {
      LittleConcat(a[1..], b);
      assert (a + b)[1..] == a[1..] + b;
      assert 256 * (Power(|a| - 1) * Little(b)) == Power(|a|) * Little(b);
    }
  }

  lemma Powers()
    ensures Power(2) == 0x1_0000 && Power(4) == 0x1_0000_0000
  {
    assert Power(1) == 256;
  }

  lemma LittleOf4(file: seq<Byte>, i: nat)
    requires i + 4 <= |file|
    ensures Little(file[i..i + 4]) == U32(file, i)
  {
    Powers();
    LittleOf2(file, i);
    LittleOf2(file, i + 2);
    assert file[i..i + 4] == file[i..i + 2] + file[i + 2..i + 4];
    LittleConcat(file[i..i + 2], file[i + 2..i + 4]);
  }

  lemma LittleOf8(file: seq<Byte>, i: nat)
    requires i + 8 <= |file|
    ensures Little(file[i..i + 8]) == U64(file, i)
  {
    Powers();
    LittleOf4(file, i);
    LittleOf4(file, i + 4);
    assert file[i..i + 8] == file[i..i + 4] + file[i + 4..i + 8];
    LittleConcat(file[i..i + 4], file[i + 4..i + 8]);
  }

  // --------------------------------------------------------------- the records

  lemma UnpackOnce(shape: Shape, b: seq<Byte>)
    requires shape != [] && |b| == Size(shape)
    ensures shape[0] <= |b| && |b[shape[0]..]| == Size(shape[1..])
    ensures Unpack(shape, b) == [Little(b[..shape[0]])] + Unpack(shape[1..], b[shape[0]..])
  {
    hide Little;
  }

  /** The first integer of a record and the rest. */
  lemma UnpackStep(file: seq<Byte>, i: nat, shape: Shape)
    requires shape != [] && i + Size(shape) <= |file|
    ensures Size(shape) == shape[0] + Size(shape[1..])
    ensures Unpack(shape, file[i..i + Size(shape)])
            == [Little(file[i..i + shape[0]])]
               + Unpack(shape[1..], file[i + shape[0]..i + shape[0] + Size(shape[1..])])
  {
    hide Little, Unpack;
    var (n, w, b) := (Size(shape), shape[0], file[i..i + Size(shape)]);
    assert n == w + Size(shape[1..]);
    hide Size;
    UnpackOnce(shape, b);
    assert b[..w] == file[i..i + w];
    assert b[w..] == file[i + w..i + n];
  }

  lemma UnpackEnd(b: seq<Byte>)
    requires b == []
    ensures Unpack([], b) == []
  {
  }

  lemma EndSizes()
    ensures Size([]) == 0 && Size([2]) == 2 && Size([4, 2]) == 6 && Size([4, 4, 2]) == 10 && Size([2, 4, 4, 2]) == 12
    ensures Size([2, 2, 4, 4, 2]) == 14 && Size([2, 2, 2, 4, 4, 2]) == 16 && Size([2, 2, 2, 2, 4, 4, 2]) == 18
  {
    assert Size([2]) == 2;
    assert Size([4, 2]) == 6;
    assert Size([4, 4, 2]) == 10;
    assert Size([2, 4, 4, 2]) == 12;
    assert Size([2, 2, 4, 4, 2]) == 14;
    assert Size([2, 2, 2, 4, 4, 2]) == 16;
  }

  /** The numbers of an end record. */
  lemma EndNumbers(file: seq<Byte>, p: nat)
    requires p + 22 <= |file|
    ensures Size(END_SHAPE) == 18
    ensures Fields(file, p, END_SHAPE)
            == [U16(file, p + 4), U16(file, p + 6), U16(file, p + 8), U16(file, p + 10),
                U32(file, p + 12), U32(file, p + 16), U16(file, p + 20)]
  {
    EndSizes();
    hide Unpack, Size, Little, U16, U32;
    UnpackStep(file, p + 4, [2, 2, 2, 2, 4, 4, 2]);
    UnpackStep(file, p + 6, [2, 2, 2, 4, 4, 2]);
    UnpackStep(file, p + 8, [2, 2, 4, 4, 2]);
    UnpackStep(file, p + 10, [2, 4, 4, 2]);
    UnpackStep(file, p + 12, [4, 4, 2]);
    UnpackStep(file, p + 16, [4, 2]);
    UnpackStep(file, p + 20, [2]);
    UnpackEnd(file[p + 22..p + 22]);
    LittleOf2(file, p + 4);
    LittleOf2(file, p + 6);
    LittleOf2(file, p + 8);
    LittleOf2(file, p + 10);
    LittleOf4(file, p + 12);
    LittleOf4(file, p + 16);
    LittleOf2(file, p + 20);
  }

  lemma LocatorSizes()
    ensures Size([]) == 0 && Size([4]) == 4 && Size([8, 4]) == 12 && Size([4, 8, 4]) == 16
  {
    assert Size([4]) == 4;
    assert Size([8, 4]) == 12;
  }

  /** The offset a locator names. */
  lemma LocatorNumber(file: seq<Byte>, q: nat)
    requires q + 20 <= |file|
    ensures Size(LOCATOR_SHAPE) == 16 && Fields(file, q, LOCATOR_SHAPE)[1] == U64(file, q + 8)
  {
    LocatorSizes();
    hide Unpack, Size, Little, U64;
    UnpackStep(file, q + 4, [4, 8, 4]);
    UnpackStep(file, q + 8, [8, 4]);
    LittleOf8(file, q + 8);
  }

  lemma End64Sizes()
    ensures Size([]) == 0 && Size([8]) == 8 && Size([8, 8]) == 16 && Size([8, 8, 8]) == 24 && Size([8, 8, 8, 8]) == 32
    ensures Size([4, 8, 8, 8, 8]) == 36 && Size([4, 4, 8, 8, 8, 8]) == 40 && Size([2, 4, 4, 8, 8, 8, 8]) == 42
    ensures Size([2, 2, 4, 4, 8, 8, 8, 8]) == 44 && Size([8, 2, 2, 4, 4, 8, 8, 8, 8]) == 52
  {
    assert Size([8]) == 8;
    assert Size([8, 8]) == 16;
    assert Size([8, 8, 8]) == 24;
    assert Size([8, 8, 8, 8]) == 32;
    assert Size([4, 8, 8, 8, 8]) == 36;
    assert Size([4, 4, 8, 8, 8, 8]) == 40;
    assert Size([2, 4, 4, 8, 8, 8, 8]) == 42;
    assert Size([2, 2, 4, 4, 8, 8, 8, 8]) == 44;
  }

  /** The numbers of a ZIP64 end record, from its disks on. */
  lemma End64Numbers(file: seq<Byte>, o: nat)
    requires o + 56 <= |file|
    ensures Size(END64_SHAPE) == 52
    ensures Fields(file, o, END64_SHAPE)[3..]
            == [U32(file, o + 16), U32(file, o + 20), U64(file, o + 24), U64(file, o + 32),
                U64(file, o + 40), U64(file, o + 48)]
  {
    End64Sizes();
    hide Unpack, Size, Little, U32, U64;
    UnpackStep(file, o + 4, [8, 2, 2, 4, 4, 8, 8, 8, 8]);
    UnpackStep(file, o + 12, [2, 2, 4, 4, 8, 8, 8, 8]);
    UnpackStep(file, o + 14, [2, 4, 4, 8, 8, 8, 8]);
    UnpackStep(file, o + 16, [4, 4, 8, 8, 8, 8]);
    UnpackStep(file, o + 20, [4, 8, 8, 8, 8]);
    UnpackStep(file, o + 24, [8, 8, 8, 8]);
    UnpackStep(file, o + 32, [8, 8, 8]);
    UnpackStep(file, o + 40, [8, 8]);
    UnpackStep(file, o + 48, [8]);
    UnpackEnd(file[o + 56..o + 56]);
    LittleOf4(file, o + 16);
    LittleOf4(file, o + 20);
    LittleOf8(file, o + 24);
    LittleOf8(file, o + 32);
    LittleOf8(file, o + 40);
    LittleOf8(file, o + 48);
  }

  // ---------------------------------------------------------------- admission

  /** An end record whose comment fills the file to its end. */
  predicate EndHere(file: seq<Byte>, p: nat) {
    p + 22 <= |file| && file[p..p + 4] == [0x50, 0x4B, 5, 6] && p + 22 + U16(file, p + 20) == |file|
  }

  ghost predicate LastHere(file: seq<Byte>, p: nat) { EndHere(file, p) && forall q: nat | p < q :: !EndHere(file, q) }

  predicate LocatorBefore(file: seq<Byte>, p: nat) {
    p <= |file| && p >= 20 && file[p - 20..p - 16] == [0x50, 0x4B, 6, 7]
  }

  /**
    The end record's own numbers: one disk, one count, no sentinel, and a directory before
    the record that holds n headers.
   */
  predicate PlainRecord(file: seq<Byte>, p: nat, n: nat) {
    p + 22 <= |file| &&
    var (size, offset) := (U32(file, p + 12), U32(file, p + 16));
    U16(file, p + 4) == 0 && U16(file, p + 6) == 0 && U16(file, p + 8) == n && U16(file, p + 10) == n
    && n <= 16 && size != 0xFFFF_FFFF && offset != 0xFFFF_FFFF && offset + size <= p && 46 * n <= size
  }

  /** The numbers of the ZIP64 record that the locator before p names. */
  predicate WideRecord(file: seq<Byte>, p: nat, n: nat) {
    LocatorBefore(file, p) &&
    var o := U64(file, p - 12);
    o + 56 <= p - 20 && file[o..o + 4] == [0x50, 0x4B, 6, 6]
    && U32(file, o + 16) == 0 && U32(file, o + 20) == 0 && U64(file, o + 24) == n && U64(file, o + 32) == n
    && n <= 16 && U64(file, o + 48) + U64(file, o + 40) <= o && 46 * n <= U64(file, o + 40)
  }

  ghost predicate AdmittedAs(file: seq<Byte>, n: nat) { exists p: nat :: AdmittedAt(file, p, n) }

  ghost predicate AdmittedAt(file: seq<Byte>, p: nat, n: nat) {
    LastHere(file, p) && if LocatorBefore(file, p) then WideRecord(file, p, n) else PlainRecord(file, p, n)
  }

  lemma EndExactly(file: seq<Byte>, p: nat)
    ensures EndAt(file, p) <==> EndHere(file, p)
  {
    EndSizes();
    if p + 22 <= |file| {
      EndNumbers(file, p);
    }
    hide Fields, U16;
  }

  lemma LastExactly(file: seq<Byte>, p: nat)
    ensures LastEnd(file, p) <==> LastHere(file, p)
  {
    hide EndAt, EndHere;
    forall q: nat
      ensures EndAt(file, q) <==> EndHere(file, q)
    {
      EndExactly(file, q);
    }
  }

  lemma PlainExactly(file: seq<Byte>, p: nat, n: nat)
    requires p + 22 <= |file| && !LocatorBefore(file, p)
    ensures (exists d :: Governs(file, p, d) && Coherent(d) && d.total == n) <==> PlainRecord(file, p, n)
  {
    EndNumbers(file, p);
    hide Fields, U16, U32;
    var d := Classic(Fields(file, p, END_SHAPE), p);
    assert !HasLocator(file, p);
    if PlainRecord(file, p, n) {
      assert Governs(file, p, d) && Coherent(d);
    }
  }

  /** The directory of the ZIP64 record at o. */
  lemma WideDirectory(file: seq<Byte>, o: nat)
    requires o + 56 <= |file|
    ensures Size(END64_SHAPE) == 52
    ensures Zip64(Fields(file, o, END64_SHAPE), o)
            == Directory(U32(file, o + 16), U32(file, o + 20), U64(file, o + 24), U64(file, o + 32),
                         U64(file, o + 40), U64(file, o + 48), o)
  {
    hide U32, U64, Fields;
    End64Numbers(file, o);
    var v := Fields(file, o, END64_SHAPE);
    assert forall k | 3 <= k < 9 :: v[k] == v[3..][k - 3];
  }

  lemma LocatorExactly(file: seq<Byte>, p: nat)
    requires p <= |file|
    ensures HasLocator(file, p) <==> LocatorBefore(file, p)
  {
  }

  lemma LocatorGoverns(file: seq<Byte>, p: nat, d: Directory)
    requires p + 22 <= |file| && HasLocator(file, p)
    ensures Size(LOCATOR_SHAPE) == 16 && Size(END64_SHAPE) == 52
    ensures Governs(file, p, d)
            <==> var o := Fields(file, p - 20, LOCATOR_SHAPE)[1];
                 o + 56 <= p - 20 && Signed(file, o, END64_SIGNATURE) && d == Zip64(Fields(file, o, END64_SHAPE), o)
  {
    Sizes();
    hide Fields, Size, Signed, Power;
  }

  lemma WideGoverns(file: seq<Byte>, p: nat, d: Directory)
    requires p + 22 <= |file| && LocatorBefore(file, p)
    ensures Governs(file, p, d)
            <==> var o := U64(file, p - 12);
                 o + 56 <= p - 20 && file[o..o + 4] == [0x50, 0x4B, 6, 6]
                 && d == Directory(U32(file, o + 16), U32(file, o + 20), U64(file, o + 24), U64(file, o + 32),
                                   U64(file, o + 40), U64(file, o + 48), o)
  {
    hide *;
    LocatorExactly(file, p);
    LocatorInside(file, p);
    LocatorNumber(file, p - 20);
    LocatorGoverns(file, p, d);
    var o := U64(file, p - 12);
    if o + 56 <= |file| {
      WideDirectory(file, o);
      Signed64(file, o);
    }
  }

  lemma LocatorInside(file: seq<Byte>, p: nat)
    requires LocatorBefore(file, p)
    ensures 20 <= p <= |file|
  {
  }

  lemma Signed64(file: seq<Byte>, o: nat)
    requires o + 4 <= |file|
    ensures Signed(file, o, END64_SIGNATURE) <==> file[o..o + 4] == [0x50, 0x4B, 6, 6]
  {
  }

  lemma WideExactly(file: seq<Byte>, p: nat, n: nat)
    requires p + 22 <= |file| && LocatorBefore(file, p)
    ensures (exists d :: Governs(file, p, d) && Coherent(d) && d.total == n) <==> WideRecord(file, p, n)
  {
    hide Governs, U32, U64;
    forall d
      ensures Governs(file, p, d)
              <==> var o := U64(file, p - 12);
                   o + 56 <= p - 20 && file[o..o + 4] == [0x50, 0x4B, 6, 6]
                   && d == Directory(U32(file, o + 16), U32(file, o + 20), U64(file, o + 24), U64(file, o + 32),
                                     U64(file, o + 40), U64(file, o + 48), o)
    {
      WideGoverns(file, p, d);
    }
    if WideRecord(file, p, n) {
      var o := U64(file, p - 12);
      var d := Directory(U32(file, o + 16), U32(file, o + 20), U64(file, o + 24), U64(file, o + 32),
                         U64(file, o + 40), U64(file, o + 48), o);
      assert Governs(file, p, d) && Coherent(d);
    }
  }

  /** A count is admitted exactly when the bytes of the last end record, or of the record its locator names, say so. */
  lemma AdmitsExactly(file: seq<Byte>, n: nat)
    ensures Admits(file, n) <==> AdmittedAs(file, n)
  {
    hide LastEnd, LastHere, Governs, Coherent, PlainRecord, WideRecord, LocatorBefore;
    forall p: nat | LastEnd(file, p)
      ensures (exists d :: AdmittedBy(file, p, d) && d.total == n)
              <==> if LocatorBefore(file, p) then WideRecord(file, p, n) else PlainRecord(file, p, n)
    {
      Fitting(file, p);
      assert |file| >= p + 22;
      if LocatorBefore(file, p) {
        WideExactly(file, p, n);
      } else {
        PlainExactly(file, p, n);
      }
      if d :| Governs(file, p, d) && Coherent(d) && d.total == n {
        assert AdmittedBy(file, p, d);
      }
    }
    forall p: nat
      ensures LastEnd(file, p) <==> LastHere(file, p)
    {
      LastExactly(file, p);
    }
    if p: nat :| AdmittedAt(file, p, n) {
      var d :| AdmittedBy(file, p, d) && d.total == n;
    }
    if e: nat, d :| AdmittedBy(file, e, d) && d.total == n {
      assert LastEnd(file, e) && AdmittedAt(file, e, n);
    }
  }
}
