/**
  Judging an archive before import (core/inkdrop_artifact_acceptance.py): which
  pages of an oversized archive are read, and what the readings decide.
 */
module ArtifactAcceptance {
  import opened Outcomes
  import opened Sorting
  import opened NaturalOrder

  const SAMPLED_MEMBERS := 24
  const SAMPLED_BYTES := 96 * 1024 * 1024
  const MAX_IMAGE_BYTES := 16 * 1024 * 1024
  const MAX_ARCHIVE_BYTES := 512 * 1024 * 1024
  const MAX_MEMBERS := 2000

  /** Why reading one page failed. */
  datatype Fault = ReadDeclined | BadZipFile | OsError | MemoryFault | RecursionFault | OtherFault

  /** archive_read_fault_is_ours */
  predicate IsOurs(f: Fault) { f in {ReadDeclined, OsError, MemoryFault, RecursionFault} }

  /** An image member: what reading it would show, were it not too large to read. */
  datatype Image = Image(name: string, size: nat, reading: Option<Fault>)

  /** The fault of reading one page, none if it is a credible image; a page over the limit is declined unread. */
  function FaultOf(image: Image): Option<Fault> {
    if image.size > MAX_IMAGE_BYTES then Some(ReadDeclined) else image.reading
  }

  predicate Valid(image: Image) { FaultOf(image).None? }

  // --------------------------------------------------------------------- sampling

  predicate NameLe(a: Image, b: Image) { TextLe(Lower(a.name), Lower(b.name)) }

  function Ordered(images: seq<Image>): seq<Image> { SortBy(images, NameLe) }

  /** int(round(index * (count - 1) / 23)): the nearest page to an even spread. */
  function Spread(index: nat, count: nat): nat
    requires count > 0
  {
    (2 * index * (count - 1) + 23) / 46
  }

  /** The spread page is nearer than half a page to the even spread, by at least a forty-sixth. */
  lemma SpreadWithin(index: nat, count: nat)
    requires count > 0
    ensures -23 < 46 * Spread(index, count) - 2 * index * (count - 1) < 23
  {
    var x := index * (count - 1);
    assert 2 * index * (count - 1) == 2 * x;
    assert 46 * Spread(index, count) == 2 * x + 23 - (2 * x + 23) % 46;
    assert (2 * x + 23) % 46 != 0 && (2 * x + 23) % 46 % 2 == 1;
  }

  /**
    However the program's arithmetic rounds on the way, as long as it is off by
    less than a forty-sixth of a page, the nearest page is this one and never tied.
   */
  lemma SpreadNearest(index: nat, count: nat, approx: real)
    requires count > 0 && -1.0 / 46.0 < approx - (index * (count - 1)) as real / 23.0 < 1.0 / 46.0
    ensures Spread(index, count) as real - 0.5 < approx < Spread(index, count) as real + 0.5
  {
    SpreadWithin(index, count);
    var (x, n) := (index * (count - 1), Spread(index, count));
    assert 2 * index * (count - 1) == 2 * x;
    assert -22 <= 46 * n - 2 * x <= 22;
    assert -22.0 <= 46.0 * (n as real) - 2.0 * (x as real) <= 22.0;
  }

  predicate Increasing(s: seq<nat>) { forall i, j | 0 <= i < j < |s| :: s[i] < s[j] }

  /** The pages an oversized archive of this many would be judged by. */
  function Picks(count: nat): (p: seq<nat>)
    ensures |p| == if count <= SAMPLED_MEMBERS then count else SAMPLED_MEMBERS
  {
    if count <= SAMPLED_MEMBERS then seq(count, i => i)
    else seq(SAMPLED_MEMBERS, i requires 0 <= i < SAMPLED_MEMBERS => Spread(i, count))
  }

  lemma SpreadGrows(i: nat, j: nat, count: nat)
    requires i < j && count > SAMPLED_MEMBERS
    ensures Spread(i, count) < Spread(j, count)
  {
    Times(i, j, count - 1);
    NextFortySixth(2 * i * (count - 1) + 23, 2 * j * (count - 1) + 23);
  }

  lemma Times(i: nat, j: nat, n: nat)
    requires i < j
    ensures 2 * i * n + 2 * n <= 2 * j * n
  {
    assert 2 * j * n == 2 * (i + 1) * n + 2 * (j - i - 1) * n;
  }

  lemma NextFortySixth(a: nat, b: nat)
    requires a + 46 <= b
    ensures a / 46 < b / 46
  {
  }

  /** The picks run strictly upward from the first page to the last. */
  lemma PicksSpan(count: nat)
    ensures Increasing(Picks(count)) && forall i | 0 <= i < |Picks(count)| :: Picks(count)[i] < count
    ensures count > 0 ==> Picks(count)[0] == 0 && Picks(count)[|Picks(count)| - 1] == count - 1
  {
    if count > SAMPLED_MEMBERS {
      hide Spread;
      forall i, j | 0 <= i < j < SAMPLED_MEMBERS
        ensures Spread(i, count) < Spread(j, count)
      {
        SpreadGrows(i, j, count);
      }
      SpreadEnds(count);
      assert forall i | 0 <= i < SAMPLED_MEMBERS :: Picks(count)[i] == Spread(i, count);
    }
  }

  lemma SpreadEnds(count: nat)
    requires count > 0
    ensures Spread(0, count) == 0 && Spread(SAMPLED_MEMBERS - 1, count) == count - 1
  {
    assert 2 * (SAMPLED_MEMBERS - 1) * (count - 1) == 46 * (count - 1);
  }

  /** The bytes of some pages. */
  function Bytes(images: seq<Image>, picked: seq<nat>): nat
    requires forall i | 0 <= i < |picked| :: picked[i] < |images|
  {
    if picked == [] then 0 else Bytes(images, picked[..|picked| - 1]) + images[picked[|picked| - 1]].size
  }

  function Max(a: nat, b: nat): nat { if a < b then b else a }

  ghost predicate PicksOf(images: seq<Image>, sample: seq<nat>) {
    Increasing(sample) && forall i | 0 <= i < |sample| :: sample[i] < |images| && sample[i] in Picks(|images|)
  }

  /**
    What a sample of the ordered pages is: some of the picks in order, both ends
    among them, within the ceiling, and nothing left out that would still fit.
   */
  ghost predicate Samples(images: seq<Image>, sample: seq<nat>) {
    PicksOf(images, sample) && |sample| <= SAMPLED_MEMBERS
    && (images != [] ==> EndsWithin(images, sample))
    && forall p | p in Picks(|images|) && p !in sample && p < |images| ::
        Bytes(images, sample) + images[p].size > SAMPLED_BYTES
  }

  ghost predicate EndsWithin(images: seq<Image>, sample: seq<nat>)
    requires images != [] && forall i | 0 <= i < |sample| :: sample[i] < |images|
  {
    0 in sample && |images| - 1 in sample && Bytes(images, sample) <= Max(SAMPLED_BYTES, Ends(images))
  }

  /** The bytes of the first and the last page. */
  function Ends(images: seq<Image>): nat
    requires images != []
  {
    if |images| == 1 then images[0].size else images[0].size + images[|images| - 1].size
  }

  lemma BytesAfter(images: seq<Image>, picked: seq<nat>, p: nat)
    requires (forall i | 0 <= i < |picked| :: picked[i] < |images|) && p < |images|
    ensures Bytes(images, picked + [p]) == Bytes(images, picked) + images[p].size
  {
    assert (picked + [p])[..|picked|] == picked;
  }

  /** The sample while the picks before position i have been considered; the last page is held back but paid for. */
  ghost predicate Filling(images: seq<Image>, picked: seq<nat>, sample: seq<nat>, budget: nat, i: nat) {
    images != [] && picked == Picks(|images|) && 1 <= i < |picked| && |sample| <= i
    && PicksOf(images, sample) && 0 in sample && (forall x | x in sample :: x <= picked[i - 1])
    && budget == Bytes(images, sample) + images[|images| - 1].size && budget <= Max(SAMPLED_BYTES, Ends(images))
    && forall k | 0 <= k < i && picked[k] !in sample && picked[k] < |images| ::
        budget + images[picked[k]].size > SAMPLED_BYTES
  }

  lemma FirstBytes(images: seq<Image>, sample: seq<nat>)
    requires |sample| == 1 && sample[0] < |images|
    ensures Bytes(images, sample) == images[sample[0]].size && Increasing(sample)
  {
    BytesAfter(images, [], sample[0]);
    assert [] + [sample[0]] == sample;
  }

  lemma FillingStarts(images: seq<Image>, picked: seq<nat>, sample: seq<nat>, budget: nat)
    requires images != [] && picked == Picks(|images|) && |picked| > 1
    requires sample == [0] && budget == images[0].size + images[|images| - 1].size
    ensures Filling(images, picked, sample, budget, 1)
  {
    hide Picks, Bytes;
    PicksSpan(|images|);
    assert picked[0] in Picks(|images|);
    FirstBytes(images, sample);
    hide Increasing;
    assert PicksOf(images, sample);
  }

  lemma PicksPrecede(images: seq<Image>, picked: seq<nat>, sample: seq<nat>, i: nat)
    requires Increasing(picked) && 1 <= i < |picked| && forall x | x in sample :: x <= picked[i - 1]
    ensures forall x | x in sample :: x < picked[i]
  {
    assert picked[i - 1] < picked[i];
  }

  lemma PicksOfAppend(images: seq<Image>, sample: seq<nat>, p: nat)
    requires PicksOf(images, sample) && p in Picks(|images|) && p < |images| && forall x | x in sample :: x < p
    ensures PicksOf(images, sample + [p]) && Bytes(images, sample + [p]) == Bytes(images, sample) + images[p].size
    ensures forall x :: x in sample + [p] <==> x in sample || x == p
  {
    hide Picks, Bytes;
    var next := sample + [p];
    BytesAfter(images, sample, p);
    assert forall k | 0 <= k < |sample| :: next[k] == sample[k] && sample[k] in sample;
  }

  lemma FillingTakes(images: seq<Image>, picked: seq<nat>, sample: seq<nat>, budget: nat, i: nat)
    requires Filling(images, picked, sample, budget, i) && i + 1 < |picked| && picked[i] < |images|
    requires budget + images[picked[i]].size <= SAMPLED_BYTES
    ensures Filling(images, picked, sample + [picked[i]], budget + images[picked[i]].size, i + 1)
  {
    hide Picks, PicksOf, Bytes;
    PicksSpan(|images|);
    PicksPrecede(images, picked, sample, i);
    PicksOfAppend(images, sample, picked[i]);
    var next := sample + [picked[i]];
    hide Increasing;
  }

  lemma FillingSkips(images: seq<Image>, picked: seq<nat>, sample: seq<nat>, budget: nat, i: nat)
    requires Filling(images, picked, sample, budget, i) && i + 1 < |picked| && picked[i] < |images|
    requires budget + images[picked[i]].size > SAMPLED_BYTES
    ensures Filling(images, picked, sample, budget, i + 1)
  {
    hide Picks;
    PicksSpan(|images|);
    assert picked[i - 1] < picked[i];
  }

  lemma FillingEnds(images: seq<Image>, picked: seq<nat>, sample: seq<nat>, budget: nat)
    requires |picked| > 1 && Filling(images, picked, sample, budget, |picked| - 1)
    ensures Samples(images, sample + [picked[|picked| - 1]])
  {
    hide Picks, Bytes;
    var last := |images| - 1;
    PicksSpan(|images|);
    assert picked[|picked| - 1] == last;
    PicksPrecede(images, picked, sample, |picked| - 1);
    PicksOfAppend(images, sample, last);
    var whole := sample + [last];
    hide Increasing;
    forall p | p in Picks(|images|) && p !in whole && p < |images|
      ensures Bytes(images, whole) + images[p].size > SAMPLED_BYTES
    {
      var k :| 0 <= k < |picked| && picked[k] == p;
      assert k < |picked| - 1;
    }
  }

  /**
    Fill the sample between its reserved ends in the order of the picks. The
    budget counts the last page from the start, and it is added last, in order.
   */
  method ChooseWithin(images: seq<Image>, picked: seq<nat>) returns (sample: seq<nat>)
    requires images != [] && picked == Picks(|images|)
    ensures Samples(images, sample)
  {
    hide Picks, Samples, Filling;
    PicksSpan(|images|);
    if |picked| == 1 {
      SingleSample(images, picked);
      return picked;
    }
    sample := [picked[0]];
    var budget: nat := images[picked[0]].size + images[picked[|picked| - 1]].size;
    FillingStarts(images, picked, sample, budget);
    for i := 1 to |picked| - 1
      invariant Filling(images, picked, sample, budget, i)
    {
      var p := picked[i];
      if budget + images[p].size > SAMPLED_BYTES {
        FillingSkips(images, picked, sample, budget, i);
        continue;
      }
      FillingTakes(images, picked, sample, budget, i);
      budget := budget + images[p].size;
      sample := sample + [p];
    }
    FillingEnds(images, picked, sample, budget);
    sample := sample + [picked[|picked| - 1]];
  }

  lemma SingleSample(images: seq<Image>, picked: seq<nat>)
    requires images != [] && picked == Picks(|images|) && |picked| == 1
    ensures Samples(images, picked)
  {
    hide Picks, Bytes;
    PicksSpan(|images|);
    FirstBytes(images, picked);
  }

  /** _sampled_image_members, as positions in the ordered pages. */
  method SampledImageMembers(images: seq<Image>) returns (sample: seq<nat>)
    ensures Samples(Ordered(images), sample)
  {
    var ordered := Ordered(images);
    if ordered == [] {
      return [];
    }
    sample := ChooseWithin(ordered, Picks(|ordered|));
  }

  // -------------------------------------------------------------------- integrity

  datatype Integrity = FullyChecked | SampledOk | Undetermined | BadContent | NotExamined

  /** What is found at the path. A fault after the pages were read ends the examination too. */
  datatype ArchiveFile =
    | OtherFormat
    | Missing
    | Unopened(fault: Fault)
    | Opened(images: seq<Image>, later: Option<Fault>)

  datatype Semantics = Semantics(integrity: Integrity, imageCount: nat, credible: nat, errors: nat)

  /** archive_integrity_verdict */
  function IntegrityVerdict(f: Fault): Integrity { if IsOurs(f) then Undetermined else BadContent }

  function Declared(images: seq<Image>): nat {
    if images == [] then 0 else Declared(images[..|images| - 1]) + images[|images| - 1].size
  }

  predicate Oversized(images: seq<Image>) {
    |images| > MAX_MEMBERS || Declared(images) > MAX_ARCHIVE_BYTES
  }

  /** The pages that are read: a sample of an oversized archive, else all. */
  ghost predicate Reads(images: seq<Image>, read: seq<Image>) {
    if Oversized(images) then
      exists sample :: Samples(Ordered(images), sample)
        && |read| == |sample|
        && forall i | 0 <= i < |sample| :: sample[i] < |Ordered(images)| && read[i] == Ordered(images)[sample[i]]
    else read == images
  }

  predicate AllValid(read: seq<Image>) { forall i | 0 <= i < |read| :: Valid(read[i]) }

  predicate SomeBad(read: seq<Image>) {
    exists i :: 0 <= i < |read| && FaultOf(read[i]).Some? && !IsOurs(FaultOf(read[i]).value)
  }

  /** What the readings say: sound, bad on some page's own account, or no verdict. */
  predicate Judges(read: seq<Image>, oversized: bool, integrity: Integrity) {
    if read != [] && AllValid(read) then integrity == if oversized then SampledOk else FullyChecked
    else if SomeBad(read) then integrity == BadContent
    else integrity == Undetermined
  }

  /** What the examination reports of a file. */
  ghost predicate Describes(file: ArchiveFile, read: seq<Image>, s: Semantics) {
    match file
    case OtherFormat => s == Semantics(NotExamined, 0, 0, 0)
    case Missing => s == Semantics(Undetermined, 0, 0, 0)
    case Unopened(f) => s == Semantics(IntegrityVerdict(f), 0, 0, 0)
    case Opened(images, later) =>
      Reads(images, read) && (s.errors == 0 <==> AllValid(read))
      && s.credible == (if read != [] && AllValid(read) then |images| else 0)
      && if later.Some? then s.imageCount == 0 && s.integrity == IntegrityVerdict(later.value)
         else s.imageCount == |images| && Judges(read, Oversized(images), s.integrity)
  }

  /** Which pages to read. */
  method EntriesToCheck(images: seq<Image>) returns (read: seq<Image>)
    ensures Reads(images, read)
  {
    hide Samples, Ordered;
    if !Oversized(images) {
      return images;
    }
    var sample := SampledImageMembers(images);
    SampleWithin(Ordered(images), sample);
    read := seq(|sample|, i requires 0 <= i < |sample| => Ordered(images)[sample[i]]);
  }

  lemma SampleWithin(images: seq<Image>, sample: seq<nat>)
    requires Samples(images, sample)
    ensures forall i | 0 <= i < |sample| :: sample[i] < |images|
  {
  }

  /** The verification loop of archive_member_semantics, and the verdict after it. */
  method ReadPages(read: seq<Image>, oversized: bool) returns (integrity: Integrity, errors: nat)
    ensures Judges(read, oversized, integrity) && (errors == 0 <==> AllValid(read))
  {
    var fullyRead, content := 0, 0;
    errors := 0;
    for i := 0 to |read|
      invariant errors + fullyRead == i && (errors == 0 <==> AllValid(read[..i]))
      invariant content > 0 <==> SomeBad(read[..i])
    {
      assert read[..i + 1] == read[..i] + [read[i]];
      BadNext(read, i);
      var fault := FaultOf(read[i]);
      if fault.None? {
        fullyRead := fullyRead + 1;
      } else {
        errors := errors + 1;
        if !IsOurs(fault.value) {
          content := content + 1;
        }
      }
    }
    assert read[..|read|] == read;
    var allValid := read != [] && errors == 0 && fullyRead == |read|;
    integrity := if allValid then (if oversized then SampledOk else FullyChecked)
                 else if content == 0 then Undetermined else BadContent;
  }

  lemma BadNext(read: seq<Image>, i: nat)
    requires i < |read|
    ensures SomeBad(read[..i + 1])
            <==> SomeBad(read[..i]) || (FaultOf(read[i]).Some? && !IsOurs(FaultOf(read[i]).value))
    ensures AllValid(read[..i + 1]) <==> AllValid(read[..i]) && Valid(read[i])
  {
    hide FaultOf, IsOurs;
    var next := read[..i + 1];
    assert next[i] == read[i] && forall k | 0 <= k < i :: next[k] == read[..i][k];
    if SomeBad(read[..i]) {
      var k :| 0 <= k < i && FaultOf(read[..i][k]).Some? && !IsOurs(FaultOf(read[..i][k]).value);
      assert FaultOf(next[k]).Some? && !IsOurs(FaultOf(next[k]).value);
    }
  }

  /** archive_member_semantics, as far as its verdict on the pages goes. */
  method ArchiveMemberSemantics(file: ArchiveFile) returns (s: Semantics)
    ensures exists read :: Describes(file, read, s)
  {
    hide Reads, Judges, AllValid;
    ghost var read: seq<Image> := [];
    match file {
      case OtherFormat => s := Semantics(NotExamined, 0, 0, 0);
      case Missing => s := Semantics(Undetermined, 0, 0, 0);
      case Unopened(f) => s := Semantics(IntegrityVerdict(f), 0, 0, 0);
      case Opened(images, later) =>
        var entries := EntriesToCheck(images);
        read := entries;
        var integrity, errors := ReadPages(entries, Oversized(images));
        var credible := if entries != [] && errors == 0 then |images| else 0;
        s := if later.Some? then Semantics(IntegrityVerdict(later.value), 0, credible, errors)
             else Semantics(integrity, |images|, credible, errors);
    }
    assert Describes(file, read, s);
  }

  // --------------------------------------------------------------------- decision

  datatype Artifact =
    | CorruptArchive
    | Preview
    | SampleOnly
    | CoverOnly
    | PartialPages
    | Volume
    | Chapter
    | Issue
    | CollectedEdition
    | Omnibus
    | MultiChapter
    | OtherArtifact
  datatype Target = VolumeTarget | ChapterTarget | IssueTarget | CollectedTarget | OtherTarget
  datatype Unit = Conflicting | ManyChapters | OtherUnit

  datatype Decision =
    | Accepted | UndeterminedRead | RejectedCorrupt | RejectedPayload | RejectedPreview | RejectedPartial
    | RejectedSource | RejectedMetadata | RejectedUnitType | RejectedUnitNumber | ManualReview

  /** Everything the decision looks at besides the pages. */
  datatype Evidence = Evidence(
    cbz: bool, checkUndetermined: bool, checkOk: bool, artifact: Artifact, target: Target, unit: Unit,
    sourceOk: bool, conflicts: bool, targetNumber: Option<string>, artifactNumber: Option<string>,
    chapters: seq<string>, volumes: seq<string>, partialSuspected: bool)

  predicate CbzVerified(e: Evidence, s: Semantics) {
    !e.cbz || (s.integrity in {FullyChecked, SampledOk} && s.credible == s.imageCount > 0 && s.errors == 0)
  }

  predicate Hierarchical(e: Evidence) {
    e.target.ChapterTarget? && e.unit.Conflicting? && |e.chapters| == 1 && |e.volumes| == 1
  }

  /** The artifact's type, once a single chapter of a single volume is taken for the chapter. */
  function TypeOf(e: Evidence): Artifact { if Hierarchical(e) then Chapter else e.artifact }

  predicate TypeSuits(target: Target, t: Artifact) {
    match target
    case VolumeTarget => t.Volume?
    case ChapterTarget => t.Chapter?
    case IssueTarget => t !in {Chapter, MultiChapter, CollectedEdition, Omnibus}
    case CollectedTarget => t in {CollectedEdition, Omnibus}
    case OtherTarget => true
  }

  /** The number that names the artifact: its members' one number, or the one in its file name. */
  function NumberOf(e: Evidence): Option<string> {
    var members := if e.target.ChapterTarget? && TypeOf(e).Chapter? then e.chapters
                   else if e.target.VolumeTarget? && TypeOf(e).Volume? then e.volumes else [];
    if |members| == 1 then Some(members[0]) else e.artifactNumber
  }

  predicate Named(n: Option<string>) { n.Some? && n.value != "" }

  /** Everything that must hold of an accepted artifact. */
  predicate Acceptable(e: Evidence, s: Semantics) {
    !e.checkUndetermined && e.checkOk && !s.integrity.Undetermined? && CbzVerified(e, s)
    && TypeOf(e) !in {CorruptArchive, Preview, SampleOnly, CoverOnly, PartialPages}
    && e.sourceOk && !e.conflicts && (e.unit.Conflicting? ==> Hierarchical(e))
    && !(e.target.IssueTarget? && e.unit.ManyChapters?) && TypeSuits(e.target, TypeOf(e))
    && (Named(e.targetNumber) && Named(NumberOf(e)) ==> e.targetNumber == NumberOf(e))
    && !(e.target.VolumeTarget? && e.partialSuspected)
  }

  /** One chapter and one volume among members that contradict each other, where a chapter is wanted. */
  predicate TakenForChapter(e: Evidence) {
    e.target == ChapterTarget && e.unit == Conflicting && |e.chapters| == 1 && |e.volumes| == 1
  }

  predicate IsType(e: Evidence, t: Artifact) { if TakenForChapter(e) then t == Chapter else t == e.artifact }

  /** The archive could be read and is none that is known to be broken. */
  predicate Readable(e: Evidence, s: Semantics) {
    !e.checkUndetermined && e.checkOk && !IsType(e, CorruptArchive) && s.integrity != Undetermined
  }

  /** Every page that was to be read was, and all of them are images. */
  predicate AllPages(e: Evidence, s: Semantics) {
    !e.cbz
    || ((s.integrity == FullyChecked || s.integrity == SampledOk) && s.imageCount > 0 && s.credible == s.imageCount
        && s.errors == 0)
  }

  predicate IsSample(e: Evidence) { IsType(e, Preview) || IsType(e, SampleOnly) || IsType(e, CoverOnly) }

  /** It claims to be what it was fetched for. */
  predicate Identified(e: Evidence) { e.sourceOk && !e.conflicts }

  /** An artifact of the wrong kind for its target; an issue may yet be in a collection. */
  predicate WrongKind(e: Evidence) {
    (e.unit == Conflicting && !TakenForChapter(e))
    || match e.target
       case VolumeTarget => !IsType(e, Volume)
       case ChapterTarget => !IsType(e, Chapter)
       case IssueTarget => e.unit == ManyChapters || IsType(e, Chapter) || IsType(e, MultiChapter)
       case CollectedTarget => !IsType(e, CollectedEdition) && !IsType(e, Omnibus)
       case OtherTarget => false
  }

  predicate IssueInCollection(e: Evidence) {
    e.target == IssueTarget && (IsType(e, CollectedEdition) || IsType(e, Omnibus))
  }

  /** The number of its one member of the wanted kind, or of its file name, is another than the target's. */
  predicate WrongNumber(e: Evidence) {
    e.targetNumber !in {None, Some("")} && Interpreted(e) !in {None, Some("")} && e.targetNumber != Interpreted(e)
  }

  function Interpreted(e: Evidence): Option<string> {
    if e.target == ChapterTarget && IsType(e, Chapter) && |e.chapters| == 1 then Some(e.chapters[0])
    else if e.target == VolumeTarget && IsType(e, Volume) && |e.volumes| == 1 then Some(e.volumes[0])
    else e.artifactNumber
  }

  /** Whole, of the right kind so far, and identified. */
  predicate Whole(e: Evidence, s: Semantics) {
    Readable(e, s) && AllPages(e, s) && !IsSample(e) && !IsType(e, PartialPages)
  }

  /** When each decision is taken: the first thing that is wrong with the artifact, or nothing. */
  predicate Decides(e: Evidence, s: Semantics, d: Decision) {
    match d
    case UndeterminedRead =>
      e.checkUndetermined || (e.checkOk && !IsType(e, CorruptArchive) && s.integrity == Undetermined)
    case RejectedCorrupt => !e.checkUndetermined && (!e.checkOk || IsType(e, CorruptArchive))
    case RejectedPayload => Readable(e, s) && !AllPages(e, s)
    case RejectedPreview => Readable(e, s) && AllPages(e, s) && IsSample(e)
    case RejectedPartial =>
      (Readable(e, s) && AllPages(e, s) && IsType(e, PartialPages))
      || (Whole(e, s) && Identified(e) && !WrongKind(e) && !WrongNumber(e) && e.target == VolumeTarget
          && e.partialSuspected)
    case RejectedSource => Whole(e, s) && !e.sourceOk
    case RejectedMetadata => Whole(e, s) && e.sourceOk && e.conflicts
    case RejectedUnitType => Whole(e, s) && Identified(e) && WrongKind(e)
    case ManualReview => Whole(e, s) && Identified(e) && !WrongKind(e) && IssueInCollection(e)
    case RejectedUnitNumber =>
      Whole(e, s) && Identified(e) && !WrongKind(e) && !IssueInCollection(e) && WrongNumber(e)
    case Accepted =>
      Whole(e, s) && Identified(e) && !WrongKind(e) && !IssueInCollection(e) && !WrongNumber(e)
      && !(e.target == VolumeTarget && e.partialSuspected)
  }

  /** For every evidence one decision is right, and only one. */
  lemma OneDecision(e: Evidence, s: Semantics, c: Decision, d: Decision)
    requires Decides(e, s, c) && Decides(e, s, d)
    ensures c == d
  {
    hide WrongNumber, Interpreted;
  }

  /** What is accepted is what the cascade decides to accept. */
  lemma AcceptableExactly(e: Evidence, s: Semantics)
    ensures Acceptable(e, s) <==> Decides(e, s, Accepted)
  {
    NumberExactly(e);
    hide WrongNumber, Interpreted, Named, NumberOf;
  }

  lemma NumberExactly(e: Evidence)
    ensures WrongNumber(e) <==> Named(e.targetNumber) && Named(NumberOf(e)) && e.targetNumber != NumberOf(e)
  {
    assert Interpreted(e) == NumberOf(e);
  }

  /** The part of the cascade that looks at the archive itself. */
  method ArchiveDecision(e: Evidence, s: Semantics) returns (decision: Decision)
    ensures decision.Accepted? <==> !e.checkUndetermined && e.checkOk && !s.integrity.Undetermined? && CbzVerified(e, s)
                                    && TypeOf(e) !in {CorruptArchive, Preview, SampleOnly, CoverOnly, PartialPages}
    ensures decision.UndeterminedRead?
            <==> e.checkUndetermined || (TypeOf(e) != CorruptArchive && e.checkOk && s.integrity.Undetermined?)
    ensures if Whole(e, s) then decision == Accepted else Decides(e, s, decision)
  {
    decision := Accepted;
    if e.checkUndetermined {
      decision := UndeterminedRead;
    } else if TypeOf(e) == CorruptArchive || !e.checkOk {
      decision := RejectedCorrupt;
    } else if s.integrity.Undetermined? {
      decision := UndeterminedRead;
    } else if !CbzVerified(e, s) {
      decision := RejectedPayload;
    } else if TypeOf(e) in {Preview, SampleOnly, CoverOnly} {
      decision := RejectedPreview;
    } else if TypeOf(e) == PartialPages {
      decision := RejectedPartial;
    }
  }

  /** The cascade of decide_acceptance, and what follows from its outcome. */
  method DecideAcceptance(e: Evidence, s: Semantics)
    returns (decision: Decision, quarantine: bool, completion: bool, readUndetermined: bool)
    ensures Decides(e, s, decision) && (decision.Accepted? <==> Acceptable(e, s))
    ensures completion <==> decision.Accepted?
    ensures quarantine <==> decision !in {Accepted, ManualReview, UndeterminedRead}
    ensures readUndetermined <==> decision.UndeterminedRead?
    ensures readUndetermined
            <==> e.checkUndetermined || (TypeOf(e) != CorruptArchive && e.checkOk && s.integrity.Undetermined?)
  {
    NumberExactly(e);
    AcceptableExactly(e, s);
    hide WrongNumber, Interpreted, Named, NumberOf, Acceptable;
    decision := ArchiveDecision(e, s);
    readUndetermined := decision.UndeterminedRead?;
    if decision.Accepted? && !e.sourceOk { decision := RejectedSource; }
    if decision.Accepted? && e.conflicts { decision := RejectedMetadata; }
    if decision.Accepted? && e.unit.Conflicting? && !Hierarchical(e) { decision := RejectedUnitType; }
    if decision.Accepted? && e.target.IssueTarget? && e.unit.ManyChapters? { decision := RejectedUnitType; }
    if decision.Accepted? && !TypeSuits(e.target, TypeOf(e)) {
      decision := if e.target.IssueTarget? && TypeOf(e) in {CollectedEdition, Omnibus} then ManualReview
                  else RejectedUnitType;
    }
    if decision.Accepted? && Named(e.targetNumber) && Named(NumberOf(e)) && e.targetNumber != NumberOf(e) {
      decision := RejectedUnitNumber;
    }
    if decision.Accepted? && e.target.VolumeTarget? && e.partialSuspected { decision := RejectedPartial; }
    quarantine := decision !in {Accepted, ManualReview, UndeterminedRead};
    completion := decision.Accepted?;
  }

  // ------------------------------------------------------------- what acceptance means

  /**
    An accepted .cbz was opened, and its first and last page, in name order, were
    read and judged valid; all of its pages were unless it is oversized.
   */
  lemma AcceptedEndsRead(file: ArchiveFile, read: seq<Image>, s: Semantics, e: Evidence)
    requires Describes(file, read, s) && Acceptable(e, s) && e.cbz
    ensures file.Opened? && file.images != []
    ensures |Ordered(file.images)| == |file.images| && multiset(Ordered(file.images)) == multiset(file.images)
    ensures Valid(Ordered(file.images)[0]) && Valid(Ordered(file.images)[|file.images| - 1])
    ensures !Oversized(file.images) ==> forall p | p in file.images :: Valid(p)
  {
    hide Samples, Ordered, Valid, TypeOf, TypeSuits, Named;
    var images := file.images;
    OrderedKeeps(images);
    if Oversized(images) {
      var sample :| Samples(Ordered(images), sample)
        && |read| == |sample|
        && forall i | 0 <= i < |sample| :: sample[i] < |Ordered(images)| && read[i] == Ordered(images)[sample[i]];
      SampleEnds(Ordered(images), sample, read);
    } else {
      forall p | p in images
        ensures Valid(p)
      {
        var i :| 0 <= i < |read| && read[i] == p;
      }
      assert Ordered(images)[0] in multiset(Ordered(images))
             && Ordered(images)[|images| - 1] in multiset(Ordered(images));
    }
  }

  lemma OrderedKeeps(images: seq<Image>)
    ensures multiset(Ordered(images)) == multiset(images) && |Ordered(images)| == |images|
  {
    hide TextLe, Lower;
    TextLeTotal();
    SortSorts(images, NameLe);
  }

  lemma SampleEnds(ordered: seq<Image>, sample: seq<nat>, read: seq<Image>)
    requires ordered != [] && Samples(ordered, sample) && AllValid(read)
    requires |read| == |sample|
             && forall i | 0 <= i < |sample| :: sample[i] < |ordered| && read[i] == ordered[sample[i]]
    ensures Valid(ordered[0]) && Valid(ordered[|ordered| - 1])
  {
    hide Valid, Picks, Increasing;
    var i :| 0 <= i < |sample| && sample[i] == 0;
    var j :| 0 <= j < |sample| && sample[j] == |ordered| - 1;
    assert Valid(read[i]) && Valid(read[j]);
  }

  /** A reading that failed only on our account never gets the file rejected or quarantined, nor accepted as a .cbz. */
  lemma OurFaultIsNoVerdict(file: ArchiveFile, read: seq<Image>, s: Semantics, e: Evidence)
    requires file.Opened? && file.later.None? && Describes(file, read, s) && e.cbz
    ensures s.integrity.Undetermined? <==> !SomeBad(read) && (read == [] || !AllValid(read))
    ensures s.integrity.BadContent? <==> SomeBad(read)
    ensures !AllValid(read) ==> !Acceptable(e, s)
  {
    hide Reads, TypeOf, TypeSuits, Named;
  }

  // ---------------------------------------------------------- what the examination says

  /** A fault of the program that reads, or of its host: it says nothing about the file. */
  predicate ReadersFault(f: Fault) { f == ReadDeclined || f == OsError || f == MemoryFault || f == RecursionFault }

  /** A page of more than sixteen mebibytes is not read at all. */
  predicate Declined(p: Image) { p.size > 16_777_216 }

  predicate PageSound(p: Image) { !Declined(p) && p.reading == None }

  /** A page that was read and is no image, or that its archive does not hold. */
  predicate PageBroken(p: Image) { !Declined(p) && (p.reading == Some(BadZipFile) || p.reading == Some(OtherFault)) }

  /** More than two thousand pages, or more than half a gibibyte of them. */
  predicate TooMuch(images: seq<Image>) { |images| > 2000 || Declared(images) > 536_870_912 }

  /** The fault that ended the examination, if one did. */
  function Ending(file: ArchiveFile): Option<Fault> {
    match file
    case Unopened(f) => Some(f)
    case Opened(_, later) => later
    case _ => None
  }

  lemma PagesExactly(p: Image)
    ensures Valid(p) <==> PageSound(p)
    ensures FaultOf(p).Some? && !IsOurs(FaultOf(p).value) <==> PageBroken(p)
  {
    match p.reading
    case Some(ReadDeclined) =>
    case Some(BadZipFile) =>
    case Some(OsError) =>
    case Some(MemoryFault) =>
    case Some(RecursionFault) =>
    case Some(OtherFault) =>
    case None =>
  }

  /**
    What an examined archive is found to be: sound if every page that was read is,
    bad exactly if the examination ended on the archive's own account or a page
    read is broken, and undetermined in every other case.
   */
  lemma IntegrityExactly(file: ArchiveFile, read: seq<Image>, s: Semantics)
    requires Describes(file, read, s)
    ensures s.integrity == NotExamined <==> file == OtherFormat
    ensures s.integrity == BadContent
            <==> match Ending(file)
                 case Some(f) => !ReadersFault(f)
                 case None => file.Opened? && exists i :: 0 <= i < |read| && PageBroken(read[i])
    ensures s.integrity in {FullyChecked, SampledOk}
            <==> file.Opened? && Ending(file) == None && read != [] && forall i | 0 <= i < |read| :: PageSound(read[i])
    ensures s.integrity == SampledOk ==> TooMuch(file.images)
    ensures s.integrity == FullyChecked ==> !TooMuch(file.images) && read == file.images
    ensures file.Opened? && !TooMuch(file.images) ==> read == file.images
  {
    hide Samples, Ordered, Valid, FaultOf, IsOurs;
    forall p
      ensures Valid(p) <==> PageSound(p)
      ensures FaultOf(p).Some? && !IsOurs(FaultOf(p).value) <==> PageBroken(p)
    {
      PagesExactly(p);
    }
    OursExactly();
    hide PageSound, PageBroken, ReadersFault;
  }

  lemma OursExactly()
    ensures forall f :: IsOurs(f) <==> ReadersFault(f)
  {
  }
}
