/**
  Converting one archive in the library (core/inkdrop_archive_conversion.py).
  Every state the file system passes through is recorded; any operation may fail.
 */
module ArchiveConversion {
  import opened Outcomes

  type Path = string
  type Content = string
  type Files = map<Path, Content>

  /**
    The files of one conversion. A mislabelled source already ends in .cbz, so
    its destination is the source itself.
   */
  datatype Plan = Plan(source: Path, dest: Path, tmp: Path, slot: Path, keep: bool, dryRun: bool)

  predicate Apart(p: Plan) {
    p.tmp !in {p.source, p.dest, p.slot} && (p.slot == p.dest ==> p.source == p.dest)
  }

  function At(f: Files, p: Path): Option<Content> { if p in f then Some(f[p]) else None }

  /** What becomes of shutil.move: a rename, or a copy that may stop partway or fail to remove the source. */
  datatype Move = NoMove | Renamed | CopyBroke(partial: Content) | CopyKept(partial: Content) | Copied(partial: Content)

  predicate Moves(m: Move) { m.Renamed? || m.Copied? }

  /** What the move writes to the target before the content is complete. */
  function PartialOf(m: Move): Option<Content> {
    match m
    case CopyBroke(c) => Some(c)
    case CopyKept(c) => Some(c)
    case Copied(c) => Some(c)
    case _ => None
  }

  datatype Inspection = Unreadable | Inspected(container: string, nested: bool, images: nat, comicinfo: bool)

  /** What build_cbz left at the temporary path, and what it reports. */
  datatype Build =
    | BuildRefused(left: Option<Content>)
    | BuildFailed(left: Option<Content>)
    | Built(archive: Content, pages: nat, comicinfo: bool)

  /** How the operations of one call turn out. */
  datatype Fates = Fates(inspection: Inspection, build: Build, retire: Move, unlinked: bool, publish: bool, back: Move,
                         cleanup: bool)

  datatype Reason =
    | SourceMissing | DestinationExists | InspectionRefused | ContainerUnsupported | NestedArchive | NoImages
    | SlotTaken | Convertible | BuildRefusal | ConversionFailed | PartialExtraction | ValidationFailed | ComicinfoLost
    | RetireFailed | DeleteFailed | PublishFailed | Converted

  // ------------------------------------------------------------- what is promised

  /** The original's bytes are at the source path or in the originals slot. */
  predicate Safe(f: Files, p: Plan, original: Content) {
    At(f, p.source) == Some(original) || At(f, p.slot) == Some(original)
  }

  /** The destination holds nothing, the untouched original, or a validated archive. */
  predicate Honest(f: Files, p: Plan, original: Content, accepts: Content -> bool) {
    p.dest !in f || Good(f[p.dest], p, original, accepts)
  }

  predicate Good(c: Content, p: Plan, original: Content, accepts: Content -> bool) {
    (p.dest == p.source && c == original) || accepts(c)
  }

  /** No other file changes. */
  ghost predicate OthersKept(before: Files, f: Files, p: Plan) {
    forall q | q !in {p.source, p.dest, p.tmp, p.slot} :: At(f, q) == At(before, q)
  }

  predicate AllSafe(h: seq<Files>, p: Plan, original: Content) { forall i | 0 <= i < |h| :: Safe(h[i], p, original) }

  predicate AllHonest(h: seq<Files>, p: Plan, original: Content, accepts: Content -> bool) {
    forall i | 0 <= i < |h| :: Honest(h[i], p, original, accepts)
  }

  ghost predicate AllOthersKept(h: seq<Files>, before: Files, p: Plan) {
    forall i | 0 <= i < |h| :: OthersKept(before, h[i], p)
  }

  /** The states a move passes through. */
  function MoveStates(f: Files, from: Path, to: Path, m: Move): seq<Files>
    requires from in f
  {
    match m
    case NoMove => []
    case Renamed => [f[to := f[from]] - {from}]
    case CopyBroke(c) => [f[to := c]]
    case CopyKept(c) => [f[to := c], f[to := f[from]]]
    case Copied(c) => [f[to := c], f[to := f[from]], f[to := f[from]] - {from}]
  }

  function LastOf(f: Files, h: seq<Files>): Files { if h == [] then f else h[|h| - 1] }

  class Disk {
    var files: Files
    ghost var history: seq<Files>

    ghost predicate Valid()
      reads this
    {
      |history| > 0 && history[|history| - 1] == files
    }

    constructor (files: Files)
      ensures Valid() && this.files == files && history == [files]
    {
      this.files, history := files, [files];
    }

    method Write(p: Path, c: Content)
      requires Valid()
      modifies this
      ensures Valid() && files == old(files)[p := c] && history == old(history) + [files]
    {
      files := files[p := c];
      history := history + [files];
    }

    method Remove(p: Path)
      requires Valid()
      modifies this
      ensures Valid() && files == old(files) - {p} && history == old(history) + [files]
    {
      files := files - {p};
      history := history + [files];
    }

    /** os.replace and Path.replace, once they succeed. */
    method Rename(from: Path, to: Path)
      requires Valid() && from in files && from != to
      modifies this
      ensures Valid() && files == old(files)[to := old(files)[from]] - {from} && history == old(history) + [files]
    {
      files := files[to := files[from]] - {from};
      history := history + [files];
    }

    /** shutil.move */
    method MoveFile(from: Path, to: Path, m: Move) returns (ok: bool)
      requires Valid() && from in files && from != to
      modifies this
      ensures Valid() && ok == Moves(m)
      ensures history == old(history) + MoveStates(old(files), from, to, m)
      ensures files == LastOf(old(files), MoveStates(old(files), from, to, m))
    {
      match m {
        case NoMove => ok := false;
        case Renamed =>
          Rename(from, to);
          ok := true;
        case CopyBroke(c) =>
          Write(to, c);
          ok := false;
        case CopyKept(c) =>
          Write(to, c);
          Write(to, files[from]);
          assert files == old(files)[to := old(files)[from]];
          ok := false;
        case Copied(c) =>
          var whole := files[from];
          Write(to, c);
          Write(to, whole);
          assert files == old(files)[to := whole];
          Remove(from);
          ok := true;
      }
    }
  }

  /** The source keeps the original while it is moved into the slot, and the slot has it afterwards. */
  lemma Retiring(f: Files, p: Plan, m: Move, original: Content, accepts: Content -> bool)
    requires Apart(p) && p.slot != p.source && At(f, p.source) == Some(original) && p.slot !in f
    requires Honest(f, p, original, accepts)
    ensures var h := MoveStates(f, p.source, p.slot, m);
            AllSafe(h, p, original) && AllHonest(h, p, original, accepts) && AllOthersKept(h, f, p)
            && At(LastOf(f, h), p.tmp) == At(f, p.tmp) && Honest(LastOf(f, h), p, original, accepts)
            && if Moves(m) then At(LastOf(f, h), p.slot) == Some(original) && p.source !in LastOf(f, h)
               else At(LastOf(f, h), p.source) == Some(original)
  {
  }

  /**
    The slot keeps the original while it is moved back; only a copy onto a destination equal
    to the source can show.
   */
  lemma MovingBack(f: Files, p: Plan, m: Move, original: Content, accepts: Content -> bool)
    requires Apart(p) && p.slot != p.source && At(f, p.slot) == Some(original) && p.source !in f
    requires p.dest !in f
    ensures var h := MoveStates(f, p.slot, p.source, m);
            AllSafe(h, p, original) && AllOthersKept(h, f, p) && Safe(LastOf(f, h), p, original)
            && (AllHonest(h, p, original, accepts)
                <==> p.dest != p.source || PartialOf(m).None? || Good(PartialOf(m).value, p, original, accepts))
            && (Moves(m) ==> At(LastOf(f, h), p.source) == Some(original))
            && At(LastOf(f, h), p.tmp) == At(f, p.tmp)
  {
    var h := MoveStates(f, p.slot, p.source, m);
    if PartialOf(m).Some? {
      assert h[0] == f[p.source := PartialOf(m).value];
      assert Honest(h[0], p, original, accepts)
             <==> p.dest != p.source || Good(PartialOf(m).value, p, original, accepts);
    }
    assert forall i | 1 <= i < |h| :: Honest(h[i], p, original, accepts);
  }

  // ------------------------------------------------------------------- conversion

  /** Nothing is in the way and the archive is one to convert. */
  predicate Accepted(p: Plan, before: Files, fates: Fates) {
    p.source in before && (p.dest in before ==> p.dest == p.source)
    && fates.inspection.Inspected? && fates.inspection.container in {"zip", "rar"}
    && !fates.inspection.nested && fates.inspection.images > 0
    && (p.keep ==> p.slot !in before) && !p.dryRun
  }

  /** The temporary file is a complete, validated archive. */
  predicate Sound(fates: Fates, accepts: Content -> bool) {
    fates.build.Built? && fates.inspection.Inspected? && fates.build.pages >= fates.inspection.images
    && accepts(fates.build.archive) && (fates.inspection.comicinfo ==> fates.build.comicinfo)
  }

  /** The original has left the source path. */
  predicate Retired(p: Plan, before: Files, fates: Fates, accepts: Content -> bool) {
    Accepted(p, before, fates) && Sound(fates, accepts) && if p.keep then Moves(fates.retire) else fates.unlinked
  }

  /** The temporary file is there once the build has ended, from this build or an earlier one. */
  predicate TmpLeft(p: Plan, before: Files, build: Build) { p.tmp in before || build.Built? || build.left.Some? }

  /** Why a plan is refused before anything is written: the first thing that is wrong with it. */
  ghost predicate RefusedFor(p: Plan, before: Files, i: Inspection, why: Reason) {
    match why
    case SourceMissing => p.source !in before
    case DestinationExists => p.source in before && p.dest in before && p.dest != p.source
    case InspectionRefused => InPlace(p, before) && i.Unreadable?
    case ContainerUnsupported => InPlace(p, before) && i.Inspected? && i.container != "zip" && i.container != "rar"
    case NestedArchive => Known(p, before, i) && i.nested
    case NoImages => Known(p, before, i) && !i.nested && i.images == 0
    case SlotTaken => Known(p, before, i) && !i.nested && i.images > 0 && p.keep && p.slot in before
    case Convertible =>
      Known(p, before, i) && !i.nested && i.images > 0 && !(p.keep && p.slot in before) && p.dryRun
    case _ => false
  }

  /** The source is there and its destination is free, or the source itself. */
  predicate InPlace(p: Plan, before: Files) { p.source in before && (p.dest in before ==> p.dest == p.source) }

  predicate Known(p: Plan, before: Files, i: Inspection) {
    InPlace(p, before) && i.Inspected? && (i.container == "zip" || i.container == "rar")
  }

  /** Why an accepted plan comes to nothing: the first step that fails. */
  predicate FailedFor(p: Plan, fates: Fates, accepts: Content -> bool, why: Reason) {
    var (b, i) := (fates.build, fates.inspection);
    match why
    case BuildRefusal => b.BuildRefused?
    case ConversionFailed => b.BuildFailed?
    case PartialExtraction => b.Built? && i.Inspected? && b.pages < i.images
    case ValidationFailed => b.Built? && i.Inspected? && b.pages >= i.images && !accepts(b.archive)
    case ComicinfoLost =>
      b.Built? && i.Inspected? && b.pages >= i.images && accepts(b.archive) && i.comicinfo && !b.comicinfo
    case RetireFailed => Sound(fates, accepts) && p.keep && !fates.retire.Renamed? && !fates.retire.Copied?
    case DeleteFailed => Sound(fates, accepts) && !p.keep && !fates.unlinked
    case PublishFailed => Sound(fates, accepts) && Leaves(p, fates) && !fates.publish
    case _ => false
  }

  /** The original leaves its place. */
  predicate Leaves(p: Plan, fates: Fates) {
    if p.keep then fates.retire.Renamed? || fates.retire.Copied? else fates.unlinked
  }

  /** The files after a call that went well: the archive in place, the original in its slot if it is kept. */
  function Done(p: Plan, before: Files, archive: Content, original: Content): Files {
    (Emptied(p, before, original) - {p.tmp})[p.dest := archive]
  }

  /** The files once the original has left its place. */
  function Emptied(p: Plan, before: Files, original: Content): Files {
    (if p.keep then before[p.slot := original] else before) - {p.source}
  }

  /** The files once the original has been put back, as far as the move gets. */
  function PutBackFiles(p: Plan, f: Files, back: Move): Files {
    if !p.keep || back.NoMove? || p.slot !in f then f
    else if back.Renamed? || back.Copied? then f[p.source := f[p.slot]] - {p.slot}
    else if back.CopyBroke? then f[p.source := back.partial]
    else f[p.source := f[p.slot]]
  }

  /**
    How the call ends once a plan is accepted: the reason is the first step that
    failed, no temporary file is left unless removing it failed, and every file is
    where that step left it.
   */
  ghost predicate Ended(p: Plan, before: Files, fates: Fates, accepts: Content -> bool, original: Content,
                        r: Result<Reason>, f: Files)
  {
    var done := Sound(fates, accepts) && Leaves(p, fates) && fates.publish;
    var removed := fates.cleanup || !TmpLeft(p, before, fates.build);
    match r
    case Raised => !done && !removed
    case Ok(Converted) => done && f == Done(p, before, fates.build.archive, original)
    case Ok(why) =>
      FailedFor(p, fates, accepts, why) && removed && p.tmp !in f
      && if why.PublishFailed? then f == PutBackFiles(p, Emptied(p, before, original), fates.back) - {p.tmp}
         else if why.RetireFailed? then forall q | q !in {p.slot, p.tmp} :: At(f, q) == At(before, q)
         else f == before - {p.tmp}
  }

  /** A plan is accepted exactly when nothing is wrong with it. */
  lemma AcceptedExactly(p: Plan, before: Files, fates: Fates)
    ensures Accepted(p, before, fates) <==> forall why :: !RefusedFor(p, before, fates.inspection, why)
  {
    var i := fates.inspection;
    if !Accepted(p, before, fates) {
      if p.source !in before { assert RefusedFor(p, before, i, SourceMissing); }
      else if p.dest in before && p.dest != p.source { assert RefusedFor(p, before, i, DestinationExists); }
      else if i.Unreadable? { assert RefusedFor(p, before, i, InspectionRefused); }
      else if i.container !in {"zip", "rar"} { assert RefusedFor(p, before, i, ContainerUnsupported); }
      else if i.nested { assert RefusedFor(p, before, i, NestedArchive); }
      else if i.images == 0 { assert RefusedFor(p, before, i, NoImages); }
      else if p.keep && p.slot in before { assert RefusedFor(p, before, i, SlotTaken); }
      else { assert RefusedFor(p, before, i, Convertible); }
    }
  }

  lemma OnlyRefusal(p: Plan, before: Files, fates: Fates, why: Reason)
    requires RefusedFor(p, before, fates.inspection, why)
    ensures forall b | RefusedFor(p, before, fates.inspection, b) :: b == why
    ensures why !in {Converted, PublishFailed}
  {
  }

  /** What the end of a call means for the archive, the original and the temporary file. */
  lemma EndedMeans(p: Plan, before: Files, fates: Fates, accepts: Content -> bool, original: Content,
                   r: Result<Reason>, f: Files)
    requires Ended(p, before, fates, accepts, original, r, f) && Apart(p) && Accepted(p, before, fates)
    requires At(before, p.source) == Some(original)
    ensures r.Ok? ==> p.tmp !in f
    ensures r == Ok(Converted) <==> Retired(p, before, fates, accepts) && fates.publish
    ensures r == Ok(Converted) ==>
              At(f, p.dest) == Some(fates.build.archive) && accepts(fates.build.archive)
              && (p.dest != p.source ==> p.source !in f) && (p.keep ==> At(f, p.slot) == Some(original))
    ensures r.Ok? && r.value !in {Converted, PublishFailed} ==> At(f, p.source) == Some(original)
    ensures r == Ok(PublishFailed) && p.keep && Moves(fates.back) ==> At(f, p.source) == Some(original)
  {
    OneReason(p, before, fates, accepts, Converted, if r.Ok? then r.value else Converted);
  }

  /** One reason at most holds of a plan that is refused, and of one that fails. */
  lemma OneReason(p: Plan, before: Files, fates: Fates, accepts: Content -> bool, a: Reason, b: Reason)
    ensures RefusedFor(p, before, fates.inspection, a) && RefusedFor(p, before, fates.inspection, b) ==> a == b
    ensures FailedFor(p, fates, accepts, a) && FailedFor(p, fates, accepts, b) ==> a == b
    ensures FailedFor(p, fates, accepts, a) ==> !(Sound(fates, accepts) && Leaves(p, fates) && fates.publish)
  {
  }

  /** The one way a destination is left showing neither the original nor a validated archive. */
  predicate Exposed(p: Plan, before: Files, fates: Fates, original: Content, accepts: Content -> bool) {
    p.keep && Retired(p, before, fates, accepts) && !fates.publish && p.dest == p.source
    && PartialOf(fates.back).Some? && !Good(PartialOf(fates.back).value, p, original, accepts)
  }

  /** What the states of one call promise. */
  ghost predicate Kept(h: seq<Files>, before: Files, p: Plan, original: Content, accepts: Content -> bool) {
    AllOthersKept(h, before, p) && AllHonest(h, p, original, accepts) && (p.keep ==> AllSafe(h, p, original))
  }

  class Converter {
    const plan: Plan
    const fates: Fates
    const accepts: Content -> bool
    const disk: Disk

    constructor (plan: Plan, fates: Fates, accepts: Content -> bool, disk: Disk)
      ensures this.plan == plan && this.fates == fates && this.accepts == accepts && this.disk == disk
    {
      this.plan, this.fates, this.accepts, this.disk := plan, fates, accepts, disk;
    }

    /** tmp_dest.unlink(missing_ok=True), then the reason is reported. */
    method CleanUp(reason: Reason) returns (r: Result<Reason>)
      requires disk.Valid()
      modifies disk
      ensures disk.Valid()
      ensures r.Ok? ==> r.value == reason && disk.files == old(disk.files) - {plan.tmp}
                        && disk.history == old(disk.history)
                           + (if plan.tmp in old(disk.files) then [disk.files] else [])
      ensures r.Raised? <==> plan.tmp in old(disk.files) && !fates.cleanup
      ensures r.Raised? ==> disk.files == old(disk.files) && disk.history == old(disk.history)
    {
      if plan.tmp in disk.files {
        if !fates.cleanup { return Raised; }
        disk.Remove(plan.tmp);
      }
      r := Ok(reason);
    }

    /** build_cbz: a temporary archive, whole or not. */
    method BuildTmp() returns (failure: Option<Reason>)
      requires disk.Valid()
      modifies disk
      ensures disk.Valid()
      ensures failure == match fates.build
                         case BuildRefused(_) => Some(BuildRefusal)
                         case BuildFailed(_) => Some(ConversionFailed)
                         case Built(_, _, _) => None
      ensures fates.build.Built? ==> disk.files == old(disk.files)[plan.tmp := fates.build.archive]
      ensures plan.tmp in disk.files <==> TmpLeft(plan, old(disk.files), fates.build)
      ensures forall q | q != plan.tmp :: At(disk.files, q) == At(old(disk.files), q)
      ensures disk.history == old(disk.history) || disk.history == old(disk.history) + [disk.files]
    {
      match fates.build {
        case BuildRefused(left) =>
          if left.Some? { disk.Write(plan.tmp, left.value); }
          failure := Some(BuildRefusal);
        case BuildFailed(left) =>
          if left.Some? { disk.Write(plan.tmp, left.value); }
          failure := Some(ConversionFailed);
        case Built(archive, _, _) =>
          disk.Write(plan.tmp, archive);
          failure := None;
      }
    }

    /** The checks before anything is written. */
    method Refusal() returns (refused: Option<Reason>)
      ensures refused.None? <==> Accepted(plan, disk.files, fates)
      ensures refused.Some? ==> RefusedFor(plan, disk.files, fates.inspection, refused.value)
    {
      if plan.source !in disk.files { return Some(SourceMissing); }
      if plan.dest in disk.files && plan.dest != plan.source { return Some(DestinationExists); }
      if fates.inspection.Unreadable? { return Some(InspectionRefused); }
      if fates.inspection.container !in {"zip", "rar"} { return Some(ContainerUnsupported); }
      if fates.inspection.nested { return Some(NestedArchive); }
      if fates.inspection.images == 0 { return Some(NoImages); }
      if plan.keep && plan.slot in disk.files { return Some(SlotTaken); }
      if plan.dryRun { return Some(Convertible); }
      refused := None;
    }

    /** Build and check; the source is untouched. */
    method Prepare() returns (failure: Option<Reason>)
      requires disk.Valid() && Apart(plan) && fates.inspection.Inspected?
      modifies disk
      ensures disk.Valid() && (failure.None? <==> Sound(fates, accepts))
      ensures failure.Some? ==> FailedFor(plan, fates, accepts, failure.value)
                                && failure.value !in {PublishFailed, RetireFailed, DeleteFailed}
      ensures failure.None? ==> disk.files == old(disk.files)[plan.tmp := fates.build.archive]
      ensures plan.tmp in disk.files <==> TmpLeft(plan, old(disk.files), fates.build)
      ensures forall q | q != plan.tmp :: At(disk.files, q) == At(old(disk.files), q)
      ensures disk.history == old(disk.history) || disk.history == old(disk.history) + [disk.files]
    {
      failure := BuildTmp();
      if failure.Some? { return; }
      if fates.build.pages < fates.inspection.images { return Some(PartialExtraction); }
      if !accepts(fates.build.archive) { return Some(ValidationFailed); }
      if fates.inspection.comicinfo && !fates.build.comicinfo { return Some(ComicinfoLost); }
    }

    /** Retire the original: into its slot, or for good. */
    method Retire(ghost original: Content) returns (ok: bool, ghost h: seq<Files>)
      requires disk.Valid() && Apart(plan) && At(disk.files, plan.source) == Some(original)
      requires Honest(disk.files, plan, original, accepts) && (plan.keep ==> plan.slot !in disk.files)
      modifies disk
      ensures disk.Valid() && ok == if plan.keep then Moves(fates.retire) else fates.unlinked
      ensures disk.history == old(disk.history) + h && Kept(h, old(disk.files), plan, original, accepts)
      ensures At(disk.files, plan.tmp) == At(old(disk.files), plan.tmp) && Honest(disk.files, plan, original, accepts)
      ensures OthersKept(old(disk.files), disk.files, plan)
      ensures ok ==> disk.files == Emptied(plan, old(disk.files), original)
      ensures !ok && !plan.keep ==> disk.files == old(disk.files)
      ensures !ok ==> forall q | q != plan.slot :: At(disk.files, q) == At(old(disk.files), q)
      ensures plan.dest in disk.files ==> plan.dest in old(disk.files) && !(ok && plan.dest == plan.source)
      ensures if !ok then At(disk.files, plan.source) == Some(original)
              else plan.source !in disk.files && (plan.keep ==> At(disk.files, plan.slot) == Some(original))
    {
      h := [];
      if plan.keep {
        Retiring(disk.files, plan, fates.retire, original, accepts);
        h := MoveStates(disk.files, plan.source, plan.slot, fates.retire);
        ok := disk.MoveFile(plan.source, plan.slot, fates.retire);
      } else {
        ok := fates.unlinked;
        if ok {
          disk.Remove(plan.source);
          h := [disk.files];
        }
      }
    }

    /** Put the original back after a failed publication, if it was kept; failing at that is not reported. */
    method PutBack(ghost original: Content) returns (ghost h: seq<Files>)
      requires disk.Valid() && Apart(plan) && plan.source !in disk.files && plan.dest !in disk.files
      requires plan.keep ==> plan.slot != plan.source && At(disk.files, plan.slot) == Some(original)
      modifies disk
      ensures disk.Valid() && disk.history == old(disk.history) + h && disk.files == LastOf(old(disk.files), h)
      ensures AllOthersKept(h, old(disk.files), plan) && (plan.keep ==> AllSafe(h, plan, original))
      ensures AllHonest(h, plan, original, accepts)
              <==> !(plan.keep && plan.dest == plan.source && PartialOf(fates.back).Some?
                     && !Good(PartialOf(fates.back).value, plan, original, accepts))
      ensures plan.keep && Moves(fates.back) ==> At(disk.files, plan.source) == Some(original)
      ensures disk.files == PutBackFiles(plan, old(disk.files), fates.back)
      ensures plan.tmp in disk.files <==> plan.tmp in old(disk.files)
    {
      h := [];
      if plan.keep {
        MovingBack(disk.files, plan, fates.back, original, accepts);
        h := MoveStates(disk.files, plan.slot, plan.source, fates.back);
        var _ := disk.MoveFile(plan.slot, plan.source, fates.back);
      }
    }

    /** Publish the validated archive, or put the original back. */
    method Publish(ghost original: Content) returns (r: Result<Reason>, ghost h: seq<Files>)
      requires disk.Valid() && Apart(plan) && plan.source !in disk.files && plan.dest !in disk.files
               && fates.build.Built?
      requires At(disk.files, plan.tmp) == Some(fates.build.archive) && accepts(fates.build.archive)
      requires plan.keep ==> plan.slot != plan.source && At(disk.files, plan.slot) == Some(original)
      modifies disk
      ensures disk.Valid() && disk.history == old(disk.history) + h
      ensures AllOthersKept(h, old(disk.files), plan) && (plan.keep ==> AllSafe(h, plan, original))
      ensures AllHonest(h, plan, original, accepts)
              <==> !(plan.keep && !fates.publish && plan.dest == plan.source && PartialOf(fates.back).Some?
                     && !Good(PartialOf(fates.back).value, plan, original, accepts))
      ensures r == Ok(Converted) <==> fates.publish
      ensures r.Ok? ==> r.value in {Converted, PublishFailed}
      ensures r.Raised? <==> !fates.publish && !fates.cleanup
      ensures fates.publish ==> disk.files == (old(disk.files) - {plan.tmp})[plan.dest := fates.build.archive]
      ensures !fates.publish ==>
                disk.files == PutBackFiles(plan, old(disk.files), fates.back) - if fates.cleanup then {plan.tmp} else {}
      ensures fates.publish ==> At(disk.files, plan.dest) == Some(fates.build.archive)
                                && (plan.dest != plan.source ==> plan.source !in disk.files)
                                && (plan.keep ==> At(disk.files, plan.slot) == Some(original))
      ensures plan.keep && !fates.publish && Moves(fates.back) ==> At(disk.files, plan.source) == Some(original)
    {
      if fates.publish {
        disk.Rename(plan.tmp, plan.dest);
        return Ok(Converted), [disk.files];
      }
      hide Safe, Honest, OthersKept, Good, AllSafe, AllHonest, AllOthersKept;
      ghost var start := disk.files;
      h := PutBack(original);
      ghost var f := disk.files;
      r := CleanUp(PublishFailed);
      AbsentPromised(start, plan, original, accepts);
      ThenCleaned(start, h, plan, original, accepts);
      if r.Ok? && plan.tmp in f {
        h := h + [f - {plan.tmp}];
      }
    }

    /**
      convert_archive. While the original is kept it is never lost, whatever
      fails; the destination shows the original or a validated archive in every
      state exactly when the call is not exposed; a refusal changes nothing.
     */
    method ConvertArchive(ghost original: Content) returns (r: Result<Reason>)
      requires disk.Valid() && disk.history == [disk.files] && Apart(plan)
      requires plan.source in disk.files ==> disk.files[plan.source] == original
      modifies disk
      ensures disk.Valid() && AllOthersKept(disk.history, old(disk.files), plan)
      ensures plan.keep && plan.source in old(disk.files) ==> AllSafe(disk.history, plan, original)
      ensures plan.dest in old(disk.files) ==> plan.dest == plan.source || disk.history == [old(disk.files)]
      ensures (plan.dest in old(disk.files) ==> plan.dest == plan.source) ==>
                (AllHonest(disk.history, plan, original, accepts)
                 <==> !Exposed(plan, old(disk.files), fates, original, accepts))
      ensures r == Ok(Converted) <==> Retired(plan, old(disk.files), fates, accepts) && fates.publish
      ensures r == Ok(Converted) ==>
                At(disk.files, plan.dest) == Some(fates.build.archive) && accepts(fates.build.archive)
                && plan.tmp !in disk.files
                && (plan.dest != plan.source ==> plan.source !in disk.files)
                && (plan.keep ==> At(disk.files, plan.slot) == Some(original))
      ensures r.Ok? && r.value !in {Converted, PublishFailed}
              ==> At(disk.files, plan.source) == At(old(disk.files), plan.source)
      ensures r == Ok(PublishFailed) && plan.keep && Moves(fates.back) ==> At(disk.files, plan.source) == Some(original)
      ensures forall why | RefusedFor(plan, old(disk.files), fates.inspection, why) ::
                r == Ok(why) && disk.files == old(disk.files) && disk.history == [old(disk.files)]
      ensures (forall why :: !RefusedFor(plan, old(disk.files), fates.inspection, why)) ==>
                Ended(plan, old(disk.files), fates, accepts, original, r, disk.files)
                && (r.Ok? ==> plan.tmp !in disk.files)
    {
      var refused := Refusal();
      AcceptedExactly(plan, disk.files, fates);
      if refused.Some? {
        OnlyRefusal(plan, disk.files, fates, refused.value);
        return Ok(refused.value);
      }
      hide Safe, Honest, OthersKept, Good, AllSafe, AllHonest, AllOthersKept, Sound, Moves;
      ghost var before := disk.files;
      r := Carry(original);
      EndedMeans(plan, before, fates, accepts, original, r, disk.files);
    }

    /** Build, check, retire and publish. */
    method Carry(ghost original: Content) returns (r: Result<Reason>)
      requires disk.Valid() && disk.history == [disk.files] && Apart(plan) && Accepted(plan, disk.files, fates)
      requires At(disk.files, plan.source) == Some(original)
      modifies disk
      ensures disk.Valid() && AllOthersKept(disk.history, old(disk.files), plan)
      ensures plan.keep ==> AllSafe(disk.history, plan, original)
      ensures AllHonest(disk.history, plan, original, accepts)
              <==> !Exposed(plan, old(disk.files), fates, original, accepts)
      ensures Ended(plan, old(disk.files), fates, accepts, original, r, disk.files)
    {
      hide Safe, Honest, OthersKept, Good, AllSafe, AllHonest, AllOthersKept;
      hide Ended, Emptied, PutBackFiles, Done, FailedFor, TmpLeft;
      ghost var s0 := disk.files;
      SourcePromised(s0, plan, original, accepts);
      var failure := Prepare();
      ghost var (s1, h1) := (disk.files, disk.history);
      Prepared(s0, s1, h1, plan, original, accepts);
      if failure.Some? {
        r := CleanUp(failure.value);
        CleanedUp(s0, s1, h1, plan, original, accepts);
        EndedEarly(plan, s0, s1, fates, accepts, original, failure.value, r, disk.files);
        return;
      }
      r := Replace(s0, original);
    }

    /** Retire the original and publish the archive that was built beside it. */
    method Replace(ghost s0: Files, ghost original: Content) returns (r: Result<Reason>)
      requires disk.Valid() && Apart(plan) && Accepted(plan, s0, fates) && Sound(fates, accepts)
      requires At(s0, plan.source) == Some(original) && disk.files == s0[plan.tmp := fates.build.archive]
      requires Kept(disk.history, s0, plan, original, accepts)
      modifies disk
      ensures disk.Valid() && AllOthersKept(disk.history, s0, plan)
      ensures plan.keep ==> AllSafe(disk.history, plan, original)
      ensures AllHonest(disk.history, plan, original, accepts) <==> !Exposed(plan, s0, fates, original, accepts)
      ensures Ended(plan, s0, fates, accepts, original, r, disk.files)
    {
      hide Safe, Honest, OthersKept, Good, AllSafe, AllHonest, AllOthersKept;
      hide Ended, Emptied, PutBackFiles, Done, FailedFor, TmpLeft;
      SourcePromised(s0, plan, original, accepts);
      ghost var (s1, h1) := (disk.files, disk.history);
      Prepared(s0, s1, [s0], plan, original, accepts);
      var retired: bool;
      ghost var h: seq<Files>;
      retired, h := Retire(original);
      ghost var (s2, h2) := (disk.files, disk.history);
      Joined(s0, s1, h1, h, plan, original, accepts);
      OthersTwice(s0, s1, s2, plan);
      if !retired {
        r := CleanUp(if plan.keep then RetireFailed else DeleteFailed);
        CleanedUp(s0, s2, h2, plan, original, accepts);
        EndedRetiring(plan, s0, s1, s2, fates, accepts, original, r, disk.files);
        return;
      }
      ghost var h': seq<Files>;
      r, h' := Publish(original);
      Finished(s0, s2, h2, h', plan, original, accepts);
      EndedPublishing(plan, s0, s2, fates, accepts, original, r, disk.files);
    }
  }

  lemma TmpAlone(s0: Files, s1: Files, p: Plan)
    requires forall q | q != p.tmp :: At(s1, q) == At(s0, q)
    ensures s1 - {p.tmp} == s0 - {p.tmp}
  {
    forall q | q != p.tmp
      ensures (q in s1 <==> q in s0) && (q in s1 ==> s1[q] == s0[q])
    {
      assert At(s1, q) == At(s0, q);
    }
  }

  lemma EndedEarly(p: Plan, s0: Files, s1: Files, fates: Fates, accepts: Content -> bool, original: Content,
                   why: Reason, r: Result<Reason>, f: Files)
    requires (forall q | q != p.tmp :: At(s1, q) == At(s0, q)) && (p.tmp in s1 <==> TmpLeft(p, s0, fates.build))
    requires !Sound(fates, accepts) && FailedFor(p, fates, accepts, why)
    requires why !in {PublishFailed, RetireFailed, DeleteFailed}
    requires r.Ok? ==> r.value == why && f == s1 - {p.tmp}
    requires r.Raised? <==> p.tmp in s1 && !fates.cleanup
    ensures Ended(p, s0, fates, accepts, original, r, f)
  {
    TmpAlone(s0, s1, p);
  }

  lemma EndedRetiring(p: Plan, s0: Files, s1: Files, s2: Files, fates: Fates, accepts: Content -> bool,
                      original: Content, r: Result<Reason>, f: Files)
    requires forall q | q != p.tmp :: At(s1, q) == At(s0, q)
    requires p.tmp in s1 && p.tmp in s2 && p.tmp != p.slot && fates.build.Built?
    requires Sound(fates, accepts) && !(if p.keep then Moves(fates.retire) else fates.unlinked)
    requires (!p.keep ==> s2 == s1) && forall q | q != p.slot :: At(s2, q) == At(s1, q)
    requires r.Ok? ==> r.value == (if p.keep then RetireFailed else DeleteFailed) && f == s2 - {p.tmp}
    requires r.Raised? <==> p.tmp in s2 && !fates.cleanup
    ensures Ended(p, s0, fates, accepts, original, r, f)
  {
    TmpAlone(s0, s1, p);
    forall q | q !in {p.slot, p.tmp}
      ensures At(s2 - {p.tmp}, q) == At(s0, q)
    {
      assert At(s2, q) == At(s1, q) == At(s0, q);
    }
  }

  lemma EndedPublishing(p: Plan, s0: Files, s2: Files, fates: Fates, accepts: Content -> bool, original: Content,
                        r: Result<Reason>, f: Files)
    requires Apart(p) && fates.build.Built? && s2 == Emptied(p, s0[p.tmp := fates.build.archive], original)
    requires Sound(fates, accepts) && if p.keep then Moves(fates.retire) else fates.unlinked
    requires r.Ok? ==> r.value == if fates.publish then Converted else PublishFailed
    requires r.Raised? <==> !fates.publish && !fates.cleanup
    requires fates.publish ==> f == (s2 - {p.tmp})[p.dest := fates.build.archive]
    requires !fates.publish ==> f == PutBackFiles(p, s2, fates.back) - if fates.cleanup then {p.tmp} else {}
    ensures Ended(p, s0, fates, accepts, original, r, f)
  {
    TmpAside(s0, p, fates.build.archive, original, fates.back);
    hide PutBackFiles, Emptied, Done;
  }

  /** The temporary file takes no part in retiring the original and putting it back. */
  lemma TmpAside(f: Files, p: Plan, archive: Content, original: Content, back: Move)
    requires Apart(p)
    ensures var e := Emptied(p, f[p.tmp := archive], original);
            PutBackFiles(p, e, back) - {p.tmp} == PutBackFiles(p, Emptied(p, f, original), back) - {p.tmp}
            && (e - {p.tmp})[p.dest := archive] == Done(p, f, archive, original)
  {
  }

  lemma AbsentPromised(f: Files, p: Plan, original: Content, accepts: Content -> bool)
    requires p.dest !in f && (p.keep ==> At(f, p.slot) == Some(original))
    ensures Honest(f, p, original, accepts) && OthersKept(f, f, p) && (p.keep ==> Safe(f, p, original))
  {
  }

  /** A last removal of the temporary file promises what the states before it do. */
  lemma ThenCleaned(start: Files, h: seq<Files>, p: Plan, original: Content, accepts: Content -> bool)
    requires Apart(p) && Honest(start, p, original, accepts) && (p.keep ==> Safe(start, p, original))
    ensures var h' := h + [LastOf(start, h) - {p.tmp}];
            (AllHonest(h', p, original, accepts) <==> AllHonest(h, p, original, accepts))
            && (p.keep && AllSafe(h, p, original) ==> AllSafe(h', p, original))
            && forall before ::
                 OthersKept(before, start, p) && AllOthersKept(h, before, p) ==> AllOthersKept(h', before, p)
  {
    hide Safe, Honest, OthersKept;
    var f := LastOf(start, h);
    WithoutTmp(f, p, original, accepts);
    var h' := h + [f - {p.tmp}];
    assert forall i | 0 <= i < |h| :: h'[i] == h[i];
    assert h'[|h|] == f - {p.tmp};
  }

  lemma SourcePromised(f: Files, p: Plan, original: Content, accepts: Content -> bool)
    requires At(f, p.source) == Some(original) && (p.dest in f ==> p.dest == p.source)
    ensures Honest(f, p, original, accepts) && OthersKept(f, f, p) && Safe(f, p, original)
    ensures Kept([f], f, p, original, accepts)
    ensures forall h, g :: Kept(h, g, p, original, accepts) ==>
              AllOthersKept(h, g, p) && AllHonest(h, p, original, accepts) && (p.keep ==> AllSafe(h, p, original))
  {
  }

  lemma OthersTwice(s0: Files, s1: Files, s2: Files, p: Plan)
    requires OthersKept(s0, s1, p) && OthersKept(s1, s2, p)
    ensures OthersKept(s0, s2, p)
  {
  }

  lemma Prepared(s0: Files, s1: Files, h: seq<Files>, p: Plan, original: Content, accepts: Content -> bool)
    requires Apart(p) && At(s0, p.source) == Some(original) && (p.dest in s0 ==> p.dest == p.source)
    requires (forall q | q != p.tmp :: At(s1, q) == At(s0, q)) && (h == [s0] || h == [s0] + [s1])
    ensures Kept(h, s0, p, original, accepts) && OthersKept(s0, s1, p) && Honest(s1, p, original, accepts)
    ensures At(s1, p.source) == Some(original) && (p.slot !in s0 ==> p.slot !in s1)
  {
    assert At(s1, p.source) == At(s0, p.source) && At(s1, p.dest) == At(s0, p.dest) && At(s1, p.slot) == At(s0, p.slot);
    assert forall i | 0 <= i < |h| :: h[i] == s0 || h[i] == s1;
  }

  /** States promised from a later state on are promised from the first. */
  lemma Joined(s0: Files, s1: Files, h: seq<Files>, g: seq<Files>, p: Plan, original: Content, accepts: Content -> bool)
    requires Kept(h, s0, p, original, accepts) && OthersKept(s0, s1, p) && Kept(g, s1, p, original, accepts)
    ensures Kept(h + g, s0, p, original, accepts)
  {
    hide Safe, Honest, OthersKept;
    forall i | 0 <= i < |g|
      ensures OthersKept(s0, g[i], p)
    {
      OthersTwice(s0, s1, g[i], p);
    }
  }

  lemma CleanedUp(s0: Files, s1: Files, h: seq<Files>, p: Plan, original: Content, accepts: Content -> bool)
    requires Apart(p) && Kept(h, s0, p, original, accepts) && OthersKept(s0, s1, p)
    requires Honest(s1, p, original, accepts) && At(s1, p.source) == Some(original)
    ensures Kept(h + [], s0, p, original, accepts) && Kept(h + [s1 - {p.tmp}], s0, p, original, accepts)
    ensures At(s1 - {p.tmp}, p.source) == Some(original)
  {
    assert h + [] == h;
    WithoutTmp(s1, p, original, accepts);
  }

  /** Publishing adds its own states to those before it. */
  lemma Finished(s0: Files, s2: Files, h: seq<Files>, g: seq<Files>, p: Plan, original: Content,
                 accepts: Content -> bool)
    requires Kept(h, s0, p, original, accepts) && OthersKept(s0, s2, p) && AllOthersKept(g, s2, p)
             && (p.keep ==> AllSafe(g, p, original))
    ensures AllOthersKept(h + g, s0, p) && (p.keep ==> AllSafe(h + g, p, original))
    ensures AllHonest(h + g, p, original, accepts) <==> AllHonest(g, p, original, accepts)
  {
    hide Safe, Honest, OthersKept;
    forall i | 0 <= i < |g|
      ensures OthersKept(s0, g[i], p) && (h + g)[|h| + i] == g[i]
    {
      OthersTwice(s0, s2, g[i], p);
    }
  }

  /** Dropping the temporary file changes nothing that is promised. */
  lemma WithoutTmp(f: Files, p: Plan, original: Content, accepts: Content -> bool)
    requires Apart(p)
    ensures Safe(f - {p.tmp}, p, original) <==> Safe(f, p, original)
    ensures Honest(f - {p.tmp}, p, original, accepts) <==> Honest(f, p, original, accepts)
    ensures forall before :: OthersKept(before, f, p) ==> OthersKept(before, f - {p.tmp}, p)
  {
  }

  /**
    Some course of events leaves a bad destination exactly for a mislabelled
    source that is kept: a destination of its own is never shown anything bad.
   */
  lemma ExposedExactly(p: Plan, before: Files, original: Content, accepts: Content -> bool, whole: Content,
                       bad: Content)
    requires accepts(whole) && !accepts(bad) && bad != original
    ensures (exists fates :: Exposed(p, before, fates, original, accepts))
            <==> p.dest == p.source && p.keep && !p.dryRun && p.source in before && p.slot !in before
  {
    var fates := Fates(Inspected("zip", false, 1, false), Built(whole, 1, false), Renamed, true, false, CopyBroke(bad),
                       true);
    if p.dest == p.source && p.keep && !p.dryRun && p.source in before && p.slot !in before {
      assert Exposed(p, before, fates, original, accepts);
    }
  }
}
