/** The resumable package build: three region files, a journal replaced atomically after each
    synced batch, interruptions at any point, and crashes between attempts. */
module PackageWriter {
  import opened Adversary
  import opened Collections
  import opened Regions

  datatype Kind = Dense | Experts | Ple

  /** What to build; the fingerprint identifies the layout. */
  datatype Plan = Plan(fingerprint: int, dense: RegionPlan, experts: RegionPlan, ple: RegionPlan) {
    function Of(kind: Kind): RegionPlan {
      match kind case Dense => dense case Experts => experts case Ple => ple
    }
  }

  ghost predicate IsPlan(plan: Plan) {
    forall kind: Kind :: WellPlanned(plan.Of(kind))
  }

  /** The build journal. */
  datatype Journal = Journal(fingerprint: int, dense: Progress, experts: Progress, ple: Progress, finished: bool) {
    function Of(kind: Kind): Progress {
      match kind case Dense => dense case Experts => experts case Ple => ple
    }

    function With(kind: Kind, progress: Progress): Journal {
      match kind
      case Dense => this.(dense := progress)
      case Experts => this.(experts := progress)
      case Ple => this.(ple := progress)
    }
  }

  datatype Files = Files(dense: Region, experts: Region, ple: Region) {
    function Of(kind: Kind): Region {
      match kind case Dense => dense case Experts => experts case Ple => ple
    }

    function With(kind: Kind, file: Region): Files {
      match kind
      case Dense => this.(dense := file)
      case Experts => this.(experts := file)
      case Ple => this.(ple := file)
    }
  }

  function FreshJournal(fingerprint: int): Journal {
    Journal(fingerprint, NOTHING_DONE, NOTHING_DONE, NOTHING_DONE, false)
  }

  /** A later journal keeps everything an earlier one said. */
  ghost predicate Extends(earlier: Journal, later: Journal) {
    && earlier.fingerprint == later.fingerprint
    && (earlier.finished ==> later.finished)
    && forall kind: Kind :: PartOf(earlier.Of(kind), later.Of(kind))
  }

  ghost predicate Growing(versions: seq<Journal>) {
    forall i, j :: 0 <= i <= j < |versions| ==> Extends(versions[i], versions[j])
  }

  /** A journal marked finished has every item. */
  ghost predicate FinishedHonestly(plan: Plan, journal: Journal) {
    journal.finished ==> forall kind: Kind :: AllDone(plan.Of(kind), journal.Of(kind))
  }

  /** The disk state agrees with the journal. */
  ghost predicate AgreesWith(plan: Plan, files: Files, journal: Journal) {
    && journal.fingerprint == plan.fingerprint
    && (forall kind: Kind :: RegionSafe(plan.Of(kind), files.Of(kind), journal.Of(kind)))
    && FinishedHonestly(plan, journal)
  }

  /** Ids recorded as done without a checksum. */
  predicate LacksChecksums(journal: Journal) {
    || (exists id :: id in journal.dense.done && id !in journal.dense.checksums)
    || (exists id :: id in journal.experts.done && id !in journal.experts.checksums)
    || (exists id :: id in journal.ple.done && id !in journal.ple.checksums)
  }

  /** Some item is journaled without its checksum. */
  ghost predicate UncheckedIn(progress: Progress) {
    exists id :: id in progress.done && id !in progress.checksums
  }

  lemma LacksInSomeRegion(journal: Journal)
    ensures LacksChecksums(journal) <==> exists kind :: UncheckedIn(journal.Of(kind))
  {
    assert journal.Of(Dense) == journal.dense && journal.Of(Experts) == journal.experts;
    assert journal.Of(Ple) == journal.ple;
  }

  datatype Loaded = Usable(journal: Journal) | LayoutMismatch | NoChecksums

  datatype Outcome = Finished | Interrupted | Refused

  /** The items not yet journaled, in plan order. */
  function Pending(items: seq<Item>, done: seq<int>): seq<Item> {
    if items == [] then []
    else if items[0].id in done then Pending(items[1..], done)
    else [items[0]] + Pending(items[1..], done)
  }

  ghost predicate IsPending(items: seq<Item>, done: seq<int>, pending: seq<Item>) {
    && Distinct(pending)
    && forall x :: x in pending <==> x in items && x.id !in done
  }

  lemma {:induction false} PendingIsPending(items: seq<Item>, done: seq<int>)
    requires Distinct(items)
    ensures IsPending(items, done, Pending(items, done))
  {
    if items != [] {
      PendingIsPending(items[1..], done);
      assert items == [items[0]] + items[1..];
      assert items[0] !in items[1..];
    }
  }

  /** The output directory, as the writer and a crash see it. */
  class PackageDir {
    var files: Files
    /** Journal versions still recoverable, oldest first; the last is the one a reader sees. */
    var versions: seq<Journal>
    /** The journal file exists but does not parse. */
    var torn: bool

    constructor ()
      ensures files == Files(NO_FILE, NO_FILE, NO_FILE) && versions == [] && !torn
    {
      files, versions, torn := Files(NO_FILE, NO_FILE, NO_FILE), [], false;
    }

    /** The journal a new attempt resumes from. */
    function Standing(plan: Plan): Journal
      reads this`versions
    {
      if versions == [] then FreshJournal(plan.fingerprint) else versions[|versions| - 1]
    }

    ghost predicate Safe(plan: Plan)
      reads this
    {
      && Growing(versions)
      && (forall i :: 0 <= i < |versions| ==> FinishedHonestly(plan, versions[i]))
      && (torn ==> versions == [])
      && AgreesWith(plan, files, Standing(plan))
    }

    /** Another layout's journal is in the way. */
    predicate Refuses(plan: Plan)
      reads this`versions
    {
      versions != [] && versions[|versions| - 1].fingerprint != plan.fingerprint
    }

    /** `_load_journal` in resume mode. */
    method LoadJournal(plan: Plan) returns (loaded: Loaded)
      ensures versions == [] ==> loaded == Usable(FreshJournal(plan.fingerprint))
      ensures loaded.LayoutMismatch? <==> Refuses(plan)
      ensures loaded.LayoutMismatch? <==>
        versions != [] && versions[|versions| - 1].fingerprint != plan.fingerprint
      ensures loaded.NoChecksums? <==>
        && versions != [] && !loaded.LayoutMismatch?
        && exists kind :: UncheckedIn(Standing(plan).Of(kind))
      ensures loaded.Usable? ==> loaded.journal == Standing(plan)
    {
      if versions != [] {
        var existing := versions[|versions| - 1];
        if existing.fingerprint != plan.fingerprint {
          return LayoutMismatch;
        }
        assert existing == Standing(plan);
        LacksInSomeRegion(existing);
        if LacksChecksums(existing) {
          ghost var kind :| UncheckedIn(existing.Of(kind));
          assert UncheckedIn(Standing(plan).Of(kind));
          return NoChecksums;
        }
        return Usable(existing);
      }
      return Usable(FreshJournal(plan.fingerprint));
    }

    /** Replace the journal atomically. */
    method SaveJournal(plan: Plan, journal: Journal)
      requires Safe(plan) && AgreesWith(plan, files, journal) && Extends(Standing(plan), journal)
      modifies this`versions, this`torn
      ensures Safe(plan) && Standing(plan) == journal && versions == old(versions) + [journal]
    {
      forall i | 0 <= i < |versions| ensures Extends(versions[i], journal) {
        ExtendsIsTransitive(versions[i], Standing(plan), journal);
      }
      ExtendsIsReflexive(journal);
      versions := versions + [journal];
      torn := false;
    }

    /** Write one item extent by extent; an interruption may stop it anywhere. */
    method WriteItem(plan: Plan, kind: Kind, x: Item, calm: bool) returns (ok: bool)
      requires IsPlan(plan) && Safe(plan) && x in plan.Of(kind).items
      requires x.id !in Standing(plan).Of(kind).done
      requires |files.Of(kind).content| == plan.Of(kind).total
      modifies this`files
      ensures Safe(plan) && |files.Of(kind).content| == plan.Of(kind).total
      ensures calm ==> ok
      ensures ok ==> ItemHolds(files.Of(kind).content, x)
      ensures forall y :: y in plan.Of(kind).items && y != x && old(ItemHolds(files.Of(kind).content, y)) ==>
        ItemHolds(files.Of(kind).content, y)
    {
      ghost var before := files.Of(kind).content;
      for i := 0 to |x.extents|
        invariant Safe(plan) && |files.Of(kind).content| == plan.Of(kind).total
        invariant forall k :: 0 <= k < i ==> Holds(files.Of(kind).content, x.extents[k])
        invariant ItemsStand(plan.Of(kind), x, before, files.Of(kind).content)
      {
        var stop := AnyFlag();
        if stop && !calm {
          return false;
        }
        WriteExtent(plan, kind, x, i);
      }
      return true;
    }

    method WriteExtent(plan: Plan, kind: Kind, x: Item, i: nat)
      requires IsPlan(plan) && Safe(plan) && x in plan.Of(kind).items
      requires x.id !in Standing(plan).Of(kind).done && i < |x.extents|
      requires |files.Of(kind).content| == plan.Of(kind).total
      requires forall k :: 0 <= k < i ==> Holds(files.Of(kind).content, x.extents[k])
      modifies this`files
      ensures Safe(plan) && |files.Of(kind).content| == plan.Of(kind).total
      ensures forall k :: 0 <= k <= i ==> Holds(files.Of(kind).content, x.extents[k])
      ensures forall before :: old(ItemsStand(plan.Of(kind), x, before, files.Of(kind).content)) ==>
        ItemsStand(plan.Of(kind), x, before, files.Of(kind).content)
    {
      var file, e := files.Of(kind), x.extents[i];
      var journal := Standing(plan);
      assert WellPlanned(plan.Of(kind)) && RegionSafe(plan.Of(kind), file, journal.Of(kind));
      WrittenIsSafe(plan.Of(kind), file, journal.Of(kind), x, e);
      ReplacedAgrees(plan, files, journal, kind, Written(file, e));
      WrittenHolds(file, e);
      assert ExtentsApart(x.extents);
      forall k | 0 <= k < i ensures Holds(Written(file, e).content, x.extents[k]) {
        WrittenKeeps(file, e, x.extents[k]);
      }
      forall before | ItemsStand(plan.Of(kind), x, before, file.content)
        ensures ItemsStand(plan.Of(kind), x, before, Written(file, e).content)
      {
        WriteStands(plan.Of(kind), file, x, e, before);
      }
      files := files.With(kind, Written(file, e));
    }

    method WriteBatch(plan: Plan, kind: Kind, batch: seq<Item>, calm: bool) returns (ok: bool)
      requires IsPlan(plan) && Safe(plan) && Distinct(batch)
      requires forall x :: x in batch ==> x in plan.Of(kind).items && x.id !in Standing(plan).Of(kind).done
      requires |files.Of(kind).content| == plan.Of(kind).total
      modifies this`files
      ensures Safe(plan) && |files.Of(kind).content| == plan.Of(kind).total
      ensures calm ==> ok
      ensures ok ==> forall x :: x in batch ==> ItemHolds(files.Of(kind).content, x)
    {
      for i := 0 to |batch|
        invariant Safe(plan) && |files.Of(kind).content| == plan.Of(kind).total
        invariant forall k :: 0 <= k < i ==> ItemHolds(files.Of(kind).content, batch[k])
      {
        ok := WriteItem(plan, kind, batch[i], calm);
        if !ok {
          return;
        }
      }
      return true;
    }

    /** Flush and fsync one region file. */
    method Sync(plan: Plan, kind: Kind)
      requires Safe(plan) && |files.Of(kind).content| == plan.Of(kind).total
      modifies this`files
      ensures Safe(plan) && files.Of(kind) == Synced(files.Of(kind))
      ensures files.Of(kind).content == old(files.Of(kind).content)
    {
      var journal := Standing(plan);
      assert RegionSafe(plan.Of(kind), files.Of(kind), journal.Of(kind));
      SyncedIsSafe(plan.Of(kind), files.Of(kind), journal.Of(kind));
      ReplacedAgrees(plan, files, journal, kind, Synced(files.Of(kind)));
      files := files.With(kind, Synced(files.Of(kind)));
    }

    /** Append a synced batch to the journal in memory. */
    method CommitBatch(plan: Plan, kind: Kind, batch: seq<Item>, journal: Journal) returns (after: Journal)
      requires IsPlan(plan) && AgreesWith(plan, files, journal)
      requires forall x :: x in batch ==> x in plan.Of(kind).items && ItemHolds(files.Of(kind).content, x)
      requires Distinct(batch) && forall x :: x in batch ==> x.id !in journal.Of(kind).done
      requires files.Of(kind) == Synced(files.Of(kind)) && |files.Of(kind).content| == plan.Of(kind).total
      ensures AgreesWith(plan, files, after) && Extends(journal, after)
      ensures forall k: Kind :: k != kind ==> after.Of(k) == journal.Of(k)
      ensures after.finished == journal.finished
      ensures DoneAdds(journal.Of(kind), batch, after.Of(kind))
    {
      var progress := journal.Of(kind);
      for i := 0 to |batch|
        invariant RegionSafe(plan.Of(kind), files.Of(kind), progress)
        invariant PartOf(journal.Of(kind), progress)
        invariant DoneAdds(journal.Of(kind), batch[..i], progress)
      {
        var x := batch[i];
        assert WellPlanned(plan.Of(kind));
        CommitIsSafe(plan.Of(kind), files.Of(kind), progress, x);
        NotYetDone(plan.Of(kind), batch, i, journal.Of(kind), progress);
        CommitExtends(journal.Of(kind), progress, x);
        CommitAdds(journal.Of(kind), batch, i, progress);
        progress := Commit(progress, x, ChecksumOf(x));
      }
      after := journal.With(kind, progress);
      forall k: Kind ensures PartOf(journal.Of(k), after.Of(k)) {
        if k != kind {
          PartOfItself(files.Of(k), plan.Of(k), journal.Of(k));
        }
      }
      assert batch[..|batch|] == batch;
      CommitKeepsDone(plan, kind, journal, after);
    }

    /** Write a batch and sync it. */
    method WriteDurably(plan: Plan, kind: Kind, batch: seq<Item>, calm: bool) returns (ok: bool)
      requires IsPlan(plan) && Safe(plan) && Distinct(batch)
      requires forall x :: x in batch ==> x in plan.Of(kind).items && x.id !in Standing(plan).Of(kind).done
      requires |files.Of(kind).content| == plan.Of(kind).total
      modifies this`files
      ensures Safe(plan) && |files.Of(kind).content| == plan.Of(kind).total
      ensures calm ==> ok
      ensures ok ==> files.Of(kind) == Synced(files.Of(kind))
      ensures ok ==> forall x :: x in batch ==> ItemHolds(files.Of(kind).content, x)
    {
      ok := WriteBatch(plan, kind, batch, calm);
      if ok {
        Sync(plan, kind);
      }
    }

    /** Only after the bytes are durable is a journal saved that records them. */
    method WriteAndCommit(plan: Plan, kind: Kind, batch: seq<Item>, journal: Journal, calm: bool)
      returns (ok: bool, after: Journal)
      requires IsPlan(plan) && Safe(plan) && journal == Standing(plan) && Distinct(batch)
      requires forall x :: x in batch ==> x in plan.Of(kind).items && x.id !in journal.Of(kind).done
      requires |files.Of(kind).content| == plan.Of(kind).total
      modifies this
      ensures Safe(plan) && |files.Of(kind).content| == plan.Of(kind).total && (calm ==> ok)
      ensures ok ==> after == Standing(plan) && DoneAdds(journal.Of(kind), batch, after.Of(kind))
      ensures ok ==> forall k: Kind :: k != kind ==> after.Of(k) == journal.Of(k)
    {
      after := journal;
      ok := WriteDurably(plan, kind, batch, calm);
      if !ok {
        return;
      }
      after := CommitBatch(plan, kind, batch, journal);
      var stop := AnyFlag();
      if stop && !calm {
        return false, after;
      }
      SaveJournal(plan, after);
    }

    /** Write everything pending of a preallocated region, batch by batch. */
    method WriteBatches(plan: Plan, kind: Kind, pending: seq<Item>, journal: Journal, calm: bool)
      returns (ok: bool, after: Journal)
      requires IsPlan(plan) && Safe(plan) && journal == Standing(plan)
      requires IsPending(plan.Of(kind).items, journal.Of(kind).done, pending)
      requires |files.Of(kind).content| == plan.Of(kind).total
      modifies this
      ensures Safe(plan) && (calm ==> ok)
      ensures ok ==> after == Standing(plan) && DoneAdds(journal.Of(kind), pending, after.Of(kind))
      ensures ok ==> forall k: Kind :: k != kind ==> after.Of(k) == journal.Of(k)
    {
      var size := plan.Of(kind).batch;
      assert WellPlanned(plan.Of(kind));
      after := journal;
      var start := 0;
      while start < |pending|
        invariant 0 <= start <= |pending|
        invariant Safe(plan) && after == Standing(plan) && |files.Of(kind).content| == plan.Of(kind).total
        invariant forall k: Kind :: k != kind ==> after.Of(k) == journal.Of(k)
        invariant DoneAdds(journal.Of(kind), pending[..start], after.Of(kind))
      {
        var end := if start + size < |pending| then start + size else |pending|;
        PendingBatch(plan.Of(kind), journal.Of(kind), pending, start, end, after.Of(kind));
        var written, committed := WriteAndCommit(plan, kind, pending[start..end], after, calm);
        if !written {
          return false, after;
        }
        NextBatch(journal.Of(kind), pending, start, end, after.Of(kind), committed.Of(kind));
        after, start := committed, end;
      }
      assert pending[..start] == pending;
      return true, after;
    }

    /** Write one region. */
    method WriteRegion(plan: Plan, kind: Kind, journal: Journal, calm: bool) returns (ok: bool, after: Journal)
      requires IsPlan(plan) && Safe(plan) && journal == Standing(plan)
      modifies this
      ensures Safe(plan) && (calm ==> ok)
      ensures ok ==> after == Standing(plan) && AllDone(plan.Of(kind), after.Of(kind))
      ensures ok ==> forall k: Kind :: k != kind ==> after.Of(k) == journal.Of(k)
    {
      var region := plan.Of(kind);
      var pending := Pending(region.items, journal.Of(kind).done);
      assert WellPlanned(region);
      PendingIsPending(region.items, journal.Of(kind).done);
      if pending == [] {
        return true, journal;
      }
      PreallocatedIsSafe(region, files.Of(kind), journal.Of(kind));
      ReplacedAgrees(plan, files, journal, kind, Preallocated(files.Of(kind), region.total));
      files := files.With(kind, Preallocated(files.Of(kind), region.total));
      ok, after := WriteBatches(plan, kind, pending, journal, calm);
      if ok {
        EverythingCommitted(region, journal.Of(kind), pending, after.Of(kind));
      }
    }

    /** Every region holds exactly its planned bytes, all durable, and the journal has the
        checksum of every item. */
    ghost predicate Complete(plan: Plan)
      reads this
    {
      && Standing(plan).finished
      && (forall kind: Kind :: IsImage(plan.Of(kind), files.Of(kind).content) && files.Of(kind).dirty == {})
      && (forall kind: Kind, x :: x in plan.Of(kind).items ==>
        && x.id in Standing(plan).Of(kind).checksums
        && Standing(plan).Of(kind).checksums[x.id] == ChecksumOf(x))
    }

    /** One attempt at the build. It may be interrupted anywhere unless it runs `calm`. */
    method Build(plan: Plan, calm: bool) returns (outcome: Outcome)
      requires IsPlan(plan) && (Refuses(plan) || Safe(plan))
      modifies this
      ensures outcome.Refused? <==> old(Refuses(plan))
      ensures outcome.Refused? ==> files == old(files) && versions == old(versions) && torn == old(torn)
      ensures !outcome.Refused? ==> Safe(plan)
      ensures outcome.Finished? ==> Complete(plan)
      ensures calm && !outcome.Refused? ==> outcome.Finished?
    {
      var loaded := LoadJournal(plan);
      if loaded.LayoutMismatch? {
        return Refused;
      }
      SafeHasChecksums(plan, files, Standing(plan));
      var stop := AnyFlag();
      if stop && !calm {
        return Interrupted;
      }
      outcome := WriteRegions(plan, loaded.journal, calm);
    }

    method WriteRegions(plan: Plan, journal: Journal, calm: bool) returns (outcome: Outcome)
      requires IsPlan(plan) && Safe(plan) && journal == Standing(plan)
      modifies this
      ensures Safe(plan) && !outcome.Refused?
      ensures outcome.Finished? ==> Complete(plan)
      ensures calm ==> outcome.Finished?
    {
      var ok, after := WriteRegion(plan, Dense, journal, calm);
      if !ok {
        return Interrupted;
      }
      ok, after := WriteRegion(plan, Experts, after, calm);
      if !ok {
        return Interrupted;
      }
      ok, after := WriteRegion(plan, Ple, after, calm);
      if !ok {
        return Interrupted;
      }
      var stop := AnyFlag();
      if stop && !calm {
        return Interrupted;
      }
      Finish(plan, after);
      return Finished;
    }

    /** Mark the journal finished. */
    method Finish(plan: Plan, journal: Journal)
      requires IsPlan(plan) && Safe(plan) && journal == Standing(plan)
      requires AllDone(plan.dense, journal.dense) && AllDone(plan.experts, journal.experts)
      requires AllDone(plan.ple, journal.ple)
      modifies this`versions, this`torn
      ensures Safe(plan) && Complete(plan)
    {
      forall kind: Kind ensures AllDone(plan.Of(kind), journal.Of(kind)) && PartOf(journal.Of(kind), journal.Of(kind)) {
        assert RegionSafe(plan.Of(kind), files.Of(kind), journal.Of(kind));
      }
      var finished := journal.(finished := true);
      forall kind: Kind ensures finished.Of(kind) == journal.Of(kind) {
      }
      SaveJournal(plan, finished);
      FinishedIsComplete(plan, files, finished);
    }

    method CrashFiles(ghost plan: Plan, ghost journal: Journal) returns (after: Files)
      requires AgreesWith(plan, files, journal)
      ensures forall kind: Kind :: MayBecome(files.Of(kind), after.Of(kind))
    {
      var dense := CrashFile(plan.Of(Dense), files.Of(Dense), journal.Of(Dense));
      var experts := CrashFile(plan.Of(Experts), files.Of(Experts), journal.Of(Experts));
      var ple := CrashFile(plan.Of(Ple), files.Of(Ple), journal.Of(Ple));
      after := Files(dense, experts, ple);
    }

    /** A crash between attempts: the files lose what was not synced, and the journal may fall
        back to an earlier version or become unreadable. */
    method Crash(plan: Plan)
      requires Safe(plan)
      modifies this
      ensures Safe(plan)
      ensures forall kind: Kind :: MayBecome(old(files).Of(kind), files.Of(kind))
    {
      ghost var journal := Standing(plan);
      var after := CrashFiles(plan, journal);
      var kept := AnyPrefix(versions);
      var unreadable := AnyFlag();
      CrashAgrees(plan, files, journal, after, FreshJournal(plan.fingerprint));
      if kept != [] {
        KeptAgrees(plan, files, versions, after, kept);
      }
      files, versions := after, kept;
      torn := unreadable && kept == [];
    }

    /** Any number of interrupted and crashed attempts, then one that runs through. */
    method BuildThroughCrashes(plan: Plan, attempts: nat)
      requires IsPlan(plan) && Safe(plan)
      modifies this
      ensures Safe(plan) && Complete(plan)
    {
      for i := 0 to attempts
        invariant Safe(plan)
      {
        SafeIsNotRefused(plan);
        var outcome := Build(plan, false);
        var crashed := AnyFlag();
        if crashed {
          Crash(plan);
        }
      }
      SafeIsNotRefused(plan);
      var outcome := Build(plan, true);
    }

    lemma SafeIsNotRefused(plan: Plan)
      requires Safe(plan)
      ensures !Refuses(plan)
    {
    }

    /** What a finished build wrote survives every crash. */
    lemma CompleteSurvives(plan: Plan, kind: Kind, after: Region)
      requires IsPlan(plan) && Safe(plan) && Complete(plan) && MayBecome(files.Of(kind), after)
      ensures after.content == files.Of(kind).content
    {
      assert AllDone(plan.Of(kind), Standing(plan).Of(kind)) && WellPlanned(plan.Of(kind));
      AllDoneIsImage(plan.Of(kind), files.Of(kind), Standing(plan).Of(kind));
    }
  }

  /** A build resumed through any number of crashes leaves the bytes of one that never crashed. */
  method ResumedEqualsUninterrupted(plan: Plan, attempts: nat) returns (resumed: Files, straight: Files)
    requires IsPlan(plan)
    ensures resumed.dense.content == straight.dense.content
    ensures resumed.experts.content == straight.experts.content
    ensures resumed.ple.content == straight.ple.content
    ensures forall kind: Kind :: IsImage(plan.Of(kind), resumed.Of(kind).content)
  {
    var one := new PackageDir();
    FreshIsSafe(plan);
    one.BuildThroughCrashes(plan, attempts);
    var two := new PackageDir();
    var outcome := two.Build(plan, true);
    resumed, straight := one.files, two.files;
    ImageIsUnique(plan.Of(Dense), resumed.Of(Dense).content, straight.Of(Dense).content);
    ImageIsUnique(plan.Of(Experts), resumed.Of(Experts).content, straight.Of(Experts).content);
    ImageIsUnique(plan.Of(Ple), resumed.Of(Ple).content, straight.Of(Ple).content);
  }

  method CrashFile(ghost plan: RegionPlan, file: Region, ghost progress: Progress) returns (after: Region)
    requires RegionSafe(plan, file, progress)
    ensures MayBecome(file, after)
  {
    after := *;
    if !MayBecome(file, after) {
      after := Region(file.content, |file.content|, {});
    }
  }

  method AnyPrefix<T(==)>(s: seq<T>) returns (p: seq<T>)
    ensures p <= s
  {
    p := *;
    if !(p <= s) {
      p := s;
    }
  }

  // ---------------------------------------------------------------- supporting facts

  /** Every other item that stood before still stands. */
  ghost predicate ItemsStand(plan: RegionPlan, x: Item, before: seq<Byte>, now: seq<Byte>) {
    forall y :: y in plan.items && y != x && ItemHolds(before, y) ==> ItemHolds(now, y)
  }

  lemma WriteStands(plan: RegionPlan, file: Region, x: Item, e: Extent, before: seq<Byte>)
    requires WellPlanned(plan) && x in plan.items && e in x.extents && e.End() <= |file.content|
    requires ItemsStand(plan, x, before, file.content)
    ensures ItemsStand(plan, x, before, Written(file, e).content)
  {
    forall y | y in plan.items && y != x && ItemHolds(before, y) ensures ItemHolds(Written(file, e).content, y) {
      assert ItemHolds(file.content, y) && ItemsApart(x, y);
      forall f | f in y.extents ensures Holds(Written(file, e).content, f) {
        WrittenKeeps(file, e, f);
      }
    }
  }

  lemma ExtendsIsReflexive(j: Journal)
    requires forall kind: Kind, id :: id in j.Of(kind).done ==> id in j.Of(kind).checksums
    ensures Extends(j, j)
  {
  }

  lemma ExtendsIsTransitive(a: Journal, b: Journal, c: Journal)
    requires Extends(a, b) && Extends(b, c)
    ensures Extends(a, c)
  {
    forall kind: Kind ensures PartOf(a.Of(kind), c.Of(kind)) {
      PartOfIsTransitive(a.Of(kind), b.Of(kind), c.Of(kind));
    }
  }

  lemma PartOfIsTransitive(a: Progress, b: Progress, c: Progress)
    requires PartOf(a, b) && PartOf(b, c)
    ensures PartOf(a, c)
  {
    forall id | id in a.done ensures id in b.done {
      PrefixMembers(a.done, b.done, id);
    }
  }

  lemma PartOfItself(file: Region, plan: RegionPlan, progress: Progress)
    requires RegionSafe(plan, file, progress)
    ensures PartOf(progress, progress)
  {
  }

  function Ids(items: seq<Item>): set<int> {
    set x | x in items :: x.id
  }

  /** `now` has done what `start` had, and `items`. */
  ghost predicate DoneAdds(start: Progress, items: seq<Item>, now: Progress) {
    forall id :: id in now.done <==> id in start.done || id in Ids(items)
  }

  lemma DoneAddsUp(start: Progress, a: seq<Item>, mid: Progress, b: seq<Item>, now: Progress)
    requires DoneAdds(start, a, mid) && DoneAdds(mid, b, now)
    ensures DoneAdds(start, a + b, now)
  {
    assert Ids(a + b) == Ids(a) + Ids(b);
  }

  lemma CommitAdds(start: Progress, batch: seq<Item>, i: nat, progress: Progress)
    requires i < |batch| && DoneAdds(start, batch[..i], progress)
    ensures DoneAdds(start, batch[..i + 1], Commit(progress, batch[i], ChecksumOf(batch[i])))
  {
    var after := Commit(progress, batch[i], ChecksumOf(batch[i]));
    assert Ids([batch[i]]) == {batch[i].id};
    assert DoneAdds(progress, [batch[i]], after);
    DoneAddsUp(start, batch[..i], progress, [batch[i]], after);
    assert batch[..i] + [batch[i]] == batch[..i + 1];
  }

  lemma NotYetDone(plan: RegionPlan, batch: seq<Item>, i: nat, start: Progress, progress: Progress)
    requires WellPlanned(plan) && Distinct(batch) && i < |batch|
    requires forall x :: x in batch ==> x in plan.items && x.id !in start.done
    requires DoneAdds(start, batch[..i], progress)
    ensures batch[i].id !in progress.done
  {
    forall k | 0 <= k < i ensures batch[k].id != batch[i].id {
      assert batch[k] in plan.items && batch[i] in plan.items && batch[k] != batch[i];
    }
  }

  /** Putting a safe file in place keeps the directory in agreement. */
  lemma ReplacedAgrees(plan: Plan, files: Files, journal: Journal, kind: Kind, file: Region)
    requires AgreesWith(plan, files, journal) && RegionSafe(plan.Of(kind), file, journal.Of(kind))
    ensures AgreesWith(plan, files.With(kind, file), journal)
  {
    forall k: Kind ensures RegionSafe(plan.Of(k), files.With(kind, file).Of(k), journal.Of(k)) {
      if k != kind {
        assert files.With(kind, file).Of(k) == files.Of(k);
      }
    }
  }

  lemma CommitExtends(start: Progress, progress: Progress, x: Item)
    requires PartOf(start, progress) && x.id !in progress.done
    ensures PartOf(start, Commit(progress, x, ChecksumOf(x)))
  {
    forall id | id in start.done ensures id in progress.done {
      PrefixMembers(start.done, progress.done, id);
    }
  }

  lemma CommitKeepsDone(plan: Plan, kind: Kind, journal: Journal, after: Journal)
    requires FinishedHonestly(plan, journal) && after.finished == journal.finished
    requires forall k: Kind :: PartOf(journal.Of(k), after.Of(k))
    ensures FinishedHonestly(plan, after)
  {
    if journal.finished {
      forall k: Kind, x | x in plan.Of(k).items ensures x.id in after.Of(k).done {
        assert AllDone(plan.Of(k), journal.Of(k));
        PrefixMembers(journal.Of(k).done, after.Of(k).done, x.id);
      }
    }
  }

  lemma NextBatch(start: Progress, pending: seq<Item>, from: nat, to: nat, before: Progress, now: Progress)
    requires from <= to <= |pending|
    requires DoneAdds(start, pending[..from], before) && DoneAdds(before, pending[from..to], now)
    ensures DoneAdds(start, pending[..to], now)
  {
    DoneAddsUp(start, pending[..from], before, pending[from..to], now);
    assert pending[..from] + pending[from..to] == pending[..to];
  }

  lemma PendingBatch(plan: RegionPlan, start: Progress, pending: seq<Item>, from: nat, to: nat, now: Progress)
    requires WellPlanned(plan) && IsPending(plan.items, start.done, pending)
    requires from <= to <= |pending|
    requires DoneAdds(start, pending[..from], now)
    ensures Distinct(pending[from..to])
    ensures forall x :: x in pending[from..to] ==> x in plan.items && x.id !in now.done
  {
    forall i | from <= i < to ensures pending[i] in plan.items && pending[i].id !in now.done {
      StillPending(plan, start, pending, from, i, now);
    }
  }

  lemma StillPending(plan: RegionPlan, start: Progress, pending: seq<Item>, from: nat, i: nat, now: Progress)
    requires WellPlanned(plan) && IsPending(plan.items, start.done, pending)
    requires from <= i < |pending|
    requires DoneAdds(start, pending[..from], now)
    ensures pending[i] in plan.items && pending[i].id !in now.done
  {
    var x := pending[i];
    assert x in pending;
    forall k | 0 <= k < from ensures pending[k].id != x.id {
      assert pending[k] in pending && pending[k] != x;
    }
  }

  lemma EverythingCommitted(plan: RegionPlan, start: Progress, pending: seq<Item>, now: Progress)
    requires IsPending(plan.items, start.done, pending) && DoneAdds(start, pending, now)
    ensures AllDone(plan, now)
  {
    forall x | x in plan.items ensures x.id in now.done {
      if x.id !in start.done {
        assert x in pending;
      }
    }
  }

  lemma FreshIsSafe(plan: Plan)
    ensures AgreesWith(plan, Files(NO_FILE, NO_FILE, NO_FILE), FreshJournal(plan.fingerprint))
  {
    forall kind: Kind ensures RegionSafe(plan.Of(kind), NO_FILE, NOTHING_DONE) {
      NoFileIsSafe(plan.Of(kind));
    }
  }

  lemma SafeHasChecksums(plan: Plan, files: Files, journal: Journal)
    requires AgreesWith(plan, files, journal)
    ensures !LacksChecksums(journal)
  {
    assert RegionSafe(plan.Of(Dense), files.Of(Dense), journal.Of(Dense));
    assert RegionSafe(plan.Of(Experts), files.Of(Experts), journal.Of(Experts));
    assert RegionSafe(plan.Of(Ple), files.Of(Ple), journal.Of(Ple));
  }

  lemma FinishedIsComplete(plan: Plan, files: Files, journal: Journal)
    requires IsPlan(plan) && AgreesWith(plan, files, journal) && journal.finished
    ensures forall kind: Kind :: IsImage(plan.Of(kind), files.Of(kind).content) && files.Of(kind).dirty == {}
    ensures forall kind: Kind, x :: x in plan.Of(kind).items ==>
      x.id in journal.Of(kind).checksums && journal.Of(kind).checksums[x.id] == ChecksumOf(x)
  {
    forall kind: Kind ensures IsImage(plan.Of(kind), files.Of(kind).content) && files.Of(kind).dirty == {} {
      assert WellPlanned(plan.Of(kind)) && RegionSafe(plan.Of(kind), files.Of(kind), journal.Of(kind));
      AllDoneIsImage(plan.Of(kind), files.Of(kind), journal.Of(kind));
    }
    forall kind: Kind, x | x in plan.Of(kind).items
      ensures x.id in journal.Of(kind).checksums && journal.Of(kind).checksums[x.id] == ChecksumOf(x)
    {
      assert RegionSafe(plan.Of(kind), files.Of(kind), journal.Of(kind)) && AllDone(plan.Of(kind), journal.Of(kind));
      assert Kept(files.Of(kind), journal.Of(kind), x);
    }
  }

  lemma KeptAgrees(plan: Plan, files: Files, versions: seq<Journal>, after: Files, kept: seq<Journal>)
    requires Growing(versions) && kept <= versions && kept != []
    requires forall i :: 0 <= i < |versions| ==> FinishedHonestly(plan, versions[i])
    requires AgreesWith(plan, files, versions[|versions| - 1])
    requires forall kind: Kind :: MayBecome(files.Of(kind), after.Of(kind))
    ensures Growing(kept) && AgreesWith(plan, after, kept[|kept| - 1])
    ensures forall i :: 0 <= i < |kept| ==> FinishedHonestly(plan, kept[i])
  {
    var last := |kept| - 1;
    assert kept[last] == versions[last] && Extends(versions[last], versions[|versions| - 1]);
    CrashAgrees(plan, files, versions[|versions| - 1], after, kept[last]);
  }

  lemma CrashAgrees(plan: Plan, files: Files, journal: Journal, after: Files, earlier: Journal)
    requires AgreesWith(plan, files, journal)
    requires
      || earlier == FreshJournal(plan.fingerprint)
      || (Extends(earlier, journal) && earlier.fingerprint == plan.fingerprint)
    requires forall kind: Kind :: MayBecome(files.Of(kind), after.Of(kind))
    requires FinishedHonestly(plan, earlier)
    ensures AgreesWith(plan, after, earlier)
  {
    forall kind: Kind ensures RegionSafe(plan.Of(kind), after.Of(kind), earlier.Of(kind)) {
      assert PartOf(earlier.Of(kind), journal.Of(kind));
      CrashIsSafe(plan.Of(kind), files.Of(kind), journal.Of(kind), after.Of(kind), earlier.Of(kind));
    }
  }
}
