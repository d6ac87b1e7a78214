/** Materialising a page from remote byte ranges: short reads, retries, cancellation, crashes
    and restarts. The network, the disk and the user are adversaries that choose freely at
    each step; a server that answers 206 with the exact Content-Range asked for sends those
    bytes (sections 14.4 and 15.3.7 of RFC 9110), but may stop anywhere. */
module PageFault {
  import opened Adversary
  import opened Collections
  import opened PageStore

  // ---------------------------------------------------------------- one ranged read

  datatype StreamOutcome = Complete | Cancelled | RangeRefused | SinkFailed | IncompleteRange | BadChunkSize

  /** A fragment file, absent or holding some bytes. */
  class Fragment {
    var file: Option<seq<Byte>>

    /** The file as found under its path. */
    constructor (found: Option<seq<Byte>>)
      ensures file == found
    {
      file := found;
    }

    function Bytes(): seq<Byte>
      reads this
    {
      if file.Some? then file.value else []
    }

    /** Open for writing, keeping the contents only when resuming. */
    method Open(append: bool)
      modifies this
      ensures file == Some(if append then old(Bytes()) else [])
    {
      file := Some(if append then Bytes() else []);
    }

    /** The write callback: a disk error may leave part of the block behind. */
    method Write(block: seq<Byte>, calm: bool) returns (ok: bool)
      requires file.Some?
      modifies this
      ensures file.Some?
      ensures ok ==> Bytes() == old(Bytes()) + block
      ensures calm ==> ok
      ensures !ok ==> exists n :: 0 <= n <= |block| && Bytes() == old(Bytes()) + block[..n]
    {
      var n := AnyUpTo(|block|);
      if n < |block| && !calm {
        file := Some(file.value + block[..n]);
        return false;
      }
      file := Some(file.value + block);
      return true;
    }

    method Unlink()
      modifies this
      ensures file == None
    {
      file := None;
    }
  }

  /** `_validate_range_response`: only 206 with the exact range is accepted. */
  predicate RangeAccepted(status: int, contentRange: Option<(int, int)>, requestedStart: int, requestedEnd: int) {
    status == 206 && contentRange == Some((requestedStart, requestedEnd))
  }

  /** What a reply's headers and body may be. */
  datatype Reply = Reply(status: int, contentRange: Option<(int, int)>, body: seq<Byte>)

  /** A server's honesty: a partial reply with exactly the requested range carries a prefix of it. */
  ghost predicate IsHonest(source: seq<Byte>, reply: Reply, start: nat, end: nat)
    requires start <= end < |source|
  {
    reply.status == 206 && reply.contentRange == Some((start, end)) ==> reply.body <= source[start..end + 1]
  }

  /** A calm server sends all of what was asked for. */
  method AnyReply(source: seq<Byte>, start: nat, end: nat, calm: bool) returns (reply: Reply)
    requires start <= end < |source|
    ensures IsHonest(source, reply, start, end)
    ensures calm ==> reply == Reply(206, Some((start, end)), source[start..end + 1])
  {
    if calm {
      return Reply(206, Some((start, end)), source[start..end + 1]);
    }
    var status: int := *;
    var contentRange: Option<(int, int)> := *;
    var n := AnyUpTo(end + 1 - start);
    var body := source[start..end + 1][..n];
    if !RangeAccepted(status, contentRange, start, end) {
      body := *;
    }
    reply := Reply(status, contentRange, body);
  }

  /** The fragment holds what it held plus the next bytes of the range. */
  ghost predicate Grew(before: seq<Byte>, now: seq<Byte>, range: seq<Byte>) {
    |before| <= |now| <= |before| + |range| && now == before + range[..|now| - |before|]
  }

  /** Stream `source[byteStart..byteEnd + 1]` into `sink`, re-requesting only what is missing.
      However it ends, the sink has grown by a prefix of the range, and by all of it when the
      stream is complete; a calm stream is, if it may read and try at all. */
  method StreamRemoteBytes(source: seq<Byte>, byteStart: nat, byteEnd: int, sink: Fragment, maxAttempts: nat,
                           chunkSize: int, calm: bool)
    returns (outcome: StreamOutcome, received: nat)
    requires byteEnd < |source| && byteStart <= byteEnd + 1 && sink.file.Some?
    modifies sink
    ensures sink.file.Some? && Grew(old(sink.Bytes()), sink.Bytes(), source[byteStart..byteEnd + 1])
    ensures outcome.Complete? ==> sink.Bytes() == old(sink.Bytes()) + source[byteStart..byteEnd + 1]
    ensures outcome.Complete? ==> received == byteEnd + 1 - byteStart
    ensures calm && chunkSize > 0 && maxAttempts > 0 ==> outcome.Complete?
    ensures outcome.IncompleteRange? ==> |sink.Bytes()| < |old(sink.Bytes())| + byteEnd + 1 - byteStart
  {
    var totalExpected := byteEnd - byteStart + 1;
    received := 0;
    if totalExpected <= 0 {
      return Complete, 0;
    }
    if chunkSize <= 0 {
      return BadChunkSize, 0;
    }
    ghost var before, range := sink.Bytes(), source[byteStart..byteEnd + 1];
    for attempt := 0 to maxAttempts
      invariant 0 <= received <= totalExpected && sink.file.Some?
      invariant sink.Bytes() == before + range[..received]
      invariant calm && attempt > 0 ==> received == totalExpected
    {
      var cancelled := AnyFlag();
      if cancelled && !calm {
        return Cancelled, received;
      }
      if received >= totalExpected {
        break;
      }
      var connected := AnyFlag();
      if !connected && !calm {
        continue;
      }
      var requestStart := byteStart + received;
      var reply := AnyReply(source, requestStart, byteEnd, calm);
      if !RangeAccepted(reply.status, reply.contentRange, requestStart, byteEnd) {
        return RangeRefused, received;
      }
      assert reply.body <= range[received..] by {
        assert source[requestStart..byteEnd + 1] == range[received..];
      }
      var stop;
      stop, received := ReadBody(reply.body, range, before, sink, received, chunkSize, calm);
      if stop.Some? {
        return stop.value, received;
      }
    }
    if received != totalExpected {
      return IncompleteRange, received;
    }
    return Complete, received;
  }

  /** The inner read loop: blocks of any size until the body ends, the read fails, the user
      cancels or the disk fails. */
  method ReadBody(body: seq<Byte>, ghost range: seq<Byte>, ghost before: seq<Byte>, sink: Fragment, already: nat,
                  chunkSize: int, calm: bool)
    returns (stop: Option<StreamOutcome>, received: nat)
    requires already < |range| && body <= range[already..] && chunkSize > 0
    requires sink.file.Some? && sink.Bytes() == before + range[..already]
    modifies sink
    ensures sink.file.Some? && Grew(before, sink.Bytes(), range)
    ensures already <= received <= |range|
    ensures stop.None? ==> sink.Bytes() == before + range[..received]
    ensures stop.Some? ==> stop.value.Cancelled? || stop.value.SinkFailed?
    ensures calm ==> stop.None? && received == already + |body|
  {
    received := already;
    var position := 0;
    while position < |body|
      invariant 0 <= position <= |body| && received == already + position && sink.file.Some?
      invariant sink.Bytes() == before + range[..received]
    {
      var cancelled := AnyFlag();
      if cancelled && !calm {
        return Some(Cancelled), received;
      }
      var failed := AnyFlag();
      if failed && !calm {
        return None, received;
      }
      var n := AnyUpTo(if chunkSize < |body| - position then chunkSize else |body| - position);
      if n == 0 {
        if !calm {
          return None, received;
        }
        n := 1;
      }
      NextBlock(body, range, before, already, position, n);
      var ok := sink.Write(body[position..position + n], calm);
      if !ok {
        ghost var m :| 0 <= m <= n && sink.Bytes() == before + range[..received] + body[position..position + n][..m];
        PartOfBlock(body, position, n, m);
        NextBlock(body, range, before, already, position, m);
        return Some(SinkFailed), received;
      }
      position := position + n;
      received := received + n;
    }
    return None, received;
  }

  lemma PartOfBlock(body: seq<Byte>, position: nat, n: nat, m: nat)
    requires m <= n && position + n <= |body|
    ensures body[position..position + n][..m] == body[position..position + m]
  {
  }

  lemma NextBlock(body: seq<Byte>, range: seq<Byte>, before: seq<Byte>, already: nat, position: nat, n: nat)
    requires already <= |range| && body <= range[already..] && position + n <= |body|
    ensures before + range[..already + position] + body[position..position + n]
      == before + range[..already + position + n]
  {
    assert body == range[already..][..|body|];
    assert body[position..position + n] == range[already + position..already + position + n];
  }

  // ---------------------------------------------------------------- one fragment

  /** The bytes of a source slice within its shard. */
  datatype SourceSlice = SourceSlice(shard: seq<Byte>, byteStart: nat, byteEnd: nat) {
    ghost predicate Valid() {
      byteStart <= byteEnd <= |shard|
    }

    function Size(): nat
      requires byteStart <= byteEnd
    {
      byteEnd - byteStart
    }

    function Content(): seq<Byte>
      requires byteStart <= byteEnd <= |shard|
    {
      shard[byteStart..byteEnd]
    }
  }

  /** Resume one fragment. Whatever happens it stays a prefix of its slice; on success it is
      the slice, and only the missing bytes were fetched. */
  method FetchSliceToFile(slice: SourceSlice, destination: Fragment, maxAttempts: nat, chunkSize: int, calm: bool)
    returns (outcome: StreamOutcome, fetched: nat, reused: nat)
    requires slice.Valid()
    requires |destination.Bytes()| <= slice.Size() ==> destination.Bytes() <= slice.Content()
    modifies destination
    ensures destination.Bytes() <= slice.Content()
    ensures outcome.Complete? ==> destination.Bytes() == slice.Content() && fetched + reused == slice.Size()
    ensures calm && chunkSize > 0 && maxAttempts > 0 ==> outcome.Complete?
    ensures |old(destination.Bytes())| <= slice.Size() ==> old(destination.Bytes()) <= destination.Bytes()
  {
    hide Grew, SourceSlice.Content;
    var expected := slice.Size();
    var existing := |destination.Bytes()|;
    if existing > expected {
      destination.Unlink();
      existing := 0;
    }
    ContentOfRest(slice, existing);
    fetched, reused := 0, existing;
    if existing == expected {
      return Complete, 0, existing;
    }
    destination.Open(existing > 0);
    var content := slice.Content();
    assert destination.Bytes() == content[..existing];
    assert slice.shard[slice.byteStart + existing..slice.byteEnd - 1 + 1] == content[existing..];
    outcome, fetched := StreamRemoteBytes(slice.shard, slice.byteStart + existing, slice.byteEnd - 1, destination,
                                          maxAttempts, chunkSize, calm);
    ResumedPrefix(content, existing, destination.Bytes());
  }

  /** What is missing behind `existing` bytes is the rest of the content. */
  lemma ContentOfRest(slice: SourceSlice, existing: nat)
    requires slice.Valid()
    ensures |slice.Content()| == slice.Size()
    ensures existing <= slice.Size() ==>
      slice.shard[slice.byteStart + existing..slice.byteEnd] == slice.Content()[existing..]
  {
  }

  /** A prefix that grew by a prefix of the rest is a prefix, and grew whole into the whole. */
  lemma ResumedPrefix(content: seq<Byte>, existing: nat, now: seq<Byte>)
    requires existing <= |content| && Grew(content[..existing], now, content[existing..])
    ensures content[..existing] <= now <= content
    ensures content[..existing] + content[existing..] == content
  {
    assert now == content[..|now|];
  }

  /** A journal entry: the fragment's bytes when they were last made durable stand for their
      size and checksum. */
  datatype Record = Record(digest: seq<Byte>)

  /** What `prepare_fragments` makes of one fragment on restart. */
  function Prepare(file: Option<seq<Byte>>, record: Option<Record>, expected: nat): (kept: Option<seq<Byte>>) {
    if file.None? then None
    else if |file.value| > expected then None
    else match record
      case Some(r) =>
        if |file.value| < |r.digest| || file.value[..|r.digest|] != r.digest then None else Some(r.digest)
      case None =>
        if |file.value| < expected then None else file
  }

  /** And of its journal entry: a fragment found whole is journaled as such. */
  function PrepareRecord(file: Option<seq<Byte>>, record: Option<Record>, expected: nat): Option<Record> {
    if file.None? then record
    else
      var kept := Prepare(file, record, expected);
      if kept.Some? && |kept.value| == expected then Some(Record(kept.value))
      else if kept.Some? then record
      else None
  }

  /** Prepared fragments are trustworthy whatever a crash left on disk, with one exception:
      a file of full size that was never journaled is taken as it is. */
  lemma PrepareIsSafeIff(file: Option<seq<Byte>>, record: Option<Record>, content: seq<Byte>)
    requires record.Some? ==> record.value.digest <= content
    ensures
      var kept := Prepare(file, record, |content|);
      (kept.Some? ==> kept.value <= content) <==>
        !(record.None? && file.Some? && |file.value| == |content| && file.value != content)
  {
  }

  /** Nothing journaled is given up while the file still starts with it, nor a whole file; whatever is kept
      is one of these, and a fragment kept whole is journaled whole. */
  lemma PrepareKeeps(file: Option<seq<Byte>>, record: Option<Record>, expected: nat)
    ensures file.Some? && record.Some? && record.value.digest <= file.value && |file.value| <= expected ==>
      Prepare(file, record, expected) == Some(record.value.digest)
    ensures file.Some? && record.None? && |file.value| == expected ==> Prepare(file, record, expected) == file
    ensures Prepare(file, record, expected).Some? ==>
      && file.Some? && |file.value| <= expected
      && if record.Some? then record.value.digest <= file.value else |file.value| == expected
    ensures
      var kept := Prepare(file, record, expected);
      && (kept.Some? && |kept.value| == expected ==>
            PrepareRecord(file, record, expected) == Some(Record(kept.value)))
      && (kept.Some? && |kept.value| < expected ==> PrepareRecord(file, record, expected) == record)
      && (file.Some? && kept.None? ==> PrepareRecord(file, record, expected) == None)
  {
    if file.Some? && record.Some? {
      assert record.value.digest <= file.value <==>
        |record.value.digest| <= |file.value| && file.value[..|record.value.digest|] == record.value.digest;
    }
  }

  // ---------------------------------------------------------------- one page

  /** What the remote checkpoint says a page consists of. */
  datatype PageDescriptor = PageDescriptor(slices: seq<SourceSlice>, stride: nat) {
    ghost predicate Valid() {
      (forall i :: 0 <= i < |slices| ==> slices[i].Valid()) && Sum(SliceSizes()) <= stride
    }

    function SliceSizes(): seq<nat> {
      seq(|slices|, i requires 0 <= i < |slices| =>
        if slices[i].byteStart <= slices[i].byteEnd then slices[i].Size() else 0)
    }

    ghost function Contents(): seq<seq<Byte>>
      requires forall i :: 0 <= i < |slices| ==> slices[i].Valid()
    {
      seq(|slices|, i requires 0 <= i < |slices| && slices[i].Valid() => slices[i].Content())
    }

    /** The page: its slices one after another, then zeros. */
    ghost function Page(): seq<Byte>
      requires forall i :: 0 <= i < |slices| ==> slices[i].Valid()
    {
      Padded(Concat(Contents()), stride)
    }
  }

  /** Where slice `k` starts in its page: behind the lengths of those before it. */
  function SliceStart(slices: seq<SourceSlice>, k: nat): int
    requires k <= |slices|
  {
    if k == 0 then 0 else SliceStart(slices, k - 1) + (slices[k - 1].byteEnd - slices[k - 1].byteStart)
  }

  ghost predicate SliceByteInPlace(page: seq<Byte>, start: int, slice: SourceSlice, b: nat) {
    && 0 <= start + b < |page| && slice.byteStart + b < |slice.shard|
    && page[start + b] == slice.shard[slice.byteStart + b]
  }

  /** Every byte of every source slice in its place, and zeros behind the last. */
  ghost predicate IsRemotePage(page: seq<Byte>, descriptor: PageDescriptor) {
    var slices := descriptor.slices;
    && |page| == descriptor.stride
    && (forall k: nat, b: nat :: k < |slices| && b < slices[k].byteEnd - slices[k].byteStart ==>
      SliceByteInPlace(page, SliceStart(slices, k), slices[k], b))
    && forall p: nat :: SliceStart(slices, |slices|) <= p < |page| ==> page[p] == 0
  }

  lemma {:induction false} StartsAreSums(descriptor: PageDescriptor, k: nat)
    requires (forall i :: 0 <= i < |descriptor.slices| ==> descriptor.slices[i].Valid()) && k <= |descriptor.slices|
    ensures SliceStart(descriptor.slices, k) == Sum(descriptor.SliceSizes()[..k])
  {
    if k > 0 {
      StartsAreSums(descriptor, k - 1);
      assert descriptor.SliceSizes()[..k] == descriptor.SliceSizes()[..k - 1] + [descriptor.SliceSizes()[k - 1]];
      SumAppend(descriptor.SliceSizes()[..k - 1], descriptor.SliceSizes()[k - 1]);
    }
  }

  /** The remote's page, byte by byte. */
  lemma PageIsRemote(descriptor: PageDescriptor)
    requires descriptor.Valid()
    ensures IsRemotePage(descriptor.Page(), descriptor)
  {
    hide Padded, Concat, Sum;
    var slices, contents, page := descriptor.slices, descriptor.Contents(), descriptor.Page();
    assert AllComplete(descriptor.SliceSizes(), contents);
    ConcatIsLaidOut(descriptor.SliceSizes(), contents, descriptor.stride);
    forall k: nat, b: nat | k < |slices| && b < slices[k].byteEnd - slices[k].byteStart
      ensures SliceByteInPlace(page, SliceStart(slices, k), slices[k], b)
    {
      StartsAreSums(descriptor, k);
      assert contents[k] == slices[k].Content() && b < |contents[k]|;
      assert ByteInPlace(page, Sum(descriptor.SliceSizes()[..k]), contents[k], b);
    }
    StartsAreSums(descriptor, |slices|);
    assert descriptor.SliceSizes()[..|slices|] == descriptor.SliceSizes();
  }

  function BytesOf(file: Option<seq<Byte>>): seq<Byte> {
    if file.Some? then file.value else []
  }

  /** A fragment and its journal entry both hold prefixes of the slice. */
  ghost predicate FragmentOk(file: Option<seq<Byte>>, record: Option<Record>, content: seq<Byte>) {
    BytesOf(file) <= content && (record.Some? ==> record.value.digest <= content)
  }

  /** What a crash may leave: some prefix of the file or no file, and the journal entry
      either kept or lost. */
  ghost predicate CrashLeaves(file: Option<seq<Byte>>, record: Option<Record>, file': Option<seq<Byte>>,
                              record': Option<Record>) {
    BytesOf(file') <= BytesOf(file) && (record' == record || record' == None)
  }

  lemma CrashSparesPrefixes(file: Option<seq<Byte>>, record: Option<Record>, file': Option<seq<Byte>>,
                            record': Option<Record>, content: seq<Byte>)
    requires FragmentOk(file, record, content) && CrashLeaves(file, record, file', record')
    ensures FragmentOk(file', record', content)
  {
  }

  /** The partial directory of one page: a fragment file per slice, and their journal. */
  class PartialPage {
    const descriptor: PageDescriptor
    var files: seq<Option<seq<Byte>>>
    var journal: seq<Option<Record>>

    ghost predicate Shape()
      reads this
    {
      descriptor.Valid() && |files| == |journal| == |descriptor.slices|
    }

    ghost predicate Valid()
      reads this
    {
      Shape() && forall i :: 0 <= i < |files| ==> FragmentOk(files[i], journal[i], descriptor.slices[i].Content())
    }

    constructor (descriptor: PageDescriptor)
      requires descriptor.Valid()
      ensures Valid() && this.descriptor == descriptor
    {
      this.descriptor := descriptor;
      files := seq(|descriptor.slices|, i => None);
      journal := seq(|descriptor.slices|, i => None);
    }

    method Crash()
      requires Valid()
      modifies this
      ensures Valid()
      ensures forall i :: 0 <= i < |files| ==> CrashLeaves(old(files)[i], old(journal)[i], files[i], journal[i])
    {
      hide FragmentOk, CrashLeaves, SourceSlice.Content;
      for i := 0 to |files|
        invariant Valid() && |files| == |old(files)|
        invariant forall j :: i <= j < |files| ==> files[j] == old(files)[j] && journal[j] == old(journal)[j]
        invariant forall j :: 0 <= j < i ==> CrashLeaves(old(files)[j], old(journal)[j], files[j], journal[j])
      {
        var file, record := CrashOne(files[i], journal[i]);
        CrashSparesPrefixes(files[i], journal[i], file, record, descriptor.slices[i].Content());
        files, journal := files[i := file], journal[i := record];
      }
    }

    static method CrashOne(found: Option<seq<Byte>>, entry: Option<Record>)
      returns (file: Option<seq<Byte>>, record: Option<Record>)
      ensures CrashLeaves(found, entry, file, record)
    {
      var n := AnyUpTo(|BytesOf(found)|);
      var fileLost := AnyFlag();
      var recordLost := AnyFlag();
      file := if fileLost then None else Some(BytesOf(found)[..n]);
      record := if recordLost then None else entry;
    }

    method PrepareFragments()
      requires Valid()
      modifies this
      ensures Valid()
      ensures forall i :: 0 <= i < |files| ==>
        && files[i] == Prepare(old(files)[i], old(journal)[i], |descriptor.slices[i].Content()|)
        && journal[i] == PrepareRecord(old(files)[i], old(journal)[i], |descriptor.slices[i].Content()|)
    {
      for i := 0 to |files|
        invariant Valid() && |files| == |old(files)|
        invariant forall j :: i <= j < |files| ==> files[j] == old(files)[j] && journal[j] == old(journal)[j]
        invariant forall j :: 0 <= j < i ==>
          && files[j] == Prepare(old(files)[j], old(journal)[j], |descriptor.slices[j].Content()|)
          && journal[j] == PrepareRecord(old(files)[j], old(journal)[j], |descriptor.slices[j].Content()|)
      {
        var content := descriptor.slices[i].Content();
        PrepareIsSafeIff(files[i], journal[i], content);
        var file, record := PrepareOne(files[i], journal[i], |content|);
        assert FragmentOk(file, record, content);
        files, journal := files[i := file], journal[i := record];
      }
    }

    /** Keep, cut back or delete one fragment. */
    static method PrepareOne(found: Option<seq<Byte>>, entry: Option<Record>, expected: nat)
      returns (file: Option<seq<Byte>>, record: Option<Record>)
      ensures file == Prepare(found, entry, expected)
      ensures record == PrepareRecord(found, entry, expected)
    {
      file, record := found, entry;
      if file.None? {
        return;
      }
      var size := |file.value|;
      if size > expected {
        return None, None;
      }
      if record.Some? {
        var digest := record.value.digest;
        if size < |digest| || file.value[..|digest|] != digest {
          return None, None;
        }
        assert file.value == file.value[..size];
        if size > |digest| {
          file := Some(file.value[..|digest|]);
          size := |digest|;
        }
      } else if size < expected {
        return None, None;
      }
      if size == expected {
        record := Some(Record(file.value));
      }
    }

    /** Fetch every fragment, journaling whatever arrived. Each fetch runs to some outcome of
        its own; they touch different files, so their order does not matter. */
    method FetchAll(maxAttempts: nat, chunkSize: int, calm: bool) returns (complete: bool)
      requires Valid()
      modifies this
      ensures Valid()
      ensures complete ==> forall i :: 0 <= i < |files| ==> BytesOf(files[i]) == descriptor.slices[i].Content()
      ensures calm && chunkSize > 0 && maxAttempts > 0 ==> complete
    {
      complete := true;
      for i := 0 to |files|
        invariant Valid() && |files| == |old(files)|
        invariant complete ==> forall j :: 0 <= j < i ==> BytesOf(files[j]) == descriptor.slices[j].Content()
        invariant calm && chunkSize > 0 && maxAttempts > 0 ==> complete
      {
        var whole := FetchOne(i, maxAttempts, chunkSize, calm);
        complete := complete && whole;
      }
    }

    /** One worker's fetch: the entry is written after the file was flushed and synced. */
    method FetchOne(i: nat, maxAttempts: nat, chunkSize: int, calm: bool) returns (whole: bool)
      requires Valid() && i < |files|
      modifies this
      ensures Valid() && |files| == |old(files)|
      ensures forall j :: 0 <= j < |files| && j != i ==> files[j] == old(files)[j] && journal[j] == old(journal)[j]
      ensures BytesOf(files[i]) != [] ==> journal[i] == Some(Record(BytesOf(files[i])))
      ensures whole ==> BytesOf(files[i]) == descriptor.slices[i].Content()
      ensures calm && chunkSize > 0 && maxAttempts > 0 ==> whole
    {
      var destination := new Fragment(files[i]);
      assert FragmentOk(files[i], journal[i], descriptor.slices[i].Content());
      var outcome, fetched, reused := FetchSliceToFile(descriptor.slices[i], destination, maxAttempts, chunkSize,
                                                        calm);
      files := files[i := destination.file];
      if BytesOf(destination.file) != [] {
        journal := journal[i := Some(Record(BytesOf(destination.file)))];
      }
      whole := outcome.Complete?;
    }
  }

  // ---------------------------------------------------------------- the page fault

  /** The page each key must hold, as the immutable remote revision defines it. */
  type Remote = PageKey -> PageDescriptor

  /** Every cached page is exactly the remote's. */
  ghost predicate PagesAreExact(remote: Remote, store: PocketTitanPageStore)
    reads store
  {
    forall k :: k in store.rows ==>
      remote(k).Valid() && k in store.pages && store.pages[k] == remote(k).Page()
  }

  datatype Fault = Hit(page: seq<Byte>) | Loaded(page: seq<Byte>) | Failed

  /** `CompositeWeightStore.materialize`, for a page whose partial directory is `partial`. A page that
      is neither cached nor can be made to fit always fails; in calm weather no other does. */
  method Materialize(store: PocketTitanPageStore, ghost remote: Remote, key: PageKey, partial: PartialPage,
                     maxAttempts: nat, chunkSize: int, now: int, later: int, calm: bool) returns (fault: Fault)
    requires store as object != partial && store.Settled() && PagesAreExact(remote, store)
    requires partial.Valid() && partial.descriptor == remote(key)
    modifies store, partial
    ensures store.Settled() && PagesAreExact(remote, store) && partial.Valid()
    ensures fault.Hit? <==> key in old(store.rows)
    ensures fault.Loaded? ==> old(store.CanFit(partial.descriptor.stride, key))
    ensures calm && chunkSize > 0 && maxAttempts > 0 ==>
      (fault.Failed? <==> key !in old(store.rows) && !old(store.CanFit(partial.descriptor.stride, key)))
    ensures !fault.Failed? ==> fault.page == remote(key).Page() && key in store.rows
    ensures !fault.Failed? ==> remote(key).Valid() && IsRemotePage(fault.page, remote(key))
    ensures store.outstanding == old(store.outstanding) + if fault.Failed? then multiset{} else multiset{key}
  {
    PageIsRemote(partial.descriptor);
    var cached := store.LookupWhenAgreed(key, true, now);
    forall k | k in store.rows ensures remote(k).Valid() && k in store.pages && store.pages[k] == remote(k).Page() {
      assert RowAgrees(store.rows, store.pages, store.manifests, k);
    }
    if cached.Some? {
      return Hit(cached.value);
    }
    fault := Load(store, remote, key, partial, maxAttempts, chunkSize, later, calm);
  }

  /** Making room evicts pages but alters none. */
  method ReserveRoom(store: PocketTitanPageStore, ghost remote: Remote, key: PageKey, size: nat)
    returns (room: BudgetResult)
    requires store.Settled() && PagesAreExact(remote, store)
    modifies store
    ensures store.Settled() && PagesAreExact(remote, store) && store.outstanding == old(store.outstanding)
    ensures room.Ok? || !old(store.CanFit(size, key))
    ensures room.Ok? ==> (store.CanFit(size, key) <==> old(store.CanFit(size, key)))
  {
    hide FilesFollow, IsEviction, PocketTitanPageStore.CanFit, PageDescriptor.Page;
    room := store.Reserve(key, size);
    forall k | k in store.rows ensures remote(k).Valid() && k in store.pages && store.pages[k] == remote(k).Page() {
      assert RowAgrees(store.rows, store.pages, store.manifests, k);
    }
  }

  method GiveRoomBack(store: PocketTitanPageStore, ghost remote: Remote, key: PageKey)
    requires store.Settled() && PagesAreExact(remote, store)
    modifies store
    ensures store.Settled() && PagesAreExact(remote, store) && store.outstanding == old(store.outstanding)
  {
    store.CancelReservation(key);
  }

  /** The miss path: reserve, resume the fragments, fetch, commit, or give the room back. */
  method Load(store: PocketTitanPageStore, ghost remote: Remote, key: PageKey, partial: PartialPage, maxAttempts: nat,
              chunkSize: int, now: int, calm: bool) returns (fault: Fault)
    requires store as object != partial && store.Settled() && PagesAreExact(remote, store)
    requires partial.Valid() && partial.descriptor == remote(key)
    modifies store, partial
    ensures store.Settled() && PagesAreExact(remote, store) && partial.Valid() && !fault.Hit?
    ensures fault.Loaded? ==> old(store.CanFit(partial.descriptor.stride, key))
    ensures calm && chunkSize > 0 && maxAttempts > 0 ==>
      (fault.Failed? <==> !old(store.CanFit(partial.descriptor.stride, key)))
    ensures fault.Loaded? ==> fault.page == remote(key).Page() && key in store.rows
    ensures store.outstanding == old(store.outstanding) + if fault.Failed? then multiset{} else multiset{key}
  {
    hide PocketTitanPageStore.Settled, PagesAreExact, PocketTitanPageStore.CanFit, FragmentOk, Prepare,
         PageDescriptor.Page;
    var room := ReserveRoom(store, remote, key, partial.descriptor.stride);
    if room.CacheBudgetError? {
      return Failed;
    }
    partial.PrepareFragments();
    var complete := partial.FetchAll(maxAttempts, chunkSize, calm);
    fault := Failed;
    if complete {
      fault := CommitFragments(store, remote, key, partial, now);
    }
    if fault.Failed? {
      GiveRoomBack(store, remote, key);
    }
  }

  /** Every fragment file holds all of its slice. */
  ghost predicate FragmentsAreWhole(partial: PartialPage)
    requires partial.Shape()
    reads partial
  {
    forall i :: 0 <= i < |partial.files| ==> BytesOf(partial.files[i]) == partial.descriptor.slices[i].Content()
  }

  /** Fragments that are prefixes of their slices have their sizes exactly if they are the slices. */
  lemma CompleteFragmentsAreContents(partial: PartialPage, contents: seq<seq<Byte>>)
    requires partial.Valid() && |contents| == |partial.files|
    requires forall i :: 0 <= i < |contents| ==> contents[i] == BytesOf(partial.files[i])
    ensures AllComplete(partial.descriptor.SliceSizes(), contents) <==> FragmentsAreWhole(partial)
    ensures FragmentsAreWhole(partial) ==> contents == partial.descriptor.Contents()
  {
    forall i | 0 <= i < |contents|
      ensures |contents[i]| == partial.descriptor.SliceSizes()[i] <==>
        contents[i] == partial.descriptor.slices[i].Content()
    {
      assert FragmentOk(partial.files[i], partial.journal[i], partial.descriptor.slices[i].Content());
    }
  }

  /** Commit whatever fragments there are: incomplete ones are refused, complete ones are the
      remote's page. */
  method CommitFragments(store: PocketTitanPageStore, ghost remote: Remote, key: PageKey, partial: PartialPage,
                         now: int)
    returns (fault: Fault)
    requires store.Settled() && PagesAreExact(remote, store)
    requires partial.Valid() && partial.descriptor == remote(key)
    modifies store
    ensures store.Settled() && PagesAreExact(remote, store) && !fault.Hit?
    ensures fault.Loaded? <==> FragmentsAreWhole(partial) && old(store.CanFit(partial.descriptor.stride, key))
    ensures fault.Loaded? ==> fault.page == remote(key).Page() && key in store.rows
    ensures store.outstanding == old(store.outstanding) + if fault.Failed? then multiset{} else multiset{key}
  {
    hide PageDescriptor.SliceSizes, PageDescriptor.Contents, AllComplete, Padded, Concat;
    var contents := FragmentBytes(partial);
    var committed := store.Commit(key, partial.descriptor.SliceSizes(), contents, partial.descriptor.stride, now);
    CompleteFragmentsAreContents(partial, contents);
    forall k | k in store.rows ensures remote(k).Valid() && k in store.pages && store.pages[k] == remote(k).Page() {
      assert RowAgrees(store.rows, store.pages, store.manifests, k);
    }
    fault := if committed.Committed? then Loaded(committed.page) else Failed;
  }

  method FragmentBytes(partial: PartialPage) returns (contents: seq<seq<Byte>>)
    requires partial.Valid()
    ensures |contents| == |partial.files| == |partial.descriptor.SliceSizes()|
    ensures forall i :: 0 <= i < |contents| ==> contents[i] == BytesOf(partial.files[i])
    ensures Sum(partial.descriptor.SliceSizes()) <= partial.descriptor.stride
  {
    var files := partial.files;
    contents := seq(|files|, i requires 0 <= i < |files| => BytesOf(files[i]));
  }

  /** Any number of faults on one page, with crashes of fragments and process in between. */
  method FaultThroughCrashes(store: PocketTitanPageStore, ghost remote: Remote, key: PageKey, partial: PartialPage,
                             maxAttempts: nat, chunkSize: int, clock: seq<int>) returns (page: Option<seq<Byte>>)
    requires store as object != partial && store.Settled() && PagesAreExact(remote, store)
    requires partial.Valid() && partial.descriptor == remote(key)
    modifies store, partial
    ensures store.Settled() && PagesAreExact(remote, store) && partial.Valid()
    ensures page.Some? ==> page.value == remote(key).Page() && IsRemotePage(page.value, remote(key))
  {
    hide PocketTitanPageStore.CanFit, IsRemotePage, PageDescriptor.Page, FragmentOk;
    PageIsRemote(partial.descriptor);
    page := None;
    for i := 0 to |clock|
      invariant store.Settled() && PagesAreExact(remote, store) && partial.Valid()
      invariant page.Some? ==> page.value == remote(key).Page()
    {
      var crash := AnyFlag();
      if crash {
        store.Restart();
        partial.Crash();
      } else {
        var fault := Materialize(store, remote, key, partial, maxAttempts, chunkSize, clock[i], clock[i], false);
        page := if fault.Failed? then page else Some(fault.page);
      }
    }
  }

  // ---------------------------------------------------------------- faults on many pages at once

  /** One step of some thread, on the page of one partial directory: it holds the store's lock, prepares
      the directory, or fetches one of its fragments. */
  datatype FaultOp =
    | LookupStep(page: nat)
    | ReserveStep(page: nat)
    | PrepareStep(page: nat)
    | FetchStep(page: nat, fragment: nat)
    | CommitStep(page: nat)
    | CancelStep(page: nat)
    | ReleaseStep(page: nat)
    | CrashStep

  /** Every partial directory holds prefixes of its page's slices. */
  ghost predicate PartialsAreValid(remote: Remote, keys: seq<PageKey>, partials: seq<PartialPage>)
    reads partials
  {
    |keys| == |partials| && forall i :: 0 <= i < |partials| ==>
      partials[i].Valid() && partials[i].descriptor == remote(keys[i])
  }

  ghost predicate IsPageOf(remote: Remote, key: PageKey, page: seq<Byte>) {
    remote(key).Valid() && page == remote(key).Page() && IsRemotePage(page, remote(key))
  }

  ghost predicate FaultsAreSafe(remote: Remote, store: PocketTitanPageStore, keys: seq<PageKey>,
                                partials: seq<PartialPage>)
    reads store, partials
  {
    && (forall p :: p in partials ==> store as object != p) && store.Settled() && PagesAreExact(remote, store)
    && PartialsAreValid(remote, keys, partials)
  }

  /** A step that holds the store's lock. */
  method StepStore(store: PocketTitanPageStore, ghost remote: Remote, key: PageKey, partial: PartialPage, op: FaultOp,
                   now: int)
    returns (page: Option<seq<Byte>>)
    requires store.Settled() && PagesAreExact(remote, store)
    requires partial.Valid() && partial.descriptor == remote(key)
    modifies store
    ensures store.Settled() && PagesAreExact(remote, store)
    ensures page.Some? ==> IsPageOf(remote, key, page.value)
  {
    hide PageDescriptor.SliceSizes, PageDescriptor.Contents, Padded, Concat, IsRemotePage;
    PageIsRemote(partial.descriptor);
    page := None;
    match op {
      case LookupStep(_) => page := store.LookupWhenAgreed(key, true, now);
      case ReserveStep(_) => var room := store.Reserve(key, partial.descriptor.stride);
      case CancelStep(_) => store.CancelReservation(key);
      case ReleaseStep(_) => store.Release(key);
      case CommitStep(_) =>
        var fault := CommitFragments(store, remote, key, partial, now);
        page := if fault.Failed? then None else Some(fault.page);
      case _ =>
    }
    forall k | k in store.rows ensures remote(k).Valid() && k in store.pages && store.pages[k] == remote(k).Page() {
      assert RowAgrees(store.rows, store.pages, store.manifests, k);
    }
  }

  /** A step on the files of one page. */
  method StepPartial(partial: PartialPage, op: FaultOp, maxAttempts: nat, chunkSize: int)
    requires partial.Valid()
    modifies partial
    ensures partial.Valid()
  {
    match op
    case PrepareStep(_) => partial.PrepareFragments();
    case FetchStep(_, i) =>
      if i < |partial.files| {
        var whole := partial.FetchOne(i, maxAttempts, chunkSize, false);
      }
    case _ =>
  }

  /** The process ends. */
  method CrashAll(store: PocketTitanPageStore, ghost remote: Remote, keys: seq<PageKey>, partials: seq<PartialPage>)
    requires FaultsAreSafe(remote, store, keys, partials)
    modifies store, partials
    ensures FaultsAreSafe(remote, store, keys, partials)
  {
    store.Restart();
    for i := 0 to |partials|
      invariant FaultsAreSafe(remote, store, keys, partials)
    {
      partials[i].Crash();
    }
  }

  /** One step of some thread, whatever else is under way. */
  method StepFault(store: PocketTitanPageStore, ghost remote: Remote, keys: seq<PageKey>, partials: seq<PartialPage>,
                   op: FaultOp, maxAttempts: nat, chunkSize: int, now: int) returns (page: Option<seq<Byte>>)
    requires FaultsAreSafe(remote, store, keys, partials) && (op.CrashStep? || op.page < |keys|)
    modifies store, partials
    ensures FaultsAreSafe(remote, store, keys, partials)
    ensures page.Some? ==> !op.CrashStep? && IsPageOf(remote, keys[op.page], page.value)
  {
    hide PocketTitanPageStore.Settled, PartialPage.Valid, IsPageOf, PagesAreExact;
    page := None;
    if op.CrashStep? {
      CrashAll(store, remote, keys, partials);
    } else if op.PrepareStep? || op.FetchStep? {
      StepPartial(partials[op.page], op, maxAttempts, chunkSize);
    } else {
      page := StepStore(store, remote, keys[op.page], partials[op.page], op, now);
    }
  }

  /** However the steps of any number of faults interleave, with each other and with crashes, the budget
      and the handles hold, every page handed out is the remote's, and no partial directory is spoilt. */
  method InterleavedFaults(store: PocketTitanPageStore, ghost remote: Remote, keys: seq<PageKey>,
                           partials: seq<PartialPage>, ops: seq<FaultOp>, maxAttempts: nat, chunkSize: int,
                           clock: seq<int>)
    returns (pages: seq<Option<seq<Byte>>>)
    requires FaultsAreSafe(remote, store, keys, partials) && |clock| == |ops|
    requires forall n :: 0 <= n < |ops| ==> ops[n].CrashStep? || ops[n].page < |keys|
    modifies store, partials
    ensures FaultsAreSafe(remote, store, keys, partials) && |pages| == |ops|
    ensures forall n :: 0 <= n < |ops| && pages[n].Some? ==>
      !ops[n].CrashStep? && IsPageOf(remote, keys[ops[n].page], pages[n].value)
  {
    hide FaultsAreSafe, IsPageOf;
    pages := [];
    for n := 0 to |ops|
      invariant FaultsAreSafe(remote, store, keys, partials) && |pages| == n
      invariant forall m :: 0 <= m < n && pages[m].Some? ==>
        !ops[m].CrashStep? && IsPageOf(remote, keys[ops[m].page], pages[m].value)
    {
      var page := StepFault(store, remote, keys, partials, ops[n], maxAttempts, chunkSize, clock[n]);
      pages := pages + [page];
    }
  }
}
