/**
  `main`: list the catalog, parse the batch size, then for each batch spawn
  one upload task per asset, wait for all of them and report one line per
  task. The run is recorded as a trace of events. Tasks share no mutable
  state, so the tasks of a batch are run one after the other, each at the
  moment it is spawned.
 */
module Migration {
  import opened Numerics
  import opened Assets
  import opened Upload
  import opened Chunking

  /** How the catalog request ended: no answer, an answer that is not a list of images, or the list. */
  datatype Catalog = Unreachable | Malformed | Listed(images: seq<Image>)

  /**
    Why `main` stops before any upload. The first three print an error and
    return; `ChunkSizeZero` is the panic of `slice::chunks(0)`.
   */
  datatype Abort = CatalogUnreachable | CatalogMalformed | ChunkSizeInvalid | ChunkSizeZero

  /** One line of the report loop: "Upload successful", or the error of a task that panicked. */
  datatype Outcome = Succeeded | Failed(reason: PanicReason)

  datatype Event =
    | Requested(request: Request)
    | Aborted(reason: Abort)
    | Spawned(index: nat, requests: seq<Request>)
    | Reported(index: nat, outcome: Outcome)

  datatype Kind = Spawn | Report

  predicate IsKind(e: Event, k: Kind) {
    match k
    case Spawn => e.Spawned?
    case Report => e.Reported?
  }

  /**
    What a task's `JoinHandle<()>` holds: the task binds the upload's `Result`
    to `_upload_result` and drops it, so only whether it panicked, and why,
    survives.
   */
  function Discard(end: Attempt<UploadResult>): (h: Attempt<()>)
    ensures h.Ran? <==> end.Ran?
    ensures h.Panicked? ==> h.reason == end.reason
  {
    match end
    case Ran(_) => Ran(())
    case Panicked(reason) => Panicked(reason)
  }

  /** The report line of one join result: "Upload successful", or the error of a panic. */
  function JoinOutcome(handle: Attempt<()>): (r: Outcome)
    ensures r == Succeeded <==> handle.Ran?
    ensures r.Failed? ==> r.reason == handle.reason
  {
    match handle
    case Ran(_) => Succeeded
    case Panicked(reason) => Failed(reason)
  }

  /**
    The body of the task for one asset: the asset and its index in the
    catalog, which selects what the outside world does during that task.
   */
  type TaskBody = (Image, nat) -> UploadRun

  /** `upload_to_cloudinary` with the settings of the run. */
  function Task(cfg: Config, lib: Library, io: nat -> TaskIo): TaskBody {
    (image: Image, i: nat) => RunUpload(cfg, lib, image, io(i))
  }

  /** Spawning the tasks of one batch, whose first asset has index `base`. */
  function SpawnEvents(task: TaskBody, batch: seq<Image>, base: nat): seq<Event> {
    seq(|batch|, j requires 0 <= j < |batch| =>
      Spawned(base + j, task(batch[j], base + j).requests))
  }

  /** Reporting the join results of one batch, in spawn order. */
  function ReportEvents(task: TaskBody, batch: seq<Image>, base: nat): seq<Event> {
    seq(|batch|, j requires 0 <= j < |batch| =>
      Reported(base + j, JoinOutcome(Discard(task(batch[j], base + j).end))))
  }

  function BatchEvents(task: TaskBody, batch: seq<Image>, base: nat): seq<Event> {
    SpawnEvents(task, batch, base) + ReportEvents(task, batch, base)
  }

  /** The batches in order, the first asset of the first batch having index `base`. */
  function DispatchTrace(task: TaskBody, batches: seq<seq<Image>>, base: nat): seq<Event>
    decreases |batches|
  {
    if batches == [] then []
    else BatchEvents(task, batches[0], base) + DispatchTrace(task, batches[1..], base + |batches[0]|)
  }

  /**
    The whole run: the catalog request, then either an abort or the batches.
    The batch size is parsed only once the catalog has been listed.
   */
  function MigrationTrace(cfg: Config, lib: Library, catalog: Catalog, io: nat -> TaskIo): seq<Event> {
    [Requested(CatalogRequest(cfg))]
    + match catalog
      case Unreachable => [Aborted(CatalogUnreachable)]
      case Malformed => [Aborted(CatalogMalformed)]
      case Listed(images) =>
        match ParseUsize(cfg.chunkSize)
        case None => [Aborted(ChunkSizeInvalid)]
        case Some(n) => if n == 0 then [Aborted(ChunkSizeZero)] else DispatchTrace(Task(cfg, lib, io), Chunks(images, n), 0)
  }

  /** One more batch at the end adds its events at the end, numbered after the earlier ones. */
  lemma {:induction false} DispatchSnoc(task: TaskBody, batches: seq<seq<Image>>,
                                        batch: seq<Image>, base: nat)
    ensures DispatchTrace(task, batches + [batch], base)
         == DispatchTrace(task, batches, base) + BatchEvents(task, batch, base + |Flatten(batches)|)
    decreases |batches|
  {
    if batches == [] {
      assert [] + [batch] == [batch];
      assert [batch][1..] == [];
    } else {
      assert (batches + [batch])[0] == batches[0];
      assert (batches + [batch])[1..] == batches[1..] + [batch];
      DispatchSnoc(task, batches[1..], batch, base + |batches[0]|);
    }
  }

  lemma SpawnEventsSnoc(task: TaskBody, batch: seq<Image>, base: nat, j: nat)
    requires j < |batch|
    ensures SpawnEvents(task, batch[..j + 1], base)
         == SpawnEvents(task, batch[..j], base) + [Spawned(base + j, task(batch[j], base + j).requests)]
  {
  }

  lemma ReportEventsSnoc(task: TaskBody, batch: seq<Image>, base: nat, j: nat)
    requires j < |batch|
    ensures ReportEvents(task, batch[..j + 1], base)
         == ReportEvents(task, batch[..j], base) + [Reported(base + j, JoinOutcome(Discard(task(batch[j], base + j).end)))]
  {
  }

  /**
    Spawning one batch (`tasks` in `main`): each task runs the upload of its
    asset; the handles are kept in spawn order.
   */
  method SpawnBatch(cfg: Config, lib: Library, io: nat -> TaskIo, batch: seq<Image>, base: nat)
    returns (events: seq<Event>, handles: seq<Attempt<()>>)
    ensures events == SpawnEvents(Task(cfg, lib, io), batch, base)
    ensures |handles| == |batch|
    ensures forall i :: 0 <= i < |batch| ==> handles[i] == Discard(Task(cfg, lib, io)(batch[i], base + i).end)
  {
    events, handles := [], [];
    for j := 0 to |batch|
      invariant events == SpawnEvents(Task(cfg, lib, io), batch[..j], base)
      invariant |handles| == j
      invariant forall i :: 0 <= i < j ==> handles[i] == Discard(Task(cfg, lib, io)(batch[i], base + i).end)
    {
      var run := RunUpload(cfg, lib, batch[j], io(base + j));
      SpawnEventsSnoc(Task(cfg, lib, io), batch, base, j);
      assert run == Task(cfg, lib, io)(batch[j], base + j);
      events := events + [Spawned(base + j, run.requests)];
      handles := handles + [Discard(run.end)];
    }
    assert batch[..|batch|] == batch;
  }

  /** The report loop after `join_all`: one line per handle, in spawn order. */
  method ReportBatch(cfg: Config, lib: Library, io: nat -> TaskIo, batch: seq<Image>, base: nat,
                     handles: seq<Attempt<()>>)
    returns (events: seq<Event>)
    requires |handles| == |batch|
    requires forall i :: 0 <= i < |batch| ==> handles[i] == Discard(Task(cfg, lib, io)(batch[i], base + i).end)
    ensures events == ReportEvents(Task(cfg, lib, io), batch, base)
  {
    events := [];
    for j := 0 to |handles|
      invariant events == ReportEvents(Task(cfg, lib, io), batch[..j], base)
    {
      ReportEventsSnoc(Task(cfg, lib, io), batch, base, j);
      events := events + [Reported(base + j, JoinOutcome(handles[j]))];
    }
    assert batch[..|batch|] == batch;
  }

  lemma FlattenSnoc<T>(cs: seq<seq<T>>, c: seq<T>)
    ensures |Flatten(cs + [c])| == |Flatten(cs)| + |c|
  {
    FlattenAppend(cs, [c]);
    assert [c][1..] == [];
  }

  /** The trace of the first `k + 1` batches extends that of the first `k`. */
  lemma DispatchPrefix(task: TaskBody, batches: seq<seq<Image>>, k: nat)
    requires k < |batches|
    ensures DispatchTrace(task, batches[..k + 1], 0)
         == DispatchTrace(task, batches[..k], 0) + BatchEvents(task, batches[k], |Flatten(batches[..k])|)
    ensures |Flatten(batches[..k + 1])| == |Flatten(batches[..k])| + |batches[k]|
  {
    assert batches[..k + 1] == batches[..k] + [batches[k]];
    DispatchSnoc(task, batches[..k], batches[k], 0);
    FlattenSnoc(batches[..k], batches[k]);
  }

  /** The batches one after the other, each spawned in full, joined, then reported. */
  method Dispatch(cfg: Config, lib: Library, io: nat -> TaskIo, batches: seq<seq<Image>>)
    returns (trace: seq<Event>)
    ensures trace == DispatchTrace(Task(cfg, lib, io), batches, 0)
  {
    trace := [];
    var next := 0;
    for k := 0 to |batches|
      invariant trace == DispatchTrace(Task(cfg, lib, io), batches[..k], 0)
      invariant next == |Flatten(batches[..k])|
    {
      var batch := batches[k];
      var spawned, handles := SpawnBatch(cfg, lib, io, batch, next);
      var reported := ReportBatch(cfg, lib, io, batch, next, handles);
      DispatchPrefix(Task(cfg, lib, io), batches, k);
      trace := trace + (spawned + reported);
      next := next + |batch|;
    }
    assert batches[..|batches|] == batches;
  }

  /** `main` after loading its settings. */
  method RunMigration(cfg: Config, lib: Library, catalog: Catalog, io: nat -> TaskIo) returns (trace: seq<Event>)
    ensures trace == MigrationTrace(cfg, lib, catalog, io)
  {
    trace := [Requested(CatalogRequest(cfg))];
    match catalog
    case Unreachable =>
      trace := trace + [Aborted(CatalogUnreachable)];
    case Malformed =>
      trace := trace + [Aborted(CatalogMalformed)];
    case Listed(images) =>
      var parsed := ParseUsize(cfg.chunkSize);
      if parsed.None? {
        trace := trace + [Aborted(ChunkSizeInvalid)];
      } else if parsed.value == 0 {
        trace := trace + [Aborted(ChunkSizeZero)];
      } else {
        var rest := Dispatch(cfg, lib, io, Chunks(images, parsed.value));
        trace := trace + rest;
      }
  }

  /** The asset indices of the events of one kind, in trace order. */
  function IndicesOf(t: seq<Event>, k: Kind): seq<nat>
    decreases |t|
  {
    if t == [] then []
    else (if IsKind(t[0], k) then [t[0].index] else []) + IndicesOf(t[1..], k)
  }

  /** `a, a + 1, ..., b - 1` */
  function Range(a: nat, b: nat): (r: seq<nat>)
    requires a <= b
    ensures |r| == b - a
    ensures forall i :: 0 <= i < |r| ==> r[i] == a + i
  {
    seq(b - a, i requires 0 <= i < b - a => a + i)
  }

  lemma {:induction false} IndicesAppend(a: seq<Event>, b: seq<Event>, k: Kind)
    ensures IndicesOf(a + b, k) == IndicesOf(a, k) + IndicesOf(b, k)
    decreases |a|
  {
    if a == [] {
      assert a + b == b;
    } else {
      assert (a + b)[0] == a[0] && (a + b)[1..] == a[1..] + b;
      IndicesAppend(a[1..], b, k);
    }
  }

  /** Every event of `t` is of kind `k` and they are numbered from `base` on. */
  predicate Numbered(t: seq<Event>, base: nat, k: Kind) {
    forall i :: 0 <= i < |t| ==> IsKind(t[i], k) && t[i].index == base + i
  }

  lemma {:induction false} NumberedIndices(t: seq<Event>, base: nat, k: Kind, other: Kind)
    requires Numbered(t, base, k) && other != k
    ensures IndicesOf(t, k) == Range(base, base + |t|)
    ensures IndicesOf(t, other) == []
    decreases |t|
  {
    if t != [] {
      assert Numbered(t[1..], base + 1, k) by {
        forall i | 0 <= i < |t[1..]|
          ensures IsKind(t[1..][i], k) && t[1..][i].index == base + 1 + i
        {
          assert t[1..][i] == t[i + 1];
        }
      }
      NumberedIndices(t[1..], base + 1, k, other);
      assert IsKind(t[0], k) && !IsKind(t[0], other) by {
        match k
        case Spawn =>
        case Report =>
      }
    }
  }

  /** A batch spawns, then reports, the indices `base` to `base + |batch| - 1`, each once and in order. */
  lemma BatchIndices(task: TaskBody, batch: seq<Image>, base: nat, k: Kind)
    ensures IndicesOf(BatchEvents(task, batch, base), k) == Range(base, base + |batch|)
  {
    var spawned := SpawnEvents(task, batch, base);
    var reported := ReportEvents(task, batch, base);
    NumberedIndices(spawned, base, Spawn, Report);
    NumberedIndices(reported, base, Report, Spawn);
    IndicesAppend(spawned, reported, k);
    match k
    case Spawn =>
      assert IndicesOf(spawned, k) + [] == IndicesOf(spawned, k);
    case Report =>
      assert [] + IndicesOf(reported, k) == IndicesOf(reported, k);
  }

  lemma RangeAppend(a: nat, b: nat, c: nat)
    requires a <= b <= c
    ensures Range(a, b) + Range(b, c) == Range(a, c)
  {
  }

  lemma {:induction false} DispatchIndices(task: TaskBody, batches: seq<seq<Image>>,
                                           base: nat, k: Kind)
    ensures IndicesOf(DispatchTrace(task, batches, base), k) == Range(base, base + |Flatten(batches)|)
    decreases |batches|
  {
    if batches != [] {
      var c := batches[0];
      var now := BatchEvents(task, c, base);
      var later := DispatchTrace(task, batches[1..], base + |c|);
      assert DispatchTrace(task, batches, base) == now + later;
      assert |Flatten(batches)| == |c| + |Flatten(batches[1..])|;
      BatchIndices(task, c, base, k);
      DispatchIndices(task, batches[1..], base + |c|, k);
      IndicesAppend(now, later, k);
      RangeAppend(base, base + |c|, base + |Flatten(batches)|);
    }
  }

  /** A listed catalog and a positive batch size: the catalog request, then the batches. */
  lemma MigrationDispatches(cfg: Config, lib: Library, catalog: Catalog, io: nat -> TaskIo)
    requires catalog.Listed?
    requires ParseUsize(cfg.chunkSize).Some? && ParseUsize(cfg.chunkSize).value > 0
    ensures MigrationTrace(cfg, lib, catalog, io)
         == [Requested(CatalogRequest(cfg))]
            + DispatchTrace(Task(cfg, lib, io), Chunks(catalog.images, ParseUsize(cfg.chunkSize).value), 0)
  {
  }

  /**
    Once the catalog is listed and the batch size is a positive number, every
    asset is spawned exactly once, in catalog order, and exactly one line is
    reported per asset, in the same order.
   */
  lemma EachAssetOnce(cfg: Config, lib: Library, catalog: Catalog, io: nat -> TaskIo, k: Kind)
    requires catalog.Listed?
    requires ParseUsize(cfg.chunkSize).Some? && ParseUsize(cfg.chunkSize).value > 0
    ensures IndicesOf(MigrationTrace(cfg, lib, catalog, io), k) == Range(0, |catalog.images|)
    ensures |IndicesOf(MigrationTrace(cfg, lib, catalog, io), k)| == |catalog.images|
  {
    var batches := Chunks(catalog.images, ParseUsize(cfg.chunkSize).value);
    var rest := DispatchTrace(Task(cfg, lib, io), batches, 0);
    MigrationDispatches(cfg, lib, catalog, io);
    assert MigrationTrace(cfg, lib, catalog, io) == [Requested(CatalogRequest(cfg))] + rest;
    DispatchIndices(Task(cfg, lib, io), batches, 0, k);
    assert |Flatten(batches)| == |catalog.images|;
    SkipRequest(CatalogRequest(cfg), rest, k);
  }

  lemma SkipRequest(r: Request, t: seq<Event>, k: Kind)
    ensures IndicesOf([Requested(r)] + t, k) == IndicesOf(t, k)
  {
    assert ([Requested(r)] + t)[1..] == t;
    assert !IsKind(Requested(r), k) by {
      match k
      case Spawn =>
      case Report =>
    }
  }

  /**
    A run that stops before dispatching: the catalog request is sent first in
    every case, and when it fails the batch size is never looked at.
   */
  lemma AbortsSpawnNothing(cfg: Config, lib: Library, catalog: Catalog, io: nat -> TaskIo, k: Kind)
    ensures MigrationTrace(cfg, lib, catalog, io)[0] == Requested(CatalogRequest(cfg))
    ensures catalog.Unreachable? ==>
      MigrationTrace(cfg, lib, catalog, io) == [Requested(CatalogRequest(cfg)), Aborted(CatalogUnreachable)]
    ensures catalog.Malformed? ==>
      MigrationTrace(cfg, lib, catalog, io) == [Requested(CatalogRequest(cfg)), Aborted(CatalogMalformed)]
    ensures catalog.Listed? && ParseUsize(cfg.chunkSize).None? ==>
      MigrationTrace(cfg, lib, catalog, io) == [Requested(CatalogRequest(cfg)), Aborted(ChunkSizeInvalid)]
    ensures catalog.Listed? && ParseUsize(cfg.chunkSize) == Some(0) ==>
      MigrationTrace(cfg, lib, catalog, io) == [Requested(CatalogRequest(cfg)), Aborted(ChunkSizeZero)]
    ensures !catalog.Listed? || ParseUsize(cfg.chunkSize).None? || ParseUsize(cfg.chunkSize) == Some(0) ==>
      IndicesOf(MigrationTrace(cfg, lib, catalog, io), k) == []
  {
    var t := MigrationTrace(cfg, lib, catalog, io);
    if !catalog.Listed? || ParseUsize(cfg.chunkSize).None? || ParseUsize(cfg.chunkSize) == Some(0) {
      assert |t| == 2 && !IsKind(t[0], k) && !IsKind(t[1], k) by {
        match k
        case Spawn =>
        case Report =>
      }
      assert IndicesOf(t[1..][1..], k) == [] by {
        assert t[1..][1..] == [];
      }
      assert IndicesOf(t[1..], k) == [];
    }
  }

  /** An empty catalog with a valid batch size sends the catalog request and nothing else. */
  lemma EmptyCatalog(cfg: Config, lib: Library, io: nat -> TaskIo)
    requires ParseUsize(cfg.chunkSize).Some? && ParseUsize(cfg.chunkSize).value > 0
    ensures MigrationTrace(cfg, lib, Listed([]), io) == [Requested(CatalogRequest(cfg))]
  {
    var none: seq<Image> := [];
    ChunkCount(none, ParseUsize(cfg.chunkSize).value);
  }

  /**
    Event `e` is the spawn or the report of the task for `images[e.index]`:
    the spawn carries the requests that task sends, the report the outcome of
    its join handle.
   */
  predicate Describes(task: TaskBody, e: Event, images: seq<Image>) {
    && (e.Spawned? || e.Reported?)
    && e.index < |images|
    && (e.Spawned? ==> e.requests == task(images[e.index], e.index).requests)
    && (e.Reported? ==> e.outcome == JoinOutcome(Discard(task(images[e.index], e.index).end)))
  }

  /** Every event of `t` describes its task and has an index in `lo .. hi`. */
  predicate AllDescribe(task: TaskBody, t: seq<Event>, images: seq<Image>, lo: nat, hi: nat) {
    forall i :: 0 <= i < |t| ==> Describes(task, t[i], images) && lo <= t[i].index < hi
  }

  /** Every event of `t` is a spawn or a report with an index of at least `lo`. */
  predicate IndexedFrom(t: seq<Event>, lo: nat) {
    forall i :: 0 <= i < |t| ==> (t[i].Spawned? || t[i].Reported?) && lo <= t[i].index
  }

  lemma AllDescribeAppend(task: TaskBody, a: seq<Event>, b: seq<Event>,
                          images: seq<Image>, lo: nat, mid: nat, hi: nat)
    requires lo <= mid <= hi
    requires AllDescribe(task, a, images, lo, mid) && AllDescribe(task, b, images, mid, hi)
    ensures AllDescribe(task, a + b, images, lo, hi)
  {
    forall i | 0 <= i < |a + b|
      ensures Describes(task, (a + b)[i], images) && lo <= (a + b)[i].index < hi
    {
      if i < |a| {
        assert (a + b)[i] == a[i];
      } else {
        assert (a + b)[i] == b[i - |a|];
      }
    }
  }

  lemma IndexedFromAppend(a: seq<Event>, b: seq<Event>, lo: nat, mid: nat)
    requires lo <= mid && IndexedFrom(a, lo) && IndexedFrom(b, mid)
    ensures IndexedFrom(a + b, lo)
  {
    forall i | 0 <= i < |a + b|
      ensures ((a + b)[i].Spawned? || (a + b)[i].Reported?) && lo <= (a + b)[i].index
    {
      if i < |a| {
        assert (a + b)[i] == a[i];
      } else {
        assert (a + b)[i] == b[i - |a|];
      }
    }
  }

  /** `c` spawns, then `c` reports, all with indices in `lo .. lo + c`. */
  predicate BatchShape(t: seq<Event>, c: nat, lo: nat) {
    && |t| == 2 * c
    && forall i :: 0 <= i < |t| ==>
      && (t[i].Spawned? <==> i < c)
      && (t[i].Spawned? || t[i].Reported?)
      && lo <= t[i].index < lo + c
  }

  /** A batch's spawns come first, its reports after them, both numbered from `base`. */
  lemma BatchLayout(task: TaskBody, batch: seq<Image>, base: nat)
    ensures BatchShape(BatchEvents(task, batch, base), |batch|, base)
  {
  }

  lemma BatchDescribes(task: TaskBody, batch: seq<Image>, base: nat, images: seq<Image>)
    requires base + |batch| <= |images| && images[base..base + |batch|] == batch
    ensures AllDescribe(task, BatchEvents(task, batch, base), images, base, base + |batch|)
  {
    var t := BatchEvents(task, batch, base);
    forall i | 0 <= i < |t|
      ensures Describes(task, t[i], images) && base <= t[i].index < base + |batch|
    {
      var j := if i < |batch| then i else i - |batch|;
      assert images[base + j] == images[base..base + |batch|][j] == batch[j];
    }
  }

  lemma SliceParts(images: seq<Image>, base: nat, c: seq<Image>, rest: seq<Image>)
    requires base + |c| + |rest| <= |images| && images[base..base + |c| + |rest|] == c + rest
    ensures images[base..base + |c|] == c
    ensures images[base + |c|..base + |c| + |rest|] == rest
  {
    assert images[base..base + |c|] == images[base..base + |c| + |rest|][..|c|];
    assert images[base + |c|..base + |c| + |rest|] == images[base..base + |c| + |rest|][|c|..];
  }

  /**
    Every event of the batches that start at index `base` describes the task
    of the asset with its index, the assets being the batches laid end to end.
   */
  lemma {:induction false} DispatchDescribes(task: TaskBody, batches: seq<seq<Image>>,
                                             base: nat, images: seq<Image>)
    requires base + |Flatten(batches)| <= |images|
    requires images[base..base + |Flatten(batches)|] == Flatten(batches)
    ensures AllDescribe(task, DispatchTrace(task, batches, base), images, base, base + |Flatten(batches)|)
    decreases |batches|
  {
    if batches != [] {
      var c := batches[0];
      var now := BatchEvents(task, c, base);
      var later := DispatchTrace(task, batches[1..], base + |c|);
      assert DispatchTrace(task, batches, base) == now + later;
      assert Flatten(batches) == c + Flatten(batches[1..]);
      SliceParts(images, base, c, Flatten(batches[1..]));
      BatchDescribes(task, c, base, images);
      DispatchDescribes(task, batches[1..], base + |c|, images);
      AllDescribeAppend(task, now, later, images, base, base + |c|, base + |Flatten(batches)|);
    }
  }

  lemma {:induction false} DispatchRange(task: TaskBody, batches: seq<seq<Image>>,
                                         base: nat)
    ensures IndexedFrom(DispatchTrace(task, batches, base), base)
    decreases |batches|
  {
    if batches != [] {
      var c := batches[0];
      var now := BatchEvents(task, c, base);
      var later := DispatchTrace(task, batches[1..], base + |c|);
      assert DispatchTrace(task, batches, base) == now + later;
      BatchLayout(task, c, base);
      assert IndexedFrom(now, base);
      DispatchRange(task, batches[1..], base + |c|);
      IndexedFromAppend(now, later, base, base + |c|);
    }
  }

  /** Batches of `n`, except possibly a shorter last one. */
  predicate FullBatches(batches: seq<seq<Image>>, n: nat) {
    && (forall k :: 0 <= k < |batches| ==> |batches[k]| <= n)
    && (forall k :: 0 <= k < |batches| - 1 ==> |batches[k]| == n)
  }

  /**
    The barrier between batches: a report comes before a spawn exactly when
    the reported asset belongs to an earlier batch than the spawned one, batch
    `m` holding the assets with indices `m * n` to `m * n + n - 1`.
   */
  predicate Barrier(t: seq<Event>, n: nat)
    requires n > 0
  {
    forall p, q :: 0 <= p < |t| && 0 <= q < |t| && t[p].Reported? && t[q].Spawned? ==>
      (p < q <==> t[p].index / n < t[q].index / n)
  }

  lemma BarrierCases(t: seq<Event>, now: seq<Event>, later: seq<Event>, n: nat, m: nat, c: nat)
    requires n > 0 && t == now + later && c <= n
    requires BatchShape(now, c, m * n)
    requires later != [] ==> c == n
    requires IndexedFrom(later, m * n + n)
    requires Barrier(later, n)
    ensures Barrier(t, n)
  {
    forall p, q | 0 <= p < |t| && 0 <= q < |t| && t[p].Reported? && t[q].Spawned?
      ensures p < q <==> t[p].index / n < t[q].index / n
    {
      if p < |now| {
        assert t[p] == now[p];
        DivideExactly(t[p].index, n, m);
        if q < |now| {
          assert t[q] == now[q];
          DivideExactly(t[q].index, n, m);
        } else {
          assert t[q] == later[q - |now|];
          MulStep(m + 1, n);
          DivAtLeast(t[q].index, n, m + 1);
        }
      } else {
        assert t[p] == later[p - |now|];
        if q < |now| {
          assert t[q] == now[q];
          DivideExactly(t[q].index, n, m);
          MulStep(m + 1, n);
          DivAtLeast(t[p].index, n, m + 1);
        } else {
          assert t[q] == later[q - |now|];
        }
      }
    }
  }

  lemma FullBatchesTail(batches: seq<seq<Image>>, n: nat)
    requires FullBatches(batches, n) && batches != []
    ensures FullBatches(batches[1..], n)
  {
    forall k | 0 <= k < |batches[1..]|
      ensures |batches[1..][k]| <= n && (k < |batches[1..]| - 1 ==> |batches[1..][k]| == n)
    {
      assert batches[1..][k] == batches[k + 1];
    }
  }

  lemma {:induction false} DispatchBarrier(task: TaskBody, batches: seq<seq<Image>>,
                                           n: nat, m: nat, base: nat)
    requires n > 0 && base == m * n && FullBatches(batches, n)
    ensures Barrier(DispatchTrace(task, batches, base), n)
    decreases |batches|, 1
  {
    if batches != [] {
      var c := batches[0];
      var now := BatchEvents(task, c, base);
      var later := DispatchTrace(task, batches[1..], base + |c|);
      assert DispatchTrace(task, batches, base) == now + later;
      BatchLayout(task, c, base);
      LaterBatches(task, batches, n, m, base);
      BarrierCases(now + later, now, later, n, m, |c|);
    }
  }

  /** What the batches after the first contribute to the barrier. */
  lemma {:induction false} LaterBatches(task: TaskBody, batches: seq<seq<Image>>,
                                        n: nat, m: nat, base: nat)
    requires n > 0 && base == m * n && FullBatches(batches, n) && batches != []
    ensures var later := DispatchTrace(task, batches[1..], base + |batches[0]|);
      && (later != [] ==> |batches[0]| == n)
      && IndexedFrom(later, base + n)
      && Barrier(later, n)
    decreases |batches|, 0
  {
    if |batches| > 1 {
      MulStep(m + 1, n);
      FullBatchesTail(batches, n);
      DispatchBarrier(task, batches[1..], n, m + 1, base + n);
      DispatchRange(task, batches[1..], base + n);
    } else {
      assert batches[1..] == [];
    }
  }

  /** An event that is neither a spawn nor a report in front of a trace changes no barrier. */
  lemma BarrierPrepend(e: Event, t: seq<Event>, n: nat)
    requires n > 0 && !e.Spawned? && !e.Reported? && Barrier(t, n)
    ensures Barrier([e] + t, n)
  {
    var u := [e] + t;
    forall p, q | 0 <= p < |u| && 0 <= q < |u| && u[p].Reported? && u[q].Spawned?
      ensures p < q <==> u[p].index / n < u[q].index / n
    {
      assert u[p] == t[p - 1] && u[q] == t[q - 1];
    }
  }

  lemma DescribesAfterHead(task: TaskBody, e: Event, t: seq<Event>,
                           images: seq<Image>, hi: nat)
    requires AllDescribe(task, t, images, 0, hi)
    ensures forall p :: 1 <= p < |[e] + t| ==> Describes(task, ([e] + t)[p], images)
  {
    forall p | 1 <= p < |[e] + t|
      ensures Describes(task, ([e] + t)[p], images)
    {
      assert ([e] + t)[p] == t[p - 1];
    }
  }

  /**
    In a run that dispatches, every spawn and every report describes the task
    of the catalog asset with its index; a report comes before a spawn exactly
    when the reported asset is in an earlier batch, so each batch is joined in
    full before the next one starts.
   */
  lemma MigrationEvents(cfg: Config, lib: Library, catalog: Catalog, io: nat -> TaskIo)
    requires catalog.Listed?
    requires ParseUsize(cfg.chunkSize).Some? && ParseUsize(cfg.chunkSize).value > 0
    ensures var t := MigrationTrace(cfg, lib, catalog, io);
      && (forall p :: 1 <= p < |t| ==> Describes(Task(cfg, lib, io), t[p], catalog.images))
      && Barrier(t, ParseUsize(cfg.chunkSize).value)
  {
    var n := ParseUsize(cfg.chunkSize).value;
    var images := catalog.images;
    var batches := Chunks(images, n);
    var task := Task(cfg, lib, io);
    var rest := DispatchTrace(task, batches, 0);
    MigrationDispatches(cfg, lib, catalog, io);
    assert images[0..|Flatten(batches)|] == Flatten(batches);
    DispatchDescribes(task, batches, 0, images);
    DescribesAfterHead(task, Requested(CatalogRequest(cfg)), rest, images, |images|);
    DispatchBarrier(task, batches, n, 0, 0);
    BarrierPrepend(Requested(CatalogRequest(cfg)), rest, n);
  }

  /**
    The report ignores what the upload returned: a task whose download or
    POST failed is reported as "Upload successful"; only a panic is reported
    as an error.
   */
  lemma ReportIgnoresUploadResult(cfg: Config, lib: Library, catalog: Catalog, io: nat -> TaskIo, p: nat)
    requires catalog.Listed?
    requires ParseUsize(cfg.chunkSize).Some? && ParseUsize(cfg.chunkSize).value > 0
    requires 1 <= p < |MigrationTrace(cfg, lib, catalog, io)|
    requires MigrationTrace(cfg, lib, catalog, io)[p].Reported?
    ensures var e := MigrationTrace(cfg, lib, catalog, io)[p];
      && e.index < |catalog.images|
      && var run := RunUpload(cfg, lib, catalog.images[e.index], io(e.index));
      && (e.outcome == Succeeded <==> run.end.Ran?)
      && (run.end == Ran(DownloadFailed) || run.end == Ran(PostFailed) ==> e.outcome == Succeeded)
  {
    MigrationEvents(cfg, lib, catalog, io);
    assert Describes(Task(cfg, lib, io), MigrationTrace(cfg, lib, catalog, io)[p], catalog.images);
  }
}
