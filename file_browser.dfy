/**
 * The file browser's thumbnail-information dispatcher
 * (experiments/djvFileBrowserExperiment/Info.cpp), with its threads taken out:
 * a fixed pool of requester/worker pairs, a round-robin cursor that routes
 * each request to the next requester, a generation id broadcast to every
 * worker, and workers that drop stale requests and emit exactly one result
 * for every current one.
 *
 * A queued cross-thread signal is a per-worker pending sequence; a worker
 * taking its next queued request is the step Deliver. Loading the image and
 * computing the thumbnail size are one outcome supplied with that step.
 */
module FileBrowser {
  import opened Wrappers
  import opened Core
  import opened ImageIo

  newtype u64 = x: int | 0 <= x < 0x1_0000_0000_0000_0000

  /** The pixmap of a result: none, or one of the computed size filled with transparency. */
  datatype Pixmap = NullPixmap | Transparent(size: IVec2)

  /** InfoRequest; `thumbnails` is the Util::THUMBNAILS mode by its enumerator index. */
  datatype InfoRequest = InfoRequest(
    fileName: string,
    thumbnails: int,
    thumbnailSize: int,
    row: int,
    id: u64)

  datatype InfoResult = InfoResult(
    info: ImageIOInfo,
    pixmap: Pixmap,
    row: int,
    id: u64)

  /** A default-constructed InfoRequest: mode 0, size 0, row 0, id 0. */
  function DefaultRequest(): (r: InfoRequest)
    ensures r.row == 0 && r.id == 0
    ensures r.thumbnails == 0 && r.thumbnailSize == 0
  {
    InfoRequest("", 0, 0, 0, 0)
  }

  /** A default-constructed InfoResult: row 0, id 0, default info, null pixmap. */
  function DefaultResult(): (r: InfoResult)
    ensures r.row == 0 && r.id == 0
    ensures r.info == DefaultInfo() && r.pixmap == NullPixmap
  {
    InfoResult(DefaultInfo(), NullPixmap, 0, 0)
  }

  /**
   * What loading the image and applying the thumbnail-size policy did for one
   * request: the header information the loader left in the result (it may
   * have filled part of it before failing), and the thumbnail size, or None
   * when either of them threw.
   */
  datatype LoadOutcome = LoadOutcome(info: ImageIOInfo, thumbnailSize: Option<IVec2>)

  /**
   * What a worker whose id is `currentId` emits for `request`: nothing for a
   * stale request, otherwise exactly one result that carries the request's
   * row and id, and a transparent pixmap only when the load succeeded.
   */
  function Emission(currentId: u64, request: InfoRequest, outcome: LoadOutcome): (r: seq<InfoResult>)
    ensures |r| <= 1
    ensures |r| == 1 <==> request.id == currentId
    ensures forall res :: res in r ==>
      && res.row == request.row
      && res.id == request.id
      && res.info == outcome.info
      && (res.pixmap == NullPixmap <==> outcome.thumbnailSize.None?)
    ensures forall res :: res in r && outcome.thumbnailSize.Some? ==>
      res.pixmap == Transparent(outcome.thumbnailSize.value)
  {
    if request.id != currentId then []
    else
      var pixmap := match outcome.thumbnailSize
        case Some(size) => Transparent(size)
        case None => NullPixmap;
      [InfoResult(outcome.info, pixmap, request.row, request.id)]
  }

  /**
   * InfoWorker::request: compares the request's id with the worker's, then
   * fills a default result field by field and emits it; a failed load leaves
   * the pixmap null and the result is emitted all the same.
   */
  method WorkerRequest(currentId: u64, request: InfoRequest, outcome: LoadOutcome)
    returns (emitted: seq<InfoResult>)
    ensures emitted == Emission(currentId, request, outcome)
  {
    if request.id != currentId {
      return [];
    }
    var result := DefaultResult();
    result := result.(row := request.row);
    result := result.(id := request.id);
    result := result.(info := outcome.info);
    match outcome.thumbnailSize {
      case Some(size) =>
        result := result.(pixmap := Transparent(size));
      case None =>
    }
    emitted := [result];
  }

  /** The requests of a queue that a worker with id `currentId` will not drop. */
  function Current(currentId: u64, queue: seq<InfoRequest>): seq<InfoRequest>
  {
    if queue == [] then []
    else (if queue[0].id == currentId then [queue[0]] else []) + Current(currentId, queue[1..])
  }

  /** What a worker emits while it works through a queue, given the outcome of each load. */
  function Drain(currentId: u64, queue: seq<InfoRequest>, outcomes: seq<LoadOutcome>): seq<InfoResult>
    requires |outcomes| == |queue|
  {
    if queue == [] then []
    else Emission(currentId, queue[0], outcomes[0]) + Drain(currentId, queue[1..], outcomes[1..])
  }

  /**
   * Working through a queue emits one result per current request, in queue
   * order, each with that request's row and the current id: stale requests
   * leave no trace, and failed loads do not stop the ones after them.
   */
  lemma {:induction false} DrainEmitsCurrent(currentId: u64, queue: seq<InfoRequest>, outcomes: seq<LoadOutcome>)
    requires |outcomes| == |queue|
    ensures var d, c := Drain(currentId, queue, outcomes), Current(currentId, queue);
      && |d| == |c|
      && forall k :: 0 <= k < |d| ==> d[k].id == currentId && d[k].row == c[k].row
  {
    if queue != [] {
      DrainEmitsCurrent(currentId, queue[1..], outcomes[1..]);
    }
  }

  /** The number of requester/worker/thread triples in the pool. */
  const Threads := 12

  /** The cursor step of nextRequester: advance, and wrap to 0 at the requester count. */
  function NextCursor(cursor: int, count: int): int
  {
    if cursor + 1 >= count then 0 else cursor + 1
  }

  /** The cursor stays inside the requester list and advances cyclically. */
  lemma NextCursorInRange(cursor: int, count: int)
    requires 0 <= cursor < count
    ensures 0 <= NextCursor(cursor, count) < count
    ensures NextCursor(cursor, count) == (cursor + 1) % count
  {
  }

  /** The cursor after `k` requests, starting from 0. */
  function CursorAfter(k: nat): int
  {
    if k == 0 then 0 else NextCursor(CursorAfter(k - 1), Threads)
  }

  /** The k-th request (from 0) goes to requester k mod 12. */
  lemma {:induction false} CursorAfterIsMod(k: nat)
    ensures CursorAfter(k) == k % Threads
  {
    if k > 0 {
      CursorAfterIsMod(k - 1);
    }
  }

  /** Requests k and k + 12 go to the same requester. */
  lemma SameRequesterAfterFullCycle(k: nat)
    ensures CursorAfter(k + Threads) == CursorAfter(k)
  {
    CursorAfterIsMod(k);
    CursorAfterIsMod(k + Threads);
  }

  /** Consecutive requests go to different requesters. */
  lemma ConsecutiveRequestersDiffer(k: nat)
    ensures CursorAfter(k + 1) != CursorAfter(k)
  {
    CursorAfterIsMod(k);
    CursorAfterIsMod(k + 1);
  }

  /** Where a requester's request signal is connected. */
  datatype Connection = Unconnected | ConnectedTo(worker: nat)

  /** A pool thread: not yet started, or running with a worker moved onto it. */
  datatype ThreadState = NotStarted | Running(worker: nat)

  /** Info: the dispatcher. */
  class Info {
    /** `_requesters`, by what each one's request signal is connected to. */
    var requesters: seq<Connection>
    /** `_threads`, by the worker each one runs. */
    var threads: seq<ThreadState>
    /** The id of each worker in `_workers`. */
    const workerIds: array<u64>
    /** `_threadIndex`. */
    var threadIndex: int
    /** The requests queued for each worker and not yet taken. */
    var pending: seq<seq<InfoRequest>>
    /** The results the workers have emitted, in order. */
    var results: seq<InfoResult>
    /** How many requests have been routed. */
    ghost var routed: nat

    /**
     * Twelve requesters, workers and threads; requester i reaches worker i
     * only, thread i runs worker i; the cursor is where `routed` requests
     * starting from 0 leave it.
     */
    ghost predicate Valid()
      reads this
    {
      && workerIds.Length == Threads
      && |requesters| == Threads
      && |threads| == Threads
      && |pending| == Threads
      && (forall i :: 0 <= i < Threads ==> requesters[i] == ConnectedTo(i))
      && (forall i :: 0 <= i < Threads ==> threads[i] == Running(i))
      && threadIndex == CursorAfter(routed)
    }

    /**
     * Info(): creates the requesters, the workers and the threads, connects
     * requester i to worker i, and starts each worker on its own thread. The
     * workers start with id `initialId`.
     */
    constructor (initialId: u64)
      ensures Valid() && fresh(workerIds)
      ensures threadIndex == 0 && routed == 0
      ensures forall i :: 0 <= i < Threads ==> workerIds[i] == initialId
      ensures pending == seq(Threads, _ => []) && results == []
    {
      requesters := [];
      threads := [];
      workerIds := new u64[Threads];
      threadIndex := 0;
      pending := [];
      results := [];
      routed := 0;
      new;
      var i := 0;
      while i < Threads
        invariant 0 <= i <= Threads
        invariant threadIndex == 0 && routed == 0 && results == []
        invariant |requesters| == i && |threads| == i && |pending| == i
        invariant forall j :: 0 <= j < i ==> requesters[j] == Unconnected
        invariant forall j :: 0 <= j < i ==> threads[j] == NotStarted
        invariant forall j :: 0 <= j < i ==> pending[j] == [] && workerIds[j] == initialId
      {
        requesters := requesters + [Unconnected];
        workerIds[i] := initialId;
        threads := threads + [NotStarted];
        pending := pending + [[]];
        i := i + 1;
      }
      i := 0;
      while i < Threads
        invariant 0 <= i <= Threads
        invariant threadIndex == 0 && routed == 0 && results == []
        invariant |requesters| == Threads && |threads| == Threads && |pending| == Threads
        invariant forall j :: 0 <= j < i ==> requesters[j] == ConnectedTo(j)
        invariant forall j :: 0 <= j < Threads ==> pending[j] == [] && workerIds[j] == initialId
      {
        requesters := requesters[i := ConnectedTo(i)];
        i := i + 1;
      }
      i := 0;
      while i < Threads
        invariant 0 <= i <= Threads
        invariant threadIndex == 0 && routed == 0 && results == []
        invariant |requesters| == Threads && |threads| == Threads && |pending| == Threads
        invariant forall j :: 0 <= j < Threads ==> requesters[j] == ConnectedTo(j)
        invariant forall j :: 0 <= j < i ==> threads[j] == Running(j)
        invariant forall j :: 0 <= j < Threads ==> pending[j] == [] && workerIds[j] == initialId
      {
        threads := threads[i := Running(i)];
        i := i + 1;
      }
      assert pending == seq(Threads, _ => []);
    }

    /**
     * nextRequester: hands out the requester at the cursor and moves the
     * cursor on by one, wrapping to 0; the cursor stays in [0, 12).
     */
    method NextRequester() returns (requester: nat)
      requires Valid()
      modifies this
      ensures Valid()
      ensures requester == old(threadIndex) && requester < Threads
      ensures threadIndex == (old(threadIndex) + 1) % Threads
      ensures 0 <= threadIndex < Threads
      ensures routed == old(routed) + 1
      ensures requesters == old(requesters) && threads == old(threads)
      ensures pending == old(pending) && results == old(results)
    {
      CursorAfterIsMod(routed);
      requester := threadIndex;
      threadIndex := threadIndex + 1;
      if threadIndex >= |requesters| {
        threadIndex := 0;
      }
      routed := routed + 1;
      CursorAfterIsMod(routed);
    }

    /**
     * request: queues the request for the worker of the next requester, so
     * that the k-th request since construction waits for worker k mod 12.
     */
    method Request(request: InfoRequest)
      requires Valid()
      modifies this
      ensures Valid()
      ensures routed == old(routed) + 1
      ensures pending == old(pending)[old(routed) % Threads := old(pending)[old(routed) % Threads] + [request]]
      ensures threadIndex == (old(routed) + 1) % Threads
      ensures requesters == old(requesters) && threads == old(threads) && results == old(results)
    {
      CursorAfterIsMod(routed);
      var r := NextRequester();
      var w := requesters[r].worker;
      pending := pending[w := pending[w] + [request]];
      CursorAfterIsMod(routed);
    }

    /** setId: gives every worker the id `id`, touching nothing else. */
    method SetId(id: u64)
      requires Valid()
      modifies workerIds
      ensures Valid()
      ensures forall i :: 0 <= i < Threads ==> workerIds[i] == id
      ensures threadIndex == old(threadIndex) && pending == old(pending) && results == old(results)
    {
      for i := 0 to workerIds.Length
        invariant forall j :: 0 <= j < i ==> workerIds[j] == id
      {
        workerIds[i] := id;
      }
    }

    /**
     * Worker `w` takes its oldest queued request, if any, checks it against
     * its id at that moment and emits what InfoWorker::request emits.
     */
    method Deliver(w: nat, outcome: LoadOutcome)
      requires Valid() && w < Threads
      modifies this
      ensures Valid()
      ensures old(pending[w]) == [] ==> pending == old(pending) && results == old(results)
      ensures old(pending[w]) != [] ==>
        && pending == old(pending)[w := old(pending[w])[1..]]
        && results == old(results) + Emission(workerIds[w], old(pending[w][0]), outcome)
      ensures threadIndex == old(threadIndex) && routed == old(routed)
      ensures requesters == old(requesters) && threads == old(threads)
    {
      if pending[w] == [] {
        return;
      }
      var request := pending[w][0];
      pending := pending[w := pending[w][1..]];
      var emitted := WorkerRequest(workerIds[w], request, outcome);
      results := results + emitted;
    }
  }
}
