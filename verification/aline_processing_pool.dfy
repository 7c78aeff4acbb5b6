/** The pool of A-line processing workers.

    The frame's A-lines are split evenly among the workers, so the worker
    count is the largest divisor of the A-line count that does not exceed the
    machine's concurrency. A frame is submitted by handing one job, pointing
    at the same source and destination frames, to every worker's queue; a new
    frame is refused until the barrier shows that every worker has finished
    the previous one.

    Threads are a count, job queues are sequences, pointers are addresses,
    and the hardware concurrency is a parameter.
 */
module AlineProcessingPool {
  import opened NativeInt

  /** A job message: destination frame, source frame and apodization window.
      The barrier, interpolation plan and FFT plan of every job point at the
      pool's own members, so they are not recorded. */
  datatype Job = Job(dstFrame: int, srcFrame: int, apodWindow: int)

  /** The pool: the running flag, the barrier, one job queue per started
      worker, the number of worker threads, and the frame geometry. */
  datatype Pool = Pool(
    running: bool,
    barrier: int,
    queues: seq<seq<Job>>,
    threads: nat,
    alineSize: int,
    roiOffset: int,
    roiSize: int,
    totalAlines: int,
    numberOfWorkers: int,
    alinesPerWorker: int)

  /** Every worker thread has its own queue, and only they have one. */
  predicate QueuePerThread(p: Pool)
  {
    |p.queues| == p.threads
  }

  /** The default constructor: not running, no workers, no A-lines. The
      barrier and the geometry members `aline_size`, `roi_offset` and
      `roi_size` are never initialised, so their values are parameters. */
  function DefaultPool(barrier: int, alineSize: int, roiOffset: int, roiSize: int): (p: Pool)
    ensures !p.running && p.numberOfWorkers == 0 && p.totalAlines == 0 && p.alinesPerWorker == 0
    ensures p.queues == [] && p.threads == 0
    ensures QueuePerThread(p)
    ensures p.barrier == barrier && p.alineSize == alineSize && p.roiOffset == roiOffset && p.roiSize == roiSize
  {
    Pool(false, barrier, [], 0, alineSize, roiOffset, roiSize, 0, 0, 0)
  }

  /** `d` divides `n` and no larger count up to `limit` does. */
  ghost predicate LargestDivisorAtMost(d: int, n: int, limit: int)
  {
    && 1 <= d <= limit
    && n % d == 0
    && forall k :: d < k <= limit ==> n % k != 0
  }

  /** The worker-count loop of the constructor: start from the hardware
      concurrency and step down until the A-line count divides evenly (or one
      worker is left). */
  method ChooseWorkers(numberOfAlines: int, hardwareConcurrency: int) returns (w: int)
    requires hardwareConcurrency >= 1
    ensures LargestDivisorAtMost(w, numberOfAlines, hardwareConcurrency)
  {
    w := hardwareConcurrency;
    while CRem(numberOfAlines, w) != 0 && w > 1
      invariant 1 <= w <= hardwareConcurrency
      invariant forall k :: w < k <= hardwareConcurrency ==> numberOfAlines % k != 0
      decreases w
    {
      CRemZeroIff(numberOfAlines, w);
      w := w - 1;
    }
    CRemZeroIff(numberOfAlines, w);
  }

  /** The constructor `AlineProcessingPool(aline_size, number_of_alines,
      roi_offset, roi_size, fft_enabled)`. `fft_enabled` is ignored by the
      source; `_running` and `_barrier` are left uninitialised and are
      parameters here. */
  method NewPool(alineSize: int, numberOfAlines: int, roiOffset: int, roiSize: int, fftEnabled: bool,
                 hardwareConcurrency: int, running: bool, barrier: int) returns (p: Pool)
    requires hardwareConcurrency >= 1
    ensures LargestDivisorAtMost(p.numberOfWorkers, numberOfAlines, hardwareConcurrency)
    ensures p.alinesPerWorker * p.numberOfWorkers == p.totalAlines == numberOfAlines
    ensures p.alineSize == alineSize && p.roiOffset == roiOffset && p.roiSize == roiSize
    ensures p.queues == [] && p.threads == 0 && p.running == running && p.barrier == barrier
    ensures QueuePerThread(p)
  {
    var w := ChooseWorkers(numberOfAlines, hardwareConcurrency);
    CRemZeroIff(numberOfAlines, w);
    p := Pool(running, barrier, [], 0, alineSize, roiOffset, roiSize, numberOfAlines, w,
              CDiv(numberOfAlines, w));
  }

  /** `is_finished()`: every worker has reached the barrier. */
  predicate IsFinished(p: Pool)
  {
    p.barrier >= p.numberOfWorkers
  }

  datatype SubmitResult = Refused | Submitted

  /** `submit`: refused (returning -1) while the previous frame is still being
      processed; otherwise the barrier is reset and every queue receives one
      job for the frame. The source returns nothing on success. */
  function Submit(p: Pool, dstFrame: int, srcFrame: int, interpolationEnabled: bool, interpdk: real,
                  apodWindow: int): (r: (Pool, SubmitResult))
    ensures !IsFinished(p) <==> r.1 == Refused
    ensures !IsFinished(p) ==> r.0 == p
    ensures IsFinished(p) ==>
              && r.0.barrier == 0
              && |r.0.queues| == |p.queues|
              && (forall i :: 0 <= i < |p.queues| ==> r.0.queues[i] == p.queues[i] + [Job(dstFrame, srcFrame, apodWindow)])
              && r.0 == p.(barrier := 0, queues := r.0.queues)
    ensures QueuePerThread(p) ==> QueuePerThread(r.0)
  {
    if IsFinished(p) then
      var job := Job(dstFrame, srcFrame, apodWindow);
      (p.(barrier := 0, queues := seq(|p.queues|, i requires 0 <= i < |p.queues| => p.queues[i] + [job])), Submitted)
    else
      (p, Refused)
  }

  /** `start()`: set running and add one fresh queue and one thread per worker. */
  function Start(p: Pool): (r: Pool)
    ensures r.running
    ensures |r.queues| == |p.queues| + Max0(p.numberOfWorkers)
    ensures r.queues[..|p.queues|] == p.queues
    ensures forall i :: |p.queues| <= i < |r.queues| ==> r.queues[i] == []
    ensures r.threads == p.threads + Max0(p.numberOfWorkers)
    ensures r.barrier == p.barrier && r.numberOfWorkers == p.numberOfWorkers
    ensures QueuePerThread(p) ==> QueuePerThread(r)
  {
    p.(running := true,
       queues := p.queues + seq(Max0(p.numberOfWorkers), _ => []),
       threads := p.threads + Max0(p.numberOfWorkers))
  }

  /** `terminate()`: clear running, join the threads and drop the queues. */
  function Terminate(p: Pool): (r: Pool)
    ensures !r.running && r.threads == 0 && r.queues == []
    ensures r.numberOfWorkers == p.numberOfWorkers && r.barrier == p.barrier
    ensures QueuePerThread(r)
  {
    p.(running := false, threads := 0, queues := [])
  }

  /** Terminating a pool that was started from nothing gives back the pool
      before `start`, except that it is no longer running. */
  lemma StartThenTerminate(p: Pool)
    requires p.queues == [] && p.threads == 0
    ensures Terminate(Start(p)) == p.(running := false)
  {
  }

  /** A started pool whose barrier shows the last frame done accepts a frame and
      hands exactly one job to each of its workers. The workers shown never
      move the barrier, so nothing else makes the pool finished again: a second
      frame is refused. */
  lemma SubmitToStartedPool(p: Pool, dst: int, src: int, interp: bool, dk: real, window: int)
    requires p.queues == [] && p.numberOfWorkers >= 1 && IsFinished(p)
    ensures var (p1, r1) := Submit(Start(p), dst, src, interp, dk, window);
            && r1 == Submitted
            && |p1.queues| == p.numberOfWorkers
            && (forall i :: 0 <= i < |p1.queues| ==> p1.queues[i] == [Job(dst, src, window)])
            && Submit(p1, dst, src, interp, dk, window) == (p1, Refused)
  {
    var s := Start(p);
    assert s.queues == seq(p.numberOfWorkers, _ => []);
  }
}
