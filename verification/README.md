# fastnisdoct backend core in Dafny

This is a Dafny model of four sequential pieces of the C++ backend of the
OCTview spectral-domain OCT acquisition software, with proofs about them:

- **`CircAcqBuffer`** (`circ_acq_buffer.dfy`): the push-only acquisition ring buffer.
  - Every slot carries a cumulative "count" stamp.
  - One spare element is swapped in whenever a slot is locked out for reading.
  - Each producer or consumer operation is one pure step from a buffer value to a buffer value.
- **`FileStreamWorker`** (`file_stream_worker.dfy`): streaming frames from the ring buffer to raw files.
  - `RawWriter::writeFrame` is a chunked write, modelled as a method whose loop carries the invariants.
  - The body of `_fstream` is one step function over the loop's counters and the files written so far; `Run` folds it over what the ring buffer hands back on each iteration.
  - `_start`, `stop` and `is_streaming` are modelled as two flags.
- **`AlineProcessingPool`** (`aline_processing_pool.dfy`): how many worker threads a frame is split across, and how a frame submission is gated.
  - The worker count is the largest divisor of the A-line count not above the hardware concurrency.
  - A frame is refused until the barrier shows every worker has finished the previous one.
- **`WavenumberInterpolationPlan`** (`wavenumber_interpolation_plan.dfy`): the shape of `linspace` and the structure of the nearest-neighbour `interp_map`.
  - Floats are `real`s.
  - Only lengths, index bounds and the shape of each index pair are stated. These hold however the distance comparisons come out.

Two modules are shared:

- `NativeInt` (`native_int.dfy`) spells out C++'s truncating `/` and `%`. Dafny's own operators are Euclidean. `mod2` and the per-file frame cap depend on the C++ behaviour. The worker-count loop's divisibility test does not: `CRemZeroIff` shows a zero remainder means the same under both conventions.
- `Optional` (`optional.dfy`) stands for a NULL pointer or a value that was never initialised.

Threads, atomics and mutexes are abstracted away, so each operation is one atomic step:

- A spin that cannot end in a sequential run becomes a precondition. A stray `;` follows the second and third `while` of `lock_out_wait`, so both spins are unbounded:
  - The second (CircAcqBuffer.h:138) ends only once the slot for frame `n` has been pushed with a count of at least `n`. That is the `requires` of `LockOutWait`.
  - The third (CircAcqBuffer.h:148) ends once the slot's mutex is free. In a sequential run it always is, except between `lock_out_head` and `release_head`, which hold it (see "Left out").
- Fields the source leaves uninitialised are parameters:
  - the pool's barrier;
  - `aline_size`, `roi_offset` and `roi_size` in the pool's default constructor;
  - `_running` in the pool's main constructor;
  - the spare element's storage.
- The hardware concurrency and the buffer's count read at stream start are parameters too.

Two observations are proved about the code as written:

- **The constructor leaves the ring misaligned with `push`.** The constructor sets the cumulative count to -1 and `push` stamps a slot with the count before incrementing it. The first push after construction therefore stamps its slot -1, the value that means "never pushed". `lock_out_wait(c)` looks in slot `mod2(c, ring_size)`, and `push` only writes frame `c` into that slot when the ring is aligned:
  - After `clear` (count 0), the ring is aligned with `push`.
  - After the constructor, it is aligned with `release_head`, which increments before stamping.
  - With two or more slots the two alignments exclude each other, and each producer operation keeps whichever alignment the ring has.
  - So on a ring of two or more slots filled by pushes alone after the constructor, every frame sits one slot past where `lock_out_wait` looks for it. `lock_out_wait(c)` never hands back frame `c`: it returns a different frame in that slot, or spins forever if the slot has never been stamped with a count of at least `c`.

  See `InitialAlignment`, `AlignmentsExclusive`, `AlignmentPreserved`, `ConstructedRingNeverMatches`, `PushAfterConstruction` and `FirstPushStamp`.
- **One branch of `_fstream` is dead.** The branch that closes the file because `frames_in_current_file` reached `n_to_stream` can never be taken. The loop guard keeps `n_streamed < n_to_stream`, and a file never holds more frames than the stream has written (`CloseBranchUnreachable`).

## Model

| member | source | states |
|---|---|---|
| CircAcqBuffer.Mod2IsEuclidean | src/main/cpp/fastnisdoct/fastnisdoct/CircAcqBuffer.h:20-24 | for a positive modulus, `mod2(a, b)` is the Euclidean remainder: in `[0, b)` and congruent to `a` |
| CircAcqBuffer.NewBuffer | src/main/cpp/fastnisdoct/fastnisdoct/CircAcqBuffer.h:74-96 | `number_of_buffers` zero-filled slots, each at its own index with count -1; the spare has index and count -1; cumulative count -1, head 0, nothing locked; the buffer invariant holds when the ring is non-empty |
| CircAcqBuffer.AtPeriodic | src/main/cpp/fastnisdoct/fastnisdoct/CircAcqBuffer.h:72 | `operator[]` is periodic in the ring size, for negative indices too, and is plain slot access for an index in range |
| CircAcqBuffer.LockOut | src/main/cpp/fastnisdoct/fastnisdoct/CircAcqBuffer.h:48-59 | `_lock_out(n)`: the spare and slot `n` trade places, the element swapped in takes index `n`, `locked == n`, the ring length and every other slot are unchanged, and the buffer invariant is kept |
| CircAcqBuffer.LockOutPermutes | src/main/cpp/fastnisdoct/fastnisdoct/CircAcqBuffer.h:48-59 | a lock-out preserves the multiset of (storage, count) held by the ring plus the spare: no frame is lost or duplicated |
| CircAcqBuffer.LockOutWait | src/main/cpp/fastnisdoct/fastnisdoct/CircAcqBuffer.h:121-161 | while another element is locked out: returns -1 with a NULL frame and changes nothing; otherwise it locks out slot `mod2(n, ring_size)` and returns that slot's storage and count, a count `>= n`, `!= -1` and not past the cumulative count |
| CircAcqBuffer.Release | src/main/cpp/fastnisdoct/fastnisdoct/CircAcqBuffer.h:163-166 | `locked` becomes -1; ring, spare, count and head are unchanged |
| CircAcqBuffer.Push | src/main/cpp/fastnisdoct/fastnisdoct/CircAcqBuffer.h:168-178 | returns the old head; writes the frame into the old head slot stamped with the count before the increment; head becomes `mod2(head + 1, ring_size)`; the count rises by one; every other slot, the spare and `locked` are unchanged; the invariant is kept |
| CircAcqBuffer.LockOutHead | src/main/cpp/fastnisdoct/fastnisdoct/CircAcqBuffer.h:182-187 | hands back the head slot's index (in range) and storage, the same storage `operator[]` gives for the head |
| CircAcqBuffer.ReleaseHead | src/main/cpp/fastnisdoct/fastnisdoct/CircAcqBuffer.h:189-198 | raises the count first; the head slot holds the frame the producer wrote through the pointer, stamped with the new count; head advances modulo the ring size; returns the old head; nothing else changes |
| CircAcqBuffer.ReleaseHeadThenLockOut | src/main/cpp/fastnisdoct/fastnisdoct/CircAcqBuffer.h:121-198 | on a ring aligned with `release_head`, a frame written through `lock_out_head` and released can be locked out by the new count, and `lock_out_wait` hands back exactly that frame |
| CircAcqBuffer.Clear | src/main/cpp/fastnisdoct/fastnisdoct/CircAcqBuffer.h:205-220 | every slot is zero-filled at its own index with count -1; count 0, head 0, nothing locked; the spare's index and count are -1 and its storage is kept |
| CircAcqBuffer.ClearIdempotent | src/main/cpp/fastnisdoct/fastnisdoct/CircAcqBuffer.h:205-220 | clearing twice is the same as clearing once |
| CircAcqBuffer.AlignmentsExclusive | src/main/cpp/fastnisdoct/fastnisdoct/CircAcqBuffer.h:168-198 | with two or more slots, a ring is never aligned with both `push` and `release_head` |
| CircAcqBuffer.InitialAlignment | src/main/cpp/fastnisdoct/fastnisdoct/CircAcqBuffer.h:95 | after `clear`, the slot `lock_out_wait(c)` reads for frame `c` is the one `push` writes it to; after the constructor, the same holds for `release_head`; with two or more slots, neither start is aligned the other way |
| CircAcqBuffer.AlignmentPreserved | src/main/cpp/fastnisdoct/fastnisdoct/CircAcqBuffer.h:168-198 | `push` and `release_head` each keep whichever alignment the ring has, push-alignment or release-head-alignment |
| CircAcqBuffer.PushKeepsShifted | src/main/cpp/fastnisdoct/fastnisdoct/CircAcqBuffer.h:168-178 | on a ring aligned with `release_head`, `push` keeps every stamped frame `c` in slot `mod2(c + 1)`, one past where `lock_out_wait(c)` looks |
| CircAcqBuffer.ShiftedNeverMatches | src/main/cpp/fastnisdoct/fastnisdoct/CircAcqBuffer.h:136-161 | with two or more slots, on such a shifted ring `lock_out_wait(c)` returns a count other than `c` |
| CircAcqBuffer.PushAllShifted | src/main/cpp/fastnisdoct/fastnisdoct/CircAcqBuffer.h:168-178 | any number of pushes keep a ring aligned with `release_head` and shifted |
| CircAcqBuffer.ConstructedRingNeverMatches | src/main/cpp/fastnisdoct/fastnisdoct/CircAcqBuffer.h:74-178 | after the constructor, a ring of two or more slots filled by pushes alone never hands back the frame `lock_out_wait` asks for |
| CircAcqBuffer.PushThenLockOut | src/main/cpp/fastnisdoct/fastnisdoct/CircAcqBuffer.h:136-178 | on a push-aligned ring, a frame just pushed can be locked out by its count, and `lock_out_wait` hands back exactly that frame and count |
| CircAcqBuffer.PushAfterConstruction | src/main/cpp/fastnisdoct/fastnisdoct/CircAcqBuffer.h:136-138 | after construction, two pushes into a two-slot ring leave frame 0 in slot 1 while slot 0, where `lock_out_wait(0)` looks, is stamped -1 |
| CircAcqBuffer.FirstPushStamp | src/main/cpp/fastnisdoct/fastnisdoct/CircAcqBuffer.h:172-176 | the first push after construction stamps -1; the first push after `clear` stamps 0 |
| CircAcqBuffer.PushAll | src/main/cpp/fastnisdoct/fastnisdoct/CircAcqBuffer.h:168-178 | `k` pushes raise the count by `k` and move head to `mod2(head + k, ring_size)`, leaving the spare and `locked` alone and keeping the invariant |
| CircAcqBuffer.LockedFrameSurvivesPushes | src/main/cpp/fastnisdoct/fastnisdoct/CircAcqBuffer.h:90-94 | a frame locked out by `lock_out_wait` stays intact, with its count, through any number of later pushes until release |
| FileStreamWorker.Open | src/main/cpp/fastnisdoct/fastnisdoct/FileStreamWorker.h:54-61 | opening a closed writer creates the file empty and resets `total_bytes_written` to 0, so the counter agrees with the file's length |
| FileStreamWorker.Close | src/main/cpp/fastnisdoct/fastnisdoct/FileStreamWorker.h:106-110 | closing leaves the file's contents and byte counter as they were, so it keeps their agreement |
| FileStreamWorker.WriteFrame | src/main/cpp/fastnisdoct/fastnisdoct/FileStreamWorker.h:68-104 | the chunks are non-empty, at most `WRITE_CHUNK_SIZE` bytes, all full except the last, and concatenate to exactly the frame's first `frame_size` bytes; `total_bytes_written` grows by `frame_size` (0 for a non-positive size); chunks reach the file only while it is open, so on an open file the counter keeps agreeing with the file's length |
| FileStreamWorker.ConcatJoin | src/main/cpp/fastnisdoct/fastnisdoct/FileStreamWorker.h:68-104 | the bytes of two chunk lists written one after the other are the first list's bytes followed by the second's |
| FileStreamWorker.WriteFrames | src/main/cpp/fastnisdoct/fastnisdoct/FileStreamWorker.h:54-104 | opening a file on a closed writer and writing frames to it leaves the frames' first `frame_size` bytes in order in the file and a counter of a whole number of frames that agrees with the file's length |
| FileStreamWorker.Pad4RoundTrip | src/main/cpp/fastnisdoct/fastnisdoct/FileStreamWorker.h:185 | reading the `%04d` field back as a decimal number gives the rollover number that was printed |
| FileStreamWorker.Pad4Width | src/main/cpp/fastnisdoct/fastnisdoct/FileStreamWorker.h:185 | `%04d` prints exactly four digits for every value below 10000 |
| FileStreamWorker.FileNameFormat | src/main/cpp/fastnisdoct/fastnisdoct/FileStreamWorker.h:179-186 | a later file is named base, `_`, a digit field that reads back as the rollover number (four wide below 10000), `.bin` |
| FileStreamWorker.FileNameInjective | src/main/cpp/fastnisdoct/fastnisdoct/FileStreamWorker.h:179-186 | different rollover numbers give different file names, so no file of one stream overwrites another |
| FileStreamWorker.MaxFramesPerFile | src/main/cpp/fastnisdoct/fastnisdoct/FileStreamWorker.h:140-144 | the per-file frame cap is at least 1; with a budget of at least one frame it is the largest number of frames that fits in the budget; with less it is 1 |
| FileStreamWorker.InitialStream | src/main/cpp/fastnisdoct/fastnisdoct/FileStreamWorker.h:151-165 | nothing written and no file open; the first request is `get_count() + 5` without a start index and the start index otherwise; the loop invariant and the rollover rule hold |
| FileStreamWorker.OpenFile | src/main/cpp/fastnisdoct/fastnisdoct/FileStreamWorker.h:174-188 | the requested frame with no file open only opens the file named for the current rollover number, resets the per-file count and advances the request; no frame is written |
| FileStreamWorker.AppendFrame | src/main/cpp/fastnisdoct/fastnisdoct/FileStreamWorker.h:189-214 | the requested frame with a file open is appended to that file only; `n_streamed` and the request advance by 1; at the cap the file is closed and the rollover number advances; the loop invariant is kept |
| FileStreamWorker.DropFrame | src/main/cpp/fastnisdoct/fastnisdoct/FileStreamWorker.h:216-221 | a later frame than requested writes nothing and sets the next request to `get_count() + 1` |
| FileStreamWorker.Step | src/main/cpp/fastnisdoct/fastnisdoct/FileStreamWorker.h:168-223 | one iteration dispatches to open, append or drop by whether the frame obtained is the one requested and a file is open; it keeps the loop invariant, streams at most one frame and never alters a closed file |
| FileStreamWorker.CloseBranchUnreachable | src/main/cpp/fastnisdoct/fastnisdoct/FileStreamWorker.h:192-201 | while the loop runs, the frame-count test that guards appending always holds |
| FileStreamWorker.Finish | src/main/cpp/fastnisdoct/fastnisdoct/FileStreamWorker.h:224-229 | when the loop ends an open file is closed; the files, the counters, the request and the configuration are unchanged |
| FileStreamWorker.Run | src/main/cpp/fastnisdoct/fastnisdoct/FileStreamWorker.h:167-231 | the whole loop: every file is named by its rollover number and holds at most the cap; every file but the last holds exactly the cap, because a file is closed only when it reaches it; the frames written are strictly increasing and counted by `n_streamed`, which never exceeds `n_to_stream` for a bounded stream; the last file is closed; closed files are never touched again; a loop whose guard fails does nothing but close |
| FileStreamWorker.StepKeepsFull | src/main/cpp/fastnisdoct/fastnisdoct/FileStreamWorker.h:168-223 | one iteration closes a file only when it has reached `max_frames_per_file` frames, so every closed file stays exactly full |
| FileStreamWorker.FinishRollsOver | src/main/cpp/fastnisdoct/fastnisdoct/FileStreamWorker.h:224-229 | closing the open file at the end leaves every file but the last exactly full |
| FileStreamWorker.FilesDistinct | src/main/cpp/fastnisdoct/fastnisdoct/FileStreamWorker.h:179-186 | the files a stream writes have pairwise distinct names |
| FileStreamWorker.NewWorker | src/main/cpp/fastnisdoct/fastnisdoct/FileStreamWorker.h:122-123 | a new worker is not streaming |
| FileStreamWorker.Start | src/main/cpp/fastnisdoct/fastnisdoct/FileStreamWorker.h:233-263 | refused and unchanged exactly while `is_streaming()` (running and not finished); otherwise streaming with the request recorded and the frame size converted to bytes (`frame_size * sizeof(T)`) |
| FileStreamWorker.Stop | src/main/cpp/fastnisdoct/fastnisdoct/FileStreamWorker.h:311-318 | afterwards the worker is not streaming; a worker that is not running is unchanged |
| FileStreamWorker.ThreadExits | src/main/cpp/fastnisdoct/fastnisdoct/FileStreamWorker.h:230 | the thread's exit sets finished, so the worker stops streaming |
| FileStreamWorker.StreamFor | src/main/cpp/fastnisdoct/fastnisdoct/FileStreamWorker.h:138-165 | the thread's loop uses the recorded request's base file name, frame size and frame bound, with the frame cap derived from the byte budget. It first requests the recorded start index, or `get_count() + 5` without one. No file is open or written, nothing is streamed, and the loop invariant and rollover rule hold |
| FileStreamWorker.StartWhileStreaming | src/main/cpp/fastnisdoct/fastnisdoct/FileStreamWorker.h:244-270 | a second start is refused and changes nothing; after a stop a start is accepted again |
| AlineProcessingPool.DefaultPool | src/main/cpp/fastnisdoct/fastnisdoct/AlineProcessingPool.h:78-84 | not running, 0 workers, 0 A-lines, 0 A-lines per worker, no queues or threads, so one queue per thread; the barrier and geometry it leaves uninitialised are whatever values they held |
| AlineProcessingPool.ChooseWorkers | src/main/cpp/fastnisdoct/fastnisdoct/AlineProcessingPool.h:103-109 | the count-down loop ends at the largest divisor of the A-line count that is between 1 and the hardware concurrency |
| AlineProcessingPool.NewPool | src/main/cpp/fastnisdoct/fastnisdoct/AlineProcessingPool.h:86-112 | the worker count is that largest divisor; `alines_per_worker * number_of_workers == total_alines == number_of_alines`; the geometry is stored as given; no queues or threads yet |
| AlineProcessingPool.Submit | src/main/cpp/fastnisdoct/fastnisdoct/AlineProcessingPool.h:115-157 | refused, with nothing changed, exactly when `is_finished()` fails (barrier below the worker count); otherwise the barrier is reset to 0 and every queue receives exactly one job carrying the same destination, source and window; nothing else changes, so there is still one queue per thread |
| AlineProcessingPool.Start | src/main/cpp/fastnisdoct/fastnisdoct/AlineProcessingPool.h:171-180 | running is set; exactly `number_of_workers` new empty queues and threads are added after the existing ones, keeping one queue per thread |
| AlineProcessingPool.Terminate | src/main/cpp/fastnisdoct/fastnisdoct/AlineProcessingPool.h:183-197 | running is cleared and the threads and queues are gone, leaving one queue per thread (none) |
| AlineProcessingPool.StartThenTerminate | src/main/cpp/fastnisdoct/fastnisdoct/AlineProcessingPool.h:171-197 | terminating a pool started with no queues or threads gives back the pool as it was before `start`, except not running |
| AlineProcessingPool.SubmitToStartedPool | src/main/cpp/fastnisdoct/fastnisdoct/AlineProcessingPool.h:123-180 | a freshly started, finished pool accepts a frame and hands exactly one job to each worker; a second frame before the barrier moves is refused |
| WavenumberInterpolationPlan.Linspace | src/main/cpp/fastnisdoct/fastnisdoct/WavenumberInterpolationPlan.h:7-27 | empty for 0 points, `[start]` for 1; for `num >= 2`, `num` points from exactly `start` to exactly `end`; `[end]` for a negative count |
| WavenumberInterpolationPlan.FirstMin | src/main/cpp/fastnisdoct/fastnisdoct/WavenumberInterpolationPlan.h:69 | `std::min_element`: an index in range whose element is no larger than any other and strictly smaller than every earlier one |
| WavenumberInterpolationPlan.MaxValue | src/main/cpp/fastnisdoct/fastnisdoct/WavenumberInterpolationPlan.h:51 | the value `std::max_element` points at: an element of the vector that no element exceeds |
| WavenumberInterpolationPlan.NeighbourPair | src/main/cpp/fastnisdoct/fastnisdoct/WavenumberInterpolationPlan.h:70-89 | the left/right pair is in `[0, aline_size-1]`, ordered, differs by 0 or 1, differs by 0 exactly when the nearest index is at either end, and contains the nearest index |
| WavenumberInterpolationPlan.NewPlan | src/main/cpp/fastnisdoct/fastnisdoct/WavenumberInterpolationPlan.h:43-91 | both grids have `aline_size` points and the wavenumber grid spans every wavelength sample; `interp_map` has two rows of `aline_size` entries; for each point the pair is in range, ordered, adjacent or equal, equal exactly when the first nearest sample is at an end of the grid, and contains that sample |

## Left out

- `lock_out_nowait`: not modelled. Its `try_lock` test is inverted (CircAcqBuffer.h:107). Run sequentially, the first call on a slot takes that slot's mutex, returns -1 and leaves the mutex held. A second call on the same slot then calls `try_lock` on a mutex the thread already owns, which is undefined behaviour for `std::mutex`.
- The default `CircAcqBuffer()` constructor: not modelled. It sets a ring size of 0 and allocates no slots, locks or spare element. On such a buffer, `operator[]` divides by zero in `mod2`. `lock_out_wait` first reads the uninitialised `locked`: it divides by zero in `mod2` only if that reads -1, and otherwise times out and returns -1. `push` and `lock_out_head` index the unallocated lock array, and `clear` writes through the unallocated spare. Only `release` and `get_count` touch none of these.
- `get_count()`: not a separate member. It reads the `count` field, and `DropFrame`, `InitialStream` and `StreamFor` take its value as a parameter.
- Threads, atomics, per-slot mutexes and the `MAX_SPINLOCK` timeouts: each operation is one sequential step. The timeout branches after the second and third spins of `lock_out_wait` are unreachable because of the stray `;`.
- `memset`/`memcpy` byte layout: frames are sequences of `T`. The ring's zero fill is a value `zero` given by the caller.
- CircAcqBuffer.LockOutHead: the slot mutex it holds until `release_head` is not modelled. In the source, a `lock_out_wait` or `push` on the head slot between the two calls waits for that mutex; the model lets it proceed. The frame written through the returned pointer is the `data` argument of `ReleaseHead`.
- CircAcqBuffer.LockOutWait: requires that the slot has been pushed, because the source would spin forever otherwise. The spin itself is not modelled.
- FileStreamWorker.Run: each iteration's `lock_out_wait` result is given as an offset past the request, and the later `get_count()` as an offset past that. Both are non-negative, which is what `CircAcqBuffer.LockOutWait` guarantees. The -1 that `lock_out_wait` returns while another frame is locked out cannot occur, because the loop releases every frame it obtains. The worker being stopped is the end of the event sequence.
- FileStreamWorker.Open: requires a closed writer. On an open `std::ofstream`, `open` fails: the old file stays open with its bytes, later writes fail, and `total_bytes_written` is still reset to 0. The stream only opens a file when `is_open()` is false (FileStreamWorker.h:175), so that case is not modelled. `WriteFrames` has the same requirement.
- FileStreamWorker.Stop: `stop` joins the thread, and the thread can be stuck forever in the unbounded spin of `lock_out_wait` (CircAcqBuffer.h:138), which never reads `_running`. The model's `Stop` always returns; it states the state after a join that returns.
- FileStreamWorker.MaxFramesPerFile: requires a non-zero frame size. `_start` accepts a frame size of 0, and the thread then divides by zero at FileStreamWorker.h:140; the model does not cover that run.
- The GB-to-bytes float conversion at FileStreamWorker.h:140: the per-file budget is an integer number of bytes.
- The cap's conversion to `int` and 32-bit wrap-around of counters: not modelled. Integers are unbounded.
- File system errors: `open` always succeeds and writes always land. Error printing, `QueryPerformanceCounter` timing and `printf` logging are left out.
- The virtual `Writer` base class: not modelled. The stream always uses a `RawWriter`.
- The `MAX_PATH` file name buffer: names are unbounded strings.
- The `FileStreamType` argument: ignored by the source and not modelled.
- The three public `start` overloads: they only forward to `_start` with -1 for the missing start index and frame bound, so `Start` models `_start` directly.
- The return values of `_start` and `submit` on success: the source has no `return` there. The model reports `Started`/`Submitted` without a value.
- `submit`'s choice of interpolation plan: not modelled. It compares `interpdk` with a member the plan constructor never sets, and the jobs always point at the pool's own plan and FFT plan.
- The pool's job queue capacity of 32 and its enqueue behaviour: queues are unbounded sequences. The single-producer queue implementation is not part of this model.
- `std::thread::hardware_concurrency()`: a parameter of at least 1. A value of 0 would divide by zero in the worker-count loop.
- The worker thread body `aline_processing_worker`, `interpdk_execute`, apodization and the FFT: float processing, not modelled.
- WavenumberInterpolationPlan.Linspace: states only the shape. The interior float values and the float conversion of the point count are not modelled.
- WavenumberInterpolationPlan.Recip: `1 / 0` is infinite as a float but is modelled as 0, because a real has no infinity. NaN does not exist for reals, so the last comparison branch of the neighbour search always applies.
- WavenumberInterpolationPlan.NewPlan: requires `aline_size >= 2`. With 0 points the source dereferences the minimum of an empty vector, and with 1 point it reads a second grid element.
- The Python controller, the Qt user interface and the NI hardware wrappers: not part of this model.
