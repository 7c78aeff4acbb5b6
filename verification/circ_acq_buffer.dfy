/** The push-only acquisition ring buffer of the backend.

    Every slot holds a frame, its position in the ring and a "count" stamp
    recording which push filled it; a cumulative count records how many
    pushes have happened. One spare element lives outside the ring: locking a
    slot out for reading swaps the spare in, so the producer keeps writing
    into the ring while the consumer owns the locked-out frame.

    The source runs producer and consumer on two threads guarded by per-slot
    mutexes; here each operation is one sequential step from a buffer value to
    a buffer value. Spins that cannot terminate sequentially are stated as
    preconditions.
 */
module CircAcqBuffer {
  import opened NativeInt
  import opened Optional

  /** `mod2(a, b)`: C++'s `a % b`, moved into `[0, b)` when negative. */
  function Mod2(a: int, b: int): int
    requires b != 0
  {
    var r := CRem(a, b);
    if r < 0 then r + b else r
  }

  /** For a positive modulus `mod2` is the Euclidean remainder: it lies in
      `[0, b)` and is congruent to `a`. */
  lemma Mod2IsEuclidean(a: int, b: int)
    requires b > 0
    ensures Mod2(a, b) == a % b
    ensures 0 <= Mod2(a, b) < b
  {
    if a < 0 {
      var t, s := (-a) / b, (-a) % b;
      assert -a == t * b + s;
      if s == 0 {
        EuclidUnique(a, b, -t, 0);
      } else {
        EuclidUnique(a, b, -t - 1, b - s);
      }
    }
  }

  /** `mod2` with a positive modulus stays in `[0, b)`. */
  lemma Mod2Range(a: int, b: int)
    requires b > 0
    ensures 0 <= Mod2(a, b) < b
  {
    Mod2IsEuclidean(a, b);
  }

  /** A position already in range is its own residue. */
  lemma Mod2Id(a: int, b: int)
    requires 0 <= a < b
    ensures Mod2(a, b) == a
  {
    EuclidUnique(a, b, 0, a);
  }

  /** Stepping a position that is already in range wraps only at the end. */
  lemma Mod2Next(h: int, b: int)
    requires 0 <= h < b
    ensures Mod2(h + 1, b) == if h + 1 == b then 0 else h + 1
  {
    if h + 1 < b {
      Mod2Id(h + 1, b);
    } else {
      EuclidUnique(b, b, 1, 0);
    }
  }

  lemma EuclidAdd(a: int, k: int, b: int)
    requires b > 0
    ensures (a % b + k) % b == (a + k) % b
  {
    var q, q2 := a / b, (a % b + k) / b;
    var r2 := (a % b + k) % b;
    assert a == q * b + a % b;
    assert a % b + k == q2 * b + r2;
    assert (q + q2) * b == q * b + q2 * b;
    EuclidUnique(a + k, b, q + q2, r2);
  }

  /** `mod2` is periodic in its modulus. */
  lemma Mod2Shift(a: int, b: int)
    requires b > 0
    ensures Mod2(a + b, b) == Mod2(a, b)
  {
    Mod2IsEuclidean(a, b);
    Mod2IsEuclidean(a + b, b);
    var q := a / b;
    assert a == q * b + a % b;
    assert (q + 1) * b == q * b + b;
    EuclidUnique(a + b, b, q + 1, a % b);
  }

  /** Adding after reducing is the same as reducing after adding. */
  lemma Mod2Add(a: int, k: int, b: int)
    requires b > 0
    ensures Mod2(Mod2(a, b) + k, b) == Mod2(a + k, b)
  {
    Mod2IsEuclidean(a, b);
    Mod2IsEuclidean(a + k, b);
    Mod2IsEuclidean(Mod2(a, b) + k, b);
    EuclidAdd(a, k, b);
  }

  /** One `CircAcqElement`: the frame storage, its position in the ring and the
      count of the push that filled it (-1 when nothing has been pushed). */
  datatype Element<T> = Element(arr: seq<T>, index: int, count: int)

  /** The buffer's state: the ring, the spare `locked_out_buffer`, the frame
      size in samples, the cumulative count, the head (next slot to be
      written) and `locked`, the slot currently locked out (-1 for none). */
  datatype Buffer<T> = Buffer(
    ring: seq<Element<T>>,
    spare: Element<T>,
    elementSize: nat,
    count: int,
    head: int,
    locked: int)

  /** The invariant every operation keeps: a non-empty ring, head and `locked`
      in range, every slot records its own position, all storage has the frame
      size, and no stamp is ahead of the cumulative count. */
  ghost predicate Valid<T>(b: Buffer<T>)
  {
    && |b.ring| > 0
    && 0 <= b.head < |b.ring|
    && (b.locked == -1 || 0 <= b.locked < |b.ring|)
    && |b.spare.arr| == b.elementSize
    && b.spare.count <= b.count
    && (forall i :: 0 <= i < |b.ring| ==> b.ring[i].index == i)
    && (forall i :: 0 <= i < |b.ring| ==> |b.ring[i].arr| == b.elementSize)
    && (forall i :: 0 <= i < |b.ring| ==> b.ring[i].count <= b.count)
  }

  function Zeros<T>(n: nat, zero: T): (r: seq<T>)
    ensures |r| == n && forall i :: 0 <= i < n ==> r[i] == zero
  {
    seq(n, _ => zero)
  }

  /** The constructor `CircAcqBuffer(number_of_buffers, frame_size)`. Every slot
      starts zero-filled at its own position with count -1; the spare's storage
      is allocated but not initialised, so its contents are a parameter. */
  function NewBuffer<T>(numberOfBuffers: nat, frameSize: nat, zero: T, spareArr: seq<T>): (b: Buffer<T>)
    requires |spareArr| == frameSize
    ensures |b.ring| == numberOfBuffers && b.elementSize == frameSize
    ensures forall i :: 0 <= i < numberOfBuffers ==>
              b.ring[i].index == i && b.ring[i].count == -1 && b.ring[i].arr == Zeros(frameSize, zero)
    ensures b.spare.index == -1 && b.spare.count == -1
    ensures b.count == -1 && b.head == 0 && b.locked == -1
    ensures numberOfBuffers > 0 ==> Valid(b)
  {
    Buffer(seq(numberOfBuffers, i => Element(Zeros(frameSize, zero), i, -1)),
           Element(spareArr, -1, -1), frameSize, -1, 0, -1)
  }

  /** `operator[]`: the storage of slot `mod2(i, ring_size)`. */
  function At<T>(b: Buffer<T>, i: int): seq<T>
    requires |b.ring| > 0
  {
    b.ring[Mod2(i, |b.ring|)].arr
  }

  /** Indexing is periodic in the ring size, for negative indices too. */
  lemma AtPeriodic<T>(b: Buffer<T>, i: int)
    requires |b.ring| > 0
    ensures At(b, i + |b.ring|) == At(b, i) && At(b, i - |b.ring|) == At(b, i)
    ensures 0 <= i < |b.ring| ==> At(b, i) == b.ring[i].arr
  {
    var n := |b.ring|;
    Mod2Shift(i, n);
    Mod2Shift(i - n, n);
    if 0 <= i < n {
      Mod2Id(i, n);
    }
  }

  /** `_lock_out(n)`: record `n` as locked and swap the spare with slot `n`; the
      element swapped in takes position `n`. */
  function LockOut<T>(b: Buffer<T>, n: int): (r: Buffer<T>)
    requires 0 <= n < |b.ring|
    ensures |r.ring| == |b.ring| && r.locked == n
    ensures r.spare == b.ring[n]
    ensures r.ring[n].index == n
    ensures r.ring[n].arr == b.spare.arr && r.ring[n].count == b.spare.count
    ensures forall i :: 0 <= i < |b.ring| && i != n ==> r.ring[i] == b.ring[i]
    ensures r.count == b.count && r.head == b.head && r.elementSize == b.elementSize
    ensures Valid(b) ==> Valid(r)
  {
    b.(ring := b.ring[n := b.spare.(index := n)], spare := b.ring[n], locked := n)
  }

  /** What a piece of storage holds, irrespective of where it sits. */
  function Payload<T>(e: Element<T>): (seq<T>, int)
  {
    (e.arr, e.count)
  }

  function Payloads<T>(s: seq<Element<T>>): (r: seq<(seq<T>, int)>)
    ensures |r| == |s| && forall i :: 0 <= i < |s| ==> r[i] == Payload(s[i])
  {
    seq(|s|, i requires 0 <= i < |s| => Payload(s[i]))
  }

  /** All storage the buffer owns: the ring's plus the spare's. */
  function Storage<T(==)>(b: Buffer<T>): multiset<(seq<T>, int)>
  {
    multiset(Payloads(b.ring)) + multiset{Payload(b.spare)}
  }

  /** A lock-out is a permutation: no frame is lost or duplicated, only the
      spare and slot `n` trade places, and the invariant is kept. */
  lemma LockOutPermutes<T>(b: Buffer<T>, n: int)
    requires 0 <= n < |b.ring|
    ensures Storage(LockOut(b, n)) == Storage(b)
  {
    var r := LockOut(b, n);
    assert Payloads(r.ring) == Payloads(b.ring)[n := Payload(b.spare)];
  }

  /** A slot the consumer may take frame `n` from: it has been pushed (stamp not
      -1) and is not older than `n`. The source spins until this holds. */
  predicate Pushed<T>(b: Buffer<T>, n: int)
    requires |b.ring| > 0
  {
    var c := b.ring[Mod2(n, |b.ring|)].count;
    n <= c && c != -1
  }

  /** The result of `lock_out_wait`: the buffer afterwards, the frame handed
      back through `buffer` (`None` for NULL) and the returned count. */
  datatype Locked<T> = Locked(buf: Buffer<T>, frame: Option<seq<T>>, got: int)

  /** `lock_out_wait(n, &buffer)`. While another element is locked out the
      first spin times out and the call returns -1 with a NULL frame. Otherwise
      the slot that holds or held frame `n` is locked out and its count is
      returned. The second and third spins of the source cannot terminate
      unless the slot has been pushed, which is therefore required. */
  function LockOutWait<T>(b: Buffer<T>, n: int): (r: Locked<T>)
    requires Valid(b)
    requires b.locked == -1 ==> Pushed(b, n)
    ensures b.locked != -1 ==> r == Locked(b, None, -1)
    ensures b.locked == -1 ==>
              var slot := Mod2(n, |b.ring|);
              && 0 <= slot < |b.ring|
              && r.buf == LockOut(b, slot)
              && r.got == b.ring[slot].count
              && r.frame == Some(b.ring[slot].arr)
    ensures b.locked == -1 ==> n <= r.got <= b.count && r.got != -1
    ensures Valid(r.buf)
  {
    if b.locked != -1 then
      Locked(b, None, -1)
    else
      var slot := Mod2(n, |b.ring|);
      Mod2Range(n, |b.ring|);
      var r := LockOut(b, slot);
      Locked(r, Some(r.spare.arr), r.spare.count)
  }

  /** `release()`: nothing is locked out any more; the storage stays where the
      lock-out put it. */
  function Release<T>(b: Buffer<T>): (r: Buffer<T>)
    ensures r.locked == -1
    ensures r.ring == b.ring && r.spare == b.spare && r.count == b.count && r.head == b.head
    ensures Valid(b) ==> Valid(r)
  {
    b.(locked := -1)
  }

  /** `push(src)`: copy a frame into the head slot, stamp it with the count
      before the increment, advance the head modulo the ring size, add one to
      the cumulative count and return the old head. */
  function Push<T>(b: Buffer<T>, src: seq<T>): (r: (Buffer<T>, int))
    requires Valid(b)
    requires |src| >= b.elementSize
    ensures Valid(r.0)
    ensures r.1 == b.head
    ensures r.0.head == Mod2(b.head + 1, |b.ring|)
    ensures r.0.count == b.count + 1
    ensures |r.0.ring| == |b.ring| && r.0.spare == b.spare && r.0.locked == b.locked
    ensures r.0.ring[b.head].arr == src[..b.elementSize] && r.0.ring[b.head].count == b.count
    ensures forall i :: 0 <= i < |b.ring| && i != b.head ==> r.0.ring[i] == b.ring[i]
  {
    Mod2Next(b.head, |b.ring|);
    var h := b.head;
    var ring := b.ring[h := b.ring[h].(arr := src[..b.elementSize], count := b.count)];
    (b.(ring := ring, head := Mod2(h + 1, |b.ring|), count := b.count + 1), h)
  }

  /** `lock_out_head()`: the producer takes the head slot to write into it
      directly; it hands back that slot's index and storage. What the producer
      then writes through the returned pointer is the frame it hands to
      `ReleaseHead`. */
  function LockOutHead<T>(b: Buffer<T>): (r: (int, seq<T>))
    requires Valid(b)
    ensures 0 <= r.0 < |b.ring| && r.0 == b.head
    ensures r.1 == At(b, b.head)
  {
    AtPeriodic(b, b.head);
    (b.head, b.ring[b.head].arr)
  }

  /** `release_head()`: the counterpart of `lock_out_head`. The head slot now
      holds `data`, the frame the producer wrote through the pointer it got.
      Unlike `push` it raises the count first and stamps the slot with the new
      value. */
  function ReleaseHead<T>(b: Buffer<T>, data: seq<T>): (r: (Buffer<T>, int))
    requires Valid(b)
    requires |data| == b.elementSize
    ensures Valid(r.0)
    ensures r.1 == b.head
    ensures r.0.head == Mod2(b.head + 1, |b.ring|)
    ensures r.0.count == b.count + 1
    ensures |r.0.ring| == |b.ring| && r.0.spare == b.spare && r.0.locked == b.locked
    ensures r.0.ring[b.head].count == r.0.count && r.0.ring[b.head].arr == data
    ensures forall i :: 0 <= i < |b.ring| && i != b.head ==> r.0.ring[i] == b.ring[i]
  {
    Mod2Next(b.head, |b.ring|);
    var h := b.head;
    var c := b.count + 1;
    (b.(ring := b.ring[h := b.ring[h].(arr := data, count := c)], head := Mod2(h + 1, |b.ring|), count := c), h)
  }

  /** `clear()`: every slot back at its own position, zero-filled and marked as
      never pushed; count and head reset to 0, nothing locked, the spare marked
      as holding no frame (its storage is left as it is). */
  function Clear<T>(b: Buffer<T>, zero: T): (r: Buffer<T>)
    ensures |r.ring| == |b.ring| && r.elementSize == b.elementSize
    ensures forall i :: 0 <= i < |r.ring| ==>
              r.ring[i].index == i && r.ring[i].count == -1 && r.ring[i].arr == Zeros(b.elementSize, zero)
    ensures r.count == 0 && r.head == 0 && r.locked == -1
    ensures r.spare == b.spare.(index := -1, count := -1)
    ensures Valid(b) ==> Valid(r)
  {
    b.(ring := seq(|b.ring|, i => Element(Zeros(b.elementSize, zero), i, -1)),
       count := 0, head := 0, locked := -1, spare := b.spare.(index := -1, count := -1))
  }

  /** Clearing twice is clearing once. */
  lemma ClearIdempotent<T>(b: Buffer<T>, zero: T)
    ensures Clear(Clear(b, zero), zero) == Clear(b, zero)
  {
  }

  /** The slot `lock_out_wait(c)` looks in for frame `c` is the slot `push`
      writes frame `c` into. */
  ghost predicate PushAligned<T>(b: Buffer<T>)
  {
    |b.ring| > 0 && Mod2(b.count, |b.ring|) == b.head
  }

  /** The slot `lock_out_wait(c)` looks in for frame `c` is the slot
      `release_head` stamps with `c`. */
  ghost predicate ReleaseHeadAligned<T>(b: Buffer<T>)
  {
    |b.ring| > 0 && Mod2(b.count + 1, |b.ring|) == b.head
  }

  /** With two or more slots a ring cannot be aligned both ways. */
  lemma AlignmentsExclusive<T>(b: Buffer<T>)
    requires |b.ring| >= 2
    ensures !(PushAligned(b) && ReleaseHeadAligned(b))
  {
    var n := |b.ring|;
    Mod2Range(b.count, n);
    Mod2Add(b.count, 1, n);
    Mod2Next(Mod2(b.count, n), n);
  }

  /** `clear` aligns the ring with `push`; the constructor (count -1, head 0)
      aligns it with `release_head` instead, and with two or more slots each
      excludes the other alignment. */
  lemma InitialAlignment<T>(b: Buffer<T>, n: nat, frameSize: nat, zero: T, spareArr: seq<T>)
    requires |b.ring| > 0 && n > 0 && |spareArr| == frameSize
    ensures PushAligned(Clear(b, zero))
    ensures ReleaseHeadAligned(NewBuffer(n, frameSize, zero, spareArr))
    ensures |b.ring| >= 2 ==> !ReleaseHeadAligned(Clear(b, zero))
    ensures n >= 2 ==> !PushAligned(NewBuffer(n, frameSize, zero, spareArr))
  {
    Mod2IsEuclidean(0, |b.ring|);
    Mod2IsEuclidean(0, n);
    if |b.ring| >= 2 {
      AlignmentsExclusive(Clear(b, zero));
    }
    if n >= 2 {
      AlignmentsExclusive(NewBuffer(n, frameSize, zero, spareArr));
    }
  }

  /** Both producer operations advance head and count together, so each keeps
      whichever alignment the ring has. */
  lemma {:induction false} AlignmentPreserved<T>(b: Buffer<T>, src: seq<T>, data: seq<T>)
    requires Valid(b) && |src| >= b.elementSize && |data| == b.elementSize
    ensures PushAligned(b) ==> PushAligned(Push(b, src).0) && PushAligned(ReleaseHead(b, data).0)
    ensures ReleaseHeadAligned(b) ==>
              ReleaseHeadAligned(Push(b, src).0) && ReleaseHeadAligned(ReleaseHead(b, data).0)
  {
    var n := |b.ring|;
    Mod2Add(b.count, 1, n);
    Mod2Add(b.count + 1, 1, n);
  }

  /** Lock out head, write, release head, then lock out by count: on a ring
      aligned with `release_head`, the frame written through the pointer is
      handed back under the new count. */
  lemma ReleaseHeadThenLockOut<T>(b: Buffer<T>, data: seq<T>)
    requires Valid(b) && |data| == b.elementSize
    requires ReleaseHeadAligned(b) && b.locked == -1 && b.count >= -1
    ensures Pushed(ReleaseHead(b, data).0, b.count + 1)
    ensures var r := LockOutWait(ReleaseHead(b, data).0, b.count + 1);
            r.got == b.count + 1 && r.frame == Some(data)
  {
  }

  /** Push then lock out: on a ring aligned with `push`, a frame pushed while
      nothing is locked out can be locked out by its count, and
      `lock_out_wait` hands back exactly that frame. */
  lemma PushThenLockOut<T>(b: Buffer<T>, src: seq<T>)
    requires Valid(b) && |src| >= b.elementSize
    requires PushAligned(b) && b.locked == -1 && b.count >= 0
    ensures Pushed(Push(b, src).0, b.count)
    ensures var r := LockOutWait(Push(b, src).0, b.count);
            r.got == b.count && r.frame == Some(src[..b.elementSize])
  {
  }

  /** Right after construction `push` is not aligned: with two slots, after two
      pushes the first frame (count 0, in slot 1) cannot be locked out, because
      `lock_out_wait(0)` looks in slot 0, whose stamp is the -1 of the very
      first push. */
  lemma PushAfterConstruction<T>(zero: T, src: seq<T>)
    requires |src| >= 1
    ensures var b0 := NewBuffer(2, 1, zero, [zero]);
            var b1 := Push(b0, src).0;
            var b2 := Push(b1, src).0;
            && b1.ring[0].count == -1
            && b2.ring[1].count == 0
            && !Pushed(b2, 0)
  {
    var b0 := NewBuffer(2, 1, zero, [zero]);
    Mod2IsEuclidean(0, 2);
    var b1 := Push(b0, src).0;
    assert b1.head == 1 && b1.count == 0;
  }

  /** Every stamped slot holds a frame that `release_head` alignment would put
      there: frame `c` sits in slot `mod2(c + 1)`, one past where
      `lock_out_wait(c)` looks. */
  ghost predicate StampsShifted<T>(b: Buffer<T>)
  {
    && |b.ring| > 0
    && forall i :: 0 <= i < |b.ring| && b.ring[i].count != -1 ==> Mod2(b.ring[i].count + 1, |b.ring|) == i
  }

  /** On a ring aligned with `release_head`, `push` keeps every frame one slot
      past its place. */
  lemma PushKeepsShifted<T>(b: Buffer<T>, src: seq<T>)
    requires Valid(b) && |src| >= b.elementSize
    requires ReleaseHeadAligned(b) && StampsShifted(b)
    ensures StampsShifted(Push(b, src).0)
  {
    var r := Push(b, src).0;
    forall i | 0 <= i < |r.ring| && r.ring[i].count != -1
      ensures Mod2(r.ring[i].count + 1, |r.ring|) == i
    {
      if i != b.head {
        assert r.ring[i] == b.ring[i];
      }
    }
  }

  /** With two or more slots a shifted ring never hands back the frame asked
      for. */
  lemma ShiftedNeverMatches<T>(b: Buffer<T>, c: int)
    requires Valid(b) && |b.ring| >= 2 && StampsShifted(b)
    requires b.locked == -1 && Pushed(b, c)
    ensures LockOutWait(b, c).got != c
  {
    var n := |b.ring|;
    var k := Mod2(c, n);
    Mod2Range(c, n);
    Mod2Add(c, 1, n);
    Mod2Next(k, n);
  }

  /** Pushing a sequence of frames in order. */
  function PushAll<T>(b: Buffer<T>, frames: seq<seq<T>>): (r: Buffer<T>)
    requires Valid(b)
    requires forall i :: 0 <= i < |frames| ==> |frames[i]| >= b.elementSize
    ensures Valid(r)
    ensures r.count == b.count + |frames|
    ensures r.head == Mod2(b.head + |frames|, |b.ring|)
    ensures r.spare == b.spare && r.locked == b.locked && |r.ring| == |b.ring|
    decreases |frames|
  {
    Mod2Id(b.head, |b.ring|);
    if |frames| == 0 then
      b
    else
      var p := Push(b, frames[0]).0;
      Mod2Add(b.head + 1, |frames| - 1, |b.ring|);
      Mod2Add(b.head, 1, |b.ring|);
      PushAll(p, frames[1..])
  }

  /** The purpose of the spare: once a frame is locked out the producer can
      push any number of frames without touching it, until it is released. */
  lemma LockedFrameSurvivesPushes<T>(b: Buffer<T>, n: int, frames: seq<seq<T>>)
    requires Valid(b) && b.locked == -1 && Pushed(b, n)
    requires forall i :: 0 <= i < |frames| ==> |frames[i]| >= b.elementSize
    ensures var l := LockOutWait(b, n);
            var after := PushAll(l.buf, frames);
            && after.spare.arr == l.frame.value
            && after.spare.count == l.got
            && after.locked == Mod2(n, |b.ring|)
  {
  }

  /** Pushes keep a ring aligned with `release_head` shifted. */
  lemma {:induction false} PushAllShifted<T>(b: Buffer<T>, frames: seq<seq<T>>)
    requires Valid(b)
    requires forall i :: 0 <= i < |frames| ==> |frames[i]| >= b.elementSize
    requires ReleaseHeadAligned(b) && StampsShifted(b)
    ensures ReleaseHeadAligned(PushAll(b, frames)) && StampsShifted(PushAll(b, frames))
    decreases |frames|
  {
    if |frames| > 0 {
      var p := Push(b, frames[0]).0;
      AlignmentPreserved(b, frames[0], b.ring[b.head].arr);
      PushKeepsShifted(b, frames[0]);
      PushAllShifted(p, frames[1..]);
    }
  }

  /** After the constructor, a ring of two or more slots filled by pushes alone
      never hands back the frame requested: `lock_out_wait(c)` finds another
      frame in slot `mod2(c)`, whatever the frames and however many. */
  lemma ConstructedRingNeverMatches<T>(n: nat, frameSize: nat, zero: T, spareArr: seq<T>,
                                       frames: seq<seq<T>>, c: int)
    requires n >= 2 && |spareArr| == frameSize
    requires forall i :: 0 <= i < |frames| ==> |frames[i]| >= frameSize
    requires Pushed(PushAll(NewBuffer(n, frameSize, zero, spareArr), frames), c)
    ensures LockOutWait(PushAll(NewBuffer(n, frameSize, zero, spareArr), frames), c).got != c
  {
    var b := NewBuffer(n, frameSize, zero, spareArr);
    InitialAlignment(b, n, frameSize, zero, spareArr);
    PushAllShifted(b, frames);
    ShiftedNeverMatches(PushAll(b, frames), c);
  }

  /** The first push after construction stamps its slot -1, the value that
      means "never pushed"; after `clear` the first push stamps 0. */
  lemma FirstPushStamp<T>(n: nat, frameSize: nat, zero: T, spareArr: seq<T>, src: seq<T>)
    requires n > 0 && |spareArr| == frameSize && |src| >= frameSize
    ensures Push(NewBuffer(n, frameSize, zero, spareArr), src).0.ring[0].count == -1
    ensures Push(Clear(NewBuffer(n, frameSize, zero, spareArr), zero), src).0.ring[0].count == 0
  {
  }
}
