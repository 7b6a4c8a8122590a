/** The frame allocator seen as a set of frames and a hint, and what holds over
    whole runs of it. `Pmm.PhysicalMemory` proves that every call it serves is
    a `Step` of this machine. */
module FramePool {
  import opened FrameBits

  /** `used` is the set the bitmap stands for; `hint` is `pmm_next_frame`, a byte
      index that may lie beyond the bitmap. */
  datatype Pool = Pool(used: set<nat>, hint: nat)

  /** What one call does: an allocation that succeeds or fails, or a release. */
  datatype Event = Got(frame: nat) | Exhausted | Released(frame: nat)

  predicate Between(lo: nat, f: nat, hi: nat) {
    lo <= f < hi
  }

  ghost function FrameRange(lo: nat, hi: nat): set<nat> {
    set f: nat | f < hi && Between(lo, f, hi)
  }

  ghost function FramesUpTo(last: nat): set<nat> {
    FrameRange(0, last + 1)
  }

  ghost function AllFrames(): set<nat> {
    FramesUpTo(NB_FRAMES - 1)
  }

  /** First frame of the group the search begins with. */
  function Start(p: Pool): nat {
    if p.hint < FRAME_BITMAP_SIZE then 8 * p.hint else 0
  }

  /** How many frames the cyclic search that begins at frame `start` passes before `f`. */
  function CyclicDistance(start: nat, f: nat): int {
    if start <= f then f - start else f + NB_FRAMES - start
  }

  ghost predicate IsFree(p: Pool, f: nat) {
    f < NB_FRAMES && f !in p.used
  }

  /** Cyclic next fit: the free frame that comes first in the search order. */
  ghost predicate IsNextFit(p: Pool, f: nat) {
    && IsFree(p, f)
    && forall g: nat :: IsFree(p, g) ==> CyclicDistance(Start(p), f) <= CyclicDistance(Start(p), g)
  }

  ghost predicate Step(p: Pool, e: Event, p': Pool) {
    match e
    case Got(f) => IsNextFit(p, f) && p' == Pool(p.used + {f}, f / 8)
    case Exhausted => p.used == AllFrames() && p' == p
    case Released(f) => f in p.used && p' == Pool(p.used - {f}, f / 8)
  }

  ghost predicate Run(states: seq<Pool>, events: seq<Event>) {
    && |states| == |events| + 1
    && forall i :: 0 <= i < |events| ==> Step(states[i], events[i], states[i + 1])
  }

  lemma RunExtends(states: seq<Pool>, events: seq<Event>, e: Event, p: Pool)
    requires Run(states, events) && Step(states[|events|], e, p)
    ensures Run(states + [p], events + [e])
  {
  }

  /** The scans stay inside the bitmap: the hint is in range or a free frame
      stops the second scan before the end. */
  ghost predicate Safe(p: Pool) {
    && p.used <= AllFrames()
    && (p.hint < FRAME_BITMAP_SIZE || p.used != AllFrames())
  }

  /** The state `pmm_init` leaves: frames 0 to `last` are marked and the hint
      holds the address of frame `last`. */
  ghost function Booted(last: nat): Pool {
    Pool(FramesUpTo(last), PAGE_SIZE * last)
  }

  // One step

  lemma FramesUpToSize(last: nat)
    ensures |FramesUpTo(last)| == last + 1
  {
    if last == 0 {
      assert FramesUpTo(0) == {0};
    } else {
      FramesUpToSize(last - 1);
      assert FramesUpTo(last) == FramesUpTo(last - 1) + {last};
    }
  }

  lemma SubsetOfEqualSize(s: set<nat>, t: set<nat>)
    requires s <= t
    ensures |s| <= |t| && (|s| == |t| <==> s == t)
  {
    assert t == s + (t - s);
  }

  /** Among the free frames there is a first one in the search order. */
  lemma {:induction false} FirstInOrder(start: nat, candidates: set<nat>) returns (f: nat)
    requires candidates != {}
    ensures f in candidates
    ensures forall g :: g in candidates ==> CyclicDistance(start, f) <= CyclicDistance(start, g)
    decreases |candidates|
  {
    f :| f in candidates;
    if candidates != {f} {
      var rest := candidates - {f};
      var g := FirstInOrder(start, rest);
      if CyclicDistance(start, g) < CyclicDistance(start, f) {
        f := g;
      }
    }
  }

  /** An allocation always has an outcome: it fails exactly when every frame is
      marked, which is when `NB_FRAMES` of them are. */
  lemma AllocationOutcome(p: Pool)
    requires Safe(p)
    ensures (exists p' :: Step(p, Exhausted, p')) <==> |p.used| == NB_FRAMES
    ensures (exists f: nat, p' :: Step(p, Got(f), p')) <==> |p.used| < NB_FRAMES
  {
    FramesUpToSize(NB_FRAMES - 1);
    SubsetOfEqualSize(p.used, AllFrames());
    assert AllFrames() - p.used == {} ==> AllFrames() <= p.used + (AllFrames() - p.used);
    if p.used == AllFrames() {
      assert Step(p, Exhausted, p);
    } else {
      var f := FirstInOrder(Start(p), AllFrames() - p.used);
      assert Step(p, Got(f), Pool(p.used + {f}, f / 8));
    }
  }

  /** The outcome of an allocation is determined by the state before it. */
  lemma AllocationDeterministic(p: Pool, e1: Event, p1: Pool, e2: Event, p2: Pool)
    requires !e1.Released? && !e2.Released?
    requires p.used <= AllFrames()
    requires Step(p, e1, p1) && Step(p, e2, p2)
    ensures e1 == e2 && p1 == p2
  {
    if e1.Got? && e2.Got? {
      assert CyclicDistance(Start(p), e1.frame) == CyclicDistance(Start(p), e2.frame);
    }
  }

  lemma StepKeepsSafe(p: Pool, e: Event, p': Pool)
    requires Safe(p) && Step(p, e, p')
    ensures Safe(p')
    ensures !e.Exhausted? ==> p'.hint < FRAME_BITMAP_SIZE
  {
  }

  /** A successful allocation followed by the release of its frame gives the set back. */
  lemma AllocThenFree(p: Pool, f: nat, q: Pool, r: Pool)
    requires Step(p, Got(f), q) && Step(q, Released(f), r)
    ensures r.used == p.used
  {
    assert p.used + {f} - {f} == p.used;
  }

  /** After a release the next allocation cannot fail and returns the lowest free
      frame of the released frame's group of eight, which is that very frame
      when the group was full. */
  lemma FreeThenAlloc(p: Pool, f: nat, q: Pool, e: Event, r: Pool)
    requires Safe(p) && Step(p, Released(f), q)
    requires Step(q, e, r) && !e.Released?
    ensures e.Got? && e.frame / 8 == f / 8
    ensures forall g: nat :: IsFree(q, g) && g / 8 == f / 8 ==> e.frame <= g
    ensures (forall g: nat :: g / 8 == f / 8 ==> g in p.used) ==> e.frame == f
  {
    assert IsFree(q, f);
    assert e.Got?;
    assert CyclicDistance(Start(q), e.frame) <= CyclicDistance(Start(q), f) < 8;
  }

  // Whole runs

  lemma {:induction false} RunKeepsSafe(states: seq<Pool>, events: seq<Event>)
    requires Run(states, events) && Safe(states[0])
    ensures forall i :: 0 <= i < |states| ==> Safe(states[i])
  {
    for i := 0 to |events|
      invariant forall j :: 0 <= j <= i ==> Safe(states[j])
    {
      StepKeepsSafe(states[i], events[i], states[i + 1]);
    }
  }

  /** Between two events that hand out the same frame there is one that releases
      it, whoever the callers are. */
  lemma {:induction false} NoFrameHandedOutTwice(states: seq<Pool>, events: seq<Event>, i: nat, j: nat)
    requires Run(states, events)
    requires i < j < |events| && events[i].Got? && events[j] == events[i]
    ensures exists k :: i < k < j && events[k] == Released(events[i].frame)
  {
    var f := events[i].frame;
    var m := i + 1;
    while m < j && events[m] != Released(f)
      invariant i < m <= j
      invariant f in states[m].used
    {
      assert Step(states[m], events[m], states[m + 1]);
      m := m + 1;
    }
    assert Step(states[j], events[j], states[j + 1]);
  }

  /** Frames handed out by `events` and not released since. */
  ghost function Held(events: seq<Event>): set<nat> {
    if events == [] then {} else
      var before := Held(events[..|events| - 1]);
      match events[|events| - 1]
      case Got(f) => before + {f}
      case Released(f) => before - {f}
      case Exhausted => before
  }

  /** The callers release only frames they hold. */
  ghost predicate Disciplined(events: seq<Event>) {
    forall i :: 0 <= i < |events| && events[i].Released? ==> events[i].frame in Held(events[..i])
  }

  /** Ownership: from a booted pool, if callers release only what they hold, the
      marked frames are at every point exactly the boot range plus the held
      frames, the two are disjoint, and no frame handed out is in either. */
  lemma {:induction false} Ownership(last: nat, states: seq<Pool>, events: seq<Event>, n: nat)
    requires Run(states, events) && Disciplined(events)
    requires states[0] == Booted(last)
    requires n <= |events|
    ensures states[n].used == FramesUpTo(last) + Held(events[..n])
    ensures FramesUpTo(last) !! Held(events[..n])
    ensures n < |events| && events[n].Got?
            ==> last < events[n].frame && events[n].frame !in Held(events[..n])
    decreases n
  {
    if n == 0 {
      assert events[..0] == [];
    } else {
      Ownership(last, states, events, n - 1);
      assert Step(states[n - 1], events[n - 1], states[n]);
      assert events[..n][..n - 1] == events[..n - 1];
    }
    if n < |events| {
      assert Step(states[n], events[n], states[n + 1]);
    }
  }

  ghost function Allocations(events: seq<Event>): nat {
    if events == [] then 0
    else Allocations(events[..|events| - 1]) + if events[|events| - 1].Got? then 1 else 0
  }

  ghost function Releases(events: seq<Event>): nat {
    if events == [] then 0
    else Releases(events[..|events| - 1]) + if events[|events| - 1].Released? then 1 else 0
  }

  /** Conservation: the marked frames are as many as at the beginning, plus the
      successful allocations, minus the releases, and the next allocation fails
      exactly when that number is `NB_FRAMES`. */
  lemma {:induction false} Conservation(states: seq<Pool>, events: seq<Event>, n: nat)
    requires Run(states, events) && Safe(states[0])
    requires n <= |events|
    ensures |states[n].used| == |states[0].used| + Allocations(events[..n]) - Releases(events[..n])
    ensures n < |events| && !events[n].Released?
            ==> (events[n] == Exhausted
                 <==> |states[0].used| + Allocations(events[..n]) - Releases(events[..n]) == NB_FRAMES)
    decreases n
  {
    if n == 0 {
      assert events[..0] == [];
    } else {
      Conservation(states, events, n - 1);
      assert Step(states[n - 1], events[n - 1], states[n]);
      assert events[..n][..n - 1] == events[..n - 1];
    }
    if n < |events| && !events[n].Released? {
      RunKeepsSafe(states, events);
      AllocationOutcome(states[n]);
      assert Step(states[n], events[n], states[n + 1]);
    }
  }

  // Runs without releases

  /** From `start`, every free frame comes at or after the place the search begins with. */
  ghost predicate SearchedBefore(start: nat, p: Pool) {
    && Start(p) < NB_FRAMES
    && forall g: nat :: IsFree(p, g) ==> CyclicDistance(start, Start(p)) <= CyclicDistance(start, g)
  }

  /** Then the next fit is the first free frame in the order from `start` as well, and
      the same holds after the step. */
  lemma StepInCyclicOrder(start: nat, p: Pool, e: Event, q: Pool)
    requires start < NB_FRAMES && start % 8 == 0
    requires SearchedBefore(start, p) && Step(p, e, q) && !e.Released?
    ensures SearchedBefore(start, q) && p.used <= q.used
    ensures forall g: nat :: e.Got? && IsFree(q, g) ==> CyclicDistance(start, e.frame) < CyclicDistance(start, g)
  {
    if e.Got? {
      forall g: nat | IsFree(q, g) ensures CyclicDistance(start, e.frame) < CyclicDistance(start, g) {
        assert IsFree(p, g);
        assert CyclicDistance(Start(p), e.frame) <= CyclicDistance(Start(p), g);
      }
      assert Start(q) == 8 * (e.frame / 8);
      assert CyclicDistance(start, Start(q)) <= CyclicDistance(start, e.frame);
    }
  }

  /** Without releases the frames are handed out in cyclic order from the group the
      first search begins with, whatever the state the run begins in. */
  lemma {:induction false} AllocationsInCyclicOrder(states: seq<Pool>, events: seq<Event>, i: nat, j: nat)
    requires Run(states, events)
    requires forall k :: 0 <= k < |events| ==> !events[k].Released?
    requires i < j < |events| && events[i].Got? && events[j].Got?
    ensures CyclicDistance(Start(states[0]), events[i].frame) < CyclicDistance(Start(states[0]), events[j].frame)
  {
    var start := Start(states[0]);
    var m := 0;
    while m <= i
      invariant m <= i + 1
      invariant SearchedBefore(start, states[m])
      invariant m == i + 1 ==> forall g: nat :: IsFree(states[m], g) ==>
        CyclicDistance(start, events[i].frame) < CyclicDistance(start, g)
    {
      StepInCyclicOrder(start, states[m], events[m], states[m + 1]);
      m := m + 1;
    }
    while m < j
      invariant i < m <= j
      invariant states[i + 1].used <= states[m].used
    {
      assert Step(states[m], events[m], states[m + 1]);
      m := m + 1;
    }
    assert Step(states[j], events[j], states[j + 1]);
    assert IsFree(states[i + 1], events[j].frame);
  }

  // The first allocations after boot

  /** The hint holds the address of the last marked frame. The first allocation
      returns the frame after the marked range exactly when that address is 0 or
      lies beyond the bitmap; otherwise it skips to the byte with that index. */
  lemma FirstAllocationAfterBoot(last: nat, e: Event, q: Pool)
    requires last < NB_FRAMES - 1
    requires Step(Booted(last), e, q) && !e.Released?
    ensures e.Got? && q.hint < FRAME_BITMAP_SIZE
    ensures e.frame == last + 1 <==> last == 0 || FRAME_BITMAP_SIZE <= PAGE_SIZE * last
    ensures e.frame != last + 1 ==> e.frame == 8 * PAGE_SIZE * last
  {
    var p := Booted(last);
    assert IsFree(p, last + 1);
    assert e.Got?;
    if 0 < last && PAGE_SIZE * last < FRAME_BITMAP_SIZE {
      assert IsFree(p, 8 * PAGE_SIZE * last);
    }
  }

  /** When the marked frames are a range from 0 and the search begins inside it,
      an allocation extends the range by one. */
  lemma AllocationExtendsRange(p: Pool, top: nat, e: Event, q: Pool)
    requires top < NB_FRAMES - 1 && p.used == FramesUpTo(top) && Start(p) <= top
    requires Step(p, e, q) && !e.Released?
    ensures e == Got(top + 1) && q == Pool(FramesUpTo(top + 1), (top + 1) / 8)
  {
    assert IsFree(p, top + 1);
    assert FramesUpTo(top + 1) == FramesUpTo(top) + {top + 1};
  }

  /** Allocations only, after a boot whose hint is out of range or 0: they hand
      out the frames after the marked range one by one in address order, every one
      of them, and fail only once all are gone. */
  lemma {:induction false} DrainInOrder(last: nat, states: seq<Pool>, events: seq<Event>, n: nat)
    requires last < NB_FRAMES - 1 && (last == 0 || FRAME_BITMAP_SIZE <= PAGE_SIZE * last)
    requires Run(states, events) && states[0] == Booted(last)
    requires forall i :: 0 <= i < |events| ==> !events[i].Released?
    requires n < |events|
    ensures events[n] == if last + n + 1 < NB_FRAMES then Got(last + n + 1) else Exhausted
  {
    var i := 0;
    while i < n
      invariant i <= n
      invariant states[i].used == FramesUpTo(if last + i < NB_FRAMES then last + i else NB_FRAMES - 1)
      invariant Start(states[i]) <= if last + i < NB_FRAMES then last + i else NB_FRAMES - 1
    {
      assert Step(states[i], events[i], states[i + 1]);
      if last + i < NB_FRAMES - 1 {
        AllocationExtendsRange(states[i], last + i, events[i], states[i + 1]);
      }
      i := i + 1;
    }
    assert Step(states[n], events[n], states[n + 1]);
    if last + n < NB_FRAMES - 1 {
      AllocationExtendsRange(states[n], last + n, events[n], states[n + 1]);
    }
  }
}
