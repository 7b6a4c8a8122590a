/** Clients that make whole runs of calls: what the calls promise one by one adds up
    to the runs the theorems are about. */
module Clients {
  import opened Machine
  import opened FrameBits
  import opened FramePool
  import Format
  import Pmm
  import Terminal
  import Vga

  // The allocator

  datatype Request = Allocate | Release(frame: uint32)

  /** What callers get back from the allocations among `events`. */
  function Answers(events: seq<Event>): seq<uint32> {
    if events == [] then [] else
      var before := Answers(events[..|events| - 1]);
      match events[|events| - 1]
      case Got(f) => before + [FrameAddress(f)]
      case Exhausted => before + [NULL_FRAME]
      case Released(_) => before
  }

  lemma AnswersExtend(events: seq<Event>, frame: uint32)
    requires frame == NULL_FRAME || IsPageAligned(frame)
    ensures Answers(events + [Pmm.AllocEvent(frame)]) == Answers(events) + [frame]
    ensures Answers(events + [Released(FrameOf(frame))]) == Answers(events)
  {
    assert forall e: Event :: (events + [e])[..|events|] == events;
  }

  function AllocateCount(requests: seq<Request>): nat {
    if requests == [] then 0
    else AllocateCount(requests[..|requests| - 1]) + if requests[|requests| - 1].Allocate? then 1 else 0
  }

  /** The events of a run are what the requests ask for, one by one in their order; a
      request without an event is a release of a frame not marked at that point. */
  ghost predicate Follows(requests: seq<Request>, states: seq<Pool>, events: seq<Event>)
    requires |states| == |events| + 1
    decreases |requests|
  {
    if requests == [] then events == [] else
      var earlier, n := requests[..|requests| - 1], |events|;
      match requests[|requests| - 1]
      case Allocate =>
        0 < n && !events[n - 1].Released? && Follows(earlier, states[..n], events[..n - 1])
      case Release(frame) =>
        || (0 < n && events[n - 1] == Released(frame / 0x1000) && Follows(earlier, states[..n], events[..n - 1]))
        || (frame / 0x1000 !in states[n].used && Follows(earlier, states, events))
  }

  /** One more request, with the event it leads to. */
  lemma FollowsExtend(requests: seq<Request>, states: seq<Pool>, events: seq<Event>, r: Request, e: Event, p: Pool)
    requires |states| == |events| + 1 && Follows(requests, states, events)
    requires if r.Allocate? then !e.Released? else e == Released(r.frame / 0x1000)
    ensures Follows(requests + [r], states + [p], events + [e])
  {
    assert (requests + [r])[..|requests|] == requests;
    assert (states + [p])[..|states|] == states && (events + [e])[..|events|] == events;
  }

  lemma FollowsSkip(requests: seq<Request>, states: seq<Pool>, events: seq<Event>, r: Request)
    requires |states| == |events| + 1 && Follows(requests, states, events)
    requires r.Release? && r.frame / 0x1000 !in states[|events|].used
    ensures Follows(requests + [r], states, events)
  {
    assert (requests + [r])[..|requests|] == requests;
  }

  /** The requests served so far, the run they led to and its answers. */
  ghost predicate Served(requests: seq<Request>, states: seq<Pool>, events: seq<Event>, answers: seq<uint32>) {
    && Run(states, events) && Follows(requests, states, events)
    && answers == Answers(events) && |answers| == AllocateCount(requests)
  }

  lemma ServedAllocate(requests: seq<Request>, states: seq<Pool>, events: seq<Event>, answers: seq<uint32>,
                       frame: uint32, p: Pool)
    requires Served(requests, states, events, answers)
    requires frame == NULL_FRAME || IsPageAligned(frame)
    requires Step(states[|events|], Pmm.AllocEvent(frame), p)
    ensures Served(requests + [Allocate], states + [p], events + [Pmm.AllocEvent(frame)], answers + [frame])
  {
    AnswersExtend(events, frame);
    RunExtends(states, events, Pmm.AllocEvent(frame), p);
    FollowsExtend(requests, states, events, Allocate, Pmm.AllocEvent(frame), p);
    assert (requests + [Allocate])[..|requests|] == requests;
  }

  lemma ServedRelease(requests: seq<Request>, states: seq<Pool>, events: seq<Event>, answers: seq<uint32>,
                      frame: uint32, p: Pool)
    requires Served(requests, states, events, answers) && IsPageAligned(frame)
    requires Step(states[|events|], Released(FrameOf(frame)), p)
    ensures Served(requests + [Release(frame)], states + [p], events + [Released(FrameOf(frame))], answers)
  {
    AnswersExtend(events, frame);
    RunExtends(states, events, Released(FrameOf(frame)), p);
    FollowsExtend(requests, states, events, Release(frame), Released(FrameOf(frame)), p);
    assert (requests + [Release(frame)])[..|requests|] == requests;
  }

  lemma ServedSkip(requests: seq<Request>, states: seq<Pool>, events: seq<Event>, answers: seq<uint32>, frame: uint32)
    requires Served(requests, states, events, answers)
    requires FrameOf(frame) !in states[|events|].used
    ensures Served(requests + [Release(frame)], states, events, answers)
  {
    FollowsSkip(requests, states, events, Release(frame));
    assert (requests + [Release(frame)])[..|requests|] == requests;
  }

  /** Serves the requests in order, with a release only for a frame that is marked. The
      calls made are a run of the set machine from the state before to the state after. */
  method Serve(memory: Pmm.PhysicalMemory, requests: seq<Request>)
    returns (answers: seq<uint32>, ghost states: seq<Pool>, ghost events: seq<Event>)
    requires memory.Valid()
    requires forall i :: 0 <= i < |requests| && requests[i].Release? ==> IsPageAligned(requests[i].frame)
    modifies memory, memory.bitmap
    ensures memory.Valid()
    ensures Run(states, events) && Safe(states[0])
    ensures states[0] == old(memory.Abstract()) && states[|events|] == memory.Abstract()
    ensures Follows(requests, states, events)
    ensures answers == Answers(events) && |answers| == AllocateCount(requests)
  {
    answers, states, events := [], [memory.Abstract()], [];
    ghost var now := memory.Abstract();
    Pmm.ValidIsSafe(memory.bitmap[..], memory.nextFrame);
    for i := 0 to |requests|
      invariant memory.Valid() && memory.Abstract() == now
      invariant Served(requests[..i], states, events, answers)
      invariant states[0] == old(memory.Abstract()) && states[|events|] == now
    {
      assert requests[..i + 1] == requests[..i] + [requests[i]];
      match requests[i]
      case Allocate =>
        var frame := memory.Alloc();
        now := memory.Abstract();
        ServedAllocate(requests[..i], states, events, answers, frame, now);
        states, events := states + [now], events + [Pmm.AllocEvent(frame)];
        answers := answers + [frame];
      case Release(frame) =>
        var marked := memory.IsFrameAllocated(frame);
        if marked {
          memory.Free(frame);
          now := memory.Abstract();
          ServedRelease(requests[..i], states, events, answers, frame, now);
          states, events := states + [now], events + [Released(FrameOf(frame))];
        } else {
          ServedSkip(requests[..i], states, events, answers, frame);
        }
    }
    assert requests[..|requests|] == requests;
  }

  // The screen

  datatype Command = Print(c: bv8) | Paint(fg: bv32, bg: bv32)

  function Events(commands: seq<Command>): (events: seq<Terminal.Event>)
    ensures |events| == |commands|
    ensures forall i :: 0 <= i < |commands| && commands[i].Print? ==>
              events[i] == Terminal.Byte(commands[i].c)
    ensures forall i :: 0 <= i < |commands| && commands[i].Paint? ==>
              events[i] == Terminal.Color(Vga.Attribute(commands[i].fg, commands[i].bg))
  {
    seq(|commands|, i requires 0 <= i < |commands| =>
      match commands[i]
      case Print(c) => Terminal.Byte(c)
      case Paint(fg, bg) => Terminal.Color(Vga.Attribute(fg, bg)))
  }

  /** Plays the commands in order. The screen goes through the stream of their events, so
      it keeps showing the end of any terminal it showed the end of before. */
  method Play(screen: Vga.TextMode, commands: seq<Command>, ghost tape: Terminal.Tape)
    requires screen.Valid() && Terminal.Shows(screen.View(), tape)
    modifies screen, screen.memory
    ensures screen.Valid()
    ensures screen.View() == Terminal.DoAll(old(screen.View()), Events(commands))
    ensures Terminal.Shows(screen.View(), Terminal.TapeAll(tape, Events(commands)))
  {
    ghost var start := screen.View();
    ghost var events := Events(commands);
    Terminal.StreamRefines(start, tape, events);
    for i := 0 to |commands|
      invariant screen.Valid()
      invariant Terminal.DoAll(screen.View(), events[i..]) == Terminal.DoAll(start, events)
    {
      assert events[i..][1..] == events[i + 1..];
      match commands[i]
      case Print(c) => screen.Put(c);
      case Paint(fg, bg) => screen.SetColor(fg, bg);
    }
  }
}
