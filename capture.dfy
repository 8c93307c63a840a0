/**
 * The request/response loop of the pad (src/main.rs, lines 63-98): symbols are
 * captured one by one into a fixed buffer of BIT_LIMIT entries; when a stop
 * symbol arrives the captured message is tried against three request templates
 * in a fixed order, at most one reply is sent, the loop waits for the host's
 * command to end and capture starts again.
 *
 * The decoder's result, the template matcher and the line are not modelled
 * here: the decode outcome and the matcher are parameters, and what would go
 * on the line is recorded as a trace of events.
 *
 * The loop is specified on values (LoopState, Next, Run) and implemented by
 * the class PadLoop, whose methods are proved to follow that specification.
 */
module Capture {
  import opened Wrappers
  import opened Gc

  /** Capacity of the capture buffer: four bytes and a stop symbol. */
  const BIT_LIMIT: nat := 4 * 8 + 1

  /** What one call of the symbol decoder yields. */
  datatype ReadOutcome = Read(bit: Bit) | DecodeError

  /** The three request templates, in the order they are tried. */
  datatype Request = Request1 | Request2 | Request3

  /** The fixed replies to the first two templates, and the poll reply built for a poll count. */
  datatype Response = Response1 | Response2 | PollResponse(frame: nat)

  /** What the loop does on the line: send a reply, or wait for the host's command to end. */
  datatype Event = Send(response: Response) | WaitCommand

  /** Whether a captured slice matches a request template. */
  type Matcher = (seq<Bit>, Request) -> bool

  /** The loop's variables at a loop head: the buffer, its fill counter and the poll counter. */
  datatype LoopState = LoopState(buffer: seq<Bit>, count: nat, frames: nat)

  /** One loop iteration: the state at the next loop head, whether a symbol was read, what went on the line. */
  datatype Transition = Transition(next: LoopState, consumed: bool, events: seq<Event>)

  /** The loop invariant: a full-size buffer, a fill counter in bounds and no stop among the captured symbols. */
  predicate Inv(s: LoopState) {
    |s.buffer| == BIT_LIMIT && s.count <= BIT_LIMIT
    && forall i :: 0 <= i < s.count ==> IsData(s.buffer[i])
  }

  /** The state on entry to the loop: a buffer of Low symbols, nothing captured, no polls. */
  function Initial(): (s: LoopState)
    ensures Inv(s) && s.count == 0 && s.frames == 0
  {
    LoopState(seq(BIT_LIMIT, _ => Low), 0, 0)
  }

  /** The templates tried in order on a captured message; the first match is answered. */
  function Dispatch(message: seq<Bit>, frames: nat, matches: Matcher): (nat, seq<Event>) {
    if matches(message, Request1) then (frames, [Send(Response1), WaitCommand])
    else if matches(message, Request2) then (frames, [Send(Response2), WaitCommand])
    else if matches(message, Request3) then (frames + 1, [Send(PollResponse(frames + 1)), WaitCommand])
    else (frames, [WaitCommand])
  }

  /** One iteration of the loop, given what the decoder would return if it is called. */
  function Next(s: LoopState, outcome: ReadOutcome, matches: Matcher): (t: Transition)
    requires Inv(s)
    ensures Inv(t.next)
  {
    if s.count >= BIT_LIMIT then Transition(s.(count := 0), false, [])
    else match outcome
      case DecodeError => Transition(s.(count := 0), true, [])
      case Read(bit) =>
        var buffer := s.buffer[s.count := bit];
        if bit == Stop then
          var d := Dispatch(buffer[..s.count + 1], s.frames, matches);
          Transition(LoopState(buffer, 0, d.0), true, d.1)
        else
          Transition(LoopState(buffer, s.count + 1, s.frames), true, [])
  }

  /**
   * Iterations of the loop until the decode outcomes run out. An iteration that
   * finds the buffer full reads nothing and leaves the outcome for the next one.
   */
  function Run(s: LoopState, outcomes: seq<ReadOutcome>, matches: Matcher): (r: (LoopState, seq<Event>))
    requires Inv(s)
    ensures Inv(r.0)
    decreases |outcomes|, s.count
  {
    if outcomes == [] then (s, [])
    else
      var t := Next(s, outcomes[0], matches);
      var r := Run(t.next, if t.consumed then outcomes[1..] else outcomes, matches);
      (r.0, t.events + r.1)
  }

  /** The decoder yielding the symbols of `bits` one after the other. */
  function Reads(bits: seq<Bit>): (r: seq<ReadOutcome>)
    ensures |r| == |bits|
  {
    if bits == [] then [] else [Read(bits[0])] + Reads(bits[1..])
  }

  /** The reply an event sends, if any. */
  function ReplyOf(e: Event): seq<Response> {
    if e.Send? then [e.response] else []
  }

  /** The replies sent, in order. */
  function Replies(events: seq<Event>): seq<Response> {
    if events == [] then [] else ReplyOf(events[0]) + Replies(events[1..])
  }

  /** The poll count an event's reply carries, if it is a poll reply. */
  function PollFrameOf(e: Event): seq<nat> {
    if e.Send? && e.response.PollResponse? then [e.response.frame] else []
  }

  /** The poll counts carried by the poll replies, in order. */
  function PollFrames(events: seq<Event>): seq<nat> {
    if events == [] then [] else PollFrameOf(events[0]) + PollFrames(events[1..])
  }

  // ---------------------------------------------------------------------------
  // One iteration

  /** A full buffer without a stop is discarded: nothing is read, nothing is sent, the poll counter stays. */
  lemma OverflowResets(s: LoopState, outcome: ReadOutcome, matches: Matcher)
    requires Inv(s) && s.count == BIT_LIMIT
    ensures var t := Next(s, outcome, matches);
      !t.consumed && t.events == []
      && t.next.count == 0 && t.next.frames == s.frames && t.next.buffer == s.buffer
  {
  }

  /** A decode error discards the capture: nothing is sent, the buffer contents and the poll counter stay. */
  lemma DecodeErrorResets(s: LoopState, matches: Matcher)
    requires Inv(s) && s.count < BIT_LIMIT
    ensures var t := Next(s, DecodeError, matches);
      t.consumed && t.events == []
      && t.next.count == 0 && t.next.frames == s.frames && t.next.buffer == s.buffer
  {
  }

  /** A data bit is stored at the fill position, the counter grows by one and nothing else changes. */
  lemma AppendsDataBit(s: LoopState, bit: Bit, matches: Matcher)
    requires Inv(s) && s.count < BIT_LIMIT && IsData(bit)
    ensures var t := Next(s, Read(bit), matches);
      t.consumed && t.events == []
      && t.next.count == s.count + 1 && t.next.frames == s.frames
      && t.next.buffer[s.count] == bit
      && t.next.buffer[..s.count] == s.buffer[..s.count]
      && t.next.buffer[s.count + 1..] == s.buffer[s.count + 1..]
  {
  }

  /**
   * A stop symbol completes a message: the captured data bits followed by
   * exactly one stop. The matcher sees that message, the buffer holds it and
   * the fill counter is back to 0 after the dispatch.
   */
  lemma StopDispatches(s: LoopState, matches: Matcher)
    requires Inv(s) && s.count < BIT_LIMIT
    ensures var message := s.buffer[..s.count] + [Stop];
      var t := Next(s, Read(Stop), matches);
      IsMessage(message)
      && t.consumed && t.next.count == 0
      && t.next.buffer[..s.count + 1] == message
      && (t.next.frames, t.events) == Dispatch(message, s.frames, matches)
  {
    var message := s.buffer[..s.count] + [Stop];
    assert message[..|message| - 1] == s.buffer[..s.count];
    assert s.buffer[s.count := Stop][..s.count + 1] == message;
  }

  /**
   * The templates are tried in the order 1, 2, 3 and the first match wins; at
   * most one reply goes out, the wait for the line always comes last, and the
   * poll counter grows by one exactly when the poll template is the first match.
   */
  lemma DispatchPriority(message: seq<Bit>, frames: nat, matches: Matcher)
    ensures var d := Dispatch(message, frames, matches);
      var m1, m2, m3 := matches(message, Request1), matches(message, Request2), matches(message, Request3);
      1 <= |d.1| <= 2 && d.1[|d.1| - 1] == WaitCommand
      && |Replies(d.1)| <= 1
      && (Replies(d.1) == [Response1] <==> m1)
      && (Replies(d.1) == [Response2] <==> !m1 && m2)
      && (Replies(d.1) == [PollResponse(frames + 1)] <==> !m1 && !m2 && m3)
      && (Replies(d.1) == [] <==> !m1 && !m2 && !m3)
      && d.0 == (if !m1 && !m2 && m3 then frames + 1 else frames)
  {
    ReplyEvents();
  }

  /** The two event shapes a dispatch produces, seen through Replies and PollFrames. */
  lemma ReplyEvents()
    ensures Replies([WaitCommand]) == [] && PollFrames([WaitCommand]) == []
    ensures forall r :: Replies([Send(r), WaitCommand]) == [r]
    ensures forall r :: PollFrames([Send(r), WaitCommand]) == PollFrameOf(Send(r))
  {
    assert [WaitCommand][1..] == [];
    forall r ensures Replies([Send(r), WaitCommand]) == [r]
      && PollFrames([Send(r), WaitCommand]) == PollFrameOf(Send(r))
    {
      var es := [Send(r), WaitCommand];
      assert es[0] == Send(r) && es[1..] == [WaitCommand];
      assert Replies(es) == [r] + Replies([WaitCommand]);
      assert PollFrames(es) == PollFrameOf(Send(r)) + PollFrames([WaitCommand]);
    }
  }

  /** The poll counter grows by at most one per iteration, and a poll reply carries the new count. */
  lemma NextNumbersPolls(s: LoopState, outcome: ReadOutcome, matches: Matcher)
    requires Inv(s)
    ensures var t := Next(s, outcome, matches);
      (t.next.frames == s.frames || t.next.frames == s.frames + 1)
      && PollFrames(t.events) == (if t.next.frames == s.frames + 1 then [t.next.frames] else [])
  {
    ReplyEvents();
  }

  // ---------------------------------------------------------------------------
  // Runs of the loop

  /** What remains of a run after `done`, when the next step emits `events`. */
  lemma RemainderAdvance(goal: (LoopState, seq<Event>), done: seq<Event>, events: seq<Event>,
                         x: (LoopState, seq<Event>), y: (LoopState, seq<Event>))
    requires goal == (x.0, done + x.1) && x == (y.0, events + y.1)
    ensures goal == (y.0, (done + events) + y.1)
  {
    AppendAssoc(done, events, y.1);
  }

  /** An iteration that reads nothing resets the fill counter. */
  lemma NextProgress(s: LoopState, outcome: ReadOutcome, matches: Matcher)
    requires Inv(s)
    ensures var t := Next(s, outcome, matches); !t.consumed ==> t.next.count < s.count
  {
  }

  lemma AppendAssoc<T>(a: seq<T>, b: seq<T>, c: seq<T>)
    ensures a + (b + c) == (a + b) + c
  {
  }

  /** One iteration followed by the rest of the run. */
  lemma RunUnfold(s: LoopState, outcomes: seq<ReadOutcome>, matches: Matcher)
    requires Inv(s) && outcomes != []
    ensures var t := Next(s, outcomes[0], matches);
      var r := Run(t.next, if t.consumed then outcomes[1..] else outcomes, matches);
      Run(s, outcomes, matches) == (r.0, t.events + r.1)
  {
  }

  lemma {:induction false} PollFramesAppend(a: seq<Event>, b: seq<Event>)
    ensures PollFrames(a + b) == PollFrames(a) + PollFrames(b)
  {
    if a == [] {
      assert a + b == b;
    } else {
      assert (a + b)[0] == a[0] && (a + b)[1..] == a[1..] + b;
      PollFramesAppend(a[1..], b);
      AppendAssoc(PollFrameOf(a[0]), PollFrames(a[1..]), PollFrames(b));
    }
  }

  lemma {:induction false} ReadsAppend(a: seq<Bit>, b: seq<Bit>)
    ensures Reads(a + b) == Reads(a) + Reads(b)
  {
    if a == [] {
      assert a + b == b;
    } else {
      assert (a + b)[0] == a[0] && (a + b)[1..] == a[1..] + b;
      ReadsAppend(a[1..], b);
      assert Reads(a + b) == [Read(a[0])] + Reads(a[1..] + b);
    }
  }

  /**
   * The poll counter counts the poll replies: after any run it has grown by the
   * number of poll replies sent, never shrinks, and the k-th poll reply of the
   * run carries the count it had before plus k.
   */
  lemma {:induction false} RunNumbersPolls(s: LoopState, outcomes: seq<ReadOutcome>, matches: Matcher)
    requires Inv(s)
    ensures var r := Run(s, outcomes, matches);
      s.frames <= r.0.frames
      && |PollFrames(r.1)| == r.0.frames - s.frames
      && forall i :: 0 <= i < |PollFrames(r.1)| ==> PollFrames(r.1)[i] == s.frames + 1 + i
    decreases |outcomes|, s.count
  {
    if outcomes != [] {
      var t := Next(s, outcomes[0], matches);
      var rest := if t.consumed then outcomes[1..] else outcomes;
      NextNumbersPolls(s, outcomes[0], matches);
      RunNumbersPolls(t.next, rest, matches);
      PollFramesAppend(t.events, Run(t.next, rest, matches).1);
    }
  }

  /** Running the loop on two batches of decode outcomes is running it on their concatenation. */
  lemma {:induction false} RunAppend(s: LoopState, a: seq<ReadOutcome>, b: seq<ReadOutcome>, matches: Matcher)
    requires Inv(s)
    ensures var r1 := Run(s, a, matches);
      var r2 := Run(r1.0, b, matches);
      Run(s, a + b, matches) == (r2.0, r1.1 + r2.1)
    decreases |a|, s.count
  {
    if a == [] {
      assert a + b == b;
      assert [] + Run(s, b, matches).1 == Run(s, b, matches).1;
    } else {
      var t := Next(s, a[0], matches);
      var rest := if t.consumed then a[1..] else a;
      assert (a + b)[0] == a[0];
      assert (if t.consumed then (a + b)[1..] else a + b) == rest + b;
      RunAppend(t.next, rest, b, matches);
      var r1 := Run(t.next, rest, matches);
      var r2 := Run(r1.0, b, matches);
      assert t.events + (r1.1 + r2.1) == (t.events + r1.1) + r2.1;
    }
  }

  /** Data bits that fit are captured in order after what the buffer holds, and nothing is sent. */
  lemma {:induction false} CaptureData(s: LoopState, p: seq<Bit>, matches: Matcher)
    requires Inv(s) && AllData(p) && s.count + |p| <= BIT_LIMIT
    ensures Run(s, Reads(p), matches)
      == (LoopState(s.buffer[..s.count] + p + s.buffer[s.count + |p|..], s.count + |p|, s.frames), [])
    decreases |p|
  {
    if p == [] {
      assert Reads(p) == [];
      assert Run(s, Reads(p), matches) == (s, []);
      assert s.buffer[..s.count] + p + s.buffer[s.count + |p|..] == s.buffer;
    } else {
      var t := Next(s, Read(p[0]), matches);
      var s' := t.next;
      assert t.consumed && t.events == [];
      assert s' == LoopState(s.buffer[s.count := p[0]], s.count + 1, s.frames);
      assert Reads(p)[0] == Read(p[0]) && Reads(p)[1..] == Reads(p[1..]);
      CaptureData(s', p[1..], matches);
      var r := Run(s', Reads(p[1..]), matches);
      assert [] + r.1 == r.1;
      assert Run(s, Reads(p), matches) == (r.0, r.1);
      assert s'.buffer[..s'.count] + p[1..] == s.buffer[..s.count] + p;
      assert s'.buffer[s'.count + |p[1..]|..] == s.buffer[s.count + |p|..];
    }
  }

  /**
   * A complete message (data bits `p` and a stop) that fits in the buffer is
   * handed to the matcher intact, preceded by what the buffer already held;
   * the reply decision is the dispatch of that message and capture starts afresh.
   */
  lemma CaptureMessage(s: LoopState, p: seq<Bit>, matches: Matcher)
    requires Inv(s) && AllData(p) && s.count + |p| < BIT_LIMIT
    ensures var whole := s.buffer[..s.count] + p + [Stop];
      var d := Dispatch(whole, s.frames, matches);
      Run(s, Reads(p + [Stop]), matches)
        == (LoopState(whole + s.buffer[s.count + |p| + 1..], 0, d.0), d.1)
  {
    var n := |p|;
    var s1 := LoopState(s.buffer[..s.count] + p + s.buffer[s.count + n..], s.count + n, s.frames);
    CaptureThenStop(s, p, matches);
    StopRun(s1, matches);
    StopDispatches(s1, matches);
    assert s1.buffer[..s1.count] == s.buffer[..s.count] + p;
    UpdateAt(s.buffer[..s.count] + p, s.buffer[s.count + n..], Stop);
    assert s.buffer[s.count + n..][1..] == s.buffer[s.count + n + 1..];
  }

  /** Capturing data bits and then a stop is capturing the data bits, then one stop iteration. */
  lemma CaptureThenStop(s: LoopState, p: seq<Bit>, matches: Matcher)
    requires Inv(s) && AllData(p) && s.count + |p| < BIT_LIMIT
    ensures var s1 := LoopState(s.buffer[..s.count] + p + s.buffer[s.count + |p|..], s.count + |p|, s.frames);
      Run(s, Reads(p + [Stop]), matches) == Run(s1, [Read(Stop)], matches)
  {
    ReadsAppend(p, [Stop]);
    assert Reads([Stop]) == [Read(Stop)];
    RunAppend(s, Reads(p), [Read(Stop)], matches);
    CaptureData(s, p, matches);
    var r2 := Run(Run(s, Reads(p), matches).0, [Read(Stop)], matches);
    assert [] + r2.1 == r2.1;
  }

  /** A run of one stop symbol is the one iteration that dispatches it. */
  lemma StopRun(s: LoopState, matches: Matcher)
    requires Inv(s) && s.count < BIT_LIMIT
    ensures var t := Next(s, Read(Stop), matches);
      Run(s, [Read(Stop)], matches) == (t.next, t.events)
  {
    var t := Next(s, Read(Stop), matches);
    RunUnfold(s, [Read(Stop)], matches);
    assert [Read(Stop)][1..] == [];
    assert t.events + [] == t.events;
  }

  lemma UpdateAt(a: seq<Bit>, b: seq<Bit>, x: Bit)
    requires b != []
    ensures (a + b)[|a| := x] == a + [x] + b[1..]
  {
  }

  /** A poll request from an empty buffer reaches the matcher exactly as the host sent it. */
  lemma CapturePollRequest(s: LoopState, c: HostCommand, matches: Matcher)
    requires Inv(s) && s.count == 0
    ensures Run(s, Reads(PollRequest(c)), matches).1 == Dispatch(PollRequest(c), s.frames, matches).1
  {
    var p := POLL_PREFIX + [DataBit(c.rumbleActivatedBefore), DataBit(c.rumble)];
    assert PollRequest(c) == p + [Stop];
    CaptureMessage(s, p, matches);
    assert s.buffer[..0] + p + [Stop] == PollRequest(c);
  }

  /**
   * BIT_LIMIT data bits without a stop fill the buffer and send nothing; the
   * next iteration discards them without reading.
   */
  lemma OverlongCaptureDropped(s: LoopState, p: seq<Bit>, outcome: ReadOutcome, matches: Matcher)
    requires Inv(s) && s.count == 0 && AllData(p) && |p| == BIT_LIMIT
    ensures var r := Run(s, Reads(p), matches);
      var t := Next(r.0, outcome, matches);
      r.1 == [] && r.0.count == BIT_LIMIT && r.0.buffer == p
      && !t.consumed && t.events == [] && t.next.count == 0 && t.next.frames == s.frames
  {
    CaptureData(s, p, matches);
    assert s.buffer[..0] + p + s.buffer[BIT_LIMIT..] == p;
  }

  // ---------------------------------------------------------------------------
  // The loop as it runs on the device

  /** The loop's variables: the capture array, its fill counter and the poll counter. */
  class PadLoop {
    var bits: array<Bit>
    var bitCount: nat
    var frameCounter: nat
    /** Everything the loop has put on the line so far. */
    ghost var log: seq<Event>

    ghost function State(): LoopState
      reads this, bits
    {
      LoopState(bits[..], bitCount, frameCounter)
    }

    ghost predicate Valid()
      reads this, bits
    {
      Inv(State())
    }

    constructor ()
      ensures Valid() && fresh(bits) && State() == Initial() && log == []
    {
      bits := new Bit[BIT_LIMIT](_ => Low);
      bitCount, frameCounter := 0, 0;
      log := [];
      new;
      assert bits[..] == Initial().buffer;
    }

    /**
     * One iteration of the loop body. `outcome` is what the decoder returns if
     * it is called; `consumed` says whether it was; `reply` is what was sent.
     */
    method Step(outcome: ReadOutcome, matches: Matcher) returns (consumed: bool, reply: Option<Response>)
      requires Valid()
      modifies this, bits
      ensures Valid() && bits == old(bits)
      ensures var t := Next(old(State()), outcome, matches);
        State() == t.next && consumed == t.consumed && log == old(log) + t.events
        && Replies(t.events) == (if reply.Some? then [reply.value] else [])
    {
      if bitCount >= BIT_LIMIT {
        bitCount := 0;
        return false, None;
      }
      consumed, reply := true, None;
      match outcome {
        case DecodeError =>
          bitCount := 0;
        case Read(bit) =>
          bits[bitCount] := bit;
          bitCount := bitCount + 1;
          if bit == Stop {
            var message := bits[..bitCount];
            if matches(message, Request1) {
              reply := Some(Response1);
            } else if matches(message, Request2) {
              reply := Some(Response2);
            } else if matches(message, Request3) {
              frameCounter := frameCounter + 1;
              reply := Some(PollResponse(frameCounter));
            }
            if reply.Some? {
              log := log + [Send(reply.value)];
            }
            log := log + [WaitCommand];
            bitCount := 0;
          }
      }
      assert Replies([WaitCommand]) == [];
    }

    /** The loop run until the decode outcomes run out. */
    method Serve(outcomes: seq<ReadOutcome>, matches: Matcher)
      requires Valid()
      modifies this, bits
      ensures Valid() && bits == old(bits)
      ensures var r := Run(old(State()), outcomes, matches);
        State() == r.0 && log == old(log) + r.1
    {
      var rest := outcomes;
      ghost var goal := Run(State(), outcomes, matches);
      ghost var done: seq<Event> := [];
      assert [] + goal.1 == goal.1;
      while rest != []
        invariant Valid() && bits == old(bits)
        invariant log == old(log) + done
        invariant goal == (Run(State(), rest, matches).0, done + Run(State(), rest, matches).1)
        decreases |rest|, bitCount
      {
        ghost var before, was := State(), rest;
        ghost var t := Next(before, rest[0], matches);
        var consumed, _ := Step(rest[0], matches);
        if consumed {
          rest := rest[1..];
        }
        RunUnfold(before, was, matches);
        NextProgress(before, was[0], matches);
        RemainderAdvance(goal, done, t.events, Run(before, was, matches), Run(State(), rest, matches));
        AppendAssoc(old(log), done, t.events);
        done := done + t.events;
      }
      assert done + [] == done;
    }
  }
}
