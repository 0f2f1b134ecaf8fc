/**
 * The playback scheduler: for one instant, every element of its bucket is
 * either drawn or retired. Retirements are deferred into an erase buffer so
 * that a contiguous run of same-named retirements is erased together, last
 * pushed first; the buffer is flushed before every draw, before a retirement
 * of a different name, and at the end. Each draw and erase consumes delay,
 * which accumulates on top of the zoom duration.
 */
module Scheduler {
  import opened Wrappers
  import opened Instants
  import opened Timeline

  /** What the scheduler asks of one element, apart from timing. */
  datatype Act =
    | DrawAct(elem: TimedDrawable, animate: bool)
    | EraseAct(elem: TimedDrawable, animate: bool, reverse: bool)

  /** An act as performed: started at the running delay `at`, consuming `cost`. */
  datatype Event = Event(act: Act, at: real, cost: real)

  /**
   * The collaborators whose internals lie outside this model: the viewport
   * framer's fixed zoom duration, the delay each element's draw and erase
   * report, and the layout relaxer's pass, which maps the running delay to
   * the final one.
   */
  datatype Collaborators = Collaborators(
    zoomDuration: real,
    drawCost: (TimedDrawable, real, bool) -> real,
    eraseCost: (TimedDrawable, real, bool, bool) -> real,
    gravitate: (real, bool) -> real)

  /** The playback state the network keeps: its timeline index and its erase buffer. */
  datatype Network = Network(slideIndex: Index, eraseBuffer: seq<TimedDrawable>)

  /** The running state of one instant's playback. */
  datatype Playback = Playback(buffer: seq<TimedDrawable>, delay: real, events: seq<Event>, edges: seq<TimedDrawable>)

  /**
   * The outcome of playing one instant: the epoch label shown, the draws and
   * erases in order, the lines handed to the layout relaxer as edges, the
   * delay before and after the relaxer's pass, and the network afterwards.
   */
  datatype Frame = Frame(
    epochLabel: Option<int>,
    events: seq<Event>,
    edges: seq<TimedDrawable>,
    delayBeforeGravitate: real,
    delay: real,
    network: Network)

  /** The caller's request to animate holds unless the instant suppresses animation. */
  function ShouldAnimate(instant: Instant, animate: bool): (r: bool)
    ensures r <==> animate && instant.flag != NoAnim
  {
    if !animate then false
    else if instant.flag == NoAnim then false
    else animate
  }

  /** `e` is being retired at `now`: `now` is its `to` instant and it is not a permanent element. */
  predicate IsRetiredAt(e: TimedDrawable, now: Instant) {
    Equals(now, e.to) && !Equals(e.from, e.to)
  }

  function DrawActOf(e: TimedDrawable, animate: bool): Act {
    DrawAct(e, ShouldAnimate(e.from, animate))
  }

  function EraseActOf(e: TimedDrawable, animate: bool): Act {
    EraseAct(e, ShouldAnimate(e.to, animate), e.to.flag == Reverse)
  }

  /**
   * The act an element of the bucket at `now` receives: an erase when it is
   * retired, animated per its `to` flag and reversed when that flag says so;
   * otherwise a draw, animated per its `from` flag.
   */
  function ActFor(e: TimedDrawable, now: Instant, animate: bool): (r: Act)
    ensures r.elem == e
    ensures r.DrawAct? <==> !IsRetiredAt(e, now)
    ensures r.DrawAct? ==> (r.animate <==> animate && e.from.flag != NoAnim)
    ensures r.EraseAct? ==> (r.animate <==> animate && e.to.flag != NoAnim) && (r.reverse <==> e.to.flag == Reverse)
  {
    if IsRetiredAt(e, now) then EraseActOf(e, animate) else DrawActOf(e, animate)
  }

  function ActsFor(elems: seq<TimedDrawable>, now: Instant, animate: bool): seq<Act> {
    seq(|elems|, i requires 0 <= i < |elems| => ActFor(elems[i], now, animate))
  }

  function EraseActsOf(elems: seq<TimedDrawable>, animate: bool): seq<Act> {
    seq(|elems|, i requires 0 <= i < |elems| => EraseActOf(elems[i], animate))
  }

  function Acts(events: seq<Event>): seq<Act> {
    seq(|events|, i requires 0 <= i < |events| => events[i].act)
  }

  function Reversed<T>(s: seq<T>): seq<T> {
    seq(|s|, i requires 0 <= i < |s| => s[|s| - 1 - i])
  }

  // ---------------------------------------------------------------------------
  // The scheduler as the network runs it
  // ---------------------------------------------------------------------------

  /** Erases `e` at the running delay and adds the delay its erase consumes. */
  function EraseElement(p: Playback, e: TimedDrawable, animate: bool, col: Collaborators): (r: Playback)
    ensures r.buffer == p.buffer && r.edges == p.edges
    ensures |r.events| == |p.events| + 1 && r.events[..|p.events|] == p.events
    ensures r.events[|p.events|].act == EraseActOf(e, animate) && r.events[|p.events|].at == p.delay
    ensures CostReported(col, r.events[|p.events|])
    ensures r.delay == p.delay + r.events[|p.events|].cost
  {
    var act := EraseActOf(e, animate);
    var cost := col.eraseCost(e, p.delay, act.animate, act.reverse);
    p.(delay := p.delay + cost, events := p.events + [Event(act, p.delay, cost)])
  }

  /** Draws `e` at the running delay; a line is first handed to the layout relaxer as an edge. */
  function DrawElement(p: Playback, e: TimedDrawable, animate: bool, col: Collaborators): (r: Playback)
    ensures r.buffer == p.buffer
    ensures |r.events| == |p.events| + 1 && r.events[..|p.events|] == p.events
    ensures r.events[|p.events|].act == DrawActOf(e, animate) && r.events[|p.events|].at == p.delay
    ensures CostReported(col, r.events[|p.events|])
    ensures r.delay == p.delay + r.events[|p.events|].cost
    ensures r.edges == p.edges + (if e.kind == LineDrawable then [e] else [])
  {
    var act := DrawActOf(e, animate);
    var cost := col.drawCost(e, p.delay, act.animate);
    Playback(p.buffer, p.delay + cost, p.events + [Event(act, p.delay, cost)],
      if e.kind == LineDrawable then p.edges + [e] else p.edges)
  }

  /** Erases the buffered elements from the last pushed to the first and empties the buffer. */
  function FlushEraseBuffer(p: Playback, animate: bool, col: Collaborators): (r: Playback)
    ensures r.buffer == []
    ensures r.edges == p.edges
    ensures Acts(r.events) == Acts(p.events) + EraseActsOf(Reversed(p.buffer), animate)
    ensures |r.events| == |p.events| + |p.buffer| && r.events[..|p.events|] == p.events
    decreases |p.buffer|
  {
    if p.buffer == [] then p
    else
      var last := p.buffer[|p.buffer| - 1];
      var rest := p.buffer[..|p.buffer| - 1];
      var erased := EraseElement(p.(buffer := rest), last, animate, col);
      var r := FlushEraseBuffer(erased, animate, col);
      assert Acts(erased.events) == Acts(p.events) + [EraseActOf(last, animate)];
      assert EraseActsOf(Reversed(p.buffer), animate) == [EraseActOf(last, animate)] + EraseActsOf(Reversed(rest), animate);
      r
  }

  /**
   * One element of the bucket: a retired element is pushed onto the buffer,
   * after flushing it when its last element has a different name; any other
   * element is drawn after the buffer is flushed.
   */
  function DrawOrEraseElement(p: Playback, e: TimedDrawable, animate: bool, now: Instant, col: Collaborators): (r: Playback)
    ensures IsRetiredAt(e, now) ==> r.buffer != [] && r.buffer[|r.buffer| - 1] == e
    ensures !IsRetiredAt(e, now) ==> r.buffer == [] && |r.events| > |p.events| && r.events[|r.events| - 1].act == DrawActOf(e, animate)
    ensures |r.events| >= |p.events| && r.events[..|p.events|] == p.events
  {
    if IsRetiredAt(e, now) then
      var flushed :=
        if |p.buffer| > 0 && p.buffer[|p.buffer| - 1].name != e.name then FlushEraseBuffer(p, animate, col) else p;
      flushed.(buffer := flushed.buffer + [e])
    else
      DrawElement(FlushEraseBuffer(p, animate, col), e, animate, col)
  }

  /** The elements of the bucket, in order. */
  function DrawOrEraseAll(p: Playback, elems: seq<TimedDrawable>, animate: bool, now: Instant, col: Collaborators): (r: Playback)
    ensures |r.events| >= |p.events| && r.events[..|p.events|] == p.events
    decreases |elems|
  {
    if elems == [] then p
    else DrawOrEraseAll(DrawOrEraseElement(p, elems[0], animate, now, col), elems[1..], animate, now, col)
  }

  /** After the bucket, the buffer is empty when its last element was drawn and ends with it when it was retired. */
  lemma {:induction false} DrawOrEraseAllLeavesLast(p: Playback, elems: seq<TimedDrawable>, animate: bool, now: Instant, col: Collaborators)
    requires elems != []
    ensures var r := DrawOrEraseAll(p, elems, animate, now, col);
      && (IsRetiredAt(elems[|elems| - 1], now) ==> r.buffer != [] && r.buffer[|r.buffer| - 1] == elems[|elems| - 1])
      && (!IsRetiredAt(elems[|elems| - 1], now) ==> r.buffer == [])
    decreases |elems|
  {
    var q := DrawOrEraseElement(p, elems[0], animate, now, col);
    if |elems| > 1 {
      DrawOrEraseAllLeavesLast(q, elems[1..], animate, now, col);
      assert elems[1..][|elems| - 2] == elems[|elems| - 1];
    } else {
      assert DrawOrEraseAll(q, elems[1..], animate, now, col) == q;
    }
  }

  /**
   * Plays the instant `now`: shows its epoch unless it is the origin sentinel,
   * draws or retires every element of its bucket starting from the zoom
   * duration, flushes what is still buffered, then runs the layout relaxer.
   */
  function DrawTimedDrawablesAt(net: Network, now: Instant, animate: bool, col: Collaborators): (r: Frame)
    requires IsEpochExisting(net.slideIndex, now.epoch) ==> now.second in net.slideIndex[now.epoch]
    ensures r.network == net.(eraseBuffer := [])
    ensures r.epochLabel == (if Equals(now, BIG_BANG) then None else Some(now.epoch))
    ensures r.delay == col.gravitate(r.delayBeforeGravitate, animate)
  {
    var shown := if Equals(now, BIG_BANG) then None else Some(now.epoch);
    var elements := TimedDrawablesAt(net.slideIndex, now);
    var start := Playback(net.eraseBuffer, col.zoomDuration, [], []);
    var played := FlushEraseBuffer(DrawOrEraseAll(start, elements, animate, now, col), animate, col);
    Frame(shown, played.events, played.edges, played.delay, col.gravitate(played.delay, animate),
      net.(eraseBuffer := played.buffer))
  }

  // ---------------------------------------------------------------------------
  // The order of acts: a reference definition by batches
  // ---------------------------------------------------------------------------

  /** The length of the longest prefix of `elems` that is retired at `now` and named `name`. */
  function RunLength(elems: seq<TimedDrawable>, now: Instant, name: string): (k: nat)
    ensures k <= |elems|
    ensures forall i :: 0 <= i < k ==> IsRetiredAt(elems[i], now) && elems[i].name == name
    ensures k < |elems| ==> !(IsRetiredAt(elems[k], now) && elems[k].name == name)
    decreases |elems|
  {
    if elems != [] && IsRetiredAt(elems[0], now) && elems[0].name == name
    then 1 + RunLength(elems[1..], now, name)
    else 0
  }

  /**
   * The acts the bucket `elems` calls for, stated by batches: an element that
   * is not retired is drawn on its own; a maximal run of retired elements
   * sharing a name is erased as one batch, in reverse order.
   */
  function Plan(elems: seq<TimedDrawable>, now: Instant, animate: bool): seq<Act>
    decreases |elems|
  {
    if elems == [] then []
    else if !IsRetiredAt(elems[0], now) then [DrawActOf(elems[0], animate)] + Plan(elems[1..], now, animate)
    else
      var k := RunLength(elems, now, elems[0].name);
      EraseActsOf(Reversed(elems[..k]), animate) + Plan(elems[k..], now, animate)
  }

  /**
   * The acts still owed when `buffer` is pending and `elems` remain: the
   * buffer, extended by the retirements that continue its last name, is
   * erased as one batch, and the rest follows the plan.
   */
  function Pending(buffer: seq<TimedDrawable>, elems: seq<TimedDrawable>, now: Instant, animate: bool): seq<Act> {
    if buffer == [] then Plan(elems, now, animate)
    else
      var k := RunLength(elems, now, buffer[|buffer| - 1].name);
      EraseActsOf(Reversed(buffer + elems[..k]), animate) + Plan(elems[k..], now, animate)
  }

  lemma ActsSnoc(events: seq<Event>, ev: Event)
    ensures Acts(events + [ev]) == Acts(events) + [ev.act]
  {
    assert |Acts(events + [ev])| == |Acts(events) + [ev.act]|;
    forall i | 0 <= i < |events| + 1
      ensures Acts(events + [ev])[i] == (Acts(events) + [ev.act])[i]
    {
    }
  }

  /** A retirement continuing the name of the buffer's last element extends the pending batch. */
  lemma PendingContinuesRun(buffer: seq<TimedDrawable>, elems: seq<TimedDrawable>, now: Instant, animate: bool)
    requires buffer != [] && elems != []
    requires IsRetiredAt(elems[0], now) && buffer[|buffer| - 1].name == elems[0].name
    ensures Pending(buffer + [elems[0]], elems[1..], now, animate) == Pending(buffer, elems, now, animate)
  {
    var rest := elems[1..];
    var k' := RunLength(rest, now, elems[0].name);
    assert RunLength(elems, now, elems[0].name) == 1 + k';
    assert elems[1 + k'..] == rest[k'..];
    assert buffer + elems[..1 + k'] == (buffer + [elems[0]]) + rest[..k'];
  }

  /** Any other retirement closes the pending batch and opens a new one. */
  lemma PendingStartsRun(buffer: seq<TimedDrawable>, elems: seq<TimedDrawable>, now: Instant, animate: bool)
    requires elems != [] && IsRetiredAt(elems[0], now)
    requires buffer != [] ==> buffer[|buffer| - 1].name != elems[0].name
    ensures EraseActsOf(Reversed(buffer), animate) + Pending([elems[0]], elems[1..], now, animate)
         == Pending(buffer, elems, now, animate)
  {
    var rest := elems[1..];
    var k' := RunLength(rest, now, elems[0].name);
    assert RunLength(elems, now, elems[0].name) == 1 + k';
    assert elems[1 + k'..] == rest[k'..];
    assert elems[..1 + k'] == [elems[0]] + rest[..k'];
    assert Plan(elems, now, animate) == Pending([elems[0]], rest, now, animate);
    if buffer != [] {
      assert RunLength(elems, now, buffer[|buffer| - 1].name) == 0;
      assert buffer + elems[..0] == buffer;
    } else {
      assert Reversed(buffer) == [];
    }
  }

  /** An element that is not retired closes the pending batch and is drawn on its own. */
  lemma PendingDraws(buffer: seq<TimedDrawable>, elems: seq<TimedDrawable>, now: Instant, animate: bool)
    requires elems != [] && !IsRetiredAt(elems[0], now)
    ensures EraseActsOf(Reversed(buffer), animate) + [DrawActOf(elems[0], animate)] + Plan(elems[1..], now, animate)
         == Pending(buffer, elems, now, animate)
  {
    if buffer != [] {
      assert RunLength(elems, now, buffer[|buffer| - 1].name) == 0;
      assert buffer + elems[..0] == buffer;
    } else {
      assert Reversed(buffer) == [];
    }
  }

  /** The acts one element of the bucket adds, and the buffer it leaves. */
  lemma DrawOrEraseElementActs(p: Playback, e: TimedDrawable, animate: bool, now: Instant, col: Collaborators)
    ensures var q := DrawOrEraseElement(p, e, animate, now, col);
      if IsRetiredAt(e, now) && p.buffer != [] && p.buffer[|p.buffer| - 1].name == e.name then
        q.events == p.events && q.buffer == p.buffer + [e]
      else if IsRetiredAt(e, now) then
        q.buffer == [e] && Acts(q.events) == Acts(p.events) + EraseActsOf(Reversed(p.buffer), animate)
      else
        q.buffer == [] && Acts(q.events) == Acts(p.events) + EraseActsOf(Reversed(p.buffer), animate) + [DrawActOf(e, animate)]
  {
    if !IsRetiredAt(e, now) {
      var f := FlushEraseBuffer(p, animate, col);
      var q := DrawElement(f, e, animate, col);
      ActsSnoc(f.events, q.events[|q.events| - 1]);
      assert q.events == f.events + [q.events[|q.events| - 1]];
    } else if p.buffer == [] {
      assert Reversed(p.buffer) == [];
    }
  }

  /** With no elements left, the final flush performs what is still owed. */
  lemma FlushPaysPending(p: Playback, animate: bool, now: Instant, col: Collaborators)
    ensures Acts(FlushEraseBuffer(p, animate, col).events) == Acts(p.events) + Pending(p.buffer, [], now, animate)
  {
    if p.buffer == [] {
      assert Reversed(p.buffer) == [];
    } else {
      assert p.buffer + [][..0] == p.buffer;
    }
  }

  /** What one element performs plus what is owed afterwards is what was owed before. */
  lemma StepPaysPending(p: Playback, elems: seq<TimedDrawable>, animate: bool, now: Instant, col: Collaborators)
    requires elems != []
    ensures var q := DrawOrEraseElement(p, elems[0], animate, now, col);
      Acts(q.events) + Pending(q.buffer, elems[1..], now, animate) == Acts(p.events) + Pending(p.buffer, elems, now, animate)
  {
    var e := elems[0];
    if IsRetiredAt(e, now) && p.buffer != [] && p.buffer[|p.buffer| - 1].name == e.name {
      ContinuingStepPaysPending(p, elems, animate, now, col);
    } else if IsRetiredAt(e, now) {
      StartingStepPaysPending(p, elems, animate, now, col);
    } else {
      DrawingStepPaysPending(p, elems, animate, now, col);
    }
  }

  lemma ContinuingStepPaysPending(p: Playback, elems: seq<TimedDrawable>, animate: bool, now: Instant, col: Collaborators)
    requires elems != [] && IsRetiredAt(elems[0], now)
    requires p.buffer != [] && p.buffer[|p.buffer| - 1].name == elems[0].name
    ensures var q := DrawOrEraseElement(p, elems[0], animate, now, col);
      Acts(q.events) + Pending(q.buffer, elems[1..], now, animate) == Acts(p.events) + Pending(p.buffer, elems, now, animate)
  {
    DrawOrEraseElementActs(p, elems[0], animate, now, col);
    PendingContinuesRun(p.buffer, elems, now, animate);
  }

  lemma StartingStepPaysPending(p: Playback, elems: seq<TimedDrawable>, animate: bool, now: Instant, col: Collaborators)
    requires elems != [] && IsRetiredAt(elems[0], now)
    requires p.buffer != [] ==> p.buffer[|p.buffer| - 1].name != elems[0].name
    ensures var q := DrawOrEraseElement(p, elems[0], animate, now, col);
      Acts(q.events) + Pending(q.buffer, elems[1..], now, animate) == Acts(p.events) + Pending(p.buffer, elems, now, animate)
  {
    var q := DrawOrEraseElement(p, elems[0], animate, now, col);
    StartingStepActs(p, elems[0], animate, now, col);
    PendingStartsRun(p.buffer, elems, now, animate);
    AppendAssociates(Acts(p.events), EraseActsOf(Reversed(p.buffer), animate), Pending([elems[0]], elems[1..], now, animate));
  }

  lemma StartingStepActs(p: Playback, e: TimedDrawable, animate: bool, now: Instant, col: Collaborators)
    requires IsRetiredAt(e, now)
    requires p.buffer != [] ==> p.buffer[|p.buffer| - 1].name != e.name
    ensures DrawOrEraseElement(p, e, animate, now, col).buffer == [e]
    ensures Acts(DrawOrEraseElement(p, e, animate, now, col).events) == Acts(p.events) + EraseActsOf(Reversed(p.buffer), animate)
  {
    if p.buffer == [] {
      assert Reversed(p.buffer) == [];
    }
  }

  lemma AppendAssociates<T>(x: seq<T>, y: seq<T>, z: seq<T>)
    ensures (x + y) + z == x + (y + z)
  {
  }

  lemma DrawingStepPaysPending(p: Playback, elems: seq<TimedDrawable>, animate: bool, now: Instant, col: Collaborators)
    requires elems != [] && !IsRetiredAt(elems[0], now)
    ensures var q := DrawOrEraseElement(p, elems[0], animate, now, col);
      Acts(q.events) + Pending(q.buffer, elems[1..], now, animate) == Acts(p.events) + Pending(p.buffer, elems, now, animate)
  {
    var q := DrawOrEraseElement(p, elems[0], animate, now, col);
    DrawOrEraseElementActs(p, elems[0], animate, now, col);
    PendingDraws(p.buffer, elems, now, animate);
    var x := Acts(p.events);
    var y := EraseActsOf(Reversed(p.buffer), animate) + [DrawActOf(elems[0], animate)];
    var z := Plan(elems[1..], now, animate);
    assert q.buffer == [] && Acts(q.events) == x + y;
    assert Pending(q.buffer, elems[1..], now, animate) == z;
    AppendAssociates(x, y, z);
  }

  /** Processing the remaining elements from any state performs the acts still owed. */
  lemma {:induction false} DrawOrEraseAllFollowsPlan(p: Playback, elems: seq<TimedDrawable>, animate: bool, now: Instant, col: Collaborators)
    ensures Acts(FlushEraseBuffer(DrawOrEraseAll(p, elems, animate, now, col), animate, col).events)
         == Acts(p.events) + Pending(p.buffer, elems, now, animate)
    decreases |elems|
  {
    if elems == [] {
      FlushPaysPending(p, animate, now, col);
    } else {
      var e, rest := elems[0], elems[1..];
      var q := DrawOrEraseElement(p, e, animate, now, col);
      DrawOrEraseAllFollowsPlan(q, rest, animate, now, col);
      assert DrawOrEraseAll(p, elems, animate, now, col) == DrawOrEraseAll(q, rest, animate, now, col);
      StepPaysPending(p, elems, animate, now, col);
    }
  }

  /**
   * Starting from an empty erase buffer, playing an instant performs exactly
   * the acts of the batch plan of its bucket, in that order.
   */
  lemma DrawTimedDrawablesAtFollowsPlan(net: Network, now: Instant, animate: bool, col: Collaborators)
    requires IsEpochExisting(net.slideIndex, now.epoch) ==> now.second in net.slideIndex[now.epoch]
    requires net.eraseBuffer == []
    ensures Acts(DrawTimedDrawablesAt(net, now, animate, col).events)
         == Plan(TimedDrawablesAt(net.slideIndex, now), now, animate)
  {
    var start := Playback(net.eraseBuffer, col.zoomDuration, [], []);
    DrawOrEraseAllFollowsPlan(start, TimedDrawablesAt(net.slideIndex, now), animate, now, col);
    assert Acts(start.events) == [];
  }

  // ---------------------------------------------------------------------------
  // Every element is acted on once, draws keep their order
  // ---------------------------------------------------------------------------

  lemma {:induction false} ReversedPreservesMultiset<T>(s: seq<T>)
    ensures multiset(Reversed(s)) == multiset(s)
    decreases |s|
  {
    if s != [] {
      var init, last := s[..|s| - 1], s[|s| - 1];
      ReversedPreservesMultiset(init);
      assert Reversed(s) == [last] + Reversed(init);
      assert s == init + [last];
    }
  }

  /** The batch plan performs, per occurrence in the bucket, exactly the act that element calls for. */
  lemma {:induction false} PlanPermutesActs(elems: seq<TimedDrawable>, now: Instant, animate: bool)
    ensures multiset(Plan(elems, now, animate)) == multiset(ActsFor(elems, now, animate))
    decreases |elems|
  {
    if elems == [] {
    } else if !IsRetiredAt(elems[0], now) {
      PlanPermutesActs(elems[1..], now, animate);
      assert ActsFor(elems, now, animate) == [ActFor(elems[0], now, animate)] + ActsFor(elems[1..], now, animate);
    } else {
      var k := RunLength(elems, now, elems[0].name);
      PlanPermutesActs(elems[k..], now, animate);
      RunActsPermute(elems, now, animate, k);
    }
  }

  /** A run of retired elements, erased in reverse, performs the acts its elements call for. */
  lemma RunActsPermute(elems: seq<TimedDrawable>, now: Instant, animate: bool, k: nat)
    requires k <= |elems|
    requires forall i :: 0 <= i < k ==> IsRetiredAt(elems[i], now)
    ensures multiset(ActsFor(elems, now, animate))
         == multiset(EraseActsOf(Reversed(elems[..k]), animate)) + multiset(ActsFor(elems[k..], now, animate))
  {
    var run := elems[..k];
    assert ActsFor(elems, now, animate) == ActsFor(run, now, animate) + ActsFor(elems[k..], now, animate);
    assert ActsFor(run, now, animate) == EraseActsOf(run, animate);
    assert EraseActsOf(Reversed(run), animate) == Reversed(EraseActsOf(run, animate));
    ReversedPreservesMultiset(EraseActsOf(run, animate));
  }

  /**
   * Starting from an empty erase buffer, playing an instant draws or erases
   * every element of its bucket exactly once per occurrence, each with the act
   * its classification and flags call for.
   */
  lemma EveryElementActedOnOnce(net: Network, now: Instant, animate: bool, col: Collaborators)
    requires IsEpochExisting(net.slideIndex, now.epoch) ==> now.second in net.slideIndex[now.epoch]
    requires net.eraseBuffer == []
    ensures multiset(Acts(DrawTimedDrawablesAt(net, now, animate, col).events))
         == multiset(ActsFor(TimedDrawablesAt(net.slideIndex, now), now, animate))
  {
    DrawTimedDrawablesAtFollowsPlan(net, now, animate, col);
    PlanPermutesActs(TimedDrawablesAt(net.slideIndex, now), now, animate);
  }

  /** The drawn elements of a sequence of acts, in order. */
  function Drawn(acts: seq<Act>): seq<TimedDrawable>
    decreases |acts|
  {
    if acts == [] then []
    else (if acts[0].DrawAct? then [acts[0].elem] else []) + Drawn(acts[1..])
  }

  /** The elements of a bucket that are not retired at `now`, in order. */
  function NotRetired(elems: seq<TimedDrawable>, now: Instant): seq<TimedDrawable>
    decreases |elems|
  {
    if elems == [] then []
    else (if IsRetiredAt(elems[0], now) then [] else [elems[0]]) + NotRetired(elems[1..], now)
  }

  lemma {:induction false} DrawnOfErasesIsEmpty(elems: seq<TimedDrawable>, animate: bool)
    ensures Drawn(EraseActsOf(elems, animate)) == []
    decreases |elems|
  {
    if elems != [] {
      DrawnOfErasesIsEmpty(elems[1..], animate);
      assert EraseActsOf(elems, animate)[1..] == EraseActsOf(elems[1..], animate);
    }
  }

  lemma {:induction false} DrawnDistributes(a: seq<Act>, b: seq<Act>)
    ensures Drawn(a + b) == Drawn(a) + Drawn(b)
    decreases |a|
  {
    if a == [] {
      assert a + b == b;
    } else {
      DrawnDistributes(a[1..], b);
      assert (a + b)[0] == a[0] && (a + b)[1..] == a[1..] + b;
      var head := if a[0].DrawAct? then [a[0].elem] else [];
      assert Drawn(a + b) == head + Drawn(a[1..] + b);
      assert Drawn(a) == head + Drawn(a[1..]);
      AppendAssociates(head, Drawn(a[1..]), Drawn(b));
    }
  }

  lemma {:induction false} NotRetiredOfRunIsEmpty(elems: seq<TimedDrawable>, now: Instant, name: string)
    ensures NotRetired(elems[..RunLength(elems, now, name)], now) == []
    decreases |elems|
  {
    var k := RunLength(elems, now, name);
    if k > 0 {
      NotRetiredOfRunIsEmpty(elems[1..], now, name);
      assert elems[..k][1..] == elems[1..][..k - 1];
    }
  }

  lemma {:induction false} NotRetiredDistributes(a: seq<TimedDrawable>, b: seq<TimedDrawable>, now: Instant)
    ensures NotRetired(a + b, now) == NotRetired(a, now) + NotRetired(b, now)
    decreases |a|
  {
    if a == [] {
      assert a + b == b;
    } else {
      NotRetiredDistributes(a[1..], b, now);
      assert (a + b)[1..] == a[1..] + b;
    }
  }

  /** The plan draws exactly the elements that are not retired, in bucket order. */
  lemma {:induction false} PlanDrawsInBucketOrder(elems: seq<TimedDrawable>, now: Instant, animate: bool)
    ensures Drawn(Plan(elems, now, animate)) == NotRetired(elems, now)
    decreases |elems|
  {
    if elems == [] {
    } else if !IsRetiredAt(elems[0], now) {
      PlanDrawsInBucketOrder(elems[1..], now, animate);
      DrawnDistributes([DrawActOf(elems[0], animate)], Plan(elems[1..], now, animate));
    } else {
      var k := RunLength(elems, now, elems[0].name);
      PlanDrawsInBucketOrder(elems[k..], now, animate);
      DrawnDistributes(EraseActsOf(Reversed(elems[..k]), animate), Plan(elems[k..], now, animate));
      DrawnOfErasesIsEmpty(Reversed(elems[..k]), animate);
      NotRetiredOfRunIsEmpty(elems, now, elems[0].name);
      NotRetiredDistributes(elems[..k], elems[k..], now);
      assert elems == elems[..k] + elems[k..];
    }
  }

  // ---------------------------------------------------------------------------
  // Delay accounting
  // ---------------------------------------------------------------------------

  /** The cost an event carries is what its collaborator reports when started at its delay. */
  predicate CostReported(col: Collaborators, ev: Event) {
    match ev.act
    case DrawAct(e, a) => ev.cost == col.drawCost(e, ev.at, a)
    case EraseAct(e, a, rev) => ev.cost == col.eraseCost(e, ev.at, a, rev)
  }

  /** `events` follow one another back to back from delay `start` to delay `end`, each costing what was reported. */
  ghost predicate Timed(col: Collaborators, events: seq<Event>, start: real, end: real)
    decreases |events|
  {
    if events == [] then end == start
    else
      var last := events[|events| - 1];
      && CostReported(col, last)
      && end == last.at + last.cost
      && Timed(col, events[..|events| - 1], start, last.at)
  }

  function SumCosts(events: seq<Event>): real
    decreases |events|
  {
    if events == [] then 0.0 else SumCosts(events[..|events| - 1]) + events[|events| - 1].cost
  }

  /** The lines among the drawn elements, in order: the edges handed to the layout relaxer. */
  function DrawnLines(acts: seq<Act>): seq<TimedDrawable>
    decreases |acts|
  {
    if acts == [] then []
    else
      var a := acts[|acts| - 1];
      DrawnLines(acts[..|acts| - 1]) + (if a.DrawAct? && a.elem.kind == LineDrawable then [a.elem] else [])
  }

  /** The bookkeeping every step keeps: delays chained from `start`, edges matching the drawn lines. */
  ghost predicate Accounted(col: Collaborators, start: real, p: Playback) {
    Timed(col, p.events, start, p.delay) && p.edges == DrawnLines(Acts(p.events))
  }

  lemma EraseElementKeepsAccounts(p: Playback, e: TimedDrawable, animate: bool, col: Collaborators, start: real)
    requires Accounted(col, start, p)
    ensures Accounted(col, start, EraseElement(p, e, animate, col))
  {
    var r := EraseElement(p, e, animate, col);
    var ev := r.events[|r.events| - 1];
    assert r.events == p.events + [ev];
    assert r.events[..|r.events| - 1] == p.events;
    ActsSnoc(p.events, ev);
    assert Acts(r.events)[..|Acts(r.events)| - 1] == Acts(p.events);
  }

  lemma DrawElementKeepsAccounts(p: Playback, e: TimedDrawable, animate: bool, col: Collaborators, start: real)
    requires Accounted(col, start, p)
    ensures Accounted(col, start, DrawElement(p, e, animate, col))
  {
    var r := DrawElement(p, e, animate, col);
    var ev := r.events[|r.events| - 1];
    assert r.events == p.events + [ev];
    assert r.events[..|r.events| - 1] == p.events;
    ActsSnoc(p.events, ev);
    assert Acts(r.events)[..|Acts(r.events)| - 1] == Acts(p.events);
  }

  lemma {:induction false} FlushKeepsAccounts(p: Playback, animate: bool, col: Collaborators, start: real)
    requires Accounted(col, start, p)
    ensures Accounted(col, start, FlushEraseBuffer(p, animate, col))
    decreases |p.buffer|
  {
    if p.buffer != [] {
      var last := p.buffer[|p.buffer| - 1];
      var rest := p.buffer[..|p.buffer| - 1];
      EraseElementKeepsAccounts(p.(buffer := rest), last, animate, col, start);
      FlushKeepsAccounts(EraseElement(p.(buffer := rest), last, animate, col), animate, col, start);
    }
  }

  lemma {:induction false} DrawOrEraseAllKeepsAccounts(p: Playback, elems: seq<TimedDrawable>, animate: bool, now: Instant, col: Collaborators, start: real)
    requires Accounted(col, start, p)
    ensures Accounted(col, start, DrawOrEraseAll(p, elems, animate, now, col))
    decreases |elems|
  {
    if elems != [] {
      var e := elems[0];
      FlushKeepsAccounts(p, animate, col, start);
      if !IsRetiredAt(e, now) {
        DrawElementKeepsAccounts(FlushEraseBuffer(p, animate, col), e, animate, col, start);
      }
      DrawOrEraseAllKeepsAccounts(DrawOrEraseElement(p, e, animate, now, col), elems[1..], animate, now, col, start);
    }
  }

  lemma {:induction false} TimedDelayIsStartPlusCosts(col: Collaborators, events: seq<Event>, start: real, end: real)
    requires Timed(col, events, start, end)
    ensures end == start + SumCosts(events)
    decreases |events|
  {
    if events != [] {
      var last := events[|events| - 1];
      TimedDelayIsStartPlusCosts(col, events[..|events| - 1], start, last.at);
    }
  }

  /** Every draw and every erase reports a non-negative delay. */
  ghost predicate CostsNonNegative(col: Collaborators) {
    && (forall e, d, a :: col.drawCost(e, d, a) >= 0.0)
    && (forall e, d, a, rev :: col.eraseCost(e, d, a, rev) >= 0.0)
  }

  lemma {:induction false} ReportedCostsAreNonNegative(col: Collaborators, events: seq<Event>, start: real, end: real)
    requires CostsNonNegative(col) && Timed(col, events, start, end)
    ensures SumCosts(events) >= 0.0
    decreases |events|
  {
    if events != [] {
      var last := events[|events| - 1];
      ReportedCostsAreNonNegative(col, events[..|events| - 1], start, last.at);
      match last.act
      case DrawAct(e, a) =>
        assert col.drawCost(e, last.at, a) >= 0.0;
      case EraseAct(e, a, rev) =>
        assert col.eraseCost(e, last.at, a, rev) >= 0.0;
    }
  }

  /**
   * Playing an instant chains its draws and erases from the zoom duration:
   * each starts at the delay the previous one left, costs what its element
   * reports, and the delay handed to the layout relaxer is the zoom duration
   * plus all costs. The edges handed over are the drawn lines, in order.
   */
  lemma DrawTimedDrawablesAtAccountsDelay(net: Network, now: Instant, animate: bool, col: Collaborators)
    requires IsEpochExisting(net.slideIndex, now.epoch) ==> now.second in net.slideIndex[now.epoch]
    ensures var r := DrawTimedDrawablesAt(net, now, animate, col);
      && Timed(col, r.events, col.zoomDuration, r.delayBeforeGravitate)
      && r.delayBeforeGravitate == col.zoomDuration + SumCosts(r.events)
      && r.edges == DrawnLines(Acts(r.events))
    ensures CostsNonNegative(col) ==> DrawTimedDrawablesAt(net, now, animate, col).delayBeforeGravitate >= col.zoomDuration
  {
    var start := Playback(net.eraseBuffer, col.zoomDuration, [], []);
    var elements := TimedDrawablesAt(net.slideIndex, now);
    assert Acts(start.events) == [];
    DrawOrEraseAllKeepsAccounts(start, elements, animate, now, col, col.zoomDuration);
    FlushKeepsAccounts(DrawOrEraseAll(start, elements, animate, now, col), animate, col, col.zoomDuration);
    var r := DrawTimedDrawablesAt(net, now, animate, col);
    TimedDelayIsStartPlusCosts(col, r.events, col.zoomDuration, r.delayBeforeGravitate);
    if CostsNonNegative(col) {
      ReportedCostsAreNonNegative(col, r.events, col.zoomDuration, r.delayBeforeGravitate);
    }
  }
}
