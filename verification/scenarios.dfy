/**
 * Worked playback scenarios: erase batching on a three-element bucket, and a
 * three-element timeline played from its first instant to its second.
 */
module Scenarios {
  import opened Wrappers
  import opened Instants
  import opened Timeline
  import opened Scheduler

  /**
   * Three retirements named A, A, B at the same instant: the two A's form one
   * batch erased second-first, and the name change closes it before B.
   */
  lemma EraseBatchIsLastInFirstOut(net: Network, now: Instant, animate: bool, col: Collaborators,
                                   a1: TimedDrawable, a2: TimedDrawable, b: TimedDrawable)
    requires IsRetiredAt(a1, now) && IsRetiredAt(a2, now) && IsRetiredAt(b, now)
    requires a1.name == a2.name && b.name != a1.name
    requires HasKey(net.slideIndex, now.epoch, now.second) && net.slideIndex[now.epoch][now.second] == [a1, a2, b]
    requires net.eraseBuffer == []
    ensures Acts(DrawTimedDrawablesAt(net, now, animate, col).events)
         == [EraseActOf(a2, animate), EraseActOf(a1, animate), EraseActOf(b, animate)]
  {
    DrawTimedDrawablesAtFollowsPlan(net, now, animate, col);
    var elems := [a1, a2, b];
    assert RunLength(elems[2..], now, a1.name) == 0;
    assert RunLength(elems[1..], now, a1.name) == 1;
    assert RunLength(elems, now, a1.name) == 2;
    assert elems[..2] == [a1, a2] && elems[2..] == [b];
    assert RunLength([b][1..], now, b.name) == 0;
    assert RunLength([b], now, b.name) == 1;
    assert [b][..1] == [b] && [b][1..] == [];
    assert Plan([b], now, animate) == [EraseActOf(b, animate)];
  }

  /** Registration of the three-element timeline: L1 once at (0,0), T1 at both ends, T2 twice at (1,5). */
  lemma ThreeElementIndex(l1: TimedDrawable, t1: TimedDrawable, t2: TimedDrawable)
    requires l1.from == Instant(0, 0, Plain) && l1.to == Instant(0, 0, Plain)
    requires t1.from == Instant(0, 0, Plain) && t1.to == Instant(1, 5, Plain)
    requires t2.from == Instant(1, 5, Plain) && t2.to == Instant(1, 5, Plain)
    ensures Bucket(IndexAll([l1, t1, t2]), 0, 0) == [l1, t1]
    ensures Bucket(IndexAll([l1, t1, t2]), 1, 5) == [t1, t2, t2]
    ensures forall epoch, second :: HasKey(IndexAll([l1, t1, t2]), epoch, second) <==>
      (epoch == 0 && second == 0) || (epoch == 1 && second == 5)
  {
    var elems := [l1, t1, t2];
    var idx := IndexAll(elems);
    ThreeRegistrations(l1, t1, t2);
    assert Bucket(idx, 0, 0) == [l1, t1];
    assert Bucket(idx, 1, 5) == [t1, t2, t2];
    forall epoch, second | HasKey(idx, epoch, second)
      ensures (epoch == 0 && second == 0) || (epoch == 1 && second == 5)
    {
      assert Bucket(idx, epoch, second) != [];
    }
  }

  /** The registrations of the three elements, bucket by bucket. */
  lemma ThreeRegistrations(l1: TimedDrawable, t1: TimedDrawable, t2: TimedDrawable)
    requires l1.from == Instant(0, 0, Plain) && l1.to == Instant(0, 0, Plain)
    requires t1.from == Instant(0, 0, Plain) && t1.to == Instant(1, 5, Plain)
    requires t2.from == Instant(1, 5, Plain) && t2.to == Instant(1, 5, Plain)
    ensures RegistrationsOf([l1, t1, t2], 0, 0) == [l1, t1]
    ensures RegistrationsOf([l1, t1, t2], 1, 5) == [t1, t2, t2]
    ensures forall epoch, second :: RegistrationsOf([l1, t1, t2], epoch, second) != [] ==>
      (epoch == 0 && second == 0) || (epoch == 1 && second == 5)
  {
    var elems := [l1, t1, t2];
    assert elems[..2] == [l1, t1] && [l1, t1][..1] == [l1] && [l1][..0] == [];
    forall epoch, second
      ensures RegistrationsOf(elems, epoch, second)
           == Registrations(l1, epoch, second) + Registrations(t1, epoch, second) + Registrations(t2, epoch, second)
    {
      assert RegistrationsOf([l1], epoch, second) == Registrations(l1, epoch, second);
    }
  }

  /** With keys (0,0) and (1,5) only, the instant after (0,0) is (1,5). */
  lemma NextAfterFirstInstant(idx: Index)
    requires WellFormed(idx)
    requires forall epoch, second :: HasKey(idx, epoch, second) <==>
      (epoch == 0 && second == 0) || (epoch == 1 && second == 5)
    ensures NextInstant(idx, Instant(0, 0, Plain)) == Some(Instant(1, 5, Plain))
  {
    var now := Instant(0, 0, Plain);
    var r := NextInstant(idx, now);
    assert HasKey(idx, 1, 5);
    assert forall epoch :: epoch in idx ==> epoch == 0 || epoch == 1 by {
      forall epoch | epoch in idx ensures epoch == 0 || epoch == 1 {
        assert HasKey(idx, epoch, SomeKey(idx[epoch]));
      }
    }
  }

  /** Playing a bucket [L1, T1] where neither retires: two draws, L1 handed over as an edge, delays chained. */
  lemma TwoDrawsFrame(net: Network, now: Instant, animate: bool, col: Collaborators, l1: TimedDrawable, t1: TimedDrawable)
    requires HasKey(net.slideIndex, now.epoch, now.second) && net.slideIndex[now.epoch][now.second] == [l1, t1]
    requires net.eraseBuffer == []
    requires !IsRetiredAt(l1, now) && !IsRetiredAt(t1, now)
    requires l1.kind == LineDrawable && t1.kind != LineDrawable
    ensures var r := DrawTimedDrawablesAt(net, now, animate, col);
      && Acts(r.events) == [DrawActOf(l1, animate), DrawActOf(t1, animate)]
      && r.edges == [l1]
      && r.events[0].cost == col.drawCost(l1, col.zoomDuration, DrawActOf(l1, animate).animate)
      && r.events[1].cost == col.drawCost(t1, col.zoomDuration + r.events[0].cost, DrawActOf(t1, animate).animate)
      && r.delayBeforeGravitate == col.zoomDuration + r.events[0].cost + r.events[1].cost
  {
    DrawTimedDrawablesAtFollowsPlan(net, now, animate, col);
    DrawTimedDrawablesAtAccountsDelay(net, now, animate, col);
    assert TimedDrawablesAt(net.slideIndex, now) == [l1, t1];
    TwoDrawsPlan(l1, t1, now, animate);
    var r := DrawTimedDrawablesAt(net, now, animate, col);
    TwoDrawsChain(col, r.events, col.zoomDuration, r.delayBeforeGravitate, l1, t1, animate);
  }

  lemma TwoDrawsPlan(l1: TimedDrawable, t1: TimedDrawable, now: Instant, animate: bool)
    requires !IsRetiredAt(l1, now) && !IsRetiredAt(t1, now)
    ensures Plan([l1, t1], now, animate) == [DrawActOf(l1, animate), DrawActOf(t1, animate)]
  {
    var b0 := [l1, t1];
    assert [t1][1..] == [];
    assert Plan([t1], now, animate) == [DrawActOf(t1, animate)] + Plan([], now, animate);
    assert b0[1..] == [t1];
    assert Plan(b0, now, animate) == [DrawActOf(l1, animate)] + Plan([t1], now, animate);
  }

  /** Two draws run back to back from `start`: the line is the only edge and the costs chain. */
  lemma TwoDrawsChain(col: Collaborators, ev: seq<Event>, start: real, end: real, l1: TimedDrawable, t1: TimedDrawable, animate: bool)
    requires Acts(ev) == [DrawActOf(l1, animate), DrawActOf(t1, animate)]
    requires Timed(col, ev, start, end)
    requires l1.kind == LineDrawable && t1.kind != LineDrawable
    ensures DrawnLines(Acts(ev)) == [l1]
    ensures ev[0].cost == col.drawCost(l1, start, DrawActOf(l1, animate).animate)
    ensures ev[1].cost == col.drawCost(t1, start + ev[0].cost, DrawActOf(t1, animate).animate)
    ensures end == start + ev[0].cost + ev[1].cost
  {
    var acts := Acts(ev);
    assert |ev| == 2;
    assert acts[..1] == [DrawActOf(l1, animate)] && acts[..1][..0] == [];
    assert DrawnLines(acts[..1]) == [l1];
    assert ev[..1][..0] == [];
    var first := ev[..1];
    assert Timed(col, first, start, ev[1].at);
    assert first[0] == ev[0] && first[..0] == [];
    assert Timed(col, first[..0], start, ev[0].at);
  }

  /** Playing the bucket [T1, T2, T2] at T1's retirement: T1 erased, then T2 drawn once per copy. */
  lemma EraseThenDoubleDrawFrame(net: Network, now: Instant, animate: bool, col: Collaborators, t1: TimedDrawable, t2: TimedDrawable)
    requires HasKey(net.slideIndex, now.epoch, now.second) && net.slideIndex[now.epoch][now.second] == [t1, t2, t2]
    requires net.eraseBuffer == []
    requires IsRetiredAt(t1, now) && !IsRetiredAt(t2, now)
    ensures Acts(DrawTimedDrawablesAt(net, now, animate, col).events)
         == [EraseActOf(t1, animate), DrawActOf(t2, animate), DrawActOf(t2, animate)]
  {
    DrawTimedDrawablesAtFollowsPlan(net, now, animate, col);
    var b1 := [t1, t2, t2];
    assert RunLength(b1[1..], now, t1.name) == 0;
    assert RunLength(b1, now, t1.name) == 1;
    assert TimedDrawablesAt(net.slideIndex, now) == b1;
    assert b1[..1] == [t1] && b1[1..] == [t2, t2] && [t2, t2][1..] == [t2] && [t2][1..] == [];
    assert Plan([t2], now, animate) == [DrawActOf(t2, animate)] + Plan([], now, animate);
    assert Plan([t2, t2], now, animate) == [DrawActOf(t2, animate)] + Plan([t2], now, animate);
    assert Reversed([t1]) == [t1];
    assert EraseActsOf([t1], animate) == [EraseActOf(t1, animate)];
    assert Plan(b1, now, animate) == EraseActsOf(Reversed([t1]), animate) + Plan([t2, t2], now, animate);
  }

  /**
   * Line L1 permanent from (0,0), label T1 from (0,0) to (1,5), label T2
   * permanent from (1,5). Playing (0,0) draws L1 then T1 and hands L1 to the
   * layout relaxer; the next instant is (1,5), where T1 is erased and T2,
   * which registration put into that bucket twice, is drawn twice.
   */
  lemma ThreeElementTimeline(col: Collaborators, animate: bool, l1: TimedDrawable, t1: TimedDrawable, t2: TimedDrawable)
    requires l1.from == Instant(0, 0, Plain) && l1.to == Instant(0, 0, Plain) && l1.kind == LineDrawable
    requires t1.from == Instant(0, 0, Plain) && t1.to == Instant(1, 5, Plain) && t1.kind == LabelDrawable
    requires t2.from == Instant(1, 5, Plain) && t2.to == Instant(1, 5, Plain) && t2.kind == LabelDrawable
    ensures HasKey(IndexAll([l1, t1, t2]), 0, 0) && HasKey(IndexAll([l1, t1, t2]), 1, 5)
    ensures NextInstant(IndexAll([l1, t1, t2]), Instant(0, 0, Plain)) == Some(Instant(1, 5, Plain))
    ensures var r := DrawTimedDrawablesAt(Network(IndexAll([l1, t1, t2]), []), Instant(0, 0, Plain), animate, col);
      && Acts(r.events) == [DrawActOf(l1, animate), DrawActOf(t1, animate)]
      && r.edges == [l1]
      && r.delayBeforeGravitate == col.zoomDuration + r.events[0].cost + r.events[1].cost
    ensures Acts(DrawTimedDrawablesAt(Network(IndexAll([l1, t1, t2]), []), Instant(1, 5, Plain), animate, col).events)
         == [EraseActOf(t1, animate), DrawActOf(t2, animate), DrawActOf(t2, animate)]
  {
    ThreeElementIndex(l1, t1, t2);
    NextAfterFirstInstant(IndexAll([l1, t1, t2]));
    var net := Network(IndexAll([l1, t1, t2]), []);
    TwoDrawsFrame(net, Instant(0, 0, Plain), animate, col, l1, t1);
    EraseThenDoubleDrawFrame(net, Instant(1, 5, Plain), animate, col, t1, t2);
  }
}
