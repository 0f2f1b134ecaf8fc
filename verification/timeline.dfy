/**
 * The timeline index of the network: a sparse two-level map
 * epoch -> second -> elements, filled by registering every timed drawable at
 * its `from` instant and, unless its `to` is the origin sentinel, also at its
 * `to` instant; and the successor search that drives playback from one
 * indexed instant to the next.
 */
module Timeline {
  import opened Wrappers
  import opened Instants

  /** The concrete drawable variants; drawing a line also gives the layout relaxer an edge. */
  datatype Kind = LineDrawable | LabelDrawable | GenericDrawable

  /**
   * A timed drawable. `id` stands for the object's identity, `name` is the key
   * erase batching groups by.
   */
  datatype TimedDrawable = TimedDrawable(id: nat, name: string, from: Instant, to: Instant, kind: Kind)

  /** epoch -> second -> the elements registered at that instant, in registration order. */
  type Index = map<int, map<int, seq<TimedDrawable>>>

  predicate HasKey(idx: Index, epoch: int, second: int) {
    epoch in idx && second in idx[epoch]
  }

  /** The bucket at (epoch, second), read as empty where nothing is stored. */
  function Bucket(idx: Index, epoch: int, second: int): seq<TimedDrawable> {
    if HasKey(idx, epoch, second) then idx[epoch][second] else []
  }

  /** An element's `to` instant is indexed unless it is the origin sentinel. */
  predicate IndexesTo(e: TimedDrawable) {
    !Equals(BIG_BANG, e.to)
  }

  /** The copies of `e` that registering it puts into the bucket at (epoch, second). */
  function Registrations(e: TimedDrawable, epoch: int, second: int): seq<TimedDrawable> {
    (if e.from.epoch == epoch && e.from.second == second then [e] else [])
    + (if IndexesTo(e) && e.to.epoch == epoch && e.to.second == second then [e] else [])
  }

  predicate RegisteredAt(e: TimedDrawable, epoch: int, second: int) {
    Registrations(e, epoch, second) != []
  }

  /** The shape registration builds: no epoch without a second, no second without an element. */
  ghost predicate WellFormed(idx: Index) {
    && (forall epoch :: epoch in idx ==> idx[epoch] != map[])
    && (forall epoch, second :: HasKey(idx, epoch, second) ==> idx[epoch][second] != [])
  }

  /** Every stored element sits at its `from` instant or at its indexed `to` instant. */
  ghost predicate Registered(idx: Index) {
    forall epoch, second, i :: HasKey(idx, epoch, second) && 0 <= i < |idx[epoch][second]| ==>
      RegisteredAt(idx[epoch][second][i], epoch, second)
  }

  /** Appends `e` to the bucket of `instant`, creating the epoch and the second on demand. */
  function SetSlideIndexElement(idx: Index, instant: Instant, e: TimedDrawable): (r: Index)
    ensures forall epoch, second :: (Bucket(r, epoch, second) ==
      Bucket(idx, epoch, second) + (if epoch == instant.epoch && second == instant.second then [e] else []))
    ensures forall epoch, second :: (HasKey(r, epoch, second) <==>
      HasKey(idx, epoch, second) || (epoch == instant.epoch && second == instant.second))
    ensures r.Keys == idx.Keys + {instant.epoch}
  {
    var seconds := if instant.epoch in idx then idx[instant.epoch] else map[];
    var bucket := if instant.second in seconds then seconds[instant.second] else [];
    idx[instant.epoch := seconds[instant.second := bucket + [e]]]
  }

  /**
   * Registers `e` at its `from` instant and, unless `to` is the sentinel, at
   * its `to` instant. Every other bucket is untouched and every bucket keeps
   * its old contents as a prefix.
   */
  function AddToIndex(idx: Index, e: TimedDrawable): (r: Index)
    ensures forall epoch, second :: (Bucket(r, epoch, second) ==
      Bucket(idx, epoch, second) + Registrations(e, epoch, second))
    ensures forall epoch, second :: (HasKey(r, epoch, second) <==>
      HasKey(idx, epoch, second) || RegisteredAt(e, epoch, second))
  {
    var r := SetSlideIndexElement(idx, e.from, e);
    if IndexesTo(e) then SetSlideIndexElement(r, e.to, e) else r
  }

  /**
   * What registration does to the element's own buckets: one copy at `from`
   * when `to` is the sentinel; one copy at each of two distinct instants; and
   * two copies in the single bucket when `from` and `to` coincide.
   */
  lemma AddToIndexGrowsOwnBuckets(idx: Index, e: TimedDrawable)
    ensures !IndexesTo(e) ==>
      Bucket(AddToIndex(idx, e), e.from.epoch, e.from.second) == Bucket(idx, e.from.epoch, e.from.second) + [e]
    ensures IndexesTo(e) && Equals(e.from, e.to) ==>
      Bucket(AddToIndex(idx, e), e.from.epoch, e.from.second) == Bucket(idx, e.from.epoch, e.from.second) + [e, e]
    ensures IndexesTo(e) && !Equals(e.from, e.to) ==>
      && Bucket(AddToIndex(idx, e), e.from.epoch, e.from.second) == Bucket(idx, e.from.epoch, e.from.second) + [e]
      && Bucket(AddToIndex(idx, e), e.to.epoch, e.to.second) == Bucket(idx, e.to.epoch, e.to.second) + [e]
  {
    var r := AddToIndex(idx, e);
    assert Bucket(r, e.from.epoch, e.from.second) == Bucket(idx, e.from.epoch, e.from.second) + Registrations(e, e.from.epoch, e.from.second);
    assert Bucket(r, e.to.epoch, e.to.second) == Bucket(idx, e.to.epoch, e.to.second) + Registrations(e, e.to.epoch, e.to.second);
  }

  /** Registration keeps the index well formed and every element where it belongs. */
  lemma AddToIndexPreservesShape(idx: Index, e: TimedDrawable)
    requires WellFormed(idx) && Registered(idx)
    ensures WellFormed(AddToIndex(idx, e)) && Registered(AddToIndex(idx, e))
  {
    AddToIndexKeepsEpochsNonEmpty(idx, e);
    AddToIndexKeepsBucketsNonEmpty(idx, e);
    AddToIndexKeepsRegistered(idx, e);
  }

  lemma AddToIndexKeepsEpochsNonEmpty(idx: Index, e: TimedDrawable)
    requires forall epoch :: epoch in idx ==> idx[epoch] != map[]
    ensures forall epoch :: epoch in AddToIndex(idx, e) ==> AddToIndex(idx, e)[epoch] != map[]
  {
    var r := AddToIndex(idx, e);
    forall epoch | epoch in r
      ensures r[epoch] != map[]
    {
      if epoch in idx {
        var s := SomeKey(idx[epoch]);
        assert HasKey(r, epoch, s);
      } else {
        var s := if e.from.epoch == epoch then e.from.second else e.to.second;
        assert HasKey(r, epoch, s) by {
          assert !HasKey(r, epoch, s) ==> forall s' :: !HasKey(r, epoch, s');
        }
      }
    }
  }

  lemma AddToIndexKeepsBucketsNonEmpty(idx: Index, e: TimedDrawable)
    requires forall epoch, second :: HasKey(idx, epoch, second) ==> idx[epoch][second] != []
    ensures forall epoch, second :: HasKey(AddToIndex(idx, e), epoch, second) ==> AddToIndex(idx, e)[epoch][second] != []
  {
    var r := AddToIndex(idx, e);
    forall epoch, second | HasKey(r, epoch, second)
      ensures r[epoch][second] != []
    {
      assert Bucket(r, epoch, second) == Bucket(idx, epoch, second) + Registrations(e, epoch, second);
      if HasKey(idx, epoch, second) {
        assert Bucket(idx, epoch, second) != [];
      }
    }
  }

  lemma AddToIndexKeepsRegistered(idx: Index, e: TimedDrawable)
    requires Registered(idx)
    ensures Registered(AddToIndex(idx, e))
  {
    var r := AddToIndex(idx, e);
    forall epoch, second, i | HasKey(r, epoch, second) && 0 <= i < |r[epoch][second]|
      ensures RegisteredAt(r[epoch][second][i], epoch, second)
    {
      var old_ := Bucket(idx, epoch, second);
      assert r[epoch][second] == old_ + Registrations(e, epoch, second);
      if i < |old_| {
        assert old_[i] == idx[epoch][second][i];
      } else {
        assert r[epoch][second][i] == e;
      }
    }
  }


  /** The copies registering `elems` one after another puts into the bucket at (epoch, second), in that order. */
  function RegistrationsOf(elems: seq<TimedDrawable>, epoch: int, second: int): seq<TimedDrawable>
    decreases |elems|
  {
    if elems == [] then []
    else RegistrationsOf(elems[..|elems| - 1], epoch, second) + Registrations(elems[|elems| - 1], epoch, second)
  }

  /** Every element of the list lands in each bucket it is registered at. */
  lemma {:induction false} RegistrationsOfHoldsEach(elems: seq<TimedDrawable>, epoch: int, second: int, i: nat)
    requires i < |elems| && RegisteredAt(elems[i], epoch, second)
    ensures elems[i] in RegistrationsOf(elems, epoch, second)
    decreases |elems|
  {
    var init := elems[..|elems| - 1];
    if i < |init| {
      RegistrationsOfHoldsEach(init, epoch, second, i);
    }
  }

  /**
   * The index the rendering backend builds by registering every element in
   * document order: each bucket holds the element's copies in list order.
   */
  function IndexAll(elems: seq<TimedDrawable>): (r: Index)
    ensures WellFormed(r) && Registered(r)
    ensures forall epoch, second :: Bucket(r, epoch, second) == RegistrationsOf(elems, epoch, second)
    ensures forall epoch, second, i :: 0 <= i < |elems| && RegisteredAt(elems[i], epoch, second) ==>
      elems[i] in Bucket(r, epoch, second)
  {
    if elems == [] then map[]
    else
      var prior := IndexAll(elems[..|elems| - 1]);
      AddToIndexPreservesShape(prior, elems[|elems| - 1]);
      var r := AddToIndex(prior, elems[|elems| - 1]);
      assert forall epoch, second, i :: 0 <= i < |elems| && RegisteredAt(elems[i], epoch, second) ==>
        elems[i] in RegistrationsOf(elems, epoch, second) by {
        forall epoch, second, i | 0 <= i < |elems| && RegisteredAt(elems[i], epoch, second)
          ensures elems[i] in RegistrationsOf(elems, epoch, second)
        {
          RegistrationsOfHoldsEach(elems, epoch, second, i);
        }
      }
      r
  }

  /** Whether any bucket exists for `epoch`. */
  function IsEpochExisting(idx: Index, epoch: int): (r: bool)
    ensures WellFormed(idx) ==> (r <==> exists second :: HasKey(idx, epoch, second))
  {
    assert epoch in idx && WellFormed(idx) ==> HasKey(idx, epoch, SomeKey(idx[epoch]));
    epoch in idx
  }

  /**
   * The elements registered at `now`. The source guards only against an
   * absent epoch; an absent second inside a present epoch yields `undefined`,
   * which its caller cannot handle, so that case is excluded here.
   */
  function TimedDrawablesAt(idx: Index, now: Instant): (r: seq<TimedDrawable>)
    requires IsEpochExisting(idx, now.epoch) ==> now.second in idx[now.epoch]
    ensures !IsEpochExisting(idx, now.epoch) ==> r == []
    ensures HasKey(idx, now.epoch, now.second) ==> r == idx[now.epoch][now.second]
    ensures Registered(idx) ==> forall e :: e in r ==> RegisteredAt(e, now.epoch, now.second)
  {
    if !IsEpochExisting(idx, now.epoch) then [] else idx[now.epoch][now.second]
  }

  /** A registered element is found at its `from` instant and at its indexed `to` instant. */
  lemma RegisteredElementIsFound(idx: Index, e: TimedDrawable)
    ensures e in TimedDrawablesAt(AddToIndex(idx, e), e.from)
    ensures IndexesTo(e) ==> e in TimedDrawablesAt(AddToIndex(idx, e), e.to)
  {
    var r := AddToIndex(idx, e);
    assert Bucket(r, e.from.epoch, e.from.second) == Bucket(idx, e.from.epoch, e.from.second) + Registrations(e, e.from.epoch, e.from.second);
    assert Bucket(r, e.to.epoch, e.to.second) == Bucket(idx, e.to.epoch, e.to.second) + Registrations(e, e.to.epoch, e.to.second);
  }

  /** Some element of a non-empty set. */
  ghost function SomeElement(s: set<int>): (x: int)
    requires s != {}
    ensures x in s
  {
    // A set without members is the empty set, which `s` is not.
    assert (forall y :: y !in s) ==> s == {};
    var x :| x in s;
    x
  }

  /** Some key of a non-empty map. */
  ghost function SomeKey<V>(m: map<int, V>): (k: int)
    requires m != map[]
    ensures k in m
  {
    SomeElement(m.Keys)
  }

  lemma {:induction false} LeastExists(s: set<int>)
    requires s != {}
    ensures exists m :: m in s && forall x :: x in s ==> m <= x
    decreases |s|
  {
    var y := SomeElement(s);
    if s == {y} {
      assert forall x :: x in s ==> y <= x;
    } else {
      var others := s - {y};
      assert |others| == |s| - 1;
      LeastExists(others);
      var m :| m in others && forall x :: x in others ==> m <= x;
      var least := if y < m then y else m;
      forall x | x in s
        ensures least <= x
      {
        if x != y {
          assert x in others;
        }
      }
      assert least in s;
    }
  }

  /** The least element of a non-empty finite set of integers. */
  function Least(s: set<int>): (m: int)
    requires s != {}
    ensures m in s && forall x :: x in s ==> m <= x
  {
    LeastExists(s);
    var m :| m in s && forall x :: x in s ==> m <= x;
    m
  }

  /**
   * The smallest key of `dict` strictly above `threshold`; `None` when the
   * dictionary is absent or has no such key.
   */
  function FindSmallestAbove<V>(threshold: int, dict: Option<map<int, V>>): (r: Option<int>)
    ensures dict.None? ==> r.None?
    ensures dict.Some? ==> (r.None? <==> forall k :: k in dict.value ==> k <= threshold)
    ensures r.Some? ==> && dict.Some? && r.value in dict.value && r.value > threshold
                        && forall k :: k in dict.value && k > threshold ==> r.value <= k
  {
    match dict
    case None => None
    case Some(d) =>
      var above := set k | k in d && k > threshold;
      assert forall k :: k in d && k > threshold ==> k in above;
      if above == {} then None else Some(Least(above))
  }

  /**
   * The scan of `findSmallestAbove` as written: walking the keys in
   * enumeration order, a key is kept when it lies above the threshold and
   * below the smallest kept so far.
   */
  function Scan(keys: seq<int>, threshold: int, smallest: Option<int>): Option<int>
    decreases |keys|
  {
    if keys == [] then smallest
    else
      var k := keys[0];
      Scan(keys[1..], threshold, if k > threshold && (smallest.None? || k < smallest.value) then Some(k) else smallest)
  }

  /**
   * The scan ends with nothing kept iff it started with nothing and no key
   * lies above the threshold; otherwise with the least of what it started
   * with and the keys above the threshold.
   */
  lemma {:induction false} ScanIsLeast(keys: seq<int>, threshold: int, smallest: Option<int>)
    ensures var r := Scan(keys, threshold, smallest);
      && (r.None? <==> smallest.None? && forall k :: k in keys ==> k <= threshold)
      && (r.Some? ==> r == smallest || (r.value in keys && r.value > threshold))
      && (r.Some? ==> (smallest.Some? ==> r.value <= smallest.value) && forall k :: k in keys && k > threshold ==> r.value <= k)
    decreases |keys|
  {
    if keys != [] {
      var k, rest := keys[0], keys[1..];
      var kept := if k > threshold && (smallest.None? || k < smallest.value) then Some(k) else smallest;
      ScanIsLeast(rest, threshold, kept);
      assert Scan(keys, threshold, smallest) == Scan(rest, threshold, kept);
      assert forall x :: x in keys <==> x == k || x in rest;
      assert k in keys;
      assert kept.None? <==> smallest.None? && k <= threshold;
    }
  }

  /**
   * Whatever order the dictionary's keys are enumerated in, the scan started
   * with nothing kept returns the least key above the threshold.
   */
  lemma ScanFindsSmallestAbove<V>(threshold: int, d: map<int, V>, keys: seq<int>)
    requires forall k :: k in keys <==> k in d
    ensures Scan(keys, threshold, None) == FindSmallestAbove(threshold, Some(d))
  {
    ScanIsLeast(keys, threshold, None);
    var r := Scan(keys, threshold, None);
    var f := FindSmallestAbove(threshold, Some(d));
    if r.Some? {
      assert f.Some? && f.value <= r.value && r.value <= f.value;
    }
  }

  /** The seconds dictionary of `epoch`, absent when the epoch is not indexed. */
  function SecondsOf(idx: Index, epoch: int): Option<map<int, seq<TimedDrawable>>> {
    if epoch in idx then Some(idx[epoch]) else None
  }

  /**
   * The next instant to play after `now`: the smallest indexed second above
   * `now.second` in the same epoch; failing that, the smallest indexed epoch
   * above `now.epoch` with its smallest second above -1; `None` when neither
   * exists.
   */
  function NextInstant(idx: Index, now: Instant): (r: Option<Instant>)
    ensures r.Some? ==> r.value.flag == Plain && HasKey(idx, r.value.epoch, r.value.second) && Before(now, r.value)
    ensures (exists s :: HasKey(idx, now.epoch, s) && s > now.second) ==> r.Some? && r.value.epoch == now.epoch
    ensures r.Some? && r.value.epoch == now.epoch ==>
      forall s :: HasKey(idx, now.epoch, s) && s > now.second ==> r.value.second <= s
    ensures r.Some? && r.value.epoch != now.epoch ==>
      && (forall epoch :: epoch in idx && epoch > now.epoch ==> r.value.epoch <= epoch)
      && r.value.second >= 0
      && (forall s :: HasKey(idx, r.value.epoch, s) && s >= 0 ==> r.value.second <= s)
    ensures r.None? ==>
      && (forall s :: HasKey(idx, now.epoch, s) ==> s <= now.second)
      && (forall epoch :: epoch in idx && epoch > now.epoch && (forall e :: e in idx && e > now.epoch ==> epoch <= e) ==>
            forall s :: s in idx[epoch] ==> s < 0)
  {
    match FindSmallestAbove(now.second, SecondsOf(idx, now.epoch))
    case Some(second) => Some(Instant(now.epoch, second, Plain))
    case None =>
      match FindSmallestAbove(now.epoch, Some(idx))
      case None => None
      case Some(epoch) =>
        match FindSmallestAbove(-1, Some(idx[epoch]))
        case None => None
        case Some(second) => Some(Instant(epoch, second, Plain))
  }

  /** No indexed second is negative: the case the -1 threshold of the epoch step is written for. */
  ghost predicate NonNegativeSeconds(idx: Index) {
    forall epoch, second :: HasKey(idx, epoch, second) ==> second >= 0
  }

  /** The indexed instants strictly after `now`, each with the plain flag. */
  ghost function KeysAbove(idx: Index, now: Instant): set<Instant> {
    set epoch, second | epoch in idx && second in idx[epoch] && Before(now, Instant(epoch, second, Plain))
      :: Instant(epoch, second, Plain)
  }

  /**
   * With a well-formed index of non-negative seconds, the next instant is the
   * least indexed instant after `now`: nothing indexed lies strictly between,
   * and `None` means nothing indexed comes later.
   */
  lemma NextInstantIsLeastKeyAbove(idx: Index, now: Instant)
    requires WellFormed(idx) && NonNegativeSeconds(idx)
    ensures NextInstant(idx, now).None? <==> KeysAbove(idx, now) == {}
    ensures NextInstant(idx, now).Some? ==>
      KeysAbove(idx, now) == {NextInstant(idx, now).value} + KeysAbove(idx, NextInstant(idx, now).value)
  {
    var r := NextInstant(idx, now);
    match r
    case None =>
      if k :| k in KeysAbove(idx, now) {
        assert HasKey(idx, k.epoch, k.second);
        var later := set e | e in idx && e > now.epoch;
        assert k.epoch in later;
        var epoch := Least(later);
        assert HasKey(idx, epoch, SomeKey(idx[epoch]));
      }
    case Some(n) =>
      assert n in KeysAbove(idx, now);
      forall k | k in KeysAbove(idx, now) && k != n
        ensures k in KeysAbove(idx, n)
      {
        assert HasKey(idx, k.epoch, k.second);
      }
  }

  lemma KeysAboveShrink(idx: Index, now: Instant, n: Instant)
    requires NextInstant(idx, now) == Some(n)
    ensures |KeysAbove(idx, n)| < |KeysAbove(idx, now)|
  {
    var a, b := KeysAbove(idx, now), KeysAbove(idx, n);
    assert n in a - b;
    assert b <= a;
    assert a == b + (a - b);
    assert b * (a - b) == {};
  }

  /** The instants playback visits after `now` by following `NextInstant` until it returns `None`. */
  ghost function Successors(idx: Index, now: Instant): seq<Instant>
    decreases |KeysAbove(idx, now)|
  {
    match NextInstant(idx, now)
    case None => []
    case Some(n) =>
      KeysAboveShrink(idx, now, n);
      [n] + Successors(idx, n)
  }

  /**
   * Following `NextInstant` from `now` visits every indexed instant after
   * `now` exactly once, in strictly increasing timeline order.
   */
  lemma {:induction false} PlaybackVisitsEveryInstantOnce(idx: Index, now: Instant)
    requires WellFormed(idx) && NonNegativeSeconds(idx)
    ensures forall k :: k in Successors(idx, now) <==> k in KeysAbove(idx, now)
    ensures forall i, j :: 0 <= i < j < |Successors(idx, now)| ==>
      Before(Successors(idx, now)[i], Successors(idx, now)[j])
    decreases |KeysAbove(idx, now)|
  {
    NextInstantIsLeastKeyAbove(idx, now);
    match NextInstant(idx, now)
    case None =>
    case Some(n) =>
      KeysAboveShrink(idx, now, n);
      PlaybackVisitsEveryInstantOnce(idx, n);
      assert Successors(idx, now) == [n] + Successors(idx, n);
      assert forall k :: k in KeysAbove(idx, n) ==> Before(n, k);
      ConsKeepsVisits(n, Successors(idx, n), KeysAbove(idx, now), KeysAbove(idx, n));
  }

  /** Prefixing the least instant to an increasing enumeration of the rest enumerates all, increasingly. */
  lemma ConsKeepsVisits(n: Instant, rest: seq<Instant>, above: set<Instant>, aboveN: set<Instant>)
    requires forall k :: k in rest <==> k in aboveN
    requires forall i, j :: 0 <= i < j < |rest| ==> Before(rest[i], rest[j])
    requires above == {n} + aboveN
    requires forall k :: k in aboveN ==> Before(n, k)
    ensures forall k :: k in [n] + rest <==> k in above
    ensures forall i, j :: 0 <= i < j < |[n] + rest| ==> Before(([n] + rest)[i], ([n] + rest)[j])
  {
    var all := [n] + rest;
    forall k
      ensures k in all <==> k in above
    {
      assert k in all <==> k == n || k in rest;
    }
    forall i, j | 0 <= i < j < |all|
      ensures Before(all[i], all[j])
    {
      assert all[j] == rest[j - 1];
      if i == 0 {
        assert rest[j - 1] in aboveN;
      } else {
        assert all[i] == rest[i - 1];
      }
    }
  }

  /**
   * The -1 threshold assumes seconds are never negative: an epoch holding only
   * a negative second is skipped and playback stops although an indexed
   * instant comes later.
   */
  lemma NegativeSecondEndsPlayback(e: TimedDrawable)
    requires e.from == Instant(1, -5, Plain) && e.to == BIG_BANG
    ensures NextInstant(IndexAll([e]), BIG_BANG).None?
    ensures Instant(1, -5, Plain) in KeysAbove(IndexAll([e]), BIG_BANG)
  {
    var idx := IndexAll([e]);
    assert IndexAll([e][..0]) == map[];
    assert Bucket(idx, 1, -5) == [e];
    assert forall epoch, second :: HasKey(idx, epoch, second) ==> epoch == 1 && second == -5 by {
      forall epoch, second | HasKey(idx, epoch, second)
        ensures epoch == 1 && second == -5
      {
        assert RegisteredAt(idx[epoch][second][0], epoch, second);
      }
    }
  }

  /**
   * Entering an epoch from an earlier one starts at its least second above
   * -1, so a negative second of that epoch is skipped even when the epoch
   * also holds a non-negative one: from the origin, playback goes to (1, 4)
   * and ends there, never showing (1, -3).
   */
  lemma NegativeSecondSkippedOnEntry(e1: TimedDrawable, e2: TimedDrawable)
    ensures var idx := map[1 := map[-3 := [e1], 4 := [e2]]];
      && NextInstant(idx, BIG_BANG) == Some(Instant(1, 4, Plain))
      && NextInstant(idx, Instant(1, 4, Plain)).None?
      && Instant(1, -3, Plain) in KeysAbove(idx, BIG_BANG)
  {
    var idx := map[1 := map[-3 := [e1], 4 := [e2]]];
    assert HasKey(idx, 1, 4);
    assert idx[1].Keys == {-3, 4};
  }
}
