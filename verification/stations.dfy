/**
 * The track registry of a station: per axis, the lines passing through it
 * and the track each one occupies. Tracks are integer offsets from the
 * station's centre line, counted in units of LINE_DISTANCE.
 */
module Stations {
  import opened Wrappers

  const LINE_DISTANCE: int := 6
  const DEFAULT_STOP_DIMEN: int := 10
  const LABEL_DISTANCE: int := 0

  /** A line is identified by `id`; `name` is what lookups compare, and two distinct lines may share it. */
  datatype Line = Line(id: nat, name: string)

  datatype Axis = X | Y

  function Other(axis: Axis): Axis {
    if axis == X then Y else X
  }

  datatype LineTrack = LineTrack(line: Line, track: int)

  /** What a lookup by name reports: the line found, its axis and its track. */
  datatype LineAtStation = LineAtStation(line: Line, axis: Axis, track: int)

  datatype Station = Station(x: seq<LineTrack>, y: seq<LineTrack>)
  {
    function Lines(axis: Axis): seq<LineTrack> {
      if axis == X then x else y
    }

    function WithLines(axis: Axis, lines: seq<LineTrack>): (r: Station)
      ensures r.Lines(axis) == lines && r.Lines(Other(axis)) == Lines(Other(axis))
    {
      if axis == X then this.(x := lines) else this.(y := lines)
    }
  }

  /** The pair [left, right] of the source; [1, -1] stands for an axis without lines. */
  datatype Boundary = Boundary(left: int, right: int)

  datatype Boundaries = Boundaries(x: Boundary, y: Boundary)
  {
    function For(axis: Axis): Boundary {
      if axis == X then x else y
    }
  }

  datatype PreferredTrack = Explicit(track: int) | Positive | Negative

  predicate SameLine(a: Line, b: Line) {
    a.id == b.id
  }

  // ---------------------------------------------------------------------------
  // Adding and removing lines
  // ---------------------------------------------------------------------------

  /** `line` takes `track` at the end of `axis`'s list; the other axis is untouched. */
  function AddLine(s: Station, line: Line, axis: Axis, track: int): (r: Station)
    ensures |r.Lines(axis)| == |s.Lines(axis)| + 1
    ensures r.Lines(axis)[..|s.Lines(axis)|] == s.Lines(axis)
    ensures r.Lines(axis)[|s.Lines(axis)|] == LineTrack(line, track)
    ensures r.Lines(Other(axis)) == s.Lines(Other(axis))
  {
    s.WithLines(axis, s.Lines(axis) + [LineTrack(line, track)])
  }

  /** The entries of `lines` whose line is not `line`, in their original order. */
  function RemoveLineAtAxis(lines: seq<LineTrack>, line: Line): (r: seq<LineTrack>)
    ensures forall i :: 0 <= i < |r| ==> !SameLine(r[i].line, line)
    ensures forall e :: e in lines && !SameLine(e.line, line) ==> e in r
    ensures forall e :: e in r ==> e in lines
    decreases |lines|
  {
    if lines == [] then []
    else (if SameLine(lines[0].line, line) then [] else [lines[0]]) + RemoveLineAtAxis(lines[1..], line)
  }

  /**
   * The source's splice loop: an entry of `line` is cut out where it stands
   * and the cursor stays put; any other entry moves the cursor on.
   */
  method SpliceLineAtAxis(lines: seq<LineTrack>, line: Line) returns (r: seq<LineTrack>)
    ensures r == RemoveLineAtAxis(lines, line)
  {
    r := lines;
    var i := 0;
    while i < |r|
      invariant 0 <= i <= |r|
      invariant r[..i] + RemoveLineAtAxis(r[i..], line) == RemoveLineAtAxis(lines, line)
      decreases |r| - i
    {
      if SameLine(r[i].line, line) {
        SpliceCut(r, i, line);
        r := r[..i] + r[i + 1..];
      } else {
        SpliceKeep(r, i, line);
        i := i + 1;
      }
    }
    assert r[i..] == [] && r[..i] == r;
  }

  /** Cutting out an entry of `line` loses nothing the filter keeps. */
  lemma SpliceCut(r: seq<LineTrack>, i: nat, line: Line)
    requires i < |r| && SameLine(r[i].line, line)
    ensures (r[..i] + r[i + 1..])[..i] + RemoveLineAtAxis((r[..i] + r[i + 1..])[i..], line)
         == r[..i] + RemoveLineAtAxis(r[i..], line)
  {
    var rest := r[i..];
    assert rest[0] == r[i] && rest[1..] == r[i + 1..];
    assert RemoveLineAtAxis(rest, line) == RemoveLineAtAxis(r[i + 1..], line);
    var kept := r[..i];
    var cut := kept + r[i + 1..];
    assert cut[..i] == kept;
    assert cut[i..] == r[i + 1..];
  }

  /** Stepping over an entry of another line moves it from the unfiltered rest to the kept prefix. */
  lemma SpliceKeep(r: seq<LineTrack>, i: nat, line: Line)
    requires i < |r| && !SameLine(r[i].line, line)
    ensures r[..i + 1] + RemoveLineAtAxis(r[i + 1..], line) == r[..i] + RemoveLineAtAxis(r[i..], line)
  {
    var rest := r[i..];
    assert rest[0] == r[i] && rest[1..] == r[i + 1..];
    var kept := r[..i];
    var tail := RemoveLineAtAxis(r[i + 1..], line);
    assert RemoveLineAtAxis(rest, line) == [r[i]] + tail;
    assert r[..i + 1] == kept + [r[i]];
    assert (kept + [r[i]]) + tail == kept + ([r[i]] + tail);
  }

  /** Both axes lose every entry of `line`; all other entries stay, in order. */
  function RemoveLine(s: Station, line: Line): (r: Station)
    ensures forall axis, i :: 0 <= i < |r.Lines(axis)| ==> !SameLine(r.Lines(axis)[i].line, line)
    ensures forall axis, e :: e in s.Lines(axis) && !SameLine(e.line, line) ==> e in r.Lines(axis)
    ensures forall axis, e :: e in r.Lines(axis) ==> e in s.Lines(axis)
  {
    Station(RemoveLineAtAxis(s.x, line), RemoveLineAtAxis(s.y, line))
  }

  lemma {:induction false} RemoveLineAtAxisDistributes(a: seq<LineTrack>, b: seq<LineTrack>, line: Line)
    ensures RemoveLineAtAxis(a + b, line) == RemoveLineAtAxis(a, line) + RemoveLineAtAxis(b, line)
    decreases |a|
  {
    if a == [] {
      assert a + b == b;
    } else {
      assert (a + b)[1..] == a[1..] + b;
      RemoveLineAtAxisDistributes(a[1..], b, line);
    }
  }

  lemma {:induction false} RemoveLineAtAxisKeepsOthers(lines: seq<LineTrack>, line: Line)
    requires forall i :: 0 <= i < |lines| ==> !SameLine(lines[i].line, line)
    ensures RemoveLineAtAxis(lines, line) == lines
    decreases |lines|
  {
    if lines != [] {
      RemoveLineAtAxisKeepsOthers(lines[1..], line);
      assert [lines[0]] + lines[1..] == lines;
    }
  }

  lemma RemoveLineIsIdempotent(s: Station, line: Line)
    ensures RemoveLine(RemoveLine(s, line), line) == RemoveLine(s, line)
  {
    var r := RemoveLine(s, line);
    RemoveLineAtAxisKeepsOthers(r.x, line);
    RemoveLineAtAxisKeepsOthers(r.y, line);
  }

  /** Removing a line that was absent before it was added gives back the station. */
  lemma RemoveUndoesAdd(s: Station, line: Line, axis: Axis, track: int)
    requires forall ax, i :: 0 <= i < |s.Lines(ax)| ==> !SameLine(s.Lines(ax)[i].line, line)
    ensures RemoveLine(AddLine(s, line, axis, track), line) == s
  {
    var added := AddLine(s, line, axis, track);
    assert added.Lines(axis) == s.Lines(axis) + [LineTrack(line, track)];
    RemoveLineAtAxisDistributes(s.Lines(axis), [LineTrack(line, track)], line);
    assert [LineTrack(line, track)][1..] == [];
    assert RemoveLineAtAxis([LineTrack(line, track)], line) == [];
    RemoveLineAtAxisKeepsOthers(s.x, line);
    RemoveLineAtAxisKeepsOthers(s.y, line);
    assert s.Lines(axis) + [] == s.Lines(axis);
  }

  // ---------------------------------------------------------------------------
  // Lookup by name
  // ---------------------------------------------------------------------------

  /** Entry `i` is the first one of `lines` whose line is called `name`. */
  ghost predicate IsFirstNamed(lines: seq<LineTrack>, name: string, i: int) {
    && 0 <= i < |lines|
    && lines[i].line.name == name
    && forall j :: 0 <= j < i ==> lines[j].line.name != name
  }

  function TrackForLineAtAxis(lines: seq<LineTrack>, name: string): (r: Option<LineTrack>)
    ensures r.None? <==> forall i :: 0 <= i < |lines| ==> lines[i].line.name != name
    ensures r.Some? ==> exists i :: IsFirstNamed(lines, name, i) && lines[i] == r.value
    decreases |lines|
  {
    if lines == [] then None
    else if lines[0].line.name == name then
      assert IsFirstNamed(lines, name, 0);
      Some(lines[0])
    else
      var r := TrackForLineAtAxis(lines[1..], name);
      assert r.Some? ==> exists i :: IsFirstNamed(lines, name, i) && lines[i] == r.value by {
        if r.Some? {
          var k :| IsFirstNamed(lines[1..], name, k) && lines[1..][k] == r.value;
          assert IsFirstNamed(lines, name, k + 1);
        }
      }
      assert r.None? ==> forall i :: 0 <= i < |lines| ==> lines[i].line.name != name by {
        if r.None? {
          forall i | 0 <= i < |lines| ensures lines[i].line.name != name {
            if i > 0 { assert lines[i] == lines[1..][i - 1]; }
          }
        }
      }
      r
  }

  /** The first entry named `name` on the x axis, failing that the first on the y axis. */
  function AxisAndTrackForExistingLine(s: Station, name: string): (r: Option<LineAtStation>)
    ensures r.None? <==> forall axis, i :: 0 <= i < |s.Lines(axis)| ==> s.Lines(axis)[i].line.name != name
    ensures r.Some? ==> exists i ::
      IsFirstNamed(s.Lines(r.value.axis), name, i) && s.Lines(r.value.axis)[i] == LineTrack(r.value.line, r.value.track)
    ensures r.Some? && r.value.axis == Y ==> forall i :: 0 <= i < |s.x| ==> s.x[i].line.name != name
  {
    assert s.Lines(X) == s.x && s.Lines(Y) == s.y;
    match TrackForLineAtAxis(s.x, name)
    case Some(e) => Some(LineAtStation(e.line, X, e.track))
    case None =>
      match TrackForLineAtAxis(s.y, name)
      case Some(e) => Some(LineAtStation(e.line, Y, e.track))
      case None => None
  }

  /** A line added under a name no entry uses is what a lookup of that name reports. */
  lemma LookupFindsAddedLine(s: Station, line: Line, axis: Axis, track: int)
    requires forall ax, i :: 0 <= i < |s.Lines(ax)| ==> s.Lines(ax)[i].line.name != line.name
    ensures AxisAndTrackForExistingLine(AddLine(s, line, axis, track), line.name) == Some(LineAtStation(line, axis, track))
  {
    var added := AddLine(s, line, axis, track);
    var r := AxisAndTrackForExistingLine(added, line.name);
    var n := |s.Lines(axis)|;
    assert added.Lines(axis)[n].line.name == line.name;
    var i :| IsFirstNamed(added.Lines(r.value.axis), line.name, i)
      && added.Lines(r.value.axis)[i] == LineTrack(r.value.line, r.value.track);
  }

  /** Removal goes by identity: a different line with the same name is still found. */
  lemma RemovalKeepsNamesakes(s: Station, line: Line, other: Line, axis: Axis, track: int)
    requires LineTrack(other, track) in s.Lines(axis)
    requires !SameLine(other, line)
    ensures AxisAndTrackForExistingLine(RemoveLine(s, line), other.name).Some?
  {
    var r := RemoveLine(s, line);
    assert LineTrack(other, track) in r.Lines(axis);
    var i :| 0 <= i < |r.Lines(axis)| && r.Lines(axis)[i] == LineTrack(other, track);
    assert r.Lines(axis)[i].line.name == other.name;
  }

  // ---------------------------------------------------------------------------
  // Boundaries and track assignment
  // ---------------------------------------------------------------------------

  /** The source's scan: `left` and `right` widen to every track they have not yet reached. */
  function Extent(lines: seq<LineTrack>, left: int, right: int): (b: Boundary)
    ensures b.left <= left && right <= b.right
    ensures forall i :: 0 <= i < |lines| ==> b.left <= lines[i].track <= b.right
    ensures b.left == left || exists i :: 0 <= i < |lines| && lines[i].track == b.left
    ensures b.right == right || exists i :: 0 <= i < |lines| && lines[i].track == b.right
    decreases |lines|
  {
    if lines == [] then Boundary(left, right)
    else
      var t := lines[0].track;
      var b := Extent(lines[1..], if left > t then t else left, if right < t then t else right);
      assert forall i :: 1 <= i < |lines| ==> lines[i] == lines[1..][i - 1];
      assert b.left == left || exists i :: 0 <= i < |lines| && lines[i].track == b.left by {
        if b.left != left && b.left != t {
          var k :| 0 <= k < |lines[1..]| && lines[1..][k].track == b.left;
          assert lines[k + 1].track == b.left;
        }
      }
      assert b.right == right || exists i :: 0 <= i < |lines| && lines[i].track == b.right by {
        if b.right != right && b.right != t {
          var k :| 0 <= k < |lines[1..]| && lines[1..][k].track == b.right;
          assert lines[k + 1].track == b.right;
        }
      }
      b
  }

  /**
   * [1, -1] on an empty axis; otherwise the least and greatest of 0 and the
   * tracks, since the scan starts from 0 on both sides.
   */
  function PositionBoundariesForAxis(lines: seq<LineTrack>): (b: Boundary)
    ensures lines == [] ==> b == Boundary(1, -1)
    ensures lines != [] ==>
      && b.left <= 0 <= b.right
      && (forall i :: 0 <= i < |lines| ==> b.left <= lines[i].track <= b.right)
      && (b.left == 0 || exists i :: 0 <= i < |lines| && lines[i].track == b.left)
      && (b.right == 0 || exists i :: 0 <= i < |lines| && lines[i].track == b.right)
  {
    if |lines| == 0 then Boundary(1, -1) else Extent(lines, 0, 0)
  }

  function PositionBoundaries(s: Station): (b: Boundaries)
    ensures forall axis :: b.For(axis) == PositionBoundariesForAxis(s.Lines(axis))
  {
    Boundaries(PositionBoundariesForAxis(s.x), PositionBoundariesForAxis(s.y))
  }

  function Min(a: int, b: int): int {
    if a <= b then a else b
  }

  function Max(a: int, b: int): int {
    if a >= b then a else b
  }

  /** One more entry widens the boundaries to cover its track and changes nothing else. */
  lemma BoundariesOfAppended(lines: seq<LineTrack>, e: LineTrack)
    ensures lines == [] ==> PositionBoundariesForAxis(lines + [e]) == Boundary(Min(0, e.track), Max(0, e.track))
    ensures lines != [] ==>
      var b := PositionBoundariesForAxis(lines);
      PositionBoundariesForAxis(lines + [e]) == Boundary(Min(b.left, e.track), Max(b.right, e.track))
  {
    if lines == [] {
      assert lines + [e] == [e];
    } else {
      LeftOfAppended(lines, e);
      RightOfAppended(lines, e);
    }
  }

  lemma LeftOfAppended(lines: seq<LineTrack>, e: LineTrack)
    requires lines != []
    ensures PositionBoundariesForAxis(lines + [e]).left == Min(PositionBoundariesForAxis(lines).left, e.track)
  {
    var all := lines + [e];
    var b := PositionBoundariesForAxis(lines);
    var b' := PositionBoundariesForAxis(all);
    assert all[|lines|] == e;
    if b.left != 0 {
      var i :| 0 <= i < |lines| && lines[i].track == b.left;
      assert all[i] == lines[i];
    }
    if b'.left != 0 && b'.left != e.track {
      var i :| 0 <= i < |all| && all[i].track == b'.left;
      assert all[i] == lines[i];
    }
  }

  lemma RightOfAppended(lines: seq<LineTrack>, e: LineTrack)
    requires lines != []
    ensures PositionBoundariesForAxis(lines + [e]).right == Max(PositionBoundariesForAxis(lines).right, e.track)
  {
    var all := lines + [e];
    var b := PositionBoundariesForAxis(lines);
    var b' := PositionBoundariesForAxis(all);
    assert all[|lines|] == e;
    if b.right != 0 {
      var i :| 0 <= i < |lines| && lines[i].track == b.right;
      assert all[i] == lines[i];
    }
    if b'.right != 0 && b'.right != e.track {
      var i :| 0 <= i < |all| && all[i].track == b'.right;
      assert all[i] == lines[i];
    }
  }

  /** Adding a line moves only its own axis's boundaries, and only outwards to its track. */
  lemma AddLineWidensOnlyItsAxis(s: Station, line: Line, axis: Axis, track: int)
    ensures PositionBoundaries(AddLine(s, line, axis, track)).For(Other(axis)) == PositionBoundaries(s).For(Other(axis))
    ensures s.Lines(axis) == [] ==> PositionBoundaries(AddLine(s, line, axis, track)).For(axis) == Boundary(Min(0, track), Max(0, track))
    ensures s.Lines(axis) != [] ==>
      var b := PositionBoundaries(s).For(axis);
      PositionBoundaries(AddLine(s, line, axis, track)).For(axis) == Boundary(Min(b.left, track), Max(b.right, track))
  {
    var added := AddLine(s, line, axis, track);
    assert added.Lines(axis) == s.Lines(axis) + [LineTrack(line, track)];
    BoundariesOfAppended(s.Lines(axis), LineTrack(line, track));
  }

  /**
   * An explicit preference is taken as it is; otherwise the track just
   * outside the boundary on the preferred side, which on an empty axis is 0.
   */
  function AssignTrack(s: Station, axis: Axis, preferred: PreferredTrack): (t: int)
    ensures preferred.Explicit? ==> t == preferred.track
    ensures preferred.Positive? ==>
      && (forall i :: 0 <= i < |s.Lines(axis)| ==> s.Lines(axis)[i].track < t)
      && (s.Lines(axis) == [] ==> t == 0)
      && (s.Lines(axis) != [] ==> t >= 1 && (t - 1 == 0 || exists i :: 0 <= i < |s.Lines(axis)| && s.Lines(axis)[i].track == t - 1))
    ensures preferred.Negative? ==>
      && (forall i :: 0 <= i < |s.Lines(axis)| ==> t < s.Lines(axis)[i].track)
      && (s.Lines(axis) == [] ==> t == 0)
      && (s.Lines(axis) != [] ==> t <= -1 && (t + 1 == 0 || exists i :: 0 <= i < |s.Lines(axis)| && s.Lines(axis)[i].track == t + 1))
  {
    var b := PositionBoundaries(s).For(axis);
    match preferred
    case Explicit(n) => n
    case Positive => b.right + 1
    case Negative => b.left - 1
  }

  /** A line put on its assigned outward track becomes the new boundary on that side. */
  lemma AssignedTrackBecomesBoundary(s: Station, line: Line, axis: Axis, preferred: PreferredTrack)
    requires !preferred.Explicit?
    ensures var t := AssignTrack(s, axis, preferred);
      var b := PositionBoundaries(AddLine(s, line, axis, t)).For(axis);
      if preferred.Positive? then b.right == t else b.left == t
  {
    var t := AssignTrack(s, axis, preferred);
    AddLineWidensOnlyItsAxis(s, line, axis, t);
  }

  /**
   * The integer part of the station's extent along `axis` in the direction
   * of `v`: the outermost track on that side, in drawing units, plus the
   * stop's own size; 0 when `v` is 0.
   */
  function StationSizeForAxis(s: Station, axis: Axis, v: int): (size: int)
    ensures v == 0 ==> size == 0
    ensures v > 0 && s.Lines(axis) == [] ==> size == 4
    ensures v < 0 && s.Lines(axis) == [] ==> size == -4
    ensures v > 0 && s.Lines(axis) != [] ==>
      && size >= DEFAULT_STOP_DIMEN + LABEL_DISTANCE
      && (forall i :: 0 <= i < |s.Lines(axis)| ==> s.Lines(axis)[i].track * LINE_DISTANCE + DEFAULT_STOP_DIMEN + LABEL_DISTANCE <= size)
      && (size == DEFAULT_STOP_DIMEN + LABEL_DISTANCE || 
          (exists i :: 0 <= i < |s.Lines(axis)| && s.Lines(axis)[i].track * LINE_DISTANCE + DEFAULT_STOP_DIMEN + LABEL_DISTANCE == size))
    ensures v < 0 && s.Lines(axis) != [] ==>
      && size <= -(DEFAULT_STOP_DIMEN + LABEL_DISTANCE)
      && (forall i :: 0 <= i < |s.Lines(axis)| ==> size <= s.Lines(axis)[i].track * LINE_DISTANCE - (DEFAULT_STOP_DIMEN + LABEL_DISTANCE))
      && (size == -(DEFAULT_STOP_DIMEN + LABEL_DISTANCE) || 
          (exists i :: 0 <= i < |s.Lines(axis)| && s.Lines(axis)[i].track * LINE_DISTANCE - (DEFAULT_STOP_DIMEN + LABEL_DISTANCE) == size))
  {
    if v == 0 then 0
    else
      var b := PositionBoundariesForAxis(s.Lines(axis));
      var size := (if v < 0 then b.left else b.right) * LINE_DISTANCE;
      size + (if v < 0 then -1 else 1) * (DEFAULT_STOP_DIMEN + LABEL_DISTANCE)
  }

  /**
   * The offset of `track` in the station's own frame before rotation: along
   * x when the incoming direction is a multiple of 180 degrees, along y
   * otherwise.
   */
  function LocalTrackOffset(degrees: int, track: int): (offset: (int, int))
    ensures degrees % 180 == 0 ==> offset.1 == 0
    ensures degrees % 180 != 0 ==> offset.0 == 0
    ensures offset.0 + offset.1 == track * LINE_DISTANCE
  {
    if degrees % 180 == 0 then (track * LINE_DISTANCE, 0) else (0, track * LINE_DISTANCE)
  }

  /** Tracks -2, -1, 0, 1 and 3 on x: boundaries [-2, 3], outward tracks 4 and -3, sizes 28 and -22. */
  lemma FiveTrackExample(a: Line, b: Line, c: Line, d: Line, e: Line)
    ensures var s := Station([LineTrack(a, -2), LineTrack(b, -1), LineTrack(c, 0), LineTrack(d, 1), LineTrack(e, 3)], []);
      && PositionBoundaries(s) == Boundaries(Boundary(-2, 3), Boundary(1, -1))
      && AssignTrack(s, X, Positive) == 4
      && AssignTrack(s, X, Negative) == -3
      && AssignTrack(s, Y, Positive) == 0
      && StationSizeForAxis(s, X, 1) == 28
      && StationSizeForAxis(s, X, -1) == -22
  {
    var lines := [LineTrack(a, -2), LineTrack(b, -1), LineTrack(c, 0), LineTrack(d, 1), LineTrack(e, 3)];
    assert lines[1..] == [LineTrack(b, -1), LineTrack(c, 0), LineTrack(d, 1), LineTrack(e, 3)];
    assert lines[1..][1..] == [LineTrack(c, 0), LineTrack(d, 1), LineTrack(e, 3)];
    assert lines[1..][1..][1..] == [LineTrack(d, 1), LineTrack(e, 3)];
    assert lines[1..][1..][1..][1..] == [LineTrack(e, 3)];
    assert lines[1..][1..][1..][1..][1..] == [];
    assert Extent(lines[1..][1..][1..][1..][1..], -2, 3) == Boundary(-2, 3);
    assert Extent(lines[1..][1..][1..][1..], -2, 1) == Boundary(-2, 3);
    assert Extent(lines[1..][1..][1..], -2, 0) == Boundary(-2, 3);
    assert Extent(lines[1..][1..], -2, 0) == Boundary(-2, 3);
    assert Extent(lines[1..], -2, 0) == Boundary(-2, 3);
    assert Extent(lines, 0, 0) == Boundary(-2, 3);
    assert PositionBoundariesForAxis(lines) == Boundary(-2, 3);
  }
}
