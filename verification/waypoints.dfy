/**
 * The waypoint data: a marker is a projected `Merc28` coordinate plus an
 * `alive` tombstone flag, and a store is the ordered sequence of markers.
 * This module holds the specification functions the store's methods are
 * proved against, and the lemmas that say what those functions mean.
 */
module Waypoints {
  import opened JavaInt

  /** A projected map coordinate: two Java ints. Copied by value, as `new Merc28(p)` does. */
  datatype Merc28 = Merc28(x: int32, y: int32)

  /** One user-placed marker; deletion only clears `alive`. */
  datatype Landmark = Landmark(pos: Merc28, alive: bool)

  /** A pixel position on the map view. */
  datatype ScreenPoint = ScreenPoint(x: int32, y: int32)

  /** The positions of the live markers, in index order. */
  function LivePositions(ps: seq<Landmark>): (qs: seq<Merc28>)
    ensures |qs| <= |ps|
  {
    if ps == [] then []
    else LivePositions(ps[..|ps| - 1]) + (if ps[|ps| - 1].alive then [ps[|ps| - 1].pos] else [])
  }

  /** The number of live markers. */
  function LiveCount(ps: seq<Landmark>): nat {
    |LivePositions(ps)|
  }

  predicate HasAlive(ps: seq<Landmark>) {
    exists i :: 0 <= i < |ps| && ps[i].alive
  }

  lemma {:induction false} LiveCountPositive(ps: seq<Landmark>)
    ensures LiveCount(ps) > 0 <==> HasAlive(ps)
  {
    if ps != [] {
      var n := |ps| - 1;
      LiveCountPositive(ps[..n]);
      if HasAlive(ps) && !ps[n].alive {
        var i :| 0 <= i < |ps| && ps[i].alive;
        assert ps[..n][i].alive;
      }
      if HasAlive(ps[..n]) {
        var i :| 0 <= i < n && ps[..n][i].alive;
        assert ps[i].alive;
      }
    }
  }

  // ---------------------------------------------------------------------
  // Screen-space offsets, computed in Java int arithmetic

  /** `(a - b) >> shift`: a projected difference turned into pixels. */
  function Offset(a: int32, b: int32, shift: int): int32 {
    Shr(Sub(a, b), shift)
  }

  /** `Math.abs(dx) + Math.abs(dy)`: the Manhattan distance in pixels that `delete` minimises. */
  function Dist(p: Merc28, pos: Merc28, shift: int): int32 {
    Add(Abs(Offset(p.x, pos.x, shift)), Abs(Offset(p.y, pos.y, shift)))
  }

  /**
   * `v` is alive, no live marker is closer to it under `dist`, and every live
   * marker before it is strictly farther away: the first minimiser.
   */
  predicate IsFirstMinimiser(ps: seq<Landmark>, dist: Merc28 -> int, v: int) {
    && 0 <= v < |ps|
    && ps[v].alive
    && (forall j :: 0 <= j < |ps| && ps[j].alive ==> dist(ps[v].pos) <= dist(ps[j].pos))
    && (forall j :: 0 <= j < v && ps[j].alive ==> dist(ps[v].pos) < dist(ps[j].pos))
  }

  /**
   * A left-to-right scan for the live marker closest under `dist` that
   * replaces its candidate only by a strictly closer one; -1 if none is live.
   */
  function ScanNearest(ps: seq<Landmark>, dist: Merc28 -> int): (v: int)
    ensures -1 <= v < |ps|
  {
    if ps == [] then -1
    else
      var n := |ps| - 1;
      var v := ScanNearest(ps[..n], dist);
      if ps[n].alive && (v < 0 || dist(ps[n].pos) < dist(ps[v].pos)) then n else v
  }

  /** The scan finds a marker exactly when one is alive, and it finds the first minimiser. */
  lemma {:induction false} ScanFindsFirstMinimiser(ps: seq<Landmark>, dist: Merc28 -> int)
    ensures ScanNearest(ps, dist) == -1 <==> !HasAlive(ps)
    ensures ScanNearest(ps, dist) >= 0 ==> IsFirstMinimiser(ps, dist, ScanNearest(ps, dist))
  {
    if ps != [] {
      var n := |ps| - 1;
      var pre := ps[..n];
      ScanFindsFirstMinimiser(pre, dist);
      var v := ScanNearest(pre, dist);
      if HasAlive(pre) {
        var i :| 0 <= i < n && pre[i].alive;
        assert ps[i].alive;
      }
      if v >= 0 {
        assert forall j :: 0 <= j < n ==> ps[j] == pre[j];
      }
      if !ps[n].alive && HasAlive(ps) {
        var i :| 0 <= i < |ps| && ps[i].alive;
        assert pre[i].alive;
      }
    }
  }

  /** The first minimiser is unique. */
  lemma FirstMinimiserUnique(ps: seq<Landmark>, dist: Merc28 -> int, v: int)
    requires IsFirstMinimiser(ps, dist, v)
    ensures v == ScanNearest(ps, dist)
  {
    ScanFindsFirstMinimiser(ps, dist);
  }

  /** The pixel distance from `pos` at zoom `shift`, as a function of the marker position. */
  function DistFrom(pos: Merc28, shift: int): Merc28 -> int {
    p => Dist(p, pos, shift)
  }

  /** The index `delete` tombstones, or -1 when it finds nothing alive. */
  function Nearest(ps: seq<Landmark>, pos: Merc28, shift: int): int {
    ScanNearest(ps, DistFrom(pos, shift))
  }

  /**
   * `delete`'s choice: it finds a marker exactly when one is alive, and the
   * marker it finds is the lowest-index live marker at the smallest distance.
   */
  lemma NearestIsFirstMinimiser(ps: seq<Landmark>, pos: Merc28, shift: int)
    ensures Nearest(ps, pos, shift) == -1 <==> !HasAlive(ps)
    ensures Nearest(ps, pos, shift) >= 0 ==>
              var v := Nearest(ps, pos, shift);
              && 0 <= v < |ps| && ps[v].alive
              && (forall j :: 0 <= j < |ps| && ps[j].alive ==> Dist(ps[v].pos, pos, shift) <= Dist(ps[j].pos, pos, shift))
              && (forall j :: 0 <= j < v && ps[j].alive ==> Dist(ps[v].pos, pos, shift) < Dist(ps[j].pos, pos, shift))
  {
    ScanFindsFirstMinimiser(ps, DistFrom(pos, shift));
  }

  /**
   * Ties go to the first: of two live markers at the same distance, the
   * later one is never the one `delete` picks.
   */
  lemma TieGoesToFirst(ps: seq<Landmark>, pos: Merc28, shift: int, i: int, j: int)
    requires 0 <= i < j < |ps| && ps[i].alive && ps[j].alive
    requires Dist(ps[i].pos, pos, shift) == Dist(ps[j].pos, pos, shift)
    ensures Nearest(ps, pos, shift) != j
  {
    NearestIsFirstMinimiser(ps, pos, shift);
  }

  /** The store with marker `v` tombstoned. */
  function Kill(ps: seq<Landmark>, v: int): (r: seq<Landmark>)
    requires 0 <= v < |ps|
  {
    ps[v := ps[v].(alive := false)]
  }

  // ---------------------------------------------------------------------
  // The viewport

  /** Strictly inside the view: `|dx| < width >> 1` and `|dy| < height >> 1`. */
  predicate InView(p: Merc28, pos: Merc28, shift: int, width: int32, height: int32) {
    Abs(Offset(p.x, pos.x, shift)) < Shr(width, 1) && Abs(Offset(p.y, pos.y, shift)) < Shr(height, 1)
  }

  /** A live marker inside the view is tombstoned; any other marker is kept as it is. */
  function Hide(l: Landmark, pos: Merc28, shift: int, width: int32, height: int32): Landmark {
    if l.alive && InView(l.pos, pos, shift, width, height) then l.(alive := false) else l
  }

  function KillVisible(ps: seq<Landmark>, pos: Merc28, shift: int, width: int32, height: int32): (r: seq<Landmark>)
    ensures |r| == |ps|
  {
    seq(|ps|, i requires 0 <= i < |ps| => Hide(ps[i], pos, shift, width, height))
  }

  predicate AnyVisible(ps: seq<Landmark>, pos: Merc28, shift: int, width: int32, height: int32) {
    exists i :: 0 <= i < |ps| && ps[i].alive && InView(ps[i].pos, pos, shift, width, height)
  }

  /** Where a marker is drawn when `pos` is at the centre of a `w` by `h` view. */
  function Project(p: Merc28, pos: Merc28, w: int32, h: int32, shift: int): ScreenPoint {
    ScreenPoint(Add(Shr(w, 1), Offset(p.x, pos.x, shift)), Add(Shr(h, 1), Offset(p.y, pos.y, shift)))
  }

  /** Where each of the positions `qs` is drawn, in order. */
  function Projected(qs: seq<Merc28>, pos: Merc28, w: int32, h: int32, shift: int): (r: seq<ScreenPoint>)
    ensures |r| == |qs|
  {
    seq(|qs|, i requires 0 <= i < |qs| => Project(qs[i], pos, w, h, shift))
  }

  // ---------------------------------------------------------------------
  // The tombstone lifecycle

  /**
   * `after` extends `before` without moving any marker and without bringing
   * any tombstoned marker back to life.
   */
  predicate NoRevival(before: seq<Landmark>, after: seq<Landmark>) {
    && |before| <= |after|
    && forall i :: 0 <= i < |before| ==>
         after[i].pos == before[i].pos && (after[i].alive ==> before[i].alive)
  }

  /** Tombstones stay put across any chain of operations that each keep them. */
  lemma NoRevivalChain(a: seq<Landmark>, b: seq<Landmark>, c: seq<Landmark>, i: int)
    requires NoRevival(a, b) && NoRevival(b, c)
    requires 0 <= i < |a| && !a[i].alive
    ensures NoRevival(a, c) && !c[i].alive && c[i].pos == a[i].pos
  {
  }

  /**
   * Tombstoning never raises the live count, and lowers it exactly when some
   * live marker was tombstoned.
   */
  lemma {:induction false} CountDrops(a: seq<Landmark>, b: seq<Landmark>)
    requires |a| == |b| && NoRevival(a, b)
    ensures LiveCount(b) <= LiveCount(a)
    ensures LiveCount(b) < LiveCount(a) <==> exists i :: 0 <= i < |a| && a[i].alive && !b[i].alive
  {
    if a != [] {
      var n := |a| - 1;
      var a', b' := a[..n], b[..n];
      assert NoRevival(a', b');
      CountDrops(a', b');
      assert LiveCount(a) == LiveCount(a') + (if a[n].alive then 1 else 0);
      assert LiveCount(b) == LiveCount(b') + (if b[n].alive then 1 else 0);
      if exists i :: 0 <= i < |a| && a[i].alive && !b[i].alive {
        var i :| 0 <= i < |a| && a[i].alive && !b[i].alive;
        if i < n {
          assert a'[i].alive && !b'[i].alive;
        }
      }
      if exists i :: 0 <= i < n && a'[i].alive && !b'[i].alive {
        var i :| 0 <= i < n && a'[i].alive && !b'[i].alive;
        assert a[i].alive && !b[i].alive;
      }
    }
  }

  /** `Kill` on a live marker lowers the live count by exactly one. */
  lemma {:induction false} KillCount(ps: seq<Landmark>, v: int)
    requires 0 <= v < |ps| && ps[v].alive
    ensures LiveCount(Kill(ps, v)) == LiveCount(ps) - 1
  {
    var n := |ps| - 1;
    var r := Kill(ps, v);
    if v == n {
      assert r[..n] == ps[..n];
    } else {
      assert r[..n] == Kill(ps[..n], v);
      KillCount(ps[..n], v);
    }
  }

  /** `KillVisible` lowers the live count exactly when some live marker is in view. */
  lemma KillVisibleCount(ps: seq<Landmark>, pos: Merc28, shift: int, width: int32, height: int32)
    ensures NoRevival(ps, KillVisible(ps, pos, shift, width, height))
    ensures LiveCount(KillVisible(ps, pos, shift, width, height)) < LiveCount(ps)
            <==> AnyVisible(ps, pos, shift, width, height)
  {
    var r := KillVisible(ps, pos, shift, width, height);
    CountDrops(ps, r);
    if AnyVisible(ps, pos, shift, width, height) {
      var i :| 0 <= i < |ps| && ps[i].alive && InView(ps[i].pos, pos, shift, width, height);
      assert !r[i].alive;
    }
  }

  // ---------------------------------------------------------------------
  // Markers in the 28-bit projection never overflow

  /** Both coordinates fit in 28 bits plus a sign. */
  predicate InMerc28Range(p: Merc28) {
    -0x1000_0000 <= p.x < 0x1000_0000 && -0x1000_0000 <= p.y < 0x1000_0000
  }

  /** `d >> shift` over unbounded integers. */
  function FloorShift(d: int, shift: int): int {
    d / Pow2(shift % 32)
  }

  lemma OffsetExact(a: int32, b: int32, shift: int)
    requires -0x1000_0000 <= a < 0x1000_0000 && -0x1000_0000 <= b < 0x1000_0000
    ensures Offset(a, b, shift) == FloorShift(a - b, shift)
    ensures -0x2000_0000 < Offset(a, b, shift) < 0x2000_0000
  {
  }

  /** The absolute value of an unbounded integer, as opposed to Java's `Math.abs`. */
  function IntAbs(d: int): nat {
    if d < 0 then -d else d
  }

  /**
   * Between 28-bit coordinates the distance `delete` compares is the exact
   * Manhattan distance of the shifted differences: no int overflow.
   */
  lemma DistExact(p: Merc28, pos: Merc28, shift: int)
    requires InMerc28Range(p) && InMerc28Range(pos)
    ensures Dist(p, pos, shift) == IntAbs(FloorShift(p.x - pos.x, shift)) + IntAbs(FloorShift(p.y - pos.y, shift))
  {
    OffsetExact(p.x, pos.x, shift);
    OffsetExact(p.y, pos.y, shift);
  }

  /**
   * Between 28-bit coordinates, `delete_visible` removes exactly the live
   * markers that `draw` places strictly inside the `2*(w>>1)` by `2*(h>>1)` view.
   */
  lemma InViewIffDrawnInside(p: Merc28, pos: Merc28, shift: int, w: int32, h: int32)
    requires InMerc28Range(p) && InMerc28Range(pos) && 0 <= w && 0 <= h
    ensures InView(p, pos, shift, w, h) <==>
            (var s := Project(p, pos, w, h, shift);
             0 < s.x < 2 * Shr(w, 1) && 0 < s.y < 2 * Shr(h, 1))
  {
    OffsetExact(p.x, pos.x, shift);
    OffsetExact(p.y, pos.y, shift);
    HalfBound(w);
    HalfBound(h);
    AxisInside(Offset(p.x, pos.x, shift), Shr(w, 1));
    AxisInside(Offset(p.y, pos.y, shift), Shr(h, 1));
  }

  /** Half a non-negative int leaves room for a 29-bit offset. */
  lemma HalfBound(w: int32)
    requires 0 <= w
    ensures 0 <= Shr(w, 1) < 0x4000_0000
  {
    assert Pow2(1) == 2;
  }

  /** On one axis: the offset is inside the half-width exactly when its pixel lands strictly inside the view. */
  lemma AxisInside(d: int32, half: int32)
    requires -0x2000_0000 < d < 0x2000_0000 && 0 <= half < 0x4000_0000
    ensures Abs(d) < half <==> 0 < Add(half, d) < 2 * half
  {
  }

  /**
   * The view's bound is strict: between 28-bit coordinates, a marker that
   * `draw` places on the border of the `2*(w>>1)` by `2*(h>>1)` view is not
   * in view, so `delete_visible` leaves it alive.
   */
  lemma ViewEdgeIsOutside(p: Merc28, pos: Merc28, shift: int, w: int32, h: int32)
    requires InMerc28Range(p) && InMerc28Range(pos) && 0 <= w && 0 <= h
    ensures var s := Project(p, pos, w, h, shift);
            s.x == 0 || s.x == 2 * Shr(w, 1) || s.y == 0 || s.y == 2 * Shr(h, 1) ==>
              !InView(p, pos, shift, w, h)
  {
    InViewIffDrawnInside(p, pos, shift, w, h);
  }
}
