/**
 * The waypoint store of the LogMyGsm map view: an ordered list of markers,
 * each a position and an `alive` flag. Deletion only tombstones a marker;
 * the file written on save holds the live ones, and restoring it rebuilds
 * them all live. The file itself is a `StoredFile` handed in and a line
 * sequence handed back; drawing hands back the pixel centres it would draw.
 */
module LogMyGsm {
  import opened JavaInt
  import opened Decimal
  import opened Waypoints
  import opened MarkerFile

  class Landmarks {
    /** The markers, in the order they were added. */
    var points: seq<Landmark>

    /** An `ArrayList` never holds more than `Integer.MAX_VALUE` entries. */
    ghost predicate Valid()
      reads this
    {
      |points| <= MAX_VALUE
    }

    /** A new store holds whatever the marker file restores to. */
    constructor(file: StoredFile)
      ensures Valid() && points == Decode(file)
    {
      points := [];
      new;
      RestoreStateFromFile(file);
    }

    /** `count_alive`: the number of live markers, counted in an int. */
    method CountAlive() returns (n: int32)
      requires Valid()
      ensures n == LiveCount(points)
    {
      n := 0;
      var m := |points|;
      for i := 0 to m
        invariant n == LiveCount(points[..i]) <= i
      {
        assert points[..i + 1][..i] == points[..i];
        if points[i].alive {
          n := n + 1;
        }
      }
      assert points[..m] == points;
    }

    /** `save_state_to_file`: the lines written, the live count first. */
    method SaveStateToFile() returns (lines: seq<string>)
      requires Valid()
      ensures lines == Encode(points)
    {
      var c := CountAlive();
      lines := [FormatInt(c)];
      assert lines == PrintLines([c]);
      var n := |points|;
      for i := 0 to n
        invariant lines == PrintLines([c] + Coords(LivePositions(points[..i])))
      {
        SaveStep(points, i, c);
        if points[i].alive {
          lines := lines + [FormatInt(points[i].pos.x)];
          lines := lines + [FormatInt(points[i].pos.y)];
        }
      }
      assert points[..n] == points;
    }

    /**
     * `restore_state_from_file`: read the count, then that many pairs; an
     * exception on any line leaves the store empty, and so does a missing
     * file.
     */
    method RestoreStateFromFile(file: StoredFile)
      modifies this
      ensures Valid() && points == Decode(file)
    {
      match file {
        case Missing =>
          points := [];
        case Unreadable =>
          points := [];
        case Present(lines) =>
          var read := ReadMarkers(lines);
          points := if read.Some? then read.value else [];
      }
    }

    /** `add`: a new live marker at the end. */
    method Add(pos: Merc28)
      requires Valid() && |points| < MAX_VALUE
      modifies this
      ensures Valid()
      ensures points == old(points) + [Landmark(pos, true)]
      ensures NoRevival(old(points), points)
    {
      points := points + [Landmark(pos, true)];
    }

    /**
     * `delete`: tombstone the live marker nearest `pos` in pixels at zoom
     * `pixelShift`, the first one on a tie; false when none is alive. There
     * is no distance threshold.
     */
    method Delete(pos: Merc28, pixelShift: int32) returns (deleted: bool)
      requires Valid()
      modifies this
      ensures Valid() && |points| == |old(points)| && NoRevival(old(points), points)
      ensures deleted <==> HasAlive(old(points))
      ensures var v := Nearest(old(points), pos, pixelShift);
              if v < 0 then !deleted && points == old(points)
              else deleted && points == Kill(old(points), v)
      ensures deleted ==> LiveCount(points) == LiveCount(old(points)) - 1
    {
      var victim: int32 := -1;
      var closest: int32 := 0;
      var n := |points|;
      for i := 0 to n
        invariant victim == Nearest(points[..i], pos, pixelShift)
        invariant victim >= 0 ==> closest == Dist(points[victim].pos, pos, pixelShift)
      {
        assert points[..i + 1][..i] == points[..i];
        if points[i].alive {
          var dx := Shr(Sub(points[i].pos.x, pos.x), pixelShift);
          var dy := Shr(Sub(points[i].pos.y, pos.y), pixelShift);
          var d := JavaInt.Add(Abs(dx), Abs(dy));
          if victim < 0 || d < closest {
            closest := d;
            victim := i;
          }
        }
      }
      assert points[..n] == points;
      NearestIsFirstMinimiser(points, pos, pixelShift);
      if victim < 0 {
        deleted := false;
      } else {
        KillCount(points, victim);
        points := Kill(points, victim);
        deleted := true;
      }
    }

    /**
     * `delete_visible`: tombstone every live marker strictly inside the view
     * of `width` by `height` pixels centred on `pos`; true when any was.
     */
    method DeleteVisible(pos: Merc28, pixelShift: int32, width: int32, height: int32) returns (didAny: bool)
      requires Valid()
      modifies this
      ensures Valid()
      ensures points == KillVisible(old(points), pos, pixelShift, width, height)
      ensures didAny == AnyVisible(old(points), pos, pixelShift, width, height)
    {
      var w2 := Shr(width, 1);
      var h2 := Shr(height, 1);
      var n := |points|;
      didAny := false;
      for i := 0 to n
        invariant |points| == n
        invariant forall j :: 0 <= j < i ==> points[j] == Hide(old(points)[j], pos, pixelShift, width, height)
        invariant forall j :: i <= j < n ==> points[j] == old(points)[j]
        invariant didAny <==> exists j :: 0 <= j < i && old(points)[j].alive && InView(old(points)[j].pos, pos, pixelShift, width, height)
      {
        if points[i].alive {
          var dx := Shr(Sub(points[i].pos.x, pos.x), pixelShift);
          var dy := Shr(Sub(points[i].pos.y, pos.y), pixelShift);
          if Abs(dx) < w2 && Abs(dy) < h2 {
            didAny := true;
            points := points[i := points[i].(alive := false)];
          }
        }
      }
      assert points == KillVisible(old(points), pos, pixelShift, width, height);
    }

    /** `delete_all`: forget every marker, live or not. */
    method DeleteAll()
      modifies this
      ensures Valid() && points == []
    {
      points := [];
    }

    /**
     * `draw`: the pixel centre of each live marker, in order, in a `w` by
     * `h` view whose centre is `pos`.
     */
    method Draw(pos: Merc28, w: int32, h: int32, pixelShift: int32) returns (marks: seq<ScreenPoint>)
      ensures marks == Projected(LivePositions(points), pos, w, h, pixelShift)
    {
      marks := [];
      var n := |points|;
      for i := 0 to n
        invariant marks == Projected(LivePositions(points[..i]), pos, w, h, pixelShift)
      {
        assert points[..i + 1][..i] == points[..i];
        if points[i].alive {
          var p := points[i].pos;
          var dx := Shr(Sub(p.x, pos.x), pixelShift);
          var x := JavaInt.Add(Shr(w, 1), dx);
          var dy := Shr(Sub(p.y, pos.y), pixelShift);
          var y := JavaInt.Add(Shr(h, 1), dy);
          marks := marks + [ScreenPoint(x, y)];
        }
      }
      assert points[..n] == points;
    }
  }
}
