/**
 * The earlier copy of the waypoint store, from the HelloAndroid prototype:
 * the same markers, file format, `add`, `delete_all` and drawing, but its
 * `delete` is a stub that keeps every marker and reports that nothing was
 * deleted, and it has no `delete_visible`.
 */
module HelloAndroid {
  import opened JavaInt
  import opened Decimal
  import opened Waypoints
  import opened MarkerFile

  class Landmarks {
    /** The markers, in the order they were added. */
    var points: seq<Landmark>

    /** An `ArrayList` never holds more than `Integer.MAX_VALUE` entries. */
    ghost predicate Valid()
      reads this
    {
      |points| <= MAX_VALUE
    }

    /** A new store holds whatever the marker file restores to. */
    constructor(file: StoredFile)
      ensures Valid() && points == Decode(file)
    {
      points := [];
      new;
      RestoreStateFromFile(file);
    }

    /** `count_alive`: the number of live markers, counted in an int. */
    method CountAlive() returns (n: int32)
      requires Valid()
      ensures n == LiveCount(points)
    {
      n := 0;
      var m := |points|;
      for i := 0 to m
        invariant n == LiveCount(points[..i]) <= i
      {
        assert points[..i + 1][..i] == points[..i];
        if points[i].alive {
          n := n + 1;
        }
      }
      assert points[..m] == points;
    }

    /** `save_state_to_file`: the lines written, the live count first. */
    method SaveStateToFile() returns (lines: seq<string>)
      requires Valid()
      ensures lines == Encode(points)
    {
      var c := CountAlive();
      lines := [FormatInt(c)];
      assert lines == PrintLines([c]);
      var n := |points|;
      for i := 0 to n
        invariant lines == PrintLines([c] + Coords(LivePositions(points[..i])))
      {
        SaveStep(points, i, c);
        if points[i].alive {
          lines := lines + [FormatInt(points[i].pos.x)];
          lines := lines + [FormatInt(points[i].pos.y)];
        }
      }
      assert points[..n] == points;
    }

    /**
     * `restore_state_from_file`: read the count, then that many pairs; an
     * exception on any line leaves the store empty, and so does a missing
     * file.
     */
    method RestoreStateFromFile(file: StoredFile)
      modifies this
      ensures Valid() && points == Decode(file)
    {
      match file {
        case Missing =>
          points := [];
        case Unreadable =>
          points := [];
        case Present(lines) =>
          var read := ReadMarkers(lines);
          points := if read.Some? then read.value else [];
      }
    }

    /** `add`: a new live marker at the end. */
    method Add(pos: Merc28)
      requires Valid() && |points| < MAX_VALUE
      modifies this
      ensures Valid()
      ensures points == old(points) + [Landmark(pos, true)]
      ensures NoRevival(old(points), points)
    {
      points := points + [Landmark(pos, true)];
    }

    /** `delete`: a stub that deletes nothing and says so. */
    method Delete(pos: Merc28) returns (deleted: bool)
      ensures !deleted
    {
      deleted := false;
    }

    /** `delete_all`: forget every marker, live or not. */
    method DeleteAll()
      modifies this
      ensures Valid() && points == []
    {
      points := [];
    }

    /**
     * `draw`: the pixel centre of each live marker, in order, in a `w` by
     * `h` view whose centre is `pos`.
     */
    method Draw(pos: Merc28, w: int32, h: int32, pixelShift: int32) returns (marks: seq<ScreenPoint>)
      ensures marks == Projected(LivePositions(points), pos, w, h, pixelShift)
    {
      marks := [];
      var n := |points|;
      for i := 0 to n
        invariant marks == Projected(LivePositions(points[..i]), pos, w, h, pixelShift)
      {
        assert points[..i + 1][..i] == points[..i];
        if points[i].alive {
          var p := points[i].pos;
          var dx := Shr(Sub(p.x, pos.x), pixelShift);
          var x := JavaInt.Add(Shr(w, 1), dx);
          var dy := Shr(Sub(p.y, pos.y), pixelShift);
          var y := JavaInt.Add(Shr(h, 1), dy);
          marks := marks + [ScreenPoint(x, y)];
        }
      }
      assert points[..n] == points;
    }
  }
}
