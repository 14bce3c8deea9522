/**
 * The `markers.txt` format, as lines: the number of live markers, then an X
 * line and a Y line for each live marker in index order. Restoring reads the
 * count, then that many pairs; any line that is missing or is not an int
 * voids the whole restore, which then yields an empty store.
 */
module MarkerFile {
  import opened Options
  import opened JavaInt
  import opened Decimal
  import opened Waypoints

  /** What the store finds where its file should be. */
  datatype StoredFile =
    | Missing                       // `file.exists()` is false
    | Unreadable                    // an `IOException` while opening or reading
    | Present(lines: seq<string>)   // the file's lines, without terminators

  // ---------------------------------------------------------------------
  // Writing

  /** The numbers written after the count: the X and then the Y of each position, in order. */
  function Coords(qs: seq<Merc28>): (ns: seq<int>)
    ensures |ns| == 2 * |qs|
  {
    if qs == [] then []
    else Coords(qs[..|qs| - 1]) + [qs[|qs| - 1].x, qs[|qs| - 1].y]
  }

  lemma {:induction false} CoordsAt(qs: seq<Merc28>, k: int)
    requires 0 <= k < |qs|
    ensures Coords(qs)[2 * k] == qs[k].x && Coords(qs)[2 * k + 1] == qs[k].y
  {
    var n := |qs| - 1;
    if k < n {
      CoordsAt(qs[..n], k);
    }
  }

  /** Taking one more marker into account adds its X and Y when it is live, and nothing otherwise. */
  lemma CoordsStep(ps: seq<Landmark>, i: int)
    requires 0 <= i < |ps|
    ensures ps[i].alive ==> Coords(LivePositions(ps[..i + 1])) == Coords(LivePositions(ps[..i])) + [ps[i].pos.x, ps[i].pos.y]
    ensures !ps[i].alive ==> Coords(LivePositions(ps[..i + 1])) == Coords(LivePositions(ps[..i]))
  {
    var qs := LivePositions(ps[..i]);
    assert ps[..i + 1][..i] == ps[..i];
    if ps[i].alive {
      assert (qs + [ps[i].pos])[..|qs|] == qs;
    } else {
      assert LivePositions(ps[..i + 1]) == qs;
    }
  }

  /** The numbers of a save: the live count, then the coordinates of the live markers. */
  function Numbers(ps: seq<Landmark>): seq<int> {
    [LiveCount(ps)] + Coords(LivePositions(ps))
  }

  /** Each number on a line of its own, as `String.format("%d\n", v)` writes it. */
  function PrintLines(ns: seq<int>): (ls: seq<string>)
    ensures |ls| == |ns|
  {
    if ns == [] then [] else PrintLines(ns[..|ns| - 1]) + [FormatInt(ns[|ns| - 1])]
  }

  lemma {:induction false} PrintLinesAt(ns: seq<int>, k: int)
    requires 0 <= k < |ns|
    ensures PrintLines(ns)[k] == FormatInt(ns[k])
  {
    if k < |ns| - 1 {
      PrintLinesAt(ns[..|ns| - 1], k);
    }
  }

  lemma PrintLinesSnoc(ns: seq<int>, v: int)
    ensures PrintLines(ns + [v]) == PrintLines(ns) + [FormatInt(v)]
  {
    assert (ns + [v])[..|ns|] == ns;
  }

  /**
   * The lines written for the first `i + 1` markers after the count `c`:
   * those for the first `i`, then the X and Y lines of marker `i` when it is live.
   */
  lemma SaveStep(ps: seq<Landmark>, i: int, c: int)
    requires 0 <= i < |ps|
    ensures ps[i].alive ==>
              PrintLines([c] + Coords(LivePositions(ps[..i + 1]))) ==
              PrintLines([c] + Coords(LivePositions(ps[..i]))) + [FormatInt(ps[i].pos.x)] + [FormatInt(ps[i].pos.y)]
    ensures !ps[i].alive ==>
              PrintLines([c] + Coords(LivePositions(ps[..i + 1]))) == PrintLines([c] + Coords(LivePositions(ps[..i])))
  {
    var ns := [c] + Coords(LivePositions(ps[..i]));
    CoordsStep(ps, i);
    if ps[i].alive {
      var p := ps[i].pos;
      assert [c] + Coords(LivePositions(ps[..i + 1])) == ns + [p.x] + [p.y];
      PrintLinesSnoc(ns, p.x);
      PrintLinesSnoc(ns + [p.x], p.y);
    }
  }

  /** What `save_state_to_file` writes. */
  function Encode(ps: seq<Landmark>): seq<string> {
    PrintLines(Numbers(ps))
  }

  /**
   * The file holds `1 + 2 * LiveCount` lines: the live count first, then the
   * X and Y of each live marker in index order.
   */
  lemma EncodeShape(ps: seq<Landmark>)
    ensures |Encode(ps)| == 1 + 2 * LiveCount(ps)
    ensures Encode(ps)[0] == FormatInt(LiveCount(ps))
    ensures forall k :: 0 <= k < LiveCount(ps) ==>
              Encode(ps)[2 * k + 1] == FormatInt(LivePositions(ps)[k].x) &&
              Encode(ps)[2 * k + 2] == FormatInt(LivePositions(ps)[k].y)
  {
    var qs := LivePositions(ps);
    var ns := Numbers(ps);
    PrintLinesAt(ns, 0);
    forall k | 0 <= k < |qs|
      ensures Encode(ps)[2 * k + 1] == FormatInt(qs[k].x) && Encode(ps)[2 * k + 2] == FormatInt(qs[k].y)
    {
      CoordsAt(qs, k);
      PrintLinesAt(ns, 2 * k + 1);
      PrintLinesAt(ns, 2 * k + 2);
    }
  }

  // ---------------------------------------------------------------------
  // Reading

  /** `BufferedReader.readLine` for line `k`: `None` (Java's null) past the end. */
  function ReadLine(lines: seq<string>, k: int): Option<string> {
    if 0 <= k < |lines| then Some(lines[k]) else None
  }

  /** `Integer.parseInt(line)`; a null line throws too. */
  function ParseLine(line: Option<string>): Option<int32> {
    match line
    case None => None
    case Some(s) => ParseInt(s)
  }

  /**
   * Line `j` read and parsed: `Integer.parseInt(br.readLine())`, `None`
   * when the line is missing or is not an int. Parsing has no side
   * effect, so reading the lines in order and parsing each is the same as
   * looking them up here by index.
   */
  function LineReader(lines: seq<string>): int -> Option<int32> {
    j => ParseLine(ReadLine(lines, j))
  }

  /** The first `k` coordinate pairs after the count line, as live markers. */
  function ParsePairs(line: int -> Option<int32>, k: nat): Option<seq<Landmark>> {
    if k == 0 then Some([])
    else
      match ParsePairs(line, k - 1)
      case None => None
      case Some(prefix) =>
        var x := line(2 * k - 1);
        var y := line(2 * k);
        if x.Some? && y.Some? then Some(prefix + [Landmark(Merc28(x.value, y.value), true)])
        else None
  }

  /**
   * Reading `k` pairs succeeds exactly when lines 1 to `2k` are all present
   * ints, and then gives `k` live markers, each from its own two lines.
   */
  lemma {:induction false} ParsePairsMeaning(line: int -> Option<int32>, k: nat)
    ensures ParsePairs(line, k).Some? <==> forall j :: 1 <= j <= 2 * k ==> line(j).Some?
    ensures ParsePairs(line, k).Some? ==>
              var r := ParsePairs(line, k).value;
              |r| == k &&
              forall i :: 0 <= i < k ==>
                r[i].alive && line(2 * i + 1) == Some(r[i].pos.x) && line(2 * i + 2) == Some(r[i].pos.y)
  {
    if k > 0 {
      ParsePairsMeaning(line, k - 1);
      var pre := ParsePairs(line, k - 1);
      var x := line(2 * k - 1);
      var y := line(2 * k);
      if pre.Some? && x.Some? && y.Some? {
        var r := pre.value + [Landmark(Merc28(x.value, y.value), true)];
        assert ParsePairs(line, k) == Some(r);
        forall i | 0 <= i < k
          ensures r[i].alive && line(2 * i + 1) == Some(r[i].pos.x) && line(2 * i + 2) == Some(r[i].pos.y)
        {
          if i < k - 1 {
            assert r[i] == pre.value[i];
          }
        }
      }
    }
  }

  /** A pair with a line missing or not an int fails the read at that pair. */
  lemma PairMissing(line: int -> Option<int32>, i: nat)
    requires ParsePairs(line, i).Some?
    requires line(2 * i + 1).None? || line(2 * i + 2).None?
    ensures ParsePairs(line, i + 1).None?
  {
  }

  /** Once a pair fails to read, reading further pairs fails too. */
  lemma {:induction false} ParsePairsFailureSticks(line: int -> Option<int32>, k: nat, m: nat)
    requires k <= m && ParsePairs(line, k).None?
    ensures ParsePairs(line, m).None?
  {
    if k < m {
      ParsePairsFailureSticks(line, k, m - 1);
    }
  }

  /** The declared count, when the count line is an int; a negative count reads no pairs. */
  function PairCount(n: int32): nat {
    if n < 0 then 0 else n
  }

  /** The whole restore; `None` stands for a caught exception. */
  function ParseLines(lines: seq<string>): Option<seq<Landmark>> {
    var line := LineReader(lines);
    match line(0)
    case None => None
    case Some(n) => ParsePairs(line, PairCount(n))
  }

  /** What `restore_state_from_file` leaves in the store. */
  function Decode(f: StoredFile): seq<Landmark> {
    match f
    case Missing => []
    case Unreadable => []
    case Present(lines) =>
      match ParseLines(lines)
      case None => []
      case Some(ps) => ps
  }

  // The restore loop, one read at a time.

  /** A count line that is missing or not an int voids the restore. */
  lemma NoCountFails(lines: seq<string>)
    requires ParseLine(ReadLine(lines, 0)).None?
    ensures ParseLines(lines) == None
  {
  }

  /** Two more int lines extend the markers read by one live marker. */
  lemma PairReads(lines: seq<string>, i: nat, read: seq<Landmark>, x: int32, y: int32)
    requires ParsePairs(LineReader(lines), i) == Some(read)
    requires ParseLine(ReadLine(lines, 2 * i + 1)) == Some(x) && ParseLine(ReadLine(lines, 2 * i + 2)) == Some(y)
    ensures ParsePairs(LineReader(lines), i + 1) == Some(read + [Landmark(Merc28(x, y), true)])
  {
  }

  /**
   * A line that is missing or not an int, among the pairs the count `n`
   * calls for, voids the restore.
   */
  lemma PairFails(lines: seq<string>, n: int32, i: nat)
    requires ParseLine(ReadLine(lines, 0)) == Some(n) && i < PairCount(n)
    requires ParsePairs(LineReader(lines), i).Some?
    requires ParseLine(ReadLine(lines, 2 * i + 1)).None? || ParseLine(ReadLine(lines, 2 * i + 2)).None?
    ensures ParseLines(lines) == None
  {
    var line := LineReader(lines);
    assert line(0) == Some(n);
    PairMissing(line, i);
    ParsePairsFailureSticks(line, i + 1, PairCount(n));
  }

  /** Once the pairs the count `n` calls for are read, they are the restore. */
  lemma AllPairsRead(lines: seq<string>, n: int32, read: seq<Landmark>)
    requires ParseLine(ReadLine(lines, 0)) == Some(n)
    requires ParsePairs(LineReader(lines), PairCount(n)) == Some(read)
    ensures ParseLines(lines) == Some(read)
  {
  }

  /**
   * The reading loop of `restore_state_from_file`, shared by both stores:
   * the count line, then two int lines per marker, giving up at the first
   * line that is missing or not an int. Line `next` is read with the
   * `readLine` that precedes each `parseInt`.
   */
  method ReadMarkers(lines: seq<string>) returns (r: Option<seq<Landmark>>)
    ensures r == ParseLines(lines)
    ensures r.Some? ==> |r.value| <= MAX_VALUE
  {
    var first := ParseLine(ReadLine(lines, 0));
    if first.None? {
      NoCountFails(lines);
      return None;
    }
    var n := first.value;
    var read: seq<Landmark> := [];
    var next := 1;
    var i: int32 := 0;
    while i < n
      invariant 0 <= i && (i as int) <= PairCount(n)
      invariant next == 2 * i + 1 && |read| == i as int
      invariant ParsePairs(LineReader(lines), i) == Some(read)
      decreases n - i
    {
      var x := ParseLine(ReadLine(lines, next));
      next := next + 1;
      if x.None? {
        PairFails(lines, n, i as nat);
        return None;
      }
      var y := ParseLine(ReadLine(lines, next));
      next := next + 1;
      if y.None? {
        PairFails(lines, n, i as nat);
        return None;
      }
      PairReads(lines, i as nat, read, x.value, y.value);
      read := read + [Landmark(Merc28(x.value, y.value), true)];
      i := i + 1;
    }
    AllPairsRead(lines, n, read);
    r := Some(read);
  }

  /**
   * The file is corrupt: its count line, or one of the lines that count
   * calls for, is missing or not an int.
   */
  predicate Corrupt(lines: seq<string>) {
    var line := LineReader(lines);
    || line(0).None?
    || exists j :: 1 <= j <= 2 * PairCount(line(0).value) && line(j).None?
  }

  /**
   * Restore is all or nothing: a corrupt file gives an empty store, and
   * any other file gives exactly the declared number of markers, all live,
   * each at the coordinates on its two lines. Lines after the last pair are
   * never looked at.
   */
  lemma DecodeAllOrNothing(lines: seq<string>)
    ensures Corrupt(lines) ==> Decode(Present(lines)) == []
    ensures !Corrupt(lines) ==>
              var line := LineReader(lines);
              var n := PairCount(line(0).value);
              var r := Decode(Present(lines));
              |r| == n &&
              forall i :: 0 <= i < n ==>
                r[i].alive && line(2 * i + 1) == Some(r[i].pos.x) && line(2 * i + 2) == Some(r[i].pos.y)
  {
    var line := LineReader(lines);
    if line(0).Some? {
      ParsePairsMeaning(line, PairCount(line(0).value));
    }
  }

  /** A file the store cannot open, or does not find, restores to an empty store. */
  lemma DecodeNoFile()
    ensures Decode(Missing) == [] && Decode(Unreadable) == []
  {
  }

  // ---------------------------------------------------------------------
  // Round trip

  /** The markers a restore rebuilds from saved positions: all live. */
  function Revive(qs: seq<Merc28>): (r: seq<Landmark>)
    ensures |r| == |qs|
    ensures forall i :: 0 <= i < |qs| ==> r[i].pos == qs[i] && r[i].alive
  {
    seq(|qs|, i requires 0 <= i < |qs| => Landmark(qs[i], true))
  }

  /** Lines 1 to `2k` read as the coordinates of `qs[..k]`. */
  predicate ReadsAsCoords(line: int -> Option<int32>, qs: seq<Merc28>, k: int)
    requires 0 <= k <= |qs|
  {
    forall i :: 0 <= i < k ==>
      line(2 * i + 1) == Some(qs[i].x) && line(2 * i + 2) == Some(qs[i].y)
  }

  lemma ReviveSnoc(qs: seq<Merc28>, k: int)
    requires 0 < k <= |qs|
    ensures Revive(qs[..k]) == Revive(qs[..k - 1]) + [Landmark(qs[k - 1], true)]
  {
  }

  lemma {:induction false} ParsePairsOfCoords(line: int -> Option<int32>, qs: seq<Merc28>, k: nat)
    requires k <= |qs| && ReadsAsCoords(line, qs, k)
    ensures ParsePairs(line, k) == Some(Revive(qs[..k]))
  {
    if k > 0 {
      assert ReadsAsCoords(line, qs, k - 1);
      ParsePairsOfCoords(line, qs, k - 1);
      assert line(2 * (k - 1) + 1) == Some(qs[k - 1].x);
      assert line(2 * (k - 1) + 2) == Some(qs[k - 1].y);
      ReviveSnoc(qs, k);
    }
  }

  /** A line holding a printed int reads back as that int. */
  lemma TokenOfFormat(lines: seq<string>, j: int, v: int32)
    requires 0 <= j < |lines| && lines[j] == FormatInt(v)
    ensures LineReader(lines)(j) == Some(v)
  {
    ParseFormat(v);
  }

  /** The lines hold the count of `qs`, then the X and Y of each position, in order. */
  predicate LaidOut(lines: seq<string>, qs: seq<Merc28>) {
    && |lines| >= 1 + 2 * |qs|
    && lines[0] == FormatInt(|qs|)
    && forall i :: 0 <= i < |qs| ==>
         lines[2 * i + 1] == FormatInt(qs[i].x) && lines[2 * i + 2] == FormatInt(qs[i].y)
  }

  /** Lines laid out as a save lays them out read back as those positions, all live. */
  lemma ParseLaidOut(lines: seq<string>, qs: seq<Merc28>)
    requires |qs| <= MAX_VALUE && LaidOut(lines, qs)
    ensures ParseLines(lines) == Some(Revive(qs))
  {
    var line := LineReader(lines);
    forall i | 0 <= i < |qs|
      ensures line(2 * i + 1) == Some(qs[i].x) && line(2 * i + 2) == Some(qs[i].y)
    {
      TokenOfFormat(lines, 2 * i + 1, qs[i].x);
      TokenOfFormat(lines, 2 * i + 2, qs[i].y);
    }
    TokenOfFormat(lines, 0, |qs|);
    ParsePairsOfCoords(line, qs, |qs|);
    assert qs[..|qs|] == qs;
  }

  /** A save, followed by any further lines, is laid out as the live positions. */
  lemma EncodeLaidOut(ps: seq<Landmark>, extra: seq<string>)
    ensures LaidOut(Encode(ps) + extra, LivePositions(ps))
  {
    EncodeShape(ps);
    var e := Encode(ps);
    var qs := LivePositions(ps);
    forall i | 0 <= i < |qs|
      ensures (e + extra)[2 * i + 1] == FormatInt(qs[i].x) && (e + extra)[2 * i + 2] == FormatInt(qs[i].y)
    {
      assert (e + extra)[2 * i + 1] == e[2 * i + 1];
      assert (e + extra)[2 * i + 2] == e[2 * i + 2];
    }
  }

  /**
   * Saving and restoring gives back the live markers' positions in their
   * order, all live, whatever follows the last pair in the file. The count
   * must fit an int, as it does for any `ArrayList`.
   */
  lemma RoundTrip(ps: seq<Landmark>, extra: seq<string>)
    requires |ps| <= MAX_VALUE
    ensures Decode(Present(Encode(ps) + extra)) == Revive(LivePositions(ps))
  {
    EncodeLaidOut(ps, extra);
    ParseLaidOut(Encode(ps) + extra, LivePositions(ps));
  }

  /** A store with no live markers saves as the single line `0`, which restores to an empty store. */
  lemma EmptySave(ps: seq<Landmark>)
    requires !HasAlive(ps)
    ensures Encode(ps) == ["0"]
    ensures Decode(Present(Encode(ps))) == []
  {
    LiveCountPositive(ps);
  }

  /** A non-integer line among the declared pairs voids the restore. */
  lemma CorruptExample()
    ensures Decode(Present(["3", "abc", "5"])) == []
  {
    assert ParseInt("3") == Some(3);
    assert ParseInt("abc") == None;
  }
}
