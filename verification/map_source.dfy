/**
 * The map tile sources: a fixed table of named tile sets, each with the
 * directory segment its tiles live under and the menu code that selects it;
 * lookup of a source by code; and the path of one tile.
 */
module MapSources {
  import opened Options
  import opened JavaInt
  import opened Decimal

  /** Where the tile sets are stored. */
  const PATH_START: string := "/sdcard/Maverick/tiles"

  /** One tile source; its fields are set once by the constructor. */
  datatype MapSource = MapSource(menuName: string, pathSegment: string, code: int32) {

    function GetMenuName(): string {
      menuName
    }

    function GetCode(): int32 {
      code
    }

    /** `String.format("%s/%s/%d/%d/%d.png.tile", path_start, path_segment, zoom, x, y)`. */
    function GetTilePath(zoom: int32, x: int32, y: int32): string {
      PATH_START + "/" + pathSegment + "/" + FormatInt(zoom) + "/" + FormatInt(x) + "/" + FormatInt(y) + ".png.tile"
    }
  }

  /** The accessors give back what the source was built with. */
  lemma AccessorsReturnArguments(menuName: string, pathSegment: string, code: int32)
    ensures MapSource(menuName, pathSegment, code).GetMenuName() == menuName
    ensures MapSource(menuName, pathSegment, code).GetCode() == code
    ensures MapSource(menuName, pathSegment, code).pathSegment == pathSegment
  {
  }

  const MAP_2G: int32 := 100
  const MAP_3G: int32 := 101
  const MAP_TODO: int32 := 105
  const MAP_MAPNIK: int32 := 102
  const MAP_OS: int32 := 103
  const MAP_OPEN_CYCLE: int32 := 104

  /** The table, in menu order. */
  const SOURCES: seq<MapSource> := [
    MapSource("2G map", "Custom 2", MAP_2G),
    MapSource("3G map", "Custom 3", MAP_3G),
    MapSource("To-visit map", "logmygsm_todo", MAP_TODO),
    MapSource("Ordnance Survey", "Ordnance Survey Explorer Maps (UK)", MAP_OS),
    MapSource("Mapnik (OSM)", "mapnik", MAP_MAPNIK),
    MapSource("Open Cycle Map", "OSM Cycle Map", MAP_OPEN_CYCLE)
  ]

  /**
   * The first source in `table` whose code is `c`, or `None` when no
   * source has that code.
   */
  function LookupIn(table: seq<MapSource>, c: int32): (r: Option<MapSource>)
    ensures r.None? <==> forall i :: 0 <= i < |table| ==> table[i].code != c
    ensures r.Some? ==> exists i :: 0 <= i < |table| && table[i] == r.value && r.value.code == c &&
                                    forall j :: 0 <= j < i ==> table[j].code != c
  {
    if table == [] then None
    else if table[0].GetCode() == c then Some(table[0])
    else
      var r := LookupIn(table[1..], c);
      assert forall i :: 1 <= i < |table| ==> table[i] == table[1..][i - 1];
      r
  }

  /** `lookup(code)` over the static table; `None` stands for `null`. */
  function Lookup(c: int32): Option<MapSource> {
    LookupIn(SOURCES, c)
  }

  /** No two sources share a code, or a path segment. */
  lemma TableDistinct()
    ensures forall i, j :: 0 <= i < j < |SOURCES| ==> SOURCES[i].code != SOURCES[j].code
    ensures forall i, j :: 0 <= i < j < |SOURCES| ==> SOURCES[i].pathSegment != SOURCES[j].pathSegment
  {
  }

  /** The code of each table entry looks up that entry, since no earlier entry carries it. */
  lemma LookupFindsEntry(i: int)
    requires 0 <= i < |SOURCES|
    ensures Lookup(SOURCES[i].code) == Some(SOURCES[i])
  {
    TableDistinct();
  }

  /** Each menu code selects its own source. */
  lemma LookupMenuCodes()
    ensures Lookup(MAP_2G) == Some(SOURCES[0]) && Lookup(MAP_3G) == Some(SOURCES[1])
    ensures Lookup(MAP_TODO) == Some(SOURCES[2]) && Lookup(MAP_OS) == Some(SOURCES[3])
    ensures Lookup(MAP_MAPNIK) == Some(SOURCES[4]) && Lookup(MAP_OPEN_CYCLE) == Some(SOURCES[5])
  {
    LookupFindsEntry(0);
    LookupFindsEntry(1);
    LookupFindsEntry(2);
    LookupFindsEntry(3);
    LookupFindsEntry(4);
    LookupFindsEntry(5);
  }

  /** Only the six menu codes, 100 to 105, select a source. */
  lemma LookupUnknown(c: int32)
    ensures Lookup(c).None? <==> !(100 <= c <= 105)
  {
    if 100 <= c <= 105 {
      LookupMenuCodes();
    }
  }

  // ---------------------------------------------------------------------
  // Tile paths

  predicate NoSlash(s: string) {
    forall i :: 0 <= i < |s| ==> s[i] != '/'
  }

  /** A printed int holds no `/`. */
  lemma FormatNoSlash(v: int)
    ensures NoSlash(FormatInt(v))
  {
    FormatIntChars(v);
  }

  /** In `a + "/" + b` with no `/` in `a`, the first `/` is the joining one. */
  lemma FirstSlash(a: string, b: string)
    requires NoSlash(a)
    ensures (a + "/" + b)[|a|] == '/'
    ensures forall k :: 0 <= k < |a| ==> (a + "/" + b)[k] != '/'
  {
  }

  /** A string joined to another at a `/` comes apart there, when the first holds no `/`. */
  lemma SplitAtSlash(a: string, b: string, c: string, d: string)
    requires NoSlash(a) && NoSlash(c) && a + "/" + b == c + "/" + d
    ensures a == c && b == d
  {
    var s := a + "/" + b;
    FirstSlash(a, b);
    FirstSlash(c, d);
    assert |a| == |c|;
    assert a == s[..|a|];
    assert b == s[|a| + 1..];
  }

  lemma StripSuffix(a: string, b: string, t: string)
    requires a + t == b + t
    ensures a == b
  {
    assert a == (a + t)[..|a|];
  }

  lemma Regroup(p: string, s: string, z: string, x: string, y: string, t: string)
    ensures p + "/" + s + "/" + z + "/" + x + "/" + y + t == p + "/" + (s + "/" + (z + "/" + (x + "/" + (y + t))))
  {
  }

  /** The tile path, split after the directory of the tile set. */
  lemma TilePathParts(src: MapSource, zoom: int32, x: int32, y: int32)
    ensures src.GetTilePath(zoom, x, y) ==
            PATH_START + "/" + (src.pathSegment + "/" + (FormatInt(zoom) + "/" + (FormatInt(x) + "/" + (FormatInt(y) + ".png.tile"))))
  {
    Regroup(PATH_START, src.pathSegment, FormatInt(zoom), FormatInt(x), FormatInt(y), ".png.tile");
  }

  /**
   * A tile path names its tile: for sources whose segment holds no `/`, as
   * all in the table do, equal paths mean the same segment and the same
   * zoom, x and y.
   */
  lemma TilePathInjective(a: MapSource, b: MapSource, z: int32, x: int32, y: int32, z': int32, x': int32, y': int32)
    requires NoSlash(a.pathSegment) && NoSlash(b.pathSegment)
    requires a.GetTilePath(z, x, y) == b.GetTilePath(z', x', y')
    ensures a.pathSegment == b.pathSegment && z == z' && x == x' && y == y'
  {
    TilePathParts(a, z, x, y);
    TilePathParts(b, z', x', y');
    var tailA := a.pathSegment + "/" + (FormatInt(z) + "/" + (FormatInt(x) + "/" + (FormatInt(y) + ".png.tile")));
    var tailB := b.pathSegment + "/" + (FormatInt(z') + "/" + (FormatInt(x') + "/" + (FormatInt(y') + ".png.tile")));
    assert PATH_START + "/" + tailA == PATH_START + "/" + tailB;
    assert tailA == (PATH_START + "/" + tailA)[|PATH_START| + 1..];
    assert tailB == (PATH_START + "/" + tailB)[|PATH_START| + 1..];
    SplitAtSlash(a.pathSegment, FormatInt(z) + "/" + (FormatInt(x) + "/" + (FormatInt(y) + ".png.tile")),
                 b.pathSegment, FormatInt(z') + "/" + (FormatInt(x') + "/" + (FormatInt(y') + ".png.tile")));
    FormatNoSlash(z);
    FormatNoSlash(z');
    SplitAtSlash(FormatInt(z), FormatInt(x) + "/" + (FormatInt(y) + ".png.tile"),
                 FormatInt(z'), FormatInt(x') + "/" + (FormatInt(y') + ".png.tile"));
    FormatNoSlash(x);
    FormatNoSlash(x');
    SplitAtSlash(FormatInt(x), FormatInt(y) + ".png.tile", FormatInt(x'), FormatInt(y') + ".png.tile");
    StripSuffix(FormatInt(y), FormatInt(y'), ".png.tile");
    FormatInjective(z, z');
    FormatInjective(x, x');
    FormatInjective(y, y');
  }

  lemma SegmentsHaveNoSlash()
    ensures NoSlash("Custom 2") && NoSlash("Custom 3") && NoSlash("logmygsm_todo")
    ensures NoSlash("Ordnance Survey Explorer Maps (UK)") && NoSlash("mapnik") && NoSlash("OSM Cycle Map")
  {
  }

  /** Every segment in the table holds no `/`, so its tile paths are distinct across sources and tiles. */
  lemma TableSegmentsHaveNoSlash()
    ensures forall i :: 0 <= i < |SOURCES| ==> NoSlash(SOURCES[i].pathSegment)
  {
    SegmentsHaveNoSlash();
    assert forall i :: 0 <= i < |SOURCES| ==>
      SOURCES[i].pathSegment in ["Custom 2", "Custom 3", "logmygsm_todo", "Ordnance Survey Explorer Maps (UK)", "mapnik", "OSM Cycle Map"];
  }
}
