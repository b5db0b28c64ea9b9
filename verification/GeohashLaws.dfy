/**
 The laws of the geohash: stepping to a neighbour translates the cell torus,
 prefix search is containment in a box, and re-encoding a decoded centre is the
 identity.
 */
module GeohashLaws {
  import opened Wrappers
  import opened Arithmetic
  import opened Geohash
  import opened GeohashCells
  import opened Morton

  // --- One axis at a time ---

  /** A point of an interval lies in the i-th part exactly when it is within half a part of its middle. */
  lemma PartIffWithin(t: real, i: nat, n: nat, lo: real, length: real)
    requires 0.0 <= t < 1.0 && n > 0 && length > 0.0
    ensures Part(t, n) == i <==>
              Middle(i, n, lo, length) - length / 2.0 / n as real
              <= lo + length * t
              < Middle(i, n, lo, length) + length / 2.0 / n as real
  {
    var x := 1.0 / n as real;
    assert n as real * x == 1.0;
    var low, high := i as real * x, (i as real + 1.0) * x;
    assert Middle(i, n, lo, length) - length / 2.0 / n as real == lo + length * low by {
      assert (i as real + 0.5) / n as real == (i as real + 0.5) * x;
      assert length / 2.0 / n as real == length / 2.0 * x;
    }
    assert Middle(i, n, lo, length) + length / 2.0 / n as real == lo + length * high by {
      assert (i as real + 0.5) / n as real == (i as real + 0.5) * x;
      assert length / 2.0 / n as real == length / 2.0 * x;
    }
    ScaleOrder(low, t, length);
    ScaleOrder(high, t, length);
    ScaleOrder(low, t, n as real);
    ScaleOrder(high, t, n as real);
    assert low * n as real == i as real && high * n as real == i as real + 1.0;
    assert length * low <= length * t <==> low <= t;
    assert length * t < length * high <==> t < high;
    FloorUnique(t * n as real, i);
  }

  lemma ScaleOrder(a: real, b: real, d: real)
    requires d > 0.0
    ensures a <= b <==> a * d <= b * d
    ensures a < b <==> a * d < b * d
  {
    if a < b { RealMulStrict(a, b, d); }
    if b < a { RealMulStrict(b, a, d); }
  }

  /** The middle of a part lies in that part. */
  lemma PartOfMiddle(i: nat, n: nat, lo: real, length: real)
    requires i < n && length > 0.0
    ensures 0.0 < (Middle(i, n, lo, length) - lo) / length < 1.0
    ensures Part((Middle(i, n, lo, length) - lo) / length, n) == i
  {
    var t := (i as real + 0.5) / n as real;
    assert (Middle(i, n, lo, length) - lo) / length == t by { assert length * t / length == t; }
    assert t * n as real == i as real + 0.5;
    ScaleOrder(0.0, t, n as real);
    ScaleOrder(t, 1.0, n as real);
    FloorUnique(t * n as real, i);
  }

  /** Shifting a middle by whole parts and reducing modulo the interval is a rotation of the parts. */
  lemma RotateMiddle(i: nat, n: nat, d: int, lo: real, length: real)
    requires n > 0 && length > 0.0
    ensures RemEuclid((Middle(i, n, lo, length) + 2.0 * (length / 2.0 / n as real) * d as real) - lo, length) + lo
         == Middle((i + d) % n, n, lo, length)
  {
    var j, q := (i + d) % n, (i + d) / n;
    var s := (Middle(i, n, lo, length) + 2.0 * (length / 2.0 / n as real) * d as real) - lo;
    var u, v := ((i + d) as real + 0.5) / n as real, (j as real + 0.5) / n as real;
    RotateUnit(i + d, n);
    assert s == length * u by { ShiftedMiddle(i, n, d, lo, length); }
    assert s / length == u by { assert length * u / length == u; }
    assert length * u == length * q as real + length * v;
  }

  lemma RotateUnit(k: int, n: nat)
    requires n > 0
    ensures (k as real + 0.5) / n as real == (k / n) as real + ((k % n) as real + 0.5) / n as real
    ensures ((k as real + 0.5) / n as real).Floor == k / n
  {
    var j, q := k % n, k / n;
    var v := (j as real + 0.5) / n as real;
    assert v * n as real == j as real + 0.5;
    assert k as real == q as real * n as real + j as real by { assert k == q * n + j; }
    assert (k as real + 0.5) / n as real == q as real + v by {
      assert (q as real + v) * n as real == k as real + 0.5;
      QuotientUnique(k as real + 0.5, n as real, q as real + v);
    }
    ScaleOrder(0.0, v, n as real);
    ScaleOrder(v, 1.0, n as real);
    FloorUnique(q as real + v, q);
  }

  lemma QuotientUnique(a: real, b: real, c: real)
    requires b > 0.0 && c * b == a
    ensures a / b == c
  {
  }

  lemma ShiftedMiddle(i: int, n: nat, d: int, lo: real, length: real)
    requires n > 0
    ensures Middle(i, n, lo, length) + 2.0 * (length / 2.0 / n as real) * d as real - lo
         == length * (((i + d) as real + 0.5) / n as real)
  {
    var x := 1.0 / n as real;
    assert (i as real + 0.5) / n as real == (i as real + 0.5) * x;
    assert ((i + d) as real + 0.5) / n as real == ((i + d) as real + 0.5) * x;
    assert length / 2.0 / n as real == length / 2.0 * x;
    assert (i + d) as real == i as real + d as real;
  }

  // --- Neighbours ---

  /** A row or column number, taken around the torus. */
  function Around(i: int, n: nat): nat
    requires n > 0
  {
    i % n
  }

  /** The cell `dlat` rows up and `dlon` columns right, on the torus. */
  function Translate(c: Cell, dlat: int, dlon: int, len: nat): Cell {
    Cell(Around(c.row + dlat, Rows(len)), Around(c.col + dlon, Cols(len)))
  }

  /** Decoding, shifting, wrapping and re-encoding moves exactly one cell on the torus; it fails on what names no cell. */
  lemma NeighborTranslates(h: string, d: Direction)
    ensures Neighbor(h, d).Ok? <==> ValidHash(h)
    ensures ValidHash(h) ==>
              var (dlat, dlon) := d.ToTuple();
              && OnGrid(Translate(CellOf(h), dlat, dlon, |h|), |h|)
              && Neighbor(h, d) == Ok(HashOf(Translate(CellOf(h), dlat, dlon, |h|), |h|))
  {
    hide Decode, Encode, CellOf, HashOf, Part, Middle, Pow2, RemEuclid, AllDigits;
    DecodeIsCentre(h);
    if ValidHash(h) {
      var c, len := CellOf(h), |h|;
      var (dlat, dlon) := d.ToTuple();
      var c' := Translate(c, dlat, dlon, len);
      var lon, lat := Middle(c'.col, Cols(len), -180.0, 360.0), Middle(c'.row, Rows(len), -90.0, 180.0);
      RotateMiddle(c.row, Rows(len), dlat, -90.0, 180.0);
      RotateMiddle(c.col, Cols(len), dlon, -180.0, 360.0);
      assert Neighbor(h, d) == Encode(lon, lat, len);
      CentreCell(c', len);
      EncodeFindsCell(lon, lat, len);
    } else {
      NeighborOfInvalid(h, d);
    }
  }

  lemma NeighborOfInvalid(h: string, d: Direction)
    requires !ValidHash(h)
    ensures Neighbor(h, d).Err?
  {
    hide AllDigits, Pow2, RemEuclid;
    DecodeIsCentre(h);
  }

  /** The centre of a cell is in range and in that cell. */
  lemma CentreCell(c: Cell, len: nat)
    requires 1 <= len <= MAX_LENGTH && OnGrid(c, len)
    ensures var a := CellArea(c, len); InRange(a.lon, a.lat) && PointCell(a.lon, a.lat, len) == c
  {
    hide Pow2, Part, Middle;
    var a := CellArea(c, len);
    PartOfMiddle(c.row, Rows(len), -90.0, 180.0);
    PartOfMiddle(c.col, Cols(len), -180.0, 360.0);
    assert (a.lat + 90.0) / 180.0 == a.lat / 180.0 + 0.5;
    assert (a.lon + 180.0) / 360.0 == a.lon / 360.0 + 0.5;
  }

  lemma AroundTwice(i: int, d: int, e: int, n: nat)
    requires n > 0
    ensures Around(Around(i + d, n) + e, n) == Around(i + (d + e), n)
  {
    var q, r := (i + d) / n, (i + d) % n;
    assert i + d == q * n + r;
    var q', r' := (r + e) / n, (r + e) % n;
    assert r + e == q' * n + r';
    assert i + d + e == (q + q') * n + r' by { assert (q + q') * n == q * n + q' * n; }
    ModUnique(i + d + e, n, q + q', r');
  }

  /** Two steps add up, whatever the directions. */
  lemma NeighborTwice(h: string, d: Direction, e: Direction)
    requires ValidHash(h)
    ensures Neighbor(h, d).Ok? && ValidHash(Neighbor(h, d).value) && |Neighbor(h, d).value| == |h|
    ensures var (x, y) := d.ToTuple(); var (z, w) := e.ToTuple();
            && OnGrid(Translate(CellOf(h), x + z, y + w, |h|), |h|)
            && Neighbor(Neighbor(h, d).value, e) == Ok(HashOf(Translate(CellOf(h), x + z, y + w, |h|), |h|))
  {
    hide Neighbor, CellOf, HashOf, OnGrid, Translate, AllDigits, Direction.ToTuple;
    var c, len := CellOf(h), |h|;
    var (x, y) := d.ToTuple(); var (z, w) := e.ToTuple();
    NeighborTranslates(h, d);
    HashCellBijection(h, Translate(c, x, y, len), len);
    NeighborTranslates(Neighbor(h, d).value, e);
    TranslateTwice(c, x, y, z, w, len);
  }

  lemma TranslateTwice(c: Cell, x: int, y: int, z: int, w: int, len: nat)
    ensures Translate(Translate(c, x, y, len), z, w, len) == Translate(c, x + z, y + w, len)
  {
    hide Pow2, Around;
    AroundTwice(c.row, x, z, Rows(len));
    AroundTwice(c.col, y, w, Cols(len));
  }

  /** Opposite directions undo each other. */
  lemma NeighborOpposite(h: string, d: Direction)
    requires ValidHash(h)
    ensures Neighbor(h, d).Ok? && Neighbor(Neighbor(h, d).value, d.Opposite()) == Ok(h)
  {
    hide Neighbor, CellOf, HashOf, OnGrid, Translate, AllDigits;
    NeighborTwice(h, d, d.Opposite());
    CellOfHash(h);
    TranslateZero(CellOf(h), |h|);
  }

  lemma TranslateZero(c: Cell, len: nat)
    requires OnGrid(c, len)
    ensures Translate(c, 0, 0, len) == c
  {
    hide Pow2;
    ModUnique(c.row, Rows(len), 0, c.row);
    ModUnique(c.col, Cols(len), 0, c.col);
  }

  /** A diagonal is its two straight steps, in either order. */
  lemma DiagonalIsComposition(h: string, diagonal: Direction, vertical: Direction, horizontal: Direction)
    requires ValidHash(h)
    requires vertical.N? || vertical.S?
    requires horizontal.E? || horizontal.W?
    requires diagonal.ToTuple() == (vertical.ToTuple().0, horizontal.ToTuple().1)
    ensures Neighbor(h, vertical).Ok? && Neighbor(Neighbor(h, vertical).value, horizontal) == Neighbor(h, diagonal)
    ensures Neighbor(h, horizontal).Ok? && Neighbor(Neighbor(h, horizontal).value, vertical) == Neighbor(h, diagonal)
  {
    hide Neighbor, CellOf, HashOf, OnGrid, Translate, AllDigits;
    NeighborTwice(h, vertical, horizontal);
    NeighborTwice(h, horizontal, vertical);
    NeighborTranslates(h, diagonal);
  }

  lemma GridIsWide(len: nat)
    requires 1 <= len <= MAX_LENGTH
    ensures Rows(len) >= 4 && Cols(len) >= 8
  {
    Pow2Values();
    Pow2Add(2, LatBits(len) - 2);
    Pow2Add(3, LonBits(len) - 3);
  }

  lemma OffsetsDiffer(i: int, d: int, e: int, n: int)
    requires n >= 4 && -1 <= d <= 1 && -1 <= e <= 1 && d != e
    ensures (i + d) % n != (i + e) % n
  {
    var q, r, q', r' := (i + d) / n, (i + d) % n, (i + e) / n, (i + e) % n;
    assert i + d == q * n + r && i + e == q' * n + r';
    if r == r' {
      assert (q - q') * n == d - e;
      if q > q' { MulMonotone(1, q - q', n); }
      if q < q' { MulMonotone(1, q' - q, n); }
    }
  }

  /** The eight neighbours of a cell are eight different cells, none of them the cell itself. */
  lemma NeighborsDistinct(h: string, d: Direction, e: Direction)
    requires ValidHash(h) && d != e
    ensures Neighbor(h, d) != Neighbor(h, e) && Neighbor(h, d) != Ok(h)
  {
    hide Neighbor, CellOf, HashOf, Pow2, AllDigits;
    var c, len := CellOf(h), |h|;
    var (x, y) := d.ToTuple(); var (z, w) := e.ToTuple();
    GridIsWide(len);
    NeighborTranslates(h, d);
    NeighborTranslates(h, e);
    CellOfHash(h);
    HashCellBijection(h, Translate(c, x, y, len), len);
    HashCellBijection(h, Translate(c, z, w, len), len);
    TranslateZero(c, len);
    if x != z { OffsetsDiffer(c.row, x, z, Rows(len)); }
    if y != w { OffsetsDiffer(c.col, y, w, Cols(len)); }
    if x != 0 { OffsetsDiffer(c.row, x, 0, Rows(len)); }
    if y != 0 { OffsetsDiffer(c.col, y, 0, Cols(len)); }
  }

  /** How far that many cells reach, given half the width of one. */
  function Distance(halfWidth: real, cells: int): real {
    2.0 * halfWidth * cells as real
  }

  /**
   The neighbour's centre is one cell away on the map exactly when the step does
   not leave the grid: at the poles the latitude wraps to the opposite pole.
   */
  lemma NeighborIsAdjacentIff(h: string, d: Direction)
    requires ValidHash(h)
    ensures Neighbor(h, d).Ok? && Decode(h).Ok? && Decode(Neighbor(h, d).value).Ok?
    ensures var (dlat, dlon) := d.ToTuple();
            var a, b := Decode(h).value, Decode(Neighbor(h, d).value).value;
            && (b.lat == a.lat + Distance(a.latErr, dlat) <==> 0 <= CellOf(h).row + dlat < Rows(|h|))
            && (b.lon == a.lon + Distance(a.lonErr, dlon) <==> 0 <= CellOf(h).col + dlon < Cols(|h|))
  {
    hide Neighbor, Decode, CellOf, HashOf, Pow2, AllDigits, Middle, Distance, Direction.ToTuple;
    var c, len := CellOf(h), |h|;
    var (dlat, dlon) := d.ToTuple();
    var c' := Translate(c, dlat, dlon, len);
    NeighborTranslates(h, d);
    CellOfHash(h);
    HashCellBijection(h, c', len);
    DecodeIsCentre(h);
    DecodeIsCentre(Neighbor(h, d).value);
    MiddleShift(c.row, c.row + dlat, Rows(len), dlat, 90.0);
    MiddleShift(c.col, c.col + dlon, Cols(len), dlon, 180.0);
  }

  /** The neighbour found is the hash of that cell, at the same length. */
  ghost predicate Names(r: Result<string, GeohashError>, row: nat, col: nat, len: nat) {
    r.Ok? && ValidHash(r.value) && |r.value| == len && CellOf(r.value) == Cell(row, col)
  }

  /** The eight neighbours by name: north adds a row, east adds a column, each around the torus. */
  lemma NeighborsByName(h: string)
    requires ValidHash(h)
    ensures var (row, col, rows, cols, len) := (CellOf(h).row, CellOf(h).col, Rows(|h|), Cols(|h|), |h|);
            && row < rows && col < cols
            && Names(Neighbor(h, N), (row + 1) % rows, col, len)
            && Names(Neighbor(h, S), (row + rows - 1) % rows, col, len)
            && Names(Neighbor(h, E), row, (col + 1) % cols, len)
            && Names(Neighbor(h, W), row, (col + cols - 1) % cols, len)
            && Names(Neighbor(h, NE), (row + 1) % rows, (col + 1) % cols, len)
            && Names(Neighbor(h, NW), (row + 1) % rows, (col + cols - 1) % cols, len)
            && Names(Neighbor(h, SE), (row + rows - 1) % rows, (col + 1) % cols, len)
            && Names(Neighbor(h, SW), (row + rows - 1) % rows, (col + cols - 1) % cols, len)
  {
    hide Neighbor, CellOf, AllDigits, Names, Pow2, Around;
    CellOfHash(h);
    StepsAround(CellOf(h).row, Rows(|h|));
    StepsAround(CellOf(h).col, Cols(|h|));
    NeighborNames(h, N);
    NeighborNames(h, S);
    NeighborNames(h, E);
    NeighborNames(h, W);
    NeighborNames(h, NE);
    NeighborNames(h, NW);
    NeighborNames(h, SE);
    NeighborNames(h, SW);
  }

  lemma StepsAround(i: nat, n: nat)
    requires i < n
    ensures Around(i + 1, n) == (i + 1) % n && Around(i - 1, n) == (i + n - 1) % n && Around(i + 0, n) == i
  {
    ModUnique(i, n, 0, i);
    if i == 0 {
      ModUnique(-1, n, -1, n - 1);
      ModUnique(n - 1, n, 0, n - 1);
    } else {
      ModUnique(i - 1, n, 0, i - 1);
      ModUnique(i + n - 1, n, 1, i - 1);
    }
  }

  lemma NeighborNames(h: string, d: Direction)
    requires ValidHash(h)
    ensures var (dlat, dlon) := d.ToTuple();
            Names(Neighbor(h, d), Around(CellOf(h).row + dlat, Rows(|h|)), Around(CellOf(h).col + dlon, Cols(|h|)), |h|)
  {
    hide Neighbor, CellOf, AllDigits, HashOf, Around, Direction.ToTuple;
    var (dlat, dlon) := d.ToTuple();
    NeighborTranslates(h, d);
    HashCellBijection(h, Translate(CellOf(h), dlat, dlon, |h|), |h|);
  }

  /** On the map: away from the edges, north is one cell height up and east one cell width right, and nothing else moves. */
  lemma NeighborsOnMap(h: string)
    requires ValidHash(h)
    ensures Decode(h).Ok?
    ensures var (c, a) := (CellOf(h), Decode(h).value);
            && (c.row + 1 < Rows(|h|) ==> At(Neighbor(h, N), a.lon, a.lat + 2.0 * a.latErr))
            && (c.row > 0 ==> At(Neighbor(h, S), a.lon, a.lat - 2.0 * a.latErr))
            && (c.col + 1 < Cols(|h|) ==> At(Neighbor(h, E), a.lon + 2.0 * a.lonErr, a.lat))
            && (c.col > 0 ==> At(Neighbor(h, W), a.lon - 2.0 * a.lonErr, a.lat))
  {
    hide Neighbor, Decode, CellOf, AllDigits, Pow2, At, Distance;
    CellOfHash(h);
    DecodeIsCentre(h);
    var c, a := CellOf(h), Decode(h).value;
    Distances(a.lonErr);
    Distances(a.latErr);
    if c.row + 1 < Rows(|h|) { NeighborMoves(h, N, 1, 0); }
    if c.row > 0 { NeighborMoves(h, S, -1, 0); }
    if c.col + 1 < Cols(|h|) { NeighborMoves(h, E, 0, 1); }
    if c.col > 0 { NeighborMoves(h, W, 0, -1); }
  }

  lemma NeighborMoves(h: string, d: Direction, dlat: int, dlon: int)
    requires ValidHash(h) && d.ToTuple() == (dlat, dlon)
    requires 0 <= CellOf(h).row + dlat < Rows(|h|) && 0 <= CellOf(h).col + dlon < Cols(|h|)
    ensures Decode(h).Ok?
    ensures var a := Decode(h).value;
            At(Neighbor(h, d), a.lon + Distance(a.lonErr, dlon), a.lat + Distance(a.latErr, dlat))
  {
    hide Neighbor, Decode, CellOf, AllDigits, Pow2, Distance, Direction.ToTuple;
    NeighborIsAdjacentIff(h, d);
  }

  lemma Distances(halfWidth: real)
    ensures Distance(halfWidth, 1) == 2.0 * halfWidth && Distance(halfWidth, -1) == -2.0 * halfWidth
    ensures Distance(halfWidth, 0) == 0.0
  {
  }

  /** The hash decodes to that centre. */
  predicate At(r: Result<string, GeohashError>, lon: real, lat: real) {
    r.Ok? && Decode(r.value).Ok? && Decode(r.value).value.lon == lon && Decode(r.value).value.lat == lat
  }

  /** East of "s" is "t". */
  lemma EastOfS()
    ensures Neighbor("s", E) == Ok("t")
  {
    hide Neighbor, CellOf, AllDigits, HashOf, Pow2;
    CellOfS();
    CellOfT();
    NeighborsByName("s");
    var t := Neighbor("s", E).value;
    HashCellBijection(t, CellOf(t), 1);
    HashCellBijection("t", CellOf("t"), 1);
  }

  lemma CellOfS()
    ensures ValidHash("s") && CellOf("s") == Cell(2, 4)
  {
  }

  lemma CellOfT()
    ensures ValidHash("t") && CellOf("t") == Cell(2, 5) && Cols(1) == 8
  {
  }

  /** From "u", in the northernmost row, a step north arrives at "h", in the southernmost. */
  lemma StepOverPole()
    ensures Neighbor("u", N) == Ok("h")
  {
    hide Neighbor, CellOf, AllDigits, HashOf, Pow2;
    NeighborTranslates("u", N);
    NorthernCell();
    SouthernCell();
    OverTheTop();
    HashCellBijection("h", CellOf("h"), 1);
  }

  lemma NorthernCell()
    ensures ValidHash("u") && CellOf("u") == Cell(3, 4)
  {
  }

  lemma SouthernCell()
    ensures ValidHash("h") && CellOf("h") == Cell(0, 4)
  {
  }

  lemma OverTheTop()
    ensures Translate(Cell(3, 4), 1, 0, 1) == Cell(0, 4)
  {
  }

  lemma MiddleShift(i: nat, k: int, n: nat, d: int, r: real)
    requires i < n && k == i + d && r > 0.0
    ensures Middle(k % n, n, -r, 2.0 * r) == Middle(i, n, -r, 2.0 * r) + Distance(r / n as real, d) <==> 0 <= k < n
  {
    var j := k % n;
    var y := 2.0 * (r / n as real);
    assert y > 0.0;
    MiddleAt(i, n, r);
    MiddleAt(j, n, r);
    assert (i as real + 0.5) * y + d as real * y == (k as real + 0.5) * y;
    if j != k {
      ScaleOrder(j as real + 0.5, k as real + 0.5, y);
      ScaleOrder(k as real + 0.5, j as real + 0.5, y);
    }
    if 0 <= k < n { ModUnique(k, n, 0, k); }
  }

  lemma MiddleAt(i: int, n: nat, r: real)
    requires n > 0
    ensures Middle(i, n, -r, 2.0 * r) == -r + (i as real + 0.5) * (2.0 * (r / n as real))
  {
    var x := 1.0 / n as real;
    assert (i as real + 0.5) / n as real == (i as real + 0.5) * x && r / n as real == r * x;
  }

  // --- Centres, errors and prefixes ---

  /** Re-encoding the decoded centre at the same length returns the hash. */
  lemma ReencodeCentre(h: string)
    requires ValidHash(h)
    ensures Decode(h).Ok?
    ensures Encode(Decode(h).value.lon, Decode(h).value.lat, |h|) == Ok(h)
  {
    hide Decode, Encode, CellOf, HashOf, Pow2, AllDigits, Part;
    DecodeIsCentre(h);
    CellOfHash(h);
    CentreCell(CellOf(h), |h|);
    EncodeFindsCell(Decode(h).value.lon, Decode(h).value.lat, |h|);
  }

  /** The half-open box around a centre. */
  predicate InBox(lon: real, lat: real, a: Area) {
    && a.lon - a.lonErr <= lon < a.lon + a.lonErr
    && a.lat - a.latErr <= lat < a.lat + a.latErr
  }

  /** The north pole is encoded as the south pole, the antimeridian from the east as from the west. */
  function Wrapped(x: real, r: real): real {
    if x == r then -r else x
  }

  lemma PointCellIffInBox(lon: real, lat: real, c: Cell, len: nat)
    requires InRange(lon, lat) && 1 <= len <= MAX_LENGTH
    ensures PointCell(lon, lat, len) == c <==>
              InBox(Wrapped(lon, 180.0), Wrapped(lat, 90.0), CellArea(c, len))
  {
    hide Pow2, Middle;
    var lon', lat' := Wrapped(lon, 180.0), Wrapped(lat, 90.0);
    var t, u := lat' / 180.0 + 0.5, lon' / 360.0 + 0.5;
    PartIffWithin(t, c.row, Rows(len), -90.0, 180.0);
    PartIffWithin(u, c.col, Cols(len), -180.0, 360.0);
    assert -90.0 + 180.0 * t == lat' && -180.0 + 360.0 * u == lon';
    PartOfWrapped(lat / 180.0 + 0.5, t, Rows(len));
    PartOfWrapped(lon / 360.0 + 0.5, u, Cols(len));
  }

  lemma PartOfWrapped(t: real, u: real, n: nat)
    requires 0.0 <= t <= 1.0 && n > 0
    requires u == if t == 1.0 then 0.0 else t
    ensures Part(t, n) == Part(u, n)
  {
    assert 0.0 * n as real == 0.0;
  }

  /** A shorter encoding of a point is a prefix of a longer one. */
  lemma EncodeNests(lon: real, lat: real, k: nat, n: nat)
    requires InRange(lon, lat) && 1 <= k <= n <= MAX_LENGTH
    ensures Encode(lon, lat, k).value == Encode(lon, lat, n).value[..k]
  {
    hide Pow2, FractionBits, InterleavedBits;
  }

  /**
   Prefix search is geometric: the encoding of an accepted point starts with a
   hash exactly when the (wrapped) point lies in the box decoded from that hash.
   */
  lemma PrefixIffInBox(lon: real, lat: real, h: string, n: nat)
    requires InRange(lon, lat) && ValidHash(h) && |h| <= n <= MAX_LENGTH
    ensures Encode(lon, lat, n).Ok? && Decode(h).Ok?
    ensures h <= Encode(lon, lat, n).value <==>
              InBox(Wrapped(lon, 180.0), Wrapped(lat, 90.0), Decode(h).value)
  {
    hide Decode, Encode, CellOf, HashOf, Pow2, AllDigits, Part, InBox, CellArea;
    var k := |h|;
    EncodeFindsCell(lon, lat, n);
    EncodeFindsCell(lon, lat, k);
    EncodeNests(lon, lat, k, n);
    DecodeIsCentre(h);
    CellOfHash(h);
    HashCellBijection(h, PointCell(lon, lat, k), k);
    PointCellIffInBox(lon, lat, CellOf(h), k);
    var e := Encode(lon, lat, n).value;
    assert h <= e <==> h == e[..k];
  }

  /** Cells nest: the box of a hash lies inside the box of each of its prefixes. */
  lemma BoxesNest(lon: real, lat: real, g: string, h: string)
    requires ValidHash(g) && ValidHash(h) && g <= h
    ensures Decode(h).Ok? && Decode(g).Ok?
    ensures InBox(lon, lat, Decode(h).value) ==> InBox(lon, lat, Decode(g).value)
  {
    hide Decode, Encode, AllDigits, InBox, CellOf;
    DecodeIsCentre(h);
    DecodeIsCentre(g);
    if InBox(lon, lat, Decode(h).value) {
      BoxInRange(lon, lat, h);
      PrefixIffInBox(lon, lat, h, |h|);
      PrefixIffInBox(lon, lat, g, |h|);
    }
  }

  lemma BoxInRange(lon: real, lat: real, h: string)
    requires ValidHash(h) && Decode(h).Ok? && InBox(lon, lat, Decode(h).value)
    ensures -180.0 <= lon < 180.0 && -90.0 <= lat < 90.0
  {
    hide Decode, Encode, AllDigits, CellOf, Middle, Pow2;
    DecodeIsCentre(h);
    CellOfHash(h);
    BoxInside(CellOf(h).row, Rows(|h|), 90.0);
    BoxInside(CellOf(h).col, Cols(|h|), 180.0);
  }

  /** A point lies in the box its encoding decodes to, exactly when it is off the north pole and off +180. */
  lemma EncodedPointInBoxIff(lon: real, lat: real, n: nat)
    requires InRange(lon, lat) && 1 <= n <= MAX_LENGTH
    ensures Encode(lon, lat, n).Ok? && ValidHash(Encode(lon, lat, n).value) && Decode(Encode(lon, lat, n).value).Ok?
    ensures InBox(lon, lat, Decode(Encode(lon, lat, n).value).value) <==> lon < 180.0 && lat < 90.0
  {
    hide Decode, Encode, CellOf, HashOf, Pow2, AllDigits, Part, Middle;
    var c := PointCell(lon, lat, n);
    EncodeFindsCell(lon, lat, n);
    HashCellBijection("", c, n);
    DecodeIsCentre(Encode(lon, lat, n).value);
    PointCellIffInBox(lon, lat, c, n);
    BoxInside(c.row, Rows(n), 90.0);
    BoxInside(c.col, Cols(n), 180.0);
  }

  /** A point off the map is refused before a bad length is looked at, and each names its fault. */
  lemma EncodeErrors(lon: real, lat: real, len: nat)
    ensures lon < -180.0 || lon > 180.0 || lat < -90.0 || lat > 90.0 ==>
              Encode(lon, lat, len) == Err(InvalidCoordinateRange(lon, lat))
    ensures -180.0 <= lon <= 180.0 && -90.0 <= lat <= 90.0 && (len == 0 || len > 12) ==>
              Encode(lon, lat, len) == Err(InvalidLength(len))
  {
  }

  /** A hash is refused for its length first, and otherwise for its first character outside the alphabet. */
  lemma DecodeErrors(h: string, k: nat)
    requires k < |h| && h[k] !in BASE32_CODES && forall j :: 0 <= j < k ==> h[j] in BASE32_CODES
    ensures Decode(h) == Err(if |h| > 12 then InvalidHash else InvalidHashCharacter(h[k]))
  {
    forall j | 0 <= j <= k ensures Decoder(h[j]) == NOT_A_DIGIT <==> j == k {
      InAlphabetIff(h[j]);
    }
    FirstBadAt(h, k);
  }

  lemma InAlphabetIff(c: char)
    ensures Decoder(c) != NOT_A_DIGIT <==> c in BASE32_CODES
  {
    if i :| 0 <= i < |BASE32_CODES| && BASE32_CODES[i] == c {
      DecoderInvertsCodes(i, c);
    }
    DecoderInvertsCodes(0, c);
  }

  /** San Luis Obispo, at five digits. */
  lemma KnownPoint()
    ensures Encode(-120.6623, 35.3003, 5) == Ok("9q60y")
  {
    hide Encode, CellOf, AllDigits, HashOf, Part, Pow2;
    EncodeFindsCell(-120.6623, 35.3003, 5);
    KnownCell();
    KnownParts();
    HashCellBijection("9q60y", CellOf("9q60y"), 5);
  }

  lemma KnownCell()
    ensures ValidHash("9q60y") && CellOf("9q60y") == Cell(2851, 1350)
  {
    hide AllDigits, CodeOf;
    NoDigits();
    assert "" + ['9'] == "9" && "9" + ['q'] == "9q" && "9q" + ['6'] == "9q6";
    assert "9q6" + ['0'] == "9q60" && "9q60" + ['y'] == "9q60y";
    CodeSnoc("", '9');
    CodeSnoc("9", 'q');
    CodeSnoc("9q", '6');
    CodeSnoc("9q6", '0');
    CodeSnoc("9q60", 'y');
    assert CodeOf("9q60y") == 10164254;
    KnownBits();
  }

  lemma KnownBits()
    ensures EvenBits(10164254) == 1350 && OddBits(10164254) == 2851
  {
    hide EvenBits, OddBits;
    NoBits();
    BitsStep(0, 0, 1);
    BitsStep(2, 1, 0);
    BitsStep(9, 0, 1);
    BitsStep(38, 1, 1);
    BitsStep(155, 0, 0);
    BitsStep(620, 1, 0);
    BitsStep(2481, 0, 1);
    BitsStep(9926, 0, 0);
    BitsStep(39704, 0, 0);
    BitsStep(158816, 1, 0);
    BitsStep(635265, 1, 1);
    BitsStep(2541063, 0, 1);
  }

  lemma KnownParts()
    ensures Rows(5) == 4096 && Cols(5) == 8192
    ensures Part(35.3003 / 180.0 + 0.5, 4096) == 2851 && Part(-120.6623 / 360.0 + 0.5, 8192) == 1350
  {
    hide Pow2;
    assert Rows(5) == 4096 && Cols(5) == 8192 by {
      Pow2Values();
      Pow2Add(5, 5);
      Pow2Add(10, 2);
      Pow2Add(12, 1);
    }
    FloorUnique((35.3003 / 180.0 + 0.5) * 4096.0, 2851);
    FloorUnique((-120.6623 / 360.0 + 0.5) * 8192.0, 1350);
  }

  /** The north pole is encoded as the south pole, and longitude 180 as longitude -180, at every length. */
  lemma EndsCoincide(n: nat)
    requires 1 <= n <= MAX_LENGTH
    ensures Encode(0.0, 90.0, n).Ok? && Encode(0.0, 90.0, n) == Encode(0.0, -90.0, n)
    ensures Encode(180.0, 0.0, n).Ok? && Encode(180.0, 0.0, n) == Encode(-180.0, 0.0, n)
  {
    hide Encode, HashOf, Pow2;
    EncodeFindsCell(0.0, 90.0, n);
    EncodeFindsCell(0.0, -90.0, n);
    EncodeFindsCell(180.0, 0.0, n);
    EncodeFindsCell(-180.0, 0.0, n);
    PartOfWrapped(1.0, 0.0, Rows(n));
    PartOfWrapped(1.0, 0.0, Cols(n));
  }

  /** No box reaches past an end of its axis. */
  lemma BoxInside(i: nat, n: nat, r: real)
    requires i < n && r > 0.0
    ensures -r <= Middle(i, n, -r, 2.0 * r) - r / n as real
    ensures Middle(i, n, -r, 2.0 * r) + r / n as real <= r
  {
    var x := 1.0 / n as real;
    assert n as real * x == 1.0;
    assert (i as real + 0.5) / n as real == (i as real + 0.5) * x && r / n as real == r * x;
    assert Middle(i, n, -r, 2.0 * r) + r / n as real == -r + 2.0 * r * ((i as real + 1.0) * x);
    assert Middle(i, n, -r, 2.0 * r) - r / n as real == -r + 2.0 * r * (i as real * x);
    ScaleOrder(i as real + 1.0, n as real, x);
    ScaleOrder(0.0, i as real * x, 2.0 * r);
    ScaleOrder((i as real + 1.0) * x, 1.0, 2.0 * r);
  }
}
