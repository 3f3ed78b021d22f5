/**
  The geometry both versions of `tileSquareKeys` share: the cell holding the
  camera, the square of offsets around it (generated with `_.range` and
  `flatMap`), the nearest-first order of those offsets (`_.sortBy` on the
  Manhattan distance) and the cell, and key string, at each offset.
 */
module Neighbourhood {

  import opened Wrappers
  import opened Lodash
  import opened TileKeys

  /** A camera position. The model takes world coordinates as integers. */
  datatype Position = Position(x: int, y: int, z: int)

  /**
    One resolution tier: the edge length of its cells, the `length` (radius)
    of the square of cells loaded around the camera, and the highest camera
    `z` at which the tier is requested.
   */
  datatype Tier = Tier(length: int, radius: int, maxHeight: int)

  /** Every tier has cells of positive edge length. */
  predicate PositiveTiers(tiers: seq<Tier>) {
    forall i :: 0 <= i < |tiers| ==> tiers[i].length > 0
  }

  /** Grid coordinates of a cell: how many tiles it lies from the origin. */
  datatype Cell = Cell(cx: int, cy: int)

  /** An offset `[dx, dy]` in cells from the camera's cell. */
  datatype Offset = Offset(dx: int, dy: int)

  function Abs(n: int): nat {
    if n < 0 then -n else n
  }

  /** The sort key `Math.abs(x) + Math.abs(y)`. */
  function Manhattan(o: Offset): int {
    Abs(o.dx) + Abs(o.dy)
  }

  // ----------------------------------------------------- the square of offsets

  /** `dys.map((dy) => [dx, dy])`. */
  function Row(dx: int, dys: seq<int>): seq<Offset> {
    seq(|dys|, j requires 0 <= j < |dys| => Offset(dx, dys[j]))
  }

  /** `dxs.flatMap((dx) => dys.map((dy) => [dx, dy]))`: every pair, `dx` varying slowest. */
  function Pairs(dxs: seq<int>, dys: seq<int>): (r: seq<Offset>)
    ensures |r| == |dxs| * |dys|
  {
    if dxs == [] then []
    else
      assert |dxs| * |dys| == |dys| + (|dxs| - 1) * |dys|;
      Row(dxs[0], dys) + Pairs(dxs[1..], dys)
  }

  lemma {:induction false} PairsMembership(dxs: seq<int>, dys: seq<int>, o: Offset)
    ensures o in Pairs(dxs, dys) <==> o.dx in dxs && o.dy in dys
  {
    if dxs != [] {
      PairsMembership(dxs[1..], dys, o);
      if o.dx == dxs[0] && o.dy in dys {
        var j :| 0 <= j < |dys| && dys[j] == o.dy;
        assert Row(dxs[0], dys)[j] == o;
      }
      assert o.dx in dxs <==> o.dx == dxs[0] || o.dx in dxs[1..] by {
        assert dxs == [dxs[0]] + dxs[1..];
      }
    }
  }

  lemma {:induction false} PairsNoDuplicates(dxs: seq<int>, dys: seq<int>)
    requires NoDuplicates(dxs) && NoDuplicates(dys)
    ensures NoDuplicates(Pairs(dxs, dys))
  {
    if dxs != [] {
      assert dxs == [dxs[0]] + dxs[1..];
      NoDuplicatesCons(dxs[0], dxs[1..]);
      PairsNoDuplicates(dxs[1..], dys);
      var row := Row(dxs[0], dys);
      forall o | o in row ensures o !in Pairs(dxs[1..], dys) {
        PairsMembership(dxs[1..], dys, o);
      }
      NoDuplicatesAppend(row, Pairs(dxs[1..], dys));
    }
  }

  /**
    The offsets `tileSquareKeys` generates for `length`, in generation order:
    both coordinates run over `_.range(-length + 1, length)`.
   */
  function Square(length: int): seq<Offset> {
    var r := Range(-length + 1, length);
    Pairs(r, r)
  }

  /**
    For `length >= 1` the square holds exactly the offsets with
    `|dx|, |dy| <= length - 1`. For `length <= 0`, `_.range` steps downwards
    and the square is `(length, 1 - length]` in both coordinates.
   */
  lemma SquareMembership(length: int, o: Offset)
    ensures o in Square(length) <==>
      if length >= 1 then Abs(o.dx) <= length - 1 && Abs(o.dy) <= length - 1
      else length < o.dx <= 1 - length && length < o.dy <= 1 - length
  {
    PairsMembership(Range(-length + 1, length), Range(-length + 1, length), o);
    RangeMembership(-length + 1, length, o.dx);
    RangeMembership(-length + 1, length, o.dy);
  }

  /**
    An illustration of the `length <= 0` case of `SquareMembership`: with
    `length = 0` lodash's downward range leaves one cell, diagonal to the camera's.
   */
  lemma SquareOfZero()
    ensures Square(0) == [Offset(1, 1)]
  {
    var r := Range(1, 0);
    assert r == [1];
    assert Row(1, r) == [Offset(1, 1)];
  }

  /** The square has `(2 * length - 1)²` offsets, each generated once, for every `length`. */
  lemma SquareSize(length: int)
    ensures |Square(length)| == (2 * length - 1) * (2 * length - 1)
    ensures NoDuplicates(Square(length))
  {
    var r := Range(-length + 1, length);
    assert |r| == 2 * length - 1 || |r| == 1 - 2 * length;
    assert (1 - 2 * length) * (1 - 2 * length) == (2 * length - 1) * (2 * length - 1);
    RangeMembership(-length + 1, length, 0);
    PairsNoDuplicates(r, r);
  }

  /** The square, nearest offsets first: `_.sortBy(dists, ([x, y]) => Math.abs(x) + Math.abs(y))`. */
  function SortedSquare(length: int): seq<Offset> {
    SortBy(Square(length), Manhattan)
  }

  /**
    Sorting reorders the square and nothing else: same offsets, same size, no
    repeats, non-decreasing distance, and offsets at equal distance in
    generation order.
   */
  lemma SortedSquareFacts(length: int)
    ensures forall o :: o in SortedSquare(length) <==> o in Square(length)
    ensures |SortedSquare(length)| == (2 * length - 1) * (2 * length - 1)
    ensures NoDuplicates(SortedSquare(length))
    ensures SortedBy(SortedSquare(length), Manhattan)
    ensures forall d :: WithKey(SortedSquare(length), Manhattan, d) == WithKey(Square(length), Manhattan, d)
  {
    var s := Square(length);
    assert forall o :: o in SortBy(s, Manhattan) <==> o in multiset(s);
    SquareSize(length);
    assert |SortBy(s, Manhattan)| == |multiset(s)|;
    SortByNoDuplicates(s, Manhattan);
    SortBySorted(s, Manhattan);
    forall d ensures WithKey(SortedSquare(length), Manhattan, d) == WithKey(s, Manhattan, d) {
      SortByStable(s, Manhattan, d);
    }
  }

  // ------------------------------------------------------------ cells and keys

  /**
    The cell holding `(x, y)`: `Math.floor((x - XMIN) / tile)` and likewise
    for `y`. Dafny's `/` on a positive divisor rounds down, as `Math.floor` does.
   */
  function ContainingCell(x: int, y: int, tile: int, xmin: int, ymin: int): (c: Cell)
    requires tile > 0
    ensures c.cx * tile <= x - xmin < (c.cx + 1) * tile
    ensures c.cy * tile <= y - ymin < (c.cy + 1) * tile
  {
    Cell((x - xmin) / tile, (y - ymin) / tile)
  }

  /** The cell at offset `o` from `c`: corner `((cx + dx) * tile + XMIN, (cy + dy) * tile + YMIN)`. */
  function CellAt(c: Cell, o: Offset, tile: int, xmin: int, ymin: int): TileKey {
    TileKey((c.cx + o.dx) * tile + xmin, (c.cy + o.dy) * tile + ymin, tile)
  }

  /** How many cells of its own tier the cell `k` lies from `c`, in each coordinate. */
  function OffsetFrom(c: Cell, k: TileKey, xmin: int, ymin: int): Offset
    requires k.tile > 0
  {
    Offset((k.tx - xmin) / k.tile - c.cx, (k.ty - ymin) / k.tile - c.cy)
  }

  lemma MulDiv(a: int, b: int)
    requires b > 0
    ensures (a * b) / b == a
  {
    var q, r := (a * b) / b, (a * b) % b;
    assert (a - q) * b == r;
    if a - q >= 1 {
      assert false;
    } else if a - q <= -1 {
      assert false;
    }
  }

  /** OffsetFrom undoes CellAt, so different offsets give different cells. */
  lemma OffsetFromCellAt(c: Cell, o: Offset, tile: int, xmin: int, ymin: int)
    requires tile > 0
    ensures OffsetFrom(c, CellAt(c, o, tile, xmin, ymin), xmin, ymin) == o
  {
    MulDiv(c.cx + o.dx, tile);
    MulDiv(c.cy + o.dy, tile);
  }

  /** The key strings of the cells at offsets `os` from `c`, in the order of `os`. */
  function KeysAt(c: Cell, os: seq<Offset>, tile: int, xmin: int, ymin: int): seq<string> {
    seq(|os|, i requires 0 <= i < |os| => Encode(CellAt(c, os[i], tile, xmin, ymin)))
  }

  lemma KeysAtAppend(c: Cell, a: seq<Offset>, b: seq<Offset>, tile: int, xmin: int, ymin: int)
    ensures KeysAt(c, a + b, tile, xmin, ymin) == KeysAt(c, a, tile, xmin, ymin) + KeysAt(c, b, tile, xmin, ymin)
  {
    var l, r := KeysAt(c, a + b, tile, xmin, ymin), KeysAt(c, a, tile, xmin, ymin) + KeysAt(c, b, tile, xmin, ymin);
    assert |l| == |r|;
    forall i | 0 <= i < |l| ensures l[i] == r[i] {
      if i < |a| {
        assert (a + b)[i] == a[i];
      } else {
        assert (a + b)[i] == b[i - |a|];
      }
    }
  }

  lemma KeysAtMembership(c: Cell, os: seq<Offset>, tile: int, xmin: int, ymin: int, key: string)
    ensures key in KeysAt(c, os, tile, xmin, ymin) <==>
      exists o :: o in os && key == Encode(CellAt(c, o, tile, xmin, ymin))
  {
    var r := KeysAt(c, os, tile, xmin, ymin);
    if exists o :: o in os && key == Encode(CellAt(c, o, tile, xmin, ymin)) {
      var o :| o in os && key == Encode(CellAt(c, o, tile, xmin, ymin));
      var i :| 0 <= i < |os| && os[i] == o;
      assert r[i] == key;
    }
  }

  /** Distinct offsets give distinct key strings. */
  lemma KeysAtNoDuplicates(c: Cell, os: seq<Offset>, tile: int, xmin: int, ymin: int)
    requires tile > 0 && NoDuplicates(os)
    ensures NoDuplicates(KeysAt(c, os, tile, xmin, ymin))
  {
    var r := KeysAt(c, os, tile, xmin, ymin);
    forall i, j | 0 <= i < j < |r| ensures r[i] != r[j] {
      EncodeInjective(CellAt(c, os[i], tile, xmin, ymin), CellAt(c, os[j], tile, xmin, ymin));
      OffsetFromCellAt(c, os[i], tile, xmin, ymin);
      OffsetFromCellAt(c, os[j], tile, xmin, ymin);
    }
  }

  /**
    The Manhattan distance, in cells, between `c` and the cell a key string
    names; -1 for a string that names no cell of a positive edge length.
   */
  function KeyDistance(key: string, c: Cell, xmin: int, ymin: int): int {
    match Decode(key)
    case Some(k) => if k.tile > 0 then Manhattan(OffsetFrom(c, k, xmin, ymin)) else -1
    case None => -1
  }

  lemma KeyDistanceAt(c: Cell, o: Offset, tile: int, xmin: int, ymin: int)
    requires tile > 0
    ensures KeyDistance(Encode(CellAt(c, o, tile, xmin, ymin)), c, xmin, ymin) == Manhattan(o)
  {
    EncodeDecode(CellAt(c, o, tile, xmin, ymin));
    OffsetFromCellAt(c, o, tile, xmin, ymin);
  }

  /** Keys at offsets sorted by distance are sorted by the distance of the cells they name. */
  lemma KeysAtNearestFirst(c: Cell, os: seq<Offset>, tile: int, xmin: int, ymin: int)
    requires tile > 0 && SortedBy(os, Manhattan)
    ensures forall i, j :: 0 <= i < j < |os| ==>
      KeyDistance(KeysAt(c, os, tile, xmin, ymin)[i], c, xmin, ymin)
        <= KeyDistance(KeysAt(c, os, tile, xmin, ymin)[j], c, xmin, ymin)
  {
    forall i | 0 <= i < |os| ensures KeyDistance(KeysAt(c, os, tile, xmin, ymin)[i], c, xmin, ymin) == Manhattan(os[i]) {
      KeyDistanceAt(c, os[i], tile, xmin, ymin);
    }
  }

  // ------------------------------------------------------- the desired list

  /** The parts joined end to end, in order. */
  function Concat(parts: seq<seq<string>>): seq<string> {
    if parts == [] then [] else Concat(parts[..|parts| - 1]) + parts[|parts| - 1]
  }

  lemma ConcatPrefix(parts: seq<seq<string>>, i: nat)
    requires i < |parts|
    ensures Concat(parts[..i + 1]) == Concat(parts[..i]) + parts[i]
  {
    assert parts[..i + 1][..i] == parts[..i];
  }

  /** A key is in the joined list iff it is in one of the parts. */
  lemma {:induction false} ConcatMembership(parts: seq<seq<string>>, key: string)
    ensures key in Concat(parts) <==> exists i :: 0 <= i < |parts| && key in parts[i]
  {
    if parts != [] {
      var n := |parts| - 1;
      var init := parts[..n];
      ConcatMembership(init, key);
      if key in Concat(init) {
        var i :| 0 <= i < |init| && key in init[i];
        assert parts[i] == init[i];
      }
      if key !in Concat(parts) {
        forall i | 0 <= i < |parts| ensures key !in parts[i] {
          if i < n {
            assert init[i] == parts[i];
          }
        }
      }
    }
  }

  /** Parts without repeats that share no key join into a list without repeats. */
  lemma {:induction false} ConcatNoDuplicates(parts: seq<seq<string>>)
    requires forall i :: 0 <= i < |parts| ==> NoDuplicates(parts[i])
    requires forall i, j, key :: 0 <= i < j < |parts| && key in parts[i] ==> key !in parts[j]
    ensures NoDuplicates(Concat(parts))
  {
    if parts != [] {
      var n := |parts| - 1;
      var init := parts[..n];
      assert forall i :: 0 <= i < n ==> init[i] == parts[i];
      ConcatNoDuplicates(init);
      forall key | key in Concat(init) ensures key !in parts[n] {
        ConcatMembership(init, key);
        var i :| 0 <= i < |init| && key in init[i];
      }
      NoDuplicatesAppend(Concat(init), parts[n]);
    }
  }

  /** `for (const tileKey of tileKeys) loadedKeys.push(tileKey)`. */
  method PushAll(keys: seq<string>, tileKeys: seq<string>) returns (r: seq<string>)
    ensures r == keys + tileKeys
  {
    r := keys;
    var j := 0;
    while j < |tileKeys|
      invariant 0 <= j <= |tileKeys|
      invariant r == keys + tileKeys[..j]
    {
      r := r + [tileKeys[j]];
      assert tileKeys[..j + 1] == tileKeys[..j] + [tileKeys[j]];
      j := j + 1;
    }
    assert tileKeys[..j] == tileKeys;
  }

}
