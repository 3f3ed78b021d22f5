/**
  The TypeScript `TileManager`: a single tier of 100-unit cells, key squares
  clipped to the survey's bounding box, and a `discardUnloadedKeys` that does
  nothing. Its `loadTile` is cut at its two suspension points into the steps
  `TileState` defines; each method below performs one of those steps on the
  object's fields.
 */
module TileTs {

  import opened Wrappers
  import opened Lodash
  import opened TileKeys
  import opened Neighbourhood
  import TileState

  /** The bounding box of the survey, in world coordinates. */
  const XMIN := 389400
  const XMAX := 408600
  const YMIN := 124200
  const YMAX := 148200

  /** A cell whose lower-left corner lies inside the bounding box. */
  predicate InBounds(k: TileKey) {
    XMIN <= k.tx < XMAX && YMIN <= k.ty < YMAX
  }

  /** The cell of edge length `tile` at offset `o` from the cell holding `(x, y)`. */
  function CellAround(x: int, y: int, tile: int, o: Offset): TileKey
    requires tile > 0
  {
    CellAt(ContainingCell(x, y, tile, XMIN, YMIN), o, tile, XMIN, YMIN)
  }

  /** The value the `map` callback returns for one offset: the key string, or `null` outside the box. */
  function Candidate(c: Cell, o: Offset, tile: int): Option<string> {
    var k := CellAt(c, o, tile, XMIN, YMIN);
    if k.tx < XMIN || k.tx >= XMAX || k.ty < YMIN || k.ty >= YMAX then None
    else Some(Encode(k))
  }

  /** `sortedDists.map(...)`: the candidate of each offset, in order. */
  function Candidates(c: Cell, os: seq<Offset>, tile: int): seq<Option<string>> {
    seq(|os|, i requires 0 <= i < |os| => Candidate(c, os[i], tile))
  }

  /** `tileSquareKeys(x, y, tile, length)`. */
  function TileSquareKeys(x: int, y: int, tile: int, length: int): seq<string>
    requires tile > 0
  {
    var c := ContainingCell(x, y, tile, XMIN, YMIN);
    Compact(Candidates(c, SortedSquare(length), tile))
  }

  /** The offsets of `os` whose cell lies in the box, in their order in `os`. */
  function Kept(c: Cell, os: seq<Offset>, tile: int): seq<Offset> {
    if os == [] then []
    else (if InBounds(CellAt(c, os[0], tile, XMIN, YMIN)) then [os[0]] else []) + Kept(c, os[1..], tile)
  }

  /** Compacting the candidates keeps exactly the keys of the in-box offsets, in order. */
  lemma {:induction false} CompactCandidates(c: Cell, os: seq<Offset>, tile: int)
    ensures Compact(Candidates(c, os, tile)) == KeysAt(c, Kept(c, os, tile), tile, XMIN, YMIN)
  {
    if os != [] {
      var cs := Candidates(c, os, tile);
      assert cs[1..] == Candidates(c, os[1..], tile);
      CompactCandidates(c, os[1..], tile);
      var head := if InBounds(CellAt(c, os[0], tile, XMIN, YMIN)) then [os[0]] else [];
      KeysAtAppend(c, head, Kept(c, os[1..], tile), tile, XMIN, YMIN);
    }
  }

  /** Filtering keeps the in-box offsets and no others, and never lengthens the list. */
  lemma {:induction false} KeptMembership(c: Cell, os: seq<Offset>, tile: int)
    ensures forall o :: o in Kept(c, os, tile) <==> o in os && InBounds(CellAt(c, o, tile, XMIN, YMIN))
    ensures |Kept(c, os, tile)| <= |os|
  {
    if os != [] {
      KeptMembership(c, os[1..], tile);
      assert forall o :: o in os <==> o == os[0] || o in os[1..] by {
        assert os == [os[0]] + os[1..];
      }
    }
  }

  /** Filtering keeps distinct offsets distinct. */
  lemma {:induction false} KeptNoDuplicates(c: Cell, os: seq<Offset>, tile: int)
    requires NoDuplicates(os)
    ensures NoDuplicates(Kept(c, os, tile))
  {
    if os != [] {
      assert os == [os[0]] + os[1..];
      NoDuplicatesCons(os[0], os[1..]);
      KeptNoDuplicates(c, os[1..], tile);
      if InBounds(CellAt(c, os[0], tile, XMIN, YMIN)) {
        KeptMembership(c, os[1..], tile);
        NoDuplicatesCons(os[0], Kept(c, os[1..], tile));
      }
    }
  }

  /** Filtering keeps offsets sorted by distance sorted. */
  lemma {:induction false} KeptSorted(c: Cell, os: seq<Offset>, tile: int)
    requires SortedBy(os, Manhattan)
    ensures SortedBy(Kept(c, os, tile), Manhattan)
  {
    if os != [] {
      var rest := Kept(c, os[1..], tile);
      assert SortedBy(os[1..], Manhattan) by {
        forall i, j | 0 <= i < j < |os[1..]| ensures Manhattan(os[1..][i]) <= Manhattan(os[1..][j]) {
          assert os[1..][i] == os[i + 1] && os[1..][j] == os[j + 1];
        }
      }
      KeptSorted(c, os[1..], tile);
      if InBounds(CellAt(c, os[0], tile, XMIN, YMIN)) {
        KeptMembership(c, os[1..], tile);
        forall y | y in rest ensures Manhattan(os[0]) <= Manhattan(y) {
          var j :| 0 <= j < |os[1..]| && os[1..][j] == y;
          assert os[j + 1] == y;
        }
        SortedByCons(os[0], rest, Manhattan);
      }
    }
  }

  /** `tileSquareKeys` is the keys of the in-box cells of the sorted square. */
  lemma TileSquareKeysKept(x: int, y: int, tile: int, length: int)
    requires tile > 0
    ensures TileSquareKeys(x, y, tile, length)
         == KeysAt(ContainingCell(x, y, tile, XMIN, YMIN),
                   Kept(ContainingCell(x, y, tile, XMIN, YMIN), SortedSquare(length), tile), tile, XMIN, YMIN)
  {
    CompactCandidates(ContainingCell(x, y, tile, XMIN, YMIN), SortedSquare(length), tile);
  }

  /**
    A key is returned exactly when it names an in-box cell of the square of
    offsets around the camera's cell.
   */
  lemma TileSquareKeysMembership(x: int, y: int, tile: int, length: int, key: string)
    requires tile > 0
    ensures key in TileSquareKeys(x, y, tile, length) <==>
      exists o :: o in Square(length) && InBounds(CellAround(x, y, tile, o)) && key == Encode(CellAround(x, y, tile, o))
  {
    var c := ContainingCell(x, y, tile, XMIN, YMIN);
    var kept := Kept(c, SortedSquare(length), tile);
    TileSquareKeysKept(x, y, tile, length);
    KeysAtMembership(c, kept, tile, XMIN, YMIN, key);
    KeptMembership(c, SortedSquare(length), tile);
    SortedSquareFacts(length);
    assert forall o :: o in kept <==> o in Square(length) && InBounds(CellAround(x, y, tile, o));
  }

  /** No key is returned twice, and at most `(2 * length - 1)²` are returned. */
  lemma TileSquareKeysDistinct(x: int, y: int, tile: int, length: int)
    requires tile > 0
    ensures NoDuplicates(TileSquareKeys(x, y, tile, length))
    ensures |TileSquareKeys(x, y, tile, length)| <= (2 * length - 1) * (2 * length - 1)
  {
    var c := ContainingCell(x, y, tile, XMIN, YMIN);
    TileSquareKeysKept(x, y, tile, length);
    SortedSquareFacts(length);
    KeptMembership(c, SortedSquare(length), tile);
    KeptNoDuplicates(c, SortedSquare(length), tile);
    KeysAtNoDuplicates(c, Kept(c, SortedSquare(length), tile), tile, XMIN, YMIN);
  }

  /** Keys come nearest cell first: the cell distance from the camera's cell never decreases. */
  lemma TileSquareKeysNearestFirst(x: int, y: int, tile: int, length: int)
    requires tile > 0
    ensures forall i, j :: 0 <= i < j < |TileSquareKeys(x, y, tile, length)| ==>
      KeyDistance(TileSquareKeys(x, y, tile, length)[i], ContainingCell(x, y, tile, XMIN, YMIN), XMIN, YMIN)
        <= KeyDistance(TileSquareKeys(x, y, tile, length)[j], ContainingCell(x, y, tile, XMIN, YMIN), XMIN, YMIN)
  {
    var c := ContainingCell(x, y, tile, XMIN, YMIN);
    TileSquareKeysKept(x, y, tile, length);
    SortedSquareFacts(length);
    KeptSorted(c, SortedSquare(length), tile);
    KeysAtNearestFirst(c, Kept(c, SortedSquare(length), tile), tile, XMIN, YMIN);
  }

  /** Every returned key names a cell of edge length `tile` inside the box. */
  lemma TileSquareKeysInBounds(x: int, y: int, tile: int, length: int)
    requires tile > 0
    ensures forall key :: key in TileSquareKeys(x, y, tile, length) ==>
      Decode(key).Some? && InBounds(Decode(key).value) && Decode(key).value.tile == tile
  {
    forall key | key in TileSquareKeys(x, y, tile, length)
      ensures Decode(key).Some? && InBounds(Decode(key).value) && Decode(key).value.tile == tile
    {
      TileSquareKeysMembership(x, y, tile, length, key);
      var o :| o in Square(length) && InBounds(CellAround(x, y, tile, o)) && key == Encode(CellAround(x, y, tile, o));
      EncodeDecode(CellAround(x, y, tile, o));
    }
  }

  // ------------------------------------------------------------ desired keys

  /** What tier `t` adds to the desired list: nothing when the camera is above it, its square otherwise. */
  function Contribution(position: Position, t: Tier): seq<string>
    requires t.length > 0
  {
    if position.z > t.maxHeight then [] else TileSquareKeys(position.x, position.y, t.length, t.radius)
  }

  /** Each tier's contribution, in tier order. */
  function Contributions(position: Position, tiers: seq<Tier>): seq<seq<string>>
    requires PositiveTiers(tiers)
  {
    seq(|tiers|, i requires 0 <= i < |tiers| => Contribution(position, tiers[i]))
  }

  /**
    The list `updatePosition` builds: for each tier in turn, unless the camera
    is above the tier's `maxHeight`, the tier's `tileSquareKeys`.
   */
  function DesiredKeys(position: Position, tiers: seq<Tier>): seq<string>
    requires PositiveTiers(tiers)
  {
    Concat(Contributions(position, tiers))
  }

  /** A key is desired exactly when some tier contributes it. */
  lemma DesiredKeysMembership(position: Position, tiers: seq<Tier>, key: string)
    requires PositiveTiers(tiers)
    ensures key in DesiredKeys(position, tiers) <==>
      exists i :: 0 <= i < |tiers| && key in Contribution(position, tiers[i])
  {
    var cs := Contributions(position, tiers);
    assert |cs| == |tiers|;
    ConcatMembership(cs, key);
    if key in Concat(cs) {
      var i :| 0 <= i < |cs| && key in cs[i];
      assert cs[i] == Contribution(position, tiers[i]);
    } else {
      forall i | 0 <= i < |tiers|
        ensures key !in Contribution(position, tiers[i])
      {
        assert cs[i] == Contribution(position, tiers[i]);
      }
    }
  }

  /** Every desired key names an in-box cell of a tier the camera is not above. */
  lemma DesiredKeysInBounds(position: Position, tiers: seq<Tier>, key: string)
    requires PositiveTiers(tiers) && key in DesiredKeys(position, tiers)
    ensures Decode(key).Some? && InBounds(Decode(key).value)
    ensures exists i :: 0 <= i < |tiers| && position.z <= tiers[i].maxHeight && Decode(key).value.tile == tiers[i].length
  {
    DesiredKeysMembership(position, tiers, key);
    var i :| 0 <= i < |tiers| && key in Contribution(position, tiers[i]);
    TileSquareKeysInBounds(position.x, position.y, tiers[i].length, tiers[i].radius);
  }

  /** Tiers of distinct edge lengths never request the same key twice. */
  lemma DesiredKeysDistinct(position: Position, tiers: seq<Tier>)
    requires PositiveTiers(tiers)
    requires forall i, j :: 0 <= i < j < |tiers| ==> tiers[i].length != tiers[j].length
    ensures NoDuplicates(DesiredKeys(position, tiers))
  {
    var cs := Contributions(position, tiers);
    forall i | 0 <= i < |cs| ensures NoDuplicates(cs[i]) {
      TileSquareKeysDistinct(position.x, position.y, tiers[i].length, tiers[i].radius);
    }
    forall i, j, key | 0 <= i < j < |cs| && key in cs[i] ensures key !in cs[j] {
      TileSquareKeysInBounds(position.x, position.y, tiers[i].length, tiers[i].radius);
      TileSquareKeysInBounds(position.x, position.y, tiers[j].length, tiers[j].radius);
    }
    ConcatNoDuplicates(cs);
  }

  /** The loops of `updatePosition` that collect the desired list, one tier after another. */
  method BuildDesiredKeys(position: Position, tiers: seq<Tier>) returns (keys: seq<string>)
    requires PositiveTiers(tiers)
    ensures keys == DesiredKeys(position, tiers)
  {
    ghost var cs := Contributions(position, tiers);
    keys := [];
    var i := 0;
    while i < |tiers|
      invariant 0 <= i <= |tiers|
      invariant keys == Concat(cs[..i])
    {
      var tier := tiers[i];
      var tileKeys := TileSquareKeys(position.x, position.y, tier.length, tier.radius);
      ConcatPrefix(cs, i);
      if position.z <= tier.maxHeight {
        keys := PushAll(keys, tileKeys);
      }
      i := i + 1;
    }
    assert cs[..i] == cs;
  }

  // ------------------------------------------------------------- the manager

  /** The tier table a new manager starts with: 100-unit cells, radius 8, no height limit in practice. */
  const DefaultTiers: seq<Tier> := [Tier(100, 8, 100000000)]

  class TileManager {
    /** The tiers, ordered by edge length as `for ... in` visits integer keys. */
    var tileConfigurations: seq<Tier>
    var visibleTiles: map<string, TileState.Points>
    var loadedKeys: seq<string>
    var loadingTiles: map<string, TileState.Timestamp>
    /** The keys of `brokenTiles`; every value stored there is `true`. */
    var brokenTiles: set<string>
    /** The drawables this manager has added to the scene. */
    var scene: set<TileState.Points>
    /** The `loadTile` calls suspended at an `await`, and where. */
    ghost var pending: map<string, TileState.Phase>

    /** This manager never disposes a drawable. */
    ghost function State(): TileState.State
      reads this
    {
      TileState.State(visibleTiles, loadedKeys, loadingTiles, brokenTiles, scene, {}, pending)
    }

    ghost predicate Valid()
      reads this
    {
      TileState.Inv(State()) && PositiveTiers(tileConfigurations)
    }

    constructor ()
      ensures Valid() && State() == TileState.Init()
      ensures tileConfigurations == DefaultTiers
    {
      tileConfigurations := DefaultTiers;
      visibleTiles := map[];
      loadedKeys := [];
      loadingTiles := map[];
      brokenTiles := {};
      scene := {};
      pending := map[];
      TileState.InitInv();
    }

    /** `loadTile(tileKey)` up to its first `await`: the guards, then the loading mark. */
    method LoadTile(tileKey: string, now: TileState.Timestamp)
      requires Valid()
      modifies this
      ensures Valid() && tileConfigurations == old(tileConfigurations)
      ensures State() == TileState.Begin(old(State()), tileKey, now)
    {
      if tileKey in loadingTiles || tileKey in brokenTiles {
        return;
      }
      if tileKey !in loadedKeys {
        return;
      }
      loadingTiles := loadingTiles[tileKey := now];
      pending := pending[tileKey := TileState.AwaitingResponse];
      TileState.BeginInv(old(State()), tileKey, now);
    }

    /** The stale branch after either `await`: drop the loading mark and return. */
    method GiveUp(tileKey: string)
      requires Valid() && tileKey in pending && tileKey !in loadedKeys
      modifies this
      ensures Valid() && tileConfigurations == old(tileConfigurations)
      ensures State() == TileState.Abort(old(State()), tileKey)
    {
      if tileKey in loadingTiles {
        loadingTiles := loadingTiles - {tileKey};
      }
      pending := pending - {tileKey};
      TileState.AbortInv(old(State()), tileKey);
    }

    /** `loadTile` resumed when `fetch` resolves: the first staleness re-check. */
    method LoadTileResponse(tileKey: string)
      requires Valid() && tileKey in pending && pending[tileKey] == TileState.AwaitingResponse
      modifies this
      ensures Valid() && tileConfigurations == old(tileConfigurations)
      ensures State() == TileState.AfterResponse(old(State()), tileKey)
    {
      if tileKey !in loadedKeys {
        GiveUp(tileKey);
        return;
      }
      pending := pending[tileKey := TileState.AwaitingBody];
      TileState.AfterResponseInv(old(State()), tileKey);
    }

    /**
      `loadTile` resumed when the body of `byteLength` bytes has arrived: the
      second staleness re-check, then decoding; a body that does not decode
      marks the key broken, one that does is shown as the new drawable `mesh`.
     */
    method LoadTileBody(tileKey: string, byteLength: nat) returns (mesh: TileState.Points?)
      requires Valid() && tileKey in pending && pending[tileKey] == TileState.AwaitingBody
      modifies this
      ensures Valid() && tileConfigurations == old(tileConfigurations)
      ensures mesh != null <==> tileKey in old(loadedKeys) && TileState.Decodes(byteLength)
      ensures tileKey !in old(loadedKeys) ==> State() == TileState.Abort(old(State()), tileKey)
      ensures tileKey in old(loadedKeys) && !TileState.Decodes(byteLength) ==>
        State() == TileState.MarkBroken(old(State()), tileKey)
      ensures mesh != null ==> fresh(mesh) && State() == TileState.AfterBody(old(State()), tileKey, byteLength, mesh)
    {
      if tileKey !in loadedKeys {
        GiveUp(tileKey);
        return null;
      }
      if !TileState.Decodes(byteLength) {
        LoadTileRejected(tileKey);
        return null;
      }
      mesh := new TileState.Points();
      TileState.CommitInv(old(State()), tileKey, mesh);
      scene := scene + {mesh};
      visibleTiles := visibleTiles[tileKey := mesh];
      pending := pending - {tileKey};
    }

    /** A `fetch` or body read that rejects lands in the `catch` block: the key is marked broken. */
    method LoadTileRejected(tileKey: string)
      requires Valid() && tileKey in pending
      modifies this
      ensures Valid() && tileConfigurations == old(tileConfigurations)
      ensures State() == TileState.MarkBroken(old(State()), tileKey)
    {
      brokenTiles := brokenTiles + {tileKey};
      pending := pending - {tileKey};
      TileState.MarkBrokenInv(old(State()), tileKey);
    }

    /** This version keeps every drawable it has shown. */
    method DiscardUnloadedKeys()
      ensures State() == old(State()) && tileConfigurations == old(tileConfigurations)
    {
    }

    /** `loadedKeys.map((tileKey) => this.loadTile(tileKey))`: each call runs to its first `await`. */
    method LoadAll(keys: seq<string>, now: TileState.Timestamp)
      requires Valid()
      modifies this
      ensures Valid() && tileConfigurations == old(tileConfigurations)
      ensures State() == TileState.BeginAll(old(State()), keys, now)
    {
      var k := 0;
      while k < |keys|
        invariant 0 <= k <= |keys|
        invariant Valid() && tileConfigurations == old(tileConfigurations)
        invariant State() == TileState.BeginAll(old(State()), keys[..k], now)
      {
        LoadTile(keys[k], now);
        assert keys[..k + 1][..k] == keys[..k];
        k := k + 1;
      }
      assert keys[..k] == keys;
    }

    /**
      `updatePosition(position)`: builds the desired list tier by tier,
      installs it, then starts `loadTile` on each key in order. Every call
      runs to its first `await` before the next begins; the calls' later steps
      and the final `discardUnloadedKeys` happen afterwards, as separate steps.
     */
    method UpdatePosition(position: Position, now: TileState.Timestamp)
      requires Valid()
      modifies this
      ensures Valid() && tileConfigurations == old(tileConfigurations)
      ensures loadedKeys == DesiredKeys(position, tileConfigurations)
      ensures State() == TileState.BeginAll(TileState.Install(old(State()), loadedKeys), loadedKeys, now)
    {
      var keys := BuildDesiredKeys(position, tileConfigurations);
      loadedKeys := keys;
      TileState.InstallInv(old(State()), keys);
      assert State() == TileState.Install(old(State()), keys);
      TileState.BeginAllKeepsDesired(State(), keys, now);
      LoadAll(keys, now);
    }
  }
}
