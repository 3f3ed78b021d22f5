/**
  The JavaScript `TileManager`: five tiers of cells from 8100 down to 100
  units, unclipped key squares, and a `discardUnloadedKeys` that removes and
  disposes every drawable that is no longer desired. Its `loadTile` is cut at
  its two suspension points into the steps `TileState` defines; each method
  below performs one of those steps on the object's fields.
 */
module TileJs {

  import opened Lodash
  import opened TileKeys
  import opened Neighbourhood
  import TileState

  /** The origin of the cell grid, in world coordinates. */
  const XMIN := 389400
  const YMIN := 124200

  /** `tileSquareKeys(x, y, tile, length)`: every cell of the square, nearest first, none dropped. */
  function TileSquareKeys(x: int, y: int, tile: int, length: int): seq<string>
    requires tile > 0
  {
    KeysAt(ContainingCell(x, y, tile, XMIN, YMIN), SortedSquare(length), tile, XMIN, YMIN)
  }

  /**
    Exactly `(2 * length - 1)²` keys, all distinct, each naming a cell of
    edge length `tile`, nearest cell first.
   */
  lemma TileSquareKeysFacts(x: int, y: int, tile: int, length: int)
    requires tile > 0
    ensures |TileSquareKeys(x, y, tile, length)| == (2 * length - 1) * (2 * length - 1)
    ensures NoDuplicates(TileSquareKeys(x, y, tile, length))
    ensures forall key :: key in TileSquareKeys(x, y, tile, length) ==>
      Decode(key).Some? && Decode(key).value.tile == tile
    ensures forall i, j :: 0 <= i < j < |TileSquareKeys(x, y, tile, length)| ==>
      KeyDistance(TileSquareKeys(x, y, tile, length)[i], ContainingCell(x, y, tile, XMIN, YMIN), XMIN, YMIN)
        <= KeyDistance(TileSquareKeys(x, y, tile, length)[j], ContainingCell(x, y, tile, XMIN, YMIN), XMIN, YMIN)
  {
    var c := ContainingCell(x, y, tile, XMIN, YMIN);
    SortedSquareFacts(length);
    KeysAtNoDuplicates(c, SortedSquare(length), tile, XMIN, YMIN);
    KeysAtNearestFirst(c, SortedSquare(length), tile, XMIN, YMIN);
    forall key | key in TileSquareKeys(x, y, tile, length)
      ensures Decode(key).Some? && Decode(key).value.tile == tile
    {
      KeysAtMembership(c, SortedSquare(length), tile, XMIN, YMIN, key);
      var o :| o in SortedSquare(length) && key == Encode(CellAt(c, o, tile, XMIN, YMIN));
      EncodeDecode(CellAt(c, o, tile, XMIN, YMIN));
    }
  }

  /** A key is returned exactly when it names the cell at some offset of the square. */
  lemma TileSquareKeysMembership(x: int, y: int, tile: int, length: int, key: string)
    requires tile > 0
    ensures key in TileSquareKeys(x, y, tile, length) <==>
      exists o :: o in Square(length) && key == Encode(CellAt(ContainingCell(x, y, tile, XMIN, YMIN), o, tile, XMIN, YMIN))
  {
    KeysAtMembership(ContainingCell(x, y, tile, XMIN, YMIN), SortedSquare(length), tile, XMIN, YMIN, key);
    SortedSquareFacts(length);
  }

  // ------------------------------------------------------------ desired keys

  /** The tiers `updatePosition` requests, coarsest first: edge length, square size, highest camera `z`. */
  const JsTiers: seq<Tier> := [
    Tier(8100, 5, 100000000),
    Tier(2700, 5, 20000),
    Tier(900, 5, 5000),
    Tier(300, 5, 2000),
    Tier(100, 5, 700)
  ]

  /** What tier `t` adds to the desired list: nothing when the camera is above it, its square otherwise. */
  function Contribution(position: Position, t: Tier): seq<string>
    requires t.length > 0
  {
    if position.z > t.maxHeight then [] else TileSquareKeys(position.x, position.y, t.length, t.radius)
  }

  /** Each tier's contribution, in tier order. */
  function Contributions(position: Position, tiers: seq<Tier>): seq<seq<string>>
    requires PositiveTiers(tiers)
  {
    seq(|tiers|, i requires 0 <= i < |tiers| => Contribution(position, tiers[i]))
  }

  /** The list `updatePosition` builds: each tier's keys, skipping tiers the camera is above. */
  function DesiredKeys(position: Position, tiers: seq<Tier>): seq<string>
    requires PositiveTiers(tiers)
  {
    Concat(Contributions(position, tiers))
  }

  /** How many cells the tiers the camera is not above request in all. */
  function RequestedCells(z: int, tiers: seq<Tier>): int {
    if tiers == [] then 0
    else
      var t := tiers[|tiers| - 1];
      RequestedCells(z, tiers[..|tiers| - 1])
        + if z > t.maxHeight then 0 else (2 * t.radius - 1) * (2 * t.radius - 1)
  }

  /** The desired list has one entry per requested cell. */
  lemma {:induction false} DesiredKeysCount(position: Position, tiers: seq<Tier>)
    requires PositiveTiers(tiers)
    ensures |DesiredKeys(position, tiers)| == RequestedCells(position.z, tiers)
  {
    if tiers != [] {
      var n := |tiers| - 1;
      var cs := Contributions(position, tiers);
      assert Contributions(position, tiers[..n]) == cs[..n];
      DesiredKeysCount(position, tiers[..n]);
      if position.z <= tiers[n].maxHeight {
        TileSquareKeysFacts(position.x, position.y, tiers[n].length, tiers[n].radius);
      }
    }
  }

  /** Every desired key names a cell of a tier the camera is not above. */
  lemma DesiredKeysTiles(position: Position, tiers: seq<Tier>, key: string)
    requires PositiveTiers(tiers) && key in DesiredKeys(position, tiers)
    ensures Decode(key).Some?
    ensures exists i :: 0 <= i < |tiers| && position.z <= tiers[i].maxHeight && Decode(key).value.tile == tiers[i].length
  {
    var cs := Contributions(position, tiers);
    ConcatMembership(cs, key);
    var i :| 0 <= i < |cs| && key in cs[i];
    TileSquareKeysFacts(position.x, position.y, tiers[i].length, tiers[i].radius);
    assert position.z <= tiers[i].maxHeight;
  }

  /** Tiers of distinct edge lengths never request the same key twice. */
  lemma DesiredKeysDistinct(position: Position, tiers: seq<Tier>)
    requires PositiveTiers(tiers)
    requires forall i, j :: 0 <= i < j < |tiers| ==> tiers[i].length != tiers[j].length
    ensures NoDuplicates(DesiredKeys(position, tiers))
  {
    var cs := Contributions(position, tiers);
    forall i | 0 <= i < |cs| ensures NoDuplicates(cs[i]) {
      TileSquareKeysFacts(position.x, position.y, tiers[i].length, tiers[i].radius);
    }
    forall i, j, key | 0 <= i < j < |cs| && key in cs[i] ensures key !in cs[j] {
      TileSquareKeysFacts(position.x, position.y, tiers[i].length, tiers[i].radius);
      TileSquareKeysFacts(position.x, position.y, tiers[j].length, tiers[j].radius);
    }
    ConcatNoDuplicates(cs);
  }

  /** 81 cells for each shipped tier the camera is not above. */
  lemma JsRequestedCells(z: int)
    ensures RequestedCells(z, JsTiers) ==
      if z > 100000000 then 0
      else if z > 20000 then 81
      else if z > 5000 then 162
      else if z > 2000 then 243
      else if z > 700 then 324
      else 405
  {
    var t1 := [Tier(8100, 5, 100000000)];
    var t2 := t1 + [Tier(2700, 5, 20000)];
    var t3 := t2 + [Tier(900, 5, 5000)];
    var t4 := t3 + [Tier(300, 5, 2000)];
    assert JsTiers == t4 + [Tier(100, 5, 700)];
    assert t1[..0] == [];
    assert RequestedCells(z, t1) == if z > 100000000 then 0 else 81;
    assert t2[..1] == t1;
    assert RequestedCells(z, t2) == RequestedCells(z, t1) + if z > 20000 then 0 else 81;
    assert t3[..2] == t2;
    assert RequestedCells(z, t3) == RequestedCells(z, t2) + if z > 5000 then 0 else 81;
    assert t4[..3] == t3;
    assert RequestedCells(z, t4) == RequestedCells(z, t3) + if z > 2000 then 0 else 81;
    assert JsTiers[..4] == t4;
  }

  /**
    With the shipped tiers no key is requested twice, and the camera gets 81
    cells for each tier it is not above: 405 at or below height 700, none
    above 100000000.
   */
  lemma JsDesiredKeys(position: Position)
    ensures NoDuplicates(DesiredKeys(position, JsTiers))
    ensures |DesiredKeys(position, JsTiers)| ==
      if position.z > 100000000 then 0
      else if position.z > 20000 then 81
      else if position.z > 5000 then 162
      else if position.z > 2000 then 243
      else if position.z > 700 then 324
      else 405
  {
    DesiredKeysDistinct(position, JsTiers);
    DesiredKeysCount(position, JsTiers);
    JsRequestedCells(position.z);
  }

  /** The loops of `updatePosition` that collect the desired list, one tier after another. */
  method BuildDesiredKeys(position: Position, tiers: seq<Tier>) returns (keys: seq<string>)
    requires PositiveTiers(tiers)
    ensures keys == DesiredKeys(position, tiers)
  {
    ghost var cs := Contributions(position, tiers);
    keys := [];
    var i := 0;
    while i < |tiers|
      invariant 0 <= i <= |tiers|
      invariant keys == Concat(cs[..i])
    {
      var tier := tiers[i];
      var tileKeys := TileSquareKeys(position.x, position.y, tier.length, tier.radius);
      ConcatPrefix(cs, i);
      if position.z <= tier.maxHeight {
        keys := PushAll(keys, tileKeys);
      }
      i := i + 1;
    }
    assert cs[..i] == cs;
  }

  // ------------------------------------------------------------- the manager

  class TileManager {
    var visibleTiles: map<string, TileState.Points>
    var loadedKeys: seq<string>
    var loadingTiles: map<string, TileState.Timestamp>
    /** The keys of `brokenTiles`; every value stored there is `true`. */
    var brokenTiles: set<string>
    /** The drawables this manager has added to the scene and not removed. */
    var scene: set<TileState.Points>
    /** The drawables whose geometry and material this manager has disposed. */
    ghost var disposed: set<TileState.Points>
    /** The `loadTile` calls suspended at an `await`, and where. */
    ghost var pending: map<string, TileState.Phase>

    ghost function State(): TileState.State
      reads this
    {
      TileState.State(visibleTiles, loadedKeys, loadingTiles, brokenTiles, scene, disposed, pending)
    }

    ghost predicate Valid()
      reads this
    {
      TileState.Inv(State())
    }

    constructor ()
      ensures Valid() && State() == TileState.Init()
    {
      visibleTiles := map[];
      loadedKeys := [];
      loadingTiles := map[];
      brokenTiles := {};
      scene := {};
      disposed := {};
      pending := map[];
      TileState.InitInv();
    }

    /** `loadTile(tileKey)` up to its first `await`: the guards, then the loading mark. */
    method LoadTile(tileKey: string, now: TileState.Timestamp)
      requires Valid()
      modifies this
      ensures Valid()
      ensures State() == TileState.Begin(old(State()), tileKey, now)
    {
      if tileKey in loadingTiles || tileKey in brokenTiles {
        return;
      }
      if tileKey !in loadedKeys {
        return;
      }
      loadingTiles := loadingTiles[tileKey := now];
      pending := pending[tileKey := TileState.AwaitingResponse];
      TileState.BeginInv(old(State()), tileKey, now);
    }

    /** The stale branch after either `await`: drop the loading mark and return. */
    method GiveUp(tileKey: string)
      requires Valid() && tileKey in pending && tileKey !in loadedKeys
      modifies this
      ensures Valid()
      ensures State() == TileState.Abort(old(State()), tileKey)
    {
      if tileKey in loadingTiles {
        loadingTiles := loadingTiles - {tileKey};
      }
      pending := pending - {tileKey};
      TileState.AbortInv(old(State()), tileKey);
    }

    /** `loadTile` resumed when `fetch` resolves: the first staleness re-check. */
    method LoadTileResponse(tileKey: string)
      requires Valid() && tileKey in pending && pending[tileKey] == TileState.AwaitingResponse
      modifies this
      ensures Valid()
      ensures State() == TileState.AfterResponse(old(State()), tileKey)
    {
      if tileKey !in loadedKeys {
        GiveUp(tileKey);
        return;
      }
      pending := pending[tileKey := TileState.AwaitingBody];
      TileState.AfterResponseInv(old(State()), tileKey);
    }

    /**
      `loadTile` resumed when the body of `byteLength` bytes has arrived: the
      second staleness re-check, then decoding; a body that does not decode
      marks the key broken, one that does is shown as the new drawable `mesh`.
     */
    method LoadTileBody(tileKey: string, byteLength: nat) returns (mesh: TileState.Points?)
      requires Valid() && tileKey in pending && pending[tileKey] == TileState.AwaitingBody
      modifies this
      ensures Valid()
      ensures mesh != null <==> tileKey in old(loadedKeys) && TileState.Decodes(byteLength)
      ensures tileKey !in old(loadedKeys) ==> State() == TileState.Abort(old(State()), tileKey)
      ensures tileKey in old(loadedKeys) && !TileState.Decodes(byteLength) ==>
        State() == TileState.MarkBroken(old(State()), tileKey)
      ensures mesh != null ==> fresh(mesh) && State() == TileState.AfterBody(old(State()), tileKey, byteLength, mesh)
    {
      if tileKey !in loadedKeys {
        GiveUp(tileKey);
        return null;
      }
      if !TileState.Decodes(byteLength) {
        LoadTileRejected(tileKey);
        return null;
      }
      mesh := new TileState.Points();
      TileState.CommitInv(old(State()), tileKey, mesh);
      scene := scene + {mesh};
      visibleTiles := visibleTiles[tileKey := mesh];
      pending := pending - {tileKey};
    }

    /** A `fetch` or body read that rejects lands in the `catch` block: the key is marked broken. */
    method LoadTileRejected(tileKey: string)
      requires Valid() && tileKey in pending
      modifies this
      ensures Valid()
      ensures State() == TileState.MarkBroken(old(State()), tileKey)
    {
      brokenTiles := brokenTiles + {tileKey};
      pending := pending - {tileKey};
      TileState.MarkBrokenInv(old(State()), tileKey);
    }

    /**
      `discardUnloadedKeys()`: for each visible key that is no longer desired,
      remove its drawable from the scene, dispose it, and delete the key from
      `visibleTiles` and `loadingTiles`.
     */
    method DiscardUnloadedKeys()
      requires Valid()
      modifies this
      ensures Valid()
      ensures State() == TileState.Evict(old(State()))
    {
      ghost var s0 := State();
      var evictKeys := visibleTiles.Keys - (set k | k in loadedKeys);
      ghost var done: set<string> := {};
      TileState.DiscardNone(s0);
      while evictKeys != {}
        invariant evictKeys + done == TileState.EvictKeys(s0) && evictKeys !! done
        invariant State() == TileState.Discard(s0, done)
        decreases evictKeys
      {
        var evictKey :| evictKey in evictKeys;
        var mesh := visibleTiles[evictKey];
        scene := scene - {mesh};
        disposed := disposed + {mesh};
        visibleTiles := visibleTiles - {evictKey};
        loadingTiles := loadingTiles - {evictKey};
        evictKeys := evictKeys - {evictKey};
        TileState.DiscardOneMore(s0, done, evictKey);
        done := done + {evictKey};
      }
      TileState.EvictInv(s0);
    }

    /** `loadedKeys.map((tileKey) => this.loadTile(tileKey))`: each call runs to its first `await`. */
    method LoadAll(keys: seq<string>, now: TileState.Timestamp)
      requires Valid()
      modifies this
      ensures Valid()
      ensures State() == TileState.BeginAll(old(State()), keys, now)
    {
      var k := 0;
      while k < |keys|
        invariant 0 <= k <= |keys|
        invariant Valid()
        invariant State() == TileState.BeginAll(old(State()), keys[..k], now)
      {
        LoadTile(keys[k], now);
        assert keys[..k + 1][..k] == keys[..k];
        k := k + 1;
      }
      assert keys[..k] == keys;
    }

    /**
      `updatePosition(position)`: builds the desired list tier by tier,
      installs it, then starts `loadTile` on each key in order. Every call
      runs to its first `await` before the next begins; the calls' later steps
      and the final `discardUnloadedKeys` happen afterwards, as separate steps.
     */
    method UpdatePosition(position: Position, now: TileState.Timestamp)
      requires Valid()
      modifies this
      ensures Valid()
      ensures loadedKeys == DesiredKeys(position, JsTiers)
      ensures State() == TileState.BeginAll(TileState.Install(old(State()), loadedKeys), loadedKeys, now)
    {
      UpdateForTiers(position, JsTiers, now);
    }

    /** The body of `updatePosition` for the tier table `tiers` (`tileKeyParams`). */
    method UpdateForTiers(position: Position, tiers: seq<Tier>, now: TileState.Timestamp)
      requires Valid() && PositiveTiers(tiers)
      modifies this
      ensures Valid()
      ensures loadedKeys == DesiredKeys(position, tiers)
      ensures State() == TileState.BeginAll(TileState.Install(old(State()), loadedKeys), loadedKeys, now)
    {
      var keys := BuildDesiredKeys(position, tiers);
      loadedKeys := keys;
      TileState.InstallInv(old(State()), keys);
      assert State() == TileState.Install(old(State()), keys);
      TileState.BeginAllKeepsDesired(State(), keys, now);
      LoadAll(keys, now);
    }
  }
}
