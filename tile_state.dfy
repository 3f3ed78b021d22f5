/**
  The state both `TileManager` classes keep, and every change `loadTile`,
  `updatePosition` and `discardUnloadedKeys` make to it, as functions on
  values. `loadTile` is an async function that suspends twice (awaiting the
  response, then the body), so it is cut into the steps that run between its
  suspension points; `pending` records which calls are suspended, and where.
  Any interleaving of those steps with new desired lists and evictions is a
  run (`Run`), and the lemmas at the end hold for every run.
 */
module TileState {

  /** A drawable tile (`THREE.Points`); the model only needs its identity. */
  class Points {
    constructor () {}
  }

  /** A `Date.now()` reading: positive, so a `loadingTiles` entry is always truthy. */
  type Timestamp = t: int | t > 0 witness 1

  /** Where a suspended `loadTile` call waits. */
  datatype Phase = AwaitingResponse | AwaitingBody

  /**
    The manager's state: `visibleTiles`, `loadedKeys` (the desired list),
    `loadingTiles`, the keys of `brokenTiles` (its values are always `true`),
    the drawables the manager has added to the scene and not removed, the
    drawables whose geometry and material it has disposed, and its suspended
    `loadTile` calls.
   */
  datatype State = State(
    visible: map<string, Points>,
    loadedKeys: seq<string>,
    loading: map<string, Timestamp>,
    broken: set<string>,
    scene: set<Points>,
    disposed: set<Points>,
    pending: map<string, Phase>)

  /** The state a new `TileManager` starts in. */
  function Init(): State {
    State(map[], [], map[], {}, {}, {}, map[])
  }

  ghost predicate Injective(m: map<string, Points>) {
    forall k1, k2 :: k1 in m && k2 in m && k1 != k2 ==> m[k1] != m[k2]
  }

  /**
    What every reachable state satisfies. A suspended call's key is loading,
    neither visible nor broken; a visible key stays in `loadingTiles`, and so
    does a broken one; the scene holds exactly the visible drawables, one per
    key, none of them disposed.
   */
  ghost predicate Inv(s: State) {
    && s.pending.Keys <= s.loading.Keys
    && s.visible.Keys <= s.loading.Keys
    && s.broken <= s.loading.Keys
    && s.pending.Keys !! s.visible.Keys
    && s.pending.Keys !! s.broken
    && s.visible.Keys !! s.broken
    && s.scene == s.visible.Values
    && Injective(s.visible)
    && s.scene !! s.disposed
  }

  lemma InitInv()
    ensures Inv(Init())
  {
  }

  // ------------------------------------------------------------ loadTile steps

  /**
    The synchronous start of `loadTile(key)`: return if the key is loading or
    broken, or not in the desired list; otherwise mark it loading and issue the
    fetch (the call is now suspended awaiting the response).
   */
  function Begin(s: State, key: string, now: Timestamp): State {
    if key in s.loading || key in s.broken then s
    else if key !in s.loadedKeys then s
    else s.(loading := s.loading[key := now], pending := s.pending[key := AwaitingResponse])
  }

  /** A stale load gives up: its `loadingTiles` entry is deleted and the call ends. */
  function Abort(s: State, key: string): State {
    s.(loading := s.loading - {key}, pending := s.pending - {key})
  }

  /** The response has arrived: first staleness re-check, then await the body. */
  function AfterResponse(s: State, key: string): State {
    if key !in s.loadedKeys then Abort(s, key)
    else s.(pending := s.pending[key := AwaitingBody])
  }

  /** `new Float32Array(buffer)` throws unless the body's length is a multiple of 4 bytes. */
  predicate Decodes(byteLength: nat) {
    byteLength % 4 == 0
  }

  /** The `catch` block: the key is marked broken and the call ends. */
  function MarkBroken(s: State, key: string): State {
    s.(broken := s.broken + {key}, pending := s.pending - {key})
  }

  /** The drawable is added to the scene and recorded under the key; the call ends. */
  function Commit(s: State, key: string, mesh: Points): State {
    s.(visible := s.visible[key := mesh], scene := s.scene + {mesh}, pending := s.pending - {key})
  }

  /**
    The body has arrived: second staleness re-check, then decoding, which
    either throws (broken) or yields the drawable `mesh`.
   */
  function AfterBody(s: State, key: string, byteLength: nat, mesh: Points): State {
    if key !in s.loadedKeys then Abort(s, key)
    else if !Decodes(byteLength) then MarkBroken(s, key)
    else Commit(s, key, mesh)
  }

  // ---------------------------------------------------- updatePosition, discard

  /** `this.loadedKeys = loadedKeys`: the desired list is replaced as a whole. */
  function Install(s: State, keys: seq<string>): State {
    s.(loadedKeys := keys)
  }

  /** `loadedKeys.map((tileKey) => this.loadTile(tileKey))`, up to each call's first await. */
  function BeginAll(s: State, keys: seq<string>, now: Timestamp): State {
    if keys == [] then s
    else Begin(BeginAll(s, keys[..|keys| - 1], now), keys[|keys| - 1], now)
  }

  /** `_.difference(_.keys(this.visibleTiles), this.loadedKeys)`. */
  function EvictKeys(s: State): set<string> {
    s.visible.Keys - (set k | k in s.loadedKeys)
  }

  /** The drawables `m` holds under `keys`. */
  function Meshes(m: map<string, Points>, keys: set<string>): set<Points> {
    set k | k in keys && k in m :: m[k]
  }

  /**
    The keys `keys` discarded: their drawables removed from the scene and
    disposed, their `visibleTiles` and `loadingTiles` entries deleted.
   */
  function Discard(s: State, keys: set<string>): State {
    s.(visible := s.visible - keys,
       loading := s.loading - keys,
       scene := s.scene - Meshes(s.visible, keys),
       disposed := s.disposed + Meshes(s.visible, keys))
  }

  /** `discardUnloadedKeys` (JavaScript version): every visible key no longer desired is discarded. */
  function Evict(s: State): State {
    Discard(s, EvictKeys(s))
  }

  lemma DiscardNone(s: State)
    ensures Discard(s, {}) == s
  {
    assert Meshes(s.visible, {}) == {};
    assert s.visible - {} == s.visible && s.loading - {} == s.loading;
  }

  /** Discarding one more visible key removes and disposes exactly its drawable. */
  lemma DiscardOneMore(s: State, done: set<string>, key: string)
    requires key in s.visible && key !in done
    ensures Discard(s, done + {key}) ==
      var d := Discard(s, done);
      d.(visible := d.visible - {key},
         loading := d.loading - {key},
         scene := d.scene - {d.visible[key]},
         disposed := d.disposed + {d.visible[key]})
  {
    assert Meshes(s.visible, done + {key}) == Meshes(s.visible, done) + {s.visible[key]};
  }

  // ------------------------------------------------- each step keeps Inv

  lemma BeginInv(s: State, key: string, now: Timestamp)
    requires Inv(s)
    ensures Inv(Begin(s, key, now))
  {
  }

  lemma AbortInv(s: State, key: string)
    requires Inv(s) && key in s.pending
    ensures Inv(Abort(s, key))
  {
  }

  lemma AfterResponseInv(s: State, key: string)
    requires Inv(s) && key in s.pending
    ensures Inv(AfterResponse(s, key))
  {
    if key !in s.loadedKeys {
      AbortInv(s, key);
    }
  }

  lemma MarkBrokenInv(s: State, key: string)
    requires Inv(s) && key in s.pending
    ensures Inv(MarkBroken(s, key))
  {
  }

  lemma CommitInv(s: State, key: string, mesh: Points)
    requires Inv(s) && key in s.pending
    requires mesh !in s.scene && mesh !in s.disposed
    ensures Inv(Commit(s, key, mesh))
  {
    var r := Commit(s, key, mesh);
    assert r.visible.Values == s.visible.Values + {mesh} by {
      forall v | v in r.visible.Values ensures v in s.visible.Values + {mesh} {
        var k :| k in r.visible && r.visible[k] == v;
        if k != key {
          assert s.visible[k] == v;
        }
      }
      forall v | v in s.visible.Values + {mesh} ensures v in r.visible.Values {
        if v == mesh {
          assert r.visible[key] == v;
        } else {
          var k :| k in s.visible && s.visible[k] == v;
          assert k != key && r.visible[k] == v;
        }
      }
    }
  }

  lemma AfterBodyInv(s: State, key: string, byteLength: nat, mesh: Points)
    requires Inv(s) && key in s.pending
    requires mesh !in s.scene && mesh !in s.disposed
    ensures Inv(AfterBody(s, key, byteLength, mesh))
  {
    if key !in s.loadedKeys {
      AbortInv(s, key);
    } else if !Decodes(byteLength) {
      MarkBrokenInv(s, key);
    } else {
      CommitInv(s, key, mesh);
    }
  }

  lemma {:induction false} BeginAllInv(s: State, keys: seq<string>, now: Timestamp)
    requires Inv(s)
    ensures Inv(BeginAll(s, keys, now))
  {
    if keys != [] {
      BeginAllInv(s, keys[..|keys| - 1], now);
      BeginInv(BeginAll(s, keys[..|keys| - 1], now), keys[|keys| - 1], now);
    }
  }

  lemma InstallInv(s: State, keys: seq<string>)
    requires Inv(s)
    ensures Inv(Install(s, keys))
  {
  }

  lemma EvictInv(s: State)
    requires Inv(s)
    ensures Inv(Evict(s))
  {
    var e := EvictKeys(s);
    var r := Evict(s);
    assert r.scene == r.visible.Values by {
      forall v | v in r.scene ensures v in r.visible.Values {
        var k :| k in s.visible && s.visible[k] == v;
        assert r.visible[k] == v;
      }
      forall v | v in r.visible.Values ensures v in r.scene {
        var k :| k in r.visible && r.visible[k] == v;
        assert v in s.scene;
      }
    }
  }

  // ----------------------------------------------------- the source's promises

  /**
    `loadTile` starts a fetch exactly when its key is neither loading nor
    broken and is in the desired list; otherwise nothing changes. A start
    records the timestamp and suspends the call awaiting the response.
   */
  lemma LoadTileGuards(s: State, key: string, now: Timestamp)
    ensures Begin(s, key, now) == s <==> key in s.loading || key in s.broken || key !in s.loadedKeys
    ensures Begin(s, key, now) != s ==>
      && Begin(s, key, now).loading == s.loading[key := now]
      && Begin(s, key, now).pending == s.pending[key := AwaitingResponse]
      && Begin(s, key, now).visible == s.visible
      && Begin(s, key, now).broken == s.broken
  {
    if key !in s.loading && key !in s.broken && key in s.loadedKeys {
      assert key in Begin(s, key, now).loading;
    }
  }

  /** While a call for `key` is suspended, another `loadTile(key)` issues no second request. */
  lemma NoDuplicateRequest(s: State, key: string, now: Timestamp)
    requires Inv(s) && key in s.pending
    ensures Begin(s, key, now) == s
  {
  }

  /**
    A load whose key has left the desired list at either re-check loses its
    `loadingTiles` entry and ends, and nothing is shown or marked broken.
   */
  lemma StaleLoadDiscarded(s: State, key: string, byteLength: nat, mesh: Points)
    requires key !in s.loadedKeys
    ensures AfterResponse(s, key) == Abort(s, key)
    ensures AfterBody(s, key, byteLength, mesh) == Abort(s, key)
    ensures key !in Abort(s, key).loading && key !in Abort(s, key).pending
    ensures Abort(s, key).visible == s.visible && Abort(s, key).scene == s.scene
    ensures Abort(s, key).broken == s.broken
  {
  }

  /**
    A load that passes the second re-check and decodes shows its drawable under
    the key; its `loadingTiles` entry stays.
   */
  lemma FreshLoadShown(s: State, key: string, byteLength: nat, mesh: Points)
    requires key in s.loadedKeys && Decodes(byteLength)
    ensures AfterBody(s, key, byteLength, mesh).visible == s.visible[key := mesh]
    ensures AfterBody(s, key, byteLength, mesh).scene == s.scene + {mesh}
    ensures AfterBody(s, key, byteLength, mesh).loading == s.loading
    ensures key !in AfterBody(s, key, byteLength, mesh).pending
  {
  }

  /**
    The response status plays no part: whatever the server sends, a body whose
    length is a multiple of 4 (an empty one included) is committed for a
    desired key, and the key does not become broken.
   */
  lemma DecodableBodyNotBroken(s: State, key: string, byteLength: nat, mesh: Points)
    requires key in s.loadedKeys && byteLength % 4 == 0
    ensures AfterBody(s, key, byteLength, mesh) == Commit(s, key, mesh)
    ensures AfterBody(s, key, byteLength, mesh).visible[key] == mesh
    ensures AfterBody(s, key, byteLength, mesh).broken == s.broken
  {
  }

  /**
    A failed load (rejected fetch or body, or a body that does not decode)
    marks the key broken, shows nothing and keeps its `loadingTiles` entry;
    a later `loadTile` of the key changes nothing.
   */
  lemma FailedLoadBroken(s: State, key: string, now: Timestamp)
    ensures key in MarkBroken(s, key).broken
    ensures MarkBroken(s, key).visible == s.visible && MarkBroken(s, key).scene == s.scene
    ensures MarkBroken(s, key).loading == s.loading
    ensures Begin(MarkBroken(s, key), key, now) == MarkBroken(s, key)
  {
  }

  /**
    After eviction the visible keys are exactly the visible keys still desired,
    each with the drawable it had; evicted keys lose their `loadingTiles`
    entries; suspended calls, broken keys and the desired list are untouched.
   */
  lemma EvictKeepsDesired(s: State)
    ensures Evict(s).visible.Keys == s.visible.Keys * (set k | k in s.loadedKeys)
    ensures forall k :: k in Evict(s).visible ==> Evict(s).visible[k] == s.visible[k]
    ensures Evict(s).loading.Keys == s.loading.Keys - EvictKeys(s)
    ensures Evict(s).pending == s.pending && Evict(s).broken == s.broken
    ensures Evict(s).loadedKeys == s.loadedKeys
  {
  }

  /** Evicting twice is evicting once. */
  lemma EvictIdempotent(s: State)
    ensures Evict(Evict(s)) == Evict(s)
  {
    var r := Evict(s);
    assert EvictKeys(r) == {};
    assert Meshes(r.visible, {}) == {};
    assert r.visible - {} == r.visible;
    assert r.loading - {} == r.loading;
  }

  /**
    After eviction the scene holds exactly the drawables of the desired keys
    that are loaded, and every drawable eviction disposes had not been
    disposed before.
   */
  lemma EvictSceneExact(s: State)
    requires Inv(s)
    ensures Evict(s).scene == set k | k in s.visible && k in s.loadedKeys :: s.visible[k]
    ensures Meshes(s.visible, EvictKeys(s)) !! s.disposed
  {
    EvictInv(s);
    var r := Evict(s);
    assert r.scene == r.visible.Values;
    var want := set k | k in s.visible && k in s.loadedKeys :: s.visible[k];
    forall v | v in want ensures v in r.visible.Values {
      var k :| k in s.visible && k in s.loadedKeys && s.visible[k] == v;
      assert k in r.visible && r.visible[k] == v;
    }
    forall v | v in r.visible.Values ensures v in want {
      var k :| k in r.visible && r.visible[k] == v;
      assert k in s.visible && k in s.loadedKeys && s.visible[k] == v;
    }
  }

  // ------------------------------------------------------------------ runs

  /** Everything that can happen to a manager, one step at a time. */
  datatype Event =
    | Installed(keys: seq<string>)                            // updatePosition replaces loadedKeys
    | LoadCalled(key: string, now: Timestamp)                 // loadTile(key) is called
    | ResponseArrived(key: string)                            // its fetch resolves
    | BodyArrived(key: string, byteLength: nat, mesh: Points) // its arrayBuffer resolves
    | Rejected(key: string)                                   // its fetch or arrayBuffer rejects
    | Discarded                                               // discardUnloadedKeys (JavaScript version)

  function Step(s: State, e: Event): State {
    match e
    case Installed(keys) => Install(s, keys)
    case LoadCalled(key, now) => Begin(s, key, now)
    case ResponseArrived(key) => AfterResponse(s, key)
    case BodyArrived(key, byteLength, mesh) => AfterBody(s, key, byteLength, mesh)
    case Rejected(key) => MarkBroken(s, key)
    case Discarded => Evict(s)
  }

  /**
    A continuation runs only for a call suspended at the matching await, and a
    new drawable is a new object: neither in the scene nor disposed.
   */
  predicate Enabled(s: State, e: Event) {
    match e
    case ResponseArrived(key) => key in s.pending && s.pending[key] == AwaitingResponse
    case BodyArrived(key, _, mesh) =>
      key in s.pending && s.pending[key] == AwaitingBody && mesh !in s.scene && mesh !in s.disposed
    case Rejected(key) => key in s.pending
    case _ => true
  }

  function Run(s: State, es: seq<Event>): State
    decreases |es|
  {
    if es == [] then s else Run(Step(s, es[0]), es[1..])
  }

  predicate ValidRun(s: State, es: seq<Event>)
    decreases |es|
  {
    es == [] || (Enabled(s, es[0]) && ValidRun(Step(s, es[0]), es[1..]))
  }

  lemma StepInv(s: State, e: Event)
    requires Inv(s) && Enabled(s, e)
    ensures Inv(Step(s, e))
  {
    match e
    case Installed(keys) =>
    case LoadCalled(key, now) => BeginInv(s, key, now);
    case ResponseArrived(key) => AfterResponseInv(s, key);
    case BodyArrived(key, byteLength, mesh) => AfterBodyInv(s, key, byteLength, mesh);
    case Rejected(key) => MarkBrokenInv(s, key);
    case Discarded => EvictInv(s);
  }

  /** Every state a valid run reaches from a state satisfying Inv satisfies Inv. */
  lemma {:induction false} RunInv(s: State, es: seq<Event>)
    requires Inv(s) && ValidRun(s, es)
    ensures Inv(Run(s, es))
    decreases |es|
  {
    if es != [] {
      StepInv(s, es[0]);
      RunInv(Step(s, es[0]), es[1..]);
    }
  }

  /**
    A broken key stays broken whatever happens next, and, in a valid run, is
    never fetched again and never shown.
   */
  lemma {:induction false} BrokenIsPermanent(s: State, es: seq<Event>, key: string)
    requires Inv(s) && ValidRun(s, es) && key in s.broken
    ensures key in Run(s, es).broken
    ensures key !in Run(s, es).pending && key !in Run(s, es).visible
    decreases |es|
  {
    if es != [] {
      StepInv(s, es[0]);
      BrokenIsPermanent(Step(s, es[0]), es[1..], key);
    } else {
      assert Run(s, es) == s;
    }
  }

  /**
    Staleness safety: a key that is neither visible nor desired, and that no
    later desired list contains, is never shown, whatever calls for it were
    in flight and however their steps interleave.
   */
  lemma {:induction false} UndesiredNeverShown(s: State, es: seq<Event>, key: string)
    requires key !in s.visible && key !in s.loadedKeys
    requires forall i :: 0 <= i < |es| && es[i].Installed? ==> key !in es[i].keys
    ensures key !in Run(s, es).visible
    decreases |es|
  {
    if es != [] {
      var t := Step(s, es[0]);
      assert key !in t.visible && key !in t.loadedKeys;
      forall i | 0 <= i < |es[1..]| && es[1..][i].Installed? ensures key !in es[1..][i].keys {
        assert es[1..][i] == es[i + 1];
      }
      UndesiredNeverShown(t, es[1..], key);
    }
  }

  lemma {:induction false} BeginAllKeepsDesired(s: State, keys: seq<string>, now: Timestamp)
    ensures BeginAll(s, keys, now).loadedKeys == s.loadedKeys
  {
    if keys != [] {
      BeginAllKeepsDesired(s, keys[..|keys| - 1], now);
    }
  }

  /** Only `Installed` changes the desired list. */
  lemma {:induction false} RunKeepsDesired(s: State, es: seq<Event>)
    requires forall i :: 0 <= i < |es| ==> !es[i].Installed?
    ensures Run(s, es).loadedKeys == s.loadedKeys
    decreases |es|
  {
    if es != [] {
      assert !es[0].Installed?;
      assert forall i :: 0 <= i < |es[1..]| ==> es[1..][i] == es[i + 1];
      RunKeepsDesired(Step(s, es[0]), es[1..]);
    }
  }

  /**
    `updatePosition` as a whole: the new desired list is installed before any
    load starts; however the loads' later steps interleave, as long as no other
    list is installed, the closing `discardUnloadedKeys` leaves only keys of
    the new list visible.
   */
  lemma UpdateThenDiscard(s: State, keys: seq<string>, now: Timestamp, es: seq<Event>)
    requires forall i :: 0 <= i < |es| ==> !es[i].Installed?
    ensures Run(BeginAll(Install(s, keys), keys, now), es).loadedKeys == keys
    ensures forall k :: k in Evict(Run(BeginAll(Install(s, keys), keys, now), es)).visible ==> k in keys
  {
    BeginAllKeepsDesired(Install(s, keys), keys, now);
    RunKeepsDesired(BeginAll(Install(s, keys), keys, now), es);
  }

}
