/** The cache of SSH connections, one per key, and the steps of the callers that
    share it. */
module SshCache {
  import opened Basics

  const IDLE_TIMEOUT: int := 60_000_000_000

  type Key = Bytes

  datatype Cached = Cached(client: nat, lastUsed: int)

  /** What the mutex guards, and which connections have been closed. */
  datatype Cache = Cache(connections: map<Key, Cached>, generation: nat, closed: set<nat>)

  predicate Idle(item: Cached, now: int) {
    now - item.lastUsed > IDLE_TIMEOUT
  }

  function Clients(connections: map<Key, Cached>): set<nat> {
    set key | key in connections :: connections[key].client
  }

  lemma ClientsWithout(connections: map<Key, Cached>, key: Key)
    requires key in connections
    ensures Clients(connections) == Clients(connections - {key}) + {connections[key].client}
  {
    var rest := connections - {key};
    forall c | c in Clients(connections) ensures c in Clients(rest) + {connections[key].client} {
      var k :| k in connections && connections[k].client == c;
      if k != key { assert k in rest && rest[k].client == c; }
    }
  }

  // ---------- Critical sections ----------

  /** The idle connections among `keys` are closed and dropped. */
  function PrunedIn(c: Cache, now: int, keys: set<Key>): Cache {
    Cache(map key | key in c.connections && !(key in keys && Idle(c.connections[key], now)) :: c.connections[key],
          c.generation,
          c.closed + set key | key in keys && key in c.connections && Idle(c.connections[key], now)
                     :: c.connections[key].client)
  }

  /** Entering: prune, then look for the key. */
  function Lookup(c: Cache, key: Key, now: int): (Cache, Option<nat>) {
    var p := PrunedIn(c, now, c.connections.Keys);
    if key in p.connections then
      var client := p.connections[key].client;
      (p.(connections := p.connections[key := Cached(client, now)]), Some(client))
    else (p, None)
  }

  /** After dialling: a connection of an older generation, or one that came second,
      is closed. */
  function Registered(c: Cache, key: Key, client: nat, generation: nat, now: int): (Cache, Option<nat>) {
    if generation != c.generation then (c.(closed := c.closed + {client}), None)
    else if key in c.connections then (c.(closed := c.closed + {client}), Some(c.connections[key].client))
    else (c.(connections := c.connections[key := Cached(client, now)]), Some(client))
  }

  function Evicted(c: Cache, key: Key, client: nat): Cache {
    if key in c.connections && c.connections[key].client == client then c.(connections := c.connections - {key}) else c
  }

  function AllClosed(c: Cache): Cache {
    Cache(map[], c.generation + 1, c.closed + Clients(c.connections))
  }

  /** The cache itself.  Its methods are the critical sections of its mutex. */
  class Client {
    var connections: map<Key, Cached>
    var generation: nat
    /** The connections whose Close was called. */
    ghost var closed: set<nat>

    ghost function View(): Cache
      reads this
    {
      Cache(connections, generation, closed)
    }

    constructor ()
      ensures View() == Cache(map[], 0, {})
    {
      connections, generation, closed := map[], 0, {};
    }

    method CloseConnection(client: nat)
      modifies `closed
      ensures closed == old(closed) + {client}
    {
      closed := closed + {client};
    }

    /** The first half of getClient: a connection at hand, or the generation to dial in. */
    method Enter(key: Key, now: int) returns (found: Option<nat>, current: nat)
      modifies this
      ensures (View(), found) == Lookup(old(View()), key, now)
      ensures current == generation
    {
      current := generation;
      var keys := connections.Keys;
      ghost var seen: set<Key> := {};
      while keys != {}
        invariant keys + seen == old(connections).Keys && keys !! seen
        invariant View() == PrunedIn(old(View()), now, seen)
        decreases keys
      {
        var k :| k in keys;
        if now - connections[k].lastUsed > IDLE_TIMEOUT {
          CloseConnection(connections[k].client);
          connections := connections - {k};
        }
        keys := keys - {k};
        seen := seen + {k};
      }
      assert seen == old(View()).connections.Keys;
      if key in connections {
        connections := connections[key := connections[key].(lastUsed := now)];
        return Some(connections[key].client), current;
      }
      return None, current;
    }

    /** The second half of getClient. */
    method Finish(key: Key, client: nat, started: nat, now: int) returns (r: Option<nat>)
      modifies this
      ensures (View(), r) == Registered(old(View()), key, client, started, now)
    {
      if started != generation {
        CloseConnection(client);
        return None;
      }
      if key in connections {
        CloseConnection(client);
        return Some(connections[key].client);
      }
      connections := connections[key := Cached(client, now)];
      return Some(client);
    }

    method Evict(key: Key, client: nat)
      modifies `connections
      ensures View() == Evicted(old(View()), key, client)
    {
      if key in connections && connections[key].client == client {
        connections := connections - {key};
      }
    }

    method Close()
      modifies this
      ensures View() == AllClosed(old(View()))
    {
      generation := generation + 1;
      while connections != map[]
        invariant generation == old(generation) + 1
        invariant closed + Clients(connections) == old(closed) + Clients(old(connections))
        decreases connections.Keys
      {
        var key :| key in connections;
        ghost var before := connections;
        CloseConnection(connections[key].client);
        connections := connections - {key};
        ClientsWithout(before, key);
      }
    }
  }

  // ---------- All callers together ----------

  /** A connection that was opened: for which key, in which generation its dialling
      began, and by which caller. */
  datatype Open = Open(key: Key, generation: nat, dialler: nat)

  datatype Caller =
    | Dialling(key: Key, generation: nat)
    | Dialled(key: Key, client: nat, generation: nat)
    | Using(key: Key, client: nat)
    | Evicting(key: Key, client: nat)
    | Finished

  datatype World = World(cache: Cache, dials: seq<Open>, callers: seq<Caller>)

  const START := World(Cache(map[], 0, {}), [], [])

  datatype Event =
    | Get(key: Key, now: int)
    | Dial(caller: nat, ok: bool)
    | Finish(caller: nat, now: int)
    | Release(caller: nat)
    | Break(caller: nat)
    | Watch(caller: nat)
    | Evict(caller: nat)
    | CloseAll

  function StepGet(w: World, key: Key, now: int): World {
    var (cache, found) := Lookup(w.cache, key, now);
    World(cache, w.dials, w.callers + [match found case Some(client) => Using(key, client)
                                                   case None => Dialling(key, cache.generation)])
  }

  function StepDial(w: World, i: nat, ok: bool): World
    requires i < |w.callers| && w.callers[i].Dialling?
  {
    var c := w.callers[i];
    if !ok then w.(callers := w.callers[i := Finished])
    else World(w.cache, w.dials + [Open(c.key, c.generation, i)],
               w.callers[i := Dialled(c.key, |w.dials|, c.generation)])
  }

  function StepFinish(w: World, i: nat, now: int): World
    requires i < |w.callers| && w.callers[i].Dialled?
  {
    var c := w.callers[i];
    var (cache, r) := Registered(w.cache, c.key, c.client, c.generation, now);
    World(cache, w.dials, w.callers[i := match r case Some(client) => Using(c.key, client) case None => Finished])
  }

  /** A caller gives the connection up: it is closed now and evicted later. */
  function StepBreak(w: World, i: nat, watcher: bool): World
    requires i < |w.callers| && w.callers[i].Using?
  {
    var c := w.callers[i];
    var next := Evicting(c.key, c.client);
    World(w.cache.(closed := w.cache.closed + {c.client}), w.dials,
          if watcher then w.callers + [next] else w.callers[i := next])
  }

  function StepEvict(w: World, i: nat): World
    requires i < |w.callers| && w.callers[i].Evicting?
  {
    World(Evicted(w.cache, w.callers[i].key, w.callers[i].client), w.dials, w.callers[i := Finished])
  }

  /** What cannot happen changes nothing. */
  function Step(w: World, e: Event): World {
    match e
    case Get(key, now) => StepGet(w, key, now)
    case Dial(i, ok) => if i < |w.callers| && w.callers[i].Dialling? then StepDial(w, i, ok) else w
    case Finish(i, now) => if i < |w.callers| && w.callers[i].Dialled? then StepFinish(w, i, now) else w
    case Release(i) => if i < |w.callers| && w.callers[i].Using? then w.(callers := w.callers[i := Finished]) else w
    case Break(i) => if i < |w.callers| && w.callers[i].Using? then StepBreak(w, i, false) else w
    case Watch(i) => if i < |w.callers| && w.callers[i].Using? then StepBreak(w, i, true) else w
    case Evict(i) => if i < |w.callers| && w.callers[i].Evicting? then StepEvict(w, i) else w
    case CloseAll => w.(cache := AllClosed(w.cache))
  }

  function Run(events: seq<Event>): World {
    if events == [] then START else Step(Run(events[..|events| - 1]), events[|events| - 1])
  }

  // ---------- The invariant ----------

  /** The getClient that opened this connection has not returned. */
  predicate UnderWay(w: World, client: nat)
    requires client < |w.dials|
  {
    var o := w.dials[client];
    o.dialler < |w.callers| && w.callers[o.dialler] == Dialled(o.key, client, o.generation)
  }

  predicate IsCached(c: Cache, key: Key, client: nat) {
    key in c.connections && c.connections[key].client == client
  }

  /** Open connections are accounted for. */
  ghost predicate Kept(w: World) {
    forall client :: 0 <= client < |w.dials| ==>
      client in w.cache.closed || IsCached(w.cache, w.dials[client].key, client) || UnderWay(w, client)
  }

  /** A cached connection is under its own key, of this generation and handed over. */
  ghost predicate CachedWell(w: World) {
    forall key :: key in w.cache.connections ==>
      var client := w.cache.connections[key].client;
      && client < |w.dials| && !UnderWay(w, client)
      && w.dials[client].key == key && w.dials[client].generation == w.cache.generation
  }

  ghost predicate CallerWell(w: World, i: nat)
    requires i < |w.callers|
  {
    match w.callers[i]
    case Dialling(_, g) => g <= w.cache.generation && forall k :: 0 <= k < |w.dials| ==> w.dials[k].dialler != i
    case Dialled(key, client, g) =>
      client < |w.dials| && w.dials[client] == Open(key, g, i) && g <= w.cache.generation && client !in w.cache.closed
    case Using(key, client) => client < |w.dials| && w.dials[client].key == key && !UnderWay(w, client)
    case Evicting(key, client) =>
      client < |w.dials| && w.dials[client].key == key && !UnderWay(w, client) && client in w.cache.closed
    case Finished => true
  }

  ghost predicate CallersWell(w: World) {
    && (forall i :: 0 <= i < |w.callers| ==> CallerWell(w, i))
    && (forall k :: 0 <= k < |w.dials| ==> w.dials[k].dialler < |w.callers|)
    && (forall client :: client in w.cache.closed ==> client < |w.dials|)
  }

  /** Somebody is about to evict the connection from under the key. */
  ghost predicate Evicts(callers: seq<Caller>, key: Key, client: nat) {
    Evicting(key, client) in callers
  }

  /** A closed connection stays cached only until its eviction. */
  ghost predicate ClosedLeave(w: World) {
    forall key :: key in w.cache.connections && w.cache.connections[key].client in w.cache.closed ==>
      Evicts(w.callers, key, w.cache.connections[key].client)
  }

  ghost predicate Invariant(w: World) {
    Kept(w) && CachedWell(w) && CallersWell(w) && ClosedLeave(w)
  }

  // ---------- Every step keeps it ----------

  lemma PruneKeeps(w: World, now: int)
    requires Invariant(w)
    ensures Invariant(w.(cache := PrunedIn(w.cache, now, w.cache.connections.Keys)))
  {
    var t := w.(cache := PrunedIn(w.cache, now, w.cache.connections.Keys));
    forall client | 0 <= client < |w.dials| ensures UnderWay(t, client) == UnderWay(w, client) {}
    forall client | 0 <= client < |t.dials|
      ensures client in t.cache.closed || IsCached(t.cache, t.dials[client].key, client) || UnderWay(t, client)
    {
      assert client in w.cache.closed || IsCached(w.cache, w.dials[client].key, client) || UnderWay(w, client);
    }
    forall i | 0 <= i < |t.callers| ensures CallerWell(t, i) {
      assert CallerWell(w, i);
    }
  }

  /** A caller joins, and at most the time of use of one connection changes. */
  lemma JoinKeeps(w: World, t: World, key: Key, now: int)
    requires Invariant(w) && t.dials == w.dials
    requires |t.callers| == |w.callers| + 1 && t.callers[..|w.callers|] == w.callers
    requires if key in w.cache.connections
      then var client := w.cache.connections[key].client;
           && t.cache == w.cache.(connections := w.cache.connections[key := Cached(client, now)])
           && t.callers[|w.callers|] == Using(key, client)
      else t.cache == w.cache && t.callers[|w.callers|] == Dialling(key, w.cache.generation)
    ensures Invariant(t)
  {
    assert forall i :: 0 <= i < |w.callers| ==> t.callers[i] == w.callers[i];
    forall client | 0 <= client < |w.dials| ensures UnderWay(t, client) == UnderWay(w, client) {}
    forall i | 0 <= i < |t.callers| ensures CallerWell(t, i) {
      if i < |w.callers| { assert CallerWell(w, i); }
    }
  }

  lemma GetKeeps(w: World, key: Key, now: int)
    requires Invariant(w)
    ensures Invariant(StepGet(w, key, now))
  {
    PruneKeeps(w, now);
    JoinKeeps(w.(cache := PrunedIn(w.cache, now, w.cache.connections.Keys)), StepGet(w, key, now), key, now);
  }

  lemma DialKeeps(w: World, i: nat, ok: bool)
    requires Invariant(w) && i < |w.callers| && w.callers[i].Dialling?
    ensures Invariant(StepDial(w, i, ok))
  {
    var t := StepDial(w, i, ok);
    assert CallerWell(w, i);
    forall client | 0 <= client < |w.dials| ensures UnderWay(t, client) == UnderWay(w, client) {}
    forall j | 0 <= j < |t.callers| ensures CallerWell(t, j) {
      assert CallerWell(w, j);
    }
    EvictorsStay(w.callers, t.callers, i);
  }

  /** Replacing a caller that evicts nothing leaves the evictions to come. */
  lemma EvictorsStay(before: seq<Caller>, after: seq<Caller>, i: nat)
    requires i < |before| && !before[i].Evicting? && |before| <= |after|
    requires forall j :: 0 <= j < |before| && j != i ==> after[j] == before[j]
    ensures forall key, client :: Evicts(before, key, client) ==> Evicts(after, key, client)
  {
    forall key, client | Evicts(before, key, client) ensures Evicts(after, key, client) {
      var j :| 0 <= j < |before| && before[j] == Evicting(key, client);
      assert after[j] == Evicting(key, client);
    }
  }

  lemma FinishKeeps(w: World, i: nat, now: int)
    requires Invariant(w) && i < |w.callers| && w.callers[i].Dialled?
    ensures Invariant(StepFinish(w, i, now))
  {
    var t := StepFinish(w, i, now);
    assert CallerWell(w, i);
    forall client | 0 <= client < |w.dials|
      ensures UnderWay(t, client) == (UnderWay(w, client) && client != w.callers[i].client) {}
    forall j | 0 <= j < |t.callers| ensures CallerWell(t, j) {
      assert CallerWell(w, j);
    }
    EvictorsStay(w.callers, t.callers, i);
  }

  lemma ReleaseKeeps(w: World, i: nat)
    requires Invariant(w) && i < |w.callers| && w.callers[i].Using?
    ensures Invariant(Step(w, Release(i)))
  {
    var t := Step(w, Release(i));
    forall client | 0 <= client < |w.dials| ensures UnderWay(t, client) == UnderWay(w, client) {}
    forall j | 0 <= j < |t.callers| ensures CallerWell(t, j) {
      assert CallerWell(w, j);
    }
    EvictorsStay(w.callers, t.callers, i);
  }

  lemma BreakKeeps(w: World, i: nat, watcher: bool)
    requires Invariant(w) && i < |w.callers| && w.callers[i].Using?
    ensures Invariant(StepBreak(w, i, watcher))
  {
    var t := StepBreak(w, i, watcher);
    assert CallerWell(w, i);
    forall client | 0 <= client < |w.dials| ensures UnderWay(t, client) == UnderWay(w, client) {}
    forall j | 0 <= j < |t.callers| ensures CallerWell(t, j) {
      if j < |w.callers| { assert CallerWell(w, j); }
    }
    EvictorsStay(w.callers, t.callers, i);
    var c := w.callers[i];
    assert Evicts(t.callers, c.key, c.client) by {
      assert t.callers[if watcher then |w.callers| else i] == Evicting(c.key, c.client);
    }
  }

  lemma EvictKeeps(w: World, i: nat)
    requires Invariant(w) && i < |w.callers| && w.callers[i].Evicting?
    ensures Invariant(StepEvict(w, i))
  {
    var t := StepEvict(w, i);
    var c := w.callers[i];
    assert CallerWell(w, i);
    forall client | 0 <= client < |w.dials| ensures UnderWay(t, client) == UnderWay(w, client) {}
    forall j | 0 <= j < |t.callers| ensures CallerWell(t, j) {
      assert CallerWell(w, j);
    }
    forall key | key in t.cache.connections && t.cache.connections[key].client in t.cache.closed
      ensures Evicts(t.callers, key, t.cache.connections[key].client)
    {
      var client := t.cache.connections[key].client;
      assert Evicts(w.callers, key, client);
      var j :| 0 <= j < |w.callers| && w.callers[j] == Evicting(key, client);
      assert t.callers[j] == Evicting(key, client);
    }
  }

  lemma CloseKeeps(w: World)
    requires Invariant(w)
    ensures Invariant(Step(w, CloseAll))
  {
    var t := Step(w, CloseAll);
    forall client | 0 <= client < |w.dials| ensures UnderWay(t, client) == UnderWay(w, client) {}
    forall client | client in Clients(w.cache.connections) ensures client < |w.dials| && !UnderWay(w, client) {
      var key :| key in w.cache.connections && w.cache.connections[key].client == client;
    }
    forall j | 0 <= j < |t.callers| ensures CallerWell(t, j) {
      assert CallerWell(w, j);
    }
  }

  lemma {:induction false} StepKeeps(w: World, e: Event)
    requires Invariant(w)
    ensures Invariant(Step(w, e))
  {
    match e
    case Get(key, now) => GetKeeps(w, key, now);
    case Dial(i, ok) => if i < |w.callers| && w.callers[i].Dialling? { DialKeeps(w, i, ok); }
    case Finish(i, now) => if i < |w.callers| && w.callers[i].Dialled? { FinishKeeps(w, i, now); }
    case Release(i) => if i < |w.callers| && w.callers[i].Using? { ReleaseKeeps(w, i); }
    case Break(i) => if i < |w.callers| && w.callers[i].Using? { BreakKeeps(w, i, false); }
    case Watch(i) => if i < |w.callers| && w.callers[i].Using? { BreakKeeps(w, i, true); }
    case Evict(i) => if i < |w.callers| && w.callers[i].Evicting? { EvictKeeps(w, i); }
    case CloseAll => CloseKeeps(w);
  }

  lemma {:induction false} RunKeeps(events: seq<Event>)
    ensures Invariant(Run(events))
  {
    if events != [] {
      RunKeeps(events[..|events| - 1]);
      StepKeeps(Run(events[..|events| - 1]), events[|events| - 1]);
    }
  }

  // ---------- What the cache promises ----------

  /** A connection that its user gives up is closed, and out of the cache once the user
      has evicted it; nothing else changes.  The same holds when it is a watcher that
      notices, and the user goes on. */
  lemma BrokenIsEvicted(w: World, i: nat)
    requires i < |w.callers| && w.callers[i].Using?
    ensures var (c, t) := (w.callers[i], Step(Step(w, Break(i)), Evict(i)));
            && GivenUp(w, t, c.key, c.client) && t.callers == w.callers[i := Finished]
    ensures var (c, t) := (w.callers[i], Step(Step(w, Watch(i)), Evict(|w.callers|)));
            && GivenUp(w, t, c.key, c.client) && t.callers == w.callers + [Finished]
  {
    assert w.callers[i := Evicting(w.callers[i].key, w.callers[i].client)][i := Finished] == w.callers[i := Finished];
    assert (w.callers + [Evicting(w.callers[i].key, w.callers[i].client)])[|w.callers| := Finished]
           == w.callers + [Finished];
  }

  /** Who entered before the cache was closed gets no connection afterwards, whether its
      dialling succeeded before or after; what it opened is closed and nothing cached. */
  lemma DiallersFailAfterClose(w: World, i: nat, now: int)
    requires i < |w.callers| && w.callers[i].Dialling? && w.callers[i].generation <= w.cache.generation
    ensures FailedToDial(w, Step(Step(Step(w, CloseAll), Dial(i, true)), Finish(i, now)), i)
    ensures FailedToDial(w, Step(Step(Step(w, Dial(i, true)), CloseAll), Finish(i, now)), i)
  {
    var c := w.callers[i];
    var dialled := w.callers[i := Dialled(c.key, |w.dials|, c.generation)];
    assert Step(Step(w, CloseAll), Dial(i, true)).callers == dialled;
    assert Step(Step(w, Dial(i, true)), CloseAll).callers == dialled;
    assert dialled[i := Finished] == w.callers[i := Finished];
  }

  ghost predicate FailedToDial(w: World, t: World, i: nat)
    requires i < |w.callers| && w.callers[i].Dialling?
  {
    && t.callers == w.callers[i := Finished] && t.cache.connections == map[]
    && t.dials == w.dials + [Open(w.callers[i].key, w.callers[i].generation, i)] && |w.dials| in t.cache.closed
  }

  ghost predicate GivenUp(w: World, t: World, key: Key, client: nat) {
    && t.cache.closed == w.cache.closed + {client} && !IsCached(t.cache, key, client)
    && t.dials == w.dials && t.cache.generation == w.cache.generation
    && (IsCached(w.cache, key, client) ==> t.cache.connections == w.cache.connections - {key})
    && (!IsCached(w.cache, key, client) ==> t.cache.connections == w.cache.connections)
  }

  /** A connection that is given back stays as it is. */
  lemma ReleasedStaysOpen(w: World, i: nat)
    requires i < |w.callers| && w.callers[i].Using?
    ensures Step(w, Release(i)) == w.(callers := w.callers[i := Finished])
  {
  }

  /** Used within the last minute. */
  predicate Recent(item: Cached, now: int) {
    now - item.lastUsed <= 60_000_000_000
  }

  /** Entering keeps exactly the connections that were used within the last minute and
      closes the others; the one for the key is handed out if it is among them, and
      counts as used now. */
  lemma EnterKeepsRecent(c: Cache, key: Key, now: int)
    ensures var (t, found) := Lookup(c, key, now);
            && t.generation == c.generation
            && (forall k :: k in t.connections <==> k in c.connections && Recent(c.connections[k], now))
            && (forall k :: k in t.connections ==>
                  t.connections[k]
                  == Cached(c.connections[k].client, if k == key then now else c.connections[k].lastUsed))
            && (forall client :: client in t.closed <==>
                  client in c.closed
                  || exists k ::
                       k in c.connections && c.connections[k].client == client && !Recent(c.connections[k], now))
            && found == if key in c.connections && Recent(c.connections[key], now) then Some(c.connections[key].client)
                        else None
  {
  }

  /** A connection used within the last minute is used again, and nobody dials. */
  lemma RecentIsUsedAgain(w: World, key: Key, now: int)
    requires key in w.cache.connections && Recent(w.cache.connections[key], now)
    ensures var (t, client) := (Step(w, Get(key, now)), w.cache.connections[key].client);
            t.callers == w.callers + [Using(key, client)] && t.dials == w.dials && IsCached(t.cache, key, client)
  {
    EnterKeepsRecent(w.cache, key, now);
  }

  /** Without one a caller dials, in the present generation. */
  lemma OtherwiseDials(w: World, key: Key, now: int)
    requires key in w.cache.connections ==> !Recent(w.cache.connections[key], now)
    ensures Step(w, Get(key, now)).callers == w.callers + [Dialling(key, w.cache.generation)]
  {
    EnterKeepsRecent(w.cache, key, now);
  }

  /** Who has dialled uses what is cached under the key afterwards; the connection it
      opened is closed unless it is that one.  It fails exactly if the cache was closed
      in the meantime. */
  lemma FinishUsesTheCached(w: World, i: nat, now: int)
    requires i < |w.callers| && w.callers[i].Dialled?
    ensures var (c, t) := (w.callers[i], Step(w, Finish(i, now)));
            && |t.callers| == |w.callers|
            && (t.callers[i] == Finished <==> c.generation != w.cache.generation)
            && (t.callers[i] != Finished ==>
                  && t.callers[i].Using? && t.callers[i].key == c.key
                  && IsCached(t.cache, c.key, t.callers[i].client)
                  && (c.key in w.cache.connections ==> t.callers[i].client == w.cache.connections[c.key].client)
                  && (c.key !in w.cache.connections ==> t.cache.connections[c.key] == Cached(c.client, now)))
            && t.cache.closed == w.cache.closed
                 + (if t.callers[i] == Finished || c.key in w.cache.connections then {c.client} else {})
            && (forall k :: k != c.key ==> (k in t.cache.connections <==> k in w.cache.connections))
            && (forall k :: k in w.cache.connections ==>
                  k in t.cache.connections && t.cache.connections[k] == w.cache.connections[k])
  {
  }

  /** Over every interleaving: a connection whose getClient has returned is cached
      under its key or closed, each is cached under one key at most, and what is
      cached began dialling in the present generation. */
  lemma {:induction false} NoConnectionIsLost(events: seq<Event>)
    ensures var w := Run(events);
            && (forall client :: 0 <= client < |w.dials| && !UnderWay(w, client) ==>
                  client in w.cache.closed || IsCached(w.cache, w.dials[client].key, client))
            && (forall key, key', client: nat :: IsCached(w.cache, key, client) && IsCached(w.cache, key', client)
                  ==> key == key')
            && (forall key, client: nat :: IsCached(w.cache, key, client) ==>
                  client < |w.dials| && w.dials[client].generation == w.cache.generation)
  {
    RunKeeps(events);
  }

  /** Nobody is between opening and returning, or between closing and evicting. */
  predicate Quiet(w: World) {
    forall i :: 0 <= i < |w.callers| ==> !w.callers[i].Dialled? && !w.callers[i].Evicting?
  }

  /** Once every call has come to rest, the connections that are open are exactly
      those that are cached. */
  lemma {:induction false} OpenIsCached(events: seq<Event>, client: nat)
    requires Quiet(Run(events)) && client < |Run(events).dials|
    ensures var w := Run(events);
            client !in w.cache.closed <==> IsCached(w.cache, w.dials[client].key, client)
  {
    RunKeeps(events);
  }

  /** Closing leaves nothing open but what is still being dialled, and that will not
      enter the cache either. */
  lemma {:induction false} CloseClosesAll(events: seq<Event>, client: nat)
    requires client < |Run(events + [CloseAll]).dials|
    ensures var w := Run(events + [CloseAll]);
            w.cache.connections == map[] && (client in w.cache.closed || UnderWay(w, client))
  {
    RunKeeps(events + [CloseAll]);
    assert (events + [CloseAll])[..|events|] == events;
  }

  lemma GrowsByStep(w: World, e: Event)
    ensures w.cache.generation <= Step(w, e).cache.generation && w.dials <= Step(w, e).dials
  {
  }

  lemma {:induction false} GenerationsGrow(events: seq<Event>, more: seq<Event>)
    ensures Run(events).cache.generation <= Run(events + more).cache.generation
    ensures Run(events).dials <= Run(events + more).dials
  {
    if more == [] {
      assert events + more == events;
    } else {
      var front := more[..|more| - 1];
      GenerationsGrow(events, front);
      GrowsByStep(Run(events + front), more[|more| - 1]);
      assert (events + more)[..|events + more| - 1] == events + front;
    }
  }

  /** No connection that had been opened when the cache was closed is ever cached
      again, whether or not its getClient had returned. */
  lemma {:induction false} ClosedForGood(events: seq<Event>, more: seq<Event>, key: Key, client: nat)
    requires client < |Run(events + [CloseAll]).dials|
    ensures !IsCached(Run((events + [CloseAll]) + more).cache, key, client)
  {
    RunKeeps(events + [CloseAll]);
    RunKeeps((events + [CloseAll]) + more);
    GenerationsGrow(events + [CloseAll], more);
    DialledBefore(events, client);
  }

  lemma {:induction false} DialledBefore(events: seq<Event>, client: nat)
    requires client < |Run(events + [CloseAll]).dials|
    ensures Run(events + [CloseAll]).dials[client].generation < Run(events + [CloseAll]).cache.generation
  {
    assert (events + [CloseAll])[..|events|] == events;
    PastGenerations(events);
  }

  ghost predicate Past(w: World) {
    forall client :: 0 <= client < |w.dials| ==> w.dials[client].generation <= w.cache.generation
  }

  lemma PastStep(w: World, e: Event)
    requires Invariant(w) && Past(w)
    ensures Past(Step(w, e))
  {
    if e.Dial? && e.caller < |w.callers| && w.callers[e.caller].Dialling? {
      assert CallerWell(w, e.caller);
    }
  }

  lemma {:induction false} PastGenerations(events: seq<Event>)
    ensures Past(Run(events))
  {
    if events != [] {
      PastGenerations(events[..|events| - 1]);
      RunKeeps(events[..|events| - 1]);
      PastStep(Run(events[..|events| - 1]), events[|events| - 1]);
    }
  }

  // ---------- The cache goes through the machine's states ----------

  /** One caller's step, on the real cache. */
  method Perform(client: Client, ghost w: World, callers: seq<Caller>, dialled: nat, e: Event)
    returns (more: seq<Caller>, count: nat)
    requires w.cache == client.View() && callers == w.callers && dialled == |w.dials|
    modifies client
    ensures var t := Step(w, e); t.cache == client.View() && more == t.callers && count == |t.dials|
  {
    more, count := callers, dialled;
    match e
    case Get(key, now) =>
      var found, current := client.Enter(key, now);
      more := callers + [if found.Some? then Using(key, found.value) else Dialling(key, current)];
    case Dial(i, ok) =>
      if i < |callers| && callers[i].Dialling? {
        more := callers[i := if ok then Dialled(callers[i].key, dialled, callers[i].generation) else Caller.Finished];
        count := if ok then dialled + 1 else dialled;
      }
    case Finish(i, now) =>
      if i < |callers| && callers[i].Dialled? {
        var r := client.Finish(callers[i].key, callers[i].client, callers[i].generation, now);
        more := callers[i := if r.Some? then Using(callers[i].key, r.value) else Caller.Finished];
      }
    case Release(i) =>
      if i < |callers| && callers[i].Using? {
        more := callers[i := Caller.Finished];
      }
    case Break(i) =>
      if i < |callers| && callers[i].Using? {
        client.CloseConnection(callers[i].client);
        more := callers[i := Evicting(callers[i].key, callers[i].client)];
      }
    case Watch(i) =>
      if i < |callers| && callers[i].Using? {
        client.CloseConnection(callers[i].client);
        more := callers + [Evicting(callers[i].key, callers[i].client)];
      }
    case Evict(i) =>
      if i < |callers| && callers[i].Evicting? {
        client.Evict(callers[i].key, callers[i].client);
        more := callers[i := Caller.Finished];
      }
    case CloseAll => client.Close();
  }

  /** Any interleaving: the cache's fields are those of the machine, so that every
      connection counted in `dialled` whose getClient returned is cached or closed. */
  method Drive(events: seq<Event>) returns (client: Client, callers: seq<Caller>, dialled: nat)
    ensures fresh(client) && client.View() == Run(events).cache
    ensures callers == Run(events).callers && dialled == |Run(events).dials|
    ensures forall c :: 0 <= c < dialled && (forall x :: x in callers ==> !(x.Dialled? && x.client == c)) ==>
              c in client.closed || exists key :: key in client.connections && client.connections[key].client == c
  {
    client := new Client();
    callers, dialled := [], 0;
    var n := 0;
    while n < |events|
      invariant n <= |events| && fresh(client) && client.View() == Run(events[..n]).cache
      invariant callers == Run(events[..n]).callers && dialled == |Run(events[..n]).dials|
    {
      assert events[..n + 1][..n] == events[..n];
      callers, dialled := Perform(client, Run(events[..n]), callers, dialled, events[n]);
      n := n + 1;
    }
    assert events[..n] == events;
    Returned(events);
  }

  /** No connection is lost, said of the callers. */
  lemma {:induction false} Returned(events: seq<Event>)
    ensures var w := Run(events);
            forall c :: 0 <= c < |w.dials| && (forall x :: x in w.callers ==> !(x.Dialled? && x.client == c)) ==>
              c in w.cache.closed || exists key :: key in w.cache.connections && w.cache.connections[key].client == c
  {
    var w := Run(events);
    NoConnectionIsLost(events);
    forall c | 0 <= c < |w.dials| && (forall x :: x in w.callers ==> !(x.Dialled? && x.client == c))
      ensures c in w.cache.closed || exists key :: key in w.cache.connections && w.cache.connections[key].client == c
    {
      assert !UnderWay(w, c);
      assert c in w.cache.closed || IsCached(w.cache, w.dials[c].key, c);
    }
  }
}
