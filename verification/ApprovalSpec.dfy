/** The approval store as a state machine: each event is one critical section of
    the store's mutex, so a sequence of events is an interleaving of callers. */
module ApprovalSpec {
  import opened Basics

  const TTL: int := 300_000_000_000
  const MAX_ENTRIES: nat := 256
  const MAX_COMMAND_BYTES: nat := 131072
  const MAX_TIMEOUT: int := 1_800_000_000_000
  const MAX_OUTPUT_BYTES: int := 4194304
  const CODE_SIZE: nat := 4

  datatype Limits = Limits(timeout: int, maxOutputBytes: int)

  /** What a caller asks approval for. */
  datatype Request = Request(aliases: seq<string>, command: Bytes, categories: set<string>, limits: Limits)

  datatype Decision = Undecided | Approved | Denied

  /** A record of the store.  `origin` says which creation made it; consuming one
      leaves a tombstone that has lost everything else but its expiry. */
  datatype Item = Item(origin: nat, code: string, request: Request, createdAt: int, expiresAt: int,
                       used: bool, decision: Decision)

  /** A success: which approval was used, and what the caller was handed. */
  datatype Grant = Grant(origin: nat, request: Request)

  /** `created` and `granted` are history; the code reads only `items`. */
  datatype System = System(items: map<string, Item>, created: seq<Request>, granted: seq<Grant>)

  const EMPTY := System(map[], [], [])

  datatype Random = NoId | NoCode(id: string) | Drawn(id: string, code: string)

  datatype Error = InvalidInput | Capacity | RandomFailed | NotFound | WrongCode | Used | Expired

  datatype Outcome = Ok | Granted(grant: Grant) | Refused | Err(error: Error)

  function ErrorOf(o: Outcome): Option<Error> {
    if o.Err? then Some(o.error) else None
  }

  datatype Event =
    | CreateBatch(request: Request, cleanupAt: int, random: Random, createdAt: int)
    | List(now: int)
    | Get(id: string)
    | Decide(id: string, allow: bool, now: int)
    | WaitRegister(id: string)
    | WaitTimeout(id: string)
    | WaitWake(id: string)
    | Consume(id: string, code: string, now: int)
    | Revoke(id: string)

  // ---------- Pieces ----------

  /** Without empty and repeated aliases, in the order of first appearance. */
  function NormalizeAliases(aliases: seq<string>): (r: seq<string>)
    ensures forall i, j :: 0 <= i < j < |r| ==> r[i] != r[j]
    ensures forall a :: a in r <==> a in aliases && a != ""
  {
    if aliases == [] then []
    else
      var front, last := aliases[..|aliases| - 1], aliases[|aliases| - 1];
      assert aliases == front + [last];
      var r := NormalizeAliases(front);
      if last == "" || last in r then r else r + [last]
  }

  /** Wherever one of the later ones stands, each earlier one stands before it. */
  ghost predicate InOrderOfAppearance(r: seq<string>, aliases: seq<string>) {
    forall i, j, q :: 0 <= i < j < |r| && 0 <= q < |aliases| && aliases[q] == r[j] ==> r[i] in aliases[..q]
  }

  /** What normalizing leaves, said without it. */
  ghost predicate Lists(r: seq<string>, aliases: seq<string>) {
    && (forall i, j :: 0 <= i < j < |r| ==> r[i] != r[j])
    && (forall a :: a in r <==> a in aliases && a != "")
    && InOrderOfAppearance(r, aliases)
  }

  lemma {:induction false} NormalizedLists(aliases: seq<string>)
    ensures Lists(NormalizeAliases(aliases), aliases)
  {
    if aliases != [] {
      var (front, last, r) := (aliases[..|aliases| - 1], aliases[|aliases| - 1], NormalizeAliases(aliases));
      NormalizedLists(front);
      forall i, j, q | 0 <= i < j < |r| && 0 <= q < |aliases| && aliases[q] == r[j] ensures r[i] in aliases[..q] {
        if q < |front| {
          assert aliases[..q] == front[..q] && front[q] == r[j];
        } else {
          assert aliases[..q] == front;
        }
      }
    }
  }

  /** There is only one such list. */
  lemma {:induction false} ListsUnique(r: seq<string>, aliases: seq<string>)
    requires Lists(r, aliases)
    ensures r == NormalizeAliases(aliases)
  {
    if r != [] { assert r[0] in r; }
    if aliases != [] {
      var (front, last) := (aliases[..|aliases| - 1], aliases[|aliases| - 1]);
      assert aliases == front + [last];
      if last == "" || last in front {
        assert NormalizeAliases(aliases) == NormalizeAliases(front);
        ListsBefore(r, front, last);
        ListsUnique(r, front);
      } else {
        NewIsLast(r, front, last);
        assert r == r[..|r| - 1] + [last];
        ListsLast(r[..|r| - 1], front, last);
        ListsUnique(r[..|r| - 1], front);
      }
    }
  }

  lemma ListsBefore(r: seq<string>, front: seq<string>, last: string)
    requires Lists(r, front + [last]) && (last == "" || last in front)
    ensures Lists(r, front)
  {
    forall i, j, q | 0 <= i < j < |r| && 0 <= q < |front| && front[q] == r[j] ensures r[i] in front[..q] {
      assert (front + [last])[q] == r[j] && (front + [last])[..q] == front[..q];
    }
  }

  lemma EarlierInFront(r: seq<string>, front: seq<string>, last: string, k: nat, j: nat)
    requires InOrderOfAppearance(r, front + [last]) && k < j < |r| && r[j] in front
    ensures r[k] in front
  {
    var q :| 0 <= q < |front| && front[q] == r[j];
    assert (front + [last])[q] == r[j] && (front + [last])[..q] == front[..q];
  }

  /** A new alias comes last. */
  lemma NewIsLast(r: seq<string>, front: seq<string>, last: string)
    requires Lists(r, front + [last]) && last != "" && last !in front
    ensures r != [] && r[|r| - 1] == last
  {
    assert last in front + [last];
    var k :| 0 <= k < |r| && r[k] == last;
    if k < |r| - 1 {
      assert r[|r| - 1] in r;
      EarlierInFront(r, front, last, k, |r| - 1);
      assert false;
    }
  }

  lemma ListsLast(r: seq<string>, front: seq<string>, last: string)
    requires Lists(r + [last], front + [last]) && last != "" && last !in front
    ensures Lists(r, front)
  {
    var (all, aliases) := (r + [last], front + [last]);
    assert last !in r by { assert all[|r|] == last && forall i :: 0 <= i < |r| ==> all[i] == r[i]; }
    forall a ensures a in r <==> a in front && a != "" {
      assert a in all <==> a in aliases && a != "";
    }
    forall i, j, q | 0 <= i < j < |r| && 0 <= q < |front| && front[q] == r[j] ensures r[i] in front[..q] {
      assert aliases[q] == all[j] && aliases[..q] == front[..q] && all[i] == r[i];
    }
    forall i, j | 0 <= i < j < |r| ensures r[i] != r[j] { assert all[i] == r[i] && all[j] == r[j]; }
  }

  function Normalized(r: Request): Request {
    r.(aliases := NormalizeAliases(r.aliases))
  }

  predicate Acceptable(r: Request) {
    && NormalizeAliases(r.aliases) != []
    && 0 < |r.command| <= MAX_COMMAND_BYTES
    && 0 < r.limits.timeout <= MAX_TIMEOUT
    && 0 < r.limits.maxOutputBytes <= MAX_OUTPUT_BYTES
  }

  /** Expiry is reached at the very instant of `expiresAt`. */
  predicate Live(item: Item, now: int) {
    now < item.expiresAt
  }

  function Cleaned(items: map<string, Item>, now: int, except: string): map<string, Item> {
    CleanedOutside(items, now, except, {})
  }

  /** The cleanup when the records under `pending` are still to be looked at. */
  function CleanedOutside(items: map<string, Item>, now: int, except: string, pending: set<string>): map<string, Item> {
    map id | id in items && (id in pending || id == except || Live(items[id], now)) :: items[id]
  }

  /** Looking at one more record of the cleanup. */
  lemma CleanedStep(items: map<string, Item>, now: int, except: string, pending: set<string>, id: string)
    requires id in pending && id in items
    ensures var t := CleanedOutside(items, now, except, pending);
            var r := CleanedOutside(items, now, except, pending - {id});
            && id in t && t[id] == items[id]
            && r == (if id == except || Live(items[id], now) then t else t - {id})
  {
  }

  /** The supplied code, cut or padded with zeros to the size of a code. */
  function Supplied(code: string): (r: string)
    ensures |r| == CODE_SIZE
  {
    if |code| >= CODE_SIZE then code[..CODE_SIZE] else code + seq(CODE_SIZE - |code|, _ => '\0')
  }

  predicate CodeMatches(stored: string, code: string) {
    stored == Supplied(code) && |code| == |stored|
  }

  lemma CodeMatchesIsEquality(stored: string, code: string)
    requires |stored| == CODE_SIZE
    ensures CodeMatches(stored, code) <==> code == stored
  {
  }

  function Tombstone(item: Item): Item {
    Item(item.origin, "", Request([], [], {}, Limits(0, 0)), 0, item.expiresAt, true, Undecided)
  }

  // ---------- Steps ----------

  function Create(s: System, e: Event): (System, Outcome)
    requires e.CreateBatch?
  {
    if !Acceptable(e.request) then (s, Err(InvalidInput))
    else Admitted(s.(items := Cleaned(s.items, e.cleanupAt, "")), Normalized(e.request), e.random, e.createdAt)
  }

  /** A normalized request meets the cleaned store. */
  function Admitted(s: System, request: Request, random: Random, createdAt: int): (System, Outcome) {
    if |s.items| >= MAX_ENTRIES then (s, Err(Capacity))
    else if random.NoId? || random.id in s.items || random.NoCode? then (s, Err(RandomFailed))
    else
      (WithRecord(s, random.id, random.code, request, createdAt), Ok)
  }

  function WithRecord(s: System, id: string, code: string, request: Request, createdAt: int): System {
    var item := Item(|s.created|, code, request, createdAt, createdAt + TTL, false, Undecided);
    System(s.items[id := item], s.created + [request], s.granted)
  }

  function Decided(s: System, id: string, allow: bool, now: int): (System, Outcome) {
    if id == "" then (s, Err(InvalidInput))
    else if id !in s.items then (s, Err(NotFound))
    else
      var item := s.items[id];
      if !Live(item, now) then (s.(items := s.items - {id}), Err(Expired))
      else if item.decision != Undecided || item.used then (s, Err(Used))
      else (s.(items := s.items[id := item.(decision := if allow then Approved else Denied)]), Ok)
  }

  /** The waiter's side after the decision was announced. */
  function Woken(s: System, id: string): (System, Outcome) {
    if id !in s.items then (s, Err(NotFound))
    else
      var item := s.items[id];
      match item.decision
      case Denied => (s.(items := s.items - {id}), Refused)
      case Undecided => (s, Err(NotFound))
      case Approved =>
        var grant := Grant(item.origin, item.request);
        (System(s.items - {id}, s.created, s.granted + [grant]), Granted(grant))
  }

  function Consumed(s: System, id: string, code: string, now: int): (System, Outcome) {
    if id == "" then (s, Err(InvalidInput))
    else if id in s.items && !Live(s.items[id], now) then (s.(items := s.items - {id}), Err(Expired))
    else Claimed(s.(items := Cleaned(s.items, now, id)), id, code)
  }

  /** Using up a record that has not expired. */
  function Claimed(s: System, id: string, code: string): (System, Outcome) {
    if id !in s.items then (s, Err(NotFound))
    else
      var item := s.items[id];
      if item.used then (s, Err(Used))
      else if !CodeMatches(item.code, code) then (s, Err(WrongCode))
      else
        var grant := Grant(item.origin, item.request);
        (System(s.items[id := Tombstone(item)], s.created, s.granted + [grant]), Granted(grant))
  }

  function Revoked(s: System, id: string): (System, Outcome) {
    if id == "" then (s, Err(InvalidInput))
    else if id !in s.items then (s, Ok)
    else if s.items[id].used then (s, Err(Used))
    else (s.(items := s.items - {id}), Ok)
  }

  function Step(s: System, e: Event): (System, Outcome) {
    match e
    case CreateBatch(_, _, _, _) => Create(s, e)
    case List(now) => (s.(items := Cleaned(s.items, now, "")), Ok)
    case Get(id) => (s, if id == "" then Err(InvalidInput) else if id in s.items then Ok else Err(NotFound))
    case Decide(id, allow, now) => Decided(s, id, allow, now)
    case WaitRegister(id) => (s, if id in s.items then Ok else Err(NotFound))
    case WaitTimeout(id) => (s.(items := s.items - {id}), Err(Expired))
    case WaitWake(id) => Woken(s, id)
    case Consume(id, code, now) => Consumed(s, id, code, now)
    case Revoke(id) => Revoked(s, id)
  }

  function Run(s: System, events: seq<Event>): System {
    if events == [] then s
    else Step(Run(s, events[..|events| - 1]), events[|events| - 1]).0
  }

  // ---------- The invariant ----------

  ghost predicate Authentic(s: System) {
    forall id :: id in s.items ==>
      && s.items[id].origin < |s.created|
      && (!s.items[id].used ==> s.items[id].request == s.created[s.items[id].origin])
      && (s.items[id].used ==> s.items[id].decision == Undecided)
  }

  ghost predicate Separate(s: System) {
    forall id, id' :: id in s.items && id' in s.items && id != id' ==> s.items[id].origin != s.items[id'].origin
  }

  ghost predicate GrantsBound(s: System) {
    forall i :: 0 <= i < |s.granted| ==>
      s.granted[i].origin < |s.created| && s.granted[i].request == s.created[s.granted[i].origin]
  }

  ghost predicate GrantsOnce(s: System) {
    && (forall i, j :: 0 <= i < j < |s.granted| ==> s.granted[i].origin != s.granted[j].origin)
    && (forall i, id :: 0 <= i < |s.granted| && id in s.items && !s.items[id].used ==>
          s.granted[i].origin != s.items[id].origin)
  }

  ghost predicate Invariant(s: System) {
    Authentic(s) && Separate(s) && GrantsBound(s) && GrantsOnce(s) && |s.items| <= MAX_ENTRIES
  }

  lemma SubmapSize(a: map<string, Item>, b: map<string, Item>)
    requires a.Keys <= b.Keys
    ensures |a| <= |b|
  {
    assert b.Keys == a.Keys + (b.Keys - a.Keys);
    assert |b.Keys| == |a.Keys| + |b.Keys - a.Keys|;
  }

  /** Taking records away keeps the invariant. */
  lemma InvariantSubmap(s: System, items: map<string, Item>)
    requires Invariant(s) && items.Keys <= s.items.Keys && forall id :: id in items ==> items[id] == s.items[id]
    ensures Invariant(s.(items := items))
  {
    SubmapSize(items, s.items);
  }

  lemma GrantAppended(s: System, id: string, items: map<string, Item>)
    requires Invariant(s) && id in s.items && !s.items[id].used
    requires forall x :: x in items ==> x in s.items && (x == id ==> items[x] == Tombstone(s.items[id]))
    requires forall x :: x in items && x != id ==> items[x] == s.items[x]
    ensures var t := System(items, s.created, s.granted + [Grant(s.items[id].origin, s.items[id].request)]);
            Authentic(t) && Separate(t) && GrantsBound(t)
  {
  }

  /** Handing out an unused record while removing it or leaving its tombstone. */
  lemma InvariantGranted(s: System, id: string, items: map<string, Item>)
    requires Invariant(s) && id in s.items && !s.items[id].used
    requires forall x :: x in items ==> x in s.items && (x == id ==> items[x] == Tombstone(s.items[id]))
    requires forall x :: x in items && x != id ==> items[x] == s.items[x]
    ensures Invariant(System(items, s.created, s.granted + [Grant(s.items[id].origin, s.items[id].request)]))
  {
    GrantAppended(s, id, items);
    SubmapSize(items, s.items);
    var t := System(items, s.created, s.granted + [Grant(s.items[id].origin, s.items[id].request)]);
    forall i, j | 0 <= i < j < |t.granted| ensures t.granted[i].origin != t.granted[j].origin {
      if j == |s.granted| { assert s.granted[i].origin != s.items[id].origin; }
    }
    forall i, x | 0 <= i < |t.granted| && x in t.items && !t.items[x].used
      ensures t.granted[i].origin != t.items[x].origin
    {
      assert x != id;
    }
  }

  lemma CreatedSeparate(s: System, id: string, item: Item)
    requires Invariant(s) && id !in s.items && item.origin == |s.created| && !item.used
    ensures Authentic(System(s.items[id := item], s.created + [item.request], s.granted))
    ensures Separate(System(s.items[id := item], s.created + [item.request], s.granted))
  {
  }

  lemma CreatedGrants(s: System, id: string, item: Item)
    requires Invariant(s) && id !in s.items && item.origin == |s.created| && !item.used
    ensures GrantsBound(System(s.items[id := item], s.created + [item.request], s.granted))
    ensures GrantsOnce(System(s.items[id := item], s.created + [item.request], s.granted))
  {
  }

  lemma InvariantCreated(s: System, id: string, item: Item)
    requires Invariant(s) && id !in s.items && |s.items| < MAX_ENTRIES
    requires item.origin == |s.created| && !item.used
    ensures Invariant(System(s.items[id := item], s.created + [item.request], s.granted))
  {
    CreatedSeparate(s, id, item);
    CreatedGrants(s, id, item);
    assert s.items[id := item].Keys == s.items.Keys + {id};
  }

  lemma InvariantDecided(s: System, id: string, decision: Decision)
    requires Invariant(s) && id in s.items && !s.items[id].used
    ensures Invariant(s.(items := s.items[id := s.items[id].(decision := decision)]))
  {
    var t := s.(items := s.items[id := s.items[id].(decision := decision)]);
    assert t.items.Keys == s.items.Keys;
    forall x | x in t.items
      ensures t.items[x].origin == s.items[x].origin && t.items[x].used == s.items[x].used
    {
    }
  }

  lemma CreateKeepsInvariant(s: System, e: Event)
    requires Invariant(s) && e.CreateBatch?
    ensures Invariant(Create(s, e).0)
  {
    var (t, o) := Create(s, e);
    if t != s {
      var c := s.(items := Cleaned(s.items, e.cleanupAt, ""));
      InvariantSubmap(s, c.items);
      if o == Ok {
        InvariantCreated(c, e.random.id, t.items[e.random.id]);
      }
    }
  }

  lemma DecideKeepsInvariant(s: System, id: string, allow: bool, now: int)
    requires Invariant(s)
    ensures Invariant(Decided(s, id, allow, now).0)
  {
    var t := Decided(s, id, allow, now).0;
    if t == s {
    } else if !Live(s.items[id], now) {
      InvariantSubmap(s, s.items - {id});
    } else {
      InvariantDecided(s, id, if allow then Approved else Denied);
    }
  }

  lemma WakeKeepsInvariant(s: System, id: string)
    requires Invariant(s)
    ensures Invariant(Woken(s, id).0)
  {
    InvariantSubmap(s, s.items - {id});
    if id in s.items && s.items[id].decision == Approved {
      InvariantGranted(s, id, s.items - {id});
    }
  }

  lemma ClaimKeepsInvariant(s: System, id: string, code: string)
    requires Invariant(s)
    ensures Invariant(Claimed(s, id, code).0)
  {
    var (t, o) := Claimed(s, id, code);
    if o.Granted? {
      InvariantGranted(s, id, t.items);
    }
  }

  lemma ConsumeKeepsInvariant(s: System, id: string, code: string, now: int)
    requires Invariant(s)
    ensures Invariant(Consumed(s, id, code, now).0)
  {
    if id == "" {
    } else if id in s.items && !Live(s.items[id], now) {
      InvariantSubmap(s, s.items - {id});
    } else {
      InvariantSubmap(s, Cleaned(s.items, now, id));
      ClaimKeepsInvariant(s.(items := Cleaned(s.items, now, id)), id, code);
    }
  }

  lemma {:induction false} StepKeepsInvariant(s: System, e: Event)
    requires Invariant(s)
    ensures Invariant(Step(s, e).0)
  {
    match e
    case CreateBatch(_, _, _, _) => CreateKeepsInvariant(s, e);
    case Decide(id, allow, now) => DecideKeepsInvariant(s, id, allow, now);
    case WaitWake(id) => WakeKeepsInvariant(s, id);
    case Consume(id, code, now) => ConsumeKeepsInvariant(s, id, code, now);
    case _ => RemovalKeepsInvariant(s, e);
  }

  lemma RemovalKeepsInvariant(s: System, e: Event)
    requires Invariant(s) && (e.List? || e.Get? || e.WaitRegister? || e.WaitTimeout? || e.Revoke?)
    ensures Invariant(Step(s, e).0)
  {
    if e.List? {
      InvariantSubmap(s, Cleaned(s.items, e.now, ""));
    } else if e.WaitTimeout? || e.Revoke? {
      InvariantSubmap(s, s.items - {e.id});
    }
  }

  lemma {:induction false} RunKeepsInvariant(s: System, events: seq<Event>)
    requires Invariant(s)
    ensures Invariant(Run(s, events))
  {
    if events != [] {
      RunKeepsInvariant(s, events[..|events| - 1]);
      StepKeepsInvariant(Run(s, events[..|events| - 1]), events[|events| - 1]);
    }
  }

  // ---------- What the store promises ----------

  /** Over every interleaving: no approval is handed out twice, what is handed out
      is what was created, and the store never holds more than 256 records. */
  lemma {:induction false} SingleUseAndBinding(events: seq<Event>)
    ensures var s := Run(EMPTY, events);
            && (forall i, j :: 0 <= i < j < |s.granted| ==> s.granted[i].origin != s.granted[j].origin)
            && (forall i :: 0 <= i < |s.granted| ==>
                  s.granted[i].origin < |s.created| && s.granted[i].request == s.created[s.granted[i].origin])
            && |s.items| <= MAX_ENTRIES
  {
    assert Invariant(EMPTY);
    RunKeepsInvariant(EMPTY, events);
  }

  /** History only grows, and only a success adds a grant, of the record it found
      unused under the id. */
  lemma StepGrants(s: System, e: Event)
    ensures var (t, o) := Step(s, e);
            && s.created <= t.created
            && t.granted == (if o.Granted? then s.granted + [o.grant] else s.granted)
            && (o.Granted? ==> (e.Consume? || e.WaitWake?) && e.id in s.items && o.grant.origin == s.items[e.id].origin
                               && o.grant.request == s.items[e.id].request)
  {
  }

  /** Exactly when consuming succeeds: never at or after expiry, never twice, only
      with the right code; the decision is not asked. */
  lemma ConsumeSucceedsIff(s: System, id: string, code: string, now: int)
    ensures Step(s, Consume(id, code, now)).1.Granted? <==>
              && id != "" && id in s.items && now < s.items[id].expiresAt && !s.items[id].used
              && code == s.items[id].code && |code| == CODE_SIZE
  {
  }

  /** Exactly when a waiter is told to go ahead. */
  lemma WaitSucceedsIff(s: System, id: string)
    ensures Step(s, WaitWake(id)).1.Granted? <==> id in s.items && s.items[id].decision == Approved
  {
  }

  /** What somebody decides reaches whoever waits, and only once. */
  lemma DecisionReachesWaiter(s: System, id: string, allow: bool, now: int)
    requires id != "" && id in s.items && now < s.items[id].expiresAt
    requires !s.items[id].used && s.items[id].decision == Undecided
    ensures var (t, o) := Step(s, Decide(id, allow, now));
            var (u, answer) := Step(t, WaitWake(id));
            && o == Ok && answer == (if allow then Granted(Grant(s.items[id].origin, s.items[id].request)) else Refused)
            && id !in u.items && Step(u, WaitWake(id)).1 == Err(NotFound)
  {
  }

  /** The first decision stands. */
  lemma DecidedOnce(s: System, id: string, allow: bool, again: bool, now: int, later: int)
    requires id != "" && id in s.items && now <= later < s.items[id].expiresAt
    requires !s.items[id].used && s.items[id].decision == Undecided
    ensures var t := Step(s, Decide(id, allow, now)).0;
            Step(t, Decide(id, again, later)) == (t, Err(Used))
  {
  }

  /** An approval that was created can be used with its code from then on for five
      minutes, whatever other records there are, and at the end of these it has expired. */
  lemma CreatedIsUsable(s: System, request: Request, cleanupAt: int, id: string, code: string, createdAt: int, now: int)
    requires id != "" && |code| == 4 && now >= createdAt
    requires Step(s, CreateBatch(request, cleanupAt, Drawn(id, code), createdAt)).1 == Ok
    ensures var t := Step(s, CreateBatch(request, cleanupAt, Drawn(id, code), createdAt)).0;
            && t.created == s.created + [request.(aliases := NormalizeAliases(request.aliases))]
            && Step(t, Consume(id, code, now)).1
               == if now < createdAt + 300_000_000_000 then Granted(Grant(|s.created|, t.created[|s.created|]))
                  else Err(Expired)
  {
    CodeMatchesIsEquality(code, code);
  }

  /** When a creation is accepted: an acceptable request, room among the records that
      have not expired, and an identifier that is free among them. */
  lemma CreateSucceedsIff(s: System, request: Request, cleanupAt: int, random: Random, createdAt: int)
    ensures var live := set id | id in s.items && (cleanupAt < s.items[id].expiresAt || id == "");
            Step(s, CreateBatch(request, cleanupAt, random, createdAt)).1 == Ok <==>
              && (exists a :: a in request.aliases && a != "") && 1 <= |request.command| <= 131072
              && 0 < request.limits.timeout <= 1800 * 1_000_000_000 && 0 < request.limits.maxOutputBytes <= 4194304
              && |live| < 256 && random.Drawn? && random.id !in live
  {
    var live := set id | id in s.items && (cleanupAt < s.items[id].expiresAt || id == "");
    var cleaned := Cleaned(s.items, cleanupAt, "");
    assert cleaned.Keys == live;
    var r := NormalizeAliases(request.aliases);
    if r != [] { assert r[0] in r; }
    if a :| a in request.aliases && a != "" { assert a in r; }
  }

  /** A wrong code costs nothing: the right one still works. */
  lemma WrongCodeLeavesUsable(s: System, id: string, code: string, wrong: string, now: int, later: int)
    requires id != "" && id in s.items && now <= later < s.items[id].expiresAt && !s.items[id].used
    requires s.items[id].code == code && |code| == CODE_SIZE && wrong != code
    ensures var (t, o) := Step(s, Consume(id, wrong, now));
            && o == Err(WrongCode)
            && Step(t, Consume(id, code, later)).1 == Granted(Grant(s.items[id].origin, s.items[id].request))
  {
    CodeMatchesIsEquality(code, wrong);
    CodeMatchesIsEquality(code, code);
  }

  /** What was consumed answers every further use as used, until it expires. */
  lemma ConsumedIsUsed(s: System, id: string, code: string, now: int, later: int, again: string, allow: bool)
    requires Step(s, Consume(id, code, now)).1.Granted?
    ensures var t := Step(s, Consume(id, code, now)).0;
            && id in t.items
            && Step(t, Consume(id, again, later)).1
               == (if later < s.items[id].expiresAt then Err(Used) else Err(Expired))
            && Step(t, Decide(id, allow, later)).1
               == (if later < s.items[id].expiresAt then Err(Used) else Err(Expired))
            && Step(t, Revoke(id)).1 == Err(Used)
            && Step(t, WaitWake(id)).1 == Err(NotFound)
  {
  }

  /** What was revoked is unknown to everybody. */
  lemma RevokedIsUnknown(s: System, id: string, code: string, now: int, allow: bool)
    requires id != "" && Step(s, Revoke(id)).1 == Ok
    ensures var t := Step(s, Revoke(id)).0;
            && Step(t, Consume(id, code, now)).1 == Err(NotFound) && Step(t, Decide(id, allow, now)).1 == Err(NotFound)
            && Step(t, Get(id)).1 == Err(NotFound) && Step(t, WaitRegister(id)).1 == Err(NotFound)
            && Step(t, WaitWake(id)).1 == Err(NotFound) && Step(t, Revoke(id)) == (t, Ok)
  {
    assert s.items - {id} == s.items - {id} - {id};
    if id !in s.items { assert s.items - {id} == s.items; }
  }

  /** Whoever uses or decides about an approval at its expiry or later is told so, and the
      record is gone for everybody; so it is when a waiter's time runs out. */
  lemma ExpiredIsUnknown(s: System, id: string, code: string, allow: bool, now: int)
    requires id != "" && id in s.items && now >= s.items[id].expiresAt
    ensures Step(s, Consume(id, code, now)) == (s.(items := s.items - {id}), Err(Expired))
    ensures Step(s, Decide(id, allow, now)) == (s.(items := s.items - {id}), Err(Expired))
    ensures Step(s, WaitTimeout(id)) == (s.(items := s.items - {id}), Err(Expired))
    ensures Step(s.(items := s.items - {id}), Get(id)).1 == Err(NotFound)
  {
  }

  /** Looking an approval up changes nothing, and finds it exactly if it is there. */
  lemma LookingChangesNothing(s: System, id: string)
    ensures Step(s, Get(id)).0 == s && (Step(s, Get(id)).1 == Ok <==> id != "" && id in s.items)
    ensures Step(s, WaitRegister(id)).0 == s && (Step(s, WaitRegister(id)).1 == Ok <==> id in s.items)
  {
  }

  /** Of the records that are not spared exactly those are left that have not expired. */
  ghost predicate OthersAreLive(s: System, t: System, spared: set<string>, now: int) {
    && (forall x :: x !in spared ==> (x in t.items <==> x in s.items && now < s.items[x].expiresAt))
    && (forall x :: x !in spared && x in t.items ==> t.items[x] == s.items[x])
  }

  /** Creating and consuming drop exactly the other records that have expired. */
  lemma OthersExpire(s: System, id: string, code: string, now: int, request: Request, random: Random, createdAt: int)
    ensures var (t, o) := Step(s, Consume(id, code, now));
            id != "" && o != Err(Expired) ==> OthersAreLive(s, t, {id}, now)
    ensures var (t, o) := Step(s, CreateBatch(request, now, random, createdAt));
            o == Ok ==> random.Drawn? && OthersAreLive(s, t, {random.id, ""}, now)
  {
  }

  /** Listing drops exactly what has expired. */
  lemma ListedAreLive(s: System, now: int)
    ensures var t := Step(s, List(now)).0;
            && (forall id :: id in t.items <==> id in s.items && (now < s.items[id].expiresAt || id == ""))
            && (forall id :: id in t.items ==> t.items[id] == s.items[id])
  {
  }

  // ---------- Decisions over whole runs ----------

  /** Somebody decides about the approval while it can be decided. */
  ghost predicate Settles(s: System, e: Event, origin: nat, allow: bool) {
    && e.Decide? && e.allow == allow && e.id != "" && e.id in s.items && s.items[e.id].origin == origin
    && e.now < s.items[e.id].expiresAt && !s.items[e.id].used && s.items[e.id].decision == Undecided
  }

  /** Among the events somebody so decided. */
  ghost predicate WasSettled(events: seq<Event>, origin: nat, allow: bool) {
    exists k :: 0 <= k < |events| && Settles(Run(EMPTY, events[..k]), events[k], origin, allow)
  }

  /** The approvals that were allowed and those that were refused are apart, and each
      unused record says which it is. */
  ghost predicate Noted(s: System, allowed: iset<nat>, refused: iset<nat>) {
    && allowed !! refused
    && (forall o :: o in allowed || o in refused ==> o < |s.created|)
    && forall id :: id in s.items && !s.items[id].used ==>
         && (s.items[id].decision == Approved <==> s.items[id].origin in allowed)
         && (s.items[id].decision == Denied <==> s.items[id].origin in refused)
  }

  ghost function Verdict(s: System, e: Event, allow: bool): iset<nat> {
    iset o: nat | Settles(s, e, o, allow)
  }

  lemma NotedDecided(s: System, e: Event, allowed: iset<nat>, refused: iset<nat>)
    requires Invariant(s) && Noted(s, allowed, refused) && e.Decide?
    ensures Noted(Step(s, e).0, allowed + Verdict(s, e, true), refused + Verdict(s, e, false))
  {
    var t := Step(s, e).0;
    assert t.created == s.created;
    forall id | id in t.items && !t.items[id].used
      ensures t.items[id].decision == Approved <==> t.items[id].origin in allowed + Verdict(s, e, true)
      ensures t.items[id].decision == Denied <==> t.items[id].origin in refused + Verdict(s, e, false)
    {
      assert id in s.items && s.items[id].origin == t.items[id].origin && !s.items[id].used;
      if id != e.id { assert t.items[id] == s.items[id]; }
    }
  }

  lemma NotedElse(s: System, e: Event, allowed: iset<nat>, refused: iset<nat>)
    requires Invariant(s) && Noted(s, allowed, refused) && !e.Decide?
    ensures Noted(Step(s, e).0, allowed, refused)
  {
    var t := Step(s, e).0;
    StepGrants(s, e);
    forall id | id in t.items && !t.items[id].used
      ensures t.items[id].decision == Approved <==> t.items[id].origin in allowed
      ensures t.items[id].decision == Denied <==> t.items[id].origin in refused
    {
      KeptOrNew(s, e, id);
    }
  }

  /** Deciding aside, an unused record stays as it is or is new. */
  lemma KeptOrNew(s: System, e: Event, id: string)
    requires !e.Decide? && id in Step(s, e).0.items && !Step(s, e).0.items[id].used
    ensures var item := Step(s, e).0.items[id];
            (id in s.items && item == s.items[id]) || (item.origin == |s.created| && item.decision == Undecided)
  {
  }

  lemma NotedStep(s: System, e: Event, allowed: iset<nat>, refused: iset<nat>)
    requires Invariant(s) && Noted(s, allowed, refused)
    ensures Noted(Step(s, e).0, allowed + Verdict(s, e, true), refused + Verdict(s, e, false))
  {
    if e.Decide? {
      NotedDecided(s, e, allowed, refused);
    } else {
      NotedElse(s, e, allowed, refused);
      assert Verdict(s, e, true) == iset{} && Verdict(s, e, false) == iset{};
    }
  }

  ghost function Told(events: seq<Event>, allow: bool): iset<nat> {
    iset o: nat | WasSettled(events, o, allow)
  }

  lemma ToldMore(events: seq<Event>, e: Event, allow: bool)
    ensures Told(events + [e], allow) == Told(events, allow) + Verdict(Run(EMPTY, events), e, allow)
  {
    var more := events + [e];
    assert more[..|events|] == events;
    forall k | 0 <= k < |events| ensures more[..k] == events[..k] && more[k] == events[k] {}
    forall o: nat ensures WasSettled(more, o, allow)
                          <==> WasSettled(events, o, allow) || Settles(Run(EMPTY, events), e, o, allow) {
      if WasSettled(events, o, allow) {
        var k :| 0 <= k < |events| && Settles(Run(EMPTY, events[..k]), events[k], o, allow);
        assert Settles(Run(EMPTY, more[..k]), more[k], o, allow);
      }
      if Settles(Run(EMPTY, events), e, o, allow) {
        assert Settles(Run(EMPTY, more[..|events|]), more[|events|], o, allow);
      }
      if WasSettled(more, o, allow) {
        var k :| 0 <= k < |more| && Settles(Run(EMPTY, more[..k]), more[k], o, allow);
        assert k < |events| ==> Settles(Run(EMPTY, events[..k]), events[k], o, allow);
      }
    }
  }

  lemma NotedNext(front: seq<Event>, e: Event)
    requires Noted(Run(EMPTY, front), Told(front, true), Told(front, false))
    ensures Noted(Step(Run(EMPTY, front), e).0, Told(front + [e], true), Told(front + [e], false))
  {
    assert Invariant(EMPTY);
    RunKeepsInvariant(EMPTY, front);
    NotedStep(Run(EMPTY, front), e, Told(front, true), Told(front, false));
    ToldMore(front, e, true);
    ToldMore(front, e, false);
  }

  lemma {:induction false} RunNotes(events: seq<Event>)
    ensures Noted(Run(EMPTY, events), Told(events, true), Told(events, false))
  {
    if events != [] {
      var (front, e) := (events[..|events| - 1], events[|events| - 1]);
      RunNotes(front);
      NotedNext(front, e);
      assert events == front + [e];
    }
  }

  /** Over every interleaving: a waiter is told to go ahead exactly if somebody has
      allowed its approval, and is refused exactly if somebody has refused it. */
  lemma {:induction false} WaitersHeedDecisions(events: seq<Event>, id: string)
    requires id in Run(EMPTY, events).items && !Run(EMPTY, events).items[id].used
    ensures var (s, o) := (Run(EMPTY, events), Step(Run(EMPTY, events), WaitWake(id)).1);
            && (o.Granted? <==> WasSettled(events, s.items[id].origin, true))
            && (o == Refused <==> WasSettled(events, s.items[id].origin, false))
  {
    RunNotes(events);
    assert Run(EMPTY, events).items[id].origin in Told(events, true)
           <==> WasSettled(events, Run(EMPTY, events).items[id].origin, true);
  }

  lemma {:induction false} GrantedStays(events: seq<Event>, n: nat, m: nat)
    requires n <= m <= |events|
    ensures Run(EMPTY, events[..n]).granted <= Run(EMPTY, events[..m]).granted
  {
    if n < m {
      GrantedStays(events, n, m - 1);
      assert events[..m][..m - 1] == events[..m - 1];
      StepGrants(Run(EMPTY, events[..m - 1]), events[m - 1]);
    }
  }

  /** What has been handed out cannot be decided about any more. */
  lemma HandedOutIsDecided(s: System, e: Event, origin: nat, allow: bool, i: nat)
    requires Invariant(s) && i < |s.granted| && s.granted[i].origin == origin
    ensures !Settles(s, e, origin, allow)
  {
  }

  lemma SettledBefore(events: seq<Event>, k: nat, j: nat, origin: nat, allow: bool)
    requires j < k <= |events| && Settles(Run(EMPTY, events[..j]), events[j], origin, allow)
    ensures WasSettled(events[..k], origin, allow)
  {
    assert events[..k][..j] == events[..j] && events[..k][j] == events[j];
  }

  lemma {:induction false} StaysGranted(events: seq<Event>, k: nat, j: nat)
    requires k < j <= |events| && Step(Run(EMPTY, events[..k]), events[k]).1.Granted?
    ensures var (s, t) := (Run(EMPTY, events[..k]), Run(EMPTY, events[..j]));
            && |s.granted| < |t.granted|
            && t.granted[|s.granted|].origin == Step(s, events[k]).1.grant.origin
  {
    StepGrants(Run(EMPTY, events[..k]), events[k]);
    assert events[..k + 1][..k] == events[..k];
    GrantedStays(events, k + 1, j);
  }

  lemma {:induction false} NotSettledAfter(events: seq<Event>, k: nat, j: nat, origin: nat, allow: bool)
    requires k < j < |events| && |Run(EMPTY, events[..k]).granted| < |Run(EMPTY, events[..j]).granted|
    requires Run(EMPTY, events[..j]).granted[|Run(EMPTY, events[..k]).granted|].origin == origin
    ensures !Settles(Run(EMPTY, events[..j]), events[j], origin, allow)
  {
    assert Invariant(EMPTY);
    RunKeepsInvariant(EMPTY, events[..j]);
    HandedOutIsDecided(Run(EMPTY, events[..j]), events[j], origin, allow, |Run(EMPTY, events[..k]).granted|);
  }

  lemma WakesAllowed(s: System, id: string, allowed: iset<nat>, refused: iset<nat>)
    requires Invariant(s) && Noted(s, allowed, refused) && Step(s, WaitWake(id)).1.Granted?
    ensures Step(s, WaitWake(id)).1.grant.origin in allowed && Step(s, WaitWake(id)).1.grant.origin !in refused
  {
  }

  /** An approval that a waiter was handed had been allowed before, and nobody refuses
      it, before or after. */
  lemma {:induction false} WaitedForWasAllowed(events: seq<Event>, k: nat)
    requires k < |events| && events[k].WaitWake? && Step(Run(EMPTY, events[..k]), events[k]).1.Granted?
    ensures var origin := Step(Run(EMPTY, events[..k]), events[k]).1.grant.origin;
            WasSettled(events[..k], origin, true) && !WasSettled(events, origin, false)
  {
    var s := Run(EMPTY, events[..k]);
    var origin := Step(s, events[k]).1.grant.origin;
    assert Invariant(EMPTY);
    RunKeepsInvariant(EMPTY, events[..k]);
    RunNotes(events[..k]);
    WakesAllowed(s, events[k].id, Told(events[..k], true), Told(events[..k], false));
    forall j | 0 <= j < |events| ensures !Settles(Run(EMPTY, events[..j]), events[j], origin, false) {
      if j < k && Settles(Run(EMPTY, events[..j]), events[j], origin, false) {
        SettledBefore(events, k, j, origin, false);
        assert false;
      } else if k < j {
        StaysGranted(events, k, j);
        NotSettledAfter(events, k, j, origin, false);
      }
    }
  }

  /** No unused record of the approval is left. */
  ghost predicate Gone(s: System, origin: nat) {
    origin < |s.created| && forall id :: id in s.items && s.items[id].origin == origin ==> s.items[id].used
  }

  lemma GoneStays(s: System, e: Event, origin: nat)
    requires Invariant(s) && Gone(s, origin)
    ensures var (t, o) := Step(s, e);
            Gone(t, origin) && (o.Granted? ==> o.grant.origin != origin)
  {
    StepGrants(s, e);
    StepItems(s, e);
  }

  /** A step makes no unused record but that of a new creation. */
  lemma StepItems(s: System, e: Event)
    ensures var t := Step(s, e).0;
            forall id :: id in t.items ==>
              || t.items[id].used
              || t.items[id].origin == |s.created|
              || (id in s.items && !s.items[id].used && s.items[id].origin == t.items[id].origin)
  {
  }

  /** What was revoked, refused or has expired is never handed out later. */
  lemma {:induction false} GoneIsNeverGranted(s: System, events: seq<Event>, origin: nat)
    requires Invariant(s) && Gone(s, origin)
    ensures var t := Run(s, events);
            && Gone(t, origin)
            && s.granted <= t.granted
            && (forall i :: |s.granted| <= i < |t.granted| ==> t.granted[i].origin != origin)
  {
    if events != [] {
      var before := Run(s, events[..|events| - 1]);
      GoneIsNeverGranted(s, events[..|events| - 1], origin);
      RunKeepsInvariant(s, events[..|events| - 1]);
      GoneStays(before, events[|events| - 1], origin);
      StepGrants(before, events[|events| - 1]);
    }
  }

  /** Revoking, a refusal that was delivered, and expiry at a use, all make it gone. */
  lemma {:induction false} RemovalsMakeGone(s: System, e: Event)
    requires Invariant(s) && (e.Revoke? || e.WaitWake? || e.Decide? || e.Consume?) && e.id in s.items && e.id != ""
    requires var o := Step(s, e).1; (e.Revoke? && o == Ok) || o == Refused || o == Err(Expired)
    ensures Gone(Step(s, e).0, s.items[e.id].origin)
  {
    var t := Step(s, e).0;
    assert t.items == s.items - {e.id};
    forall x | x in t.items ensures t.items[x].origin != s.items[e.id].origin {
      assert x in s.items && x != e.id;
    }
  }

  lemma RunStep(s: System, events: seq<Event>, e: Event)
    ensures Run(s, events + [e]) == Step(Run(s, events), e).0
  {
    assert (events + [e])[..|events|] == events;
  }

  lemma CreatedAtFirst(request: Request, id: string, code: string, createdAt: int)
    requires Acceptable(request)
    ensures Step(EMPTY, CreateBatch(request, createdAt, Drawn(id, code), createdAt))
            == (WithRecord(EMPTY, id, code, Normalized(request), createdAt), Ok)
  {
    assert Cleaned(map[], createdAt, "") == map[];
  }

  lemma RefusedThenUsed(s: System, id: string, now: int)
    requires id != "" && id in s.items && Live(s.items[id], now)
    requires !s.items[id].used && s.items[id].decision == Undecided && |s.items[id].code| == CODE_SIZE
    ensures var (t, o) := Step(s, Decide(id, false, now));
            && o == Ok
            && Step(t, Consume(id, s.items[id].code, now)).1 == Granted(Grant(s.items[id].origin, s.items[id].request))
  {
    CodeMatchesIsEquality(s.items[id].code, s.items[id].code);
  }

  /** A refusal alone does not stop a consumer that has the code: only a waiter reads
      the decision.  Every approval that was created and refused can still be used
      until it expires. */
  lemma {:induction false} DeniedIsStillConsumable(request: Request, id: string, code: string, createdAt: int, now: int)
    requires Acceptable(request) && id != "" && |code| == CODE_SIZE && createdAt <= now < createdAt + TTL
    ensures var created := Run(EMPTY, [CreateBatch(request, createdAt, Drawn(id, code), createdAt)]);
            var refused := Run(EMPTY, [CreateBatch(request, createdAt, Drawn(id, code), createdAt),
                                       Decide(id, false, now)]);
            && Step(created, Decide(id, false, now)).1 == Ok
            && Step(refused, Consume(id, code, now)).1 == Granted(Grant(0, Normalized(request)))
  {
    var e := CreateBatch(request, createdAt, Drawn(id, code), createdAt);
    var created := WithRecord(EMPTY, id, code, Normalized(request), createdAt);
    CreatedAtFirst(request, id, code, createdAt);
    RunStep(EMPTY, [], e);
    RunStep(EMPTY, [e], Decide(id, false, now));
    assert [] + [e] == [e] && [e] + [Decide(id, false, now)] == [e, Decide(id, false, now)];
    assert Run(EMPTY, []) == EMPTY;
    RefusedThenUsed(created, id, now);
  }
}
