/** The broker's calls as a state machine: a scheduler interleaves the steps of any
    number of calls, and each step ends at one use of something shared (the
    approval store, the audit log, a remote host).  Work that touches only a call's
    own data is part of the step it leads to. */
module BrokerService {
  import opened Basics
  import opened ApprovalSpec

  const SECOND: int := 1_000_000_000
  const MAX_ALIASES: nat := 256

  datatype Policy = Enforce | Warn | Off

  /** What stays fixed for a run.  `analyze` fails on commands it cannot parse. */
  datatype Config = Config(policy: Policy, failClosed: bool, concurrency: nat, timeout: int, maxOutput: int,
                           analyze: Bytes -> Option<set<string>>, blank: Bytes -> bool, trim: string -> string)

  datatype ExecuteRequest = ExecuteRequest(alias: string, command: Bytes, timeoutSeconds: int, maxOutput: int)

  /** `servers` is the sorted list of all aliases when all were asked for. */
  datatype BatchRequest = BatchRequest(aliases: seq<string>, servers: Option<seq<string>>, command: Bytes,
                                       timeoutSeconds: int, maxOutput: int, concurrency: int)

  datatype Failure = Validation | Approval | Audit

  datatype Answer = RequiresApproval(id: string) | Denied | Failed(failure: Failure)

  /** Where one alias of a running call is.  `evidence` is the place of its preflight
      record in the audit trail, `at` of its execution among all executions. */
  datatype Stage =
    | Pending
    | Opened
    | Cleared(evidence: Option<nat>)
    | Executed(at: nat, ok: bool, evidence: Option<nat>)
    | Unknown
    | Unaudited
    | Ran(at: nat, ok: bool, warned: bool)

  /** The workers of a running call, each with the place of the alias it works on, and
      the place that is sent next on their channel. */
  datatype Crew = Crew(workers: seq<Option<nat>>, next: nat)

  datatype Call =
    | Announcing(id: string, wait: bool)
    | Withdrawing(id: string)
    | Waiting(id: string, batch: bool, limit: nat)
    | Listening(id: string, batch: bool, limit: nat)
    | Running(ticket: Option<nat>, aliases: seq<string>, command: Bytes, limits: Limits, crew: Crew, stages: seq<Stage>)
    | Answered(answer: Answer)

  datatype Execution = Execution(call: nat, index: nat, alias: string, command: Bytes, limits: Limits,
                                 ticket: Option<nat>, evidence: Option<nat>)

  datatype Record = Preflight(call: nat, index: nat, alias: string, command: Bytes, ticket: Option<nat>)
                  | Final(call: nat, index: nat) | ApprovalCreated(id: string)

  /** `holder[t]` is the call that got the t-th success of the store. */
  datatype Broker = Broker(store: System, calls: seq<Call>, executed: seq<Execution>, trail: seq<Record>,
                           holder: seq<nat>)

  const START := Broker(EMPTY, [], [], [], [])

  datatype Choice =
    | Execute(one: ExecuteRequest, wait: bool, alive: bool, known: bool, cleanupAt: int, random: Random, createdAt: int)
    | ExecuteBatch(many: BatchRequest, wait: bool, alive: bool, cleanupAt: int, random: Random, createdAt: int)
    | ExecuteApproved(id: string, code: string, alive: bool, now: int)
    | Manage(event: Event)
    | Announce(call: nat, written: bool)
    | Withdraw(call: nat)
    | Register(call: nat)
    | Wake(call: nat)
    | Timeout(call: nat)
    | Cancel(call: nat)
    | Take(call: nat, worker: nat, known: bool)
    | Clear(call: nat, worker: nat, written: bool)
    | Remote(call: nat, worker: nat, ok: bool)
    | Report(call: nat, worker: nat, written: bool)

  // ---------- Requests ----------

  function LimitsOf(cfg: Config, timeoutSeconds: int, maxOutput: int): Limits {
    Limits(if timeoutSeconds != 0 then timeoutSeconds * SECOND else cfg.timeout,
           if maxOutput != 0 then maxOutput else cfg.maxOutput)
  }

  /** What was asked for, and the configured limits where nothing was. */
  ghost predicate IsLimits(cfg: Config, timeoutSeconds: int, maxOutput: int, limits: Limits) {
    && (timeoutSeconds == 0 ==> limits.timeout == cfg.timeout)
    && (timeoutSeconds != 0 ==> limits.timeout == timeoutSeconds * 1_000_000_000)
    && (maxOutput == 0 ==> limits.maxOutputBytes == cfg.maxOutput)
    && (maxOutput != 0 ==> limits.maxOutputBytes == maxOutput)
  }

  predicate ValidExecuteRequest(cfg: Config, r: ExecuteRequest) {
    && cfg.trim(r.alias) != "" && !cfg.blank(r.command) && |r.command| <= MAX_COMMAND_BYTES
    && 0 <= r.timeoutSeconds <= MAX_TIMEOUT / SECOND && 0 <= r.maxOutput <= MAX_OUTPUT_BYTES
  }

  function Trimmed(cfg: Config, aliases: seq<string>): seq<string> {
    seq(|aliases|, i requires 0 <= i < |aliases| => cfg.trim(aliases[i]))
  }

  /** `r` lists the trimmed aliases. */
  ghost predicate ListsTrimmed(cfg: Config, r: seq<string>, aliases: seq<string>) {
    exists t: seq<string> ::
      |t| == |aliases| && (forall i :: 0 <= i < |t| ==> t[i] == cfg.trim(aliases[i])) && Lists(r, t)
  }

  lemma TrimmedAreListed(cfg: Config, aliases: seq<string>)
    ensures ListsTrimmed(cfg, NormalizeAliases(Trimmed(cfg, aliases)), aliases)
  {
    NormalizedLists(Trimmed(cfg, aliases));
  }

  function BatchAliases(cfg: Config, r: BatchRequest): seq<string> {
    match r.servers
    case Some(servers) => servers
    case None => r.aliases
  }

  function Concurrency(cfg: Config, asked: int): nat {
    var c := if asked <= 0 then cfg.concurrency else asked;
    if c > 32 then 32 else c
  }

  /** With the risk policy off nothing is analyzed and nothing is a risk. */
  function Categories(cfg: Config, command: Bytes): Option<set<string>> {
    if cfg.policy == Off then Some({}) else cfg.analyze(command)
  }

  predicate Risky(cfg: Config, command: Bytes) {
    cfg.analyze(command) != Some({})
  }

  // ---------- Steps ----------

  function WithCall(s: Broker, c: Call): Broker {
    s.(calls := s.calls + [c])
  }

  /** As many workers as allowed, none of which has received anything. */
  function Launch(ticket: Option<nat>, aliases: seq<string>, command: Bytes, limits: Limits, limit: nat): (c: Call)
    ensures c.Running? && Active(c.stages) == 0 && Busy(c.crew.workers) == 0
  {
    NothingActive(|aliases|);
    var workers := seq(limit, _ => None);
    NobodyBusy(workers);
    Running(ticket, aliases, command, limits, Crew(workers, 0), seq(|aliases|, _ => Pending))
  }

  function StepExecute(cfg: Config, s: Broker, c: Choice): Broker
    requires c.Execute?
  {
    var r := c.one;
    if !c.alive || !ValidExecuteRequest(cfg, r) || !c.known || Categories(cfg, r.command) == None then
      WithCall(s, Answered(Failed(Validation)))
    else
      var limits := LimitsOf(cfg, r.timeoutSeconds, r.maxOutput);
      var categories := Categories(cfg, r.command).value;
      if cfg.policy == Warn || categories == {} then
        // the secret is at hand already
        WithCall(s, Running(None, [r.alias], r.command, limits, Crew([Some(0)], 1), [Opened]))
      else
        var (store, o) := ApprovalSpec.Step(s.store, CreateBatch(Request([r.alias], r.command, categories, limits),
                                                                c.cleanupAt, c.random, c.createdAt));
        WithCall(s.(store := store), if o == Ok then Announcing(c.random.id, c.wait) else Answered(Failed(Approval)))
  }

  function StepExecuteBatch(cfg: Config, s: Broker, c: Choice): Broker
    requires c.ExecuteBatch?
  {
    var r := c.many;
    var asked := BatchAliases(cfg, r);
    if !c.alive || cfg.blank(r.command) || |asked| == 0 || |asked| > MAX_ALIASES
       || Categories(cfg, r.command) == None then
      WithCall(s, Answered(Failed(Validation)))
    else
      var aliases := NormalizeAliases(Trimmed(cfg, asked));
      var limits := LimitsOf(cfg, r.timeoutSeconds, r.maxOutput);
      var limit := Concurrency(cfg, r.concurrency);
      var categories := Categories(cfg, r.command).value;
      if cfg.policy == Enforce && categories != {} then
        var (store, o) := ApprovalSpec.Step(s.store, CreateBatch(Request(aliases, r.command, categories, limits),
                                                                c.cleanupAt, c.random, c.createdAt));
        WithCall(s.(store := store), if o != Ok then Answered(Failed(Approval))
                                     else if c.wait then Waiting(c.random.id, true, limit)
                                     else Answered(RequiresApproval(c.random.id)))
      else
        WithCall(s, Launch(None, aliases, r.command, limits, limit))
  }

  function FirstOnly(aliases: seq<string>): seq<string> {
    if aliases == [] then [] else aliases[..1]
  }

  /** A call starts to run under the success it has just been given. */
  function Hand(s: Broker, call: nat, store: System, grant: Grant, batch: bool, limit: nat): Broker
    requires call < |s.calls|
  {
    var aliases := if batch then grant.request.aliases else FirstOnly(grant.request.aliases);
    var running := Launch(Some(|s.store.granted|), aliases, grant.request.command, grant.request.limits, limit);
    s.(store := store, calls := s.calls[call := running], holder := s.holder + [call])
  }

  function StepExecuteApproved(s: Broker, c: Choice): Broker
    requires c.ExecuteApproved?
  {
    var refused := WithCall(s, Answered(Failed(Approval)));
    if !c.alive || c.id == "" || c.code == "" then refused
    else
      var (store, o) := ApprovalSpec.Step(s.store, Consume(c.id, c.code, c.now));
      if o.Granted? then Hand(refused, |s.calls|, store, o.grant, false, 1)
      else refused.(store := store)
  }

  /** The created record must be in the audit log before the approval is offered. */
  function StepAnnounce(s: Broker, call: nat, written: bool): Broker
    requires call < |s.calls| && s.calls[call].Announcing?
  {
    var c := s.calls[call];
    if !written then s.(calls := s.calls[call := Withdrawing(c.id)])
    else s.(trail := s.trail + [ApprovalCreated(c.id)],
            calls := s.calls[call := if c.wait then Waiting(c.id, false, 1) else Answered(RequiresApproval(c.id))])
  }

  function StepWithdraw(s: Broker, call: nat): Broker
    requires call < |s.calls| && s.calls[call].Withdrawing?
  {
    s.(store := ApprovalSpec.Step(s.store, Revoke(s.calls[call].id)).0,
       calls := s.calls[call := Answered(Failed(Audit))])
  }

  function StepRegister(s: Broker, call: nat): Broker
    requires call < |s.calls| && s.calls[call].Waiting?
  {
    var c := s.calls[call];
    var o := ApprovalSpec.Step(s.store, WaitRegister(c.id)).1;
    s.(calls := s.calls[call := if o == Ok then Listening(c.id, c.batch, c.limit) else Answered(Answer.Denied)])
  }

  function StepWake(s: Broker, call: nat): Broker
    requires call < |s.calls| && s.calls[call].Listening?
  {
    var c := s.calls[call];
    var (store, o) := ApprovalSpec.Step(s.store, WaitWake(c.id));
    if o.Granted? then Hand(s, call, store, o.grant, c.batch, c.limit)
    else s.(store := store, calls := s.calls[call := Answered(Answer.Denied)])
  }

  function StepTimeout(s: Broker, call: nat): Broker
    requires call < |s.calls| && s.calls[call].Listening?
  {
    s.(store := ApprovalSpec.Step(s.store, WaitTimeout(s.calls[call].id)).0,
       calls := s.calls[call := Answered(Answer.Denied)])
  }

  function Active(stages: seq<Stage>): nat {
    if stages == [] then 0
    else Active(stages[..|stages| - 1]) + Weight(stages[|stages| - 1])
  }

  function SetStage(s: Broker, call: nat, crew: Crew, index: nat, stage: Stage): Broker
    requires call < |s.calls| && s.calls[call].Running? && index < |s.calls[call].stages|
  {
    s.(calls := s.calls[call := s.calls[call].(crew := crew, stages := s.calls[call].stages[index := stage])])
  }

  /** Worker `w` has something else to do, or nothing. */
  function Turn(crew: Crew, w: nat, job: Option<nat>): Crew
    requires w < |crew.workers|
  {
    crew.(workers := crew.workers[w := job])
  }

  /** A worker that waits on the channel receives the next place, and looks up the
      secret of that alias. */
  function StepTake(s: Broker, c: Choice): Broker
    requires c.Take? && c.call < |s.calls| && s.calls[c.call].Running?
    requires c.worker < |s.calls[c.call].crew.workers|
  {
    var r := s.calls[c.call];
    var next := r.crew.next;
    if r.crew.workers[c.worker].Some? || next >= |r.stages| then s
    else
      var crew := Turn(r.crew, c.worker, if c.known then Some(next) else None).(next := next + 1);
      SetStage(s, c.call, crew, next, if c.known then Opened else Unknown)
  }

  /** One step of a worker on the alias it works on. */
  function StepWork(cfg: Config, s: Broker, c: Choice, index: nat): Broker
    requires (c.Clear? || c.Remote? || c.Report?) && c.call < |s.calls| && s.calls[c.call].Running?
    requires c.worker < |s.calls[c.call].crew.workers| && index < |s.calls[c.call].stages| == |s.calls[c.call].aliases|
  {
    var r := s.calls[c.call];
    var alias := r.aliases[index];
    var free := Turn(r.crew, c.worker, None);
    match (c, r.stages[index])
    case (Clear(_, _, written), Opened) =>
      if written then
        SetStage(s.(trail := s.trail + [Preflight(c.call, index, alias, r.command, r.ticket)]),
                 c.call, r.crew, index, Cleared(Some(|s.trail|)))
      else if cfg.failClosed || r.ticket.Some? then SetStage(s, c.call, free, index, Unaudited)
      else SetStage(s, c.call, r.crew, index, Cleared(None))
    case (Remote(_, _, ok), Cleared(evidence)) =>
      SetStage(s.(executed := s.executed + [Execution(c.call, index, alias, r.command, r.limits, r.ticket, evidence)]),
               c.call, r.crew, index, Executed(|s.executed|, ok, evidence))
    case (Report(_, _, written), Executed(at, ok, evidence)) =>
      SetStage(if written then s.(trail := s.trail + [Final(c.call, index)]) else s,
               c.call, free, index, Ran(at, ok, !written || evidence == None))
    case _ => s
  }

  /** The place worker `w` works on. */
  function JobOf(c: Call, w: nat): (index: Option<nat>)
    ensures index.Some? ==> c.Running? && w < |c.crew.workers| && index.value < |c.stages| == |c.aliases|
  {
    if c.Running? && w < |c.crew.workers| && c.crew.workers[w].Some?
       && c.crew.workers[w].value < |c.stages| == |c.aliases|
    then c.crew.workers[w] else None
  }

  predicate Enabled(s: Broker, c: Choice) {
    match c
    case Execute(_, _, _, _, _, _, _) => true
    case ExecuteBatch(_, _, _, _, _, _) => true
    case ExecuteApproved(_, _, _, _) => true
    case Manage(e) => e.List? || e.Get? || e.Decide?
    case Announce(call, _) => call < |s.calls| && s.calls[call].Announcing?
    case Withdraw(call) => call < |s.calls| && s.calls[call].Withdrawing?
    case Register(call) => call < |s.calls| && s.calls[call].Waiting?
    case Wake(call) => call < |s.calls| && s.calls[call].Listening?
    case Timeout(call) => call < |s.calls| && s.calls[call].Listening?
    case Cancel(call) => call < |s.calls| && s.calls[call].Listening?
    case Take(call, worker, _) => call < |s.calls| && s.calls[call].Running? && worker < |s.calls[call].crew.workers|
    case _ => c.call < |s.calls| && JobOf(s.calls[c.call], c.worker).Some?
  }

  /** What cannot happen leaves everything as it is. */
  function Step(cfg: Config, s: Broker, c: Choice): Broker {
    if !Enabled(s, c) then s
    else
      match c
      case Execute(_, _, _, _, _, _, _) => StepExecute(cfg, s, c)
      case ExecuteBatch(_, _, _, _, _, _) => StepExecuteBatch(cfg, s, c)
      case ExecuteApproved(_, _, _, _) => StepExecuteApproved(s, c)
      case Manage(e) => s.(store := ApprovalSpec.Step(s.store, e).0)
      case Announce(call, written) => StepAnnounce(s, call, written)
      case Withdraw(call) => StepWithdraw(s, call)
      case Register(call) => StepRegister(s, call)
      case Wake(call) => StepWake(s, call)
      case Timeout(call) => StepTimeout(s, call)
      case Cancel(call) => s.(calls := s.calls[call := Answered(Answer.Denied)])
      case Take(_, _, _) => StepTake(s, c)
      case _ => StepWork(cfg, s, c, JobOf(s.calls[c.call], c.worker).value)
  }

  function RunFrom(cfg: Config, s: Broker, choices: seq<Choice>): Broker {
    if choices == [] then s
    else Step(cfg, RunFrom(cfg, s, choices[..|choices| - 1]), choices[|choices| - 1])
  }

  function Run(cfg: Config, choices: seq<Choice>): Broker {
    RunFrom(cfg, START, choices)
  }

  // ---------- The invariant ----------

  ghost predicate Apart(aliases: seq<string>) {
    forall i, j :: 0 <= i < j < |aliases| ==> aliases[i] != aliases[j]
  }

  ghost predicate Listed(aliases: seq<string>) {
    Apart(aliases) && aliases != []
  }

  ghost predicate StoreOk(store: System) {
    ApprovalSpec.Invariant(store) && forall i :: 0 <= i < |store.created| ==> Listed(store.created[i].aliases)
  }

  lemma StoreStays(store: System, e: Event)
    requires StoreOk(store)
    ensures var (t, o) := ApprovalSpec.Step(store, e);
            && StoreOk(t)
            && t.granted == (if o.Granted? then store.granted + [o.grant] else store.granted)
            && (o.Granted? ==> Listed(o.grant.request.aliases))
            && (o.Granted? ==> e.Consume? || e.WaitWake?)
  {
    StepKeepsInvariant(store, e);
    StepGrants(store, e);
    CreatedApart(store, e);
    var (t, o) := ApprovalSpec.Step(store, e);
    if o.Granted? {
      assert t.granted[|store.granted|] == o.grant;
    }
  }

  lemma CreatedApart(store: System, e: Event)
    requires forall i :: 0 <= i < |store.created| ==> Listed(store.created[i].aliases)
    ensures var t := ApprovalSpec.Step(store, e).0;
            forall i :: 0 <= i < |t.created| ==> Listed(t.created[i].aliases)
  {
  }

  /** What has not been sent to a worker is untouched, and nothing else is; workers have
      only what was sent. */
  ghost predicate Queued(crew: Crew, stages: seq<Stage>) {
    && crew.next <= |stages|
    && (forall i :: 0 <= i < |stages| ==> (stages[i].Pending? <==> crew.next <= i))
    && (forall w :: 0 <= w < |crew.workers| && crew.workers[w].Some? ==> crew.workers[w].value < crew.next)
  }

  /** The whole batch, or the one alias of a single request. */
  ghost predicate WorksFor(aliases: seq<string>, asked: seq<string>) {
    asked != [] && (aliases == asked || aliases == [asked[0]])
  }

  /** A running call works for its aliases only, each once, and is bound to the
      success it holds; without one its command is no risk. */
  ghost predicate Bound(cfg: Config, s: Broker, c: Call) {
    c.Running? ==>
      && |c.stages| == |c.aliases| && Queued(c.crew, c.stages)
      && Apart(c.aliases)
      && (c.ticket == None && cfg.policy == Enforce ==> !Risky(cfg, c.command))
      && (c.ticket.Some? ==>
            && c.ticket.value < |s.store.granted|
            && c.command == s.store.granted[c.ticket.value].request.command
            && c.limits == s.store.granted[c.ticket.value].request.limits
            && WorksFor(c.aliases, s.store.granted[c.ticket.value].request.aliases))
  }

  /** The evidence a stage carries is the record of this very job. */
  ghost predicate Evident(cfg: Config, s: Broker, call: nat, index: nat, evidence: Option<nat>)
    requires call < |s.calls| && s.calls[call].Running? && index < |s.calls[call].aliases|
  {
    var c := s.calls[call];
    match evidence
    case None => !cfg.failClosed && c.ticket == None
    case Some(at) => at < |s.trail| && s.trail[at] == Preflight(call, index, c.aliases[index], c.command, c.ticket)
  }

  ghost predicate StageOk(cfg: Config, s: Broker, call: nat, index: nat)
    requires call < |s.calls| && s.calls[call].Running? && index < |s.calls[call].stages| == |s.calls[call].aliases|
  {
    match s.calls[call].stages[index]
    case Cleared(evidence) => Evident(cfg, s, call, index, evidence)
    case Executed(at, _, _) => at < |s.executed| && s.executed[at].call == call && s.executed[at].index == index
    case Ran(at, _, _) => at < |s.executed| && s.executed[at].call == call && s.executed[at].index == index
    case _ => true
  }

  ghost predicate CallOk(cfg: Config, s: Broker, call: nat)
    requires call < |s.calls|
  {
    && Bound(cfg, s, s.calls[call])
    && (s.calls[call].Running? ==>
          && (s.calls[call].ticket.Some? ==>
                s.calls[call].ticket.value < |s.holder| && s.holder[s.calls[call].ticket.value] == call)
          && forall index :: 0 <= index < |s.calls[call].stages| ==> StageOk(cfg, s, call, index))
  }

  /** Where an alias of a running call has been executed. */
  predicate ExecutedAt(stage: Stage, at: nat) {
    (stage.Executed? || stage.Ran?) && stage.at == at
  }

  ghost predicate ExecutionOk(cfg: Config, s: Broker, at: nat)
    requires at < |s.executed|
  {
    var e := s.executed[at];
    && e.call < |s.calls| && s.calls[e.call].Running?
    && (var c := s.calls[e.call];
        && e.index < |c.stages| == |c.aliases| && ExecutedAt(c.stages[e.index], at)
        && e.alias == c.aliases[e.index] && e.command == c.command && e.limits == c.limits && e.ticket == c.ticket
        && Evident(cfg, s, e.call, e.index, e.evidence))
  }

  ghost predicate Invariant(cfg: Config, s: Broker) {
    && StoreOk(s.store)
    && |s.holder| == |s.store.granted|
    && (forall t :: 0 <= t < |s.holder| ==>
          s.holder[t] < |s.calls| && s.calls[s.holder[t]].Running? && s.calls[s.holder[t]].ticket == Some(t))
    && (forall call :: 0 <= call < |s.calls| ==> CallOk(cfg, s, call))
    && (forall at :: 0 <= at < |s.executed| ==> ExecutionOk(cfg, s, at))
  }

  /** `t` comes after `s`: the histories have grown and running calls still stand
      for the same work. */
  ghost predicate Grows(s: Broker, t: Broker) {
    && s.store.granted <= t.store.granted && s.trail <= t.trail && s.executed <= t.executed && s.holder <= t.holder
    && |s.calls| <= |t.calls|
    && forall call :: 0 <= call < |s.calls| && s.calls[call].Running? ==>
         && t.calls[call].Running?
         && t.calls[call] == s.calls[call].(crew := t.calls[call].crew, stages := t.calls[call].stages)
  }

  lemma CallStaysOk(cfg: Config, s: Broker, t: Broker, call: nat)
    requires Grows(s, t) && call < |s.calls| && t.calls[call] == s.calls[call] && CallOk(cfg, s, call)
    ensures CallOk(cfg, t, call)
  {
    var c := t.calls[call];
    if c.Running? {
      forall index | 0 <= index < |c.stages| ensures StageOk(cfg, t, call, index) {
        assert StageOk(cfg, s, call, index);
      }
    }
  }

  lemma ExecutionStaysOk(cfg: Config, s: Broker, t: Broker, at: nat)
    requires Grows(s, t) && at < |s.executed| && ExecutionOk(cfg, s, at)
    requires var e := s.executed[at];
             |t.calls[e.call].stages| == |s.calls[e.call].stages| && ExecutedAt(t.calls[e.call].stages[e.index], at)
    ensures ExecutionOk(cfg, t, at)
  {
  }

  /** The executions so far, when no running call has changed. */
  lemma ExecutionsStay(cfg: Config, s: Broker, t: Broker)
    requires Grows(s, t) && t.executed == s.executed
    requires forall i :: 0 <= i < |s.calls| && s.calls[i].Running? ==> t.calls[i] == s.calls[i]
    requires forall at :: 0 <= at < |s.executed| ==> ExecutionOk(cfg, s, at)
    ensures forall at :: 0 <= at < |t.executed| ==> ExecutionOk(cfg, t, at)
  {
    forall at | 0 <= at < |t.executed| ensures ExecutionOk(cfg, t, at) {
      assert ExecutionOk(cfg, s, at);
      ExecutionStaysOk(cfg, s, t, at);
    }
  }

  /** Steps that leave the running calls alone and hand out nothing. */
  lemma QuietStep(cfg: Config, s: Broker, t: Broker, call: nat)
    requires Invariant(cfg, s) && StoreOk(t.store) && t.store.granted == s.store.granted
    requires t.holder == s.holder && t.executed == s.executed && s.trail <= t.trail
    requires call <= |s.calls| && |s.calls| <= |t.calls| <= |s.calls| + 1 && call < |t.calls|
    requires forall i :: 0 <= i < |t.calls| && i != call ==> i < |s.calls| && t.calls[i] == s.calls[i]
    requires call < |s.calls| ==> !s.calls[call].Running?
    requires Fresh(cfg, t.calls[call])
    ensures Invariant(cfg, t)
  {
    assert Grows(s, t);
    forall i | 0 <= i < |t.calls| ensures CallOk(cfg, t, i) {
      if i != call {
        var kept := t.calls[i];
        CallStaysOk(cfg, s, t, i);
      }
    }
    ExecutionsStay(cfg, s, t);
  }

  /** A call that has not executed anything and holds no success. */
  ghost predicate Fresh(cfg: Config, c: Call) {
    c.Running? ==>
      && c.ticket == None && |c.stages| == |c.aliases| && Queued(c.crew, c.stages)
      && (cfg.policy == Enforce ==> !Risky(cfg, c.command))
      && Apart(c.aliases)
      && (forall i :: 0 <= i < |c.stages| ==> c.stages[i].Pending? || c.stages[i].Opened?)
  }

  /** Steps of the store alone. */
  lemma StoreStep(cfg: Config, s: Broker, t: Broker)
    requires Invariant(cfg, s) && StoreOk(t.store) && t.store.granted == s.store.granted
    requires t == s.(store := t.store)
    ensures Invariant(cfg, t)
  {
    assert Grows(s, t);
    forall i | 0 <= i < |t.calls| ensures CallOk(cfg, t, i) {
      CallStaysOk(cfg, s, t, i);
    }
    ExecutionsStay(cfg, s, t);
  }

  /** The call that gets a success is bound to it. */
  lemma HandedOk(cfg: Config, s: Broker, call: nat, store: System, grant: Grant, batch: bool, limit: nat)
    requires call < |s.calls| && |s.holder| == |s.store.granted| && store.granted == s.store.granted + [grant]
    requires Listed(grant.request.aliases)
    ensures CallOk(cfg, Hand(s, call, store, grant, batch, limit), call)
  {
  }

  lemma HandStep(cfg: Config, s: Broker, call: nat, store: System, grant: Grant, batch: bool, limit: nat)
    requires Invariant(cfg, s) && call < |s.calls| && !s.calls[call].Running? && StoreOk(store)
    requires store.granted == s.store.granted + [grant]
    requires Listed(grant.request.aliases)
    ensures Invariant(cfg, Hand(s, call, store, grant, batch, limit))
  {
    var t := Hand(s, call, store, grant, batch, limit);
    HandGrows(s, call, store, grant, batch, limit);
    HandedCalls(cfg, s, call, store, grant, batch, limit);
    ExecutionsStay(cfg, s, t);
  }

  lemma HandGrows(s: Broker, call: nat, store: System, grant: Grant, batch: bool, limit: nat)
    requires call < |s.calls| && !s.calls[call].Running? && store.granted == s.store.granted + [grant]
    ensures Grows(s, Hand(s, call, store, grant, batch, limit))
  {
  }

  lemma HandedCalls(cfg: Config, s: Broker, call: nat, store: System, grant: Grant, batch: bool, limit: nat)
    requires Invariant(cfg, s) && call < |s.calls| && !s.calls[call].Running?
    requires store.granted == s.store.granted + [grant] && Listed(grant.request.aliases)
    ensures var t := Hand(s, call, store, grant, batch, limit);
            forall i :: 0 <= i < |t.calls| ==> CallOk(cfg, t, i)
  {
    var t := Hand(s, call, store, grant, batch, limit);
    HandedOk(cfg, s, call, store, grant, batch, limit);
    HandGrows(s, call, store, grant, batch, limit);
    forall i | 0 <= i < |t.calls| ensures CallOk(cfg, t, i) {
      if i != call { CallStaysOk(cfg, s, t, i); }
    }
  }

  /** Work on one alias that executes nothing. */
  lemma JobStep(cfg: Config, s: Broker, t: Broker, call: nat, crew: Crew, index: nat, stage: Stage)
    requires Invariant(cfg, s) && call < |s.calls| && s.calls[call].Running? && index < |s.calls[call].stages|
    requires t.store == s.store && t.executed == s.executed && t.holder == s.holder && s.trail <= t.trail
    requires t.calls == SetStage(s, call, crew, index, stage).calls
    requires index < |t.calls[call].aliases| == |t.calls[call].stages| && Queued(crew, t.calls[call].stages)
    requires StageOk(cfg, t, call, index)
    requires forall at :: 0 <= at < |s.executed| && ExecutedAt(s.calls[call].stages[index], at)
               ==> ExecutedAt(stage, at)
    ensures Invariant(cfg, t)
  {
    assert Grows(s, t);
    JobCalls(cfg, s, t, call, crew, index, stage);
    forall at | 0 <= at < |t.executed| ensures ExecutionOk(cfg, t, at) {
      assert ExecutionOk(cfg, s, at);
      ExecutionStaysOk(cfg, s, t, at);
    }
  }

  /** The calls after an execution or any other change of one stage. */
  lemma JobCalls(cfg: Config, s: Broker, t: Broker, call: nat, crew: Crew, index: nat, stage: Stage)
    requires Invariant(cfg, s) && Grows(s, t) && call < |s.calls| && s.calls[call].Running?
    requires index < |s.calls[call].stages| && t.calls == SetStage(s, call, crew, index, stage).calls
    requires index < |t.calls[call].aliases| == |t.calls[call].stages| && Queued(crew, t.calls[call].stages)
    requires StageOk(cfg, t, call, index)
    ensures forall i :: 0 <= i < |t.calls| ==> CallOk(cfg, t, i)
  {
    forall i | 0 <= i < |t.calls| ensures CallOk(cfg, t, i) {
      assert CallOk(cfg, s, i);
      if i != call {
        CallStaysOk(cfg, s, t, i);
      } else {
        forall k | 0 <= k < |t.calls[call].stages| ensures StageOk(cfg, t, call, k) {
          assert StageOk(cfg, s, call, k);
        }
      }
    }
  }

  lemma RemoteStep(cfg: Config, s: Broker, t: Broker, call: nat, crew: Crew, index: nat, stage: Stage, e: Execution)
    requires Invariant(cfg, s) && call < |s.calls| && s.calls[call].Running?
    requires index < |s.calls[call].stages| == |s.calls[call].aliases| && s.calls[call].stages[index].Cleared?
    requires Queued(crew, s.calls[call].stages[index := stage])
    requires stage.Executed? && stage.at == |s.executed| && stage.evidence == s.calls[call].stages[index].evidence
    requires var c := s.calls[call];
             e == Execution(call, index, c.aliases[index], c.command, c.limits, c.ticket, stage.evidence)
    requires t == SetStage(s.(executed := s.executed + [e]), call, crew, index, stage)
    ensures Invariant(cfg, t)
  {
    assert Evident(cfg, s, call, index, stage.evidence) by {
      assert CallOk(cfg, s, call) && StageOk(cfg, s, call, index);
    }
    assert Grows(s, t);
    JobCalls(cfg, s, t, call, crew, index, stage);
    forall at | 0 <= at < |s.executed| ensures ExecutionOk(cfg, t, at) {
      assert ExecutionOk(cfg, s, at);
      ExecutionStaysOk(cfg, s, t, at);
    }
    assert ExecutionOk(cfg, t, |s.executed|);
  }

  // ---------- Every step keeps it ----------

  lemma ExecuteKeeps(cfg: Config, s: Broker, c: Choice)
    requires Invariant(cfg, s) && c.Execute?
    ensures Invariant(cfg, StepExecute(cfg, s, c))
  {
    var t := StepExecute(cfg, s, c);
    if t.store != s.store {
      StoreStays(s.store, CreateBatch(Request([c.one.alias], c.one.command, Categories(cfg, c.one.command).value,
                                              LimitsOf(cfg, c.one.timeoutSeconds, c.one.maxOutput)),
                                      c.cleanupAt, c.random, c.createdAt));
    }
    QuietStep(cfg, s, t, |s.calls|);
  }

  lemma ExecuteBatchKeeps(cfg: Config, s: Broker, c: Choice)
    requires Invariant(cfg, s) && c.ExecuteBatch?
    ensures Invariant(cfg, StepExecuteBatch(cfg, s, c))
  {
    var t := StepExecuteBatch(cfg, s, c);
    if t.store != s.store {
      StoreStays(s.store, CreateBatch(Request(NormalizeAliases(Trimmed(cfg, BatchAliases(cfg, c.many))), c.many.command,
                                              Categories(cfg, c.many.command).value,
                                              LimitsOf(cfg, c.many.timeoutSeconds, c.many.maxOutput)),
                                      c.cleanupAt, c.random, c.createdAt));
    }
    QuietStep(cfg, s, t, |s.calls|);
  }

  lemma ExecuteApprovedKeeps(cfg: Config, s: Broker, c: Choice)
    requires Invariant(cfg, s) && c.ExecuteApproved?
    ensures Invariant(cfg, StepExecuteApproved(s, c))
  {
    var refused := WithCall(s, Answered(Failed(Approval)));
    QuietStep(cfg, s, refused, |s.calls|);
    var e := Consume(c.id, c.code, c.now);
    StoreStays(s.store, e);
    var (store, o) := ApprovalSpec.Step(s.store, e);
    if o.Granted? {
      HandStep(cfg, refused, |s.calls|, store, o.grant, false, 1);
    } else {
      StoreStep(cfg, refused, refused.(store := store));
    }
  }

  lemma WakeKeeps(cfg: Config, s: Broker, call: nat)
    requires Invariant(cfg, s) && call < |s.calls| && s.calls[call].Listening?
    ensures Invariant(cfg, StepWake(s, call))
  {
    var e := WaitWake(s.calls[call].id);
    StoreStays(s.store, e);
    var (store, o) := ApprovalSpec.Step(s.store, e);
    if o.Granted? {
      HandStep(cfg, s, call, store, o.grant, s.calls[call].batch, s.calls[call].limit);
    } else {
      QuietStep(cfg, s, StepWake(s, call), call);
    }
  }

  /** The steps of a call that neither runs nor is woken. */
  lemma WaitingKeeps(cfg: Config, s: Broker, c: Choice)
    requires Invariant(cfg, s) && Enabled(s, c)
    requires c.Announce? || c.Withdraw? || c.Register? || c.Timeout? || c.Cancel?
    ensures Invariant(cfg, Step(cfg, s, c))
  {
    if c.Withdraw? {
      StoreStays(s.store, Revoke(s.calls[c.call].id));
    } else if c.Timeout? {
      StoreStays(s.store, WaitTimeout(s.calls[c.call].id));
    }
    QuietStep(cfg, s, Step(cfg, s, c), c.call);
  }

  lemma TakeKeeps(cfg: Config, s: Broker, c: Choice)
    requires Invariant(cfg, s) && Enabled(s, c) && c.Take?
    ensures Invariant(cfg, StepTake(s, c))
  {
    var (t, r) := (StepTake(s, c), s.calls[c.call]);
    assert CallOk(cfg, s, c.call);
    if t != s {
      JobStep(cfg, s, t, c.call, t.calls[c.call].crew, r.crew.next, t.calls[c.call].stages[r.crew.next]);
    }
  }

  lemma ClearKeeps(cfg: Config, s: Broker, c: Choice, index: nat)
    requires Invariant(cfg, s) && c.Clear? && c.call < |s.calls| && JobOf(s.calls[c.call], c.worker) == Some(index)
    ensures Invariant(cfg, StepWork(cfg, s, c, index))
  {
    var t := StepWork(cfg, s, c, index);
    assert CallOk(cfg, s, c.call);
    if t != s {
      JobStep(cfg, s, t, c.call, t.calls[c.call].crew, index, t.calls[c.call].stages[index]);
    }
  }

  lemma RemoteKeeps(cfg: Config, s: Broker, c: Choice, index: nat)
    requires Invariant(cfg, s) && c.Remote? && c.call < |s.calls| && JobOf(s.calls[c.call], c.worker) == Some(index)
    ensures Invariant(cfg, StepWork(cfg, s, c, index))
  {
    var (t, r) := (StepWork(cfg, s, c, index), s.calls[c.call]);
    assert Queued(r.crew, r.stages) by { assert CallOk(cfg, s, c.call); }
    if r.stages[index].Cleared? {
      var evidence := r.stages[index].evidence;
      RemoteStep(cfg, s, t, c.call, r.crew, index, Executed(|s.executed|, c.ok, evidence),
                 Execution(c.call, index, r.aliases[index], r.command, r.limits, r.ticket, evidence));
    }
  }

  lemma ReportKeeps(cfg: Config, s: Broker, c: Choice, index: nat)
    requires Invariant(cfg, s) && c.Report? && c.call < |s.calls| && JobOf(s.calls[c.call], c.worker) == Some(index)
    ensures Invariant(cfg, StepWork(cfg, s, c, index))
  {
    var t := StepWork(cfg, s, c, index);
    assert CallOk(cfg, s, c.call) && StageOk(cfg, s, c.call, index);
    if t != s {
      JobStep(cfg, s, t, c.call, t.calls[c.call].crew, index, t.calls[c.call].stages[index]);
    }
  }

  lemma {:induction false} StepKeeps(cfg: Config, s: Broker, c: Choice)
    requires Invariant(cfg, s)
    ensures Invariant(cfg, Step(cfg, s, c))
  {
    if Enabled(s, c) {
      match c
      case Execute(_, _, _, _, _, _, _) => ExecuteKeeps(cfg, s, c);
      case ExecuteBatch(_, _, _, _, _, _) => ExecuteBatchKeeps(cfg, s, c);
      case ExecuteApproved(_, _, _, _) => ExecuteApprovedKeeps(cfg, s, c);
      case Manage(e) =>
        StoreStays(s.store, e);
        StoreStep(cfg, s, Step(cfg, s, c));
      case Wake(call) => WakeKeeps(cfg, s, call);
      case Take(_, _, _) => TakeKeeps(cfg, s, c);
      case Clear(call, worker, _) => ClearKeeps(cfg, s, c, JobOf(s.calls[call], worker).value);
      case Remote(call, worker, _) => RemoteKeeps(cfg, s, c, JobOf(s.calls[call], worker).value);
      case Report(call, worker, _) => ReportKeeps(cfg, s, c, JobOf(s.calls[call], worker).value);
      case _ => WaitingKeeps(cfg, s, c);
    }
  }

  lemma {:induction false} RunKeeps(cfg: Config, s: Broker, choices: seq<Choice>)
    requires Invariant(cfg, s)
    ensures Invariant(cfg, RunFrom(cfg, s, choices))
  {
    if choices != [] {
      RunKeeps(cfg, s, choices[..|choices| - 1]);
      StepKeeps(cfg, RunFrom(cfg, s, choices[..|choices| - 1]), choices[|choices| - 1]);
    }
  }

  // ---------- What the broker promises ----------

  /** The creation an execution goes back to. */
  ghost predicate ComesFrom(s: Broker, e: Execution, origin: nat) {
    && e.ticket.Some? && e.ticket.value < |s.store.granted|
    && s.store.granted[e.ticket.value].origin == origin < |s.store.created|
    && e.command == s.store.created[origin].command
    && e.limits == s.store.created[origin].limits
    && e.alias in s.store.created[origin].aliases
  }

  lemma TicketsBind(cfg: Config, s: Broker, at: nat)
    requires Invariant(cfg, s) && at < |s.executed| && s.executed[at].ticket.Some?
    ensures s.executed[at].ticket.value < |s.store.granted|
    ensures ComesFrom(s, s.executed[at], s.store.granted[s.executed[at].ticket.value].origin)
  {
    var e := s.executed[at];
    assert ExecutionOk(cfg, s, at);
    assert CallOk(cfg, s, e.call);
    assert e.alias in s.calls[e.call].aliases;
  }

  /** Two executions under one approval are on two aliases. */
  lemma OncePerAlias(cfg: Config, s: Broker, at: nat, at': nat)
    requires Invariant(cfg, s) && at < at' < |s.executed|
    requires s.executed[at].ticket.Some? && s.executed[at'].ticket.Some?
    requires s.executed[at].ticket.value < |s.store.granted| && s.executed[at'].ticket.value < |s.store.granted|
    requires s.store.granted[s.executed[at].ticket.value].origin == s.store.granted[s.executed[at'].ticket.value].origin
    ensures s.executed[at].alias != s.executed[at'].alias
  {
    var (e, e') := (s.executed[at], s.executed[at']);
    assert ExecutionOk(cfg, s, at) && ExecutionOk(cfg, s, at');
    assert CallOk(cfg, s, e.call) && CallOk(cfg, s, e'.call);
    assert e.ticket == e'.ticket;
    assert e.call == e'.call == s.holder[e.ticket.value];
    assert e.index != e'.index;
  }

  /** Under the enforcing policy, over every interleaving: each execution of a risky
      command comes from one created approval, with exactly its command and limits
      and on one of its aliases, after its own record was written to the audit log;
      and no approval leads to two executions on one alias. */
  lemma {:induction false} RiskyExecutionsAreApproved(cfg: Config, choices: seq<Choice>)
    requires cfg.policy == Enforce
    ensures var s := Run(cfg, choices);
            && (forall at :: 0 <= at < |s.executed| && Risky(cfg, s.executed[at].command) ==>
                  var e := s.executed[at];
                  && (exists origin :: ComesFrom(s, e, origin))
                  && e.evidence.Some? && e.evidence.value < |s.trail|
                  && s.trail[e.evidence.value] == Preflight(e.call, e.index, e.alias, e.command, e.ticket))
            && (forall at, at', origin :: 0 <= at < at' < |s.executed|
                  && ComesFrom(s, s.executed[at], origin) && ComesFrom(s, s.executed[at'], origin)
                  ==> s.executed[at].alias != s.executed[at'].alias)
  {
    var s := Run(cfg, choices);
    RunKeeps(cfg, START, choices);
    forall at | 0 <= at < |s.executed| && Risky(cfg, s.executed[at].command)
      ensures var e := s.executed[at];
              && (exists origin :: ComesFrom(s, e, origin))
              && e.evidence.Some? && e.evidence.value < |s.trail|
              && s.trail[e.evidence.value] == Preflight(e.call, e.index, e.alias, e.command, e.ticket)
    {
      assert ExecutionOk(cfg, s, at);
      assert CallOk(cfg, s, s.executed[at].call);
      TicketsBind(cfg, s, at);
    }
    forall at, at', origin | 0 <= at < at' < |s.executed|
        && ComesFrom(s, s.executed[at], origin) && ComesFrom(s, s.executed[at'], origin)
      ensures s.executed[at].alias != s.executed[at'].alias
    {
      OncePerAlias(cfg, s, at, at');
    }
  }

  /** A job was executed if and only if its call says so, and then exactly once. */
  lemma {:induction false} ReportsAreTrue(cfg: Config, choices: seq<Choice>, call: nat, index: nat)
    requires call < |Run(cfg, choices).calls| && Run(cfg, choices).calls[call].Running?
    requires index < |Run(cfg, choices).calls[call].stages|
    ensures var s := Run(cfg, choices);
            var stage := s.calls[call].stages[index];
            forall at :: 0 <= at < |s.executed| ==>
              ((s.executed[at].call == call && s.executed[at].index == index) <==> ExecutedAt(stage, at))
    ensures var s := Run(cfg, choices);
            var stage := s.calls[call].stages[index];
            (stage.Executed? || stage.Ran?) ==> stage.at < |s.executed|
  {
    var s := Run(cfg, choices);
    RunKeeps(cfg, START, choices);
    assert CallOk(cfg, s, call) && StageOk(cfg, s, call, index);
    forall at | 0 <= at < |s.executed|
      ensures (s.executed[at].call == call && s.executed[at].index == index)
              <==> ExecutedAt(s.calls[call].stages[index], at)
    {
      assert ExecutionOk(cfg, s, at);
    }
  }

  // ---------- Withdrawn approvals ----------

  /** Nothing of the approval is left to be used, and nothing was used. */
  ghost predicate Withdrawn(s: Broker, origin: nat) {
    Gone(s.store, origin) && forall t :: 0 <= t < |s.store.granted| ==> s.store.granted[t].origin != origin
  }

  /** The store goes through its own steps only, and nobody but its own users decides. */
  lemma StoreMoves(cfg: Config, s: Broker, c: Choice)
    ensures var t := Step(cfg, s, c);
            t.store == s.store
            || exists e: Event :: t.store == ApprovalSpec.Step(s.store, e).0 && (e.Decide? ==> c == Manage(e))
  {
    var t := Step(cfg, s, c);
    if Enabled(s, c) {
      match c
      case Execute(one, _, _, _, cleanupAt, random, createdAt) =>
        if t.store != s.store {
          var e := CreateBatch(Request([one.alias], one.command, Categories(cfg, one.command).value,
                                       LimitsOf(cfg, one.timeoutSeconds, one.maxOutput)), cleanupAt, random, createdAt);
          assert t.store == ApprovalSpec.Step(s.store, e).0;
        }
      case ExecuteBatch(many, _, _, cleanupAt, random, createdAt) =>
        if t.store != s.store {
          var e := CreateBatch(Request(NormalizeAliases(Trimmed(cfg, BatchAliases(cfg, many))), many.command,
                                       Categories(cfg, many.command).value,
                                       LimitsOf(cfg, many.timeoutSeconds, many.maxOutput)),
                               cleanupAt, random, createdAt);
          assert t.store == ApprovalSpec.Step(s.store, e).0;
        }
      case ExecuteApproved(id, code, _, now) =>
        assert t.store == s.store || t.store == ApprovalSpec.Step(s.store, Consume(id, code, now)).0;
      case Manage(e) =>
      case Wake(call) => assert t.store == ApprovalSpec.Step(s.store, WaitWake(s.calls[call].id)).0;
      case Timeout(call) => assert t.store == ApprovalSpec.Step(s.store, WaitTimeout(s.calls[call].id)).0;
      case Withdraw(call) => assert t.store == ApprovalSpec.Step(s.store, Revoke(s.calls[call].id)).0;
      case _ => assert t.store == s.store;
    }
  }

  lemma WithdrawnStays(cfg: Config, s: Broker, c: Choice, origin: nat)
    requires Invariant(cfg, s) && Withdrawn(s, origin)
    ensures Withdrawn(Step(cfg, s, c), origin)
  {
    var t := Step(cfg, s, c);
    StoreMoves(cfg, s, c);
    if t.store != s.store {
      var e :| t.store == ApprovalSpec.Step(s.store, e).0;
      GoneStays(s.store, e, origin);
      StepGrants(s.store, e);
    }
  }

  /** Revoking an approval whose creation could not be recorded, when nobody has used
      it yet, makes sure that it never leads to an execution. */
  lemma {:induction false} UnrecordedApprovalsNeverExecute(cfg: Config, s: Broker, call: nat, choices: seq<Choice>)
    requires Invariant(cfg, s) && call < |s.calls| && s.calls[call].Withdrawing?
    requires s.calls[call].id != "" && s.calls[call].id in s.store.items && !s.store.items[s.calls[call].id].used
    ensures var t := RunFrom(cfg, StepWithdraw(s, call), choices);
            forall at :: 0 <= at < |t.executed| ==>
              !ComesFrom(t, t.executed[at], s.store.items[s.calls[call].id].origin)
  {
    WithdrawMakesWithdrawn(cfg, s, call);
    WithdrawnForGood(cfg, StepWithdraw(s, call), choices, s.store.items[s.calls[call].id].origin);
  }

  lemma WithdrawMakesWithdrawn(cfg: Config, s: Broker, call: nat)
    requires Invariant(cfg, s) && call < |s.calls| && s.calls[call].Withdrawing?
    requires s.calls[call].id != "" && s.calls[call].id in s.store.items && !s.store.items[s.calls[call].id].used
    ensures Invariant(cfg, StepWithdraw(s, call))
    ensures Withdrawn(StepWithdraw(s, call), s.store.items[s.calls[call].id].origin)
  {
    RemovalsMakeGone(s.store, Revoke(s.calls[call].id));
    WaitingKeeps(cfg, s, Withdraw(call));
  }

  lemma {:induction false} WithdrawnForGood(cfg: Config, s: Broker, choices: seq<Choice>, origin: nat)
    requires Invariant(cfg, s) && Withdrawn(s, origin)
    ensures Withdrawn(RunFrom(cfg, s, choices), origin)
  {
    if choices != [] {
      WithdrawnForGood(cfg, s, choices[..|choices| - 1], origin);
      RunKeeps(cfg, s, choices[..|choices| - 1]);
      WithdrawnStays(cfg, RunFrom(cfg, s, choices[..|choices| - 1]), choices[|choices| - 1], origin);
    }
  }

  // ---------- Concurrency ----------

  function Weight(stage: Stage): nat {
    if stage.Opened? || stage.Cleared? || stage.Executed? then 1 else 0
  }

  lemma {:induction false} ActiveSet(stages: seq<Stage>, index: nat, stage: Stage)
    requires index < |stages|
    ensures Active(stages[index := stage]) == Active(stages) - Weight(stages[index]) + Weight(stage)
  {
    var t := stages[index := stage];
    var front := stages[..|stages| - 1];
    if index < |stages| - 1 {
      assert t[..|t| - 1] == front[index := stage];
      ActiveSet(front, index, stage);
    } else {
      assert t[..|t| - 1] == front;
    }
  }

  lemma {:induction false} NothingActive(n: nat)
    ensures Active(seq(n, _ => Pending)) == 0
  {
    if n > 0 {
      NothingActive(n - 1);
      assert seq(n, _ => Pending)[..n - 1] == seq(n - 1, _ => Pending);
    }
  }

  /** How many workers have something to do. */
  function Busy(workers: seq<Option<nat>>): (n: nat)
    ensures n <= |workers|
  {
    if workers == [] then 0
    else Busy(workers[..|workers| - 1]) + if workers[|workers| - 1].Some? then 1 else 0
  }

  lemma {:induction false} BusySet(workers: seq<Option<nat>>, w: nat, job: Option<nat>)
    requires w < |workers|
    ensures Busy(workers[w := job])
            == Busy(workers) - (if workers[w].Some? then 1 else 0) + if job.Some? then 1 else 0
  {
    var (t, front) := (workers[w := job], workers[..|workers| - 1]);
    if w < |workers| - 1 {
      assert t[..|t| - 1] == front[w := job];
      BusySet(front, w, job);
    } else {
      assert t[..|t| - 1] == front;
    }
  }

  lemma {:induction false} NobodyBusy(workers: seq<Option<nat>>)
    requires forall w :: 0 <= w < |workers| ==> workers[w] == None
    ensures Busy(workers) == 0
  {
    if workers != [] { NobodyBusy(workers[..|workers| - 1]); }
  }

  /** There are as many jobs under way as workers that have one, and at most 32 workers. */
  predicate Manned(c: Call) {
    match c
    case Running(_, _, _, _, crew, stages) => Active(stages) == Busy(crew.workers) && |crew.workers| <= 32
    case Waiting(_, _, limit) => limit <= 32
    case Listening(_, _, limit) => limit <= 32
    case _ => true
  }

  lemma TurnManned(c: Call, t: Call, w: nat, index: nat)
    requires c.Running? && t.Running? && Manned(c) && w < |c.crew.workers| && index < |c.stages|
    requires |t.crew.workers| == |c.crew.workers| && |t.stages| == |c.stages|
    requires t.crew.workers == c.crew.workers[w := t.crew.workers[w]] && t.stages == c.stages[index := t.stages[index]]
    requires Weight(t.stages[index]) - Weight(c.stages[index])
             == (if t.crew.workers[w].Some? then 1 else 0) - (if c.crew.workers[w].Some? then 1 else 0)
    ensures Manned(t)
  {
    ActiveSet(c.stages, index, t.stages[index]);
    BusySet(c.crew.workers, w, t.crew.workers[w]);
  }

  lemma TakeManned(s: Broker, c: Choice)
    requires c.Take? && c.call < |s.calls| && s.calls[c.call].Running? && c.worker < |s.calls[c.call].crew.workers|
    requires Manned(s.calls[c.call]) && Queued(s.calls[c.call].crew, s.calls[c.call].stages)
    ensures Manned(StepTake(s, c).calls[c.call])
  {
    var (r, t) := (s.calls[c.call], StepTake(s, c).calls[c.call]);
    if t != r { TurnManned(r, t, c.worker, r.crew.next); }
  }

  lemma WorkManned(cfg: Config, s: Broker, c: Choice, index: nat)
    requires (c.Clear? || c.Remote? || c.Report?) && c.call < |s.calls|
    requires JobOf(s.calls[c.call], c.worker) == Some(index)
    requires Manned(s.calls[c.call])
    ensures Manned(StepWork(cfg, s, c, index).calls[c.call])
  {
    var (r, t) := (s.calls[c.call], StepWork(cfg, s, c, index).calls[c.call]);
    if t != r { TurnManned(r, t, c.worker, index); }
  }

  lemma StartManned(cfg: Config, s: Broker, c: Choice)
    requires Enabled(s, c) && (c.Execute? || c.ExecuteBatch? || c.ExecuteApproved? || c.Wake?)
    requires AllManned(s)
    ensures AllManned(Step(cfg, s, c))
  {
    assert Active([Opened]) == 1 && Busy([Some(0)]) == 1;
  }

  ghost predicate AllManned(s: Broker) {
    forall i :: 0 <= i < |s.calls| ==> Manned(s.calls[i])
  }

  lemma TakerManned(cfg: Config, s: Broker, c: Choice)
    requires Invariant(cfg, s) && Enabled(s, c) && c.Take? && AllManned(s)
    ensures AllManned(StepTake(s, c))
  {
    assert CallOk(cfg, s, c.call);
    TakeManned(s, c);
  }

  lemma WorkerManned(cfg: Config, s: Broker, c: Choice, index: nat)
    requires (c.Clear? || c.Remote? || c.Report?) && AllManned(s) && c.call < |s.calls|
    requires JobOf(s.calls[c.call], c.worker) == Some(index)
    ensures AllManned(StepWork(cfg, s, c, index))
  {
    WorkManned(cfg, s, c, index);
  }

  lemma WaitingManned(cfg: Config, s: Broker, c: Choice)
    requires Enabled(s, c) && AllManned(s)
    requires c.Announce? || c.Withdraw? || c.Register? || c.Timeout? || c.Cancel? || c.Manage?
    ensures AllManned(Step(cfg, s, c))
  {
  }

  lemma StepManned(cfg: Config, s: Broker, c: Choice)
    requires Invariant(cfg, s) && AllManned(s)
    ensures AllManned(Step(cfg, s, c))
  {
    if Enabled(s, c) {
      if c.Take? {
        TakerManned(cfg, s, c);
      } else if c.Clear? || c.Remote? || c.Report? {
        WorkerManned(cfg, s, c, JobOf(s.calls[c.call], c.worker).value);
      } else if c.Execute? || c.ExecuteBatch? || c.ExecuteApproved? || c.Wake? {
        StartManned(cfg, s, c);
      } else {
        WaitingManned(cfg, s, c);
      }
    }
  }

  /** The aliases that are being worked on. */
  ghost function UnderWay(stages: seq<Stage>): set<nat> {
    set i: nat | i < |stages| && (stages[i].Opened? || stages[i].Cleared? || stages[i].Executed?)
  }

  lemma {:induction false} ActiveCounts(stages: seq<Stage>)
    ensures Active(stages) == |UnderWay(stages)|
  {
    if stages == [] {
      assert UnderWay(stages) == {};
    } else {
      var (n, front) := (|stages| - 1, stages[..|stages| - 1]);
      ActiveCounts(front);
      assert UnderWay(stages) == UnderWay(front) + if Weight(stages[n]) == 1 then {n} else {};
    }
  }

  /** No call ever works on more than 32 hosts at a time: every job under way occupies a
      worker of its own. */
  lemma {:induction false} AtMostThirtyTwo(cfg: Config, choices: seq<Choice>, call: nat)
    requires call < |Run(cfg, choices).calls| && Run(cfg, choices).calls[call].Running?
    ensures |UnderWay(Run(cfg, choices).calls[call].stages)| <= |Run(cfg, choices).calls[call].crew.workers| <= 32
  {
    EveryoneManned(cfg, choices);
    ActiveCounts(Run(cfg, choices).calls[call].stages);
  }

  lemma {:induction false} EveryoneManned(cfg: Config, choices: seq<Choice>)
    ensures AllManned(Run(cfg, choices))
  {
    if choices != [] {
      EveryoneManned(cfg, choices[..|choices| - 1]);
      RunKeeps(cfg, START, choices[..|choices| - 1]);
      StepManned(cfg, Run(cfg, choices[..|choices| - 1]), choices[|choices| - 1]);
    }
  }

  // ---------- Aliases of a batch ----------

  /** Trims, and drops empty and repeated aliases, within the same array. */
  method FilterAliases(cfg: Config, aliases: array<string>) returns (n: nat)
    modifies aliases
    ensures n <= aliases.Length
    ensures aliases[..n] == NormalizeAliases(Trimmed(cfg, old(aliases[..])))
  {
    n := 0;
    var next := 0;
    ghost var was := aliases[..];
    while next < aliases.Length
      invariant n <= next <= aliases.Length
      invariant aliases[..n] == NormalizeAliases(Trimmed(cfg, was[..next]))
      invariant forall i :: next <= i < aliases.Length ==> aliases[i] == was[i]
    {
      TrimmedMore(cfg, was, next);
      n := KeepAlias(aliases, n, next, cfg.trim(aliases[next]));
      next := next + 1;
    }
    assert was[..next] == was;
  }

  /** Puts an alias behind the ones that are kept, unless it is one of them or empty. */
  method KeepAlias(aliases: array<string>, n: nat, next: nat, alias: string) returns (m: nat)
    requires n <= next < aliases.Length
    modifies aliases
    ensures m <= next + 1
    ensures aliases[..m] == if alias == "" || alias in old(aliases[..n]) then old(aliases[..n])
                            else old(aliases[..n]) + [alias]
    ensures forall i :: next < i < aliases.Length ==> aliases[i] == old(aliases[i])
  {
    m := n;
    if alias != "" && alias !in aliases[..n] {
      aliases[n] := alias;
      m := n + 1;
    }
  }

  lemma TrimmedMore(cfg: Config, was: seq<string>, n: nat)
    requires n < |was|
    ensures var (a, r) := (cfg.trim(was[n]), NormalizeAliases(Trimmed(cfg, was[..n])));
            NormalizeAliases(Trimmed(cfg, was[..n + 1])) == if a == "" || a in r then r else r + [a]
  {
    var t := Trimmed(cfg, was[..n + 1]);
    assert t[..|t| - 1] == Trimmed(cfg, was[..n]);
  }

  lemma {:induction false} NormalizedAlready(aliases: seq<string>)
    requires Apart(aliases) && "" !in aliases
    ensures NormalizeAliases(aliases) == aliases
  {
    if aliases != [] {
      var front := aliases[..|aliases| - 1];
      assert aliases == front + [aliases[|aliases| - 1]];
      NormalizedAlready(front);
    }
  }

  lemma CreationAsks(store: System, request: Request, cleanupAt: int, random: Random, createdAt: int)
    ensures var (t, o) := ApprovalSpec.Step(store, CreateBatch(request, cleanupAt, random, createdAt));
            if o == Ok then t.created == store.created + [Normalized(request)] && random.Drawn?
                            && random.id in t.items && t.items[random.id].origin == |store.created|
            else t.created == store.created
  {
  }

  /** One request was put up for approval under `id`. */
  ghost predicate PutUp(before: System, after: System, id: string) {
    && |after.created| == |before.created| + 1 && before.created <= after.created
    && id in after.items && after.items[id].origin == |before.created|
  }

  /** The command, the risks and the limits of a request. */
  ghost predicate Asks(cfg: Config, r: Request, command: Bytes, timeoutSeconds: int, maxOutput: int) {
    r.command == command && Some(r.categories) == cfg.analyze(command) && r.categories != {}
    && IsLimits(cfg, timeoutSeconds, maxOutput, r.limits)
  }

  /** The store's own cleaning of the aliases changes nothing about a batch: what is
      put up for approval is the whole batch as it would have run. */
  lemma BatchKeepsItsAliases(cfg: Config, s: Broker, c: Choice)
    requires c.ExecuteBatch? && StepExecuteBatch(cfg, s, c).store.created != s.store.created
    ensures cfg.policy == Enforce
    ensures var (t, n) := (StepExecuteBatch(cfg, s, c), |s.store.created|);
            && PutUp(s.store, t.store, c.random.id)
            && Asks(cfg, t.store.created[n], c.many.command, c.many.timeoutSeconds, c.many.maxOutput)
            && ListsTrimmed(cfg, t.store.created[n].aliases, BatchAliases(cfg, c.many))
            && t.calls == s.calls + [if c.wait then Waiting(c.random.id, true, Concurrency(cfg, c.many.concurrency))
                                     else Answered(RequiresApproval(c.random.id))]
  {
    var asked := BatchAliases(cfg, c.many);
    var aliases := NormalizeAliases(Trimmed(cfg, asked));
    TrimmedAreListed(cfg, asked);
    NormalizedAlready(aliases);
    assert Categories(cfg, c.many.command).Some?;
    CreationAsks(s.store, Request(aliases, c.many.command, Categories(cfg, c.many.command).value,
                                  LimitsOf(cfg, c.many.timeoutSeconds, c.many.maxOutput)),
                 c.cleanupAt, c.random, c.createdAt);
  }

  lemma NoAlias()
    ensures NormalizeAliases([""]) == []
  {
    assert NormalizeAliases([]) == [];
  }

  lemma NormalizedOne(alias: string)
    ensures NormalizeAliases([alias]) == if alias == "" then [] else [alias]
  {
    NoAlias();
    if alias != "" { NormalizedAlready([alias]); }
  }

  /** The same for a single request. */
  lemma RequestIsPutUp(cfg: Config, s: Broker, c: Choice)
    requires c.Execute? && StepExecute(cfg, s, c).store.created != s.store.created
    ensures cfg.policy == Enforce
    ensures var (t, n) := (StepExecute(cfg, s, c), |s.store.created|);
            && PutUp(s.store, t.store, c.random.id)
            && Asks(cfg, t.store.created[n], c.one.command, c.one.timeoutSeconds, c.one.maxOutput)
            && t.store.created[n].aliases == [c.one.alias]
            && t.calls == s.calls + [Announcing(c.random.id, c.wait)]
  {
    var categories := Categories(cfg, c.one.command);
    assert categories.Some? && categories.value != {};
    var request := Request([c.one.alias], c.one.command, categories.value,
                           LimitsOf(cfg, c.one.timeoutSeconds, c.one.maxOutput));
    NormalizedOne(c.one.alias);
    CreationAsks(s.store, request, c.cleanupAt, c.random, c.createdAt);
    if c.one.alias == "" { EmptyIsRefused(s.store, request, c.cleanupAt, c.random, c.createdAt); }
  }

  lemma EmptyIsRefused(store: System, request: Request, cleanupAt: int, random: Random, createdAt: int)
    requires NormalizeAliases(request.aliases) == []
    ensures ApprovalSpec.Step(store, CreateBatch(request, cleanupAt, random, createdAt)).0 == store
  {
  }
}
