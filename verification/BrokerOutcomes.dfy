/** What becomes of a call: which work it takes on, how each part of it ends, what its
    warnings mean, and when a waiting call is told to go ahead. */
module BrokerOutcomes {
  import opened Basics
  import opened BrokerService
  import ApprovalSpec

  // ---------- What a call takes on ----------

  /** A call that has just begun to run: nothing was sent to any of its workers. */
  ghost predicate Begins(c: Call, ticket: Option<nat>, aliases: seq<string>, command: Bytes, workers: nat) {
    && c.Running? && c.ticket == ticket && c.aliases == aliases && c.command == command
    && c.crew.next == 0 && |c.crew.workers| == workers && (forall w :: 0 <= w < workers ==> c.crew.workers[w] == None)
    && |c.stages| == |aliases| && (forall i :: 0 <= i < |aliases| ==> c.stages[i] == Pending)
  }

  /** As many workers as were asked for, or as configured; 32 at most. */
  ghost predicate IsConcurrency(cfg: Config, asked: int, workers: nat) {
    var wanted := if asked > 0 then asked else cfg.concurrency;
    workers <= wanted && workers <= 32 && (workers == wanted || workers == 32)
  }

  /** The policy lets the command run without an approval. */
  ghost predicate RunsAtOnce(cfg: Config, command: Bytes) {
    cfg.policy == Off || (cfg.analyze(command).Some? && (cfg.policy == Warn || cfg.analyze(command) == Some({})))
  }

  /** A batch that needs no approval runs on every alias that was asked for, each once
      and in order of first appearance. */
  lemma BatchRunsItsAliases(cfg: Config, s: Broker, c: Choice)
    requires c.ExecuteBatch? && c.alive && !cfg.blank(c.many.command) && RunsAtOnce(cfg, c.many.command)
    requires 1 <= |BatchAliases(cfg, c.many)| <= 256
    ensures var t := StepExecuteBatch(cfg, s, c);
            && t == s.(calls := t.calls) && |t.calls| == |s.calls| + 1 && s.calls <= t.calls
            && var r := t.calls[|s.calls|];
            && r.Running? && Begins(r, None, r.aliases, c.many.command, |r.crew.workers|)
            && ListsTrimmed(cfg, r.aliases, BatchAliases(cfg, c.many))
            && IsLimits(cfg, c.many.timeoutSeconds, c.many.maxOutput, r.limits)
            && IsConcurrency(cfg, c.many.concurrency, |r.crew.workers|)
  {
    TrimmedAreListed(cfg, BatchAliases(cfg, c.many));
  }

  /** A single request that needs no approval starts on its one alias. */
  lemma RequestRunsAtOnce(cfg: Config, s: Broker, c: Choice)
    requires c.Execute? && c.alive && c.known && ValidExecuteRequest(cfg, c.one) && RunsAtOnce(cfg, c.one.command)
    ensures var t := StepExecute(cfg, s, c);
            && t == s.(calls := t.calls) && |t.calls| == |s.calls| + 1 && s.calls <= t.calls
            && var r := t.calls[|s.calls|];
            && r.Running? && r.ticket == None && r.aliases == [c.one.alias] && r.command == c.one.command
            && r.stages == [Opened] && r.crew == Crew([Some(0)], 1)
            && IsLimits(cfg, c.one.timeoutSeconds, c.one.maxOutput, r.limits)
  {
  }

  /** Which single requests are refused before anything happens. */
  lemma RequestIsInvalidIff(cfg: Config, s: Broker, c: Choice)
    requires c.Execute?
    ensures StepExecute(cfg, s, c) == s.(calls := s.calls + [Answered(Failed(Validation))]) <==>
              || !c.alive || !c.known || cfg.trim(c.one.alias) == "" || cfg.blank(c.one.command)
              || |c.one.command| > 131072 || c.one.timeoutSeconds < 0 || c.one.timeoutSeconds > 1800
              || c.one.maxOutput < 0 || c.one.maxOutput > 4194304
              || (cfg.policy != Off && cfg.analyze(c.one.command) == None)
  {
    var t := StepExecute(cfg, s, c);
    assert |t.calls| == |s.calls| + 1;
    assert t.calls[|s.calls|] != Answered(Failed(Validation)) ==>
             t.calls != s.calls + [Answered(Failed(Validation))];
  }

  /** Which batches are. */
  lemma BatchIsInvalidIff(cfg: Config, s: Broker, c: Choice)
    requires c.ExecuteBatch?
    ensures StepExecuteBatch(cfg, s, c) == s.(calls := s.calls + [Answered(Failed(Validation))]) <==>
              || !c.alive || cfg.blank(c.many.command) || BatchAliases(cfg, c.many) == []
              || |BatchAliases(cfg, c.many)| > 256 || (cfg.policy != Off && cfg.analyze(c.many.command) == None)
  {
    var t := StepExecuteBatch(cfg, s, c);
    assert |t.calls| == |s.calls| + 1;
    assert t.calls[|s.calls|] != Answered(Failed(Validation)) ==>
             t.calls != s.calls + [Answered(Failed(Validation))];
  }

  /** What is handed out is what was asked for at one creation. */
  lemma GrantIsOfCreation(store: ApprovalSpec.System, e: ApprovalSpec.Event)
    requires StoreOk(store) && ApprovalSpec.Step(store, e).1.Granted?
    ensures var g := ApprovalSpec.Step(store, e).1.grant;
            && g.origin < |store.created| && g.request == store.created[g.origin] && g.request.aliases != []
  {
    ApprovalSpec.StepGrants(store, e);
    assert !store.items[e.id].used;
  }

  lemma HandBegins(s: Broker, call: nat, store: ApprovalSpec.System, grant: ApprovalSpec.Grant, batch: bool, limit: nat)
    requires call < |s.calls| && grant.request.aliases != []
    ensures var t := Hand(s, call, store, grant, batch, limit);
            && |t.calls| == |s.calls| && t.calls[..call] == s.calls[..call]
            && Begins(t.calls[call], Some(|s.store.granted|),
                      if batch then grant.request.aliases else [grant.request.aliases[0]], grant.request.command, limit)
            && t.calls[call].limits == grant.request.limits
  {
  }

  /** A call that is woken with an approval runs exactly what was approved: a batch on
      every alias, a single request on its one. */
  lemma WokenRunsWhatWasApproved(cfg: Config, s: Broker, call: nat)
    requires Invariant(cfg, s) && call < |s.calls| && s.calls[call].Listening?
    requires ApprovalSpec.Step(s.store, ApprovalSpec.WaitWake(s.calls[call].id)).1.Granted?
    ensures var origin := ApprovalSpec.Step(s.store, ApprovalSpec.WaitWake(s.calls[call].id)).1.grant.origin;
            && origin < |s.store.created| && s.store.created[origin].aliases != []
            && var (r, asked) := (StepWake(s, call).calls[call], s.store.created[origin]);
            && Begins(r, Some(|s.store.granted|),
                      if s.calls[call].batch then asked.aliases else [asked.aliases[0]], asked.command,
                      s.calls[call].limit)
            && r.limits == asked.limits
  {
    var e := ApprovalSpec.WaitWake(s.calls[call].id);
    var (store, o) := ApprovalSpec.Step(s.store, e);
    GrantIsOfCreation(s.store, e);
    HandBegins(s, call, store, o.grant, s.calls[call].batch, s.calls[call].limit);
  }

  /** So does a call that used the approval's code, on the first alias. */
  lemma ConsumedRunsWhatWasApproved(cfg: Config, s: Broker, c: Choice)
    requires Invariant(cfg, s) && c.ExecuteApproved? && c.alive && c.code != ""
    requires ApprovalSpec.Step(s.store, ApprovalSpec.Consume(c.id, c.code, c.now)).1.Granted?
    ensures var origin := ApprovalSpec.Step(s.store, ApprovalSpec.Consume(c.id, c.code, c.now)).1.grant.origin;
            && origin < |s.store.created| && s.store.created[origin].aliases != []
            && var (t, asked) := (StepExecuteApproved(s, c), s.store.created[origin]);
            && |t.calls| == |s.calls| + 1 && s.calls <= t.calls
            && Begins(t.calls[|s.calls|], Some(|s.store.granted|), [asked.aliases[0]], asked.command, 1)
            && t.calls[|s.calls|].limits == asked.limits
  {
    var e := ApprovalSpec.Consume(c.id, c.code, c.now);
    var (store, o) := ApprovalSpec.Step(s.store, e);
    GrantIsOfCreation(s.store, e);
    HandBegins(WithCall(s, Answered(Failed(Approval))), |s.calls|, store, o.grant, false, 1);
  }

  /** A call with a code runs exactly if the store hands the approval out for it, and is
      refused otherwise. */
  lemma ConsumedOrRefused(cfg: Config, s: Broker, c: Choice)
    requires c.ExecuteApproved?
    ensures var t := StepExecuteApproved(s, c);
            && |t.calls| == |s.calls| + 1 && t.calls[..|s.calls|] == s.calls
            && (t.calls[|s.calls|].Running? <==>
                  && c.alive && c.id != "" && c.code != "" && |c.code| == 4 && c.id in s.store.items
                  && c.now < s.store.items[c.id].expiresAt && !s.store.items[c.id].used
                  && s.store.items[c.id].code == c.code)
            && (!t.calls[|s.calls|].Running? ==> t.calls[|s.calls|] == Answered(Failed(Approval)))
  {
    ApprovalSpec.ConsumeSucceedsIff(s.store, c.id, c.code, c.now);
  }

  /** A call goes on to listen for the same approval, with the same work ahead, exactly if
      its record is still there. */
  lemma RegisteredListens(s: Broker, call: nat)
    requires call < |s.calls| && s.calls[call].Waiting?
    ensures var (c, t) := (s.calls[call], StepRegister(s, call));
            && |t.calls| == |s.calls| && t == s.(calls := t.calls)
            && t.calls[call] == if c.id in s.store.items then Listening(c.id, c.batch, c.limit)
                                else Answered(Answer.Denied)
  {
  }

  /** A call that gives up is answered as denied; only when the time of the approval has
      run out does its record go. */
  lemma GivingUpIsDenied(cfg: Config, s: Broker, call: nat)
    requires call < |s.calls| && s.calls[call].Listening?
    ensures BrokerService.Step(cfg, s, Cancel(call)) == s.(calls := s.calls[call := Answered(Answer.Denied)])
    ensures var t := BrokerService.Step(cfg, s, Timeout(call));
            && t.calls == s.calls[call := Answered(Answer.Denied)]
            && t.store == s.store.(items := s.store.items - {s.calls[call].id})
  {
  }

  /** A free worker takes the next alias: it starts on it if the secret is there, and
      otherwise that alias is done with and the worker free again. */
  lemma TakeTells(cfg: Config, s: Broker, call: nat, w: nat, known: bool)
    requires call < |s.calls| && s.calls[call].Running? && w < |s.calls[call].crew.workers|
    requires s.calls[call].crew.workers[w] == None && |s.calls[call].stages| == |s.calls[call].aliases|
    requires s.calls[call].crew.next < |s.calls[call].stages|
    ensures var (i, t) := (s.calls[call].crew.next, BrokerService.Step(cfg, s, Take(call, w, known)));
            && (if known then AtWork(t, call, w, i, Opened) else Done(t, call, w, i, Unknown))
            && t.calls[call].crew.next == i + 1
  {
  }

  // ---------- How each part of a call ends ----------

  lemma {:induction false} NobodyIdles(stages: seq<Stage>, i: nat)
    requires Active(stages) == 0 && i < |stages|
    ensures Weight(stages[i]) == 0
  {
    if i < |stages| - 1 { NobodyIdles(stages[..|stages| - 1], i); }
  }

  /** Once every alias has been sent to a worker and no worker has anything left to do,
      each alias that the call stands for has ended: it ran, or its secret was not
      there, or it could not be recorded. */
  lemma {:induction false} FinishedMeansAllDone(cfg: Config, choices: seq<Choice>, call: nat, i: nat)
    requires call < |Run(cfg, choices).calls| && Run(cfg, choices).calls[call].Running?
    requires var c := Run(cfg, choices).calls[call];
             && c.crew.next == |c.stages| && i < |c.aliases|
             && forall w :: 0 <= w < |c.crew.workers| ==> c.crew.workers[w] == None
    ensures var c := Run(cfg, choices).calls[call];
            && i < |c.stages| && (c.stages[i].Ran? || c.stages[i].Unknown? || c.stages[i].Unaudited?)
  {
    var s := Run(cfg, choices);
    RunKeeps(cfg, START, choices);
    EveryoneManned(cfg, choices);
    assert CallOk(cfg, s, call) && Manned(s.calls[call]);
    NobodyBusy(s.calls[call].crew.workers);
    NobodyIdles(s.calls[call].stages, i);
  }

  /** One worker's three steps on an alias. */
  function Job(call: nat, w: nat, written: bool, ok: bool, noted: bool): seq<Choice> {
    [Clear(call, w, written), Remote(call, w, ok), Report(call, w, noted)]
  }

  lemma RunThree(cfg: Config, s: Broker, a: Choice, b: Choice, c: Choice)
    ensures RunFrom(cfg, s, [a, b, c])
            == BrokerService.Step(cfg, BrokerService.Step(cfg, BrokerService.Step(cfg, s, a), b), c)
  {
    var (one, two, three) := ([a], [a, b], [a, b, c]);
    assert three[..2] == two && two[..1] == one && one[..0] == [];
    assert RunFrom(cfg, s, one) == BrokerService.Step(cfg, s, a);
    assert RunFrom(cfg, s, two) == BrokerService.Step(cfg, RunFrom(cfg, s, one), b);
  }

  /** A worker with nothing to do, and the stage of the alias it had. */
  ghost predicate Done(s: Broker, call: nat, w: nat, i: nat, stage: Stage) {
    && call < |s.calls| && s.calls[call].Running? && w < |s.calls[call].crew.workers|
    && s.calls[call].crew.workers[w] == None && i < |s.calls[call].stages| && s.calls[call].stages[i] == stage
  }

  ghost predicate AtWork(s: Broker, call: nat, w: nat, i: nat, stage: Stage) {
    call < |s.calls| && JobOf(s.calls[call], w) == Some(i) && s.calls[call].stages[i] == stage
  }

  lemma ClearTells(cfg: Config, s: Broker, call: nat, w: nat, i: nat, written: bool)
    requires AtWork(s, call, w, i, Opened)
    ensures var t := BrokerService.Step(cfg, s, Clear(call, w, written));
            && t.executed == s.executed
            && if written || (!cfg.failClosed && s.calls[call].ticket == None)
               then AtWork(t, call, w, i, Cleared(if written then Some(|s.trail|) else None))
               else Done(t, call, w, i, Unaudited)
  {
  }

  lemma RemoteTells(cfg: Config, s: Broker, call: nat, w: nat, i: nat, evidence: Option<nat>, ok: bool)
    requires AtWork(s, call, w, i, Cleared(evidence))
    ensures var t := BrokerService.Step(cfg, s, Remote(call, w, ok));
            AtWork(t, call, w, i, Executed(|s.executed|, ok, evidence))
  {
  }

  lemma ReportTells(cfg: Config, s: Broker, call: nat, w: nat, i: nat, at: nat, ok: bool, evidence: Option<nat>,
                    noted: bool)
    requires AtWork(s, call, w, i, Executed(at, ok, evidence))
    ensures var t := BrokerService.Step(cfg, s, Report(call, w, noted));
            Done(t, call, w, i, Ran(at, ok, !(evidence.Some? && noted)))
  {
  }

  lemma NothingToDo(cfg: Config, s: Broker, call: nat, w: nat, i: nat, stage: Stage, ok: bool, noted: bool)
    requires Done(s, call, w, i, stage)
    ensures BrokerService.Step(cfg, s, Remote(call, w, ok)) == s
    ensures BrokerService.Step(cfg, s, Report(call, w, noted)) == s
  {
  }

  /** A job that goes through tells what happened: it carries the outcome of the remote
      command, and a warning unless both of its records were written. */
  lemma JobTellsWhatHappened(cfg: Config, s: Broker, call: nat, w: nat, i: nat, written: bool, ok: bool, noted: bool)
    requires AtWork(s, call, w, i, Opened)
    ensures Done(RunFrom(cfg, s, Job(call, w, written, ok, noted)), call, w, i,
                 if written || (!cfg.failClosed && s.calls[call].ticket == None)
                 then Ran(|s.executed|, ok, !(written && noted)) else Unaudited)
  {
    RunThree(cfg, s, Clear(call, w, written), Remote(call, w, ok), Report(call, w, noted));
    var t := BrokerService.Step(cfg, s, Clear(call, w, written));
    ClearTells(cfg, s, call, w, i, written);
    if written || (!cfg.failClosed && s.calls[call].ticket == None) {
      var evidence := if written then Some(|s.trail|) else None;
      RemoteTells(cfg, t, call, w, i, evidence, ok);
      ReportTells(cfg, BrokerService.Step(cfg, t, Remote(call, w, ok)), call, w, i, |s.executed|, ok, evidence, noted);
    } else {
      NothingToDo(cfg, t, call, w, i, Unaudited, ok, noted);
    }
  }

  // ---------- What a warning means ----------

  /** A final record is there only for a job that has ended, and a job that has ended
      carries a warning unless both of its records are there. */
  ghost predicate StageTrue(s: Broker, call: nat, index: nat, stage: Stage) {
    match stage
    case Executed(at, _, evidence) => at < |s.executed| && s.executed[at].evidence == evidence
    case Ran(at, _, warned) =>
      at < |s.executed| && (warned <==> s.executed[at].evidence == None || Final(call, index) !in s.trail)
    case _ => true
  }

  ghost predicate FinalTrue(s: Broker, call: nat, index: nat) {
    call < |s.calls| && s.calls[call].Running? && index < |s.calls[call].stages| && s.calls[call].stages[index].Ran?
  }

  ghost predicate Truthful(s: Broker) {
    && (forall k :: 0 <= k < |s.trail| && s.trail[k].Final? ==> FinalTrue(s, s.trail[k].call, s.trail[k].index))
    && (forall call, index :: 0 <= call < |s.calls| && s.calls[call].Running? && 0 <= index < |s.calls[call].stages| ==>
          StageTrue(s, call, index, s.calls[call].stages[index]))
  }

  ghost predicate Untouched(stages: seq<Stage>) {
    forall k :: 0 <= k < |stages| ==> stages[k].Pending? || stages[k].Opened?
  }

  /** Calls begin, or wait, or are answered. */
  lemma TruthWithCalls(s: Broker, t: Broker)
    requires Truthful(s) && t.executed == s.executed && s.trail <= t.trail && |s.calls| <= |t.calls|
    requires forall k :: |s.trail| <= k < |t.trail| ==> !t.trail[k].Final?
    requires forall i :: 0 <= i < |s.calls| && s.calls[i].Running? ==> t.calls[i] == s.calls[i]
    requires forall i :: 0 <= i < |t.calls| && t.calls[i].Running? && !(i < |s.calls| && s.calls[i].Running?)
               ==> Untouched(t.calls[i].stages)
    ensures Truthful(t)
  {
    forall k | 0 <= k < |t.trail| && t.trail[k].Final? ensures FinalTrue(t, t.trail[k].call, t.trail[k].index) {
      assert t.trail[k] == s.trail[k];
    }
    forall call, index | 0 <= call < |t.calls| && t.calls[call].Running? && 0 <= index < |t.calls[call].stages|
      ensures StageTrue(t, call, index, t.calls[call].stages[index])
    {
      if call < |s.calls| && s.calls[call].Running? {
        assert StageTrue(s, call, index, s.calls[call].stages[index]);
        SameFinals(s.trail, t.trail, Final(call, index));
      }
    }
  }

  lemma SameFinals(a: seq<Record>, b: seq<Record>, r: Record)
    requires a <= b && forall k :: |a| <= k < |b| ==> b[k] != r
    ensures r in a <==> r in b
  {
    assert b == a + b[|a|..];
  }

  /** One alias of a running call goes on. */
  lemma TruthWithStage(s: Broker, t: Broker, call: nat, index: nat)
    requires Truthful(s) && s.executed <= t.executed && s.trail <= t.trail
    requires call < |s.calls| == |t.calls| && s.calls[call].Running? && t.calls[call].Running?
    requires index < |s.calls[call].stages| && !s.calls[call].stages[index].Ran?
    requires forall i :: 0 <= i < |s.calls| && i != call ==> t.calls[i] == s.calls[i]
    requires |t.calls[call].stages| == |s.calls[call].stages|
    requires t.calls[call].stages == s.calls[call].stages[index := t.calls[call].stages[index]]
    requires forall k :: |s.trail| <= k < |t.trail| && t.trail[k].Final? ==>
               t.trail[k] == Final(call, index) && t.calls[call].stages[index].Ran?
    requires StageTrue(t, call, index, t.calls[call].stages[index])
    ensures Truthful(t)
  {
    forall k | 0 <= k < |t.trail| && t.trail[k].Final? ensures FinalTrue(t, t.trail[k].call, t.trail[k].index) {
      if k < |s.trail| { assert FinalTrue(s, s.trail[k].call, s.trail[k].index); }
    }
    forall i, k | 0 <= i < |t.calls| && t.calls[i].Running? && 0 <= k < |t.calls[i].stages|
      ensures StageTrue(t, i, k, t.calls[i].stages[k])
    {
      if i != call || k != index {
        assert StageTrue(s, i, k, s.calls[i].stages[k]);
        SameFinals(s.trail, t.trail, Final(i, k));
      }
    }
  }

  lemma TakeTruth(cfg: Config, s: Broker, c: Choice)
    requires Invariant(cfg, s) && Truthful(s) && c.Take? && Enabled(s, c)
    ensures Truthful(BrokerService.Step(cfg, s, c))
  {
    var t := BrokerService.Step(cfg, s, c);
    assert CallOk(cfg, s, c.call);
    if t != s { TruthWithStage(s, t, c.call, s.calls[c.call].crew.next); }
  }

  lemma NoFinalYet(s: Broker, call: nat, index: nat)
    requires Truthful(s) && call < |s.calls| && s.calls[call].Running? && index < |s.calls[call].stages|
    requires !s.calls[call].stages[index].Ran?
    ensures Final(call, index) !in s.trail
  {
  }

  lemma WorkTruth(cfg: Config, s: Broker, c: Choice, index: nat)
    requires Truthful(s) && (c.Clear? || c.Remote? || c.Report?)
    requires c.call < |s.calls| && JobOf(s.calls[c.call], c.worker) == Some(index)
    ensures Truthful(StepWork(cfg, s, c, index))
  {
    var t := StepWork(cfg, s, c, index);
    var stage := s.calls[c.call].stages[index];
    assert StageTrue(s, c.call, index, stage);
    if t != s {
      NoFinalYet(s, c.call, index);
      if c.Report? && c.written { assert t.trail[|s.trail|] == Final(c.call, index); }
      TruthWithStage(s, t, c.call, index);
    }
  }

  lemma HandTruth(s: Broker, call: nat, store: ApprovalSpec.System, grant: ApprovalSpec.Grant, batch: bool, limit: nat)
    requires Truthful(s) && call < |s.calls| && !s.calls[call].Running?
    ensures Truthful(Hand(s, call, store, grant, batch, limit))
  {
    TruthWithCalls(s, Hand(s, call, store, grant, batch, limit));
  }

  lemma ApprovedTruth(s: Broker, c: Choice)
    requires Truthful(s) && c.ExecuteApproved?
    ensures Truthful(StepExecuteApproved(s, c))
  {
    var refused := WithCall(s, Answered(Failed(Approval)));
    TruthWithCalls(s, refused);
    var (store, o) := ApprovalSpec.Step(s.store, ApprovalSpec.Consume(c.id, c.code, c.now));
    if o.Granted? { HandTruth(refused, |s.calls|, store, o.grant, false, 1); }
  }

  lemma WakeTruth(s: Broker, call: nat)
    requires Truthful(s) && call < |s.calls| && s.calls[call].Listening?
    ensures Truthful(StepWake(s, call))
  {
    var c := s.calls[call];
    var (store, o) := ApprovalSpec.Step(s.store, ApprovalSpec.WaitWake(c.id));
    if o.Granted? {
      HandTruth(s, call, store, o.grant, c.batch, c.limit);
    } else {
      TruthWithCalls(s, StepWake(s, call));
    }
  }

  lemma RequestTruth(cfg: Config, s: Broker, c: Choice)
    requires Truthful(s) && (c.Execute? || c.ExecuteBatch?)
    ensures Truthful(BrokerService.Step(cfg, s, c))
  {
    TruthWithCalls(s, BrokerService.Step(cfg, s, c));
  }

  lemma WaitingTruth(cfg: Config, s: Broker, c: Choice)
    requires Truthful(s) && Enabled(s, c)
    requires c.Manage? || c.Announce? || c.Withdraw? || c.Register? || c.Timeout? || c.Cancel?
    ensures Truthful(BrokerService.Step(cfg, s, c))
  {
    TruthWithCalls(s, BrokerService.Step(cfg, s, c));
  }

  lemma TruthKeeps(cfg: Config, s: Broker, c: Choice)
    requires Invariant(cfg, s) && Truthful(s)
    ensures Truthful(BrokerService.Step(cfg, s, c))
  {
    if Enabled(s, c) {
      if c.Take? {
        TakeTruth(cfg, s, c);
      } else if c.Clear? || c.Remote? || c.Report? {
        WorkTruth(cfg, s, c, JobOf(s.calls[c.call], c.worker).value);
      } else if c.ExecuteApproved? {
        ApprovedTruth(s, c);
      } else if c.Wake? {
        WakeTruth(s, c.call);
      } else if c.Execute? || c.ExecuteBatch? {
        RequestTruth(cfg, s, c);
      } else {
        WaitingTruth(cfg, s, c);
      }
    }
  }

  lemma {:induction false} RunIsTruthful(cfg: Config, choices: seq<Choice>)
    ensures Truthful(Run(cfg, choices))
  {
    if choices != [] {
      var front := choices[..|choices| - 1];
      RunIsTruthful(cfg, front);
      RunKeeps(cfg, START, front);
      TruthKeeps(cfg, Run(cfg, front), choices[|choices| - 1]);
    }
  }

  /** Over every interleaving: a job that ran carries no warning exactly if the record
      from before its execution and its final record are both in the audit log. */
  lemma {:induction false} WarnedIffUnrecorded(cfg: Config, choices: seq<Choice>, call: nat, index: nat)
    requires call < |Run(cfg, choices).calls| && Run(cfg, choices).calls[call].Running?
    requires index < |Run(cfg, choices).calls[call].stages| && Run(cfg, choices).calls[call].stages[index].Ran?
    ensures var s := Run(cfg, choices);
            var (c, stage) := (s.calls[call], s.calls[call].stages[index]);
            && |c.aliases| == |c.stages| && stage.at < |s.executed|
            && (!stage.warned <==>
                  && s.executed[stage.at].evidence.Some? && s.executed[stage.at].evidence.value < |s.trail|
                  && s.trail[s.executed[stage.at].evidence.value]
                     == Preflight(call, index, c.aliases[index], c.command, c.ticket)
                  && Final(call, index) in s.trail)
  {
    var s := Run(cfg, choices);
    RunKeeps(cfg, START, choices);
    RunIsTruthful(cfg, choices);
    assert CallOk(cfg, s, call) && StageOk(cfg, s, call, index);
    assert StageTrue(s, call, index, s.calls[call].stages[index]);
    assert ExecutionOk(cfg, s, s.calls[call].stages[index].at);
  }

  // ---------- What is offered has been recorded ----------

  ghost predicate Recorded(c: Call, trail: seq<Record>) {
    match c
    case Waiting(id, batch, _) => batch || ApprovalCreated(id) in trail
    case Listening(id, batch, _) => batch || ApprovalCreated(id) in trail
    case _ => true
  }

  ghost predicate AllRecorded(s: Broker) {
    forall i :: 0 <= i < |s.calls| ==> Recorded(s.calls[i], s.trail)
  }

  lemma RecordedStays(s: Broker, t: Broker, call: nat)
    requires AllRecorded(s) && s.trail <= t.trail && |s.calls| <= |t.calls|
    requires forall i :: 0 <= i < |t.calls| && i != call ==> i < |s.calls| && t.calls[i] == s.calls[i]
    requires call < |t.calls| ==> Recorded(t.calls[call], t.trail)
    ensures AllRecorded(t)
  {
    forall i | 0 <= i < |t.calls| && i != call ensures Recorded(t.calls[i], t.trail) {
      var kept := t.calls[i];
      assert Recorded(s.calls[i], s.trail);
      assert forall r :: r in s.trail ==> r in t.trail;
    }
  }

  lemma BegunRecorded(cfg: Config, s: Broker, c: Choice)
    requires AllRecorded(s) && (c.Execute? || c.ExecuteBatch? || c.ExecuteApproved?)
    ensures AllRecorded(BrokerService.Step(cfg, s, c))
  {
    RecordedStays(s, BrokerService.Step(cfg, s, c), |s.calls|);
  }

  lemma WorkRecorded(cfg: Config, s: Broker, c: Choice)
    requires AllRecorded(s) && Enabled(s, c) && (c.Take? || c.Clear? || c.Remote? || c.Report? || c.Wake?)
    ensures AllRecorded(BrokerService.Step(cfg, s, c))
  {
    RecordedStays(s, BrokerService.Step(cfg, s, c), c.call);
  }

  lemma WaitingRecorded(cfg: Config, s: Broker, c: Choice)
    requires AllRecorded(s) && Enabled(s, c)
    requires c.Announce? || c.Withdraw? || c.Register? || c.Timeout? || c.Cancel?
    ensures AllRecorded(BrokerService.Step(cfg, s, c))
  {
    assert Recorded(s.calls[c.call], s.trail);
    RecordedStays(s, BrokerService.Step(cfg, s, c), c.call);
  }

  lemma OffersRecorded(cfg: Config, s: Broker, c: Choice)
    requires AllRecorded(s)
    ensures AllRecorded(BrokerService.Step(cfg, s, c))
  {
    if Enabled(s, c) {
      if c.Execute? || c.ExecuteBatch? || c.ExecuteApproved? {
        BegunRecorded(cfg, s, c);
      } else if c.Take? || c.Clear? || c.Remote? || c.Report? || c.Wake? {
        WorkRecorded(cfg, s, c);
      } else if !c.Manage? {
        WaitingRecorded(cfg, s, c);
      }
    }
  }

  /** Nobody waits for the approval of a single request before its creation is in the
      audit log. */
  lemma {:induction false} WaitersAreRecorded(cfg: Config, choices: seq<Choice>)
    ensures AllRecorded(Run(cfg, choices))
  {
    if choices != [] {
      WaitersAreRecorded(cfg, choices[..|choices| - 1]);
      OffersRecorded(cfg, Run(cfg, choices[..|choices| - 1]), choices[|choices| - 1]);
    }
  }

  /** Nor is it offered: once the record is written the caller gets the approval to use
      or goes to wait for it, and otherwise the approval is withdrawn. */
  lemma AnnouncedOrWithdrawn(cfg: Config, s: Broker, call: nat, written: bool)
    requires call < |s.calls| && s.calls[call].Announcing?
    ensures var (c, t) := (s.calls[call], BrokerService.Step(cfg, s, Announce(call, written)));
            && |t.calls| == |s.calls| && t.store == s.store
            && if !written then t.calls[call] == Withdrawing(c.id) && t.trail == s.trail
               else
                 && t.trail == s.trail + [ApprovalCreated(c.id)]
                 && t.calls[call] == if c.wait then Waiting(c.id, false, 1) else Answered(RequiresApproval(c.id))
  {
  }

  // ---------- Decisions ----------

  /** Among the choices somebody decided about the approval while it could be decided. */
  ghost predicate WasSettled(cfg: Config, choices: seq<Choice>, origin: nat, allow: bool) {
    exists k :: 0 <= k < |choices| && choices[k].Manage?
                && ApprovalSpec.Settles(Run(cfg, choices[..k]).store, choices[k].event, origin, allow)
  }

  ghost function Told(cfg: Config, choices: seq<Choice>, allow: bool): iset<nat> {
    iset o: nat | WasSettled(cfg, choices, o, allow)
  }

  ghost function Verdict(s: Broker, c: Choice, allow: bool): iset<nat> {
    if c.Manage? then ApprovalSpec.Verdict(s.store, c.event, allow) else iset{}
  }

  lemma ToldMore(cfg: Config, choices: seq<Choice>, c: Choice, allow: bool)
    ensures Told(cfg, choices + [c], allow) == Told(cfg, choices, allow) + Verdict(Run(cfg, choices), c, allow)
  {
    var more := choices + [c];
    assert more[..|choices|] == choices;
    forall k | 0 <= k < |choices| ensures more[..k] == choices[..k] && more[k] == choices[k] {}
    forall o: nat ensures WasSettled(cfg, more, o, allow)
                          <==> WasSettled(cfg, choices, o, allow) || o in Verdict(Run(cfg, choices), c, allow) {
      SettledMore(cfg, choices, c, o, allow);
    }
  }

  lemma SettledMore(cfg: Config, choices: seq<Choice>, c: Choice, o: nat, allow: bool)
    ensures WasSettled(cfg, choices + [c], o, allow)
            <==> WasSettled(cfg, choices, o, allow) || o in Verdict(Run(cfg, choices), c, allow)
  {
    var more := choices + [c];
    assert more[..|choices|] == choices;
    forall k | 0 <= k < |choices| ensures more[..k] == choices[..k] && more[k] == choices[k] {}
    if WasSettled(cfg, choices, o, allow) {
      var k :| 0 <= k < |choices| && choices[k].Manage?
               && ApprovalSpec.Settles(Run(cfg, choices[..k]).store, choices[k].event, o, allow);
      assert ApprovalSpec.Settles(Run(cfg, more[..k]).store, more[k].event, o, allow);
    }
    if o in Verdict(Run(cfg, choices), c, allow) {
      assert ApprovalSpec.Settles(Run(cfg, more[..|choices|]).store, more[|choices|].event, o, allow);
    }
  }

  lemma NotedUnmanaged(cfg: Config, s: Broker, c: Choice, allowed: iset<nat>, refused: iset<nat>)
    requires Invariant(cfg, s) && ApprovalSpec.Noted(s.store, allowed, refused) && !c.Manage?
    ensures ApprovalSpec.Noted(BrokerService.Step(cfg, s, c).store, allowed, refused)
  {
    StoreMoves(cfg, s, c);
    var after := BrokerService.Step(cfg, s, c).store;
    if after != s.store {
      var e: ApprovalSpec.Event :| after == ApprovalSpec.Step(s.store, e).0 && (e.Decide? ==> c == Manage(e));
      ApprovalSpec.NotedElse(s.store, e, allowed, refused);
    }
  }

  lemma NotedManaged(cfg: Config, s: Broker, e: ApprovalSpec.Event, allowed: iset<nat>, refused: iset<nat>)
    requires Invariant(cfg, s) && ApprovalSpec.Noted(s.store, allowed, refused)
    ensures ApprovalSpec.Noted(BrokerService.Step(cfg, s, Manage(e)).store,
                               allowed + ApprovalSpec.Verdict(s.store, e, true),
                               refused + ApprovalSpec.Verdict(s.store, e, false))
  {
    ApprovalSpec.NotedStep(s.store, e, allowed, refused);
    if !Enabled(s, Manage(e)) {
      assert allowed + ApprovalSpec.Verdict(s.store, e, true) == allowed;
      assert refused + ApprovalSpec.Verdict(s.store, e, false) == refused;
    }
  }

  lemma NotedMore(cfg: Config, s: Broker, c: Choice, allowed: iset<nat>, refused: iset<nat>)
    requires Invariant(cfg, s) && ApprovalSpec.Noted(s.store, allowed, refused)
    ensures ApprovalSpec.Noted(BrokerService.Step(cfg, s, c).store,
                               allowed + Verdict(s, c, true), refused + Verdict(s, c, false))
  {
    if c.Manage? {
      NotedManaged(cfg, s, c.event, allowed, refused);
    } else {
      NotedUnmanaged(cfg, s, c, allowed, refused);
      assert allowed + iset{} == allowed && refused + iset{} == refused;
    }
  }

  lemma NotedNext(cfg: Config, front: seq<Choice>, c: Choice)
    requires ApprovalSpec.Noted(Run(cfg, front).store, Told(cfg, front, true), Told(cfg, front, false))
    ensures ApprovalSpec.Noted(BrokerService.Step(cfg, Run(cfg, front), c).store,
                               Told(cfg, front + [c], true), Told(cfg, front + [c], false))
  {
    RunKeeps(cfg, START, front);
    NotedMore(cfg, Run(cfg, front), c, Told(cfg, front, true), Told(cfg, front, false));
    ToldMore(cfg, front, c, true);
    ToldMore(cfg, front, c, false);
  }

  lemma {:induction false} RunNotes(cfg: Config, choices: seq<Choice>)
    ensures ApprovalSpec.Noted(Run(cfg, choices).store, Told(cfg, choices, true), Told(cfg, choices, false))
  {
    if choices != [] {
      var (front, c) := (choices[..|choices| - 1], choices[|choices| - 1]);
      RunNotes(cfg, front);
      NotedNext(cfg, front, c);
      assert choices == front + [c];
    }
  }

  /** Over every interleaving: a call that waits goes on to run when it is woken exactly
      if somebody has allowed its approval; otherwise it is answered as denied. */
  lemma {:induction false} WaitersHeedDecisions(cfg: Config, choices: seq<Choice>, call: nat)
    requires call < |Run(cfg, choices).calls| && Run(cfg, choices).calls[call].Listening?
    ensures var (s, t) := (Run(cfg, choices), StepWake(Run(cfg, choices), call));
            var id := s.calls[call].id;
            && |t.calls| == |s.calls|
            && (t.calls[call].Running? <==> id in s.store.items && !s.store.items[id].used
                                            && WasSettled(cfg, choices, s.store.items[id].origin, true))
            && (!t.calls[call].Running? ==> t.calls[call] == Answered(Answer.Denied))
  {
    var s := Run(cfg, choices);
    RunNotes(cfg, choices);
    RunKeeps(cfg, START, choices);
    WokenIffApproved(cfg, s, call);
    var id := s.calls[call].id;
    if id in s.store.items && !s.store.items[id].used {
      assert s.store.items[id].origin in Told(cfg, choices, true)
             <==> WasSettled(cfg, choices, s.store.items[id].origin, true);
    }
  }

  lemma WokenIffApproved(cfg: Config, s: Broker, call: nat)
    requires Invariant(cfg, s) && call < |s.calls| && s.calls[call].Listening?
    ensures var (t, id) := (StepWake(s, call), s.calls[call].id);
            && |t.calls| == |s.calls|
            && (t.calls[call].Running? <==> id in s.store.items && s.store.items[id].decision == ApprovalSpec.Approved)
            && (id in s.store.items && s.store.items[id].used ==> !t.calls[call].Running?)
            && (!t.calls[call].Running? ==> t.calls[call] == Answered(Answer.Denied))
  {
  }

  /** A call that was woken and runs had been allowed before, and nobody ever refuses it. */
  lemma {:induction false} NobodyRefusesWhatRuns(cfg: Config, choices: seq<Choice>, k: nat)
    requires k < |choices| && choices[k].Wake? && choices[k].call < |Run(cfg, choices[..k]).calls|
    requires Run(cfg, choices[..k]).calls[choices[k].call].Listening?
    requires StepWake(Run(cfg, choices[..k]), choices[k].call).calls[choices[k].call].Running?
    ensures var s := Run(cfg, choices[..k]);
            var id := s.calls[choices[k].call].id;
            && id in s.store.items
            && WasSettled(cfg, choices[..k], s.store.items[id].origin, true)
            && !WasSettled(cfg, choices, s.store.items[id].origin, false)
  {
    var s := Run(cfg, choices[..k]);
    assert choices[..k + 1][..k] == choices[..k];
    WaitersHeedDecisions(cfg, choices[..k], choices[k].call);
    var origin := s.store.items[s.calls[choices[k].call].id].origin;
    RunNotes(cfg, choices[..k]);
    assert origin in Told(cfg, choices[..k], true) && origin !in Told(cfg, choices[..k], false);
    forall j | 0 <= j < |choices| && choices[j].Manage?
      ensures !ApprovalSpec.Settles(Run(cfg, choices[..j]).store, choices[j].event, origin, false)
    {
      if j < k {
        if ApprovalSpec.Settles(Run(cfg, choices[..j]).store, choices[j].event, origin, false) {
          SettledBefore(cfg, choices, k, j, origin, false);
          assert false;
        }
      } else {
        WokenStaysGranted(cfg, choices, k, j);
        NotSettledAfter(cfg, choices, k, j, origin, false);
      }
    }
  }

  lemma SettledBefore(cfg: Config, choices: seq<Choice>, k: nat, j: nat, origin: nat, allow: bool)
    requires j < k <= |choices| && choices[j].Manage?
    requires ApprovalSpec.Settles(Run(cfg, choices[..j]).store, choices[j].event, origin, allow)
    ensures WasSettled(cfg, choices[..k], origin, allow)
  {
    assert choices[..k][..j] == choices[..j] && choices[..k][j] == choices[j];
  }

  lemma RunTakes(cfg: Config, choices: seq<Choice>, k: nat)
    requires k < |choices|
    ensures Run(cfg, choices[..k + 1]) == BrokerService.Step(cfg, Run(cfg, choices[..k]), choices[k])
  {
    assert choices[..k + 1][..k] == choices[..k];
  }

  lemma {:induction false} GrantedStays(cfg: Config, choices: seq<Choice>, n: nat, m: nat)
    requires n <= m <= |choices|
    ensures Run(cfg, choices[..n]).store.granted <= Run(cfg, choices[..m]).store.granted
  {
    if n < m {
      GrantedStays(cfg, choices, n, m - 1);
      RunTakes(cfg, choices, m - 1);
      GrantedGrows(cfg, Run(cfg, choices[..m - 1]), choices[m - 1]);
    }
  }

  lemma GrantedGrows(cfg: Config, s: Broker, c: Choice)
    ensures s.store.granted <= BrokerService.Step(cfg, s, c).store.granted
  {
    var t := BrokerService.Step(cfg, s, c);
    StoreMoves(cfg, s, c);
    if t.store != s.store {
      var e: ApprovalSpec.Event :| t.store == ApprovalSpec.Step(s.store, e).0 && (e.Decide? ==> c == Manage(e));
      ApprovalSpec.StepGrants(s.store, e);
    }
  }

  lemma WokenIsGranted(cfg: Config, s: Broker, call: nat)
    requires Invariant(cfg, s) && call < |s.calls| && s.calls[call].Listening? && StepWake(s, call).calls[call].Running?
    ensures var (t, id) := (StepWake(s, call), s.calls[call].id);
            && id in s.store.items && |t.store.granted| == |s.store.granted| + 1
            && t.store.granted[|s.store.granted|].origin == s.store.items[id].origin
  {
  }

  lemma {:induction false} WokenStaysGranted(cfg: Config, choices: seq<Choice>, k: nat, j: nat)
    requires k < j <= |choices| && choices[k].Wake? && choices[k].call < |Run(cfg, choices[..k]).calls|
    requires Run(cfg, choices[..k]).calls[choices[k].call].Listening?
    requires StepWake(Run(cfg, choices[..k]), choices[k].call).calls[choices[k].call].Running?
    ensures var (s, t) := (Run(cfg, choices[..k]), Run(cfg, choices[..j]));
            var id := s.calls[choices[k].call].id;
            && id in s.store.items && |s.store.granted| < |t.store.granted|
            && t.store.granted[|s.store.granted|].origin == s.store.items[id].origin
  {
    RunKeeps(cfg, START, choices[..k]);
    WokenIsGranted(cfg, Run(cfg, choices[..k]), choices[k].call);
    RunTakes(cfg, choices, k);
    GrantedStays(cfg, choices, k + 1, j);
  }

  lemma {:induction false} NotSettledAfter(cfg: Config, choices: seq<Choice>, k: nat, j: nat, origin: nat, allow: bool)
    requires k < j < |choices| && |Run(cfg, choices[..k]).store.granted| < |Run(cfg, choices[..j]).store.granted|
    requires Run(cfg, choices[..j]).store.granted[|Run(cfg, choices[..k]).store.granted|].origin == origin
    requires choices[j].Manage?
    ensures !ApprovalSpec.Settles(Run(cfg, choices[..j]).store, choices[j].event, origin, allow)
  {
    RunKeeps(cfg, START, choices[..j]);
    ApprovalSpec.HandedOutIsDecided(Run(cfg, choices[..j]).store, choices[j].event, origin, allow,
                                    |Run(cfg, choices[..k]).store.granted|);
  }
}
