/** The supervisor as a state machine over its assets, its log and its two switches, and the
    relation between what is live and what the log replays to. */
module EngineModel {
  import opened Types
  import opened Placement
  import opened PlacementLaws
  import opened TradingModel
  import opened RunLaws

  datatype EngineCmd =
    | Shutdown
    | Suspend
    | Resume
    | Trade(cmd: TradeCmd)
    | Bootstrap(cmd: TradeCmd)

  /** What becomes of a trade command's log entry. */
  datatype Fate = Unserializable | InsertFails | InsertSucceeds

  datatype Status = Serving | Stopped | Down

  datatype Engine = Engine(assets: AssetsView, log: seq<TradeCmd>, running: bool, status: Status)

  const FRESH_ENGINE := Engine(EMPTY_ASSETS, [], true, Serving)

  /** `Receive` is one turn of the command loop; `Kill` ends the process at any point between
      two turns; `Restart` starts a fresh supervisor and feeds it the log. */
  datatype Event = Receive(cmd: EngineCmd, fate: Fate) | Kill | Restart

  /** The effect of a command on the assets; a panic takes the supervisor down. */
  function Perform(e: Engine, cmd: TradeCmd): Engine {
    var (assets, reply) := Apply(e.assets, cmd);
    e.(assets := assets, status := if reply.Panic? then Down else e.status)
  }

  /** A command is applied first and logged afterwards, whatever its reply. */
  function PerformLogged(e: Engine, cmd: TradeCmd, fate: Fate): Engine {
    if fate.Unserializable? then e
    else
      var after := Perform(e, cmd);
      if after.status.Down? || fate.InsertFails? then after
      else after.(log := after.log + [cmd])
  }

  /** One turn of the command loop. A suspended supervisor drops every command. */
  function Turn(e: Engine, cmd: EngineCmd, fate: Fate): Engine {
    if !e.status.Serving? || !e.running then e
    else
      match cmd
      case Shutdown => e.(status := Stopped)
      case Suspend => e.(running := false)
      case Resume => e.(running := true)
      case Trade(trade) => PerformLogged(e, trade, fate)
      case Bootstrap(trade) => Perform(e, trade)
  }

  /** What a command on its way into the log is answered: a failed insert hides what the command
      did, and a panic comes before the insert. */
  function LoggedReply(e: Engine, cmd: TradeCmd, fate: Fate): Reply {
    if fate.Unserializable? then Failed(UnserializableInput)
    else
      var reply := Apply(e.assets, cmd).1;
      if !reply.Panic? && fate.InsertFails? then Failed(Database) else reply
  }

  /** What a turn answers. Only trade commands are answered, and not by a supervisor that is
      suspended, has stopped or panics. */
  function Answer(e: Engine, cmd: EngineCmd, fate: Fate): Option<Reply> {
    if !e.status.Serving? || !e.running || !cmd.Trade? then None
    else
      var reply := LoggedReply(e, cmd.cmd, fate);
      if reply.Panic? then None else Some(reply)
  }

  /** Feeds rows of the log to the supervisor. */
  function Feed(e: Engine, rows: seq<TradeCmd>): Engine {
    if rows == [] then e
    else Turn(Feed(e, rows[..|rows| - 1]), Bootstrap(rows[|rows| - 1]), InsertSucceeds)
  }

  function Step(e: Engine, event: Event): Engine {
    match event
    case Receive(cmd, fate) => Turn(e, cmd, fate)
    case Kill => e.(status := Down)
    case Restart => Feed(FRESH_ENGINE.(log := e.log), e.log)
  }

  function Run(events: seq<Event>): Engine {
    if events == [] then FRESH_ENGINE
    else Step(Run(events[..|events| - 1]), events[|events| - 1])
  }

  // ---------------------------------------------------------------------------
  // Bootstrap
  // ---------------------------------------------------------------------------

  /** Feeding the log to a fresh supervisor leads to the fold of the log. */
  lemma {:induction false} FeedIsFold(log: seq<TradeCmd>, rows: seq<TradeCmd>)
    ensures var e := Feed(FRESH_ENGINE.(log := log), rows);
            && e.log == log && e.running
            && (e.status == Serving <==> Fold(rows).Live?)
            && (e.status == Down <==> Fold(rows).Dead?)
            && (Fold(rows).Live? ==> e.assets == Fold(rows).assets)
  {
    if rows != [] {
      FeedIsFold(log, rows[..|rows| - 1]);
    }
  }

  // ---------------------------------------------------------------------------
  // Safety
  // ---------------------------------------------------------------------------

  ghost predicate EngineSafe(e: Engine) {
    e.status.Serving? ==> AssetsSafe(e.assets) && e.assets.orderUuids == map[]
  }

  lemma TurnKeepsSafe(e: Engine, cmd: EngineCmd, fate: Fate)
    requires EngineSafe(e)
    ensures EngineSafe(Turn(e, cmd, fate))
  {
    if e.status.Serving? && e.running && (cmd.Trade? || cmd.Bootstrap?) {
      PerformKeepsSafe(e, cmd.cmd);
    }
  }

  lemma PerformKeepsSafe(e: Engine, cmd: TradeCmd)
    requires EngineSafe(e) && e.status.Serving?
    ensures EngineSafe(Perform(e, cmd))
  {
    ApplyKeepsSafe(e.assets, cmd);
    ApplyKeepsUuids(e.assets, cmd);
  }

  lemma RestartIsSafe(e: Engine)
    ensures EngineSafe(Step(e, Restart))
  {
    FeedIsFold(e.log, e.log);
    if Fold(e.log).Live? {
      RunsAreSafe(e.log);
    }
  }

  /** Whatever commands arrive, whatever inserts fail and whenever the process is killed and
      restarted: while the supervisor serves, no book is crossed or malformed. */
  lemma {:induction false} ServingIsSafe(events: seq<Event>)
    ensures EngineSafe(Run(events))
  {
    if events == [] {
      RunsAreSafe([]);
    } else {
      var before := events[..|events| - 1];
      ServingIsSafe(before);
      match events[|events| - 1]
      case Receive(cmd, fate) => TurnKeepsSafe(Run(before), cmd, fate);
      case Kill =>
      case Restart => RestartIsSafe(Run(before));
    }
  }

  // ---------------------------------------------------------------------------
  // Replay equals live state
  // ---------------------------------------------------------------------------

  /** What is live is what the log replays to. */
  predicate Synced(e: Engine) {
    Fold(e.log) == Live(e.assets)
  }

  /** A turn that changes the assets without a log entry. */
  predicate Drifts(e: Engine, event: Event) {
    && e.status.Serving? && e.running && event.Receive?
    && ((event.cmd.Trade? && event.fate.InsertFails?) || event.cmd.Bootstrap?)
    && !Ineffective(e.assets, event.cmd.cmd)
  }

  /** Whether assets have changed without a log entry since the last restart. */
  predicate Drifted(events: seq<Event>) {
    if events == [] then false
    else
      var before, event := events[..|events| - 1], events[|events| - 1];
      !event.Restart? && (Drifted(before) || Drifts(Run(before), event))
  }

  /** Whether a row was logged while the assets had drifted from the log. */
  predicate Tainted(events: seq<Event>) {
    if events == [] then false
    else
      var before := events[..|events| - 1];
      Tainted(before) || (Drifted(before) && Run(events).log != Run(before).log)
  }

  /** One turn keeps a synced supervisor synced, unless it crashes, exactly when it does not
      change the assets behind the log's back. */
  lemma SyncKeptIff(e: Engine, cmd: EngineCmd, fate: Fate)
    requires e.status.Serving? && AssetsSafe(e.assets) && Synced(e)
    requires !Turn(e, cmd, fate).status.Down?
    ensures Synced(Turn(e, cmd, fate)) <==> !Drifts(e, Receive(cmd, fate))
  {
    if e.running && (cmd.Trade? || cmd.Bootstrap?) {
      var after := Turn(e, cmd, fate);
      if cmd.Trade? && fate.Unserializable? {
      } else {
        UnchangedIffIneffective(e.assets, cmd.cmd);
        FoldSnoc(e.log, cmd.cmd);
      }
    }
  }

  /** What an answer tells: a row was logged exactly when it is not an error of the log, and the
      assets changed exactly when it is no error at all, or a database error that hides the
      effect of the command. */
  lemma AnswerMeaning(
      e: Engine, cmd: TradeCmd, fate: Fate, after: Engine, answer: Option<Reply>)
    requires EngineSafe(e) && e.status.Serving? && e.running
    requires after == Turn(e, Trade(cmd), fate) && answer == Answer(e, Trade(cmd), fate)
    ensures answer.None? <==> after.status.Down?
    ensures answer.Some? ==>
              (after.log == e.log + [cmd]
               <==> answer.value != Failed(UnserializableInput) && answer.value != Failed(Database))
    ensures answer.Some? ==>
              (after.assets != e.assets
               <==> !answer.value.Failed? || (answer.value == Failed(Database) && !Ineffective(e.assets, cmd)))
  {
    var changed, reply := Apply(e.assets, cmd).0, Apply(e.assets, cmd).1;
    if fate.Unserializable? {
      assert answer == Some(Failed(UnserializableInput)) && after == e;
    } else if !reply.Panic? {
      UnchangedIffIneffective(e.assets, cmd);
      ErrorsOfCommands(e.assets, cmd);
      assert after.assets == changed;
      assert after.log == if fate.InsertFails? then e.log else e.log + [cmd];
    }
  }

  /** A logged command is answered with its own result, a failed insert with a database error,
      and an entry that cannot be written with an error of its own, whatever the command did. */
  lemma AnswerOfCommand(e: Engine, cmd: TradeCmd, fate: Fate, answer: Option<Reply>)
    requires e.status == Serving && e.running && answer == Answer(e, Trade(cmd), fate)
    ensures fate == Unserializable ==> answer == Some(Failed(UnserializableInput))
    ensures fate != Unserializable && Apply(e.assets, cmd).1 == Panic ==> answer == None
    ensures fate == InsertFails && Apply(e.assets, cmd).1 != Panic ==> answer == Some(Failed(Database))
    ensures fate == InsertSucceeds && Apply(e.assets, cmd).1 != Panic ==> answer == Some(Apply(e.assets, cmd).1)
  {
  }

  /** So over a serving supervisor a client reads off its answer what became of its order. */
  lemma OrderAnswer(e: Engine, o: PlaceOrder, answer: Option<Reply>, reachable: nat)
    requires EngineSafe(e) && e.status == Serving && e.running
    requires answer == Answer(e, Trade(PlaceCmd(o)), InsertSucceeds)
    requires reachable == Reachable(e.assets.On(o.asset), o)
    ensures answer == Some(Failed(PlaceOrderFailed(FillOrKillFailed)))
       <==> o.timeInForce == FillOrKill && reachable < o.quantity
    ensures answer == Some(Failed(PlaceOrderFailed(InsufficientLiquidity)))
       <==> o.timeInForce == ImmediateOrCancel && reachable == 0
    ensures answer.Some? && answer.value.Placed? ==>
              && answer.value.filled == (if reachable < o.quantity then reachable else o.quantity)
              && answer.value.filled + answer.value.remaining == o.quantity
  {
    var reply := Apply(e.assets, PlaceCmd(o)).1;
    AnswerOfCommand(e, PlaceCmd(o), InsertSucceeds, answer);
    RejectionTold(e.assets, o, reply, reachable);
    PlacementTold(e.assets, o, reply, reachable);
  }

  /** The errors of a command are not those of the log. */
  lemma ErrorsOfCommands(assets: AssetsView, cmd: TradeCmd)
    ensures Apply(assets, cmd).1 != Failed(Database) && Apply(assets, cmd).1 != Failed(UnserializableInput)
  {
  }

  /** While the supervisor serves and no change since the last restart went unlogged, the live
      books equal the fold of the log, memos and memo counters included, over any run with any
      number of restarts. */
  lemma {:induction false} ReplayEqualsLive(events: seq<Event>)
    requires Run(events).status.Serving? && !Drifted(events)
    ensures Synced(Run(events))
  {
    if events != [] {
      var before, event := events[..|events| - 1], events[|events| - 1];
      if event.Restart? {
        FeedIsFold(Run(before).log, Run(before).log);
      } else {
        ReplayEqualsLive(before);
        ServingIsSafe(before);
        SyncKeptIff(Run(before), event.cmd, event.fate);
      }
    }
  }

  /** So the live books hold what the log says was accepted and neither filled nor discarded,
      across restarts too. */
  lemma ServingConserves(events: seq<Event>, asset: Asset, l: Ledger)
    requires Run(events).status.Serving? && !Drifted(events)
    requires l == LedgerOf(Run(events).log, asset)
    ensures l.accepted == RestingIn(Run(events).assets.On(asset)) + 2 * l.filled + l.discarded
  {
    ReplayEqualsLive(events);
    RunsConserve(Run(events).log, asset, l);
  }

  /** If no row was ever logged over drifted assets, the log replays without a panic, so that a
      restart always brings the supervisor back. */
  lemma RestartRecovers(events: seq<Event>)
    requires !Tainted(events)
    ensures Fold(Run(events).log).Live?
    ensures Run(events + [Restart]).status.Serving? && Synced(Run(events + [Restart]))
  {
    LogReplays(events);
    assert (events + [Restart])[..|events|] == events;
    FeedIsFold(Run(events).log, Run(events).log);
  }

  lemma {:induction false} LogReplays(events: seq<Event>)
    requires !Tainted(events)
    ensures Fold(Run(events).log).Live?
  {
    if events != [] {
      var before, event := events[..|events| - 1], events[|events| - 1];
      LogReplays(before);
      FeedIsFold(Run(before).log, Run(before).log);
      if Run(events).log != Run(before).log {
        ReplayEqualsLive(before);
        FoldSnoc(Run(before).log, event.cmd.cmd);
      }
    }
  }

  /** A restart serves exactly when the log replays without a panic, and is then in step with it. */
  lemma RestartServesIff(events: seq<Event>)
    ensures Run(events + [Restart]).status.Serving? <==> Fold(Run(events).log).Live?
    ensures Run(events + [Restart]).status.Serving? ==> Synced(Run(events + [Restart]))
    ensures Run(events + [Restart]).log == Run(events).log
  {
    assert (events + [Restart])[..|events|] == events;
    FeedIsFold(Run(events).log, Run(events).log);
  }

  /** So a log of fewer than 2^32 rows brings the supervisor back, whatever inserts have failed. */
  lemma ShortLogRecovers(events: seq<Event>)
    requires |Run(events).log| <= U32_MAX
    ensures Run(events + [Restart]).status.Serving? && Synced(Run(events + [Restart]))
  {
    ShortRunsLive(Run(events).log);
    RestartServesIff(events);
  }

  /** Order after order of `o` logged, and each taken by `t` without a row. */
  function Churn(o: PlaceOrder, t: PlaceOrder, n: nat): seq<Event> {
    if n == 0 then []
    else Churn(o, t, n - 1)
         + [Receive(Trade(PlaceCmd(o)), InsertSucceeds)] + [Receive(Trade(PlaceCmd(t)), InsertFails)]
  }

  function Copies(o: PlaceOrder, n: nat): (cmds: seq<TradeCmd>)
    ensures |cmds| == n
    ensures forall i :: 0 <= i < n ==> cmds[i] == PlaceCmd(o)
  {
    if n == 0 then [] else Copies(o, n - 1) + [PlaceCmd(o)]
  }

  lemma RunSnoc(events: seq<Event>, event: Event)
    ensures Run(events + [event]) == Step(Run(events), event)
  {
    assert (events + [event])[..|events|] == events;
  }

  /** The engine with only `o` in its books. */
  function WithOne(o: PlaceOrder, log: seq<TradeCmd>): Engine {
    Engine(EMPTY_ASSETS.With(o.asset, OneOrder(o)), log, true, Serving)
  }

  lemma ChurnRests(o: PlaceOrder, log: seq<TradeCmd>)
    requires o.timeInForce.GoodTilCanceled?
    ensures Step(FRESH_ENGINE.(log := log), Receive(Trade(PlaceCmd(o)), InsertSucceeds))
         == WithOne(o, log + [PlaceCmd(o)])
  {
    RestsAlone(o);
  }

  lemma ChurnTakes(o: PlaceOrder, t: PlaceOrder, log: seq<TradeCmd>)
    requires Mirrors(t, o)
    ensures Step(WithOne(o, log), Receive(Trade(PlaceCmd(t)), InsertFails)) == FRESH_ENGINE.(log := log)
  {
    TakesTheOne(o, t);
  }

  lemma {:induction false} ChurnRuns(o: PlaceOrder, t: PlaceOrder, n: nat)
    requires o.timeInForce.GoodTilCanceled? && Mirrors(t, o)
    ensures Run(Churn(o, t, n)) == FRESH_ENGINE.(log := Copies(o, n))
  {
    if n > 0 {
      var before, rests, takes :=
        Churn(o, t, n - 1), Receive(Trade(PlaceCmd(o)), InsertSucceeds), Receive(Trade(PlaceCmd(t)), InsertFails);
      ChurnRuns(o, t, n - 1);
      RunSnoc(before, rests);
      RunSnoc(before + [rests], takes);
      ChurnRests(o, Copies(o, n - 1));
      ChurnTakes(o, t, Copies(o, n));
    }
  }

  /** One row more can be too many: a supervisor that serves with empty books over a log of 2^32
      rows that panics when it is replayed, so that no restart brings it back. */
  lemma LongLogIsLost(o: PlaceOrder, t: PlaceOrder)
    requires o.timeInForce.GoodTilCanceled? && Mirrors(t, o)
    ensures var events := Churn(o, t, U32_MAX + 1);
            && Run(events).status.Serving? && Run(events).assets == EMPTY_ASSETS
            && |Run(events).log| == U32_MAX + 1
            && Run(events + [Restart]).status.Down?
  {
    var n: nat := U32_MAX + 1;
    ChurnRuns(o, t, n);
    EqualOrdersDie(o, Copies(o, n));
    var events := Churn(o, t, n);
    assert (events + [Restart])[..|events|] == events;
    FeedIsFold(Run(events).log, Run(events).log);
  }

  /** The assumption about inserts is needed: a resting order whose insert fails is live, and
      the log knows nothing of it. */
  lemma FailedInsertDrifts(o: PlaceOrder)
    requires o.timeInForce.GoodTilCanceled?
    ensures var e := Run([Receive(Trade(PlaceCmd(o)), InsertFails)]);
            e.status.Serving? && e.log == [] && !Synced(e)
  {
    var events := [Receive(Trade(PlaceCmd(o)), InsertFails)];
    assert events[..0] == [];
    ServingIsSafe([]);
    PanicCondition(EMPTY_ASSETS, PlaceCmd(o));
    SyncKeptIff(FRESH_ENGINE, Trade(PlaceCmd(o)), InsertFails);
  }

  function RunFrom(e: Engine, events: seq<Event>): Engine {
    if events == [] then e
    else Step(RunFrom(e, events[..|events| - 1]), events[|events| - 1])
  }

  /** A run that begins with `event`. */
  lemma {:induction false} RunFromCons(e: Engine, event: Event, events: seq<Event>)
    ensures RunFrom(e, [event] + events) == RunFrom(Step(e, event), events)
  {
    var all := [event] + events;
    if events == [] {
      assert all[..0] == [];
    } else {
      var before := events[..|events| - 1];
      assert all[..|all| - 1] == [event] + before;
      RunFromCons(e, event, before);
    }
  }

  predicate AllReceived(events: seq<Event>) {
    forall i :: 0 <= i < |events| ==> events[i].Receive?
  }

  /** A supervisor that is suspended or does not serve stays as it is, whatever it receives. */
  lemma {:induction false} IdleStays(e: Engine, events: seq<Event>)
    requires !e.status.Serving? || !e.running
    requires AllReceived(events)
    ensures RunFrom(e, events) == e
  {
    if events != [] {
      IdleStays(e, events[..|events| - 1]);
    }
  }

  /** It answers nothing either. */
  lemma IdleIsSilent(e: Engine, cmd: EngineCmd, fate: Fate)
    requires e.status != Serving || !e.running
    ensures Answer(e, cmd, fate) == None
  {
  }

  /** `Suspend` suspends: whatever a supervisor receives after it, resume and shutdown included,
      no command is applied or logged, and it goes on serving nothing. */
  lemma {:induction false} SuspendIsFinal(e: Engine, fate: Fate, events: seq<Event>)
    requires e.status == Serving && e.running && AllReceived(events)
    ensures var after := RunFrom(e, [Receive(Suspend, fate)] + events);
            after.assets == e.assets && after.log == e.log && after.status == Serving && !after.running
  {
    RunFromCons(e, Receive(Suspend, fate), events);
    IdleStays(Step(e, Receive(Suspend, fate)), events);
  }

  /** `Shutdown` stops: no command received after it is applied or logged. */
  lemma {:induction false} ShutdownIsFinal(e: Engine, fate: Fate, events: seq<Event>)
    requires e.status == Serving && e.running && AllReceived(events)
    ensures var after := RunFrom(e, [Receive(Shutdown, fate)] + events);
            after.assets == e.assets && after.log == e.log && after.status == Stopped
  {
    RunFromCons(e, Receive(Shutdown, fate), events);
    IdleStays(Step(e, Receive(Shutdown, fate)), events);
  }

  /** A killed process does nothing more, and its log is what it was. */
  lemma {:induction false} KillIsFinal(e: Engine, events: seq<Event>)
    requires AllReceived(events)
    ensures var after := RunFrom(e, [Kill] + events);
            after.log == e.log && after.status == Down
  {
    RunFromCons(e, Kill, events);
    IdleStays(Step(e, Kill), events);
  }

  /** To a supervisor that runs, `Resume` is nothing. */
  lemma ResumeIsIdle(e: Engine, fate: Fate)
    requires e.status == Serving && e.running
    ensures RunFrom(e, [Receive(Resume, fate)]) == e
    ensures Answer(e, Resume, fate) == None
  {
    var events := [Receive(Resume, fate)];
    assert events[..0] == [];
  }

  /** A suspended supervisor stays as it is, whatever it receives, until it is restarted. */
  lemma SuspendedDropsAll(e: Engine, events: seq<Event>)
    requires e.status.Serving? && !e.running
    requires forall i :: 0 <= i < |events| ==> events[i].Receive?
    ensures RunFrom(e, events) == e
  {
    IdleStays(e, events);
  }
}
