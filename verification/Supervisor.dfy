/** The trading engine supervisor: a command loop over the asset books, an append-only event
    log, and the bootstrap that replays the log. */
module Supervisor {
  import opened Types
  import opened TradingModel
  import opened EngineModel
  import opened Trading

  /** The table of events. Rows are only appended, and read back in the order of their ids. */
  class EventLog {
    var rows: seq<TradeCmd>

    constructor ()
      ensures rows == []
    {
      rows := [];
    }

    /** Inserts a row, unless the database fails. */
    method Insert(cmd: TradeCmd, fate: Fate) returns (ok: bool)
      modifies this
      ensures ok == !fate.InsertFails?
      ensures rows == if ok then old(rows) + [cmd] else old(rows)
    {
      ok := !fate.InsertFails?;
      if ok {
        rows := rows + [cmd];
      }
    }
  }

  /** A row that the database does not deliver, or that does not parse: the process then ends
      before it serves, with an error or a panic. */
  datatype BootstrapError = Unreadable | Malformed

  datatype RowFault = RowFault(row: nat, error: BootstrapError)

  class TradingEngine {
    const assets: Assets
    const db: EventLog
    var running: bool
    var status: Status

    /** A fresh supervisor over an existing log. */
    constructor (db: EventLog)
      ensures Valid() && this.db == db && fresh(Repr() - {db})
      ensures View() == FRESH_ENGINE.(log := db.rows)
    {
      assets := new Assets();
      this.db := db;
      running, status := true, Serving;
    }

    ghost function Repr(): set<object>
      reads assets.eth.bids, assets.eth.asks, assets.btc.bids, assets.btc.asks
    {
      {this, db} + assets.Repr()
    }

    ghost predicate Valid()
      reads this, db, assets, assets.Repr()
    {
      assets.Valid() && this !in assets.Repr() && db !in assets.Repr()
    }

    function View(): Engine
      reads this, db, assets, assets.Repr()
    {
      Engine(assets.View(), db.rows, running, status)
    }

    /** Applies a command; a panic takes the supervisor down. */
    method PerformCmd(cmd: TradeCmd) returns (reply: Reply)
      requires Valid() && status == Serving
      modifies Repr()
      ensures Valid() && fresh(Repr() - old(Repr()))
      ensures View() == Perform(old(View()), cmd)
      ensures reply == Apply(old(View()).assets, cmd).1
    {
      reply := assets.ApplyCmd(cmd);
      if reply.Panic? {
        GoDown();
      }
    }

    /** A panic ends the supervisor's task and nothing else. */
    method GoDown()
      requires Valid()
      modifies this`status
      ensures Valid() && Repr() == old(Repr())
      ensures View() == old(View()).(status := Down)
    {
      status := Down;
    }

    method InsertRow(cmd: TradeCmd, fate: Fate) returns (ok: bool)
      requires Valid()
      modifies db
      ensures Valid() && Repr() == old(Repr())
      ensures ok == !fate.InsertFails?
      ensures View() == if ok then old(View()).(log := old(View()).log + [cmd]) else old(View())
    {
      ok := db.Insert(cmd, fate);
    }

    /** A command on its way into the log: it is applied, then its row is inserted, and a failed
        insert turns the reply into a database error although the books have changed. */
    method TryEventLog(cmd: TradeCmd, fate: Fate) returns (reply: Reply)
      requires Valid() && status == Serving
      modifies Repr()
      ensures Valid() && fresh(Repr() - old(Repr()))
      ensures View() == PerformLogged(old(View()), cmd, fate)
      ensures reply == LoggedReply(old(View()), cmd, fate)
      ensures reply.Panic? <==> View().status.Down?
    {
      if fate.Unserializable? {
        return Failed(UnserializableInput);
      }
      reply := PerformCmd(cmd);
      if status == Down {
        return;
      }
      var ok := InsertRow(cmd, fate);
      if !ok {
        reply := Failed(Database);
      }
    }

    /** One turn of the command loop. */
    method Handle(cmd: EngineCmd, fate: Fate) returns (reply: Option<Reply>)
      requires Valid()
      modifies Repr()
      ensures Valid() && fresh(Repr() - old(Repr()))
      ensures View() == Turn(old(View()), cmd, fate)
      ensures reply == Answer(old(View()), cmd, fate)
    {
      reply := None;
      if status != Serving || !running {
        return;
      }
      match cmd
      case Suspend => running := false;
      case Resume => running := true;
      case Shutdown => status := Stopped;
      case Trade(trade) =>
        var r := TryEventLog(trade, fate);
        reply := if r.Panic? then None else Some(r);
      case Bootstrap(trade) =>
        var r := PerformCmd(trade);
    }

    /** The next turn of a run over an inbox. */
    method HandleNext(ghost start: Engine, inbox: seq<(EngineCmd, Fate)>, i: nat) returns (reply: Option<Reply>)
      requires Valid() && i < |inbox| && View() == Turns(start, inbox[..i])
      modifies Repr()
      ensures Valid()
      ensures forall x :: x in Repr() ==> x in old(Repr()) || fresh(x)
      ensures View() == Turns(start, inbox[..i + 1])
      ensures Answers(start, inbox[..i + 1]) == Answers(start, inbox[..i]) + [reply]
    {
      TurnsSnoc(start, inbox, i);
      reply := Handle(inbox[i].0, inbox[i].1);
    }

    /** The command loop: it handles what it receives until it is shut down or panics; what comes
        after that is not answered. */
    method Supervise(inbox: seq<(EngineCmd, Fate)>) returns (replies: seq<Option<Reply>>)
      requires Valid()
      modifies Repr()
      ensures Valid() && fresh(Repr() - old(Repr()))
      ensures View() == Turns(old(View()), inbox)
      ensures replies == Answers(old(View()), inbox)
    {
      ghost var start := View();
      replies := [];
      var i := 0;
      while i < |inbox| && status == Serving
        invariant 0 <= i <= |inbox|
        invariant Valid() && fresh(Repr() - old(Repr()))
        invariant View() == Turns(start, inbox[..i])
        invariant replies == Answers(start, inbox[..i])
      {
        var reply := HandleNext(start, inbox, i);
        replies := replies + [reply];
        i := i + 1;
      }
      RestIgnored(start, inbox, i);
      replies := replies + Silence(|inbox| - i);
    }

    method FeedNext(ghost start: Engine, rows: seq<TradeCmd>, i: nat)
      requires Valid() && i < |rows| && View() == Feed(start, rows[..i])
      modifies Repr()
      ensures Valid()
      ensures forall x :: x in Repr() ==> x in old(Repr()) || fresh(x)
      ensures View() == Feed(start, rows[..i + 1])
    {
      assert rows[..i + 1][..i] == rows[..i];
      var reply := Handle(Bootstrap(rows[i]), InsertSucceeds);
    }

    /** Streams the rows of the log to a fresh supervisor, up to a row that cannot be had. */
    method InitFromDb(fault: Option<RowFault>) returns (error: Option<BootstrapError>)
      requires Valid() && View() == FRESH_ENGINE.(log := db.rows)
      modifies Repr()
      ensures Valid() && fresh(Repr() - old(Repr()))
      ensures error.None? <==> fault.None? || |old(db.rows)| <= fault.value.row
      ensures error.None? ==> View() == Step(old(View()), Restart)
      ensures error.Some? ==> error.value == fault.value.error
      ensures error.Some? ==> View() == Feed(old(View()), old(db.rows)[..fault.value.row])
    {
      var rows := db.rows;
      ghost var start := View();
      error := None;
      var i := 0;
      while i < |rows|
        invariant 0 <= i <= |rows|
        invariant fault.Some? ==> i <= fault.value.row || |rows| <= fault.value.row
        invariant Valid() && fresh(Repr() - old(Repr()))
        invariant View() == Feed(start, rows[..i])
      {
        if fault.Some? && fault.value.row == i {
          return Some(fault.value.error);
        }
        FeedNext(start, rows, i);
        i := i + 1;
      }
      assert rows[..i] == rows;
    }
  }

  /** Turn after turn. */
  function Turns(e: Engine, inbox: seq<(EngineCmd, Fate)>): Engine {
    if inbox == [] then e
    else
      var (cmd, fate) := inbox[|inbox| - 1];
      Turn(Turns(e, inbox[..|inbox| - 1]), cmd, fate)
  }

  /** The answers, turn after turn. */
  function Answers(e: Engine, inbox: seq<(EngineCmd, Fate)>): seq<Option<Reply>> {
    if inbox == [] then []
    else
      var before, (cmd, fate) := inbox[..|inbox| - 1], inbox[|inbox| - 1];
      Answers(e, before) + [Answer(Turns(e, before), cmd, fate)]
  }

  function Silence(n: nat): (replies: seq<Option<Reply>>)
    ensures |replies| == n && forall i :: 0 <= i < n ==> replies[i] == None
  {
    seq(n, _ => None)
  }

  lemma TurnsSnoc(e: Engine, inbox: seq<(EngineCmd, Fate)>, i: nat)
    requires i < |inbox|
    ensures Turns(e, inbox[..i + 1]) == Turn(Turns(e, inbox[..i]), inbox[i].0, inbox[i].1)
    ensures Answers(e, inbox[..i + 1])
         == Answers(e, inbox[..i]) + [Answer(Turns(e, inbox[..i]), inbox[i].0, inbox[i].1)]
  {
    assert inbox[..i + 1][..i] == inbox[..i];
  }

  /** A supervisor that has stopped or panicked takes no notice of what it receives. */
  lemma {:induction false} RestIgnored(e: Engine, inbox: seq<(EngineCmd, Fate)>, i: nat)
    requires i <= |inbox|
    requires i == |inbox| || !Turns(e, inbox[..i]).status.Serving?
    ensures Turns(e, inbox) == Turns(e, inbox[..i])
    ensures Answers(e, inbox) == Answers(e, inbox[..i]) + Silence(|inbox| - i)
  {
    if i == |inbox| {
      assert inbox[..i] == inbox;
    } else {
      var last := |inbox| - 1;
      assert inbox[..last][..i] == inbox[..i];
      RestIgnored(e, inbox[..last], i);
      assert Silence(last - i) + [None] == Silence(|inbox| - i);
    }
  }

  /** What is received after a suspension or a shutdown changes nothing and is not answered. */
  lemma {:induction false} NothingAfter(e: Engine, cmd: EngineCmd, fate: Fate, inbox: seq<(EngineCmd, Fate)>)
    requires e.status == Serving && e.running && (cmd == Suspend || cmd == Shutdown)
    ensures Turns(e, [(cmd, fate)] + inbox).assets == e.assets
    ensures Turns(e, [(cmd, fate)] + inbox).log == e.log
    ensures Turns(e, [(cmd, fate)] + inbox).running <==> cmd == Shutdown
    ensures Turns(e, [(cmd, fate)] + inbox).status == if cmd == Shutdown then Stopped else Serving
    ensures Answers(e, [(cmd, fate)] + inbox) == Silence(|inbox| + 1)
  {
    var all := [(cmd, fate)] + inbox;
    if inbox == [] {
      assert all[..0] == [];
    } else {
      var before := inbox[..|inbox| - 1];
      assert all[..|all| - 1] == [(cmd, fate)] + before;
      NothingAfter(e, cmd, fate, before);
      assert Silence(|inbox|) + [None] == Silence(|inbox| + 1);
    }
  }
}
