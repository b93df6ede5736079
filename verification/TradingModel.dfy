/** The trading commands over both asset books, and what holds over every run of them. */
module TradingModel {
  import opened Types
  import opened BookModel
  import opened FillPlan
  import opened FillCommit
  import opened Placement
  import opened PlacementLaws
  import opened IndexLaws

  datatype AssetsView = AssetsView(orderUuids: map<Uuid, (OrderIndex, Asset)>, eth: Book, btc: Book) {
    function On(asset: Asset): Book {
      if asset.Ether? then eth else btc
    }

    function With(asset: Asset, book: Book): AssetsView {
      if asset.Ether? then this.(eth := book) else this.(btc := book)
    }
  }

  const EMPTY_ASSETS := AssetsView(map[], EMPTY_BOOK, EMPTY_BOOK)

  /** What the event log stores. */
  datatype TradeCmd = PlaceCmd(order: PlaceOrder) | CancelCmd(user: Uuid, orderUuid: Uuid)

  datatype TradingEngineError =
    | UnserializableInput
    | OrderNotFound(user: Uuid, orderUuid: Uuid)
    | Database
    | PlaceOrderFailed(error: PlaceOrderError)

  datatype Reply =
    | Placed(orderIndex: Option<OrderIndex>, fillType: FillType, filled: u32, remaining: u32)
    | Cancelled
    | Failed(error: TradingEngineError)
    | Panic

  function ReplyOf(r: PlaceResult): Reply {
    match r
    case Accepted(orderIndex, fillType, filled, remaining) => Placed(orderIndex, fillType, filled, remaining)
    case Rejected(error) => Failed(PlaceOrderFailed(error))
    case Crashed => Panic
  }

  function Cancel(assets: AssetsView, user: Uuid, orderUuid: Uuid): (AssetsView, Reply) {
    if orderUuid !in assets.orderUuids then (assets, Failed(OrderNotFound(user, orderUuid)))
    else
      var (oix, asset) := assets.orderUuids[orderUuid];
      var (book, order) := RemoveFrom(assets.On(asset), oix);
      (assets.With(asset, book), if order.Some? then Cancelled else Panic)
  }

  function Apply(assets: AssetsView, cmd: TradeCmd): (AssetsView, Reply) {
    match cmd
    case PlaceCmd(o) =>
      var (book, result) := Place(assets.On(o.asset), o);
      (assets.With(o.asset, book), ReplyOf(result))
    case CancelCmd(user, orderUuid) => Cancel(assets, user, orderUuid)
  }

  // ---------------------------------------------------------------------------
  // Safety of every step
  // ---------------------------------------------------------------------------

  ghost predicate BookSafe(b: Book) {
    BookOk(b) && Uncrossed(b)
  }

  ghost predicate AssetsSafe(assets: AssetsView) {
    BookSafe(assets.eth) && BookSafe(assets.btc)
  }

  lemma RemoveKeepsSafe(book: Book, oix: OrderIndex)
    requires BookSafe(book)
    ensures BookSafe(RemoveFrom(book, oix).0)
  {
    var levels := book.On(oix.side);
    var after := Remove(levels, oix.price, oix.memo).0;
    RemoveAgreesWithWalk(oix.side, levels, oix.price, oix.memo);
    if Lookup(levels, oix.price, oix.memo).Some? {
      RemoveKeepsPrices(levels, oix.price, oix.memo, after);
    }
  }

  lemma RemoveKeepsPrices(levels: Levels, price: NonZeroU32, memo: u32, after: Levels)
    requires Lookup(levels, price, memo).Some? && after == Remove(levels, price, memo).0
    ensures forall l :: l in after ==> exists k :: k in levels && k.price == l.price
  {
    var i := Rank(levels, price);
    var j := Position(levels[i].orders, memo).value;
    SetOrdersKeepsCounters(levels, i, RemoveAt(levels[i].orders, j));
  }

  /** Every command keeps both books well-formed and uncrossed. */
  lemma ApplyKeepsSafe(assets: AssetsView, cmd: TradeCmd)
    requires AssetsSafe(assets)
    ensures AssetsSafe(Apply(assets, cmd).0)
  {
    match cmd
    case PlaceCmd(o) =>
      PlaceKeepsBookOk(assets.On(o.asset), o);
      PlaceKeepsUncrossed(assets.On(o.asset), o);
    case CancelCmd(user, orderUuid) =>
      if orderUuid in assets.orderUuids {
        var (oix, asset) := assets.orderUuids[orderUuid];
        RemoveKeepsSafe(assets.On(asset), oix);
      }
  }

  /** No command registers an order uuid. */
  lemma ApplyKeepsUuids(assets: AssetsView, cmd: TradeCmd)
    ensures Apply(assets, cmd).0.orderUuids == assets.orderUuids
  {
  }

  /** An order concerns the book of its own asset and no other. */
  lemma PlaceKeepsOtherAsset(assets: AssetsView, o: PlaceOrder)
    ensures o.asset == Ether ==>
              && Apply(assets, PlaceCmd(o)).0.eth == Place(assets.eth, o).0
              && Apply(assets, PlaceCmd(o)).0.btc == assets.btc
    ensures o.asset == Bitcoin ==>
              && Apply(assets, PlaceCmd(o)).0.btc == Place(assets.btc, o).0
              && Apply(assets, PlaceCmd(o)).0.eth == assets.eth
  {
  }

  // ---------------------------------------------------------------------------
  // What a client is told
  // ---------------------------------------------------------------------------

  /** An order that its time in force rejects is answered with the error of that time in force,
      and no other order is. */
  lemma RejectionTold(assets: AssetsView, o: PlaceOrder, reply: Reply, reachable: nat)
    requires AssetsSafe(assets) && reply == Apply(assets, PlaceCmd(o)).1
    requires reachable == Reachable(assets.On(o.asset), o)
    ensures reply == Failed(PlaceOrderFailed(FillOrKillFailed))
       <==> o.timeInForce == FillOrKill && reachable < o.quantity
    ensures reply == Failed(PlaceOrderFailed(InsufficientLiquidity))
       <==> o.timeInForce == ImmediateOrCancel && reachable == 0
    ensures reply.Failed? ==>
              || reply.error == PlaceOrderFailed(FillOrKillFailed)
              || reply.error == PlaceOrderFailed(InsufficientLiquidity)
  {
    PlaceFillsReachable(assets.On(o.asset), o, Place(assets.On(o.asset), o).1, reachable);
  }

  /** Any other order, short of a panic, is answered with what it traded and what is left of it,
      and with an index exactly when the rest of it rests. */
  lemma PlacementTold(assets: AssetsView, o: PlaceOrder, reply: Reply, reachable: nat)
    requires AssetsSafe(assets) && reply == Apply(assets, PlaceCmd(o)).1
    requires reachable == Reachable(assets.On(o.asset), o)
    ensures reply.Placed? <==> !reply.Failed? && !reply.Panic?
    ensures reply.Placed? ==>
              && reply.filled + reply.remaining == o.quantity
              && reply.filled == (if reachable < o.quantity then reachable else o.quantity)
              && reply.fillType
                 == (if reachable >= o.quantity then Complete else if reachable == 0 then Unfilled else Partial)
    ensures reply.Placed? ==>
              reply.orderIndex
              == if reply.remaining == 0 || o.timeInForce == ImmediateOrCancel then None
                 else Some(OrderIndex(o.side, o.price, NextMemo(assets.On(o.asset).On(o.side), o.price)))
  {
    var book := assets.On(o.asset);
    LiquidityMeaning(book, o);
    PlaceOutcome(book, o);
    PlaceFillsReachable(book, o, Place(book, o).1, reachable);
    if Place(book, o).1.Accepted? {
      PlaceBySide(book, o);
    }
  }

  /** A cancellation is answered by whether its uuid is registered, and panics when the order it
      stands for is not there. */
  lemma CancellationTold(assets: AssetsView, user: Uuid, orderUuid: Uuid, reply: Reply)
    requires AssetsSafe(assets) && reply == Apply(assets, CancelCmd(user, orderUuid)).1
    ensures orderUuid !in assets.orderUuids ==> reply == Failed(OrderNotFound(user, orderUuid))
    ensures orderUuid in assets.orderUuids ==>
              var (oix, asset) := assets.orderUuids[orderUuid];
              reply == if LookupIn(assets.On(asset), oix).Some? then Cancelled else Panic
  {
    if orderUuid in assets.orderUuids {
      var (oix, asset) := assets.orderUuids[orderUuid];
      RemoveAgreesWithWalk(oix.side, assets.On(asset).On(oix.side), oix.price, oix.memo);
    }
  }

  // ---------------------------------------------------------------------------
  // Commands without effect
  // ---------------------------------------------------------------------------

  /** The commands that leave the books alone: an order that its time in force rejects, and
      the cancellation of an order nobody registered. */
  predicate Ineffective(assets: AssetsView, cmd: TradeCmd) {
    match cmd
    case PlaceCmd(o) => Refused(o, Liquidity(assets.On(o.asset), o))
    case CancelCmd(_, orderUuid) => orderUuid !in assets.orderUuids
  }

  /** Short of a panic, a command leaves the books as they were exactly when it is ineffective,
      and that is exactly when it answers with an error. */
  lemma UnchangedIffIneffective(assets: AssetsView, cmd: TradeCmd)
    requires AssetsSafe(assets) && !Apply(assets, cmd).1.Panic?
    ensures Apply(assets, cmd).0 == assets <==> Ineffective(assets, cmd)
    ensures Apply(assets, cmd).1.Failed? <==> Ineffective(assets, cmd)
  {
    match cmd
    case PlaceCmd(o) =>
      UnchangedIffRejected(assets.On(o.asset), o);
      PlaceOutcome(assets.On(o.asset), o);
    case CancelCmd(user, orderUuid) =>
      if orderUuid in assets.orderUuids {
        var (oix, asset) := assets.orderUuids[orderUuid];
        RemovalShows(assets.On(asset), oix);
      }
  }

  lemma RemovalShows(book: Book, oix: OrderIndex)
    requires BookOk(book) && RemoveFrom(book, oix).1.Some?
    ensures RemoveFrom(book, oix).0 != book
  {
    var side, levels := oix.side, book.On(oix.side);
    RemoveAgreesWithWalk(side, levels, oix.price, oix.memo);
    assert |Walk(side, Remove(levels, oix.price, oix.memo).0)| < |Walk(side, levels)|;
  }

  /** When a command panics: when an order's remainder meets a level out of memos, and when a
      registered uuid stands for an order that is no longer there. */
  predicate Panics(assets: AssetsView, cmd: TradeCmd) {
    match cmd
    case PlaceCmd(o) => MemosExhausted(assets.On(o.asset), o)
    case CancelCmd(_, orderUuid) =>
      && orderUuid in assets.orderUuids
      && LookupIn(assets.On(assets.orderUuids[orderUuid].1), assets.orderUuids[orderUuid].0).None?
  }

  lemma PanicCondition(assets: AssetsView, cmd: TradeCmd)
    requires AssetsSafe(assets)
    ensures Apply(assets, cmd).1.Panic? <==> Panics(assets, cmd)
  {
    match cmd
    case PlaceCmd(o) => PlaceOutcome(assets.On(o.asset), o);
    case CancelCmd(user, orderUuid) =>
      if orderUuid in assets.orderUuids {
        var (oix, asset) := assets.orderUuids[orderUuid];
        RemoveAgreesWithWalk(oix.side, assets.On(asset).On(oix.side), oix.price, oix.memo);
      }
  }

  /** Cancelling a registered order that is live takes that order out and no other: its index
      denotes nothing afterwards, and every other index of either asset what it denoted. */
  lemma CancelTakesOne(
      assets: AssetsView, user: Uuid, orderUuid: Uuid, after: AssetsView, which: Asset, other: OrderIndex)
    requires AssetsSafe(assets) && orderUuid in assets.orderUuids
    requires after == Cancel(assets, user, orderUuid).0 && Cancel(assets, user, orderUuid).1.Cancelled?
    ensures var (oix, asset) := assets.orderUuids[orderUuid];
            LookupIn(after.On(which), other)
            == if which == asset && other == oix then None else LookupIn(assets.On(which), other)
  {
    var (oix, asset) := assets.orderUuids[orderUuid];
    if which == asset && other.side == oix.side {
      var levels, left := assets.On(asset).On(oix.side), after.On(asset).On(oix.side);
      if other == oix {
        RemoveForgets(levels, oix.price, oix.memo, left);
      } else {
        RemoveLeavesOthers(levels, oix, left, other.price, other.memo);
      }
    }
  }

  // ---------------------------------------------------------------------------
  // Runs of commands from empty books
  // ---------------------------------------------------------------------------

  datatype Machine = Live(assets: AssetsView) | Dead

  function Next(m: Machine, cmd: TradeCmd): Machine {
    if m.Dead? then Dead
    else
      var (assets, reply) := Apply(m.assets, cmd);
      if reply.Panic? then Dead else Live(assets)
  }

  /** The state that a sequence of commands leads to; a panic ends the run. */
  function Fold(cmds: seq<TradeCmd>): Machine {
    if cmds == [] then Live(EMPTY_ASSETS)
    else Next(Fold(cmds[..|cmds| - 1]), cmds[|cmds| - 1])
  }

  lemma FoldSnoc(cmds: seq<TradeCmd>, cmd: TradeCmd)
    ensures Fold(cmds + [cmd]) == Next(Fold(cmds), cmd)
  {
    assert (cmds + [cmd])[..|cmds|] == cmds;
  }

  /** In every state reached from empty books by placing and cancelling, each book is
      well-formed, every bid is strictly below every ask, and no uuid is registered. */
  lemma {:induction false} RunsAreSafe(cmds: seq<TradeCmd>)
    requires Fold(cmds).Live?
    ensures AssetsSafe(Fold(cmds).assets)
    ensures Fold(cmds).assets.orderUuids == map[]
  {
    if cmds != [] {
      var before, cmd := cmds[..|cmds| - 1], cmds[|cmds| - 1];
      RunsAreSafe(before);
      ApplyKeepsSafe(Fold(before).assets, cmd);
      ApplyKeepsUuids(Fold(before).assets, cmd);
    }
  }

  /** So a cancellation is answered with `OrderNotFound` and changes nothing. */
  lemma CancelNeverFinds(cmds: seq<TradeCmd>, user: Uuid, orderUuid: Uuid)
    requires Fold(cmds).Live?
    ensures Apply(Fold(cmds).assets, CancelCmd(user, orderUuid))
         == (Fold(cmds).assets, Failed(OrderNotFound(user, orderUuid)))
  {
    RunsAreSafe(cmds);
  }

  /** The commands of a run that were effective. */
  function Effective(cmds: seq<TradeCmd>): seq<TradeCmd> {
    if cmds == [] then []
    else
      var before, cmd := cmds[..|cmds| - 1], cmds[|cmds| - 1];
      match Fold(before)
      case Dead => Effective(before)
      case Live(assets) => Effective(before) + (if Ineffective(assets, cmd) then [] else [cmd])
  }

  /** Commands that failed replay as no-ops: leaving them out leads to the same state. */
  lemma {:induction false} FailedReplayAsNoOps(cmds: seq<TradeCmd>)
    requires Fold(cmds).Live?
    ensures Fold(Effective(cmds)) == Fold(cmds)
  {
    if cmds != [] {
      var before, cmd := cmds[..|cmds| - 1], cmds[|cmds| - 1];
      FailedReplayAsNoOps(before);
      RunsAreSafe(before);
      var assets := Fold(before).assets;
      UnchangedIffIneffective(assets, cmd);
      if Ineffective(assets, cmd) {
        assert Effective(cmds) == Effective(before);
      } else {
        FoldSnoc(Effective(before), cmd);
      }
    }
  }

  // ---------------------------------------------------------------------------
  // Conservation over runs
  // ---------------------------------------------------------------------------

  /** What a run has taken in, matched and thrown away for one asset. */
  datatype Ledger = Ledger(accepted: nat, filled: nat, discarded: nat)

  function Booked(l: Ledger, o: PlaceOrder, r: Reply): Ledger {
    match r
    case Placed(orderIndex, _, filled, remaining) =>
      Ledger(
        l.accepted + o.quantity,
        l.filled + filled,
        l.discarded + if o.timeInForce.ImmediateOrCancel? then remaining else 0)
    case _ => l
  }

  /** Adds up the replies to the orders of one asset. */
  function LedgerOf(cmds: seq<TradeCmd>, asset: Asset): Ledger {
    if cmds == [] then Ledger(0, 0, 0)
    else
      var before, cmd := cmds[..|cmds| - 1], cmds[|cmds| - 1];
      var l := LedgerOf(before, asset);
      match Fold(before)
      case Dead => l
      case Live(assets) =>
        if cmd.PlaceCmd? && cmd.order.asset == asset then Booked(l, cmd.order, Apply(assets, cmd).1) else l
  }

  function RestingIn(book: Book): nat {
    Resting(Buy, book.bids) + Resting(Sell, book.asks)
  }

  /** Over any run and for each asset, the quantity of the accepted orders is what rests on
      both sides, plus twice what was filled, plus the discarded remainders. */
  lemma {:induction false} RunsConserve(cmds: seq<TradeCmd>, asset: Asset, l: Ledger)
    requires Fold(cmds).Live?
    requires l == LedgerOf(cmds, asset)
    ensures l.accepted == RestingIn(Fold(cmds).assets.On(asset)) + 2 * l.filled + l.discarded
  {
    if cmds != [] {
      var before, cmd := cmds[..|cmds| - 1], cmds[|cmds| - 1];
      var earlier := LedgerOf(before, asset);
      RunsConserve(before, asset, earlier);
      RunsAreSafe(before);
      var assets := Fold(before).assets;
      match cmd
      case CancelCmd(user, orderUuid) => CancelNeverFinds(before, user, orderUuid);
      case PlaceCmd(o) =>
        if o.asset == asset {
          PlaceBalances(assets.On(asset), o, Place(assets.On(asset), o).0, Place(assets.On(asset), o).1);
        }
    }
  }

  lemma PlaceBalances(book: Book, o: PlaceOrder, after: Book, r: PlaceResult)
    requires BookOk(book) && after == Place(book, o).0 && r == Place(book, o).1 && !r.Crashed?
    ensures r.Rejected? ==> after == book
    ensures r.Accepted? ==>
              o.quantity + RestingIn(book)
              == RestingIn(after) + 2 * r.filled + (if o.timeInForce.ImmediateOrCancel? then r.remaining else 0)
  {
    PlaceOutcome(book, o);
    if Refused(o, Liquidity(book, o)) {
      PlaceRejects(book, o);
    } else {
      PlaceConserves(book, o, after, r);
    }
  }

  // ---------------------------------------------------------------------------
  // Index stability over runs
  // ---------------------------------------------------------------------------

  /** The order that an index of an asset denotes. */
  function Denoted(assets: AssetsView, asset: Asset, oix: OrderIndex): Option<Order> {
    LookupIn(assets.On(asset), oix)
  }

  /** While an index is live it keeps denoting the same order, whose quantity only shrinks. */
  lemma {:induction false} LiveIndexIsStable(cmds: seq<TradeCmd>, from: nat, asset: Asset, oix: OrderIndex)
    requires from <= |cmds| && Fold(cmds).Live?
    requires forall n :: from <= n <= |cmds| ==>
               Fold(cmds[..n]).Live? && Denoted(Fold(cmds[..n]).assets, asset, oix).Some?
    ensures Denoted(Fold(cmds).assets, asset, oix).Some?
    ensures var first := Denoted(Fold(cmds[..from]).assets, asset, oix).value;
            var last := Denoted(Fold(cmds).assets, asset, oix).value;
            last.quantity <= first.quantity && last == first.(quantity := last.quantity)
    decreases |cmds|
  {
    assert cmds[..|cmds|] == cmds;
    if from < |cmds| {
      var before, cmd := cmds[..|cmds| - 1], cmds[|cmds| - 1];
      forall n | from <= n <= |before|
        ensures Fold(before[..n]).Live? && Denoted(Fold(before[..n]).assets, asset, oix).Some?
      {
        assert before[..n] == cmds[..n];
      }
      assert before[..from] == cmds[..from];
      LiveIndexIsStable(before, from, asset, oix);
      RunsAreSafe(before);
      LiveIndexAcrossCmd(Fold(before).assets, cmd, Fold(cmds).assets, asset, oix);
    }
  }

  lemma {:induction false} LiveIndexAcrossCmd(
      assets: AssetsView, cmd: TradeCmd, after: AssetsView, asset: Asset, oix: OrderIndex)
    requires AssetsSafe(assets) && assets.orderUuids == map[]
    requires Next(Live(assets), cmd) == Live(after)
    ensures Denoted(assets, asset, oix).Some? && Denoted(after, asset, oix).Some? ==>
              var first, last := Denoted(assets, asset, oix).value, Denoted(after, asset, oix).value;
              last.quantity <= first.quantity && last == first.(quantity := last.quantity)
  {
    if cmd.PlaceCmd? && cmd.order.asset == asset
       && Denoted(assets, asset, oix).Some? && Denoted(after, asset, oix).Some? {
      var book := assets.On(asset);
      var placed := Place(book, cmd.order).0;
      assert after.On(asset) == placed;
      LiveIndexOnlyShrinks(book, cmd.order, placed, oix);
    }
  }
}
