/** The trading engine's commands on asset books that change in place. */
module Trading {
  import opened Types
  import opened BookModel
  import opened FillPlan
  import opened FillCommit
  import opened Placement
  import opened TradingModel
  import opened BookObjects
  import opened Matching

  /** The books of both assets and the uuids of registered orders. */
  class Assets {
    var orderUuids: map<Uuid, (OrderIndex, Asset)>
    const eth: Orderbook
    const btc: Orderbook

    constructor ()
      ensures Valid() && View() == EMPTY_ASSETS && fresh(Repr())
    {
      orderUuids := map[];
      eth := new Orderbook();
      btc := new Orderbook();
      new;
      assert eth.Repr() !! btc.Repr() && this !in eth.Repr() && this !in btc.Repr();
      assert eth.View() == btc.View() == EMPTY_BOOK;
    }

    function MatchAssetMut(asset: Asset): Orderbook {
      match asset
      case Ether => eth
      case Bitcoin => btc
    }

    ghost function Repr(): set<object>
      reads eth.bids, eth.asks, btc.bids, btc.asks
    {
      {this} + eth.Repr() + btc.Repr()
    }

    ghost predicate Valid()
      reads this, Repr()
    {
      && eth.Valid() && btc.Valid()
      && eth.Repr() !! btc.Repr()
      && this !in eth.Repr() && this !in btc.Repr()
    }

    function View(): AssetsView
      reads this, Repr()
    {
      AssetsView(orderUuids, eth.View(), btc.View())
    }

    /** Places an order: plan, decide by time in force, commit, and rest what remains. */
    method DoPlaceOrder(o: PlaceOrder) returns (r: PlaceResult)
      requires Valid()
      modifies Repr()
      ensures Valid() && fresh(Repr() - old(Repr()))
      ensures View() == old(View()).With(o.asset, Place(old(View()).On(o.asset), o).0)
      ensures r == Place(old(View()).On(o.asset), o).1
    {
      r := PlaceBeside(MatchAssetMut(o.asset), MatchAssetMut(Other(o.asset)), o);
    }

    /** Cancels a registered order; a registered order that is not in the book is a panic. */
    method DoCancelOrder(user: Uuid, orderUuid: Uuid) returns (r: Reply)
      requires Valid()
      modifies Repr()
      ensures Valid() && fresh(Repr() - old(Repr()))
      ensures View() == Cancel(old(View()), user, orderUuid).0
      ensures r == Cancel(old(View()), user, orderUuid).1
    {
      if orderUuid !in orderUuids {
        return Failed(OrderNotFound(user, orderUuid));
      }
      var (oix, asset) := orderUuids[orderUuid];
      var book := MatchAssetMut(asset);
      ghost var other := MatchAssetMut(Other(asset));
      ghost var touched := book.Repr();
      ghost var kept := other.Repr();
      assert touched !! kept && other.bids in kept && other.asks in kept;
      assert forall l :: l in other.bids.inner || l in other.asks.inner ==> l in kept;
      var removed := book.Remove(oix);
      BookUntouched(other);
      r := if removed.Some? then Cancelled else Panic;
    }

    /** Applies a trade command. */
    method ApplyCmd(cmd: TradeCmd) returns (reply: Reply)
      requires Valid()
      modifies Repr()
      ensures Valid() && fresh(Repr() - old(Repr()))
      ensures View() == Apply(old(View()), cmd).0
      ensures reply == Apply(old(View()), cmd).1
    {
      match cmd
      case PlaceCmd(o) =>
        var result := DoPlaceOrder(o);
        reply := ReplyOf(result);
      case CancelCmd(user, orderUuid) =>
        reply := DoCancelOrder(user, orderUuid);
    }
  }

  function Other(asset: Asset): Asset {
    if asset.Ether? then Bitcoin else Ether
  }

  method PlaceOn(book: Orderbook, o: PlaceOrder) returns (r: PlaceResult)
    requires book.Valid()
    modifies book.Repr()
    ensures book.Valid() && fresh(book.Repr() - old(book.Repr()))
    ensures book.View() == Place(old(book.View()), o).0
    ensures r == Place(old(book.View()), o).1
  {
    var pending := TryFillOrders(book, o.Taker(), o.side, o.orderType);
    r := Decide(book, o, pending);
  }

  /** Applies the time in force to a planned fill, and commits the fill unless it is refused. */
  method Decide(book: Orderbook, o: PlaceOrder, pending: PendingFill) returns (r: PlaceResult)
    requires book.Valid() && pending.orderbook == book && pending.taker == o.Taker()
    requires pending.makerFills == PlanFor(book.View(), o.Wants(), o.quantity)
    requires pending.takerFillOutcome == OutcomeOf(pending.makerFills, o.quantity)
    modifies book.Repr()
    ensures book.Valid() && fresh(book.Repr() - old(book.Repr()))
    ensures book.View() == Place(old(book.View()), o).0
    ensures r == Place(old(book.View()), o).1
  {
    var refusal := Refusal(pending.takerFillOutcome, o.timeInForce);
    if refusal.Some? {
      return Rejected(refusal.value);
    }
    ghost var before := book.View();
    ghost var committed := Commit(before, o.Taker(), pending.makerFills, pending.takerFillOutcome);
    r := CommitPlacement(book, o, pending);
    PlaceOf(before, o, pending.makerFills, pending.takerFillOutcome, committed.0, committed.1);
  }

  /** Places an order in one of two books that share no object; the other stays as it is. */
  method PlaceBeside(book: Orderbook, ghost other: Orderbook, o: PlaceOrder) returns (r: PlaceResult)
    requires book.Valid() && other.Valid() && book.Repr() !! other.Repr()
    modifies book.Repr()
    ensures book.Valid() && other.Valid() && book.Repr() !! other.Repr()
    ensures other.View() == old(other.View()) && other.Repr() == old(other.Repr())
    ensures forall x :: x in book.Repr() ==> x in old(book.Repr()) || fresh(x)
    ensures book.View() == Place(old(book.View()), o).0
    ensures r == Place(old(book.View()), o).1
  {
    ghost var kept := other.Repr();
    assert other.bids in kept && other.asks in kept;
    assert forall l :: l in other.bids.inner || l in other.asks.inner ==> l in kept;
    ghost var owned := book.Repr();
    r := PlaceOn(book, o);
    assert forall x :: x in book.Repr() ==> x in owned || fresh(x);
    assert book.Repr() !! kept;
    BookUntouched(other);
  }

  /** Commits a planned fill that the time in force does not refuse. */
  method CommitPlacement(book: Orderbook, o: PlaceOrder, pending: PendingFill) returns (r: PlaceResult)
    requires book.Valid() && pending.orderbook == book
    modifies book.Repr()
    ensures book.Valid() && fresh(book.Repr() - old(book.Repr()))
    ensures var committed :=
              Commit(old(book.View()), pending.taker, pending.makerFills, pending.takerFillOutcome);
            && book.View() == AfterCommit(committed.0, o, committed.1).0
            && r == AfterCommit(committed.0, o, committed.1).1
  {
    var result := CommitFill(pending);
    r := FinishPlacement(book, o, result);
  }

  /** What follows a commit. */
  method FinishPlacement(book: Orderbook, o: PlaceOrder, result: CommitResult) returns (r: PlaceResult)
    requires book.Valid()
    modifies book.Repr()
    ensures book.Valid() && fresh(book.Repr() - old(book.Repr()))
    ensures book.View() == AfterCommit(old(book.View()), o, result).0
    ensures r == AfterCommit(old(book.View()), o, result).1
  {
    match result
    case InvalidOrderIndex(oix) => r := Rejected(ExecutePendingFillError(oix));
    case Panicked => r := Crashed;
    case Committed(fillType, None) => r := Accepted(None, fillType, o.quantity, 0);
    case Committed(fillType, Some(rest)) =>
      if !o.timeInForce.ImmediateOrCancel? {
        r := RestOn(book, o, fillType, rest);
      } else if o.quantity < rest.quantity {
        r := Crashed;
      } else {
        r := Accepted(None, fillType, o.quantity - rest.quantity, rest.quantity);
      }
  }

  /** Rests a remainder on its own side. */
  method RestOn(book: Orderbook, o: PlaceOrder, fillType: FillType, rest: Order) returns (r: PlaceResult)
    requires book.Valid()
    modifies book.Repr()
    ensures book.Valid() && fresh(book.Repr() - old(book.Repr()))
    ensures book.View() == Rest(old(book.View()), o, fillType, rest).0
    ensures r == Rest(old(book.View()), o, fillType, rest).1
  {
    ghost var before := book.View();
    var orderIndex := PushTaker(book, o.side, rest);
    RestOf(before, o, fillType, rest, orderIndex, book.View());
    if orderIndex.None? || o.quantity < rest.quantity {
      return Crashed;
    }
    r := Accepted(orderIndex, fillType, o.quantity - rest.quantity, rest.quantity);
  }

  method PushTaker(book: Orderbook, side: OrderSide, t: Order) returns (r: Option<OrderIndex>)
    requires book.Valid()
    modifies book.Repr()
    ensures book.Valid() && fresh(book.Repr() - old(book.Repr()))
    ensures r.None? <==> Push(old(book.View()).On(side), t).None?
    ensures r.None? ==> book.View() == old(book.View())
    ensures r.Some? ==> book.View() == old(book.View()).With(side, Push(old(book.View()).On(side), t).value)
    ensures r.Some? ==> r.value == OrderIndex(side, t.price, NextMemo(old(book.View()).On(side), t.price))
  {
    match side
    case Buy => r := book.PushBid(t);
    case Sell => r := book.PushAsk(t);
  }
}
