/** Planning and committing a fill on an order book that changes in place. */
module Matching {
  import opened Types
  import opened BookModel
  import opened FillPlan
  import opened FillCommit
  import opened BookObjects

  /** A planned fill, still to be committed. */
  datatype PendingFill = PendingFill(
    orderbook: Orderbook,
    taker: Order,
    side: OrderSide,
    orderType: OrderType,
    makerFills: seq<MakerFill>,
    takerFillOutcome: FillType)

  /** The planning loop over the makers' list. */
  method PlanFills(entries: seq<Entry>, taker: Order, side: OrderSide, orderType: OrderType, ghost orders: seq<Order>)
    returns (makerFills: seq<MakerFill>, outcome: FillType)
    requires |entries| == |orders|
    requires forall i :: 0 <= i < |entries| ==>
               entries[i].order == orders[i] && entries[i].oix == IndexOf(side.Opposite(), orders[i])
    ensures makerFills == Plan(Terms(side, orderType, taker.price), orders, taker.quantity)
    ensures outcome == OutcomeOf(makerFills, taker.quantity)
  {
    makerFills, outcome := [], Unfilled;
    var rem: u32 := taker.quantity;
    ghost var terms := Terms(side, orderType, taker.price);
    var i := 0;
    while i < |entries|
      invariant 0 <= i <= |entries| && rem > 0
      invariant makerFills + Plan(terms, orders[i..], rem) == Plan(terms, orders, taker.quantity)
      invariant Filled(makerFills) + rem == taker.quantity
      invariant makerFills == [] <==> Filled(makerFills) == 0
      invariant outcome == if makerFills == [] then Unfilled else Partial
    {
      var Entry(oix, order) := entries[i];
      var fillAmount: u32 := Min(order.quantity, rem);
      ghost var left: u32 := rem - fillAmount;
      PlanFrom(terms, orders, i, rem, left);
      i := i + 1;
      if orderType == Limit
         && ((side == Buy && order.price > taker.price) || (side == Sell && order.price < taker.price)) {
        continue;
      }
      var fillType := if fillAmount == order.quantity then Complete else Partial;
      var fill := MakerFill(oix, order, fillType, fillAmount);
      FilledSnoc(makerFills, fill);
      PlanSnoc(makerFills, fill, Plan(terms, orders[i..], left));
      makerFills := makerFills + [fill];
      if rem == fillAmount {
        outcome := Complete;
        rem := 0;
        break;
      } else {
        outcome := Partial;
        rem := rem - fillAmount;
      }
    }
    assert Plan(terms, orders[i..], rem) == [];
    if rem == taker.quantity {
      outcome := Unfilled;
    }
  }

  /** Plans the fill of a taker; the book is only read. */
  method TryFillOrders(orderbook: Orderbook, taker: Order, side: OrderSide, orderType: OrderType)
    returns (pending: PendingFill)
    requires orderbook.Valid()
    ensures orderbook.Valid() && orderbook.View() == old(orderbook.View())
    ensures pending.orderbook == orderbook && pending.taker == taker
    ensures pending.side == side && pending.orderType == orderType
    ensures pending.makerFills == PlanFor(orderbook.View(), Terms(side, orderType, taker.price), taker.quantity)
    ensures pending.takerFillOutcome == OutcomeOf(pending.makerFills, taker.quantity)
    ensures orderType == Limit ==> forall i :: 0 <= i < |pending.makerFills| ==>
              if side == Buy then pending.makerFills[i].maker.price <= taker.price
              else pending.makerFills[i].maker.price >= taker.price
    ensures Filled(pending.makerFills) == Min(taker.quantity, TotalQuantity(
              match (orderType, side)
              case (Market, Buy) => Walk(Sell, orderbook.View().asks)
              case (Market, Sell) => Walk(Buy, orderbook.View().bids)
              case (Limit, Buy) => PricedAtMost(Walk(Sell, orderbook.View().asks), taker.price)
              case (Limit, Sell) => PricedAtLeast(Walk(Buy, orderbook.View().bids), taker.price)))
  {
    var makerSide := match side case Buy => Sell case Sell => Buy;
    ghost var orders := Walk(makerSide, orderbook.View().On(makerSide));
    var makerFills, outcome := PlanFills(orderbook.IterRel(makerSide), taker, side, orderType, orders);
    ghost var terms := Terms(side, orderType, taker.price);
    FillsWithinLimit(terms, orders, taker.quantity);
    PlanFillsWithinLimit(terms, orders, taker.quantity);
    pending := PendingFill(orderbook, taker, side, orderType, makerFills, outcome);
  }

  lemma PlanSnoc(fills: seq<MakerFill>, fill: MakerFill, later: seq<MakerFill>)
    ensures fills + ([fill] + later) == (fills + [fill]) + later
  {
  }

  lemma {:induction false} FilledSnoc(fills: seq<MakerFill>, fill: MakerFill)
    ensures Filled(fills + [fill]) == Filled(fills) + fill.fillAmount
  {
    if fills != [] {
      assert (fills + [fill])[1..] == fills[1..] + [fill];
      FilledSnoc(fills[1..], fill);
    }
  }

  /** The check loop: whether every maker of the plan is still in the book. */
  method CheckMakers(orderbook: Orderbook, fills: seq<MakerFill>) returns (missing: Option<OrderIndex>)
    requires orderbook.Valid()
    ensures orderbook.Valid() && orderbook.View() == old(orderbook.View())
    ensures missing == FirstMissing(orderbook.View(), fills)
  {
    ghost var view := orderbook.View();
    ghost var first := FirstMissing(view, fills);
    var k := 0;
    assert fills[0..] == fills;
    while k < |fills|
      invariant 0 <= k <= |fills|
      invariant orderbook.Valid() && orderbook.View() == view
      invariant first == FirstMissing(view, fills[k..])
    {
      FirstMissingFrom(view, fills, k);
      var found := orderbook.GetMut(fills[k].oix);
      if found.None? {
        return Some(fills[k].oix);
      }
      k := k + 1;
    }
    missing := None;
  }

  /** One round of the execution loop, for a maker that is taken whole. */
  method RemoveMaker(orderbook: Orderbook, fill: MakerFill, rem: u32) returns (progress: Progress)
    requires orderbook.Valid() && fill.fillType == Complete
    modifies orderbook.Repr()
    ensures orderbook.Valid() && orderbook.Repr() <= old(orderbook.Repr())
    ensures orderbook.View() == ExecuteOne(old(orderbook.View()), fill, rem).0
    ensures progress == ExecuteOne(old(orderbook.View()), fill, rem).1
  {
    ghost var view := orderbook.View();
    var removed := orderbook.Remove(fill.oix);
    if removed.None? {
      return Missing(fill.oix);
    }
    var order := removed.value;
    if order != fill.maker || rem < order.quantity {
      return Broken;
    }
    var left: u32 := rem - order.quantity;
    RemoveOne(view, fill, rem, left);
    progress := Left(left);
  }

  /** One round of the execution loop, for a maker that is filled in part. */
  method ShrinkMaker(orderbook: Orderbook, fill: MakerFill, rem: u32) returns (progress: Progress)
    requires orderbook.Valid() && fill.fillType == Partial
    modifies orderbook.Repr()
    ensures orderbook.Valid() && orderbook.Repr() <= old(orderbook.Repr())
    ensures orderbook.View() == ExecuteOne(old(orderbook.View()), fill, rem).0
    ensures progress == ExecuteOne(old(orderbook.View()), fill, rem).1
  {
    ghost var view := orderbook.View();
    var maker := orderbook.GetMut(fill.oix);
    if maker.None? {
      return Missing(fill.oix);
    }
    var order := orderbook.Deref(maker.value, fill.oix);
    if order != fill.maker || rem >= order.quantity {
      return Broken;
    }
    var less: NonZeroU32 := order.quantity - rem;
    ShrinkOne(view, fill, rem, less);
    orderbook.Assign(maker.value, less, fill.oix);
    progress := Left(0);
  }

  /** One round of the execution loop. */
  method ExecuteFill(orderbook: Orderbook, fill: MakerFill, rem: u32) returns (progress: Progress)
    requires orderbook.Valid()
    modifies orderbook.Repr()
    ensures orderbook.Valid() && orderbook.Repr() <= old(orderbook.Repr())
    ensures orderbook.View() == ExecuteOne(old(orderbook.View()), fill, rem).0
    ensures progress == ExecuteOne(old(orderbook.View()), fill, rem).1
  {
    match fill.fillType
    case Complete => progress := RemoveMaker(orderbook, fill, rem);
    case Partial => progress := ShrinkMaker(orderbook, fill, rem);
    case Unfilled => progress := Broken;
  }

  /** The execution loop. */
  method ExecuteFills(orderbook: Orderbook, fills: seq<MakerFill>, quantity: u32) returns (progress: Progress)
    requires orderbook.Valid()
    modifies orderbook.Repr()
    ensures orderbook.Valid() && orderbook.Repr() <= old(orderbook.Repr())
    ensures orderbook.View() == Execute(old(orderbook.View()), fills, quantity).0
    ensures progress == Execute(old(orderbook.View()), fills, quantity).1
  {
    var rem: u32 := quantity;
    var k := 0;
    ghost var rest := fills;
    ghost var whole := Execute(orderbook.View(), fills, quantity);
    while k < |fills|
      invariant 0 <= k <= |fills| && rest == fills[k..]
      invariant orderbook.Valid() && orderbook.Repr() <= old(orderbook.Repr())
      invariant whole == Execute(orderbook.View(), rest, rem)
    {
      ghost var before := orderbook.View();
      progress := ExecuteFill(orderbook, fills[k], rem);
      ExecuteUnfolds(before, rest, rem, orderbook.View(), progress);
      if !progress.Left? {
        return;
      }
      rem := progress.rem;
      k := k + 1;
      rest := rest[1..];
    }
    progress := Left(rem);
  }

  /** Commits a planned fill. Nothing is assumed of the plan: a maker that is not in the book
      gives an error, a failed assertion a panic. */
  method CommitFill(pending: PendingFill) returns (r: CommitResult)
    requires pending.orderbook.Valid()
    modifies pending.orderbook.Repr()
    ensures pending.orderbook.Valid() && pending.orderbook.Repr() <= old(pending.orderbook.Repr())
    ensures pending.orderbook.View()
         == Commit(old(pending.orderbook.View()), pending.taker, pending.makerFills, pending.takerFillOutcome).0
    ensures r == Commit(old(pending.orderbook.View()), pending.taker, pending.makerFills, pending.takerFillOutcome).1
  {
    ghost var before := pending.orderbook.View();
    var missing := CheckMakers(pending.orderbook, pending.makerFills);
    if missing.Some? {
      return InvalidOrderIndex(missing.value);
    }
    var progress := ExecuteFills(pending.orderbook, pending.makerFills, pending.taker.quantity);
    CommitOf(before, pending.taker, pending.makerFills, pending.takerFillOutcome, pending.orderbook.View(), progress);
    match progress
    case Missing(oix) => r := InvalidOrderIndex(oix);
    case Broken => r := Panicked;
    case Left(rem) =>
      if !OutcomeMatches(pending.takerFillOutcome, pending.taker.quantity, rem) {
        return Panicked;
      }
      r := Committed(pending.takerFillOutcome, Remainder(pending.taker, rem));
  }
}
