/** Placing an order: plan, apply the time in force, commit, and rest what remains. */
module Placement {
  import opened Types
  import opened BookModel
  import opened FillPlan
  import opened FillCommit

  datatype Asset = Bitcoin | Ether

  /** An opaque identifier. */
  type Uuid = nat

  /** The request; the self-trade-protection setting has no effect and is not modelled. */
  datatype PlaceOrder = PlaceOrder(
    asset: Asset,
    user: Uuid,
    price: NonZeroU32,
    quantity: NonZeroU32,
    orderType: OrderType,
    timeInForce: TimeInForce,
    side: OrderSide)
  {
    function Wants(): Terms {
      Terms(side, orderType, price)
    }

    /** The order the taker brings; its memo is a placeholder until a push assigns one. */
    function Taker(): Order {
      Order(U32_MAX, quantity, price)
    }
  }

  datatype PlaceOrderError =
    | FillOrKillFailed
    | InsufficientLiquidity
    | ExecutePendingFillError(oix: OrderIndex)

  /** `Crashed` stands for a panic: a failed assertion or an overflow of a memo counter. */
  datatype PlaceResult =
    | Accepted(orderIndex: Option<OrderIndex>, fillType: FillType, filled: u32, remaining: u32)
    | Rejected(error: PlaceOrderError)
    | Crashed

  /** The time-in-force decision. */
  function Refusal(outcome: FillType, timeInForce: TimeInForce): Option<PlaceOrderError> {
    match (outcome, timeInForce)
    case (Complete, _) => None
    case (Partial, GoodTilCanceled) => None
    case (Partial, GoodTilDate) => None
    case (Partial, ImmediateOrCancel) => None
    case (Partial, FillOrKill) => Some(FillOrKillFailed)
    case (Unfilled, GoodTilCanceled) => None
    case (Unfilled, GoodTilDate) => None
    case (Unfilled, ImmediateOrCancel) => Some(InsufficientLiquidity)
    case (Unfilled, FillOrKill) => Some(FillOrKillFailed)
  }

  /** Rests the remainder of a taker on its own side. */
  function Rest(book: Book, o: PlaceOrder, fillType: FillType, rest: Order): (Book, PlaceResult) {
    match Push(book.On(o.side), rest)
    case None => (book, Crashed)
    case Some(levels) =>
      var oix := OrderIndex(o.side, rest.price, NextMemo(book.On(o.side), rest.price));
      if o.quantity < rest.quantity then (book.With(o.side, levels), Crashed)
      else (book.With(o.side, levels), Accepted(Some(oix), fillType, o.quantity - rest.quantity, rest.quantity))
  }

  lemma RestOf(
      book: Book, o: PlaceOrder, fillType: FillType, rest: Order, orderIndex: Option<OrderIndex>, after: Book)
    requires orderIndex.None? <==> Push(book.On(o.side), rest).None?
    requires orderIndex.None? ==> after == book
    requires orderIndex.Some? ==> after == book.With(o.side, Push(book.On(o.side), rest).value)
    requires orderIndex.Some? ==>
               orderIndex.value == OrderIndex(o.side, rest.price, NextMemo(book.On(o.side), rest.price))
    ensures Rest(book, o, fillType, rest).0 == after
    ensures Rest(book, o, fillType, rest).1
         == if orderIndex.None? || o.quantity < rest.quantity then Crashed
            else Accepted(orderIndex, fillType, o.quantity - rest.quantity, rest.quantity)
  {
  }

  /** What follows a commit. */
  function AfterCommit(book: Book, o: PlaceOrder, result: CommitResult): (Book, PlaceResult) {
    match result
    case InvalidOrderIndex(oix) => (book, Rejected(ExecutePendingFillError(oix)))
    case Panicked => (book, Crashed)
    case Committed(fillType, None) => (book, Accepted(None, fillType, o.quantity, 0))
    case Committed(fillType, Some(rest)) =>
      if !o.timeInForce.ImmediateOrCancel? then Rest(book, o, fillType, rest)
      else if o.quantity < rest.quantity then (book, Crashed)
      else (book, Accepted(None, fillType, o.quantity - rest.quantity, rest.quantity))
  }

  function Place(book: Book, o: PlaceOrder): (Book, PlaceResult) {
    var fills := PlanFor(book, o.Wants(), o.quantity);
    var outcome := OutcomeOf(fills, o.quantity);
    match Refusal(outcome, o.timeInForce)
    case Some(error) => (book, Rejected(error))
    case None =>
      var (committed, result) := Commit(book, o.Taker(), fills, outcome);
      AfterCommit(committed, o, result)
  }

  lemma PlaceOf(
      book: Book, o: PlaceOrder, fills: seq<MakerFill>, outcome: FillType, committed: Book, result: CommitResult)
    requires fills == PlanFor(book, o.Wants(), o.quantity) && outcome == OutcomeOf(fills, o.quantity)
    requires Refusal(outcome, o.timeInForce).None?
    requires committed == Commit(book, o.Taker(), fills, outcome).0
    requires result == Commit(book, o.Taker(), fills, outcome).1
    ensures Place(book, o).0 == AfterCommit(committed, o, result).0
    ensures Place(book, o).1 == AfterCommit(committed, o, result).1
  {
  }

  // ---------------------------------------------------------------------------
  // Reference definition: settling an order in one go
  // ---------------------------------------------------------------------------

  /** The quantity on the other side that the order may trade with. */
  function Liquidity(book: Book, o: PlaceOrder): nat {
    TotalQuantity(Eligible(o.Wants(), Walk(o.side.Opposite(), book.On(o.side.Opposite()))))
  }

  /** Whether the liquidity falls short of what the time in force insists on. */
  predicate Refused(o: PlaceOrder, liquidity: nat) {
    || (o.timeInForce.FillOrKill? && liquidity < o.quantity)
    || (o.timeInForce.ImmediateOrCancel? && liquidity == 0)
  }

  function FillTypeOf(filled: u32, left: u32): FillType {
    if left == 0 then Complete else if filled == 0 then Unfilled else Partial
  }

  /** What placing an order amounts to: refuse it, or trade with what there is and rest what is
      left, unless the order is immediate-or-cancel. */
  function Settle(book: Book, o: PlaceOrder, filled: u32, left: u32): (Book, PlaceResult)
    requires BookOk(book) && filled + left == o.quantity
  {
    var traded := ConsumeIn(book, o.Wants(), o.quantity);
    var fillType := FillTypeOf(filled, left);
    if left == 0 || o.timeInForce.ImmediateOrCancel? then (traded, Accepted(None, fillType, filled, left))
    else
      match Push(traded.On(o.side), Order(U32_MAX, left, o.price))
      case None => (traded, Crashed)
      case Some(levels) =>
        var oix := OrderIndex(o.side, o.price, NextMemo(book.On(o.side), o.price));
        (traded.With(o.side, levels), Accepted(Some(oix), fillType, filled, left))
  }

  lemma RefusalMeaning(book: Book, o: PlaceOrder, fills: seq<MakerFill>)
    requires fills == PlanFor(book, o.Wants(), o.quantity)
    ensures Refused(o, Liquidity(book, o)) <==> Refusal(OutcomeOf(fills, o.quantity), o.timeInForce).Some?
    ensures Refused(o, Liquidity(book, o)) ==>
              Refusal(OutcomeOf(fills, o.quantity), o.timeInForce)
              == Some(if o.timeInForce.FillOrKill? then FillOrKillFailed else InsufficientLiquidity)
  {
    var w := Walk(o.side.Opposite(), book.On(o.side.Opposite()));
    OutcomeMeaning(o.Wants(), w, o.quantity);
    EligibleTotalBound(o.Wants(), w);
  }

  /** An order is rejected exactly when the liquidity it can reach falls short of its time in
      force, with the matching error; it never fails to commit. */
  lemma PlaceRejects(book: Book, o: PlaceOrder)
    requires BookOk(book) && Refused(o, Liquidity(book, o))
    ensures Place(book, o).0 == book
    ensures Place(book, o).1
         == Rejected(if o.timeInForce.FillOrKill? then FillOrKillFailed else InsufficientLiquidity)
  {
    RefusalMeaning(book, o, PlanFor(book, o.Wants(), o.quantity));
  }

  /** An order that is not rejected is settled: the two-phase fill comes to the same book and
      the same result as trading in one go. */
  lemma PlaceSettles(book: Book, o: PlaceOrder, filled: u32, left: u32)
    requires BookOk(book) && !Refused(o, Liquidity(book, o))
    requires filled == Min(o.quantity, Liquidity(book, o)) && filled + left == o.quantity
    ensures Place(book, o).0 == Settle(book, o, filled, left).0
    ensures Place(book, o).1 == Settle(book, o, filled, left).1
  {
    var fills := PlanFor(book, o.Wants(), o.quantity);
    var outcome := OutcomeOf(fills, o.quantity);
    RefusalMeaning(book, o, fills);
    PlanFillsWhatItCan(o.Wants(), Walk(o.side.Opposite(), book.On(o.side.Opposite())), o.quantity);
    var unfilled := PlanAlwaysCommits(book, o.Taker(), o.Wants(), fills, outcome);
    assert unfilled == left;
    PlanEmptyIffNothingEligible(o.Wants(), Walk(o.side.Opposite(), book.On(o.side.Opposite())), o.quantity);
    EligibleTotalBound(o.Wants(), Walk(o.side.Opposite(), book.On(o.side.Opposite())));
    assert outcome == FillTypeOf(filled, left);
    var traded := ConsumeIn(book, o.Wants(), o.quantity);
    assert traded.On(o.side) == book.On(o.side);
    AfterCommitSettles(book, o, filled, left, traded, Committed(outcome, Remainder(o.Taker(), left)));
  }

  lemma AfterCommitSettles(
      book: Book, o: PlaceOrder, filled: u32, left: u32, traded: Book, result: CommitResult)
    requires BookOk(book) && filled + left == o.quantity
    requires traded == ConsumeIn(book, o.Wants(), o.quantity) && traded.On(o.side) == book.On(o.side)
    requires result == Committed(FillTypeOf(filled, left), Remainder(o.Taker(), left))
    ensures AfterCommit(traded, o, result).0 == Settle(book, o, filled, left).0
    ensures AfterCommit(traded, o, result).1 == Settle(book, o, filled, left).1
  {
  }
}
