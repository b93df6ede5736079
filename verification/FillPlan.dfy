/** What the planner computes: the maker fills for a taker, and what they mean in terms of
    the priority list they are taken from. */
module FillPlan {
  import opened Types
  import opened BookModel

  /** `Unfilled` is the source's `FillType::None`. */
  datatype FillType = Complete | Partial | Unfilled

  datatype MakerFill = MakerFill(oix: OrderIndex, maker: Order, fillType: FillType, fillAmount: u32)

  function Min(a: nat, b: nat): nat {
    if a <= b then a else b
  }

  /** The fill of one maker by a taker that still wants `rem`. */
  function FillOf(terms: Terms, maker: Order, rem: u32): MakerFill {
    var amount := Min(maker.quantity, rem);
    MakerFill(
      IndexOf(terms.MakerSide(), maker), maker,
      if amount == maker.quantity then Complete else Partial, amount)
  }

  /** The fills the planning loop records: makers at a refused price are skipped, and the
      walk ends once nothing remains to fill. */
  function Plan(terms: Terms, orders: seq<Order>, rem: u32): seq<MakerFill> {
    if rem == 0 || orders == [] then []
    else if !terms.Accepts(orders[0].price) then Plan(terms, orders[1..], rem)
    else
      var fill := FillOf(terms, orders[0], rem);
      [fill] + Plan(terms, orders[1..], rem - fill.fillAmount)
  }

  /** What a refused maker and an accepted maker do to the plan of the list from `i` on. */
  lemma PlanFrom(terms: Terms, orders: seq<Order>, i: nat, rem: NonZeroU32, left: u32)
    requires i < |orders| && left == rem - FillOf(terms, orders[i], rem).fillAmount
    ensures !terms.Accepts(orders[i].price) ==>
              Plan(terms, orders[i..], rem) == Plan(terms, orders[i + 1..], rem)
    ensures terms.Accepts(orders[i].price) ==>
              Plan(terms, orders[i..], rem) == [FillOf(terms, orders[i], rem)] + Plan(terms, orders[i + 1..], left)
  {
    assert orders[i..][1..] == orders[i + 1..];
  }

  function Filled(fills: seq<MakerFill>): nat {
    if fills == [] then 0 else fills[0].fillAmount + Filled(fills[1..])
  }

  function OutcomeOf(fills: seq<MakerFill>, quantity: NonZeroU32): FillType {
    if fills == [] then Unfilled
    else if Filled(fills) == quantity then Complete
    else Partial
  }

  // ---------------------------------------------------------------------------
  // Reference definitions: what there is to take, and taking it greedily
  // ---------------------------------------------------------------------------

  /** The orders a taker may trade with. */
  function Eligible(terms: Terms, orders: seq<Order>): seq<Order> {
    if orders == [] then []
    else (if terms.Accepts(orders[0].price) then [orders[0]] else []) + Eligible(terms, orders[1..])
  }

  /** How many orders at the head of the list the taker accepts. */
  function Reach(terms: Terms, orders: seq<Order>): (n: nat)
    ensures n <= |orders|
    ensures forall i :: 0 <= i < n ==> terms.Accepts(orders[i].price)
    ensures n < |orders| ==> !terms.Accepts(orders[n].price)
  {
    if orders == [] || !terms.Accepts(orders[0].price) then 0
    else 1 + Reach(terms, orders[1..])
  }

  /** Taking `q` from the front of a queue of orders. */
  function Greedy(orders: seq<Order>, q: nat): seq<Order> {
    if q == 0 || orders == [] then orders
    else if orders[0].quantity <= q then Greedy(orders[1..], q - orders[0].quantity)
    else [orders[0].(quantity := orders[0].quantity - q)] + orders[1..]
  }

  // ---------------------------------------------------------------------------
  // How much is filled, and what the outcome says
  // ---------------------------------------------------------------------------

  lemma EligibleTotalBound(terms: Terms, orders: seq<Order>)
    ensures TotalQuantity(Eligible(terms, orders)) == 0 <==> Eligible(terms, orders) == []
  {
    if Eligible(terms, orders) != [] {
      assert TotalQuantity(Eligible(terms, orders)) >= Eligible(terms, orders)[0].quantity;
    }
  }

  /** The plan fills the taker as far as the eligible liquidity goes. */
  lemma {:induction false} PlanFillsWhatItCan(terms: Terms, orders: seq<Order>, rem: u32)
    ensures Filled(Plan(terms, orders, rem)) == Min(rem, TotalQuantity(Eligible(terms, orders)))
  {
    if rem == 0 {
      assert Filled([]) == 0;
    } else if orders != [] {
      var rest := orders[1..];
      if terms.Accepts(orders[0].price) {
        var fill := FillOf(terms, orders[0], rem);
        PlanFillsWhatItCan(terms, rest, rem - fill.fillAmount);
        assert Plan(terms, orders, rem)[1..] == Plan(terms, rest, rem - fill.fillAmount);
        assert Eligible(terms, orders)[1..] == Eligible(terms, rest);
      } else {
        PlanFillsWhatItCan(terms, rest, rem);
        assert Eligible(terms, orders) == Eligible(terms, rest);
      }
    }
  }

  lemma {:induction false} PlanEmptyIffNothingEligible(terms: Terms, orders: seq<Order>, rem: NonZeroU32)
    ensures Plan(terms, orders, rem) == [] <==> Eligible(terms, orders) == []
  {
    if orders != [] && !terms.Accepts(orders[0].price) {
      PlanEmptyIffNothingEligible(terms, orders[1..], rem);
    }
  }

  /** Complete exactly when the eligible liquidity reaches the taker's quantity, and unfilled
      exactly when no maker is eligible. */
  lemma OutcomeMeaning(terms: Terms, orders: seq<Order>, quantity: NonZeroU32)
    ensures var outcome := OutcomeOf(Plan(terms, orders, quantity), quantity);
            && (outcome == Complete <==> TotalQuantity(Eligible(terms, orders)) >= quantity)
            && (outcome == Unfilled <==> Eligible(terms, orders) == [])
  {
    PlanFillsWhatItCan(terms, orders, quantity);
    PlanEmptyIffNothingEligible(terms, orders, quantity);
    EligibleTotalBound(terms, orders);
  }

  // ---------------------------------------------------------------------------
  // What the limit means, price by price
  // ---------------------------------------------------------------------------

  function PricedAtMost(orders: seq<Order>, price: int): seq<Order> {
    if orders == [] then []
    else (if orders[0].price <= price then [orders[0]] else []) + PricedAtMost(orders[1..], price)
  }

  function PricedAtLeast(orders: seq<Order>, price: int): seq<Order> {
    if orders == [] then []
    else (if orders[0].price >= price then [orders[0]] else []) + PricedAtLeast(orders[1..], price)
  }

  /** A market order may trade with every order, a limit buy with those at its price or below, a
      limit sell with those at its price or above. */
  lemma {:induction false} EligibleMeaning(terms: Terms, orders: seq<Order>)
    ensures terms.orderType == Market ==> Eligible(terms, orders) == orders
    ensures terms.orderType == Limit && terms.side == Buy ==>
              Eligible(terms, orders) == PricedAtMost(orders, terms.limit)
    ensures terms.orderType == Limit && terms.side == Sell ==>
              Eligible(terms, orders) == PricedAtLeast(orders, terms.limit)
  {
    if orders != [] {
      EligibleMeaning(terms, orders[1..]);
    }
  }

  /** No fill is at a price beyond the limit. */
  lemma {:induction false} FillsWithinLimit(terms: Terms, orders: seq<Order>, rem: u32)
    ensures forall i :: 0 <= i < |Plan(terms, orders, rem)| && terms.orderType == Limit ==>
              && (terms.side == Buy ==> Plan(terms, orders, rem)[i].maker.price <= terms.limit)
              && (terms.side == Sell ==> Plan(terms, orders, rem)[i].maker.price >= terms.limit)
  {
    if rem != 0 && orders != [] {
      var rest := orders[1..];
      if terms.Accepts(orders[0].price) {
        var left: u32 := rem - FillOf(terms, orders[0], rem).fillAmount;
        FillsWithinLimit(terms, rest, left);
      } else {
        FillsWithinLimit(terms, rest, rem);
      }
    }
  }

  /** The taker is filled as far as the orders within its limit go. */
  lemma PlanFillsWithinLimit(terms: Terms, orders: seq<Order>, rem: u32)
    ensures terms.orderType == Market ==>
              Filled(Plan(terms, orders, rem)) == Min(rem, TotalQuantity(orders))
    ensures terms.orderType == Limit && terms.side == Buy ==>
              Filled(Plan(terms, orders, rem)) == Min(rem, TotalQuantity(PricedAtMost(orders, terms.limit)))
    ensures terms.orderType == Limit && terms.side == Sell ==>
              Filled(Plan(terms, orders, rem)) == Min(rem, TotalQuantity(PricedAtLeast(orders, terms.limit)))
  {
    PlanFillsWhatItCan(terms, orders, rem);
    EligibleMeaning(terms, orders);
  }

  // ---------------------------------------------------------------------------
  // Price-time priority
  // ---------------------------------------------------------------------------

  /** In priority order a refused price is followed by refused prices only. */
  lemma AcceptedIsPrefix(terms: Terms, orders: seq<Order>)
    requires InPriorityOrder(terms.MakerSide(), orders)
    ensures forall i :: Reach(terms, orders) <= i < |orders| ==> !terms.Accepts(orders[i].price)
  {
    var n := Reach(terms, orders);
    forall i | n < i < |orders| ensures !terms.Accepts(orders[i].price) {
      assert Precedes(terms.MakerSide(), orders[n], orders[i]);
    }
  }

  lemma {:induction false} EligibleIsPrefix(terms: Terms, orders: seq<Order>)
    requires InPriorityOrder(terms.MakerSide(), orders)
    ensures Eligible(terms, orders) == orders[..Reach(terms, orders)]
  {
    if orders != [] {
      var rest := orders[1..];
      EligibleIsPrefix(terms, rest);
      if terms.Accepts(orders[0].price) {
        assert orders[..Reach(terms, orders)] == [orders[0]] + rest[..Reach(terms, rest)];
      } else {
        AcceptedIsPrefix(terms, orders);
        assert Reach(terms, rest) == 0;
      }
    }
  }

  lemma {:induction false} PlanOfRefused(terms: Terms, orders: seq<Order>, rem: u32)
    requires forall i :: 0 <= i < |orders| ==> !terms.Accepts(orders[i].price)
    ensures Plan(terms, orders, rem) == []
  {
    if orders != [] {
      PlanOfRefused(terms, orders[1..], rem);
    }
  }

  /** Fill `i` is of order `i`, and takes exactly what the orders before it left to fill. */
  ghost predicate TakesPrefix(terms: Terms, orders: seq<Order>, rem: u32, fills: seq<MakerFill>) {
    && |fills| <= |orders|
    && forall i :: 0 <= i < |fills| ==>
         && TotalQuantity(orders[..i]) < rem
         && fills[i] == FillOf(terms, orders[i], rem - TotalQuantity(orders[..i]))
  }

  lemma TakesPrefixCons(
      terms: Terms, orders: seq<Order>, rem: NonZeroU32, left: u32, tail: seq<MakerFill>)
    requires orders != [] && left == rem - FillOf(terms, orders[0], rem).fillAmount
    requires TakesPrefix(terms, orders[1..], left, tail)
    ensures TakesPrefix(terms, orders, rem, [FillOf(terms, orders[0], rem)] + tail)
  {
    var fills := [FillOf(terms, orders[0], rem)] + tail;
    forall i | 0 <= i < |fills|
      ensures TotalQuantity(orders[..i]) < rem
      ensures fills[i] == FillOf(terms, orders[i], rem - TotalQuantity(orders[..i]))
    {
      if i > 0 {
        assert orders[..i][1..] == orders[1..][..i - 1];
        assert fills[i] == tail[i - 1];
      }
    }
  }

  lemma PrefixOfAccepted(terms: Terms, orders: seq<Order>, rem: NonZeroU32, left: u32, tail: seq<MakerFill>)
    requires orders != [] && left == rem - FillOf(terms, orders[0], rem).fillAmount
    requires terms.Accepts(orders[0].price)
    requires tail == Plan(terms, orders[1..], left) && TakesPrefix(terms, orders[1..], left, tail)
    requires |tail| <= Reach(terms, orders[1..])
    ensures TakesPrefix(terms, orders, rem, Plan(terms, orders, rem))
    ensures |Plan(terms, orders, rem)| <= Reach(terms, orders)
  {
    TakesPrefixCons(terms, orders, rem, left, tail);
  }

  /** The makers filled are the head of the list, within the prices the taker accepts. */
  lemma {:induction false} PlanIsPrefix(terms: Terms, orders: seq<Order>, rem: u32)
    requires InPriorityOrder(terms.MakerSide(), orders)
    ensures TakesPrefix(terms, orders, rem, Plan(terms, orders, rem))
    ensures |Plan(terms, orders, rem)| <= Reach(terms, orders)
  {
    if rem != 0 && orders != [] {
      if terms.Accepts(orders[0].price) {
        var left: u32, rest := rem - FillOf(terms, orders[0], rem).fillAmount, orders[1..];
        PlanIsPrefix(terms, rest, left);
        PrefixOfAccepted(terms, orders, rem, left, Plan(terms, rest, left));
      } else {
        AcceptedIsPrefix(terms, orders);
        PlanOfRefused(terms, orders[1..], rem);
      }
    }
  }

  /** At most one maker is filled in part, and it is the last. */
  lemma OnlyLastIsPartial(terms: Terms, orders: seq<Order>, rem: u32, i: nat)
    requires InPriorityOrder(terms.MakerSide(), orders)
    requires i < |Plan(terms, orders, rem)| - 1
    ensures Plan(terms, orders, rem)[i].fillType == Complete
  {
    PlanIsPrefix(terms, orders, rem);
    assert orders[..i + 1] == orders[..i] + [orders[i]];
    TotalQuantityConcat(orders[..i], [orders[i]]);
  }

  /** Nobody is passed over: an eligible order without a fill comes after every filled one,
      at a worse price or at the same price with a later memo. */
  lemma {:induction false} NobodyPassedOver(terms: Terms, orders: seq<Order>, rem: u32, filled: nat, waiting: nat)
    requires InPriorityOrder(terms.MakerSide(), orders)
    requires filled < |Plan(terms, orders, rem)| && waiting < |orders|
    requires terms.Accepts(orders[waiting].price)
    requires forall i :: 0 <= i < |Plan(terms, orders, rem)| ==>
               Plan(terms, orders, rem)[i].oix != IndexOf(terms.MakerSide(), orders[waiting])
    ensures Precedes(terms.MakerSide(), Plan(terms, orders, rem)[filled].maker, orders[waiting])
  {
    PlanIsPrefix(terms, orders, rem);
    assert waiting < |Plan(terms, orders, rem)| ==>
        Plan(terms, orders, rem)[waiting].oix == IndexOf(terms.MakerSide(), orders[waiting]);
  }

  // ---------------------------------------------------------------------------
  // Greedy taking
  // ---------------------------------------------------------------------------

  lemma {:induction false} GreedyTakes(orders: seq<Order>, q: nat)
    ensures TotalQuantity(Greedy(orders, q)) + Min(q, TotalQuantity(orders)) == TotalQuantity(orders)
  {
    if q != 0 && orders != [] {
      if orders[0].quantity <= q {
        GreedyTakes(orders[1..], q - orders[0].quantity);
      } else {
        assert Greedy(orders, q)[1..] == orders[1..];
      }
    }
  }

  lemma {:induction false} GreedyOfAll(orders: seq<Order>, q: nat)
    requires q >= TotalQuantity(orders)
    ensures Greedy(orders, q) == []
  {
    if orders != [] {
      GreedyOfAll(orders[1..], q - orders[0].quantity);
    }
  }

  // ---------------------------------------------------------------------------
  // Greedy filling is the best a taker can do
  // ---------------------------------------------------------------------------

  /** An allocation of amounts to makers: nothing from a refused maker, and from no maker
      more than it offers. */
  ghost predicate Allocation(terms: Terms, orders: seq<Order>, amounts: seq<nat>) {
    && |amounts| == |orders|
    && forall i :: 0 <= i < |orders| ==>
         && amounts[i] <= orders[i].quantity
         && (!terms.Accepts(orders[i].price) ==> amounts[i] == 0)
  }

  function Amount(amounts: seq<nat>): nat {
    if amounts == [] then 0 else amounts[0] + Amount(amounts[1..])
  }

  /** The money that changes hands: the sum of price times amount. */
  function Value(orders: seq<Order>, amounts: seq<nat>): nat
    requires |orders| == |amounts|
  {
    if orders == [] then 0 else orders[0].price * amounts[0] + Value(orders[1..], amounts[1..])
  }

  function FillValue(fills: seq<MakerFill>): nat {
    if fills == [] then 0 else fills[0].maker.price * fills[0].fillAmount + FillValue(fills[1..])
  }

  /** What a taker wants to keep low: money paid when buying, minus money received when selling. */
  function Cost(terms: Terms, value: int): int {
    if terms.side.Buy? then value else -value
  }

  /** The plan, read as an allocation. */
  function PlanAmounts(terms: Terms, orders: seq<Order>, rem: u32): (amounts: seq<nat>)
    ensures |amounts| == |orders|
  {
    if orders == [] then []
    else
      var amount := if terms.Accepts(orders[0].price) then Min(orders[0].quantity, rem) else 0;
      [amount] + PlanAmounts(terms, orders[1..], rem - amount)
  }

  /** The plan is one of the allocations it is compared with. */
  lemma {:induction false} PlanIsAllocation(terms: Terms, orders: seq<Order>, rem: u32)
    ensures var amounts := PlanAmounts(terms, orders, rem);
            && Allocation(terms, orders, amounts)
            && Amount(amounts) == Filled(Plan(terms, orders, rem))
            && Value(orders, amounts) == FillValue(Plan(terms, orders, rem))
  {
    if orders != [] {
      var amounts, fills := PlanAmounts(terms, orders, rem), Plan(terms, orders, rem);
      var rest := rem - amounts[0];
      PlanIsAllocation(terms, orders[1..], rest);
      assert amounts[1..] == PlanAmounts(terms, orders[1..], rest);
      assert amounts[0] > 0 ==> fills[1..] == Plan(terms, orders[1..], rest);
      assert rem == 0 ==> Plan(terms, orders[1..], rest) == [];
    }
  }

  /** An allocation of at least the planned quantity costs the taker at least the planned cost,
      and at least `floor` more for every unit above it, where no order costs less than `floor`. */
  lemma {:induction false} PlanCostsLeast(terms: Terms, orders: seq<Order>, rem: u32, amounts: seq<nat>, floor: int)
    requires InPriorityOrder(terms.MakerSide(), orders)
    requires Allocation(terms, orders, amounts)
    requires forall i :: 0 <= i < |orders| ==> floor <= Cost(terms, orders[i].price)
    requires Amount(amounts) >= Amount(PlanAmounts(terms, orders, rem))
    ensures Cost(terms, Value(orders, PlanAmounts(terms, orders, rem)))
            + floor * (Amount(amounts) - Amount(PlanAmounts(terms, orders, rem)))
         <= Cost(terms, Value(orders, amounts))
  {
    if orders != [] {
      var planned := PlanAmounts(terms, orders, rem);
      var rest, left := orders[1..], rem - planned[0];
      var p := Cost(terms, orders[0].price);
      assert planned[1..] == PlanAmounts(terms, rest, left);
      forall i | 0 <= i < |rest| ensures p <= Cost(terms, rest[i].price) {
        assert Precedes(terms.MakerSide(), orders[0], orders[i + 1]);
      }
      EnoughLater(terms, orders, rem, amounts);
      PlanCostsLeast(terms, rest, left, amounts[1..], p);
      var later := Amount(amounts[1..]) - Amount(planned[1..]);
      CostOfHead(terms, orders, amounts);
      CostOfHead(terms, orders, planned);
      UnitsCost(floor, p, amounts[0], planned[0], later,
                Cost(terms, Value(rest, planned[1..])), Cost(terms, Value(rest, amounts[1..])));
    }
  }

  /** Giving the head order at most its planned amount leaves no less than planned for the rest;
      giving it more is possible only when nothing is planned for the rest. */
  lemma {:induction false} EnoughLater(terms: Terms, orders: seq<Order>, rem: u32, amounts: seq<nat>)
    requires orders != [] && Allocation(terms, orders, amounts)
    requires Amount(amounts) >= Amount(PlanAmounts(terms, orders, rem))
    ensures Amount(amounts[1..]) >= Amount(PlanAmounts(terms, orders, rem)[1..])
  {
    var planned := PlanAmounts(terms, orders, rem);
    assert planned[1..] == PlanAmounts(terms, orders[1..], rem - planned[0]);
    if planned[0] == rem {
      NothingLeftNothingPlanned(terms, orders[1..]);
    }
  }

  lemma {:induction false} NothingLeftNothingPlanned(terms: Terms, orders: seq<Order>)
    ensures Amount(PlanAmounts(terms, orders, 0)) == 0
  {
    if orders != [] {
      NothingLeftNothingPlanned(terms, orders[1..]);
      assert PlanAmounts(terms, orders, 0)[1..] == PlanAmounts(terms, orders[1..], 0);
    }
  }

  lemma CostOfHead(terms: Terms, orders: seq<Order>, amounts: seq<nat>)
    requires |orders| == |amounts| && orders != []
    ensures Cost(terms, Value(orders, amounts))
         == Cost(terms, orders[0].price) * amounts[0] + Cost(terms, Value(orders[1..], amounts[1..]))
  {
    var price, amount := orders[0].price, amounts[0];
    assert Cost(terms, price * amount) == Cost(terms, price) * amount;
  }

  lemma UnitsCost(floor: int, p: int, a: nat, g: nat, later: nat, plannedRest: int, rest: int)
    requires floor <= p && later + a - g >= 0
    requires plannedRest + p * later <= rest
    ensures p * g + plannedRest + floor * (later + a - g) <= p * a + rest
  {
    var more: nat := later + a - g;
    assert floor * more <= p * more;
    assert p * more == p * later + p * a - p * g;
  }

  /** No way of trading the same total quantity with the eligible makers is better for the
      taker: a buyer cannot pay less, a seller cannot receive more. */
  lemma {:induction false} GreedyIsOptimal(terms: Terms, orders: seq<Order>, quantity: NonZeroU32, amounts: seq<nat>)
    requires InPriorityOrder(terms.MakerSide(), orders)
    requires Allocation(terms, orders, amounts)
    requires Amount(amounts) == Filled(Plan(terms, orders, quantity))
    ensures terms.side.Buy? ==> FillValue(Plan(terms, orders, quantity)) <= Value(orders, amounts)
    ensures terms.side.Sell? ==> FillValue(Plan(terms, orders, quantity)) >= Value(orders, amounts)
  {
    PlanIsAllocation(terms, orders, quantity);
    var floor := -U32_MAX;
    PlanCostsLeast(terms, orders, quantity, amounts, floor);
  }
}
