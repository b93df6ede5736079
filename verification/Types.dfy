/** The values that pass between the order book, the planner, the committer and the
    trading engine: fixed-width integers, orders, order indices and order options. */
module Types {

  const U32_MAX: int := 0xFFFF_FFFF

  type u32 = x: int | 0 <= x <= 0xFFFF_FFFF
  type NonZeroU32 = x: int | 1 <= x <= 0xFFFF_FFFF witness 1

  datatype Option<+T> = None | Some(value: T)

  datatype OrderSide = Buy | Sell {
    function Opposite(): OrderSide {
      if Buy? then Sell else Buy
    }
  }

  datatype OrderType = Limit | Market

  datatype TimeInForce = GoodTilCanceled | GoodTilDate | ImmediateOrCancel | FillOrKill

  datatype Order = Order(memo: u32, quantity: NonZeroU32, price: NonZeroU32)

  datatype OrderIndex = OrderIndex(side: OrderSide, price: NonZeroU32, memo: u32)

  /** The index that addresses `o` when it rests on `side`. */
  function IndexOf(side: OrderSide, o: Order): OrderIndex {
    OrderIndex(side, o.price, o.memo)
  }

  /** What a taker asks of the makers it is matched with. */
  datatype Terms = Terms(side: OrderSide, orderType: OrderType, limit: NonZeroU32) {

    /** A market order takes any price; a limit order takes its own price or better. */
    predicate Accepts(makerPrice: NonZeroU32) {
      || orderType.Market?
      || (side.Buy? && makerPrice <= limit)
      || (side.Sell? && makerPrice >= limit)
    }

    function MakerSide(): OrderSide {
      side.Opposite()
    }
  }

  /** `p` is strictly better than `q` for whoever trades against orders resting on `side`. */
  predicate Better(side: OrderSide, p: int, q: int) {
    if side.Sell? then p < q else p > q
  }

  /** `a` trades before `b` when both rest on `side`: better price first, then earlier memo. */
  predicate Precedes(side: OrderSide, a: Order, b: Order) {
    Better(side, a.price, b.price) || (a.price == b.price && a.memo < b.memo)
  }

  function TotalQuantity(orders: seq<Order>): nat {
    if orders == [] then 0 else orders[0].quantity + TotalQuantity(orders[1..])
  }

  lemma {:induction false} TotalQuantityConcat(a: seq<Order>, b: seq<Order>)
    ensures TotalQuantity(a + b) == TotalQuantity(a) + TotalQuantity(b)
  {
    if a == [] {
      assert a + b == b;
    } else {
      assert (a + b)[1..] == a[1..] + b;
      TotalQuantityConcat(a[1..], b);
    }
  }
}
