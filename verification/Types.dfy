/** The values that the engine's components exchange. */
module Types {

  const MAX_U64: int := 0xFFFF_FFFF_FFFF_FFFF

  type u64 = x: int | 0 <= x <= MAX_U64

  const MIN_PRICE: u64 := 1
  const MAX_PRICE: u64 := 200_000
  const MAX_ORDERS_PER_LEVEL: nat := 16

  datatype Side = Bid | Ask {
    function Opposite(): Side {
      if this == Bid then Ask else Bid
    }
  }

  datatype OrderEntry = OrderEntry(orderId: u64, price: u64, quantity: u64, timestamp: u64, side: Side)

  /** The low half of an event's type word; `Other` stands for the values that name no event. */
  datatype EventType = NewOrder | CancelOrder | ModifyOrder | MarketUpdate | TradeExecution | Other

  datatype Event = Event(timestamp: u64, symbolId: nat, kind: EventType, side: Side,
                         price: u64, quantity: u64, orderId: u64)

  datatype Option<T> = None | Some(value: T)

  predicate InRange(price: int) {
    MIN_PRICE <= price <= MAX_PRICE
  }

  function Min(a: nat, b: nat): nat {
    if a <= b then a else b
  }
}
