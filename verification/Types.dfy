/** Commands, events and the price ladder's arithmetic (types.hpp, order_book.hpp). */
module Types {

  const TWO64: int := 0x1_0000_0000_0000_0000
  const PRICE_MAX: int := 0x7FFF_FFFF_FFFF_FFFF

  type u64 = x: int | 0 <= x < 0x1_0000_0000_0000_0000
  type u32 = x: int | 0 <= x < 0x1_0000_0000
  type Byte = x: int | 0 <= x < 256
  type Price = x: int | -0x8000_0000_0000_0000 <= x <= 0x7FFF_FFFF_FFFF_FFFF

  datatype Option<+T> = None | Some(value: T)

  datatype Side = Buy | Sell
  datatype OrderType = Limit | Market | ImmediateOrCancel | FillOrKill
  datatype CommandType = New | Cancel | Replace
  datatype EventType = Accepted | Rejected | Trade | Cancelled | Replaced | Rested
  datatype RejectReason =
    | NoReason | InvalidQuantity | InvalidPrice | DuplicateOrderId | UnknownOrderId | BookCapacity
    | WouldNotFill | SequenceGap | InvalidSessionSequence | RiskLimit | GatewayBackpressure

  datatype Command = Command(sequence: u64, kind: CommandType, side: Side, orderType: OrderType,
                             orderId: u64, price: Price, quantity: u64)

  datatype Event = Event(sequence: u64, kind: EventType, side: Side, reason: RejectReason,
                         orderId: u64, contra: u64, price: Price, quantity: u64)

  /** A command or an event with the session and client sequence it belongs to. */
  datatype Request = Request(session: u32, clientSequence: u64, command: Command)
  datatype Response = Response(session: u32, clientSequence: u64, event: Event)

  datatype Config = Config(minimumPrice: Price, maximumPrice: Price, tickSize: Price, maximumOrders: u64)

  datatype RestingOrder = RestingOrder(orderId: u64, side: Side, price: Price, quantity: u64, priority: u64)

  /** Unsigned 64-bit arithmetic wraps. */
  function Wrap(x: int): (w: u64) {
    x % 0x1_0000_0000_0000_0000
  }

  /** ++x on an unsigned 64-bit counter. */
  function Next(x: u64): u64 {
    if x == 0xFFFF_FFFF_FFFF_FFFF then 0 else x + 1
  }

  /** n increments of a counter. */
  function Advance(x: u64, n: nat): u64 {
    if n == 0 then x else Next(Advance(x, n - 1))
  }

  lemma {:induction false} AdvanceSum(x: u64, m: nat, n: nat)
    ensures Advance(x, m + n) == Advance(Advance(x, m), n)
  {
    if n > 0 { AdvanceSum(x, m, n - 1); }
  }

  lemma {:induction false} AdvanceWraps(x: u64, n: nat)
    ensures Advance(x, n) == Wrap(x + n)
    ensures x + n < TWO64 ==> Advance(x, n) == x + n
  {
    if n > 0 { AdvanceWraps(x, n - 1); }
  }

  lemma {:induction false} WrapAdd(x: int, y: int)
    ensures Wrap(Wrap(x) + y) == Wrap(x + y)
  {}

  lemma {:induction false} WrapSmall(x: int)
    requires 0 <= x < TWO64
    ensures Wrap(x) == x
  {}

  function Opposite(s: Side): Side {
    if s.Buy? then Sell else Buy
  }

  /** checked_price_count: the number of ticks, or None where the constructor throws. */
  function CheckedPriceCount(c: Config): Option<nat> {
    if c.tickSize <= 0 || c.maximumPrice < c.minimumPrice || c.maximumOrders == 0
       || c.maximumOrders > 0xFFFF_FFFF then None
    else if c.minimumPrice < 0 && c.maximumPrice > PRICE_MAX + c.minimumPrice then None
    else if (c.maximumPrice - c.minimumPrice) % c.tickSize != 0 then None
    else Some((c.maximumPrice - c.minimumPrice) / c.tickSize + 1)
  }

  predicate ValidConfig(c: Config) {
    CheckedPriceCount(c).Some?
  }

  function PriceCount(c: Config): (n: nat)
    requires ValidConfig(c)
    ensures n > 0
  {
    CheckedPriceCount(c).value
  }

  predicate ValidPrice(c: Config, p: Price)
    requires ValidConfig(c)
  {
    c.minimumPrice <= p <= c.maximumPrice && (p - c.minimumPrice) % c.tickSize == 0
  }

  function PriceIndex(c: Config, p: Price): nat
    requires ValidConfig(c) && ValidPrice(c, p)
  {
    (p - c.minimumPrice) / c.tickSize
  }

  function IndexPrice(c: Config, i: nat): Price
    requires ValidConfig(c) && i < PriceCount(c)
  {
    IndexPriceInRange(c, i);
    c.minimumPrice + i * c.tickSize
  }

  /** The signed overflow test accepts exactly the ranges whose span is an int64. */
  lemma {:induction false} PriceCountAccepts(c: Config)
    ensures ValidConfig(c) <==>
            && c.tickSize > 0 && c.minimumPrice <= c.maximumPrice
            && 1 <= c.maximumOrders <= 0xFFFF_FFFF
            && c.maximumPrice - c.minimumPrice <= PRICE_MAX
            && (c.maximumPrice - c.minimumPrice) % c.tickSize == 0
  {}

  lemma {:induction false} MulMono(a: int, b: int, t: int)
    requires a <= b && t >= 0
    ensures a * t <= b * t
  {}

  lemma {:induction false} IndexPriceInRange(c: Config, i: nat)
    requires ValidConfig(c) && i < PriceCount(c)
    ensures c.minimumPrice <= c.minimumPrice + i * c.tickSize <= c.maximumPrice
  {
    var span := c.maximumPrice - c.minimumPrice;
    MulMono(i, span / c.tickSize, c.tickSize);
    MulMono(0, i, c.tickSize);
  }

  lemma {:induction false} DivMulExact(i: int, t: int)
    requires t > 0
    ensures (i * t) % t == 0 && (i * t) / t == i
  {
    var q, r := (i * t) / t, (i * t) % t;
    assert i * t == q * t + r;
    assert (i - q) * t == r;
    if i > q { MulMono(1, i - q, t); }
    if i < q { MulMono(i - q, -1, t); }
  }

  /** Indices and tick-aligned prices correspond one to one. */
  lemma {:induction false} PriceOfIndex(c: Config, i: nat)
    requires ValidConfig(c) && i < PriceCount(c)
    ensures ValidPrice(c, IndexPrice(c, i)) && PriceIndex(c, IndexPrice(c, i)) == i
  {
    IndexPriceInRange(c, i);
    DivMulExact(i, c.tickSize);
    assert IndexPrice(c, i) - c.minimumPrice == i * c.tickSize;
  }

  lemma {:induction false} IndexOfPrice(c: Config, p: Price)
    requires ValidConfig(c) && ValidPrice(c, p)
    ensures PriceIndex(c, p) < PriceCount(c) && IndexPrice(c, PriceIndex(c, p)) == p
  {
    var t, d, span := c.tickSize, p - c.minimumPrice, c.maximumPrice - c.minimumPrice;
    assert d == (d / t) * t && span == (span / t) * t;
    if d / t > span / t { MulMono(span / t + 1, d / t, t); }
  }

  lemma {:induction false} IndexPriceOrder(c: Config, i: nat, j: nat)
    requires ValidConfig(c) && i < PriceCount(c) && j < PriceCount(c)
    ensures i < j <==> IndexPrice(c, i) < IndexPrice(c, j)
    ensures i == j <==> IndexPrice(c, i) == IndexPrice(c, j)
  {
    if i < j { MulMono(i + 1, j, c.tickSize); }
    if j < i { MulMono(j + 1, i, c.tickSize); }
  }

  // ---- rings ---------------------------------------------------------------------------------

  /** The slot d steps after h in a ring of n. */
  function At(h: nat, d: nat, n: nat): nat
    requires h < n && d <= n
  {
    if h + d < n then h + d else h + d - n
  }

  /** Steps from h forward to j. */
  function Dist(h: nat, j: nat, n: nat): (d: nat)
    requires h < n && j < n
    ensures d < n && At(h, d, n) == j
  {
    if h <= j then j - h else j + n - h
  }

  predicate PowerOfTwo(n: nat) {
    n == 1 || (n > 0 && n % 2 == 0 && PowerOfTwo(n / 2))
  }

  /** std::bit_ceil, searching from the power of two p: the least one that is at least n. */
  function BitCeil(n: nat, p: nat := 1): (r: nat)
    requires PowerOfTwo(p)
    ensures PowerOfTwo(r) && r >= n && r >= p && (r == p || r < 2 * n)
    decreases n - p
  {
    if p >= n then p
    else
      assert 2 * p / 2 == p;
      BitCeil(n, 2 * p)
  }
}
