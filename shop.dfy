/** The settlement engine of the shop API: its tables as values, the effect of
    each SQL statement the handlers issue as a function on those tables, the
    pure settlement arithmetic, and what these promise. The handlers that
    sequence the statements are in module ShopStore. */
module Shop {
  import opened Wrappers
  import opened Text
  import Seqs

  type UserId = nat
  type ProductId = int
  /** A timestamp, in milliseconds. */
  type Time = int

  /** The flat fee charged unless every cart line ships free. */
  const BASE_SHIPPING_FEE: nat := 1000
  const LV10_MIN: int := 100_000
  const LV100_MIN: int := 1_000_000

  const WELCOME_CODE: string := "M_LV1_5K"

  // ---------------------------------------------------------------- levels

  datatype Level = LV1 | LV10 | LV100

  function LevelName(l: Level): string {
    match l
    case LV1 => "LV1"
    case LV10 => "LV10"
    case LV100 => "LV100"
  }

  function Rank(l: Level): nat {
    match l
    case LV1 => 0
    case LV10 => 1
    case LV100 => 2
  }

  /** The membership level of a lifetime spend: thresholds are inclusive lower bounds. */
  function DecideLevel(krw: int): (l: Level)
    ensures l == LV100 <==> krw >= LV100_MIN
    ensures l == LV10 <==> LV10_MIN <= krw < LV100_MIN
    ensures l == LV1 <==> krw < LV10_MIN
  {
    if krw >= 1_000_000 then LV100
    else if krw >= 100_000 then LV10
    else LV1
  }

  /** Spending more never lowers the level. */
  lemma DecideLevelMonotone(a: int, b: int)
    requires a <= b
    ensures Rank(DecideLevel(a)) <= Rank(DecideLevel(b))
  {
  }

  // ---------------------------------------------------------------- tables

  datatype ShopError =
    | LoginRequired
    | InvalidInput
    | ProductNotFound
    | OutOfStock
    | CartEmpty
    | CouponNotFound
    | CouponAlreadyUsed
    | CouponExpired
    | InvalidItems
    | InvalidQty
    /** MySQL rejected the statement; the error handler of server.js answers
        HTTP 500 with `ok: false`. */
    | QueryFailed

  /** A `products` row; `shippingFee` is the nullable `shipping_fee` column. */
  datatype Product = Product(price: nat, stock: int, shippingFee: Option<int>)

  /** A `cart_items` row; (user, product) is a unique key. */
  datatype CartItem = CartItem(id: nat, user: UserId, product: ProductId, quantity: nat)

  datatype CouponKind = AmountKind | ShippingKind | OtherKind

  /** A `coupon_types` row, keyed by its code. */
  datatype CouponType = CouponType(title: string, kind: CouponKind, amount: Option<nat>, levelRequired: Option<Level>)

  /** A `user_coupons` row; (user, code) is a unique key; `usedOrderId` is set once, on use. */
  datatype UserCoupon = UserCoupon(id: nat, user: UserId, code: string, expiresAt: Option<Time>, usedOrderId: Option<nat>)

  datatype Order = Order(id: nat, user: UserId, status: string, totalPrice: int, createdAt: Time)

  /** An `order_items` row: a frozen copy of a line's price and quantity. */
  datatype OrderItem = OrderItem(id: nat, orderId: nat, product: ProductId, price: nat, quantity: nat)

  /** The whole database the engine touches, with the next auto-increment id of each table. */
  datatype Tables = Tables(
    products: map<ProductId, Product>,
    cart: seq<CartItem>,
    couponTypes: map<string, CouponType>,
    userCoupons: seq<UserCoupon>,
    orders: seq<Order>,
    orderItems: seq<OrderItem>,
    nextCartId: nat,
    nextCouponId: nat,
    nextOrderId: nat,
    nextOrderItemId: nat)

  predicate CartKeyDiffers(a: CartItem, b: CartItem) {
    !(a.user == b.user && a.product == b.product)
  }

  predicate CartIdLt(a: CartItem, b: CartItem) {
    a.id < b.id
  }

  predicate CouponKeyDiffers(a: UserCoupon, b: UserCoupon) {
    !(a.user == b.user && a.code == b.code)
  }

  predicate CouponIdLt(a: UserCoupon, b: UserCoupon) {
    a.id < b.id
  }

  predicate OrderIdLt(a: Order, b: Order) {
    a.id < b.id
  }

  /** Order items are stored by increasing id, and an order's items follow older orders' items. */
  predicate ItemLt(a: OrderItem, b: OrderItem) {
    a.id < b.id && a.orderId <= b.orderId
  }

  /** What the schema and the auto-increment ids guarantee, and what the
      handlers keep: unique keys, ids allocated in increasing order and
      starting at 1 (so a used coupon's order id is never 0), and no
      negative stock. */
  ghost predicate Valid(t: Tables) {
    && Seqs.Ordered(t.cart, CartKeyDiffers)
    && Seqs.Ordered(t.cart, CartIdLt)
    && (forall i | 0 <= i < |t.cart| :: t.cart[i].id < t.nextCartId)
    && Seqs.Ordered(t.userCoupons, CouponKeyDiffers)
    && Seqs.Ordered(t.userCoupons, CouponIdLt)
    && (forall i | 0 <= i < |t.userCoupons| :: t.userCoupons[i].id < t.nextCouponId)
    && Seqs.Ordered(t.orders, OrderIdLt)
    && (forall i | 0 <= i < |t.userCoupons| :: t.userCoupons[i].usedOrderId.Some? ==> t.userCoupons[i].usedOrderId.value >= 1)
    && (forall i | 0 <= i < |t.orders| :: t.orders[i].id < t.nextOrderId)
    && t.nextOrderId >= 1
    && Seqs.Ordered(t.orderItems, ItemLt)
    && (forall i | 0 <= i < |t.orderItems| :: t.orderItems[i].id < t.nextOrderItemId && t.orderItems[i].orderId < t.nextOrderId)
    && (forall p | p in t.products :: t.products[p].stock >= 0)
    && t.nextCartId >= 1 && t.nextCouponId >= 1 && t.nextOrderItemId >= 1
    && (forall i | 0 <= i < |t.cart| :: t.cart[i].id >= 1)
    && (forall i | 0 <= i < |t.userCoupons| :: t.userCoupons[i].id >= 1)
    && (forall i | 0 <= i < |t.orders| :: t.orders[i].id >= 1)
    && (forall i | 0 <= i < |t.orderItems| :: t.orderItems[i].id >= 1)
  }

  // ---------------------------------------------------------------- lifetime spend

  /** `UPPER(status) IN ('CREATED','PAID','FULFILLED')`. */
  predicate EligibleStatus(status: string) {
    var u := Upper(status);
    u == "CREATED" || u == "PAID" || u == "FULFILLED"
  }

  function EligibleTotal(o: Order, user: UserId): int {
    if o.user == user && EligibleStatus(o.status) then o.totalPrice else 0
  }

  /** `COALESCE(SUM(total_price), 0)` over the user's orders in an eligible status. */
  function Lifetime(orders: seq<Order>, user: UserId): (r: int)
    ensures (forall i | 0 <= i < |orders| :: orders[i].totalPrice >= 0) ==> r >= 0
  {
    if orders == [] then 0
    else Lifetime(orders[..|orders| - 1], user) + EligibleTotal(orders[|orders| - 1], user)
  }

  lemma LifetimeAppend(orders: seq<Order>, o: Order, user: UserId)
    ensures Lifetime(orders + [o], user) == Lifetime(orders, user) + EligibleTotal(o, user)
  {
    assert (orders + [o])[..|orders|] == orders;
  }

  /** Other users' orders never count towards a user's lifetime spend. */
  lemma {:induction false} LifetimeOwnOrdersOnly(orders: seq<Order>, user: UserId)
    requires forall i | 0 <= i < |orders| :: orders[i].user != user
    ensures Lifetime(orders, user) == 0
  {
    if orders != [] {
      LifetimeOwnOrdersOnly(orders[..|orders| - 1], user);
    }
  }

  lemma CreatedIsEligible()
    ensures EligibleStatus("CREATED")
  {
    assert Upper("CREATED") == "CREATED";
  }

  // ---------------------------------------------------------------- cart aggregation

  /** A cart row joined with its product's current price, stock and fee. */
  datatype Line = Line(product: ProductId, quantity: nat, price: nat, stock: int, shippingFee: Option<int>)

  function JoinLine(c: CartItem, p: Product): Line {
    Line(c.product, c.quantity, p.price, p.stock, p.shippingFee)
  }

  /** The user's cart rows joined with `products`, in table order; a row whose
      product no longer exists drops out of the join. */
  function UserLines(cart: seq<CartItem>, products: map<ProductId, Product>, user: UserId): (r: seq<Line>)
    ensures |r| <= |cart|
    ensures forall i | 0 <= i < |r| :: r[i].product in products && r[i] == JoinLine(CartItem(0, user, r[i].product, r[i].quantity), products[r[i].product])
    ensures forall k | 0 <= k < |cart| && cart[k].user == user && cart[k].product in products :: JoinLine(cart[k], products[cart[k].product]) in r
  {
    if cart == [] then []
    else
      var c := cart[0];
      (if c.user == user && c.product in products then [JoinLine(c, products[c.product])] else [])
        + UserLines(cart[1..], products, user)
  }

  /** Every joined line comes from one of the user's cart rows. */
  lemma {:induction false} UserLinesOrigin(cart: seq<CartItem>, products: map<ProductId, Product>, user: UserId, l: Line)
    requires l in UserLines(cart, products, user)
    ensures exists k | 0 <= k < |cart| :: cart[k].user == user && cart[k].product == l.product && cart[k].quantity == l.quantity
  {
    var c := cart[0];
    if c.user == user && c.product in products && l == JoinLine(c, products[c.product]) {
      assert cart[0].user == user && cart[0].product == l.product && cart[0].quantity == l.quantity;
    } else {
      UserLinesOrigin(cart[1..], products, user, l);
      var k :| 0 <= k < |cart[1..]| && cart[1..][k].user == user && cart[1..][k].product == l.product && cart[1..][k].quantity == l.quantity;
      assert cart[k + 1].user == user && cart[k + 1].product == l.product && cart[k + 1].quantity == l.quantity;
    }
  }

  predicate LineProductDiffers(a: Line, b: Line) {
    a.product != b.product
  }

  /** Because (user, product) is a unique key of the cart, no product appears on two of a user's lines. */
  lemma {:induction false} UserLinesDistinct(cart: seq<CartItem>, products: map<ProductId, Product>, user: UserId)
    requires Seqs.Ordered(cart, CartKeyDiffers)
    ensures Seqs.Ordered(UserLines(cart, products, user), LineProductDiffers)
  {
    if cart != [] {
      var rest := UserLines(cart[1..], products, user);
      assert Seqs.Ordered(cart[1..], CartKeyDiffers) by {
        forall i, j | 0 <= i < j < |cart[1..]| ensures CartKeyDiffers(cart[1..][i], cart[1..][j]) {
          assert CartKeyDiffers(cart[i + 1], cart[j + 1]);
        }
      }
      UserLinesDistinct(cart[1..], products, user);
      var c := cart[0];
      if c.user == user && c.product in products {
        var r := [JoinLine(c, products[c.product])] + rest;
        assert UserLines(cart, products, user) == r;
        forall i, j | 0 <= i < j < |r| ensures LineProductDiffers(r[i], r[j]) {
          if i == 0 {
            assert r[j] in rest;
            UserLinesOrigin(cart[1..], products, user, r[j]);
            var k :| 0 <= k < |cart[1..]| && cart[1..][k].user == user && cart[1..][k].product == r[j].product;
            assert CartKeyDiffers(cart[0], cart[k + 1]);
          } else {
            assert LineProductDiffers(rest[i - 1], rest[j - 1]);
          }
        }
      }
    }
  }

  /** A user with no cart rows has no lines. */
  lemma {:induction false} UserLinesNone(cart: seq<CartItem>, products: map<ProductId, Product>, user: UserId)
    requires forall i | 0 <= i < |cart| :: cart[i].user != user
    ensures UserLines(cart, products, user) == []
  {
    if cart != [] {
      UserLinesNone(cart[1..], products, user);
    }
  }

  /** Σ price × quantity over the lines (the `reduce` of the cart aggregate). */
  function Subtotal(lines: seq<Line>): nat {
    if lines == [] then 0
    else Subtotal(lines[..|lines| - 1]) + lines[|lines| - 1].price * lines[|lines| - 1].quantity
  }

  /** A missing fee counts as the base fee, so only an explicit 0 ships free. */
  predicate ShipsFree(l: Line) {
    l.shippingFee.GetOr(BASE_SHIPPING_FEE) == 0
  }

  /** All-or-nothing: the cart ships free only if every line does. */
  function BaseFee(lines: seq<Line>): (fee: nat)
    ensures fee == 0 <==> forall i | 0 <= i < |lines| :: lines[i].shippingFee == Some(0)
    ensures fee == 0 || fee == BASE_SHIPPING_FEE
  {
    if forall i | 0 <= i < |lines| :: ShipsFree(lines[i]) then 0 else BASE_SHIPPING_FEE
  }

  datatype CartTotals = CartTotals(subtotal: nat, shippingFee: nat)

  /** The cart aggregate: CART_EMPTY without lines, OUT_OF_STOCK when a line
      asks for more than its product's live stock, else the totals. */
  function ComputeCartSubtotal(lines: seq<Line>): (r: Result<CartTotals, ShopError>)
    ensures r.Ok? <==> |lines| > 0 && forall i | 0 <= i < |lines| :: lines[i].quantity <= lines[i].stock
    ensures r == Err(CartEmpty) <==> |lines| == 0
    ensures r.Err? ==> r.error == CartEmpty || r.error == OutOfStock
    ensures r.Ok? ==> r.value == CartTotals(Subtotal(lines), BaseFee(lines))
  {
    if |lines| == 0 then Err(CartEmpty)
    else if exists i | 0 <= i < |lines| :: lines[i].quantity > lines[i].stock then Err(OutOfStock)
    else Ok(CartTotals(Subtotal(lines), BaseFee(lines)))
  }

  // ---------------------------------------------------------------- coupon validation

  /** The row of `user_coupons JOIN coupon_types` that the coupon lookup selects. */
  predicate IsCouponRow(c: UserCoupon, types: map<string, CouponType>, user: UserId, code: string) {
    c.user == user && c.code == code && code in types
  }

  /** The first matching row, in table order (`LIMIT 1`). */
  function FindCouponRow(coupons: seq<UserCoupon>, types: map<string, CouponType>, user: UserId, code: string, from: nat): (r: Option<nat>)
    requires from <= |coupons|
    ensures r.Some? ==> from <= r.value < |coupons| && IsCouponRow(coupons[r.value], types, user, code)
    ensures r.Some? ==> forall j | from <= j < r.value :: !IsCouponRow(coupons[j], types, user, code)
    ensures r.None? ==> forall j | from <= j < |coupons| :: !IsCouponRow(coupons[j], types, user, code)
    decreases |coupons| - from
  {
    if from == |coupons| then None
    else if IsCouponRow(coupons[from], types, user, code) then Some(from)
    else FindCouponRow(coupons, types, user, code, from + 1)
  }

  /** The coupon as applied to a settlement. */
  datatype Applied = Applied(userCouponId: nat, code: string, kind: CouponKind, amount: Option<nat>, title: string)

  /** The coupon check: no coupon for an empty code, then COUPON_NOT_FOUND,
      COUPON_ALREADY_USED and COUPON_EXPIRED (an expiry strictly before `now`), in that order. */
  function GetValidCoupon(coupons: seq<UserCoupon>, types: map<string, CouponType>, user: UserId, code: string, now: Time): (r: Result<Option<Applied>, ShopError>)
    ensures code == "" ==> r == Ok(None)
    ensures code != "" ==> r.Err? || r.value.Some?
    ensures code != "" ==> (r == Err(CouponNotFound) <==> forall j | 0 <= j < |coupons| :: !IsCouponRow(coupons[j], types, user, code))
    ensures r.Ok? && r.value.Some? ==>
      exists j | 0 <= j < |coupons| ::
        && IsCouponRow(coupons[j], types, user, code)
        && coupons[j].id == r.value.value.userCouponId
        && coupons[j].usedOrderId.None?
        && (coupons[j].expiresAt.None? || coupons[j].expiresAt.value >= now)
        && r.value.value == Applied(coupons[j].id, code, types[code].kind, types[code].amount, types[code].title)
    ensures r.Err? ==> r.error == CouponNotFound || r.error == CouponAlreadyUsed || r.error == CouponExpired
    ensures code != "" && FindCouponRow(coupons, types, user, code, 0).Some? ==>
      var row := coupons[FindCouponRow(coupons, types, user, code, 0).value];
      && (r == Err(CouponAlreadyUsed) <==> row.usedOrderId.Some?)
      && (r == Err(CouponExpired) <==> row.usedOrderId.None? && row.expiresAt.Some? && row.expiresAt.value < now)
      && (r.Ok? <==> row.usedOrderId.None? && (row.expiresAt.None? || row.expiresAt.value >= now))
  {
    if code == "" then Ok(None)
    else match FindCouponRow(coupons, types, user, code, 0)
      case None => Err(CouponNotFound)
      case Some(j) =>
        var row := coupons[j];
        if row.usedOrderId.Some? then Err(CouponAlreadyUsed)
        else if row.expiresAt.Some? && row.expiresAt.value < now then Err(CouponExpired)
        else Ok(Some(Applied(row.id, row.code, types[row.code].kind, types[row.code].amount, types[row.code].title)))
  }

  // ---------------------------------------------------------------- settlement

  datatype Breakdown = Breakdown(subtotal: nat, discount: nat, shippingFee: nat, total: nat)

  function Min(a: int, b: int): int {
    if a <= b then a else b
  }

  /** The coupon's effect on a cart total: a shipping coupon waives the fee and
      discounts nothing; an amount coupon discounts `min(subtotal, amount)` and
      keeps the fee; total = max(0, subtotal − discount) + fee. */
  function Settle(subtotal: nat, baseFee: nat, coupon: Option<Applied>): (b: Breakdown)
    ensures b.subtotal == subtotal
    ensures coupon.None? ==> b.discount == 0 && b.shippingFee == baseFee
    ensures coupon.Some? && coupon.value.kind == ShippingKind ==> b.discount == 0 && b.shippingFee == 0
    ensures coupon.Some? && coupon.value.kind == AmountKind ==>
      b.discount == Min(subtotal, coupon.value.amount.GetOr(0)) && b.shippingFee == baseFee
    ensures coupon.Some? && coupon.value.kind == OtherKind ==> b.discount == 0 && b.shippingFee == baseFee
    ensures b.discount <= b.subtotal
    ensures b.total == b.subtotal - b.discount + b.shippingFee
    ensures b.shippingFee <= b.total <= b.subtotal + baseFee
  {
    var fee := if coupon.Some? && coupon.value.kind == ShippingKind then 0 else baseFee;
    var discount: nat := if coupon.Some? && coupon.value.kind == AmountKind then Min(subtotal, coupon.value.amount.GetOr(0)) else 0;
    var net := subtotal - discount;
    Breakdown(subtotal, discount, fee, (if net < 0 then 0 else net) + fee)
  }

  /** Scenario: subtotal 15,000, no coupon, not all lines free → fee 1,000, total 16,000. */
  lemma SettleNoCouponScenario()
    ensures Settle(15_000, BASE_SHIPPING_FEE, None) == Breakdown(15_000, 0, 1_000, 16_000)
  {
  }

  /** Scenario: an amount coupon of 5,000 on 15,000 → total 11,000. */
  lemma SettleAmountCouponScenario(id: nat, code: string, title: string)
    ensures Settle(15_000, BASE_SHIPPING_FEE, Some(Applied(id, code, AmountKind, Some(5_000), title))) == Breakdown(15_000, 5_000, 1_000, 11_000)
  {
  }

  /** Scenario: a shipping coupon on 25,000 → discount 0, fee 0, total 25,000. */
  lemma SettleShippingCouponScenario(id: nat, code: string, title: string, amount: Option<nat>)
    ensures Settle(25_000, BASE_SHIPPING_FEE, Some(Applied(id, code, ShippingKind, amount, title))) == Breakdown(25_000, 0, 0, 25_000)
  {
  }

  /** Scenario: an amount coupon larger than the subtotal is capped, leaving only the fee. */
  lemma SettleCappedDiscountScenario(id: nat, code: string, title: string, fee: nat)
    ensures Settle(10_000, fee, Some(Applied(id, code, AmountKind, Some(50_000), title))) == Breakdown(10_000, 10_000, fee, fee)
  {
  }

  // ---------------------------------------------------------------- quote: the computation shared by preview and checkout

  datatype Quote = Quote(lines: seq<Line>, breakdown: Breakdown, coupon: Option<Applied>)

  /** The cart aggregate, then the coupon check, then the settlement -- the
      same computation for the preview and the commit, so the two agree. */
  function QuoteFor(t: Tables, user: UserId, code: string, now: Time): (r: Result<Quote, ShopError>)
    ensures r.Ok? ==> r.value.lines == UserLines(t.cart, t.products, user)
    ensures r.Ok? ==> r.value.lines != [] && forall i | 0 <= i < |r.value.lines| :: r.value.lines[i].quantity <= r.value.lines[i].stock
    ensures r.Ok? ==> GetValidCoupon(t.userCoupons, t.couponTypes, user, code, now) == Ok(r.value.coupon)
    ensures r.Ok? ==> r.value.breakdown == Settle(Subtotal(r.value.lines), BaseFee(r.value.lines), r.value.coupon)
    ensures UserLines(t.cart, t.products, user) == [] ==> r == Err(CartEmpty)
    ensures var totals := ComputeCartSubtotal(UserLines(t.cart, t.products, user));
      var coupon := GetValidCoupon(t.userCoupons, t.couponTypes, user, code, now);
      && (r.Ok? <==> totals.Ok? && coupon.Ok?)
      && (totals.Err? ==> r == Err(totals.error))
      && (totals.Ok? && coupon.Err? ==> r == Err(coupon.error))
  {
    var lines := UserLines(t.cart, t.products, user);
    match ComputeCartSubtotal(lines)
    case Err(e) => Err(e)
    case Ok(totals) =>
      match GetValidCoupon(t.userCoupons, t.couponTypes, user, code, now)
      case Err(e) => Err(e)
      case Ok(c) => Ok(Quote(lines, Settle(totals.subtotal, totals.shippingFee, c), c))
  }

  /** Scenario: an already-used coupon fails the quote, so no order can be created with it. */
  lemma UsedCouponRejected(t: Tables, user: UserId, code: string, now: Time, j: nat)
    requires Valid(t)
    requires UserLines(t.cart, t.products, user) != []
    requires forall i | 0 <= i < |UserLines(t.cart, t.products, user)| :: UserLines(t.cart, t.products, user)[i].quantity <= UserLines(t.cart, t.products, user)[i].stock
    requires code != ""
    requires j < |t.userCoupons| && IsCouponRow(t.userCoupons[j], t.couponTypes, user, code)
    requires t.userCoupons[j].usedOrderId.Some?
    ensures QuoteFor(t, user, code, now) == Err(CouponAlreadyUsed)
  {
    var lines := UserLines(t.cart, t.products, user);
    assert ComputeCartSubtotal(lines).Ok?;
    var f := FindCouponRow(t.userCoupons, t.couponTypes, user, code, 0);
    assert f.Some? && f.value <= j;
    assert GetValidCoupon(t.userCoupons, t.couponTypes, user, code, now) == Err(CouponAlreadyUsed);
  }

  /** Under the table invariant the coupon a quote applies has a row id of at
      least 1, so the checkout's truthiness test on that id always marks it used. */
  lemma AppliedCouponIdPositive(t: Tables, user: UserId, code: string, now: Time)
    requires Valid(t)
    requires QuoteFor(t, user, code, now).Ok? && QuoteFor(t, user, code, now).value.coupon.Some?
    ensures QuoteFor(t, user, code, now).value.coupon.value.userCouponId >= 1
  {
  }

  // ---------------------------------------------------------------- commit

  /** Total quantity of product `x` over the lines. */
  function QtyFor(lines: seq<Line>, x: ProductId): nat {
    if lines == [] then 0
    else QtyFor(lines[..|lines| - 1], x) + (if lines[|lines| - 1].product == x then lines[|lines| - 1].quantity else 0)
  }

  /** `UPDATE products SET stock = stock - quantity WHERE id = product`, once per line, in order. */
  function DecrementAll(products: map<ProductId, Product>, lines: seq<Line>): (r: map<ProductId, Product>)
    ensures r.Keys == products.Keys
  {
    if lines == [] then products
    else
      var p := DecrementAll(products, lines[..|lines| - 1]);
      var l := lines[|lines| - 1];
      if l.product in p then p[l.product := p[l.product].(stock := p[l.product].stock - l.quantity)] else p
  }

  /** Each product's stock drops by exactly the total quantity of its lines; nothing else changes. */
  lemma {:induction false} DecrementAllStock(products: map<ProductId, Product>, lines: seq<Line>, x: ProductId)
    requires x in products
    ensures DecrementAll(products, lines)[x] == products[x].(stock := products[x].stock - QtyFor(lines, x))
  {
    if lines != [] {
      DecrementAllStock(products, lines[..|lines| - 1], x);
    }
  }

  lemma {:induction false} QtyForAbsent(lines: seq<Line>, x: ProductId)
    requires forall i | 0 <= i < |lines| :: lines[i].product != x
    ensures QtyFor(lines, x) == 0
  {
    if lines != [] {
      QtyForAbsent(lines[..|lines| - 1], x);
    }
  }

  /** With distinct products, a product's total quantity is that of its one line. */
  lemma {:induction false} QtyForDistinct(lines: seq<Line>, k: nat)
    requires Seqs.Ordered(lines, LineProductDiffers)
    requires k < |lines|
    ensures QtyFor(lines, lines[k].product) == lines[k].quantity
  {
    var n := |lines| - 1;
    var init := lines[..n];
    assert Seqs.Ordered(init, LineProductDiffers) by {
      forall i, j | 0 <= i < j < |init| ensures LineProductDiffers(init[i], init[j]) {
        assert LineProductDiffers(lines[i], lines[j]);
      }
    }
    if k == n {
      forall i | 0 <= i < |init| ensures init[i].product != lines[k].product {
        assert LineProductDiffers(lines[i], lines[n]);
      }
      QtyForAbsent(init, lines[k].product);
    } else {
      QtyForDistinct(init, k);
      assert LineProductDiffers(lines[k], lines[n]);
    }
  }

  /** Distinct lines that each fit their product's stock never take more than the stock in total. */
  lemma {:induction false} QtyForWithinStock(lines: seq<Line>, products: map<ProductId, Product>, x: ProductId)
    requires Seqs.Ordered(lines, LineProductDiffers)
    requires forall i | 0 <= i < |lines| :: lines[i].quantity <= lines[i].stock
    requires forall i | 0 <= i < |lines| :: lines[i].product in products && lines[i].stock == products[lines[i].product].stock
    requires x in products && products[x].stock >= 0
    ensures QtyFor(lines, x) <= products[x].stock
  {
    if exists k | 0 <= k < |lines| :: lines[k].product == x {
      var k :| 0 <= k < |lines| && lines[k].product == x;
      QtyForDistinct(lines, k);
    } else {
      QtyForAbsent(lines, x);
    }
  }

  /** The order lines inserted for an order: ids `firstId`, `firstId + 1`, ... */
  function Freeze(lines: seq<Line>, orderId: nat, firstId: nat): (r: seq<OrderItem>)
    ensures |r| == |lines|
    ensures forall k | 0 <= k < |lines| ::
      r[k] == OrderItem(firstId + k, orderId, lines[k].product, lines[k].price, lines[k].quantity)
  {
    if lines == [] then []
    else
      var l := lines[|lines| - 1];
      Freeze(lines[..|lines| - 1], orderId, firstId) + [OrderItem(firstId + |lines| - 1, orderId, l.product, l.price, l.quantity)]
  }

  const CREATED: string := "CREATED"

  /** Inserts the order with status CREATED, then for each line its frozen
      order line and the stock decrement. */
  function InsertOrder(t: Tables, user: UserId, total: nat, lines: seq<Line>, now: Time): Tables {
    t.(orders := t.orders + [Order(t.nextOrderId, user, CREATED, total, now)],
       nextOrderId := t.nextOrderId + 1,
       orderItems := t.orderItems + Freeze(lines, t.nextOrderId, t.nextOrderItemId),
       nextOrderItemId := t.nextOrderItemId + |lines|,
       products := DecrementAll(t.products, lines))
  }

  /** `UPDATE user_coupons SET used_order_id = orderId WHERE id = couponId`. */
  function MarkUsed(coupons: seq<UserCoupon>, couponId: nat, orderId: nat): (r: seq<UserCoupon>)
    ensures |r| == |coupons|
    ensures forall i | 0 <= i < |coupons| ::
      r[i] == if coupons[i].id == couponId then coupons[i].(usedOrderId := Some(orderId)) else coupons[i]
  {
    seq(|coupons|, i requires 0 <= i < |coupons| =>
      if coupons[i].id == couponId then coupons[i].(usedOrderId := Some(orderId)) else coupons[i])
  }

  predicate NotUsersLine(user: UserId, c: CartItem) {
    c.user != user
  }

  /** `DELETE FROM cart_items WHERE user_id = user`. */
  function ClearCart(cart: seq<CartItem>, user: UserId): seq<CartItem> {
    Seqs.Filter(cart, c => NotUsersLine(user, c))
  }

  /** The whole successful checkout: order, order lines, stock, coupon, cart. */
  function CommitCart(t: Tables, user: UserId, q: Quote, now: Time): Tables {
    var t1 := InsertOrder(t, user, q.breakdown.total, q.lines, now);
    t1.(userCoupons := if q.coupon.Some? then MarkUsed(t.userCoupons, q.coupon.value.userCouponId, t.nextOrderId) else t.userCoupons,
        cart := ClearCart(t.cart, user))
  }

  datatype Receipt = Receipt(orderId: nat, breakdown: Breakdown, applied: Option<Applied>)

  /** The answer of the checkout handler. */
  function CheckoutResult(t: Tables, session: Option<UserId>, code: string, now: Time): Result<Receipt, ShopError> {
    if session.None? then Err(LoginRequired)
    else match QuoteFor(t, session.value, code, now)
      case Err(e) => Err(e)
      case Ok(q) => Ok(Receipt(t.nextOrderId, q.breakdown, q.coupon))
  }

  /** A successful checkout takes from each product exactly the quantity of
      the user's cart line for it, leaves every other product alone, and no
      stock drops below zero. */
  lemma CheckoutStock(t: Tables, user: UserId, code: string, now: Time, x: ProductId)
    requires Valid(t)
    requires QuoteFor(t, user, code, now).Ok?
    requires x in t.products
    ensures var q := QuoteFor(t, user, code, now).value;
      var after := CommitCart(t, user, q, now).products;
      && x in after
      && after[x].price == t.products[x].price
      && (forall k | 0 <= k < |q.lines| && q.lines[k].product == x :: after[x].stock == t.products[x].stock - q.lines[k].quantity)
      && ((forall k | 0 <= k < |q.lines| :: q.lines[k].product != x) ==> after[x] == t.products[x])
      && after[x].stock >= 0
  {
    var q := QuoteFor(t, user, code, now).value;
    UserLinesDistinct(t.cart, t.products, user);
    DecrementAllStock(t.products, q.lines, x);
    QtyForWithinStock(q.lines, t.products, x);
    forall k | 0 <= k < |q.lines| && q.lines[k].product == x
      ensures QtyFor(q.lines, x) == q.lines[k].quantity
    {
      QtyForDistinct(q.lines, k);
    }
    if forall k | 0 <= k < |q.lines| :: q.lines[k].product != x {
      QtyForAbsent(q.lines, x);
    }
  }

  /** The row lookup ignores `used_order_id`, so marking a coupon used keeps every lookup's answer. */
  lemma {:induction false} FindCouponRowMarkUsed(coupons: seq<UserCoupon>, types: map<string, CouponType>, user: UserId, code: string, from: nat, couponId: nat, orderId: nat)
    requires from <= |coupons|
    ensures FindCouponRow(MarkUsed(coupons, couponId, orderId), types, user, code, from) == FindCouponRow(coupons, types, user, code, from)
    decreases |coupons| - from
  {
    if from < |coupons| {
      FindCouponRowMarkUsed(coupons, types, user, code, from + 1, couponId, orderId);
    }
  }

  /** A coupon works once: after a checkout that used it, checking the same
      code again fails with COUPON_ALREADY_USED, whatever the time. */
  lemma CheckoutConsumesCoupon(t: Tables, user: UserId, code: string, now: Time, later: Time)
    requires Valid(t)
    requires QuoteFor(t, user, code, now).Ok?
    requires QuoteFor(t, user, code, now).value.coupon.Some?
    ensures var after := CommitCart(t, user, QuoteFor(t, user, code, now).value, now);
      GetValidCoupon(after.userCoupons, after.couponTypes, user, code, later) == Err(CouponAlreadyUsed)
  {
    var q := QuoteFor(t, user, code, now).value;
    var a := q.coupon.value;
    var after := CommitCart(t, user, q, now);
    FindCouponRowMarkUsed(t.userCoupons, t.couponTypes, user, code, 0, a.userCouponId, t.nextOrderId);
    var j := FindCouponRow(t.userCoupons, t.couponTypes, user, code, 0).value;
    var j' :| 0 <= j' < |t.userCoupons| && IsCouponRow(t.userCoupons[j'], t.couponTypes, user, code) && t.userCoupons[j'].id == a.userCouponId;
    assert after.userCoupons[j].usedOrderId == Some(t.nextOrderId);
  }

  /** After a successful checkout the user's cart is empty, so checking out
      again fails with CART_EMPTY; other users' cart rows are kept, in order. */
  lemma CheckoutEmptiesCart(t: Tables, user: UserId, code: string, now: Time, code': string, later: Time)
    requires QuoteFor(t, user, code, now).Ok?
    ensures var after := CommitCart(t, user, QuoteFor(t, user, code, now).value, now);
      && QuoteFor(after, user, code', later) == Err(CartEmpty)
      && after.cart == Seqs.Filter(t.cart, c => NotUsersLine(user, c))
  {
    var after := CommitCart(t, user, QuoteFor(t, user, code, now).value, now);
    UserLinesNone(after.cart, after.products, user);
  }

  /** The new order counts towards the buyer's lifetime spend with its whole
      total and towards nobody else's. */
  lemma CheckoutLifetime(t: Tables, user: UserId, code: string, now: Time, other: UserId)
    requires QuoteFor(t, user, code, now).Ok?
    ensures var q := QuoteFor(t, user, code, now).value;
      var after := CommitCart(t, user, q, now);
      && Lifetime(after.orders, user) == Lifetime(t.orders, user) + q.breakdown.total
      && (other != user ==> Lifetime(after.orders, other) == Lifetime(t.orders, other))
  {
    var q := QuoteFor(t, user, code, now).value;
    CreatedIsEligible();
    LifetimeAppend(t.orders, Order(t.nextOrderId, user, CREATED, q.breakdown.total, now), user);
    LifetimeAppend(t.orders, Order(t.nextOrderId, user, CREATED, q.breakdown.total, now), other);
  }

  lemma OrderedAppend<T>(a: seq<T>, b: seq<T>, lt: (T, T) -> bool)
    requires Seqs.Ordered(a, lt) && Seqs.Ordered(b, lt)
    requires forall i, j | 0 <= i < |a| && 0 <= j < |b| :: lt(a[i], b[j])
    ensures Seqs.Ordered(a + b, lt)
  {
    var s := a + b;
    forall i, j | 0 <= i < j < |s| ensures lt(s[i], s[j]) {
      if j < |a| {
        assert lt(a[i], a[j]);
      } else if i >= |a| {
        assert lt(b[i - |a|], b[j - |a|]);
      } else {
        assert lt(a[i], b[j - |a|]);
      }
    }
  }

  /** Inserting an order keeps the id invariants of `orders` and `order_items`. */
  lemma InsertOrderValid(t: Tables, user: UserId, total: nat, lines: seq<Line>, now: Time)
    requires Valid(t)
    requires forall p | p in t.products :: t.products[p].stock >= QtyFor(lines, p)
    ensures Valid(InsertOrder(t, user, total, lines, now))
  {
    var t1 := InsertOrder(t, user, total, lines, now);
    var o := Order(t.nextOrderId, user, CREATED, total, now);
    OrderedAppend(t.orders, [o], OrderIdLt);
    var fr := Freeze(lines, t.nextOrderId, t.nextOrderItemId);
    assert Seqs.Ordered(fr, ItemLt) by {
      forall i, j | 0 <= i < j < |fr| ensures ItemLt(fr[i], fr[j]) {
        assert fr[i].id == t.nextOrderItemId + i && fr[j].id == t.nextOrderItemId + j;
      }
    }
    OrderedAppend(t.orderItems, fr, ItemLt);
    forall p | p in t1.products ensures t1.products[p].stock >= 0 {
      DecrementAllStock(t.products, lines, p);
    }
  }

  /** Marking a coupon used keeps the coupon invariants; the order id is an
      auto-increment id, so it is at least 1. */
  lemma MarkUsedValid(t: Tables, couponId: nat, orderId: nat)
    requires Valid(t) && orderId >= 1
    ensures Valid(t.(userCoupons := MarkUsed(t.userCoupons, couponId, orderId)))
  {
    var m := MarkUsed(t.userCoupons, couponId, orderId);
    assert Seqs.Ordered(m, CouponKeyDiffers) by {
      forall i, j | 0 <= i < j < |m| ensures CouponKeyDiffers(m[i], m[j]) {
        assert CouponKeyDiffers(t.userCoupons[i], t.userCoupons[j]);
      }
    }
    assert Seqs.Ordered(m, CouponIdLt) by {
      forall i, j | 0 <= i < j < |m| ensures CouponIdLt(m[i], m[j]) {
        assert CouponIdLt(t.userCoupons[i], t.userCoupons[j]);
      }
    }
  }

  /** Deleting cart rows (any filter of the table) keeps the cart invariants. */
  lemma FilterCartValid(t: Tables, p: CartItem -> bool)
    requires Valid(t)
    ensures Valid(t.(cart := Seqs.Filter(t.cart, p)))
  {
    Seqs.FilterKeepsOrdered(t.cart, p, CartKeyDiffers);
    Seqs.FilterKeepsOrdered(t.cart, p, CartIdLt);
  }

  /** Deleting user coupons (any filter of the table) keeps the coupon invariants. */
  lemma FilterCouponsValid(t: Tables, p: UserCoupon -> bool)
    requires Valid(t)
    ensures Valid(t.(userCoupons := Seqs.Filter(t.userCoupons, p)))
  {
    Seqs.FilterKeepsOrdered(t.userCoupons, p, CouponKeyDiffers);
    Seqs.FilterKeepsOrdered(t.userCoupons, p, CouponIdLt);
  }

  /** A successful checkout keeps every table invariant: unique keys, increasing ids, no negative stock. */
  lemma CheckoutValid(t: Tables, user: UserId, code: string, now: Time)
    requires Valid(t)
    requires QuoteFor(t, user, code, now).Ok?
    ensures Valid(CommitCart(t, user, QuoteFor(t, user, code, now).value, now))
  {
    var q := QuoteFor(t, user, code, now).value;
    forall p | p in t.products ensures t.products[p].stock >= QtyFor(q.lines, p) {
      UserLinesDistinct(t.cart, t.products, user);
      QtyForWithinStock(q.lines, t.products, p);
    }
    InsertOrderValid(t, user, q.breakdown.total, q.lines, now);
    var t1 := InsertOrder(t, user, q.breakdown.total, q.lines, now);
    var t2 := if q.coupon.Some? then t1.(userCoupons := MarkUsed(t1.userCoupons, q.coupon.value.userCouponId, t.nextOrderId)) else t1;
    if q.coupon.Some? {
      MarkUsedValid(t1, q.coupon.value.userCouponId, t.nextOrderId);
    }
    FilterCartValid(t2, c => NotUsersLine(user, c));
    assert CommitCart(t, user, q, now) == t2.(cart := Seqs.Filter(t2.cart, c => NotUsersLine(user, c)));
  }

  // ---------------------------------------------------------------- cart edits

  predicate IsCartLine(c: CartItem, user: UserId, product: ProductId) {
    c.user == user && c.product == product
  }

  /** The user's row for a product, found by the (user, product) unique key. */
  function FindCartLine(cart: seq<CartItem>, user: UserId, product: ProductId, from: nat): (r: Option<nat>)
    requires from <= |cart|
    ensures r.Some? ==> from <= r.value < |cart| && IsCartLine(cart[r.value], user, product)
    ensures r.None? ==> forall j | from <= j < |cart| :: !IsCartLine(cart[j], user, product)
    decreases |cart| - from
  {
    if from == |cart| then None
    else if IsCartLine(cart[from], user, product) then Some(from)
    else FindCartLine(cart, user, product, from + 1)
  }

  /** The quantity the user holds of a product, or None without a row: the cart as a key-value view. */
  function CartQty(cart: seq<CartItem>, user: UserId, product: ProductId): Option<nat> {
    match FindCartLine(cart, user, product, 0)
    case None => None
    case Some(i) => Some(cart[i].quantity)
  }

  /** Under the unique key, the row holding (user, product) is the one the lookup finds. */
  lemma CartQtyAt(cart: seq<CartItem>, user: UserId, product: ProductId, i: nat)
    requires Seqs.Ordered(cart, CartKeyDiffers)
    requires i < |cart| && IsCartLine(cart[i], user, product)
    ensures CartQty(cart, user, product) == Some(cart[i].quantity)
  {
    var f := FindCartLine(cart, user, product, 0);
    assert f.Some?;
  }

  function MinNat(a: nat, b: nat): nat {
    if a <= b then a else b
  }

  /** Two carts that agree on every row's id, user and product, row by row. */
  predicate SameCartKeys(a: seq<CartItem>, b: seq<CartItem>) {
    && |a| == |b|
    && forall i | 0 <= i < |a| :: a[i].id == b[i].id && a[i].user == b[i].user && a[i].product == b[i].product
  }

  /** A cart edit that only changes quantities keeps the table invariants. */
  lemma SameCartKeysValid(t: Tables, after: seq<CartItem>)
    requires Valid(t) && SameCartKeys(t.cart, after)
    ensures Valid(t.(cart := after))
  {
    assert Seqs.Ordered(after, CartKeyDiffers) by {
      forall a, b | 0 <= a < b < |after| ensures CartKeyDiffers(after[a], after[b]) {
        assert CartKeyDiffers(t.cart[a], t.cart[b]);
      }
    }
    assert Seqs.Ordered(after, CartIdLt) by {
      forall a, b | 0 <= a < b < |after| ensures CartIdLt(after[a], after[b]) {
        assert CartIdLt(t.cart[a], t.cart[b]);
      }
    }
  }

  /** ... and the lookup by (user, product) finds the same row in both. */
  lemma {:induction false} FindSameKeys(cart: seq<CartItem>, after: seq<CartItem>, u: UserId, p: ProductId, from: nat)
    requires SameCartKeys(cart, after) && from <= |cart|
    ensures FindCartLine(after, u, p, from) == FindCartLine(cart, u, p, from)
    decreases |cart| - from
  {
    if from < |cart| {
      assert IsCartLine(after[from], u, p) == IsCartLine(cart[from], u, p);
      FindSameKeys(cart, after, u, p, from + 1);
    }
  }

  /** Appending a row finds it for its own key when no earlier row has that
      key, and changes nothing for any other key. */
  lemma {:induction false} FindAppend(cart: seq<CartItem>, c: CartItem, u: UserId, p: ProductId, from: nat)
    requires from <= |cart|
    ensures !IsCartLine(c, u, p) ==> FindCartLine(cart + [c], u, p, from) == FindCartLine(cart, u, p, from)
    ensures IsCartLine(c, u, p) && FindCartLine(cart, u, p, from).None? ==> FindCartLine(cart + [c], u, p, from) == Some(|cart|)
    decreases |cart| - from
  {
    var after := cart + [c];
    if from < |cart| {
      assert after[from] == cart[from];
      FindAppend(cart, c, u, p, from + 1);
    } else {
      assert after[from] == c;
      assert FindCartLine(after, u, p, from + 1) == None;
    }
  }

  /** `INSERT INTO cart_items ... ON DUPLICATE KEY UPDATE quantity = LEAST(quantity + q, stock)`:
      a new row gets `q` as it is; an existing row is capped at the stock. */
  function UpsertCartLine(t: Tables, user: UserId, product: ProductId, q: nat, stock: nat): Tables {
    match FindCartLine(t.cart, user, product, 0)
    case Some(i) => t.(cart := t.cart[i := t.cart[i].(quantity := MinNat(t.cart[i].quantity + q, stock))])
    case None => t.(cart := t.cart + [CartItem(t.nextCartId, user, product, q)], nextCartId := t.nextCartId + 1)
  }

  /** Re-adding a product yields min(old + q, stock); a first add yields q; no other (user, product) changes. */
  lemma UpsertCartLineEffect(t: Tables, user: UserId, product: ProductId, q: nat, stock: nat, u: UserId, p: ProductId)
    ensures var after := UpsertCartLine(t, user, product, q, stock).cart;
      && CartQty(after, user, product) == Some(if CartQty(t.cart, user, product).Some? then MinNat(CartQty(t.cart, user, product).value + q, stock) else q)
      && ((u, p) != (user, product) ==> CartQty(after, u, p) == CartQty(t.cart, u, p))
  {
    var after := UpsertCartLine(t, user, product, q, stock).cart;
    match FindCartLine(t.cart, user, product, 0)
    case Some(i) =>
      assert SameCartKeys(t.cart, after);
      FindSameKeys(t.cart, after, user, product, 0);
      FindSameKeys(t.cart, after, u, p, 0);
    case None =>
      var c := CartItem(t.nextCartId, user, product, q);
      assert after == t.cart + [c];
      FindAppend(t.cart, c, user, product, 0);
      FindAppend(t.cart, c, u, p, 0);
  }

  lemma UpsertCartLineValid(t: Tables, user: UserId, product: ProductId, q: nat, stock: nat)
    requires Valid(t)
    ensures Valid(UpsertCartLine(t, user, product, q, stock))
  {
    var after := UpsertCartLine(t, user, product, q, stock).cart;
    match FindCartLine(t.cart, user, product, 0)
    case Some(i) =>
      assert SameCartKeys(t.cart, after);
      SameCartKeysValid(t, after);
    case None =>
      OrderedAppend(t.cart, [CartItem(t.nextCartId, user, product, q)], CartKeyDiffers);
      OrderedAppend(t.cart, [CartItem(t.nextCartId, user, product, q)], CartIdLt);
  }

  /** `UPDATE cart_items SET quantity = q WHERE user_id = user AND product_id = product`. */
  function SetCartQuantity(cart: seq<CartItem>, user: UserId, product: ProductId, q: nat): (r: seq<CartItem>)
    ensures |r| == |cart|
    ensures forall i | 0 <= i < |cart| :: r[i] == if IsCartLine(cart[i], user, product) then cart[i].(quantity := q) else cart[i]
  {
    seq(|cart|, i requires 0 <= i < |cart| => if IsCartLine(cart[i], user, product) then cart[i].(quantity := q) else cart[i])
  }

  /** Setting a quantity changes only that row's quantity, and adds no row when there is none. */
  lemma SetCartQuantityEffect(t: Tables, user: UserId, product: ProductId, q: nat, u: UserId, p: ProductId)
    requires Valid(t)
    ensures var after := SetCartQuantity(t.cart, user, product, q);
      && Valid(t.(cart := after))
      && CartQty(after, user, product) == (if CartQty(t.cart, user, product).Some? then Some(q) else None)
      && ((u, p) != (user, product) ==> CartQty(after, u, p) == CartQty(t.cart, u, p))
  {
    var after := SetCartQuantity(t.cart, user, product, q);
    assert SameCartKeys(t.cart, after);
    SameCartKeysValid(t, after);
    FindSameKeys(t.cart, after, user, product, 0);
    FindSameKeys(t.cart, after, u, p, 0);
  }

  predicate OtherCartLine(user: UserId, product: ProductId, c: CartItem) {
    !IsCartLine(c, user, product)
  }

  /** `DELETE FROM cart_items WHERE user_id = user AND product_id = product`. */
  function DeleteCartLine(cart: seq<CartItem>, user: UserId, product: ProductId): seq<CartItem> {
    Seqs.Filter(cart, c => OtherCartLine(user, product, c))
  }

  /** After a filter that keeps every row of key (u, p), the view of (u, p) is unchanged. */
  lemma CartQtyFilter(cart: seq<CartItem>, keep: CartItem -> bool, u: UserId, p: ProductId)
    requires Seqs.Ordered(cart, CartKeyDiffers)
    requires forall i | 0 <= i < |cart| && IsCartLine(cart[i], u, p) :: keep(cart[i])
    ensures CartQty(Seqs.Filter(cart, keep), u, p) == CartQty(cart, u, p)
  {
    var after := Seqs.Filter(cart, keep);
    Seqs.FilterKeepsOrdered(cart, keep, CartKeyDiffers);
    match FindCartLine(cart, u, p, 0)
    case Some(i) =>
      assert cart[i] in after;
      var k :| 0 <= k < |after| && after[k] == cart[i];
      CartQtyAt(after, u, p, k);
    case None =>
      forall k | 0 <= k < |after| ensures !IsCartLine(after[k], u, p) {
        assert after[k] in cart;
      }
      assert FindCartLine(after, u, p, 0).None?;
  }

  /** Deleting a line removes exactly that (user, product) and keeps every other key's quantity. */
  lemma DeleteCartLineEffect(t: Tables, user: UserId, product: ProductId, u: UserId, p: ProductId)
    requires Valid(t)
    ensures var after := DeleteCartLine(t.cart, user, product);
      && Valid(t.(cart := after))
      && CartQty(after, user, product) == None
      && ((u, p) != (user, product) ==> CartQty(after, u, p) == CartQty(t.cart, u, p))
  {
    var after := DeleteCartLine(t.cart, user, product);
    FilterCartValid(t, c => OtherCartLine(user, product, c));
    assert FindCartLine(after, user, product, 0).None?;
    if (u, p) != (user, product) {
      CartQtyFilter(t.cart, c => OtherCartLine(user, product, c), u, p);
    }
  }

  /** `DELETE FROM cart_items WHERE id = id AND user_id = user`. A `None` id
      matches no row; the handler never runs the statement with one. */
  predicate KeepUnlessOwnRow(user: UserId, id: Option<int>, c: CartItem) {
    !(id == Some(c.id as int) && c.user == user)
  }

  function DeleteCartItem(cart: seq<CartItem>, user: UserId, id: Option<int>): seq<CartItem> {
    Seqs.Filter(cart, c => KeepUnlessOwnRow(user, id, c))
  }

  /** Deleting by row id never touches another user's rows, so nobody can empty someone else's cart. */
  lemma DeleteCartItemEffect(t: Tables, user: UserId, id: Option<int>, u: UserId, p: ProductId)
    requires Valid(t)
    ensures var after := DeleteCartItem(t.cart, user, id);
      && Valid(t.(cart := after))
      && (forall i | 0 <= i < |after| :: !(Some(after[i].id as int) == id && after[i].user == user))
      && (u != user ==> CartQty(after, u, p) == CartQty(t.cart, u, p))
      && (id.None? ==> after == t.cart)
  {
    FilterCartValid(t, c => KeepUnlessOwnRow(user, id, c));
    if u != user {
      CartQtyFilter(t.cart, c => KeepUnlessOwnRow(user, id, c), u, p);
    }
    if id.None? {
      Seqs.FilterAll(t.cart, c => KeepUnlessOwnRow(user, id, c));
    }
  }

  // ---------------------------------------------------------------- direct purchase

  /** One requested item: a product id and the quantity, None when it is not an integer. */
  datatype DirectItem = DirectItem(productId: ProductId, quantity: Option<int>)

  /** Total valid quantity of product `x` requested by the items. */
  function Requested(items: seq<DirectItem>, x: ProductId): nat {
    if items == [] then 0
    else
      var it := items[|items| - 1];
      Requested(items[..|items| - 1], x) + (if it.productId == x && it.quantity.Some? && it.quantity.value >= 1 then it.quantity.value else 0)
  }

  /** The validation loop as written: each item is compared with the stock
      read before the loop, so repeated items are checked one by one. */
  function DirectTotalAsWritten(products: map<ProductId, Product>, items: seq<DirectItem>): Result<nat, ShopError> {
    if items == [] then Ok(0)
    else match DirectTotalAsWritten(products, items[..|items| - 1])
      case Err(e) => Err(e)
      case Ok(total) =>
        var it := items[|items| - 1];
        if it.productId !in products then Err(ProductNotFound)
        else if it.quantity.None? || it.quantity.value < 1 then Err(InvalidQty)
        else if it.quantity.value > products[it.productId].stock then Err(OutOfStock)
        else Ok(total + products[it.productId].price * it.quantity.value)
  }

  /** The validation loop as intended: an item fails OUT_OF_STOCK when it
      together with the earlier items for the same product exceeds the stock. */
  function DirectTotal(products: map<ProductId, Product>, items: seq<DirectItem>): (r: Result<nat, ShopError>)
    ensures r.Err? ==> r.error in {ProductNotFound, InvalidQty, OutOfStock}
  {
    if items == [] then Ok(0)
    else match DirectTotal(products, items[..|items| - 1])
      case Err(e) => Err(e)
      case Ok(total) =>
        var it := items[|items| - 1];
        if it.productId !in products then Err(ProductNotFound)
        else if it.quantity.None? || it.quantity.value < 1 then Err(InvalidQty)
        else if Requested(items[..|items| - 1], it.productId) + it.quantity.value > products[it.productId].stock then Err(OutOfStock)
        else Ok(total + products[it.productId].price * it.quantity.value)
  }

  /** The frozen line of a validated item. */
  function DirectLine(products: map<ProductId, Product>, it: DirectItem): Line
    requires it.productId in products && it.quantity.Some? && it.quantity.value >= 1
  {
    var p := products[it.productId];
    Line(it.productId, it.quantity.value, p.price, p.stock, p.shippingFee)
  }

  /** The lines a validated direct purchase inserts and takes from stock, in request order. */
  function DirectLines(products: map<ProductId, Product>, items: seq<DirectItem>): (r: seq<Line>)
    requires DirectTotal(products, items).Ok?
    ensures |r| == |items|
    ensures forall k | 0 <= k < |items| :: items[k].productId in products && items[k].quantity.Some? && items[k].quantity.value >= 1 && r[k] == DirectLine(products, items[k])
  {
    if items == [] then []
    else DirectLines(products, items[..|items| - 1]) + [DirectLine(products, items[|items| - 1])]
  }

  /** The accepted total is Σ price × quantity of the lines, with no shipping fee. */
  lemma {:induction false} DirectTotalIsSubtotal(products: map<ProductId, Product>, items: seq<DirectItem>)
    requires DirectTotal(products, items).Ok?
    ensures DirectTotal(products, items).value == Subtotal(DirectLines(products, items))
  {
    if items != [] {
      var n := |items| - 1;
      DirectTotalIsSubtotal(products, items[..n]);
      assert DirectLines(products, items)[..n] == DirectLines(products, items[..n]);
    }
  }

  /** Each product's lines ask for exactly the requested quantity. */
  lemma {:induction false} DirectLinesQty(products: map<ProductId, Product>, items: seq<DirectItem>, x: ProductId)
    requires DirectTotal(products, items).Ok?
    ensures QtyFor(DirectLines(products, items), x) == Requested(items, x)
  {
    if items != [] {
      var n := |items| - 1;
      DirectLinesQty(products, items[..n], x);
      assert DirectLines(products, items)[..n] == DirectLines(products, items[..n]);
    }
  }

  /** The intended check never lets the requests for one product exceed its stock. */
  lemma {:induction false} DirectWithinStock(products: map<ProductId, Product>, items: seq<DirectItem>, x: ProductId)
    requires DirectTotal(products, items).Ok?
    requires x in products && products[x].stock >= 0
    ensures Requested(items, x) <= products[x].stock
  {
    if items != [] {
      DirectWithinStock(products, items[..|items| - 1], x);
    }
  }

  /** A failure in a prefix is the whole request's failure: the loop stops at the first bad item. */
  lemma {:induction false} DirectTotalPrefixErr(products: map<ProductId, Product>, items: seq<DirectItem>, k: nat)
    requires k <= |items|
    requires DirectTotal(products, items[..k]).Err?
    ensures DirectTotal(products, items) == DirectTotal(products, items[..k])
    decreases |items| - k
  {
    if k < |items| {
      assert items[..k + 1][..k] == items[..k];
      DirectTotalPrefixErr(products, items, k + 1);
    } else {
      assert items[..k] == items;
    }
  }

  /** A direct purchase that passes validation keeps every table invariant: in particular no stock goes negative. */
  lemma DirectValid(t: Tables, user: UserId, items: seq<DirectItem>, now: Time)
    requires Valid(t)
    requires DirectTotal(t.products, items).Ok?
    ensures Valid(InsertOrder(t, user, DirectTotal(t.products, items).value, DirectLines(t.products, items), now))
  {
    var lines := DirectLines(t.products, items);
    forall p | p in t.products ensures t.products[p].stock >= QtyFor(lines, p) {
      DirectLinesQty(t.products, items, p);
      DirectWithinStock(t.products, items, p);
    }
    InsertOrderValid(t, user, DirectTotal(t.products, items).value, lines, now);
  }

  /** The check as written accepts the same product twice within its stock
      each time but not in total: 3 + 3 units of a product with 5 in stock
      pass, and the commit leaves the stock at -1. */
  lemma DirectOversellAsWritten()
    ensures var products := map[1 := Product(1_000, 5, None)];
      var items := [DirectItem(1, Some(3)), DirectItem(1, Some(3))];
      && DirectTotalAsWritten(products, items) == Ok(6_000)
      && DirectTotal(products, items) == Err(OutOfStock)
      && products[1].stock - (3 + 3) == -1
  {
    var products := map[1 := Product(1_000, 5, None)];
    var items := [DirectItem(1, Some(3)), DirectItem(1, Some(3))];
    assert items[..1] == [DirectItem(1, Some(3))];
    assert items[..1][..0] == [];
    assert DirectTotalAsWritten(products, items[..1]) == Ok(3_000);
    assert Requested(items[..1], 1) == 3;
    assert DirectTotal(products, items[..1]) == Ok(3_000);
  }

  /** When every request names a different product the two checks agree. */
  lemma {:induction false} DirectAgreesOnDistinct(products: map<ProductId, Product>, items: seq<DirectItem>)
    requires forall i, j | 0 <= i < j < |items| :: items[i].productId != items[j].productId
    ensures DirectTotal(products, items) == DirectTotalAsWritten(products, items)
  {
    if items != [] {
      var n := |items| - 1;
      DirectAgreesOnDistinct(products, items[..n]);
      RequestedAbsent(items[..n], items[n].productId);
    }
  }

  lemma {:induction false} RequestedAbsent(items: seq<DirectItem>, x: ProductId)
    requires forall i | 0 <= i < |items| :: items[i].productId != x
    ensures Requested(items, x) == 0
  {
    if items != [] {
      RequestedAbsent(items[..|items| - 1], x);
    }
  }

  // ---------------------------------------------------------------- orders summary

  predicate OwnOrder(user: UserId, o: Order) {
    o.user == user
  }

  /** `SELECT ... FROM orders WHERE user_id = user ORDER BY id DESC`. */
  function UserOrdersDesc(orders: seq<Order>, user: UserId): seq<Order> {
    Seqs.Reverse(Seqs.Filter(orders, o => OwnOrder(user, o)))
  }

  /** An order appended to the table comes first in its owner's list. */
  lemma UserOrdersDescSnoc(orders: seq<Order>, o: Order, user: UserId)
    ensures UserOrdersDesc(orders + [o], user) == (if o.user == user then [o] else []) + UserOrdersDesc(orders, user)
  {
    var own := o => OwnOrder(user, o);
    Seqs.FilterAppend(orders, [o], own);
    assert [o][1..] == [];
    var f := Seqs.Filter(orders + [o], own);
    if o.user == user {
      assert f == Seqs.Filter(orders, own) + [o];
      assert f[..|f| - 1] == Seqs.Filter(orders, own);
    } else {
      assert f == Seqs.Filter(orders, own);
    }
  }

  predicate ShownItem(orderIds: set<nat>, products: map<ProductId, Product>, oi: OrderItem) {
    oi.orderId in orderIds && oi.product in products
  }

  /** The items of the listed orders joined with `products`, `ORDER BY order_id DESC, id DESC`. */
  function OrderItemsDesc(items: seq<OrderItem>, products: map<ProductId, Product>, orderIds: set<nat>): seq<OrderItem> {
    Seqs.Reverse(Seqs.Filter(items, oi => ShownItem(orderIds, products, oi)))
  }

  datatype OrdersSummary = OrdersSummary(orders: seq<Order>, items: seq<OrderItem>, lifetime: int, level: Level)

  /** The orders summary: the user's orders newest first, their items, the lifetime spend and its level. */
  function OrdersMe(t: Tables, user: UserId): OrdersSummary {
    var orders := UserOrdersDesc(t.orders, user);
    var lifetime := Lifetime(t.orders, user);
    var ids := set o | o in orders :: o.id;
    OrdersSummary(orders, if orders == [] then [] else OrderItemsDesc(t.orderItems, t.products, ids), lifetime, DecideLevel(lifetime))
  }

  /** The summary lists exactly the user's orders, newest first, with the level of its lifetime spend. */
  lemma OrdersMeOrders(t: Tables, user: UserId)
    requires Valid(t)
    ensures var s := OrdersMe(t, user);
      && (forall i | 0 <= i < |s.orders| :: s.orders[i] in t.orders && s.orders[i].user == user)
      && (forall o | o in t.orders && o.user == user :: o in s.orders)
      && (forall i, j | 0 <= i < j < |s.orders| :: s.orders[i].id > s.orders[j].id)
      && s.lifetime == Lifetime(t.orders, user)
      && s.level == DecideLevel(s.lifetime)
  {
    UserOrdersDescExact(t.orders, user);
  }

  /** The owner's orders of a table stored by increasing id, newest first. */
  lemma UserOrdersDescExact(orders: seq<Order>, user: UserId)
    requires Seqs.Ordered(orders, OrderIdLt)
    ensures var listed := UserOrdersDesc(orders, user);
      && (forall i | 0 <= i < |listed| :: listed[i] in orders && listed[i].user == user)
      && (forall o | o in orders && o.user == user :: o in listed)
      && (forall i, j | 0 <= i < j < |listed| :: listed[i].id > listed[j].id)
  {
    UserOrdersDescOwn(orders, user);
    UserOrdersDescAll(orders, user);
    UserOrdersDescNewestFirst(orders, user);
  }

  lemma UserOrdersDescOwn(orders: seq<Order>, user: UserId)
    ensures var listed := UserOrdersDesc(orders, user);
      forall i | 0 <= i < |listed| :: listed[i] in orders && listed[i].user == user
  {
    var own := Seqs.Filter(orders, o => OwnOrder(user, o));
    var listed := Seqs.Reverse(own);
    forall i | 0 <= i < |listed| ensures listed[i] in orders && listed[i].user == user {
      assert listed[i] == own[|own| - 1 - i];
      assert own[|own| - 1 - i] in own;
    }
  }

  lemma UserOrdersDescAll(orders: seq<Order>, user: UserId)
    ensures var listed := UserOrdersDesc(orders, user);
      forall o | o in orders && o.user == user :: o in listed
  {
    var own := Seqs.Filter(orders, o => OwnOrder(user, o));
    var listed := Seqs.Reverse(own);
    forall o | o in orders && o.user == user ensures o in listed {
      var k :| 0 <= k < |orders| && orders[k] == o;
      assert OwnOrder(user, orders[k]);
      assert o in own;
      var m :| 0 <= m < |own| && own[m] == o;
      assert listed[|own| - 1 - m] == o;
    }
  }

  lemma UserOrdersDescNewestFirst(orders: seq<Order>, user: UserId)
    requires Seqs.Ordered(orders, OrderIdLt)
    ensures var listed := UserOrdersDesc(orders, user);
      forall i, j | 0 <= i < j < |listed| :: listed[i].id > listed[j].id
  {
    var own := Seqs.Filter(orders, o => OwnOrder(user, o));
    Seqs.FilterKeepsOrdered(orders, o => OwnOrder(user, o), OrderIdLt);
    Seqs.ReverseOrdered(own, OrderIdLt);
    var listed := Seqs.Reverse(own);
    forall i, j | 0 <= i < j < |listed| ensures listed[i].id > listed[j].id {
      assert OrderIdLt(listed[j], listed[i]);
    }
  }

  /** The listed items are stored items of the given orders, by order id then item id, both descending. */
  lemma OrderItemsDescOrdered(items: seq<OrderItem>, products: map<ProductId, Product>, ids: set<nat>)
    requires Seqs.Ordered(items, ItemLt)
    ensures var r := OrderItemsDesc(items, products, ids);
      && (forall i, j | 0 <= i < j < |r| :: ItemLt(r[j], r[i]))
      && (forall i | 0 <= i < |r| :: r[i] in items && r[i].orderId in ids && r[i].product in products)
      && (forall it | it in items && it.orderId in ids && it.product in products :: it in r)
  {
    var shown := Seqs.Filter(items, oi => ShownItem(ids, products, oi));
    Seqs.FilterKeepsOrdered(items, oi => ShownItem(ids, products, oi), ItemLt);
    Seqs.ReverseOrdered(shown, ItemLt);
    var r := OrderItemsDesc(items, products, ids);
    forall i | 0 <= i < |r| ensures r[i] in items && ShownItem(ids, products, r[i]) {
      assert r[i] == shown[|shown| - 1 - i];
    }
    forall it | it in items && it.orderId in ids && it.product in products ensures it in r {
      assert ShownItem(ids, products, it);
      var m :| 0 <= m < |shown| && shown[m] == it;
      assert r[|shown| - 1 - m] == it;
    }
  }

  /** The summary's items belong to the listed orders and are ordered by
      order id then item id, both descending. */
  lemma OrdersMeItems(t: Tables, user: UserId)
    requires Valid(t)
    ensures var s := OrdersMe(t, user);
      && (forall i, j | 0 <= i < j < |s.items| :: ItemLt(s.items[j], s.items[i]))
      && (forall i | 0 <= i < |s.items| :: s.items[i] in t.orderItems && s.items[i].product in t.products)
      && (forall i | 0 <= i < |s.items| :: s.items[i].orderId in (set o | o in s.orders :: o.id))
      && (forall it | it in t.orderItems && it.orderId in (set o | o in s.orders :: o.id) && it.product in t.products :: it in s.items)
  {
    var listed := UserOrdersDesc(t.orders, user);
    OrderItemsDescOrdered(t.orderItems, t.products, set o | o in listed :: o.id);
  }

  // ---------------------------------------------------------------- membership coupons

  /** The user holds a row with this code, used or not. */
  predicate HoldsCoupon(coupons: seq<UserCoupon>, user: UserId, code: string) {
    exists i | 0 <= i < |coupons| :: coupons[i].user == user && coupons[i].code == code
  }

  /** `INSERT IGNORE INTO user_coupons (user_id, coupon_code, expires_at) VALUES (user, code, NULL)`. */
  function InsertIgnore(t: Tables, user: UserId, code: string): (r: Tables)
    ensures HoldsCoupon(r.userCoupons, user, code)
    ensures t.userCoupons <= r.userCoupons
    ensures r == t <==> HoldsCoupon(t.userCoupons, user, code)
    ensures r.(userCoupons := t.userCoupons, nextCouponId := t.nextCouponId) == t
    ensures !HoldsCoupon(t.userCoupons, user, code) ==>
      r.userCoupons == t.userCoupons + [UserCoupon(t.nextCouponId, user, code, None, None)] && r.nextCouponId == t.nextCouponId + 1
  {
    if HoldsCoupon(t.userCoupons, user, code) then t
    else
      var r := t.(userCoupons := t.userCoupons + [UserCoupon(t.nextCouponId, user, code, None, None)], nextCouponId := t.nextCouponId + 1);
      assert r.userCoupons[|t.userCoupons|].user == user && r.userCoupons[|t.userCoupons|].code == code;
      r
  }

  lemma InsertIgnoreValid(t: Tables, user: UserId, code: string)
    requires Valid(t)
    ensures Valid(InsertIgnore(t, user, code))
  {
    if !HoldsCoupon(t.userCoupons, user, code) {
      var c := UserCoupon(t.nextCouponId, user, code, None, None);
      OrderedAppend(t.userCoupons, [c], CouponKeyDiffers);
      OrderedAppend(t.userCoupons, [c], CouponIdLt);
    }
  }

  const LV10_CODES: seq<string> := ["M_LV10_10K", "M_LV10_5K"]
  const LV100_CODES: seq<string> := ["M_LV100_100K", "M_LV100_SHP"]

  /** The codes the coupon list seeds for a lifetime spend. */
  function SeedCodes(lifetime: int): seq<string> {
    (if lifetime == 0 then [WELCOME_CODE] else [])
      + (if lifetime >= LV10_MIN then LV10_CODES else [])
      + (if lifetime >= LV100_MIN then LV100_CODES else [])
  }

  /** Inserts each code, ignoring the ones the user already holds. */
  function InsertAllIgnore(t: Tables, user: UserId, codes: seq<string>): (r: Tables)
    ensures t.userCoupons <= r.userCoupons
  {
    if codes == [] then t
    else InsertIgnore(InsertAllIgnore(t, user, codes[..|codes| - 1]), user, codes[|codes| - 1])
  }

  /** The one-time seed of the coupon list. */
  function SeedTierCoupons(t: Tables, user: UserId, lifetime: int): Tables {
    InsertAllIgnore(t, user, SeedCodes(lifetime))
  }

  lemma {:induction false} InsertAllIgnoreHolds(t: Tables, user: UserId, codes: seq<string>, c: string)
    requires c in codes || HoldsCoupon(t.userCoupons, user, c)
    ensures HoldsCoupon(InsertAllIgnore(t, user, codes).userCoupons, user, c)
  {
    if codes != [] {
      var n := |codes| - 1;
      var mid := InsertAllIgnore(t, user, codes[..n]);
      if c != codes[n] {
        assert c in codes[..n] || HoldsCoupon(t.userCoupons, user, c);
        InsertAllIgnoreHolds(t, user, codes[..n], c);
        HoldsPrefix(mid.userCoupons, InsertIgnore(mid, user, codes[n]).userCoupons, user, c);
      }
    }
  }

  lemma HoldsPrefix(a: seq<UserCoupon>, b: seq<UserCoupon>, user: UserId, code: string)
    requires a <= b && HoldsCoupon(a, user, code)
    ensures HoldsCoupon(b, user, code)
  {
    var i :| 0 <= i < |a| && a[i].user == user && a[i].code == code;
    assert b[i] == a[i];
  }

  /** Inserting codes the user already holds changes nothing. */
  lemma {:induction false} InsertAllIgnoreHeld(t: Tables, user: UserId, codes: seq<string>)
    requires forall c | c in codes :: HoldsCoupon(t.userCoupons, user, c)
    ensures InsertAllIgnore(t, user, codes) == t
  {
    if codes != [] {
      InsertAllIgnoreHeld(t, user, codes[..|codes| - 1]);
    }
  }

  /** After the seed the user holds every code due for the lifetime spend. */
  lemma SeedHolds(t: Tables, user: UserId, lifetime: int)
    ensures var after := SeedTierCoupons(t, user, lifetime).userCoupons;
      && (lifetime == 0 ==> HoldsCoupon(after, user, WELCOME_CODE))
      && (lifetime >= LV10_MIN ==> HoldsCoupon(after, user, "M_LV10_10K") && HoldsCoupon(after, user, "M_LV10_5K"))
      && (lifetime >= LV100_MIN ==> HoldsCoupon(after, user, "M_LV100_100K") && HoldsCoupon(after, user, "M_LV100_SHP"))
  {
    var codes := SeedCodes(lifetime);
    forall c | c in codes ensures HoldsCoupon(SeedTierCoupons(t, user, lifetime).userCoupons, user, c) {
      InsertAllIgnoreHolds(t, user, codes, c);
    }
  }

  /** The seed issues each code at most once: seeding twice is seeding once. */
  lemma SeedIdempotent(t: Tables, user: UserId, lifetime: int)
    ensures SeedTierCoupons(SeedTierCoupons(t, user, lifetime), user, lifetime) == SeedTierCoupons(t, user, lifetime)
  {
    var codes := SeedCodes(lifetime);
    var once := SeedTierCoupons(t, user, lifetime);
    forall c | c in codes ensures HoldsCoupon(once.userCoupons, user, c) {
      InsertAllIgnoreHolds(t, user, codes, c);
    }
    InsertAllIgnoreHeld(once, user, codes);
  }

  /** The rows from `from` on are unused coupons of `user` with one of `codes`. */
  ghost predicate NewRowsOf(coupons: seq<UserCoupon>, from: nat, user: UserId, codes: seq<string>) {
    forall i | from <= i < |coupons| :: coupons[i].user == user && coupons[i].usedOrderId.None? && coupons[i].code in codes
  }

  /** The seed only appends rows, so it never alters an existing coupon nor touches another user's. */
  lemma {:induction false} InsertAllIgnoreOwn(t: Tables, user: UserId, codes: seq<string>)
    ensures NewRowsOf(InsertAllIgnore(t, user, codes).userCoupons, |t.userCoupons|, user, codes)
  {
    if codes != [] {
      var n := |codes| - 1;
      InsertAllIgnoreOwn(t, user, codes[..n]);
      var m := InsertAllIgnore(t, user, codes[..n]);
      var after := InsertIgnore(m, user, codes[n]).userCoupons;
      assert after == InsertAllIgnore(t, user, codes).userCoupons;
      forall i | |t.userCoupons| <= i < |after| ensures after[i].user == user && after[i].usedOrderId.None? && after[i].code in codes {
        if i < |m.userCoupons| {
          assert after[i] == m.userCoupons[i];
          assert m.userCoupons[i].code in codes[..n];
        } else {
          assert after[i] == UserCoupon(m.nextCouponId, user, codes[n], None, None);
        }
      }
    }
  }

  lemma {:induction false} InsertAllIgnoreValid(t: Tables, user: UserId, codes: seq<string>)
    requires Valid(t)
    ensures Valid(InsertAllIgnore(t, user, codes))
  {
    if codes != [] {
      InsertAllIgnoreValid(t, user, codes[..|codes| - 1]);
      InsertIgnoreValid(InsertAllIgnore(t, user, codes[..|codes| - 1]), user, codes[|codes| - 1]);
    }
  }

  datatype ClaimOutcome = AlreadyWelcomed | Claimed(lifetime: int, level: Level, issued: seq<string>)

  /** The welcome claim: refused once the user has ever held the welcome
      coupon; otherwise it is issued only at a lifetime spend of 0. */
  function ClaimWelcome(t: Tables, user: UserId): (Tables, ClaimOutcome) {
    if HoldsCoupon(t.userCoupons, user, WELCOME_CODE) then (t, AlreadyWelcomed)
    else
      var lifetime := Lifetime(t.orders, user);
      if lifetime == 0 then (InsertIgnore(t, user, WELCOME_CODE), Claimed(lifetime, DecideLevel(lifetime), [WELCOME_CODE]))
      else (t, Claimed(lifetime, DecideLevel(lifetime), []))
  }

  /** The claim issues the welcome coupon iff the user never held it and spent nothing;
      a second claim issues nothing and changes nothing. */
  lemma ClaimOnce(t: Tables, user: UserId)
    ensures var (t1, o1) := ClaimWelcome(t, user);
      && (o1.Claimed? && o1.issued == [WELCOME_CODE] <==> !HoldsCoupon(t.userCoupons, user, WELCOME_CODE) && Lifetime(t.orders, user) == 0)
      && HoldsCoupon(t1.userCoupons, user, WELCOME_CODE) == (HoldsCoupon(t.userCoupons, user, WELCOME_CODE) || Lifetime(t.orders, user) == 0)
      && var (t2, o2) := ClaimWelcome(t1, user);
        t2 == t1 && (o2.AlreadyWelcomed? || o2.issued == [])
  {
  }

  /** Resync deletes an unused coupon whose required level the lifetime spend does not reach. */
  predicate Unqualified(c: UserCoupon, types: map<string, CouponType>, lifetime: int) {
    && c.usedOrderId.None?
    && c.code in types
    && types[c.code].levelRequired.Some?
    && ((types[c.code].levelRequired.value == LV100 && lifetime < 1_000_000)
        || (types[c.code].levelRequired.value == LV10 && lifetime < 100_000))
  }

  predicate SurvivesResync(user: UserId, types: map<string, CouponType>, lifetime: int, c: UserCoupon) {
    !(c.user == user && Unqualified(c, types, lifetime))
  }

  /** The resync `DELETE ... WHERE user_id = user AND used_order_id IS NULL AND (level condition)`. */
  function Resync(coupons: seq<UserCoupon>, types: map<string, CouponType>, user: UserId, lifetime: int): seq<UserCoupon> {
    Seqs.Filter(coupons, c => SurvivesResync(user, types, lifetime, c))
  }

  /** The delete condition is exactly "unused, and requires a level above the spend's level". */
  lemma UnqualifiedMeansAboveLevel(c: UserCoupon, types: map<string, CouponType>, lifetime: int)
    ensures Unqualified(c, types, lifetime) <==>
      c.usedOrderId.None? && c.code in types && types[c.code].levelRequired.Some?
      && Rank(types[c.code].levelRequired.value) > Rank(DecideLevel(lifetime))
  {
  }

  /** Resync never deletes a used coupon or another user's coupon, deletes
      every unqualified coupon of the user, keeps the order of the rest, and
      running it twice is running it once. */
  lemma ResyncEffect(t: Tables, user: UserId, lifetime: int)
    requires Valid(t)
    ensures var after := Resync(t.userCoupons, t.couponTypes, user, lifetime);
      && Valid(t.(userCoupons := after))
      && (forall i | 0 <= i < |t.userCoupons| && t.userCoupons[i].usedOrderId.Some? :: t.userCoupons[i] in after)
      && (forall i | 0 <= i < |t.userCoupons| && t.userCoupons[i].user != user :: t.userCoupons[i] in after)
      && (forall i | 0 <= i < |after| :: !(after[i].user == user && Unqualified(after[i], t.couponTypes, lifetime)))
      && (forall i | 0 <= i < |t.userCoupons| && !(t.userCoupons[i].user == user && Unqualified(t.userCoupons[i], t.couponTypes, lifetime)) :: t.userCoupons[i] in after)
      && Resync(after, t.couponTypes, user, lifetime) == after
  {
    FilterCouponsValid(t, c => SurvivesResync(user, t.couponTypes, lifetime, c));
    var after := Resync(t.userCoupons, t.couponTypes, user, lifetime);
    Seqs.FilterAll(after, c => SurvivesResync(user, t.couponTypes, lifetime, c));
  }

  lemma {:induction false} InsertAllIgnoreAppend(t: Tables, user: UserId, a: seq<string>, b: seq<string>)
    ensures InsertAllIgnore(t, user, a + b) == InsertAllIgnore(InsertAllIgnore(t, user, a), user, b)
    decreases |b|
  {
    if b == [] {
      assert a + b == a;
    } else {
      assert (a + b)[..|a + b| - 1] == a + b[..|b| - 1];
      InsertAllIgnoreAppend(t, user, a, b[..|b| - 1]);
    }
  }

  /** The seed is the three guarded steps of the coupon list, in order. */
  lemma SeedSteps(t: Tables, user: UserId, lifetime: int)
    ensures var t1 := if lifetime == 0 then InsertIgnore(t, user, WELCOME_CODE) else t;
      var t2 := if lifetime >= LV10_MIN then InsertIgnore(InsertIgnore(t1, user, LV10_CODES[0]), user, LV10_CODES[1]) else t1;
      var t3 := if lifetime >= LV100_MIN then InsertIgnore(InsertIgnore(t2, user, LV100_CODES[0]), user, LV100_CODES[1]) else t2;
      SeedTierCoupons(t, user, lifetime) == t3
  {
    var a := if lifetime == 0 then [WELCOME_CODE] else [];
    var b := if lifetime >= LV10_MIN then LV10_CODES else [];
    var c := if lifetime >= LV100_MIN then LV100_CODES else [];
    InsertAllIgnoreAppend(t, user, a + b, c);
    InsertAllIgnoreAppend(t, user, a, b);
    assert SeedCodes(lifetime) == a + b + c;
    var t1 := InsertAllIgnore(t, user, a);
    assert [WELCOME_CODE][..0] == [];
    assert t1 == if lifetime == 0 then InsertIgnore(t, user, WELCOME_CODE) else t;
    TwoCodes(t1, user, b);
    TwoCodes(InsertAllIgnore(t1, user, b), user, c);
  }

  lemma TwoCodes(t: Tables, user: UserId, codes: seq<string>)
    requires |codes| == 0 || |codes| == 2
    ensures InsertAllIgnore(t, user, codes) == if codes == [] then t else InsertIgnore(InsertIgnore(t, user, codes[0]), user, codes[1])
  {
    if codes != [] {
      var one := codes[..1];
      assert one[..0] == [];
      assert InsertAllIgnore(t, user, one) == InsertIgnore(t, user, codes[0]);
      assert codes[..|codes| - 1] == one;
    }
  }

  /** A coupon as the coupon list shows it: the user's row joined with its type. */
  datatype CouponRow = CouponRow(id: nat, code: string, title: string, kind: CouponKind, amount: Option<nat>, expiresAt: Option<Time>, usedOrderId: Option<nat>)

  predicate OwnTypedCoupon(user: UserId, types: map<string, CouponType>, c: UserCoupon) {
    c.user == user && c.code in types
  }

  /** The user's coupons whose type exists, in table order: the rows the join keeps. */
  function OwnTyped(coupons: seq<UserCoupon>, types: map<string, CouponType>, user: UserId): (r: seq<UserCoupon>)
    ensures forall i | 0 <= i < |r| :: r[i].code in types
  {
    Seqs.Filter(coupons, c => OwnTypedCoupon(user, types, c))
  }

  /** `SELECT ... FROM user_coupons JOIN coupon_types ... WHERE user_id = user ORDER BY id DESC`. */
  function CouponList(coupons: seq<UserCoupon>, types: map<string, CouponType>, user: UserId): (r: seq<CouponRow>)
    ensures var own := OwnTyped(coupons, types, user);
      |r| == |own| && forall i | 0 <= i < |r| :: var c := own[|own| - 1 - i];
        r[i] == CouponRow(c.id, c.code, types[c.code].title, types[c.code].kind, types[c.code].amount, c.expiresAt, c.usedOrderId)
  {
    var own := Seqs.Reverse(OwnTyped(coupons, types, user));
    seq(|own|, i requires 0 <= i < |own| => CouponRow(own[i].id, own[i].code, types[own[i].code].title, types[own[i].code].kind, types[own[i].code].amount, own[i].expiresAt, own[i].usedOrderId))
  }

  /** The list shows every typed coupon of the user, newest first. */
  lemma CouponListOrdered(coupons: seq<UserCoupon>, types: map<string, CouponType>, user: UserId)
    requires Seqs.Ordered(coupons, CouponIdLt)
    ensures var r := CouponList(coupons, types, user);
      && (forall i, j | 0 <= i < j < |r| :: r[i].id > r[j].id)
      && (forall k | 0 <= k < |coupons| && OwnTypedCoupon(user, types, coupons[k]) :: exists i | 0 <= i < |r| :: r[i].id == coupons[k].id)
  {
    CouponListNewestFirst(coupons, types, user);
    CouponListAll(coupons, types, user);
  }

  lemma CouponListNewestFirst(coupons: seq<UserCoupon>, types: map<string, CouponType>, user: UserId)
    requires Seqs.Ordered(coupons, CouponIdLt)
    ensures var r := CouponList(coupons, types, user);
      forall i, j | 0 <= i < j < |r| :: r[i].id > r[j].id
  {
    var own := OwnTyped(coupons, types, user);
    OwnTypedOrdered(coupons, types, user);
    var rev := Seqs.Reverse(own);
    Seqs.ReverseOrdered(own, CouponIdLt);
    var r := CouponList(coupons, types, user);
    assert |r| == |rev| && forall i | 0 <= i < |r| :: r[i].id == rev[i].id;
    forall i, j | 0 <= i < j < |r| ensures r[i].id > r[j].id {
      assert CouponIdLt(rev[j], rev[i]);
    }
  }

  lemma OwnTypedOrdered(coupons: seq<UserCoupon>, types: map<string, CouponType>, user: UserId)
    requires Seqs.Ordered(coupons, CouponIdLt)
    ensures Seqs.Ordered(OwnTyped(coupons, types, user), CouponIdLt)
  {
    Seqs.FilterKeepsOrdered(coupons, c => OwnTypedCoupon(user, types, c), CouponIdLt);
  }

  lemma CouponListAll(coupons: seq<UserCoupon>, types: map<string, CouponType>, user: UserId)
    ensures var r := CouponList(coupons, types, user);
      forall k | 0 <= k < |coupons| && OwnTypedCoupon(user, types, coupons[k]) :: exists i | 0 <= i < |r| :: r[i].id == coupons[k].id
  {
    var own := OwnTyped(coupons, types, user);
    var r := CouponList(coupons, types, user);
    forall k | 0 <= k < |coupons| && OwnTypedCoupon(user, types, coupons[k]) ensures exists i | 0 <= i < |r| :: r[i].id == coupons[k].id {
      assert coupons[k] in own;
      var m :| 0 <= m < |own| && own[m] == coupons[k];
      assert r[|own| - 1 - m].id == coupons[k].id;
    }
  }
}
