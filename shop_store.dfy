/** The shop API's handlers over its tables. Each handler either answers
    with an error code and leaves every table as it was, or applies all its
    writes; the session's user id is `session`, None when nobody is logged in. */
module ShopStore {
  import opened Wrappers
  import opened Shop
  import Seqs

  datatype PreviewAnswer = PreviewAnswer(breakdown: Breakdown, applied: Option<Applied>)

  datatype DirectReceipt = DirectReceipt(orderId: nat, total: nat)

  /** The coupon's effect on a cart total, step by step as the preview and the checkout compute it. */
  method Price(subtotal: nat, baseFee: nat, coupon: Option<Applied>) returns (b: Breakdown)
    ensures b == Settle(subtotal, baseFee, coupon)
  {
    var shippingFee := baseFee;
    var discount: nat := 0;
    if coupon.Some? {
      if coupon.value.kind == ShippingKind {
        shippingFee := 0;
      } else if coupon.value.kind == AmountKind {
        discount := MinNat(subtotal, coupon.value.amount.GetOr(0));
      }
    }
    var net := subtotal - discount;
    var total := (if net < 0 then 0 else net) + shippingFee;
    b := Breakdown(subtotal, discount, shippingFee, total);
  }

  /** The validation loop of the direct purchase: each item in request order
      must name a product, carry a quantity of at least one and, with the
      quantities requested before it for the same product, stay within stock;
      the first bad item ends the loop with its error. */
  method ValidateDirect(products: map<ProductId, Product>, list: seq<DirectItem>) returns (r: Result<nat, ShopError>)
    ensures r == DirectTotal(products, list)
  {
    var total: nat := 0;
    var i := 0;
    while i < |list|
      invariant 0 <= i <= |list|
      invariant DirectTotal(products, list[..i]) == Ok(total)
    {
      var it := list[i];
      assert list[..i + 1][..i] == list[..i];
      if it.productId !in products {
        DirectTotalPrefixErr(products, list, i + 1);
        return Err(ProductNotFound);
      }
      if it.quantity.None? || it.quantity.value < 1 {
        DirectTotalPrefixErr(products, list, i + 1);
        return Err(InvalidQty);
      }
      var p := products[it.productId];
      if Requested(list[..i], it.productId) + it.quantity.value > p.stock {
        DirectTotalPrefixErr(products, list, i + 1);
        return Err(OutOfStock);
      }
      total := total + p.price * it.quantity.value;
      i := i + 1;
    }
    assert list[..|list|] == list;
    return Ok(total);
  }

  class Store {
    var products: map<ProductId, Product>
    var cart: seq<CartItem>
    var couponTypes: map<string, CouponType>
    var userCoupons: seq<UserCoupon>
    var orders: seq<Order>
    var orderItems: seq<OrderItem>
    var nextCartId: nat
    var nextCouponId: nat
    var nextOrderId: nat
    var nextOrderItemId: nat

    /** The tables as a value. */
    function Snapshot(): Tables
      reads this
    {
      Tables(products, cart, couponTypes, userCoupons, orders, orderItems, nextCartId, nextCouponId, nextOrderId, nextOrderItemId)
    }

    ghost predicate Valid()
      reads this
    {
      Shop.Valid(Snapshot())
    }

    constructor (init: Tables)
      requires Shop.Valid(init)
      ensures Snapshot() == init && Valid()
    {
      products := init.products;
      cart := init.cart;
      couponTypes := init.couponTypes;
      userCoupons := init.userCoupons;
      orders := init.orders;
      orderItems := init.orderItems;
      nextCartId := init.nextCartId;
      nextCouponId := init.nextCouponId;
      nextOrderId := init.nextOrderId;
      nextOrderItemId := init.nextOrderItemId;
    }

    /** POST /cart/add: INVALID_INPUT for a missing product id or a quantity
        below 1, PRODUCT_NOT_FOUND, else the upsert capped at the stock. */
    method CartAdd(session: Option<UserId>, productId: Option<int>, quantity: Option<int>) returns (r: Result<(), ShopError>)
      requires Valid()
      modifies this
      ensures Valid()
      ensures session.None? ==> r == Err(LoginRequired)
      ensures session.Some? && (productId.None? || productId == Some(0) || quantity.None? || quantity.value < 1) ==> r == Err(InvalidInput)
      ensures session.Some? && productId.Some? && productId.value != 0 && quantity.Some? && quantity.value >= 1 && productId.value !in old(products) ==> r == Err(ProductNotFound)
      ensures r.Err? ==> Snapshot() == old(Snapshot())
      ensures r.Ok? <==> session.Some? && productId.Some? && productId.value != 0 && quantity.Some? && quantity.value >= 1 && productId.value in old(products)
      ensures r.Ok? ==> Snapshot() == UpsertCartLine(old(Snapshot()), session.value, productId.value, quantity.value, old(products)[productId.value].stock)
    {
      if session.None? {
        return Err(LoginRequired);
      }
      if productId.None? || productId == Some(0) || quantity.None? || quantity.value < 1 {
        return Err(InvalidInput);
      }
      var user, pid, q := session.value, productId.value, quantity.value;
      if pid !in products {
        return Err(ProductNotFound);
      }
      var stock := products[pid].stock;
      ghost var after := UpsertCartLine(Snapshot(), user, pid, q, stock);
      assert Shop.Valid(after) by {
        UpsertCartLineValid(Snapshot(), user, pid, q, stock);
      }
      var found := FindCartLine(cart, user, pid, 0);
      if found.Some? {
        var i := found.value;
        cart := cart[i := cart[i].(quantity := MinNat(cart[i].quantity + q, stock))];
      } else {
        cart := cart + [CartItem(nextCartId, user, pid, q)];
        nextCartId := nextCartId + 1;
      }
      assert Snapshot() == after;
      return Ok(());
    }

    /** POST /cart/update: INVALID_INPUT for a missing product id or a
        missing or negative quantity; 0 deletes the line without looking at
        the product; otherwise PRODUCT_NOT_FOUND, OUT_OF_STOCK above the
        stock, else the quantity is set. */
    method CartUpdate(session: Option<UserId>, productId: Option<int>, quantity: Option<int>) returns (r: Result<(), ShopError>)
      requires Valid()
      modifies this
      ensures Valid()
      ensures session.None? ==> r == Err(LoginRequired)
      ensures session.Some? && (productId.None? || productId == Some(0) || quantity.None? || quantity.value < 0) ==> r == Err(InvalidInput)
      ensures r.Err? ==> Snapshot() == old(Snapshot())
      ensures r.Ok? ==> session.Some? && productId.Some? && quantity.Some? && quantity.value >= 0
      ensures session.Some? && productId.Some? && productId.value != 0 && quantity == Some(0) ==> r.Ok?
      ensures r.Ok? && quantity.value == 0 ==> Snapshot() == old(Snapshot()).(cart := DeleteCartLine(old(cart), session.value, productId.value))
      ensures session.Some? && productId.Some? && productId.value != 0 && quantity.Some? && quantity.value > 0 ==>
        && (productId.value !in old(products) ==> r == Err(ProductNotFound))
        && (productId.value in old(products) && quantity.value > old(products)[productId.value].stock ==> r == Err(OutOfStock))
        && (productId.value in old(products) && quantity.value <= old(products)[productId.value].stock ==>
              r == Ok(()) && Snapshot() == old(Snapshot()).(cart := SetCartQuantity(old(cart), session.value, productId.value, quantity.value)))
    {
      if session.None? {
        return Err(LoginRequired);
      }
      if productId.None? || productId == Some(0) || quantity.None? || quantity.value < 0 {
        return Err(InvalidInput);
      }
      var user, pid, q := session.value, productId.value, quantity.value;
      if q == 0 {
        DeleteCartLineEffect(Snapshot(), user, pid, user, pid);
        cart := DeleteCartLine(cart, user, pid);
        return Ok(());
      }
      if pid !in products {
        return Err(ProductNotFound);
      }
      if q > products[pid].stock {
        return Err(OutOfStock);
      }
      SetCartQuantityEffect(Snapshot(), user, pid, q, user, pid);
      cart := SetCartQuantity(cart, user, pid, q);
      return Ok(());
    }

    /** DELETE /cart/:id: deletes the row with that id if it is the user's and
        answers ok. A non-numeric id is NaN, which the query text carries as the
        bare word `NaN`; MySQL rejects that statement, so the answer is an error
        and nothing changes. */
    method CartDelete(session: Option<UserId>, id: Option<int>) returns (r: Result<(), ShopError>)
      requires Valid()
      modifies this
      ensures Valid()
      ensures session.None? ==> r == Err(LoginRequired) && Snapshot() == old(Snapshot())
      ensures session.Some? && id.None? ==> r == Err(QueryFailed) && Snapshot() == old(Snapshot())
      ensures session.Some? && id.Some? ==> r == Ok(()) && Snapshot() == old(Snapshot()).(cart := DeleteCartItem(old(cart), session.value, id))
    {
      if session.None? {
        return Err(LoginRequired);
      }
      if id.None? {
        return Err(QueryFailed);
      }
      FilterCartValid(Snapshot(), c => KeepUnlessOwnRow(session.value, id, c));
      cart := DeleteCartItem(cart, session.value, id);
      return Ok(());
    }

    /** POST /checkout/preview: the settlement the checkout would make, with no write. */
    method Preview(session: Option<UserId>, code: string, now: Time) returns (r: Result<PreviewAnswer, ShopError>)
      ensures session.None? ==> r == Err(LoginRequired)
      ensures session.Some? ==> (r.Ok? <==> QuoteFor(Snapshot(), session.value, code, now).Ok?)
      ensures session.Some? && r.Err? ==> QuoteFor(Snapshot(), session.value, code, now) == Err(r.error)
      ensures r.Ok? ==> var q := QuoteFor(Snapshot(), session.value, code, now).value;
        && r.value == PreviewAnswer(q.breakdown, q.coupon)
        && CheckoutResult(Snapshot(), session, code, now) == Ok(Receipt(nextOrderId, r.value.breakdown, r.value.applied))
    {
      if session.None? {
        return Err(LoginRequired);
      }
      var quote := ComputeQuote(session.value, code, now);
      if quote.Err? {
        return Err(quote.error);
      }
      return Ok(PreviewAnswer(quote.value.breakdown, quote.value.coupon));
    }

    /** The settlement both the preview and the checkout compute: the user's
        cart lines and their subtotal (CART_EMPTY, PRODUCT_NOT_FOUND,
        OUT_OF_STOCK), the coupon (the coupon errors), then the breakdown. */
    method ComputeQuote(user: UserId, code: string, now: Time) returns (r: Result<Quote, ShopError>)
      ensures r == QuoteFor(Snapshot(), user, code, now)
    {
      var lines := UserLines(cart, products, user);
      var totals := ComputeCartSubtotal(lines);
      if totals.Err? {
        return Err(totals.error);
      }
      var coupon := GetValidCoupon(userCoupons, couponTypes, user, code, now);
      if coupon.Err? {
        return Err(coupon.error);
      }
      var b := Price(totals.value.subtotal, totals.value.shippingFee, coupon.value);
      return Ok(Quote(lines, b, coupon.value));
    }

    /** Inserts one order line per cart line and takes its quantity from the product's stock. */
    method InsertOrderLines(orderId: nat, lines: seq<Line>)
      modifies this
      ensures orderItems == old(orderItems) + Freeze(lines, orderId, old(nextOrderItemId))
      ensures nextOrderItemId == old(nextOrderItemId) + |lines|
      ensures products == DecrementAll(old(products), lines)
      ensures cart == old(cart) && couponTypes == old(couponTypes) && userCoupons == old(userCoupons) && orders == old(orders)
      ensures nextCartId == old(nextCartId) && nextCouponId == old(nextCouponId) && nextOrderId == old(nextOrderId)
    {
      var i := 0;
      while i < |lines|
        invariant 0 <= i <= |lines|
        invariant orderItems == old(orderItems) + Freeze(lines[..i], orderId, old(nextOrderItemId))
        invariant nextOrderItemId == old(nextOrderItemId) + i
        invariant products == DecrementAll(old(products), lines[..i])
        invariant cart == old(cart) && couponTypes == old(couponTypes) && userCoupons == old(userCoupons) && orders == old(orders)
        invariant nextCartId == old(nextCartId) && nextCouponId == old(nextCouponId) && nextOrderId == old(nextOrderId)
      {
        var l := lines[i];
        assert lines[..i + 1][..i] == lines[..i];
        orderItems := orderItems + [OrderItem(nextOrderItemId, orderId, l.product, l.price, l.quantity)];
        nextOrderItemId := nextOrderItemId + 1;
        if l.product in products {
          products := products[l.product := products[l.product].(stock := products[l.product].stock - l.quantity)];
        }
        i := i + 1;
      }
      assert lines[..|lines|] == lines;
    }

    /** Inserts the order with status CREATED, then its lines with their stock decrements. */
    method CreateOrder(user: UserId, total: nat, lines: seq<Line>, now: Time) returns (orderId: nat)
      modifies this
      ensures orderId == old(nextOrderId)
      ensures Snapshot() == Shop.InsertOrder(old(Snapshot()), user, total, lines, now)
    {
      orderId := nextOrderId;
      orders := orders + [Order(orderId, user, CREATED, total, now)];
      nextOrderId := nextOrderId + 1;
      InsertOrderLines(orderId, lines);
    }

    /** POST /checkout: the preview's settlement, then the order, its lines,
        the stock, the coupon and the cart, all or nothing. */
    method Checkout(session: Option<UserId>, code: string, now: Time) returns (r: Result<Receipt, ShopError>)
      requires Valid()
      modifies this
      ensures Valid()
      ensures r == CheckoutResult(old(Snapshot()), session, code, now)
      ensures r.Err? ==> Snapshot() == old(Snapshot())
      ensures r.Ok? ==> Snapshot() == CommitCart(old(Snapshot()), session.value, QuoteFor(old(Snapshot()), session.value, code, now).value, now)
    {
      if session.None? {
        return Err(LoginRequired);
      }
      var user := session.value;
      ghost var t0 := Snapshot();
      var quote := ComputeQuote(user, code, now);
      if quote.Err? {
        return Err(quote.error);
      }
      var q := quote.value;
      CheckoutValid(t0, user, code, now);
      var orderId := CreateOrder(user, q.breakdown.total, q.lines, now);
      ghost var t1 := Snapshot();
      if q.coupon.Some? {
        userCoupons := MarkUsed(userCoupons, q.coupon.value.userCouponId, orderId);
      }
      cart := ClearCart(cart, user);
      assert Snapshot() == t1.(userCoupons := userCoupons, cart := cart);
      return Ok(Receipt(orderId, q.breakdown, q.coupon));
    }

    /** POST /checkout/direct: INVALID_ITEMS for a missing or empty list, then
        each item in order (PRODUCT_NOT_FOUND, INVALID_QTY, OUT_OF_STOCK), then
        one order at Σ price × quantity with its lines; no shipping fee, no coupon. */
    method CheckoutDirect(session: Option<UserId>, items: Option<seq<DirectItem>>, now: Time) returns (r: Result<DirectReceipt, ShopError>)
      requires Valid()
      modifies this
      ensures Valid()
      ensures session.None? ==> r == Err(LoginRequired)
      ensures session.Some? && (items.None? || items.value == []) ==> r == Err(InvalidItems)
      ensures session.Some? && items.Some? && items.value != [] ==>
        match DirectTotal(old(products), items.value)
        case Err(e) => r == Err(e)
        case Ok(total) => r == Ok(DirectReceipt(old(nextOrderId), total))
      ensures r.Err? ==> Snapshot() == old(Snapshot())
      ensures r.Ok? ==> Snapshot() == Shop.InsertOrder(old(Snapshot()), session.value, r.value.total, DirectLines(old(products), items.value), now)
    {
      if session.None? {
        return Err(LoginRequired);
      }
      if items.None? || items.value == [] {
        return Err(InvalidItems);
      }
      var user, list := session.value, items.value;
      var v := ValidateDirect(products, list);
      if v.Err? {
        return Err(v.error);
      }
      var total := v.value;
      ghost var t0 := Snapshot();
      var lines := DirectLines(products, list);
      DirectValid(t0, user, list, now);

      var orderId := CreateOrder(user, total, lines, now);
      return Ok(DirectReceipt(orderId, total));
    }

    /** GET /orders/me: the user's orders newest first, their items, the lifetime spend and its level. */
    method OrdersMe(session: Option<UserId>) returns (r: Result<OrdersSummary, ShopError>)
      requires Valid()
      ensures session.None? ==> r == Err(LoginRequired)
      ensures session.Some? ==> r == Ok(Shop.OrdersMe(Snapshot(), session.value))
      ensures r.Ok? ==>
        && r.value.lifetime == Lifetime(orders, session.value)
        && r.value.level == DecideLevel(r.value.lifetime)
        && (forall i | 0 <= i < |r.value.orders| :: r.value.orders[i] in orders && r.value.orders[i].user == session.value)
        && (forall o | o in orders && o.user == session.value :: o in r.value.orders)
        && (forall i, j | 0 <= i < j < |r.value.orders| :: r.value.orders[i].id > r.value.orders[j].id)
        && (forall i, j | 0 <= i < j < |r.value.items| :: ItemLt(r.value.items[j], r.value.items[i]))
        && (forall i | 0 <= i < |r.value.items| :: r.value.items[i] in orderItems && r.value.items[i].product in products)
        && (forall i | 0 <= i < |r.value.items| :: r.value.items[i].orderId in (set o | o in r.value.orders :: o.id))
        && (forall it | it in orderItems && it.orderId in (set o | o in r.value.orders :: o.id) && it.product in products :: it in r.value.items)
    {
      if session.None? {
        return Err(LoginRequired);
      }
      var user := session.value;
      OrdersMeOrders(Snapshot(), user);
      OrdersMeItems(Snapshot(), user);
      return Ok(Shop.OrdersMe(Snapshot(), user));
    }

    /** `INSERT IGNORE` of one coupon row for the user. */
    method InsertIgnoreCoupon(user: UserId, code: string)
      modifies this
      ensures Snapshot() == InsertIgnore(old(Snapshot()), user, code)
    {
      if !HoldsCoupon(userCoupons, user, code) {
        userCoupons := userCoupons + [UserCoupon(nextCouponId, user, code, None, None)];
        nextCouponId := nextCouponId + 1;
      }
    }

    /** POST /membership/claim: the one-time welcome coupon. */
    method Claim(session: Option<UserId>) returns (r: Result<ClaimOutcome, ShopError>)
      requires Valid()
      modifies this
      ensures Valid()
      ensures session.None? ==> r == Err(LoginRequired) && Snapshot() == old(Snapshot())
      ensures session.Some? ==> r.Ok? && (Snapshot(), r.value) == ClaimWelcome(old(Snapshot()), session.value)
    {
      if session.None? {
        return Err(LoginRequired);
      }
      var user := session.value;
      if HoldsCoupon(userCoupons, user, WELCOME_CODE) {
        return Ok(AlreadyWelcomed);
      }
      var lifetime := Lifetime(orders, user);
      var level := DecideLevel(lifetime);
      var issued := [];
      if lifetime == 0 {
        InsertIgnoreValid(Snapshot(), user, WELCOME_CODE);
        InsertIgnoreCoupon(user, WELCOME_CODE);
        issued := [WELCOME_CODE];
      }
      return Ok(Claimed(lifetime, level, issued));
    }

    /** GET /coupons/me: seeds the coupons due for the lifetime spend, once per code, then lists the user's coupons newest first. */
    method CouponsMe(session: Option<UserId>) returns (r: Result<seq<CouponRow>, ShopError>)
      requires Valid()
      modifies this
      ensures Valid()
      ensures session.None? ==> r == Err(LoginRequired) && Snapshot() == old(Snapshot())
      ensures session.Some? ==>
        && Snapshot() == SeedTierCoupons(old(Snapshot()), session.value, Lifetime(old(orders), session.value))
        && r == Ok(CouponList(userCoupons, couponTypes, session.value))
    {
      if session.None? {
        return Err(LoginRequired);
      }
      var user := session.value;
      var lifetime := Lifetime(orders, user);
      ghost var t0 := Snapshot();
      SeedSteps(t0, user, lifetime);
      InsertAllIgnoreValid(t0, user, SeedCodes(lifetime));
      if lifetime == 0 {
        InsertIgnoreCoupon(user, WELCOME_CODE);
      }
      if lifetime >= LV10_MIN {
        InsertIgnoreCoupon(user, LV10_CODES[0]);
        InsertIgnoreCoupon(user, LV10_CODES[1]);
      }
      if lifetime >= LV100_MIN {
        InsertIgnoreCoupon(user, LV100_CODES[0]);
        InsertIgnoreCoupon(user, LV100_CODES[1]);
      }
      return Ok(CouponList(userCoupons, couponTypes, user));
    }

    /** POST /membership/resync: deletes the user's unused coupons whose level the spend no longer reaches; issues nothing. */
    method Resync(session: Option<UserId>) returns (r: Result<(int, Level), ShopError>)
      requires Valid()
      modifies this
      ensures Valid()
      ensures session.None? ==> r == Err(LoginRequired) && Snapshot() == old(Snapshot())
      ensures session.Some? ==>
        var lifetime := Lifetime(old(orders), session.value);
        && r == Ok((lifetime, DecideLevel(lifetime)))
        && Snapshot() == old(Snapshot()).(userCoupons := Shop.Resync(old(userCoupons), couponTypes, session.value, lifetime))
    {
      if session.None? {
        return Err(LoginRequired);
      }
      var user := session.value;
      var lifetime := Lifetime(orders, user);
      ResyncEffect(Snapshot(), user, lifetime);
      userCoupons := Shop.Resync(userCoupons, couponTypes, user, lifetime);
      return Ok((lifetime, DecideLevel(lifetime)));
    }
  }
}
