/** The membership page: its theme, the decision to ask the server for coupons,
    the one coupon it shows, and the lifetime spend it falls back on when the
    orders summary carries none. */
module Membership {
  import opened Wrappers
  import opened Text
  import Seqs
  import opened ClientCommon
  import Shop

  /** The page theme of a member: Maltiz exactly when the gender, lower-cased, is `female`. */
  function ThemeFromGender(g: string): (r: Theme)
    ensures r == Maltiz <==> Lower(g) == "female"
  {
    if Lower(g) == "female" then Maltiz else Retriever
  }

  /** Some available coupon of the list has a code starting with `prefix`. */
  predicate HasAvailableWithPrefix(cs: seq<Coupon>, now: Time, prefix: string) {
    exists i | 0 <= i < |cs| :: IsAvailable(cs[i], now) && prefix <= cs[i].code
  }

  /** The tier check: a tier the lifetime spend has reached with no available
      coupon of that tier (by code prefix). */
  predicate NeedTierClaim(lifetime: int, cs: seq<Coupon>, now: Time) {
    || (lifetime >= 100_000 && !HasAvailableWithPrefix(cs, now, LV10_PREFIX))
    || (lifetime >= 1_000_000 && !HasAvailableWithPrefix(cs, now, LV100_PREFIX))
  }

  /** Fetches the coupon list, asks the server to claim when the tier check
      fails and fetches again, then asks once more and fetches again when no
      coupon is available. The `k`-th fetch answers `replies(k)`. */
  method EnsureCoupons(lifetime: int, now: Time, replies: nat -> seq<Coupon>) returns (cs: seq<Coupon>, claims: nat)
    ensures claims <= 2 && cs == replies(claims)
    ensures claims >= 1 <==> NeedTierClaim(lifetime, replies(0), now) || !HasAvailable(replies(0), now)
    ensures var tier := if NeedTierClaim(lifetime, replies(0), now) then 1 else 0;
      claims == tier + (if HasAvailable(replies(tier), now) then 0 else 1)
    ensures claims == 0 ==> HasAvailable(cs, now)
    ensures !HasAvailable(cs, now) ==> claims >= 1 && !HasAvailable(replies(claims - 1), now)
  {
    claims := 0;
    cs := replies(claims);
    var needLv10 := lifetime >= 100_000 && !HasAvailableWithPrefix(cs, now, LV10_PREFIX);
    var needLv100 := lifetime >= 1_000_000 && !HasAvailableWithPrefix(cs, now, LV100_PREFIX);
    if needLv10 || needLv100 {
      claims := claims + 1;
      cs := replies(claims);
    }
    if !HasAvailable(cs, now) {
      claims := claims + 1;
      cs := replies(claims);
    }
  }

  /** The LV10 check is a prefix test that LV100 codes pass too: an available
      LV100 coupon alone satisfies both tier checks. */
  lemma Lv100CouponPassesLv10Check(cs: seq<Coupon>, now: Time)
    requires HasAvailableWithPrefix(cs, now, LV100_PREFIX)
    ensures HasAvailableWithPrefix(cs, now, LV10_PREFIX)
    ensures !NeedTierClaim(2_000_000, cs, now)
  {
    var i :| 0 <= i < |cs| && IsAvailable(cs[i], now) && LV100_PREFIX <= cs[i].code;
    assert CodePriority(cs[i].code) == 3;
  }

  /** The coupon the page shows: the first of the available coupons sorted by
      descending priority, or none (the page then says there are no coupons). */
  function ShownCoupon(cs: seq<Coupon>, now: Time): (r: Option<Coupon>)
    ensures r.None? <==> !HasAvailable(cs, now)
    ensures r.Some? ==> r.value in cs && IsAvailable(r.value, now)
  {
    var avail := Available(cs, now);
    var sorted := Seqs.SortDesc(avail, Prio);
    if sorted == [] then None
    else
      assert sorted[0] in multiset(avail);
      Some(sorted[0])
  }

  /** No available coupon has a higher priority than the one shown. */
  lemma ShownCouponIsBest(cs: seq<Coupon>, now: Time, i: nat)
    requires i < |cs| && IsAvailable(cs[i], now)
    ensures ShownCoupon(cs, now).Some?
    ensures Prio(cs[i]) <= Prio(ShownCoupon(cs, now).value)
  {
    var avail := Available(cs, now);
    assert cs[i] in avail;
    Seqs.SortDescHeadIsMax(avail, Prio, cs[i]);
  }

  // ---------------------------------------------------------------- lifetime fallback

  /** The answer of `/api/orders/me` as the page reads it: a failure (an error
      status or a body that is not JSON), or the lifetime when it is a number,
      the level (empty when missing) and the order list when it is an array. */
  datatype OrdersReply = NotOk | Reply(lifetime: Option<int>, level: string, orders: Option<seq<ClientOrder>>)

  datatype MemberSpend = MemberSpend(lifetime: int, level: string)

  /** Uses the server's lifetime and level when both are there; otherwise sums
      the orders itself and derives the level. `None` is the page's `null`,
      also for the exception the level lookup raises on a negative sum. */
  function RecomputeLifetime(reply: OrdersReply): (r: Option<MemberSpend>)
    ensures reply.NotOk? ==> r.None?
    ensures reply.Reply? && reply.lifetime.Some? && reply.level != "" ==> r == Some(MemberSpend(reply.lifetime.value, reply.level))
    ensures reply.Reply? && !(reply.lifetime.Some? && reply.level != "") ==>
      var life := StatusSum(reply.orders.GetOr([]), SERVER_STATUSES);
      (r.Some? <==> life >= 0) && (r.Some? ==> r.value == MemberSpend(life, Shop.LevelName(Shop.DecideLevel(life))))
  {
    match reply
    case NotOk => None
    case Reply(lifetime, level, orders) =>
      if lifetime.Some? && level != "" then Some(MemberSpend(lifetime.value, level))
      else
        var life := StatusSum(orders.GetOr([]), SERVER_STATUSES);
        var lv := ClientDecideLevel(life);
        if lv.Some? then Some(MemberSpend(life, Shop.LevelName(lv.value))) else None
  }

  /** The orders of the summary as the page receives them. */
  function ToClientOrders(os: seq<Shop.Order>): (r: seq<ClientOrder>)
    ensures |r| == |os|
    ensures forall i | 0 <= i < |os| :: r[i] == ClientOrder(os[i].status, Some(os[i].totalPrice))
  {
    seq(|os|, i requires 0 <= i < |os| => ToClient(os[i]))
  }

  function ToClient(o: Shop.Order): ClientOrder {
    ClientOrder(o.status, Some(o.totalPrice))
  }

  lemma ToClientCons(o: Shop.Order, rest: seq<Shop.Order>)
    ensures ToClientOrders([o] + rest) == [ToClient(o)] + ToClientOrders(rest)
  {
  }

  lemma CountedEligible(o: Shop.Order, user: Shop.UserId)
    requires o.user == user
    ensures Counted(ToClient(o), SERVER_STATUSES) == Shop.EligibleTotal(o, user)
  {
  }

  lemma {:induction false} ClientSumOfUserOrders(orders: seq<Shop.Order>, user: Shop.UserId)
    ensures StatusSum(ToClientOrders(Shop.UserOrdersDesc(orders, user)), SERVER_STATUSES) == Shop.Lifetime(orders, user)
  {
    if orders != [] {
      var init, o := orders[..|orders| - 1], orders[|orders| - 1];
      assert orders == init + [o];
      ClientSumOfUserOrders(init, user);
      Shop.UserOrdersDescSnoc(init, o, user);
      Shop.LifetimeAppend(init, o, user);
      var desc := Shop.UserOrdersDesc(init, user);
      if o.user == user {
        ToClientCons(o, desc);
        StatusSumCons(ToClient(o), ToClientOrders(desc), SERVER_STATUSES);
        CountedEligible(o, user);
      } else {
        assert [] + desc == desc;
      }
    }
  }

  /** Summing the listed orders on the page gives the server's own lifetime
      spend and level, so the fallback agrees with the server. */
  lemma FallbackAgreesWithServer(t: Shop.Tables, user: Shop.UserId)
    requires forall i | 0 <= i < |t.orders| :: t.orders[i].totalPrice >= 0
    ensures var s := Shop.OrdersMe(t, user);
      RecomputeLifetime(Reply(None, "", Some(ToClientOrders(s.orders)))) == Some(MemberSpend(s.lifetime, Shop.LevelName(s.level)))
  {
    ClientSumOfUserOrders(t.orders, user);
  }
}
