/** What the browser pages share: the coupon record the pages receive from
    `/api/coupons/me`, the availability and priority rules, the membership tier
    table, and the lifetime sum over order statuses. The same expressions are
    written out separately in MyPage.js, membership.js and coupon.js; they are
    defined once here. */
module ClientCommon {
  import opened Wrappers
  import opened Text
  import Seqs
  import Shop

  /** A timestamp, in milliseconds. */
  type Time = int

  // ---------------------------------------------------------------- coupons

  /** A coupon as the pages receive it; a missing `code` or label is the empty string. */
  datatype Coupon = Coupon(code: string, title: string, expiresAt: Option<Time>, usedOrderId: Option<int>)

  /** A coupon is used when its order id is set and not 0 (a truthy id). */
  predicate Used(c: Coupon) {
    c.usedOrderId.Some? && c.usedOrderId.value != 0
  }

  /** `isAvailable` / `isAvail`: unused, and either no expiry or an expiry still ahead of `now`. */
  predicate IsAvailable(c: Coupon, now: Time) {
    !Used(c) && (c.expiresAt.None? || c.expiresAt.value > now)
  }

  /** Some coupon of the list is available. */
  predicate HasAvailable(cs: seq<Coupon>, now: Time) {
    exists i | 0 <= i < |cs| :: IsAvailable(cs[i], now)
  }

  /** `IsAvailable` at `now`, as the test a filter applies. */
  function AvailableAt(now: Time): Coupon -> bool {
    c => IsAvailable(c, now)
  }

  /** The available coupons, in their original order. */
  function Available(cs: seq<Coupon>, now: Time): (r: seq<Coupon>)
    ensures |r| <= |cs|
    ensures forall c | c in r :: c in cs && IsAvailable(c, now)
    ensures forall i | 0 <= i < |cs| && IsAvailable(cs[i], now) :: cs[i] in r
    ensures r == [] <==> !HasAvailable(cs, now)
    ensures r == Seqs.Filter(cs, AvailableAt(now))
  {
    if cs == [] then []
    else
      var rest := Available(cs[..|cs| - 1], now);
      var c := cs[|cs| - 1];
      assert forall i | 0 <= i < |cs| - 1 :: cs[..|cs| - 1][i] == cs[i];
      Seqs.FilterLast(cs, AvailableAt(now));
      assert AvailableAt(now)(c) == IsAvailable(c, now);
      if IsAvailable(c, now) then rest + [c] else rest
  }

  const LV100_PREFIX: string := "M_LV100"
  const LV10_PREFIX: string := "M_LV10"

  /** `codePriority` / `priority`: the tier a coupon code belongs to, by prefix.
      The LV100 prefix is checked first because it also starts with the LV10 prefix. */
  function CodePriority(code: string): (p: int)
    ensures 1 <= p <= 3
    ensures p == 3 <==> LV100_PREFIX <= code
    ensures p >= 2 <==> LV10_PREFIX <= code
  {
    if LV100_PREFIX <= code then
      assert code[..|LV10_PREFIX|] == LV100_PREFIX[..|LV10_PREFIX|];
      3
    else if LV10_PREFIX <= code then 2
    else 1
  }

  /** The sort key of the coupon lists. */
  function Prio(c: Coupon): int {
    CodePriority(c.code)
  }

  /** The codes the server issues land in the tier they are named after. */
  lemma ServerCodesPriority()
    ensures forall k | 0 <= k < |Shop.LV100_CODES| :: CodePriority(Shop.LV100_CODES[k]) == 3
    ensures forall k | 0 <= k < |Shop.LV10_CODES| :: CodePriority(Shop.LV10_CODES[k]) == 2
    ensures CodePriority(Shop.WELCOME_CODE) == 1
  {
    assert LV100_PREFIX <= Shop.LV100_CODES[0] && LV100_PREFIX <= Shop.LV100_CODES[1];
    assert LV10_PREFIX <= Shop.LV10_CODES[0] && LV10_PREFIX <= Shop.LV10_CODES[1];
    assert Shop.LV10_CODES[0][6] != LV100_PREFIX[6] && Shop.LV10_CODES[1][6] != LV100_PREFIX[6];
    assert Shop.WELCOME_CODE[5] != LV10_PREFIX[5];
  }

  // ---------------------------------------------------------------- tiers

  datatype Tier = Tier(level: Shop.Level, min: int)

  /** `TIERS`, highest first. */
  const TIERS: seq<Tier> := [Tier(Shop.LV100, 1_000_000), Tier(Shop.LV10, 100_000), Tier(Shop.LV1, 0)]

  /** The index of the first tier from position `from` on whose minimum `n` reaches. */
  function FindTier(tiers: seq<Tier>, n: int, from: nat): (r: Option<nat>)
    requires from <= |tiers|
    ensures r.Some? ==> from <= r.value < |tiers| && n >= tiers[r.value].min
    ensures forall k | from <= k < |tiers| && (r.None? || k < r.value) :: n < tiers[k].min
    decreases |tiers| - from
  {
    if from == |tiers| then None
    else if n >= tiers[from].min then Some(from)
    else FindTier(tiers, n, from + 1)
  }

  /** `decideLevel`: the level of the first tier, highest first, whose minimum `n`
      reaches; `None` stands for the `TypeError` that `find` returning
      `undefined` raises for a negative `n`. It agrees with the server's rule. */
  function ClientDecideLevel(n: int): (r: Option<Shop.Level>)
    ensures r.None? <==> n < 0
    ensures r.Some? ==> r.value == Shop.DecideLevel(n)
  {
    var k := FindTier(TIERS, n, 0);
    if k.Some? then Some(TIERS[k.value].level) else None
  }

  /** What `nextTierInfo` and `nextTier` return: the next level, the amount
      still to spend, and that level's minimum. */
  datatype NextInfo = NextInfo(nextLevel: Option<Shop.Level>, remain: int, nextMin: Option<int>)

  predicate AboveMin(n: int, t: Tier) {
    n < t.min
  }

  function MinKey(t: Tier): int {
    -t.min
  }

  /** The tiers whose minimum is above `n`, sorted by ascending minimum (a
      stable sort). */
  function AboveSorted(tiers: seq<Tier>, n: int): seq<Tier> {
    Seqs.SortDesc(Seqs.Filter(tiers, t => AboveMin(n, t)), MinKey)
  }

  /** The first of the tiers above `n`: the lowest tier still above `n`, or
      nothing when `n` has reached the top. */
  function NextTier(n: int): NextInfo {
    var h := AboveSorted(TIERS, n);
    if h == [] then NextInfo(None, 0, None)
    else NextInfo(Some(h[0].level), h[0].min - n, Some(h[0].min))
  }

  /** For any table, the sorted tiers above `n` are empty exactly when no
      minimum is above `n`, and otherwise start with a tier of the table whose
      minimum is the smallest of those above `n`. */
  lemma AboveSortedHead(tiers: seq<Tier>, n: int)
    ensures var h := AboveSorted(tiers, n);
      && (h == [] <==> forall k | 0 <= k < |tiers| :: tiers[k].min <= n)
      && (h != [] ==>
            && h[0] in tiers && n < h[0].min
            && forall k | 0 <= k < |tiers| && n < tiers[k].min :: h[0].min <= tiers[k].min)
  {
    var p := t => AboveMin(n, t);
    var above := Seqs.Filter(tiers, p);
    var h := Seqs.SortDesc(above, MinKey);
    assert h == AboveSorted(tiers, n);
    if exists k | 0 <= k < |tiers| :: n < tiers[k].min {
      var k0 :| 0 <= k0 < |tiers| && n < tiers[k0].min;
      assert p(tiers[k0]);
      Seqs.SortDescHeadIsMax(above, MinKey, tiers[k0]);
      assert h[0] in above;
      forall k | 0 <= k < |tiers| && n < tiers[k].min ensures h[0].min <= tiers[k].min {
        assert p(tiers[k]);
        Seqs.SortDescHeadIsMax(above, MinKey, tiers[k]);
      }
    } else {
      Seqs.FilterNone(tiers, p);
    }
  }

  /** The top minimum is a million, and no tier's minimum is above it. */
  lemma TiersTop()
    ensures |TIERS| == 3 && TIERS[0].min == 1_000_000
    ensures forall k | 0 <= k < |TIERS| :: TIERS[k].min <= 1_000_000
  {
  }

  /** There is a next tier exactly below the top threshold; it is the smallest
      threshold above `n`, so the remaining amount is positive, and the
      minimum reported is the amount plus what remains. At the top nothing
      remains and no minimum is reported. */
  lemma NextTierIsSmallestAbove(n: int)
    ensures var r := NextTier(n);
      && (r.nextLevel.None? <==> n >= 1_000_000)
      && (r.nextLevel.None? ==> r.remain == 0 && r.nextMin.None?)
      && (r.nextLevel.Some? ==> r.nextMin == Some(n + r.remain))
      && (r.nextLevel.Some? ==>
            && r.remain > 0
            && Tier(r.nextLevel.value, n + r.remain) in TIERS
            && forall k | 0 <= k < |TIERS| && n < TIERS[k].min :: n + r.remain <= TIERS[k].min)
  {
    var h := AboveSorted(TIERS, n);
    if n < 1_000_000 {
      assert h != [] && h[0] in TIERS && n < h[0].min
        && forall k | 0 <= k < |TIERS| && n < TIERS[k].min :: h[0].min <= TIERS[k].min
      by {
        AboveSortedHead(TIERS, n);
        assert n < TIERS[0].min;
      }
      assert Tier(h[0].level, h[0].min) == h[0];
    } else {
      assert h == [] by {
        AboveSortedHead(TIERS, n);
        TiersTop();
      }
    }
  }

  /** Below the top, the next tier is the one right above the current level. */
  lemma NextTierFollowsLevel(n: int)
    requires 0 <= n < 1_000_000
    ensures NextTier(n).nextLevel.Some?
    ensures Shop.Rank(NextTier(n).nextLevel.value) == Shop.Rank(Shop.DecideLevel(n)) + 1
  {
    NextTierIsSmallestAbove(n);
    var r := NextTier(n);
    if n >= 100_000 {
      assert n < TIERS[0].min;
    } else {
      assert n < TIERS[1].min;
    }
  }

  // ---------------------------------------------------------------- lifetime on the pages

  /** An order as the pages receive it; a missing status is the empty string. */
  datatype ClientOrder = ClientOrder(status: string, totalPrice: Option<int>)

  /** The statuses the server counts towards lifetime spend. */
  const SERVER_STATUSES: set<string> := {"CREATED", "PAID", "FULFILLED"}
  /** The statuses My Page counts: the server's, and `COMPLETED`. */
  const MYPAGE_STATUSES: set<string> := {"CREATED", "PAID", "FULFILLED", "COMPLETED"}

  /** An order's total when its status, upper-cased, is one of `statuses`, and 0
      otherwise; a missing total counts as 0. */
  function Counted(o: ClientOrder, statuses: set<string>): int {
    if Upper(o.status) in statuses then o.totalPrice.GetOr(0) else 0
  }

  /** The sum of the counted totals, as the pages compute lifetime spend. */
  function StatusSum(orders: seq<ClientOrder>, statuses: set<string>): int {
    if orders == [] then 0
    else StatusSum(orders[..|orders| - 1], statuses) + Counted(orders[|orders| - 1], statuses)
  }

  lemma {:induction false} StatusSumCons(o: ClientOrder, rest: seq<ClientOrder>, statuses: set<string>)
    ensures StatusSum([o] + rest, statuses) == Counted(o, statuses) + StatusSum(rest, statuses)
    decreases |rest|
  {
    if rest != [] {
      var s := [o] + rest;
      assert s[..|s| - 1] == [o] + rest[..|rest| - 1];
      StatusSumCons(o, rest[..|rest| - 1], statuses);
    }
  }

  /** Counting more statuses never lowers the sum of non-negative totals. */
  lemma {:induction false} StatusSumMonotone(orders: seq<ClientOrder>, fewer: set<string>, more: set<string>)
    requires fewer <= more
    requires forall i | 0 <= i < |orders| :: orders[i].totalPrice.GetOr(0) >= 0
    ensures StatusSum(orders, fewer) <= StatusSum(orders, more)
  {
    if orders != [] {
      StatusSumMonotone(orders[..|orders| - 1], fewer, more);
    }
  }

  /** My Page's lifetime differs from the server's as soon as an order is
      `COMPLETED`: one such order of 5000 counts there and not on the server. */
  lemma CompletedCountsOnlyOnMyPage()
    ensures var os := [ClientOrder("completed", Some(5000))];
      StatusSum(os, MYPAGE_STATUSES) == 5000 && StatusSum(os, SERVER_STATUSES) == 0
  {
    var os := [ClientOrder("completed", Some(5000))];
    assert Upper("completed") == "COMPLETED";
    assert os[..0] == [];
  }

  /** `theme` on the pages: Maltiz for a female member, Retriever otherwise. */
  datatype Theme = Maltiz | Retriever
}
