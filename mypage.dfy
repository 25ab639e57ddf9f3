/** My Page: HTML escaping, the arrangement of the coupon list, the grouping
    of order items under their orders, and the lifetime spend the page shows. */
module MyPage {
  import opened Wrappers
  import Seqs
  import opened ClientCommon
  import Shop

  // ---------------------------------------------------------------- escaping

  /** Every occurrence of `c` replaced by `rep`, left to right. */
  function ReplaceChar(s: string, c: char, rep: string): (r: string)
    ensures c !in rep ==> c !in r
    ensures forall d | d !in s && d !in rep :: d !in r
    ensures c !in s ==> r == s
  {
    if s == [] then [] else (if s[0] == c then rep else [s[0]]) + ReplaceChar(s[1..], c, rep)
  }

  lemma {:induction false} ReplaceCharAppend(a: string, b: string, c: char, rep: string)
    ensures ReplaceChar(a + b, c, rep) == ReplaceChar(a, c, rep) + ReplaceChar(b, c, rep)
  {
    if a == [] {
      assert a + b == b;
    } else {
      assert (a + b)[0] == a[0] && (a + b)[1..] == a[1..] + b;
      ReplaceCharAppend(a[1..], b, c, rep);
    }
  }

  /** The three replacements, ampersand first. */
  function Esc(s: string): string {
    ReplaceChar(ReplaceChar(ReplaceChar(s, '&', "&amp;"), '<', "&lt;"), '>', "&gt;")
  }

  /** The entity each character stands for in the output. */
  function EscChar(c: char): string {
    if c == '&' then "&amp;" else if c == '<' then "&lt;" else if c == '>' then "&gt;" else [c]
  }

  /** Each character of `s` replaced by its entity, independently. */
  function EscEach(s: string): string {
    if s == [] then [] else EscChar(s[0]) + EscEach(s[1..])
  }

  lemma EscAppend(a: string, b: string)
    ensures Esc(a + b) == Esc(a) + Esc(b)
  {
    var a1, b1 := ReplaceChar(a, '&', "&amp;"), ReplaceChar(b, '&', "&amp;");
    ReplaceCharAppend(a, b, '&', "&amp;");
    var a2, b2 := ReplaceChar(a1, '<', "&lt;"), ReplaceChar(b1, '<', "&lt;");
    ReplaceCharAppend(a1, b1, '<', "&lt;");
    ReplaceCharAppend(a2, b2, '>', "&gt;");
  }

  /** Because the ampersand is replaced first, the entities the later passes
      write are never escaped again: escaping is a per-character mapping. */
  lemma {:induction false} EscIsPerChar(s: string)
    ensures Esc(s) == EscEach(s)
  {
    if s != [] {
      assert s == [s[0]] + s[1..];
      EscAppend([s[0]], s[1..]);
      EscIsPerChar(s[1..]);
      EscSingle(s[0]);
    }
  }

  lemma EscSingle(c: char)
    ensures Esc([c]) == EscChar(c)
  {
    ReplaceOne(c, '&', "&amp;");
    if c == '&' {
      assert '<' !in "&amp;" && '>' !in "&amp;";
    } else {
      ReplaceOne(c, '<', "&lt;");
      if c == '<' {
        assert '>' !in "&lt;";
      } else {
        ReplaceOne(c, '>', "&gt;");
      }
    }
  }

  lemma ReplaceOne(c: char, d: char, rep: string)
    ensures ReplaceChar([c], d, rep) == if c == d then rep else [c]
  {
    assert [c][1..] == [];
  }

  /** The escaped text holds no raw angle bracket. */
  lemma EscHasNoAngleBrackets(s: string)
    ensures '<' !in Esc(s) && '>' !in Esc(s)
  {
    var s1 := ReplaceChar(s, '&', "&amp;");
    var s2 := ReplaceChar(s1, '<', "&lt;");
    assert '<' !in s2;
    assert '<' !in "&gt;";
  }

  /** Replacing `<` before `&` would escape the entity again: `<` comes out
      of the three passes as `&lt;`, but of the two passes in the other order
      as `&amp;lt;`. */
  lemma EscapeOrderMatters(s: string, ent: string, amp: string)
    requires s == "<" && ent == "&lt;" && amp == "&amp;"
    ensures Esc(s) == ent
    ensures ReplaceChar(ReplaceChar(s, '<', ent), '&', amp) == amp + ent[1..] != ent
  {
    assert s == [s[0]];
    EscSingle(s[0]);
    assert s[1..] == [];
    assert ReplaceChar(s, '<', ent) == ent;
    var tail := ent[1..];
    assert ent == [ent[0]] + tail;
    forall i | 0 <= i < |tail| ensures tail[i] != '&' {
      if i == 0 {} else if i == 1 {} else {}
    }
    assert '&' !in tail;
    assert [ent[0]][1..] == [];
    assert ReplaceChar([ent[0]], '&', amp) == amp;
    ReplaceCharAppend([ent[0]], tail, '&', amp);
    assert |amp + tail| != |ent|;
  }

  // ---------------------------------------------------------------- the coupon list

  /** The page's own rule: unused and not expired, where a coupon is expired only
      when its expiry lies strictly before `now`. */
  predicate ListedAvailable(c: Coupon, now: Time) {
    !Used(c) && !(c.expiresAt.Some? && c.expiresAt.value < now)
  }

  /** The coupons the loop puts in the available group, in input order. */
  function AvailPart(cs: seq<Coupon>, now: Time): (r: seq<Coupon>)
    ensures forall i | 0 <= i < |r| :: r[i] in cs && ListedAvailable(r[i], now)
  {
    if cs == [] then []
    else
      var rest := AvailPart(cs[..|cs| - 1], now);
      assert forall x | x in cs[..|cs| - 1] :: x in cs;
      if ListedAvailable(cs[|cs| - 1], now) then rest + [cs[|cs| - 1]] else rest
  }

  /** The coupons the loop puts in the other group, in input order. */
  function OtherPart(cs: seq<Coupon>, now: Time): (r: seq<Coupon>)
    ensures forall i | 0 <= i < |r| :: r[i] in cs && !ListedAvailable(r[i], now)
  {
    if cs == [] then []
    else
      var rest := OtherPart(cs[..|cs| - 1], now);
      assert forall x | x in cs[..|cs| - 1] :: x in cs;
      if ListedAvailable(cs[|cs| - 1], now) then rest else rest + [cs[|cs| - 1]]
  }

  /** The order the page lists coupons in: the available group sorted by
      descending priority, then the other group. */
  function CouponListOrder(cs: seq<Coupon>, now: Time): seq<Coupon> {
    Seqs.SortDesc(AvailPart(cs, now), Prio) + OtherPart(cs, now)
  }

  /** Splits the coupons into the two groups, sorts the first and joins them. */
  method ArrangeCoupons(coupons: seq<Coupon>, now: Time) returns (list: seq<Coupon>)
    ensures list == CouponListOrder(coupons, now)
  {
    var avail: seq<Coupon> := [];
    var others: seq<Coupon> := [];
    for i := 0 to |coupons|
      invariant avail == AvailPart(coupons[..i], now)
      invariant others == OtherPart(coupons[..i], now)
    {
      var c := coupons[i];
      assert coupons[..i + 1][..i] == coupons[..i];
      if ListedAvailable(c, now) {
        avail := avail + [c];
      } else {
        others := others + [c];
      }
    }
    assert coupons[..|coupons|] == coupons;
    avail := Seqs.SortDesc(avail, Prio);
    list := avail + others;
  }

  lemma {:induction false} PartsPartition(cs: seq<Coupon>, now: Time)
    ensures multiset(AvailPart(cs, now)) + multiset(OtherPart(cs, now)) == multiset(cs)
  {
    if cs != [] {
      var init := cs[..|cs| - 1];
      PartsPartition(init, now);
      assert cs == init + [cs[|cs| - 1]];
    }
  }

  /** The list shows every coupon exactly once: the available ones first, by
      descending priority, then the others in their original order. */
  lemma CouponListArrangement(cs: seq<Coupon>, now: Time)
    ensures var list := CouponListOrder(cs, now); var k := |AvailPart(cs, now)|;
      && multiset(list) == multiset(cs)
      && k <= |list|
      && (forall i | 0 <= i < k :: ListedAvailable(list[i], now))
      && (forall i | k <= i < |list| :: !ListedAvailable(list[i], now))
      && Seqs.SortedDesc(list[..k], Prio)
      && list[k..] == OtherPart(cs, now)
  {
    var a := AvailPart(cs, now);
    var sorted := Seqs.SortDesc(a, Prio);
    var list := sorted + OtherPart(cs, now);
    PartsPartition(cs, now);
    forall i | 0 <= i < |a| ensures ListedAvailable(list[i], now) {
      assert list[i] in multiset(a);
      var j :| 0 <= j < |a| && a[j] == list[i];
    }
    assert list[..|a|] == sorted;
  }

  /** A coupon expiring exactly at `now` is listed as available here, while the
      availability rule of the other pages says it is not. */
  lemma ListedAvailableAtExpiry(c: Coupon, now: Time)
    ensures ListedAvailable(c, now) <==> IsAvailable(c, now) || (!Used(c) && c.expiresAt == Some(now))
  {
  }

  // ---------------------------------------------------------------- orders

  /** An order item as the page receives it; a missing order id is `None`. */
  datatype ItemView = ItemView(orderId: Option<int>, name: string, quantity: int, price: int)

  /** The item belongs to order `k`, as the test a filter applies. */
  function InOrder(k: int): ItemView -> bool {
    (x: ItemView) => x.orderId == Some(k)
  }

  /** The items whose order id is `k`, in input order. */
  function ItemsOf(items: seq<ItemView>, k: int): (r: seq<ItemView>)
    ensures forall x | x in r :: x in items && x.orderId == Some(k)
    ensures forall i | 0 <= i < |items| && items[i].orderId == Some(k) :: items[i] in r
    ensures r == Seqs.Filter(items, InOrder(k))
  {
    if items == [] then []
    else
      var init := items[..|items| - 1];
      var rest := ItemsOf(init, k);
      assert forall i | 0 <= i < |init| :: init[i] == items[i];
      Seqs.FilterLast(items, InOrder(k));
      assert InOrder(k)(items[|items| - 1]) == (items[|items| - 1].orderId == Some(k));
      if items[|items| - 1].orderId == Some(k) then rest + [items[|items| - 1]] else rest
  }

  /** One more item joins the end of its own order's items and no other's. */
  lemma ItemsOfSnoc(items: seq<ItemView>, x: ItemView, k: int)
    ensures ItemsOf(items + [x], k) == if x.orderId == Some(k) then ItemsOf(items, k) + [x] else ItemsOf(items, k)
  {
    assert (items + [x])[..|items|] == items;
  }

  /** `groups` maps exactly the order ids of `s` to their items. */
  ghost predicate Grouped(groups: map<int, seq<ItemView>>, s: seq<ItemView>) {
    && (forall k :: k in groups <==> ItemsOf(s, k) != [])
    && (forall k | k in groups :: groups[k] == ItemsOf(s, k))
  }

  /** Pushing one more item onto its order's group keeps the map grouped. */
  lemma GroupStep(groups: map<int, seq<ItemView>>, s: seq<ItemView>, x: ItemView)
    requires Grouped(groups, s)
    ensures x.orderId.None? ==> Grouped(groups, s + [x])
    ensures x.orderId.Some? ==>
      var k := x.orderId.value;
      Grouped(groups[k := (if k in groups then groups[k] else []) + [x]], s + [x])
  {
    if x.orderId.None? {
      forall k ensures ItemsOf(s + [x], k) == ItemsOf(s, k) {
        ItemsOfSnoc(s, x, k);
      }
    } else {
      var j := x.orderId.value;
      var g := groups[j := (if j in groups then groups[j] else []) + [x]];
      forall k ensures k in g <==> ItemsOf(s + [x], k) != [] {
        ItemsOfSnoc(s, x, k);
      }
      forall k | k in g ensures g[k] == ItemsOf(s + [x], k) {
        ItemsOfSnoc(s, x, k);
      }
    }
  }

  /** Builds the map from order id to that order's items; items without an
      order id are skipped. */
  method GroupByOrder(items: seq<ItemView>) returns (groups: map<int, seq<ItemView>>)
    ensures forall k :: k in groups <==> ItemsOf(items, k) != []
    ensures forall k | k in groups :: groups[k] == ItemsOf(items, k)
  {
    groups := map[];
    for i := 0 to |items|
      invariant Grouped(groups, items[..i])
    {
      var it := items[i];
      assert items[..i + 1] == items[..i] + [it];
      GroupStep(groups, items[..i], it);
      if it.orderId.Some? {
        var k := it.orderId.value;
        if k in groups {
          groups := groups[k := groups[k] + [it]];
        } else {
          groups := groups[k := [it]];
        }
      }
    }
    assert items[..|items|] == items;
  }

  /** The items an order card shows: its group, or none. */
  function CardItems(groups: map<int, seq<ItemView>>, orderId: int): seq<ItemView> {
    if orderId in groups then groups[orderId] else []
  }

  /** Each order card shows exactly the items carrying its id, in input order. */
  method OrderCardItems(items: seq<ItemView>, orderId: int) returns (shown: seq<ItemView>)
    ensures shown == ItemsOf(items, orderId)
    ensures forall x | x in shown :: x.orderId == Some(orderId)
  {
    var groups := GroupByOrder(items);
    shown := CardItems(groups, orderId);
  }

  /** The lifetime spend My Page shows, over its wider set of statuses. */
  function MyPageLifetime(orders: seq<ClientOrder>): int {
    StatusSum(orders, MYPAGE_STATUSES)
  }

  /** With non-negative totals, My Page never shows less than the server counts. */
  lemma MyPageLifetimeAtLeastServer(orders: seq<ClientOrder>)
    requires forall i | 0 <= i < |orders| :: orders[i].totalPrice.GetOr(0) >= 0
    ensures MyPageLifetime(orders) >= StatusSum(orders, SERVER_STATUSES)
  {
    StatusSumMonotone(orders, SERVER_STATUSES, MYPAGE_STATUSES);
  }
}
