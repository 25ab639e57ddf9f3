/** The rule-based parts of the AI endpoints: how `/api/ai/suggest` splits a
    query into tokens and widens them with synonym groups, and how
    `/api/ai/ask` validates its input and assembles the facts it answers from
    (the effective price, the quantity, the delivery fee, and for a signed-in
    member the lifetime spend, the level and the coupons on offer). */
module Ai {
  import opened Wrappers
  import opened Text
  import Seqs
  import opened ClientCommon
  import Shop

  // ---------------------------------------------------------------- tokens

  /** The separators of the query split: white space, comma, slash and bar. */
  predicate IsSep(c: char) {
    IsSpace(c) || c == ',' || c == '/' || c == '|'
  }

  predicate NotSep(c: char) {
    !IsSep(c)
  }

  /** The longest prefix of `s` without a separator. */
  function Word(s: string): (w: string)
    ensures w <= s
    ensures forall i | 0 <= i < |w| :: !IsSep(w[i])
    ensures |w| == |s| || IsSep(s[|w|])
  {
    if s == [] || IsSep(s[0]) then [] else [s[0]] + Word(s[1..])
  }

  /** The split on runs of separators with the empty pieces dropped: the
      maximal runs of other characters, in order. */
  function Tokens(s: string): (ts: seq<string>)
    ensures forall i | 0 <= i < |ts| :: ts[i] != []
    ensures forall i, j | 0 <= i < |ts| && 0 <= j < |ts[i]| :: !IsSep(ts[i][j])
    decreases |s|
  {
    if s == [] then []
    else if IsSep(s[0]) then Tokens(s[1..])
    else
      var w := Word(s);
      [w] + Tokens(s[|w|..])
  }

  function Concat(ts: seq<string>): string {
    if ts == [] then [] else ts[0] + Concat(ts[1..])
  }

  /** The tokens joined by the separator `sep`. */
  function Join(ts: seq<string>, sep: char): string {
    if ts == [] then []
    else if |ts| == 1 then ts[0]
    else ts[0] + [sep] + Join(ts[1..], sep)
  }

  /** Splitting loses the separators and nothing else. */
  lemma {:induction false} TokensKeepText(s: string)
    ensures Concat(Tokens(s)) == Seqs.Filter(s, NotSep)
    decreases |s|
  {
    if s != [] {
      if IsSep(s[0]) {
        TokensKeepText(s[1..]);
      } else {
        var w := Word(s);
        var rest := s[|w|..];
        assert s == w + rest;
        TokensKeepText(rest);
        Seqs.FilterAppend(w, rest, NotSep);
        Seqs.FilterAll(w, NotSep);
        assert Tokens(s) == [w] + Tokens(rest);
        assert Tokens(s)[1..] == Tokens(rest);
      }
    }
  }

  lemma {:induction false} WordOfPrefix(w: string, rest: string)
    requires forall i | 0 <= i < |w| :: !IsSep(w[i])
    requires rest == [] || IsSep(rest[0])
    ensures Word(w + rest) == w
  {
    if w == [] {
      assert w + rest == rest;
    } else {
      assert (w + rest)[1..] == w[1..] + rest;
      WordOfPrefix(w[1..], rest);
      assert w == [w[0]] + w[1..];
    }
  }

  /** Joining non-empty tokens with a separator and splitting again gives the tokens back. */
  lemma {:induction false} TokensOfJoin(ts: seq<string>, sep: char)
    requires IsSep(sep)
    requires forall i | 0 <= i < |ts| :: ts[i] != []
    requires forall i, j | 0 <= i < |ts| && 0 <= j < |ts[i]| :: !IsSep(ts[i][j])
    ensures Tokens(Join(ts, sep)) == ts
  {
    if ts != [] {
      var w := ts[0];
      if |ts| == 1 {
        WordOfPrefix(w, []);
        assert w + [] == w;
        assert w[|w|..] == [];
      } else {
        var tail := Join(ts[1..], sep);
        var s := w + ([sep] + tail);
        assert Join(ts, sep) == s;
        WordOfPrefix(w, [sep] + tail);
        assert s[|w|..] == [sep] + tail;
        assert ([sep] + tail)[1..] == tail;
        TokensOfJoin(ts[1..], sep);
        assert ts == [w] + ts[1..];
      }
    }
  }

  // ---------------------------------------------------------------- synonym expansion

  /** The synonym groups of the suggestion search. */
  const SYN: seq<seq<string>> := [
    ["blanket", "이불", "담요"],
    ["bag", "가방", "에코백", "토트"],
    ["keyring", "키링", "key ring", "키 체인"],
    ["logistic", "러기지", "네임택", "name tag", "택", "tag"],
    ["figure", "피규어"],
    ["memo", "메모", "포스트잇", "post-it", "postit"],
    ["mousepad", "마우스패드", "mouse pad"],
    ["diary", "다이어리"],
    ["note", "노트"],
    ["pouch", "파우치"],
    ["neck pillow", "목베개", "neckpillow"],
    ["airplane", "비행기"],
    ["moltiz", "mol"],
    ["maltiz", "mal"]
  ]

  ghost predicate NoDup(s: seq<string>) {
    forall i, j | 0 <= i < j < |s| :: s[i] != s[j]
  }

  /** An insertion-ordered set of strings after adding each of `xs`,
      lower-cased, that is not in it yet. */
  function AddLowered(acc: seq<string>, xs: seq<string>): (r: seq<string>)
    ensures acc <= r
    ensures NoDup(acc) ==> NoDup(r)
    ensures forall x :: x in r <==> x in acc || exists i | 0 <= i < |xs| :: Lower(xs[i]) == x
  {
    if xs == [] then acc
    else
      var a := AddLowered(acc, xs[..|xs| - 1]);
      var t := Lower(xs[|xs| - 1]);
      assert forall i | 0 <= i < |xs| - 1 :: xs[..|xs| - 1][i] == xs[i];
      if t in a then a else a + [t]
  }

  /** A group is triggered when one of its members, lower-cased, is in the set. */
  predicate Triggered(acc: seq<string>, g: seq<string>) {
    exists i | 0 <= i < |g| :: Lower(g[i]) in acc
  }

  /** The set after visiting the groups in order, each triggered group adding
      all of its members; a group sees what the earlier groups added. */
  function ExpandGroups(acc: seq<string>, groups: seq<seq<string>>): (r: seq<string>)
    ensures acc <= r
    ensures NoDup(acc) ==> NoDup(r)
    ensures forall x | x in r :: x in acc || exists k, i | 0 <= k < |groups| && 0 <= i < |groups[k]| :: Lower(groups[k][i]) == x
  {
    if groups == [] then acc
    else
      var init := groups[..|groups| - 1];
      var a := ExpandGroups(acc, init);
      var g := groups[|groups| - 1];
      assert forall k | 0 <= k < |init| :: init[k] == groups[k];
      if Triggered(a, g) then AddLowered(a, g) else a
  }

  /** The expanded query terms: the lower-cased tokens without repeats, then
      the members of the triggered groups. */
  function ExpandSpec(tokens: seq<string>, groups: seq<seq<string>>): seq<string> {
    ExpandGroups(AddLowered([], tokens), groups)
  }

  /** A group triggered at its turn has all of its members in the result. */
  lemma {:induction false} TriggeredGroupIncluded(acc: seq<string>, groups: seq<seq<string>>, k: nat)
    requires k < |groups|
    requires Triggered(ExpandGroups(acc, groups[..k]), groups[k])
    ensures forall i | 0 <= i < |groups[k]| :: Lower(groups[k][i]) in ExpandGroups(acc, groups)
    decreases |groups|
  {
    var init := groups[..|groups| - 1];
    if k == |groups| - 1 {
      assert groups[..k] == init;
    } else {
      assert init[..k] == groups[..k] && init[k] == groups[k];
      TriggeredGroupIncluded(acc, init, k);
    }
  }

  /** The terms are distinct, contain every lower-cased token and start with the first one. */
  lemma ExpandKeepsTokens(tokens: seq<string>, groups: seq<seq<string>>)
    ensures var r := ExpandSpec(tokens, groups);
      && NoDup(r)
      && (forall i | 0 <= i < |tokens| :: Lower(tokens[i]) in r)
      && (tokens != [] ==> r != [] && r[0] == Lower(tokens[0]))
  {
    var init := AddLowered([], tokens);
    assert NoDup(init);
    var r := ExpandGroups(init, groups);
    assert init <= r;
    forall i | 0 <= i < |tokens| ensures Lower(tokens[i]) in r {
      assert Lower(tokens[i]) in init;
    }
    if tokens != [] {
      FirstTokenFirst(tokens);
    }
  }

  /** Each group triggered at its turn has all of its members among the terms. */
  lemma ExpandTriggered(tokens: seq<string>, groups: seq<seq<string>>, k: nat)
    requires k < |groups|
    requires Triggered(ExpandGroups(AddLowered([], tokens), groups[..k]), groups[k])
    ensures forall i | 0 <= i < |groups[k]| :: Lower(groups[k][i]) in ExpandSpec(tokens, groups)
  {
    TriggeredGroupIncluded(AddLowered([], tokens), groups, k);
  }

  /** What the groups add comes from a group that was triggered at its turn. */
  lemma {:induction false} ExpandGroupsOrigin(acc: seq<string>, groups: seq<seq<string>>, x: string)
    requires x in ExpandGroups(acc, groups)
    ensures || x in acc
            || exists k, i | 0 <= k < |groups| && 0 <= i < |groups[k]| ::
                 Triggered(ExpandGroups(acc, groups[..k]), groups[k]) && Lower(groups[k][i]) == x
    decreases |groups|
  {
    if groups != [] {
      var n := |groups| - 1;
      var init := groups[..n];
      var a := ExpandGroups(acc, init);
      if x in a {
        ExpandGroupsOrigin(acc, init, x);
        if x !in acc {
          var k, i :| 0 <= k < |init| && 0 <= i < |init[k]|
            && Triggered(ExpandGroups(acc, init[..k]), init[k]) && Lower(init[k][i]) == x;
          assert init[..k] == groups[..k] && init[k] == groups[k];
        }
      } else {
        assert groups[..n] == init;
        var i :| 0 <= i < |groups[n]| && Lower(groups[n][i]) == x;
      }
    }
  }

  /** Every term is a lower-cased token or a lower-cased member of a group
      that was triggered at its turn. */
  lemma ExpandSound(tokens: seq<string>, groups: seq<seq<string>>, x: string)
    requires x in ExpandSpec(tokens, groups)
    ensures || (exists i | 0 <= i < |tokens| :: Lower(tokens[i]) == x)
            || (exists k, i | 0 <= k < |groups| && 0 <= i < |groups[k]| ::
                  Triggered(ExpandGroups(AddLowered([], tokens), groups[..k]), groups[k]) && Lower(groups[k][i]) == x)
  {
    var init := AddLowered([], tokens);
    ExpandGroupsOrigin(init, groups, x);
    if x in init {
      assert x !in [];
    }
  }

  lemma {:induction false} FirstTokenFirst(tokens: seq<string>)
    requires tokens != []
    ensures AddLowered([], tokens) != [] && AddLowered([], tokens)[0] == Lower(tokens[0])
  {
    if |tokens| > 1 {
      var init := tokens[..|tokens| - 1];
      FirstTokenFirst(init);
    }
  }

  /** Adds each of `xs`, lower-cased, that the set does not hold yet. */
  method AddEach(acc: seq<string>, xs: seq<string>) returns (r: seq<string>)
    ensures r == AddLowered(acc, xs)
  {
    r := acc;
    for j := 0 to |xs|
      invariant r == AddLowered(acc, xs[..j])
    {
      assert xs[..j + 1][..j] == xs[..j];
      var t := Lower(xs[j]);
      if t !in r {
        r := r + [t];
      }
    }
    assert xs[..|xs|] == xs;
  }

  /** `expand`: fills the set from the tokens, then visits the groups in order. */
  method Expand(tokens: seq<string>, groups: seq<seq<string>>) returns (terms: seq<string>)
    ensures terms == ExpandSpec(tokens, groups)
  {
    terms := AddEach([], tokens);
    ghost var start := terms;
    for k := 0 to |groups|
      invariant terms == ExpandGroups(start, groups[..k])
    {
      assert groups[..k + 1][..k] == groups[..k];
      if Triggered(terms, groups[k]) {
        terms := AddEach(terms, groups[k]);
      }
    }
    assert groups[..|groups|] == groups;
  }

  /** The search terms of a suggestion query: none, and no search, for a
      blank query; otherwise the expanded tokens of the trimmed query. A query
      made of separators only has no token, so the `LIKE` disjunction of the
      statement is empty, the statement `... AND ()` does not parse, and the
      handler fails. */
  method SuggestTerms(query: string) returns (r: Result<seq<string>, AiError>)
    ensures Trim(query) == [] ==> r == Ok([])
    ensures Trim(query) != [] ==> (r == Err(QueryFailed) <==> Tokens(Trim(query)) == [])
    ensures r.Err? ==> r == Err(QueryFailed)
    ensures Trim(query) != [] && r.Ok? ==> r.value != [] && r.value == ExpandSpec(Tokens(Trim(query)), SYN)
  {
    var raw := Trim(query);
    if raw == [] {
      return Ok([]);
    }
    var tokens := Tokens(raw);
    var terms := Expand(tokens, SYN);
    if tokens == [] {
      ExpandNothing(SYN);
    } else {
      ExpandKeepsTokens(tokens, SYN);
    }
    if terms == [] {
      return Err(QueryFailed);
    }
    return Ok(terms);
  }

  /** The query "," is not blank but has no token, so its suggestion fails. */
  lemma SeparatorQueryHasNoToken()
    ensures Trim(",") == "," && Tokens(",") == []
  {
  }

  /** With no token, no group is triggered and there is no term. */
  lemma {:induction false} ExpandNothing(groups: seq<seq<string>>)
    ensures ExpandSpec([], groups) == []
  {
    if groups != [] {
      ExpandNothing(groups[..|groups| - 1]);
    }
  }

  // ---------------------------------------------------------------- ask

  /** A catalogue row as the ask endpoint reads it. */
  datatype CatalogProduct = CatalogProduct(
    name: string, price: nat, salePrice: Option<nat>, saleEndsAt: Option<Time>, stock: int, shippingFee: Option<int>)

  /** A sale price applies when one is set and its end, if any, lies after `now`. */
  predicate OnSale(p: CatalogProduct, now: Time) {
    p.salePrice.Some? && (p.saleEndsAt.None? || p.saleEndsAt.value > now)
  }

  /** The effective price: the sale price while the sale applies, the list price otherwise. */
  function EffectivePrice(p: CatalogProduct, now: Time): nat {
    if OnSale(p, now) then p.salePrice.value else p.price
  }

  /** A sale that has ended does not come back: from then on the list price applies. */
  lemma SaleNeverResumes(p: CatalogProduct, t1: Time, t2: Time)
    requires t1 <= t2 && !OnSale(p, t1)
    ensures !OnSale(p, t2) && EffectivePrice(p, t2) == p.price
  {
  }

  /** `Math.max(1, Number(qty || 1))` on integers; `None` is a missing or zero quantity. */
  function NQty(qty: Option<int>): (n: int)
    ensures n >= 1
    ensures qty.Some? ==> n >= qty.value
    ensures n == 1 || qty == Some(n)
  {
    if qty.None? || qty.value == 0 then 1
    else if qty.value < 1 then 1
    else qty.value
  }

  const FREE_SHIP_THRESHOLD: int := 20_000

  /** The delivery fee of the quoted amount: free from the threshold on,
      otherwise the product's fee (0 when it has none). */
  function DeliveryFee(productTotal: int, shippingFee: Option<int>): (fee: int)
    ensures fee == 0 || fee == shippingFee.GetOr(0)
    ensures productTotal >= FREE_SHIP_THRESHOLD ==> fee == 0
    ensures productTotal < FREE_SHIP_THRESHOLD ==> fee == shippingFee.GetOr(0)
  {
    if productTotal >= FREE_SHIP_THRESHOLD then 0 else shippingFee.GetOr(0)
  }

  /** Asking about more pieces never raises the delivery fee. */
  lemma DeliveryFeeNonIncreasing(price: nat, fee: Option<int>, n1: nat, n2: nat)
    requires n1 <= n2 && fee.GetOr(0) >= 0
    ensures DeliveryFee(price * n2, fee) <= DeliveryFee(price * n1, fee)
  {
    assert price * n1 <= price * n2 by {
      MulMonotone(price, n1, n2);
    }
  }

  lemma {:induction false} MulMonotone(a: nat, b: nat, c: nat)
    requires b <= c
    ensures a * b <= a * c
  {
    if a > 0 {
      MulMonotone(a - 1, b, c);
      assert a * b == (a - 1) * b + b;
      assert a * c == (a - 1) * c + c;
    }
  }

  /** The level rule written out in the ask endpoint. */
  function AiDecideLevel(sum: int): (name: string)
    ensures name == Shop.LevelName(Shop.DecideLevel(sum))
  {
    if sum >= 1_000_000 then "LV100" else if sum >= 100_000 then "LV10" else "LV1"
  }

  /** A coupon row is offered when it is unused (no order id, or 0) and has no
      expiry or one after `now`. */
  predicate Offered(now: Time, c: Shop.CouponRow) {
    !(c.usedOrderId.Some? && c.usedOrderId.value != 0) && (c.expiresAt.None? || c.expiresAt.value > now)
  }

  /** A coupon row as the pages receive it. */
  function ToCoupon(c: Shop.CouponRow): Coupon {
    Coupon(c.code, c.title, c.expiresAt, c.usedOrderId)
  }

  /** The offered coupons among the rows, in their order. */
  function OfferedCoupons(rows: seq<Shop.CouponRow>, now: Time): (r: seq<Shop.CouponRow>)
    ensures forall c :: c in r <==> c in rows && IsAvailable(ToCoupon(c), now)
  {
    var r := Seqs.Filter(rows, c => Offered(now, c));
    forall c | c in rows && IsAvailable(ToCoupon(c), now) ensures c in r {
      var i :| 0 <= i < |rows| && rows[i] == c;
    }
    r
  }

  datatype AiError =
    | InvalidInput
    | ProductNotFound
    /** MySQL rejected the statement; the error handler answers HTTP 500. */
    | QueryFailed

  /** What the endpoint knows of a signed-in member. */
  datatype MemberFacts = MemberFacts(id: Shop.UserId, lifetime: int, level: string, coupons: seq<Shop.CouponRow>)

  /** The facts an answer is built from. */
  datatype AskFacts = AskFacts(
    productId: int, name: string, price: nat, stock: int, shippingFee: int,
    qty: int, subtotal: int, deliveryFee: int, member: Option<MemberFacts>)

  /** `/api/ai/ask` up to the answer text. `productId` is the number the body
      carries (`None` when it is missing or not a number), `question` the empty
      string when missing, `session` the signed-in member. */
  function Ask(catalog: map<int, CatalogProduct>, t: Shop.Tables, session: Option<Shop.UserId>,
               productId: Option<int>, question: string, qty: Option<int>, now: Time): (r: Result<AskFacts, AiError>)
    ensures r == Err(InvalidInput) <==> productId.None? || productId.value == 0 || Trim(question) == []
    ensures r == Err(ProductNotFound) <==> productId.Some? && productId.value != 0 && Trim(question) != [] && productId.value !in catalog
    ensures r.Ok? ==>
      var f := r.value;
      && productId == Some(f.productId) && f.productId in catalog
      && var p := catalog[f.productId];
      && f.qty == NQty(qty) && f.price == EffectivePrice(p, now)
      && f.subtotal == f.price * f.qty
      && f.name == p.name && f.stock == p.stock
      && (f.deliveryFee == 0 <==> f.subtotal >= FREE_SHIP_THRESHOLD || p.shippingFee.GetOr(0) == 0)
      && (f.subtotal < FREE_SHIP_THRESHOLD ==> f.deliveryFee == p.shippingFee.GetOr(0))
      && f.shippingFee == p.shippingFee.GetOr(0)
      && (f.member.Some? <==> session.Some?)
      && (f.member.Some? ==>
            var m := f.member.value;
            && m.id == session.value
            && m.lifetime == Shop.Lifetime(t.orders, m.id)
            && m.level == Shop.LevelName(Shop.DecideLevel(m.lifetime))
            && m.coupons == OfferedCoupons(Shop.CouponList(t.userCoupons, t.couponTypes, m.id), now))
  {
    var q := Trim(question);
    var n := NQty(qty);
    if productId.None? || productId.value == 0 || q == [] then Err(InvalidInput)
    else if productId.value !in catalog then Err(ProductNotFound)
    else
      var id := productId.value;
      var p := catalog[id];
      var price := EffectivePrice(p, now);
      var subtotal := price * n;
      var member :=
        if session.None? then None
        else
          var u := session.value;
          var life := Shop.Lifetime(t.orders, u);
          Some(MemberFacts(u, life, AiDecideLevel(life), OfferedCoupons(Shop.CouponList(t.userCoupons, t.couponTypes, u), now)));
      Ok(AskFacts(id, p.name, price, p.stock, p.shippingFee.GetOr(0), n, subtotal, DeliveryFee(subtotal, p.shippingFee), member))
  }

  /** A signed-in member with no orders and no coupons is told level LV1 and offered nothing. */
  lemma AskNewMember(catalog: map<int, CatalogProduct>, t: Shop.Tables, u: Shop.UserId, id: int, question: string, now: Time)
    requires id != 0 && id in catalog && Trim(question) != []
    requires t.orders == [] && t.userCoupons == []
    ensures var r := Ask(catalog, t, Some(u), Some(id), question, None, now);
      r.Ok? && r.value.qty == 1 && r.value.member == Some(MemberFacts(u, 0, "LV1", []))
  {
    var rows := Shop.CouponList(t.userCoupons, t.couponTypes, u);
    assert rows == [];
  }
}
