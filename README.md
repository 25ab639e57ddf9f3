# A verified model of the shop's settlement engine and its page helpers

This project models, in Dafny, the core of a small online character-goods shop
(cart, coupons, membership levels), and proves properties of that model.

**The server (`api/shop.mysql.js`).** Its tables become values:
`products`, `cart_items`, `coupon_types`, `user_coupons`, `orders` and
`order_items`. Each table's next auto-increment id is part of that value.

- Module `Shop` holds the pure parts as functions:
  - the level rule;
  - the cart aggregate;
  - the coupon lookup and settlement;
  - the effect of every write, as a function from the old tables to the new.
- It also holds the lemmas about them, and the invariant `Shop.Valid`: the
  unique keys, increasing ids starting at 1, and stock never negative.
  Because every table's ids start at 1, neither a used coupon's order id nor
  an applied coupon's row id is ever 0. The truthiness tests
  `if (row.used_order_id)` (`api/shop.mysql.js:63`) and
  `if (usedUserCouponId)` (`api/shop.mysql.js:253`) are therefore the model's
  "an id is set".
- Class `ShopStore.Store` keeps the tables as fields. Its methods are the
  HTTP handlers:
  - cart add, update and delete;
  - checkout preview, checkout, direct purchase;
  - the orders summary;
  - the welcome claim, the coupon list with its one-time seed, and the resync.
- Each handler either answers with an error code and leaves every table as it
  was, or applies all of its writes. Its `ensures` ties the new tables to the
  corresponding `Shop` function and preserves `Valid`.
- The session user is an `Option` parameter: `None` answers LOGIN_REQUIRED.
  The clock is a `now` parameter.

**The smaller pieces around the engine.** Each has its own module:

- the account endpoints `api/auth.mysql.js` (`Auth`): gender and phone
  normalisation, registration, find-id, and the single-use reset token;
- the rule-based parts of `api/ai.js` (`Ai`): token split, synonym expansion,
  effective price, quantity clamp, delivery fee, level rule, coupon filter, and
  the facts `/ask` answers from;
- the browser pages, with what they share in `ClientCommon`:
  - `MyPage.js`: escaping, the coupon list arrangement, the order grouping;
  - `membership.js`: the claim decision, the coupon shown, the lifetime
    fallback;
  - `coupon.js`: the coupon select and its options;
  - `BookMark.js`: the memoised bookmark store;
  - `search.js`: project root, link normalisation, alias lookup, routing;
  - `Join.js` and `find.js`: the signup and account-recovery forms;
  - `Minigame.js` and `HomeSlides.js`: the guessing game and the promotion
    rotator.

`MyPage.js:31-40` and `membership.js:5-14` define the same tiers and the same
`decideLevel`, so `ClientCommon` models them once.

Things the code does that are worth knowing:

- **Cart subtotal.** The cart multiplies the list price `p.price`
  (`api/shop.mysql.js:29`, `:41`) even while a sale price applies. Only
  `/ask` uses the sale price (`api/ai.js:124-126`).
- **Cart add.** Adding a product already in the cart caps the quantity at the
  stock (`LEAST`). Adding a new line inserts the requested quantity without
  comparing it with the stock (`api/shop.mysql.js:119-123`). The model does
  the same, so a cart can hold more than the stock. The checkout's
  OUT_OF_STOCK check then refuses it.
- **Search routing.** The category aliases are searched before the product
  aliases. The category `sale` contains the Korean word for "sale", so the
  query of the sale bag page goes to `sale.html`, not to the bag's own page
  (`Search.SaleBagAliasShadowed`).
- **Coupon expiring at `now`.** `isAvailable` (`coupon.js:18-19`) calls it
  unavailable, but the option filter (`coupon.js:49`) and My Page's own rule
  (`MyPage.js:75-77`) keep it
  (`CouponSelect.ExpiringNowIsKeptButUnavailable`,
  `MyPage.ListedAvailableAtExpiry`).
- **`COMPLETED` orders.** My Page counts them towards lifetime spend, while
  the server and the membership page count only CREATED, PAID and FULFILLED
  (`ClientCommon.CompletedCountsOnlyOnMyPage`).

## Model

A definition without a contract of its own is cited through the rows of the lemmas and methods about it: `Shop.DirectTotalAsWritten` (api/shop.mysql.js:298-305) through `Shop.DirectOversellAsWritten`, the handler effects `Shop.ClaimWelcome`, `Shop.Resync` and `Shop.OrdersMe` through their `…Effect`, `…Valid` and store rows, and the helpers `Ai.EffectivePrice`, `ClientCommon.NextTier`, `MyPage.Esc`, `Search.Norm`, `Search.RouteSearch`, `Join.EmailPattern` and `Bookmark.ToggleIn` through the rows that name their properties.

| member | source | states |
|---|---|---|
| Shop.DecideLevel | api/shop.mysql.js:17-21 | LV100 iff the spend is at least 1,000,000; LV10 iff it is at least 100,000 and below 1,000,000; LV1 iff it is below 100,000 |
| Shop.DecideLevelMonotone | api/shop.mysql.js:17-21 | spending more never lowers the level's rank |
| Shop.Lifetime | api/shop.mysql.js:343-349 | the eligible-status sum of a user's orders is non-negative when every total is |
| Shop.LifetimeAppend | api/shop.mysql.js:343-349 | appending an order adds exactly its eligible total to the lifetime spend |
| Shop.LifetimeOwnOrdersOnly | api/shop.mysql.js:346 | a user with no orders of their own has lifetime spend 0, whatever other users bought |
| Shop.CreatedIsEligible | api/shop.mysql.js:14 | the status CREATED that checkout writes is one of the eligible statuses |
| Shop.UserLines | api/shop.mysql.js:28-34 | every joined line is the user's cart row joined with its product's current price, stock and fee; every cart row of the user whose product exists yields its line; there are no more lines than cart rows |
| Shop.UserLinesOrigin | api/shop.mysql.js:28-34 | every joined line comes from one of the user's cart rows, with that row's product and quantity |
| Shop.UserLinesDistinct | api/shop.mysql.js:28-34 | since (user, product) is a unique key of the cart, no product appears on two of a user's lines |
| Shop.UserLinesNone | api/shop.mysql.js:28-34 | a user without cart rows has no lines |
| Shop.BaseFee | api/shop.mysql.js:43-45 | the fee is 0 iff every line's shipping fee is exactly 0 (a missing fee is not); otherwise it is 1,000 |
| Shop.ComputeCartSubtotal | api/shop.mysql.js:27-48 | CART_EMPTY iff there are no lines; otherwise OUT_OF_STOCK iff some line's quantity exceeds its stock; on success, Σ price × quantity and the base fee |
| Shop.FindCouponRow | api/shop.mysql.js:53-60 | the first row of the user with that code whose type exists (LIMIT 1), and none iff no row matches |
| Shop.GetValidCoupon | api/shop.mysql.js:51-68 | no coupon for an empty code; then COUPON_NOT_FOUND iff no row matches; for the matching row, COUPON_ALREADY_USED iff it is used, COUPON_EXPIRED iff it is unused and expired before `now`, and success iff it is unused and not expired; an accepted coupon is that row with its type's kind, amount and label; no other error |
| Shop.Settle | api/shop.mysql.js:180-190 | shipping coupon: fee 0 and discount 0; amount coupon: discount min(subtotal, amount) and base fee; otherwise no discount; total = subtotal − discount + fee, so fee ≤ total ≤ subtotal + base fee |
| Shop.SettleNoCouponScenario | api/shop.mysql.js:190 | 15,000 with no coupon settles at fee 1,000 and total 16,000 |
| Shop.SettleAmountCouponScenario | api/shop.mysql.js:190 | an amount coupon of 5,000 on 15,000 gives total 11,000 |
| Shop.SettleShippingCouponScenario | api/shop.mysql.js:190 | a shipping coupon on 25,000 gives discount 0, fee 0 and total 25,000 |
| Shop.SettleCappedDiscountScenario | api/shop.mysql.js:190 | a 50,000 coupon on 10,000 is capped at 10,000 and leaves only the fee |
| Shop.QuoteFor | api/shop.mysql.js:173-190 | a quote is the user's joined lines, all within stock and non-empty, the coupon that the coupon check accepts, and the settlement of their subtotal and base fee; success iff both the cart check and the coupon check succeed, and otherwise the first failing check's error, so an empty cart is CART_EMPTY |
| Shop.AppliedCouponIdPositive | api/shop.mysql.js:217-257 | under the table invariant the coupon a quote applies has a row id of at least 1, so the checkout always marks it used |
| Shop.UsedCouponRejected | api/shop.mysql.js:63 | with a cart that passes, a code for which the user holds a row that is already used fails COUPON_ALREADY_USED |
| Shop.DecrementAll | api/shop.mysql.js:246-249 | decrementing stock per line keeps the set of products |
| Shop.DecrementAllStock | api/shop.mysql.js:241-250 | each product's stock drops by exactly the total quantity of its lines, and nothing else about it changes |
| Shop.QtyForDistinct | api/shop.mysql.js:241-250 | with distinct products, a product's total quantity over the lines is that of its one line |
| Shop.QtyForWithinStock | api/shop.mysql.js:36-39 | distinct lines that each pass the stock check never take more than the stock in total |
| Shop.Freeze | api/shop.mysql.js:241-245 | one order item per line, in order, with consecutive ids, the order id, and the line's price and quantity |
| Shop.MarkUsed | api/shop.mysql.js:253-258 | exactly the row with the coupon id gets the order id as its used order; every other row is unchanged |
| Shop.CheckoutStock | api/shop.mysql.js:241-250 | after a successful checkout, each product in the cart loses exactly its line's quantity and stays non-negative; its price is kept, and every other product is unchanged |
| Shop.FindCouponRowMarkUsed | api/shop.mysql.js:53-60 | marking a coupon used never changes which row a lookup finds |
| Shop.CheckoutConsumesCoupon | api/shop.mysql.js:252-258 | after a checkout with a coupon, checking the same code again fails COUPON_ALREADY_USED |
| Shop.CheckoutEmptiesCart | api/shop.mysql.js:261 | after a checkout the user's cart is empty, so a second checkout fails CART_EMPTY; other users' rows stay |
| Shop.CheckoutLifetime | api/shop.mysql.js:234-237 | the new order raises the buyer's lifetime spend by exactly the order total, and leaves every other user's unchanged |
| Shop.InsertOrderValid | api/shop.mysql.js:234-250 | inserting an order whose quantities fit the stock keeps every table invariant |
| Shop.MarkUsedValid | api/shop.mysql.js:253-258 | marking a coupon used with an order id, which is at least 1, keeps the coupon invariants, among them that no used order id is 0 |
| Shop.FilterCartValid | api/shop.mysql.js:261 | any deletion of cart rows keeps the cart invariants |
| Shop.FilterCouponsValid | api/shop.mysql.js:529-539 | any deletion of coupon rows keeps the coupon invariants |
| Shop.CheckoutValid | api/shop.mysql.js:204-275 | a successful checkout keeps unique keys, increasing ids and non-negative stock |
| Shop.FindCartLine | api/shop.mysql.js:119-123 | the row with the (user, product) key, or none iff there is none |
| Shop.UpsertCartLineEffect | api/shop.mysql.js:119-123 | re-adding a product sets min(old + q, stock); a first add sets q; no other (user, product) changes |
| Shop.UpsertCartLineValid | api/shop.mysql.js:119-123 | the upsert keeps the cart's unique key and ids |
| Shop.SetCartQuantity | api/shop.mysql.js:149-150 | exactly the row with the (user, product) key gets the quantity; every other row is unchanged |
| Shop.SetCartQuantityEffect | api/shop.mysql.js:149-150 | setting a quantity changes only that key's quantity, adds no row when there is none, and keeps the invariants |
| Shop.DeleteCartLineEffect | api/shop.mysql.js:143 | deleting a line removes exactly that (user, product) and keeps every other key's quantity |
| Shop.DeleteCartItemEffect | api/shop.mysql.js:159-160 | deleting by row id leaves no row of the user with that id, never changes another user's cart, and an id that is not a number matches no row |
| Shop.DirectTotal | api/shop.mysql.js:297-305 | the corrected validation loop: its errors are PRODUCT_NOT_FOUND, INVALID_QTY or OUT_OF_STOCK |
| Shop.DirectLines | api/shop.mysql.js:313-320 | a validated request inserts one line per item, in request order, with the product's price and the item's quantity |
| Shop.DirectTotalIsSubtotal | api/shop.mysql.js:297-305 | the accepted total is Σ price × quantity of the inserted lines, with no shipping fee |
| Shop.DirectLinesQty | api/shop.mysql.js:313-320 | each product's lines take exactly the quantity requested for it |
| Shop.DirectWithinStock | api/shop.mysql.js:298-305 | the corrected check never lets the requests for one product exceed its stock |
| Shop.DirectTotalPrefixErr | api/shop.mysql.js:298-305 | the first failing item decides the request's error |
| Shop.DirectValid | api/shop.mysql.js:307-320 | a validated direct purchase keeps every table invariant, in particular no stock goes negative |
| Shop.DirectOversellAsWritten | api/shop.mysql.js:298-305 | two items of product 1, three each, against stock 5: the loop as written accepts (total 6,000) and would leave stock −1; the corrected check answers OUT_OF_STOCK |
| Shop.DirectAgreesOnDistinct | api/shop.mysql.js:298-305 | when every item names a different product, the loop as written and the corrected one agree |
| Shop.UserOrdersDescSnoc | api/shop.mysql.js:337-340 | an order appended to the table comes first in its owner's list and not at all in anyone else's |
| Shop.UserOrdersDescExact | api/shop.mysql.js:337-340 | the list holds exactly the user's orders, by strictly decreasing id |
| Shop.OrdersMeOrders | api/shop.mysql.js:333-354 | the summary lists exactly the user's orders newest first, with the lifetime spend and its level |
| Shop.OrderItemsDescOrdered | api/shop.mysql.js:358-370 | exactly the stored items of the given orders whose product exists, ordered by order id then item id, both descending |
| Shop.OrdersMeItems | api/shop.mysql.js:352-372 | the summary's items are exactly the stored items of the listed orders whose product exists, by order id then item id, descending |
| Shop.InsertIgnore | api/shop.mysql.js:449-452 | afterwards the user holds the code; the tables are unchanged iff the user already held it; otherwise exactly one row is appended, with the next coupon id, that user and code, unused and without expiry, and the next id advances; no other table changes |
| Shop.InsertIgnoreValid | api/shop.mysql.js:449-452 | INSERT IGNORE keeps the coupon invariants |
| Shop.InsertAllIgnore | api/shop.mysql.js:445-482 | inserting several codes only appends rows |
| Shop.InsertAllIgnoreHolds | api/shop.mysql.js:445-482 | afterwards the user holds every inserted code and every code held before |
| Shop.InsertAllIgnoreHeld | api/shop.mysql.js:445-482 | inserting codes the user already holds changes nothing |
| Shop.SeedHolds | api/shop.mysql.js:445-482 | after the seed the user holds the welcome code at spend 0, both LV10 codes from 100,000 and both LV100 codes from 1,000,000 |
| Shop.SeedIdempotent | api/shop.mysql.js:445-482 | seeding twice is seeding once: each code is issued at most once |
| Shop.InsertAllIgnoreOwn | api/shop.mysql.js:445-482 | every new row is an unused coupon of this user with one of the seeded codes, so no existing row and no other user changes |
| Shop.InsertAllIgnoreValid | api/shop.mysql.js:445-482 | the seed keeps the coupon invariants |
| Shop.SeedSteps | api/shop.mysql.js:446-482 | the seed is the three guarded steps of the handler, in order |
| Shop.ClaimOnce | api/shop.mysql.js:386-416 | the welcome coupon is issued iff the user never held it and spent nothing; afterwards the user holds it iff they held it or spent nothing; a second claim changes nothing and issues nothing |
| Shop.UnqualifiedMeansAboveLevel | api/shop.mysql.js:535-538 | the delete condition is exactly "unused, and its required level ranks above the spend's level" |
| Shop.ResyncEffect | api/shop.mysql.js:529-539 | resync keeps the invariants, deletes exactly the user's unqualified coupons (never a used one or another user's), keeps every other row, and is idempotent |
| Shop.OwnTyped | api/shop.mysql.js:493-495 | every row the join keeps has a coupon type to join with |
| Shop.CouponList | api/shop.mysql.js:488-498 | the list is the user's typed rows in reverse table order, each joined with its type's label, kind and amount |
| Shop.CouponListOrdered | api/shop.mysql.js:488-498 | the list is by strictly decreasing id and shows every typed coupon of the user |
| ShopStore.Price | api/shop.mysql.js:176-190 | the step-by-step fee and discount computation equals `Shop.Settle` |
| ShopStore.ValidateDirect | api/shop.mysql.js:297-305 | the validation loop, in request order and stopping at the first bad item, returns `Shop.DirectTotal` |
| ShopStore.Store.constructor | api/shop.mysql.js:4 | the store starts from valid tables |
| ShopStore.Store.CartAdd | api/shop.mysql.js:108-132 | LOGIN_REQUIRED, then INVALID_INPUT for a missing or zero product id or a quantity below 1, then PRODUCT_NOT_FOUND; success iff none of these applies, and then the capped upsert; an error changes nothing; validity is kept |
| ShopStore.Store.CartUpdate | api/shop.mysql.js:135-153 | INVALID_INPUT for a missing product id or a missing or negative quantity; 0 succeeds and deletes the line without looking at the product; then PRODUCT_NOT_FOUND, OUT_OF_STOCK above the stock, else the quantity is set |
| ShopStore.Store.CartDelete | api/shop.mysql.js:156-163 | LOGIN_REQUIRED without a session; a non-numeric id is a rejected query (the 500 answer of server.js:55-57) that changes nothing; otherwise ok, and only the user's own row with that id is deleted |
| ShopStore.Store.Preview | api/shop.mysql.js:166-200 | answers the quote's breakdown and coupon, or its error, with no write; a successful preview is exactly the receipt the checkout would give |
| ShopStore.Store.ComputeQuote | api/shop.mysql.js:173-190 | the lines, their aggregate, the coupon check and the settlement give `Shop.QuoteFor` |
| ShopStore.Store.InsertOrderLines | api/shop.mysql.js:241-250 | the loop appends the frozen lines, advances the item id by their number and decrements stock as `Shop.DecrementAll`; no other table changes |
| ShopStore.Store.CreateOrder | api/shop.mysql.js:234-250 | inserts the CREATED order and its lines: `Shop.InsertOrder` of the old tables, under the old next order id |
| ShopStore.Store.Checkout | api/shop.mysql.js:204-275 | an error leaves every table unchanged; success applies order, lines, stock, coupon and cart together, as `Shop.CommitCart`; validity is kept |
| ShopStore.Store.CheckoutDirect | api/shop.mysql.js:279-330 | INVALID_ITEMS for a missing or empty list, then the first failing item's error; success inserts one order at the validated total with its lines; an error changes nothing; validity is kept |
| ShopStore.Store.OrdersMe | api/shop.mysql.js:333-377 | LOGIN_REQUIRED without a session; otherwise the summary `Shop.OrdersMe` of the tables: the user's orders and only theirs, newest first; exactly the stored items of those orders whose product exists, each a stored row, in descending order; the lifetime spend and its level |
| ShopStore.Store.InsertIgnoreCoupon | api/shop.mysql.js:449-452 | the store's `INSERT IGNORE` is `Shop.InsertIgnore` |
| ShopStore.Store.Claim | api/shop.mysql.js:380-427 | the claim's new tables and answer are `Shop.ClaimWelcome`; validity is kept |
| ShopStore.Store.CouponsMe | api/shop.mysql.js:430-507 | the new tables are the seed for the current lifetime spend, and the answer is the user's coupon list afterwards |
| ShopStore.Store.Resync | api/shop.mysql.js:512-550 | answers the lifetime spend and level and deletes exactly the rows `Shop.Resync` drops; validity is kept |
| Auth.NormalizeGender | api/auth.mysql.js:9-15 | Male iff the trimmed lower-cased value is `male` or `m`; Female iff it is `female` or `f`; none otherwise |
| Auth.GenderRoundTrip | api/auth.mysql.js:8-15 | the stored column value of a gender normalises back to that gender |
| Auth.PhoneNorm | api/auth.mysql.js:50 | none iff the phone has no digit; otherwise exactly the phone's digits, in order |
| Auth.PhoneNormIdempotent | api/auth.mysql.js:50 | normalising a stored phone again leaves it as it is |
| Auth.FindByEmail | api/auth.mysql.js:46 | the first user with the e-mail, and none iff there is none |
| Auth.InsertUserValid | api/auth.mysql.js:53-56 | registering a new e-mail keeps ids and e-mails unique and makes the e-mail taken |
| Auth.FindEmail | api/auth.mysql.js:117-123 | none iff no user has that name and phone; otherwise the e-mail of such a user |
| Auth.FindEmailAfterRegister | api/auth.mysql.js:117-120 | when no earlier member has the same name and phone digits, a new member who gave a phone with digits is found again by name and digits, with their own e-mail |
| Auth.FindReset | api/auth.mysql.js:161-167 | the first row with the token that is unused and expires after `now`, and none iff there is none |
| Auth.SetPasswordHash | api/auth.mysql.js:170 | exactly the users with the id get the new hash |
| Auth.MarkUsed | api/auth.mysql.js:171 | exactly the reset rows with the id are marked used |
| Auth.IssuedTokenLifetime | api/auth.mysql.js:139-146 | a fresh token is redeemable before 30 minutes have passed and not from then on |
| Auth.RedeemedTokenRejected | api/auth.mysql.js:161-171 | once redeemed, a token is never redeemable again |
| Auth.ResetTouchesOwnerOnly | api/auth.mysql.js:170 | the reset changes only its own user's hash and nothing else of any user |
| Auth.MarkUsedValid | api/auth.mysql.js:171 | marking a token used keeps the table invariants |
| Auth.InsertResetValid | api/auth.mysql.js:141-145 | inserting a fresh token keeps ids and tokens unique |
| Auth.SetPasswordHashValid | api/auth.mysql.js:170 | changing a hash keeps the table invariants |
| Auth.AuthStore.constructor | api/auth.mysql.js:4 | the store starts from valid tables |
| Auth.AuthStore.Register | api/auth.mysql.js:38-58 | INVALID_INPUT without e-mail, name or password, then EMAIL_EXISTS; success iff both pass, and then the new row is inserted; an error changes nothing |
| Auth.AuthStore.FindId | api/auth.mysql.js:110-128 | INVALID_INPUT without name or phone; otherwise the e-mail found by name and the phone's digits, or none |
| Auth.AuthStore.Forgot | api/auth.mysql.js:130-151 | INVALID_INPUT without e-mail; an unknown e-mail answers ok with no token and no write; otherwise the token is answered and stored for that user, expiring in 30 minutes |
| Auth.AuthStore.Reset | api/auth.mysql.js:153-178 | INVALID_INPUT, then INVALID_OR_EXPIRED when no redeemable row exists; success sets the row owner's hash and marks the row used, and nothing else |
| Ai.Word | api/ai.js:24 | the longest prefix without a separator |
| Ai.Tokens | api/ai.js:24 | the tokens are non-empty and contain no separator |
| Ai.TokensKeepText | api/ai.js:24 | the tokens joined together are the query without its separators: splitting drops separators and nothing else |
| Ai.TokensOfJoin | api/ai.js:24 | non-empty separator-free tokens joined by a separator split back into themselves |
| Ai.AddLowered | api/ai.js:43 | adding keeps the earlier terms first and without repeats, and the result holds exactly the earlier terms and the lower-cased additions |
| Ai.ExpandGroups | api/ai.js:44 | visiting the groups only appends, keeps terms distinct, and adds only lower-cased group members |
| Ai.TriggeredGroupIncluded | api/ai.js:44 | a group triggered at its turn has all of its members in the result |
| Ai.ExpandKeepsTokens | api/ai.js:42-46 | the terms are distinct, contain every lower-cased token and start with the first token |
| Ai.ExpandTriggered | api/ai.js:42-46 | each group triggered at its turn has all its members among the terms |
| Ai.ExpandGroupsOrigin | api/ai.js:44 | every string the group pass adds is a lower-cased member of a group that was triggered at its turn, by what the earlier groups left |
| Ai.ExpandSound | api/ai.js:42-46 | every term is a lower-cased token or a lower-cased member of a group that was triggered at its turn |
| Ai.FirstTokenFirst | api/ai.js:50 | the first term is the first token, lower-cased |
| Ai.AddEach | api/ai.js:43 | the loop over the set computes `Ai.AddLowered` |
| Ai.Expand | api/ai.js:42-46 | the set-building loops compute the expanded terms |
| Ai.SuggestTerms | api/ai.js:21-63 | a blank query has no terms and runs no search; a query with no token fails as a rejected statement, since its `LIKE` disjunction is empty; otherwise the (non-empty) expanded terms of its trimmed tokens over the synonym table |
| Ai.SeparatorQueryHasNoToken | api/ai.js:21-24 | the query "," is not blank yet has no token |
| Ai.ExpandNothing | api/ai.js:42-46 | no token gives no term |
| Ai.SaleNeverResumes | api/ai.js:124-126 | once a sale no longer applies it never applies later, and the list price is charged |
| Ai.NQty | api/ai.js:116 | at least 1, at least the given quantity, and either 1 or the given quantity |
| Ai.DeliveryFee | api/ai.js:164-166 | 0 from 20,000 on, otherwise the product's fee (0 when missing) |
| Ai.DeliveryFeeNonIncreasing | api/ai.js:165-166 | asking about more pieces never raises the delivery fee |
| Ai.AiDecideLevel | api/ai.js:136 | the inline rule names the same level as the server's `decideLevel` |
| Ai.OfferedCoupons | api/ai.js:160 | a row is offered iff it is one of the member's rows and is available (unused and not expired) at `now` |
| Ai.Ask | api/ai.js:111-173 | INVALID_INPUT iff the id is missing or 0 or the trimmed question is empty; PRODUCT_NOT_FOUND iff the id is unknown; otherwise the product's name and stock, the clamped quantity, the effective price, the subtotal, and a delivery fee that is 0 from the free-shipping threshold on and the product's fee below it; a member's lifetime, level and offered coupons exactly when signed in |
| Ai.AskNewMember | api/ai.js:135-161 | a signed-in member with no orders and no coupons is told lifetime 0, level LV1 and offered nothing |
| Search.FirstSeg | search.js:16 | the first index holding a `/store` or `/sale` segment, and none before it |
| Search.LastSlash | search.js:22 | the index of the last slash, or none when there is no slash |
| Search.ProjectRoot | search.js:12-23 | with a `/store` or `/sale` segment at i: the prefix before it, with a slash added unless it already ends in one; without one: the path up to and including its last slash, or the path itself when it has no slash |
| Search.RootIsFixedPoint | search.js:12-23 | the root of a root is itself |
| Search.StripLeadingSlashes | search.js:29 | no leading slash is left, and only slashes are dropped |
| Search.Collapse | search.js:30 | no double slash is left, the first character is kept, and empty stays empty |
| Search.CollapseSnoc | search.js:30 | read left to right, a slash right after a slash is dropped and every other character kept, so each run of slashes becomes one |
| Search.CollapseIdempotent | search.js:30 | a path without double slashes is left as it is |
| Search.CollapseKeepsText | search.js:30 | collapsing drops slashes only |
| Search.RealUrlShape | search.js:27-31 | the real link has no double slash, and its text without slashes is the root's followed by the relative link's |
| Search.FirstEntry | search.js:40-46 | the first entry with a matching name, and none before it |
| Search.AliasLookup | search.js:37-48 | none for an empty query; otherwise the url of the first entry, in list order, with a non-empty normalised name that contains the normalised query or is contained in it, and none iff no entry matches |
| Search.MatchEntry | search.js:41-45 | the inner loop over an entry's names decides exactly whether the entry matches |
| Search.LookupThird | search.js:37-48 | the first two entries missing and the third matching return the third's url |
| Search.FindByAliases | search.js:37-48 | the nested loop with early return computes `Search.AliasLookup` |
| Search.Route | search.js:111-147 | an alert iff the trimmed query is blank; then the category match, then the product match, then a single server hit's detail page, then the store listing with the query; every link has no double slash |
| Search.SaleBagQuery | search.js:34 | the sale bag page's query is its own trim and normal form |
| Search.SaleEntryMatches | search.js:56 | the sale category matches the sale bag query |
| Search.SaleBagCategory | search.js:53-64 | the category lookup of the sale bag query finds `sale.html` |
| Search.SaleBagAliasShadowed | search.js:115-127 | the sale bag query is routed to the sale category, although it is a product alias |
| Search.SaleBagListed | search.js:96 | the sale bag query is a name of the sale bag page among the product aliases |
| Search.RouteToCategory | search.js:116-120 | a trimmed query that the category lookup finds goes to that category's real link |
| Bookmark.AddTo | BookMark.js:45-51 | the list only grows, by at most the item stamped with `now` at the end; afterwards the ids are exactly the old ones plus the item's |
| Bookmark.RemoveFrom | BookMark.js:52-55 | no entry with the id is left; every other entry is kept and nothing new appears |
| Bookmark.PageOrder | BookMark.js:170 | a permutation of the list, sorted by time saved, newest first |
| Bookmark.AddKeepsIdsDistinct | BookMark.js:45-51 | adding keeps the ids pairwise distinct |
| Bookmark.RemoveAppend | BookMark.js:53 | removing distributes over concatenation |
| Bookmark.RemoveKeepsOthersInOrder | BookMark.js:53 | an entry with another id stays in its place among the rest |
| Bookmark.RemoveAbsent | BookMark.js:53 | removing an absent id changes nothing |
| Bookmark.RemoveKeepsIdsDistinct | BookMark.js:52-55 | removing keeps the ids pairwise distinct |
| Bookmark.ToggleFlips | BookMark.js:59-62 | a toggle flips whether the item is saved and leaves every other id as it was |
| Bookmark.ToggleTwice | BookMark.js:59-62 | toggling an unsaved item twice gives the list back |
| Bookmark.PageOrderNewestFirst | BookMark.js:170 | on the page a product saved later comes before one saved earlier |
| Bookmark.Favorites.constructor | BookMark.js:18-20 | the module starts with no cache over the stored list |
| Bookmark.Favorites.EnsureCache | BookMark.js:29-32 | returns the current list and fills the cache with it; storage is untouched |
| Bookmark.Favorites.Invalidate | BookMark.js:33 | drops the cache only |
| Bookmark.Favorites.Load | BookMark.js:35-37 | returns the current list and caches it; storage is untouched |
| Bookmark.Favorites.Save | BookMark.js:38-41 | the cache and the storage both hold the list |
| Bookmark.Favorites.Exists | BookMark.js:42-44 | true iff some entry of the current list has the id |
| Bookmark.Favorites.Add | BookMark.js:45-51 | the list becomes `Bookmark.AddTo`; storage is written only when the id was absent |
| Bookmark.Favorites.Remove | BookMark.js:52-55 | the list without the id is cached and stored |
| Bookmark.Favorites.ClearAll | BookMark.js:56-58 | the cache and the storage are empty |
| Bookmark.Favorites.Toggle | BookMark.js:59-62 | the list becomes remove-if-saved, add-otherwise |
| Bookmark.Favorites.OnStorage | BookMark.js:65-67 | a write under the list's key drops the cache, so the next read sees the new value; other keys leave the cache as it is |
| Bookmark.Favorites.Click | BookMark.js:139-156 | an item without id does nothing; otherwise the heart shows the new state, which is the opposite of the old one |
| CouponSelect.OptionsOf | coupon.js:55-60 | one option per coupon, in order |
| CouponSelect.Kept | coupon.js:47-51 | exactly the coupons the filter keeps, from the input |
| CouponSelect.KeptNoFilter | coupon.js:47-51 | with both filters off every coupon is kept, in order |
| CouponSelect.KeepVersusAvailable | coupon.js:47-51 | with both filters on, a coupon is kept iff it is available or unused and expiring exactly at `now` |
| CouponSelect.ExpiringNowIsKeptButUnavailable | coupon.js:84-89 | a list whose one coupon expires at `now` counts as having no available coupon, yet its coupon is kept as an option |
| CouponSelect.IndexOfValue | coupon.js:92 | setting a select's value selects the first option carrying it, or none when no option does |
| CouponSelect.Select.constructor | coupon.js:134-140 | the select the page finds, with its options and selected option |
| CouponSelect.Select.ClearOptions | coupon.js:39-42 | only the first option is left (none from an empty select); when any option was removed, the first option is selected and is the value, otherwise the selection is kept |
| CouponSelect.Select.FillOptions | coupon.js:44-62 | returns the kept coupons sorted by descending priority; the options are the first one followed by one per returned coupon; the first option is selected when the clear removed an option, or when nothing was selected and an option was appended, and the selection is kept otherwise |
| CouponSelect.Select.AppendOptions | coupon.js:55-60 | appends one option per coupon, in order; a select with no selected option gets its first option selected, and a selected one keeps its value |
| CouponSelect.Select.LoadCoupons | coupon.js:73-95 | nothing on 401 or a failed request; otherwise the second fetch replaces a list without available coupons, the options are filled from it, and the value is the code of the first kept coupon; when none is kept, the first option is selected if the clear removed any, and the selection is kept otherwise |
| CouponSelect.DefaultIsHighestPriority | coupon.js:91-92 | the default selection has a priority at least that of every kept coupon |
| CouponSelect.SelectedCode | coupon.js:99-101 | no code field iff the selection is empty |
| CouponSelect.PreviewSendsSelection | coupon.js:99-101 | the server reads exactly the selected code, and no coupon for the empty selection |
| ClientCommon.Available | membership.js:38 | exactly the available coupons, in their original order (the filter of the list by availability); empty iff none is available |
| ClientCommon.CodePriority | coupon.js:22-23 | 3 iff the code starts with M_LV100, at least 2 iff it starts with M_LV10, 1 otherwise |
| ClientCommon.ServerCodesPriority | membership.js:39 | the server's LV100 codes get 3, its LV10 codes 2 and the welcome code 1 |
| ClientCommon.FindTier | membership.js:10 | the first tier, in table order, whose minimum the amount reaches |
| ClientCommon.ClientDecideLevel | MyPage.js:31-36 | no tier for a negative amount; otherwise the same level as the server's `decideLevel` |
| ClientCommon.AboveSortedHead | membership.js:12 | for any table, the first of the tiers above `n` sorted by minimum is the tier with the smallest minimum above `n`, and there is none iff no minimum is above `n` |
| ClientCommon.TiersTop | membership.js:5-9 | three tiers, the top minimum a million and none above it |
| ClientCommon.NextTierIsSmallestAbove | membership.js:11-14 | a next tier exists iff `n` is below a million; then remain > 0, nextMin = n + remain, and it is the smallest tier minimum above `n`; otherwise remain is 0 and nextMin is null |
| ClientCommon.NextTierFollowsLevel | MyPage.js:37-40 | below a million, the next level ranks one above the current level |
| ClientCommon.StatusSumMonotone | MyPage.js:186-189 | counting more statuses never lowers a sum of non-negative totals |
| ClientCommon.CompletedCountsOnlyOnMyPage | MyPage.js:186-189 | a completed order counts 5,000 on My Page and 0 on the server and the membership page |
| Membership.ThemeFromGender | membership.js:17 | Maltiz iff the lower-cased gender is `female` |
| Membership.EnsureCoupons | membership.js:41-56 | at most two claims; the first iff a reached tier lacks an available coupon of its prefix or no coupon is available; the result is the last fetch, and it lacks available coupons only if the fetch before it did too |
| Membership.Lv100CouponPassesLv10Check | membership.js:44-45 | an available LV100 coupon also passes the LV10 prefix check, so it satisfies both tier checks |
| Membership.ShownCoupon | membership.js:58-63 | none iff no coupon is available; otherwise an available coupon of the list |
| Membership.ShownCouponIsBest | membership.js:61-62 | no available coupon has a higher priority than the one shown |
| Membership.RecomputeLifetime | membership.js:78-98 | none on a failed request; the server's lifetime and level when both are given; otherwise the eligible sum of the listed orders and its level, or none when that sum is negative |
| Membership.ToClientOrders | membership.js:88 | each order as the page receives it: its status and total |
| Membership.ClientSumOfUserOrders | membership.js:88-92 | the page's sum over the listed orders is the server's lifetime spend |
| Membership.FallbackAgreesWithServer | membership.js:88-96 | with non-negative totals the fallback gives the server's lifetime and level |
| MyPage.ReplaceChar | MyPage.js:44 | the replaced character is gone unless the replacement holds it, no foreign character appears, and a string without the character is unchanged |
| MyPage.ReplaceCharAppend | MyPage.js:44 | replacing distributes over concatenation |
| MyPage.EscAppend | MyPage.js:44 | escaping distributes over concatenation |
| MyPage.EscIsPerChar | MyPage.js:44 | since `&` is replaced first, the three passes equal replacing each character by its entity independently |
| MyPage.EscSingle | MyPage.js:44 | a single character escapes to its entity |
| MyPage.EscHasNoAngleBrackets | MyPage.js:44 | the escaped text holds no raw `<` or `>` |
| MyPage.EscapeOrderMatters | MyPage.js:44 | replacing `<` before `&` would turn `<` into `&amp;lt;` |
| MyPage.AvailPart | MyPage.js:74-78 | the available group holds only listed-available coupons of the input |
| MyPage.OtherPart | MyPage.js:74-78 | the other group holds only coupons of the input that are not listed-available |
| MyPage.ArrangeCoupons | MyPage.js:70-80 | the partition loop and the sort compute the page's list order |
| MyPage.PartsPartition | MyPage.js:74-78 | the two groups together are a permutation of the input |
| MyPage.CouponListArrangement | MyPage.js:74-80 | a permutation of the coupons: the available ones first, sorted by descending priority, then the rest in input order |
| MyPage.ListedAvailableAtExpiry | MyPage.js:75-77 | the page's rule is `isAvailable` plus the unused coupon expiring exactly at `now` |
| MyPage.ItemsOf | MyPage.js:141-146 | exactly the items with that order id, in input order: the filter of the list by order id |
| MyPage.GroupByOrder | MyPage.js:141-146 | a group exists iff some item carries its id, and holds exactly the items that carry it, in input order; items without an id are in no group |
| MyPage.OrderCardItems | MyPage.js:149-151 | each order card shows exactly the items carrying its id, in input order |
| MyPage.MyPageLifetimeAtLeastServer | MyPage.js:186-190 | with non-negative totals My Page never shows less than the server counts |
| Join.EmailPatternIff | Join.js:44 | the pattern matches iff the address has no white space, exactly one `@` not at the start, and a dot after it with a character on each side |
| Join.EmailPatternShape | Join.js:44 | a match has no white space, one `@` and such a dot |
| Join.ShapeEmailPattern | Join.js:44 | such an address matches |
| Join.EmailPatternTrimmed | Join.js:44 | a matching address is non-empty and is its own trim |
| Join.OnSubmit | Join.js:24-56 | each message iff the earlier checks pass and its own fails: required fields, gender, e-mail pattern, length ≥ 6, equal passwords; success sends the trimmed values, the phone's digits and `female` when that box is checked |
| Join.JoinTheme | Join.js:84 | Maltiz iff the gender sent is `female` |
| Join.GenderAccepted | api/auth.mysql.js:9-15 | both values the page sends normalise on the server to the intended gender, and the signup theme agrees with the membership page's |
| Join.FemaleAccepted | api/auth.mysql.js:13 | `female` normalises to Female and themes as Maltiz |
| Join.MaleAccepted | api/auth.mysql.js:12 | `male` normalises to Male and themes as Retriever |
| Join.NormalizeFixedWord | api/auth.mysql.js:9-15 | a value that is its own trim and lower case normalises by comparison alone |
| Join.BodyAcceptedByServer | Join.js:56 | a body the page sends passes the register input check, its gender normalises as intended, and its phone is digits only |
| Find.FindIdRequest | find.js:14-19 | no request iff the trimmed name is empty or the phone has no digit; otherwise the trimmed name and the phone's digits |
| Find.FindIdRequestAccepted | find.js:14-27 | a request the page sends passes the endpoint's check, and the endpoint looks up the same name and digits |
| Find.LastMatch | find.js:31 | the largest split point up to `hi` where the mask pattern matches, and none above it |
| Find.Mask | find.js:31 | no match leaves the address as it is; otherwise the first two characters, `***`, and the part from the last possible `@` on |
| Find.MaskSingleAt | find.js:31 | with one `@`, a local part of three or more characters and a domain is masked to two characters, `***` and `@domain`; otherwise the address is unchanged |
| Find.MaskExample | find.js:31 | `abcd@x.kr` becomes `ab***@x.kr` |
| Find.MaskShortLocal | find.js:31 | `ab@x.kr` is left as it is |
| Find.ForgotRequest | find.js:55-59 | no request iff the e-mail is all white space; otherwise its trim |
| Find.Prefilled | find.js:98-100 | a non-empty token in the link replaces the field; otherwise the field is kept |
| Find.ResetForm.constructor | find.js:98-100 | the form loads with the token field prefilled from the link |
| Find.ResetForm.Submit | find.js:105-120 | each message iff the earlier checks pass and its own fails: all fields present, passwords equal, length ≥ 4; success sends the trimmed token and the password |
| Find.ResetForm.Done | find.js:124-127 | on success the three fields are emptied, otherwise kept |
| Minigame.Step | Minigame.js:18-71 | before a start or for an invalid guess nothing changes; a correct guess ends the game without using a chance; a wrong one uses exactly one and ends the game iff none is left, else hints up iff the guess is below the secret; the secret never changes |
| Minigame.StoppedStaysStopped | Minigame.js:19-22 | once a game is over, guesses change nothing |
| Minigame.GameEndsWithinChances | Minigame.js:41-68 | a running game is over after at least one and at least as many valid guesses as it has chances |
| Minigame.SecretFixed | Minigame.js:37-68 | the secret stays the same for a whole sequence of guesses |
| Minigame.Game.constructor | Minigame.js:1-3 | no secret, no chances, no game |
| Minigame.Game.StartGame | Minigame.js:5-16 | a choice of 0 or NaN does nothing; any other choice starts a game with that many chances and the drawn secret |
| Minigame.Game.CheckGuess | Minigame.js:18-71 | the new state and the answer are `Minigame.Step` of the old state |
| Minigame.Game.ResetGame | Minigame.js:73-76 | no game, no secret, no chances |
| HomeSlides.JsMod | HomeSlides.js:71-73 | JavaScript's `%` by 4: in [0, 4) and Euclidean for a non-negative dividend; in (−4, 0] and congruent for a negative one |
| HomeSlides.DotsFor | HomeSlides.js:68 | four values, true exactly at the index |
| HomeSlides.NextInRange | HomeSlides.js:71 | `next` keeps the index in range and moves it on by one, wrapping from 3 to 0 |
| HomeSlides.NextNAdvances | HomeSlides.js:71 | k steps of `next` advance the index by k modulo 4 |
| HomeSlides.RotationCycles | HomeSlides.js:71 | four steps bring the rotator back to its slide |
| HomeSlides.NoEarlierReturn | HomeSlides.js:71 | fewer than four steps never do |
| HomeSlides.GoInRange | HomeSlides.js:72-73 | `go(i)` lands in range for i ≥ −4, and on slide i itself for i in range |
| HomeSlides.GoBelowRange | HomeSlides.js:72-73 | below −4, when i + 4 is not a multiple of 4, the index is negative and no dot is marked |
| HomeSlides.OneDotMarked | HomeSlides.js:68 | for an index in range exactly one dot is marked, the one at the index |
| HomeSlides.Rotator.constructor | HomeSlides.js:85-86 | the page loads on slide 0, rendered, with the timer running |
| HomeSlides.Rotator.Render | HomeSlides.js:57-69 | the dots mark the index; an index in range shows its slide, an out-of-range one leaves the slide as it was |
| HomeSlides.Rotator.Next | HomeSlides.js:71 | one slide on, rendered, with the timer unchanged |
| HomeSlides.Rotator.Go | HomeSlides.js:72-76 | the index (i + 4) % 4, rendered; the timer restarted when a user asked, otherwise unchanged |
| HomeSlides.Rotator.Start | HomeSlides.js:78 | a running timer is kept, otherwise one is started; nothing else changes |
| HomeSlides.Rotator.Stop | HomeSlides.js:79 | no timer; nothing else changes |
| HomeSlides.Rotator.Restart | HomeSlides.js:80 | a new timer; nothing else changes |
| Text.Trim | Join.js:24 | the input minus white space at either end: an infix of it, with only white space around it and none at its own ends; empty iff the input is all white space |
| Text.Lower | search.js:34 | each ASCII capital becomes its small letter; nothing else changes |
| Text.Upper | api/shop.mysql.js:346 | each ASCII small letter becomes its capital; nothing else changes |
| Text.Digits | Join.js:30 | exactly the digits of the input, in order; empty iff the input has none |
| Text.DigitsOfDigits | api/auth.mysql.js:117 | a string of digits is its own digit filter |
| Text.ContainsOccurs | search.js:44 | `includes` finds the substring at some index |
| Text.ContainsAt | search.js:44 | an occurrence at some index means `includes` holds |
| Seqs.SortDesc | coupon.js:53 | the sort by descending key returns a permutation of its input, sorted |

## Left out

- SQL string comparisons (`email=?` in `api/auth.mysql.js:46`, `:79` and `:136`, `uc.coupon_code=?` in `api/shop.mysql.js:53-60`) are modelled as exact, case-sensitive equality, that is, as under a binary collation. The schema and its collations are not part of this model; under a case-insensitive collation a coupon code or an email typed in another case would also match.
- The schema's column types are not part of this model. Stock is an unbounded integer, so the oversell of the Findings row, which leaves stock at −1, assumes a signed stock column.
- Database mechanics are not modelled: the connection pool, `FOR UPDATE` row locks, isolation, and races between concurrent requests. A handler is one sequential step, all or nothing. Concurrent oversell and coupon races are therefore not modelled.
- `GET /products` (`api/shop.mysql.js:71-91`) and `GET /cart` (`api/shop.mysql.js:95-105`) only list rows by SQL search and joins, so they are not modelled.
- Rows the database would reject are not modelled: a `user_coupons` row whose code has no type, or a cart row for a missing product. The joins simply drop them.
- Server errors are not modelled: a query that fails for reasons outside the tables (a lost connection, a deadlock), or HTTP status codes other than the error code. Two queries that the input itself makes fail are modelled as errors: `WHERE id=NaN` in the cart delete (`Shop.QueryFailed`) and the empty `LIKE` disjunction `AND ()` of a suggestion query made of separators only (`Ai.QueryFailed`).
- The HTTP status 401 of `requireLogin` is modelled as the answer LOGIN_REQUIRED for a missing session.
- `/api/auth/me`, login and logout (`api/auth.mysql.js:18-35`, `:72-108`) are not modelled. They read or clear the session and call bcrypt. The database-error answers of register (`:61-67`) are not modelled either.
- bcrypt hashing and uuid generation are parameters: register and reset get the hash, and forgot gets the token. Forgot requires a token unused in the table, as the uuid makes it.
- The suggestion query's SQL ranking (`api/ai.js:53-89`), the OpenAI call and the rule-based answer text (`api/ai.js:176-249`) are left out. `Ai.Ask` stops at the facts the answer is built from.
- Browser I/O is left out: DOM, toasts, modals, `fetch` and the network, `localStorage` contents, `location.href`, and the My Page coupon search filter (`MyPage.js:228-238`). Fetch replies and storage values enter as parameters.
- These are left out too: the `setInterval` and `setTimeout` timers, `requestAnimationFrame`, the toast delays and `debounce`. The id a new timer gets is a parameter.
- HomeSlides.Rotator.Render: the update of the link, image and title runs at once here, not in the next animation frame.
- `Math.random` in the guessing game is a parameter, the drawn secret. `new Date()` and `Date.now()` are an explicit `now`.
- Number parsing is left out. `Number(...)` of the chances and of the guess, the quantities and the ids are given as `Option<int>`, where `None` stands for `NaN` or a missing value; the quantity of `/ask` is the exception below. Non-integer numbers are not modelled.
- Ai.NQty and Ai.Ask: a quantity that is not a number (`qty: "abc"`) makes `Math.max(1, Number(qty || 1))` NaN (`api/ai.js:116`), and the answer's quantity and subtotal NaN with it; the fee is then the product's own, since `NaN >= 20000` is false (`api/ai.js:166`). The model's numbers are integers: its `None` is a missing or zero quantity, which gives 1, and a non-numeric quantity is not modelled.
- Floats and formatting are not modelled: the progress-bar percentage, `toLocaleString` amounts and dates, and dates as strings. Timestamps are integers.
- `Text.Lower` and `Text.Upper` cover ASCII letters only, so `toLowerCase`, `toUpperCase` and SQL `UPPER` on other scripts are not modelled. Every fixed word the core compares is ASCII or has no case.
- Join.OnSubmit: the password length counts Unicode code points, while JavaScript counts UTF-16 units. The two differ only for characters outside the Basic Multilingual Plane.
- Find.ResetForm.Submit: the minimum length likewise counts code points, not UTF-16 units.
- Find.Mask and Find.MaskSingleAt: the mask's `.{2}` and `.+` (`find.js:31`) count UTF-16 units, while the model's kept prefix `s[..2]` and its bound of three characters before the `@` count code points. An address that starts with a character outside the Basic Multilingual Plane is therefore masked differently by the page: it keeps only the two halves of that one character.
- ShopStore.ValidateDirect and ShopStore.Store.CheckoutDirect: they implement the corrected per-product stock check of the Findings row (`Shop.DirectTotal`), not the loop as written. For the items [{1, 3}, {1, 3}] at stock 5 they answer OUT_OF_STOCK, where `api/shop.mysql.js:298-305` accepts. The loop as written is `Shop.DirectTotalAsWritten`.
- Seqs.SortDesc: the JavaScript sorts are modelled as an insertion sort by descending key, which keeps equal keys in input order as engines since ES2019 do. The contract states the permutation and the order, not the stability.
- CouponSelect.Select: the selectedness rule of the HTML select element is modelled for a drop-down with no disabled options, which is what the page's coupon select is; `multiple`, a list box and a disabled first option are not modelled.
- CouponSelect.FetchOk is a definition without its own contract. `CouponSelect.Select.LoadCoupons` states what it decides.
- Minigame.Game.StartGame: the secret is drawn before the check on the choice. A start that does nothing discards that draw, with no other observable difference.

## Findings

| source | as written | input that shows it | evidently intended | confidence | as-written member | corrected member |
|---|---|---|---|---|---|---|
| api/shop.mysql.js:298-305 | the direct-purchase loop compares each item's quantity with the stock read once before the loop, so the same product listed twice is checked twice against the full stock | the items [{productId 1, quantity 3}, {productId 1, quantity 3}] with stock 5: accepted with total 6,000, and the two decrements leave stock −1 | an item fails OUT_OF_STOCK when, together with the quantities requested before it for the same product, it exceeds the stock | not executed | Shop.DirectOversellAsWritten | Shop.DirectWithinStock |
