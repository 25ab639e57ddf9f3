/** The coupon picker of the checkout page: the select element's options and
    value, how they are cleared and filled, the default choice, the success
    rule of its requests and the coupon code the preview request carries. */
module CouponSelect {
  import opened Wrappers
  import Seqs
  import opened ClientCommon

  /** The `ok` field of a response body, as far as the success rule looks at
      it: absent (also when the body is not JSON), the literal `false`, or any
      other value. */
  datatype OkField = NoOk | OkFalse | OkOther

  /** A request succeeds when its HTTP status is ok and its body does not say
      `ok: false`; an HTTP 200 carrying `ok: false` is a failure. */
  function FetchOk(httpOk: bool, ok: OkField): bool {
    httpOk && ok != OkFalse
  }

  datatype SelOption = SelOption(value: string, text: string)

  /** The option a coupon becomes: its code as the value, its label (or, when
      there is none, its code) as the text. */
  function OptionOf(c: Coupon): SelOption {
    SelOption(c.code, if c.title != "" then c.title else c.code)
  }

  function OptionsOf(cs: seq<Coupon>): (r: seq<SelOption>)
    ensures |r| == |cs|
    ensures forall i | 0 <= i < |cs| :: r[i] == OptionOf(cs[i])
  {
    seq(|cs|, i requires 0 <= i < |cs| => OptionOf(cs[i]))
  }

  lemma OptionsOfPrefix(cs: seq<Coupon>, i: nat)
    requires i < |cs|
    ensures OptionsOf(cs[..i + 1]) == OptionsOf(cs[..i]) + [OptionOf(cs[i])]
  {
  }

  /** The option filter: a used coupon is dropped when `filterUsed` is on, and
      one whose expiry lies strictly before `now` when `filterExpired` is on. */
  predicate Keep(c: Coupon, filterExpired: bool, filterUsed: bool, now: Time) {
    && !(filterUsed && Used(c))
    && !(filterExpired && c.expiresAt.Some? && c.expiresAt.value < now)
  }

  /** The coupons the filter keeps, in input order. */
  function Kept(cs: seq<Coupon>, filterExpired: bool, filterUsed: bool, now: Time): (r: seq<Coupon>)
    ensures |r| <= |cs|
    ensures forall c | c in r :: c in cs && Keep(c, filterExpired, filterUsed, now)
    ensures forall i | 0 <= i < |cs| && Keep(cs[i], filterExpired, filterUsed, now) :: cs[i] in r
  {
    if cs == [] then []
    else
      var init := cs[..|cs| - 1];
      var rest := Kept(init, filterExpired, filterUsed, now);
      assert forall i | 0 <= i < |init| :: init[i] == cs[i];
      if Keep(cs[|cs| - 1], filterExpired, filterUsed, now) then rest + [cs[|cs| - 1]] else rest
  }

  /** With both filters off every coupon is kept, in order. */
  lemma {:induction false} KeptNoFilter(cs: seq<Coupon>, now: Time)
    ensures Kept(cs, false, false, now) == cs
  {
    if cs != [] {
      KeptNoFilter(cs[..|cs| - 1], now);
      assert cs == cs[..|cs| - 1] + [cs[|cs| - 1]];
    }
  }

  /** The option filter, with both filters on, keeps exactly the available
      coupons and, besides them, the unused coupons that expire at `now`. */
  lemma KeepVersusAvailable(c: Coupon, now: Time)
    ensures Keep(c, true, true, now) <==> IsAvailable(c, now) || (!Used(c) && c.expiresAt == Some(now))
  {
  }

  /** A list whose one coupon expires at `now` counts as having no available
      coupon, yet the filter keeps that coupon as an option. */
  lemma ExpiringNowIsKeptButUnavailable(code: string, now: Time)
    ensures var cs := [Coupon(code, "", Some(now), None)];
      !HasAvailable(cs, now) && Kept(cs, true, true, now) == cs
  {
    var cs := [Coupon(code, "", Some(now), None)];
    assert cs[..0] == [];
  }

  /** The first option of a select whose options are `opts`, alone. */
  function FirstOnly(opts: seq<SelOption>): seq<SelOption> {
    if opts == [] then [] else opts[..1]
  }

  /** The answer of `/api/coupons/me`: its HTTP status and ok flag, the body's
      `ok` field and the coupon list when the body has one. */
  datatype CouponsReply = CouponsReply(status: int, httpOk: bool, ok: OkField, coupons: Option<seq<Coupon>>)

  /** The index of the first option whose value is `v`, or -1 when there is none. */
  function IndexOfValue(opts: seq<SelOption>, v: string): (r: int)
    ensures -1 <= r < |opts|
    ensures r >= 0 ==> opts[r].value == v && forall j | 0 <= j < r :: opts[j].value != v
    ensures r == -1 ==> forall j | 0 <= j < |opts| :: opts[j].value != v
  {
    if opts == [] then -1
    else if opts[0].value == v then 0
    else
      var k := IndexOfValue(opts[1..], v);
      assert forall j | 1 <= j < |opts| :: opts[1..][j - 1] == opts[j];
      if k == -1 then -1 else k + 1
  }

  /** The value of a select: that of its selected option, the empty string when
      no option is selected. */
  function ValueOf(opts: seq<SelOption>, selected: int): string {
    if 0 <= selected < |opts| then opts[selected].value else ""
  }

  /** Setting the value of an option that exists selects an option with that value. */
  lemma SetExistingValue(opts: seq<SelOption>, i: nat)
    requires i < |opts|
    ensures IndexOfValue(opts, opts[i].value) >= 0
    ensures ValueOf(opts, IndexOfValue(opts, opts[i].value)) == opts[i].value
  {
  }

  /** A single-choice select element. The page reads and writes it through
      `value`; the element itself keeps which option is selected. Following the
      selectedness rule of the HTML select element, whenever options are removed
      or inserted while none is selected, the first option becomes selected. */
  class Select {
    var options: seq<SelOption>
    /** The index of the selected option, -1 when none is. */
    var selected: int

    ghost predicate Valid()
      reads this
    {
      -1 <= selected < |options|
    }

    /** `select.value`. */
    function Value(): string
      reads this
    {
      ValueOf(options, selected)
    }

    constructor (options0: seq<SelOption>, selected0: int)
      requires -1 <= selected0 < |options0|
      ensures Valid()
      ensures options == options0 && selected == selected0
    {
      options := options0;
      selected := selected0;
    }

    /** Removes the second option until only the first is left. Removing the
        selected option, or any option while none is selected, selects the
        first one; so a select that had two or more options ends with its first
        option selected. */
    method ClearOptions()
      requires Valid()
      modifies this
      ensures Valid()
      ensures options == FirstOnly(old(options))
      ensures |old(options)| > 1 ==> selected == 0 && Value() == old(options)[0].value
      ensures |old(options)| <= 1 ==> selected == old(selected) && Value() == old(Value())
    {
      while |options| > 1
        invariant Valid()
        invariant old(options) == [] ==> options == []
        invariant old(options) != [] ==> 1 <= |options| <= |old(options)|
        invariant old(options) != [] ==> options == old(options)[..1] + old(options)[|old(options)| - |options| + 1..]
        invariant |options| < |old(options)| ==> selected >= 0
        invariant |options| == |old(options)| ==> selected == old(selected)
        decreases |options|
      {
        // `select.remove(1)`
        options := options[..1] + options[2..];
        selected := if selected <= 1 then 0 else selected - 1;
      }
    }

    /** Clears the options, filters the coupons, sorts them by descending
        priority (a stable sort) and appends one option per coupon in that
        order; returns the sorted list. */
    method FillOptions(coupons: seq<Coupon>, filterExpired: bool, filterUsed: bool, now: Time) returns (filtered: seq<Coupon>)
      requires Valid()
      modifies this
      ensures Valid()
      ensures filtered == Seqs.SortDesc(Kept(coupons, filterExpired, filterUsed, now), Prio)
      ensures options == FirstOnly(old(options)) + OptionsOf(filtered)
      ensures selected == if |old(options)| > 1 || (old(selected) == -1 && filtered != []) then 0 else old(selected)
      ensures old(options) != [] && selected == 0 ==> Value() == old(options)[0].value
    {
      ClearOptions();
      filtered := Kept(coupons, filterExpired, filterUsed, now);
      filtered := Seqs.SortDesc(filtered, Prio);
      AppendOptions(filtered);
    }

    /** Appends one option per coupon, in order; the first option becomes
        selected when none was. */
    method AppendOptions(cs: seq<Coupon>)
      requires Valid()
      modifies this
      ensures Valid()
      ensures options == old(options) + OptionsOf(cs)
      ensures selected == if old(selected) == -1 && cs != [] then 0 else old(selected)
      ensures old(selected) >= 0 ==> Value() == old(Value())
    {
      for i := 0 to |cs|
        invariant Valid()
        invariant options == old(options) + OptionsOf(cs[..i])
        invariant selected == if old(selected) == -1 && i > 0 then 0 else old(selected)
      {
        OptionsOfPrefix(cs, i);
        options := options + [OptionOf(cs[i])];
        if selected == -1 {
          selected := 0;
        }
      }
      assert cs[..|cs|] == cs;
    }

    /** Loads the coupons: nothing on 401 or a failed request; otherwise the
        list, replaced by the list fetched after a resync and a claim
        (`again`) when none of it is available; then fills the options and
        sets the value to the code of the first one. */
    method LoadCoupons(first: CouponsReply, again: Option<seq<Coupon>>, filterExpired: bool, filterUsed: bool, now: Time) returns (coupons: seq<Coupon>)
      requires Valid()
      modifies this
      ensures Valid()
      ensures first.status == 401 || !FetchOk(first.httpOk, first.ok) ==>
        coupons == [] && options == old(options) && selected == old(selected)
      ensures first.status != 401 && FetchOk(first.httpOk, first.ok) ==>
        var got := first.coupons.GetOr([]);
        coupons == (if HasAvailable(got, now) then got else again.GetOr([]))
      ensures first.status != 401 && FetchOk(first.httpOk, first.ok) ==>
        var filled := Seqs.SortDesc(Kept(coupons, filterExpired, filterUsed, now), Prio);
        && options == FirstOnly(old(options)) + OptionsOf(filled)
        && (filled != [] ==> selected == IndexOfValue(options, filled[0].code) && Value() == filled[0].code)
        && (filled == [] ==> selected == if |old(options)| > 1 then 0 else old(selected))
    {
      if first.status == 401 {
        return [];
      }
      if !FetchOk(first.httpOk, first.ok) {
        return [];
      }
      var got := first.coupons.GetOr([]);
      coupons := if HasAvailable(got, now) then got else again.GetOr([]);
      var filled := FillOptions(coupons, filterExpired, filterUsed, now);
      if |filled| > 0 {
        // `select.value = filled[0].code` selects the first option with that value
        var k := IndexOfValue(options, filled[0].code);
        assert ValueOf(options, k) == filled[0].code by {
          assert options[|options| - |filled|] == OptionOf(filled[0]);
          SetExistingValue(options, |options| - |filled|);
        }
        selected := k;
      }
    }
  }

  /** The default choice is a kept coupon of the highest priority. */
  lemma DefaultIsHighestPriority(coupons: seq<Coupon>, filterExpired: bool, filterUsed: bool, now: Time, i: nat)
    requires i < |coupons| && Keep(coupons[i], filterExpired, filterUsed, now)
    ensures var filled := Seqs.SortDesc(Kept(coupons, filterExpired, filterUsed, now), Prio);
      filled != [] && filled[0] in coupons && Prio(coupons[i]) <= Prio(filled[0])
  {
    var kept := Kept(coupons, filterExpired, filterUsed, now);
    assert coupons[i] in kept;
    Seqs.SortDescHeadIsMax(kept, Prio, coupons[i]);
  }

  /** The coupon code of the preview request: the selected value, or no field
      at all for the empty selection. */
  function SelectedCode(value: string): (r: Option<string>)
    ensures r.None? <==> value == ""
  {
    if value == "" then None else Some(value)
  }

  /** The code the server reads from the body, the empty string when absent. */
  function ServerCode(body: Option<string>): string {
    body.GetOr("")
  }

  /** The server sees exactly the selected code, and no coupon for the empty selection. */
  lemma PreviewSendsSelection(value: string)
    ensures ServerCode(SelectedCode(value)) == value
  {
  }
}
