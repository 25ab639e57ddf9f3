/** The account recovery page: the find-id request and how the e-mail it
    returns is masked, the reset-start request, and the reset-confirm form
    with its token pre-filled from the address, its checks in order and the
    body it sends. */
module Find {
  import opened Wrappers
  import opened Text
  import Auth

  // ---------------------------------------------------------------- find-id

  /** The body of the find-id request. */
  datatype FindIdBody = FindIdBody(name: string, phone: string)

  /** The find-id handler up to the request: the name trimmed and the phone
      reduced to its digits; no request when either ends up empty. */
  function FindIdRequest(name: string, phone: string): (r: Option<FindIdBody>)
    ensures r.None? <==> Trim(name) == [] || forall i | 0 <= i < |phone| :: !IsDigit(phone[i])
    ensures r.Some? ==> r.value.name == Trim(name) && r.value.phone == Digits(phone)
  {
    var n := Trim(name);
    var p := Digits(phone);
    if n == [] || p == [] then None else Some(FindIdBody(n, p))
  }

  /** A request the page sends passes the endpoint's input check, and the
      endpoint's own digit filter leaves its phone as it is: the lookup is by
      the trimmed name and the typed digits. */
  lemma FindIdRequestAccepted(users: seq<Auth.User>, name: string, phone: string)
    requires FindIdRequest(name, phone).Some?
    ensures var b := FindIdRequest(name, phone).value;
      && b.name != [] && b.phone != []
      && Digits(b.phone) == b.phone
      && Auth.FindEmail(users, b.name, Digits(b.phone)) == Auth.FindEmail(users, Trim(name), Digits(phone))
  {
    DigitsOfDigits(Digits(phone));
  }

  // ---------------------------------------------------------------- masking

  /** The characters the pattern's `.` matches: all but the line terminators. */
  predicate Dot(c: char) {
    c != '\n' && c != '\r' && c != '\U{2028}' && c != '\U{2029}'
  }

  predicate AllDot(s: string) {
    forall i | 0 <= i < |s| :: Dot(s[i])
  }

  /** `^(.{2}).+(@.+)$` matches with the second group starting at `k`: two
      characters, at least one more, `@` at `k` and at least one after it. */
  predicate MaskMatchAt(s: string, k: nat) {
    3 <= k && k + 1 < |s| && s[k] == '@' && AllDot(s)
  }

  /** The largest `k`, from `hi` down to 3, where the pattern matches: the
      greedy `.+` gives back characters from the end until `@.+` fits. */
  function LastMatch(s: string, hi: nat): (r: Option<nat>)
    ensures r.Some? ==> r.value <= hi && MaskMatchAt(s, r.value)
    ensures forall k: nat | (if r.Some? then r.value < k else 3 <= k) && k <= hi :: !MaskMatchAt(s, k)
    decreases hi
  {
    if hi < 3 then None
    else if MaskMatchAt(s, hi) then Some(hi)
    else LastMatch(s, hi - 1)
  }

  /** The masked e-mail: the first two characters, `***` and the part from the
      chosen `@` on; the e-mail itself when the pattern does not match. */
  function Mask(s: string): (r: string)
    ensures (forall k: nat :: !MaskMatchAt(s, k)) ==> r == s
    ensures (exists k: nat :: MaskMatchAt(s, k)) ==>
      exists k: nat | MaskMatchAt(s, k) ::
        && r == s[..2] + "***" + s[k..]
        && forall k': nat | k < k' :: !MaskMatchAt(s, k')
  {
    var m := LastMatch(s, |s|);
    if m.Some? then s[..2] + "***" + s[m.value..] else s
  }

  /** For an address with one `@`: a local part of three or more characters
      and a non-empty domain give the first two characters, `***` and the part
      from `@` on; otherwise the address comes back as it is. */
  lemma MaskSingleAt(s: string, i: nat)
    requires AllDot(s) && i < |s| && s[i] == '@' && forall k | 0 <= k < |s| && k != i :: s[k] != '@'
    ensures 3 <= i && i + 1 < |s| ==> Mask(s) == s[..2] + "***" + s[i..]
    ensures i <= 2 || i + 1 == |s| ==> Mask(s) == s
  {
    var m := LastMatch(s, |s|);
    if m.Some? {
      assert m.value == i;
    }
    if 3 <= i && i + 1 < |s| {
      assert MaskMatchAt(s, i);
    }
  }

  /** An address with a local part of three or more characters comes back
      masked, as `ab***@domain`. */
  lemma MaskExample()
    ensures Mask("abcd@x.kr") == "ab***@x.kr"
  {
    var s := "abcd@x.kr";
    MaskSingleAt(s, 4);
    assert s[..2] == "ab" && s[4..] == "@x.kr";
  }

  /** A local part of up to two characters leaves the e-mail unmasked. */
  lemma MaskShortLocal()
    ensures Mask("ab@x.kr") == "ab@x.kr"
  {
    MaskSingleAt("ab@x.kr", 2);
  }

  // ---------------------------------------------------------------- reset start

  /** The reset-start handler up to the request: the e-mail trimmed, no
      request when that is empty. */
  function ForgotRequest(email: string): (r: Option<string>)
    ensures r.None? <==> forall i | 0 <= i < |email| :: IsSpace(email[i])
    ensures r.Some? ==> r.value == Trim(email) && r.value != []
  {
    var e := Trim(email);
    if e == [] then None else Some(e)
  }

  // ---------------------------------------------------------------- reset confirm

  /** The message shown, one per check, in the order the checks run. */
  datatype ResetError = FillAll | Mismatch | TooShort

  /** The body of the reset request. */
  datatype ResetBody = ResetBody(token: string, newPassword: string)

  const MIN_RESET_PASSWORD: nat := 4

  /** What a token parameter does to the field: a non-empty one replaces it. */
  function Prefilled(field: string, fromUrl: Option<string>): (r: string)
    ensures fromUrl.Some? && fromUrl.value != [] ==> r == fromUrl.value
    ensures fromUrl.None? || fromUrl.value == [] ==> r == field
  {
    if fromUrl.Some? && fromUrl.value != [] then fromUrl.value else field
  }

  /** The reset-confirm form: the values of its token and two password fields. */
  class ResetForm {
    var token: string
    var pw1: string
    var pw2: string

    /** The form as the page loads it: the token field takes the `token`
        parameter of the address when that is present and not empty. */
    constructor (token0: string, pw10: string, pw20: string, fromUrl: Option<string>)
      ensures token == Prefilled(token0, fromUrl) && pw1 == pw10 && pw2 == pw20
    {
      token := Prefilled(token0, fromUrl);
      pw1 := pw10;
      pw2 := pw20;
    }

    /** The submit handler up to the request: the token trimmed, the
        passwords as typed, then the checks in order. */
    method Submit() returns (r: Result<ResetBody, ResetError>)
      ensures r == Err(FillAll) <==> Trim(token) == [] || pw1 == [] || pw2 == []
      ensures r == Err(Mismatch) <==> Trim(token) != [] && pw1 != [] && pw2 != [] && pw1 != pw2
      ensures r == Err(TooShort) <==>
        Trim(token) != [] && pw1 != [] && pw1 == pw2 && |pw1| < MIN_RESET_PASSWORD
      ensures r.Ok? <==> Trim(token) != [] && pw1 == pw2 && |pw1| >= MIN_RESET_PASSWORD
      ensures r.Ok? ==> r.value == ResetBody(Trim(token), pw1)
    {
      var t := Trim(token);
      var p1 := pw1;
      var p2 := pw2;
      if t == [] || p1 == [] || p2 == [] {
        return Err(FillAll);
      }
      if p1 != p2 {
        return Err(Mismatch);
      }
      if |p1| < MIN_RESET_PASSWORD {
        return Err(TooShort);
      }
      r := Ok(ResetBody(t, p1));
    }

    /** The reply to the request: on success the three fields are emptied. */
    method Done(ok: bool)
      modifies this
      ensures ok ==> token == [] && pw1 == [] && pw2 == []
      ensures !ok ==> token == old(token) && pw1 == old(pw1) && pw2 == old(pw2)
    {
      if ok {
        pw1 := [];
        pw2 := [];
        token := [];
      }
    }
  }
}
