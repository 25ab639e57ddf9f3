/** The account endpoints of the API: registration with its input and
    duplicate checks, the normalised gender and phone it stores, the e-mail
    lookup by name and phone, and the life of a password-reset token from
    issue to single use. Password hashing and token generation are outside
    the model: their results arrive as parameters. */
module Auth {
  import opened Wrappers
  import opened Text
  import Seqs

  type UserId = nat
  /** A timestamp, in milliseconds. */
  type Time = int

  /** How long a reset token stays valid: 30 minutes. */
  const RESET_TTL: int := 1000 * 60 * 30

  datatype Gender = Male | Female

  /** The value the database column stores. */
  function GenderName(g: Gender): string {
    match g
    case Male => "Male"
    case Female => "Female"
  }

  /** The gender the register endpoint stores: `male`/`m` and `female`/`f`,
      trimmed and in any case; anything else, the empty input included, is none. */
  function NormalizeGender(v: string): (r: Option<Gender>)
    ensures r == Some(Male) <==> Lower(Trim(v)) == "male" || Lower(Trim(v)) == "m"
    ensures r == Some(Female) <==> Lower(Trim(v)) == "female" || Lower(Trim(v)) == "f"
  {
    if v == "" then None
    else
      var s := Lower(Trim(v));
      if s == "male" || s == "m" then Some(Male)
      else if s == "female" || s == "f" then Some(Female)
      else None
  }

  /** The stored name of a gender normalises back to that gender. */
  lemma GenderRoundTrip(g: Gender)
    ensures NormalizeGender(GenderName(g)) == Some(g)
  {
    if g == Male {
      MaleName(GenderName(g), "male");
    } else {
      FemaleName(GenderName(g), "female");
    }
  }

  lemma MaleName(v: string, w: string)
    requires v == "Male" && w == "male"
    ensures NormalizeGender(v) == Some(Male)
  {
    assert |v| == 4 && v[0] == 'M' && v[3] == 'e';
    TrimUnchanged(v);
    forall i | 0 <= i < |v| ensures Lower(v)[i] == w[i] {
      if i == 0 {} else if i == 1 {} else if i == 2 {} else {}
    }
    assert Lower(Trim(v)) == w;
  }

  lemma FemaleName(v: string, w: string)
    requires v == "Female" && w == "female"
    ensures NormalizeGender(v) == Some(Female)
  {
    assert |v| == 6 && v[0] == 'F' && v[5] == 'e';
    TrimUnchanged(v);
    forall i | 0 <= i < |v| ensures Lower(v)[i] == w[i] {
      if i == 0 {} else if i == 1 {} else if i == 2 {} else if i == 3 {} else if i == 4 {} else {}
    }
    assert Lower(Trim(v)) == w;
    assert w[0] == 'f' && |w| == 6;
    assert w != "male" && w != "m";
  }

  /** The stored phone: its digits, or none when there are none. */
  function PhoneNorm(phone: string): (r: Option<string>)
    ensures r.None? <==> forall i | 0 <= i < |phone| :: !IsDigit(phone[i])
    ensures r.Some? ==> r.value != [] && forall i | 0 <= i < |r.value| :: IsDigit(r.value[i])
    ensures r.Some? ==> r.value == Seqs.Filter(phone, IsDigit)
  {
    var d := Digits(phone);
    if d == [] then None else Some(d)
  }

  /** Normalising a stored phone again leaves it as it is. */
  lemma PhoneNormIdempotent(phone: string)
    requires PhoneNorm(phone).Some?
    ensures PhoneNorm(PhoneNorm(phone).value) == PhoneNorm(phone)
  {
    DigitsOfDigits(Digits(phone));
  }

  // ---------------------------------------------------------------- tables

  datatype User = User(
    id: UserId, email: string, name: string, passwordHash: string,
    address: Option<string>, phone: Option<string>, gender: Option<Gender>)

  /** A `password_resets` row. */
  datatype ResetRow = ResetRow(id: nat, token: string, user: UserId, expiresAt: Time, used: bool)

  datatype AuthTables = AuthTables(users: seq<User>, resets: seq<ResetRow>, nextUserId: nat, nextResetId: nat)

  datatype AuthError = InvalidInput | EmailExists | InvalidOrExpired

  /** Ids and e-mails are unique and below the next ids; tokens are unique
      (they are random UUIDs). */
  ghost predicate AuthValid(t: AuthTables) {
    && (forall i, j | 0 <= i < j < |t.users| :: t.users[i].id != t.users[j].id && t.users[i].email != t.users[j].email)
    && (forall i | 0 <= i < |t.users| :: t.users[i].id < t.nextUserId)
    && (forall i, j | 0 <= i < j < |t.resets| :: t.resets[i].id != t.resets[j].id && t.resets[i].token != t.resets[j].token)
    && (forall i | 0 <= i < |t.resets| :: t.resets[i].id < t.nextResetId)
  }

  predicate EmailTaken(users: seq<User>, email: string) {
    exists i | 0 <= i < |users| :: users[i].email == email
  }

  /** The first user with the e-mail. */
  function FindByEmail(users: seq<User>, email: string, from: nat): (r: Option<nat>)
    requires from <= |users|
    ensures r.Some? ==> from <= r.value < |users| && users[r.value].email == email
    ensures r.None? <==> forall k | from <= k < |users| :: users[k].email != email
    decreases |users| - from
  {
    if from == |users| then None
    else if users[from].email == email then Some(from)
    else FindByEmail(users, email, from + 1)
  }

  /** The row the register endpoint inserts; an empty address is stored as none. */
  function NewUser(id: UserId, email: string, name: string, hash: string, address: string, phone: string, gender: string): User {
    User(id, email, name, hash, if address == "" then None else Some(address), PhoneNorm(phone), NormalizeGender(gender))
  }

  function InsertUser(t: AuthTables, email: string, name: string, hash: string, address: string, phone: string, gender: string): AuthTables {
    t.(users := t.users + [NewUser(t.nextUserId, email, name, hash, address, phone, gender)], nextUserId := t.nextUserId + 1)
  }

  /** Registering a new e-mail keeps the tables valid and makes the e-mail taken. */
  lemma InsertUserValid(t: AuthTables, email: string, name: string, hash: string, address: string, phone: string, gender: string)
    requires AuthValid(t) && !EmailTaken(t.users, email)
    ensures var t' := InsertUser(t, email, name, hash, address, phone, gender);
      AuthValid(t') && EmailTaken(t'.users, email) && t'.resets == t.resets
  {
    var t' := InsertUser(t, email, name, hash, address, phone, gender);
    assert t'.users[|t.users|].email == email;
    forall i, j | 0 <= i < j < |t'.users| ensures t'.users[i].id != t'.users[j].id && t'.users[i].email != t'.users[j].email {
      if j == |t.users| {
        assert t'.users[i] == t.users[i];
      } else {
        assert t'.users[i] == t.users[i] && t'.users[j] == t.users[j];
      }
    }
  }

  /** A user with that name and phone. */
  predicate NamePhoneMatch(u: User, name: string, phoneDigits: string) {
    u.name == name && u.phone == Some(phoneDigits)
  }

  /** The e-mail of the first user with the name and phone. */
  function FindEmail(users: seq<User>, name: string, phoneDigits: string): (r: Option<string>)
    ensures r.None? <==> forall i | 0 <= i < |users| :: !NamePhoneMatch(users[i], name, phoneDigits)
    ensures r.Some? ==> exists i | 0 <= i < |users| :: NamePhoneMatch(users[i], name, phoneDigits) && users[i].email == r.value
  {
    if users == [] then None
    else if NamePhoneMatch(users[0], name, phoneDigits) then Some(users[0].email)
    else
      var r := FindEmail(users[1..], name, phoneDigits);
      assert forall i | 1 <= i < |users| :: users[1..][i - 1] == users[i];
      r
  }

  /** A member who gave a phone with digits is found again by name and phone. */
  lemma FindEmailAfterRegister(t: AuthTables, email: string, name: string, hash: string, address: string, phone: string, gender: string)
    requires PhoneNorm(phone).Some?
    requires forall i | 0 <= i < |t.users| :: !NamePhoneMatch(t.users[i], name, Digits(phone))
    ensures FindEmail(InsertUser(t, email, name, hash, address, phone, gender).users, name, Digits(phone)) == Some(email)
  {
    var us := InsertUser(t, email, name, hash, address, phone, gender).users;
    assert NamePhoneMatch(us[|t.users|], name, Digits(phone));
    forall k | 0 <= k < |t.users| ensures !NamePhoneMatch(us[k], name, Digits(phone)) {
      assert us[k] == t.users[k];
    }
    var r := FindEmail(us, name, Digits(phone));
    var i :| 0 <= i < |us| && NamePhoneMatch(us[i], name, Digits(phone)) && us[i].email == r.value;
    assert i == |t.users|;
  }

  /** The row the forgot endpoint inserts: unused, expiring 30 minutes after `now`. */
  function InsertReset(t: AuthTables, token: string, user: UserId, now: Time): AuthTables {
    t.(resets := t.resets + [ResetRow(t.nextResetId, token, user, now + RESET_TTL, false)], nextResetId := t.nextResetId + 1)
  }

  predicate Redeemable(r: ResetRow, token: string, now: Time) {
    r.token == token && !r.used && r.expiresAt > now
  }

  /** The first row with the token that is unused and not yet expired. */
  function FindReset(resets: seq<ResetRow>, token: string, now: Time, from: nat): (r: Option<nat>)
    requires from <= |resets|
    ensures r.Some? ==> from <= r.value < |resets| && Redeemable(resets[r.value], token, now)
    ensures r.None? <==> forall k | from <= k < |resets| :: !Redeemable(resets[k], token, now)
    decreases |resets| - from
  {
    if from == |resets| then None
    else if Redeemable(resets[from], token, now) then Some(from)
    else FindReset(resets, token, now, from + 1)
  }

  /** The users with the id get the new hash; nobody else changes. */
  function SetPasswordHash(users: seq<User>, id: UserId, hash: string): (r: seq<User>)
    ensures |r| == |users|
    ensures forall i | 0 <= i < |users| :: r[i] == if users[i].id == id then users[i].(passwordHash := hash) else users[i]
  {
    seq(|users|, i requires 0 <= i < |users| => if users[i].id == id then users[i].(passwordHash := hash) else users[i])
  }

  /** The rows with the id are marked used; nothing else changes. */
  function MarkUsed(resets: seq<ResetRow>, id: nat): (r: seq<ResetRow>)
    ensures |r| == |resets|
    ensures forall i | 0 <= i < |resets| :: r[i] == if resets[i].id == id then resets[i].(used := true) else resets[i]
  {
    seq(|resets|, i requires 0 <= i < |resets| => if resets[i].id == id then resets[i].(used := true) else resets[i])
  }

  /** A freshly issued token is redeemable until 30 minutes have passed, and
      no longer from then on. */
  lemma IssuedTokenLifetime(t: AuthTables, token: string, user: UserId, now: Time, later: Time)
    requires forall k | 0 <= k < |t.resets| :: t.resets[k].token != token
    requires now <= later
    ensures var rs := InsertReset(t, token, user, now).resets;
      && (later < now + RESET_TTL ==> FindReset(rs, token, later, 0) == Some(|t.resets|))
      && (later >= now + RESET_TTL ==> FindReset(rs, token, later, 0).None?)
  {
    var rs := InsertReset(t, token, user, now).resets;
    assert forall k | 0 <= k < |t.resets| :: rs[k] == t.resets[k];
    var r := FindReset(rs, token, later, 0);
    if later < now + RESET_TTL {
      assert Redeemable(rs[|t.resets|], token, later);
    }
  }

  /** Once redeemed, a token (unique among the rows) is redeemable no more. */
  lemma RedeemedTokenRejected(t: AuthTables, token: string, now: Time, later: Time)
    requires AuthValid(t)
    requires FindReset(t.resets, token, now, 0).Some?
    ensures var row := t.resets[FindReset(t.resets, token, now, 0).value];
      FindReset(MarkUsed(t.resets, row.id), token, later, 0).None?
  {
    var k := FindReset(t.resets, token, now, 0).value;
    var rs := MarkUsed(t.resets, t.resets[k].id);
    forall j | 0 <= j < |rs| ensures !Redeemable(rs[j], token, later) {
      if j != k {
        assert t.resets[j].token != t.resets[k].token;
      }
    }
  }

  /** A password reset changes the hash of its own user only. */
  lemma ResetTouchesOwnerOnly(users: seq<User>, id: UserId, hash: string, i: nat)
    requires i < |users|
    ensures var r := SetPasswordHash(users, id, hash);
      && (users[i].id == id ==> r[i].passwordHash == hash)
      && r[i].(passwordHash := users[i].passwordHash) == users[i]
      && (users[i].id != id ==> r[i] == users[i])
  {
  }

  lemma MarkUsedValid(t: AuthTables, id: nat)
    requires AuthValid(t)
    ensures AuthValid(t.(resets := MarkUsed(t.resets, id)))
  {
  }

  lemma InsertResetValid(t: AuthTables, token: string, user: UserId, now: Time)
    requires AuthValid(t)
    requires forall k | 0 <= k < |t.resets| :: t.resets[k].token != token
    ensures AuthValid(InsertReset(t, token, user, now))
  {
    var t' := InsertReset(t, token, user, now);
    forall i, j | 0 <= i < j < |t'.resets| ensures t'.resets[i].id != t'.resets[j].id && t'.resets[i].token != t'.resets[j].token {
      if j == |t.resets| {
        assert t'.resets[i] == t.resets[i];
      } else {
        assert t'.resets[i] == t.resets[i] && t'.resets[j] == t.resets[j];
      }
    }
  }

  lemma SetPasswordHashValid(t: AuthTables, id: UserId, hash: string)
    requires AuthValid(t)
    ensures AuthValid(t.(users := SetPasswordHash(t.users, id, hash)))
  {
  }

  // ---------------------------------------------------------------- handlers

  class AuthStore {
    var users: seq<User>
    var resets: seq<ResetRow>
    var nextUserId: nat
    var nextResetId: nat

    function Snapshot(): AuthTables
      reads this
    {
      AuthTables(users, resets, nextUserId, nextResetId)
    }

    ghost predicate Valid()
      reads this
    {
      AuthValid(Snapshot())
    }

    constructor (init: AuthTables)
      requires AuthValid(init)
      ensures Snapshot() == init && Valid()
    {
      users := init.users;
      resets := init.resets;
      nextUserId := init.nextUserId;
      nextResetId := init.nextResetId;
    }

    /** POST /register: INVALID_INPUT without e-mail, name or password,
        EMAIL_EXISTS for a taken e-mail, else one new user. `hash` is the
        password's hash. */
    method Register(email: string, name: string, password: string, address: string, phone: string, gender: string, hash: string)
      returns (r: Result<(), AuthError>)
      requires Valid()
      modifies this
      ensures Valid()
      ensures email == "" || name == "" || password == "" ==> r == Err(InvalidInput)
      ensures email != "" && name != "" && password != "" && EmailTaken(old(users), email) ==> r == Err(EmailExists)
      ensures r.Ok? <==> email != "" && name != "" && password != "" && !EmailTaken(old(users), email)
      ensures r.Err? ==> Snapshot() == old(Snapshot())
      ensures r.Ok? ==> Snapshot() == InsertUser(old(Snapshot()), email, name, hash, address, phone, gender)
    {
      if email == "" || name == "" || password == "" {
        return Err(InvalidInput);
      }
      var dup := FindByEmail(users, email, 0);
      if dup.Some? {
        return Err(EmailExists);
      }
      InsertUserValid(Snapshot(), email, name, hash, address, phone, gender);
      users := users + [NewUser(nextUserId, email, name, hash, address, phone, gender)];
      nextUserId := nextUserId + 1;
      r := Ok(());
    }

    /** POST /find-id: INVALID_INPUT without name or phone, else the e-mail of
        the first user with the name and the phone's digits, or none. */
    method FindId(name: string, phone: string) returns (r: Result<Option<string>, AuthError>)
      ensures name == "" || phone == "" ==> r == Err(InvalidInput)
      ensures name != "" && phone != "" ==> r == Ok(FindEmail(users, name, Digits(phone)))
    {
      if name == "" || phone == "" {
        return Err(InvalidInput);
      }
      r := Ok(FindEmail(users, name, Digits(phone)));
    }

    /** POST /password/forgot: INVALID_INPUT without e-mail; for an unknown
        e-mail success with no token and no write; otherwise a new token,
        valid for 30 minutes. `token` is the freshly generated UUID. */
    method Forgot(email: string, token: string, now: Time) returns (r: Result<Option<string>, AuthError>)
      requires Valid()
      requires forall k | 0 <= k < |resets| :: resets[k].token != token
      modifies this
      ensures Valid()
      ensures email == "" ==> r == Err(InvalidInput) && Snapshot() == old(Snapshot())
      ensures email != "" && !EmailTaken(old(users), email) ==> r == Ok(None) && Snapshot() == old(Snapshot())
      ensures email != "" && EmailTaken(old(users), email) ==>
        && r == Ok(Some(token))
        && Snapshot() == InsertReset(old(Snapshot()), token, old(users)[FindByEmail(old(users), email, 0).value].id, now)
    {
      if email == "" {
        return Err(InvalidInput);
      }
      var k := FindByEmail(users, email, 0);
      if k.None? {
        return Ok(None);
      }
      InsertResetValid(Snapshot(), token, users[k.value].id, now);
      resets := resets + [ResetRow(nextResetId, token, users[k.value].id, now + RESET_TTL, false)];
      nextResetId := nextResetId + 1;
      r := Ok(Some(token));
    }

    /** POST /password/reset: INVALID_INPUT without token or new password,
        INVALID_OR_EXPIRED unless an unused row with the token expires after
        `now`; otherwise the owner's hash becomes `hash`, then the row is
        marked used. */
    method Reset(token: string, newPassword: string, hash: string, now: Time) returns (r: Result<(), AuthError>)
      requires Valid()
      modifies this
      ensures Valid()
      ensures token == "" || newPassword == "" ==> r == Err(InvalidInput)
      ensures token != "" && newPassword != "" && FindReset(old(resets), token, now, 0).None? ==> r == Err(InvalidOrExpired)
      ensures r.Err? ==> Snapshot() == old(Snapshot())
      ensures r.Ok? <==> token != "" && newPassword != "" && FindReset(old(resets), token, now, 0).Some?
      ensures r.Ok? ==>
        var row := old(resets)[FindReset(old(resets), token, now, 0).value];
        && users == SetPasswordHash(old(users), row.user, hash)
        && resets == MarkUsed(old(resets), row.id)
        && nextUserId == old(nextUserId) && nextResetId == old(nextResetId)
    {
      if token == "" || newPassword == "" {
        return Err(InvalidInput);
      }
      var k := FindReset(resets, token, now, 0);
      if k.None? {
        return Err(InvalidOrExpired);
      }
      var row := resets[k.value];
      SetPasswordHashValid(Snapshot(), row.user, hash);
      users := SetPasswordHash(users, row.user, hash);
      MarkUsedValid(Snapshot(), row.id);
      resets := MarkUsed(resets, row.id);
      r := Ok(());
    }
  }
}
