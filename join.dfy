/** The signup page: how the form's fields are normalised, which gender the two
    boxes select, the checks that run before the request and their order, the
    body the request carries and the theme saved after a successful signup. */
module Join {
  import opened Wrappers
  import opened Text
  import opened ClientCommon
  import Auth
  import Membership

  /** The form as typed; a missing field reads as the empty string. */
  datatype JoinForm = JoinForm(email: string, password: string, password2: string, name: string,
                               address: string, phone: string, male: bool, female: bool)

  /** The message shown, one per check, in the order the checks run. */
  datatype JoinError = MissingRequired | NoGender | BadEmail | ShortPassword | PasswordMismatch

  /** The body of the register request. */
  datatype JoinBody = JoinBody(email: string, name: string, password: string,
                               address: string, phone: string, gender: string)

  const MIN_PASSWORD: nat := 6

  // ---------------------------------------------------------------- the e-mail pattern

  /** A character of the class `[^@\s]`. */
  predicate Plain(c: char) {
    c != '@' && !IsSpace(c)
  }

  predicate AllPlain(s: string) {
    forall k | 0 <= k < |s| :: Plain(s[k])
  }

  /** `^[^@\s]+@[^@\s]+\.[^@\s]+$`: a non-empty run of plain characters, `@`,
      a non-empty run, a dot and a non-empty run. */
  predicate EmailPattern(s: string) {
    exists i, j | 0 < i && i + 1 < j && j + 1 < |s| ::
      && s[i] == '@' && s[j] == '.'
      && AllPlain(s[..i]) && AllPlain(s[i + 1..j]) && AllPlain(s[j + 1..])
  }

  /** The only `@` of `s` is at index `i`. */
  predicate OnlyAtAt(s: string, i: nat) {
    i < |s| && s[i] == '@' && forall k | 0 <= k < |s| && k != i :: s[k] != '@'
  }

  /** A dot after `@` with at least one character on each side. */
  predicate DotAfter(s: string, i: nat) {
    exists j | i + 1 < j && j + 1 < |s| :: s[j] == '.'
  }

  /** The pattern in other words: no white space, exactly one `@`, not at the
      start, and a dot after it that is neither next to it nor last. */
  lemma EmailPatternIff(s: string)
    ensures EmailPattern(s) <==>
      && (forall k | 0 <= k < |s| :: !IsSpace(s[k]))
      && exists i: nat | 0 < i < |s| :: OnlyAtAt(s, i) && DotAfter(s, i)
  {
    if EmailPattern(s) {
      EmailPatternShape(s);
    }
    if (forall k | 0 <= k < |s| :: !IsSpace(s[k])) && exists i: nat | 0 < i < |s| :: OnlyAtAt(s, i) && DotAfter(s, i) {
      var i: nat :| 0 < i < |s| && OnlyAtAt(s, i) && DotAfter(s, i);
      ShapeEmailPattern(s, i);
    }
  }

  /** A match has no white space, one `@` and a dot after it. */
  lemma EmailPatternShape(s: string)
    requires EmailPattern(s)
    ensures forall k | 0 <= k < |s| :: !IsSpace(s[k])
    ensures exists i: nat | 0 < i < |s| :: OnlyAtAt(s, i) && DotAfter(s, i)
  {
    var i, j :| 0 < i && i + 1 < j && j + 1 < |s| && s[i] == '@' && s[j] == '.'
      && AllPlain(s[..i]) && AllPlain(s[i + 1..j]) && AllPlain(s[j + 1..]);
    PlainParts(s, i, j);
    forall k | 0 <= k < |s| ensures !IsSpace(s[k]) {
      if k == i {
        assert s[k] == '@';
      } else if k == j {
        assert s[k] == '.';
      } else {
        assert Plain(s[k]);
      }
    }
    assert s[j] == '.';
    assert DotAfter(s, i);
    assert OnlyAtAt(s, i);
  }

  /** Such a string matches, split at its `@` and its first suitable dot. */
  lemma ShapeEmailPattern(s: string, i: nat)
    requires forall k | 0 <= k < |s| :: !IsSpace(s[k])
    requires 0 < i < |s| && OnlyAtAt(s, i) && DotAfter(s, i)
    ensures EmailPattern(s)
  {
    var j :| i + 1 < j && j + 1 < |s| && s[j] == '.';
    PartsPlain(s, i, j);
  }

  /** The three runs of a match are plain, so all of `s` is, but for the `@` and the dot. */
  lemma PlainParts(s: string, i: nat, j: nat)
    requires 0 < i && i + 1 < j && j + 1 < |s| && s[j] == '.'
    requires AllPlain(s[..i]) && AllPlain(s[i + 1..j]) && AllPlain(s[j + 1..])
    ensures forall k | 0 <= k < |s| && k != i && k != j :: Plain(s[k])
  {
    forall k | 0 <= k < |s| && k != i && k != j ensures Plain(s[k]) {
      if k < i {
        assert s[..i][k] == s[k];
      } else if k < j {
        assert s[i + 1..j][k - i - 1] == s[k];
      } else {
        assert s[j + 1..][k - j - 1] == s[k];
      }
    }
  }

  /** Without white space and with one `@`, the runs around the `@` and a later dot are plain. */
  lemma PartsPlain(s: string, i: nat, j: nat)
    requires forall k | 0 <= k < |s| :: !IsSpace(s[k])
    requires OnlyAtAt(s, i) && i + 1 < j && j + 1 < |s| && s[j] == '.'
    ensures AllPlain(s[..i]) && AllPlain(s[i + 1..j]) && AllPlain(s[j + 1..])
  {
    SlicePlain(s, 0, i, i);
    SlicePlain(s, i + 1, j, i);
    SlicePlain(s, j + 1, |s|, i);
    assert s[..i] == s[0..i];
    assert s[j + 1..] == s[j + 1..|s|];
  }

  /** A slice that leaves out the only `@` of a string without white space is plain. */
  lemma SlicePlain(s: string, a: nat, b: nat, i: nat)
    requires a <= b <= |s| && (i < a || b <= i)
    requires forall k | 0 <= k < |s| :: !IsSpace(s[k])
    requires OnlyAtAt(s, i)
    ensures AllPlain(s[a..b])
  {
    forall k | 0 <= k < b - a ensures Plain(s[a..b][k]) {
      assert s[a..b][k] == s[a + k];
    }
  }

  /** A matching e-mail is not empty and is its own trim. */
  lemma EmailPatternTrimmed(s: string)
    requires EmailPattern(s)
    ensures s != [] && Trim(s) == s
  {
    var i, j :| 0 < i && i + 1 < j && j + 1 < |s| && s[i] == '@' && s[j] == '.'
      && AllPlain(s[..i]) && AllPlain(s[i + 1..j]) && AllPlain(s[j + 1..]);
    assert s[..i][0] == s[0];
    assert s[j + 1..][|s| - j - 2] == s[|s| - 1];
    TrimUnchanged(s);
  }

  // ---------------------------------------------------------------- the handler

  /** The submit handler up to the request: the fields normalised (e-mail, name
      and address trimmed, the phone reduced to its digits, the passwords as
      typed), the gender of the checked box with female checked last, then the
      checks in order, each failing one ending the handler with its message. */
  method OnSubmit(f: JoinForm) returns (r: Result<JoinBody, JoinError>)
    ensures r == Err(MissingRequired) <==> Trim(f.email) == "" || f.password == "" || Trim(f.name) == ""
    ensures r == Err(NoGender) <==>
      Trim(f.email) != "" && f.password != "" && Trim(f.name) != "" && !f.male && !f.female
    ensures r == Err(BadEmail) <==>
      Trim(f.email) != "" && f.password != "" && Trim(f.name) != "" && (f.male || f.female)
      && !EmailPattern(Trim(f.email))
    ensures r == Err(ShortPassword) <==>
      Trim(f.email) != "" && f.password != "" && Trim(f.name) != "" && (f.male || f.female)
      && EmailPattern(Trim(f.email)) && |f.password| < MIN_PASSWORD
    ensures r == Err(PasswordMismatch) <==>
      Trim(f.email) != "" && f.password != "" && Trim(f.name) != "" && (f.male || f.female)
      && EmailPattern(Trim(f.email)) && |f.password| >= MIN_PASSWORD && f.password != f.password2
    ensures r.Ok? <==>
      (f.male || f.female) && EmailPattern(Trim(f.email)) && Trim(f.name) != ""
      && |f.password| >= MIN_PASSWORD && f.password == f.password2
    ensures r.Ok? ==> r.value == JoinBody(Trim(f.email), Trim(f.name), f.password, Trim(f.address),
                                          Digits(f.phone), if f.female then "female" else "male")
  {
    var email := Trim(f.email);
    var password := f.password;
    var password2 := f.password2;
    var name := Trim(f.name);
    var address := Trim(f.address);
    var phone := Digits(f.phone);

    var gender := "";
    if f.male {
      gender := "male";
    }
    if f.female {
      gender := "female";
    }

    if email == "" || password == "" || name == "" {
      return Err(MissingRequired);
    }
    if gender == "" {
      return Err(NoGender);
    }
    if !EmailPattern(email) {
      return Err(BadEmail);
    }
    if |password| < MIN_PASSWORD {
      return Err(ShortPassword);
    }
    if password != password2 {
      return Err(PasswordMismatch);
    }
    r := Ok(JoinBody(email, name, password, address, phone, gender));
  }

  /** The theme saved after a successful signup. */
  function JoinTheme(gender: string): (t: Theme)
    ensures t == Maltiz <==> gender == "female"
  {
    if gender == "female" then Maltiz else Retriever
  }

  // ---------------------------------------------------------------- agreement with the server and the pages

  lemma MaleIsLower(v: string)
    requires v == "male"
    ensures Trim(v) == v && Lower(v) == v
  {
    forall i | 0 <= i < |v| ensures 'a' <= v[i] <= 'z' {
      if i == 0 {} else if i == 1 {} else if i == 2 {} else {}
    }
    LowerWordFixed(v);
  }

  lemma FemaleIsLower(v: string)
    requires v == "female"
    ensures Trim(v) == v && Lower(v) == v
  {
    forall i | 0 <= i < |v| ensures 'a' <= v[i] <= 'z' {
      if i == 0 {} else if i == 1 {} else if i == 2 {} else if i == 3 {} else if i == 4 {} else {}
    }
    LowerWordFixed(v);
  }

  /** The two values the handler sends normalise on the server to the
      gender they name, and the theme saved for them is the one the membership
      page derives from them. */
  lemma GenderAccepted(g: string)
    requires g == "male" || g == "female"
    ensures Auth.NormalizeGender(g) == Some(if g == "female" then Auth.Female else Auth.Male)
    ensures JoinTheme(g) == Membership.ThemeFromGender(g)
  {
    if g == "female" {
      FemaleAccepted(g);
    } else {
      MaleAccepted(g);
    }
  }

  lemma FemaleAccepted(g: string)
    requires g == "female"
    ensures Auth.NormalizeGender(g) == Some(Auth.Female)
    ensures Membership.ThemeFromGender(g) == Maltiz
  {
    FemaleIsLower(g);
    NormalizeFixedWord(g);
    assert g[0] == 'f' && |g| == 6;
    assert g != "male" && g != "m";
  }

  lemma MaleAccepted(g: string)
    requires g == "male"
    ensures Auth.NormalizeGender(g) == Some(Auth.Male)
    ensures Membership.ThemeFromGender(g) == Retriever
  {
    MaleIsLower(g);
    NormalizeFixedWord(g);
    assert |g| == 4;
    assert g != "female";
  }

  /** A value that is its own trim and lower case normalises by comparison alone. */
  lemma NormalizeFixedWord(v: string)
    requires Trim(v) == v && Lower(v) == v
    ensures Auth.NormalizeGender(v) ==
      if v == "male" || v == "m" then Some(Auth.Male)
      else if v == "female" || v == "f" then Some(Auth.Female)
      else None
    ensures Membership.ThemeFromGender(v) == if v == "female" then Maltiz else Retriever
  {
  }

  /** A body the handler sends passes the register endpoint's input check, its
      gender normalises to the one selected, its phone is already normalised,
      and the theme saved is the one the membership page derives from that gender. */
  lemma BodyAcceptedByServer(f: JoinForm, b: JoinBody)
    requires (f.male || f.female) && EmailPattern(Trim(f.email)) && Trim(f.name) != ""
    requires |f.password| >= MIN_PASSWORD && f.password == f.password2
    requires b == JoinBody(Trim(f.email), Trim(f.name), f.password, Trim(f.address),
                           Digits(f.phone), if f.female then "female" else "male")
    ensures b.email != "" && b.name != "" && b.password != ""
    ensures Auth.NormalizeGender(b.gender) == Some(if f.female then Auth.Female else Auth.Male)
    ensures Digits(b.phone) == b.phone
    ensures JoinTheme(b.gender) == Membership.ThemeFromGender(b.gender)
  {
    EmailPatternTrimmed(Trim(f.email));
    DigitsOfDigits(Digits(f.phone));
    GenderAccepted(b.gender);
  }
}
