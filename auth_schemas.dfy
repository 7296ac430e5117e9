/** `app/schemas/auth.py`: the request bodies of the account endpoints and
    their validators. A body that fails validation is answered with 422
    before the handler runs. `RegisterRequest`, `UpdateProfileRequest` and
    `AdminCreateUserRequest` carry textually identical validators; each is
    defined once here and shared. */
module AuthSchemas {
  import opened Common
  import opened Text
  import opened Records

  const MinPasswordLength: nat := 8
  const MaxPasswordLength: nat := 72
  const MaxNameLength: nat := 255
  const MinUsernameLength: nat := 3
  const MaxUsernameLength: nat := 30
  const MaxLoginPasswordLength: nat := 128

  /** `password: Field(min_length=8, max_length=72)` then
      `validate_password_strength`: a letter and a digit somewhere. */
  function ValidatePassword(p: string): (r: Result<string>)
    ensures r.Ok? <==>
      (MinPasswordLength <= |p| <= MaxPasswordLength
       && (exists i :: 0 <= i < |p| && IsAlphaChar(p[i]))
       && (exists j :: 0 <= j < |p| && IsDigitChar(p[j])))
    ensures r.Ok? ==> r.value == p
    ensures r.Err? ==> r.status == Unprocessable
  {
    if !(MinPasswordLength <= |p| <= MaxPasswordLength) then Err(Unprocessable)
    else if !(HasAlpha(p) && HasDigit(p)) then Err(Unprocessable)
    else Ok(p)
  }

  /** `name: Field(min_length=1, max_length=255)` then `validate_name`: the
      bounds apply to the raw text, the result is stripped and non-empty. */
  function ValidateName(n: string): (r: Result<string>)
    ensures r.Ok? <==> 1 <= |n| <= MaxNameLength && exists i :: 0 <= i < |n| && !IsSpace(n[i])
    ensures r.Ok? ==> 0 < |r.value| <= |n| && !IsSpace(r.value[0]) && !IsSpace(r.value[|r.value| - 1])
    ensures r.Ok? ==> exists i :: TrimmedSliceAt(n, r.value, i)
    ensures r.Err? ==> r.status == Unprocessable
  {
    StripIsTrimmedSlice(n);
    var i := |n| - |TrimStart(n)|;
    if !(1 <= |n| <= MaxNameLength) then Err(Unprocessable)
    else
      var value := Strip(n);
      if value == [] then
        assert forall k :: 0 <= k < |n| ==> IsSpace(n[k]);
        Err(Unprocessable)
      else
        assert !IsSpace(n[i]);
        Ok(value)
  }

  /** What a stored username looks like: lower-case letters, digits and
      underscores, not starting or ending with an underscore. */
  predicate UsernameShaped(v: string) {
    && |v| > 0
    && (forall i :: 0 <= i < |v| ==> ('a' <= v[i] <= 'z') || IsDigitChar(v[i]) || (v[i] == '_' && 0 < i < |v| - 1))
    && (exists i :: 0 <= i < |v| && v[i] != '_')
  }

  /** The checks of `validate_username` on the normalised value. */
  predicate UsernameCharsOk(value: string) {
    IsAlnum(RemoveUnderscores(value)) && value[0] != '_' && value[|value| - 1] != '_'
  }

  lemma UsernameCharsShape(u: string)
    requires UsernameCharsOk(Lower(Strip(u)))
    ensures UsernameShaped(Lower(Strip(u)))
    ensures Strip(Lower(Strip(u))) == Lower(Strip(u)) && Lower(Lower(Strip(u))) == Lower(Strip(u))
  {
    var v := Lower(Strip(u));
    var w := RemoveUnderscores(v);
    assert w[0] in w;
    forall i | 0 <= i < |v| ensures ('a' <= v[i] <= 'z') || IsDigitChar(v[i]) || (v[i] == '_' && 0 < i < |v| - 1) {
      if v[i] != '_' {
        assert v[i] in w;
        var j :| 0 <= j < |w| && w[j] == v[i];
        assert IsAlnumChar(w[j]);
        assert v[i] == LowerChar(Strip(u)[i]);
      }
    }
    assert v[0] != '_' && v[|v| - 1] != '_';
    StripOfTrimmed(v);
    LowerIdempotent(Strip(u));
  }

  /** `username: Field(min_length=3, max_length=30)` then `validate_username`,
      as written: the length bounds apply to the raw text, before it is
      stripped and lower-cased. */
  function ValidateUsername(u: string): (r: Result<string>)
    ensures r.Ok? <==> MinUsernameLength <= |u| <= MaxUsernameLength && UsernameCharsOk(Lower(Strip(u)))
    ensures r.Ok? ==> r.value == Lower(Strip(u)) && UsernameShaped(r.value) && |r.value| <= |u|
    ensures r.Err? ==> r.status == Unprocessable
  {
    StripIsTrimmedSlice(u);
    if !(MinUsernameLength <= |u| <= MaxUsernameLength) then Err(Unprocessable)
    else
      var value := Lower(Strip(u));
      if value == [] || !IsAlnum(RemoveUnderscores(value)) then Err(Unprocessable)
      else if value[0] == '_' || value[|value| - 1] == '_' then Err(Unprocessable)
      else
        UsernameCharsShape(u);
        Ok(value)
  }

  /** As written, surrounding whitespace counts towards the minimum length:
      " ab " is accepted as "ab", which is itself refused. */
  lemma ShortUsernameAccepted()
    ensures ValidateUsername(" ab ") == Ok("ab")
    ensures ValidateUsername("ab").Err?
  {
    SpacedNormalises();
    AbCharsOk();
    assert |" ab "| == 4 && |"ab"| == 2;
  }

  lemma AbCharsOk()
    ensures UsernameCharsOk("ab")
  {
    assert RemoveUnderscores("ab") == "ab";
  }

  lemma SpacedNormalises()
    ensures Lower(Strip(" ab ")) == "ab"
  {
    var ab: string := ['a', 'b'];
    assert " ab " == [' '] + (ab + [' ']);
    SpaceDroppedFront(' ', ab + [' ']);
    assert TrimStart(ab + [' ']) == ab + [' '];
    SpaceDroppedBack(ab, ' ');
    assert TrimEnd(ab) == ab;
    LowerAb(ab);
  }

  lemma LowerAb(ab: string)
    requires ab == ['a', 'b']
    ensures Lower(ab) == ab
  {
    var r := Lower(ab);
    assert r[0] == LowerChar('a') == 'a';
    assert r[1] == LowerChar('b') == 'b';
  }

  lemma SpaceDroppedFront(c: char, t: string)
    requires IsSpace(c)
    ensures TrimStart([c] + t) == TrimStart(t)
  {
    assert ([c] + t)[1..] == t;
  }

  lemma SpaceDroppedBack(t: string, c: char)
    requires IsSpace(c)
    ensures TrimEnd(t + [c]) == TrimEnd(t)
  {
    assert (t + [c])[..|t|] == t;
  }

  /** `validate_username` with the minimum length also required of the
      normalised value, as the field bound evidently intends. */
  function ValidateUsernameChecked(u: string): (r: Result<string>)
    ensures r.Ok? <==> (ValidateUsername(u).Ok? && MinUsernameLength <= |Lower(Strip(u))|)
    ensures r.Ok? ==> r.value == Lower(Strip(u)) && UsernameShaped(r.value)
    ensures r.Ok? ==> MinUsernameLength <= |r.value| <= MaxUsernameLength
    ensures r.Err? ==> r.status == Unprocessable
  {
    var v := ValidateUsername(u);
    if v.Err? then v
    else if |v.value| < MinUsernameLength then Err(Unprocessable)
    else v
  }

  /** The corrected check refuses exactly the usernames that the check as
      written accepts with a normal form below the minimum, and agrees with it
      everywhere else. */
  lemma UsernameCheckedAgrees(u: string)
    ensures ValidateUsernameChecked(u) != ValidateUsername(u) <==>
      ValidateUsername(u).Ok? && |ValidateUsername(u).value| < MinUsernameLength
  {
  }

  /** A username in normal form with the right length and characters is
      accepted as it is. */
  lemma NormalUsernameAccepted(v: string)
    requires MinUsernameLength <= |v| <= MaxUsernameLength
    requires Lower(Strip(v)) == v && UsernameCharsOk(v)
    ensures ValidateUsernameChecked(v) == Ok(v)
  {
  }

  /** Re-validating an accepted username gives it back unchanged. */
  lemma UsernameIdempotent(u: string)
    requires ValidateUsernameChecked(u).Ok?
    ensures ValidateUsernameChecked(ValidateUsernameChecked(u).value) == ValidateUsernameChecked(u)
  {
    var v := ValidateUsernameChecked(u).value;
    assert v == Lower(Strip(u)) && UsernameCharsOk(v) && MinUsernameLength <= |v| <= MaxUsernameLength;
    UsernameCharsShape(u);
    assert Lower(Strip(v)) == v;
    NormalUsernameAccepted(v);
  }

  /** The optional fields of `UpdateProfileRequest`: null passes as null. */
  function ValidateOptionalName(n: Option<string>): (r: Result<Option<string>>)
    ensures n.None? ==> r == Ok(None)
    ensures n.Some? ==> (r.Ok? <==> ValidateName(n.value).Ok?)
    ensures n.Some? && r.Ok? ==> r.value == Some(ValidateName(n.value).value)
  {
    match n
    case None => Ok(None)
    case Some(s) =>
      var v := ValidateName(s);
      if v.Err? then Err(v.status) else Ok(Some(v.value))
  }

  function ValidateOptionalUsername(u: Option<string>): (r: Result<Option<string>>)
    ensures u.None? ==> r == Ok(None)
    ensures u.Some? ==> (r.Ok? <==> ValidateUsernameChecked(u.value).Ok?)
    ensures u.Some? && r.Ok? ==> r.value == Some(ValidateUsernameChecked(u.value).value)
  {
    match u
    case None => Ok(None)
    case Some(s) =>
      var v := ValidateUsernameChecked(s);
      if v.Err? then Err(v.status) else Ok(Some(v.value))
  }

  /** A validated `RegisterRequest` or `AdminCreateUserRequest` body. */
  datatype NewAccount = NewAccount(email: string, name: string, username: string, password: string, role: Role)

  /** `UpdateProfileRequest` after validation. */
  datatype ProfileUpdate = ProfileUpdate(name: Option<string>, username: Option<string>)

  /** The body of `RegisterRequest` or `AdminCreateUserRequest`, field by field. */
  function ValidateNewAccount(email: string, name: string, username: string, password: string, role: Role)
    : (r: Result<NewAccount>)
    ensures r.Ok? <==>
      ValidateName(name).Ok? && ValidateUsernameChecked(username).Ok? && ValidatePassword(password).Ok?
    ensures r.Ok? ==> r.value == NewAccount(email, ValidateName(name).value,
      ValidateUsernameChecked(username).value, password, role)
    ensures r.Err? ==> r.status == Unprocessable
  {
    var n := ValidateName(name);
    var u := ValidateUsernameChecked(username);
    var p := ValidatePassword(password);
    if n.Err? || u.Err? || p.Err? then Err(Unprocessable)
    else Ok(NewAccount(email, n.value, u.value, p.value, role))
  }

  /** `UpdateProfileRequest`: each field validated when present, and then
      `validate_any_field_present` wants at least one of them. */
  function ValidateProfile(name: Option<string>, username: Option<string>): (r: Result<ProfileUpdate>)
    ensures r.Ok? ==> r.value.name.Some? || r.value.username.Some?
    ensures r.Ok? ==> (r.value.name.None? <==> name.None?) && (r.value.username.None? <==> username.None?)
    ensures name.None? && username.None? ==> r == Err(Unprocessable)
    ensures r.Ok? <==>
      (name.Some? || username.Some?) && ValidateOptionalName(name).Ok? && ValidateOptionalUsername(username).Ok?
    ensures r.Err? ==> r.status == Unprocessable
  {
    var n := ValidateOptionalName(name);
    var u := ValidateOptionalUsername(username);
    if n.Err? || u.Err? then Err(Unprocessable)
    else if n.value.None? && u.value.None? then Err(Unprocessable)
    else Ok(ProfileUpdate(n.value, u.value))
  }

  /** A username the profile body carries is already in lower case. */
  lemma ProfileUsernameLower(name: Option<string>, username: Option<string>)
    requires ValidateProfile(name, username).Ok? && ValidateProfile(name, username).value.username.Some?
    ensures var v := ValidateProfile(name, username).value.username.value; Lower(v) == v
  {
    UsernameCharsShape(username.value);
  }

  /** `LoginRequest.password: Field(min_length=1, max_length=128)`. */
  function ValidateLoginPassword(p: string): (r: Result<string>)
    ensures r.Ok? <==> 1 <= |p| <= MaxLoginPasswordLength
    ensures r.Ok? ==> r.value == p
    ensures r.Err? ==> r.status == Unprocessable
  {
    if 1 <= |p| <= MaxLoginPasswordLength then Ok(p) else Err(Unprocessable)
  }
}
