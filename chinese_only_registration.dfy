/**
 * The plugin's username check and the hook handlers that act on it, as the
 * plugin's code does them.
 *
 * Environment reads are parameters: the request's `$_POST['user_login']` is
 * an `Option` (None when it is not set) and `time()` is `now`. The plugin
 * object has no state, so its handlers are module-level members; handlers
 * that change the host's error object are methods that modify it, each tied
 * to a function on the error map that states the outcome.
 */
module ChineseOnlyRegistration {
  import opened Wrappers
  import opened PhpRuntime
  import opened ChinesePattern
  import opened WpError

  /** The error code the plugin adds, and the host's two username codes it also clears. */
  const UsernameInvalid: string := "username_invalid"
  const InvalidUsername: string := "invalid_username"
  const UsernameExists: string := "username_exists"
  const UsernameErrorCodes: set<string> := {UsernameInvalid, InvalidUsername, UsernameExists}

  /** The message recorded with `username_invalid` (translation is not modelled). */
  const InvalidUsernameMessage: string := "用户名只能包含中文字符，不允许使用字母、数字或其他符号。"

  /** The key of the login name in the user data array. */
  const UserLoginKey: string := "user_login"

  /** The code points of a string literal, to write example usernames. */
  function CodePointsOf(s: string): CodePoints {
    seq(|s|, i requires 0 <= i < |s| => s[i] as int)
  }

  // ---------------------------------------------------------------------------
  // is_chinese_only
  // ---------------------------------------------------------------------------

  /** `is_chinese_only`: false when `trim` leaves a PHP-empty string, else the pattern's match. */
  predicate IsChineseOnly(s: CodePoints) {
    if PhpEmpty(Trim(s)) then false else PregMatch(s, false)
  }

  /** The empty string and every string of trim characters are rejected. */
  lemma IsChineseOnlyRejectsBlank(s: CodePoints)
    requires AllTrimSpace(s)
    ensures !IsChineseOnly(s)
  {
    TrimEmptyIffBlank(s);
  }

  /** The emptiness guard never decides anything the pattern does not already decide. */
  lemma IsChineseOnlyIsPregMatch(s: CodePoints)
    ensures IsChineseOnly(s) <==> PregMatch(s, false)
  {
    if PregMatch(s, false) {
      PregMatchShape(s, false);
      assert InClass(s[0]);
      TrimKeepsFirst(s);
    }
  }

  /**
   * What is accepted: one or more code points in U+4E00..U+9FFF, optionally
   * followed by one final newline (PCRE's `$` without the `D` modifier).
   */
  lemma IsChineseOnlyShape(s: CodePoints)
    ensures IsChineseOnly(s) <==>
      (s != [] && AllInClass(s)) ||
      (|s| >= 2 && s[|s| - 1] == LineFeed && AllInClass(s[..|s| - 1]))
  {
    IsChineseOnlyIsPregMatch(s);
    PregMatchShape(s, false);
  }

  /** Without the trailing newline, acceptance is exactly a non-empty run of class code points. */
  lemma IsChineseOnlyWithoutNewline(s: CodePoints)
    requires s == [] || s[|s| - 1] != LineFeed
    ensures IsChineseOnly(s) <==> s != [] && AllInClass(s)
  {
    IsChineseOnlyShape(s);
  }

  /** Every non-empty run of class code points is accepted. */
  lemma ClassRunAccepted(s: CodePoints)
    requires s != [] && AllInClass(s)
    ensures IsChineseOnly(s)
  {
    IsChineseOnlyShape(s);
  }

  /** "张三" is accepted. */
  lemma ZhangSanAccepted()
    ensures IsChineseOnly(CodePointsOf("张三"))
  {
    var zhangSan := CodePointsOf("张三");
    assert zhangSan == [0x5F20, 0x4E09];
    ClassRunAccepted(zhangSan);
  }

  /** "诺言" is accepted. */
  lemma NuoYanAccepted()
    ensures IsChineseOnly(CodePointsOf("诺言"))
  {
    var nuoYan := CodePointsOf("诺言");
    assert nuoYan == [0x8BFA, 0x8A00];
    ClassRunAccepted(nuoYan);
  }

  /** "zhang3", "用户123" and "" are rejected. */
  lemma RejectedExamples()
    ensures !IsChineseOnly(CodePointsOf("zhang3"))
    ensures !IsChineseOnly(CodePointsOf("用户123"))
    ensures !IsChineseOnly(CodePointsOf(""))
  {
    var z := CodePointsOf("zhang3");
    assert !InClass(z[0]);
    IsChineseOnlyWithoutNewline(z);
    var u := CodePointsOf("用户123");
    assert !InClass(u[2]);
    IsChineseOnlyWithoutNewline(u);
    IsChineseOnlyRejectsBlank(CodePointsOf(""));
  }

  /** As written, a Chinese name followed by a newline passes the check. */
  lemma IsChineseOnlyAcceptsTrailingNewline()
    ensures IsChineseOnly(CodePointsOf("张三\n"))
  {
    var s := CodePointsOf("张三\n");
    assert s[..|s| - 1] == CodePointsOf("张三");
    IsChineseOnlyShape(s);
  }

  // ---------------------------------------------------------------------------
  // Error-collection handlers
  // ---------------------------------------------------------------------------

  /**
   * `registration_errors` leaves the errors alone for a PHP-empty name; for
   * a failing name it appends the message under `username_invalid` and
   * touches no other code; for a Chinese name it removes the three username
   * codes and touches no other code.
   */
  function RegistrationErrorsOutcome(errors: ErrorMap, rawUsername: CodePoints): (r: ErrorMap)
    ensures PhpEmpty(rawUsername) ==> r == errors
    ensures !PhpEmpty(rawUsername) && !IsChineseOnly(rawUsername) ==>
      r.Keys == errors.Keys + {UsernameInvalid} &&
      MessagesOf(r, UsernameInvalid) == MessagesOf(errors, UsernameInvalid) + [InvalidUsernameMessage]
    ensures !IsChineseOnly(rawUsername) ==> forall c | c != UsernameInvalid :: SameOnCode(errors, r, c)
    ensures IsChineseOnly(rawUsername) ==> r.Keys == errors.Keys - UsernameErrorCodes
    ensures forall c | c !in UsernameErrorCodes :: SameOnCode(errors, r, c)
  {
    if PhpEmpty(rawUsername) then errors
    else if IsChineseOnly(rawUsername) then WithRemoved(errors, UsernameErrorCodes)
    else WithAdded(errors, UsernameInvalid, InvalidUsernameMessage)
  }

  /**
   * `registration_errors`: checks the POSTed login if set, else the sanitized
   * one; skips a PHP-empty name, flags a non-Chinese one, and clears every
   * username error for a Chinese one. Returns the same error object.
   */
  method RegistrationErrors(errors: ErrorCollection, sanitizedUserLogin: CodePoints, userEmail: CodePoints,
                            postUserLogin: Option<CodePoints>)
    returns (result: ErrorCollection)
    modifies errors
    ensures result == errors
    ensures errors.errors == RegistrationErrorsOutcome(old(errors.errors), postUserLogin.GetOr(sanitizedUserLogin))
  {
    ghost var before := errors.errors;
    var rawUsername := postUserLogin.GetOr(sanitizedUserLogin);
    if PhpEmpty(rawUsername) {
      return errors;
    }
    if !IsChineseOnly(rawUsername) {
      errors.Add(UsernameInvalid, InvalidUsernameMessage);
    }
    if IsChineseOnly(rawUsername) {
      errors.Remove(UsernameInvalid);
      errors.Remove(InvalidUsername);
      errors.Remove(UsernameExists);
      assert errors.errors == before - {UsernameInvalid} - {InvalidUsername} - {UsernameExists};
    }
    return errors;
  }

  /**
   * On an update nothing changes; on creation `username_invalid` gains the
   * message exactly when the name is not PHP-empty and fails the check, and
   * no other code is touched.
   */
  function ProfileUpdateErrorsOutcome(errors: ErrorMap, update: bool, username: CodePoints): (r: ErrorMap)
    ensures update || PhpEmpty(username) || IsChineseOnly(username) ==> r == errors
    ensures !update && !PhpEmpty(username) && !IsChineseOnly(username) ==>
      r.Keys == errors.Keys + {UsernameInvalid} &&
      MessagesOf(r, UsernameInvalid) == MessagesOf(errors, UsernameInvalid) + [InvalidUsernameMessage]
    ensures forall c | c != UsernameInvalid :: SameOnCode(errors, r, c)
  {
    if !update && !PhpEmpty(username) && !IsChineseOnly(username) then
      WithAdded(errors, UsernameInvalid, InvalidUsernameMessage)
    else
      errors
  }

  /**
   * `admin_user_profile_update_errors`: on an update, nothing; on creation,
   * flags a POSTed login (the empty string when not set) that is not
   * PHP-empty and not Chinese.
   */
  method AdminUserProfileUpdateErrors(errors: ErrorCollection, update: bool, postUserLogin: Option<CodePoints>)
    modifies errors
    ensures errors.errors == ProfileUpdateErrorsOutcome(old(errors.errors), update, postUserLogin.GetOr([]))
  {
    if update {
      return;
    }
    var username := postUserLogin.GetOr([]);
    if !PhpEmpty(username) && !IsChineseOnly(username) {
      errors.Add(UsernameInvalid, InvalidUsernameMessage);
    }
  }

  /**
   * `intercept_registration` has no empty-name skip: `username_invalid`
   * gains the message exactly when the name fails the check (an empty name
   * included), and no other code is touched.
   */
  function InterceptRegistrationOutcome(errors: ErrorMap, rawUsername: CodePoints): (r: ErrorMap)
    ensures IsChineseOnly(rawUsername) ==> r == errors
    ensures !IsChineseOnly(rawUsername) ==>
      r.Keys == errors.Keys + {UsernameInvalid} &&
      MessagesOf(r, UsernameInvalid) == MessagesOf(errors, UsernameInvalid) + [InvalidUsernameMessage]
    ensures forall c | c != UsernameInvalid :: SameOnCode(errors, r, c)
  {
    if !IsChineseOnly(rawUsername) then WithAdded(errors, UsernameInvalid, InvalidUsernameMessage) else errors
  }

  /** An empty name is flagged by `register_post` and left alone by `registration_errors`. */
  lemma EmptyNameHandlersDisagree(errors: ErrorMap)
    ensures UsernameInvalid in InterceptRegistrationOutcome(errors, [])
    ensures RegistrationErrorsOutcome(errors, []) == errors
  {
    IsChineseOnlyRejectsBlank([]);
  }

  /** `intercept_registration`: flags a raw username that fails the check. */
  method InterceptRegistration(sanitizedUserLogin: CodePoints, userEmail: CodePoints, errors: ErrorCollection,
                               postUserLogin: Option<CodePoints>)
    returns (result: ErrorCollection)
    modifies errors
    ensures result == errors
    ensures errors.errors == InterceptRegistrationOutcome(old(errors.errors), postUserLogin.GetOr(sanitizedUserLogin))
  {
    var rawUsername := postUserLogin.GetOr(sanitizedUserLogin);
    if !IsChineseOnly(rawUsername) {
      errors.Add(UsernameInvalid, InvalidUsernameMessage);
    }
    return errors;
  }

  /**
   * The host fires `register_post` and then filters `registration_errors`
   * on the same error object and the same login. Together the two handlers
   * leave `username_invalid` exactly when the login fails the check; a
   * non-empty failing login gets the message twice.
   */
  lemma RegistrationHandlersTogether(errors: ErrorMap, rawUsername: CodePoints)
    ensures var r := RegistrationErrorsOutcome(InterceptRegistrationOutcome(errors, rawUsername), rawUsername);
      && (UsernameInvalid in r <==> !IsChineseOnly(rawUsername))
      && (!IsChineseOnly(rawUsername) && PhpEmpty(rawUsername) ==>
            MessagesOf(r, UsernameInvalid) == MessagesOf(errors, UsernameInvalid) + [InvalidUsernameMessage])
      && (!IsChineseOnly(rawUsername) && !PhpEmpty(rawUsername) ==>
            MessagesOf(r, UsernameInvalid) == MessagesOf(errors, UsernameInvalid) + [InvalidUsernameMessage, InvalidUsernameMessage])
      && (forall c | c !in UsernameErrorCodes :: SameOnCode(errors, r, c))
  {
    var i := InterceptRegistrationOutcome(errors, rawUsername);
    var r := RegistrationErrorsOutcome(i, rawUsername);
    if IsChineseOnly(rawUsername) {
      assert i == errors;
      assert r.Keys == errors.Keys - UsernameErrorCodes;
    } else {
      assert MessagesOf(i, UsernameInvalid) == MessagesOf(errors, UsernameInvalid) + [InvalidUsernameMessage];
      assert UsernameInvalid in r.Keys;
    }
    forall c | c !in UsernameErrorCodes
      ensures SameOnCode(errors, r, c)
    {
      assert SameOnCode(errors, i, c) && SameOnCode(i, r, c);
    }
  }

  // ---------------------------------------------------------------------------
  // Username rewriting handlers
  // ---------------------------------------------------------------------------

  /** The login substituted for a rejected one: `用户` followed by the decimal digits of `now`. */
  function Placeholder(now: nat): CodePoints {
    [0x7528, 0x6237] + DecimalDigits(now)
  }

  /** As written, the substitute login fails the very check it stands in for. */
  lemma PlaceholderRejected(now: nat)
    ensures !IsChineseOnly(Placeholder(now))
  {
    var p := Placeholder(now);
    var d := DecimalDigits(now);
    assert p[|p| - 1] == d[|d| - 1];
    IsChineseOnlyShape(p);
  }

  /**
   * `pre_user_login_validation`: keeps a Chinese login and otherwise
   * substitutes the placeholder. The input comes back unchanged exactly when
   * it is Chinese or is itself the placeholder, and the result passes the
   * check exactly when the input did.
   */
  function PreUserLoginValidation(userLogin: CodePoints, now: nat): (r: CodePoints)
    ensures IsChineseOnly(userLogin) ==> r == userLogin
    ensures !IsChineseOnly(userLogin) ==> r == Placeholder(now)
    ensures r == userLogin <==> IsChineseOnly(userLogin) || userLogin == Placeholder(now)
    ensures IsChineseOnly(r) <==> IsChineseOnly(userLogin)
  {
    PlaceholderRejected(now);
    if !IsChineseOnly(userLogin) then Placeholder(now) else userLogin
  }

  /**
   * `pre_insert_user_data`: on creation, a user_login that fails the check is
   * replaced by the placeholder; every other entry, and everything on an
   * update, is left alone. A rejected login stays rejected.
   */
  function PreInsertUserData(data: map<string, CodePoints>, update: bool, id: int, now: nat): (r: map<string, CodePoints>)
    ensures r.Keys == data.Keys
    ensures forall k | k in data && k != UserLoginKey :: r[k] == data[k]
    ensures update || UserLoginKey !in data ==> r == data
    ensures !update && UserLoginKey in data && IsChineseOnly(data[UserLoginKey]) ==> r == data
    ensures !update && UserLoginKey in data && !IsChineseOnly(data[UserLoginKey]) ==> r[UserLoginKey] == Placeholder(now)
  {
    if update then data
    else if UserLoginKey in data && !IsChineseOnly(data[UserLoginKey]) then data[UserLoginKey := Placeholder(now)]
    else data
  }

  /** A login that `pre_insert_user_data` rejects is still rejected after the substitution. */
  lemma PreInsertKeepsRejected(data: map<string, CodePoints>, update: bool, id: int, now: nat)
    requires UserLoginKey in data
    ensures var r := PreInsertUserData(data, update, id, now);
      UserLoginKey in r && (IsChineseOnly(r[UserLoginKey]) <==> IsChineseOnly(data[UserLoginKey]))
  {
    PlaceholderRejected(now);
  }

  /** `custom_sanitize_user`: every path hands back the sanitized name it was given. */
  function CustomSanitizeUser(username: CodePoints, rawUsername: CodePoints, strict: bool): (r: CodePoints)
    ensures r == username
  {
    if PhpEmpty(username) then username
    else if IsChineseOnly(username) then username
    else username
  }
}
