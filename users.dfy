/**
 * The user registry: registration behind a username and a password pattern,
 * login by plain comparison, and the signed-in user's profile and password.
 */
module Users {
  import opened Records
  import opened Seqs
  import Db

  // ---------------------------------------------------------------------
  // The username pattern `^[a-zA-Z0-9_]{6,20}$`
  // ---------------------------------------------------------------------

  predicate IsDigit(c: char) { '0' <= c <= '9' }
  predicate IsLower(c: char) { 'a' <= c <= 'z' }
  predicate IsUpper(c: char) { 'A' <= c <= 'Z' }

  /** The class `[a-zA-Z0-9_]`. */
  predicate IsWordChar(c: char) { IsDigit(c) || IsLower(c) || IsUpper(c) || c == '_' }

  /**
   * Without the `m` flag `^` and `$` anchor at the ends of the whole string,
   * so a valid name is one line of 6 to 20 characters; a trailing line break
   * is not accepted.
   */
  function ValidUsername(s: string): (r: bool)
    ensures r ==> 6 <= |s| <= 20 && NoTerminator(s, 0, |s|)
  {
    6 <= |s| <= 20 && forall i :: 0 <= i < |s| ==> IsWordChar(s[i])
  }

  // ---------------------------------------------------------------------
  // The password pattern `(?=.*\d)(?=.*[a-z])(?=.*[A-Z])(?=.*[^a-zA-Z0-9]).{8,}`,
  // unanchored, as ECMAScript's RegExp.prototype.test runs it: some start
  // position must satisfy all four lookaheads and be followed by eight
  // characters. `.` matches anything but a line terminator.
  // ---------------------------------------------------------------------

  /** The characters `.` does not match: LF, CR, LINE SEPARATOR and PARAGRAPH SEPARATOR. */
  predicate IsLineTerminator(c: char) {
    c == '\n' || c == '\r' || c == '\U{2028}' || c == '\U{2029}'
  }

  /** The four classes the lookaheads look for; `Special` is `[^a-zA-Z0-9]`. */
  datatype CharClass = Digit | Lower | Upper | Special

  predicate InClass(c: char, k: CharClass) {
    match k
    case Digit => IsDigit(c)
    case Lower => IsLower(c)
    case Upper => IsUpper(c)
    case Special => !IsDigit(c) && !IsLower(c) && !IsUpper(c)
  }

  /** `s[from..to]` can be consumed by `.*`. */
  predicate NoTerminator(s: string, from: int, to: int)
    requires 0 <= from <= to <= |s|
  {
    forall k :: from <= k < to ==> !IsLineTerminator(s[k])
  }

  /** `(?=.*X)` at position `p`. */
  predicate LooksAhead(s: string, p: int, k: CharClass)
    requires 0 <= p <= |s|
  {
    exists q :: p <= q < |s| && InClass(s[q], k) && NoTerminator(s, p, q)
  }

  /** The whole pattern matches starting at position `p`. */
  predicate PasswordMatchesAt(s: string, p: int)
    requires 0 <= p <= |s|
  {
    && LooksAhead(s, p, Digit)
    && LooksAhead(s, p, Lower)
    && LooksAhead(s, p, Upper)
    && LooksAhead(s, p, Special)
    && p + 8 <= |s| && NoTerminator(s, p, p + 8)
  }

  /** A match anywhere, even across a line break, meets the worded rule. */
  lemma MatchMeetsRule(s: string, p: int)
    requires 0 <= p <= |s| && PasswordMatchesAt(s, p)
    ensures MeetsPasswordRule(s)
  {
    var d :| p <= d < |s| && InClass(s[d], Digit) && NoTerminator(s, p, d);
    var l :| p <= l < |s| && InClass(s[l], Lower) && NoTerminator(s, p, l);
    var u :| p <= u < |s| && InClass(s[u], Upper) && NoTerminator(s, p, u);
    var x :| p <= x < |s| && InClass(s[x], Special) && NoTerminator(s, p, x);
    assert IsDigit(s[d]) && IsLower(s[l]) && IsUpper(s[u]);
  }

  /** `RegExp.prototype.test`: the pattern matches from some position. */
  function ValidPassword(s: string): (r: bool)
    ensures r ==> MeetsPasswordRule(s)
  {
    if exists p :: 0 <= p <= |s| && PasswordMatchesAt(s, p) then
      var p :| 0 <= p <= |s| && PasswordMatchesAt(s, p);
      MatchMeetsRule(s, p);
      true
    else false
  }

  /** The rule as the error message words it. */
  predicate MeetsPasswordRule(s: string) {
    && |s| >= 8
    && (exists i :: 0 <= i < |s| && IsDigit(s[i]))
    && (exists i :: 0 <= i < |s| && IsLower(s[i]))
    && (exists i :: 0 <= i < |s| && IsUpper(s[i]))
    && (exists i :: 0 <= i < |s| && InClass(s[i], Special))
  }

  /** On a single line the pattern is exactly the worded rule. */
  lemma PasswordPatternOnOneLine(s: string)
    requires NoTerminator(s, 0, |s|)
    ensures ValidPassword(s) <==> MeetsPasswordRule(s)
  {
    if MeetsPasswordRule(s) {
      var d :| 0 <= d < |s| && IsDigit(s[d]);
      var l :| 0 <= l < |s| && IsLower(s[l]);
      var u :| 0 <= u < |s| && IsUpper(s[u]);
      var x :| 0 <= x < |s| && InClass(s[x], Special);
      assert InClass(s[d], Digit) && NoTerminator(s, 0, d);
      assert InClass(s[l], Lower) && NoTerminator(s, 0, l);
      assert InClass(s[u], Upper) && NoTerminator(s, 0, u);
      assert NoTerminator(s, 0, x);
      assert PasswordMatchesAt(s, 0);
    }
  }

  /**
   * Across a line break the pattern is stricter than the worded rule: all
   * four kinds and the eight characters must sit on one line, so
   * "Ab1!" + LF + "abcdefgh" meets the rule but is refused.
   */
  lemma LineBreakSplitsPassword()
    ensures MeetsPasswordRule("Ab1!\nabcdefgh")
    ensures !ValidPassword("Ab1!\nabcdefgh")
  {
    var s := "Ab1!\nabcdefgh";
    assert IsDigit(s[2]) && IsLower(s[1]) && IsUpper(s[0]) && InClass(s[3], Special);
    forall p | 0 <= p <= |s| ensures !PasswordMatchesAt(s, p) {
      if p <= 4 && p + 8 <= |s| {
        assert IsLineTerminator(s[4]);
      } else if p == 5 {
        assert forall q :: 5 <= q < |s| ==> !IsDigit(s[q]);
        assert !InClass(s[5], Digit);
      }
    }
  }

  // ---------------------------------------------------------------------
  // Registration and login
  // ---------------------------------------------------------------------

  /** No two stored users share a username. */
  predicate UniqueUsernames(users: seq<User>) {
    forall i, j :: 0 <= i < |users| && 0 <= j < |users| && users[i].username == users[j].username ==> i == j
  }

  /**
   * The checks POST /users/register makes, in order: username pattern,
   * password pattern, then that the username is free. The first to fail is
   * the one reported.
   */
  function RegisterCheck(users: seq<User>, username: string, password: string): (r: Result<()>)
    ensures r.Ok? <==>
      ValidUsername(username) && ValidPassword(password) && forall u :: u in users ==> u.username != username
    ensures !ValidUsername(username) ==> r == Err(BadRequest(InvalidUsername))
    ensures ValidUsername(username) && !ValidPassword(password) ==> r == Err(BadRequest(InvalidPassword))
    ensures ValidUsername(username) && ValidPassword(password) && (exists u :: u in users && u.username == username) ==>
      r == Err(BadRequest(UserExists))
  {
    if !ValidUsername(username) then Err(BadRequest(InvalidUsername))
    else if !ValidPassword(password) then Err(BadRequest(InvalidPassword))
    else if IndexWhere(users, HasUsername(username)) >= 0 then Err(BadRequest(UserExists))
    else Ok(())
  }

  /** POST /users/register: append the user with id `users.length + 1` if every check passes. */
  method Register(st: Db.Store, username: string, password: string,
                  email: Option<string>, address: Option<string>, phone: Option<string>)
    returns (r: Result<User>)
    modifies st`users
    ensures var check := RegisterCheck(old(st.users), username, password);
      && (check.Err? ==> r == Err(check.failure) && st.users == old(st.users))
      && (check.Ok? ==>
        && r == Ok(User(|old(st.users)| + 1, username, password, email, address, phone))
        && st.users == old(st.users) + [r.value])
  {
    if !ValidUsername(username) {
      return Err(BadRequest(InvalidUsername));
    }
    if !ValidPassword(password) {
      return Err(BadRequest(InvalidPassword));
    }
    var existing := FindIndex(st.users, HasUsername(username));
    if existing != -1 {
      return Err(BadRequest(UserExists));
    }
    var user := User(|st.users| + 1, username, password, email, address, phone);
    st.users := st.users + [user];
    r := Ok(user);
  }

  /** A registration that passes keeps usernames unique. */
  lemma RegisterKeepsUsernamesUnique(users: seq<User>, user: User)
    requires UniqueUsernames(users)
    requires RegisterCheck(users, user.username, user.password).Ok?
    ensures UniqueUsernames(users + [user])
  {
    var after := users + [user];
    forall i, j | 0 <= i < |after| && 0 <= j < |after| && after[i].username == after[j].username
      ensures i == j
    {
      if i < |users| { assert users[i] in users; }
      if j < |users| { assert users[j] in users; }
    }
  }

  /**
   * POST /users/login: the first user with that username, if the password is
   * equal. An unknown username and a wrong password get the same answer.
   */
  function Login(users: seq<User>, username: string, password: string): (r: Result<User>)
    ensures r.Ok? ==> r.value in users && r.value.username == username && r.value.password == password
    ensures r.Err? ==> r == Err(BadRequest(InvalidCredentials))
    ensures (forall u :: u in users ==> u.username != username) ==> r.Err?
  {
    var i := IndexWhere(users, HasUsername(username));
    if i < 0 || users[i].password != password then Err(BadRequest(InvalidCredentials))
    else Ok(users[i])
  }

  /** With unique usernames, login succeeds exactly for a stored username and its password. */
  lemma LoginIff(users: seq<User>, username: string, password: string)
    requires UniqueUsernames(users)
    ensures Login(users, username, password).Ok? <==>
      exists u :: u in users && u.username == username && u.password == password
  {
    if u :| u in users && u.username == username && u.password == password {
      var k :| 0 <= k < |users| && users[k] == u;
      var i := IndexWhere(users, HasUsername(username));
      assert i >= 0 && users[i].username == users[k].username;
    }
  }

  /** Registering and then logging in with the same credentials yields the new user. */
  lemma RegisterThenLogin(users: seq<User>, username: string, password: string,
                          email: Option<string>, address: Option<string>, phone: Option<string>)
    requires RegisterCheck(users, username, password).Ok?
    ensures var user := User(|users| + 1, username, password, email, address, phone);
      Login(users + [user], username, password) == Ok(user)
  {
    var user := User(|users| + 1, username, password, email, address, phone);
    var after := users + [user];
    forall j | 0 <= j < |users| ensures !HasUsername(username)(after[j]) {
      assert users[j] in users;
    }
    assert HasUsername(username)(after[|users|]);
    assert IndexWhere(after, HasUsername(username)) == |users|;
  }

  // ---------------------------------------------------------------------
  // The signed-in user's profile and password
  // ---------------------------------------------------------------------

  /** A user record without its password. */
  datatype Profile = Profile(id: int, username: string, email: Option<string>, address: Option<string>, phone: Option<string>)

  function ProfileView(u: User): Profile {
    Profile(u.id, u.username, u.email, u.address, u.phone)
  }

  /** GET /users/profile: the first user with the caller's id, password removed. */
  function ProfileOf(users: seq<User>, userId: int): (r: Result<Profile>)
    ensures r.Err? <==> forall u :: u in users ==> u.id != userId
    ensures r.Err? ==> r == Err(NotFound)
    ensures r.Ok? ==> r.value.id == userId && exists u :: u in users && r.value == ProfileView(u)
    ensures r.Ok? ==>
      exists i :: (0 <= i < |users| && r.value == ProfileView(users[i]) &&
                   forall j :: 0 <= j < i ==> users[j].id != userId)
  {
    var i := IndexWhere(users, HasUserId(userId));
    if i < 0 then Err(NotFound) else Ok(ProfileView(users[i]))
  }

  /** The profile does not reveal the password: changing it leaves every profile as it was. */
  lemma ProfileHidesPassword(users: seq<User>, i: int, password: string, userId: int)
    requires 0 <= i < |users|
    ensures ProfileOf(users[i := users[i].(password := password)], userId) == ProfileOf(users, userId)
  {
    var after := users[i := users[i].(password := password)];
    IndexWhereAgrees(after, HasUserId(userId), users, HasUserId(userId));
  }

  /** The new users array after PUT /users/profile, or NotFound. */
  function ProfileUpdated(users: seq<User>, userId: int,
                          email: Option<string>, address: Option<string>, phone: Option<string>): (r: Result<seq<User>>)
    ensures r.Err? <==> forall u :: u in users ==> u.id != userId
    ensures r.Err? ==> r == Err(NotFound)
    ensures r.Ok? ==> |r.value| == |users|
  {
    var i := IndexWhere(users, HasUserId(userId));
    if i < 0 then Err(NotFound)
    else Ok(users[i := users[i].(email := email, address := address, phone := phone)])
  }

  /**
   * PUT /users/profile: replace the caller's email, address and phone with the
   * body's (a field the body lacks becomes absent). Id, username and password
   * are kept.
   */
  method UpdateProfile(st: Db.Store, userId: int, email: Option<string>, address: Option<string>, phone: Option<string>)
    returns (r: Result<()>)
    modifies st`users
    ensures var next := ProfileUpdated(old(st.users), userId, email, address, phone);
      && (next.Err? ==> r == Err(next.failure) && st.users == old(st.users))
      && (next.Ok? ==> r == Ok(()) && st.users == next.value)
  {
    var i := FindIndex(st.users, HasUserId(userId));
    if i == -1 {
      return Err(NotFound);
    }
    st.users := st.users[i := st.users[i].(email := email, address := address, phone := phone)];
    r := Ok(());
  }

  /** A profile update is what the next profile read returns, and it touches no other user. */
  lemma ProfileUpdateRoundTrip(users: seq<User>, userId: int,
                               email: Option<string>, address: Option<string>, phone: Option<string>)
    requires ProfileUpdated(users, userId, email, address, phone).Ok?
    ensures var i := IndexWhere(users, HasUserId(userId));
      var after := ProfileUpdated(users, userId, email, address, phone).value;
      && 0 <= i < |users| && users[i].id == userId
      && after[i] == users[i].(email := email, address := address, phone := phone)
      && (forall k :: 0 <= k < |users| && k != i ==> after[k] == users[k])
      && ProfileOf(after, userId).Ok?
      && ProfileOf(after, userId).value == ProfileOf(users, userId).value.(email := email, address := address, phone := phone)
      && (forall k :: 0 <= k < |users| && users[k].id != userId ==> after[k] == users[k])
  {
    var i := IndexWhere(users, HasUserId(userId));
    var after := ProfileUpdated(users, userId, email, address, phone).value;
    assert after == users[i := users[i].(email := email, address := address, phone := phone)];
    IndexWhereAfterUpdate(users, HasUserId(userId), i, after[i]);
  }

  /** A profile update leaves every login and every username as it was. */
  lemma ProfileUpdateKeepsLogins(users: seq<User>, userId: int,
                                 email: Option<string>, address: Option<string>, phone: Option<string>,
                                 username: string, password: string)
    requires ProfileUpdated(users, userId, email, address, phone).Ok?
    ensures var after := ProfileUpdated(users, userId, email, address, phone).value;
      && (Login(after, username, password).Ok? <==> Login(users, username, password).Ok?)
      && (UniqueUsernames(users) ==> UniqueUsernames(after))
  {
    var i := IndexWhere(users, HasUserId(userId));
    var after := ProfileUpdated(users, userId, email, address, phone).value;
    assert after == users[i := users[i].(email := email, address := address, phone := phone)];
    IndexWhereAgrees(after, HasUsername(username), users, HasUsername(username));
    assert forall k :: 0 <= k < |users| ==> after[k].username == users[k].username;
  }

  /**
   * The new users array after PUT /users/change-password, or why it was
   * refused: NotFound, then a wrong old password, then a new password that
   * fails the pattern.
   */
  function PasswordChanged(users: seq<User>, userId: int, oldPassword: string, newPassword: string): (r: Result<seq<User>>)
    ensures r.Err? ==> r.failure in {NotFound, BadRequest(OldPasswordIncorrect), BadRequest(InvalidNewPassword)}
    ensures r.Ok? ==> |r.value| == |users| && MeetsPasswordRule(newPassword)
    ensures r.Ok? ==>
      exists i :: (0 <= i < |users| && users[i].id == userId && users[i].password == oldPassword &&
                   r.value[i].password == newPassword)
  {
    var i := IndexWhere(users, HasUserId(userId));
    if i < 0 then Err(NotFound)
    else if users[i].password != oldPassword then Err(BadRequest(OldPasswordIncorrect))
    else if !ValidPassword(newPassword) then Err(BadRequest(InvalidNewPassword))
    else Ok(users[i := users[i].(password := newPassword)])
  }

  /** PUT /users/change-password, on the first user with the caller's id. */
  method ChangePassword(st: Db.Store, userId: int, oldPassword: string, newPassword: string)
    returns (r: Result<()>)
    modifies st`users
    ensures var next := PasswordChanged(old(st.users), userId, oldPassword, newPassword);
      && (next.Err? ==> r == Err(next.failure) && st.users == old(st.users))
      && (next.Ok? ==> r == Ok(()) && st.users == next.value)
  {
    var i := FindIndex(st.users, HasUserId(userId));
    if i == -1 {
      return Err(NotFound);
    }
    if st.users[i].password != oldPassword {
      return Err(BadRequest(OldPasswordIncorrect));
    }
    if !ValidPassword(newPassword) {
      return Err(BadRequest(InvalidNewPassword));
    }
    st.users := st.users[i := st.users[i].(password := newPassword)];
    r := Ok(());
  }

  /**
   * The refusals come in order: an unknown id, then a wrong old password
   * (whatever the new one is), then a new password that fails the pattern; a
   * change is accepted exactly when all three checks pass.
   */
  lemma PasswordChangeChecks(users: seq<User>, userId: int, oldPassword: string, newPassword: string)
    ensures var r := PasswordChanged(users, userId, oldPassword, newPassword);
      && ((forall u :: u in users ==> u.id != userId) <==> r == Err(NotFound))
      && (r.Ok? <==>
        exists i :: 0 <= i < |users| && users[i].id == userId && (forall j :: 0 <= j < i ==> users[j].id != userId) &&
          users[i].password == oldPassword && ValidPassword(newPassword))
    ensures var i := IndexWhere(users, HasUserId(userId));
      var r := PasswordChanged(users, userId, oldPassword, newPassword);
      && (i >= 0 && users[i].password != oldPassword ==> r == Err(BadRequest(OldPasswordIncorrect)))
      && (i >= 0 && users[i].password == oldPassword && !ValidPassword(newPassword) ==>
            r == Err(BadRequest(InvalidNewPassword)))
  {
    var i := IndexWhere(users, HasUserId(userId));
    if i >= 0 {
      assert users[i] in users;
    }
  }

  /**
   * After a change only that user's password differs; the new password logs
   * in and, when it differs, the old one no longer does; the profile and all
   * usernames are as they were.
   */
  lemma PasswordChangeRoundTrip(users: seq<User>, userId: int, oldPassword: string, newPassword: string)
    requires UniqueUsernames(users)
    requires PasswordChanged(users, userId, oldPassword, newPassword).Ok?
    ensures var i := IndexWhere(users, HasUserId(userId));
      var after := PasswordChanged(users, userId, oldPassword, newPassword).value;
      && |after| == |users|
      && after[i] == users[i].(password := newPassword)
      && (forall k :: 0 <= k < |users| && k != i ==> after[k] == users[k])
      && Login(after, users[i].username, newPassword) == Ok(after[i])
      && (oldPassword != newPassword ==> Login(after, users[i].username, oldPassword).Err?)
      && ProfileOf(after, userId) == ProfileOf(users, userId)
      && UniqueUsernames(after)
  {
    var i := IndexWhere(users, HasUserId(userId));
    assert PasswordChanged(users, userId, oldPassword, newPassword).value == users[i := users[i].(password := newPassword)];
    NewPasswordLogsIn(users, i, oldPassword, newPassword);
    ProfileHidesPassword(users, i, newPassword, userId);
  }

  /** Setting one user's password: that password logs in under the name, another one does not. */
  lemma NewPasswordLogsIn(users: seq<User>, i: int, oldPassword: string, newPassword: string)
    requires UniqueUsernames(users) && 0 <= i < |users|
    ensures var after := users[i := users[i].(password := newPassword)];
      && Login(after, users[i].username, newPassword) == Ok(after[i])
      && (oldPassword != newPassword ==> Login(after, users[i].username, oldPassword).Err?)
      && UniqueUsernames(after)
  {
    var after := users[i := users[i].(password := newPassword)];
    var name := users[i].username;
    IndexWhereAgrees(after, HasUsername(name), users, HasUsername(name));
    var j := IndexWhere(users, HasUsername(name));
    assert j == i by {
      assert users[j].username == users[i].username;
    }
  }
}
