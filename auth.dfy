/** Accounts and the login session of utils/auth.py: the `salt$digest`
    password format, registration over the `users` table, and the session
    transitions of login, logout and initialisation. PBKDF2-HMAC-SHA256 is
    a deterministic function passed in; the random salt and the clock are
    parameters. */
module Auth {
  import opened Common

  newtype byte = x: int | 0 <= x < 256

  /** `hashlib.pbkdf2_hmac('sha256', password, salt, 100000)`. */
  type Pbkdf2 = (string, string) -> seq<byte>

  // ---------------------------------------------------------------------------
  // Hex encoding
  // ---------------------------------------------------------------------------

  function HexDigit(d: int): char
    requires 0 <= d < 16
  {
    if d < 10 then ('0' as int + d) as char else ('a' as int + d - 10) as char
  }

  predicate IsHexDigit(c: char) { '0' <= c <= '9' || 'a' <= c <= 'f' }

  /** `bytes.hex()`: two lower-case hex digits per byte. */
  function Hex(bs: seq<byte>): (s: string)
    ensures |s| == 2 * |bs|
    ensures forall i :: 0 <= i < |s| ==> IsHexDigit(s[i])
  {
    if bs == [] then ""
    else [HexDigit(bs[0] as int / 16), HexDigit(bs[0] as int % 16)] + Hex(bs[1..])
  }

  /** Different digests have different hex forms. */
  lemma {:induction false} HexInjective(a: seq<byte>, b: seq<byte>)
    requires Hex(a) == Hex(b)
    ensures a == b
    decreases |a|
  {
    if a != [] {
      var ha := Hex(a);
      assert ha[0] == HexDigit(a[0] as int / 16) && ha[1] == HexDigit(a[0] as int % 16);
      assert ha[0] == HexDigit(b[0] as int / 16) && ha[1] == HexDigit(b[0] as int % 16);
      assert a[0] == b[0];
      assert Hex(a[1..]) == ha[2..] == Hex(b[1..]);
      HexInjective(a[1..], b[1..]);
    }
  }

  /** `secrets.token_hex(8)`: sixteen hex digits. */
  predicate IsSalt(salt: string) {
    |salt| == 16 && forall i :: 0 <= i < |salt| ==> IsHexDigit(salt[i])
  }

  predicate IsAscii(s: string) { forall i :: 0 <= i < |s| ==> s[i] as int < 128 }

  lemma NoDollar(s: string)
    requires forall i :: 0 <= i < |s| ==> IsHexDigit(s[i])
    ensures !HasSubstring(s, "$")
  {
    forall i | 0 <= i <= |s| - 1 ensures !OccursAt(s, "$", i) {
      assert s[i..i + 1][0] == s[i];
    }
  }

  // ---------------------------------------------------------------------------
  // hash_password / verify_password
  // ---------------------------------------------------------------------------

  /** The stored form `salt$hexdigest`; it splits on `$` into exactly the
      salt and the digest. */
  function HashPassword(password: string, salt: string, pbkdf2: Pbkdf2): (stored: string)
    requires IsSalt(salt)
    ensures Split(stored, "$") == [salt, Hex(pbkdf2(password, salt))]
    ensures |stored| == 17 + 2 * |pbkdf2(password, salt)|
    ensures stored[..16] == salt && stored[16] == '$'
  {
    var digest := Hex(pbkdf2(password, salt));
    NoDollar(salt);
    NoDollar(digest);
    SplitPair(salt, digest, "$");
    salt + "$" + digest
  }

  /** `verify_password`; None when it raises (a stored value without `$`,
      or a salt that is not ASCII). */
  function VerifyPassword(stored: string, provided: string, pbkdf2: Pbkdf2): (r: Option<bool>)
    ensures r.Some? <==> |Split(stored, "$")| >= 2 && IsAscii(Split(stored, "$")[0])
    ensures r.Some? ==> (r.value <==> Hex(pbkdf2(provided, Split(stored, "$")[0])) == Split(stored, "$")[1])
  {
    var parts := Split(stored, "$");
    if |parts| < 2 || !IsAscii(parts[0]) then None
    else Some(Hex(pbkdf2(provided, parts[0])) == parts[1])
  }

  /** Round trip: a hashed password verifies against itself, and another
      password verifies exactly when its digest under the same salt is the
      same. */
  lemma HashVerifyRoundTrip(p: string, q: string, salt: string, pbkdf2: Pbkdf2)
    requires IsSalt(salt)
    ensures VerifyPassword(HashPassword(p, salt, pbkdf2), p, pbkdf2) == Some(true)
    ensures VerifyPassword(HashPassword(p, salt, pbkdf2), q, pbkdf2) == Some(pbkdf2(q, salt) == pbkdf2(p, salt))
  {
    var stored := HashPassword(p, salt, pbkdf2);
    assert IsAscii(salt) by {
      forall i | 0 <= i < |salt| ensures salt[i] as int < 128 {
        assert IsHexDigit(salt[i]);
      }
    }
    if Hex(pbkdf2(q, salt)) == Hex(pbkdf2(p, salt)) {
      HexInjective(pbkdf2(q, salt), pbkdf2(p, salt));
    }
  }

  // ---------------------------------------------------------------------------
  // The users table
  // ---------------------------------------------------------------------------

  datatype User = User(id: int, email: string, username: string, hashedPassword: string, createdAt: int, lastLogin: Option<int>)

  /** `query(User).filter(User.email == email).first()`. */
  function UserWithEmail(users: seq<User>, email: string): (r: Option<User>)
    ensures r.Some? <==> exists u :: u in users && u.email == email
    ensures r.Some? ==> r.value in users && r.value.email == email
  {
    if users == [] then None
    else if users[0].email == email then Some(users[0])
    else
      var rest := UserWithEmail(users[1..], email);
      assert forall u :: u in users ==> u == users[0] || u in users[1..];
      rest
  }

  predicate EmailTaken(users: seq<User>, email: string) { exists u :: u in users && u.email == email }
  predicate UsernameTaken(users: seq<User>, username: string) { exists u :: u in users && u.username == username }

  /** The unique constraints on `id`, `email` and `username`. */
  predicate UniqueUsers(users: seq<User>) {
    forall i, j :: 0 <= i < j < |users| ==>
      users[i].id != users[j].id && users[i].email != users[j].email && users[i].username != users[j].username
  }

  datatype Registration = Registered | EmailAlreadyRegistered | UsernameAlreadyTaken | RegistrationError

  /** A freshly registered user can log in with the password given at
      registration. */
  lemma {:induction false} RegisteredUserCanLogIn(users: seq<User>, u: User, password: string, salt: string, pbkdf2: Pbkdf2)
    requires IsSalt(salt) && !EmailTaken(users, u.email)
    requires u.hashedPassword == HashPassword(password, salt, pbkdf2)
    ensures UserWithEmail(users + [u], u.email) == Some(u)
    ensures VerifyPassword(u.hashedPassword, password, pbkdf2) == Some(true)
    decreases |users|
  {
    HashVerifyRoundTrip(password, password, salt, pbkdf2);
    if users != [] {
      assert (users + [u])[1..] == users[1..] + [u];
      assert !EmailTaken(users[1..], u.email) by {
        forall v | v in users[1..] ensures v.email != u.email {
          assert v in users;
        }
      }
      RegisteredUserCanLogIn(users[1..], u, password, salt, pbkdf2);
    }
  }

  class UserTable {
    var users: seq<User>
    var nextId: int

    ghost predicate Valid()
      reads this
    {
      UniqueUsers(users) && forall u :: u in users ==> u.id < nextId
    }

    constructor ()
      ensures Valid() && users == [] && nextId == 1
    {
      users := [];
      nextId := 1;
    }

    /** `register_user`: the email is checked before the username; either
        rejection, and a failing commit, leave the table unchanged. */
    method Register(email: string, username: string, password: string, salt: string, pbkdf2: Pbkdf2, now: int, commitFails: bool)
      returns (outcome: Registration)
      requires Valid() && IsSalt(salt)
      modifies this
      ensures Valid()
      ensures EmailTaken(old(users), email) ==> outcome == EmailAlreadyRegistered
      ensures !EmailTaken(old(users), email) && UsernameTaken(old(users), username) ==> outcome == UsernameAlreadyTaken
      ensures !EmailTaken(old(users), email) && !UsernameTaken(old(users), username) ==>
        outcome == (if commitFails then RegistrationError else Registered)
      ensures outcome == Registered ==>
        users == old(users) + [User(old(nextId), email, username, HashPassword(password, salt, pbkdf2), now, None)]
        && nextId == old(nextId) + 1
      ensures outcome != Registered ==> users == old(users) && nextId == old(nextId)
    {
      if UserWithEmail(users, email).Some? {
        return EmailAlreadyRegistered;
      }
      if exists u :: u in users && u.username == username {
        return UsernameAlreadyTaken;
      }
      if commitFails {
        return RegistrationError;
      }
      var u := User(nextId, email, username, HashPassword(password, salt, pbkdf2), now, None);
      users := users + [u];
      nextId := nextId + 1;
      outcome := Registered;
    }
  }

  // ---------------------------------------------------------------------------
  // The session
  // ---------------------------------------------------------------------------

  datatype UserInfo = UserInfo(id: int, email: string, username: string)

  /** The values the application keeps in the session. */
  datatype Value = VBool(b: bool) | VNone | VUser(info: UserInfo) | VTime(t: int) | VJson(j: Json)

  /** Python truthiness of a session value: a timestamp object is always
      true; a JSON value is false when it is null, false, zero or empty. */
  predicate Truthy(v: Value) {
    match v
    case VBool(b) => b
    case VNone => false
    case VUser(_) => true
    case VTime(_) => true
    case VJson(j) => JsonTruthy(j)
  }

  predicate JsonTruthy(j: Json) {
    match j
    case JNull => false
    case JBool(b) => b
    case JNum(n) => n != 0.0
    case JStr(s) => s != ""
    case JList(items) => items != []
    case JObject(fields) => fields != map[]
  }

  const Authenticated := "authenticated"
  const CurrentUserKey := "user"
  const LastRecommendationTime := "last_recommendation_time"

  /** `init_session_state`: each of the three keys gets its default only
      when it is absent. */
  function WithDefaults(m: map<string, Value>): (r: map<string, Value>)
    ensures r.Keys == m.Keys + {Authenticated, CurrentUserKey, LastRecommendationTime}
    ensures forall k :: k in m ==> r[k] == m[k]
    ensures Authenticated !in m ==> r[Authenticated] == VBool(false)
    ensures CurrentUserKey !in m ==> r[CurrentUserKey] == VNone
    ensures LastRecommendationTime !in m ==> r[LastRecommendationTime] == VNone
  {
    var a := if Authenticated in m then m else m[Authenticated := VBool(false)];
    var b := if CurrentUserKey in a then a else a[CurrentUserKey := VNone];
    if LastRecommendationTime in b then b else b[LastRecommendationTime := VNone]
  }

  /** Initialising twice is the same as initialising once. */
  lemma WithDefaultsIdempotent(m: map<string, Value>)
    ensures WithDefaults(WithDefaults(m)) == WithDefaults(m)
  {
  }

  /** The session after a successful login. */
  function LoggedIn(m: map<string, Value>, info: UserInfo): map<string, Value> {
    m[Authenticated := VBool(true)][CurrentUserKey := VUser(info)][LastRecommendationTime := VNone]
  }

  /** The session after `logout_user`. */
  function LoggedOut(m: map<string, Value>): map<string, Value> {
    m[Authenticated := VBool(false)][CurrentUserKey := VNone][LastRecommendationTime := VNone]
  }

  /** `get_current_user`: None unless `authenticated` is truthy; reading
      `user` when it is missing raises. */
  function CurrentUser(m: map<string, Value>): (r: Result<Value, string>)
    ensures (Authenticated !in m || !Truthy(m[Authenticated])) ==> r == Ok(VNone)
    ensures Authenticated in m && Truthy(m[Authenticated]) && CurrentUserKey in m ==> r == Ok(m[CurrentUserKey])
    ensures r.Err? <==> Authenticated in m && Truthy(m[Authenticated]) && CurrentUserKey !in m
  {
    var authenticated := if Authenticated in m then m[Authenticated] else VBool(false);
    if !Truthy(authenticated) then Ok(VNone)
    else if CurrentUserKey in m then Ok(m[CurrentUserKey])
    else Err("session has no user")
  }

  /** After login the current user is the one logged in; after logout there
      is none, and the recommendation timestamp is cleared by both. */
  lemma SessionTransitions(m: map<string, Value>, info: UserInfo)
    ensures CurrentUser(LoggedIn(m, info)) == Ok(VUser(info))
    ensures CurrentUser(LoggedOut(m)) == Ok(VNone)
    ensures LoggedIn(m, info)[LastRecommendationTime] == VNone && LoggedOut(m)[LastRecommendationTime] == VNone
    ensures CurrentUser(LoggedOut(LoggedIn(m, info))) == Ok(VNone)
  {
  }

  class SessionState {
    var entries: map<string, Value>

    constructor ()
      ensures entries == map[]
    {
      entries := map[];
    }

    method Init()
      modifies this
      ensures entries == WithDefaults(old(entries))
    {
      if Authenticated !in entries {
        entries := entries[Authenticated := VBool(false)];
      }
      if CurrentUserKey !in entries {
        entries := entries[CurrentUserKey := VNone];
      }
      if LastRecommendationTime !in entries {
        entries := entries[LastRecommendationTime := VNone];
      }
    }

    method Logout()
      modifies this
      ensures entries == LoggedOut(old(entries))
    {
      entries := entries[Authenticated := VBool(false)];
      entries := entries[CurrentUserKey := VNone];
      entries := entries[LastRecommendationTime := VNone];
    }
  }

  /** The row with its `last_login` set. */
  function Touch(users: seq<User>, id: int, now: int): (r: seq<User>)
    ensures |r| == |users|
    ensures forall i :: 0 <= i < |users| ==>
      r[i] == if users[i].id == id then users[i].(lastLogin := Some(now)) else users[i]
  {
    seq(|users|, i requires 0 <= i < |users| =>
      if users[i].id == id then users[i].(lastLogin := Some(now)) else users[i])
  }

  /** `login_user`: succeeds exactly when a user has this email, the
      stored hash verifies and the commit of `last_login` succeeds; only
      then are `last_login` and the session changed. */
  method Login(table: UserTable, session: SessionState, email: string, password: string, pbkdf2: Pbkdf2, now: int, commitFails: bool)
    returns (ok: bool)
    modifies table, session
    ensures table.nextId == old(table.nextId)
    ensures ok <==> (var u := UserWithEmail(old(table.users), email);
      u.Some? && VerifyPassword(u.value.hashedPassword, password, pbkdf2) == Some(true) && !commitFails)
    ensures ok ==> (var u := UserWithEmail(old(table.users), email).value;
      table.users == Touch(old(table.users), u.id, now)
      && session.entries == LoggedIn(old(session.entries), UserInfo(u.id, u.email, u.username)))
    ensures !ok ==> table.users == old(table.users) && session.entries == old(session.entries)
  {
    var found := UserWithEmail(table.users, email);
    if found.None? {
      return false;
    }
    var u := found.value;
    var verified := VerifyPassword(u.hashedPassword, password, pbkdf2);
    if verified != Some(true) || commitFails {
      return false;
    }
    table.users := Touch(table.users, u.id, now);
    session.entries := session.entries[Authenticated := VBool(true)];
    session.entries := session.entries[CurrentUserKey := VUser(UserInfo(u.id, u.email, u.username))];
    session.entries := session.entries[LastRecommendationTime := VNone];
    ok := true;
  }
}
