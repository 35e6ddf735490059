/** Session revocation in the admin API (services/admin-api/auth.go, handlers_admin.go):
    logins issue tokens, a password, role or status change raises the user's session epoch
    (MinTokenIAT), deletion removes the user. Clocks count whole Unix seconds. Passwords are
    given by whether they match the stored hash. */
module Sessions {
  import opened Wrappers

  datatype User = User(id: string, roles: seq<string>, tenant: string, status: string, minTokenIAT: int)

  /** The claims of a token this service issued. */
  datatype Token = Token(sub: string, roles: seq<string>, tenant: string, iat: int, exp: int)

  type Users = map<string, User>

  const TWELVE_HOURS: int := 12 * 3600

  datatype Change = Change(id: string, roles: seq<string>, status: string, tenant: string, password: bool, currentOk: bool)

  // ---------------------------------------------------------------------------
  // What each handler does to the user table
  // ---------------------------------------------------------------------------

  /** The iat a login at second now is given: strictly above the epoch. */
  function IssuedAt(u: User, now: int): int { if u.minTokenIAT >= now then u.minTokenIAT + 1 else now }

  function TokenFor(u: User, now: int): Token { Token(u.id, u.roles, u.tenant, IssuedAt(u, now), now + TWELVE_HOURS) }

  function LoginResult(users: Users, email: string, passwordOk: bool, now: int): Option<Token> {
    if email in users && users[email].status == "active" && passwordOk then Some(TokenFor(users[email], now)) else None
  }

  /** A change that ends sessions: of password, roles or status. */
  predicate Bumps(u: User, c: Change) {
    c.password || (c.roles != [] && c.roles != u.roles) || (c.status != "" && c.status != u.status)
  }

  function Changed(u: User, c: Change, now: int): User {
    User(u.id,
         if c.roles != [] then c.roles else u.roles,
         if c.tenant != "" then c.tenant else u.tenant,
         if c.status != "" then c.status else u.status,
         if Bumps(u, c) then now else u.minTokenIAT)
  }

  predicate UniqueIds(users: Users) {
    forall e <- users, f <- users :: users[e].id == users[f].id ==> e == f
  }

  predicate Has(users: Users, e: string, id: string) { e in users && users[e].id == id }

  /** The table after an update: e is where the id is found, if anywhere. */
  ghost predicate AfterUpdate(users: Users, users1: Users, c: Change, now: int) {
    if (exists e :: Has(users, e, c.id)) && (c.password ==> c.currentOk) then
      exists e :: Has(users, e, c.id) && users1 == users[e := Changed(users[e], c, now)]
    else users1 == users
  }

  ghost predicate AfterDelete(users: Users, users1: Users, id: string) {
    if exists e :: Has(users, e, id) then exists e :: Has(users, e, id) && users1 == users - {e} else users1 == users
  }

  /** localSessionValid for a token of this service. */
  ghost predicate SessionValid(users: Users, t: Token) {
    exists e :: Has(users, e, t.sub) && users[e].status == "active" && t.iat > users[e].minTokenIAT
  }

  class App {
    var users: Users

    constructor ()
      ensures users == map[]
    {
      users := map[];
    }

    /** The range over the map, stopping at the id. */
    method Find(id: string) returns (email: Option<string>)
      ensures email.Some? ==> Has(users, email.value, id)
      ensures email.None? ==> forall e :: !Has(users, e, id)
    {
      var keys := users.Keys;
      while keys != {}
        invariant keys <= users.Keys && forall e :: Has(users, e, id) ==> e in keys
        decreases |keys|
      {
        var e :| e in keys;
        if users[e].id == id { return Some(e); }
        keys := keys - {e};
      }
      email := None;
    }

    method HandleLogin(email: string, passwordOk: bool, now: int) returns (t: Option<Token>)
      ensures t == LoginResult(users, email, passwordOk, now)
    {
      if email !in users || users[email].status != "active" || !passwordOk { return None; }
      var u := users[email];
      var iat := now;
      if u.minTokenIAT >= iat { iat := u.minTokenIAT + 1; }
      t := Some(Token(u.id, u.roles, u.tenant, iat, now + TWELVE_HOURS));
    }

    method HandleUserCreate(email: string, u: User) returns (ok: bool)
      modifies this
      ensures ok == (email !in old(users))
      ensures users == if ok then old(users)[email := Defaults(u)] else old(users)
    {
      if email in users { return false; }
      users := users[email := Defaults(u)];
      ok := true;
    }

    method HandleUserUpdate(c: Change, now: int)
      modifies this
      ensures AfterUpdate(old(users), users, c, now)
    {
      var found := Find(c.id);
      if found.None? { return; }
      var email := found.value;
      assert Has(users, email, c.id);
      if c.password && !c.currentOk { return; }
      var target, bumpEpoch := users[email], false;
      if c.roles != [] && c.roles != target.roles {
        target := target.(roles := c.roles);
        bumpEpoch := true;
      }
      if c.status != "" && c.status != target.status {
        target := target.(status := c.status);
        bumpEpoch := true;
      }
      if c.tenant != "" { target := target.(tenant := c.tenant); }
      if c.password { bumpEpoch := true; }
      if bumpEpoch { target := target.(minTokenIAT := now); }
      users := users[email := target];
    }

    method HandleUserDelete(id: string) returns (ok: bool)
      modifies this
      ensures AfterDelete(old(users), users, id)
      ensures ok <==> exists e :: Has(old(users), e, id)
    {
      var found := Find(id);
      if found.None? { return false; }
      assert Has(users, found.value, id);
      users := users - {found.value};
      ok := true;
    }

    method LocalSessionValid(issuer: string, t: Token) returns (ok: bool)
      requires UniqueIds(users)
      ensures ok <==> issuer != "admin-api-dev" || SessionValid(users, t)
    {
      if issuer != "admin-api-dev" { return true; }
      var found := Find(t.sub);
      if found.None? { return false; }
      var u := users[found.value];
      assert forall e :: Has(users, e, t.sub) ==> e == found.value;
      ok := u.status == "active" && t.iat > u.minTokenIAT;
    }
  }

  function Defaults(u: User): User {
    u.(status := if u.status == "" then "active" else u.status, roles := if u.roles == [] then ["operator"] else u.roles)
  }

  // ---------------------------------------------------------------------------
  // Runs
  // ---------------------------------------------------------------------------

  /** ids: every user id ever given; tokens: every token ever issued; clock: the last reading. */
  datatype State = State(users: Users, ids: set<string>, tokens: set<Token>, clock: int)

  datatype Op =
    | Login(email: string, passwordOk: bool)
    | CreateUser(email: string, user: User)
    | Update(change: Change)
    | Delete(id: string)

  /** One handler call at second now. The clock does not run backwards, new ids are fresh. */
  ghost predicate Next(s: State, op: Op, now: int, t: State) {
    now >= s.clock && t.clock == now &&
    match op
    case Login(email, passwordOk) =>
      var r := LoginResult(s.users, email, passwordOk, now);
      t.users == s.users && t.ids == s.ids && t.tokens == s.tokens + (if r.Some? then {r.value} else {})
    case CreateUser(email, u) =>
      && u.id !in s.ids && t.tokens == s.tokens
      && (if email in s.users then t.users == s.users && t.ids == s.ids
          else t.users == s.users[email := Defaults(u)] && t.ids == s.ids + {u.id})
    case Update(c) => t.ids == s.ids && t.tokens == s.tokens && AfterUpdate(s.users, t.users, c, now)
    case Delete(id) => t.ids == s.ids && t.tokens == s.tokens && AfterDelete(s.users, t.users, id)
  }

  /** Ids are unique and never reused; an iat of user id is not in the future, except that it
      may be one above the epoch. */
  ghost predicate Inv(s: State, id: string) {
    && UniqueIds(s.users)
    && (forall e <- s.users :: s.users[e].id in s.ids)
    && (forall k <- s.tokens :: k.sub in s.ids)
    && (forall k <- s.tokens, e <- s.users :: k.sub == id && s.users[e].id == id ==> k.iat <= s.clock || k.iat <= s.users[e].minTokenIAT + 1)
  }

  /** The update passes the password check. */
  predicate Applies(c: Change) { c.password ==> c.currentOk }

  /** If the step bumps the epoch of user id, it does so at a later second than that epoch. */
  ghost predicate LaterBump(s: State, op: Op, now: int, id: string) {
    op.Update? && op.change.id == id && Applies(op.change) ==>
      forall e :: Has(s.users, e, id) && Bumps(s.users[e], op.change) ==> now > s.users[e].minTokenIAT
  }

  ghost predicate Allowed(s: State, op: Op, now: int, t: State, id: string) { Next(s, op, now, t) && LaterBump(s, op, now, id) }

  /** A run, one call between neighbouring states. Only the bumps of user id are required to
      be later than what they replace; other users' may come as they like. */
  ghost predicate Path(path: seq<State>, ops: seq<(Op, int)>, id: string) {
    |path| == |ops| + 1 && forall i :: 0 <= i < |ops| ==> Allowed(path[i], ops[i].0, ops[i].1, path[i + 1], id)
  }

  /** With unique ids the entry an update changes is the one with the id. */
  lemma UpdateAt(s: State, c: Change, now: int, t: State, e: string)
    requires UniqueIds(s.users) && Next(s, Update(c), now, t) && Has(s.users, e, c.id)
    ensures t.users == if Applies(c) then s.users[e := Changed(s.users[e], c, now)] else s.users
  {
    if Applies(c) {
      var e' :| Has(s.users, e', c.id) && t.users == s.users[e' := Changed(s.users[e'], c, now)];
      assert e == e';
    }
  }

  lemma DeleteAt(s: State, id: string, now: int, t: State, e: string)
    requires UniqueIds(s.users) && Next(s, Delete(id), now, t) && Has(s.users, e, id)
    ensures t.users == s.users - {e}
  {
    var e' :| Has(s.users, e', id) && t.users == s.users - {e'};
    assert e == e';
  }

  lemma StepInv(s: State, op: Op, now: int, t: State, id: string)
    requires Inv(s, id) && Allowed(s, op, now, t, id)
    ensures Inv(t, id)
  {
    match op
    case Login(_, _) =>
    case CreateUser(email, _) =>
    case Update(c) =>
      if t.users != s.users { UpdateInv(s, c, now, t, id); }
    case Delete(d) =>
      hide Changed, AfterUpdate, Bumps, LaterBump, LoginResult;
      if t.users != s.users {
        var e :| Has(s.users, e, d) && t.users == s.users - {e};
        assert forall f <- t.users :: f in s.users && t.users[f] == s.users[f];
        hide AfterDelete;
      }
  }

  lemma UpdateInv(s: State, c: Change, now: int, t: State, id: string)
    requires Inv(s, id) && Allowed(s, Update(c), now, t, id) && t.users != s.users
    ensures Inv(t, id)
  {
    var e :| Has(s.users, e, c.id) && t.users == s.users[e := Changed(s.users[e], c, now)];
    UpdateAt(s, c, now, t, e);
    hide LoginResult, AfterDelete, AfterUpdate;
    assert forall f <- t.users :: t.users[f].id == s.users[f].id && (f == e || t.users[f] == s.users[f]);
    assert Applies(c);
    assert forall f <- t.users :: t.users[f].id == id ==> t.users[f].minTokenIAT >= s.users[f].minTokenIAT;
  }

  // ---------------------------------------------------------------------------
  // Revoked tokens stay revoked
  // ---------------------------------------------------------------------------

  /** No user with the token's id has an epoch below its iat, and there never will be. */
  ghost predicate Dead(s: State, k: Token) {
    k.sub in s.ids && forall e <- s.users :: s.users[e].id == k.sub ==> k.iat <= s.users[e].minTokenIAT
  }

  lemma DeadIsRejected(s: State, k: Token)
    requires Dead(s, k)
    ensures !SessionValid(s.users, k)
  {
    assert forall e :: Has(s.users, e, k.sub) ==> k.iat <= s.users[e].minTokenIAT;
  }

  lemma DeadStays(s: State, op: Op, now: int, t: State, k: Token)
    requires Inv(s, k.sub) && Allowed(s, op, now, t, k.sub) && Dead(s, k)
    ensures Dead(t, k)
  {
    if op.Update? && op.change.id == k.sub {
      if e :| Has(s.users, e, k.sub) { UpdateAt(s, op.change, now, t, e); }
    }
  }

  lemma {:induction false} DeadForever(path: seq<State>, ops: seq<(Op, int)>, i: nat, j: nat, k: Token)
    requires Path(path, ops, k.sub) && Inv(path[0], k.sub) && i <= j < |path| && Dead(path[i], k)
    ensures Dead(path[j], k)
  {
    if i < j {
      DeadForever(path, ops, i, j - 1, k);
      hide Dead, Allowed, Inv;
      InvForever(path, ops, j - 1, k.sub);
      DeadStays(path[j - 1], ops[j - 1].0, ops[j - 1].1, path[j], k);
    }
  }

  lemma {:induction false} InvForever(path: seq<State>, ops: seq<(Op, int)>, j: nat, id: string)
    requires Path(path, ops, id) && j < |path| && Inv(path[0], id)
    ensures Inv(path[j], id)
  {
    if j > 0 {
      InvForever(path, ops, j - 1, id);
      hide Inv, Allowed;
      StepInv(path[j - 1], ops[j - 1].0, ops[j - 1].1, path[j], id);
    }
  }

  /** The call that ends the sessions of user id: its deletion, or a change of its password
      (with the current one), its roles or its status. */
  ghost predicate Ends(s: State, op: Op, id: string) {
    match op
    case Delete(d) => d == id
    case Update(c) => c.id == id && (c.password ==> c.currentOk) && forall e :: Has(s.users, e, id) ==> ChangesCredential(s.users[e], c)
    case _ => false
  }

  predicate ChangesCredential(u: User, c: Change) {
    || c.password
    || (c.roles != u.roles && |c.roles| > 0)
    || (c.status != u.status && |c.status| > 0)
  }

  lemma EndKills(s: State, op: Op, now: int, t: State, k: Token)
    requires Inv(s, k.sub) && Allowed(s, op, now, t, k.sub) && k in s.tokens && Ends(s, op, k.sub)
    ensures Dead(t, k)
  {
    assert forall e <- s.users :: s.users[e].id == k.sub ==> Has(s.users, e, k.sub);
    if e :| Has(s.users, e, k.sub) {
      match op
      case Update(c) => UpdateAt(s, c, now, t, e);
      case Delete(id) => DeleteAt(s, id, now, t, e);
    }
  }

  /** Every token issued before a bump or a deletion is rejected in all later states. */
  lemma RevokedForGood(path: seq<State>, ops: seq<(Op, int)>, i: nat, j: nat, k: Token)
    requires Path(path, ops, k.sub) && Inv(path[0], k.sub) && i < j < |path|
    requires k in path[i].tokens && Ends(path[i], ops[i].0, k.sub)
    ensures !SessionValid(path[j].users, k)
  {
    hide Inv, Allowed, Ends, Dead, SessionValid;
    InvForever(path, ops, i, k.sub);
    EndKills(path[i], ops[i].0, ops[i].1, path[i + 1], k);
    DeadForever(path, ops, i + 1, j, k);
    DeadIsRejected(path[j], k);
  }

  /** Exactly who is given a token, and which: the right password on an active user, and a
      token with that user's id, roles and tenant, for twelve hours, issued now or, when that
      is not after the epoch, in the second after the epoch. */
  ghost predicate GivenTo(s: State, op: Op, now: int, k: Token) {
    op.Login? && op.passwordOk && op.email in s.users &&
    var u := s.users[op.email];
    && u.status == "active"
    && k.sub == u.id && k.roles == u.roles && k.tenant == u.tenant && k.exp == now + 12 * 3600
    && k.iat >= now && k.iat > u.minTokenIAT && (k.iat == now || k.iat == u.minTokenIAT + 1)
  }

  lemma TokensExactly(s: State, op: Op, now: int, t: State, k: Token)
    requires Next(s, op, now, t)
    ensures k in t.tokens <==> k in s.tokens || GivenTo(s, op, now, k)
    ensures op.Login? && op.passwordOk && op.email in s.users && s.users[op.email].status == "active" ==>
      exists g :: GivenTo(s, op, now, g) && g in t.tokens
  {
    if op.Login? && op.email in s.users {
      var g := TokenFor(s.users[op.email], now);
      assert op.passwordOk && s.users[op.email].status == "active" ==> GivenTo(s, op, now, g) && g in t.tokens;
    }
  }

  /** Over any run, every token that was not there at the start was given by a login of its
      user with the right password. */
  lemma {:induction false} TokensAreGiven(path: seq<State>, ops: seq<(Op, int)>, j: nat, k: Token)
    requires |path| == |ops| + 1 && (forall i :: 0 <= i < |ops| ==> Next(path[i], ops[i].0, ops[i].1, path[i + 1]))
    requires j < |path| && k in path[j].tokens && k !in path[0].tokens
    ensures exists i :: 0 <= i < j && GivenTo(path[i], ops[i].0, ops[i].1, k)
  {
    if j > 0 {
      TokensExactly(path[j - 1], ops[j - 1].0, ops[j - 1].1, path[j], k);
      hide Next, GivenTo;
      if k in path[j - 1].tokens { TokensAreGiven(path, ops, j - 1, k); }
    }
  }

  /** A token just issued is accepted, even in the second of a bump. */
  lemma FreshIsAccepted(s: State, email: string, now: int, t: State)
    requires Next(s, Login(email, true), now, t) && email in s.users && s.users[email].status == "active"
    ensures var k := TokenFor(s.users[email], now); k in t.tokens && SessionValid(t.users, k) && now <= k.exp
  {
    assert Has(t.users, email, s.users[email].id);
  }

  // ---------------------------------------------------------------------------
  // What an update does to an accepted token, exactly
  // ---------------------------------------------------------------------------

  /** An accepted token of an invariant state survives a bump at second now exactly when the
      user stays active and now is before its iat; the bump then is not later than the epoch
      it replaces, and the iat is the next second after that epoch. */
  lemma BumpSurvivesExactly(s: State, c: Change, now: int, t: State, k: Token, e: string)
    requires Inv(s, k.sub) && Next(s, Update(c), now, t) && c.id == k.sub && Applies(c)
    requires k in s.tokens && Has(s.users, e, k.sub) && Bumps(s.users[e], c) && SessionValid(s.users, k)
    ensures SessionValid(t.users, k) <==> now < k.iat && c.status in {"", "active"}
    ensures now < k.iat ==> now <= s.users[e].minTokenIAT && k.iat == s.users[e].minTokenIAT + 1
  {
    UpdateAt(s, c, now, t, e);
    assert forall f :: Has(s.users, f, k.sub) ==> f == e;
    assert forall f :: Has(t.users, f, k.sub) ==> f == e;
    assert Has(t.users, e, k.sub);
  }

  /** A login at second n under epoch m and then a bump at second b of a user who stays
      active: the token survives iff b is not later than m. */
  lemma LoginThenBumpExactly(s: State, e: string, n: int, s1: State, c: Change, b: int, t: State)
    requires e in s.users && s.users[e].status == "active" && Inv(s, s.users[e].id)
    requires Next(s, Login(e, true), n, s1) && Next(s1, Update(c), b, t)
    requires c.id == s.users[e].id && Applies(c) && Bumps(s.users[e], c) && c.status in {"", "active"}
    ensures SessionValid(t.users, TokenFor(s.users[e], n)) <==> b <= s.users[e].minTokenIAT
  {
    var k := TokenFor(s.users[e], n);
    FreshIsAccepted(s, e, n, s1);
    assert LaterBump(s, Login(e, true), n, k.sub);
    StepInv(s, Login(e, true), n, s1, k.sub);
    assert Has(s1.users, e, k.sub);
    BumpSurvivesExactly(s1, c, b, t, k, e);
  }

  /** What an update leaves in the table: the password check refuses it whole; else the values
      given replace the user's, the epoch is the current second exactly for a change of
      password, roles or status, and nobody else is touched. */
  lemma UpdateExactly(s: State, c: Change, now: int, t: State, e: string)
    requires UniqueIds(s.users) && Next(s, Update(c), now, t) && Has(s.users, e, c.id)
    ensures t.users.Keys == s.users.Keys && forall f <- s.users :: f != e ==> t.users[f] == s.users[f]
    ensures c.password && !c.currentOk ==> t.users[e] == s.users[e]
    ensures !(c.password && !c.currentOk) ==>
      var u, u1 := s.users[e], t.users[e];
      && u1.id == u.id
      && (u1.roles == c.roles || (c.roles == [] && u1.roles == u.roles))
      && (u1.status == c.status || (c.status == "" && u1.status == u.status))
      && (u1.tenant == c.tenant || (c.tenant == "" && u1.tenant == u.tenant))
      && u1.minTokenIAT == if c.password || u1.roles != u.roles || u1.status != u.status then now else u.minTokenIAT
  {
    UpdateAt(s, c, now, t, e);
  }

  /** A new user is active and an operator unless something else was asked for. */
  lemma CreatedExactly(s: State, email: string, u: User, now: int, t: State)
    requires Next(s, CreateUser(email, u), now, t)
    ensures if email in s.users then t.users == s.users
      else
        && t.users.Keys == s.users.Keys + {email} && (forall f <- s.users :: t.users[f] == s.users[f])
        && var v := t.users[email];
           && v.id == u.id && v.tenant == u.tenant && v.minTokenIAT == u.minTokenIAT
           && (v.status == u.status || (u.status == "" && v.status == "active")) && v.status != ""
           && (v.roles == u.roles || (u.roles == [] && v.roles == ["operator"])) && v.roles != []
  {
  }

  /** An update without a change of password, roles or status ends no session and starts
      none. */
  lemma UnbumpedKeepsSessions(s: State, c: Change, now: int, t: State, k: Token)
    requires UniqueIds(s.users) && Next(s, Update(c), now, t)
    requires forall e :: Has(s.users, e, c.id) ==> !ChangesCredential(s.users[e], c)
    ensures SessionValid(t.users, k) <==> SessionValid(s.users, k)
  {
    if e :| Has(s.users, e, c.id) {
      UpdateAt(s, c, now, t, e);
      assert forall f :: Has(t.users, f, k.sub) <==> Has(s.users, f, k.sub);
    }
  }

  /** Two changes in one second with a login between them: the operator's token survives
      losing the role. */
  lemma TwoBumpsInOneSecond()
    ensures var u := User("u1", ["admin"], "", "active", 100);
            var s := State(map["x" := u], {"u1"}, {}, 100);
            var k := TokenFor(u, 100);
            var c := Change("u1", ["auditor"], "", "", false, false);
            var s1 := s.(tokens := {k});
            var s2 := s1.(users := map["x" := Changed(u, c, 100)]);
            && Inv(s, "u1") && Next(s, Login("x", true), 100, s1) && Next(s1, Update(c), 100, s2)
            && SessionValid(s2.users, k) && k.roles == ["admin"] && s2.users["x"].roles == ["auditor"]
  {
    var u := User("u1", ["admin"], "", "active", 100);
    var s := State(map["x" := u], {"u1"}, {}, 100);
    var k := TokenFor(u, 100);
    var c := Change("u1", ["auditor"], "", "", false, false);
    var s1 := s.(tokens := {k});
    var s2 := s1.(users := map["x" := Changed(u, c, 100)]);
    assert Has(s1.users, "x", "u1") && s2.users == s1.users["x" := Changed(u, c, 100)];
    assert Has(s2.users, "x", "u1");
  }

  // ---------------------------------------------------------------------------
  // Accepted tokens carry the user's current roles
  // ---------------------------------------------------------------------------

  ghost predicate RolesAgree(s: State, id: string) {
    forall k <- s.tokens, e <- s.users :: k.sub == id && s.users[e].id == id && k.iat > s.users[e].minTokenIAT ==> k.roles == s.users[e].roles
  }

  lemma StepRoles(s: State, op: Op, now: int, t: State, id: string)
    requires Inv(s, id) && RolesAgree(s, id) && Allowed(s, op, now, t, id)
    ensures RolesAgree(t, id)
  {
    if op.Update? && op.change.id == id {
      if e :| Has(s.users, e, id) { UpdateAt(s, op.change, now, t, e); }
    }
  }

  lemma {:induction false} RolesForever(path: seq<State>, ops: seq<(Op, int)>, j: nat, id: string)
    requires Path(path, ops, id) && j < |path| && Inv(path[0], id) && RolesAgree(path[0], id)
    ensures RolesAgree(path[j], id)
  {
    if j > 0 {
      RolesForever(path, ops, j - 1, id);
      InvForever(path, ops, j - 1, id);
      hide Inv, Allowed, RolesAgree;
      StepRoles(path[j - 1], ops[j - 1].0, ops[j - 1].1, path[j], id);
    }
  }

  /** The roles in a token are only ever honoured while they are the user's roles. */
  lemma AcceptedRolesAreCurrent(path: seq<State>, ops: seq<(Op, int)>, j: nat, k: Token)
    requires Path(path, ops, k.sub) && j < |path| && Inv(path[0], k.sub) && RolesAgree(path[0], k.sub)
    requires k in path[j].tokens && SessionValid(path[j].users, k)
    ensures exists e :: Has(path[j].users, e, k.sub) && path[j].users[e].status == "active" && path[j].users[e].roles == k.roles
  {
    RolesForever(path, ops, j, k.sub);
    hide Path, Inv, Allowed;
    var e :| Has(path[j].users, e, k.sub) && path[j].users[e].status == "active" && k.iat > path[j].users[e].minTokenIAT;
    assert path[j].users[e].roles == k.roles;
  }

  // ---------------------------------------------------------------------------
  // ... but its current tenant only if changing it also bumps
  // ---------------------------------------------------------------------------

  /** The update moves user u to another tenant. */
  predicate Moves(u: User, c: Change) { Applies(c) && c.tenant != "" && c.tenant != u.tenant }

  /** Exactly when an update leaves an accepted token with a tenant that is no longer its
      user's: it moves the user and does not bump. */
  lemma TenantStaleExactly(s: State, c: Change, now: int, t: State, k: Token, e: string)
    requires Inv(s, k.sub) && Allowed(s, Update(c), now, t, k.sub) && c.id == k.sub
    requires k in s.tokens && SessionValid(s.users, k) && Has(s.users, e, k.sub) && k.tenant == s.users[e].tenant
    ensures Has(t.users, e, k.sub)
    ensures SessionValid(t.users, k) && k.tenant != t.users[e].tenant <==> Moves(s.users[e], c) && !Bumps(s.users[e], c)
  {
    UpdateAt(s, c, now, t, e);
    assert forall f :: Has(s.users, f, k.sub) ==> f == e;
    assert forall f :: Has(t.users, f, k.sub) ==> f == e;
    if Applies(c) && Bumps(s.users[e], c) {
      EndKills(s, Update(c), now, t, k);
      DeadIsRejected(t, k);
    }
    assert Has(t.users, e, k.sub);
  }

  ghost predicate MoveBumps(s: State, op: Op, id: string) {
    op.Update? && op.change.id == id ==>
      forall e :: Has(s.users, e, id) && Moves(s.users[e], op.change) ==> Bumps(s.users[e], op.change)
  }

  /** A run in which every move of user id comes with a bump. */
  ghost predicate MovesBump(path: seq<State>, ops: seq<(Op, int)>, id: string)
    requires |path| == |ops| + 1
  {
    forall i :: 0 <= i < |ops| ==> MoveBumps(path[i], ops[i].0, id)
  }

  ghost predicate TenantsAgree(s: State, id: string) {
    forall k <- s.tokens, e <- s.users :: k.sub == id && s.users[e].id == id && k.iat > s.users[e].minTokenIAT ==> k.tenant == s.users[e].tenant
  }

  lemma StepTenants(s: State, op: Op, now: int, t: State, id: string)
    requires Inv(s, id) && TenantsAgree(s, id) && Allowed(s, op, now, t, id) && MoveBumps(s, op, id)
    ensures TenantsAgree(t, id)
  {
    if op.Update? && op.change.id == id {
      if e :| Has(s.users, e, id) { UpdateAt(s, op.change, now, t, e); }
    }
  }

  lemma {:induction false} TenantsForever(path: seq<State>, ops: seq<(Op, int)>, j: nat, id: string)
    requires Path(path, ops, id) && MovesBump(path, ops, id) && j < |path| && Inv(path[0], id) && TenantsAgree(path[0], id)
    ensures TenantsAgree(path[j], id)
  {
    if j > 0 {
      TenantsForever(path, ops, j - 1, id);
      InvForever(path, ops, j - 1, id);
      hide Inv, Allowed, TenantsAgree, MoveBumps;
      StepTenants(path[j - 1], ops[j - 1].0, ops[j - 1].1, path[j], id);
    }
  }

  /** Over such a run an accepted token carries its user's current tenant. */
  lemma AcceptedTenantIsCurrent(path: seq<State>, ops: seq<(Op, int)>, j: nat, k: Token)
    requires Path(path, ops, k.sub) && MovesBump(path, ops, k.sub) && j < |path| && Inv(path[0], k.sub) && TenantsAgree(path[0], k.sub)
    requires k in path[j].tokens && SessionValid(path[j].users, k)
    ensures exists e :: Has(path[j].users, e, k.sub) && path[j].users[e].status == "active" && path[j].users[e].tenant == k.tenant
  {
    TenantsForever(path, ops, j, k.sub);
    hide Path, MovesBump, Inv, Allowed;
    var e :| Has(path[j].users, e, k.sub) && path[j].users[e].status == "active" && k.iat > path[j].users[e].minTokenIAT;
    assert path[j].users[e].tenant == k.tenant;
  }

  /** It happens: a move without a bump, after which the token still names the old tenant. */
  lemma TenantMayBeStale()
    ensures var u := User("u1", ["admin"], "a", "active", 0);
            var k, c := TokenFor(u, 100), Change("u1", [], "", "b", false, false);
            var s := State(map["x" := u], {"u1"}, {k}, 100);
            var t := s.(users := map["x" := Changed(u, c, 101)], clock := 101);
            && Inv(s, "u1") && Allowed(s, Update(c), 101, t, "u1")
            && SessionValid(t.users, k) && k.tenant == "a" && t.users["x"].tenant == "b"
  {
    var u := User("u1", ["admin"], "a", "active", 0);
    var k, c := TokenFor(u, 100), Change("u1", [], "", "b", false, false);
    var s := State(map["x" := u], {"u1"}, {k}, 100);
    var t := s.(users := map["x" := Changed(u, c, 101)], clock := 101);
    assert Has(s.users, "x", "u1") && t.users == s.users["x" := Changed(u, c, 101)];
    assert Has(t.users, "x", "u1");
  }

  /** A login is two critical moments, reading the user and issuing the token. If a bump falls
      between them and the user stays active, the token, which has the roles read, is accepted
      exactly if its iat is after the bump's second: the theorems above need logins to be
      atomic. */
  lemma LoginRaceExactly(u: User, c: Change, bump: int, issue: int, email: string)
    requires u.status == "active" && Bumps(u, c) && c.status in {"", "active"}
    ensures var k := TokenFor(u, issue);
            && (SessionValid(map[email := Changed(u, c, bump)], k) <==> k.iat > bump)
            && k.roles == u.roles
  {
    var after := map[email := Changed(u, c, bump)];
    assert Has(after, email, u.id);
  }

  /** It happens: after a change of roles at an earlier second than the issue the token with
      the old roles is accepted. */
  lemma LoginRaceKeepsOldRoles(u: User, c: Change, bump: int, issue: int, email: string)
    requires u.status == "active" && c.status == "" && c.roles != [] && c.roles != u.roles && bump < issue
    ensures var k, after := TokenFor(u, issue), Changed(u, c, bump);
            SessionValid(map[email := after], k) && k.roles != after.roles
  {
    LoginRaceExactly(u, c, bump, issue, email);
  }
}
