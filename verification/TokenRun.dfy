/**
  The provider as a protocol: authorize saves a code, the token endpoint consumes it and saves an
  access token, UserInfo answers for the token.  Whatever the order of requests, every token leads
  back to the one code it was bought with.  `source` records that code; the provider does not keep it.
*/
module TokenRun {
  import opened Wrappers
  import opened Text
  import opened Scopes
  import opened AuthorizationCodes
  import CodeHistory

  /** Claim values are opaque texts. */
  type Claims = map<string, string>

  /** The host's user adapter. */
  datatype Users = Users(
    subject: User -> string,
    claims: (User, seq<string>) -> Claims,
    resolve: Option<string -> Option<User>>,
    active: User -> bool)

  datatype Config = Config(
    users: Users,
    clients: map<string, seq<string>>,
    sha: Sha,
    tokenKey: string -> string,
    codeLifetime: int,
    tokenLifetime: int)

  datatype Error = InvalidClient | InvalidCode | UserUnavailable | Malformed | InvalidToken | InsufficientScope

  datatype Token = Token(clientId: string, subject: string, scope: string, expiresAt: int, user: Option<User>,
                         revoked: bool)

  datatype Provider = Provider(codes: State, tokens: map<string, Token>, source: map<string, AuthorizationCode>)

  datatype Request =
    | Authorize(code: AuthorizationCode, issuedAt: int)
    | Lookup(value: string, client: string)
    | Replayed(client: string, nonce: string)
    | Exchange(client: string, value: string, redirectUri: string, verifier: string, access: string)
    | UserInfo(access: string)
    | Revoke(access: string)

  datatype Reply =
    | Accepted
    | Found(code: Option<AuthorizationCode>)
    | Seen(yes: bool)
    | Granted(source: AuthorizationCode)
    | Info(claims: Claims) | Revoked | Denied(error: Error)

  // ---- Users and claims ----

  function SubjectFor(users: Users, user: User): Result<string, Error> {
    if users.subject(user) == "" then Failure(Malformed) else Success(users.subject(user))
  }

  function ResolveSubject(users: Users, subject: string, fallback: Option<User>): Result<Option<User>, Error> {
    if users.resolve.Some? then Success(users.resolve.value(subject))
    else if fallback.None? then Success(None)
    else
      match SubjectFor(users, fallback.value)
      case Failure(e) => Failure(e)
      case Success(s) => Success(if s == subject then fallback else None)
  }

  const PROFILE_CLAIMS := {"name", "given_name", "family_name", "middle_name", "nickname", "preferred_username",
    "profile", "picture", "website", "gender", "birthdate", "zoneinfo", "locale", "updated_at"}

  const EMAIL_CLAIMS := {"email", "email_verified"}

  function AllowedClaims(scopes: seq<string>): set<string> {
    if "openid" !in scopes then {"sub"}
    else
      {"sub"} + (if "profile" in scopes then PROFILE_CLAIMS else {})
              + (if "email" in scopes then EMAIL_CLAIMS else {})
  }

  function ClaimsFor(users: Users, user: User, scope: string): Result<Claims, Error> {
    match ScopeTuple(Some(scope))
    case Failure(_) => Failure(Malformed)
    case Success(scopes) =>
      match SubjectFor(users, user)
      case Failure(e) => Failure(e)
      case Success(subject) =>
        var claims := users.claims(user, scopes)["sub" := subject];
        if "openid" !in scopes then Success(map["sub" := subject])
        else
          var allowed := AllowedClaims(scopes);
          Success(map k | k in claims && k in allowed :: claims[k])
  }

  /** The claims that scope values stand for, by name (section 5.4 of OpenID Connect Core 1.0). */
  predicate StandsFor(items: seq<string>, k: string) {
    && "openid" in items
    && (("profile" in items
         && (k == "name" || k == "given_name" || k == "family_name" || k == "middle_name" || k == "nickname"
             || k == "preferred_username" || k == "profile" || k == "picture" || k == "website" || k == "gender"
             || k == "birthdate" || k == "zoneinfo" || k == "locale" || k == "updated_at"))
        || ("email" in items && (k == "email" || k == "email_verified")))
  }

  lemma AllowedByName(items: seq<string>)
    ensures forall k :: k in AllowedClaims(items) <==> k == "sub" || StandsFor(items, k)
  {
  }

  /**
    What claims a user gets: always its own subject, and otherwise exactly what the adapter offers of the
    claims the scope stands for; only a repeated scope item or an empty subject is an error.
  */
  lemma ClaimsAreAllowed(users: Users, user: User, scope: string)
    ensures ClaimsFor(users, user, scope).Success? <==> Distinct(Split(scope)) && users.subject(user) != ""
    ensures ClaimsFor(users, user, scope).Success? ==>
              var m := ClaimsFor(users, user, scope).value;
              var offered := users.claims(user, Split(scope));
              && "sub" in m && m["sub"] == users.subject(user)
              && (forall k | k != "sub" :: k in m <==> k in offered && StandsFor(Split(scope), k))
              && (forall k | k in m && k != "sub" :: m[k] == offered[k])
  {
    hide Split, Distinct, AllowedClaims, StandsFor;
    TupleIsSplit(scope);
    AllowedByName(Split(scope));
    NeedsOpenid(Split(scope));
  }

  lemma NeedsOpenid(items: seq<string>)
    ensures forall k | StandsFor(items, k) :: "openid" in items
  {
  }

  /** The adapter resolves a subject to a user with that subject. */
  ghost predicate Faithful(users: Users) {
    users.resolve.Some? ==>
      forall s :: users.resolve.value(s).Some? ==> users.subject(users.resolve.value(s).value) == s
  }

  lemma ResolvedSubject(users: Users, subject: string, fallback: Option<User>, user: User)
    requires Faithful(users) && ResolveSubject(users, subject, fallback) == Success(Some(user))
    ensures users.subject(user) == subject
  {
  }

  /** Which user a subject resolves to: the hook's answer, or without a hook the fallback if the subject is its own. */
  lemma ResolvedExactly(users: Users, subject: string, fallback: Option<User>, user: User)
    ensures ResolveSubject(users, subject, fallback) == Success(Some(user)) <==>
              if users.resolve.Some? then users.resolve.value(subject) == Some(user)
              else fallback == Some(user) && users.subject(user) == subject && subject != ""
  {
  }

  // ---- The endpoints ----

  /** The token the generator and save_token make for a redeemed code. */
  function NewToken(cfg: Config, client: string, code: AuthorizationCode, access: string, now: int)
    : (r: Result<Token, Error>)
    requires client in cfg.clients
    ensures r.Success? ==>
              && r.value.user.Some? && cfg.users.active(r.value.user.value)
              && now < r.value.expiresAt && !r.value.revoked
  {
    match ResolveSubject(cfg.users, code.subject, code.user)
    case Failure(e) => Failure(e)
    case Success(None) => Failure(UserUnavailable)
    case Success(Some(user)) =>
      if !cfg.users.active(user) then Failure(UserUnavailable)
      else
        match GetAllowedScope(cfg.clients[client], Some(Join(code.scope)))
        case Failure(_) => Failure(Malformed)
        case Success(granted) =>
          match SubjectFor(cfg.users, user)
          case Failure(e) => Failure(e)
          case Success(subject) =>
            if access == "" || cfg.tokenLifetime <= 0 then Failure(Malformed)
            else Success(Token(client, subject, ScopeString(granted), now + cfg.tokenLifetime, Some(user), false))
  }

  /** The code is consumed before the user is looked at. */
  function ExchangeStep(cfg: Config, s: Provider, client: string, value: string, redirectUri: string, verifier: string,
                        access: string, now: int): (Provider, Reply) {
    if client !in cfg.clients then (s, Denied(InvalidClient))
    else
      var (codes, o) := Step(cfg.sha, s.codes, Consume(value, client, redirectUri, verifier), now);
      var s1 := s.(codes := codes);
      if !o.Consumed? then (s1, Denied(InvalidCode))
      else
        match NewToken(cfg, client, o.code, access, now)
        case Failure(e) => (s1, Denied(e))
        case Success(token) =>
          var key := cfg.tokenKey(access);
          (s1.(tokens := s.tokens[key := token], source := s.source[key := o.code]), Granted(o.code))
  }

  function UserInfoReply(cfg: Config, tokens: map<string, Token>, access: string, now: int): Reply {
    var key := cfg.tokenKey(access);
    if access == "" || key !in tokens || tokens[key].revoked || tokens[key].expiresAt <= now then Denied(InvalidToken)
    else if "openid" !in Split(tokens[key].scope) then Denied(InsufficientScope)
    else
      match ResolveSubject(cfg.users, tokens[key].subject, tokens[key].user)
      case Failure(e) => Denied(e)
      case Success(None) => Denied(InvalidToken)
      case Success(Some(user)) =>
        if !cfg.users.active(user) then Denied(InvalidToken)
        else match ClaimsFor(cfg.users, user, tokens[key].scope) case Failure(e) => Denied(e) case Success(m) => Info(m)
  }

  function RevokedTokens(tokens: map<string, Token>, key: string): map<string, Token> {
    if key in tokens then tokens[key := tokens[key].(revoked := true)] else tokens
  }

  function Serve(cfg: Config, s: Provider, request: Request, now: int): (Provider, Reply) {
    match request
    case Authorize(code, _) =>
      var (codes, o) := Step(cfg.sha, s.codes, Save(code), now);
      (s.(codes := codes), if o.Saved? then Accepted else Denied(Malformed))
    case Lookup(value, client) =>
      var (codes, o) := Step(cfg.sha, s.codes, Get(value, client), now);
      (s.(codes := codes), Found(o.found))
    case Replayed(client, nonce) =>
      var (codes, o) := Step(cfg.sha, s.codes, HasNonce(client, nonce), now);
      (s.(codes := codes), Seen(o.seen))
    case Exchange(client, value, redirectUri, verifier, access) =>
      ExchangeStep(cfg, s, client, value, redirectUri, verifier, access, now)
    case UserInfo(access) => (s, UserInfoReply(cfg, s.tokens, access, now))
    case Revoke(access) => (s.(tokens := RevokedTokens(s.tokens, cfg.tokenKey(access))), Revoked)
  }

  // ---- Every token leads back to its code ----

  /** What save_authorization_code puts into a code: the words of the requested scope, openid among them. */
  predicate WellMade(code: AuthorizationCode) {
    AllWords(code.scope) && "openid" in code.scope
  }

  /** The scope a code is worth at its client. */
  function Worth(cfg: Config, code: AuthorizationCode): seq<string>
    requires code.clientId in cfg.clients
  {
    if exists i | 0 <= i < |code.scope| :: code.scope[i] !in cfg.clients[code.clientId] then [] else code.scope
  }

  ghost predicate Descends(cfg: Config, token: Token, code: AuthorizationCode) {
    && token.clientId == code.clientId && code.clientId in cfg.clients
    && WellMade(code) && Distinct(code.scope) && Split(token.scope) == Worth(cfg, code)
    && (Faithful(cfg.users) ==> token.subject == code.subject)
  }

  ghost predicate Traced(cfg: Config, s: Provider) {
    && s.source.Keys == s.tokens.Keys
    && (forall k | k in s.tokens :: s.source[k] in s.codes.redeemed && Descends(cfg, s.tokens[k], s.source[k]))
    && (forall a, b | a in s.source && b in s.source && a != b :: s.source[a] != s.source[b])
    && (forall v | v in s.codes.codes :: WellMade(s.codes.codes[v]))
  }

  /** Codes come from save_authorization_code, and a new access token is a fresh random value. */
  predicate Proper(cfg: Config, s: Provider, request: Request) {
    match request
    case Authorize(code, _) => WellMade(code)
    case Exchange(_, _, _, _, access) => cfg.tokenKey(access) !in s.tokens
    case _ => true
  }

  lemma NewTokenDescends(cfg: Config, client: string, code: AuthorizationCode, access: string, now: int)
    requires client in cfg.clients && code.clientId == client && WellMade(code)
    requires NewToken(cfg, client, code, access, now).Success?
    ensures Descends(cfg, NewToken(cfg, client, code, access, now).value, code)
  {
    hide GetAllowedScope, ScopeString, Join, Split, Strip, Faithful;
    var granted := GetAllowedScope(cfg.clients[client], Some(Join(code.scope)));
    GrantedIsRequested(cfg.clients[client], code.scope);
    var user := ResolveSubject(cfg.users, code.subject, code.user).value.value;
    if Faithful(cfg.users) {
      ResolvedSubject(cfg.users, code.subject, code.user, user);
    }
    ScopeText(granted.value);
  }

  lemma ScopeText(scope: Option<string>)
    ensures Split(ScopeString(scope)) == match scope case Some(text) => Split(text) case None => []
  {
    if scope.Some? { SplitStrip(scope.value); }
  }

  /** What a code operation does to the codes, as far as the tokens care. */
  lemma CodesStep(sha: Sha, s: State, op: Op, now: int)
    ensures var (s', o) := Step(sha, s, op, now);
            && s'.redeemed == s.redeemed + (if o.Consumed? then {o.code} else {})
            && (forall v | v in s'.codes ::
                  (v in s.codes && s'.codes[v] == s.codes[v]) || (op.Save? && s'.codes[v] == op.code))
            && (o.Consumed? ==> op.Consume? && op.value in s.codes && s.codes[op.value] == o.code
                                && o.code !in s.redeemed && o.code.clientId == op.clientId)
  {
    hide S256, WellFormed;
  }

  lemma ServeKeepsTraced(cfg: Config, s: Provider, request: Request, now: int)
    requires Traced(cfg, s) && Proper(cfg, s, request)
    ensures Traced(cfg, Serve(cfg, s, request, now).0)
  {
    hide Step, NewToken, Descends, WellMade;
    match request
    case Authorize(code, _) => CodesStep(cfg.sha, s.codes, Save(code), now);
    case Lookup(value, client) => CodesStep(cfg.sha, s.codes, Get(value, client), now);
    case Replayed(client, nonce) => CodesStep(cfg.sha, s.codes, HasNonce(client, nonce), now);
    case Exchange(client, value, redirectUri, verifier, access) =>
      if client in cfg.clients {
        var op := Consume(value, client, redirectUri, verifier);
        CodesStep(cfg.sha, s.codes, op, now);
        var o := Step(cfg.sha, s.codes, op, now).1;
        if o.Consumed? && NewToken(cfg, client, o.code, access, now).Success? {
          NewTokenDescends(cfg, client, o.code, access, now);
        }
      }
    case UserInfo(_) =>
    case Revoke(access) => RevokeKeepsTraced(cfg, s, cfg.tokenKey(access));
  }

  lemma RevokeKeepsTraced(cfg: Config, s: Provider, key: string)
    requires Traced(cfg, s)
    ensures Traced(cfg, s.(tokens := RevokedTokens(s.tokens, key)))
  {
    hide Faithful, Split, Worth, WellMade;
  }

  /** A provider that has served nothing yet. */
  function FreshProvider(spent: set<AuthorizationCode>): Provider {
    Provider(EmptyStore(spent), map[], map[])
  }

  lemma FreshTraced(cfg: Config, spent: set<AuthorizationCode>)
    ensures Traced(cfg, FreshProvider(spent))
  {
  }

  type Run = seq<(int, Request)>

  function After(cfg: Config, s: Provider, run: Run): Provider
    decreases |run|
  {
    if |run| == 0 then s else After(cfg, Serve(cfg, s, run[0].1, run[0].0).0, run[1..])
  }

  predicate ProperRun(cfg: Config, s: Provider, run: Run)
    decreases |run|
  {
    |run| > 0 ==> Proper(cfg, s, run[0].1) && ProperRun(cfg, Serve(cfg, s, run[0].1, run[0].0).0, run[1..])
  }

  /** Over every run, access tokens lead injectively back to redeemed codes, with their client, subject and scope. */
  lemma {:induction false} RunKeepsTraced(cfg: Config, s: Provider, run: Run)
    requires Traced(cfg, s) && ProperRun(cfg, s, run)
    ensures Traced(cfg, After(cfg, s, run))
    decreases |run|
  {
    hide Traced, Serve, Proper;
    if |run| > 0 {
      ServeKeepsTraced(cfg, s, run[0].1, run[0].0);
      RunKeepsTraced(cfg, Serve(cfg, s, run[0].1, run[0].0).0, run[1..]);
    }
  }

  function ReplyAt(cfg: Config, s: Provider, run: Run, i: nat): Reply
    requires i < |run|
  {
    Serve(cfg, After(cfg, s, run[..i]), run[i].1, run[i].0).1
  }

  /** A consumed code buys one token at most: it never buys another, even if this exchange was refused afterwards. */
  lemma {:induction false} SpentBuysNothing(cfg: Config, s: Provider, run: Run, i: nat, code: AuthorizationCode)
    requires code in s.codes.redeemed && i < |run|
    ensures ReplyAt(cfg, s, run, i) != Granted(code)
    decreases |run|
  {
    hide Step, NewToken;
    var (now, request) := run[0];
    if request.Exchange? && request.client in cfg.clients {
      CodesStep(cfg.sha, s.codes, Consume(request.value, request.client, request.redirectUri, request.verifier), now);
    }
    if i == 0 {
      assert After(cfg, s, run[..0]) == s;
    } else {
      assert run[..i][0] == run[0] && run[..i][1..] == run[1..][..i - 1];
      ServeKeepsRedeemed(cfg, s, request, now);
      SpentBuysNothing(cfg, Serve(cfg, s, request, now).0, run[1..], i - 1, code);
    }
  }

  lemma ServeKeepsRedeemed(cfg: Config, s: Provider, request: Request, now: int)
    ensures s.codes.redeemed <= Serve(cfg, s, request, now).0.codes.redeemed
    ensures request.Exchange? && request.client in cfg.clients ==>
              var o := Step(cfg.sha, s.codes,
                            Consume(request.value, request.client, request.redirectUri, request.verifier), now).1;
              o.Consumed? ==> o.code in Serve(cfg, s, request, now).0.codes.redeemed
  {
    hide Step, NewToken;
    match request
    case Authorize(code, _) => CodesStep(cfg.sha, s.codes, Save(code), now);
    case Lookup(value, client) => CodesStep(cfg.sha, s.codes, Get(value, client), now);
    case Replayed(client, nonce) => CodesStep(cfg.sha, s.codes, HasNonce(client, nonce), now);
    case Exchange(client, value, redirectUri, verifier, _) =>
      CodesStep(cfg.sha, s.codes, Consume(value, client, redirectUri, verifier), now);
    case UserInfo(_) =>
    case Revoke(_) =>
  }

  /** One code, one token: in no run do two exchanges buy a token with the same code. */
  lemma {:induction false} OneTokenPerCode(cfg: Config, s: Provider, run: Run, i: nat, j: nat, code: AuthorizationCode)
    requires i < j < |run| && ReplyAt(cfg, s, run, i) == Granted(code)
    ensures ReplyAt(cfg, s, run, j) != Granted(code)
    decreases i
  {
    hide Serve;
    var (now, request) := run[0];
    var s1 := Serve(cfg, s, request, now).0;
    assert run[..j][0] == run[0] && run[..j][1..] == run[1..][..j - 1];
    if i == 0 {
      assert After(cfg, s, run[..0]) == s;
      GrantedIsRedeemed(cfg, s, request, now, code);
      SpentBuysNothing(cfg, s1, run[1..], j - 1, code);
    } else {
      assert run[..i][0] == run[0] && run[..i][1..] == run[1..][..i - 1];
      OneTokenPerCode(cfg, s1, run[1..], i - 1, j - 1, code);
    }
  }

  lemma GrantedIsRedeemed(cfg: Config, s: Provider, request: Request, now: int, code: AuthorizationCode)
    requires Serve(cfg, s, request, now).1 == Granted(code)
    ensures code in Serve(cfg, s, request, now).0.codes.redeemed
  {
    hide Step, NewToken;
    ServeKeepsRedeemed(cfg, s, request, now);
  }

  /** The user an endpoint may act for. */
  ghost predicate Serves(users: Users, subject: string, fallback: Option<User>, user: User) {
    ResolveSubject(users, subject, fallback) == Success(Some(user)) && users.active(user) && users.subject(user) != ""
  }

  /**
    An exchange grants a token exactly when the code is stored, unredeemed and accepted, its scope
    repeats nothing, and its subject still resolves to an active user.
  */
  lemma GrantedExactly(cfg: Config, s: Provider, client: string, value: string, redirectUri: string, verifier: string,
                       access: string, now: int, code: AuthorizationCode)
    requires Traced(cfg, s) && access != "" && 0 < cfg.tokenLifetime
    ensures ExchangeStep(cfg, s, client, value, redirectUri, verifier, access, now).1 == Granted(code) <==>
              && client in cfg.clients && value in s.codes.codes && s.codes.codes[value] == code
                  && code !in s.codes.redeemed
              && WellFormed(verifier) && code.Accepts(cfg.sha, client, redirectUri, verifier, now)
              && Distinct(code.scope) && exists user :: Serves(cfg.users, code.subject, code.user, user)
  {
    hide GetAllowedScope, ScopeString, Join, Split, S256, WellFormed, Descends;
    if value in s.codes.codes && client in cfg.clients {
      var stored := s.codes.codes[value];
      GrantedIsRequested(cfg.clients[client], stored.scope);
      NewTokenExactly(cfg, client, stored, access, now);
      ConsumeExactly(cfg.sha, s.codes, value, client, redirectUri, verifier, now);
    }
  }

  lemma ConsumeExactly(sha: Sha, s: State, value: string, client: string, redirectUri: string, verifier: string,
                       now: int)
    requires value in s.codes
    ensures var code := s.codes[value];
            var o := Step(sha, s, Consume(value, client, redirectUri, verifier), now).1;
            && (o.Consumed? ==> o.code == code)
            && (o.Consumed? <==>
                  code !in s.redeemed && WellFormed(verifier) && code.Accepts(sha, client, redirectUri, verifier, now))
  {
    hide S256, WellFormed;
  }

  lemma NewTokenExactly(cfg: Config, client: string, code: AuthorizationCode, access: string, now: int)
    requires client in cfg.clients && WellMade(code) && access != "" && 0 < cfg.tokenLifetime
    ensures NewToken(cfg, client, code, access, now).Success? <==>
              Distinct(code.scope) && exists user :: Serves(cfg.users, code.subject, code.user, user)
  {
    hide GetAllowedScope, ScopeString, Join, Split, ResolveSubject, Distinct;
    GrantedIsRequested(cfg.clients[client], code.scope);
    if NewToken(cfg, client, code, access, now).Success? {
      assert Serves(cfg.users, code.subject, code.user, ResolveSubject(cfg.users, code.subject, code.user).value.value);
    }
  }

  /** UserInfo answers exactly for a live token whose code's scope its client may have, while its user is active. */
  lemma UserInfoExactly(cfg: Config, s: Provider, access: string, now: int)
    requires Traced(cfg, s) && access != "" && cfg.tokenKey(access) in s.tokens
    ensures var t := s.tokens[cfg.tokenKey(access)];
            UserInfoReply(cfg, s.tokens, access, now).Info? <==>
              && !t.revoked && now < t.expiresAt && Worth(cfg, s.source[cfg.tokenKey(access)]) != []
              && exists user :: Serves(cfg.users, t.subject, t.user, user)
  {
    hide Split, ResolveSubject, ScopeTuple, AllowedClaims, Faithful, AllWords;
    var t := s.tokens[cfg.tokenKey(access)];
    assert Descends(cfg, t, s.source[cfg.tokenKey(access)]);
    assert Distinct([]);
    TupleIsSplit(t.scope);
    if UserInfoReply(cfg, s.tokens, access, now).Info? {
      assert Serves(cfg.users, t.subject, t.user, ResolveSubject(cfg.users, t.subject, t.user).value.value);
    }
  }

  /** UserInfo returns the subject the code was issued for, and no claim the code's scope does not allow. */
  lemma UserInfoMatchesCode(cfg: Config, s: Provider, access: string, now: int)
    requires Traced(cfg, s) && Faithful(cfg.users)
    ensures UserInfoReply(cfg, s.tokens, access, now).Info? ==>
              var m := UserInfoReply(cfg, s.tokens, access, now).claims;
              && cfg.tokenKey(access) in s.source
              && var code := s.source[cfg.tokenKey(access)];
                 && code in s.codes.redeemed
                 && "sub" in m && m["sub"] == code.subject
                 && forall k | k in m && k != "sub" :: StandsFor(code.scope, k)
  {
    hide ClaimsFor, Split, Faithful;
    var key := cfg.tokenKey(access);
    if UserInfoReply(cfg, s.tokens, access, now).Info? {
      var t := s.tokens[key];
      var user := ResolveSubject(cfg.users, t.subject, t.user).value.value;
      ResolvedSubject(cfg.users, t.subject, t.user, user);
      ClaimsAreAllowed(cfg.users, user, t.scope);
      assert Descends(cfg, t, s.source[key]);
    }
  }

  /**
    So a UserInfo reply holds, beside the subject, exactly those claims that the user's adapter offers
    and the scope of the token's own code stands for.
  */
  lemma UserInfoByName(cfg: Config, s: Provider, access: string, now: int, k: string)
    requires Traced(cfg, s) && UserInfoReply(cfg, s.tokens, access, now).Info?
    ensures cfg.tokenKey(access) in s.tokens && cfg.tokenKey(access) in s.source
    ensures var m := UserInfoReply(cfg, s.tokens, access, now).claims;
            var t, code := s.tokens[cfg.tokenKey(access)], s.source[cfg.tokenKey(access)];
            exists user :: Serves(cfg.users, t.subject, t.user, user)
              && var offered := cfg.users.claims(user, code.scope);
                 && "sub" in m && m["sub"] == cfg.users.subject(user)
                 && (k != "sub" ==>
                       (k in m <==> k in offered && StandsFor(code.scope, k)) && (k in m ==> m[k] == offered[k]))
  {
    hide ClaimsFor, Split, Faithful, StandsFor;
    var key := cfg.tokenKey(access);
    var t := s.tokens[key];
    var user := ResolveSubject(cfg.users, t.subject, t.user).value.value;
    assert Descends(cfg, t, s.source[key]);
    ClaimsAreAllowed(cfg.users, user, t.scope);
    assert Serves(cfg.users, t.subject, t.user, user);
  }

  /** A live token is turned away for its scope exactly when its code asked for more than its client may have. */
  lemma InsufficientScopeExactly(cfg: Config, s: Provider, access: string, now: int)
    requires Traced(cfg, s) && access != "" && cfg.tokenKey(access) in s.tokens
    requires !s.tokens[cfg.tokenKey(access)].revoked && now < s.tokens[cfg.tokenKey(access)].expiresAt
    ensures var code := s.source[cfg.tokenKey(access)];
            UserInfoReply(cfg, s.tokens, access, now) == Denied(InsufficientScope) <==>
              exists i | 0 <= i < |code.scope| :: code.scope[i] !in cfg.clients[code.clientId]
  {
    hide ClaimsFor, Split, ResolveSubject;
    var key := cfg.tokenKey(access);
    var t := s.tokens[key];
    assert Descends(cfg, t, s.source[key]);
    NoScopeError(cfg.users, t);
  }

  lemma NoScopeError(users: Users, t: Token)
    ensures ResolveSubject(users, t.subject, t.user) != Failure(InsufficientScope)
    ensures forall u :: ClaimsFor(users, u, t.scope) != Failure(InsufficientScope)
  {
    hide ScopeTuple;
  }

  // ---- Nonces over provider runs ----

  /** The run ends with its last request. */
  lemma {:induction false} AfterLast(cfg: Config, s: Provider, run: Run)
    requires |run| > 0
    ensures var (now, request) := run[|run| - 1];
            After(cfg, s, run) == Serve(cfg, After(cfg, s, run[..|run| - 1]), request, now).0
    decreases |run|
  {
    hide Serve;
    if |run| > 1 {
      var front := run[..|run| - 1];
      assert front[0] == run[0] && front[1..] == run[1..][..|run| - 2];
      AfterLast(cfg, Serve(cfg, s, run[0].1, run[0].0).0, run[1..]);
    } else {
      assert run[1..] == [];
    }
  }

  /** The request saves a code for that client and nonce. */
  predicate AuthorizesAt(cfg: Config, s: Provider, run: Run, j: nat, k: NonceKey) {
    && j < |run| && run[j].1.Authorize? && (run[j].1.code.clientId, run[j].1.code.nonce) == k
    && ReplyAt(cfg, s, run, j) == Accepted
  }

  function WindowAt(run: Run, j: nat): int
    requires j < |run| && run[j].1.Authorize?
  {
    Window(run[j].1.code, run[j].0)
  }

  /** Every code is issued with the provider's code lifetime. */
  predicate ConfiguredLifetime(cfg: Config, run: Run) {
    forall j | 0 <= j < |run| && run[j].1.Authorize? :: run[j].1.code.expiresAt == run[j].1.issuedAt + cfg.codeLifetime
  }

  /** Codes are saved in the order they were issued in. */
  predicate SavedInIssueOrder(run: Run) {
    forall a, b | 0 <= a < b < |run| && run[a].1.Authorize? && run[b].1.Authorize? ::
      run[a].1.issuedAt <= run[b].1.issuedAt
  }

  predicate NonceLive(s: State, k: NonceKey, at: int) {
    k in s.nonces && at < s.nonces[k]
  }

  /** What one request does to a nonce at a later time. */
  lemma ServeNonce(cfg: Config, s: Provider, request: Request, now: int, k: NonceKey, at: int)
    requires now <= at
    ensures var (s', reply) := Serve(cfg, s, request, now);
            NonceLive(s'.codes, k, at) ==
            if request.Authorize? && reply == Accepted && (request.code.clientId, request.code.nonce) == k
            then at < Window(request.code, now) else NonceLive(s.codes, k, at)
  {
    hide Step, NewToken, Window;
    match request
    case Authorize(code, _) =>
        CodeHistory.StepNonces(cfg.sha, s.codes, Save(code), now, k); SaveOutcome(cfg.sha, s.codes, code, now);
    case Lookup(value, client) => CodeHistory.StepNonces(cfg.sha, s.codes, Get(value, client), now, k);
    case Replayed(client, nonce) => CodeHistory.StepNonces(cfg.sha, s.codes, HasNonce(client, nonce), now, k);
    case Exchange(client, value, redirectUri, verifier, _) =>
      CodeHistory.StepNonces(cfg.sha, s.codes, Consume(value, client, redirectUri, verifier), now, k);
    case UserInfo(_) =>
    case Revoke(_) =>
  }

  lemma SaveOutcome(sha: Sha, s: State, code: AuthorizationCode, now: int)
    ensures Step(sha, s, Save(code), now).1 in {Saved, AuthorizationCodes.Refused(ProtocolError)}
  {
  }

  /** An earlier request's reply does not depend on later ones. */
  lemma FrontAuthorizes(cfg: Config, s: Provider, run: Run, j: nat, k: NonceKey)
    requires |run| > 0 && j < |run| - 1
    ensures AuthorizesAt(cfg, s, run[..|run| - 1], j, k) == AuthorizesAt(cfg, s, run, j, k)
  {
    hide Serve;
    assert run[..|run| - 1][..j] == run[..j];
  }

  lemma {:induction false} NonceAfterRun(cfg: Config, spent: set<AuthorizationCode>, run: Run, k: NonceKey, at: int)
    requires Nondecreasing(run) && ConfiguredLifetime(cfg, run) && SavedInIssueOrder(run)
    requires |run| > 0 ==> run[|run| - 1].0 <= at
    ensures NonceLive(After(cfg, FreshProvider(spent), run).codes, k, at) <==>
              exists j: nat :: AuthorizesAt(cfg, FreshProvider(spent), run, j, k) && at < WindowAt(run, j)
    decreases |run|
  {
    hide Serve, After, NonceLive;
    var s := FreshProvider(spent);
    if |run| == 0 {
      assert !NonceLive(After(cfg, s, run).codes, k, at) by { NothingLive(cfg, spent, run, k, at); }
    } else {
      var n := |run| - 1;
      var front := run[..n];
      var (now, request) := run[n];
      AfterLast(cfg, s, run);
      NonceAfterRun(cfg, spent, front, k, at);
      ServeNonce(cfg, After(cfg, s, front), request, now, k, at);
      forall j: nat | j < n
        ensures AuthorizesAt(cfg, s, front, j, k) == AuthorizesAt(cfg, s, run, j, k)
      {
        FrontAuthorizes(cfg, s, run, j, k);
      }
      if AuthorizesAt(cfg, s, run, n, k) {
        forall j: nat | j < n && AuthorizesAt(cfg, s, run, j, k) && at < WindowAt(run, j)
          ensures at < WindowAt(run, n)
        {
          assert run[j].0 <= run[n].0 && run[j].1.issuedAt <= run[n].1.issuedAt;
        }
      }
      if j: nat :| AuthorizesAt(cfg, s, front, j, k) && at < WindowAt(front, j) {
        assert AuthorizesAt(cfg, s, run, j, k) && WindowAt(run, j) == WindowAt(front, j);
      }
      if j: nat :| AuthorizesAt(cfg, s, run, j, k) && at < WindowAt(run, j) && j < n {
        assert AuthorizesAt(cfg, s, front, j, k) && WindowAt(run, j) == WindowAt(front, j);
      }
    }
  }

  lemma NothingLive(cfg: Config, spent: set<AuthorizationCode>, run: Run, k: NonceKey, at: int)
    requires |run| == 0
    ensures !NonceLive(After(cfg, FreshProvider(spent), run).codes, k, at)
  {
  }

  /**
    Over every run of a fresh provider, whatever else it serves and whichever codes are consumed: a
    nonce counts as replayed exactly within the window of some code accepted for that client and nonce.
  */
  lemma ReplayedExactly(cfg: Config, spent: set<AuthorizationCode>, run: Run, client: string, nonce: string, now: int)
    requires Nondecreasing(run) && ConfiguredLifetime(cfg, run) && SavedInIssueOrder(run)
    requires |run| > 0 ==> run[|run| - 1].0 <= now
    ensures Serve(cfg, After(cfg, FreshProvider(spent), run), Replayed(client, nonce), now).1 ==
            Seen(exists j: nat ::
                   AuthorizesAt(cfg, FreshProvider(spent), run, j, (client, nonce)) && now < WindowAt(run, j))
  {
    hide After;
    NonceAfterRun(cfg, spent, run, (client, nonce), now);
  }

  // ---- A scope too wide ----

  lemma FirstCode(cfg: Config, code: AuthorizationCode)
    ensures var s1 := Serve(cfg, FreshProvider({}), Authorize(code, 0), 0).0;
            && code.value in s1.codes.codes && s1.codes.codes[code.value] == code
            && code !in s1.codes.redeemed && s1.tokens == map[]
  {
  }

  lemma GrantedToken(cfg: Config, s: Provider, client: string, value: string, redirectUri: string, verifier: string,
                     access: string, now: int, code: AuthorizationCode)
    requires ExchangeStep(cfg, s, client, value, redirectUri, verifier, access, now).1 == Granted(code)
    ensures var (s', key) := (ExchangeStep(cfg, s, client, value, redirectUri, verifier, access, now).0,
                              cfg.tokenKey(access));
            && key in s'.tokens && key in s'.source && s'.source[key] == code
            && !s'.tokens[key].revoked && now < s'.tokens[key].expiresAt
  {
    hide Step;
  }

  /**
    From a fresh provider: a code that asks for an item its client may not have buys a token, and
    UserInfo refuses it.
  */
  lemma WideScopeRefused(cfg: Config, code: AuthorizationCode, verifier: string, access: string, item: string)
    requires code.clientId in cfg.clients && item !in cfg.clients[code.clientId] && code.scope == ["openid", item]
               && Word(item)
    requires item != "openid" && WellFormed(verifier) && access != "" && 0 < cfg.tokenLifetime
    requires code.Accepts(cfg.sha, code.clientId, code.redirectUri, verifier, 0)
    requires exists user :: Serves(cfg.users, code.subject, code.user, user)
    ensures var s1 := Serve(cfg, FreshProvider({}), Authorize(code, 0), 0).0;
            var (s2, reply) := Serve(cfg, s1, Exchange(code.clientId, code.value, code.redirectUri, verifier, access),
                                     0);
            reply == Granted(code) && Serve(cfg, s2, UserInfo(access), 0).1 == Denied(InsufficientScope)
  {
    hide Step, WellFormed, ExchangeStep, Serves, Traced, UserInfoReply, FreshProvider;
    var request := Exchange(code.clientId, code.value, code.redirectUri, verifier, access);
    var s1 := Serve(cfg, FreshProvider({}), Authorize(code, 0), 0).0;
    FirstCode(cfg, code);
    FreshTraced(cfg, {});
    assert WellMade(code) by { assert code.scope[0] == "openid" && code.scope[1] == item; }
    ServeKeepsTraced(cfg, FreshProvider({}), Authorize(code, 0), 0);
    GrantedExactly(cfg, s1, code.clientId, code.value, code.redirectUri, verifier, access, 0, code);
    ServeKeepsTraced(cfg, s1, request, 0);
    GrantedToken(cfg, s1, code.clientId, code.value, code.redirectUri, verifier, access, 0, code);
    InsufficientScopeExactly(cfg, Serve(cfg, s1, request, 0).0, access, 0);
    assert code.scope[1] == item;
  }

  // ---- Every answer of the two endpoints ----

  /** Nobody is there to act for: the subject resolves to no user, or to an inactive one. */
  ghost predicate Unavailable(users: Users, subject: string, fallback: Option<User>) {
    && ResolveSubject(users, subject, fallback).Success?
    && forall user | ResolveSubject(users, subject, fallback) == Success(Some(user)) :: !users.active(user)
  }

  /**
    The token endpoint names its reasons in this order: the client, the code, the user, and what is
    malformed about the scope, the subject or the token itself.
  */
  lemma ExchangeAnswers(cfg: Config, s: Provider, client: string, value: string, redirectUri: string, verifier: string,
                        access: string, now: int)
    requires Traced(cfg, s)
    ensures var reply := ExchangeStep(cfg, s, client, value, redirectUri, verifier, access, now).1;
            if client !in cfg.clients then reply == Denied(InvalidClient)
            else if || value !in s.codes.codes || s.codes.codes[value] in s.codes.redeemed || !WellFormed(verifier)
                    || !s.codes.codes[value].Accepts(cfg.sha, client, redirectUri, verifier, now) then
              reply == Denied(InvalidCode)
            else
              var code := s.codes.codes[value];
              if Unavailable(cfg.users, code.subject, code.user) then reply == Denied(UserUnavailable)
              else if && Distinct(code.scope) && access != "" && 0 < cfg.tokenLifetime
                      && exists user :: Serves(cfg.users, code.subject, code.user, user) then reply == Granted(code)
              else reply == Denied(Malformed)
  {
    hide GetAllowedScope, ScopeString, Join, Split, S256, WellFormed, Descends, Distinct, ResolveSubject;
    if client in cfg.clients {
      UnknownCode(cfg.sha, s.codes, value, client, redirectUri, verifier, now);
      if value in s.codes.codes {
        var code := s.codes.codes[value];
        GrantedIsRequested(cfg.clients[client], code.scope);
        NewTokenRefusals(cfg, client, code, access, now);
        ConsumeExactly(cfg.sha, s.codes, value, client, redirectUri, verifier, now);
      }
    }
  }

  lemma UnknownCode(sha: Sha, s: State, value: string, client: string, redirectUri: string, verifier: string, now: int)
    ensures value !in s.codes ==> !Step(sha, s, Consume(value, client, redirectUri, verifier), now).1.Consumed?
  {
    hide S256, WellFormed;
  }

  lemma NewTokenRefusals(cfg: Config, client: string, code: AuthorizationCode, access: string, now: int)
    requires client in cfg.clients && WellMade(code)
    ensures var r := NewToken(cfg, client, code, access, now);
            if Unavailable(cfg.users, code.subject, code.user) then r == Failure(UserUnavailable)
            else if && Distinct(code.scope) && access != "" && 0 < cfg.tokenLifetime
                    && exists user :: Serves(cfg.users, code.subject, code.user, user) then r.Success?
            else r == Failure(Malformed)
  {
    hide GetAllowedScope, ScopeString, Join, Split, Distinct;
    GrantedIsRequested(cfg.clients[client], code.scope);
    var resolved := ResolveSubject(cfg.users, code.subject, code.user);
    hide ResolveSubject;
    if resolved.Success? && resolved.value.Some? {
      assert !Unavailable(cfg.users, code.subject, code.user) <==> cfg.users.active(resolved.value.value);
      assert Serves(cfg.users, code.subject, code.user, resolved.value.value) <==>
          cfg.users.active(resolved.value.value) && cfg.users.subject(resolved.value.value) != "";
    }
  }

  /** A code is accepted and stored exactly if none is held under its value: unexpired, or redeemed and saved again. */
  lemma AuthorizeAnswers(cfg: Config, s: Provider, code: AuthorizationCode, issuedAt: int, now: int)
    ensures var (s', reply) := Serve(cfg, s, Authorize(code, issuedAt), now);
            var held := && code.value in s.codes.codes
                        && (now < s.codes.codes[code.value].expiresAt
                            || s.codes.codes[code.value] in s.codes.redeemed);
            && reply == (if held then Denied(Malformed) else Accepted)
            && (!held ==> code.value in s'.codes.codes && s'.codes.codes[code.value] == code)
  {
    hide Step;
    CodeHistory.SaveAnswer(cfg.sha, s.codes, code, now);
    CodeHistory.StepCodes(cfg.sha, s.codes, Save(code), now);
  }

  /** A lookup finds the stored code exactly for its own client, while it is unredeemed and unexpired. */
  lemma LookupAnswers(cfg: Config, s: Provider, value: string, client: string, now: int)
    ensures Serve(cfg, s, Lookup(value, client), now).1 ==
            Found(if && value in s.codes.codes && s.codes.codes[value].clientId == client
                     && s.codes.codes[value] !in s.codes.redeemed && now < s.codes.codes[value].expiresAt
                  then Some(s.codes.codes[value]) else None)
  {
    hide Step;
    CodeHistory.GetAnswer(cfg.sha, s.codes, Get(value, client), now);
  }

  /** And UserInfo: the token, then its scope, then the user. */
  lemma UserInfoAnswers(cfg: Config, s: Provider, access: string, now: int)
    requires Traced(cfg, s)
    ensures var reply, key := UserInfoReply(cfg, s.tokens, access, now), cfg.tokenKey(access);
            if access == "" || key !in s.tokens || s.tokens[key].revoked || s.tokens[key].expiresAt <= now then
              reply == Denied(InvalidToken)
            else
              var t := s.tokens[key];
              if !WithinClient(cfg, s.source[key]) then reply == Denied(InsufficientScope)
              else if Unavailable(cfg.users, t.subject, t.user) then reply == Denied(InvalidToken)
              else if exists user :: Serves(cfg.users, t.subject, t.user, user) then reply.Info?
              else reply == Denied(Malformed)
  {
    hide Split, ClaimsFor, Faithful, AllWords;
    var key := cfg.tokenKey(access);
    if key in s.tokens {
      var t := s.tokens[key];
      assert Descends(cfg, t, s.source[key]);
      GrantedDistinct(cfg, s, key);
      var resolved := ResolveSubject(cfg.users, t.subject, t.user);
      if resolved.Success? && resolved.value.Some? {
        ClaimsAreAllowed(cfg.users, resolved.value.value, t.scope);
        ClaimsFailure(cfg.users, resolved.value.value, t.scope);
        assert Serves(cfg.users, t.subject, t.user, resolved.value.value) <==>
            cfg.users.active(resolved.value.value) && cfg.users.subject(resolved.value.value) != "";
      }
    }
  }

  lemma ClaimsFailure(users: Users, user: User, scope: string)
    ensures ClaimsFor(users, user, scope).Failure? ==> ClaimsFor(users, user, scope).error == Malformed
  {
    hide ScopeTuple, AllowedClaims;
  }

  // ---- A token's life ----

  /** The whole scope of the code is its client's. */
  predicate WithinClient(cfg: Config, code: AuthorizationCode) {
    code.clientId in cfg.clients && forall i | 0 <= i < |code.scope| :: code.scope[i] in cfg.clients[code.clientId]
  }

  lemma NewTokenFields(cfg: Config, client: string, code: AuthorizationCode, access: string, now: int)
    requires client in cfg.clients && code.clientId == client && WellMade(code)
    requires NewToken(cfg, client, code, access, now).Success?
    ensures var t := NewToken(cfg, client, code, access, now).value;
            && t.clientId == client && !t.revoked && t.expiresAt == now + cfg.tokenLifetime
            && Split(t.scope) == (if WithinClient(cfg, code) then code.scope else [])
            && t.user.Some? && Serves(cfg.users, code.subject, code.user, t.user.value)
            && t.subject == cfg.users.subject(t.user.value) && access != ""
  {
    hide GetAllowedScope, ScopeString, Join, Split, ResolveSubject, Distinct;
    GrantedIsRequested(cfg.clients[client], code.scope);
    var granted := GetAllowedScope(cfg.clients[client], Some(Join(code.scope)));
    ScopeText(granted.value);
  }

  /** The record a granted exchange stores, and that it touches no other. */
  lemma GrantStores(cfg: Config, s: Provider, client: string, value: string, redirectUri: string, verifier: string,
                    access: string, now: int, code: AuthorizationCode)
    requires Traced(cfg, s)
    requires ExchangeStep(cfg, s, client, value, redirectUri, verifier, access, now).1 == Granted(code)
    ensures var (s', key) := (ExchangeStep(cfg, s, client, value, redirectUri, verifier, access, now).0,
                              cfg.tokenKey(access));
            && key in s'.tokens && s'.source == s.source[key := code] && s'.tokens == s.tokens[key := s'.tokens[key]]
            && var t := s'.tokens[key];
               && t.clientId == client == code.clientId && !t.revoked && t.expiresAt == now + cfg.tokenLifetime
               && Split(t.scope) == (if WithinClient(cfg, code) then code.scope else [])
               && t.user.Some? && Serves(cfg.users, code.subject, code.user, t.user.value)
               && t.subject == cfg.users.subject(t.user.value) && access != "" && WellMade(code)
  {
    hide Step, NewToken, Split, Serves, Descends, WellMade, WithinClient;
    CodesStep(cfg.sha, s.codes, Consume(value, client, redirectUri, verifier), now);
    NewTokenFields(cfg, client, code, access, now);
  }

  /** Some request of the run revokes the token under that key. */
  predicate RevokesIn(cfg: Config, run: Run, key: string) {
    exists i | 0 <= i < |run| :: run[i].1.Revoke? && cfg.tokenKey(run[i].1.access) == key
  }

  lemma ServeKeepsToken(cfg: Config, s: Provider, request: Request, now: int, key: string)
    requires Proper(cfg, s, request) && key in s.tokens && key in s.source
    ensures var s' := Serve(cfg, s, request, now).0;
            && key in s'.tokens && key in s'.source && s'.source[key] == s.source[key]
            && s'.tokens[key] == if request.Revoke? && cfg.tokenKey(request.access) == key
                                 then s.tokens[key].(revoked := true) else s.tokens[key]
  {
    hide Step, NewToken, WellMade;
  }

  /** Whatever else is served, a stored token changes only by being revoked. */
  lemma {:induction false} RunKeepsToken(cfg: Config, s: Provider, run: Run, key: string)
    requires ProperRun(cfg, s, run) && key in s.tokens && key in s.source
    ensures var s' := After(cfg, s, run);
            && key in s'.tokens && key in s'.source && s'.source[key] == s.source[key]
            && s'.tokens[key] == if RevokesIn(cfg, run, key) then s.tokens[key].(revoked := true) else s.tokens[key]
    decreases |run|
  {
    hide Serve, Proper;
    if |run| > 0 {
      var s1 := Serve(cfg, s, run[0].1, run[0].0).0;
      ServeKeepsToken(cfg, s, run[0].1, run[0].0, key);
      RunKeepsToken(cfg, s1, run[1..], key);
      RevokesFirst(cfg, run, key);
    }
  }

  lemma RevokesFirst(cfg: Config, run: Run, key: string)
    requires |run| > 0
    ensures RevokesIn(cfg, run, key) <==>
              (run[0].1.Revoke? && cfg.tokenKey(run[0].1.access) == key) || RevokesIn(cfg, run[1..], key)
  {
    if RevokesIn(cfg, run[1..], key) {
      var i :| 0 <= i < |run[1..]| && run[1..][i].1.Revoke? && cfg.tokenKey(run[1..][i].1.access) == key;
      assert run[i + 1] == run[1..][i];
    }
    if RevokesIn(cfg, run, key) {
      var i :| 0 <= i < |run| && run[i].1.Revoke? && cfg.tokenKey(run[i].1.access) == key;
      if i > 0 { assert run[1..][i - 1] == run[i]; }
    }
  }

  /** The user a granted token was made for is the one its subject resolves to later. */
  lemma SameUserLater(users: Users, subject: string, fallback: Option<User>, user: User)
    requires Faithful(users) && Serves(users, subject, fallback, user)
    ensures ResolveSubject(users, users.subject(user), Some(user)) == Success(Some(user))
  {
    ResolvedExactly(users, subject, fallback, user);
    ResolvedExactly(users, users.subject(user), Some(user), user);
  }

  /**
    The whole life of a token: after an exchange at t1 and whatever is served then, UserInfo at t2
    answers exactly if the token was not revoked, its lifetime has not passed, and the whole scope of
    the code it was bought with is its client's.
  */
  lemma TokenLifeExactly(cfg: Config, s: Provider, request: Request, t1: int, code: AuthorizationCode, run: Run,
                         t2: int)
    requires Faithful(cfg.users) && Traced(cfg, s) && request.Exchange? && Proper(cfg, s, request)
    requires Serve(cfg, s, request, t1).1 == Granted(code) && ProperRun(cfg, Serve(cfg, s, request, t1).0, run)
    ensures var s2 := After(cfg, Serve(cfg, s, request, t1).0, run);
            Serve(cfg, s2, UserInfo(request.access), t2).1.Info? <==>
              && !RevokesIn(cfg, run, cfg.tokenKey(request.access)) && t2 < t1 + cfg.tokenLifetime
              && WithinClient(cfg, code)
  {
    hide Traced, ExchangeStep, WithinClient, RevokesIn, Split, After, Faithful, WellMade, ResolveSubject, ClaimsFor;
    var key := cfg.tokenKey(request.access);
    var s1 := Serve(cfg, s, request, t1).0;
    GrantStores(cfg, s, request.client, request.value, request.redirectUri, request.verifier, request.access, t1, code);
    RunKeepsToken(cfg, s1, run, key);
    var s2 := After(cfg, s1, run);
    var t := s1.tokens[key];
    SameUserLater(cfg.users, code.subject, code.user, t.user.value);
    ServeKeepsTraced(cfg, s, request, t1);
    GrantedDistinct(cfg, s1, key);
    HasOpenid(code);
    ClaimsAreAllowed(cfg.users, t.user.value, t.scope);
  }

  lemma HasOpenid(code: AuthorizationCode)
    requires WellMade(code)
    ensures "openid" in code.scope
  {
  }

  lemma GrantedDistinct(cfg: Config, s: Provider, key: string)
    requires Traced(cfg, s) && key in s.tokens
    ensures Distinct(s.source[key].scope) && Distinct(Split(s.tokens[key].scope))
  {
    hide Faithful, Split, WellMade;
    assert Descends(cfg, s.tokens[key], s.source[key]);
  }
}
