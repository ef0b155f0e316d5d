/** The token store and the provider's endpoints as the objects they are, proved to serve as TokenRun says. */
module OidcClasses {
  import opened Wrappers
  import opened Text
  import opened Scopes
  import opened AuthorizationCodes
  import opened AuthorizationCodeStore
  import opened TokenRun

  // ---- What a token generator may hand over ----

  /** A value of the generator's mapping; a float counts as the integer it truncates to. */
  datatype Field = Missing | Str(text: string) | Number(value: int) | Other

  datatype ScopeField = NoScope | ScopeText(text: string) | ScopeItems(items: seq<string>)

  datatype GeneratedToken = GeneratedToken(
    access: Field, tokenType: Option<string>, scope: ScopeField, expiresIn: Field, expiresAt: Field, refresh: Field)

  /** int() on a text. */
  type ToInt = string -> Option<int>

  function Lower(s: string): string {
    seq(|s|, i requires 0 <= i < |s| => if 'A' <= s[i] <= 'Z' then s[i] + ('a' - 'A') else s[i])
  }

  function Amount(toInt: ToInt, f: Field, otherwise: int): Option<int> {
    match f
    case Str(text) => toInt(text)
    case Number(n) => Some(n)
    case _ => Some(otherwise)
  }

  /** A lifetime counts from now; without one an absolute time is used. */
  function Expiry(toInt: ToInt, g: GeneratedToken, now: int): Option<int> {
    if g.expiresIn.Missing? then Amount(toInt, g.expiresAt, now)
    else match Amount(toInt, g.expiresIn, 0) case Some(n) => Some(now + n) case None => None
  }

  function FieldScope(f: ScopeField): string {
    match f case NoScope => "" case ScopeText(text) => ScopeString(Some(text)) case ScopeItems(items) => Join(items)
  }

  /** The token the store keeps, or None where it raises. */
  function Storable(toInt: ToInt, g: GeneratedToken, clientId: string, subject: string, now: int, user: Option<User>)
    : (r: Option<Token>)
    ensures r.Some? <==>
              && g.access.Str? && g.access.text != "" && (g.tokenType.Some? ==> Lower(g.tokenType.value) == "bearer")
              && Expiry(toInt, g, now).Some? && now < Expiry(toInt, g, now).value
              && (g.refresh.Missing? || g.refresh.Str?)
    ensures r.Some? ==>
              && r.value.clientId == clientId && r.value.subject == subject
              && now < r.value.expiresAt && !r.value.revoked
  {
    if !g.access.Str? || g.access.text == "" then None
    else if Lower(if g.tokenType.Some? then g.tokenType.value else "Bearer") != "bearer" then None
    else
      match Expiry(toInt, g, now)
      case None => None
      case Some(expires) =>
        if expires <= now || !(g.refresh.Missing? || g.refresh.Str?) then None
        else Some(Token(clientId, subject, FieldScope(g.scope), expires, user, false))
  }

  /** The mapping the provider's own generator makes. */
  function BearerToken(access: string, scope: Option<string>, lifetime: int): GeneratedToken {
    GeneratedToken(Str(access), Some("Bearer"), if scope.Some? then ScopeText(scope.value) else NoScope,
                   Number(lifetime), Missing, Missing)
  }

  /** It is storable exactly with a token text and a positive lifetime, and keeps both. */
  lemma BearerStorable(toInt: ToInt, access: string, scope: Option<string>, lifetime: int, clientId: string,
                       subject: string, now: int, user: Option<User>)
    ensures Storable(toInt, BearerToken(access, scope, lifetime), clientId, subject, now, user) ==
            if access == "" || lifetime <= 0 then None
            else Some(Token(clientId, subject, ScopeString(scope), now + lifetime, user, false))
  {
    hide Strip;
    assert Lower("Bearer") == "bearer";
  }

  lemma BearerInAnyCase(s: string)
    ensures Lower(s) == "bearer" <==>
              |s| == 6 && forall i | 0 <= i < 6 :: s[i] == "bearer"[i] || s[i] == "BEARER"[i]
  {
    if |s| == 6 {
      forall i | 0 <= i < 6
        ensures Lower(s)[i] == "bearer"[i] <==> s[i] == "bearer"[i] || s[i] == "BEARER"[i]
      {
        CaseByName(i, s[i]);
      }
    }
  }

  lemma CaseByName(i: nat, c: char)
    requires i < 6
    ensures Lower([c])[0] == "bearer"[i] <==> c == "bearer"[i] || c == "BEARER"[i]
  {
    assert "bearer"[i] == "BEARER"[i] + ('a' - 'A');
  }

  /** The amount a field stands for: digits are read by int(), and anything else is taken for the default. */
  function AmountOf(toInt: ToInt, f: Field, otherwise: int): Option<int> {
    if f.Str? then toInt(f.text) else if f.Number? then Some(f.value) else Some(otherwise)
  }

  /**
    What a stored token holds: a given lifetime counts from now and wins over an absolute expiry, which
    must lie in the future like the sum; without either nothing is stored.
  */
  lemma StorableFields(toInt: ToInt, g: GeneratedToken, clientId: string, subject: string, now: int,
                       user: Option<User>)
    ensures var r := Storable(toInt, g, clientId, subject, now, user);
            && (r.Some? ==>
                  && r.value.clientId == clientId && r.value.subject == subject && r.value.user == user
                  && !r.value.revoked && now < r.value.expiresAt
                  && (if g.expiresIn.Missing? then AmountOf(toInt, g.expiresAt, now) == Some(r.value.expiresAt)
                      else AmountOf(toInt, g.expiresIn, 0) == Some(r.value.expiresAt - now))
                  && Split(r.value.scope) == (match g.scope
                                              case NoScope => []
                                              case ScopeText(text) => Split(text)
                                              case ScopeItems(items) => Split(Join(items))))
            && (g.expiresIn.Missing? && g.expiresAt.Missing? ==> r == None)
  {
    hide Lower, Split, Strip, Join;
    if g.scope.ScopeText? { SplitStrip(g.scope.text); }
    assert Split("") == [] by { SplitAtSpaces("", 'x', ""); }
  }

  class TokenRecord {
    const clientId: string
    const subject: string
    const scope: string
    const expiresAt: int
    const user: Option<User>
    var revoked: bool

    constructor (clientId: string, subject: string, scope: string, expiresAt: int, user: Option<User>)
      ensures Value() == Token(clientId, subject, scope, expiresAt, user, false)
    {
      this.clientId, this.subject, this.scope, this.expiresAt, this.user := clientId, subject, scope, expiresAt, user;
      revoked := false;
    }

    function Value(): Token
      reads this
    {
      Token(clientId, subject, scope, expiresAt, user, revoked)
    }
  }

  /** Tokens under the digest of their access token; records are live objects, one per key. */
  class MemoryTokenStore {
    const key: string -> string
    const toInt: ToInt
    var tokens: map<string, TokenRecord>

    constructor (key: string -> string, toInt: ToInt)
      ensures this.key == key && this.toInt == toInt && tokens == map[]
    {
      this.key, this.toInt, tokens := key, toInt, map[];
    }

    ghost predicate Valid()
      reads this
    {
      forall a, b | a in tokens && b in tokens && a != b :: tokens[a] != tokens[b]
    }

    function View(): map<string, Token>
      reads this, tokens.Values
    {
      map k | k in tokens :: tokens[k].Value()
    }

    /** Stores a new record, or raises for a mapping that is no bearer token with a future expiry. */
    method Save(g: GeneratedToken, clientId: string, subject: string, now: int, user: Option<User>)
      returns (saved: bool)
      requires Valid()
      modifies this
      ensures Valid()
      ensures var token := Storable(toInt, g, clientId, subject, now, user);
              && saved == token.Some?
              && View() == if saved then old(View())[key(g.access.text) := token.value] else old(View())
      ensures forall k | k in tokens :: (k in old(tokens) && tokens[k] == old(tokens)[k]) || fresh(tokens[k])
    {
      hide FieldScope, Expiry, Lower;
      if !g.access.Str? || g.access.text == "" {
        return false;
      }
      var tokenType := if g.tokenType.Some? then g.tokenType.value else "Bearer";
      if Lower(tokenType) != "bearer" {
        return false;
      }
      var scope := FieldScope(g.scope);
      var expires := Expiry(toInt, g, now);
      if expires.None? || expires.value <= now {
        return false;
      }
      if !g.refresh.Missing? && !g.refresh.Str? {
        return false;
      }
      var record := new TokenRecord(clientId, subject, scope, expires.value, user);
      tokens := tokens[key(g.access.text) := record];
      return true;
    }

    method GetAccessToken(access: string, now: int) returns (found: Option<TokenRecord>)
      ensures var k := key(access);
              if access == "" || k !in View() || View()[k].revoked || View()[k].expiresAt <= now then found == None
              else found.Some? && found.value.Value() == View()[k]
    {
      if access == "" || key(access) !in tokens {
        return None;
      }
      var record := tokens[key(access)];
      if record.revoked || record.expiresAt <= now {
        return None;
      }
      return Some(record);
    }

    method RevokeAccessToken(access: string) returns (found: bool)
      requires Valid()
      modifies tokens.Values
      ensures Valid() && found == (key(access) in tokens) && View() == RevokedTokens(old(View()), key(access))
    {
      var k := key(access);
      if k !in tokens {
        return false;
      }
      tokens[k].revoked := true;
      return true;
    }
  }

  class OidcProvider {
    const cfg: Config
    const codes: MemoryAuthorizationCodeStore
    const tokens: MemoryTokenStore
    ghost var source: map<string, AuthorizationCode>

    constructor (cfg: Config, toInt: ToInt)
      ensures this.cfg == cfg && fresh(codes) && fresh(tokens) && Valid({})
      ensures View({}) == FreshProvider({})
    {
      this.cfg := cfg;
      codes := new MemoryAuthorizationCodeStore();
      tokens := new MemoryTokenStore(cfg.tokenKey, toInt);
      source := map[];
    }

    ghost predicate Valid(all: set<AuthorizationCode>)
      reads this, codes, tokens
    {
      codes.Within(all) && tokens.Valid() && tokens.key == cfg.tokenKey
    }

    ghost function View(all: set<AuthorizationCode>): Provider
      reads this, codes, tokens, tokens.tokens.Values, all
    {
      Provider(codes.View(all), tokens.View(), source)
    }

    /**
      The clock is read once to issue the code and again to save it. An inactive user, a bad subject or
      a bad challenge saves nothing; otherwise a new code object is saved.
    */
    method SaveAuthorizationCode(user: Option<User>, clientId: string, redirectUri: string, rawScope: string,
                                 nonce: string, challenge: string, value: string, issuedAt: int,
                                 now: int, ghost all: set<AuthorizationCode>)
      returns (r: Reply, ghost code: Option<AuthorizationCode>)
      requires Valid(all)
      modifies codes
      ensures Valid(all + if code.Some? then {code.value} else {})
      ensures code.Some? <==>
                && user.Some? && cfg.users.active(user.value) && cfg.users.subject(user.value) != ""
                && "openid" in Split(rawScope)
                && nonce != "" && WellFormed(challenge) && 0 < cfg.codeLifetime <= 600 && value != ""
      ensures match code
              case None =>
                && View(all) == old(View(all))
                && r == Denied(if user.None? || !cfg.users.active(user.value) then UserUnavailable else Malformed)
              case Some(c) =>
                && fresh(c) && WellMade(c) && !c.redeemed && c.scope == Split(rawScope) && c.user == user && user.Some?
                && c.value == value && c.subject == cfg.users.subject(user.value) != "" && c.clientId == clientId
                && c.redirectUri == redirectUri && c.nonce == nonce && c.codeChallenge == challenge
                && c.expiresAt == issuedAt + cfg.codeLifetime
                && (View(all + {c}), r) == Serve(cfg, old(View(all)), Authorize(c, issuedAt), now)
    {
      hide Split, WellFormed, AllWords;
      code := None;
      if user.None? || !cfg.users.active(user.value) {
        return Denied(UserUnavailable), None;
      }
      var subject := SubjectFor(cfg.users, user.value);
      if subject.Failure? {
        return Denied(subject.error), None;
      }
      var scope := Split(rawScope);
      SplitWords(rawScope);
      var issued := AuthorizationCode.Issue(clientId, redirectUri, subject.value, scope, nonce, challenge, issuedAt,
                                            "S256",
                                            cfg.codeLifetime, user, Some(value), "");
      if issued.Failure? {
        return Denied(Malformed), None;
      }
      code := Some(issued.value);
      ghost var with := all + {issued.value};
      assert codes.View(with).redeemed == codes.View(all).redeemed;
      label Issued:
      var o := codes.Save(cfg.sha, issued.value, now, with);
      assert codes.View(with) == Step(cfg.sha, old@Issued(codes.View(with)), Save(issued.value), now).0;
      return if o.Saved? then Accepted else Denied(Malformed), code;
    }

    method QueryAuthorizationCode(value: string, clientId: string, now: int, ghost all: set<AuthorizationCode>)
      returns (r: Reply)
      requires Valid(all)
      modifies codes
      ensures Valid(all) && (View(all), r) == Serve(cfg, old(View(all)), Lookup(value, clientId), now)
    {
      hide Purged, S256, WellFormed;
      var o := codes.Get(cfg.sha, value, clientId, now, all);
      return Found(o.found);
    }

    method ExistsNonce(clientId: string, nonce: string, now: int, ghost all: set<AuthorizationCode>) returns (r: Reply)
      requires Valid(all)
      modifies codes
      ensures Valid(all) && (View(all), r) == Serve(cfg, old(View(all)), Replayed(clientId, nonce), now)
    {
      hide Purged, S256, WellFormed;
      var o := codes.HasNonce(cfg.sha, clientId, nonce, now, all);
      return Seen(o.seen);
    }

    /** The bearer token the generator makes, stored for the user's subject. */
    method SaveToken(clientId: string, user: User, scope: Option<string>, access: string, now: int)
      returns (r: Result<(), Error>)
      requires tokens.Valid() && tokens.key == cfg.tokenKey
      modifies tokens
      ensures tokens.Valid()
      ensures r == match SubjectFor(cfg.users, user)
                   case Failure(e) => Failure(e)
                   case Success(_) => if access == "" || cfg.tokenLifetime <= 0 then Failure(Malformed) else Success(())
      ensures tokens.View() ==
              if r.Failure? then old(tokens.View())
              else
                var expires := now + cfg.tokenLifetime;
                var token := Token(clientId, cfg.users.subject(user), ScopeString(scope), expires, Some(user), false);
                old(tokens.View())[cfg.tokenKey(access) := token]
      ensures forall k | k in tokens.tokens ::
                (k in old(tokens.tokens) && tokens.tokens[k] == old(tokens.tokens)[k]) || fresh(tokens.tokens[k])
    {
      hide ScopeString, Storable;
      var subject := SubjectFor(cfg.users, user);
      if subject.Failure? {
        return Failure(subject.error);
      }
      BearerStorable(tokens.toInt, access, scope, cfg.tokenLifetime, clientId, subject.value, now, Some(user));
      var saved := tokens.Save(BearerToken(access, scope, cfg.tokenLifetime), clientId, subject.value, now, Some(user));
      return if saved then Success(()) else Failure(Malformed);
    }

    /** The code is consumed first; the user, the scope and the subject are looked at afterwards. */
    method CreateTokenResponse(clientId: string, value: string, redirectUri: string, verifier: string, access: string,
                               now: int, ghost all: set<AuthorizationCode>)
      returns (r: Reply)
      requires Valid(all)
      modifies this, codes, tokens, all
      ensures Valid(all)
      ensures (View(all), r)
                == Serve(cfg, old(View(all)), Exchange(clientId, value, redirectUri, verifier, access), now)
    {
      hide Step, GetAllowedScope, ScopeString, Join, ResolveSubject;
      if clientId !in cfg.clients {
        return Denied(InvalidClient);
      }
      var o := codes.Consume(cfg.sha, value, clientId, redirectUri, verifier, now, all);
      if !o.Consumed? {
        return Denied(InvalidCode);
      }
      var user := ResolveSubject(cfg.users, o.code.subject, o.code.user);
      if user.Failure? {
        return Denied(user.error);
      }
      if user.value.None? || !cfg.users.active(user.value.value) {
        return Denied(UserUnavailable);
      }
      var granted := GetAllowedScope(cfg.clients[clientId], Some(Join(o.code.scope)));
      if granted.Failure? {
        return Denied(Malformed);
      }
      var saved := SaveToken(clientId, user.value.value, granted.value, access, now);
      if saved.Failure? {
        return Denied(saved.error);
      }
      source := source[cfg.tokenKey(access) := o.code];
      return Granted(o.code);
    }

    method UserInfo(access: string, now: int, ghost all: set<AuthorizationCode>) returns (r: Reply)
      requires Valid(all)
      ensures (View(all), r) == Serve(cfg, View(all), Request.UserInfo(access), now)
    {
      hide Split, ClaimsFor, ResolveSubject;
      var found := tokens.GetAccessToken(access, now);
      if found.None? {
        return Denied(InvalidToken);
      }
      var record := found.value;
      if "openid" !in Split(record.scope) {
        return Denied(InsufficientScope);
      }
      var user := ResolveSubject(cfg.users, record.subject, record.user);
      if user.Failure? {
        return Denied(user.error);
      }
      if user.value.None? || !cfg.users.active(user.value.value) {
        return Denied(InvalidToken);
      }
      var claims := ClaimsFor(cfg.users, user.value.value, record.scope);
      return match claims case Failure(e) => Denied(e) case Success(m) => Info(m);
    }

    method Revocation(access: string, ghost all: set<AuthorizationCode>) returns (r: Reply)
      requires Valid(all)
      modifies tokens.tokens.Values
      ensures Valid(all) && (View(all), r) == Serve(cfg, old(View(all)), Revoke(access), 0)
    {
      var _ := tokens.RevokeAccessToken(access);
      return Revoked;
    }
  }
}
