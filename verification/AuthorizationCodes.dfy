/**
  Authorization codes and what their store means.  A code is an object with identity: the store
  hands it out, marks it redeemed in place, and forgets it.  The store purges lazily, at the start
  of most operations; the ideal store beside it never purges.  SHA-256 is any function.
*/
module AuthorizationCodes {
  import opened Wrappers
  import opened Base64Url

  datatype CodeError = ProtocolError | PermissionError

  type Sha = string -> Bytes

  /** The host's user objects, by identity. */
  type User = nat

  predicate VerifierChar(c: char) {
    'A' <= c <= 'Z' || 'a' <= c <= 'z' || '0' <= c <= '9' || c in {'.', '_', '~', '-'}
  }

  /** The pattern of code verifiers and challenges (section 4.1 of RFC 7636). */
  predicate WellFormed(s: string) {
    43 <= |s| <= 128 && forall i | 0 <= i < |s| :: VerifierChar(s[i])
  }

  function S256(sha: Sha, verifier: string): string {
    BytesToB64url(sha(verifier))
  }

  class AuthorizationCode {
    const value: string
    const clientId: string
    const redirectUri: string
    const subject: string
    const scope: seq<string>
    const nonce: string
    const codeChallenge: string
    const challengeMethod: string
    const expiresAt: int
    const user: Option<User>
    var redeemed: bool

    constructor (value: string, clientId: string, redirectUri: string, subject: string, scope: seq<string>,
                 nonce: string, codeChallenge: string, challengeMethod: string, expiresAt: int, user: Option<User>)
      ensures this.value == value && this.clientId == clientId && this.redirectUri == redirectUri
                && this.subject == subject
      ensures this.scope == scope && this.nonce == nonce && this.codeChallenge == codeChallenge
      ensures this.challengeMethod == challengeMethod && this.expiresAt == expiresAt && this.user == user && !redeemed
    {
      this.value, this.clientId, this.redirectUri, this.subject := value, clientId, redirectUri, subject;
      this.scope, this.nonce, this.codeChallenge := scope, nonce, codeChallenge;
      this.challengeMethod, this.expiresAt, this.user, redeemed := challengeMethod, expiresAt, user, false;
    }

    /** `random` is the value drawn when the caller gives none. */
    static method Issue(clientId: string, redirectUri: string, subject: string, scope: seq<string>, nonce: string,
                        codeChallenge: string, now: int, challengeMethod: string, lifetime: int, user: Option<User>,
                        value: Option<string>, random: string) returns (r: Result<AuthorizationCode, CodeError>)
      ensures r.Success? <==>
                && "openid" in scope && nonce != "" && challengeMethod == "S256" && WellFormed(codeChallenge)
                && 0 < lifetime <= 600 && subject != "" && value != Some("")
      ensures r.Failure? ==> r.error == ProtocolError
      ensures r.Success? ==>
                var c := r.value;
                && fresh(c) && !c.redeemed && c.value == (if value.Some? then value.value else random)
                && c.clientId == clientId && c.redirectUri == redirectUri && c.subject == subject && c.scope == scope
                && c.nonce == nonce && c.codeChallenge == codeChallenge && c.challengeMethod == "S256"
                && c.expiresAt == now + lifetime && c.user == user
    {
      if "openid" !in scope || nonce == "" || challengeMethod != "S256" || !WellFormed(codeChallenge) {
        return Failure(ProtocolError);
      }
      if lifetime <= 0 || lifetime > 600 || subject == "" || value == Some("") {
        return Failure(ProtocolError);
      }
      var chosen := if value.Some? then value.value else random;
      var code := new AuthorizationCode(chosen, clientId, redirectUri, subject, scope, nonce,
                                        codeChallenge, challengeMethod, now + lifetime, user);
      return Success(code);
    }

    /** Client, redirect URI, expiry and S256 verifier all match. */
    predicate Accepts(sha: Sha, clientId: string, redirectUri: string, verifier: string, now: int) {
      && now < expiresAt && this.clientId == clientId && this.redirectUri == redirectUri
      && challengeMethod == "S256" && S256(sha, verifier) == codeChallenge
    }

    /** The verifier's form is checked before anything else. */
    method Redeem(sha: Sha, clientId: string, redirectUri: string, verifier: string, now: int)
      returns (r: Result<string, CodeError>)
      modifies this
      ensures r == if !WellFormed(verifier) then Failure(ProtocolError)
                   else if old(redeemed) || !Accepts(sha, clientId, redirectUri, verifier, now) then
                       Failure(PermissionError)
                   else Success(subject)
      ensures redeemed == (old(redeemed) || r.Success?)
    {
      hide BytesToB64url;
      if !WellFormed(verifier) {
        return Failure(ProtocolError);
      }
      var actual := S256(sha, verifier);
      if || redeemed || expiresAt <= now || this.clientId != clientId || this.redirectUri != redirectUri
         || challengeMethod != "S256" || actual != codeChallenge {
        return Failure(PermissionError);
      }
      redeemed := true;
      return Success(subject);
    }
  }

  /** Form and length, character by character. */
  lemma WellFormedExactly(s: string)
    ensures WellFormed(s) <==>
              && |s| >= 43 && |s| <= 128
              && forall i | 0 <= i < |s| :: s[i] in ALPHABET || s[i] == '.' || s[i] == '~'
  {
    forall i | 0 <= i < |s|
      ensures VerifierChar(s[i]) <==> s[i] in ALPHABET || s[i] == '.' || s[i] == '~'
    {
      InAlphabet(s[i]);
    }
  }

  lemma InAlphabet(c: char)
    ensures c in ALPHABET <==> UrlSafe(c)
  {
    hide ALPHABET, Symbol, Value;
    if c in ALPHABET {
      AlphabetSize();
      var k :| 0 <= k < |ALPHABET| && ALPHABET[k] == c;
      SymbolInAlphabet(k);
      SafeSymbol(k);
    } else if UrlSafe(c) {
      SymbolOf(c);
    }
  }

  lemma AlphabetSize()
    ensures |ALPHABET| == 64
  {
  }

  lemma SafeSymbol(k: Sextet)
    ensures UrlSafe(Symbol(k))
  {
  }

  lemma SymbolOf(c: char)
    requires UrlSafe(c)
    ensures c in ALPHABET
  {
    hide ALPHABET;
    var k: Sextet := Value(c).value;
    assert Symbol(k) == c;
    SymbolInAlphabet(k);
  }

  /** The S256 challenge is the verifier's digest, six bits a symbol (section 4.2 of RFC 7636). */
  lemma ChallengeText(sha: Sha, verifier: string, k: nat)
    requires k < |S256(sha, verifier)|
    ensures S256(sha, verifier)[k] == ALPHABET[SixBits(sha(verifier), k)]
  {
    TextBySymbol(sha(verifier), k);
  }

  /** The challenge of a 32-byte digest passes the challenge check (section 4.2 of RFC 7636). */
  lemma ChallengeWellFormed(sha: Sha, verifier: string)
    requires |sha(verifier)| == 32
    ensures WellFormed(S256(sha, verifier)) && |S256(sha, verifier)| == 43
  {
    hide BytesToB64url;
    TextShape(sha(verifier));
    var s := S256(sha, verifier);
    assert forall i | 0 <= i < |s| :: s[i] in s && UrlSafe(s[i]);
  }

  /** With an injective digest, a code bound to one verifier accepts no other. */
  lemma OnlyItsVerifier(sha: Sha, code: AuthorizationCode, verifier: string, other: string, now: int)
    requires forall a, b :: sha(a) == sha(b) ==> a == b
    requires code.codeChallenge == S256(sha, verifier)
    ensures code.Accepts(sha, code.clientId, code.redirectUri, other, now) <==>
              other == verifier && now < code.expiresAt && code.challengeMethod == "S256"
  {
    hide BytesToB64url;
    if S256(sha, other) == S256(sha, verifier) {
      Injective(sha(other), sha(verifier));
    }
  }

  // ---- The store's meaning ----

  type NonceKey = (string, string)

  datatype State = State(codes: map<string, AuthorizationCode>, redeemed: set<AuthorizationCode>,
                         nonces: map<NonceKey, int>)

  datatype Op =
    | Save(code: AuthorizationCode)
    | Get(value: string, clientId: string)
    | Consume(value: string, clientId: string, redirectUri: string, verifier: string)
    | HasNonce(clientId: string, nonce: string)

  datatype Outcome =
    | Saved
    | Got(found: Option<AuthorizationCode>)
    | Consumed(code: AuthorizationCode)
    | Nonce(seen: bool)
    | Refused(error: CodeError)

  /** How long a saved code's nonce counts as used. */
  function Window(code: AuthorizationCode, now: int): (w: int)
    ensures code.expiresAt <= w && now < w && (w == code.expiresAt || w == now + 1)
  {
    if code.expiresAt < now + 1 then now + 1 else code.expiresAt
  }

  predicate Stale(s: State, value: string, now: int)
    requires value in s.codes
  {
    s.codes[value].expiresAt <= now && s.codes[value] !in s.redeemed
  }

  function Purged(s: State, now: int): State {
    s.(codes := map v | v in s.codes && !Stale(s, v, now) :: s.codes[v],
       nonces := map k | k in s.nonces && now < s.nonces[k] :: s.nonces[k])
  }

  /** An operation on maps nothing is purged from: the ideal store. */
  function Ideal(sha: Sha, s: State, op: Op, now: int): (State, Outcome) {
    match op
    case Save(code) =>
      if code.value in s.codes then (s, Refused(ProtocolError))
      else (s.(codes := s.codes[code.value := code],
               nonces := s.nonces[(code.clientId, code.nonce) := Window(code, now)]), Saved)
    case Get(value, clientId) =>
      if || value !in s.codes || s.codes[value].clientId != clientId || s.codes[value] in s.redeemed
         || s.codes[value].expiresAt <= now then (s, Got(None))
      else (s, Got(Some(s.codes[value])))
    case Consume(value, clientId, redirectUri, verifier) =>
      if value !in s.codes then (s, Refused(PermissionError))
      else
        var code := s.codes[value];
        if !WellFormed(verifier) then (s, Refused(ProtocolError))
        else if code in s.redeemed || !code.Accepts(sha, clientId, redirectUri, verifier, now) then
            (s, Refused(PermissionError))
        else (s.(codes := s.codes - {value}, redeemed := s.redeemed + {code}), Consumed(code))
    case HasNonce(clientId, nonce) =>
      (s, Nonce((clientId, nonce) in s.nonces && now < s.nonces[(clientId, nonce)]))
  }

  /** The store purges first, except that a nonce query drops only the entry it finds expired. */
  function Step(sha: Sha, s: State, op: Op, now: int): (State, Outcome) {
    match op
    case HasNonce(clientId, nonce) =>
      var o := Ideal(sha, s, op, now).1;
      (if o.seen then s else s.(nonces := s.nonces - {(clientId, nonce)}), o)
    case _ => Ideal(sha, Purged(s, now), op, now)
  }

  // ---- Lazy cleanup against the ideal store ----

  ghost predicate Related(lazy: State, ideal: State, now: int) {
    && lazy.redeemed == ideal.redeemed
    && (forall v | v in lazy.codes :: v in ideal.codes && ideal.codes[v] == lazy.codes[v])
    && (forall v | v in ideal.codes && !Stale(ideal, v, now) :: v in lazy.codes)
    && (forall k | k in lazy.nonces :: k in ideal.nonces && ideal.nonces[k] == lazy.nonces[k])
    && (forall k | k in ideal.nonces && now < ideal.nonces[k] :: k in lazy.nonces)
  }

  /** A save under the value of a code that expired unredeemed: the lazy store has forgotten it. */
  predicate Reuses(ideal: State, op: Op, now: int) {
    op.Save? && op.code.value in ideal.codes && Stale(ideal, op.code.value, now)
  }

  /** A consume of such a code with a malformed verifier: refused by both, for different reasons. */
  predicate Malformed(ideal: State, op: Op, now: int) {
    op.Consume? && op.value in ideal.codes && Stale(ideal, op.value, now) && !WellFormed(op.verifier)
  }

  lemma PurgedRelated(lazy: State, ideal: State, before: int, now: int)
    requires Related(lazy, ideal, before) && before <= now
    ensures Related(Purged(lazy, now), ideal, now)
    ensures forall v | v in Purged(lazy, now).codes :: !Stale(ideal, v, now)
  {
  }

  /** Two related stores, the lazy one just purged, give one answer. */
  lemma AnswersAgree(sha: Sha, lazy: State, ideal: State, op: Op, now: int)
    requires Related(lazy, ideal, now) && (forall v | v in lazy.codes :: !Stale(ideal, v, now)) && !op.HasNonce?
    ensures var (lazy', x), (ideal', y) := Ideal(sha, lazy, op, now), Ideal(sha, ideal, op, now);
            && (Reuses(ideal, op, now) ==> x == Saved && y == Refused(ProtocolError))
            && (Malformed(ideal, op, now) ==> x == Refused(PermissionError) && y == Refused(ProtocolError))
            && (!Reuses(ideal, op, now) ==> Related(lazy', ideal', now))
            && (!Reuses(ideal, op, now) && !Malformed(ideal, op, now) ==> x == y)
  {
    hide S256, WellFormed;
  }

  lemma RefineStep(sha: Sha, lazy: State, ideal: State, op: Op, before: int, now: int)
    requires Related(lazy, ideal, before) && before <= now
    ensures var (lazy', x), (ideal', y) := Step(sha, lazy, op, now), Ideal(sha, ideal, op, now);
            && (Reuses(ideal, op, now) ==> x == Saved && y == Refused(ProtocolError))
            && (Malformed(ideal, op, now) ==> x == Refused(PermissionError) && y == Refused(ProtocolError))
            && (!Reuses(ideal, op, now) ==> Related(lazy', ideal', now))
            && (!Reuses(ideal, op, now) && !Malformed(ideal, op, now) ==> x == y)
  {
    hide S256, WellFormed, Purged;
    if op.HasNonce? {
      return;
    }
    hide Ideal;
    PurgedRelated(lazy, ideal, before, now);
    AnswersAgree(sha, Purged(lazy, now), ideal, op, now);
    assert Step(sha, lazy, op, now) == Ideal(sha, Purged(lazy, now), op, now);
  }

  type Trace = seq<(int, Op)>

  predicate NondecreasingFrom(before: int, trace: Trace)
    decreases |trace|
  {
    |trace| > 0 ==> before <= trace[0].0 && NondecreasingFrom(trace[0].0, trace[1..])
  }

  function Outcomes(sha: Sha, s: State, trace: Trace): seq<Outcome>
    decreases |trace|
  {
    if |trace| == 0 then []
    else
      var (s1, o) := Step(sha, s, trace[0].1, trace[0].0);
      [o] + Outcomes(sha, s1, trace[1..])
  }

  function IdealOutcomes(sha: Sha, s: State, trace: Trace): seq<Outcome>
    decreases |trace|
  {
    if |trace| == 0 then []
    else
      var (s1, o) := Ideal(sha, s, trace[0].1, trace[0].0);
      [o] + IdealOutcomes(sha, s1, trace[1..])
  }

  /** The ideal run meets a reused value, or, if those count too, a malformed verifier for a stale code. */
  predicate DiffersIn(sha: Sha, ideal: State, trace: Trace, malformed: bool)
    decreases |trace|
  {
    |trace| > 0 &&
    var (now, op) := trace[0];
    || Reuses(ideal, op, now) || (malformed && Malformed(ideal, op, now))
    || DiffersIn(sha, Ideal(sha, ideal, op, now).0, trace[1..], malformed)
  }

  /** The lazy store answers as the ideal one over exactly the runs that never meet such an operation. */
  lemma {:induction false} RefineRun(sha: Sha, lazy: State, ideal: State, before: int, trace: Trace)
    requires Related(lazy, ideal, before) && NondecreasingFrom(before, trace)
    ensures Outcomes(sha, lazy, trace) == IdealOutcomes(sha, ideal, trace) <==> !DiffersIn(sha, ideal, trace, true)
    decreases |trace|
  {
    hide Step, Ideal, Related, Reuses, Malformed;
    if |trace| > 0 {
      var (now, op) := trace[0];
      var (lazy1, x) := Step(sha, lazy, op, now);
      var (ideal1, y) := Ideal(sha, ideal, op, now);
      RefineStep(sha, lazy, ideal, op, before, now);
      var xs, ys := Outcomes(sha, lazy1, trace[1..]), IdealOutcomes(sha, ideal1, trace[1..]);
      assert ([x] + xs)[0] == x && ([y] + ys)[0] == y && ([x] + xs)[1..] == xs && ([y] + ys)[1..] == ys;
      if !Reuses(ideal, op, now) && !Malformed(ideal, op, now) {
        RefineRun(sha, lazy1, ideal1, now, trace[1..]);
      }
    }
  }

  /** The token endpoint turns both errors into invalid_grant. */
  function AsGrant(os: seq<Outcome>): seq<Outcome> {
    seq(|os|, i requires 0 <= i < |os| => if os[i].Refused? then Refused(PermissionError) else os[i])
  }

  lemma AsGrantCons(o: Outcome, os: seq<Outcome>)
    ensures AsGrant([o] + os) == [if o.Refused? then Refused(PermissionError) else o] + AsGrant(os)
  {
  }

  /** So to its clients the two stores differ only where a save reuses the value of a code that expired unredeemed. */
  lemma {:induction false} RefineGrants(sha: Sha, lazy: State, ideal: State, before: int, trace: Trace)
    requires Related(lazy, ideal, before) && NondecreasingFrom(before, trace)
    ensures AsGrant(Outcomes(sha, lazy, trace)) == AsGrant(IdealOutcomes(sha, ideal, trace)) <==>
              !DiffersIn(sha, ideal, trace, false)
    decreases |trace|
  {
    hide Step, Ideal, Related, Reuses, Malformed, AsGrant;
    if |trace| > 0 {
      var (now, op) := trace[0];
      var (lazy1, x) := Step(sha, lazy, op, now);
      var (ideal1, y) := Ideal(sha, ideal, op, now);
      RefineStep(sha, lazy, ideal, op, before, now);
      var xs, ys := Outcomes(sha, lazy1, trace[1..]), IdealOutcomes(sha, ideal1, trace[1..]);
      AsGrantCons(x, xs);
      AsGrantCons(y, ys);
      var x1 := if x.Refused? then Refused(PermissionError) else x;
      var y1 := if y.Refused? then Refused(PermissionError) else y;
      var gs, hs := AsGrant(xs), AsGrant(ys);
      assert ([x1] + gs)[0] == x1 && ([y1] + hs)[0] == y1 && ([x1] + gs)[1..] == gs && ([y1] + hs)[1..] == hs;
      if !Reuses(ideal, op, now) {
        RefineGrants(sha, lazy1, ideal1, now, trace[1..]);
      }
    }
  }

  // ---- What a refused operation leaves behind ----

  lemma PurgedTwice(s: State, now: int, at: int)
    requires now <= at
    ensures Purged(Purged(s, now), at) == Purged(s, at)
  {
    assert Purged(Purged(s, now), at).codes == Purged(s, at).codes;
    assert Purged(Purged(s, now), at).nonces == Purged(s, at).nonces;
  }

  /** Nothing a later operation can see tells the two states apart. */
  ghost predicate SameFrom(a: State, b: State, at: int) {
    Purged(a, at) == Purged(b, at)
  }

  lemma SameLater(a: State, b: State, now: int, at: int)
    requires SameFrom(a, b, now) && now <= at
    ensures SameFrom(a, b, at)
  {
    hide Purged;
    PurgedTwice(a, now, at);
    PurgedTwice(b, now, at);
  }

  /** Such states answer alike and stay alike. */
  lemma SameSteps(sha: Sha, a: State, b: State, op: Op, now: int)
    requires SameFrom(a, b, now)
    ensures Step(sha, a, op, now).1 == Step(sha, b, op, now).1
    ensures SameFrom(Step(sha, a, op, now).0, Step(sha, b, op, now).0, now)
  {
    hide S256, WellFormed;
    if op.HasNonce? {
      var k := (op.clientId, op.nonce);
      assert k in Purged(a, now).nonces <==> k in Purged(b, now).nonces;
      assert Purged(Step(sha, a, op, now).0, now) == Purged(a, now) by { QueryKeeps(sha, a, op, now); }
      assert Purged(Step(sha, b, op, now).0, now) == Purged(b, now) by { QueryKeeps(sha, b, op, now); }
    } else {
      hide Purged, Ideal;
    }
  }

  lemma QueryKeeps(sha: Sha, s: State, op: Op, now: int)
    requires op.HasNonce?
    ensures Purged(Step(sha, s, op, now).0, now) == Purged(s, now)
  {
    assert Purged(Step(sha, s, op, now).0, now).nonces == Purged(s, now).nonces;
  }

  /** An operation that neither saved nor consumed leaves a state nothing later tells from the old one. */
  lemma FailureChangesNothing(sha: Sha, s: State, op: Op, now: int)
    requires !Step(sha, s, op, now).1.Saved? && !Step(sha, s, op, now).1.Consumed?
    ensures SameFrom(Step(sha, s, op, now).0, s, now)
  {
    hide S256, WellFormed;
    if op.HasNonce? {
      QueryKeeps(sha, s, op, now);
    } else {
      hide Purged;
      PurgedTwice(s, now, now);
    }
  }

  lemma {:induction false} SameRuns(sha: Sha, a: State, b: State, now: int, later: Trace)
    requires SameFrom(a, b, now) && NondecreasingFrom(now, later)
    ensures Outcomes(sha, a, later) == Outcomes(sha, b, later)
    decreases |later|
  {
    hide SameFrom, Step;
    if |later| > 0 {
      var (at, op) := later[0];
      SameLater(a, b, now, at);
      SameSteps(sha, a, b, op, at);
      SameRuns(sha, Step(sha, a, op, at).0, Step(sha, b, op, at).0, at, later[1..]);
    }
  }

  /** An operation that neither saved nor consumed can be left out: every later run has the same outcomes without it. */
  lemma FailureIsInvisible(sha: Sha, s: State, op: Op, now: int, later: Trace)
    requires !Step(sha, s, op, now).1.Saved? && !Step(sha, s, op, now).1.Consumed?
    requires NondecreasingFrom(now, later)
    ensures Outcomes(sha, Step(sha, s, op, now).0, later) == Outcomes(sha, s, later)
  {
    hide Step, SameFrom;
    FailureChangesNothing(sha, s, op, now);
    SameRuns(sha, Step(sha, s, op, now).0, s, now, later);
  }

  // ---- From an empty store ----

  /** A store that holds nothing yet; `spent` are code objects redeemed elsewhere. */
  function EmptyStore(spent: set<AuthorizationCode>): State {
    State(map[], spent, map[])
  }

  lemma EmptyRelated(spent: set<AuthorizationCode>, now: int)
    ensures Related(EmptyStore(spent), EmptyStore(spent), now)
  {
  }

  /** The one code a store holds after a first save at time 0. */
  function OneCode(code: AuthorizationCode): State {
    State(map[code.value := code], {}, map[(code.clientId, code.nonce) := Window(code, 0)])
  }

  lemma FirstSave(sha: Sha, code: AuthorizationCode)
    ensures Step(sha, EmptyStore({}), Save(code), 0) == (OneCode(code), Saved)
    ensures Ideal(sha, EmptyStore({}), Save(code), 0) == (OneCode(code), Saved)
  {
    assert Purged(EmptyStore({}), 0) == EmptyStore({});
  }

  /** Once the window is over the code has expired, and the purge forgets it. */
  lemma Forgotten(code: AuthorizationCode)
    ensures Stale(OneCode(code), code.value, Window(code, 0))
    ensures Purged(OneCode(code), Window(code, 0)).codes == map[]
  {
  }

  /** The outcomes of two operations, one after the other. */
  lemma TwoSteps(sha: Sha, s: State, first: (int, Op), second: (int, Op))
    ensures var (s1, o1) := Step(sha, s, first.1, first.0);
            Outcomes(sha, s, [first, second]) == [o1, Step(sha, s1, second.1, second.0).1]
    ensures var (s1, o1) := Ideal(sha, s, first.1, first.0);
            IdealOutcomes(sha, s, [first, second]) == [o1, Ideal(sha, s1, second.1, second.0).1]
  {
    hide Step, Ideal;
    var (s1, _) := Step(sha, s, first.1, first.0);
    var (i1, _) := Ideal(sha, s, first.1, first.0);
    assert [first, second][1..] == [second] && [second][1..] == [];
    assert Outcomes(sha, s1, [second]) == [Step(sha, s1, second.1, second.0).1];
    assert IdealOutcomes(sha, i1, [second]) == [Ideal(sha, i1, second.1, second.0).1];
  }

  lemma SecondSave(sha: Sha, code: AuthorizationCode)
    ensures Step(sha, OneCode(code), Save(code), Window(code, 0)).1 == Saved
    ensures Ideal(sha, OneCode(code), Save(code), Window(code, 0)).1 == Refused(ProtocolError)
  {
    hide Purged;
    Forgotten(code);
  }

  /** A value used again after its code expired: the lazy store has forgotten it and saves it. */
  lemma ReuseDiffers(sha: Sha, code: AuthorizationCode)
    ensures var trace := [(0, Save(code)), (Window(code, 0), Save(code))];
            && Outcomes(sha, EmptyStore({}), trace) == [Saved, Saved]
            && IdealOutcomes(sha, EmptyStore({}), trace) == [Saved, Refused(ProtocolError)]
  {
    hide Step, Ideal, Outcomes, IdealOutcomes, OneCode;
    FirstSave(sha, code);
    SecondSave(sha, code);
    TwoSteps(sha, EmptyStore({}), (0, Save(code)), (Window(code, 0), Save(code)));
  }

  lemma LateConsume(sha: Sha, code: AuthorizationCode)
    ensures var op := Consume(code.value, code.clientId, code.redirectUri, "");
            && Step(sha, OneCode(code), op, Window(code, 0)).1 == Refused(PermissionError)
            && Ideal(sha, OneCode(code), op, Window(code, 0)).1 == Refused(ProtocolError)
  {
    hide Purged, S256;
    Forgotten(code);
    assert !WellFormed("");
  }

  /** A malformed verifier for a code that expired: both refuse it, the lazy store for not knowing the code. */
  lemma MalformedDiffers(sha: Sha, code: AuthorizationCode)
    ensures var late := (Window(code, 0), Consume(code.value, code.clientId, code.redirectUri, ""));
            && Outcomes(sha, EmptyStore({}), [(0, Save(code)), late]) == [Saved, Refused(PermissionError)]
            && IdealOutcomes(sha, EmptyStore({}), [(0, Save(code)), late]) == [Saved, Refused(ProtocolError)]
  {
    hide Step, Ideal, Outcomes, IdealOutcomes, OneCode;
    var late := (Window(code, 0), Consume(code.value, code.clientId, code.redirectUri, ""));
    FirstSave(sha, code);
    LateConsume(sha, code);
    TwoSteps(sha, EmptyStore({}), (0, Save(code)), late);
  }
}
