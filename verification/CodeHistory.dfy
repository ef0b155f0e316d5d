/**
  What the authorization-code store answers, read off the history of operations: which code a consume
  returns, that no code object is ever redeemed twice, and when a nonce counts as used.
*/
module CodeHistory {
  import opened Wrappers
  import opened AuthorizationCodes

  /** The store after a run; `spent` are the code objects already redeemed when it started empty. */
  function After(sha: Sha, spent: set<AuthorizationCode>, trace: Trace): State {
    if |trace| == 0 then EmptyStore(spent)
    else
      var (now, op) := trace[|trace| - 1];
      Step(sha, After(sha, spent, trace[..|trace| - 1]), op, now).0
  }

  function OutcomeAt(sha: Sha, spent: set<AuthorizationCode>, trace: Trace, i: nat): Outcome
    requires i < |trace|
  {
    Step(sha, After(sha, spent, trace[..i]), trace[i].1, trace[i].0).1
  }

  predicate SavesAt(sha: Sha, spent: set<AuthorizationCode>, trace: Trace, j: nat, code: AuthorizationCode) {
    j < |trace| && trace[j].1 == Save(code) && OutcomeAt(sha, spent, trace, j) == Saved
  }

  predicate ConsumesAt(sha: Sha, spent: set<AuthorizationCode>, trace: Trace, j: nat, code: AuthorizationCode) {
    j < |trace| && OutcomeAt(sha, spent, trace, j) == Consumed(code)
  }

  lemma AfterStep(sha: Sha, spent: set<AuthorizationCode>, trace: Trace, n: nat)
    requires n < |trace|
    ensures After(sha, spent, trace[..n + 1]) == Step(sha, After(sha, spent, trace[..n]), trace[n].1, trace[n].0).0
  {
    assert trace[..n + 1][..n] == trace[..n];
  }

  // ---- Codes ----

  /** What one step does to the stored and the redeemed codes. */
  lemma StepCodes(sha: Sha, s: State, op: Op, now: int)
    ensures var (s', o) := Step(sha, s, op, now);
            && s'.redeemed == s.redeemed + (if o.Consumed? then {o.code} else {})
            && (o.Consumed? ==>
                  && op.Consume? && op.value in s.codes && s.codes[op.value] == o.code && o.code !in s.redeemed
                  && WellFormed(op.verifier) && o.code.Accepts(sha, op.clientId, op.redirectUri, op.verifier, now))
            && (o.Saved? ==> op.Save? && op.code.value in s'.codes && s'.codes[op.code.value] == op.code)
            && (forall v | v in s'.codes ::
                  (v in s.codes && s'.codes[v] == s.codes[v])
                      || (o.Saved? && v == op.code.value && s'.codes[v] == op.code))
            && (forall v | v in s.codes && !Stale(s, v, now) && !(o.Consumed? && v == op.value) ::
                  v in s'.codes && s'.codes[v] == s.codes[v])
  {
    hide S256, WellFormed;
  }

  lemma ConsumeAnswer(sha: Sha, s: State, op: Op, now: int)
    requires op.Consume? && op.value in s.codes && s.codes[op.value] !in s.redeemed && WellFormed(op.verifier)
    requires s.codes[op.value].Accepts(sha, op.clientId, op.redirectUri, op.verifier, now)
    ensures Step(sha, s, op, now).1 == Consumed(s.codes[op.value])
  {
    hide S256, WellFormed;
  }

  lemma {:induction false} RedeemedFromHistory(sha: Sha, spent: set<AuthorizationCode>, trace: Trace, n: nat,
                                               code: AuthorizationCode)
    requires n <= |trace|
    ensures code in After(sha, spent, trace[..n]).redeemed <==> code in spent || exists k | 0 <= k < n ::
              ConsumesAt(sha, spent, trace, k, code)
  {
    hide Step;
    if n > 0 {
      RedeemedFromHistory(sha, spent, trace, n - 1, code);
      AfterStep(sha, spent, trace, n - 1);
      StepCodes(sha, After(sha, spent, trace[..n - 1]), trace[n - 1].1, trace[n - 1].0);
      var o := OutcomeAt(sha, spent, trace, n - 1);
      assert o == Consumed(code) <==> ConsumesAt(sha, spent, trace, n - 1, code);
    }
  }

  lemma {:induction false} StoredWasSaved(sha: Sha, spent: set<AuthorizationCode>, trace: Trace, n: nat, value: string)
    returns (j: nat)
    requires n <= |trace| && value in After(sha, spent, trace[..n]).codes
    ensures var code := After(sha, spent, trace[..n]).codes[value];
            j < n && SavesAt(sha, spent, trace, j, code) && code.value == value
  {
    hide Step;
    AfterStep(sha, spent, trace, n - 1);
    StepCodes(sha, After(sha, spent, trace[..n - 1]), trace[n - 1].1, trace[n - 1].0);
    var code := After(sha, spent, trace[..n]).codes[value];
    if OutcomeAt(sha, spent, trace, n - 1).Saved? && trace[n - 1].1.code == code && code.value == value {
      j := n - 1;
    } else {
      j := StoredWasSaved(sha, spent, trace, n - 1, value);
    }
  }

  /** A saved code stays until it is redeemed or expires, whatever else is saved. */
  lemma {:induction false} SavedStays(sha: Sha, spent: set<AuthorizationCode>, trace: Trace, n: nat, j: nat,
                                      code: AuthorizationCode)
    requires j < n <= |trace| && SavesAt(sha, spent, trace, j, code)
    requires code !in After(sha, spent, trace[..n]).redeemed
    requires forall k | j <= k < n :: trace[k].0 < code.expiresAt
    ensures code.value in After(sha, spent, trace[..n]).codes && After(sha, spent, trace[..n]).codes[code.value] == code
  {
    hide Step;
    var s := After(sha, spent, trace[..n - 1]);
    AfterStep(sha, spent, trace, n - 1);
    StepCodes(sha, s, trace[n - 1].1, trace[n - 1].0);
    if j < n - 1 {
      SavedStays(sha, spent, trace, n - 1, j, code);
      assert !Stale(s, code.value, trace[n - 1].0);
    }
  }

  /**
    A consume returns a code exactly when that object was saved under the value, was never redeemed
    before, is unexpired, and client, redirect URI and verifier match.
  */
  lemma ConsumeFromHistory(sha: Sha, spent: set<AuthorizationCode>, trace: Trace, i: nat, code: AuthorizationCode)
    requires Nondecreasing(trace) && i < |trace| && trace[i].1.Consume?
    ensures var (now, op) := trace[i];
            OutcomeAt(sha, spent, trace, i) == Consumed(code) <==>
              && (exists j | 0 <= j < i :: SavesAt(sha, spent, trace, j, code)) && code.value == op.value
              && code !in spent && (forall k | 0 <= k < i :: !ConsumesAt(sha, spent, trace, k, code))
              && WellFormed(op.verifier) && code.Accepts(sha, op.clientId, op.redirectUri, op.verifier, now)
  {
    hide Step, After, SavesAt;
    var (now, op) := trace[i];
    var s := After(sha, spent, trace[..i]);
    StepCodes(sha, s, op, now);
    RedeemedFromHistory(sha, spent, trace, i, code);
    if OutcomeAt(sha, spent, trace, i) == Consumed(code) {
      var j := StoredWasSaved(sha, spent, trace, i, op.value);
    }
    if j: nat :| j < i && SavesAt(sha, spent, trace, j, code) {
      if && code.value == op.value && code !in s.redeemed && WellFormed(op.verifier)
         && code.Accepts(sha, op.clientId, op.redirectUri, op.verifier, now)
      {
        SavedStays(sha, spent, trace, i, j, code);
        ConsumeAnswer(sha, s, op, now);
      }
    }
  }

  lemma GetAnswer(sha: Sha, s: State, op: Op, now: int)
    requires op.Get?
    ensures var o := Step(sha, s, op, now).1;
            && o.Got?
            && (o.found.Some? <==>
                  && op.value in s.codes && s.codes[op.value] !in s.redeemed && now < s.codes[op.value].expiresAt
                  && op.clientId == s.codes[op.value].clientId)
            && (o.found.Some? ==> o.found.value == s.codes[op.value])
  {
  }

  /**
    A get returns a code exactly when that object was saved under the value, was never redeemed before,
    is unexpired, and belongs to the client that asks; it returns nothing otherwise.
  */
  lemma GetFromHistory(sha: Sha, spent: set<AuthorizationCode>, trace: Trace, i: nat, code: AuthorizationCode)
    requires Nondecreasing(trace) && i < |trace| && trace[i].1.Get?
    ensures OutcomeAt(sha, spent, trace, i).Got?
    ensures var (now, op) := trace[i];
            OutcomeAt(sha, spent, trace, i) == Got(Some(code)) <==>
              && (exists j | 0 <= j < i :: SavesAt(sha, spent, trace, j, code)) && code.value == op.value
              && code !in spent && (forall k | 0 <= k < i :: !ConsumesAt(sha, spent, trace, k, code))
              && now < code.expiresAt && code.clientId == op.clientId
  {
    hide Step, After, SavesAt;
    var (now, op) := trace[i];
    var s := After(sha, spent, trace[..i]);
    GetAnswer(sha, s, op, now);
    RedeemedFromHistory(sha, spent, trace, i, code);
    if OutcomeAt(sha, spent, trace, i) == Got(Some(code)) {
      var j := StoredWasSaved(sha, spent, trace, i, op.value);
    }
    if j: nat :| j < i && SavesAt(sha, spent, trace, j, code) {
      if code.value == op.value && code !in s.redeemed && now < code.expiresAt {
        SavedStays(sha, spent, trace, i, j, code);
      }
    }
  }

  // ---- When a save is refused ----

  /** A code saved under the value that the store still holds: not consumed since, and unexpired or redeemed before. */
  ghost predicate HeldAt(sha: Sha, spent: set<AuthorizationCode>, trace: Trace, n: nat, now: int, j: nat,
                         code: AuthorizationCode)
  {
    && j < n <= |trace| && SavesAt(sha, spent, trace, j, code)
    && (forall k | j < k < n :: !ConsumesAt(sha, spent, trace, k, code))
    && (now < code.expiresAt || code in spent || exists k | 0 <= k < j :: ConsumesAt(sha, spent, trace, k, code))
  }

  /** No object is stored under two values. */
  lemma {:induction false} StoredUnderItsValue(sha: Sha, spent: set<AuthorizationCode>, trace: Trace, n: nat, v: string)
    requires n <= |trace| && v in After(sha, spent, trace[..n]).codes
    ensures After(sha, spent, trace[..n]).codes[v].value == v
  {
    var j := StoredWasSaved(sha, spent, trace, n, v);
  }

  /** What is still stored was saved and not consumed since; once it was saved redeemed, it never goes. */
  lemma {:induction false} StoredIsHeld(sha: Sha, spent: set<AuthorizationCode>, trace: Trace, n: nat, v: string)
    returns (j: nat)
    requires n <= |trace| && v in After(sha, spent, trace[..n]).codes
    ensures var code := After(sha, spent, trace[..n]).codes[v];
            && j < n && SavesAt(sha, spent, trace, j, code) && code.value == v
            && (forall k | j < k < n :: !ConsumesAt(sha, spent, trace, k, code))
            && (code in After(sha, spent, trace[..n]).redeemed ==> code in After(sha, spent, trace[..j]).redeemed)
  {
    hide Step;
    AfterStep(sha, spent, trace, n - 1);
    var s := After(sha, spent, trace[..n - 1]);
    StepCodes(sha, s, trace[n - 1].1, trace[n - 1].0);
    var code := After(sha, spent, trace[..n]).codes[v];
    if SavesAt(sha, spent, trace, n - 1, code) && code.value == v {
      j := n - 1;
    } else {
      j := StoredIsHeld(sha, spent, trace, n - 1, v);
      ConsumedLeaves(sha, s, trace[n - 1].1, trace[n - 1].0);
      if ConsumesAt(sha, spent, trace, n - 1, code) {
        StoredUnderItsValue(sha, spent, trace, n - 1, trace[n - 1].1.value);
      }
    }
  }

  lemma ConsumedLeaves(sha: Sha, s: State, op: Op, now: int)
    ensures var (s', o) := Step(sha, s, op, now);
            o.Consumed? ==> op.Consume? && op.value !in s'.codes && op.value in s.codes && s.codes[op.value] == o.code
  {
    hide S256, WellFormed;
  }

  /** And the other way round: a held code is stored. */
  lemma {:induction false} HeldIsStored(sha: Sha, spent: set<AuthorizationCode>, trace: Trace, n: nat, now: int, j: nat,
                                        code: AuthorizationCode)
    requires HeldAt(sha, spent, trace, n, now, j, code) && Nondecreasing(trace) && trace[n - 1].0 <= now
    ensures code.value in After(sha, spent, trace[..n]).codes && After(sha, spent, trace[..n]).codes[code.value] == code
    decreases n
  {
    hide Step;
    var s := After(sha, spent, trace[..n - 1]);
    AfterStep(sha, spent, trace, n - 1);
    StepCodes(sha, s, trace[n - 1].1, trace[n - 1].0);
    if j < n - 1 {
      assert trace[n - 2].0 <= trace[n - 1].0;
      HeldIsStored(sha, spent, trace, n - 1, trace[n - 1].0, j, code);
      RedeemedFromHistory(sha, spent, trace, n - 1, code);
      assert !Stale(s, code.value, trace[n - 1].0);
      assert !ConsumesAt(sha, spent, trace, n - 1, code);
    }
  }

  lemma SaveAnswer(sha: Sha, s: State, code: AuthorizationCode, now: int)
    ensures var o := Step(sha, s, Save(code), now).1;
            && (o == Saved || o == Refused(ProtocolError))
            && (o != Saved <==>
                  && code.value in s.codes
                  && (now < s.codes[code.value].expiresAt || s.codes[code.value] in s.redeemed))
  {
  }

  /**
    A save is refused exactly when a code is held under its value: saved before, not consumed since,
    and still unexpired, unless it was saved redeemed, for then it is never purged.
  */
  lemma SaveFromHistory(sha: Sha, spent: set<AuthorizationCode>, trace: Trace, i: nat, code: AuthorizationCode)
    requires Nondecreasing(trace) && i < |trace| && trace[i].1 == Save(code)
    ensures OutcomeAt(sha, spent, trace, i) ==
            if exists j, held :: HeldAt(sha, spent, trace, i, trace[i].0, j, held) && held.value == code.value
            then Refused(ProtocolError) else Saved
  {
    hide Step, SavesAt, ConsumesAt, After;
    var now := trace[i].0;
    var s := After(sha, spent, trace[..i]);
    SaveAnswer(sha, s, code, now);
    if code.value in s.codes {
      var j := StoredIsHeld(sha, spent, trace, i, code.value);
      RedeemedFromHistory(sha, spent, trace, j, s.codes[code.value]);
      if now < s.codes[code.value].expiresAt || s.codes[code.value] in s.redeemed {
        assert HeldAt(sha, spent, trace, i, now, j, s.codes[code.value]);
      }
    }
    if j, held :| HeldAt(sha, spent, trace, i, now, j, held) && held.value == code.value {
      HeldIsStored(sha, spent, trace, i, now, j, held);
      RedeemedFromHistory(sha, spent, trace, i, held);
    }
  }

  /** No code object is redeemed twice in any run, even if it is saved again in between. */
  lemma RedeemedOnce(sha: Sha, spent: set<AuthorizationCode>, trace: Trace, a: nat, b: nat, code: AuthorizationCode)
    requires a < b && ConsumesAt(sha, spent, trace, a, code)
    ensures !ConsumesAt(sha, spent, trace, b, code)
  {
    hide Step, After;
    if ConsumesAt(sha, spent, trace, b, code) {
      StepCodes(sha, After(sha, spent, trace[..b]), trace[b].1, trace[b].0);
      RedeemedFromHistory(sha, spent, trace, b, code);
    }
  }

  // ---- Nonces ----

  predicate SavesNonceAt(sha: Sha, spent: set<AuthorizationCode>, trace: Trace, j: nat, k: NonceKey) {
    j < |trace| && trace[j].1.Save? && (trace[j].1.code.clientId, trace[j].1.code.nonce) == k
    && OutcomeAt(sha, spent, trace, j) == Saved
  }

  function WindowAt(trace: Trace, j: nat): int
    requires j < |trace| && trace[j].1.Save?
  {
    Window(trace[j].1.code, trace[j].0)
  }

  ghost predicate LastSave(sha: Sha, spent: set<AuthorizationCode>, trace: Trace, n: nat, k: NonceKey, j: nat) {
    && j < n <= |trace| && SavesNonceAt(sha, spent, trace, j, k)
    && forall i | j < i < n :: !SavesNonceAt(sha, spent, trace, i, k)
  }

  /** What one step does to the nonce table. */
  lemma StepNonces(sha: Sha, s: State, op: Op, now: int, k: NonceKey)
    ensures var (s', o) := Step(sha, s, op, now);
            && (op.Save? && o == Saved && (op.code.clientId, op.code.nonce) == k ==>
                  k in s'.nonces && s'.nonces[k] == Window(op.code, now))
            && (!(op.Save? && o == Saved && (op.code.clientId, op.code.nonce) == k) ==>
                  && (k in s'.nonces ==> k in s.nonces && s'.nonces[k] == s.nonces[k])
                  && (k in s.nonces && now < s.nonces[k] ==> k in s'.nonces))
  {
    hide S256, WellFormed;
  }

  lemma {:induction false} NonceStored(sha: Sha, spent: set<AuthorizationCode>, trace: Trace, n: nat, k: NonceKey)
    returns (j: nat)
    requires n <= |trace| && k in After(sha, spent, trace[..n]).nonces
    ensures LastSave(sha, spent, trace, n, k, j) && After(sha, spent, trace[..n]).nonces[k] == WindowAt(trace, j)
  {
    hide Step;
    AfterStep(sha, spent, trace, n - 1);
    StepNonces(sha, After(sha, spent, trace[..n - 1]), trace[n - 1].1, trace[n - 1].0, k);
    if SavesNonceAt(sha, spent, trace, n - 1, k) {
      j := n - 1;
    } else {
      j := NonceStored(sha, spent, trace, n - 1, k);
    }
  }

  lemma {:induction false} NonceStays(sha: Sha, spent: set<AuthorizationCode>, trace: Trace, n: nat, k: NonceKey,
                                      j: nat)
    requires LastSave(sha, spent, trace, n, k, j)
    requires forall i | j <= i < n :: trace[i].0 < WindowAt(trace, j)
    ensures k in After(sha, spent, trace[..n]).nonces && After(sha, spent, trace[..n]).nonces[k] == WindowAt(trace, j)
  {
    hide Step;
    AfterStep(sha, spent, trace, n - 1);
    StepNonces(sha, After(sha, spent, trace[..n - 1]), trace[n - 1].1, trace[n - 1].0, k);
    if j < n - 1 {
      NonceStays(sha, spent, trace, n - 1, k, j);
      assert !SavesNonceAt(sha, spent, trace, n - 1, k);
    }
  }

  /** A nonce counts as used exactly within the window of the last code saved with it, redeemed or not. */
  lemma NonceFromHistory(sha: Sha, spent: set<AuthorizationCode>, trace: Trace, i: nat, k: NonceKey)
    requires Nondecreasing(trace) && i < |trace| && trace[i].1 == HasNonce(k.0, k.1)
    ensures OutcomeAt(sha, spent, trace, i)
              == Nonce(exists j :: LastSave(sha, spent, trace, i, k, j) && trace[i].0 < WindowAt(trace, j))
  {
    hide After;
    var (now, op) := trace[i];
    var s := After(sha, spent, trace[..i]);
    if k in s.nonces {
      var j := NonceStored(sha, spent, trace, i, k);
    }
    forall j | LastSave(sha, spent, trace, i, k, j) && now < WindowAt(trace, j)
      ensures k in s.nonces && s.nonces[k] == WindowAt(trace, j)
    {
      NonceStays(sha, spent, trace, i, k, j);
    }
  }

  /** Of two codes saved for one nonce, the later one expires no earlier. */
  ghost predicate ExpiriesInOrder(sha: Sha, spent: set<AuthorizationCode>, trace: Trace, k: NonceKey) {
    forall a: nat, b: nat | a < b && SavesNonceAt(sha, spent, trace, a, k) && SavesNonceAt(sha, spent, trace, b, k) ::
      trace[a].1.code.expiresAt <= trace[b].1.code.expiresAt
  }

  lemma {:induction false} LaterSave(sha: Sha, spent: set<AuthorizationCode>, trace: Trace, n: nat, k: NonceKey, a: nat)
    returns (j: nat)
    requires a < n <= |trace| && SavesNonceAt(sha, spent, trace, a, k)
    ensures a <= j && LastSave(sha, spent, trace, n, k, j)
  {
    hide SavesNonceAt;
    if SavesNonceAt(sha, spent, trace, n - 1, k) {
      j := n - 1;
    } else {
      j := LaterSave(sha, spent, trace, n - 1, k, a);
    }
  }

  /**
    Then overwriting the window loses nothing: a nonce counts as used exactly within the window of any
    code saved with it.
  */
  lemma NonceFromAnySave(sha: Sha, spent: set<AuthorizationCode>, trace: Trace, i: nat, k: NonceKey)
    requires Nondecreasing(trace) && i < |trace| && trace[i].1 == HasNonce(k.0, k.1)
               && ExpiriesInOrder(sha, spent, trace, k)
    ensures OutcomeAt(sha, spent, trace, i) ==
            Nonce(exists j | 0 <= j < i :: SavesNonceAt(sha, spent, trace, j, k) && trace[i].0 < WindowAt(trace, j))
  {
    hide OutcomeAt;
    NonceFromHistory(sha, spent, trace, i, k);
    if a: nat :| a < i && SavesNonceAt(sha, spent, trace, a, k) && trace[i].0 < WindowAt(trace, a) {
      var j := LaterSave(sha, spent, trace, i, k, a);
      assert a == j || trace[a].1.code.expiresAt <= trace[j].1.code.expiresAt;
      assert trace[i].0 < WindowAt(trace, j);
    }
  }

  /** Every code was issued with the provider's one lifetime, at the clock reading given for it. */
  predicate FixedLifetime(trace: Trace, issued: seq<int>, life: int) {
    && |issued| == |trace|
    && forall j | 0 <= j < |trace| && trace[j].1.Save? :: trace[j].1.code.expiresAt == issued[j] + life
  }

  /** Codes are saved in the order they were issued in, whatever time passes between the two. */
  predicate SavedInIssueOrder(trace: Trace, issued: seq<int>)
    requires |issued| == |trace|
  {
    forall a, b | 0 <= a < b < |trace| && trace[a].1.Save? && trace[b].1.Save? :: issued[a] <= issued[b]
  }

  lemma FixedLifetimeInOrder(sha: Sha, spent: set<AuthorizationCode>, trace: Trace, issued: seq<int>, life: int,
                             k: NonceKey)
    requires FixedLifetime(trace, issued, life) && SavedInIssueOrder(trace, issued)
    ensures ExpiriesInOrder(sha, spent, trace, k)
  {
    hide OutcomeAt;
  }

  /** With one fixed lifetime a nonce counts as used exactly within the window of some code saved with it. */
  lemma NonceUnderFixedLifetime(sha: Sha, spent: set<AuthorizationCode>, trace: Trace, issued: seq<int>, life: int,
                                i: nat, k: NonceKey)
    requires Nondecreasing(trace) && FixedLifetime(trace, issued, life) && SavedInIssueOrder(trace, issued)
    requires i < |trace| && trace[i].1 == HasNonce(k.0, k.1)
    ensures OutcomeAt(sha, spent, trace, i) ==
            Nonce(exists j | 0 <= j < i :: SavesNonceAt(sha, spent, trace, j, k) && trace[i].0 < WindowAt(trace, j))
  {
    hide OutcomeAt, ExpiriesInOrder;
    FixedLifetimeInOrder(sha, spent, trace, issued, life, k);
    NonceFromAnySave(sha, spent, trace, i, k);
  }

  /**
    One overwrite keeps every used nonce used, at every later time, exactly when the new window does not
    end earlier.
  */
  lemma OverwriteHarmless(sha: Sha, s: State, code: AuthorizationCode, now: int)
    requires Step(sha, s, Save(code), now).1 == Saved
    ensures var s' := Step(sha, s, Save(code), now).0;
            var k := (code.clientId, code.nonce);
            (forall t | now <= t :: Ideal(sha, s', HasNonce(k.0, k.1), t).1 ==
                                    Nonce(Ideal(sha, s, HasNonce(k.0, k.1), t).1.seen || t < Window(code, now)))
            <==> (k in s.nonces ==> s.nonces[k] <= Window(code, now))
  {
    var s' := Step(sha, s, Save(code), now).0;
    var k := (code.clientId, code.nonce);
    var w := Window(code, now);
    assert k in s'.nonces && s'.nonces[k] == w;
    if k in s.nonces && w < s.nonces[k] {
      assert Ideal(sha, s, HasNonce(k.0, k.1), w).1 == Nonce(true)
          && Ideal(sha, s', HasNonce(k.0, k.1), w).1 == Nonce(false);
    }
  }

  /**
    From an empty store: a second code for the nonce that expires earlier, and the nonce is forgotten
    within the first one's window.
  */
  lemma ShorterWindowForgets(sha: Sha, a: AuthorizationCode, b: AuthorizationCode, now: int)
    requires a.value != b.value && a.clientId == b.clientId && a.nonce == b.nonce && Window(b, now) < Window(a, now)
    ensures var trace := [(now, Save(a)), (now, Save(b)), (Window(b, now), HasNonce(a.clientId, a.nonce))];
            && SavesNonceAt(sha, {}, trace, 0, (a.clientId, a.nonce)) && trace[2].0 < WindowAt(trace, 0)
            && OutcomeAt(sha, {}, trace, 2) == Nonce(false)
  {
    var k := (a.clientId, a.nonce);
    var trace := [(now, Save(a)), (now, Save(b)), (Window(b, now), HasNonce(a.clientId, a.nonce))];
    assert trace[..0] == [] && trace[..2][..1] == trace[..1] && trace[..1][..0] == [];
    assert Purged(EmptyStore({}), now) == EmptyStore({});
    assert After(sha, {}, trace[..1]).codes == map[a.value := a];
    var s2 := After(sha, {}, trace[..2]);
    assert s2 == Step(sha, After(sha, {}, trace[..1]), trace[1].1, now).0;
    assert k in s2.nonces && s2.nonces[k] == Window(b, now);
  }

  /** One lifetime is not enough: two codes saved in the opposite order of issue shorten the window too. */
  lemma OutOfOrderForgets(sha: Sha, a: AuthorizationCode, b: AuthorizationCode, life: int)
    requires a.value != b.value && a.clientId == b.clientId && a.nonce == b.nonce && 1 < life
    requires a.expiresAt == 1 + life && b.expiresAt == 0 + life
    ensures var trace := [(1, Save(a)), (1, Save(b)), (life, HasNonce(a.clientId, a.nonce))];
            && Nondecreasing(trace) && FixedLifetime(trace, [1, 0, life], life)
            && SavesNonceAt(sha, {}, trace, 0, (a.clientId, a.nonce)) && trace[2].0 < WindowAt(trace, 0)
            && OutcomeAt(sha, {}, trace, 2) == Nonce(false)
  {
    hide OutcomeAt;
    ShorterWindowForgets(sha, a, b, 1);
  }
}
