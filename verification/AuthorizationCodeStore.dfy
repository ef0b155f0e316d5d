/** MemoryAuthorizationCodeStore itself: dictionaries purged by a loop, codes redeemed in place. */
module AuthorizationCodeStore {
  import opened Wrappers
  import opened AuthorizationCodes

  class MemoryAuthorizationCodeStore {
    var codes: map<string, AuthorizationCode>
    var nonces: map<NonceKey, int>

    constructor ()
      ensures codes == map[] && nonces == map[]
    {
      codes, nonces := map[], map[];
    }

    /** The state, given all the code objects there are. */
    ghost function View(all: set<AuthorizationCode>): State
      reads this, all
    {
      State(codes, (set c | c in all && c.redeemed), nonces)
    }

    ghost predicate Within(all: set<AuthorizationCode>)
      reads this
    {
      forall v | v in codes :: codes[v] in all
    }

    method Cleanup(now: int, ghost all: set<AuthorizationCode>)
      requires Within(all)
      modifies this
      ensures Within(all) && View(all) == Purged(old(View(all)), now)
    {
      var expired := set v | v in codes && codes[v].expiresAt <= now && !codes[v].redeemed;
      ghost var stale := expired;
      while expired != {}
        invariant nonces == old(nonces) && expired <= stale
        invariant codes == map v | v in old(codes) && v !in stale - expired :: old(codes)[v]
        decreases expired
      {
        var value :| value in expired;
        codes := codes - {value};
        expired := expired - {value};
      }
      ghost var kept := codes;
      var keys := nonces.Keys;
      while keys != {}
        invariant codes == kept && keys <= nonces.Keys
        invariant forall k | k in nonces :: k in old(nonces) && nonces[k] == old(nonces)[k]
        invariant forall k | k in old(nonces) && (k in keys || now < old(nonces)[k]) :: k in nonces
        invariant forall k | k in nonces && k !in keys :: now < nonces[k]
        decreases keys
      {
        var k :| k in keys;
        keys := keys - {k};
        if nonces[k] <= now {
          nonces := nonces - {k};
        }
      }
      assert codes == Purged(old(View(all)), now).codes;
      assert nonces == Purged(old(View(all)), now).nonces;
    }

    method Save(sha: Sha, code: AuthorizationCode, now: int, ghost all: set<AuthorizationCode>) returns (r: Outcome)
      requires Within(all) && code in all
      modifies this
      ensures Within(all) && (View(all), r) == Step(sha, old(View(all)), Op.Save(code), now)
    {
      hide Purged;
      Cleanup(now, all);
      ghost var purged := View(all);
      if code.value in codes {
        return Refused(ProtocolError);
      }
      codes := codes[code.value := code];
      nonces := nonces[(code.clientId, code.nonce) := Window(code, now)];
      assert View(all).redeemed == purged.redeemed;
      return Saved;
    }

    method Get(sha: Sha, value: string, clientId: string, now: int, ghost all: set<AuthorizationCode>)
      returns (r: Outcome)
      requires Within(all)
      modifies this
      ensures Within(all) && (View(all), r) == Step(sha, old(View(all)), Op.Get(value, clientId), now)
    {
      hide Purged;
      Cleanup(now, all);
      if value !in codes {
        return Got(None);
      }
      var code := codes[value];
      if code.clientId != clientId || code.redeemed || code.expiresAt <= now {
        return Got(None);
      }
      return Got(Some(code));
    }

    /** Redeeming marks the object; only then is the entry dropped. */
    method Consume(sha: Sha, value: string, clientId: string, redirectUri: string, verifier: string, now: int,
                   ghost all: set<AuthorizationCode>) returns (r: Outcome)
      requires Within(all)
      modifies this, all
      ensures Within(all)
                && (View(all), r) == Step(sha, old(View(all)), Op.Consume(value, clientId, redirectUri, verifier), now)
      ensures forall c | c in all && r != Consumed(c) :: c.redeemed == old(c.redeemed)
    {
      hide Purged, S256, WellFormed;
      Cleanup(now, all);
      ghost var purged := View(all);
      if value !in codes {
        return Refused(PermissionError);
      }
      var code := codes[value];
      var redeemed := code.Redeem(sha, clientId, redirectUri, verifier, now);
      if redeemed.Failure? {
        assert View(all).redeemed == purged.redeemed;
        return Refused(redeemed.error);
      }
      codes := codes - {value};
      assert View(all).redeemed == purged.redeemed + {code};
      return Consumed(code);
    }

    method HasNonce(sha: Sha, clientId: string, nonce: string, now: int, ghost all: set<AuthorizationCode>)
      returns (r: Outcome)
      requires Within(all)
      modifies this
      ensures Within(all) && (View(all), r) == Step(sha, old(View(all)), Op.HasNonce(clientId, nonce), now)
    {
      var k := (clientId, nonce);
      if k !in nonces || nonces[k] <= now {
        nonces := nonces - {k};
        assert View(all).redeemed == old(View(all)).redeemed;
        return Nonce(false);
      }
      return Nonce(true);
    }
  }
}
