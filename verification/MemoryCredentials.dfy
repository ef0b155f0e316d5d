/**
  The in-memory credential store.  Its dictionary holds the caller's own mutable credential objects
  and its operations assign their fields in place; the view `View()` reads the objects' values, and
  every method moves that view by one step of the store's meaning.
*/
module MemoryCredentials {
  import opened Wrappers
  import opened Timestamps
  import opened PasskeyModels
  import opened CredentialStore

  class PasskeyCredential {
    const credentialId: Bytes
    const userId: string
    const publicKey: Bytes
    const transports: seq<string>
    const createdAt: Instant
    var signCount: int
    var deviceType: Option<string>
    var backedUp: Option<bool>
    var labelText: Option<string>

    constructor (c: Credential)
      ensures Value() == c
    {
      credentialId, userId, publicKey := c.credentialId, c.userId, c.publicKey;
      transports, createdAt := c.transports, c.createdAt;
      signCount, deviceType, backedUp, labelText := c.signCount, c.deviceType, c.backedUp, c.labelText;
    }

    function Value(): Credential
      reads this
    {
      Credential(credentialId, userId, publicKey, signCount, transports, deviceType, backedUp, labelText, createdAt)
    }
  }

  class MemoryCredentialStore {
    var users: map<string, User>
    var usersByHandle: map<Bytes, string>
    var credentials: map<Bytes, PasskeyCredential>

    ghost function Objects(): set<PasskeyCredential>
      reads this
    {
      set k | k in credentials :: credentials[k]
    }

    /** Each object is kept under its own id, so no object is kept twice. */
    ghost predicate Valid()
      reads this
    {
      forall k | k in credentials :: credentials[k].credentialId == k
    }

    ghost function View(): State
      reads this, Objects()
    {
      State(users, usersByHandle, map k | k in credentials :: credentials[k].Value())
    }

    constructor ()
      ensures Valid() && View() == EMPTY && Objects() == {}
    {
      users, usersByHandle, credentials := map[], map[], map[];
    }

    method SaveRegistration(user: User, credential: PasskeyCredential) returns (r: Outcome)
      requires Valid()
      modifies this
      ensures Valid() && Objects() <= old(Objects()) + {credential}
      ensures (View(), r) == Step(old(View()), Save(user, old(credential.Value())))
      ensures r == Done && credential.credentialId !in old(credentials) ==>
                credential.credentialId in credentials && credentials[credential.credentialId] == credential
    {
      hide CompareAndSetStep, RelabelStep, DeleteStep, UserByHandle, OwnedBy;
      ghost var s' := Step(View(), Save(user, credential.Value())).0;
      if credential.userId != user.userId {
        return Refused(CredentialConflict);
      }
      if || (user.userId in users && users[user.userId] != user)
         || (user.handle in usersByHandle && usersByHandle[user.handle] != user.userId) {
        return Refused(UserConflict);
      }
      var id := credential.credentialId;
      if id in credentials
          && (credentials[id].userId != credential.userId || credentials[id].publicKey != credential.publicKey) {
        return Refused(CredentialConflict);
      }
      users := users[user.userId := user];
      usersByHandle := usersByHandle[user.handle := user.userId];
      if id !in credentials {
        credentials := credentials[id := credential];
      }
      assert View().credentials == s'.credentials;
      return Done;
    }

    method GetUser(userId: string) returns (r: Option<User>)
      ensures UserFound(r) == Step(View(), Op.GetUser(userId)).1
    {
      r := Lookup(users, userId);
    }

    method GetUserByHandle(handle: Bytes) returns (r: Option<User>)
      ensures UserFound(r) == Step(View(), Op.GetUserByHandle(handle)).1
    {
      var userId := Lookup(usersByHandle, handle);
      if userId.Some? && userId.value != "" {
        r := Lookup(users, userId.value);
      } else {
        r := None;
      }
    }

    method ListCredentialsForUser(userId: string) returns (r: set<PasskeyCredential>)
      ensures r <= Objects()
      ensures Listed(set c | c in r :: c.Value()) == Step(View(), ListForUser(userId)).1
    {
      r := set k | k in credentials && credentials[k].userId == userId :: credentials[k];
      ghost var s := View();
      assert forall k | k in OwnedBy(s, userId) :: credentials[k] in r && credentials[k].Value() == s.credentials[k];
    }

    /** The object handed out is the live one: later updates through the store show in it. */
    method GetCredential(credentialId: Bytes) returns (r: Option<PasskeyCredential>)
      ensures r == Lookup(credentials, credentialId)
      ensures CredentialFound(if r.Some? then Some(r.value.Value()) else None)
                == Step(View(), Op.GetCredential(credentialId)).1
    {
      r := Lookup(credentials, credentialId);
    }

    method CompareAndSetAfterLogin(credentialId: Bytes, expected: int, count: int,
                                   deviceType: Option<string>, backedUp: Option<bool>) returns (r: Outcome)
      requires Valid()
      modifies Objects()
      ensures Valid()
      ensures (View(), r) == Step(old(View()), CompareAndSet(credentialId, expected, count, deviceType, backedUp))
    {
      hide SaveStep, RelabelStep, DeleteStep, UserByHandle, OwnedBy;
      if credentialId !in credentials {
        return Refused(CredentialNotFound);
      }
      var credential := credentials[credentialId];
      if expected != 0 && credential.signCount != expected {
        return Refused(CounterConflict);
      }
      if count < credential.signCount {
        return Refused(CounterConflict);
      }
      credential.signCount := if credential.signCount < count then count else credential.signCount;
      credential.deviceType := deviceType;
      credential.backedUp := backedUp;
      assert View().credentials == old(View()).credentials[credentialId := credential.Value()];
      return CredentialFound(Some(credential.Value()));
    }

    method UpdateCredentialLabel(credentialId: Bytes, userId: string, labelText: Option<string>) returns (r: Outcome)
      requires Valid()
      modifies Objects()
      ensures Valid()
      ensures (View(), r) == Step(old(View()), Relabel(credentialId, userId, labelText))
    {
      if credentialId !in credentials || credentials[credentialId].userId != userId {
        return CredentialFound(None);
      }
      var credential := credentials[credentialId];
      credential.labelText := labelText;
      assert View().credentials == old(View()).credentials[credentialId := credential.Value()];
      return CredentialFound(Some(credential.Value()));
    }

    method DeleteCredential(credentialId: Bytes, userId: Option<string>, requireRemaining: bool) returns (removed: bool)
      requires Valid()
      modifies this
      ensures Valid() && Objects() <= old(Objects())
      ensures (View(), Deleted(removed)) == Step(old(View()), Delete(credentialId, userId, requireRemaining))
    {
      if credentialId !in credentials || (userId.Some? && credentials[credentialId].userId != userId.value) {
        return false;
      }
      var owner := credentials[credentialId].userId;
      var owned := set k | k in credentials && credentials[k].userId == owner;
      assert owned == OwnedBy(View(), owner);
      if requireRemaining && |owned| <= 1 {
        return false;
      }
      credentials := credentials - {credentialId};
      assert View().credentials == old(View()).credentials - {credentialId};
      return true;
    }
  }
}
