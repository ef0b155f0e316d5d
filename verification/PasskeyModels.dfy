/** The records the passkey stores exchange with their callers. */
module PasskeyModels {
  import opened Wrappers
  import opened Timestamps

  datatype User = User(userId: string, handle: Bytes, name: string, displayName: Option<string>)

  datatype Credential = Credential(
    credentialId: Bytes,
    userId: string,
    publicKey: Bytes,
    signCount: int,
    transports: seq<string>,
    deviceType: Option<string>,
    backedUp: Option<bool>,
    labelText: Option<string>,
    createdAt: Instant)

  /**
    The stores' exceptions: IntegrityError is a violated SQLite constraint, CorruptRow a stored text
    that does not decode.
  */
  datatype StoreError =
    CredentialConflict | UserConflict | CredentialNotFound | CounterConflict | IntegrityError | CorruptRow
}
