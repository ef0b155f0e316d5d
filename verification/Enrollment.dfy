/**
  Enrollment capabilities.  The in-memory store keeps them in a dictionary, here in insertion order
  because lookups take the first match; the SQLite store updates rows by conditional statements under
  unique columns.  The token digest is any function.  Outcomes agree on every run exactly as long as
  no issue reuses an id or a digest and no claim gives one flow a second capability.
*/
module Enrollment {
  import opened Wrappers
  import opened Timestamps
  import opened Text

  datatype Purpose = Invitation | AccountRecovery

  datatype Capability = Capability(
    capabilityId: string,
    purpose: Purpose,
    subject: string,
    expiresAt: Instant,
    issuedBy: Option<string>,
    claimedFlow: Option<string>,
    claimedAt: Option<Instant>,
    consumedAt: Option<Instant>,
    revokedAt: Option<Instant>)

  /** A stored capability under its token digest. */
  datatype Entry = Entry(digest: string, cap: Capability)

  datatype Op =
    | Issue(id: string, token: string, subject: string, purpose: Purpose, ttl: int, issuedBy: Option<string>)
    | Claim(token: string, flow: string, purpose: Purpose)
    | Consume(flow: string)
    | Release(flow: string)
    | Revoke(id: string)

  datatype Error = InvalidIssue | Overflow | Unavailable | IntegrityError | CorruptRow

  datatype Outcome = Issued(cap: Capability) | Claimed(cap: Capability) | Consumed(cap: Capability)
    | Changed(yes: bool) | Refused(error: Error)

  type Digest = string -> string

  /** The capability an issue creates, or the error it raises before touching the store. */
  function NewCapability(op: Op, now: Instant): (r: Result<Capability, Error>)
    requires op.Issue?
    ensures r.Success? ==>
              && now < r.value.expiresAt && Open(r.value) && r.value.claimedFlow.None? && r.value.claimedAt.None?
              && r.value.capabilityId == op.id && Trimmed(r.value.subject)
  {
    if !Trimmed(op.subject) || op.ttl <= 0 || (op.issuedBy.Some? && !Trimmed(op.issuedBy.value)) then
        Failure(InvalidIssue)
    else
      var t := now + op.ttl * 1_000_000;
      if t >= MAX_INSTANT then Failure(Overflow)
      else Success(Capability(op.id, op.purpose, op.subject, t, op.issuedBy, None, None, None, None))
  }

  /** When an issue is refused, and every field of what it makes otherwise; a lifetime is counted in seconds. */
  lemma CapabilityFields(op: Op, now: Instant)
    requires op.Issue?
    ensures NewCapability(op, now).Success? <==>
              && Strip(op.subject) == op.subject != "" && 0 < op.ttl
              && (op.issuedBy.Some? ==> Strip(op.issuedBy.value) == op.issuedBy.value != "")
              && now + op.ttl * 1_000_000 < MAX_INSTANT
    ensures NewCapability(op, now) == Failure(Overflow) ==> now + op.ttl * 1_000_000 >= MAX_INSTANT
    ensures NewCapability(op, now) == Failure(InvalidIssue) ==>
              || Strip(op.subject) != op.subject || op.subject == "" || op.ttl <= 0
              || (op.issuedBy.Some? && (Strip(op.issuedBy.value) != op.issuedBy.value || op.issuedBy.value == ""))
    ensures NewCapability(op, now).Failure? ==> NewCapability(op, now).error in {Overflow, InvalidIssue}
    ensures NewCapability(op, now).Success? ==>
              var c := NewCapability(op, now).value;
              && c.capabilityId == op.id && c.purpose == op.purpose && c.subject == op.subject
              && c.issuedBy == op.issuedBy && c.expiresAt == now + op.ttl * 1_000_000
              && c.claimedFlow == None && c.claimedAt == None && c.consumedAt == None && c.revokedAt == None
  {
    hide Strip, Trimmed;
    TrimmedIsStripped(op.subject);
    if op.issuedBy.Some? { TrimmedIsStripped(op.issuedBy.value); }
  }

  // ---- The in-memory store ----

  type Records = seq<Entry>

  /** Index of the first element of that kind, or -1. */
  function First<T>(rs: seq<T>, p: T -> bool): (i: int)
    ensures -1 <= i < |rs|
    ensures 0 <= i ==> p(rs[i])
    ensures forall k | 0 <= k < (if i < 0 then |rs| else i) :: !p(rs[k])
  {
    if |rs| == 0 then -1
    else if p(rs[0]) then 0
    else var i := First(rs[1..], p); if i < 0 then -1 else i + 1
  }

  function WithDigest(d: string): Entry -> bool { (e: Entry) => e.digest == d }

  function HeldBy(flow: string): Entry -> bool { (e: Entry) => e.cap.claimedFlow == Some(flow) }

  function WithId(id: string): Entry -> bool { (e: Entry) => e.cap.capabilityId == id }

  predicate Open(c: Capability) {
    c.consumedAt.None? && c.revokedAt.None?
  }

  predicate Claimable(c: Capability, flow: string, purpose: Purpose, now: int) {
    c.purpose == purpose && now < c.expiresAt && Open(c) && c.claimedFlow in {None, Some(flow)}
  }

  function ClaimStep(digest: Digest, rs: Records, token: string, flow: string, purpose: Purpose, now: Instant)
    : (Records, Outcome) {
    if token == "" || flow == "" then (rs, Refused(Unavailable))
    else
      var i := First(rs, WithDigest(digest(token)));
      if i < 0 || !Claimable(rs[i].cap, flow, purpose, now) then (rs, Refused(Unavailable))
      else if rs[i].cap.claimedFlow.None? then
        var c := rs[i].cap.(claimedFlow := Some(flow), claimedAt := Some(now));
        (rs[i := Entry(rs[i].digest, c)], Claimed(c))
      else (rs, Claimed(rs[i].cap))
  }

  function ConsumeStep(rs: Records, flow: string, now: Instant): (Records, Outcome) {
    var i := First(rs, HeldBy(flow));
    if i < 0 || rs[i].cap.expiresAt <= now || !Open(rs[i].cap) then (rs, Refused(Unavailable))
    else
      var c := rs[i].cap.(consumedAt := Some(now));
      (rs[i := Entry(rs[i].digest, c)], Consumed(c))
  }

  function ReleaseStep(rs: Records, flow: string): (Records, Outcome) {
    var i := First(rs, HeldBy(flow));
    if i < 0 || !Open(rs[i].cap) then (rs, Changed(false))
    else (rs[i := Entry(rs[i].digest, rs[i].cap.(claimedFlow := None, claimedAt := None))], Changed(true))
  }

  function RevokeStep(rs: Records, id: string, now: Instant): (Records, Outcome) {
    var i := First(rs, WithId(id));
    if i < 0 || !Open(rs[i].cap) then (rs, Changed(false))
    else (rs[i := Entry(rs[i].digest, rs[i].cap.(revokedAt := Some(now)))], Changed(true))
  }

  function IssueStep(digest: Digest, rs: Records, op: Op, now: Instant): (Records, Outcome)
    requires op.Issue?
  {
    match NewCapability(op, now)
    case Failure(e) => (rs, Refused(e))
    case Success(c) =>
      var i := First(rs, WithId(op.id));
      var e := Entry(digest(op.token), c);
      (if i < 0 then rs + [e] else rs[i := e], Issued(c))
  }

  function MemoryStep(digest: Digest, rs: Records, op: Op, now: Instant): (Records, Outcome) {
    match op
    case Issue(_, _, _, _, _, _) => IssueStep(digest, rs, op, now)
    case Claim(token, flow, purpose) => ClaimStep(digest, rs, token, flow, purpose, now)
    case Consume(flow) => ConsumeStep(rs, flow, now)
    case Release(flow) => ReleaseStep(rs, flow)
    case Revoke(id) => RevokeStep(rs, id, now)
  }

  // ---- The SQLite store ----

  datatype Row = Row(
    capabilityId: string,
    tokenHash: string,
    purpose: Purpose,
    subject: string,
    expiresAt: string,
    issuedBy: Option<string>,
    claimedFlow: Option<string>,
    claimedAt: Option<string>,
    consumedAt: Option<string>,
    revokedAt: Option<string>)

  type Table = seq<Row>

  function OptionalText(t: Option<Instant>): Option<string> {
    match t case None => None case Some(v) => Some(IsoText(v))
  }

  function OptionalInstant(s: Option<string>): Result<Option<Instant>, Error> {
    match s
    case None => Success(None)
    case Some(text) =>
      match ParseIso(text)
      case Some(t) => if 0 <= t < MAX_INSTANT then Success(Some(t)) else Failure(CorruptRow)
      case None => Failure(CorruptRow)
  }

  function RowOf(e: Entry): Row {
    Row(e.cap.capabilityId, e.digest, e.cap.purpose, e.cap.subject, IsoText(e.cap.expiresAt), e.cap.issuedBy,
        e.cap.claimedFlow, OptionalText(e.cap.claimedAt), OptionalText(e.cap.consumedAt), OptionalText(e.cap.revokedAt))
  }

  function CapabilityFromRow(r: Row): Result<Capability, Error> {
    match (OptionalInstant(Some(r.expiresAt)), OptionalInstant(r.claimedAt), OptionalInstant(r.consumedAt),
           OptionalInstant(r.revokedAt))
    case (Success(Some(expires)), Success(claimed), Success(consumed), Success(revoked)) =>
      Success(Capability(r.capabilityId, r.purpose, r.subject, expires, r.issuedBy, r.claimedFlow, claimed, consumed,
                         revoked))
    case _ => Failure(CorruptRow)
  }

  /** UPDATE ... SET change WHERE cond, over the whole table. */
  function Update(t: Table, cond: Row -> bool, change: Row -> Row): Table {
    seq(|t|, i requires 0 <= i < |t| => if cond(t[i]) then change(t[i]) else t[i])
  }

  function Matches(t: Table, cond: Row -> bool): set<nat> {
    set i: nat | i < |t| && cond(t[i])
  }

  /** The UNIQUE column claimed_flow_id; NULLs do not clash. */
  predicate FlowsUnique(t: Table) {
    forall i, j | 0 <= i < j < |t| :: t[i].claimedFlow.Some? ==> t[i].claimedFlow != t[j].claimedFlow
  }

  function Returned(r: Row, wrap: Capability -> Outcome): Outcome {
    match CapabilityFromRow(r) case Success(c) => wrap(c) case Failure(e) => Refused(e)
  }

  predicate OpenRow(r: Row) {
    r.consumedAt.None? && r.revokedAt.None?
  }

  function ClaimWhere(hash: string, flow: string, purpose: Purpose, now: string): Row -> bool {
    (r: Row) => && r.tokenHash == hash && r.purpose == purpose && TextLess(now, r.expiresAt) && OpenRow(r)
         && (r.claimedFlow.None? || r.claimedFlow == Some(flow))
  }

  /** COALESCE keeps what is set. */
  function ClaimSet(flow: string, now: string): Row -> Row {
    (r: Row) => r.(claimedFlow := if r.claimedFlow.Some? then r.claimedFlow else Some(flow),
            claimedAt := if r.claimedAt.Some? then r.claimedAt else Some(now))
  }

  function SqlClaim(digest: Digest, t: Table, token: string, flow: string, purpose: Purpose, now: Instant)
    : (Table, Outcome) {
    if token == "" || flow == "" then (t, Refused(Unavailable))
    else
      var where := ClaimWhere(digest(token), flow, purpose, IsoText(now));
      var t' := Update(t, where, ClaimSet(flow, IsoText(now)));
      var i := First(t, where);
      if !FlowsUnique(t') then (t, Refused(IntegrityError))
      else if i < 0 then (t', Refused(Unavailable))
      else (t', Returned(t'[i], c => Claimed(c)))
  }

  function ConsumeWhere(flow: string, now: string): Row -> bool {
    (r: Row) => r.claimedFlow == Some(flow) && TextLess(now, r.expiresAt) && OpenRow(r)
  }

  function ConsumeSet(now: string): Row -> Row {
    (r: Row) => r.(consumedAt := Some(now))
  }

  function SqlConsume(t: Table, flow: string, now: Instant): (Table, Outcome) {
    var where := ConsumeWhere(flow, IsoText(now));
    var t' := Update(t, where, ConsumeSet(IsoText(now)));
    var i := First(t, where);
    if i < 0 then (t', Refused(Unavailable)) else (t', Returned(t'[i], c => Consumed(c)))
  }

  function ReleaseWhere(flow: string): Row -> bool {
    (r: Row) => r.claimedFlow == Some(flow) && OpenRow(r)
  }

  function SqlRelease(t: Table, flow: string): (Table, Outcome) {
    (Update(t, ReleaseWhere(flow), (r: Row) => r.(claimedFlow := None, claimedAt := None)),
     Changed(|Matches(t, ReleaseWhere(flow))| == 1))
  }

  function RevokeWhere(id: string): Row -> bool {
    (r: Row) => r.capabilityId == id && OpenRow(r)
  }

  function SqlRevoke(t: Table, id: string, now: Instant): (Table, Outcome) {
    (Update(t, RevokeWhere(id), (r: Row) => r.(revokedAt := Some(IsoText(now)))),
     Changed(|Matches(t, RevokeWhere(id))| == 1))
  }

  function SqlIssue(digest: Digest, t: Table, op: Op, now: Instant): (Table, Outcome)
    requires op.Issue?
  {
    match NewCapability(op, now)
    case Failure(e) => (t, Refused(e))
    case Success(c) =>
      if exists i | 0 <= i < |t| ::
          t[i].capabilityId == op.id || t[i].tokenHash == digest(op.token) then (t, Refused(IntegrityError))
      else (t + [RowOf(Entry(digest(op.token), c))], Issued(c))
  }

  function SqlStep(digest: Digest, t: Table, op: Op, now: Instant): (Table, Outcome) {
    match op
    case Issue(_, _, _, _, _, _) => SqlIssue(digest, t, op, now)
    case Claim(token, flow, purpose) => SqlClaim(digest, t, token, flow, purpose, now)
    case Consume(flow) => SqlConsume(t, flow, now)
    case Release(flow) => SqlRelease(t, flow)
    case Revoke(id) => SqlRevoke(t, id, now)
  }

  // ---- Refinement ----

  /** No two entries share an id, a digest or a flow, and a claim's flow and time are set together. */
  ghost predicate WellKept(rs: Records) {
    && (forall i, j | 0 <= i < j < |rs| ::
          && rs[i].cap.capabilityId != rs[j].cap.capabilityId && rs[i].digest != rs[j].digest
          && (rs[i].cap.claimedFlow.Some? ==> rs[i].cap.claimedFlow != rs[j].cap.claimedFlow))
    && (forall i | 0 <= i < |rs| :: rs[i].cap.claimedFlow.Some? <==> rs[i].cap.claimedAt.Some?)
  }

  ghost predicate Related(rs: Records, t: Table) {
    WellKept(rs) && |t| == |rs| && forall i | 0 <= i < |rs| :: t[i] == RowOf(rs[i])
  }

  lemma RowBack(e: Entry)
    ensures CapabilityFromRow(RowOf(e)) == Success(e.cap)
  {
    hide IsoText, ParseIso;
    ParseBack(e.cap.expiresAt);
    if e.cap.claimedAt.Some? { ParseBack(e.cap.claimedAt.value); }
    if e.cap.consumedAt.Some? { ParseBack(e.cap.consumedAt.value); }
    if e.cap.revokedAt.Some? { ParseBack(e.cap.revokedAt.value); }
  }

  /** An issue reusing an id or digest, or a claim that would give the flow a second capability. */
  predicate Clash(digest: Digest, rs: Records, op: Op, now: Instant) {
    match op
    case Issue(id, token, _, _, _, _) =>
      NewCapability(op, now).Success?
      && exists i | 0 <= i < |rs| :: rs[i].cap.capabilityId == id || rs[i].digest == digest(token)
    case Claim(token, flow, purpose) =>
      && token != "" && flow != ""
      && exists i, j | 0 <= i < |rs| && 0 <= j < |rs| ::
           && rs[i].digest == digest(token) && Claimable(rs[i].cap, flow, purpose, now) && rs[i].cap.claimedFlow.None?
           && rs[j].cap.claimedFlow == Some(flow)
    case _ => false
  }

  /** An update whose condition holds of one row at most is a change at that row. */
  lemma UpdateOne(t: Table, where: Row -> bool, change: Row -> Row)
    requires forall i, j | 0 <= i < j < |t| :: !(where(t[i]) && where(t[j]))
    ensures var i := First(t, where);
            if i < 0 then Update(t, where, change) == t && Matches(t, where) == {}
            else Update(t, where, change) == t[i := change(t[i])] && Matches(t, where) == {i}
  {
  }

  /** Finding the first entry and then testing it is the same as finding the one row that passes both tests. */
  lemma SameFind(rs: Records, t: Table, key: Entry -> bool, test: Entry -> bool, where: Row -> bool)
    requires |t| == |rs| && forall i | 0 <= i < |rs| :: where(t[i]) <==> key(rs[i]) && test(rs[i])
    requires forall i, j | 0 <= i < j < |rs| :: !(key(rs[i]) && key(rs[j]))
    ensures var i := First(rs, key);
            First(t, where) == if 0 <= i && test(rs[i]) then i else -1
    ensures forall i, j | 0 <= i < j < |t| :: !(where(t[i]) && where(t[j]))
  {
  }

  /** Rewriting one row keeps the flow column unique exactly when no other row holds the new flow. */
  lemma UniqueAfter(t: Table, i: int, r: Row)
    requires FlowsUnique(t) && 0 <= i < |t|
    ensures FlowsUnique(t[i := r]) <==> forall j | 0 <= j < |t| && j != i ::
              r.claimedFlow.Some? ==> t[j].claimedFlow != r.claimedFlow
  {
    var t' := t[i := r];
    if !FlowsUnique(t') {
      var a, b :| 0 <= a < b < |t'| && t'[a].claimedFlow.Some? && t'[a].claimedFlow == t'[b].claimedFlow;
      assert a == i || b == i;
    }
    forall j | FlowsUnique(t') && 0 <= j < |t| && j != i && r.claimedFlow.Some?
      ensures t[j].claimedFlow != r.claimedFlow
    {
      var a, b := if i < j then i else j, if i < j then j else i;
      assert t'[a].claimedFlow.Some? ==> t'[a].claimedFlow != t'[b].claimedFlow;
    }
  }

  /** Changing one entry and its row together keeps the stores related. */
  lemma RelatedWrite(rs: Records, t: Table, i: int, c: Capability)
    requires Related(rs, t) && 0 <= i < |rs|
    requires c.capabilityId == rs[i].cap.capabilityId && (c.claimedFlow.Some? <==> c.claimedAt.Some?)
    requires forall j | 0 <= j < |rs| && j != i :: c.claimedFlow.Some? ==> rs[j].cap.claimedFlow != c.claimedFlow
    ensures Related(rs[i := Entry(rs[i].digest, c)], t[i := RowOf(Entry(rs[i].digest, c))])
  {
    hide IsoText;
  }

  /** The conditional update finds the row of the entry the in-memory store finds. */
  lemma ClaimFind(digest: Digest, rs: Records, t: Table, token: string, flow: string, purpose: Purpose, now: Instant)
    requires Related(rs, t)
    ensures var where, change := ClaimWhere(digest(token), flow, purpose, IsoText(now)), ClaimSet(flow, IsoText(now));
            var i := First(rs, WithDigest(digest(token)));
            if 0 <= i && Claimable(rs[i].cap, flow, purpose, now) then
              First(t, where) == i && Update(t, where, change) == t[i := change(t[i])]
            else First(t, where) == -1 && Update(t, where, change) == t
  {
    hide IsoText, ParseIso, TextLess;
    var where, change := ClaimWhere(digest(token), flow, purpose, IsoText(now)), ClaimSet(flow, IsoText(now));
    forall i | 0 <= i < |rs|
      ensures where(t[i]) <==> rs[i].digest == digest(token) && Claimable(rs[i].cap, flow, purpose, now)
    {
      TextOrder(now, rs[i].cap.expiresAt);
    }
    SameFind(rs, t, WithDigest(digest(token)), (e: Entry) => Claimable(e.cap, flow, purpose, now), where);
    UpdateOne(t, where, change);
  }

  lemma RelatedUnique(rs: Records, t: Table)
    requires Related(rs, t)
    ensures FlowsUnique(t)
  {
    hide IsoText;
  }

  /** COALESCE sets both columns or neither, because they are set and unset together. */
  lemma ClaimedRow(rs: Records, t: Table, i: int, flow: string, now: Instant)
    requires Related(rs, t) && 0 <= i < |rs|
    ensures var c := rs[i].cap;
            ClaimSet(flow, IsoText(now))(t[i]) ==
            RowOf(if c.claimedFlow.None? then Entry(rs[i].digest, c.(claimedFlow := Some(flow), claimedAt := Some(now)))
                  else rs[i])
  {
    hide IsoText;
  }

  lemma RefineClaim(digest: Digest, rs: Records, t: Table, token: string, flow: string, purpose: Purpose, now: Instant)
    requires Related(rs, t) && token != "" && flow != ""
    ensures var (rs', o) := ClaimStep(digest, rs, token, flow, purpose, now);
            var (t', p) := SqlClaim(digest, t, token, flow, purpose, now);
            if Clash(digest, rs, Claim(token, flow, purpose), now) then
                o.Claimed? && p == Refused(IntegrityError) && t' == t
            else o == p && Related(rs', t')
  {
    hide IsoText, ParseIso, TextLess, CapabilityFromRow, ClaimWhere, ClaimSet, Update, FlowsUnique, RowOf, Clash;
    ClaimFind(digest, rs, t, token, flow, purpose, now);
    RelatedUnique(rs, t);
    ClashAt(digest, rs, token, flow, purpose, now);
    var i := First(rs, WithDigest(digest(token)));
    if 0 <= i && Claimable(rs[i].cap, flow, purpose, now) {
      ClaimedRow(rs, t, i, flow, now);
      RowBack(rs[i]);
      var r := ClaimSet(flow, IsoText(now))(t[i]);
      if rs[i].cap.claimedFlow.None? {
        var c := rs[i].cap.(claimedFlow := Some(flow), claimedAt := Some(now));
        RowBack(Entry(rs[i].digest, c));
        UniqueAfter(t, i, r);
        RowFlows(rs, t, Entry(rs[i].digest, c));
        if !Clash(digest, rs, Claim(token, flow, purpose), now) {
          RelatedWrite(rs, t, i, c);
        }
      } else {
        assert t[i := r] == t;
      }
    }
  }

  lemma RowFlows(rs: Records, t: Table, e: Entry)
    requires Related(rs, t)
    ensures RowOf(e).claimedFlow == e.cap.claimedFlow
    ensures forall j | 0 <= j < |t| :: t[j].claimedFlow == rs[j].cap.claimedFlow
  {
    hide IsoText;
  }

  /** A claim clashes exactly when it would bind and some other entry holds the flow. */
  lemma ClashAt(digest: Digest, rs: Records, token: string, flow: string, purpose: Purpose, now: Instant)
    requires WellKept(rs) && token != "" && flow != ""
    ensures var i := First(rs, WithDigest(digest(token)));
            Clash(digest, rs, Claim(token, flow, purpose), now) <==>
              && 0 <= i && Claimable(rs[i].cap, flow, purpose, now) && rs[i].cap.claimedFlow.None?
              && exists j | 0 <= j < |rs| && j != i :: rs[j].cap.claimedFlow == Some(flow)
  {
    var i := First(rs, WithDigest(digest(token)));
    forall k | 0 <= k < |rs| && rs[k].digest == digest(token)
      ensures k == i
    {
    }
  }

  lemma RefineConsume(rs: Records, t: Table, flow: string, now: Instant)
    requires Related(rs, t)
    ensures Related(ConsumeStep(rs, flow, now).0, SqlConsume(t, flow, now).0)
    ensures ConsumeStep(rs, flow, now).1 == SqlConsume(t, flow, now).1
  {
    hide IsoText, ParseIso, TextLess, CapabilityFromRow, Update;
    var where := ConsumeWhere(flow, IsoText(now));
    forall i | 0 <= i < |rs|
      ensures where(t[i]) <==> rs[i].cap.claimedFlow == Some(flow) && now < rs[i].cap.expiresAt && Open(rs[i].cap)
    {
      TextOrder(now, rs[i].cap.expiresAt);
    }
    SameFind(rs, t, HeldBy(flow), (e: Entry) => now < e.cap.expiresAt && Open(e.cap), where);
    UpdateOne(t, where, ConsumeSet(IsoText(now)));
    var i := First(t, where);
    if i >= 0 {
      var c := rs[i].cap.(consumedAt := Some(now));
      RelatedWrite(rs, t, i, c);
      RowBack(Entry(rs[i].digest, c));
    }
  }

  lemma RefineRelease(rs: Records, t: Table, flow: string)
    requires Related(rs, t)
    ensures Related(ReleaseStep(rs, flow).0, SqlRelease(t, flow).0)
    ensures ReleaseStep(rs, flow).1 == SqlRelease(t, flow).1
  {
    hide IsoText, Update, Matches;
    var where, change := ReleaseWhere(flow), (r: Row) => r.(claimedFlow := None, claimedAt := None);
    SameFind(rs, t, HeldBy(flow), (e: Entry) => Open(e.cap), where);
    UpdateOne(t, where, change);
    var i := First(t, where);
    if i >= 0 {
      RelatedWrite(rs, t, i, rs[i].cap.(claimedFlow := None, claimedAt := None));
    }
  }

  lemma RefineRevoke(rs: Records, t: Table, id: string, now: Instant)
    requires Related(rs, t)
    ensures Related(RevokeStep(rs, id, now).0, SqlRevoke(t, id, now).0)
    ensures RevokeStep(rs, id, now).1 == SqlRevoke(t, id, now).1
  {
    hide IsoText, Update, Matches;
    var where, change := RevokeWhere(id), (r: Row) => r.(revokedAt := Some(IsoText(now)));
    SameFind(rs, t, WithId(id), (e: Entry) => Open(e.cap), where);
    UpdateOne(t, where, change);
    var i := First(t, where);
    if i >= 0 {
      RelatedWrite(rs, t, i, rs[i].cap.(revokedAt := Some(now)));
    }
  }

  lemma RefineIssue(digest: Digest, rs: Records, t: Table, op: Op, now: Instant)
    requires Related(rs, t) && op.Issue?
    ensures var (rs', o) := IssueStep(digest, rs, op, now);
            var (t', p) := SqlIssue(digest, t, op, now);
            if Clash(digest, rs, op, now) then o.Issued? && p == Refused(IntegrityError) && t' == t
            else o == p && Related(rs', t')
  {
    hide IsoText, RowOf, Related;
    RowKeys(rs, t);
    if NewCapability(op, now).Success? && !Clash(digest, rs, op, now) {
      RelatedAppend(rs, t, Entry(digest(op.token), NewCapability(op, now).value));
    }
  }

  lemma RowKeys(rs: Records, t: Table)
    requires Related(rs, t)
    ensures |t| == |rs|
    ensures forall i | 0 <= i < |t| :: t[i].capabilityId == rs[i].cap.capabilityId && t[i].tokenHash == rs[i].digest
  {
    hide IsoText;
  }

  lemma RelatedAppend(rs: Records, t: Table, e: Entry)
    requires Related(rs, t) && e.cap.claimedFlow.None? && e.cap.claimedAt.None?
    requires forall i | 0 <= i < |rs| :: rs[i].cap.capabilityId != e.cap.capabilityId && rs[i].digest != e.digest
    ensures Related(rs + [e], t + [RowOf(e)])
  {
    hide IsoText, RowOf;
  }

  /** Every step agrees, unless it clashes: then memory accepts it, and SQLite refuses it and changes nothing. */
  lemma RefineStep(digest: Digest, rs: Records, t: Table, op: Op, now: Instant)
    requires Related(rs, t)
    ensures var (rs', o) := MemoryStep(digest, rs, op, now);
            var (t', p) := SqlStep(digest, t, op, now);
            if Clash(digest, rs, op, now) then !o.Refused? && p == Refused(IntegrityError) && t' == t
            else o == p && Related(rs', t')
  {
    hide Related, IssueStep, SqlIssue, ClaimStep, SqlClaim, ConsumeStep, SqlConsume, ReleaseStep, SqlRelease,
        RevokeStep, SqlRevoke;
    match op
    case Issue(_, _, _, _, _, _) => RefineIssue(digest, rs, t, op, now);
    case Claim(token, flow, purpose) =>
      if token == "" || flow == "" {
        BlankClaim(digest, rs, t, token, flow, purpose, now);
      } else {
        RefineClaim(digest, rs, t, token, flow, purpose, now);
      }
    case Consume(flow) => RefineConsume(rs, t, flow, now);
    case Release(flow) => RefineRelease(rs, t, flow);
    case Revoke(id) => RefineRevoke(rs, t, id, now);
  }

  lemma BlankClaim(digest: Digest, rs: Records, t: Table, token: string, flow: string, purpose: Purpose, now: Instant)
    requires token == "" || flow == ""
    ensures ClaimStep(digest, rs, token, flow, purpose, now) == (rs, Refused(Unavailable))
    ensures SqlClaim(digest, t, token, flow, purpose, now) == (t, Refused(Unavailable))
  {
  }

  // ---- Whole runs ----

  type Trace = seq<(Instant, Op)>

  function After(digest: Digest, rs: Records, trace: Trace): Records
    decreases |trace|
  {
    if |trace| == 0 then rs else After(digest, MemoryStep(digest, rs, trace[0].1, trace[0].0).0, trace[1..])
  }

  function Outcomes(digest: Digest, rs: Records, trace: Trace): seq<Outcome>
    decreases |trace|
  {
    if |trace| == 0 then []
    else
      var (rs1, o) := MemoryStep(digest, rs, trace[0].1, trace[0].0);
      [o] + Outcomes(digest, rs1, trace[1..])
  }

  function SqlOutcomes(digest: Digest, t: Table, trace: Trace): seq<Outcome>
    decreases |trace|
  {
    if |trace| == 0 then []
    else
      var (t1, o) := SqlStep(digest, t, trace[0].1, trace[0].0);
      [o] + SqlOutcomes(digest, t1, trace[1..])
  }

  /** Some step of the in-memory run clashes. */
  predicate ClashIn(digest: Digest, rs: Records, trace: Trace)
    decreases |trace|
  {
    |trace| > 0 && (|| Clash(digest, rs, trace[0].1, trace[0].0)
                    || ClashIn(digest, MemoryStep(digest, rs, trace[0].1, trace[0].0).0, trace[1..]))
  }

  /** The SQLite store gives the in-memory store's outcomes over exactly the runs in which nothing clashes. */
  lemma {:induction false} RefineRun(digest: Digest, rs: Records, t: Table, trace: Trace)
    requires Related(rs, t)
    ensures Outcomes(digest, rs, trace) == SqlOutcomes(digest, t, trace) <==> !ClashIn(digest, rs, trace)
    decreases |trace|
  {
    hide Related, MemoryStep, SqlStep, Clash;
    if |trace| > 0 {
      var (now, op) := trace[0];
      var (rs1, x) := MemoryStep(digest, rs, op, now);
      var (t1, y) := SqlStep(digest, t, op, now);
      RefineStep(digest, rs, t, op, now);
      var xs, ys := Outcomes(digest, rs1, trace[1..]), SqlOutcomes(digest, t1, trace[1..]);
      assert ([x] + xs)[0] == x && ([y] + ys)[0] == y && ([x] + xs)[1..] == xs && ([y] + ys)[1..] == ys;
      if !Clash(digest, rs, op, now) {
        RefineRun(digest, rs1, t1, trace[1..]);
      }
    }
  }

  // ---- SQLite runs, clashes included ----

  datatype Store = InMemory | InSqlite

  /** Either store on records: SQLite is the in-memory store with clashes refused. */
  function StoreStep(store: Store, digest: Digest, rs: Records, op: Op, now: Instant): (Records, Outcome) {
    if store.InSqlite? && Clash(digest, rs, op, now) then (rs, Refused(IntegrityError))
    else MemoryStep(digest, rs, op, now)
  }

  function StoreAfter(store: Store, digest: Digest, rs: Records, trace: Trace): Records
    decreases |trace|
  {
    if |trace| == 0 then rs
    else StoreAfter(store, digest, StoreStep(store, digest, rs, trace[0].1, trace[0].0).0, trace[1..])
  }

  function StoreOutcomes(store: Store, digest: Digest, rs: Records, trace: Trace): seq<Outcome>
    decreases |trace|
  {
    if |trace| == 0 then []
    else
      var (rs1, o) := StoreStep(store, digest, rs, trace[0].1, trace[0].0);
      [o] + StoreOutcomes(store, digest, rs1, trace[1..])
  }

  function SqlAfter(digest: Digest, t: Table, trace: Trace): Table
    decreases |trace|
  {
    if |trace| == 0 then t else SqlAfter(digest, SqlStep(digest, t, trace[0].1, trace[0].0).0, trace[1..])
  }

  /** One SQLite step, whatever the operation. */
  lemma RefineAnyStep(digest: Digest, rs: Records, t: Table, op: Op, now: Instant)
    requires Related(rs, t)
    ensures var (rs', o) := StoreStep(InSqlite, digest, rs, op, now);
            var (t', p) := SqlStep(digest, t, op, now);
            o == p && Related(rs', t')
  {
    hide Related, MemoryStep, SqlStep, Clash;
    RefineStep(digest, rs, t, op, now);
  }

  /** Every SQLite run, past any refused clash, is the run of the in-memory steps that do not clash. */
  lemma {:induction false} RefineAnyRun(digest: Digest, rs: Records, t: Table, trace: Trace)
    requires Related(rs, t)
    ensures StoreOutcomes(InSqlite, digest, rs, trace) == SqlOutcomes(digest, t, trace)
    ensures Related(StoreAfter(InSqlite, digest, rs, trace), SqlAfter(digest, t, trace))
    decreases |trace|
  {
    hide Related, StoreStep, SqlStep;
    if |trace| > 0 {
      var (now, op) := trace[0];
      RefineAnyStep(digest, rs, t, op, now);
      RefineAnyRun(digest, StoreStep(InSqlite, digest, rs, op, now).0, SqlStep(digest, t, op, now).0, trace[1..]);
    }
  }

  /** Two fresh stores are related. */
  lemma FreshRelated()
    ensures Related([], []) && WellKept([])
  {
  }

  /** Two issues and a claim of the first, from an empty in-memory store. */
  lemma TwoIssued(digest: Digest, a: Op, b: Op, flow: string, now: Instant)
    requires a.Issue? && b.Issue? && a.id != b.id && digest(a.token) != digest(b.token) && a.token != "" && flow != ""
    requires NewCapability(a, now).Success? && NewCapability(b, now).Success?
    ensures var (x, y) := (NewCapability(a, now).value, NewCapability(b, now).value);
            var rs := [Entry(digest(a.token), x), Entry(digest(b.token), y)];
            && MemoryStep(digest, [], a, now).0 == [rs[0]] && MemoryStep(digest, [rs[0]], b, now).0 == rs
            && MemoryStep(digest, rs, Claim(a.token, flow, a.purpose), now).0
               == rs[0 := Entry(digest(a.token), x.(claimedFlow := Some(flow), claimedAt := Some(now)))]
  {
    hide NewCapability;
    var (x, y) := (NewCapability(a, now).value, NewCapability(b, now).value);
    IssuedPurpose(a, now);
    assert First([], WithId(a.id)) == -1;
    assert First([Entry(digest(a.token), x)], WithId(b.id)) == -1;
    var rs := [Entry(digest(a.token), x), Entry(digest(b.token), y)];
    assert WithDigest(digest(a.token))(rs[0]) && First(rs, WithDigest(digest(a.token))) == 0;
  }

  lemma IssuedPurpose(op: Op, now: Instant)
    requires op.Issue?
    ensures NewCapability(op, now).Success? ==> NewCapability(op, now).value.purpose == op.purpose
  {
  }

  /** From empty stores, one flow that claims two issued capabilities: the in-memory store lets it. */
  lemma DoubleClaimDiffers(digest: Digest, a: Op, b: Op, flow: string, now: Instant)
    requires a.Issue? && b.Issue? && a.id != b.id && digest(a.token) != digest(b.token)
    requires a.token != "" && b.token != "" && flow != ""
    requires NewCapability(a, now).Success? && NewCapability(b, now).Success?
    ensures var trace := [(now, a), (now, b), (now, Claim(a.token, flow, a.purpose)),
                          (now, Claim(b.token, flow, b.purpose))];
            Outcomes(digest, [], trace) != SqlOutcomes(digest, [], trace)
  {
    hide MemoryStep, NewCapability, Clash;
    var claimA, claimB := Claim(a.token, flow, a.purpose), Claim(b.token, flow, b.purpose);
    var trace := [(now, a), (now, b), (now, claimA), (now, claimB)];
    TwoIssued(digest, a, b, flow, now);
    IssuedPurpose(b, now);
    var (x, y) := (NewCapability(a, now).value, NewCapability(b, now).value);
    var rs1 := [Entry(digest(a.token), x)];
    var rs2 := [Entry(digest(a.token), x), Entry(digest(b.token), y)];
    var rs3 := rs2[0 := Entry(digest(a.token), x.(claimedFlow := Some(flow), claimedAt := Some(now)))];
    SecondClaimClashes(digest, rs3, b.token, flow, y, now);
    assert trace[1..][1..][1..] == [(now, claimB)] && trace[1..][1..] == [(now, claimA), (now, claimB)];
    assert ClashIn(digest, rs3, [(now, claimB)]);
    assert ClashIn(digest, rs2, trace[1..][1..]);
    assert ClashIn(digest, rs1, trace[1..]);
    assert ClashIn(digest, [], trace);
    FreshRelated();
    RefineRun(digest, [], [], trace);
  }

  lemma SecondClaimClashes(digest: Digest, rs: Records, token: string, flow: string, cap: Capability, now: Instant)
    requires |rs| == 2 && rs[0].cap.claimedFlow == Some(flow) && rs[1] == Entry(digest(token), cap)
    requires token != "" && flow != "" && Claimable(cap, flow, cap.purpose, now) && cap.claimedFlow.None?
    ensures Clash(digest, rs, Claim(token, flow, cap.purpose), now)
  {
    assert rs[1].digest == digest(token) && Claimable(rs[1].cap, flow, cap.purpose, now)
        && rs[0].cap.claimedFlow == Some(flow);
  }

  // ---- From an empty store ----

  /** One issue leaves one open capability in either store. */
  lemma FirstIssue(digest: Digest, op: Op, t0: Instant)
    requires op.Issue? && NewCapability(op, t0).Success?
    ensures var e := Entry(digest(op.token), NewCapability(op, t0).value);
            && MemoryStep(digest, [], op, t0) == ([e], Issued(e.cap))
            && SqlStep(digest, [], op, t0) == ([RowOf(e)], Issued(e.cap)) && Related([e], [RowOf(e)])
  {
    hide NewCapability, RowOf;
    CapabilityFields(op, t0);
    var e := Entry(digest(op.token), NewCapability(op, t0).value);
    var none: Records, rows: Table := [], [];
    assert First(none, WithId(op.id)) == -1;
    assert none + [e] == [e] && rows + [RowOf(e)] == [RowOf(e)];
  }

  /**
    From an empty store of either kind: after one issue a claim succeeds exactly with the issued token
    and purpose, by a named flow, before the lifetime in seconds has passed, and returns that
    capability bound to the flow.
  */
  lemma IssueThenClaim(digest: Digest, op: Op, t0: Instant, token: string, flow: string, purpose: Purpose, t: Instant)
    requires op.Issue? && NewCapability(op, t0).Success?
    ensures var claim := Claim(token, flow, purpose);
            var o := MemoryStep(digest, MemoryStep(digest, [], op, t0).0, claim, t).1;
            && o == SqlStep(digest, SqlStep(digest, [], op, t0).0, claim, t).1
            && o == if && token != "" && flow != "" && digest(token) == digest(op.token) && purpose == op.purpose
                       && t < t0 + op.ttl * 1_000_000
                    then Claimed(Capability(op.id, op.purpose, op.subject, t0 + op.ttl * 1_000_000, op.issuedBy,
                                            Some(flow), Some(t), None, None))
                    else Refused(Unavailable)
  {
    hide NewCapability, SqlClaim, RowOf, Related;
    FirstIssue(digest, op, t0);
    CapabilityFields(op, t0);
    var e := Entry(digest(op.token), NewCapability(op, t0).value);
    assert First([e], WithDigest(digest(token))) == if digest(token) == digest(op.token) then 0 else -1 by {
      assert WithDigest(digest(token))(e) <==> digest(token) == digest(op.token);
    }
    RefineStep(digest, [e], [RowOf(e)], Claim(token, flow, purpose), t);
  }
}
