/** OAuth scope strings: parsing, the duplicate check, and the scope a client is allowed. */
module Scopes {
  import opened Wrappers
  import opened Text

  datatype ScopeError = DuplicateScope

  predicate Distinct(ws: seq<string>) {
    forall i, j | 0 <= i < j < |ws| :: ws[i] != ws[j]
  }

  function ScopeString(scope: Option<string>): string {
    match scope case None => "" case Some(s) => Strip(s)
  }

  function ScopeTuple(scope: Option<string>): Result<seq<string>, ScopeError> {
    var value := ScopeString(scope);
    if value == "" then Success([])
    else if !Distinct(Split(value)) then Failure(DuplicateScope)
    else Success(Split(value))
  }

  /** The scope string a client may have: everything for no request, nothing for one item too many. */
  function GetAllowedScope(allowed: seq<string>, scope: Option<string>): Result<Option<string>, ScopeError> {
    match ScopeTuple(scope)
    case Failure(e) => Failure(e)
    case Success(requested) =>
      if |requested| == 0 then Success(Some(Join(allowed)))
      else if exists i | 0 <= i < |requested| :: requested[i] !in allowed then Success(None)
      else Success(Some(Join(requested)))
  }

  /** The parsed scope is the list of words of the text, refused exactly when one repeats. */
  lemma TupleIsSplit(s: string)
    ensures ScopeTuple(Some(s)) == if Distinct(Split(s)) then Success(Split(s)) else Failure(DuplicateScope)
  {
    SplitStrip(s);
  }

  /** A scope written by joining its items reads back as those items. */
  lemma TupleOfJoin(ws: seq<string>)
    requires AllWords(ws)
    ensures ScopeTuple(Some(Join(ws))) == if Distinct(ws) then Success(ws) else Failure(DuplicateScope)
  {
    TupleIsSplit(Join(ws));
    SplitJoin(ws);
  }

  /** A granted scope reads back as exactly the requested items, all of them the client's; no item is added or lost. */
  lemma GrantedIsRequested(allowed: seq<string>, ws: seq<string>)
    requires AllWords(ws) && |ws| > 0
    ensures var granted := GetAllowedScope(allowed, Some(Join(ws)));
            && (granted.Failure? <==> !Distinct(ws))
            && (granted.Success? && granted.value.None? <==> Distinct(ws) && exists i | 0 <= i < |ws| ::
                  ws[i] !in allowed)
            && (granted.Success? && granted.value.Some? ==>
                  granted.value.value == Join(ws) && Split(granted.value.value) == ws)
  {
    TupleOfJoin(ws);
    SplitJoin(ws);
  }

  /** Asking again for what was granted grants the same. */
  lemma GrantIsStable(allowed: seq<string>, scope: Option<string>, granted: string)
    requires AllWords(allowed) && Distinct(allowed)
    requires GetAllowedScope(allowed, scope) == Success(Some(granted))
    ensures GetAllowedScope(allowed, Some(granted)) == Success(Some(granted))
  {
    var requested := ScopeTuple(scope).value;
    var words := if |requested| == 0 then allowed else requested;
    SplitWords(ScopeString(scope));
    TupleOfJoin(words);
  }

  /** A request for nothing is granted everything the client has, item by item. */
  lemma EmptyRequestGrantsAll(allowed: seq<string>, scope: Option<string>)
    requires AllWords(allowed) && (scope.Some? ==> Split(scope.value) == [])
    ensures GetAllowedScope(allowed, scope).Success? && GetAllowedScope(allowed, scope).value.Some?
    ensures Split(GetAllowedScope(allowed, scope).value.value) == allowed
  {
    SplitJoin(allowed);
    if scope.Some? { TupleIsSplit(scope.value); }
  }
}
