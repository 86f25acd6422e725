/**
 * Bearer token validation while tokens are rotated. `validateMcpBearerToken` suspends at each
 * database call: it looks the token up, compares it with the stored API token, and if that
 * matches it refreshes the legacy row, which clears its revocation. An ensure or a rotation
 * suspends at each of its own calls, and revokes the rows before it stores the new API token.
 * Whether an old token is cut off for good depends on how these steps interleave.
 *
 * Operations may overlap here in any way; the lock around them only allows fewer runs.
 */
module TokenRefresh {
  import opened Prelude
  import opened TokenStore
  import OrgTokenProtocol

  /** Each constructor but the last names the database call a validation is suspended at. */
  datatype Validation =
    | Looking(token: Token)
    | Comparing(token: Token)
    | Refreshing(token: Token)                             // looking for the legacy row
    | Writing(token: Token, existing: Option<string>)      // updating it, or inserting it
    | Answered(token: Token, identity: Option<Identity>)

  datatype Operation = Operation(request: OrgTokenProtocol.Request, work: OrgTokenProtocol.Work)

  datatype State = State(db: Db, now: int, validations: seq<Validation>, operations: seq<Operation>)

  /** The last four are the other routes that touch the table or the API token, and the passing of time. */
  datatype Event =
    | Arrive(token: Token)
    | Resume(validation: nat)
    | Call(request: OrgTokenProtocol.Request)
    | DbCall(operation: nat, draw: Draw)
    | IssueElsewhere(row: Row)
    | RevokeElsewhere(id: string)
    | StoreElsewhere(token: Token)
    | Tick(now: int)

  /** The validation has found its token to be the stored one, and has not written the legacy row yet. */
  predicate Pending(v: Validation, token: Token) {
    (v.Refreshing? || v.Writing?) && v.token == token
  }

  ghost predicate SomePending(s: State, token: Token) {
    exists i :: 0 <= i < |s.validations| && Pending(s.validations[i], token)
  }

  /** A new random token occurs nowhere yet. */
  ghost predicate Fresh(s: State, token: Token) {
    && s.db.apiToken != Some(token)
    && (forall i :: 0 <= i < |s.db.rows| ==> s.db.rows[i].hash != Hash(token))
    && !SomePending(s, token)
  }

  /** The table takes a row with a new id and a new hash. */
  ghost predicate Accepts(s: State, row: Row) {
    Fresh(s, row.hash.token) && !HasId(s.db.rows, row.id) && row.id != LEGACY_DEFAULT_PAT_ID
  }

  predicate StoresToken(work: OrgTokenProtocol.Work) {
    work.Regenerating? || work.RegeneratingLegacy?
  }

  ghost predicate Possible(s: State, e: Event) {
    match e
    case Resume(v) => v < |s.validations| && !s.validations[v].Answered?
    case DbCall(o, draw) =>
      && o < |s.operations|
      && var op := s.operations[o];
         && OrgTokenProtocol.CanAdvance(op.request, op.work)
         && (StoresToken(op.work) ==> Fresh(s, draw.apiToken))
         && (op.work.Creating? ==> Accepts(s, NewOrgPat(draw.id, draw.token, op.request.expires)))
    case IssueElsewhere(row) => row.tokenType != LegacyDefault && Accepts(s, row)
    case StoreElsewhere(token) => Fresh(s, token)
    case Tick(now) => s.now <= now
    case _ => true
  }

  function Rehash(rows: seq<Row>, id: string, h: Hash): (r: seq<Row>)
    ensures |r| == |rows|
  {
    seq(|rows|, i requires 0 <= i < |rows| =>
      if rows[i].id == id then rows[i].(hash := h, revoked := false) else rows[i])
  }

  /** An update of the row that was found, or an insert that turns into an update if the id is taken by now. */
  function WriteLegacy(rows: seq<Row>, existing: Option<string>, h: Hash): seq<Row> {
    if existing.Some? then Rehash(rows, existing.value, h)
    else if HasId(rows, LEGACY_DEFAULT_PAT_ID) then Rehash(rows, LEGACY_DEFAULT_PAT_ID, h)
    else [Row(LEGACY_DEFAULT_PAT_ID, h, Org, None, None, LegacyDefault, Never, false)] + rows
  }

  function LegacyId(rows: seq<Row>): Option<string> {
    FirstLegacyIsLegacy(rows);
    var i := FirstLegacy(rows);
    if i.Some? then Some(rows[i.value].id) else None
  }

  function Advance(validation: Validation, db: Db, now: int): (Validation, Db)
    requires !validation.Answered?
  {
    var token := validation.token;
    match validation
    case Looking(_) =>
      var row := FindByHash(db.rows, Hash(token));
      if row.Some? && IsTokenUsable(row.value, now) then (Answered(token, Some(IdentityOf(row.value))), db)
      else (Comparing(token), db)
    case Comparing(_) => (if db.apiToken == Some(token) then Refreshing(token) else Answered(token, None), db)
    case Refreshing(_) => (Writing(token, LegacyId(db.rows)), db)
    case Writing(_, existing) =>
      (Answered(token, Some(LEGACY_IDENTITY)), db.(rows := WriteLegacy(db.rows, existing, Hash(token))))
  }

  ghost function Step(s: State, e: Event): State
    requires Possible(s, e)
  {
    match e
    case Arrive(token) => s.(validations := s.validations + [Looking(token)])
    case Resume(v) =>
      var (validation, db) := Advance(s.validations[v], s.db, s.now);
      s.(validations := s.validations[v := validation], db := db)
    case Call(request) => s.(operations := s.operations + [Operation(request, OrgTokenProtocol.Listing)])
    case DbCall(o, draw) =>
      var op := s.operations[o];
      var (work, db) := OrgTokenProtocol.Advance(op.request, op.work, s.db, s.now, draw);
      s.(operations := s.operations[o := op.(work := work)], db := db)
    case IssueElsewhere(row) => s.(db := s.db.(rows := [row] + s.db.rows))
    case RevokeElsewhere(id) => s.(db := s.db.(rows := Revoke(s.db.rows, id)))
    case StoreElsewhere(token) => s.(db := s.db.(apiToken := Some(token)))
    case Tick(now) => s.(now := now)
  }

  ghost predicate ValidFrom(s: State, es: seq<Event>)
    decreases es
  {
    es == [] || (Possible(s, es[0]) && ValidFrom(Step(s, es[0]), es[1..]))
  }

  ghost function RunFrom(s: State, es: seq<Event>): State
    requires ValidFrom(s, es)
    decreases es
  {
    if es == [] then s else RunFrom(Step(s, es[0]), es[1..])
  }

  lemma {:induction false} OneMore(s: State, es: seq<Event>, e: Event)
    requires ValidFrom(s, es) && Possible(RunFrom(s, es), e)
    ensures ValidFrom(s, es + [e]) && RunFrom(s, es + [e]) == Step(RunFrom(s, es), e)
    decreases es
  {
    var all := es + [e];
    if es == [] {
      assert all[1..] == [] && ValidFrom(Step(s, e), []);
    } else {
      OneMore(Step(s, es[0]), es[1..], e);
      assert all[1..] == es[1..] + [e];
    }
  }

  /** What a request with this token would be told now. */
  function Resolve(s: State, token: Token): Option<Identity> {
    Validate(s.db, token, s.now).1
  }

  // ---------------------------------------------------------------------------
  // What every run keeps
  // ---------------------------------------------------------------------------

  /** Token hashes are unique, and there is at most one legacy row, known by its id and without an expiry. */
  ghost predicate Table(rows: seq<Row>) {
    && DistinctIds(rows) && DistinctHashes(rows)
    && (forall i :: 0 <= i < |rows| ==> LegacyFits(rows[i]))
  }

  predicate LegacyFits(r: Row) {
    && (r.tokenType == LegacyDefault <==> r.id == LEGACY_DEFAULT_PAT_ID)
    && (r.tokenType == LegacyDefault ==> OrgWide(r) && r.expires == Never)
  }

  /** An API token is not also somebody's access token: at most the legacy row carries its hash. */
  ghost predicate OnlyLegacyHas(rows: seq<Row>, token: Token) {
    forall i :: 0 <= i < |rows| && rows[i].hash == Hash(token) ==> rows[i].tokenType == LegacyDefault
  }

  ghost predicate ValidationFits(rows: seq<Row>, v: Validation) {
    && (v.Refreshing? || v.Writing? ==> OnlyLegacyHas(rows, v.token))
    && (v.Writing? && v.existing.Some?
        ==> v.existing.value == LEGACY_DEFAULT_PAT_ID && HasId(rows, LEGACY_DEFAULT_PAT_ID))
  }

  ghost predicate Inv(s: State) {
    && Table(s.db.rows)
    && (s.db.apiToken.Some? ==> OnlyLegacyHas(s.db.rows, s.db.apiToken.value))
    && (forall i :: 0 <= i < |s.validations| ==> ValidationFits(s.db.rows, s.validations[i]))
  }

  /** Rows that differ at most in being revoked. */
  ghost predicate OnlyRevoked(rows: seq<Row>, rows': seq<Row>) {
    |rows'| == |rows| && forall i :: 0 <= i < |rows| ==> rows'[i] == rows[i] || rows'[i] == rows[i].(revoked := true)
  }

  lemma RevokedRowsFit(s: State, rows: seq<Row>)
    requires Inv(s) && OnlyRevoked(s.db.rows, rows)
    ensures Inv(s.(db := s.db.(rows := rows)))
  {
    forall i | 0 <= i < |s.validations|
      ensures ValidationFits(rows, s.validations[i])
    {
      assert ValidationFits(s.db.rows, s.validations[i]);
      SameIds(s.db.rows, rows);
    }
  }

  lemma SameIds(rows: seq<Row>, rows': seq<Row>)
    requires |rows'| == |rows| && forall i :: 0 <= i < |rows| ==> rows'[i].id == rows[i].id
    ensures forall x :: HasId(rows, x) ==> HasId(rows', x)
  {
    forall x | HasId(rows, x)
      ensures HasId(rows', x)
    {
      var i :| 0 <= i < |rows| && rows[i].id == x;
      assert rows'[i].id == x;
    }
  }

  lemma AddedRowFits(s: State, row: Row)
    requires Inv(s) && Accepts(s, row) && row.tokenType != LegacyDefault
    ensures Inv(s.(db := s.db.(rows := [row] + s.db.rows)))
  {
    var rows := [row] + s.db.rows;
    assert forall i :: 1 <= i < |rows| ==> rows[i] == s.db.rows[i - 1];
    assert Table(rows) by {
      forall i, j | 0 <= i < j < |rows|
        ensures rows[i].id != rows[j].id && rows[i].hash != rows[j].hash
      {
        assert rows[j] == s.db.rows[j - 1];
      }
    }
    forall i | 0 <= i < |s.validations|
      ensures ValidationFits(rows, s.validations[i])
    {
      assert ValidationFits(s.db.rows, s.validations[i]);
      assert !Pending(s.validations[i], row.hash.token);
      if HasId(s.db.rows, LEGACY_DEFAULT_PAT_ID) {
        var k :| 0 <= k < |s.db.rows| && s.db.rows[k].id == LEGACY_DEFAULT_PAT_ID;
        assert rows[k + 1].id == LEGACY_DEFAULT_PAT_ID;
      }
    }
  }

  /** Writing the legacy row changes no other row. */
  lemma WriteLegacyKeepsOthers(rows: seq<Row>, existing: Option<string>, h: Hash)
    requires Table(rows) && (existing.Some? ==> existing.value == LEGACY_DEFAULT_PAT_ID && HasId(rows, existing.value))
    ensures var rows' := WriteLegacy(rows, existing, h);
            && |rows'| == |rows| + (if HasId(rows, LEGACY_DEFAULT_PAT_ID) then 0 else 1)
            && (forall i :: 0 <= i < |rows| ==>
                  rows'[i + |rows'| - |rows|]
                  == if rows[i].tokenType == LegacyDefault then rows[i].(hash := h, revoked := false) else rows[i])
  {
    assert forall i :: 0 <= i < |rows| ==> LegacyFits(rows[i]);
  }

  /** Afterwards the legacy row alone carries the hash, usable for good. */
  lemma WriteLegacyFits(rows: seq<Row>, existing: Option<string>, token: Token)
    requires Table(rows) && OnlyLegacyHas(rows, token) && ValidationFits(rows, Writing(token, existing))
    ensures var rows' := WriteLegacy(rows, existing, Hash(token));
            && Table(rows') && HasId(rows', LEGACY_DEFAULT_PAT_ID)
            && (forall t :: OnlyLegacyHas(rows, t) ==> OnlyLegacyHas(rows', t))
            && (exists k :: 0 <= k < |rows'| && rows'[k].hash == Hash(token) && !rows'[k].revoked
                            && rows'[k].expires == Never)
  {
    var rows' := WriteLegacy(rows, existing, Hash(token));
    if HasId(rows, LEGACY_DEFAULT_PAT_ID) {
      assert rows' == Rehash(rows, LEGACY_DEFAULT_PAT_ID, Hash(token));
      var k :| 0 <= k < |rows| && rows[k].id == LEGACY_DEFAULT_PAT_ID;
      assert LegacyFits(rows[k]);
      assert rows'[k].id == LEGACY_DEFAULT_PAT_ID;
      forall i, j | 0 <= i < j < |rows'|
        ensures rows'[i].id != rows'[j].id && rows'[i].hash != rows'[j].hash
      {
        assert rows[i].id != rows[j].id && LegacyFits(rows[i]) && LegacyFits(rows[j]);
      }
      assert forall i :: 0 <= i < |rows'| ==> LegacyFits(rows[i]) && LegacyFits(rows'[i]);
    } else {
      assert rows'[0].id == LEGACY_DEFAULT_PAT_ID;
      assert forall i :: 1 <= i < |rows'| ==> rows'[i] == rows[i - 1];
      forall i, j | 0 <= i < j < |rows'|
        ensures rows'[i].id != rows'[j].id && rows'[i].hash != rows'[j].hash
      {
        assert rows'[j] == rows[j - 1] && LegacyFits(rows[j - 1]);
      }
    }
  }

  lemma LegacyIdFits(rows: seq<Row>)
    requires Table(rows)
    ensures LegacyId(rows).Some? ==> LegacyId(rows).value == LEGACY_DEFAULT_PAT_ID && HasId(rows, LEGACY_DEFAULT_PAT_ID)
  {
    FirstLegacyIsLegacy(rows);
    var i := FirstLegacy(rows);
    if i.Some? {
      assert LegacyFits(rows[i.value]);
    }
  }

  lemma ResumeKeepsInv(s: State, v: nat)
    requires Inv(s) && Possible(s, Resume(v))
    ensures Inv(Step(s, Resume(v)))
  {
    var s' := Step(s, Resume(v));
    var validation := s.validations[v];
    assert ValidationFits(s.db.rows, validation);
    LegacyIdFits(s.db.rows);
    if validation.Writing? {
      WriteLegacyFits(s.db.rows, validation.existing, validation.token);
    }
    forall i | 0 <= i < |s'.validations|
      ensures ValidationFits(s'.db.rows, s'.validations[i])
    {
      assert ValidationFits(s.db.rows, s.validations[i]);
    }
  }

  lemma DbCallKeepsInv(s: State, o: nat, draw: Draw)
    requires Inv(s) && Possible(s, DbCall(o, draw))
    ensures Inv(Step(s, DbCall(o, draw)))
  {
    var op := s.operations[o];
    match op.work
    case RevokingLegacy(legacy, _) => RevokedRowsFit(s, Revoke(s.db.rows, legacy[0]));
    case Revoking(ids, _) => RevokedRowsFit(s, Revoke(s.db.rows, ids[0]));
    case Creating => AddedRowFits(s, NewOrgPat(draw.id, draw.token, op.request.expires));
    case _ =>
  }

  lemma StepKeepsInv(s: State, e: Event)
    requires Inv(s) && Possible(s, e)
    ensures Inv(Step(s, e))
  {
    match e
    case Resume(v) => ResumeKeepsInv(s, v);
    case DbCall(o, draw) => DbCallKeepsInv(s, o, draw);
    case IssueElsewhere(row) => AddedRowFits(s, row);
    case RevokeElsewhere(id) => RevokedRowsFit(s, Revoke(s.db.rows, id));
    case _ =>
  }

  lemma {:induction false} RunKeepsInv(s: State, es: seq<Event>)
    requires Inv(s) && ValidFrom(s, es)
    ensures Inv(RunFrom(s, es))
    decreases es
  {
    if es != [] {
      StepKeepsInv(s, es[0]);
      RunKeepsInv(Step(s, es[0]), es[1..]);
    }
  }

  /** The other routes add their row, revoke the rows of their id, or replace the API token, and do nothing else. */
  lemma ElsewhereEffect(s: State, e: Event)
    requires Possible(s, e) && (e.IssueElsewhere? || e.RevokeElsewhere? || e.StoreElsewhere?)
    ensures var s' := Step(s, e);
            && s'.validations == s.validations && s'.operations == s.operations && s'.now == s.now
            && (e.IssueElsewhere? ==> s'.db == Db([e.row] + s.db.rows, s.db.apiToken))
            && (e.StoreElsewhere? ==> s'.db == Db(s.db.rows, Some(e.token)))
            && (e.RevokeElsewhere? ==>
                  && s'.db.apiToken == s.db.apiToken && |s'.db.rows| == |s.db.rows|
                  && forall i :: 0 <= i < |s.db.rows| ==>
                       s'.db.rows[i] == s.db.rows[i].(revoked := s.db.rows[i].revoked || s.db.rows[i].id == e.id))
  {
  }

  // ----- one validation on its own -----

  function RunAlone(validation: Validation, db: Db, now: int): (Db, Option<Identity>)
    decreases match validation
              case Looking(_) => 4
              case Comparing(_) => 3
              case Refreshing(_) => 2
              case Writing(_, _) => 1
              case Answered(_, _) => 0
  {
    if validation.Answered? then (db, validation.identity)
    else
      var (validation', db') := Advance(validation, db, now);
      RunAlone(validation', db', now)
  }

  lemma WriteIsUpsert(rows: seq<Row>, h: Hash)
    requires Table(rows)
    ensures WriteLegacy(rows, LegacyId(rows), h) == UpsertLegacyDefault(rows, h)
  {
    FirstLegacyIsLegacy(rows);
    var i := FirstLegacy(rows);
    if i.Some? {
      LegacyIdFits(rows);
      assert rows[i.value].id == LEGACY_DEFAULT_PAT_ID;
    } else {
      NoLegacyMeansNone(rows);
      assert forall k :: 0 <= k < |rows| ==> LegacyFits(rows[k]);
    }
  }

  /** Uninterrupted, the steps compute the sequential validation. */
  lemma {:induction false} ValidateAlone(db: Db, token: Token, now: int)
    requires Table(db.rows)
    ensures RunAlone(Looking(token), db, now) == Validate(db, token, now)
  {
    var (next, _) := Advance(Looking(token), db, now);
    if next.Comparing? {
      var (last, _) := Advance(next, db, now);
      assert RunAlone(next, db, now) == RunAlone(last, db, now);
      if last.Refreshing? {
        WriteIsUpsert(db.rows, Hash(token));
        var writing := Writing(token, LegacyId(db.rows));
        var (answered, db') := Advance(writing, db, now);
        assert RunAlone(last, db, now) == RunAlone(writing, db, now) == RunAlone(answered, db', now);
      }
    }
  }

  // ---------------------------------------------------------------------------
  // A token that is cut off stays cut off
  // ---------------------------------------------------------------------------

  ghost predicate NoUsableRow(rows: seq<Row>, token: Token, now: int) {
    forall i :: 0 <= i < |rows| && rows[i].hash == Hash(token) ==> !IsTokenUsable(rows[i], now)
  }

  /** No row, no stored token and no suspended validation can make the token resolve again. */
  ghost predicate CutOff(s: State, token: Token) {
    s.db.apiToken != Some(token) && !SomePending(s, token) && NoUsableRow(s.db.rows, token, s.now)
  }

  /** Random values never repeat an old token. */
  predicate Avoids(e: Event, token: Token) {
    match e
    case DbCall(_, draw) => draw.token != token && draw.apiToken != token
    case IssueElsewhere(row) => row.hash != Hash(token)
    case StoreElsewhere(stored) => stored != token
    case _ => true
  }

  ghost predicate AllAvoid(es: seq<Event>, token: Token) {
    forall i :: 0 <= i < |es| ==> Avoids(es[i], token)
  }

  /** The step writes the legacy row for this token. */
  predicate Restores(s: State, e: Event, token: Token) {
    e.Resume? && e.validation < |s.validations|
    && s.validations[e.validation].Writing? && s.validations[e.validation].token == token
  }

  /** Any other step makes no row with the token's hash, and none usable that was not. */
  lemma RowsOnlyLose(s: State, e: Event, token: Token, i: nat)
    requires Possible(s, e) && Avoids(e, token) && !Restores(s, e, token)
    requires i < |Step(s, e).db.rows| && Step(s, e).db.rows[i].hash == Hash(token)
    ensures var r := Step(s, e).db.rows[i];
            exists k :: 0 <= k < |s.db.rows| && (r == s.db.rows[k] || r == s.db.rows[k].(revoked := true))
  {
    var rows, rows' := s.db.rows, Step(s, e).db.rows;
    if |rows'| == |rows| {
      assert rows'[i] == rows[i] || rows'[i] == rows[i].(revoked := true);
    } else {
      assert i > 0 && rows'[i] == rows[i - 1];
    }
  }

  lemma StepKeepsCutOff(s: State, e: Event, token: Token)
    requires CutOff(s, token) && Possible(s, e) && Avoids(e, token)
    ensures CutOff(Step(s, e), token)
  {
    var s' := Step(s, e);
    if e.Resume? {
      assert !Pending(s.validations[e.validation], token);
    }
    forall i | 0 <= i < |s'.db.rows| && s'.db.rows[i].hash == Hash(token)
      ensures !IsTokenUsable(s'.db.rows[i], s'.now)
    {
      RowsOnlyLose(s, e, token, i);
    }
    assert !SomePending(s', token) by {
      assert forall i :: 0 <= i < |s.validations| ==> !Pending(s.validations[i], token);
    }
  }

  lemma {:induction false} RunKeepsCutOff(s: State, es: seq<Event>, token: Token)
    requires CutOff(s, token) && ValidFrom(s, es) && AllAvoid(es, token)
    ensures CutOff(RunFrom(s, es), token)
    decreases es
  {
    if es != [] {
      StepKeepsCutOff(s, es[0], token);
      RunKeepsCutOff(Step(s, es[0]), es[1..], token);
    }
  }

  lemma CutOffResolvesToNothing(s: State, token: Token)
    requires CutOff(s, token)
    ensures Resolve(s, token) == None
  {
    FindIsMember(s.db.rows, Hash(token));
  }

  // ---------------------------------------------------------------------------
  // The exact condition
  // ---------------------------------------------------------------------------

  /** Whatever validations, operations and other requests follow, the token never resolves again. */
  ghost predicate NeverResolves(s: State, token: Token) {
    forall rest :: ValidFrom(s, rest) && AllAvoid(rest, token) ==> Resolve(RunFrom(s, rest), token) == None
  }

  ghost predicate Stores(s: State, e: Event) {
    e.StoreElsewhere? || (e.DbCall? && e.operation < |s.operations| && StoresToken(s.operations[e.operation].work))
  }

  lemma UsableRowResolves(s: State, token: Token, i: nat)
    requires Table(s.db.rows) && i < |s.db.rows| && s.db.rows[i].hash == Hash(token)
    requires IsTokenUsable(s.db.rows[i], s.now)
    ensures Resolve(s, token).Some?
  {
    FirstIsFound(s.db.rows, i, Hash(token));
  }

  /** A write that is under way restores its token. */
  lemma WriteRestores(s: State, v: nat)
    requires Inv(s) && v < |s.validations| && s.validations[v].Writing?
    ensures Resolve(Step(s, Resume(v)), s.validations[v].token).Some?
  {
    var validation := s.validations[v];
    assert ValidationFits(s.db.rows, validation);
    WriteLegacyFits(s.db.rows, validation.existing, validation.token);
    var s' := Step(s, Resume(v));
    var k :| 0 <= k < |s'.db.rows| && s'.db.rows[k].hash == Hash(validation.token)
             && !s'.db.rows[k].revoked && s'.db.rows[k].expires == Never;
    UsableRowResolves(s', validation.token, k);
  }

  lemma PendingRestores(s: State, v: nat, token: Token) returns (rest: seq<Event>)
    requires Inv(s) && v < |s.validations| && Pending(s.validations[v], token)
    ensures ValidFrom(s, rest) && AllAvoid(rest, token) && Resolve(RunFrom(s, rest), token).Some?
  {
    var none: seq<Event> := [];
    OneMore(s, none, Resume(v));
    rest := none + [Resume(v)];
    if s.validations[v].Writing? {
      WriteRestores(s, v);
    } else {
      var s1 := Step(s, Resume(v));
      StepKeepsInv(s, Resume(v));
      OneMore(s, rest, Resume(v));
      WriteRestores(s1, v);
      rest := rest + [Resume(v)];
    }
  }

  /**
   * At the step that replaces the stored API token: an old token is cut off for good, whatever follows, if and only
   * if no usable row carries its hash and no validation of it is between its comparison and its write.
   */
  lemma CutOffExactlyWhenNothingCarriesIt(s: State, e: Event, token: Token)
    requires Inv(s) && Possible(s, e) && Stores(s, e) && Avoids(e, token)
    ensures NeverResolves(Step(s, e), token) <==>
            NoUsableRow(s.db.rows, token, s.now) && !SomePending(s, token)
  {
    var s' := Step(s, e);
    StepKeepsInv(s, e);
    assert s'.db.rows == s.db.rows && s'.validations == s.validations && s'.now == s.now;
    if !NoUsableRow(s.db.rows, token, s.now) {
      var i :| 0 <= i < |s.db.rows| && s.db.rows[i].hash == Hash(token) && IsTokenUsable(s.db.rows[i], s.now);
      UsableRowResolves(s', token, i);
      var none: seq<Event> := [];
      assert ValidFrom(s', none) && AllAvoid(none, token) && RunFrom(s', none) == s';
    } else if SomePending(s, token) {
      var v :| 0 <= v < |s.validations| && Pending(s.validations[v], token);
      var rest := PendingRestores(s', v, token);
    } else {
      assert CutOff(s', token);
      forall rest | ValidFrom(s', rest) && AllAvoid(rest, token)
        ensures Resolve(RunFrom(s', rest), token) == None
      {
        RunKeepsCutOff(s', rest, token);
        CutOffResolvesToNothing(RunFrom(s', rest), token);
      }
    }
  }

  // ----- a whole rotation -----

  /** Whatever row carries the token's hash belongs to the organisation. */
  ghost predicate OrgToken(rows: seq<Row>, token: Token) {
    forall i :: 0 <= i < |rows| && rows[i].hash == Hash(token) ==> OrgWide(rows[i])
  }

  /** The rotation has yet to revoke every usable row that carries the token's hash. */
  ghost predicate Plans(s: State, o: nat, token: Token) {
    && o < |s.operations| && s.operations[o].request.RotateToken? && OrgToken(s.db.rows, token)
    && match s.operations[o].work
       case Listing => true
       case Revoking(ids, keeper) =>
         && keeper.None?
         && (forall i :: 0 <= i < |s.db.rows| && s.db.rows[i].hash == Hash(token) && IsTokenUsable(s.db.rows[i], s.now)
                         ==> s.db.rows[i].id in ids)
       case Regenerating => NoUsableRow(s.db.rows, token, s.now)
       case Creating => NoUsableRow(s.db.rows, token, s.now)
       case Finished(_) => NoUsableRow(s.db.rows, token, s.now)
       case _ => false
  }

  lemma OwnStepKeepsPlan(s: State, o: nat, draw: Draw, token: Token)
    requires Plans(s, o, token) && Possible(s, DbCall(o, draw)) && Avoids(DbCall(o, draw), token)
    ensures Plans(Step(s, DbCall(o, draw)), o, token)
  {
    var s' := Step(s, DbCall(o, draw));
    var rows := s.db.rows;
    match s.operations[o].work
    case Listing =>
      forall i | 0 <= i < |rows| && rows[i].hash == Hash(token) && IsTokenUsable(rows[i], s.now)
        ensures rows[i].id in Ids(ActiveOrg(rows, s.now))
      {
        ActiveAreListed(rows, s.now, rows[i]);
      }
    case Revoking(ids, _) =>
      assert ids == [ids[0]] + ids[1..];
    case Regenerating =>
    case Creating =>
      assert forall i :: 1 <= i < |s'.db.rows| ==> s'.db.rows[i] == rows[i - 1];
  }

  lemma OtherStepKeepsPlan(s: State, e: Event, o: nat, token: Token)
    requires Plans(s, o, token) && Possible(s, e) && Avoids(e, token) && !Restores(s, e, token)
    requires e.DbCall? ==> e.operation != o
    ensures Plans(Step(s, e), o, token)
  {
    var s' := Step(s, e);
    assert s'.operations[o] == s.operations[o];
    forall i | 0 <= i < |s'.db.rows| && s'.db.rows[i].hash == Hash(token)
      ensures exists k :: 0 <= k < |s.db.rows|
                          && (s'.db.rows[i] == s.db.rows[k] || s'.db.rows[i] == s.db.rows[k].(revoked := true))
    {
      RowsOnlyLose(s, e, token, i);
    }
  }

  /** No step of the run writes the legacy row for this token. */
  ghost predicate NeverRestored(s: State, es: seq<Event>, token: Token)
    requires ValidFrom(s, es)
    decreases es
  {
    es == [] || (!Restores(s, es[0], token) && NeverRestored(Step(s, es[0]), es[1..], token))
  }

  lemma {:induction false} RunKeepsPlan(s: State, es: seq<Event>, o: nat, token: Token)
    requires Plans(s, o, token) && ValidFrom(s, es) && AllAvoid(es, token) && NeverRestored(s, es, token)
    ensures Plans(RunFrom(s, es), o, token)
    decreases es
  {
    if es != [] {
      if es[0].DbCall? && es[0].operation == o {
        OwnStepKeepsPlan(s, o, es[0].draw, token);
      } else {
        OtherStepKeepsPlan(s, es[0], o, token);
      }
      RunKeepsPlan(Step(s, es[0]), es[1..], o, token);
    }
  }

  /**
   * A rotation in steps, with anything in between, from its listing to the moment it stores the new API token: if no
   * validation of an old token writes the legacy row meanwhile, the token is cut off for good if and only if none is
   * about to.
   */
  lemma {:induction false} RotationCutsOffExactlyWhenNonePending(
      s: State, es: seq<Event>, o: nat, draw: Draw, token: Token)
    requires Inv(s) && OrgToken(s.db.rows, token) && ValidFrom(s, es)
    requires o < |s.operations| && s.operations[o].request.RotateToken? && s.operations[o].work.Listing?
    requires AllAvoid(es, token) && NeverRestored(s, es, token)
    requires var t := RunFrom(s, es);
             && Possible(t, DbCall(o, draw)) && Avoids(DbCall(o, draw), token)
             && t.operations[o].work.Regenerating?
    ensures var t := RunFrom(s, es);
            NeverResolves(Step(t, DbCall(o, draw)), token) <==> !SomePending(t, token)
  {
    RunKeepsInv(s, es);
    RunKeepsPlan(s, es, o, token);
    CutOffExactlyWhenNothingCarriesIt(RunFrom(s, es), DbCall(o, draw), token);
  }

  // ----- the failing runs -----

  function LegacyRow(token: Token): Row {
    Row(LEGACY_DEFAULT_PAT_ID, Hash(token), Org, None, None, LegacyDefault, Never, false)
  }

  /** Random values that differ from the old token, from each other and from the legacy row's id. */
  predicate GoodDraw(draw: Draw, token: Token) {
    draw.token != token && draw.apiToken != token && draw.token != draw.apiToken && draw.id != LEGACY_DEFAULT_PAT_ID
  }

  /** The rotation is over, nothing is suspended any more, and the old token resolves. */
  ghost predicate Revived(s: State, token: Token) {
    && (forall o :: 0 <= o < |s.operations| ==> s.operations[o].work.Finished?)
    && (forall v :: 0 <= v < |s.validations| ==> s.validations[v].Answered?)
    && Resolve(s, token).Some?
  }

  /** A validation of the stored token, up to where it is about to look for the legacy row. */
  lemma {:induction false} ValidationCompares(token: Token, now: int) returns (es: seq<Event>)
    ensures var start := State(Db([], Some(token)), now, [], []);
            ValidFrom(start, es) && RunFrom(start, es) == start.(validations := [Refreshing(token)])
  {
    var start := State(Db([], Some(token)), now, [], []);
    es := [];
    OneMore(start, es, Arrive(token));
    es := es + [Arrive(token)];
    assert RunFrom(start, es) == start.(validations := [Looking(token)]);
    OneMore(start, es, Resume(0));
    es := es + [Resume(0)];
    assert RunFrom(start, es) == start.(validations := [Comparing(token)]);
    OneMore(start, es, Resume(0));
    es := es + [Resume(0)];
  }

  /** A whole rotation of an empty table, past a suspended validation. */
  lemma {:induction false} RotationRuns(token: Token, now: int, at: int, draw: Draw) returns (es: seq<Event>)
    requires GoodDraw(draw, token)
    ensures var before := State(Db([], Some(token)), now, [Refreshing(token)], []);
            && ValidFrom(before, es)
            && RunFrom(before, es).validations == before.validations
            && forall o :: 0 <= o < |RunFrom(before, es).operations|
                           ==> RunFrom(before, es).operations[o].work.Finished?
  {
    var request := OrgTokenProtocol.RotateToken(At(at));
    var before := State(Db([], Some(token)), now, [Refreshing(token)], []);
    es := [];
    OneMore(before, es, Call(request));
    es := es + [Call(request)];
    assert RunFrom(before, es) == before.(operations := [Operation(request, OrgTokenProtocol.Listing)]);
    OneMore(before, es, DbCall(0, draw));
    es := es + [DbCall(0, draw)];
    assert RunFrom(before, es) == before.(operations := [Storing(at)]);
    OneMore(before, es, DbCall(0, draw));
    es := es + [DbCall(0, draw)];
    var creating := [Storing(at).(work := OrgTokenProtocol.Creating)];
    assert RunFrom(before, es) == State(Db([], Some(draw.apiToken)), now, [Refreshing(token)], creating);
    OneMore(before, es, DbCall(0, draw));
    es := es + [DbCall(0, draw)];
  }

  /** A validation compares, a whole rotation runs, and the validation then restores the legacy row. */
  lemma {:induction false} RefreshAfterRotation(token: Token, now: int, at: int, draw: Draw)
    returns (es: seq<Event>)
    requires GoodDraw(draw, token)
    ensures var start := State(Db([], Some(token)), now, [], []);
            Inv(start) && ValidFrom(start, es) && Revived(RunFrom(start, es), token)
  {
    var start := State(Db([], Some(token)), now, [], []);
    var first := ValidationCompares(token, now);
    var second := RotationRuns(token, now, at, draw);
    Compose(start, first, second);
    es := first + second;
    RunKeepsInv(start, es);
    var s := RunFrom(start, es);
    OneMore(start, es, Resume(0));
    es := es + [Resume(0)];
    StepKeepsInv(s, Resume(0));
    WriteRestores(Step(s, Resume(0)), 0);
    OneMore(start, es, Resume(0));
    es := es + [Resume(0)];
  }

  lemma {:induction false} Compose(s: State, first: seq<Event>, rest: seq<Event>)
    requires ValidFrom(s, first) && ValidFrom(RunFrom(s, first), rest)
    ensures ValidFrom(s, first + rest) && RunFrom(s, first + rest) == RunFrom(RunFrom(s, first), rest)
    decreases first
  {
    var all := first + rest;
    if first == [] {
      assert all == rest;
    } else {
      Compose(Step(s, first[0]), first[1..], rest);
      assert all[1..] == first[1..] + rest;
    }
  }

  /** A rotation that has revoked what it listed and is about to store a new API token. */
  function Storing(at: int): Operation {
    Operation(OrgTokenProtocol.RotateToken(At(at)), OrgTokenProtocol.Regenerating)
  }

  lemma {:induction false} RotationUpToStore(token: Token, now: int, at: int, draw: Draw) returns (es: seq<Event>)
    ensures var start := State(Db([LegacyRow(token)], Some(token)), now, [], []);
            && ValidFrom(start, es) && es != [] && es[0] == Call(OrgTokenProtocol.RotateToken(At(at)))
            && RunFrom(start, es)
               == State(Db([LegacyRow(token).(revoked := true)], Some(token)), now, [], [Storing(at)])
  {
    var request := OrgTokenProtocol.RotateToken(At(at));
    var row := LegacyRow(token);
    var start := State(Db([row], Some(token)), now, [], []);
    es := [];
    OneMore(start, es, Call(request));
    es := es + [Call(request)];
    assert RunFrom(start, es) == start.(operations := [Operation(request, OrgTokenProtocol.Listing)]);
    OneMore(start, es, DbCall(0, draw));
    es := es + [DbCall(0, draw)];
    assert [row][1..] == [] && ActiveOrg([row], now) == [row];
    var ids := Ids([row]);
    assert |ids| == 1 && ids[0] == LEGACY_DEFAULT_PAT_ID && ids == [LEGACY_DEFAULT_PAT_ID];
    var work := OrgTokenProtocol.Revoking([LEGACY_DEFAULT_PAT_ID], None);
    assert RunFrom(start, es) == start.(operations := [Operation(request, work)]);
    OneMore(start, es, DbCall(0, draw));
    es := es + [DbCall(0, draw)];
    assert Revoke([row], LEGACY_DEFAULT_PAT_ID) == [row.(revoked := true)];
  }

  /** A complete validation of the stored token restores the revoked legacy row. */
  lemma {:induction false} ValidationRestores(token: Token, now: int, operations: seq<Operation>)
    returns (es: seq<Event>)
    ensures var before := State(Db([LegacyRow(token).(revoked := true)], Some(token)), now, [], operations);
            && ValidFrom(before, es)
            && RunFrom(before, es)
               == State(Db([LegacyRow(token)], Some(token)), now, [Answered(token, Some(LEGACY_IDENTITY))], operations)
  {
    var revoked := LegacyRow(token).(revoked := true);
    var before := State(Db([revoked], Some(token)), now, [], operations);
    es := [];
    OneMore(before, es, Arrive(token));
    es := es + [Arrive(token)];
    assert RunFrom(before, es) == before.(validations := [Looking(token)]);
    OneMore(before, es, Resume(0));
    es := es + [Resume(0)];
    assert RunFrom(before, es) == before.(validations := [Comparing(token)]);
    OneMore(before, es, Resume(0));
    es := es + [Resume(0)];
    assert RunFrom(before, es) == before.(validations := [Refreshing(token)]);
    OneMore(before, es, Resume(0));
    es := es + [Resume(0)];
    assert RunFrom(before, es) == before.(validations := [Writing(token, Some(LEGACY_DEFAULT_PAT_ID))]);
    OneMore(before, es, Resume(0));
    es := es + [Resume(0)];
    assert Rehash([revoked], LEGACY_DEFAULT_PAT_ID, Hash(token)) == [LegacyRow(token)];
  }

  lemma {:induction false} RotationFinishes(token: Token, now: int, at: int, draw: Draw) returns (es: seq<Event>)
    requires GoodDraw(draw, token)
    ensures var answered := [Answered(token, Some(LEGACY_IDENTITY))];
            var before := State(Db([LegacyRow(token)], Some(token)), now, answered, [Storing(at)]);
            ValidFrom(before, es) && Revived(RunFrom(before, es), token)
  {
    var answered := [Answered(token, Some(LEGACY_IDENTITY))];
    var before := State(Db([LegacyRow(token)], Some(token)), now, answered, [Storing(at)]);
    es := [];
    OneMore(before, es, DbCall(0, draw));
    es := es + [DbCall(0, draw)];
    var creating := [Storing(at).(work := OrgTokenProtocol.Creating)];
    assert RunFrom(before, es) == State(Db([LegacyRow(token)], Some(draw.apiToken)), now, answered, creating);
    OneMore(before, es, DbCall(0, draw));
    es := es + [DbCall(0, draw)];
    RunKeepsInv(before, es);
    var after := RunFrom(before, es);
    assert after.db.rows[1] == LegacyRow(token);
    UsableRowResolves(after, token, 1);
  }

  /**
   * No validation is there when the rotation begins. It lists and revokes the legacy row; a complete validation of the
   * old token, which is still stored, clears that revocation; then the rotation stores the new token and finishes.
   */
  lemma {:induction false} RefreshInsideRotation(token: Token, now: int, at: int, draw: Draw)
    returns (es: seq<Event>)
    requires GoodDraw(draw, token)
    ensures var start := State(Db([LegacyRow(token)], Some(token)), now, [], []);
            Inv(start) && ValidFrom(start, es) && Revived(RunFrom(start, es), token)
    ensures es != [] && es[0] == Call(OrgTokenProtocol.RotateToken(At(at)))
  {
    var start := State(Db([LegacyRow(token)], Some(token)), now, [], []);
    var first := RotationUpToStore(token, now, at, draw);
    var second := ValidationRestores(token, now, [Storing(at)]);
    var third := RotationFinishes(token, now, at, draw);
    Compose(start, first, second);
    Compose(start, first + second, third);
    es := first + second + third;
  }
}
