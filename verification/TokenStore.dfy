/**
 * Access tokens: the rows of the token table, the stored API token, how a bearer token is
 * resolved, and the two operations that keep the organisation at a single access token.
 *
 * `Hash` is a constructor, so hashing is injective. The encrypted API token is represented
 * by its plaintext, since decryption inverts encryption. Random values are parameters.
 * Rows are kept newest first, the order in which the table is listed.
 */
module TokenStore {
  import opened Prelude

  type Token = string

  datatype Hash = Hash(token: Token)

  datatype ScopeKind = Org | Project | Service

  datatype TokenType = Pat | ServiceAccount | LegacyDefault

  /** `Date.parse` gives no number for an unparsable timestamp. */
  datatype Expiry = Never | At(at: int) | Unparsable

  datatype Row = Row(id: string, hash: Hash, scopeKind: ScopeKind,
                     scopeProjectId: Option<string>, scopeServiceId: Option<string>,
                     tokenType: TokenType, expires: Expiry, revoked: bool)

  datatype Db = Db(rows: seq<Row>, apiToken: Option<Token>)

  predicate IsTokenUsable(row: Row, now: int) {
    !row.revoked && match row.expires
                    case Never => true
                    case At(at) => at > now
                    case Unparsable => false
  }

  predicate OrgWide(row: Row) {
    row.scopeKind == Org && row.scopeProjectId == None
  }

  predicate IsOrgPat(row: Row) {
    OrgWide(row) && row.tokenType == Pat
  }

  // ----- the database operations -----

  function Revoke(rows: seq<Row>, id: string): seq<Row> {
    seq(|rows|, i requires 0 <= i < |rows| => if rows[i].id == id then rows[i].(revoked := true) else rows[i])
  }

  predicate HasId(rows: seq<Row>, id: string) {
    exists i :: 0 <= i < |rows| && rows[i].id == id
  }

  /** The ids, in order, that some row has. */
  function Present(rows: seq<Row>, ids: seq<string>): seq<string> {
    if ids == [] then []
    else
      var last := ids[|ids| - 1];
      Present(rows, ids[..|ids| - 1]) + if HasId(rows, last) then [last] else []
  }

  lemma {:induction false} AllPresent(rows: seq<Row>, ids: seq<string>)
    requires forall i :: 0 <= i < |ids| ==> HasId(rows, ids[i])
    ensures Present(rows, ids) == ids
  {
    if ids != [] {
      var front, last := ids[..|ids| - 1], ids[|ids| - 1];
      AllPresent(rows, front);
      assert HasId(rows, last) && ids == front + [last];
    }
  }

  function RevokeAll(rows: seq<Row>, ids: seq<string>): seq<Row>
    decreases |ids|
  {
    if ids == [] then rows else RevokeAll(Revoke(rows, ids[0]), ids[1..])
  }

  /** The organisation's rows that are still usable, newest first. */
  function ActiveOrg(rows: seq<Row>, now: int): seq<Row> {
    if rows == [] then []
    else (if OrgWide(rows[0]) && IsTokenUsable(rows[0], now) then [rows[0]] else []) + ActiveOrg(rows[1..], now)
  }

  function OfType(rows: seq<Row>, tokenType: TokenType): seq<Row> {
    if rows == [] then []
    else (if rows[0].tokenType == tokenType then [rows[0]] else []) + OfType(rows[1..], tokenType)
  }

  function Ids(rows: seq<Row>): (ids: seq<string>)
    ensures |ids| == |rows|
  {
    seq(|rows|, i requires 0 <= i < |rows| => rows[i].id)
  }

  function FindByHash(rows: seq<Row>, h: Hash): Option<Row> {
    if rows == [] then None else if rows[0].hash == h then Some(rows[0]) else FindByHash(rows[1..], h)
  }

  const LEGACY_DEFAULT_PAT_ID := "legacy-default"

  function FirstLegacy(rows: seq<Row>): Option<nat> {
    if rows == [] then None
    else if rows[0].tokenType == LegacyDefault then Some(0)
    else
      var rest := FirstLegacy(rows[1..]);
      if rest.None? then None else Some(rest.value + 1)
  }

  lemma {:induction false} FirstLegacyIsLegacy(rows: seq<Row>)
    ensures var i := FirstLegacy(rows);
            i.Some? ==> i.value < |rows| && rows[i.value].tokenType == LegacyDefault
  {
    if rows != [] {
      FirstLegacyIsLegacy(rows[1..]);
    }
  }

  function UpsertLegacyDefault(rows: seq<Row>, h: Hash): seq<Row> {
    FirstLegacyIsLegacy(rows);
    var i := FirstLegacy(rows);
    if i.Some? then rows[i.value := rows[i.value].(hash := h, revoked := false)]
    else [Row(LEGACY_DEFAULT_PAT_ID, h, Org, None, None, LegacyDefault, Never, false)] + rows
  }

  /** `issuePatToken` rejects an unparsable expiry, and the table's check rejects a missing one. */
  predicate Issuable(expires: Expiry) {
    expires.At?
  }

  function NewOrgPat(id: string, token: Token, expires: Expiry): Row {
    Row(id, Hash(token), Org, None, None, Pat, expires, false)
  }

  // ----- resolving a bearer token -----

  datatype Identity = Identity(
    tokenId: Option<string>, tokenType: TokenType, scopeKind: ScopeKind,
    scopeProjectId: Option<string>, scopeServiceId: Option<string>)

  const LEGACY_IDENTITY := Identity(None, LegacyDefault, Org, None, None)

  function IdentityOf(row: Row): Identity {
    Identity(Some(row.id), row.tokenType, row.scopeKind, row.scopeProjectId, row.scopeServiceId)
  }

  /** `validateMcpBearerToken`: the identity, and the table after the legacy row was refreshed. */
  function Validate(db: Db, token: Token, now: int): (Db, Option<Identity>) {
    var row := FindByHash(db.rows, Hash(token));
    if row.Some? && IsTokenUsable(row.value, now) then (db, Some(IdentityOf(row.value)))
    else if db.apiToken == Some(token) then
      (db.(rows := UpsertLegacyDefault(db.rows, Hash(token))), Some(LEGACY_IDENTITY))
    else (db, None)
  }

  // ----- the two operations, run without interference -----

  /** The random values one operation draws; `apiToken` is the last one `regenerateToken` stored. */
  datatype Draw = Draw(id: string, token: Token, apiToken: Token)

  datatype Outcome =
    | Kept(rowId: string, revokedIds: seq<string>)
    | Created(row: Row, revokedIds: seq<string>)
    | Failed

  function Issue(rows: seq<Row>, draw: Draw, expires: Expiry, revokedIds: seq<string>): (Db, Outcome) {
    if Issuable(expires) then
      var row := NewOrgPat(draw.id, draw.token, expires);
      (Db([row] + rows, Some(draw.apiToken)), Created(row, revokedIds))
    else (Db(rows, Some(draw.apiToken)), Failed)
  }

  function Rotate(db: Db, now: int, expires: Expiry, draw: Draw): (Db, Outcome) {
    var ids := Ids(ActiveOrg(db.rows, now));
    Issue(RevokeAll(db.rows, ids), draw, expires, ids)
  }

  function Ensure(db: Db, now: int, expires: Expiry, draw: Draw): (Db, Outcome) {
    var active := ActiveOrg(db.rows, now);
    var legacy := Ids(OfType(active, LegacyDefault));
    var pats := Ids(OfType(active, Pat));
    var rows := RevokeAll(db.rows, legacy);
    if pats == [] then Issue(rows, draw, expires, legacy)
    else
      (Db(RevokeAll(rows, pats[1..]), if legacy == [] then db.apiToken else Some(draw.apiToken)),
       Kept(pats[0], legacy + pats[1..]))
  }

  class AuthService {
    var rows: seq<Row>
    var apiToken: Option<Token>

    ghost function View(): Db
      reads this
    {
      Db(rows, apiToken)
    }

    constructor (db: Db)
      ensures View() == db
    {
      rows, apiToken := db.rows, db.apiToken;
    }

    method RevokePatToken(id: string) returns (found: bool)
      modifies `rows
      ensures rows == Revoke(old(rows), id) && found == HasId(old(rows), id)
    {
      found := HasId(rows, id);
      rows := Revoke(rows, id);
    }

    /** The loop both operations use: revoke a list of rows, collecting the ids that still have a row. */
    method RevokeEach(targets: seq<string>) returns (revokedIds: seq<string>)
      modifies `rows
      ensures rows == RevokeAll(old(rows), targets) && revokedIds == Present(old(rows), targets)
      ensures forall id :: HasId(rows, id) <==> HasId(old(rows), id)
    {
      revokedIds := [];
      for i := 0 to |targets|
        invariant RevokeAll(rows, targets[i..]) == RevokeAll(old(rows), targets)
        invariant revokedIds == Present(old(rows), targets[..i])
        invariant forall id :: HasId(rows, id) <==> HasId(old(rows), id)
      {
        assert targets[i..][0] == targets[i] && targets[i..][1..] == targets[i + 1..];
        assert targets[..i + 1][..i] == targets[..i];
        RevokeKeepsIds(rows, targets[i]);
        var found := RevokePatToken(targets[i]);
        if found {
          revokedIds := revokedIds + [targets[i]];
        }
      }
      assert targets[|targets|..] == [] && targets[..|targets|] == targets;
    }

    method IssueOrgPat(draw: Draw, expires: Expiry, revokedIds: seq<string>) returns (outcome: Outcome)
      modifies this
      ensures (View(), outcome) == Issue(old(rows), draw, expires, revokedIds)
    {
      apiToken := Some(draw.apiToken);
      if !Issuable(expires) {
        return Failed;
      }
      var row := NewOrgPat(draw.id, draw.token, expires);
      rows := [row] + rows;
      return Created(row, revokedIds);
    }

    method RotateOrgMcpPatToken(now: int, expires: Expiry, draw: Draw) returns (outcome: Outcome)
      modifies this
      ensures (View(), outcome) == Rotate(old(View()), now, expires, draw)
    {
      var activeRows := ActiveOrg(rows, now);
      ActiveOrgHaveIds(rows, now);
      AllPresent(rows, Ids(activeRows));
      var revokedIds := RevokeEach(Ids(activeRows));
      outcome := IssueOrgPat(draw, expires, revokedIds);
    }

    method EnsureOrgMcpPatToken(now: int, expires: Expiry, draw: Draw) returns (outcome: Outcome)
      modifies this
      ensures (View(), outcome) == Ensure(old(View()), now, expires, draw)
    {
      var active := ActiveOrg(rows, now);
      var legacy := Ids(OfType(active, LegacyDefault));
      var pats := Ids(OfType(active, Pat));
      ActiveOrgHaveIds(rows, now);
      OfTypeMembers(active, LegacyDefault);
      OfTypeMembers(active, Pat);
      AllPresent(rows, legacy);
      var revokedIds := [];
      if |legacy| > 0 {
        apiToken := Some(draw.apiToken);
        revokedIds := RevokeEach(legacy);
      }
      if |pats| > 0 {
        AllPresent(rows, pats[1..]);
        var duplicates := RevokeEach(pats[1..]);
        return Kept(pats[0], revokedIds + duplicates);
      }
      outcome := IssueOrgPat(draw, expires, revokedIds);
    }
  }

  // ----- lemmas about the table -----

  lemma RevokeKeepsIds(rows: seq<Row>, id: string)
    ensures forall x :: HasId(Revoke(rows, id), x) <==> HasId(rows, x)
  {
    var r := Revoke(rows, id);
    forall x
      ensures HasId(r, x) <==> HasId(rows, x)
    {
      if HasId(r, x) {
        var i :| 0 <= i < |r| && r[i].id == x;
        assert rows[i].id == x;
      }
      if HasId(rows, x) {
        var i :| 0 <= i < |rows| && rows[i].id == x;
        assert r[i].id == x;
      }
    }
  }

  lemma {:induction false} RevokeAllAt(rows: seq<Row>, ids: seq<string>)
    ensures var r := RevokeAll(rows, ids);
            && |r| == |rows|
            && forall i :: 0 <= i < |rows| ==> r[i] == if rows[i].id in ids then rows[i].(revoked := true) else rows[i]
    decreases |ids|
  {
    if ids != [] {
      RevokeAllAt(Revoke(rows, ids[0]), ids[1..]);
      assert forall x :: x in ids <==> x == ids[0] || x in ids[1..];
    }
  }

  lemma {:induction false} ActiveOrgMembers(rows: seq<Row>, now: int)
    ensures forall r :: r in ActiveOrg(rows, now) <==> r in rows && OrgWide(r) && IsTokenUsable(r, now)
  {
    if rows != [] {
      ActiveOrgMembers(rows[1..], now);
      assert rows == [rows[0]] + rows[1..];
    }
  }

  lemma {:induction false} OfTypeMembers(rows: seq<Row>, tokenType: TokenType)
    ensures forall r :: r in OfType(rows, tokenType) <==> r in rows && r.tokenType == tokenType
    ensures forall i :: 0 <= i < |OfType(rows, tokenType)| ==> OfType(rows, tokenType)[i] in rows
  {
    if rows != [] {
      OfTypeMembers(rows[1..], tokenType);
      assert rows == [rows[0]] + rows[1..];
    }
  }

  lemma ActiveOrgHaveIds(rows: seq<Row>, now: int)
    ensures forall r :: r in ActiveOrg(rows, now) ==> HasId(rows, r.id)
    ensures forall i :: 0 <= i < |ActiveOrg(rows, now)| ==> HasId(rows, ActiveOrg(rows, now)[i].id)
  {
    ActiveOrgMembers(rows, now);
    forall r | r in ActiveOrg(rows, now)
      ensures HasId(rows, r.id)
    {
      var i :| 0 <= i < |rows| && rows[i] == r;
    }
  }

  lemma {:induction false} FindIsMember(rows: seq<Row>, h: Hash)
    ensures var f := FindByHash(rows, h); f.Some? ==> f.value in rows && f.value.hash == h
    ensures FindByHash(rows, h).None? <==> forall r :: r in rows ==> r.hash != h
  {
    if rows != [] {
      FindIsMember(rows[1..], h);
      assert rows == [rows[0]] + rows[1..];
    }
  }

  /** Revoking rows does not change which row a token finds. */
  lemma {:induction false} FindAfterRevoke(rows: seq<Row>, r: seq<Row>, ids: seq<string>, h: Hash)
    requires |r| == |rows|
    requires forall i :: 0 <= i < |rows| ==> r[i] == if rows[i].id in ids then rows[i].(revoked := true) else rows[i]
    ensures var f := FindByHash(rows, h);
            FindByHash(r, h) == if f.None? then None
                                else Some(if f.value.id in ids then f.value.(revoked := true) else f.value)
  {
    if rows != [] {
      FindAfterRevoke(rows[1..], r[1..], ids, h);
    }
  }

  ghost predicate Unused(db: Db, token: Token) {
    db.apiToken != Some(token) && forall r :: r in db.rows ==> r.hash != Hash(token)
  }

  /** Row ids are the table's primary key. */
  ghost predicate DistinctIds(rows: seq<Row>) {
    forall i, j :: 0 <= i < j < |rows| ==> rows[i].id != rows[j].id
  }

  // ----- what a token resolves to -----

  /** The table's uniqueness constraint on token hashes. */
  ghost predicate DistinctHashes(rows: seq<Row>) {
    forall i, j :: 0 <= i < j < |rows| ==> rows[i].hash != rows[j].hash
  }

  lemma {:induction false} FirstIsFound(rows: seq<Row>, k: nat, h: Hash)
    requires k < |rows| && rows[k].hash == h && forall j :: 0 <= j < k ==> rows[j].hash != h
    ensures FindByHash(rows, h) == Some(rows[k])
  {
    if k > 0 {
      FirstIsFound(rows[1..], k - 1, h);
    }
  }

  /** Row `i` carries the token, is not revoked and has no expiry or one in the future. */
  predicate Vouches(rows: seq<Row>, i: int, token: Token, now: int) {
    && 0 <= i < |rows| && rows[i].hash == Hash(token) && !rows[i].revoked
    && (rows[i].expires == Never || (rows[i].expires.At? && now < rows[i].expires.at))
  }

  /**
   * A token resolves to the row that carries it, with that row's id, type and scope, as long as the row is neither
   * revoked nor expired. Otherwise it resolves to the anonymous legacy identity exactly if it is the stored API token.
   */
  lemma ResolvesTo(db: Db, token: Token, now: int)
    requires DistinctHashes(db.rows)
    ensures var answer := Validate(db, token, now).1;
            && (forall i :: Vouches(db.rows, i, token, now) ==>
                              && answer.Some?
                              && answer.value.tokenId == Some(db.rows[i].id)
                              && answer.value.tokenType == db.rows[i].tokenType
                              && answer.value.scopeKind == db.rows[i].scopeKind
                              && answer.value.scopeProjectId == db.rows[i].scopeProjectId
                              && answer.value.scopeServiceId == db.rows[i].scopeServiceId)
            && ((forall i :: !Vouches(db.rows, i, token, now)) ==>
                  if db.apiToken == Some(token) then
                    && answer.Some? && answer.value.tokenId == None && answer.value.tokenType == LegacyDefault
                    && answer.value.scopeKind == Org
                    && answer.value.scopeProjectId == None && answer.value.scopeServiceId == None
                  else answer == None)
  {
    FindIsMember(db.rows, Hash(token));
    var f := FindByHash(db.rows, Hash(token));
    if f.Some? {
      var k :| 0 <= k < |db.rows| && db.rows[k] == f.value;
      forall i | Vouches(db.rows, i, token, now)
        ensures db.rows[i] == f.value
      {
        FirstIsFound(db.rows, i, Hash(token));
      }
      if IsTokenUsable(f.value, now) {
        assert Vouches(db.rows, k, token, now);
      }
    }
  }

  /** Refreshing the legacy row gives it the hash and clears its revocation, or inserts it; no other row changes. */
  lemma {:induction false} UpsertEffect(rows: seq<Row>, h: Hash)
    ensures var rows' := UpsertLegacyDefault(rows, h);
            || (&& (forall i :: 0 <= i < |rows| ==> rows[i].tokenType != LegacyDefault)
                && rows' == [Row("legacy-default", h, Org, None, None, LegacyDefault, Never, false)] + rows)
            || (exists k :: && 0 <= k < |rows| == |rows'| && rows[k].tokenType == LegacyDefault
                            && rows'[k] == rows[k].(hash := h, revoked := false)
                            && forall i :: 0 <= i < |rows| && i != k ==> rows'[i] == rows[i])
  {
    FirstLegacyIsLegacy(rows);
    var i := FirstLegacy(rows);
    if i.None? {
      NoLegacyMeansNone(rows);
    } else {
      var rows' := UpsertLegacyDefault(rows, h);
      assert rows'[i.value] == rows[i.value].(hash := h, revoked := false);
    }
  }

  lemma {:induction false} NoLegacyMeansNone(rows: seq<Row>)
    requires FirstLegacy(rows).None?
    ensures forall i :: 0 <= i < |rows| ==> rows[i].tokenType != LegacyDefault
  {
    if rows != [] {
      NoLegacyMeansNone(rows[1..]);
      assert forall i :: 1 <= i < |rows| ==> rows[i] == rows[1..][i - 1];
    }
  }

  /** Resolving writes to the database only when the stored API token matched, and then only the legacy row. */
  lemma ValidateEffect(db: Db, token: Token, now: int)
    requires DistinctHashes(db.rows)
    ensures var db' := Validate(db, token, now).0;
            && db'.apiToken == db.apiToken
            && db'.rows == if db.apiToken == Some(token) && (forall i :: !Vouches(db.rows, i, token, now))
                           then UpsertLegacyDefault(db.rows, Hash(token)) else db.rows
  {
    FindIsMember(db.rows, Hash(token));
    var f := FindByHash(db.rows, Hash(token));
    forall i | Vouches(db.rows, i, token, now)
      ensures f == Some(db.rows[i])
    {
      FirstIsFound(db.rows, i, Hash(token));
    }
    if f.Some? && IsTokenUsable(f.value, now) {
      var k :| 0 <= k < |db.rows| && db.rows[k] == f.value;
      assert Vouches(db.rows, k, token, now);
    }
  }

  /** A rotation finds every old token where it was, revoked if it was listed. */
  lemma FindAfterRotation(db: Db, now: int, expires: Expiry, draw: Draw, token: Token)
    requires token != draw.token
    ensures var ids := Ids(ActiveOrg(db.rows, now));
            var f := FindByHash(db.rows, Hash(token));
            FindByHash(Rotate(db, now, expires, draw).0.rows, Hash(token))
            == if f.None? then None else Some(if f.value.id in ids then f.value.(revoked := true) else f.value)
  {
    var ids := Ids(ActiveOrg(db.rows, now));
    var revoked := RevokeAll(db.rows, ids);
    RevokeAllAt(db.rows, ids);
    FindAfterRevoke(db.rows, revoked, ids, Hash(token));
    var rows := Rotate(db, now, expires, draw).0.rows;
    if Issuable(expires) {
      assert rows[0].hash != Hash(token) && rows[1..] == revoked;
    }
  }

  lemma ActiveAreListed(rows: seq<Row>, now: int, row: Row)
    requires row in rows && OrgWide(row) && IsTokenUsable(row, now)
    ensures row.id in Ids(ActiveOrg(rows, now))
  {
    ActiveOrgMembers(rows, now);
    var active := ActiveOrg(rows, now);
    var i :| 0 <= i < |active| && active[i] == row;
    assert Ids(active)[i] == row.id;
  }

  lemma OthersAreNotListed(rows: seq<Row>, now: int, row: Row)
    requires DistinctIds(rows) && row in rows && !OrgWide(row)
    ensures row.id !in Ids(ActiveOrg(rows, now))
  {
    ActiveOrgMembers(rows, now);
    var active := ActiveOrg(rows, now);
    var k :| 0 <= k < |rows| && rows[k] == row;
    forall i | 0 <= i < |active|
      ensures active[i].id != row.id
    {
      assert active[i] in active;
      var j :| 0 <= j < |rows| && rows[j] == active[i];
    }
  }

  /**
   * After a rotation no token that resolved to an organisation identity resolves at all, at any later time,
   * even when issuing the replacement failed.
   */
  lemma RotationCutsOffOldTokens(db: Db, now: int, expires: Expiry, draw: Draw, token: Token, later: int)
    requires Unused(db, draw.token) && Unused(db, draw.apiToken)
    requires Validate(db, token, now).1.Some? && Validate(db, token, now).1.value.scopeKind == Org
    requires forall r :: r in db.rows && r.scopeKind == Org ==> r.scopeProjectId == None
    requires now <= later
    ensures Validate(Rotate(db, now, expires, draw).0, token, later).1 == None
  {
    FindIsMember(db.rows, Hash(token));
    assert token != draw.token && token != draw.apiToken;
    FindAfterRotation(db, now, expires, draw, token);
    var f := FindByHash(db.rows, Hash(token));
    if f.Some? && IsTokenUsable(f.value, now) {
      ActiveAreListed(db.rows, now, f.value);
    }
  }

  /** The token a rotation returns resolves to the new row until it expires, and to nothing afterwards. */
  lemma RotatedTokenResolves(db: Db, now: int, expires: Expiry, draw: Draw, later: int)
    requires Issuable(expires)
    ensures var (db', outcome) := Rotate(db, now, expires, draw);
            && outcome.Created? && outcome.revokedIds == Ids(ActiveOrg(db.rows, now))
            && outcome.row == Row(draw.id, Hash(draw.token), Org, None, None, Pat, expires, false)
            && (later < expires.at
                ==> Validate(db', draw.token, later).1 == Some(Identity(Some(draw.id), Pat, Org, None, None)))
            && (later >= expires.at && draw.token != draw.apiToken ==> Validate(db', draw.token, later).1 == None)
            && db'.apiToken == Some(draw.apiToken)
  {
    var (db', outcome) := Rotate(db, now, expires, draw);
    assert db'.rows[0] == outcome.row;
  }

  /** Rotation leaves every token of a project or a service as it was. */
  lemma RotationKeepsOtherTokens(db: Db, now: int, expires: Expiry, draw: Draw, token: Token, later: int)
    requires DistinctIds(db.rows) && Unused(db, draw.token) && now <= later
    requires Validate(db, token, later).1.Some? && Validate(db, token, later).1.value.scopeKind != Org
    ensures Validate(Rotate(db, now, expires, draw).0, token, later).1 == Validate(db, token, later).1
  {
    FindIsMember(db.rows, Hash(token));
    FindAfterRotation(db, now, expires, draw, token);
    var f := FindByHash(db.rows, Hash(token));
    OthersAreNotListed(db.rows, now, f.value);
  }
}
