/**
  The team model of app/models/team.js: the rows of `teams`, created, listed,
  looked up, partially updated and deleted over the same store as the roster.
  Deleting a team deletes its roster rows with it (`ON DELETE CASCADE`).
*/
module Teams {
  import opened Store
  import Sorting

  /** The arguments of `createNew`; a missing field is `None`. */
  datatype TeamInput = TeamInput(team_name: Option<string>, user_id: Option<int>)

  /** The fields a partial update may carry; `None` leaves a column alone. */
  datatype TeamPatch = TeamPatch(team_name: Option<string>, user_id: Option<int>)

  /** A row of the list queries: they return the owner id under the column
      alias `isAdmin`. */
  datatype TeamSummary = TeamSummary(team_id: int, team_name: string, isAdmin: Option<int>)

  const MISSING_FIELDS := "Missing required fields"
  const NO_DATA := "No data"

  /** JavaScript truthiness of the two required fields. */
  predicate NameGiven(name: Option<string>) { name.Some? && name.value != "" }
  predicate OwnerGiven(owner: Option<int>) { owner.Some? && owner.value != 0 }

  /* ---------------------------------------------------------------- rows */

  /** The rows of `teams` that satisfy `keep`, in table order. */
  function TeamsWhere(teams: seq<TeamRow>, keep: TeamRow -> bool): (r: seq<TeamRow>)
    ensures forall t :: t in r <==> t in teams && keep(t)
    ensures |r| <= |teams|
  {
    if teams == [] then []
    else
      assert teams == [teams[0]] + teams[1..];
      (if keep(teams[0]) then [teams[0]] else []) + TeamsWhere(teams[1..], keep)
  }

  function OwnedBy(userId: int): TeamRow -> bool {
    (t: TeamRow) => t.user_id == Some(userId)
  }

  function OwnedAndNamed(userId: int, name: string): TeamRow -> bool {
    (t: TeamRow) => t.user_id == Some(userId) && t.team_name == name
  }

  function NotTeam(teamId: int): TeamRow -> bool {
    (t: TeamRow) => t.team_id != teamId
  }

  lemma DistinctCons(a: TeamRow, s: seq<TeamRow>)
    ensures DistinctTeamIds([a] + s) <==> DistinctTeamIds(s) && a.team_id !in TeamIds(s)
  {
    var r := [a] + s;
    if DistinctTeamIds(r) {
      forall i, j | 0 <= i < j < |s| ensures s[i].team_id != s[j].team_id {
        assert r[i + 1] == s[i] && r[j + 1] == s[j];
      }
      forall k | 0 <= k < |s| ensures s[k].team_id != a.team_id {
        assert r[0] == a && r[k + 1] == s[k];
      }
    }
    if DistinctTeamIds(s) && a.team_id !in TeamIds(s) {
      forall i, j | 0 <= i < j < |r| ensures r[i].team_id != r[j].team_id {
        assert r[j] == s[j - 1];
        if i > 0 {
          assert r[i] == s[i - 1];
        }
      }
    }
  }

  /** Deleting rows never makes two team ids equal. */
  lemma {:induction false} TeamsWhereDistinct(teams: seq<TeamRow>, keep: TeamRow -> bool)
    requires DistinctTeamIds(teams)
    ensures DistinctTeamIds(TeamsWhere(teams, keep))
  {
    if teams != [] {
      assert teams == [teams[0]] + teams[1..];
      DistinctCons(teams[0], teams[1..]);
      TeamsWhereDistinct(teams[1..], keep);
      var rest := TeamsWhere(teams[1..], keep);
      if keep(teams[0]) {
        DistinctCons(teams[0], rest);
      }
    }
  }

  /* -------------------------------------------------------------- listing */

  function TeamKey(t: TeamRow): int { t.team_id }
  function SummaryKey(s: TeamSummary): int { s.team_id }

  function Summary(t: TeamRow): TeamSummary {
    TeamSummary(t.team_id, t.team_name, t.user_id)
  }

  /** `SELECT team_id, team_name, user_id AS "isAdmin" … ORDER BY team_id`. */
  function Listed(teams: seq<TeamRow>): seq<TeamSummary> {
    var s := Sorting.SortBy(teams, TeamKey);
    seq(|s|, i requires 0 <= i < |s| => Summary(s[i]))
  }

  /** A listing holds one summary per row, ordered by team id, each row's
      summary appears and every summary comes from a row. */
  lemma ListedTeams(teams: seq<TeamRow>)
    ensures |Listed(teams)| == |teams|
    ensures Sorting.SortedBy(Listed(teams), SummaryKey)
    ensures forall t :: t in teams ==> Summary(t) in Listed(teams)
    ensures forall x :: x in Listed(teams) ==> exists t :: t in teams && x == Summary(t)
  {
    var s := Sorting.SortBy(teams, TeamKey);
    var l := Listed(teams);
    forall t | t in teams ensures Summary(t) in l {
      assert t in multiset(teams);
      assert t in multiset(s);
      var k :| 0 <= k < |s| && s[k] == t;
      assert l[k] == Summary(t);
    }
    forall x | x in l ensures exists t :: t in teams && x == Summary(t) {
      var k :| 0 <= k < |l| && l[k] == x;
      assert s[k] in multiset(s);
      assert s[k] in multiset(teams);
      assert s[k] in teams && x == Summary(s[k]);
    }
    forall i, j | 0 <= i < j < |l| ensures SummaryKey(l[i]) <= SummaryKey(l[j]) {
      assert TeamKey(s[i]) <= TeamKey(s[j]);
    }
  }

  /* ---------------------------------------------------------------- reads */

  /** `Team.findAll`: every team, ordered by team id. */
  function FindAll(teams: seq<TeamRow>): (r: seq<TeamSummary>)
    ensures |r| == |teams|
    ensures Sorting.SortedBy(r, SummaryKey)
    ensures forall t :: t in teams ==> Summary(t) in r
    ensures forall x :: x in r ==> exists t :: t in teams && x == Summary(t)
  {
    ListedTeams(teams);
    Listed(teams)
  }

  /** `Team.findAllTeamsByUsername`: the teams of the named user; an unknown
      user, or a user id that JavaScript reads as false, gives no teams rather
      than an error. */
  function FindAllTeamsByUsername(users: seq<UserRow>, teams: seq<TeamRow>, username: string): (r: seq<TeamSummary>)
    ensures (forall u :: u in users ==> u.username != username) ==> r == []
    ensures forall x :: x in r ==> exists t :: t in teams && t.user_id.Some? && x == Summary(t)
  {
    match FindUser(users, username)
    case None => []
    case Some(u) =>
      if u.user_id == 0 then []
      else
        var owned := TeamsWhere(teams, OwnedBy(u.user_id));
        ListedTeams(owned);
        Listed(owned)
  }

  /** `Team.findTeamByUser`: the named user's teams with the given name, in
      ascending team id; an unknown user or no such team is NotFound. Unlike the previous query, a
      zero user id is not treated specially. */
  function FindTeamByUser(users: seq<UserRow>, teams: seq<TeamRow>, username: string, teamName: string)
    : (r: Result<seq<TeamSummary>>)
    ensures r.Err? ==> r.error == NotFound
    ensures (forall u :: u in users ==> u.username != username) ==> r.Err?
    ensures r.Ok? ==> r.value != [] && forall x :: x in r.value ==> x.team_name == teamName
    ensures r.Ok? ==> Sorting.SortedBy(r.value, SummaryKey)
    ensures r.Ok? ==>
      (exists u :: u in users && u.username == username && forall x :: x in r.value ==> x.isAdmin == Some(u.user_id))
  {
    match FindUser(users, username)
    case None => Err(NotFound)
    case Some(u) =>
      var named := TeamsWhere(teams, OwnedAndNamed(u.user_id, teamName));
      if |named| == 0 then Err(NotFound)
      else
        ListedTeams(named);
        assert forall x :: x in Listed(named) ==> x.team_name == teamName && x.isAdmin == Some(u.user_id);
        Ok(Listed(named))
  }

  /** `Team.get`: the team with the given id, or NotFound. */
  function Get(teams: seq<TeamRow>, teamId: int): (r: Result<TeamRow>)
    ensures r.Err? <==> teamId !in TeamIds(teams)
    ensures r.Err? ==> r.error == NotFound
    ensures r.Ok? ==> r.value in teams && r.value.team_id == teamId
  {
    match FindTeam(teams, teamId)
    case None => Err(NotFound)
    case Some(t) => Ok(t)
  }

  /** The owner's teams, ordered by id, are exactly what the username query
      lists for a user whose id is truthy, one entry per owned team. */
  lemma TeamsByUsernameAreOwned(users: seq<UserRow>, teams: seq<TeamRow>, username: string, u: UserRow)
    requires FindUser(users, username) == Some(u) && u.user_id != 0
    ensures Sorting.SortedBy(FindAllTeamsByUsername(users, teams, username), SummaryKey)
    ensures forall t :: t in teams && t.user_id == Some(u.user_id) ==>
      Summary(t) in FindAllTeamsByUsername(users, teams, username)
    ensures forall x :: x in FindAllTeamsByUsername(users, teams, username) ==>
      x.isAdmin == Some(u.user_id)
    ensures |FindAllTeamsByUsername(users, teams, username)| == |TeamsWhere(teams, OwnedBy(u.user_id))|
  {
    var owned := TeamsWhere(teams, OwnedBy(u.user_id));
    ListedTeams(owned);
    forall x | x in Listed(owned) ensures x.isAdmin == Some(u.user_id) {
      var t :| t in owned && x == Summary(t);
    }
  }

  /** The team-by-name query succeeds exactly when the user owns a team of
      that name, and then lists every such team once, only such teams, in
      ascending team id. */
  lemma TeamByUserFinds(users: seq<UserRow>, teams: seq<TeamRow>, username: string, teamName: string, u: UserRow)
    requires FindUser(users, username) == Some(u)
    ensures FindTeamByUser(users, teams, username, teamName).Ok? <==>
      exists t :: t in teams && t.user_id == Some(u.user_id) && t.team_name == teamName
    ensures FindTeamByUser(users, teams, username, teamName).Ok? ==>
      forall t :: t in teams && t.user_id == Some(u.user_id) && t.team_name == teamName ==>
        Summary(t) in FindTeamByUser(users, teams, username, teamName).value
    ensures FindTeamByUser(users, teams, username, teamName).Ok? ==>
      && Sorting.SortedBy(FindTeamByUser(users, teams, username, teamName).value, SummaryKey)
      && forall x :: x in FindTeamByUser(users, teams, username, teamName).value ==>
           x.isAdmin == Some(u.user_id) && x.team_name == teamName
    ensures FindTeamByUser(users, teams, username, teamName).Ok? ==>
      |FindTeamByUser(users, teams, username, teamName).value| == |TeamsWhere(teams, OwnedAndNamed(u.user_id, teamName))|
  {
    var named := TeamsWhere(teams, OwnedAndNamed(u.user_id, teamName));
    var r := FindTeamByUser(users, teams, username, teamName);
    ListedTeams(named);
    assert r == if |named| == 0 then Err(NotFound) else Ok(Listed(named));
    if exists t :: t in teams && t.user_id == Some(u.user_id) && t.team_name == teamName {
      var t :| t in teams && t.user_id == Some(u.user_id) && t.team_name == teamName;
      assert t in named;
      assert r.Ok?;
    }
    if r.Ok? {
      assert named[0] in named;
      forall t | t in teams && t.user_id == Some(u.user_id) && t.team_name == teamName
        ensures Summary(t) in r.value
      {
        assert t in named;
      }
      forall x | x in r.value ensures x.isAdmin == Some(u.user_id) && x.team_name == teamName {
        var t :| t in named && x == Summary(t);
      }
    }
  }

  /* ---------------------------------------------------------------- writes */

  /** `Team.createNew`: a falsy name or owner is refused before the store is
      touched; otherwise the insert takes the next serial id (consumed even
      when the insert fails) and succeeds exactly when the owner exists. */
  method CreateNew(db: Db, input: TeamInput) returns (r: Result<TeamRow>)
    requires db.Valid()
    modifies db`teams, db`roster, db`nextTeamId
    ensures db.Valid()
    ensures db.roster == old(db.roster)
    ensures !(NameGiven(input.team_name) && OwnerGiven(input.user_id)) ==>
      r == Err(BadRequest([MISSING_FIELDS])) && db.teams == old(db.teams) && db.nextTeamId == old(db.nextTeamId)
    ensures NameGiven(input.team_name) && OwnerGiven(input.user_id) ==>
      var row := TeamRow(old(db.nextTeamId), input.team_name.value, input.user_id);
      && db.nextTeamId == old(db.nextTeamId) + 1
      && (r.Ok? <==> input.user_id.value in UserIds(db.users))
      && (r.Ok? ==> r.value == row && db.teams == old(db.teams) + [row])
      && (r.Err? ==> r.error == StoreError && db.teams == old(db.teams))
  {
    if !(NameGiven(input.team_name) && OwnerGiven(input.user_id)) {
      return Err(BadRequest([MISSING_FIELDS]));
    }
    var row := TeamRow(db.nextTeamId, input.team_name.value, input.user_id);
    db.nextTeamId := db.nextTeamId + 1;
    var candidate := db.teams + [row];
    assert TeamIds(db.teams) <= TeamIds(candidate);
    assert DistinctTeamIds(candidate) by {
      forall i, j | 0 <= i < j < |candidate| ensures candidate[i].team_id != candidate[j].team_id {
        assert candidate[i] in db.teams;
      }
    }
    var ok := db.ExecTeams(candidate, db.roster);
    if ok {
      r := Ok(row);
    } else {
      r := Err(StoreError);
    }
  }

  /** The row `UPDATE teams SET … WHERE team_id = $n` writes. */
  function Patched(t: TeamRow, p: TeamPatch): TeamRow {
    TeamRow(t.team_id,
      if p.team_name.Some? then p.team_name.value else t.team_name,
      if p.user_id.Some? then p.user_id else t.user_id)
  }

  /** The table the update leaves: the rows with that id patched, the rest untouched. */
  function PatchTeams(teams: seq<TeamRow>, teamId: int, p: TeamPatch): (r: seq<TeamRow>)
    ensures |r| == |teams|
    ensures forall i :: 0 <= i < |teams| ==>
      r[i] == if teams[i].team_id == teamId then Patched(teams[i], p) else teams[i]
  {
    if teams == [] then []
    else [if teams[0].team_id == teamId then Patched(teams[0], p) else teams[0]] + PatchTeams(teams[1..], teamId, p)
  }

  lemma PatchKeepsIds(teams: seq<TeamRow>, teamId: int, p: TeamPatch)
    ensures TeamIds(PatchTeams(teams, teamId, p)) == TeamIds(teams)
    ensures DistinctTeamIds(teams) ==> DistinctTeamIds(PatchTeams(teams, teamId, p))
  {
    var r := PatchTeams(teams, teamId, p);
    forall x | x in TeamIds(r) ensures x in TeamIds(teams) {
      var k :| 0 <= k < |r| && r[k].team_id == x;
      assert teams[k] in teams;
    }
    forall x | x in TeamIds(teams) ensures x in TeamIds(r) {
      var k :| 0 <= k < |teams| && teams[k].team_id == x;
      assert r[k] in r;
    }
  }

  lemma {:induction false} FindPatched(teams: seq<TeamRow>, teamId: int, p: TeamPatch)
    ensures FindTeam(PatchTeams(teams, teamId, p), teamId) ==
      if FindTeam(teams, teamId).Some? then Some(Patched(FindTeam(teams, teamId).value, p)) else None
  {
    if teams != [] {
      var r := PatchTeams(teams, teamId, p);
      assert r[1..] == PatchTeams(teams[1..], teamId, p);
      FindPatched(teams[1..], teamId, p);
    }
  }

  /** An UPDATE whose id names no team leaves the table as it was. */
  lemma PatchAbsent(teams: seq<TeamRow>, teamId: int, p: TeamPatch)
    ensures teamId !in TeamIds(teams) ==> PatchTeams(teams, teamId, p) == teams
  {
    if teamId !in TeamIds(teams) {
      var r := PatchTeams(teams, teamId, p);
      forall i | 0 <= i < |teams| ensures r[i] == teams[i] {
        assert teams[i] in teams;
      }
    }
  }

  lemma PatchBound(teams: seq<TeamRow>, teamId: int, p: TeamPatch, bound: int)
    requires forall t :: t in teams ==> t.team_id < bound
    ensures forall t :: t in PatchTeams(teams, teamId, p) ==> t.team_id < bound
  {
    var r := PatchTeams(teams, teamId, p);
    forall t | t in r ensures t.team_id < bound {
      var k :| 0 <= k < |r| && r[k] == t;
      assert teams[k] in teams;
    }
  }

  /** The patched table names only existing owners exactly when the patch
      does not give an existing team a missing one. */
  lemma PatchOwners(users: seq<UserRow>, teams: seq<TeamRow>, teamId: int, p: TeamPatch)
    requires forall t :: t in teams && t.user_id.Some? ==> t.user_id.value in UserIds(users)
    ensures (forall t :: t in PatchTeams(teams, teamId, p) && t.user_id.Some? ==> t.user_id.value in UserIds(users))
        <==> (p.user_id.Some? && teamId in TeamIds(teams) ==> p.user_id.value in UserIds(users))
  {
    var r := PatchTeams(teams, teamId, p);
    if p.user_id.Some? && teamId in TeamIds(teams) {
      var k :| 0 <= k < |teams| && teams[k].team_id == teamId;
      assert r[k] in r && r[k].user_id == p.user_id;
    }
    if p.user_id.Some? && teamId in TeamIds(teams) ==> p.user_id.value in UserIds(users) {
      forall t | t in r && t.user_id.Some? ensures t.user_id.value in UserIds(users) {
        var k :| 0 <= k < |r| && r[k] == t;
        assert teams[k] in teams;
      }
    }
  }

  /** The patched table keeps the ids below the serial counter and breaks a
      constraint only through a reference to a missing user. */
  lemma PatchTeamsOk(users: seq<UserRow>, teams: seq<TeamRow>, teamId: int, p: TeamPatch, bound: int)
    requires TeamsOk(users, teams)
    requires forall t :: t in teams ==> t.team_id < bound
    ensures forall t :: t in PatchTeams(teams, teamId, p) ==> t.team_id < bound
    ensures TeamsOk(users, PatchTeams(teams, teamId, p)) <==>
      (p.user_id.Some? && teamId in TeamIds(teams) ==> p.user_id.value in UserIds(users))
    ensures TeamIds(PatchTeams(teams, teamId, p)) == TeamIds(teams)
    ensures teamId !in TeamIds(teams) ==> PatchTeams(teams, teamId, p) == teams
  {
    PatchKeepsIds(teams, teamId, p);
    PatchAbsent(teams, teamId, p);
    PatchBound(teams, teamId, p, bound);
    PatchOwners(users, teams, teamId, p);
  }

  /** `Team.update`: an empty patch is refused; otherwise the UPDATE runs,
      fails as a whole on a reference to a missing user, and reports NotFound
      when it matched no row. */
  method Update(db: Db, teamId: int, patch: TeamPatch) returns (r: Result<TeamRow>)
    requires db.Valid()
    modifies db`teams, db`roster
    ensures db.Valid()
    ensures db.roster == old(db.roster)
    ensures patch == TeamPatch(None, None) ==> r == Err(BadRequest([NO_DATA])) && db.teams == old(db.teams)
    ensures patch != TeamPatch(None, None) && teamId !in TeamIds(old(db.teams)) ==>
      r == Err(NotFound) && db.teams == old(db.teams)
    ensures patch != TeamPatch(None, None) && teamId in TeamIds(old(db.teams)) ==>
      && (r.Ok? <==> (patch.user_id.Some? ==> patch.user_id.value in UserIds(db.users)))
      && (r.Ok? ==> db.teams == PatchTeams(old(db.teams), teamId, patch)
                    && r.value == Patched(Get(old(db.teams), teamId).value, patch))
      && (r.Err? ==> r.error == StoreError && db.teams == old(db.teams))
  {
    if patch == TeamPatch(None, None) {
      return Err(BadRequest([NO_DATA]));
    }
    var candidate := PatchTeams(db.teams, teamId, patch);
    FindPatched(db.teams, teamId, patch);
    PatchTeamsOk(db.users, db.teams, teamId, patch, db.nextTeamId);
    var ok := db.ExecTeams(candidate, db.roster);
    if !ok {
      return Err(StoreError);
    }
    assert db.teams == candidate;
    var found := FindTeam(db.teams, teamId);
    r := if found.None? then Err(NotFound) else Ok(found.value);
  }

  /** `Team.remove`: NotFound when no team has that id; otherwise the team is
      deleted and its roster rows go with it. */
  method Remove(db: Db, teamId: int) returns (r: Result<()>)
    requires db.Valid()
    modifies db`teams, db`roster
    ensures db.Valid()
    ensures r.Err? <==> teamId !in TeamIds(old(db.teams))
    ensures r.Err? ==> r.error == NotFound && db.teams == old(db.teams) && db.roster == old(db.roster)
    ensures r.Ok? ==>
      db.teams == TeamsWhere(old(db.teams), NotTeam(teamId)) && db.roster == OtherTeamRows(old(db.roster), teamId)
  {
    var candidate := TeamsWhere(db.teams, NotTeam(teamId));
    var rows := OtherTeamRows(db.roster, teamId);
    TeamsWhereDistinct(db.teams, NotTeam(teamId));
    OtherTeamRowsOk(db.users, db.teams, db.roster, teamId);
    assert RosterOk(db.users, candidate, rows) by {
      forall x | x in rows ensures x.team_id in TeamIds(candidate) {
        assert x.team_id in TeamIds(db.teams);
        var t :| t in db.teams && t.team_id == x.team_id;
        assert t in candidate;
      }
    }
    if teamId !in TeamIds(db.teams) {
      return Err(NotFound);
    }
    var ok := db.ExecTeams(candidate, rows);
    assert ok;
    r := Ok(());
  }

  /** After a successful delete the team can no longer be fetched and no
      roster row refers to it; every other team is still there. */
  lemma RemoveLeavesNoTrace(teams: seq<TeamRow>, rows: seq<RosterRow>, teamId: int)
    ensures Get(TeamsWhere(teams, NotTeam(teamId)), teamId) == Err(NotFound)
    ensures TeamRows(OtherTeamRows(rows, teamId), teamId) == []
    ensures forall u :: u != teamId ==>
      (Get(TeamsWhere(teams, NotTeam(teamId)), u).Ok? <==> Get(teams, u).Ok?)
  {
    var left := TeamsWhere(teams, NotTeam(teamId));
    forall u | u != teamId ensures u in TeamIds(left) <==> u in TeamIds(teams) {
      if u in TeamIds(teams) {
        var t :| t in teams && t.team_id == u;
        assert t in left;
      }
    }
  }
}
