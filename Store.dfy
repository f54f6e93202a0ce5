/**
  The relational store shared by the team model and the roster model: the rows of
  the users, teams and teams_pokemon tables, the constraints their DDL declares,
  and the class that holds the live tables.

  Every SQL statement of the models is modelled as "compute the table the
  statement would leave, then commit it only if it satisfies the declared
  constraints; otherwise the statement fails and the table is left as it was".
*/
module Store {

  datatype Option<+T> = None | Some(value: T)

  /** The kinds of failure the models and the middleware raise. */
  datatype Error =
    | NotFound
    | BadRequest(messages: seq<string>)
    | Unauthorized
      // the store rejected a statement: a constraint, a NULL in a NOT NULL
      // column, or a value that is not an integer
    | StoreError
      // a plain JavaScript Error or TypeError thrown by the code itself
    | Thrown(message: string)

  datatype Result<+T> = Ok(value: T) | Err(error: Error)

  datatype UserRow = UserRow(user_id: int, username: string)

  /** A row of `teams`; `user_id` is nullable in the DDL. */
  datatype TeamRow = TeamRow(team_id: int, team_name: string, user_id: Option<int>)

  /** A row of `teams_pokemon`. `position`, `user_id` and `nickname` are kept
      nullable so that a statement writing NULL can be expressed and rejected. */
  datatype RosterRow = RosterRow(
    id: int,
    team_id: int,
    user_id: Option<int>,
    pokemon_name: string,
    pokemon_id: int,
    position: Option<int>,
    nickname: Option<string>)

  const MAX_POSITION := 6
  const MAX_NAME_LENGTH := 50

  function UserIds(users: seq<UserRow>): set<int> {
    set u | u in users :: u.user_id
  }

  function TeamIds(teams: seq<TeamRow>): set<int> {
    set t | t in teams :: t.team_id
  }

  /** The column constraints of one teams_pokemon row: position NOT NULL and
      within 1..6, team_id and user_id referencing existing rows, the
      VARCHAR(50) limits on the two name columns. */
  predicate RowFits(users: seq<UserRow>, teams: seq<TeamRow>, r: RosterRow) {
    && r.position.Some? && 1 <= r.position.value <= MAX_POSITION
    && r.team_id in TeamIds(teams)
    && r.user_id.Some? && r.user_id.value in UserIds(users)
    && |r.pokemon_name| <= MAX_NAME_LENGTH
    && (r.nickname.Some? ==> |r.nickname.value| <= MAX_NAME_LENGTH)
  }

  /** UNIQUE (team_id, position); as in SQL, two NULL positions never clash. */
  predicate PositionsUnique(rows: seq<RosterRow>) {
    forall i, j :: 0 <= i < j < |rows| && rows[i].team_id == rows[j].team_id && rows[i].position.Some? ==>
      rows[i].position != rows[j].position
  }

  /** Every constraint the DDL declares on teams_pokemon. */
  predicate RosterOk(users: seq<UserRow>, teams: seq<TeamRow>, rows: seq<RosterRow>) {
    (forall r :: r in rows ==> RowFits(users, teams, r)) && PositionsUnique(rows)
  }

  predicate DistinctTeamIds(teams: seq<TeamRow>) {
    forall i, j :: 0 <= i < j < |teams| ==> teams[i].team_id != teams[j].team_id
  }

  /** The constraints on teams: team_id is a primary key, user_id a nullable
      reference to users. */
  predicate TeamsOk(users: seq<UserRow>, teams: seq<TeamRow>) {
    && DistinctTeamIds(teams)
    && (forall t :: t in teams && t.user_id.Some? ==> t.user_id.value in UserIds(users))
  }

  /** `WHERE team_id = $1` on teams_pokemon, in table order. */
  function TeamRows(rows: seq<RosterRow>, teamId: int): (r: seq<RosterRow>)
    ensures forall x :: x in r <==> x in rows && x.team_id == teamId
    ensures |r| <= |rows|
  {
    if rows == [] then []
    else (if rows[0].team_id == teamId then [rows[0]] else []) + TeamRows(rows[1..], teamId)
  }

  /** The rows of `rows` that satisfy `keep`, in table order: what a
      `DELETE` whose WHERE clause is the negation of `keep` leaves behind. */
  function Filter(rows: seq<RosterRow>, keep: RosterRow -> bool): (r: seq<RosterRow>)
    ensures forall x :: x in r <==> x in rows && keep(x)
    ensures |r| <= |rows|
    ensures |r| == |rows| <==> forall x :: x in rows ==> keep(x)
  {
    if rows == [] then []
    else
      var rest := Filter(rows[1..], keep);
      assert rows == [rows[0]] + rows[1..];
      (if keep(rows[0]) then [rows[0]] else []) + rest
  }

  function NotInTeam(teamId: int): RosterRow -> bool {
    (x: RosterRow) => x.team_id != teamId
  }

  /** The rows that `DELETE FROM teams_pokemon WHERE team_id = $1` leaves. */
  function OtherTeamRows(rows: seq<RosterRow>, teamId: int): (r: seq<RosterRow>)
    ensures forall x :: x in r <==> x in rows && x.team_id != teamId
    ensures forall u :: u != teamId ==> TeamRows(r, u) == TeamRows(rows, u)
    ensures TeamRows(r, teamId) == []
  {
    forall u | u != teamId ensures TeamRows(Filter(rows, NotInTeam(teamId)), u) == TeamRows(rows, u) {
      FilterTeamRows(rows, NotInTeam(teamId), u);
    }
    var r := Filter(rows, NotInTeam(teamId));
    assert |TeamRows(r, teamId)| == 0 by {
      if |TeamRows(r, teamId)| > 0 {
        assert TeamRows(r, teamId)[0] in TeamRows(r, teamId);
      }
    }
    r
  }

  /** `SELECT * FROM teams WHERE team_id = $1`, first row. */
  function FindTeam(teams: seq<TeamRow>, teamId: int): (r: Option<TeamRow>)
    ensures r.Some? ==> r.value in teams && r.value.team_id == teamId
    ensures r.None? <==> teamId !in TeamIds(teams)
  {
    if teams == [] then None
    else if teams[0].team_id == teamId then Some(teams[0])
    else FindTeam(teams[1..], teamId)
  }

  /** `SELECT user_id FROM users WHERE username = $1`, first row. */
  function FindUser(users: seq<UserRow>, username: string): (r: Option<UserRow>)
    ensures r.Some? ==> r.value in users && r.value.username == username
    ensures r.None? <==> forall u :: u in users ==> u.username != username
  {
    if users == [] then None
    else if users[0].username == username then Some(users[0])
    else FindUser(users[1..], username)
  }

  /** The positions held by the rows of one team. */
  function TeamPositions(rows: seq<RosterRow>, teamId: int): set<int> {
    if rows == [] then {}
    else if rows[0].team_id == teamId && rows[0].position.Some? then
      {rows[0].position.value} + TeamPositions(rows[1..], teamId)
    else TeamPositions(rows[1..], teamId)
  }

  lemma {:induction false} TeamPositionsCount(rows: seq<RosterRow>, teamId: int)
    requires PositionsUnique(rows)
    requires forall r :: r in rows && r.team_id == teamId ==> r.position.Some? && 1 <= r.position.value <= MAX_POSITION
    ensures |TeamPositions(rows, teamId)| == |TeamRows(rows, teamId)|
    ensures TeamPositions(rows, teamId) <= {1, 2, 3, 4, 5, 6}
  {
    if rows != [] {
      var tail := rows[1..];
      assert PositionsUnique(tail) by {
        forall i, j | 0 <= i < j < |tail| && tail[i].team_id == tail[j].team_id && tail[i].position.Some?
          ensures tail[i].position != tail[j].position
        {
          assert tail[i] == rows[i + 1] && tail[j] == rows[j + 1];
        }
      }
      TeamPositionsCount(tail, teamId);
      if rows[0].team_id == teamId {
        var p := rows[0].position.value;
        if p in TeamPositions(tail, teamId) {
          var k := TeamPositionsWitness(tail, teamId, p);
          assert false;
        }
      }
    }
  }

  /** The index of a row of the team that holds a given position. */
  lemma {:induction false} TeamPositionsWitness(rows: seq<RosterRow>, teamId: int, p: int) returns (k: nat)
    requires p in TeamPositions(rows, teamId)
    ensures k < |rows| && rows[k].team_id == teamId && rows[k].position == Some(p)
  {
    if rows[0].team_id == teamId && rows[0].position == Some(p) {
      k := 0;
    } else {
      var k' := TeamPositionsWitness(rows[1..], teamId, p);
      k := k' + 1;
    }
  }

  /** The capacity ceiling follows from the constraints alone: positions are
      unique per team and lie in 1..6, so no team holds more than six rows. */
  lemma {:induction false} AtMostSixRowsPerTeam(users: seq<UserRow>, teams: seq<TeamRow>, rows: seq<RosterRow>, teamId: int)
    requires RosterOk(users, teams, rows)
    ensures |TeamRows(rows, teamId)| <= MAX_POSITION
  {
    TeamPositionsCount(rows, teamId);
    var all: set<int> := {1, 2, 3, 4, 5, 6};
    var mine := TeamPositions(rows, teamId);
    assert |all| == 6;
    assert all == mine + (all - mine);
    assert |all| == |mine| + |all - mine|;
  }

  lemma UniqueCons(a: RosterRow, rows: seq<RosterRow>)
    ensures PositionsUnique([a] + rows) <==>
      && PositionsUnique(rows)
      && forall x :: x in rows && x.team_id == a.team_id && a.position.Some? ==> x.position != a.position
  {
    var s := [a] + rows;
    if PositionsUnique(rows) && forall x :: x in rows && x.team_id == a.team_id && a.position.Some? ==> x.position != a.position {
      forall i, j | 0 <= i < j < |s| && s[i].team_id == s[j].team_id && s[i].position.Some?
        ensures s[i].position != s[j].position
      {
        if i > 0 {
          assert s[i] == rows[i - 1] && s[j] == rows[j - 1];
        } else {
          assert s[j] in rows;
        }
      }
    }
    if PositionsUnique(s) {
      forall i, j | 0 <= i < j < |rows| && rows[i].team_id == rows[j].team_id && rows[i].position.Some?
        ensures rows[i].position != rows[j].position
      {
        assert rows[i] == s[i + 1] && rows[j] == s[j + 1];
      }
      forall x | x in rows && x.team_id == a.team_id && a.position.Some? ensures x.position != a.position {
        var k :| 0 <= k < |rows| && rows[k] == x;
        assert s[0] == a && s[k + 1] == x;
      }
    }
  }

  /** Deleting rows never breaks the uniqueness of (team_id, position). */
  lemma {:induction false} FilterKeepsUnique(rows: seq<RosterRow>, keep: RosterRow -> bool)
    requires PositionsUnique(rows)
    ensures PositionsUnique(Filter(rows, keep))
  {
    if rows != [] {
      UniqueCons(rows[0], rows[1..]);
      assert [rows[0]] + rows[1..] == rows;
      FilterKeepsUnique(rows[1..], keep);
      if keep(rows[0]) {
        UniqueCons(rows[0], Filter(rows[1..], keep));
      } else {
        assert Filter(rows, keep) == Filter(rows[1..], keep);
      }
    }
  }

  /** A deletion that keeps every row of a team leaves that team's rows as
      they were. */
  lemma {:induction false} FilterTeamRows(rows: seq<RosterRow>, keep: RosterRow -> bool, teamId: int)
    requires forall x :: x in rows && x.team_id == teamId ==> keep(x)
    ensures TeamRows(Filter(rows, keep), teamId) == TeamRows(rows, teamId)
  {
    if rows != [] {
      FilterTeamRows(rows[1..], keep, teamId);
      var f := Filter(rows[1..], keep);
      if keep(rows[0]) {
        assert Filter(rows, keep) == [rows[0]] + f;
        assert ([rows[0]] + f)[1..] == f;
      } else {
        assert Filter(rows, keep) == f;
      }
    }
  }

  /** Deleting rows of teams_pokemon never breaks one of its constraints. */
  lemma FilterRosterOk(users: seq<UserRow>, teams: seq<TeamRow>, rows: seq<RosterRow>, keep: RosterRow -> bool)
    requires RosterOk(users, teams, rows)
    ensures RosterOk(users, teams, Filter(rows, keep))
  {
    FilterKeepsUnique(rows, keep);
  }

  lemma OtherTeamRowsOk(users: seq<UserRow>, teams: seq<TeamRow>, rows: seq<RosterRow>, teamId: int)
    requires RosterOk(users, teams, rows)
    ensures RosterOk(users, teams, OtherTeamRows(rows, teamId))
  {
    FilterRosterOk(users, teams, rows, NotInTeam(teamId));
  }

  /** The live tables and the serial counters behind team_id and id. */
  class Db {
    var users: seq<UserRow>
    var teams: seq<TeamRow>
    var roster: seq<RosterRow>
    var nextTeamId: int
    var nextRowId: int

    ghost predicate Valid()
      reads this
    {
      && TeamsOk(users, teams)
      && RosterOk(users, teams, roster)
      && (forall t :: t in teams ==> t.team_id < nextTeamId)
    }

    constructor (users: seq<UserRow>)
      ensures Valid()
      ensures this.users == users && teams == [] && roster == []
      ensures nextTeamId == 1 && nextRowId == 1
    {
      this.users := users;
      teams := [];
      roster := [];
      nextTeamId := 1;
      nextRowId := 1;
    }

    /** One statement on teams, with the rows of teams_pokemon it cascades
        to; both tables change together or not at all. */
    method ExecTeams(candidateTeams: seq<TeamRow>, candidateRoster: seq<RosterRow>) returns (ok: bool)
      requires Valid()
      requires forall t :: t in candidateTeams ==> t.team_id < nextTeamId
      modifies this`teams, this`roster
      ensures Valid()
      ensures ok == (TeamsOk(users, candidateTeams) && RosterOk(users, candidateTeams, candidateRoster))
      ensures teams == (if ok then candidateTeams else old(teams))
      ensures roster == (if ok then candidateRoster else old(roster))
    {
      ok := TeamsOk(users, candidateTeams) && RosterOk(users, candidateTeams, candidateRoster);
      if ok {
        teams, roster := candidateTeams, candidateRoster;
      }
    }

    /** One statement on teams_pokemon: `candidate` is the table it would
        leave; it is committed only when every constraint holds. */
    method ExecRoster(candidate: seq<RosterRow>) returns (ok: bool)
      requires Valid()
      modifies this`roster
      ensures Valid()
      ensures ok == RosterOk(users, teams, candidate)
      ensures roster == if ok then candidate else old(roster)
    {
      ok := RosterOk(users, teams, candidate);
      if ok {
        roster := candidate;
      }
    }
  }
}
