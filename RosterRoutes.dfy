/**
  The handlers of routes/teams_pokemon.js, after the authorization guard has
  let the request through. A handler's outcome is a `Result`: `Ok` is the
  success response, `Err` the error passed to `next`.

  The JSON-schema validator's verdict is an input (`schemaErrors`, empty when
  the body is valid); the path parameter `:id` is the team id.
*/
module RosterRoutes {
  import opened Store
  import Roster

  const TEAM_FULL := "Team cannot exceed 6 Pokémon."
  const INVALID_ORDER := "Invalid Pokémon order."
  const REORDERED := "Pokémon reordered successfully."

  /** The success answers of `PATCH /:id`: the reorder branch never calls
      `res.json`, so it answers nothing. */
  datatype PatchReply = NoResponse | Updated(pkmn: seq<RosterRow>)

  /** The rows a batch of `createNew` calls on an existing team adds, each
      INSERT checked against the table the earlier ones left: the elements'
      rows, with consecutive ids, that the constraints admit in turn. */
  function Admitted(users: seq<UserRow>, teams: seq<TeamRow>, rows: seq<RosterRow>,
                    firstId: int, team: TeamRow, ps: seq<Roster.PokemonInput>): (added: seq<RosterRow>)
    ensures |added| <= |ps|
    decreases |ps|
  {
    if ps == [] then []
    else
      var row := Roster.NewRow(firstId, team, ps[0]);
      if RosterOk(users, teams, rows + [row]) then [row] + Admitted(users, teams, rows + [row], firstId + 1, team, ps[1..])
      else Admitted(users, teams, rows, firstId + 1, team, ps[1..])
  }

  /** The admitted rows are a subsequence of the elements' rows: each is the
      row of the element its id points at, and ids strictly increase. */
  lemma {:induction false} AdmittedAreElementRows(users: seq<UserRow>, teams: seq<TeamRow>, rows: seq<RosterRow>,
                                                  firstId: int, team: TeamRow, ps: seq<Roster.PokemonInput>)
    ensures var added := Admitted(users, teams, rows, firstId, team, ps);
      && (forall x :: x in added ==>
            && firstId <= x.id < firstId + |ps|
            && x == Roster.NewRow(x.id, team, ps[x.id - firstId]))
      && (forall a, b :: 0 <= a < b < |added| ==> added[a].id < added[b].id)
    decreases |ps|
  {
    if ps != [] {
      var row := Roster.NewRow(firstId, team, ps[0]);
      var next := if RosterOk(users, teams, rows + [row]) then rows + [row] else rows;
      var rest := Admitted(users, teams, next, firstId + 1, team, ps[1..]);
      AdmittedAreElementRows(users, teams, next, firstId + 1, team, ps[1..]);
      forall x | x in rest ensures x == Roster.NewRow(x.id, team, ps[x.id - firstId]) {
        assert ps[1..][x.id - (firstId + 1)] == ps[x.id - firstId];
      }
      if RosterOk(users, teams, rows + [row]) {
        var added := [row] + rest;
        forall a, b | 0 <= a < b < |added| ensures added[a].id < added[b].id {
          assert added[b] == rest[b - 1];
          if a > 0 {
            assert added[a] == rest[a - 1];
          } else {
            assert rest[b - 1] in rest;
          }
        }
      }
    }
  }

  /** When every INSERT of the batch is admitted, the added rows are the
      elements' rows in input order, with consecutive ids. */
  lemma {:induction false} AllAdmitted(users: seq<UserRow>, teams: seq<TeamRow>, rows: seq<RosterRow>,
                                       firstId: int, team: TeamRow, ps: seq<Roster.PokemonInput>)
    requires |Admitted(users, teams, rows, firstId, team, ps)| == |ps|
    ensures forall k :: 0 <= k < |ps| ==>
      Admitted(users, teams, rows, firstId, team, ps)[k] == Roster.NewRow(firstId + k, team, ps[k])
    decreases |ps|
  {
    if ps != [] {
      var row := Roster.NewRow(firstId, team, ps[0]);
      assert RosterOk(users, teams, rows + [row]);
      var rest := Admitted(users, teams, rows + [row], firstId + 1, team, ps[1..]);
      AllAdmitted(users, teams, rows + [row], firstId + 1, team, ps[1..]);
      forall k | 0 <= k < |ps| ensures ([row] + rest)[k] == Roster.NewRow(firstId + k, team, ps[k]) {
        if k > 0 {
          assert ([row] + rest)[k] == rest[k - 1] && ps[1..][k - 1] == ps[k];
        }
      }
    }
  }

  /** A batch only adds rows to its own team: that team's rows are the old
      ones followed by the admitted rows, and no other team's rows change. */
  lemma BatchAddsToTeam(users: seq<UserRow>, teams: seq<TeamRow>, rows: seq<RosterRow>,
                        firstId: int, team: TeamRow, ps: seq<Roster.PokemonInput>)
    ensures var added := Admitted(users, teams, rows, firstId, team, ps);
      && TeamRows(rows + added, team.team_id) == TeamRows(rows, team.team_id) + added
      && forall u :: u != team.team_id ==> TeamRows(rows + added, u) == TeamRows(rows, u)
  {
    var added := Admitted(users, teams, rows, firstId, team, ps);
    AdmittedAreElementRows(users, teams, rows, firstId, team, ps);
    Roster.TeamRowsConcat(rows, added, team.team_id);
    Roster.TeamRowsOfOneTeam(added, team.team_id);
    forall u | u != team.team_id ensures TeamRows(rows + added, u) == TeamRows(rows, u) {
      Roster.TeamRowsConcat(rows, added, u);
      Roster.TeamRowsOfOtherTeam(added, team.team_id, u);
    }
  }

  /** `Promise.all` over `pokemon.map(createNew)`: every call runs, in input
      order, and the first failure in that order is the outcome. On an
      existing team the table gains exactly the admitted rows. */
  method CreateEach(db: Db, teamId: int, pokemon: seq<Roster.PokemonInput>)
    returns (r: Result<seq<RosterRow>>)
    requires db.Valid()
    modifies db`roster, db`nextRowId
    ensures db.Valid()
    ensures FindTeam(db.teams, teamId).None? ==>
      && db.roster == old(db.roster) && db.nextRowId == old(db.nextRowId)
      && r == (if pokemon == [] then Ok([]) else Err(NotFound))
    ensures FindTeam(db.teams, teamId).Some? ==>
      var added := Admitted(db.users, db.teams, old(db.roster), old(db.nextRowId), FindTeam(db.teams, teamId).value, pokemon);
      && db.roster == old(db.roster) + added
      && db.nextRowId == old(db.nextRowId) + |pokemon|
      && (r.Ok? <==> |added| == |pokemon|)
      && (r.Err? ==> r.error == StoreError)
      && (r.Ok? ==> r.value == added)
    decreases |pokemon|
  {
    if pokemon == [] {
      return Ok([]);
    }
    ghost var start, first := db.roster, db.nextRowId;
    var x := Roster.CreateNew(db, teamId, pokemon[0]);
    ghost var mid := db.roster;
    var rest := CreateEach(db, teamId, pokemon[1..]);
    r := if x.Err? then Err(x.error) else if rest.Err? then Err(rest.error) else Ok([x.value] + rest.value);
    match FindTeam(db.teams, teamId)
    case None =>
    case Some(team) =>
      ghost var row := Roster.NewRow(first, team, pokemon[0]);
      ghost var tail := Admitted(db.users, db.teams, mid, first + 1, team, pokemon[1..]);
      if RosterOk(db.users, db.teams, start + [row]) {
        assert Admitted(db.users, db.teams, start, first, team, pokemon) == [row] + tail;
        assert db.roster == start + ([row] + tail);
      } else {
        assert Admitted(db.users, db.teams, start, first, team, pokemon) == tail;
      }
  }

  /** What a batch on an existing team returns: when it succeeds, the rows of
      the elements in input order, with consecutive ids; whatever the
      outcome, only the team's own rows change and they only grow. */
  lemma BatchOutcome(users: seq<UserRow>, teams: seq<TeamRow>, rows: seq<RosterRow>,
                     firstId: int, team: TeamRow, ps: seq<Roster.PokemonInput>)
    ensures var added := Admitted(users, teams, rows, firstId, team, ps);
      && (|added| == |ps| ==> forall k :: 0 <= k < |ps| ==> added[k] == Roster.NewRow(firstId + k, team, ps[k]))
      && TeamRows(rows + added, team.team_id) == TeamRows(rows, team.team_id) + added
      && (forall u :: u != team.team_id ==> TeamRows(rows + added, u) == TeamRows(rows, u))
  {
    if |Admitted(users, teams, rows, firstId, team, ps)| == |ps| {
      AllAdmitted(users, teams, rows, firstId, team, ps);
    }
    BatchAddsToTeam(users, teams, rows, firstId, team, ps);
  }

  /** `POST /:id`: refuses an invalid body, then a team that already holds six
      rows, then adds every element. Whatever the path, the team ends with at
      most six rows and no other team's rows change. */
  method Post(db: Db, teamId: int, schemaErrors: seq<string>, pokemon: seq<Roster.PokemonInput>)
    returns (r: Result<seq<RosterRow>>)
    requires db.Valid()
    modifies db`roster, db`nextRowId
    ensures db.Valid()
    ensures schemaErrors != [] ==>
      r == Err(BadRequest(schemaErrors)) && db.roster == old(db.roster) && db.nextRowId == old(db.nextRowId)
    ensures schemaErrors == [] && Roster.CountByTeamId(old(db.roster), teamId) >= MAX_POSITION ==>
      r == Err(BadRequest([TEAM_FULL])) && db.roster == old(db.roster) && db.nextRowId == old(db.nextRowId)
    ensures schemaErrors == [] && Roster.CountByTeamId(old(db.roster), teamId) < MAX_POSITION ==>
      && (FindTeam(db.teams, teamId).None? ==>
            db.roster == old(db.roster) && r == (if pokemon == [] then Ok([]) else Err(NotFound)))
      && (FindTeam(db.teams, teamId).Some? ==>
            var added := Admitted(db.users, db.teams, old(db.roster), old(db.nextRowId), FindTeam(db.teams, teamId).value, pokemon);
            && db.roster == old(db.roster) + added
            && TeamRows(db.roster, teamId) == TeamRows(old(db.roster), teamId) + added
            && db.nextRowId == old(db.nextRowId) + |pokemon|
            && (r.Ok? <==> |added| == |pokemon|)
            && (r.Err? ==> r.error == StoreError)
            && (r.Ok? ==> |r.value| == |pokemon| && forall i :: 0 <= i < |pokemon| ==>
                  r.value[i] == Roster.NewRow(old(db.nextRowId) + i, FindTeam(db.teams, teamId).value, pokemon[i])))
    ensures r.Ok? ==> |r.value| == |pokemon| && db.roster == old(db.roster) + r.value
    ensures r.Ok? ==> forall x :: x in r.value ==> x.position.Some? && 1 <= x.position.value <= MAX_POSITION
    ensures forall u :: u != teamId ==> TeamRows(db.roster, u) == TeamRows(old(db.roster), u)
    ensures Roster.CountByTeamId(db.roster, teamId) <= MAX_POSITION
  {
    AtMostSixRowsPerTeam(db.users, db.teams, db.roster, teamId);
    if schemaErrors != [] {
      return Err(BadRequest(schemaErrors));
    }
    var count := Roster.CountByTeamId(db.roster, teamId);
    if count >= MAX_POSITION {
      return Err(BadRequest([TEAM_FULL]));
    }
    ghost var start, first := db.roster, db.nextRowId;
    r := CreateEach(db, teamId, pokemon);
    AtMostSixRowsPerTeam(db.users, db.teams, db.roster, teamId);
    match FindTeam(db.teams, teamId)
    case None =>
    case Some(team) =>
      BatchOutcome(db.users, db.teams, start, first, team, pokemon);
  }

  /** `PATCH /:id`: a truthy `newOrder` (any array, even an empty one) goes
      to `reorderPokemons`; otherwise the path parameter, a string, is handed
      to `update` as its argument, whose destructured `pokemon` is then
      undefined, so that branch always throws. */
  method Patch(db: Db, teamId: int, schemaErrors: seq<string>, newOrder: Option<seq<int>>)
    returns (r: Result<PatchReply>)
    requires db.Valid()
    modifies db`roster, db`nextRowId
    ensures db.Valid()
    ensures db.nextRowId == old(db.nextRowId)
    ensures schemaErrors != [] ==> r == Err(BadRequest(schemaErrors)) && db.roster == old(db.roster)
    ensures schemaErrors == [] && newOrder.None? ==> r == Err(Thrown(Roster.NO_DATA)) && db.roster == old(db.roster)
    ensures schemaErrors == [] && newOrder.Some? ==>
      var outcome := Roster.ReorderOutcome(db.users, db.teams, old(db.roster), teamId, newOrder.value);
      && (r.Ok? <==> outcome.Some?)
      && (r.Ok? ==> r.value == NoResponse && db.roster == outcome.value)
      && (r.Err? ==> r.error == StoreError && db.roster == old(db.roster))
    ensures schemaErrors == [] && newOrder.Some? && Roster.CountByTeamId(old(db.roster), teamId) > 0 ==>
      r == Err(StoreError) && db.roster == old(db.roster)
  {
    if schemaErrors != [] {
      return Err(BadRequest(schemaErrors));
    }
    if newOrder.Some? {
      if Roster.CountByTeamId(db.roster, teamId) > 0 {
        Roster.ReorderRollsBackOnNonEmptyTeam(db.users, db.teams, db.roster, teamId, newOrder.value);
      }
      var done := Roster.ReorderPokemons(db, teamId, newOrder.value);
      r := if done.Ok? then Ok(NoResponse) else Err(done.error);
    } else {
      var updated, _ := Roster.Update(db, Roster.UpdateArg(None, None, None));
      assert updated.Err?;
      r := Err(updated.error);
    }
  }

  /** Keeping every row leaves the table as it was. */
  lemma {:induction false} FilterKeepingAll(rows: seq<RosterRow>, keep: RosterRow -> bool)
    requires forall x :: x in rows ==> keep(x)
    ensures Filter(rows, keep) == rows
  {
    if rows != [] {
      assert rows[0] in rows;
      assert forall x :: x in rows[1..] ==> x in rows;
      FilterKeepingAll(rows[1..], keep);
      assert rows == [rows[0]] + rows[1..];
    }
  }

  /** `DELETE /:id`: `remove` is called without a pokemon_id, which reaches
      SQL as NULL; `pokemon_id = NULL` holds of no row, so the handler never
      deletes anything and always answers NotFound. */
  method Delete(db: Db, teamId: int) returns (r: Result<int>)
    requires db.Valid()
    modifies db`roster
    ensures db.Valid()
    ensures r == Err(NotFound)
    ensures db.roster == old(db.roster)
  {
    FilterKeepingAll(db.roster, Roster.NotMatching(teamId, None));
    var removed := Roster.Remove(db, teamId, None);
    r := if removed.Ok? then Ok(teamId) else Err(removed.error);
  }

  /** `PATCH /:id/reorder`: `newOrder` must be a non-empty array (`None`
      stands for a value that is not an array). */
  method Reorder(db: Db, teamId: int, newOrder: Option<seq<int>>) returns (r: Result<string>)
    requires db.Valid()
    modifies db`roster
    ensures db.Valid()
    ensures newOrder.None? || newOrder.value == [] ==>
      r == Err(BadRequest([INVALID_ORDER])) && db.roster == old(db.roster)
    ensures newOrder.Some? && newOrder.value != [] ==>
      var outcome := Roster.ReorderOutcome(db.users, db.teams, old(db.roster), teamId, newOrder.value);
      && (r.Ok? <==> outcome.Some?)
      && (r.Ok? ==> r.value == REORDERED && db.roster == outcome.value)
      && (r.Err? ==> r.error == StoreError && db.roster == old(db.roster))
  {
    if newOrder.None? || newOrder.value == [] {
      return Err(BadRequest([INVALID_ORDER]));
    }
    var done := Roster.ReorderPokemons(db, teamId, newOrder.value);
    r := if done.Ok? then Ok(REORDERED) else Err(done.error);
  }
}
