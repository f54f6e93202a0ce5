/**
  The roster engine of models/teams_pokemon.js: the static methods of class
  Teams_Pokemon, over the store shared with the team model. Reads of the store
  are functions of the table; the methods that issue INSERT, DELETE and UPDATE
  statements take the store object and change it one statement at a time.
*/
module Roster {
  import opened Store
  import Sorting

  /** One element of a request's `pokemon` list. An absent `position` or
      `nickname` is `None` (JavaScript `undefined`, sent to SQL as NULL). */
  datatype PokemonInput = PokemonInput(
    pokemon_name: string,
    pokemon_id: int,
    position: Option<int>,
    nickname: Option<string>)

  /** The three columns `findAll` selects. */
  datatype Listing = Listing(pokemon_name: string, pokemon_id: int, position: Option<int>)

  /** The destructured argument of `update`. */
  datatype UpdateArg = UpdateArg(
    user_id: Option<int>,
    team_id: Option<int>,
    pokemon: Option<seq<PokemonInput>>)  // None: not an array

  const NO_DATA := "No Pokémon data provided for update."

  // ----- reads -----------------------------------------------------------

  /** `SELECT COUNT(*) ... WHERE team_id = $1`. */
  function CountByTeamId(rows: seq<RosterRow>, teamId: int): (n: nat)
    ensures n == |TeamRows(rows, teamId)|
    ensures n == 0 <==> forall x :: x in rows ==> x.team_id != teamId
  {
    if rows == [] then 0
    else (if rows[0].team_id == teamId then 1 else 0) + CountByTeamId(rows[1..], teamId)
  }

  /** The sort key of `ORDER BY position`; NULL sorts after every position
      the CHECK constraint admits. */
  function PositionKey(r: RosterRow): int {
    match r.position
    case Some(p) => p
    case None => MAX_POSITION + 1
  }

  function ListingKey(l: Listing): int {
    match l.position
    case Some(p) => p
    case None => MAX_POSITION + 1
  }

  function ListingOf(r: RosterRow): Listing {
    Listing(r.pokemon_name, r.pokemon_id, r.position)
  }

  function Listings(rows: seq<RosterRow>): seq<Listing> {
    seq(|rows|, i requires 0 <= i < |rows| => ListingOf(rows[i]))
  }

  /** `findAll`: the team's rows ordered by position, or NotFound when the
      team has none, whether or not the team exists. */
  function FindAll(rows: seq<RosterRow>, teamId: int): (r: Result<seq<Listing>>)
    ensures r.Err? <==> CountByTeamId(rows, teamId) == 0
    ensures r.Err? ==> r.error == NotFound
  {
    var mine := TeamRows(rows, teamId);
    if |mine| == 0 then Err(NotFound)
    else Ok(Listings(Sorting.SortBy(mine, PositionKey)))
  }

  lemma SameMembers(a: seq<RosterRow>, b: seq<RosterRow>)
    requires multiset(a) == multiset(b)
    ensures forall x :: x in a <==> x in b
  {
    forall x ensures x in a <==> x in b {
      assert x in a <==> x in multiset(a);
      assert x in b <==> x in multiset(b);
    }
  }

  lemma ListingsKeepOrder(rows: seq<RosterRow>)
    requires Sorting.SortedBy(rows, PositionKey)
    ensures Sorting.SortedBy(Listings(rows), ListingKey)
  {
    var out := Listings(rows);
    forall i, j | 0 <= i < j < |out| ensures ListingKey(out[i]) <= ListingKey(out[j]) {
      assert ListingKey(out[i]) == PositionKey(rows[i]) && ListingKey(out[j]) == PositionKey(rows[j]);
    }
  }

  lemma ListingsMembers(rows: seq<RosterRow>)
    ensures forall x :: x in rows ==> ListingOf(x) in Listings(rows)
    ensures forall l :: l in Listings(rows) ==> exists x :: x in rows && l == ListingOf(x)
  {
    var out := Listings(rows);
    forall x | x in rows ensures ListingOf(x) in out {
      var k :| 0 <= k < |rows| && rows[k] == x;
      assert out[k] == ListingOf(x);
    }
    forall l | l in out ensures exists x :: x in rows && l == ListingOf(x) {
      var k :| 0 <= k < |out| && out[k] == l;
      assert rows[k] in rows;
    }
  }

  lemma ListingsConcat(a: seq<RosterRow>, b: seq<RosterRow>)
    ensures Listings(a + b) == Listings(a) + Listings(b)
  {
    assert forall i :: 0 <= i < |a + b| ==> Listings(a + b)[i] == (Listings(a) + Listings(b))[i];
  }

  /** Rows that are a permutation of each other have listings that are a
      permutation of each other. */
  lemma {:induction false} ListingsPermute(a: seq<RosterRow>, b: seq<RosterRow>)
    requires multiset(a) == multiset(b)
    ensures multiset(Listings(a)) == multiset(Listings(b))
    decreases |a|
  {
    if a == [] {
      assert |b| == |multiset(b)| == 0;
    } else {
      var x := a[0];
      assert x in multiset(b);
      var k :| 0 <= k < |b| && b[k] == x;
      var front, back := b[..k], b[k+1..];
      assert b == front + [x] + back;
      assert a == [x] + a[1..];
      assert multiset(a[1..]) == multiset(front + back) by {
        assert multiset(a) == multiset{x} + multiset(a[1..]);
        assert multiset(b) == multiset(front) + multiset{x} + multiset(back);
        assert multiset(front + back) == multiset(front) + multiset(back);
        assert multiset(a[1..]) == multiset(a) - multiset{x};
        assert multiset(front + back) == multiset(b) - multiset{x};
      }
      ListingsPermute(a[1..], front + back);
      var lx := Listings([x]);
      ListingsConcat([x], a[1..]);
      ListingsConcat(front + [x], back);
      ListingsConcat(front, [x]);
      ListingsConcat(front, back);
      assert multiset(Listings(b)) == multiset(Listings(front)) + multiset(lx) + multiset(Listings(back));
      assert multiset(Listings(a)) == multiset(lx) + multiset(Listings(front + back));
    }
  }

  /** What `findAll` returns: one listing per row of the team, each row's
      listing present and nothing else, in ascending position; as a
      multiset, exactly the listings of the team's rows. */
  lemma FindAllListsTeam(rows: seq<RosterRow>, teamId: int)
    requires CountByTeamId(rows, teamId) > 0
    ensures FindAll(rows, teamId).Ok?
    ensures |FindAll(rows, teamId).value| == CountByTeamId(rows, teamId)
    ensures Sorting.SortedBy(FindAll(rows, teamId).value, ListingKey)
    ensures forall x :: x in rows && x.team_id == teamId ==> ListingOf(x) in FindAll(rows, teamId).value
    ensures forall l :: l in FindAll(rows, teamId).value ==>
      exists x :: x in rows && x.team_id == teamId && l == ListingOf(x)
    ensures multiset(FindAll(rows, teamId).value) == multiset(Listings(TeamRows(rows, teamId)))
  {
    var mine := TeamRows(rows, teamId);
    var sorted := Sorting.SortBy(mine, PositionKey);
    SameMembers(mine, sorted);
    ListingsPermute(sorted, mine);
    ListingsKeepOrder(sorted);
    ListingsMembers(sorted);
  }

  // ----- createNew -------------------------------------------------------

  /** The row `createNew` inserts for `p` into `team`: the owner is the
      team's, and a missing nickname becomes ''. */
  function NewRow(id: int, team: TeamRow, p: PokemonInput): RosterRow {
    RosterRow(id, team.team_id, team.user_id, p.pokemon_name, p.pokemon_id, p.position,
      Some(match p.nickname case Some(n) => n case None => ""))
  }

  /** Appending a row adds it to its own team's rows and to no other. */
  lemma {:induction false} AppendTeamRows(rows: seq<RosterRow>, row: RosterRow, teamId: int)
    ensures TeamRows(rows + [row], teamId) == TeamRows(rows, teamId) + (if row.team_id == teamId then [row] else [])
  {
    var tail := if row.team_id == teamId then [row] else [];
    if rows == [] {
      assert [row][1..] == [];
      assert TeamRows([row], teamId) == tail + TeamRows([], teamId);
    } else {
      var s := rows + [row];
      var head := if rows[0].team_id == teamId then [rows[0]] else [];
      assert s[0] == rows[0] && s[1..] == rows[1..] + [row];
      AppendTeamRows(rows[1..], row, teamId);
      calc {
        TeamRows(s, teamId);
        head + TeamRows(s[1..], teamId);
        head + (TeamRows(rows[1..], teamId) + tail);
        (head + TeamRows(rows[1..], teamId)) + tail;
        TeamRows(rows, teamId) + tail;
      }
    }
  }

  /** `createNew` on an existing team raises the team's count by one. */
  lemma AppendCount(rows: seq<RosterRow>, row: RosterRow)
    ensures CountByTeamId(rows + [row], row.team_id) == CountByTeamId(rows, row.team_id) + 1
    ensures forall u :: u != row.team_id ==> CountByTeamId(rows + [row], u) == CountByTeamId(rows, u)
  {
    AppendTeamRows(rows, row, row.team_id);
    forall u | u != row.team_id ensures CountByTeamId(rows + [row], u) == CountByTeamId(rows, u) {
      AppendTeamRows(rows, row, u);
    }
  }

  method CreateNew(db: Db, teamId: int, p: PokemonInput) returns (r: Result<RosterRow>)
    requires db.Valid()
    modifies db`roster, db`nextRowId
    ensures db.Valid()
    ensures FindTeam(db.teams, teamId).None? ==>
      r == Err(NotFound) && db.roster == old(db.roster) && db.nextRowId == old(db.nextRowId)
    ensures FindTeam(db.teams, teamId).Some? ==>
      var row := NewRow(old(db.nextRowId), FindTeam(db.teams, teamId).value, p);
      && db.nextRowId == old(db.nextRowId) + 1
      && (r.Ok? <==> RosterOk(db.users, db.teams, old(db.roster) + [row]))
      && (r.Ok? ==> r.value == row && db.roster == old(db.roster) + [row])
      && (r.Err? ==> r.error == StoreError && db.roster == old(db.roster))
  {
    var team := FindTeam(db.teams, teamId);
    if team.None? {
      return Err(NotFound);
    }
    var row := NewRow(db.nextRowId, team.value, p);
    db.nextRowId := db.nextRowId + 1;
    var ok := db.ExecRoster(db.roster + [row]);
    r := if ok then Ok(row) else Err(StoreError);
  }

  // ----- update ----------------------------------------------------------

  /** `user_id || ""`: a truthy owner is passed through; a falsy one becomes
      the empty string, written here as None. The empty string is not an
      integer, so the store refuses the INSERT while binding its parameters,
      before the `id` default draws a serial value. */
  function OwnerParam(userId: Option<int>): (p: Option<int>)
    ensures p.Some? <==> userId.Some? && userId.value != 0
    ensures p.Some? ==> p == userId
  {
    match userId
    case Some(u) => if u != 0 then Some(u) else None
    case None => None
  }

  /** The row `update` inserts for `p`: unlike `createNew`, the owner comes
      from the argument and a missing nickname stays NULL. */
  function ReplacementRow(id: int, teamId: int, owner: Option<int>, p: PokemonInput): RosterRow {
    RosterRow(id, teamId, owner, p.pokemon_name, p.pokemon_id, p.position, p.nickname)
  }

  /** The rows `update` inserts, one per element, with consecutive ids. */
  function BuildRows(firstId: int, teamId: int, owner: Option<int>, ps: seq<PokemonInput>): seq<RosterRow> {
    seq(|ps|, i requires 0 <= i < |ps| => ReplacementRow(firstId + i, teamId, owner, ps[i]))
  }

  predicate HasPokemon(arg: UpdateArg) {
    arg.pokemon.Some? && arg.pokemon.value != []
  }

  /** The loop of `update`: one INSERT per element, in order, stopping at the
      first one the store rejects. */
  method InsertEach(db: Db, teamId: int, owner: Option<int>, ps: seq<PokemonInput>)
    returns (r: Result<seq<RosterRow>>, ghost inserted: nat)
    requires db.Valid()
    modifies db`roster, db`nextRowId
    ensures db.Valid()
    ensures inserted <= |ps|
    ensures var built := BuildRows(old(db.nextRowId), teamId, owner, ps);
      && db.roster == old(db.roster) + built[..inserted]
      && (r.Ok? <==> inserted == |ps|)
      && (r.Ok? ==> r.value == built && db.nextRowId == old(db.nextRowId) + |ps|)
      && (r.Err? ==> r.error == StoreError && db.nextRowId == old(db.nextRowId) + inserted + 1)
      && (r.Err? ==> !RosterOk(db.users, db.teams, db.roster + [built[inserted]]))
  {
    ghost var built := BuildRows(db.nextRowId, teamId, owner, ps);
    var updated: seq<RosterRow> := [];
    var i := 0;
    while i < |ps|
      invariant 0 <= i <= |ps|
      invariant db.Valid()
      invariant db.nextRowId == old(db.nextRowId) + i
      invariant updated == built[..i]
      invariant db.roster == old(db.roster) + updated
    {
      var row := ReplacementRow(db.nextRowId, teamId, owner, ps[i]);
      assert row == built[i];
      db.nextRowId := db.nextRowId + 1;
      var ok := db.ExecRoster(db.roster + [row]);
      if !ok {
        return Err(StoreError), i;
      }
      assert built[..i + 1] == built[..i] + [row];
      updated := updated + [row];
      i := i + 1;
    }
    assert built[..|ps|] == built;
    r, inserted := Ok(updated), |ps|;
  }

  /** `update`: rejects a missing or empty list before touching the table;
      otherwise deletes the team's rows, then inserts one row per element.
      There is no transaction: when the insert at index `inserted` is
      rejected, the deletion and the earlier inserts stay. An INSERT that
      reaches the table draws a serial value even when it is then rejected;
      one whose owner parameter is the empty string never reaches it. */
  method Update(db: Db, arg: UpdateArg) returns (r: Result<seq<RosterRow>>, ghost inserted: nat)
    requires db.Valid()
    modifies db`roster, db`nextRowId
    ensures db.Valid()
    ensures !HasPokemon(arg) ==>
      r == Err(Thrown(NO_DATA)) && db.roster == old(db.roster) && db.nextRowId == old(db.nextRowId)
    ensures HasPokemon(arg) && OwnerParam(arg.user_id).None? ==>
      && r == Err(StoreError) && inserted == 0 && db.nextRowId == old(db.nextRowId)
      && db.roster == (if arg.team_id.Some? then OtherTeamRows(old(db.roster), arg.team_id.value) else old(db.roster))
    ensures HasPokemon(arg) && OwnerParam(arg.user_id).Some? && arg.team_id.None? ==>
      r == Err(StoreError) && db.roster == old(db.roster) && db.nextRowId == old(db.nextRowId) + 1
    ensures HasPokemon(arg) && OwnerParam(arg.user_id).Some? && arg.team_id.Some? ==>
      var ps := arg.pokemon.value;
      var built := BuildRows(old(db.nextRowId), arg.team_id.value, arg.user_id, ps);
      && inserted <= |ps|
      && db.roster == OtherTeamRows(old(db.roster), arg.team_id.value) + built[..inserted]
      && (r.Ok? <==> inserted == |ps|)
      && (r.Ok? ==> r.value == built && db.nextRowId == old(db.nextRowId) + |ps|)
      && (r.Err? ==> r.error == StoreError && db.nextRowId == old(db.nextRowId) + inserted + 1)
      && (r.Err? ==> !RosterOk(db.users, db.teams, db.roster + [built[inserted]]))
  {
    if !HasPokemon(arg) {
      return Err(Thrown(NO_DATA)), 0;
    }
    if arg.team_id.None? {
      // DELETE ... WHERE team_id = NULL matches nothing; the first INSERT
      // is refused, either for its empty-string owner or, once it reaches
      // the table, for the NULL in the NOT NULL column team_id
      if OwnerParam(arg.user_id).Some? {
        db.nextRowId := db.nextRowId + 1;
      }
      return Err(StoreError), 0;
    }
    var teamId := arg.team_id.value;
    OtherTeamRowsOk(db.users, db.teams, db.roster, teamId);
    var deleted := db.ExecRoster(OtherTeamRows(db.roster, teamId));
    var owner := OwnerParam(arg.user_id);
    if owner.None? {
      return Err(StoreError), 0;
    }
    r, inserted := InsertEach(db, teamId, owner, arg.pokemon.value);
  }

  // ----- remove ----------------------------------------------------------

  /** The negation of `WHERE team_id = $1 AND pokemon_id = $2`; an absent
      pokemon_id is NULL, and `= NULL` holds of no row. */
  function NotMatching(teamId: int, pokemonId: Option<int>): RosterRow -> bool {
    (x: RosterRow) => !(x.team_id == teamId && Some(x.pokemon_id) == pokemonId)
  }

  method Remove(db: Db, teamId: int, pokemonId: Option<int>) returns (r: Result<()>)
    requires db.Valid()
    modifies db`roster
    ensures db.Valid()
    ensures db.roster == Filter(old(db.roster), NotMatching(teamId, pokemonId))
    ensures r.Err? <==> forall x :: x in old(db.roster) ==> x.team_id != teamId || Some(x.pokemon_id) != pokemonId
    ensures r.Err? ==> r.error == NotFound
    ensures forall u :: u != teamId ==> TeamRows(db.roster, u) == TeamRows(old(db.roster), u)
  {
    var candidate := Filter(db.roster, NotMatching(teamId, pokemonId));
    FilterRosterOk(db.users, db.teams, db.roster, NotMatching(teamId, pokemonId));
    forall u | u != teamId ensures TeamRows(candidate, u) == TeamRows(db.roster, u) {
      FilterTeamRows(db.roster, NotMatching(teamId, pokemonId), u);
    }
    var before := |db.roster|;
    var ok := db.ExecRoster(candidate);
    r := if |candidate| == before then Err(NotFound) else Ok(());
  }

  // ----- reorderPokemons -------------------------------------------------

  /** `UPDATE teams_pokemon SET position = NULL WHERE team_id = $1`. */
  function ClearPositions(rows: seq<RosterRow>, teamId: int): seq<RosterRow> {
    seq(|rows|, k requires 0 <= k < |rows| =>
      if rows[k].team_id == teamId then rows[k].(position := None) else rows[k])
  }

  /** `UPDATE teams_pokemon SET position = $1 WHERE team_id = $2 AND pokemon_id = $3`. */
  function SetPosition(rows: seq<RosterRow>, teamId: int, pokemonId: int, pos: int): seq<RosterRow> {
    seq(|rows|, k requires 0 <= k < |rows| =>
      if rows[k].team_id == teamId && rows[k].pokemon_id == pokemonId then rows[k].(position := Some(pos)) else rows[k])
  }

  /** The assignment statements for indexes `i` onwards, each checked against
      the constraints; None when one of them is rejected. */
  function RunAssignments(users: seq<UserRow>, teams: seq<TeamRow>, rows: seq<RosterRow>,
                          teamId: int, order: seq<int>, i: nat): Option<seq<RosterRow>>
    requires i <= |order|
    decreases |order| - i
  {
    if i == |order| then Some(rows)
    else
      var next := SetPosition(rows, teamId, order[i], i + 1);
      if RosterOk(users, teams, next) then RunAssignments(users, teams, next, teamId, order, i + 1)
      else None
  }

  /** The committed table of the reorder transaction, or None when a
      statement is rejected and the transaction rolls back. */
  function ReorderOutcome(users: seq<UserRow>, teams: seq<TeamRow>, rows: seq<RosterRow>,
                          teamId: int, order: seq<int>): Option<seq<RosterRow>>
  {
    var cleared := ClearPositions(rows, teamId);
    if RosterOk(users, teams, cleared) then RunAssignments(users, teams, cleared, teamId, order, 0)
    else None
  }

  /** `reorderPokemons`: BEGIN; clear the team's positions; assign position
      i+1 to the rows named by newOrder[i]; COMMIT, or ROLLBACK to the
      table as it was at BEGIN when a statement is rejected. */
  method ReorderPokemons(db: Db, teamId: int, newOrder: seq<int>) returns (r: Result<()>)
    requires db.Valid()
    modifies db`roster
    ensures db.Valid()
    ensures var outcome := ReorderOutcome(db.users, db.teams, old(db.roster), teamId, newOrder);
      && (r.Ok? <==> outcome.Some?)
      && (r.Ok? ==> db.roster == outcome.value)
      && (r.Err? ==> r.error == StoreError && db.roster == old(db.roster))
  {
    var snapshot := db.roster;
    var ok := db.ExecRoster(ClearPositions(db.roster, teamId));
    if !ok {
      db.roster := snapshot;
      return Err(StoreError);
    }
    var i := 0;
    while i < |newOrder|
      invariant 0 <= i <= |newOrder|
      invariant db.Valid()
      invariant RunAssignments(db.users, db.teams, db.roster, teamId, newOrder, i)
             == ReorderOutcome(db.users, db.teams, snapshot, teamId, newOrder)
    {
      ok := db.ExecRoster(SetPosition(db.roster, teamId, newOrder[i], i + 1));
      if !ok {
        db.roster := snapshot;
        return Err(StoreError);
      }
      i := i + 1;
    }
    r := Ok(());
  }

  // ----- properties of reorder ---------------------------------------------

  /** With position NOT NULL, `SET position = NULL` is rejected as soon as the
      team has a row, so the transaction always rolls back for such a team. */
  lemma ReorderRollsBackOnNonEmptyTeam(users: seq<UserRow>, teams: seq<TeamRow>, rows: seq<RosterRow>,
                                       teamId: int, order: seq<int>)
    requires CountByTeamId(rows, teamId) > 0
    ensures ReorderOutcome(users, teams, rows, teamId, order) == None
  {
    var x :| x in rows && x.team_id == teamId;
    var k :| 0 <= k < |rows| && rows[k] == x;
    var cleared := ClearPositions(rows, teamId);
    assert cleared[k].position == None;
    assert cleared[k] in cleared;
  }

  lemma {:induction false} RunOnEmptyTeam(users: seq<UserRow>, teams: seq<TeamRow>, rows: seq<RosterRow>,
                                          teamId: int, order: seq<int>, i: nat)
    requires i <= |order|
    requires RosterOk(users, teams, rows)
    requires forall x :: x in rows ==> x.team_id != teamId
    ensures RunAssignments(users, teams, rows, teamId, order, i) == Some(rows)
    decreases |order| - i
  {
    if i < |order| {
      assert SetPosition(rows, teamId, order[i], i + 1) == rows;
      RunOnEmptyTeam(users, teams, rows, teamId, order, i + 1);
    }
  }

  /** On a team without rows every statement matches nothing and the
      transaction commits the table unchanged. */
  lemma ReorderOnEmptyTeam(users: seq<UserRow>, teams: seq<TeamRow>, rows: seq<RosterRow>,
                           teamId: int, order: seq<int>)
    requires RosterOk(users, teams, rows)
    requires CountByTeamId(rows, teamId) == 0
    ensures ReorderOutcome(users, teams, rows, teamId, order) == Some(rows)
  {
    assert ClearPositions(rows, teamId) == rows;
    RunOnEmptyTeam(users, teams, rows, teamId, order, 0);
  }

  /** The position the assignments from index `i` on leave on a team row
      with this pokemon_id: one more than the last index naming it, or None
      (still cleared) when no index from `i` on names it. */
  function LastPosition(order: seq<int>, pokemonId: int, i: nat): Option<int>
    requires i <= |order|
    decreases |order| - i
  {
    if i == |order| then None
    else match LastPosition(order, pokemonId, i + 1)
      case Some(p) => Some(p)
      case None => if order[i] == pokemonId then Some(i + 1) else None
  }

  /** The assignments from index `i` on, without the constraint checks. */
  function AssignFrom(rows: seq<RosterRow>, teamId: int, order: seq<int>, i: nat): seq<RosterRow>
    requires i <= |order|
    decreases |order| - i
  {
    if i == |order| then rows
    else AssignFrom(SetPosition(rows, teamId, order[i], i + 1), teamId, order, i + 1)
  }

  lemma {:induction false} RunIsAssign(users: seq<UserRow>, teams: seq<TeamRow>, rows: seq<RosterRow>,
                                       teamId: int, order: seq<int>, i: nat)
    requires i <= |order|
    requires RunAssignments(users, teams, rows, teamId, order, i).Some?
    ensures RunAssignments(users, teams, rows, teamId, order, i).value == AssignFrom(rows, teamId, order, i)
    decreases |order| - i
  {
    if i < |order| {
      RunIsAssign(users, teams, SetPosition(rows, teamId, order[i], i + 1), teamId, order, i + 1);
    }
  }

  /** What the UPDATE statements do to one row, on any table and without
      the constraint checks: a row of the team named by some index from `i`
      on takes one more than the last such index; every other row is as it
      was. */
  lemma {:induction false} AssignFromAt(rows: seq<RosterRow>, teamId: int, order: seq<int>, i: nat, k: nat)
    requires i <= |order| && k < |rows|
    ensures |AssignFrom(rows, teamId, order, i)| == |rows|
    ensures AssignFrom(rows, teamId, order, i)[k] ==
      if rows[k].team_id == teamId && LastPosition(order, rows[k].pokemon_id, i).Some?
      then rows[k].(position := LastPosition(order, rows[k].pokemon_id, i))
      else rows[k]
    decreases |order| - i
  {
    if i < |order| {
      var next := SetPosition(rows, teamId, order[i], i + 1);
      AssignFromAt(next, teamId, order, i + 1, k);
      assert next[k].team_id == rows[k].team_id && next[k].pokemon_id == rows[k].pokemon_id;
    }
  }

  /** On commit, rows of other teams are as they were, and a row of the team
      holds one more than the last index of newOrder naming its pokemon_id,
      or NULL when newOrder does not name it. By ReorderRollsBackOnNonEmptyTeam
      a commit happens only on a team with no rows, so the clause about team
      rows never applies; what the statements do to team rows is stated,
      without the checks, by AssignFromAt. */
  lemma ReorderCommitShape(users: seq<UserRow>, teams: seq<TeamRow>, rows: seq<RosterRow>,
                           teamId: int, order: seq<int>, k: nat)
    requires ReorderOutcome(users, teams, rows, teamId, order).Some?
    requires k < |rows|
    ensures |ReorderOutcome(users, teams, rows, teamId, order).value| == |rows|
    ensures ReorderOutcome(users, teams, rows, teamId, order).value[k] ==
      if rows[k].team_id == teamId then rows[k].(position := LastPosition(order, rows[k].pokemon_id, 0))
      else rows[k]
  {
    var cleared := ClearPositions(rows, teamId);
    RunIsAssign(users, teams, cleared, teamId, order, 0);
    AssignFromAt(cleared, teamId, order, 0, k);
  }

  lemma {:induction false} LastPositionUnnamed(order: seq<int>, pokemonId: int, i: nat)
    requires i <= |order|
    requires forall m :: i <= m < |order| ==> order[m] != pokemonId
    ensures LastPosition(order, pokemonId, i) == None
    decreases |order| - i
  {
    if i < |order| {
      LastPositionUnnamed(order, pokemonId, i + 1);
    }
  }

  /** When newOrder names each pokemon_id once, the row named at index i
      ends at position i + 1. */
  lemma {:induction false} LastPositionOfDistinct(order: seq<int>, i: nat, j: nat)
    requires j <= i < |order|
    requires forall a, b :: 0 <= a < b < |order| ==> order[a] != order[b]
    ensures LastPosition(order, order[i], j) == Some(i + 1)
    decreases i - j
  {
    if j < i {
      LastPositionOfDistinct(order, i, j + 1);
    } else {
      LastPositionUnnamed(order, order[i], i + 1);
    }
  }

  // ----- properties of update --------------------------------------------

  lemma {:induction false} TeamRowsConcat(a: seq<RosterRow>, b: seq<RosterRow>, teamId: int)
    ensures TeamRows(a + b, teamId) == TeamRows(a, teamId) + TeamRows(b, teamId)
  {
    if a == [] {
      assert a + b == b;
    } else {
      assert (a + b)[0] == a[0] && (a + b)[1..] == a[1..] + b;
      TeamRowsConcat(a[1..], b, teamId);
    }
  }

  lemma {:induction false} TeamRowsOfOneTeam(rows: seq<RosterRow>, teamId: int)
    requires forall x :: x in rows ==> x.team_id == teamId
    ensures TeamRows(rows, teamId) == rows
  {
    if rows != [] {
      assert rows[0] in rows;
      assert forall x :: x in rows[1..] ==> x in rows;
      TeamRowsOfOneTeam(rows[1..], teamId);
      assert rows == [rows[0]] + rows[1..];
    }
  }

  lemma {:induction false} TeamRowsOfOtherTeam(rows: seq<RosterRow>, teamId: int, u: int)
    requires forall x :: x in rows ==> x.team_id == teamId
    requires u != teamId
    ensures TeamRows(rows, u) == []
  {
    if rows != [] {
      assert rows[0] in rows;
      assert forall x :: x in rows[1..] ==> x in rows;
      TeamRowsOfOtherTeam(rows[1..], teamId, u);
    }
  }

  /** After `update` inserted `added` for a team, the team's rows are exactly
      `added`, in insertion order, and every other team's rows are as they
      were. */
  lemma ReplaceTeamRows(rows: seq<RosterRow>, teamId: int, added: seq<RosterRow>)
    requires forall x :: x in added ==> x.team_id == teamId
    ensures TeamRows(OtherTeamRows(rows, teamId) + added, teamId) == added
    ensures forall u :: u != teamId ==> TeamRows(OtherTeamRows(rows, teamId) + added, u) == TeamRows(rows, u)
  {
    var kept := OtherTeamRows(rows, teamId);
    TeamRowsConcat(kept, added, teamId);
    TeamRowsOfOneTeam(added, teamId);
    forall u | u != teamId ensures TeamRows(kept + added, u) == TeamRows(rows, u) {
      TeamRowsConcat(kept, added, u);
      TeamRowsOfOtherTeam(added, teamId, u);
    }
  }

  /** The rows `update` builds carry the team and the owner it was given,
      and the input's fields in input order. */
  lemma BuildRowsShape(firstId: int, teamId: int, owner: Option<int>, ps: seq<PokemonInput>)
    ensures |BuildRows(firstId, teamId, owner, ps)| == |ps|
    ensures forall i :: 0 <= i < |ps| ==>
      var x := BuildRows(firstId, teamId, owner, ps)[i];
      && x.team_id == teamId && x.user_id == owner && x.id == firstId + i
      && x.pokemon_name == ps[i].pokemon_name && x.pokemon_id == ps[i].pokemon_id
      && x.position == ps[i].position && x.nickname == ps[i].nickname
    ensures forall x :: x in BuildRows(firstId, teamId, owner, ps) ==> x.team_id == teamId
  {
  }
}
