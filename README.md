# Pokémon team builder: roster table, team table and authorization, in Dafny

This project models the core of the PKMN team-builder backend. The core is the
`teams_pokemon` roster table, the `teams` table it hangs from, the request
handlers that change the roster, and the authorization middleware in front of them.

- **Store** (`Store.dfy`) holds the three tables (`users`, `teams`, `teams_pokemon`)
  and the constraints their DDL declares:
  - position NOT NULL and within 1..6;
  - UNIQUE(team_id, position);
  - the foreign keys to teams and users;
  - the VARCHAR(50) limits;
  - the primary key of teams.

  Every SQL statement is a candidate table. `Db.ExecRoster` / `Db.ExecTeams`
  commit it only when the constraints hold; otherwise they leave the table as
  it was (a rejected statement). The serial counters of `teams` and
  `teams_pokemon` are fields too, and a failed insert still consumes a value. The exception is an insert whose owner parameter is the
  empty string: it is refused while its parameters are bound, before the `id` default draws.
- **Roster** (`Roster.dfy`) models the static methods of `Teams_Pokemon`:
  - insert with a team check;
  - listing ordered by position;
  - count;
  - bulk replace (delete, then insert one by one, with no transaction);
  - delete by (team, pokémon);
  - the BEGIN / clear / assign / COMMIT-or-ROLLBACK reorder.

  Because position is NOT NULL, the reorder's first statement (`SET position
  = NULL`) is rejected for any team that has rows, and the transaction rolls
  back. A lemma proves this.
- **Teams** (`Teams.dfy`) models class `Team`: create, the three listing
  queries, get, partial update, and delete. Delete cascades to the team's roster rows.
- **RosterRoutes** (`RosterRoutes.dfy`) models the handlers of
  `routes/teams_pokemon.js`:
  - the capacity gate;
  - the per-element inserts;
  - the PATCH dispatch. Without `newOrder`, it passes the path id string to
    `update`, which therefore always throws;
  - the DELETE call. It omits the pokémon id, so it never matches a row;
  - the `newOrder` validation.
- **Auth** (`Auth.dfy`) and **LegacyAuth** (`LegacyAuth.dfy`) model the two
  copies of the middleware as decisions over the token payload, the route
  parameters and the tables. `isAdmin` is a JavaScript value (undefined,
  boolean, number or string) with JavaScript truthiness and loose equality.

## Model

| member | source | states |
|---|---|---|
| `Store.AtMostSixRowsPerTeam` | jest.setup.js:31-42 | Under the position range check and UNIQUE(team_id, position), no team ever has more than six roster rows (pigeonhole). |
| `Store.Db.ExecRoster` | jest.setup.js:31-42 | A roster statement commits exactly when the table it leaves satisfies every declared constraint. Otherwise the table is unchanged. Validity is preserved either way. |
| `Store.Db.ExecTeams` | jest.setup.js:24-42 | A teams statement and its cascade commit together exactly when both tables satisfy their constraints. Otherwise both are unchanged. |
| `Sorting.SortBy` | models/teams_pokemon.js:53-56 | `ORDER BY` yields the same rows (same multiset, same length), ascending by the key. |
| `Roster.CountByTeamId` | models/teams_pokemon.js:139-149 | The count equals the number of rows with that team_id. It is 0 exactly when no row has it, including for an unknown team. Being a function, it changes nothing. |
| `Roster.FindAll` | models/teams_pokemon.js:50-63 | NotFound exactly when the team has no rows, whether or not the team exists. |
| `Roster.FindAllListsTeam` | models/teams_pokemon.js:52-62 | When the team has rows, the listing holds one entry per row, ascending by position, and holds exactly the team's rows. As a multiset it is the listings of the team's rows, so it is a permutation of them. |
| `Roster.CreateNew` | models/teams_pokemon.js:20-40 | No team: NotFound, with the table and counter unchanged. Otherwise it tries to append exactly one row (owner copied from the team, nickname defaulting to ''). It succeeds exactly when the constraints admit the row, and then returns that row; on failure it is a store error with the table unchanged. |
| `Roster.AppendCount` | models/teams_pokemon.js:20-36 | A successful `createNew` raises its team's count by one and leaves every other team's count unchanged. |
| `Roster.InsertEach` | models/teams_pokemon.js:89-101 | One insert per element, in input order, stopping at the first rejected row. The table gains exactly the rows inserted so far. Success means every element was inserted, and the returned rows are then those built rows. |
| `Roster.Update` | models/teams_pokemon.js:78-104 | A missing or empty `pokemon` throws before anything is deleted. Otherwise the team's rows are deleted and the rows inserted one by one, with the owner taken from `user_id \|\| ""`. With no transaction, a failure at element k leaves the deletion and the first k inserts in place, and names the rejected row. A falsy owner fails the first insert while binding, with no serial drawn. With a truthy owner and a NULL team id, the first insert fails after the draw, so exactly one serial value is used and nothing is inserted. |
| `Roster.OwnerParam` | models/teams_pokemon.js:97 | The owner parameter `user_id \|\| ""` is an integer exactly when `user_id` is present and non-zero, and then it is `user_id`; otherwise it is the empty string, which an INT column refuses. |
| `Roster.ReplaceTeamRows` | models/teams_pokemon.js:84-101 | After the delete and the inserts, the team's rows are exactly the inserted rows, in order, and every other team's rows are as before. |
| `Roster.BuildRowsShape` | models/teams_pokemon.js:92-99 | The i-th inserted row carries the given team, the owner cell, the next serial id plus i, and the i-th element's fields unchanged (a missing nickname stays NULL). |
| `Roster.Remove` | models/teams_pokemon.js:119-131 | Deletes every row matching both team and pokémon id, and no other row. NotFound exactly when none matched. Other teams are untouched. |
| `Roster.ReorderPokemons` | models/teams_pokemon.js:160-186 | Commit or rollback. It succeeds exactly when every statement of the transaction is admitted, and then leaves the outcome of the statement sequence. Otherwise it is a store error, with the table equal to its state at BEGIN. |
| `Roster.ReorderRollsBackOnNonEmptyTeam` | models/teams_pokemon.js:166-169 | Clearing positions to NULL violates NOT NULL for any team with a row, so the reorder of such a team always rolls back. |
| `Roster.ReorderOnEmptyTeam` | models/teams_pokemon.js:160-186 | On a team without rows every statement matches nothing and the transaction commits the table unchanged. |
| `Roster.AssignFromAt` | models/teams_pokemon.js:172-177 | Without the constraint checks, the assignment statements give a team row named in `newOrder` one more than the last index naming its pokémon id. Every other row is as it was. |
| `Roster.ReorderCommitShape` | models/teams_pokemon.js:166-177 | On commit, other teams' rows are unchanged. A team row gets one more than the last index of `newOrder` naming its pokémon id, or stays NULL when not named. A commit happens only on a team without rows (`ReorderRollsBackOnNonEmptyTeam`), so the team-row clause never applies. |
| `Roster.LastPositionOfDistinct` | models/teams_pokemon.js:172-177 | When `newOrder` names each pokémon id once, the row named at index i ends at position i+1. |
| `Teams.CreateNew` | app/models/team.js:31-52 | A falsy name or owner is BadRequest('Missing required fields'), with nothing inserted and no serial consumed. Otherwise exactly one row with the next id, the given name and the given owner. It succeeds exactly when the owner exists, and then returns that row. |
| `Teams.ListedTeams` | app/models/team.js:58-69 | A listing holds one summary per team, ascending by team id, each team's summary present and nothing else (owner exposed as `isAdmin`). |
| `Teams.FindAll` | app/models/team.js:58-69 | Every team is listed once: the listing has as many entries as the table, is ascending by team id, holds each team's summary and holds nothing else. |
| `Teams.FindAllTeamsByUsername` | app/models/team.js:76-103 | An unknown username gives `[]` and never an error. Every entry is an owned team. |
| `Teams.TeamsByUsernameAreOwned` | app/models/team.js:89-102 | For a known user with a truthy id, the listing is ascending by team id, holds every team that user owns once, and holds only such teams: one entry per owned team. |
| `Teams.FindTeamByUser` | app/models/team.js:112-140 | An unknown user is NotFound. A success is non-empty and ascends by team id. Every entry carries the requested name and belongs to a user with that username. |
| `Teams.TeamByUserFinds` | app/models/team.js:125-139 | For a known user it succeeds exactly when the user owns a team of that name. It then lists every such team once and only such teams, in ascending team id: the listing has one entry per matching row. |
| `Teams.Get` | app/models/team.js:150-165 | Returns the team with that id. NotFound exactly when no team has it. |
| `Teams.PatchTeamsOk` | app/models/team.js:189-195 | The patched table keeps every id and breaks a constraint only by naming a missing owner of an existing team. |
| `Teams.FindPatched` | app/models/team.js:189-200 | After the UPDATE, the row found under the id is the old row with only the supplied fields replaced. |
| `Teams.Update` | app/models/team.js:180-201 | An empty patch is BadRequest. An unknown id is NotFound with the table unchanged. Otherwise only the supplied fields of that team change; it fails as a whole on a missing owner; the roster is untouched. |
| `Teams.Remove` | app/models/team.js:210-221 | NotFound exactly for an unknown id, with nothing changed. Otherwise the team is gone and its roster rows are deleted with it (cascade). |
| `Teams.RemoveLeavesNoTrace` | app/models/team.js:210-221 | After removal, `get` of that id is NotFound and no roster row refers to the team. Every other team is still found. |
| `RosterRoutes.CreateEach` | routes/teams_pokemon.js:39-43 | One `createNew` per element, all run in order, the first failure reported. An unknown team gives NotFound (or `[]` for an empty batch) with nothing changed. For an existing team, the table gains exactly the rows the sequential inserts admit, and one serial value is drawn per element. It succeeds exactly when every element was admitted, and then returns the admitted rows; a failure is a store error. |
| `RosterRoutes.AdmittedAreElementRows` | models/teams_pokemon.js:20-40 | Each row a batch admits is the row built from one element, with that element's serial id, and the admitted rows keep input order. |
| `RosterRoutes.AllAdmitted` | routes/teams_pokemon.js:39-43 | When every element is admitted, the k-th admitted row is the row built from the k-th element with the k-th serial id. |
| `RosterRoutes.BatchAddsToTeam` | models/teams_pokemon.js:20-40 | The admitted rows all belong to the team: its rows become the old ones followed by the admitted rows, and every other team's rows are unchanged. |
| `RosterRoutes.BatchOutcome` | routes/teams_pokemon.js:39-43 | When every element is admitted, the added rows are the rows built from the elements in input order, with consecutive ids. Whatever the outcome, the team's rows only grow, by the admitted rows, and no other team's rows change. |
| `RosterRoutes.Post` | routes/teams_pokemon.js:23-50 | A schema error, then a count of six or more, is BadRequest with nothing created. Otherwise, for an existing team, the table gains exactly the admitted rows. It succeeds exactly when all elements are admitted, and then returns the rows built from them in order and appended to the team. On every path the team ends with at most six rows, every created row has a position in 1..6, and other teams are untouched. |
| `RosterRoutes.Patch` | routes/teams_pokemon.js:76-95 | A present `newOrder` (even empty) reorders and answers nothing. Otherwise the path id goes to `update`, which always throws "No Pokémon data provided for update." and changes nothing. A reorder of a team with rows always fails with the table unchanged. |
| `RosterRoutes.Delete` | routes/teams_pokemon.js:103-110 | `remove` is called without a pokémon id, so the handler always answers NotFound and never deletes. |
| `RosterRoutes.Reorder` | routes/teams_pokemon.js:117-131 | A missing, non-array or empty `newOrder` is BadRequest('Invalid Pokémon order.') with the table unchanged. Otherwise it is the reorder's commit-or-rollback, with the success message. |
| `Auth.AuthenticateJWT` | app/middleware/auth.js:20-36 | Always calls `next` without an error. The payload is stored only when a truthy header yields a token that verifies; otherwise the locals are untouched. The older copy at middleware/auth.js:20-31 behaves the same and is modelled by this member. |
| `Auth.BearerRoundTrip` | app/middleware/auth.js:25 | A blank-free token behind `Bearer ` or `bearer ` reaches the verifier unchanged. |
| `Auth.TokenIsTrimmedSlice` | app/middleware/auth.js:25 | The token handed to the verifier is a slice of the header with only the prefix and surrounding whitespace removed. |
| `Auth.EnsureLoggedIn` | app/middleware/auth.js:45-53 | Unauthorized exactly when no payload is stored. The older copy at middleware/auth.js:38-45 is identical and is modelled by this member. |
| `Auth.EnsureAdmin` | app/middleware/auth.js:61-71 | A payload passes exactly when its `isAdmin` is neither loosely equal to `false` nor the string 'false'. Without a payload the property read throws a TypeError. |
| `Auth.EnsureCorrectUserOrAdmin` | app/middleware/auth.js:79-120 | Without a payload, TypeError. A truthy `isAdmin` passes before any parameter is read. Any failure is Unauthorized, NotFound or that TypeError. |
| `Auth.FalseStringDisagreement` | app/middleware/auth.js:61-90 | `isAdmin` 'false' (also '0' or ' ') is refused by `ensureAdmin` but passes `ensureCorrectUserOrAdmin` as an administrator, whatever the parameters. |
| `Auth.BooleanFlagsAgree` | app/middleware/auth.js:61-90 | For a boolean `isAdmin`, `ensureAdmin` passes exactly an administrator, and such a caller passes the owner guard too. |
| `Auth.MissingFlagPassesAdminGate` | app/middleware/auth.js:64 | A payload without `isAdmin` passes `ensureAdmin`, since `undefined == false` is false. Without parameters it still fails the owner guard. |
| `Auth.UsernameParamDecides` | app/middleware/auth.js:93-116 | With a non-empty username parameter, a non-admin passes exactly when the payload has that username and is otherwise Unauthorized. The team table plays no part. |
| `Auth.NoParameterRefused` | app/middleware/auth.js:93-116 | A non-admin with neither a username nor a team id is Unauthorized. |
| `Auth.TeamOwnerDecides` | app/middleware/auth.js:98-116 | With only a team id, a non-admin passes exactly when the team has a truthy owner equal to the payload's `user_id`. A missing team forwards NotFound; any other failure is Unauthorized. |
| `LegacyAuth.EnsureAdmin` | middleware/auth.js:53-62 | Refuses exactly a missing payload or a locals-level `isAdmin` equal to 'false'. The payload's own claim is not read. |
| `LegacyAuth.AdminGateAdmitsAnyLoggedInUser` | middleware/auth.js:55 | With the locals flag unset, every logged-in caller passes, including one whose token says `isAdmin: false`, whom the newer gate refuses. |
| `LegacyAuth.AdminGateAfterAuthentication` | middleware/auth.js:20-62 | After authentication on fresh locals, the older admin gate passes exactly when a payload was stored. |
| `LegacyAuth.UserGet` | middleware/auth.js:95 | Lookup of the caller's user record by username. NotFound when the username is absent or unknown; found whenever a user has it. |
| `LegacyAuth.EnsureCorrectUserOrAdmin` | middleware/auth.js:70-108 | Without a payload, TypeError. A truthy `isAdmin` passes. Any failure is Unauthorized, NotFound or that TypeError. |
| `LegacyAuth.UsernameParamDecides` | middleware/auth.js:79-104 | With a non-empty username parameter, a non-admin passes exactly when the payload has that username, and is otherwise Unauthorized. |
| `LegacyAuth.TeamOwnerByRecord` | middleware/auth.js:85-104 | With only a team id, a non-admin passes exactly when the team has a truthy owner and the user record found by the payload's username has that id. A missing team is NotFound. On an owned team a failed user lookup is NotFound. Any other refusal is Unauthorized. |
| `LegacyAuth.NoParameterRefused` | middleware/auth.js:103-104 | A non-admin with neither a username nor a team id is Unauthorized. |
| `LegacyAuth.CopiesAgreeOnConsistentPayload` | middleware/auth.js:70-108 | When the payload's `user_id` is its user record's id, both copies of the owner guard decide alike on every request. |
| `LegacyAuth.CopiesDifferOnStalePayload` | middleware/auth.js:93-98 | When the payload's `user_id` is stale, the token's owner passes the newer guard and is refused by the older one. |

## Left out

- Connection pool, environment loading, Express wiring, logging and HTTP status codes are out of scope. A handler's outcome keeps only the response value or the error kind.
- JWT signing and verification are a parameter: a partial function from token text to payload.
- The JSON schemas of the roster routes (`schemas/*.json`) are not part of this model. Their verdict is an input (`schemaErrors`), so the model does not derive the "position must be less than or equal to 6" message. The store's range check still keeps every created row within 1..6.
- `sqlForPartialUpdate` (app/helpers/sql.js) is not part of this model. `Teams.Update` treats an empty patch as BadRequest('No data'). A patch carries only `team_name` and `user_id`; other keys, and setting the owner to NULL, are not modelled.
- app/models/user.js, models/user.js and models/team.js are not part of this model. The older middleware's `User.get` is taken to be a lookup by username that is NotFound when absent, and its `get` to behave as `Teams.Get` (NotFound for a missing team). If that `get` returned nothing instead, the guard would answer Unauthorized('Team not found').
- `Store.Db.ExecRoster` (through `Store.RowFits`) checks only the constraints named above, not how PostgreSQL coerces the bound values:
  - an INT column refuses a value outside -2147483648..2147483647 while binding, before the serial draws; the model has unbounded integers, so such a `pokemon_id` is admitted and a serial value is drawn;
  - VARCHAR(50) silently cuts off a longer value whose extra characters are all spaces; the model refuses every value longer than 50 characters;
  - a JSON `null` nickname is stored as NULL, since the `nickname = ''` default applies only to an absent one; the model's element cannot hold `null` and stores `''`.
- `newOrder` elements and `pokemon_id` values are modelled as integers. A non-integer element makes an UPDATE fail and the reorder roll back, even on a team without rows, where the model commits.
- `Promise.all` in POST runs the inserts concurrently, and the count-then-insert check can race. The model runs them in input order and reports the first failure in that order. It makes no claim about races or interleavings.
- `created_at` columns, the `id AS "teamPokemonId"` alias, the exact error message texts of NotFoundError, and the `findAll` column set beyond name, id and position are not modelled.
- `Roster.CreateNew`: returns the whole inserted row, `id` included, whereas the source's `RETURNING` list has no `id`.
- Path parameters are modelled as integers. A non-numeric `:id`, which PostgreSQL rejects, is not modelled. A `newOrder` that is truthy but not an array is not modelled on the PATCH `/:id` route.
- `Auth.LooseEqualsFalse`: a string counts as equal to `false` when, after trimming, it is empty or all zeros. Other spellings of zero (`"0.0"`, `"0x0"`, `"-0"`, exponents) and fractional numbers are not modelled. `null` behaves as `undefined`.
- Store: only the table constraints named above are modelled. The users table (passwords, e-mail check, admin flag) is a fixed list of (user_id, username) rows, since no operation of this core changes it.
- auth.test.js:100-107 expects Unauthorized from `ensureAdmin` without a payload. The code reads a property of `undefined` there and forwards a TypeError. The model follows the code.
