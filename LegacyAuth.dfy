/**
  The older middleware copy, middleware/auth.js, which the roster routes use.
  Its `authenticateJWT` and `ensureLoggedIn` behave as the newer copy's
  (`Auth.AuthenticateJWT`, `Auth.EnsureLoggedIn`); the two guards below
  differ from theirs:
  - `ensureAdmin` reads `res.locals.isAdmin`, which `authenticateJWT` never
    writes, instead of the payload's claim;
  - `ensureCorrectUserOrAdmin` compares a team's owner with the user record
    fetched by the payload's username rather than with the payload's
    `user_id`.
  This copy imports `get` from models/team.js and `User` from models/user.js;
  neither file is part of this model. Their `get`s are taken to behave as
  the newer team model's `get` (`Teams.Get`: the team, or NotFound) and as a
  lookup by username that is NotFound when no user has it (`UserGet`).
*/
module LegacyAuth {
  import opened Store
  import Teams
  import Auth

  /** `ensureAdmin`: refuses only a missing payload or a locals-level
      `isAdmin` equal to the string 'false' (no boolean is loosely equal to
      that string). */
  function EnsureAdmin(user: Option<Auth.Payload>, localsIsAdmin: Auth.JsValue): (d: Auth.Decision)
    ensures d.Fail? <==> user.None? || localsIsAdmin == Auth.JsString("false")
    ensures d.Fail? ==> d.error == Unauthorized
  {
    if user.None? || localsIsAdmin == Auth.JsString("false") then Auth.Fail(Unauthorized) else Auth.Pass
  }

  /** `User.get(username)`. */
  function UserGet(users: seq<UserRow>, username: Option<string>): (r: Result<UserRow>)
    ensures r.Err? ==> r.error == NotFound
    ensures r.Ok? ==> r.value in users && Some(r.value.username) == username
    ensures username.Some? && (exists u :: u in users && u.username == username.value) ==> r.Ok?
  {
    match username
    case None => Err(NotFound)
    case Some(name) =>
      match FindUser(users, name)
      case None => Err(NotFound)
      case Some(u) => Ok(u)
  }

  /** `ensureCorrectUserOrAdmin`, older copy: as the newer one up to the team
      check, which fetches the caller's user record and compares its id with
      the team's owner; a failed lookup is forwarded. */
  function EnsureCorrectUserOrAdmin(user: Option<Auth.Payload>, params: Auth.Params,
                                    teams: seq<TeamRow>, users: seq<UserRow>): (d: Auth.Decision)
    ensures user.None? ==> d == Auth.Fail(Thrown(Auth.TYPE_ERROR))
    ensures user.Some? && Auth.Truthy(user.value.isAdmin) ==> d == Auth.Pass
    ensures d.Fail? ==> d.error in {Thrown(Auth.TYPE_ERROR), Unauthorized, NotFound}
  {
    match user
    case None => Auth.Fail(Thrown(Auth.TYPE_ERROR))
    case Some(p) =>
      if Auth.Truthy(p.isAdmin) then Auth.Pass
      else if Auth.NonEmpty(params.username) then
        if p.username == params.username then Auth.Pass else Auth.Fail(Unauthorized)
      else if params.id.Some? then
        match Teams.Get(teams, params.id.value)
        case Err(e) => Auth.Fail(e)
        case Ok(team) =>
          if team.user_id.Some? && team.user_id.value != 0 then
            match UserGet(users, p.username)
            case Err(e) => Auth.Fail(e)
            case Ok(record) =>
              if Some(record.user_id) != team.user_id then Auth.Fail(Unauthorized) else Auth.Pass
          else Auth.Fail(Unauthorized)
      else Auth.Fail(Unauthorized)
  }

  /* ------------------------------------------------------------ properties */

  /** `authenticateJWT` leaves `res.locals.isAdmin` undefined, so after it
      this admin gate passes every logged-in caller, including one whose
      token says `isAdmin: false`, which the newer gate refuses. */
  lemma AdminGateAdmitsAnyLoggedInUser(p: Auth.Payload)
    ensures EnsureAdmin(Some(p), Auth.JsUndefined) == Auth.Pass
    ensures p.isAdmin == Auth.JsBool(false) ==> Auth.EnsureAdmin(Some(p)) == Auth.Fail(Unauthorized)
  {
  }

  /** The newer authentication step never writes the locals-level flag the
      older admin gate reads: starting from fresh locals, that gate then
      passes exactly when a payload was stored. */
  method AdminGateAfterAuthentication(authorization: Option<string>, verify: string -> Option<Auth.Payload>)
    returns (d: Auth.Decision)
    ensures d.Pass? <==> Auth.NonEmpty(authorization) && verify(Auth.Token(authorization.value)).Some?
  {
    var locals := new Auth.Locals();
    var _ := Auth.AuthenticateJWT(locals, authorization, verify);
    d := EnsureAdmin(locals.user, locals.isAdmin);
  }

  /** With a non-empty username parameter, a non-administrator passes
      exactly when the payload carries that username, and is otherwise
      Unauthorized; neither the team table nor the user records are read. */
  lemma UsernameParamDecides(p: Auth.Payload, params: Auth.Params, teams: seq<TeamRow>, users: seq<UserRow>)
    requires !Auth.Truthy(p.isAdmin) && Auth.NonEmpty(params.username)
    ensures EnsureCorrectUserOrAdmin(Some(p), params, teams, users)
         == if p.username == params.username then Auth.Pass else Auth.Fail(Unauthorized)
  {
  }

  /** A non-administrator whose request carries neither a username nor a
      team id is Unauthorized. */
  lemma NoParameterRefused(p: Auth.Payload, params: Auth.Params, teams: seq<TeamRow>, users: seq<UserRow>)
    requires !Auth.Truthy(p.isAdmin) && !Auth.NonEmpty(params.username) && params.id.None?
    ensures EnsureCorrectUserOrAdmin(Some(p), params, teams, users) == Auth.Fail(Unauthorized)
  {
  }

  /** With a team id and no username, a non-administrator passes exactly
      when the team has a truthy owner and the user record found under the
      payload's username has that owner's id. A missing team is NotFound; on
      an owned team a failed user lookup is NotFound; every other refusal is
      Unauthorized. */
  lemma TeamOwnerByRecord(p: Auth.Payload, params: Auth.Params, teamId: int, teams: seq<TeamRow>, users: seq<UserRow>)
    requires !Auth.Truthy(p.isAdmin)
    requires !Auth.NonEmpty(params.username) && params.id == Some(teamId)
    ensures var d := EnsureCorrectUserOrAdmin(Some(p), params, teams, users);
      && (teamId !in TeamIds(teams) ==> d == Auth.Fail(NotFound))
      && (teamId in TeamIds(teams) ==>
            var owner := Teams.Get(teams, teamId).value.user_id;
            var owned := owner.Some? && owner.value != 0;
            var record := UserGet(users, p.username);
            && (d.Pass? <==> owned && record.Ok? && Some(record.value.user_id) == owner)
            && (d.Fail? ==> d.error == if owned && record.Err? then NotFound else Unauthorized))
  {
  }

  /** When the payload's `user_id` is the id of the user record its username
      names, the two copies of the owner guard decide alike on every request. */
  lemma CopiesAgreeOnConsistentPayload(p: Auth.Payload, params: Auth.Params, teams: seq<TeamRow>,
                                       users: seq<UserRow>, record: UserRow)
    requires UserGet(users, p.username) == Ok(record)
    requires p.user_id == Some(record.user_id)
    ensures EnsureCorrectUserOrAdmin(Some(p), params, teams, users) == Auth.EnsureCorrectUserOrAdmin(Some(p), params, teams)
  {
  }

  /** A payload whose `user_id` disagrees with its user record makes the
      copies part ways: the owner named in the token passes the newer guard
      and is refused by the older one. */
  lemma CopiesDifferOnStalePayload(p: Auth.Payload, teamId: int, teams: seq<TeamRow>,
                                   users: seq<UserRow>, record: UserRow)
    requires !Auth.Truthy(p.isAdmin)
    requires Teams.Get(teams, teamId).Ok?
    requires Teams.Get(teams, teamId).value.user_id == p.user_id
    requires p.user_id.Some? && p.user_id.value != 0
    requires UserGet(users, p.username) == Ok(record) && p.user_id != Some(record.user_id)
    ensures Auth.EnsureCorrectUserOrAdmin(Some(p), Auth.Params(None, Some(teamId)), teams) == Auth.Pass
    ensures EnsureCorrectUserOrAdmin(Some(p), Auth.Params(None, Some(teamId)), teams, users) == Auth.Fail(Unauthorized)
  {
  }
}
