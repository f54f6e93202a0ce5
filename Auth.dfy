/**
  The authorization middleware of app/middleware/auth.js. `authenticateJWT`
  stores the verified token payload on the response locals; the three
  `ensure…` guards are decisions over that payload, the route parameters and,
  for a team id, the team table.

  Token verification is a parameter (`verify`, a partial function from the
  token text to its payload). Reading a property of a missing payload is the
  JavaScript TypeError the guard's `catch` forwards.
*/
module Auth {
  import opened Store
  import Teams

  const TYPE_ERROR := "TypeError"

  /** The JavaScript values a payload's `isAdmin` claim can hold (`null`
      behaves as `undefined` in every comparison these guards make:
      truthiness, `== false` and `== 'false'`). */
  datatype JsValue = JsUndefined | JsBool(b: bool) | JsNumber(n: int) | JsString(s: string)

  /** The token payload: `username`, `user_id` and `isAdmin` claims, each
      possibly absent. */
  datatype Payload = Payload(username: Option<string>, user_id: Option<int>, isAdmin: JsValue)

  /** `req.params`; an absent parameter is `None`. */
  datatype Params = Params(username: Option<string>, id: Option<int>)

  /** What the middleware hands to `next`: nothing, or an error. */
  datatype Decision = Pass | Fail(error: Error)

  /** `res.locals`. */
  class Locals {
    var user: Option<Payload>
    var isAdmin: JsValue

    constructor ()
      ensures user.None? && isAdmin == JsUndefined
    {
      user := None;
      isAdmin := JsUndefined;
    }
  }

  /* -------------------------------------------------- JavaScript semantics */

  predicate Truthy(v: JsValue) {
    match v
    case JsUndefined => false
    case JsBool(b) => b
    case JsNumber(n) => n != 0
    case JsString(s) => s != ""
  }

  predicate NonEmpty(s: Option<string>) { s.Some? && s.value != "" }

  /** The characters `String.prototype.trim` removes: the ECMAScript
      WhiteSpace and LineTerminator code points. */
  predicate IsSpace(c: char) {
    || c == '\t' || c == '\n' || c == '\U{000B}' || c == '\U{000C}' || c == '\r' || c == ' '
    || c == '\U{00A0}' || c == '\U{1680}' || ('\U{2000}' <= c <= '\U{200A}')
    || c == '\U{2028}' || c == '\U{2029}' || c == '\U{202F}' || c == '\U{205F}'
    || c == '\U{3000}' || c == '\U{FEFF}'
  }

  function TrimStart(s: string): (r: string)
    ensures |r| <= |s| && r == s[|s| - |r|..]
    ensures r == "" || !IsSpace(r[0])
    ensures forall k :: 0 <= k < |s| - |r| ==> IsSpace(s[k])
  {
    if s != "" && IsSpace(s[0]) then TrimStart(s[1..]) else s
  }

  function TrimEnd(s: string): (r: string)
    ensures |r| <= |s| && r == s[..|r|]
    ensures r == "" || !IsSpace(r[|r| - 1])
    ensures forall k :: |r| <= k < |s| ==> IsSpace(s[k])
  {
    if s != "" && IsSpace(s[|s| - 1]) then TrimEnd(s[..|s| - 1]) else s
  }

  function Trim(s: string): string {
    TrimEnd(TrimStart(s))
  }

  /** The text is, after trimming, empty or a run of zeros: the strings whose
      numeric value is 0, so that `s == false` holds. */
  predicate NumericZero(s: string) {
    forall k :: 0 <= k < |Trim(s)| ==> Trim(s)[k] == '0'
  }

  /** `v == false` under JavaScript's loose equality. */
  predicate LooseEqualsFalse(v: JsValue) {
    match v
    case JsUndefined => false
    case JsBool(b) => !b
    case JsNumber(n) => n == 0
    case JsString(s) => NumericZero(s)
  }

  predicate HasBearerPrefix(h: string) {
    |h| >= 7 && (h[0] == 'B' || h[0] == 'b') && h[1..7] == "earer "
  }

  /** `h.replace(/^[Bb]earer /, "")`. */
  function StripBearer(h: string): string {
    if HasBearerPrefix(h) then h[7..] else h
  }

  /** The token text `authenticateJWT` hands to the verifier. */
  function Token(header: string): string {
    Trim(StripBearer(header))
  }

  /** A token with no surrounding blanks survives the bearer prefix and the
      trim unchanged, whichever case its `B` is in. */
  lemma BearerRoundTrip(token: string)
    requires token == "" || (!IsSpace(token[0]) && !IsSpace(token[|token| - 1]))
    ensures Token("Bearer " + token) == token
    ensures Token("bearer " + token) == token
  {
    assert TrimStart(token) == token;
    assert TrimEnd(token) == token;
    var upper := "Bearer " + token;
    assert upper[1..7] == "earer " && upper[7..] == token;
    assert StripBearer(upper) == token;
    var lower := "bearer " + token;
    assert lower[1..7] == "earer " && lower[7..] == token;
    assert StripBearer(lower) == token;
  }

  /** The trimmed token is a blank-free slice of the header with only blanks
      cut away around it. */
  lemma TokenIsTrimmedSlice(header: string)
    ensures var s := StripBearer(header); var t := Token(header);
      && (t == "" || (!IsSpace(t[0]) && !IsSpace(t[|t| - 1])))
      && exists i, j :: (0 <= i <= j <= |s| && t == s[i..j]
                          && (forall k :: 0 <= k < i ==> IsSpace(s[k]))
                          && (forall k :: j <= k < |s| ==> IsSpace(s[k])))
  {
    var s := StripBearer(header);
    var a := TrimStart(s);
    var t := TrimEnd(a);
    var i := |s| - |a|;
    var j := i + |t|;
    assert a == s[i..] && t == a[..|t|];
    assert t == s[i..j];
    forall k | j <= k < |s| ensures IsSpace(s[k]) {
      assert s[k] == a[k - i];
    }
    if t != "" {
      assert t[0] == a[0] && !IsSpace(a[0]);
      assert !IsSpace(t[|t| - 1]);
    }
    assert 0 <= i <= j <= |s| && t == s[i..j]
      && (forall k :: 0 <= k < i ==> IsSpace(s[k]))
      && (forall k :: j <= k < |s| ==> IsSpace(s[k]));
  }

  /* ------------------------------------------------------------ middleware */

  /** `authenticateJWT`: always lets the request through; the payload is
      stored only when a truthy header yields a token that verifies, and the
      locals are otherwise untouched. */
  method AuthenticateJWT(locals: Locals, authorization: Option<string>, verify: string -> Option<Payload>)
    returns (d: Decision)
    modifies locals`user
    ensures d == Pass
    ensures NonEmpty(authorization) && verify(Token(authorization.value)).Some? ==>
      locals.user == verify(Token(authorization.value))
    ensures !(NonEmpty(authorization) && verify(Token(authorization.value)).Some?) ==>
      locals.user == old(locals.user)
  {
    if NonEmpty(authorization) {
      var token := Token(authorization.value);
      var payload := verify(token);
      if payload.Some? {
        locals.user := payload;
      }
    }
    d := Pass;
  }

  /** `ensureLoggedIn`: Unauthorized exactly when no payload is stored (a
      payload is an object, hence truthy). */
  function EnsureLoggedIn(user: Option<Payload>): (d: Decision)
    ensures d.Fail? <==> user.None?
    ensures d.Fail? ==> d.error == Unauthorized
  {
    if user.None? then Fail(Unauthorized) else Pass
  }

  /** `ensureAdmin`: refuses a payload whose `isAdmin` is loosely equal to
      `false` or equal to the string 'false'; without a payload the property
      read throws. */
  function EnsureAdmin(user: Option<Payload>): (d: Decision)
    ensures user.None? ==> d == Fail(Thrown(TYPE_ERROR))
    ensures user.Some? ==>
      (d.Pass? <==> !LooseEqualsFalse(user.value.isAdmin) && user.value.isAdmin != JsString("false"))
    ensures user.Some? && d.Fail? ==> d.error == Unauthorized
  {
    match user
    case None => Fail(Thrown(TYPE_ERROR))
    case Some(p) =>
      if LooseEqualsFalse(p.isAdmin) || p.isAdmin == JsString("false") then Fail(Unauthorized) else Pass
  }

  /** `ensureCorrectUserOrAdmin`: a truthy `isAdmin` passes at once; then a
      truthy username parameter must equal the payload's username; otherwise
      a team id parameter fetches the team (NotFound is forwarded) and the
      caller must be its owner; anything else is Unauthorized. */
  function EnsureCorrectUserOrAdmin(user: Option<Payload>, params: Params, teams: seq<TeamRow>): (d: Decision)
    ensures user.None? ==> d == Fail(Thrown(TYPE_ERROR))
    ensures user.Some? && Truthy(user.value.isAdmin) ==> d == Pass
    ensures d.Fail? ==> d.error in {Thrown(TYPE_ERROR), Unauthorized, NotFound}
  {
    match user
    case None => Fail(Thrown(TYPE_ERROR))
    case Some(p) =>
      if Truthy(p.isAdmin) then Pass
      else if NonEmpty(params.username) then
        if p.username == params.username then Pass else Fail(Unauthorized)
      else if params.id.Some? then
        match Teams.Get(teams, params.id.value)
        case Err(e) => Fail(e)
        case Ok(team) =>
          if team.user_id.Some? && team.user_id.value != 0 then
            if p.user_id == team.user_id then Pass else Fail(Unauthorized)
          else Fail(Unauthorized)
      else Fail(Unauthorized)
  }

  /* ------------------------------------------------------------ properties */

  /** The two guards read the string 'false' differently: `ensureAdmin`
      refuses it while `ensureCorrectUserOrAdmin` takes it, being a non-empty
      string, for an administrator, whatever the parameters. The same holds
      of '0' and of a blank string. */
  lemma FalseStringDisagreement(p: Payload, params: Params, teams: seq<TeamRow>)
    requires p.isAdmin == JsString("false") || p.isAdmin == JsString("0") || p.isAdmin == JsString(" ")
    ensures EnsureAdmin(Some(p)) == Fail(Unauthorized)
    ensures EnsureCorrectUserOrAdmin(Some(p), params, teams) == Pass
  {
    if p.isAdmin == JsString("0") {
      assert !IsSpace("0"[0]);
      assert TrimStart("0") == "0";
      assert TrimEnd("0") == "0";
      assert NumericZero("0");
    } else if p.isAdmin == JsString(" ") {
      assert IsSpace(" "[0]) && " "[1..] == "";
      assert TrimStart(" ") == "";
      assert Trim(" ") == "";
      assert NumericZero(" ");
    }
  }

  /** On boolean claims the guards agree: `ensureAdmin` passes exactly an
      administrator, and an administrator passes the owner guard too. */
  lemma BooleanFlagsAgree(p: Payload, params: Params, teams: seq<TeamRow>)
    requires p.isAdmin.JsBool?
    ensures EnsureAdmin(Some(p)).Pass? <==> p.isAdmin.b
    ensures EnsureAdmin(Some(p)).Pass? ==> EnsureCorrectUserOrAdmin(Some(p), params, teams) == Pass
  {
  }

  /** A payload without an `isAdmin` claim passes `ensureAdmin`, since
      `undefined == false` is false, yet is no administrator to the owner
      guard. */
  lemma MissingFlagPassesAdminGate(p: Payload, params: Params, teams: seq<TeamRow>)
    requires p.isAdmin == JsUndefined
    ensures EnsureAdmin(Some(p)) == Pass
    ensures !NonEmpty(params.username) && params.id.None? ==>
      EnsureCorrectUserOrAdmin(Some(p), params, teams) == Fail(Unauthorized)
  {
  }

  /** With only a team id, a non-administrator passes exactly when the team
      exists, has a truthy owner and that owner is the payload's `user_id`;
      a missing team is NotFound and an ownerless team Unauthorized. */
  lemma TeamOwnerDecides(p: Payload, teamId: int, teams: seq<TeamRow>)
    requires !Truthy(p.isAdmin)
    ensures var d := EnsureCorrectUserOrAdmin(Some(p), Params(None, Some(teamId)), teams);
      && (teamId !in TeamIds(teams) ==> d == Fail(NotFound))
      && (teamId in TeamIds(teams) ==>
            var owner := Teams.Get(teams, teamId).value.user_id;
            && (d.Pass? <==> owner.Some? && owner.value != 0 && p.user_id == owner)
            && (d.Fail? ==> d.error == Unauthorized))
  {
  }

  /** With a non-empty username parameter, a non-administrator passes exactly
      when the payload carries that username and is otherwise Unauthorized;
      the team table is not read. */
  lemma UsernameParamDecides(p: Payload, params: Params, teams: seq<TeamRow>)
    requires !Truthy(p.isAdmin) && NonEmpty(params.username)
    ensures EnsureCorrectUserOrAdmin(Some(p), params, teams).Pass? <==> p.username == params.username
    ensures EnsureCorrectUserOrAdmin(Some(p), params, teams)
         == if p.username == params.username then Pass else Fail(Unauthorized)
    ensures EnsureCorrectUserOrAdmin(Some(p), params, teams) == EnsureCorrectUserOrAdmin(Some(p), params, [])
  {
  }

  /** A non-administrator whose request carries neither a username nor a
      team id is Unauthorized. */
  lemma NoParameterRefused(p: Payload, params: Params, teams: seq<TeamRow>)
    requires !Truthy(p.isAdmin) && !NonEmpty(params.username) && params.id.None?
    ensures EnsureCorrectUserOrAdmin(Some(p), params, teams) == Fail(Unauthorized)
  {
  }
}
