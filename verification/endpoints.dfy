/** The REST endpoints, the permission each one declares, the gate decision for a
    token's claims, and the resulting access matrix for the two roles. */
module Endpoints {
  import opened Text
  import opened Entities
  import opened Permissions
  import opened Tokens

  datatype Endpoint =
    | NotesGetAll | NotesGetById | NotesCreate | NotesUpdate | NotesDelete
    | RemindersGetAll | RemindersGetById | RemindersCreate | RemindersUpdate | RemindersDelete
    | UsersGetAll | UsersGetById | UsersUpdate | UsersDelete
    | AuthLogin | AuthLoginTelegram | AuthLinkTelegram | AuthRegister

  const AllEndpoints: seq<Endpoint> := [
    NotesGetAll, NotesGetById, NotesCreate, NotesUpdate, NotesDelete,
    RemindersGetAll, RemindersGetById, RemindersCreate, RemindersUpdate, RemindersDelete,
    UsersGetAll, UsersGetById, UsersUpdate, UsersDelete,
    AuthLogin, AuthLoginTelegram, AuthLinkTelegram, AuthRegister]

  /** The `[PermissionAuthorize(...)]` attribute on each action, `None` where there is none. */
  function Required(e: Endpoint): Option<Permission> {
    match e
    case NotesGetAll => Some(NotesView)
    case NotesGetById => Some(NotesView)
    case NotesCreate => Some(NotesManage)
    case NotesUpdate => Some(NotesManage)
    case NotesDelete => Some(NotesManage)
    case RemindersGetAll => Some(RemindersView)
    case RemindersGetById => Some(RemindersView)
    case RemindersCreate => Some(RemindersManage)
    case RemindersUpdate => Some(RemindersManage)
    case RemindersDelete => Some(RemindersManage)
    case UsersGetAll => Some(UsersView)
    case UsersGetById => Some(UsersView)
    case UsersUpdate => Some(UsersManage)
    case UsersDelete => Some(UsersManage)
    case AuthLogin => None
    case AuthLoginTelegram => None
    case AuthLinkTelegram => None
    case AuthRegister => Some(UsersManage)
  }

  /** What the caller gets back: a 403 from the gate, or 200 OK wrapping the handler's value. */
  datatype HttpResult<T> = Forbidden | Ok(body: T)

  /** The gate for one endpoint: an endpoint without a declared permission is open. */
  predicate Allowed(cs: seq<Claim>, e: Endpoint) {
    Required(e).None? || HasPermission(cs, Required(e).value)
  }

  /** A controller action: the gate, then `Ok(...)` around whatever the service returned,
      whatever the status code inside it says. */
  function Respond<T>(cs: seq<Claim>, e: Endpoint, serviceResult: T): (r: HttpResult<T>)
    ensures r.Ok? <==> Allowed(cs, e)
    ensures r.Ok? ==> r.body == serviceResult
  {
    if Allowed(cs, e) then Ok(serviceResult) else Forbidden
  }

  /** `link-telegram`: no permission, and the fixed success message once the chat id has
      been saved (the save itself is a parameter: its implementation is not part of this model). */
  function LinkTelegram<S>(state: S, save: S -> S): (r: (S, HttpResult<string>))
    ensures r.0 == save(state)
    ensures r.1 == Ok("Telegram account linked successfully")
  {
    (save(state), Ok("Telegram account linked successfully"))
  }

  /** The intended access matrix, written independently of the tables: Admin may call
      every endpoint; User may call every endpoint except the four user endpoints and
      `register`; a role number that names no member may call only the three login and
      linking endpoints. */
  predicate ExpectedAccess(role: Role, e: Endpoint) {
    match role
    case Admin => true
    case User => !(e.UsersGetAll? || e.UsersGetById? || e.UsersUpdate? || e.UsersDelete? || e.AuthRegister?)
    case Undefined(_) => e.AuthLogin? || e.AuthLoginTelegram? || e.AuthLinkTelegram?
  }

  /** `NoteController`: the reads declare Notes.View, the writes Notes.Manage. */
  lemma NoteControllerRequirements(e: Endpoint)
    ensures e.NotesGetAll? || e.NotesGetById? ==> Required(e) == Some(Format(Notes, View))
    ensures e.NotesCreate? || e.NotesUpdate? || e.NotesDelete? ==> Required(e) == Some(Format(Notes, Manage))
  {
    NotesNames();
  }

  /** `ReminderController`: the reads declare Reminders.View, the writes Reminders.Manage. */
  lemma ReminderControllerRequirements(e: Endpoint)
    ensures e.RemindersGetAll? || e.RemindersGetById? ==> Required(e) == Some(Format(Reminders, View))
    ensures e.RemindersCreate? || e.RemindersUpdate? || e.RemindersDelete? ==> Required(e) == Some(Format(Reminders, Manage))
  {
    RemindersNames();
  }

  /** `UserController`: the reads declare Users.View, update and delete Users.Manage. */
  lemma UserControllerRequirements(e: Endpoint)
    ensures e.UsersGetAll? || e.UsersGetById? ==> Required(e) == Some(Format(Users, View))
    ensures e.UsersUpdate? || e.UsersDelete? ==> Required(e) == Some(Format(Users, Manage))
  {
    UsersNames();
  }

  /** `AuthController`: `register` declares Users.Manage, and the three login and
      linking actions are the only endpoints anywhere that declare nothing. */
  lemma AuthControllerRequirements(e: Endpoint)
    ensures e.AuthRegister? ==> Required(e) == Some(Format(Users, Manage))
    ensures Required(e).None? <==> e.AuthLogin? || e.AuthLoginTelegram? || e.AuthLinkTelegram?
  {
    UsersNames();
  }

  /** The access matrix: for every role and endpoint, a token issued by the application
      passes the gate exactly where the expected matrix says so, whoever the user is. */
  lemma AccessMatrix(cfg: JwtConfig, id: int, user: UserRow, now: int, e: Endpoint)
    ensures Allowed(GenerateJwtToken(cfg, id, user, now).claims, e) <==> ExpectedAccess(user.role, e)
  {
    if Required(e).Some? {
      IssuedTokenGate(cfg, id, user, now, Required(e).value);
      TableMatchesExpected(user.role, e);
    }
  }

  /** The role table, read through each endpoint's declared permission, is the expected matrix. */
  lemma TableMatchesExpected(role: Role, e: Endpoint)
    requires Required(e).Some?
    ensures Required(e).value in PermissionsOf(RolePermissions, role) <==> ExpectedAccess(role, e)
  {
    RoleTableContents();
    if role == User {
      UserHasNoUserAdministration();
    }
  }

  /** Consequences of the matrix: Admin passes every gate; User is refused on every
      user endpoint and on `register`; a role number that names no member carries no
      permission claim, so it passes only the gates that declare nothing. */
  lemma RoleOutcomes(cfg: JwtConfig, id: int, user: UserRow, now: int, e: Endpoint)
    ensures user.role == Admin ==> Allowed(GenerateJwtToken(cfg, id, user, now).claims, e)
    ensures user.role == User && (e.UsersGetAll? || e.UsersGetById? || e.UsersUpdate? || e.UsersDelete? || e.AuthRegister?)
      ==> Respond(GenerateJwtToken(cfg, id, user, now).claims, e, 0) == Forbidden
    ensures user.role.Undefined? ==> (Allowed(GenerateJwtToken(cfg, id, user, now).claims, e) <==> Required(e).None?)
  {
    AccessMatrix(cfg, id, user, now, e);
  }

  /** `Manage` does not imply `View`: a token carrying only a resource's Manage
      permission is refused on that resource's reads. */
  lemma ManageDoesNotGrantView(e: Endpoint)
    requires e.NotesGetAll? || e.NotesGetById?
    ensures !Allowed([Claim(PermissionType, NotesManage)], e)
  {
  }
}
