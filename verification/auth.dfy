/** `AuthRepository`: password login that issues a token, and user registration.
    BCrypt is kept abstract: `verify(password, hash)` is `BCrypt.Verify`, and a
    freshly computed `BCrypt.HashPassword` value is passed in as `hashed`. */
module AuthRepository {
  import opened Text
  import opened Entities
  import opened Store
  import opened Tokens
  import opened Permissions
  import Order
  import UserRepository

  datatype LoginRequest = LoginRequest(name: string, password: string)

  /** `LoginResponseDto`: the token, the user's name and the role's name. */
  datatype LoginResponse = LoginResponse(token: Jwt, name: string, role: string)

  /** `UserCreateDto`: `passwordHash` carries the plaintext password. */
  datatype UserCreateDto = UserCreateDto(name: string, passwordHash: string, role: Role)

  /** `FirstOrDefaultAsync(u => u.Name == name)`: the first user, in listing order, whose
      name is exactly `name`. */
  function FindByName(t: Table<UserRow>, name: string): (r: Option<int>)
    ensures r.None? <==> forall id :: id in t.rows ==> t.rows[id].name != name
    ensures r.Some? ==> r.value in t.rows && t.rows[r.value].name == name
    ensures r.Some? ==> forall id :: id in t.rows && t.rows[id].name == name ==> r.value <= id
  {
    var named := Matching(t, (u: UserRow) => u.name == name);
    if named == {} then
      assert forall id :: id in t.rows ==> id !in named;
      None
    else
      var id := Order.Least(named, Order.IntLe);
      assert forall other :: other in t.rows && t.rows[other].name == name ==> id <= other by {
        forall other | other in t.rows && t.rows[other].name == name ensures id <= other {
          assert other in named;
          assert Order.IntLe(id, other);
        }
      }
      Some(id)
  }

  /** `Login`: 404 when no user has that name, 401 when the password does not verify
      against the stored hash, otherwise 200 with a token for that user. */
  function Login(cfg: JwtConfig, t: Table<UserRow>, req: LoginRequest,
                 verify: (string, string) -> bool, now: int): (r: Response<LoginResponse>)
    ensures FindByName(t, req.name).None? ==> r == Response(404, "User not found", None)
    ensures FindByName(t, req.name).Some? ==>
      var id := FindByName(t, req.name).value;
      var u := t.rows[id];
      && (!verify(req.password, u.passwordHash) ==> r == Response(401, "Invalid user password!", None))
      && (verify(req.password, u.passwordHash) ==>
            r == Response(200, "Login successful",
                          Some(LoginResponse(GenerateJwtToken(cfg, id, u, now), u.name, RoleName(u.role)))))
  {
    match FindByName(t, req.name)
    case None => Response(404, "User not found", None)
    case Some(id) =>
      var u := t.rows[id];
      if !verify(req.password, u.passwordHash) then Response(401, "Invalid user password!", None)
      else Response(200, "Login successful",
                    Some(LoginResponse(GenerateJwtToken(cfg, id, u, now), u.name, RoleName(u.role))))
  }

  /** A login succeeds exactly when a user of that name exists and the password verifies
      against the first such user's hash; a token is issued only then. */
  lemma LoginOutcomes(cfg: JwtConfig, t: Table<UserRow>, req: LoginRequest,
                      verify: (string, string) -> bool, now: int)
    ensures var r := Login(cfg, t, req, verify, now);
      && (r.status == 200 || r.status == 401 || r.status == 404)
      && (r.data.Some? <==> r.status == 200)
      && (r.status == 200 <==>
            exists id :: id in t.rows && t.rows[id].name == req.name
              && FindByName(t, req.name) == Some(id) && verify(req.password, t.rows[id].passwordHash))
  {
  }

  /** The token a successful login hands out names the user, and its Permission claims
      are exactly the role's list in the role table. */
  lemma LoginTokenContents(cfg: JwtConfig, t: Table<UserRow>, req: LoginRequest,
                           verify: (string, string) -> bool, now: int)
    requires Login(cfg, t, req, verify, now).status == 200
    ensures var resp := Login(cfg, t, req, verify, now).data.value;
      && resp.name == req.name
      && resp.token.claims[1] == Claim(NameType, req.name)
      && resp.token.claims[2] == Claim(RoleType, resp.role)
      && PermissionValues(resp.token.claims)
         == PermissionsOf(RolePermissions, t.rows[FindByName(t, req.name).value].role)
  {
    var id := FindByName(t, req.name).value;
    ClaimsLayout(RolePermissions, id, t.rows[id]);
    PermissionClaimsRoundTrip(RolePermissions, id, t.rows[id]);
  }

  /** `Create` (register): the stored row holds the hash, name and role from the dto;
      the response echoes the caller's plaintext in the hash field, with the new id. */
  function Create(t: Table<UserRow>, dto: UserCreateDto, hashed: string)
    : (r: (Table<UserRow>, Response<UserRepository.UserDto>))
    requires Valid(t)
    ensures Valid(r.0)
    ensures r.1.status == 200 && r.1.message == "User created" && r.1.data.Some?
    ensures var id := r.1.data.value.id;
      && id !in t.rows
      && r.0.rows == t.rows[id := UserRow(dto.name, hashed, dto.role, None)]
      && r.1.data.value == UserRepository.UserDto(id, dto.name, dto.passwordHash, dto.role)
  {
    var row := UserRow(dto.name, hashed, dto.role, None);
    var (t', id) := Insert(t, row);
    assert t'.rows == t.rows[id := row];
    (t', Response(200, "User created", Some(UserRepository.UserDto(id, dto.name, dto.passwordHash, dto.role))))
  }

  /** Reading a registered user back gives the hash where registration echoed the
      plaintext: the two DTOs agree exactly when hashing left the password unchanged. */
  lemma CreateThenGet(t: Table<UserRow>, dto: UserCreateDto, hashed: string)
    requires Valid(t)
    ensures var (t', resp) := Create(t, dto, hashed);
      var id := resp.data.value.id;
      && UserRepository.GetById(t', id)
         == Response(200, "User Found!", Some(UserRepository.UserDto(id, dto.name, hashed, dto.role)))
      && (UserRepository.GetById(t', id).data == resp.data <==> hashed == dto.passwordHash)
  {
  }

  /** Registering a user under a name nobody has yet, then logging in with the same
      password, succeeds for the new id and role (given that the hash verifies). */
  lemma RegisterThenLogin(cfg: JwtConfig, t: Table<UserRow>, dto: UserCreateDto, hashed: string,
                          verify: (string, string) -> bool, now: int)
    requires Valid(t)
    requires forall id :: id in t.rows ==> t.rows[id].name != dto.name
    requires verify(dto.passwordHash, hashed)
    ensures var (t', resp) := Create(t, dto, hashed);
      var id := resp.data.value.id;
      Login(cfg, t', LoginRequest(dto.name, dto.passwordHash), verify, now)
        == Response(200, "Login successful",
                    Some(LoginResponse(GenerateJwtToken(cfg, id, t'.rows[id], now), dto.name, RoleName(dto.role))))
  {
    var (t', resp) := Create(t, dto, hashed);
    var id := resp.data.value.id;
    assert FindByName(t', dto.name) == Some(id);
  }
}
