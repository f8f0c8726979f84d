/** `UserRepository`: listing filtered by name and role, lookup, update, delete. */
module UserRepository {
  import opened Text
  import opened Entities
  import opened Store

  datatype UserFilter = UserFilter(name: Option<string>, role: Option<string>, pageNumber: int, pageSize: int)

  /** `UserGetDto`; the field that carries the password hash is spelt `PassworodHash`. */
  datatype UserDto = UserDto(id: int, name: string, passwordHash: string, role: Role)

  /** `UserUpdateDto`: `passwordHash` carries the new plaintext password. */
  datatype UserUpdateDto = UserUpdateDto(id: int, name: string, passwordHash: string, role: Role)

  const NotFound: string := "User not found"

  function ToDto(id: int, u: UserRow): (d: UserDto)
    ensures d.id == id && d.name == u.name && d.passwordHash == u.passwordHash && d.role == u.role
  {
    UserDto(id, u.name, u.passwordHash, u.role)
  }

  /** The active filters: case-insensitive substring of the name; case-insensitive
      equality of the role's name; each skipped when null or white space. */
  predicate Matches(f: UserFilter, u: UserRow) {
    && (!IsNullOrWhiteSpace(f.name) ==> Contains(ToLower(u.name), ToLower(f.name.value)))
    && (!IsNullOrWhiteSpace(f.role) ==> ToLower(RoleName(u.role)) == ToLower(f.role.value))
  }

  /** The `Where` clauses of a filter, as one predicate on rows. */
  function Keep(f: UserFilter): UserRow -> bool {
    u => Matches(f, u)
  }

  /** `GetAll`. The `PagedResponse` arguments are passed as (data, page number, page
      size, total): the total comes last here, unlike the note and reminder listings. */
  function GetAll(t: Table<UserRow>, f: UserFilter): (r: Option<PagedCall<UserDto>>)
    ensures r.None? <==> Offset(f.pageNumber, f.pageSize) < 0 || f.pageSize < 0
    ensures r.Some? ==> r.value.arg2 == f.pageNumber && r.value.arg3 == f.pageSize
    ensures r.Some? ==> IsPage(t, Keep(f), ToDto, Offset(f.pageNumber, f.pageSize), f.pageSize, r.value.data, r.value.arg4)
  {
    var l := Listing(t, Keep(f), ToDto, Offset(f.pageNumber, f.pageSize), f.pageSize);
    if l.None? then None else Some(PagedCall(l.value.0, f.pageNumber, f.pageSize, l.value.1))
  }

  /** Every listed user passes the filters, and its DTO exposes the stored hash. */
  lemma ListedUsersMatch(t: Table<UserRow>, f: UserFilter, d: UserDto)
    requires GetAll(t, f).Some? && d in GetAll(t, f).value.data
    ensures d.id in t.rows && Matches(f, t.rows[d.id])
    ensures d.passwordHash == t.rows[d.id].passwordHash
  {
    ListingSound(t, Keep(f), ToDto, Offset(f.pageNumber, f.pageSize), f.pageSize, d);
  }

  /** A role filter selects a user exactly when it names the user's role in any
      letter case. */
  lemma RoleFilterIgnoresCase(role: Role, given: string)
    requires !IsBlank(given)
    ensures Matches(UserFilter(None, Some(given), 1, 10), UserRow("", "", role, None))
        <==> ToLower(given) == ToLower(RoleName(role))
  {
  }

  /** "admin", "ADMIN" and "Admin" all select the administrators and nobody else. */
  lemma AdminFilterSpellings(u: UserRow)
    ensures Matches(UserFilter(None, Some("admin"), 1, 10), u) <==> u.role == Admin
    ensures Matches(UserFilter(None, Some("ADMIN"), 1, 10), u) <==> u.role == Admin
    ensures Matches(UserFilter(None, Some("Admin"), 1, 10), u) <==> u.role == Admin
  {
    assert ToLower("admin") == "admin";
    assert ToLower("ADMIN") == "admin";
    assert ToLower("Admin") == "admin";
    assert ToLower("User") == "user";
    assert !IsWhiteSpace("admin"[0]) && !IsWhiteSpace("ADMIN"[0]) && !IsWhiteSpace("Admin"[0]);
    assert "user" != "admin" by { assert "user"[0] != "admin"[0]; }
  }

  function GetById(t: Table<UserRow>, id: int): (r: Response<UserDto>)
    ensures id !in t.rows <==> r == Response(404, NotFound, None)
    ensures id in t.rows ==> r == Response(200, "User Found!", Some(ToDto(id, t.rows[id])))
  {
    Lookup(t, id, ToDto, "User Found!", NotFound)
  }

  /** `Update`: `hashed` is `Hash(dto.passwordHash)`, computed before the lookup. Name,
      role and hash are overwritten unconditionally; the e-mail address stays. */
  function Update(t: Table<UserRow>, dto: UserUpdateDto, hashed: string): (r: (Table<UserRow>, Response<UserDto>))
    ensures dto.id !in t.rows ==> r.0 == t && r.1 == Response(404, NotFound, None)
    ensures dto.id in t.rows ==>
      && r.0.nextId == t.nextId
      && r.0.rows == t.rows[dto.id := UserRow(dto.name, hashed, dto.role, t.rows[dto.id].email)]
      && r.1 == Response(200, "User Updated!", Some(UserDto(dto.id, dto.name, hashed, dto.role)))
  {
    if dto.id !in t.rows then (t, Response(404, NotFound, None))
    else
      var u := t.rows[dto.id].(name := dto.name, passwordHash := hashed, role := dto.role);
      (t.(rows := t.rows[dto.id := u]), Response(200, "User Updated!", Some(ToDto(dto.id, u))))
  }

  /** Reading a user back after a successful update gives the new name, hash and role
      under the same id; the e-mail address is kept and every other user reads as before. */
  lemma UpdateThenGet(t: Table<UserRow>, dto: UserUpdateDto, hashed: string, other: int)
    requires dto.id in t.rows
    ensures var t' := Update(t, dto, hashed).0;
      && GetById(t', dto.id) == Response(200, "User Found!", Some(UserDto(dto.id, dto.name, hashed, dto.role)))
      && t'.rows[dto.id].email == t.rows[dto.id].email
      && (other != dto.id ==> GetById(t', other) == GetById(t, other))
  {
  }

  function Delete(t: Table<UserRow>, id: int): (r: (Table<UserRow>, Response<string>))
    ensures id !in t.rows ==> r.0 == t && r.1 == Response(404, NotFound, None)
    ensures id in t.rows ==>
      && r.0.rows == t.rows - {id} && r.0.nextId == t.nextId
      && r.1 == Response(200, "User Deleted!", None)
  {
    DeleteRow(t, id, "User Deleted!", NotFound)
  }

  /** Deleting a user leaves every other user as it was. */
  lemma DeleteKeepsOthers(t: Table<UserRow>, id: int, other: int)
    requires other != id && other in t.rows
    ensures other in Delete(t, id).0.rows && Delete(t, id).0.rows[other] == t.rows[other]
    ensures GetById(Delete(t, id).0, other) == GetById(t, other)
  {
  }
}
