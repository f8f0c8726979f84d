/** The permission strings and the static role-to-permission table. */
module Permissions {
  import opened Entities
  import Order

  type Permission = string

  const UsersView: Permission := "Permissions.Users.View"
  const UsersManageSelf: Permission := "Permissions.Users.ManageSelf"
  const UsersManage: Permission := "Permissions.Users.Manage"
  const NotesView: Permission := "Permissions.Notes.View"
  const NotesManage: Permission := "Permissions.Notes.Manage"
  const RemindersView: Permission := "Permissions.Reminders.View"
  const RemindersManage: Permission := "Permissions.Reminders.Manage"

  /** Every permission constant, in declaration order. */
  const AllPermissions: seq<Permission> :=
    [UsersView, UsersManageSelf, UsersManage, NotesView, NotesManage, RemindersView, RemindersManage]

  datatype Resource = Users | Notes | Reminders
  datatype Operation = View | Manage | ManageSelf

  function ResourceName(r: Resource): string {
    match r
    case Users => "Users"
    case Notes => "Notes"
    case Reminders => "Reminders"
  }

  function OperationName(o: Operation): string {
    match o
    case View => "View"
    case Manage => "Manage"
    case ManageSelf => "ManageSelf"
  }

  /** The naming scheme `Permissions.<Resource>.<Action>`. */
  function Format(r: Resource, o: Operation): Permission {
    "Permissions." + ResourceName(r) + "." + OperationName(o)
  }

  /** The (resource, action) pair each constant is declared under. */
  const Declared: seq<(Resource, Operation)> :=
    [(Users, View), (Users, ManageSelf), (Users, Manage), (Notes, View), (Notes, Manage),
     (Reminders, View), (Reminders, Manage)]

  /** The static role table: Admin holds every user, note and reminder permission,
      User only the note and reminder ones. */
  const RolePermissions: map<Role, seq<Permission>> := map[
    Admin := [UsersManage, UsersView, NotesManage, NotesView, RemindersManage, RemindersView],
    User := [NotesManage, NotesView, RemindersManage, RemindersView]
  ]

  /** The table's list for a role; a role without an entry gets no permissions. */
  function PermissionsOf(table: map<Role, seq<Permission>>, role: Role): (ps: seq<Permission>)
    ensures role !in table ==> ps == []
    ensures role in table ==> ps == table[role]
  {
    if role in table then table[role] else []
  }

  /** Each constant is the `Permissions.<Resource>.<Action>` name of the pair it is declared under. */
  lemma ConstantsFollowNamingScheme()
    ensures |AllPermissions| == |Declared| == 7
    ensures forall i :: 0 <= i < 7 ==> AllPermissions[i] == Format(Declared[i].0, Declared[i].1)
  {
    UsersNames();
    NotesNames();
    RemindersNames();
  }

  lemma UsersNames()
    ensures UsersView == Format(Users, View) && UsersManageSelf == Format(Users, ManageSelf)
    ensures UsersManage == Format(Users, Manage)
  {
    assert UsersView == Format(Users, View);
    assert UsersManageSelf == Format(Users, ManageSelf);
    assert UsersManage == Format(Users, Manage);
  }

  lemma NotesNames()
    ensures NotesView == Format(Notes, View) && NotesManage == Format(Notes, Manage)
  {
    assert NotesView == Format(Notes, View);
    assert NotesManage == Format(Notes, Manage);
  }

  lemma RemindersNames()
    ensures RemindersView == Format(Reminders, View) && RemindersManage == Format(Reminders, Manage)
  {
    assert RemindersView == Format(Reminders, View);
    assert RemindersManage == Format(Reminders, Manage);
  }

  /** The seven constants are pairwise different strings. */
  lemma ConstantsDistinct()
    ensures Order.Distinct(AllPermissions)
  {
  }

  /** `View` and `Manage` of one resource are different permissions, so neither implies the other. */
  lemma ViewAndManageDiffer(r: Resource)
    ensures Format(r, View) != Format(r, Manage)
  {
    var v := Format(r, View);
    var m := Format(r, Manage);
    var k := |"Permissions." + ResourceName(r) + "."|;
    assert v[k] == 'V' && m[k] == 'M';
  }

  /** Only the Users resource declares a third action, ManageSelf. */
  lemma OnlyUsersHasManageSelf()
    ensures forall i :: 0 <= i < |Declared| && Declared[i].1 == ManageSelf ==> Declared[i].0 == Users
    ensures (Users, ManageSelf) in Declared
  {
  }

  /** The role table grants Admin exactly six and User exactly four permissions. */
  lemma RoleTableContents()
    ensures RolePermissions.Keys == {Admin, User}
    ensures PermissionsOf(RolePermissions, Admin)
      == [UsersManage, UsersView, NotesManage, NotesView, RemindersManage, RemindersView]
    ensures PermissionsOf(RolePermissions, User) == [NotesManage, NotesView, RemindersManage, RemindersView]
  {
  }

  /** Everything User may do, Admin may do too. */
  lemma UserPermissionsWithinAdmin()
    ensures forall p :: p in PermissionsOf(RolePermissions, User) ==> p in PermissionsOf(RolePermissions, Admin)
  {
  }

  /** User holds no Users permission at all. */
  lemma UserHasNoUserAdministration()
    ensures UsersView !in PermissionsOf(RolePermissions, User)
    ensures UsersManage !in PermissionsOf(RolePermissions, User)
  {
  }

  /** No role is granted Users.ManageSelf; every granted string is a declared constant. */
  lemma ManageSelfNeverGranted(role: Role)
    ensures UsersManageSelf !in PermissionsOf(RolePermissions, role)
    ensures forall p :: p in PermissionsOf(RolePermissions, role) ==> p in AllPermissions
  {
  }

  /** No role lists a permission twice. */
  lemma RoleListsDistinct(role: Role)
    ensures Order.Distinct(PermissionsOf(RolePermissions, role))
  {
  }
}
