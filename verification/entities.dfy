/** The stored records of the application. Row ids are the keys of the tables
    that hold them (see module Store), so they are not fields here. */
module Entities {
  import opened Text
  import Int32

  /** The user role enumeration. A C# enum is open: a number that names no member
      (the JSON string-enum converter accepts plain integers too) is a `Role` as well,
      and `Undefined(n)` stands for it. The enum's declaration is not part of this
      model, so the numbers behind `Admin` and `User` are unknown; `n` is meant to be
      an `int` value other than those two. */
  datatype Role = Admin | User | Undefined(value: int)

  /** `ToString()`: the member name, or the decimal text of a number that names no member. */
  function RoleName(r: Role): (s: string)
    ensures r.Admin? <==> s == "Admin"
    ensures r.User? <==> s == "User"
    ensures r.Undefined? ==> s == Int32.ToDecimal(r.value)
  {
    match r
    case Admin => "Admin"
    case User => "User"
    case Undefined(n) =>
      var d := Int32.ToDecimal(n);
      assert d[0] == '-' || Int32.IsDigit(d[0]);
      d
  }

  /** A user row. `email` is read by the reminder mailer (it is added to the
      table by a migration; the entity file does not declare it). */
  datatype UserRow = UserRow(name: string, passwordHash: string, role: Role, email: Option<string>)

  /** A note row; `createdAt` is a calendar date, counted in days. */
  datatype NoteRow = NoteRow(userId: int, title: string, content: string, createdAt: int)

  /** A reminder row as the code that reads it sees it: the reminder repository reads
      and writes `noteId`, the mailer reads `userId` and `body`; the entity file
      itself declares `body`/`userId` but no `noteId`. `reminderTime` is in ticks. */
  datatype ReminderRow = ReminderRow(noteId: int, userId: int, body: Option<string>, reminderTime: int)
}
