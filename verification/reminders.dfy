/** `ReminderRepository`: listing filtered by note, lookup, create, reschedule, delete. */
module ReminderRepository {
  import opened Text
  import opened Entities
  import opened Store

  datatype ReminderFilter = ReminderFilter(noteId: Option<int>, pageNumber: int, pageSize: int)

  /** `ReminderGetDto`. */
  datatype ReminderDto = ReminderDto(id: int, noteId: int, reminderTime: int)

  /** The fields of `ReminderCreateDto` the repository reads. */
  datatype ReminderCreateDto = ReminderCreateDto(noteId: int, reminderTime: int)

  /** The fields of `ReminderUpdateDto` the repository reads. */
  datatype ReminderUpdateDto = ReminderUpdateDto(id: int, reminderTime: int)

  const NotFound: string := "Reminder not found"

  function ToDto(id: int, r: ReminderRow): (d: ReminderDto)
    ensures d.id == id && d.noteId == r.noteId && d.reminderTime == r.reminderTime
  {
    ReminderDto(id, r.noteId, r.reminderTime)
  }

  /** The optional note filter. */
  predicate Matches(f: ReminderFilter, r: ReminderRow) {
    f.noteId.Some? ==> r.noteId == f.noteId.value
  }

  /** The `Where` clauses of a filter, as one predicate on rows. */
  function Keep(f: ReminderFilter): ReminderRow -> bool {
    x => Matches(f, x)
  }

  /** `GetAll`: like the note listing, with `PagedResponse(data, total, page number, page size)`.
      Each DTO carries the id of its row. */
  function GetAll(t: Table<ReminderRow>, f: ReminderFilter): (r: Option<PagedCall<ReminderDto>>)
    ensures r.None? <==> Offset(f.pageNumber, f.pageSize) < 0 || f.pageSize < 0
    ensures r.Some? ==> r.value.arg3 == f.pageNumber && r.value.arg4 == f.pageSize
    ensures r.Some? ==> IsPage(t, Keep(f), ToDto, Offset(f.pageNumber, f.pageSize), f.pageSize, r.value.data, r.value.arg2)
  {
    var l := Listing(t, Keep(f), ToDto, Offset(f.pageNumber, f.pageSize), f.pageSize);
    if l.None? then None else Some(PagedCall(l.value.0, l.value.1, f.pageNumber, f.pageSize))
  }

  /** Filtering by a note lists only that note's reminders. */
  lemma ListedRemindersBelongToNote(t: Table<ReminderRow>, noteId: int, pageNumber: int, pageSize: int, d: ReminderDto)
    requires GetAll(t, ReminderFilter(Some(noteId), pageNumber, pageSize)).Some?
    requires d in GetAll(t, ReminderFilter(Some(noteId), pageNumber, pageSize)).value.data
    ensures d.noteId == noteId && d.id in t.rows && t.rows[d.id].noteId == noteId
  {
    var f := ReminderFilter(Some(noteId), pageNumber, pageSize);
    ListingSound(t, Keep(f), ToDto, Offset(pageNumber, pageSize), pageSize, d);
  }

  function GetById(t: Table<ReminderRow>, id: int): (r: Response<ReminderDto>)
    ensures id !in t.rows <==> r == Response(404, NotFound, None)
    ensures id in t.rows ==> r == Response(200, "Reminder found", Some(ToDto(id, t.rows[id])))
  {
    Lookup(t, id, ToDto, "Reminder found", NotFound)
  }

  /** `Create`: a new row for the given note and time, without body or owner; the
      response carries the id the database assigned. */
  function Create(t: Table<ReminderRow>, dto: ReminderCreateDto): (r: (Table<ReminderRow>, Response<ReminderDto>))
    requires Valid(t)
    ensures Valid(r.0)
    ensures r.1.status == 200 && r.1.message == "Reminder created" && r.1.data.Some?
    ensures var id := r.1.data.value.id;
      && id !in t.rows
      && r.0.rows == t.rows[id := ReminderRow(dto.noteId, 0, None, dto.reminderTime)]
      && r.1.data.value == ReminderDto(id, dto.noteId, dto.reminderTime)
  {
    var row := ReminderRow(dto.noteId, 0, None, dto.reminderTime);
    var (t', id) := Insert(t, row);
    assert t'.rows == t.rows[id := row];
    (t', Response(200, "Reminder created", Some(ToDto(id, row))))
  }

  /** The id a creation reports finds the created reminder again. */
  lemma CreatedIsFound(t: Table<ReminderRow>, dto: ReminderCreateDto)
    requires Valid(t)
    ensures var (t', resp) := Create(t, dto);
      GetById(t', resp.data.value.id) == Response(200, "Reminder found", resp.data)
  {
  }

  /** `Update`: only the time changes; the note link, body and owner stay. */
  function Update(t: Table<ReminderRow>, dto: ReminderUpdateDto): (r: (Table<ReminderRow>, Response<ReminderDto>))
    ensures dto.id !in t.rows ==> r.0 == t && r.1 == Response(404, NotFound, None)
    ensures dto.id in t.rows ==>
      && r.0.nextId == t.nextId
      && r.0.rows == t.rows[dto.id := t.rows[dto.id].(reminderTime := dto.reminderTime)]
      && r.1 == Response(200, "Reminder updated",
                         Some(ReminderDto(dto.id, t.rows[dto.id].noteId, dto.reminderTime)))
  {
    if dto.id !in t.rows then (t, Response(404, NotFound, None))
    else
      var row := t.rows[dto.id].(reminderTime := dto.reminderTime);
      (t.(rows := t.rows[dto.id := row]), Response(200, "Reminder updated", Some(ToDto(dto.id, row))))
  }

  /** Rescheduling twice is the same as rescheduling once to the later time. */
  lemma UpdateLastWins(t: Table<ReminderRow>, id: int, first: int, second: int)
    ensures Update(Update(t, ReminderUpdateDto(id, first)).0, ReminderUpdateDto(id, second)).0
         == Update(t, ReminderUpdateDto(id, second)).0
  {
  }

  /** The response to an update agrees with a subsequent lookup. */
  lemma UpdateThenGet(t: Table<ReminderRow>, dto: ReminderUpdateDto)
    ensures var (t', resp) := Update(t, dto);
      resp.status == 200 ==> GetById(t', dto.id).data == resp.data
  {
  }

  function Delete(t: Table<ReminderRow>, id: int): (r: (Table<ReminderRow>, Response<string>))
    ensures id !in t.rows ==> r.0 == t && r.1 == Response(404, NotFound, None)
    ensures id in t.rows ==>
      && r.0.rows == t.rows - {id} && r.0.nextId == t.nextId
      && r.1 == Response(200, "Reminder deleted", None)
  {
    DeleteRow(t, id, "Reminder deleted", NotFound)
  }

  /** After a delete the reminder is not found, and deleting again reports 404. */
  lemma DeleteThenGone(t: Table<ReminderRow>, id: int)
    ensures GetById(Delete(t, id).0, id).status == 404
    ensures Delete(Delete(t, id).0, id) == (Delete(t, id).0, Response(404, NotFound, None))
  {
  }
}
