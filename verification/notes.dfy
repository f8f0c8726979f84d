/** `NoteRepository`: filtered, paged listing; lookup; create; partial update; delete. */
module NoteRepository {
  import opened Text
  import opened Entities
  import opened Store

  datatype NoteFilter = NoteFilter(
    date: Option<int>, title: Option<string>, content: Option<string>,
    pageNumber: int, pageSize: int)

  /** `NoteGetDto`. The repository never assigns `Id`, so it keeps its default 0. */
  datatype NoteDto = NoteDto(id: int, title: string, content: string, createdAt: int)

  datatype NoteCreateDto = NoteCreateDto(title: string, content: string)
  datatype NoteUpdateDto = NoteUpdateDto(id: int, title: Option<string>, content: Option<string>)

  const NotFound: string := "Note not found!"

  function ToDto(n: NoteRow): (d: NoteDto)
    ensures d.id == 0
    ensures d.title == n.title && d.content == n.content && d.createdAt == n.createdAt
  {
    NoteDto(0, n.title, n.content, n.createdAt)
  }

  /** The listing's projection: the row id plays no part in a note's DTO. */
  function ListedDto(id: int, n: NoteRow): (d: NoteDto)
    ensures d == ToDto(n)
  {
    ToDto(n)
  }

  /** The active filters: exact date; case-insensitive substring of title and content,
      each skipped when null or white space. */
  predicate Matches(f: NoteFilter, n: NoteRow) {
    && (f.date.Some? ==> n.createdAt == f.date.value)
    && (!IsNullOrWhiteSpace(f.title) ==> Contains(ToLower(n.title), ToLower(f.title.value)))
    && (!IsNullOrWhiteSpace(f.content) ==> Contains(ToLower(n.content), ToLower(f.content.value)))
  }

  /** The `Where` clauses of a filter, as one predicate on rows. */
  function Keep(f: NoteFilter): NoteRow -> bool {
    n => Matches(f, n)
  }

  /** `GetAll`: `None` when the database rejects the page; otherwise the page of DTOs
      and the `PagedResponse` arguments in call order: data, total, page number, page size. */
  function GetAll(t: Table<NoteRow>, f: NoteFilter): (r: Option<PagedCall<NoteDto>>)
    ensures r.None? <==> Offset(f.pageNumber, f.pageSize) < 0 || f.pageSize < 0
    ensures r.Some? ==> r.value.arg3 == f.pageNumber && r.value.arg4 == f.pageSize
    ensures r.Some? ==> IsPage(t, Keep(f), ListedDto, Offset(f.pageNumber, f.pageSize), f.pageSize, r.value.data, r.value.arg2)
  {
    var l := Listing(t, Keep(f), ListedDto, Offset(f.pageNumber, f.pageSize), f.pageSize);
    if l.None? then None else Some(PagedCall(l.value.0, l.value.1, f.pageNumber, f.pageSize))
  }

  /** Without any filter every note counts toward the total. */
  lemma UnfilteredTotal(t: Table<NoteRow>, pageNumber: int, pageSize: int)
    requires GetAll(t, NoteFilter(None, None, None, pageNumber, pageSize)).Some?
    ensures GetAll(t, NoteFilter(None, None, None, pageNumber, pageSize)).value.arg2 == |t.rows|
  {
    var f := NoteFilter(None, None, None, pageNumber, pageSize);
    forall id | id in t.rows ensures Keep(f)(t.rows[id]) {
      assert Matches(f, t.rows[id]);
    }
    MatchingAll(t, Keep(f));
  }

  /** A listed DTO belongs to a stored note that passes every active filter. */
  lemma ListedNotesMatch(t: Table<NoteRow>, f: NoteFilter, d: NoteDto)
    requires GetAll(t, f).Some? && d in GetAll(t, f).value.data
    ensures d.id == 0
    ensures exists id :: id in t.rows && Matches(f, t.rows[id]) && d == ToDto(t.rows[id])
  {
    ListingSound(t, Keep(f), ListedDto, Offset(f.pageNumber, f.pageSize), f.pageSize, d);
  }

  /** `GetById`: 404 with no data for an unknown id, the row's DTO otherwise. */
  function GetById(t: Table<NoteRow>, id: int): (r: Response<NoteDto>)
    ensures id !in t.rows <==> r == Response(404, NotFound, None)
    ensures id in t.rows ==> r == Response(200, "Note Found!", Some(ToDto(t.rows[id])))
  {
    Lookup(t, id, (rowId: int, n: NoteRow) => ToDto(n), "Note Found!", NotFound)
  }

  /** `Create`: a new row with the dto's title and content, dated `today`; the owner
      id is left at its default. */
  function Create(t: Table<NoteRow>, dto: NoteCreateDto, today: int): (r: (Table<NoteRow>, Response<NoteDto>))
    requires Valid(t)
    ensures Valid(r.0)
    ensures exists id :: id !in t.rows && r.0.rows == t.rows[id := NoteRow(0, dto.title, dto.content, today)]
    ensures r.1 == Response(200, "Note Created!", Some(NoteDto(0, dto.title, dto.content, today)))
  {
    var row := NoteRow(0, dto.title, dto.content, today);
    var (t', id) := Insert(t, row);
    assert t'.rows == t.rows[id := row];
    (t', Response(200, "Note Created!", Some(ToDto(row))))
  }

  /** A field of an update: a null or white-space value keeps the stored one. */
  function Overwrite(current: string, given: Option<string>): (r: string)
    ensures IsNullOrWhiteSpace(given) ==> r == current
    ensures !IsNullOrWhiteSpace(given) ==> r == given.value
  {
    if IsNullOrWhiteSpace(given) then current else given.value
  }

  function Apply(n: NoteRow, dto: NoteUpdateDto): NoteRow {
    n.(title := Overwrite(n.title, dto.title), content := Overwrite(n.content, dto.content))
  }

  /** `Update`: 404 and no change for an unknown id; otherwise only non-blank fields
      overwrite, the creation date and owner stay, and no other row changes. */
  function Update(t: Table<NoteRow>, dto: NoteUpdateDto): (r: (Table<NoteRow>, Response<NoteDto>))
    ensures dto.id !in t.rows ==> r.0 == t && r.1 == Response(404, NotFound, None)
    ensures dto.id in t.rows ==>
      && r.0.nextId == t.nextId && r.0.rows.Keys == t.rows.Keys
      && r.0.rows[dto.id].createdAt == t.rows[dto.id].createdAt
      && r.0.rows[dto.id].userId == t.rows[dto.id].userId
      && (IsNullOrWhiteSpace(dto.title) ==> r.0.rows[dto.id].title == t.rows[dto.id].title)
      && (!IsNullOrWhiteSpace(dto.title) ==> r.0.rows[dto.id].title == dto.title.value)
      && (IsNullOrWhiteSpace(dto.content) ==> r.0.rows[dto.id].content == t.rows[dto.id].content)
      && (!IsNullOrWhiteSpace(dto.content) ==> r.0.rows[dto.id].content == dto.content.value)
      && (forall id :: id in t.rows && id != dto.id ==> r.0.rows[id] == t.rows[id])
      && r.1 == Response(200, "Note Updated!", Some(ToDto(r.0.rows[dto.id])))
  {
    if dto.id !in t.rows then (t, Response(404, NotFound, None))
    else
      var n := Apply(t.rows[dto.id], dto);
      (t.(rows := t.rows[dto.id := n]), Response(200, "Note Updated!", Some(ToDto(n))))
  }

  /** Applying the same update twice is the same as applying it once. */
  lemma UpdateIdempotent(t: Table<NoteRow>, dto: NoteUpdateDto)
    ensures Update(Update(t, dto).0, dto).0 == Update(t, dto).0
  {
  }

  /** An update whose fields are all blank leaves the table as it was. */
  lemma BlankUpdateChangesNothing(t: Table<NoteRow>, dto: NoteUpdateDto)
    requires IsNullOrWhiteSpace(dto.title) && IsNullOrWhiteSpace(dto.content)
    ensures Update(t, dto).0 == t
  {
    if dto.id in t.rows {
      assert Apply(t.rows[dto.id], dto) == t.rows[dto.id];
      assert t.rows[dto.id := t.rows[dto.id]] == t.rows;
    }
  }

  /** `Delete`: 404 and no change for an unknown id; otherwise exactly that row goes. */
  function Delete(t: Table<NoteRow>, id: int): (r: (Table<NoteRow>, Response<string>))
    ensures id !in t.rows ==> r.0 == t && r.1 == Response(404, NotFound, None)
    ensures id in t.rows ==>
      && r.0.rows == t.rows - {id} && r.0.nextId == t.nextId
      && r.1 == Response(200, "Note Deleted!", None)
  {
    DeleteRow(t, id, "Note Deleted!", NotFound)
  }

  /** Deleting a note just created restores every row that was there before, and
      afterwards the note is gone. */
  lemma CreateThenDelete(t: Table<NoteRow>, dto: NoteCreateDto, today: int)
    requires Valid(t)
    ensures var (t1, id) := Insert(t, NoteRow(0, dto.title, dto.content, today));
      && Create(t, dto, today).0 == t1
      && Delete(t1, id).0.rows == t.rows
      && GetById(Delete(t1, id).0, id).status == 404
  {
  }
}
