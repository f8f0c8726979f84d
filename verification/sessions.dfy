/** `UserSessionService`: the bot's per-chat sessions, keyed by chat id. */
module Sessions {
  import opened Text

  /** `UserSession`. `tempData` holds only strings in this application. */
  datatype Session = Session(
    chatId: int,
    token: Option<string>,
    isAuthenticated: bool,
    username: Option<string>,
    role: Option<string>,
    currentState: Option<string>,
    tempData: map<string, string>)

  type SessionTable = map<int, Session>

  /** A session as `new UserSession { ChatId = chatId }` leaves it. */
  function Fresh(chatId: int): (s: Session)
    ensures s.chatId == chatId && !s.isAuthenticated
    ensures s.token.None? && s.username.None? && s.role.None? && s.currentState.None?
    ensures s.tempData == map[]
  {
    Session(chatId, None, false, None, None, None, map[])
  }

  /** Every stored session carries the chat id it is stored under. */
  predicate WellKeyed(m: SessionTable) {
    forall c :: c in m ==> m[c].chatId == c
  }

  /** `GetOrCreateSession`: the stored session, or a fresh one that is stored. */
  function GetOrCreate(m: SessionTable, chatId: int): (r: (SessionTable, Session))
    ensures chatId in m ==> r.0 == m && r.1 == m[chatId]
    ensures chatId !in m ==> r.0 == m[chatId := Fresh(chatId)] && r.1 == Fresh(chatId)
    ensures chatId in r.0 && r.0[chatId] == r.1
  {
    if chatId in m then (m, m[chatId]) else (m[chatId := Fresh(chatId)], Fresh(chatId))
  }

  /** `SetToken`: authenticates the chat's session (creating it if absent). */
  function SetToken(m: SessionTable, chatId: int, token: string): (r: SessionTable)
    ensures chatId in r && r[chatId].token == Some(token) && r[chatId].isAuthenticated
    ensures chatId in m ==> r[chatId] == m[chatId].(token := Some(token), isAuthenticated := true)
    ensures chatId !in m ==> r[chatId] == Fresh(chatId).(token := Some(token), isAuthenticated := true)
    ensures forall c :: c != chatId ==> (c in r <==> c in m) && (c in m ==> r[c] == m[c])
  {
    var (m', s) := GetOrCreate(m, chatId);
    m'[chatId := s.(token := Some(token), isAuthenticated := true)]
  }

  /** `ClearSession`. */
  function Clear(m: SessionTable, chatId: int): (r: SessionTable)
    ensures chatId !in r
    ensures forall c :: c != chatId ==> (c in r <==> c in m)
  {
    m - {chatId}
  }

  /** `GetSession`: the stored session or null; never creates one. */
  function GetSession(m: SessionTable, chatId: int): (r: Option<Session>)
    ensures r.None? <==> chatId !in m
    ensures r.Some? ==> r.value == m[chatId]
  {
    if chatId in m then Some(m[chatId]) else None
  }

  /** Getting twice is getting once. */
  lemma GetOrCreateIdempotent(m: SessionTable, chatId: int)
    ensures var (m1, s1) := GetOrCreate(m, chatId);
      GetOrCreate(m1, chatId) == (m1, s1)
  {
  }

  /** After clearing, the chat has no session, and the next access starts afresh. */
  lemma ClearThenGet(m: SessionTable, chatId: int)
    ensures GetSession(Clear(m, chatId), chatId).None?
    ensures GetOrCreate(Clear(m, chatId), chatId).1 == Fresh(chatId)
  {
  }

  /** Each operation on one chat leaves every other chat's session as it was. */
  lemma OtherChatsUnchanged(m: SessionTable, chatId: int, other: int, token: string)
    requires other != chatId
    ensures GetSession(GetOrCreate(m, chatId).0, other) == GetSession(m, other)
    ensures GetSession(SetToken(m, chatId, token), other) == GetSession(m, other)
    ensures GetSession(Clear(m, chatId), other) == GetSession(m, other)
  {
  }

  /** The operations keep every session under its own chat id. */
  lemma OperationsKeepWellKeyed(m: SessionTable, chatId: int, token: string)
    requires WellKeyed(m)
    ensures WellKeyed(GetOrCreate(m, chatId).0)
    ensures WellKeyed(SetToken(m, chatId, token))
    ensures WellKeyed(Clear(m, chatId))
  {
  }
}
