/** The Telegram bot's conversation logic (`MessageHandler`) as a pure step function:
    one incoming update, the session table, and the backend's answers to the calls the
    step makes, give the new session table and the actions taken, in order. Message
    texts and keyboards are represented by labels; backend calls by their arguments. */
module Bot {
  import opened Text
  import Int32
  import opened Sessions

  // ---------------------------------------------------------------------------
  // Inputs

  /** An incoming update: a message (its text may be null) or an inline-button press
      (the message it belongs to, hence the chat, may be absent; so may its data). */
  datatype Update =
    | TextMessage(chatId: int, text: Option<string>)
    | ButtonPress(chat: Option<int>, data: Option<string>)

  /** The `LoginResponse` the backend returns. */
  datatype LoginData = LoginData(token: string, name: string, role: string)

  /** A backend reply envelope: status code, message (may be null), data (may be null). */
  datatype ApiReply<T> = ApiReply(status: int, message: Option<string>, data: Option<T>)

  /** The backend's answers during one step; each kind of call is made at most once per
      step. For `telegramLogin` and `login`, the client turns any exception (a transport
      failure, malformed JSON) into a 500 reply whose message starts "Connection error: ",
      and `None` is a JSON `null` body. For `list` and `item`, `None` covers a non-success
      status, a transport failure, malformed JSON and a JSON `null` body alike.
      List and item payloads are the entries as the bot renders them. */
  datatype Backend = Backend(
    telegramLogin: Option<ApiReply<LoginData>>,
    login: Option<ApiReply<LoginData>>,
    linked: bool,
    list: Option<ApiReply<seq<string>>>,
    item: Option<ApiReply<string>>,
    deleted: bool)

  // ---------------------------------------------------------------------------
  // Outputs

  datatype Kind = NoteKind | ReminderKind

  datatype ApiCall =
    | LoginByTelegram(chatId: int)
    | Login(username: string, password: string)
    | LinkTelegram(name: string, chatId: int)
    | GetList(kind: Kind, token: string, pageNumber: int, pageSize: int)
    | GetItem(kind: Kind, token: string, id: int)
    | DeleteItem(kind: Kind, token: string, id: int)
    | CreateNote(token: string, title: string, content: string)

  /** The messages the bot sends to the chat, by meaning. */
  datatype Reply =
    | UseACommand | ErrorOccurred
    | CheckingAccount | WelcomeBack(name: string, role: string) | Welcome
    | TryingAutoLogin | AutoLoggedIn(name: string) | AskUsername
    | LoggedOut | HelpText | PleaseLogin
    | ListFailed(kind: Kind, detail: string) | NothingYet(kind: Kind) | Listed(kind: Kind, entries: seq<string>)
    | ItemFailed(kind: Kind, detail: string) | Shown(kind: Kind, entry: string)
    | Deleted(kind: Kind) | DeleteFailed(kind: Kind)
    | AskPassword | AskNoteContent | AskNoteTitle
    | LoggingIn | CannotConnect | LoginFailed(reason: string) | LoggedIn(name: string, role: string, linked: bool)
    | CreatingNote | CreateFailed(detail: string) | NoteCreated(entry: string)
    | Menu(authenticated: bool, username: Option<string>)

  datatype Action = Send(reply: Reply) | Call(call: ApiCall) | AnswerCallback

  // ---------------------------------------------------------------------------
  // States and commands

  const AwaitingUsername: string := "awaiting_username"
  const AwaitingPassword: string := "awaiting_password"
  const AwaitingNoteTitle: string := "awaiting_note_title"
  const AwaitingNoteContent: string := "awaiting_note_content"

  datatype Command =
    | Start | LoginCommand | Logout | Help | ListCommand(kind: Kind) | ShowMenu
    | View(kind: Kind, id: int) | Remove(kind: Kind, id: int)
    | Ignored

  /** The space-separated, non-empty tokens of a command line. */
  function Words(text: string): (ws: seq<string>)
    requires |text| > 0 && text[0] == '/'
    ensures |ws| > 0 && |ws[0]| > 0 && ws[0][0] == '/'
    ensures forall i :: 0 <= i < |ws| ==> |ws[i]| > 0 && ' ' !in ws[i]
  {
    SplitNonEmptyHead(text, ' ');
    SplitNonEmpty(text, ' ')
  }

  /** The id argument: the second word, when there is one and `int.TryParse` accepts it. */
  function Argument(ws: seq<string>): (arg: Option<int>)
    ensures arg.Some? <==> |ws| > 1 && Int32.TryParse(ws[1]).Some?
    ensures arg.Some? ==> arg == Int32.TryParse(ws[1]) && Int32.InRange(arg.value)
  {
    if |ws| > 1 then Int32.TryParse(ws[1]) else None
  }

  /** The `switch` of `HandleCommandAsync` on the lower-cased command name: the seven
      commands without an argument, then the four that act on an id, which need one. */
  function Interpret(name: string, arg: Option<int>): (c: Command)
    ensures (c.View? || c.Remove?) ==> arg == Some(c.id)
    ensures arg.None? ==> !c.View? && !c.Remove?
  {
    if name == "/start" then Start
    else if name == "/login" then LoginCommand
    else if name == "/logout" then Logout
    else if name == "/help" then Help
    else if name == "/notes" then ListCommand(NoteKind)
    else if name == "/reminders" then ListCommand(ReminderKind)
    else if name == "/menu" then ShowMenu
    else if arg.Some? then
      if name == "/note" then View(NoteKind, arg.value)
      else if name == "/reminder" then View(ReminderKind, arg.value)
      else if name == "/deletenote" then Remove(NoteKind, arg.value)
      else if name == "/deletereminder" then Remove(ReminderKind, arg.value)
      else Ignored
    else Ignored
  }

  /** `HandleCommandAsync`'s decision: the lower-cased first word names the command;
      the four commands with an argument need a second word that `int.TryParse`
      accepts, and anything else is ignored. */
  function ParseCommand(text: string): (c: Command)
    requires |text| > 0 && text[0] == '/'
    ensures (c.View? || c.Remove?) ==>
      |Words(text)| > 1 && Int32.TryParse(Words(text)[1]) == Some(c.id) && Int32.InRange(c.id)
  {
    var ws := Words(text);
    Interpret(ToLower(ws[0]), Argument(ws))
  }

  // ---------------------------------------------------------------------------
  // Buttons

  /** The inline buttons that carry callback data (web-app buttons carry none). */
  datatype Button =
    | MenuButton | NotesButton | RemindersButton | CreateNoteButton
    | LoginButton | LogoutButton | HelpButton | CreateReminderButton

  /** The callback data each button is created with. */
  function ButtonData(btn: Button): string {
    match btn
    case MenuButton => "menu"
    case NotesButton => "notes"
    case RemindersButton => "reminders"
    case CreateNoteButton => "create_note"
    case LoginButton => "login"
    case LogoutButton => "logout"
    case HelpButton => "help"
    case CreateReminderButton => "create_reminder"
  }

  /** The `switch` of `HandleCallbackQueryAsync`: which button the data names, if it is
      one the handler has a case for. */
  function HandledButton(data: Option<string>): Option<Button> {
    if data == Some("menu") then Some(MenuButton)
    else if data == Some("notes") then Some(NotesButton)
    else if data == Some("reminders") then Some(RemindersButton)
    else if data == Some("create_note") then Some(CreateNoteButton)
    else if data == Some("login") then Some(LoginButton)
    else if data == Some("logout") then Some(LogoutButton)
    else if data == Some("help") then Some(HelpButton)
    else None
  }

  /** Every button's data leads back to that button, except Create Reminder: the
      handler has no case for it. */
  lemma ButtonDataRoundTrip(btn: Button)
    ensures btn != CreateReminderButton ==> HandledButton(Some(ButtonData(btn))) == Some(btn)
    ensures btn == CreateReminderButton ==> HandledButton(Some(ButtonData(btn))).None?
  {
    match btn
    case CreateReminderButton =>
      assert ButtonData(btn) != "menu" && ButtonData(btn) != "notes" && ButtonData(btn) != "reminders";
      assert ButtonData(btn) != "create_note" && ButtonData(btn) != "login";
      assert ButtonData(btn) != "logout" && ButtonData(btn) != "help";
    case _ =>
  }

  // ---------------------------------------------------------------------------
  // What a step may do

  /** The guard of every note and reminder action: authenticated, with a non-empty token. */
  predicate CanCallApi(s: Session) {
    s.isAuthenticated && !IsNullOrEmpty(s.token)
  }

  /** A call that reads or changes notes or reminders. */
  predicate IsDataCall(a: Action) {
    a.Call? && (a.call.GetList? || a.call.GetItem? || a.call.DeleteItem? || a.call.CreateNote?)
  }

  function CallToken(c: ApiCall): string
    requires c.GetList? || c.GetItem? || c.DeleteItem? || c.CreateNote?
  {
    match c
    case GetList(_, token, _, _) => token
    case GetItem(_, token, _) => token
    case DeleteItem(_, token, _) => token
    case CreateNote(token, _, _) => token
  }

  /** Every note or reminder call among `acts` is made with `s`'s token, and only when
      `s` may call the API. */
  predicate Authorized(s: Session, acts: seq<Action>) {
    forall i :: 0 <= i < |acts| && IsDataCall(acts[i]) ==>
      CanCallApi(s) && CallToken(acts[i].call) == s.token.value
  }

  /** No note or reminder call among `acts`. */
  predicate NoDataCall(acts: seq<Action>) {
    forall i :: 0 <= i < |acts| ==> !IsDataCall(acts[i])
  }

  /** `m'` agrees with `m` on every chat other than `chatId`. */
  ghost predicate OthersUnchanged(m: SessionTable, m': SessionTable, chatId: int) {
    forall c :: c != chatId ==> (c in m' <==> c in m) && (c in m ==> m'[c] == m[c])
  }

  /** The inputs a conversation step reads are present: a chat waiting for the password
      has stored the username, a chat waiting for the note content has stored the title. */
  predicate Consistent(s: Session) {
    && (s.currentState == Some(AwaitingPassword) ==> "username" in s.tempData)
    && (s.currentState == Some(AwaitingNoteContent) ==> "note_title" in s.tempData)
  }

  predicate AllConsistent(m: SessionTable) {
    forall c :: c in m ==> Consistent(m[c])
  }

  /** The conversation part of a session: the step it is in and the inputs collected. */
  predicate SameConversation(a: Session, b: Session) {
    a.currentState == b.currentState && a.tempData == b.tempData
  }

  // ---------------------------------------------------------------------------
  // Handlers

  /** A successful login (Telegram or password) writes token, name and role into the
      session and touches nothing else. */
  function SignIn(m: SessionTable, chatId: int, data: LoginData): (r: SessionTable)
    requires chatId in m
    ensures chatId in r && CanCallApi(r[chatId]) == (data.token != "")
    ensures r[chatId] == m[chatId].(token := Some(data.token), isAuthenticated := true,
                                    username := Some(data.name), role := Some(data.role))
    ensures OthersUnchanged(m, r, chatId)
    ensures SameConversation(r[chatId], m[chatId])
    ensures AllConsistent(m) ==> AllConsistent(r)
  {
    var m1 := SetToken(m, chatId, data.token);
    m1[chatId := m1[chatId].(username := Some(data.name), role := Some(data.role))]
  }

  /** A backend reply that counts as success: not null, status 200, data present. */
  predicate Succeeded<T>(r: Option<ApiReply<T>>) {
    r.Some? && r.value.data.Some? && r.value.status == 200
  }

  /** The detail shown after a failed call: the reply's message, or the fallback when
      the reply or its message is null. */
  function Detail<T>(r: Option<ApiReply<T>>, fallback: string): (d: string)
    ensures r.Some? && r.value.message.Some? ==> d == r.value.message.value
    ensures r.None? || r.value.message.None? ==> d == fallback
  {
    if r.Some? && r.value.message.Some? then r.value.message.value else fallback
  }

  /** `/start`: try the Telegram login; on success sign in, else show the welcome. */
  function HandleStart(m: SessionTable, chatId: int, b: Backend): (r: (SessionTable, seq<Action>))
    requires chatId in m
    ensures |r.1| == 3 && r.1[..2] == [Send(CheckingAccount), Call(LoginByTelegram(chatId))]
    ensures Succeeded(b.telegramLogin) <==> r.1[2].Send? && r.1[2].reply.WelcomeBack?
    ensures Succeeded(b.telegramLogin) ==>
      var d := b.telegramLogin.value.data.value;
      r.0 == SignIn(m, chatId, d) && r.1[2] == Send(WelcomeBack(d.name, d.role))
    ensures !Succeeded(b.telegramLogin) ==> r.0 == m && r.1[2] == Send(Welcome)
    ensures chatId in r.0 && SameConversation(r.0[chatId], m[chatId]) && OthersUnchanged(m, r.0, chatId)
    ensures AllConsistent(m) ==> AllConsistent(r.0)
    ensures NoDataCall(r.1) && Send(ErrorOccurred) !in r.1
  {
    var calls := [Send(CheckingAccount), Call(LoginByTelegram(chatId))];
    if Succeeded(b.telegramLogin) then
      var d := b.telegramLogin.value.data.value;
      (SignIn(m, chatId, d), calls + [Send(WelcomeBack(d.name, d.role))])
    else (m, calls + [Send(Welcome)])
  }

  /** `/login`: try the Telegram login; on failure ask for the username. */
  function HandleLoginCommand(m: SessionTable, chatId: int, b: Backend): (r: (SessionTable, seq<Action>))
    requires chatId in m
    ensures |r.1| == 3 && r.1[..2] == [Send(TryingAutoLogin), Call(LoginByTelegram(chatId))]
    ensures chatId in r.0 && OthersUnchanged(m, r.0, chatId)
    ensures Succeeded(b.telegramLogin) ==> SameConversation(r.0[chatId], m[chatId])
    ensures Succeeded(b.telegramLogin) ==>
      var d := b.telegramLogin.value.data.value;
      r.0 == SignIn(m, chatId, d) && r.1[2] == Send(AutoLoggedIn(d.name))
    ensures !Succeeded(b.telegramLogin) ==>
      r.0[chatId] == m[chatId].(currentState := Some(AwaitingUsername)) && r.1[2] == Send(AskUsername)
    ensures AllConsistent(m) ==> AllConsistent(r.0)
    ensures NoDataCall(r.1) && Send(ErrorOccurred) !in r.1
  {
    var calls := [Send(TryingAutoLogin), Call(LoginByTelegram(chatId))];
    if Succeeded(b.telegramLogin) then
      var d := b.telegramLogin.value.data.value;
      (SignIn(m, chatId, d), calls + [Send(AutoLoggedIn(d.name))])
    else (m[chatId := m[chatId].(currentState := Some(AwaitingUsername))], calls + [Send(AskUsername)])
  }

  /** `/notes` and `/reminders`: the first page of ten. */
  function HandleList(s: Session, kind: Kind, b: Backend): (acts: seq<Action>)
    ensures !CanCallApi(s) <==> acts == [Send(PleaseLogin)]
    ensures CanCallApi(s) ==> |acts| == 2 && acts[0] == Call(GetList(kind, s.token.value, 1, 10))
    ensures CanCallApi(s) && !Succeeded(b.list) ==> acts[1] == Send(ListFailed(kind, Detail(b.list, "Unknown error")))
    ensures CanCallApi(s) && Succeeded(b.list) ==>
      (acts[1] == Send(NothingYet(kind)) <==> |b.list.value.data.value| == 0)
    ensures CanCallApi(s) && Succeeded(b.list) && |b.list.value.data.value| > 0 ==>
      acts[1] == Send(Listed(kind, b.list.value.data.value))
    ensures Authorized(s, acts) && Send(ErrorOccurred) !in acts
  {
    if !CanCallApi(s) then [Send(PleaseLogin)]
    else
      var call := Call(GetList(kind, s.token.value, 1, 10));
      if !Succeeded(b.list) then [call, Send(ListFailed(kind, Detail(b.list, "Unknown error")))]
      else if |b.list.value.data.value| == 0 then [call, Send(NothingYet(kind))]
      else [call, Send(Listed(kind, b.list.value.data.value))]
  }

  /** `/note <id>` and `/reminder <id>`. */
  function HandleView(s: Session, kind: Kind, id: int, b: Backend): (acts: seq<Action>)
    ensures !CanCallApi(s) <==> acts == [Send(PleaseLogin)]
    ensures CanCallApi(s) ==> |acts| == 2 && acts[0] == Call(GetItem(kind, s.token.value, id))
    ensures CanCallApi(s) && Succeeded(b.item) ==> acts[1] == Send(Shown(kind, b.item.value.data.value))
    ensures CanCallApi(s) && !Succeeded(b.item) && kind == NoteKind ==>
      acts[1] == Send(ItemFailed(kind, Detail(b.item, "Note not found")))
    ensures CanCallApi(s) && !Succeeded(b.item) && kind != NoteKind ==>
      acts[1] == Send(ItemFailed(kind, Detail(b.item, "Reminder not found")))
    ensures Authorized(s, acts) && Send(ErrorOccurred) !in acts
  {
    if !CanCallApi(s) then [Send(PleaseLogin)]
    else
      var call := Call(GetItem(kind, s.token.value, id));
      var fallback := if kind == NoteKind then "Note not found" else "Reminder not found";
      if !Succeeded(b.item) then [call, Send(ItemFailed(kind, Detail(b.item, fallback)))]
      else [call, Send(Shown(kind, b.item.value.data.value))]
  }

  /** `/deletenote <id>` and `/deletereminder <id>`. */
  function HandleDelete(s: Session, kind: Kind, id: int, b: Backend): (acts: seq<Action>)
    ensures !CanCallApi(s) <==> acts == [Send(PleaseLogin)]
    ensures CanCallApi(s) ==> |acts| == 2 && acts[0] == Call(DeleteItem(kind, s.token.value, id))
    ensures CanCallApi(s) ==> (acts[1] == Send(Deleted(kind)) <==> b.deleted)
    ensures CanCallApi(s) && !b.deleted ==> acts[1] == Send(DeleteFailed(kind))
    ensures Authorized(s, acts) && Send(ErrorOccurred) !in acts
  {
    if !CanCallApi(s) then [Send(PleaseLogin)]
    else [Call(DeleteItem(kind, s.token.value, id)), Send(if b.deleted then Deleted(kind) else DeleteFailed(kind))]
  }

  /** The reason shown for a refused login: by status code first, then the reply's
      message, then a fixed text. */
  function LoginErrorMessage(r: ApiReply<LoginData>): (msg: string)
    ensures r.status == 404 ==> msg == "User not found"
    ensures r.status == 401 ==> msg == "Invalid password"
    ensures r.status == 500 ==> msg == "Server error. Check backend logs."
    ensures r.status !in {401, 404, 500} ==> msg == (if r.message.Some? then r.message.value else "Invalid credentials")
  {
    if r.status == 404 then "User not found"
    else if r.status == 401 then "Invalid password"
    else if r.status == 500 then "Server error. Check backend logs."
    else if r.message.Some? then r.message.value
    else "Invalid credentials"
  }

  /** Password login after the conversation has collected both inputs; a success also
      links the Telegram chat to the account. */
  function HandleLogin(m: SessionTable, chatId: int, username: string, password: string, b: Backend)
    : (r: (SessionTable, seq<Action>))
    requires chatId in m
    ensures |r.1| >= 3 && r.1[..2] == [Send(LoggingIn), Call(Login(username, password))]
    ensures Succeeded(b.login) <==> r.1[2].Call?
    ensures Succeeded(b.login) ==> r.1[2] == Call(LinkTelegram(b.login.value.data.value.name, chatId))
    ensures b.login.None? ==> r == (m, r.1[..2] + [Send(CannotConnect)])
    ensures b.login.Some? && !Succeeded(b.login) ==>
      r == (m, r.1[..2] + [Send(LoginFailed(LoginErrorMessage(b.login.value)))])
    ensures Succeeded(b.login) ==>
      var d := b.login.value.data.value;
      r.0 == SignIn(m, chatId, d) && |r.1| == 4 && r.1[3] == Send(LoggedIn(d.name, d.role, b.linked))
    ensures chatId in r.0 && SameConversation(r.0[chatId], m[chatId]) && OthersUnchanged(m, r.0, chatId)
    ensures AllConsistent(m) ==> AllConsistent(r.0)
    ensures NoDataCall(r.1) && Send(ErrorOccurred) !in r.1
  {
    var calls := [Send(LoggingIn), Call(Login(username, password))];
    if b.login.None? then (m, calls + [Send(CannotConnect)])
    else if !Succeeded(b.login) then (m, calls + [Send(LoginFailed(LoginErrorMessage(b.login.value)))])
    else
      var d := b.login.value.data.value;
      (SignIn(m, chatId, d), calls + [Call(LinkTelegram(d.name, chatId)), Send(LoggedIn(d.name, d.role, b.linked))])
  }

  /** Note creation after the conversation has collected title and content. */
  function HandleCreateNote(s: Session, title: string, content: string, b: Backend): (acts: seq<Action>)
    ensures !CanCallApi(s) <==> acts == [Send(PleaseLogin)]
    ensures CanCallApi(s) ==> |acts| == 3 && acts[..2] == [Send(CreatingNote), Call(CreateNote(s.token.value, title, content))]
    ensures CanCallApi(s) && Succeeded(b.item) ==> acts[2] == Send(NoteCreated(b.item.value.data.value))
    ensures CanCallApi(s) && !Succeeded(b.item) ==> acts[2] == Send(CreateFailed(Detail(b.item, "Unknown error")))
    ensures Authorized(s, acts) && Send(ErrorOccurred) !in acts
  {
    if !CanCallApi(s) then [Send(PleaseLogin)]
    else
      var calls := [Send(CreatingNote), Call(CreateNote(s.token.value, title, content))];
      if !Succeeded(b.item) then calls + [Send(CreateFailed(Detail(b.item, "Unknown error")))]
      else calls + [Send(NoteCreated(b.item.value.data.value))]
  }

  /** `HandleCommandAsync`. Every command other than `/logout` and `/login` leaves the
      conversation step as it was. */
  function HandleCommand(m: SessionTable, chatId: int, text: string, b: Backend): (r: (SessionTable, seq<Action>))
    requires chatId in m
    requires |text| > 0 && text[0] == '/'
    ensures OthersUnchanged(m, r.0, chatId)
    ensures ParseCommand(text).Logout? <==> chatId !in r.0
    ensures !ParseCommand(text).Logout? && !ParseCommand(text).LoginCommand? ==>
      SameConversation(r.0[chatId], m[chatId])
    ensures Authorized(m[chatId], r.1)
    ensures AllConsistent(m) ==> AllConsistent(r.0)
    ensures Send(ErrorOccurred) !in r.1
  {
    Execute(m, chatId, ParseCommand(text), b)
  }

  /** The branch of `HandleCommandAsync` for one command. */
  function Execute(m: SessionTable, chatId: int, c: Command, b: Backend): (r: (SessionTable, seq<Action>))
    requires chatId in m
    ensures OthersUnchanged(m, r.0, chatId)
    ensures c.Logout? <==> chatId !in r.0
    ensures !c.Logout? && !c.LoginCommand? ==> SameConversation(r.0[chatId], m[chatId])
    ensures Authorized(m[chatId], r.1)
    ensures AllConsistent(m) ==> AllConsistent(r.0)
    ensures Send(ErrorOccurred) !in r.1
  {
    var s := m[chatId];
    match c
    case Start => HandleStart(m, chatId, b)
    case LoginCommand => HandleLoginCommand(m, chatId, b)
    case Logout => (Clear(m, chatId), [Send(LoggedOut)])
    case Help => (m, [Send(HelpText)])
    case ListCommand(kind) => (m, HandleList(s, kind, b))
    case ShowMenu => (m, [Send(Menu(s.isAuthenticated, s.username))])
    case View(kind, id) => (m, HandleView(s, kind, id, b))
    case Remove(kind, id) => (m, HandleDelete(s, kind, id, b))
    case Ignored => (m, [])
  }

  /** `HandleStateInputAsync`: the conversation steps. Reading a `tempData` entry that
      is missing throws; the message handler then reports a generic error. */
  function HandleStateInput(m: SessionTable, chatId: int, text: string, b: Backend): (r: (SessionTable, seq<Action>))
    requires chatId in m
    ensures chatId in r.0 && OthersUnchanged(m, r.0, chatId)
    ensures Authorized(m[chatId], r.1)
    ensures Consistent(m[chatId]) ==> Send(ErrorOccurred) !in r.1
    ensures AllConsistent(m) ==> AllConsistent(r.0)
  {
    var s := m[chatId];
    var state := s.currentState;
    if state == Some(AwaitingUsername) then
      (m[chatId := s.(tempData := s.tempData["username" := text], currentState := Some(AwaitingPassword))],
       [Send(AskPassword)])
    else if state == Some(AwaitingPassword) then
      if "username" !in s.tempData then (m, [Send(ErrorOccurred)])
      else
        var username := s.tempData["username"];
        HandleLogin(m[chatId := s.(currentState := None, tempData := map[])], chatId, username, text, b)
    else if state == Some(AwaitingNoteTitle) then
      (m[chatId := s.(tempData := s.tempData["note_title" := text], currentState := Some(AwaitingNoteContent))],
       [Send(AskNoteContent)])
    else if state == Some(AwaitingNoteContent) then
      if "note_title" !in s.tempData then (m, [Send(ErrorOccurred)])
      else
        var title := s.tempData["note_title"];
        var s' := s.(currentState := None, tempData := map[]);
        (m[chatId := s'], HandleCreateNote(s', title, text, b))
    else (m, [])
  }

  /** The button part of `HandleCallbackQueryAsync`, for a session that exists. */
  function PressButton(m: SessionTable, chatId: int, btn: Option<Button>, b: Backend): (r: (SessionTable, seq<Action>))
    requires chatId in m
    ensures OthersUnchanged(m, r.0, chatId)
    ensures Authorized(m[chatId], r.1)
    ensures AllConsistent(m) ==> AllConsistent(r.0)
    ensures Send(ErrorOccurred) !in r.1
  {
    var s := m[chatId];
    match btn
    case Some(MenuButton) => (m, [Send(Menu(s.isAuthenticated, s.username))])
    case Some(NotesButton) => (m, HandleList(s, NoteKind, b))
    case Some(RemindersButton) => (m, HandleList(s, ReminderKind, b))
    case Some(CreateNoteButton) =>
      if !s.isAuthenticated then (m, [Send(PleaseLogin)])
      else (m[chatId := s.(currentState := Some(AwaitingNoteTitle))], [Send(AskNoteTitle)])
    case Some(LoginButton) => HandleLoginCommand(m, chatId, b)
    case Some(LogoutButton) => (Clear(m, chatId), [Send(LoggedOut)])
    case Some(HelpButton) => (m, [Send(HelpText)])
    case _ => (m, [])
  }

  /** `HandleCallbackQueryAsync`: answer the button press, then act on its data. */
  function HandleButton(m: SessionTable, chatId: int, data: Option<string>, b: Backend): (r: (SessionTable, seq<Action>))
    ensures |r.1| > 0 && r.1[0] == AnswerCallback
    ensures OthersUnchanged(m, r.0, chatId)
    ensures Authorized(GetOrCreate(m, chatId).1, r.1)
    ensures AllConsistent(m) ==> AllConsistent(r.0)
    ensures Send(ErrorOccurred) !in r.1
  {
    var m1 := GetOrCreate(m, chatId).0;
    var r := PressButton(m1, chatId, HandledButton(data), b);
    (r.0, [AnswerCallback] + r.1)
  }

  /** `HandleMessageAsync` after the session lookup and the trim: a command, else the
      input of the conversation step under way, else a request for a command. */
  function Dispatch(m: SessionTable, chatId: int, text: string, b: Backend): (r: (SessionTable, seq<Action>))
    requires chatId in m
    ensures OthersUnchanged(m, r.0, chatId)
    ensures Authorized(m[chatId], r.1)
    ensures AllConsistent(m) ==> AllConsistent(r.0) && Send(ErrorOccurred) !in r.1
  {
    if StartsWith(text, "/") then
      assert text[0] == text[..1][0];
      HandleCommand(m, chatId, text, b)
    else if !IsNullOrEmpty(m[chatId].currentState) then HandleStateInput(m, chatId, text, b)
    else (m, [Send(UseACommand)])
  }

  /** `HandleMessageAsync` for a message with text. */
  function HandleText(m: SessionTable, chatId: int, raw: string, b: Backend): (r: (SessionTable, seq<Action>))
    ensures OthersUnchanged(m, r.0, chatId)
    ensures Authorized(GetOrCreate(m, chatId).1, r.1)
    ensures AllConsistent(m) ==> AllConsistent(r.0) && Send(ErrorOccurred) !in r.1
  {
    var m1 := GetOrCreate(m, chatId).0;
    assert AllConsistent(m) ==> AllConsistent(m1);
    Dispatch(m1, chatId, Trim(raw), b)
  }

  /** A step whose actions are authorized for the chat's session makes a note or reminder
      call only when that session was already stored: a new session cannot call the API. */
  lemma AuthorizedNeedsStoredSession(m: SessionTable, chatId: int, acts: seq<Action>, i: int)
    requires Authorized(GetOrCreate(m, chatId).1, acts)
    requires 0 <= i < |acts| && IsDataCall(acts[i])
    ensures chatId in m && Authorized(m[chatId], acts)
  {
    if chatId !in m {
      assert false;
    }
  }

  /** One update. A step changes at most its own chat's session; a message with a null
      text and a button press without a chat change and do nothing; every note or
      reminder call is made for a stored, signed-in session with that session's token;
      and when every session is consistent, every session stays so and the generic error
      reply is never sent. */
  function Step(m: SessionTable, u: Update, b: Backend): (r: (SessionTable, seq<Action>))
    ensures forall c :: Some(c) != ChatOf(u) ==> (c in r.0 <==> c in m) && (c in m ==> r.0[c] == m[c])
    ensures (u.TextMessage? && u.text.None?) || (u.ButtonPress? && u.chat.None?) ==> r == (m, [])
    ensures forall i :: 0 <= i < |r.1| && IsDataCall(r.1[i]) ==>
      ChatOf(u).Some? && ChatOf(u).value in m && Authorized(m[ChatOf(u).value], r.1)
    ensures AllConsistent(m) ==> AllConsistent(r.0) && Send(ErrorOccurred) !in r.1
  {
    match u
    case TextMessage(_, None) => (m, [])
    case TextMessage(chatId, Some(raw)) => HandleText(m, chatId, raw, b)
    case ButtonPress(None, _) => (m, [])
    case ButtonPress(Some(chatId), data) => HandleButton(m, chatId, data, b)
  }

  /** The chat an update concerns, when it has one. */
  function ChatOf(u: Update): Option<int> {
    match u
    case TextMessage(chatId, _) => Some(chatId)
    case ButtonPress(chat, _) => chat
  }

  // ---------------------------------------------------------------------------
  // Properties

  /** Starting from consistent sessions (an empty table among them), the bot never
      sends the generic error reply: every update keeps every session consistent. */
  lemma {:induction false} NoErrorFromStart(us: seq<Update>, bs: seq<Backend>, m: SessionTable)
    requires |bs| == |us| && AllConsistent(m)
    ensures AllConsistent(Run(m, us, bs).0)
    ensures Send(ErrorOccurred) !in Run(m, us, bs).1
    decreases |us|
  {
    if |us| > 0 {
      var (m1, acts) := Step(m, us[0], bs[0]);
      NoErrorFromStart(us[1..], bs[1..], m1);
    }
  }

  /** A sequence of updates, each with the backend's answers during its step: the final
      session table and all actions, in order. */
  function Run(m: SessionTable, us: seq<Update>, bs: seq<Backend>): (SessionTable, seq<Action>)
    requires |bs| == |us|
    decreases |us|
  {
    if |us| == 0 then (m, [])
    else
      var (m1, acts) := Step(m, us[0], bs[0]);
      var (m2, rest) := Run(m1, us[1..], bs[1..]);
      (m2, acts + rest)
  }

  /** A session that claims to wait for the password without a stored username (which
      no step produces) gets the generic error reply and is left as it was. */
  lemma MissingInputReportsError(m: SessionTable, chatId: int, text: string, b: Backend)
    requires chatId in m && m[chatId].currentState == Some(AwaitingPassword)
    requires "username" !in m[chatId].tempData
    requires !StartsWith(Trim(text), "/")
    ensures Step(m, TextMessage(chatId, Some(text)), b) == (m, [Send(ErrorOccurred)])
  {
  }

  /** A text that starts with `/` after trimming is a command in every conversation step.
      `/logout` drops the session; every command other than `/logout` and `/login` leaves
      the step and the collected inputs as they were. */
  lemma CommandsPreemptConversation(m: SessionTable, chatId: int, raw: string, b: Backend)
    requires StartsWith(Trim(raw), "/")
    ensures var s := GetOrCreate(m, chatId).1;
      var r := Step(m, TextMessage(chatId, Some(raw)), b);
      var c := ParseCommand(Trim(raw));
      && (c.Logout? <==> chatId !in r.0)
      && (!c.Logout? && !c.LoginCommand? ==> SameConversation(r.0[chatId], s))
  {
    var text := Trim(raw);
    assert text[0] == text[..1][0];
    var m1 := GetOrCreate(m, chatId).0;
    StepText(m, chatId, raw, b);
    DispatchCommand(m1, chatId, text, b);
  }

  /** A text that is not a command goes to the conversation step the chat is in; with no
      step under way the bot asks for a command. */
  lemma PlainTextFollowsConversation(m: SessionTable, chatId: int, raw: string, b: Backend)
    requires !StartsWith(Trim(raw), "/")
    ensures var m1 := GetOrCreate(m, chatId).0;
      var r := Step(m, TextMessage(chatId, Some(raw)), b);
      && (IsNullOrEmpty(m1[chatId].currentState) ==> r == (m1, [Send(UseACommand)]))
      && (!IsNullOrEmpty(m1[chatId].currentState) ==> r == HandleStateInput(m1, chatId, Trim(raw), b))
  {
    StepText(m, chatId, raw, b);
  }

  /** The conversation steps: a username or a note title is stored and the next prompt
      sent; a password ends the conversation and signs in with the stored username; a
      note's content ends it and creates the note when the session may call the API; a
      step the handler does not know does nothing. */
  lemma ConversationSteps(m: SessionTable, chatId: int, text: string, b: Backend)
    requires chatId in m
    ensures var s := m[chatId];
      var r := HandleStateInput(m, chatId, text, b);
      && (s.currentState == Some(AwaitingUsername) ==>
            && r.1 == [Send(AskPassword)] && chatId in r.0
            && r.0[chatId].currentState == Some(AwaitingPassword)
            && r.0[chatId].tempData == s.tempData["username" := text])
      && (s.currentState == Some(AwaitingPassword) && "username" in s.tempData ==>
            && r.1[..2] == [Send(LoggingIn), Call(Login(s.tempData["username"], text))]
            && chatId in r.0 && r.0[chatId].currentState.None? && r.0[chatId].tempData == map[])
      && (s.currentState == Some(AwaitingNoteTitle) ==>
            && r.1 == [Send(AskNoteContent)] && chatId in r.0
            && r.0[chatId].currentState == Some(AwaitingNoteContent)
            && r.0[chatId].tempData == s.tempData["note_title" := text])
      && (s.currentState == Some(AwaitingNoteContent) && "note_title" in s.tempData ==>
            && chatId in r.0 && r.0[chatId].currentState.None? && r.0[chatId].tempData == map[]
            && (CanCallApi(s) ==> r.1[..2] == [Send(CreatingNote), Call(CreateNote(s.token.value, s.tempData["note_title"], text))])
            && (!CanCallApi(s) ==> r.1 == [Send(PleaseLogin)]))
      && (s.currentState.Some?
          && s.currentState.value !in {AwaitingUsername, AwaitingPassword, AwaitingNoteTitle, AwaitingNoteContent}
          ==> r == (m, []))
  {
  }

  /** The create-note button checks only that the session is authenticated (not the
      token), then asks for the title. */
  lemma CreateNoteButtonStartsConversation(m: SessionTable, chatId: int, b: Backend)
    ensures var (m1, s) := GetOrCreate(m, chatId);
      var r := Step(m, ButtonPress(Some(chatId), Some("create_note")), b);
      && (s.isAuthenticated ==>
            r == (m1[chatId := s.(currentState := Some(AwaitingNoteTitle))], [AnswerCallback, Send(AskNoteTitle)]))
      && (!s.isAuthenticated ==> r == (m1, [AnswerCallback, Send(PleaseLogin)]))
  {
    ButtonDataRoundTrip(CreateNoteButton);
    assert HandledButton(Some("create_note")) == Some(CreateNoteButton);
    var m1 := GetOrCreate(m, chatId).0;
    var s := GetOrCreate(m, chatId).1;
    var r := PressButton(m1, chatId, Some(CreateNoteButton), b);
    assert Step(m, ButtonPress(Some(chatId), Some("create_note")), b) == (r.0, [AnswerCallback] + r.1);
    assert [AnswerCallback] + [Send(AskNoteTitle)] == [AnswerCallback, Send(AskNoteTitle)];
    assert [AnswerCallback] + [Send(PleaseLogin)] == [AnswerCallback, Send(PleaseLogin)];
  }

  /** The reminders menu's Create Reminder button has no case in the handler: pressing
      it only answers the press (and creates the session if there was none). */
  lemma CreateReminderButtonIgnored(m: SessionTable, chatId: int, b: Backend)
    ensures Step(m, ButtonPress(Some(chatId), Some(ButtonData(CreateReminderButton))), b)
      == (GetOrCreate(m, chatId).0, [AnswerCallback])
  {
    ButtonDataRoundTrip(CreateReminderButton);
    var m1 := GetOrCreate(m, chatId).0;
    assert PressButton(m1, chatId, None, b) == (m1, []);
    assert HandleButton(m, chatId, Some(ButtonData(CreateReminderButton)), b) == (m1, [AnswerCallback] + []);
    assert [AnswerCallback] + [] == [AnswerCallback];
  }

  // ---------------------------------------------------------------------------
  // Command texts

  /** The lower-case name of each command, as the help text lists it. */
  function CommandName(c: Command): (name: string)
    requires !c.Ignored?
    ensures |name| > 0 && name[0] == '/' && ' ' !in name && ToLower(name) == name
  {
    var name := match c
      case Start => "/start"
      case LoginCommand => "/login"
      case Logout => "/logout"
      case Help => "/help"
      case ListCommand(k) => if k == NoteKind then "/notes" else "/reminders"
      case ShowMenu => "/menu"
      case View(k, _) => if k == NoteKind then "/note" else "/reminder"
      case Remove(k, _) => if k == NoteKind then "/deletenote" else "/deletereminder";
    assert IsSpelling(name);
    SpellingFacts(name);
    name
  }

  /** A slash followed by lower-case letters. */
  predicate IsSpelling(s: string) {
    |s| > 0 && s[0] == '/' && forall i :: 1 <= i < |s| ==> 'a' <= s[i] <= 'z'
  }

  lemma SpellingFacts(s: string)
    requires IsSpelling(s)
    ensures ' ' !in s && ToLower(s) == s
  {
    assert forall i :: 0 <= i < |s| ==> LowerChar(s[i]) == s[i];
  }

  /** The text of a command as a user types it: the name, then the id for the four
      commands that take one (the form the bot suggests under its listings). */
  function CommandText(c: Command): (t: string)
    requires !c.Ignored?
    ensures |t| > 0 && t[0] == '/'
  {
    if c.View? || c.Remove? then CommandName(c) + " " + Int32.ToDecimal(c.id)
    else CommandName(c)
  }

  /** The decimal text of a number has no space, and ends in a digit. */
  lemma DecimalShape(n: int)
    ensures var d := Int32.ToDecimal(n);
      ' ' !in d && Int32.IsDigit(d[|d| - 1])
  {
    var d := Int32.ToDecimal(n);
    forall i | 0 <= i < |d| ensures d[i] != ' ' {
      if n < 0 && i > 0 {
        assert d[1..][i - 1] == d[i];
      }
    }
    if n < 0 {
      assert |d| > 1 by {
        assert d == "-" + Int32.Digits(-n);
      }
      assert d[1..][|d| - 2] == d[|d| - 1];
    }
  }

  /** The words of a command text: the name alone, or the name and the id. */
  lemma CommandTextWords(c: Command)
    requires !c.Ignored?
    ensures !(c.View? || c.Remove?) ==> Words(CommandText(c)) == [CommandName(c)]
    ensures c.View? || c.Remove? ==> Words(CommandText(c)) == [CommandName(c), Int32.ToDecimal(c.id)]
  {
    var name := CommandName(c);
    if c.View? || c.Remove? {
      var d := Int32.ToDecimal(c.id);
      DecimalShape(c.id);
      assert CommandText(c) == name + [' '] + d;
      SplitNonEmptyPair(name, d, ' ');
    } else {
      SplitNonEmptySingle(name, ' ');
    }
  }

  /** Each command's name is interpreted as that command, given the id it needs. */
  lemma InterpretName(c: Command, arg: Option<int>)
    requires !c.Ignored?
    requires c.View? || c.Remove? ==> arg == Some(c.id)
    ensures Interpret(CommandName(c), arg) == c
  {
    match c
    case View(k, _) => assert CommandName(c) == if k == NoteKind then "/note" else "/reminder";
    case Remove(k, _) => assert CommandName(c) == if k == NoteKind then "/deletenote" else "/deletereminder";
    case _ =>
  }

  /** Every command's text parses back to that command (with an id that fits in 32 bits). */
  lemma CommandTextRoundTrip(c: Command)
    requires !c.Ignored?
    requires c.View? || c.Remove? ==> Int32.InRange(c.id)
    ensures ParseCommand(CommandText(c)) == c
  {
    CommandTextWords(c);
    var ws := Words(CommandText(c));
    if c.View? || c.Remove? {
      Int32.ToDecimalRoundTrip(c.id);
      assert Argument(ws) == Some(c.id);
    }
    InterpretName(c, Argument(ws));
  }

  /** A command text neither starts nor ends with white space. */
  lemma CommandTextUntrimmed(c: Command)
    requires !c.Ignored?
    ensures Trim(CommandText(c)) == CommandText(c)
  {
    var t := CommandText(c);
    if c.View? || c.Remove? {
      DecimalShape(c.id);
      var d := Int32.ToDecimal(c.id);
      assert t[|t| - 1] == d[|d| - 1];
    } else {
      var name := CommandName(c);
      assert 'a' <= name[|name| - 1] <= 'z';
    }
    TrimUnchanged(t);
  }

  /** A message whose text is already trimmed and starts with `/` runs the command
      handler on the chat's session, whatever conversation step the chat is in. */
  lemma TrimmedCommandRuns(m: SessionTable, chatId: int, t: string, b: Backend)
    requires Trim(t) == t && |t| > 0 && t[0] == '/'
    ensures Step(m, TextMessage(chatId, Some(t)), b) == HandleCommand(GetOrCreate(m, chatId).0, chatId, t, b)
  {
    var m1 := GetOrCreate(m, chatId).0;
    StepText(m, chatId, t, b);
    DispatchCommand(m1, chatId, t, b);
  }

  /** A message with text is dispatched, trimmed, on the chat's session. */
  lemma StepText(m: SessionTable, chatId: int, raw: string, b: Backend)
    ensures Step(m, TextMessage(chatId, Some(raw)), b)
      == Dispatch(GetOrCreate(m, chatId).0, chatId, Trim(raw), b)
  {
    assert Step(m, TextMessage(chatId, Some(raw)), b) == HandleText(m, chatId, raw, b);
  }

  /** Text starting with `/` goes to the command handler. */
  lemma DispatchCommand(m: SessionTable, chatId: int, t: string, b: Backend)
    requires chatId in m && |t| > 0 && t[0] == '/'
    ensures Dispatch(m, chatId, t, b) == HandleCommand(m, chatId, t, b)
  {
    assert StartsWith(t, "/") by { assert t[..1] == "/"; }
  }

  /** A message carrying a command's text runs that command. */
  lemma CommandTextRuns(m: SessionTable, chatId: int, c: Command, b: Backend)
    requires !c.Ignored?
    ensures Step(m, TextMessage(chatId, Some(CommandText(c))), b)
      == HandleCommand(GetOrCreate(m, chatId).0, chatId, CommandText(c), b)
  {
    CommandTextUntrimmed(c);
    TrimmedCommandRuns(m, chatId, CommandText(c), b);
  }

  /** The id commands the bot suggests under its listings view or delete the entry with
      that id, through the chat's session, and change no session. */
  lemma IdCommandActs(m: SessionTable, chatId: int, c: Command, b: Backend)
    requires chatId in m
    requires (c.View? || c.Remove?) && Int32.InRange(c.id)
    ensures c.View? ==> HandleCommand(m, chatId, CommandText(c), b) == (m, HandleView(m[chatId], c.kind, c.id, b))
    ensures c.Remove? ==> HandleCommand(m, chatId, CommandText(c), b) == (m, HandleDelete(m[chatId], c.kind, c.id, b))
  {
    CommandTextRoundTrip(c);
  }

  /** After a successful password login, `/notes` from the same chat lists the first
      page of notes with the token the backend returned. */
  lemma LoginThenNotes(m: SessionTable, chatId: int, username: string, password: string,
                       b: Backend, b': Backend)
    requires chatId in m && Succeeded(b.login) && b.login.value.data.value.token != ""
    ensures var m' := HandleLogin(m, chatId, username, password, b).0;
      var r := Step(m', TextMessage(chatId, Some("/notes")), b');
      && r.0 == m'
      && |r.1| == 2
      && r.1[0] == Call(GetList(NoteKind, b.login.value.data.value.token, 1, 10))
  {
    var d := b.login.value.data.value;
    var m' := HandleLogin(m, chatId, username, password, b).0;
    assert m' == SignIn(m, chatId, d);
    NotesCommandLists(m', chatId, b');
    var acts := HandleList(m'[chatId], NoteKind, b');
    assert CanCallApi(m'[chatId]) && m'[chatId].token == Some(d.token);
    assert acts[0] == Call(GetList(NoteKind, d.token, 1, 10));
  }

  /** `/notes` from a chat with a session runs the note listing on that session. */
  lemma NotesCommandLists(m: SessionTable, chatId: int, b: Backend)
    requires chatId in m
    ensures Step(m, TextMessage(chatId, Some("/notes")), b) == (m, HandleList(m[chatId], NoteKind, b))
  {
    var c := ListCommand(NoteKind);
    assert CommandText(c) == "/notes";
    CommandTextRuns(m, chatId, c, b);
    assert GetOrCreate(m, chatId).0 == m;
    CommandTextRoundTrip(c);
  }

  /** Command names are matched without regard to case, and an id command whose second
      word is missing or not an `int` is ignored. */
  lemma CommandNamesIgnoreCase(t1: string, t2: string)
    requires |t1| > 0 && t1[0] == '/' && |t2| > 0 && t2[0] == '/'
    requires ToLower(Words(t1)[0]) == ToLower(Words(t2)[0]) && Words(t1)[1..] == Words(t2)[1..]
    ensures ParseCommand(t1) == ParseCommand(t2)
  {
    var w1 := Words(t1);
    var w2 := Words(t2);
    assert |w1| == |w2|;
    if |w1| > 1 {
      assert w1[1] == w1[1..][0] == w2[1..][0] == w2[1];
    }
    assert Argument(w1) == Argument(w2);
  }

  /** An id command without a usable id does nothing at all. */
  lemma IdCommandWithoutIdIgnored(text: string)
    requires |text| > 0 && text[0] == '/'
    requires ToLower(Words(text)[0]) in {"/note", "/reminder", "/deletenote", "/deletereminder"}
    requires Argument(Words(text)).None?
    ensures ParseCommand(text) == Ignored
  {
    InterpretWithoutArgument(ToLower(Words(text)[0]));
  }

  /** The four id command names, with no argument, are ignored. */
  lemma InterpretWithoutArgument(name: string)
    requires name in {"/note", "/reminder", "/deletenote", "/deletereminder"}
    ensures Interpret(name, None) == Ignored
  {
  }
}
