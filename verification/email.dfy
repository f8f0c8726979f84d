/** The reminder mailer's selection and message composition: every minute, each
    reminder due within one minute either side of now becomes one e-mail to its owner.
    Connecting to and talking with the SMTP server is not part of this model. */
module EmailRepository {
  import opened Text
  import opened Entities
  import opened Store
  import Tokens

  datatype Mail = Mail(from: string, to: string, subject: string, body: string)

  /** The mails built before the loop ended, and whether it ended by an exception. */
  datatype Outcome = Outcome(mails: seq<Mail>, aborted: bool)

  /** The due window: one minute before `now` to one minute after, both ends included. */
  predicate Due(now: int, time: int) {
    now - Tokens.TicksPerMinute <= time <= now + Tokens.TicksPerMinute
  }

  /** A reminder row that the query returns: due, and joined to its owner. */
  predicate Selected(users: Table<UserRow>, now: int, r: ReminderRow) {
    Due(now, r.reminderTime) && r.userId in users.rows
  }

  /** The query's `Where` clause as a predicate on reminder rows. */
  function Selects(users: Table<UserRow>, now: int): ReminderRow -> bool {
    r => Selected(users, now, r)
  }

  /** The ids of the selected reminders, in listing order. */
  function DueIds(reminders: Table<ReminderRow>, users: Table<UserRow>, now: int): (ids: seq<int>)
    ensures forall id :: id in ids <==> id in reminders.rows && Selected(users, now, reminders.rows[id])
    ensures forall k :: 0 <= k < |ids| ==> ids[k] in reminders.rows && Selected(users, now, reminders.rows[ids[k]])
    ensures |ids| == |Matching(reminders, Selects(users, now))|
  {
    MatchingIds(reminders, Selects(users, now))
  }

  const BodyPrefix: string := "It is time to: "

  /** The message for one reminder: subject "Reminder" and the reminder's text after a
      fixed prefix (a null body prints as nothing). */
  function Compose(from: string, to: string, r: ReminderRow): Mail {
    Mail(from, to, "Reminder", BodyPrefix + OrEmpty(r.body))
  }

  /** A composed mail goes from `from` to `to` under the subject "Reminder", and its
      body is the fixed prefix followed by exactly the reminder's text. */
  lemma ComposedMail(from: string, to: string, r: ReminderRow)
    ensures var m := Compose(from, to, r);
      && m.from == from && m.to == to && m.subject == "Reminder"
      && |m.body| == |BodyPrefix| + |OrEmpty(r.body)|
      && m.body[..|BodyPrefix|] == BodyPrefix && m.body[|BodyPrefix|..] == OrEmpty(r.body)
  {
  }

  /** `MailboxAddress.Parse` succeeds on the sender and on this reminder's recipient;
      `parses` stands for its address syntax check, a null address never parses. */
  predicate Addressable(users: Table<UserRow>, sender: Option<string>, parses: string -> bool, r: ReminderRow)
    requires r.userId in users.rows
  {
    && sender.Some? && parses(sender.value)
    && users.rows[r.userId].email.Some? && parses(users.rows[r.userId].email.value)
  }

  /** The selected reminder rows, in listing order. */
  function SelectedRows(reminders: Table<ReminderRow>, users: Table<UserRow>, now: int): (rs: seq<ReminderRow>)
    ensures |rs| == |DueIds(reminders, users, now)|
    ensures forall i :: 0 <= i < |rs| ==>
      var id := DueIds(reminders, users, now)[i];
      id in reminders.rows && rs[i] == reminders.rows[id] && Selected(users, now, rs[i])
  {
    Views(reminders, DueIds(reminders, users, now), RowOf)
  }

  function RowOf(id: int, r: ReminderRow): ReminderRow {
    r
  }

  /** The loop over the selected reminders: one message per reminder, in order, until an
      address fails to parse, which ends the whole run. */
  function Deliver(rs: seq<ReminderRow>, users: Table<UserRow>, sender: Option<string>, parses: string -> bool)
    : (o: Outcome)
    requires forall i :: 0 <= i < |rs| ==> rs[i].userId in users.rows
    ensures |o.mails| <= |rs|
    ensures !o.aborted <==> forall i :: 0 <= i < |rs| ==> Addressable(users, sender, parses, rs[i])
    ensures !o.aborted ==> |o.mails| == |rs|
    ensures o.aborted ==> |o.mails| < |rs| && !Addressable(users, sender, parses, rs[|o.mails|])
    ensures forall i :: 0 <= i < |o.mails| ==>
      && Addressable(users, sender, parses, rs[i])
      && o.mails[i] == Compose(sender.value, users.rows[rs[i].userId].email.value, rs[i])
    decreases |rs|
  {
    if |rs| == 0 then Outcome([], false)
    else
      var r := rs[0];
      if !Addressable(users, sender, parses, r) then Outcome([], true)
      else
        var rest := Deliver(rs[1..], users, sender, parses);
        var m := Compose(sender.value, users.rows[r.userId].email.value, r);
        var o := Outcome([m] + rest.mails, rest.aborted);
        assert forall i :: 1 <= i < |rs| ==> rs[1..][i - 1] == rs[i];
        assert forall i :: 1 <= i < |o.mails| ==> o.mails[i] == rest.mails[i - 1];
        o
  }

  /** `SendEmailEveryMinute`, selection and composition: `sender` is the configured
      `EmailUserName`, `now` the current UTC time in ticks. */
  function SendEmailEveryMinute(reminders: Table<ReminderRow>, users: Table<UserRow>,
                                sender: Option<string>, parses: string -> bool, now: int): (o: Outcome)
    ensures DueIds(reminders, users, now) == [] ==> o == Outcome([], false)
    ensures !o.aborted ==> |o.mails| == |DueIds(reminders, users, now)|
    ensures |o.mails| <= |SelectedRows(reminders, users, now)|
    ensures forall i :: 0 <= i < |o.mails| ==> Due(now, SelectedRows(reminders, users, now)[i].reminderTime)
    ensures var rs := SelectedRows(reminders, users, now);
      forall i :: 0 <= i < |o.mails| ==>
        && rs[i].userId in users.rows
        && Addressable(users, sender, parses, rs[i])
        && o.mails[i] == Compose(sender.value, users.rows[rs[i].userId].email.value, rs[i])
    ensures var rs := SelectedRows(reminders, users, now);
      o.aborted ==> |o.mails| < |rs| && rs[|o.mails|].userId in users.rows
                    && !Addressable(users, sender, parses, rs[|o.mails|])
  {
    Deliver(SelectedRows(reminders, users, now), users, sender, parses)
  }

  /** When every address parses, exactly one mail goes out per selected reminder, to
      that reminder's owner, from the configured sender, carrying that reminder's text. */
  lemma OneMailPerDueReminder(reminders: Table<ReminderRow>, users: Table<UserRow>,
                              sender: string, parses: string -> bool, now: int)
    requires parses(sender)
    requires forall id :: id in users.rows ==> users.rows[id].email.Some? && parses(users.rows[id].email.value)
    ensures var o := SendEmailEveryMinute(reminders, users, Some(sender), parses, now);
      var rs := SelectedRows(reminders, users, now);
      && !o.aborted
      && |o.mails| == |rs|
      && forall i :: 0 <= i < |o.mails| ==>
           o.mails[i] == Compose(sender, users.rows[rs[i].userId].email.value, rs[i])
  {
    var rs := SelectedRows(reminders, users, now);
    AllAddressable(rs, users, sender, parses);
    var o := Deliver(rs, users, Some(sender), parses);
    assert o == SendEmailEveryMinute(reminders, users, Some(sender), parses, now);
    assert |o.mails| == |rs|;
    forall i | 0 <= i < |o.mails|
      ensures o.mails[i] == Compose(sender, users.rows[rs[i].userId].email.value, rs[i])
    {
    }
  }

  /** With a parsable sender and every user's address parsable, every row is addressable,
      so the loop runs to the end. */
  lemma AllAddressable(rs: seq<ReminderRow>, users: Table<UserRow>, sender: string, parses: string -> bool)
    requires parses(sender)
    requires forall id :: id in users.rows ==> users.rows[id].email.Some? && parses(users.rows[id].email.value)
    requires forall i :: 0 <= i < |rs| ==> rs[i].userId in users.rows
    ensures forall i :: 0 <= i < |rs| ==> Addressable(users, Some(sender), parses, rs[i])
    ensures !Deliver(rs, users, Some(sender), parses).aborted
  {
  }

  /** Every mail sent is for some due reminder of some user. */
  lemma MailsAreForDueReminders(reminders: Table<ReminderRow>, users: Table<UserRow>,
                                sender: Option<string>, parses: string -> bool, now: int, m: Mail)
    requires m in SendEmailEveryMinute(reminders, users, sender, parses, now).mails
    ensures exists id ::
      && id in reminders.rows
      && Due(now, reminders.rows[id].reminderTime)
      && reminders.rows[id].userId in users.rows
      && users.rows[reminders.rows[id].userId].email == Some(m.to)
  {
    var o := SendEmailEveryMinute(reminders, users, sender, parses, now);
    var rs := SelectedRows(reminders, users, now);
    var i :| 0 <= i < |o.mails| && o.mails[i] == m;
    var id := DueIds(reminders, users, now)[i];
    assert reminders.rows[id] == rs[i];
  }

  /** The window's edges: exactly one minute away is due, a tick further is not. */
  lemma WindowInclusive(now: int)
    ensures Due(now, now) && Due(now, now - Tokens.TicksPerMinute) && Due(now, now + Tokens.TicksPerMinute)
    ensures !Due(now, now - Tokens.TicksPerMinute - 1) && !Due(now, now + Tokens.TicksPerMinute + 1)
  {
  }
}
