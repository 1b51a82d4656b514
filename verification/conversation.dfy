/** The conversation with one user (bot.py, the command, message and button
    handlers) as a pure step function.  A step takes the user's session slot, the
    user's store and one incoming event, and gives the session and store afterwards
    and the replies sent.  Replies are tags: their wording, keyboards and message
    editing belong to the transport, which is outside the model. */
module Conversation {
  import opened Wrappers
  import opened Ledger
  import Links
  import Tally

  /** `context.user_data['current_link']`: absent, or the link waiting for a
      decision.  The handlers' truth tests on the slot are `Truthy`: a link is
      pending when the slot holds a non-empty string. */
  type Session = Option<string>

  /** The user's spreadsheet, whether a backup chat is configured, and the copies of
      the spreadsheet handed to the backup sender, oldest first. */
  datatype Store = Store(sheet: Sheet, backupsOn: bool, backups: seq<seq<Row>>)

  /** The chat a message was forwarded from: its public username and the id of the
      forwarded message, each possibly missing. */
  datatype Origin = Origin(username: Option<string>, messageId: Option<int>)

  datatype Message = Message(forwardedFrom: Option<Origin>, text: Option<string>, caption: Option<string>)

  datatype Event =
    | Start
    | Incoming(msg: Message)
    | Press(data: string)
    | ExportCommand
    | StatsCommand

  datatype Reply =
    | Greeting
    | AlreadySaved(link: string)       // the link is in the sheet: delete it or send another
    | AskWhen(link: string)            // the four status buttons
    | NoLinkFound
    | Document(rows: seq<Row>)         // the spreadsheet file
    | DatabaseEmpty                    // no file, to an export request
    | DatabaseGone                     // no file after a change
    | ReadyForNewLink
    | DeleteFailed
    | NothingToDelete
    | LinkLost                         // a button with no link waiting: send it again
    | Added(number: int, link: string, status: string)
    | UnknownCommand
    | StatsEmpty
    | StatsReport(total: nat, byStatus: Tally.Histogram)

  datatype Turn = Turn(session: Session, store: Store, replies: seq<Reply>)

  // ---------------------------------------------------------------------------
  // Reading a message

  /** The forward carries what the post link needs: a username and a non-zero
      message id. */
  predicate Forwarded(m: Message)
  {
    && m.forwardedFrom.Some?
    && Truthy(m.forwardedFrom.value.username)
    && m.forwardedFrom.value.messageId.Some?
    && m.forwardedFrom.value.messageId.value != 0
  }

  /** `message.text or message.caption or ""`. */
  function Body(m: Message): (b: string)
    ensures b != "" <==> Truthy(m.text) || Truthy(m.caption)
  {
    if Truthy(m.text) then m.text.value
    else if Truthy(m.caption) then m.caption.value
    else ""
  }

  /** The link a message yields: the post link of a usable forward, otherwise the
      first pattern match in its text or caption, and "" when there is none. */
  function MessageLink(m: Message): string
  {
    if Forwarded(m) then
      Links.ForwardLink(m.forwardedFrom.value.username.value, m.forwardedFrom.value.messageId.value)
    else
      var text := Body(m);
      if text != "" then Links.Extract(text) else ""
  }

  // ---------------------------------------------------------------------------
  // The handlers

  /** The four status buttons and the status each one records. */
  function StatusOf(data: string): (r: Option<string>)
    ensures r.Some? <==> data in {"status_1", "status_2", "status_3", "status_4"}
    ensures r.Some? ==> r.value != ""
  {
    if data == "status_1" then Some("Вышли первыми")
    else if data == "status_2" then Some("Вышли в течение часа")
    else if data == "status_3" then Some("Вышли в течение 2-3 часов")
    else if data == "status_4" then Some("Вышли больше, чем через 3 часа")
    else None
  }

  /** Send the file if it exists, otherwise the given notice. */
  function FileReply(f: Sheet, missing: Reply): Reply
  {
    match f
    case Some(rows) => Document(rows)
    case None => missing
  }

  /** The store after an operation left `sheet` behind: a requested backup of an
      existing file goes to the backup sender when a backup chat is configured. */
  function Commit(store: Store, sheet: Sheet, backup: bool): (r: Store)
    ensures r.sheet == sheet && r.backupsOn == store.backupsOn
    ensures r.backups == store.backups || r.backups == store.backups + [Rows(sheet)]
    ensures |r.backups| > |store.backups| <==> backup && store.backupsOn && sheet.Some?
  {
    if backup && store.backupsOn && sheet.Some? then
      Store(sheet, store.backupsOn, store.backups + [sheet.value])
    else
      Store(sheet, store.backupsOn, store.backups)
  }

  /** handle_message: create the file if needed, then take the link the message
      yields.  A link becomes the pending one and gets the duplicate menu when the
      sheet already holds it, the status menu otherwise; no link leaves the session
      alone. */
  function OnMessage(session: Session, store: Store, m: Message): (r: Turn)
    ensures r.store == store.(sheet := Init(store.sheet))
    ensures MessageLink(m) == "" ==> r.session == session && r.replies == [NoLinkFound]
    ensures MessageLink(m) != "" ==> r.session == Some(MessageLink(m))
    ensures MessageLink(m) != "" && LinkExists(store.sheet, MessageLink(m)) ==> r.replies == [AlreadySaved(MessageLink(m))]
    ensures MessageLink(m) != "" && !LinkExists(store.sheet, MessageLink(m)) ==> r.replies == [AskWhen(MessageLink(m))]
  {
    var sheet := Init(store.sheet);
    var link := MessageLink(m);
    if link == "" then
      Turn(session, store.(sheet := sheet), [NoLinkFound])
    else if LinkExists(sheet, link) then
      Turn(Some(link), store.(sheet := sheet), [AlreadySaved(link)])
    else
      Turn(Some(link), store.(sheet := sheet), [AskWhen(link)])
  }

  /** button_handler's `delete_current`: delete the pending link's first row; the
      slot is emptied whatever happens. */
  function OnDelete(session: Session, store: Store): (r: Turn)
    ensures r.session == None
    ensures !Truthy(session) ==> r.store == store && r.replies == [NothingToDelete]
    ensures Truthy(session) && !LinkExists(store.sheet, session.value) ==>
      r.store == store && r.replies == [DeleteFailed]
  {
    if Truthy(session) then
      var c := Delete(store.sheet, session.value);
      var after := Commit(store, c.sheet, c.backup);
      if c.value then Turn(None, after, [FileReply(c.sheet, DatabaseGone)])
      else Turn(None, after, [DeleteFailed])
    else
      Turn(None, store, [NothingToDelete])
  }

  /** button_handler after its fixed buttons: with no pending link nothing happens
      but the request to resend it; a status button adds the pending link with that
      status; any other button is unknown.  Both of the latter empty the slot. */
  function OnChoice(session: Session, store: Store, data: string, now: Stamp): (r: Turn)
    ensures !Truthy(session) ==> r.session == session && r.store == store && r.replies == [LinkLost]
    ensures Truthy(session) ==> r.session == None
    ensures Truthy(session) && StatusOf(data).None? ==> r.store == store && r.replies == [UnknownCommand]
  {
    if !Truthy(session) then
      Turn(session, store, [LinkLost])
    else
      match StatusOf(data)
      case Some(status) =>
        var c := Add(store.sheet, session.value, Some(status), now);
        var after := Commit(store, c.sheet, c.backup);
        Turn(None, after, [FileReply(c.sheet, DatabaseGone), Added(c.value, session.value, status)])
      case None =>
        Turn(None, store, [UnknownCommand])
  }

  /** button_handler. */
  function OnPress(session: Session, store: Store, data: string, now: Stamp): (r: Turn)
    ensures data == "export_db" ==> r.session == session && r.store == store
    ensures data == "new_link" ==> r.session == None && r.store == store
  {
    if data == "export_db" then
      Turn(session, store, [FileReply(store.sheet, DatabaseEmpty)])
    else if data == "new_link" then
      Turn(None, store, [ReadyForNewLink])
    else if data == "delete_current" then
      OnDelete(session, store)
    else
      OnChoice(session, store, data, now)
  }

  /** /stats: nothing without a file, otherwise the row count and the histogram. */
  function StatsReply(f: Sheet): (r: Reply)
    ensures f.None? <==> r == StatsEmpty
    ensures f.Some? ==> r.StatsReport? && r.total == |f.value|
    ensures f.Some? ==> r.byStatus == Tally.Stats(f).byStatus
  {
    match Tally.Stats(f)
    case NoFile => StatsEmpty
    case Summary(total, byStatus) => StatsReport(total, byStatus)
  }

  /** One update, dispatched to its handler.  /start creates the file; /export and
      /stats only read. */
  function Step(session: Session, store: Store, e: Event, now: Stamp): (r: Turn)
    ensures r.store.backupsOn == store.backupsOn
    ensures Rows(r.store.sheet) == Rows(store.sheet) || r.store.sheet.Some?
    ensures |r.replies| >= 1
  {
    match e
    case Start => Turn(session, store.(sheet := Init(store.sheet)), [Greeting])
    case Incoming(m) => OnMessage(session, store, m)
    case Press(data) => OnPress(session, store, data, now)
    case ExportCommand => Turn(session, store, [FileReply(store.sheet, DatabaseEmpty)])
    case StatsCommand => Turn(session, store, [StatsReply(store.sheet)])
  }

  /** A sequence of updates, each with the time it is handled; the replies of all
      of them in order. */
  function Run(session: Session, store: Store, events: seq<(Event, Stamp)>): (r: Turn)
    ensures r.store.backupsOn == store.backupsOn
    ensures |r.replies| >= |events|
    decreases |events|
  {
    if |events| == 0 then Turn(session, store, [])
    else
      var t := Step(session, store, events[0].0, events[0].1);
      var rest := Run(t.session, t.store, events[1..]);
      Turn(rest.session, rest.store, t.replies + rest.replies)
  }

  // ---------------------------------------------------------------------------
  // Properties of the conversation

  /** What a message yields: the post link of a usable forward; otherwise "" exactly
      when the pattern occurs nowhere in the text or caption, and else the first
      match in it. */
  lemma MessageLinkSpec(m: Message)
    ensures Forwarded(m) ==> MessageLink(m) == Links.ForwardLink(
      m.forwardedFrom.value.username.value, m.forwardedFrom.value.messageId.value)
    ensures !Forwarded(m) ==> (MessageLink(m) == "" <==> Links.NoMatch(Body(m)))
    ensures !Forwarded(m) && MessageLink(m) != "" ==>
      exists i: nat, p :: Links.FirstMatch(Body(m), i, p) && MessageLink(m) == Links.Render(p)
    ensures !Forwarded(m) && Truthy(m.text) ==> MessageLink(m) == Links.Extract(m.text.value)
    ensures !Forwarded(m) && !Truthy(m.text) && Truthy(m.caption) ==>
      MessageLink(m) == Links.Extract(m.caption.value)
    ensures !Forwarded(m) && !Truthy(m.text) && !Truthy(m.caption) ==> MessageLink(m) == ""
  {
    if !Forwarded(m) {
      if MessageLink(m) == "" {
        NoLinkMeansNoMatch(m);
      } else {
        TextLinkIsFirstMatch(m);
      }
      if Links.NoMatch(Body(m)) {
        NoMatchMeansNoLink(m);
      }
    }
  }

  /** A message that is not a usable forward and yields no link holds no match in
      its text or caption. */
  lemma NoLinkMeansNoMatch(m: Message)
    requires !Forwarded(m) && MessageLink(m) == ""
    ensures Links.NoMatch(Body(m))
  {
    Links.EmptyMeansNoMatch(Body(m));
  }

  /** A message that is not a usable forward and holds no match in its text or
      caption yields no link. */
  lemma NoMatchMeansNoLink(m: Message)
    requires !Forwarded(m) && Links.NoMatch(Body(m))
    ensures MessageLink(m) == ""
  {
    Links.NoMatchMeansEmpty(Body(m));
  }

  /** The link such a message yields is the first match in its text or caption. */
  lemma TextLinkIsFirstMatch(m: Message)
    requires !Forwarded(m) && MessageLink(m) != ""
    ensures exists i: nat, p :: Links.FirstMatch(Body(m), i, p) && MessageLink(m) == Links.Render(p)
  {
    Links.FoundIsFirstMatch(Body(m));
  }

  /** A usable forward always yields a link. */
  lemma ForwardAlwaysYieldsLink(m: Message)
    requires Forwarded(m)
    ensures MessageLink(m) != ""
  {
    var link := MessageLink(m);
    assert Links.OccursAt(link, 0, "https://t.me/" + m.forwardedFrom.value.username.value + "/");
  }

  /** The store is consistent: the sheet is numbered 1..n and so is every copy sent
      to the backup chat. */
  ghost predicate Consistent(store: Store)
  {
    && Numbered(Rows(store.sheet))
    && forall k :: 0 <= k < |store.backups| ==> Numbered(store.backups[k])
  }

  lemma CommitKeepsConsistent(store: Store, sheet: Sheet, backup: bool)
    requires Consistent(store) && Numbered(Rows(sheet))
    ensures Consistent(Commit(store, sheet, backup))
  {
    var r := Commit(store, sheet, backup);
    forall k | 0 <= k < |r.backups|
      ensures Numbered(r.backups[k])
    {
      if k < |store.backups| {
        assert r.backups[k] == store.backups[k];
      }
    }
  }

  /** Every update keeps the store consistent. */
  lemma StepKeepsConsistent(session: Session, store: Store, e: Event, now: Stamp)
    requires Consistent(store)
    ensures Consistent(Step(session, store, e, now).store)
  {
    match e
    case Press(data) =>
      if data != "export_db" && data != "new_link" && Truthy(session) {
        if data == "delete_current" {
          var c := Delete(store.sheet, session.value);
          OperationsKeepNumbered(store.sheet, session.value, None, "", now);
          CommitKeepsConsistent(store, c.sheet, c.backup);
        } else if StatusOf(data).Some? {
          var c := Add(store.sheet, session.value, StatusOf(data), now);
          OperationsKeepNumbered(store.sheet, session.value, StatusOf(data), "", now);
          CommitKeepsConsistent(store, c.sheet, c.backup);
        }
      }
    case _ =>
  }

  /** Any sequence of updates keeps the store consistent. */
  lemma {:induction false} RunKeepsConsistent(session: Session, store: Store, events: seq<(Event, Stamp)>)
    requires Consistent(store)
    ensures Consistent(Run(session, store, events).store)
    decreases |events|
  {
    if |events| > 0 {
      var t := Step(session, store, events[0].0, events[0].1);
      StepKeepsConsistent(session, store, events[0].0, events[0].1);
      RunKeepsConsistent(t.session, t.store, events[1..]);
    }
  }

  /** Every button but `export_db` leaves no link pending. */
  lemma PressClearsPending(session: Session, store: Store, data: string, now: Stamp)
    requires data != "export_db"
    ensures !Truthy(Step(session, store, Press(data), now).session)
  {
  }

  /** A message makes a link pending exactly when it yields one, and otherwise keeps
      whatever was pending. */
  lemma MessageSetsPending(session: Session, store: Store, m: Message, now: Stamp)
    ensures var r := Step(session, store, Incoming(m), now);
      Truthy(r.session) <==> MessageLink(m) != "" || Truthy(session)
  {
  }

  /** Exports and statistics neither read nor change the session, and change
      nothing in the store. */
  lemma ReadOnlyEvents(session: Session, store: Store, now: Stamp)
    ensures var r := Step(session, store, Press("export_db"), now); r.session == session && r.store == store
    ensures var r := Step(session, store, ExportCommand, now); r.session == session && r.store == store
    ensures var r := Step(session, store, StatsCommand, now); r.session == session && r.store == store
  {
  }

  /** A button pressed with no link pending changes nothing in the store. */
  lemma StalePressChangesNothing(session: Session, store: Store, data: string, now: Stamp)
    requires !Truthy(session)
    ensures Step(session, store, Press(data), now).store == store
  {
  }

  /** The same button delivered twice: the second delivery finds the store as the
      first left it and changes nothing, so a status button never adds twice. */
  lemma ReplayedPressChangesNothing(session: Session, store: Store, data: string, now1: Stamp, now2: Stamp)
    ensures var t := Step(session, store, Press(data), now1);
      Step(t.session, t.store, Press(data), now2).store == t.store
  {
    var t := Step(session, store, Press(data), now1);
    if data != "export_db" {
      PressClearsPending(session, store, data, now1);
      StalePressChangesNothing(t.session, t.store, data, now2);
    }
  }

  /** A status button with a link pending adds exactly that link as the next row,
      with the button's status, reports its number and empties the slot. */
  lemma StatusPressAdds(session: Session, store: Store, data: string, now: Stamp)
    requires Truthy(session) && StatusOf(data).Some?
    ensures var r := Step(session, store, Press(data), now);
      && Rows(r.store.sheet) == Rows(store.sheet) + [Row(|Rows(store.sheet)| + 1, session.value, StatusOf(data).value, now)]
      && r.replies == [Document(Rows(r.store.sheet)), Added(|Rows(store.sheet)| + 1, session.value, StatusOf(data).value)]
      && r.session == None
  {
    var c := StatusPressIsAdd(session, store, data, now);
    assert Rows(c.sheet) == Rows(store.sheet) + [Row(|Rows(store.sheet)| + 1, session.value, StatusOf(data).value, now)];
  }

  /** A status button with a link pending is the ledger's add of that link. */
  lemma StatusPressIsAdd(session: Session, store: Store, data: string, now: Stamp)
      returns (c: Change<int>)
    requires Truthy(session) && StatusOf(data).Some?
    ensures c == Add(store.sheet, session.value, StatusOf(data), now)
    ensures Step(session, store, Press(data), now)
         == Turn(None, Commit(store, c.sheet, c.backup),
                 [FileReply(c.sheet, DatabaseGone), Added(c.value, session.value, StatusOf(data).value)])
  {
    c := Add(store.sheet, session.value, StatusOf(data), now);
  }

  /** `delete_current` with a link pending removes the first row holding it,
      renumbering the rest, and sends the file. */
  lemma DeletePressRemoves(session: Session, store: Store, now: Stamp)
    requires Truthy(session) && LinkExists(store.sheet, session.value)
    ensures var r := Step(session, store, Press("delete_current"), now);
      && (exists i :: FirstWith(Rows(store.sheet), i, session.value) && RemovedAt(Rows(store.sheet), Rows(r.store.sheet), i))
      && r.replies == [Document(Rows(r.store.sheet))]
      && r.session == None
  {
  }

  /** The backup chat receives a copy exactly when a backup chat is configured and
      a status button adds a row or `delete_current` removes one; the copy is the
      sheet as it is afterwards. */
  lemma BackupExactlyOnChange(session: Session, store: Store, e: Event, now: Stamp)
    ensures var r := Step(session, store, e, now);
      |r.store.backups| > |store.backups| <==>
        && store.backupsOn && e.Press? && Truthy(session)
        && ((e.data == "delete_current" && LinkExists(store.sheet, session.value)) || StatusOf(e.data).Some?)
    ensures var r := Step(session, store, e, now);
      r.store.backups == store.backups || r.store.backups == store.backups + [Rows(r.store.sheet)]
  {
  }

  /** The status buttons do not look at the sheet: pressed on a menu for a link the
      sheet already holds, one adds a second row with the same link. */
  lemma StatusPressKeepsDuplicates(session: Session, store: Store, data: string, now: Stamp)
    requires Truthy(session) && StatusOf(data).Some? && LinkExists(store.sheet, session.value)
    ensures Occurrences(Rows(Step(session, store, Press(data), now).store.sheet), session.value) >= 2
  {
    var c := StatusPressIsAdd(session, store, data, now);
    AddKeepsDuplicates(store.sheet, session.value, StatusOf(data), now);
  }

  /** Two updates in a row are the second step taken from where the first left. */
  lemma RunTwo(session: Session, store: Store, e1: (Event, Stamp), e2: (Event, Stamp))
    ensures var t1 := Step(session, store, e1.0, e1.1);
      var t2 := Step(t1.session, t1.store, e2.0, e2.1);
      Run(session, store, [e1, e2]) == Turn(t2.session, t2.store, t1.replies + t2.replies)
  {
    var t1 := Step(session, store, e1.0, e1.1);
    var t2 := Step(t1.session, t1.store, e2.0, e2.1);
    assert [e1, e2][1..] == [e2];
    assert [e2][1..] == [];
    assert Run(t2.session, t2.store, []) == Turn(t2.session, t2.store, []);
    assert Run(t1.session, t1.store, [e2]) == Turn(t2.session, t2.store, t2.replies + []);
    assert t2.replies + [] == t2.replies;
  }

  /** A message that yields a new link, then a status button: the link is added with
      that status as the next row. */
  lemma MessageThenStatusAdds(store: Store, m: Message, data: string, t1: Stamp, t2: Stamp)
    requires MessageLink(m) != "" && !LinkExists(store.sheet, MessageLink(m)) && StatusOf(data).Some?
    ensures var r := Run(None, store, [(Incoming(m), t1), (Press(data), t2)]);
      && Rows(r.store.sheet) == Rows(store.sheet) + [Row(|Rows(store.sheet)| + 1, MessageLink(m), StatusOf(data).value, t2)]
      && r.replies == [AskWhen(MessageLink(m)), Document(Rows(r.store.sheet)),
                       Added(|Rows(store.sheet)| + 1, MessageLink(m), StatusOf(data).value)]
      && r.session == None
  {
    var a := Step(None, store, Incoming(m), t1);
    assert a == Turn(Some(MessageLink(m)), store.(sheet := Init(store.sheet)), [AskWhen(MessageLink(m))]);
    StatusPressAdds(a.session, a.store, data, t2);
    RunTwo(None, store, (Incoming(m), t1), (Press(data), t2));
  }

  /** After a status button adds the pending link the slot is empty, so the
      "delete this post" button of the confirmation menu finds nothing to delete:
      the added row stays. */
  lemma DeleteAfterAddFindsNothing(session: Session, store: Store, data: string, t1: Stamp, t2: Stamp)
    requires Truthy(session) && StatusOf(data).Some?
    ensures var a := Step(session, store, Press(data), t1);
      var b := Step(a.session, a.store, Press("delete_current"), t2);
      && b.store == a.store
      && b.replies == [NothingToDelete]
      && LinkExists(b.store.sheet, session.value)
  {
    var a := Step(session, store, Press(data), t1);
    StatusPressAdds(session, store, data, t1);
    assert Rows(a.store.sheet)[|Rows(store.sheet)|].link == session.value;
  }
}
