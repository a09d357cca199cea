/**
 * The welcome plugin around the cooldown and the renderer: the per-user table
 * `iirose_welcome` (one row per uid), the choice of the message for an event,
 * the `set`/`rm`/`toggle` commands as updates of that table, and the three
 * event handlers' sequence of guards. The table is a map from uid to row; each
 * handler runs as one sequential step; `Random.pick` is the caller's index `pick`.
 */
module Welcome {
  import opened Wrappers
  import opened Cooldown
  import opened Render

  datatype Config = Config(
    bePrivate: bool,
    onlyIIROSE: bool,
    welcomeList: seq<string>,
    exitList: seq<string>,
    refreshList: seq<string>,
    cooldown: int,
    enableAdd: bool,
    enableRemove: bool,
    enableRefresh: bool)

  /** The default list an event draws from: welcomeList, exitList or refreshList. */
  function Defaults(config: Config, kind: EventKind): seq<string> {
    match kind
    case Add => config.welcomeList
    case Remove => config.exitList
    case Refresh => config.refreshList
  }

  /** The global switch of an event: enableAdd, enableRemove or enableRefresh. */
  predicate Enabled(config: Config, kind: EventKind) {
    match kind
    case Add => config.enableAdd
    case Remove => config.enableRemove
    case Refresh => config.enableRefresh
  }

  /** The parts of a session the plugin reads. */
  datatype Session = Session(userId: string, username: string, platform: string, selfId: string, channelId: string)

  /** A row of `iirose_welcome`, keyed by uid; None is a column that holds no value. */
  datatype Row = Row(
    welcomeMsg: Option<string>,
    leaveMsg: Option<string>,
    refreshMsg: Option<string>,
    addEnabled: Option<bool>,
    removeEnabled: Option<bool>,
    refreshEnabled: Option<bool>)

  /** A row with every column unset: what `toggle` reads for a uid without a row (`{ uid: userId }`). */
  const BlankRow := Row(None, None, None, None, None, None)

  /**
   * The row the database creates when an upsert names a uid it does not hold,
   * before the upsert's own column is written, if the ORM fills every column
   * declared `'string'` with its initial value `''` and leaves the boolean
   * columns unset. The commands take the created row as a parameter `created`;
   * this is one choice of it.
   */
  const OrmFreshRow := Row(Some(""), Some(""), Some(""), None, None, None)

  type Table = map<string, Row>

  /** The row an upsert for `uid` updates: the stored one, or `created` when there is none. */
  function RowOf(db: Table, uid: string, created: Row): Row {
    if uid in db then db[uid] else created
  }

  /** The message column of an event: welcomeMsg, leaveMsg or refreshMsg. */
  function MessageOf(row: Row, kind: EventKind): Option<string> {
    match kind
    case Add => row.welcomeMsg
    case Remove => row.leaveMsg
    case Refresh => row.refreshMsg
  }

  /** The switch column of an event: addEnabled, removeEnabled or refreshEnabled. */
  function FlagOf(row: Row, kind: EventKind): Option<bool> {
    match kind
    case Add => row.addEnabled
    case Remove => row.removeEnabled
    case Refresh => row.refreshEnabled
  }

  /** Two rows agree on every column except the message column of `kind`. */
  ghost predicate AgreeExceptMessage(r1: Row, r2: Row, kind: EventKind) {
    && (forall k :: k != kind ==> MessageOf(r1, k) == MessageOf(r2, k))
    && (forall k :: FlagOf(r1, k) == FlagOf(r2, k))
  }

  /** Two rows agree on every column except the switch column of `kind`. */
  ghost predicate AgreeExceptFlag(r1: Row, r2: Row, kind: EventKind) {
    && (forall k :: MessageOf(r1, k) == MessageOf(r2, k))
    && (forall k :: k != kind ==> FlagOf(r1, k) == FlagOf(r2, k))
  }

  /** The partial upsert `{ uid, <message column>: m }`. */
  function WithMessage(row: Row, kind: EventKind, m: string): (r: Row)
    ensures MessageOf(r, kind) == Some(m) && AgreeExceptMessage(row, r, kind)
  {
    match kind
    case Add => row.(welcomeMsg := Some(m))
    case Remove => row.(leaveMsg := Some(m))
    case Refresh => row.(refreshMsg := Some(m))
  }

  /** The partial upsert `{ uid, [dbKey]: b }`. */
  function WithFlag(row: Row, kind: EventKind, b: bool): (r: Row)
    ensures FlagOf(r, kind) == Some(b) && AgreeExceptFlag(row, r, kind)
  {
    match kind
    case Add => row.(addEnabled := Some(b))
    case Remove => row.(removeEnabled := Some(b))
    case Refresh => row.(refreshEnabled := Some(b))
  }

  /** Every row but `uid`'s is the same in both tables, and no other uid appears or disappears. */
  ghost predicate OthersUntouched(db: Table, db': Table, uid: string) {
    forall u :: u != uid ==> (u in db' <==> u in db) && (u in db ==> db'[u] == db[u])
  }

  // ---- Choosing the message: getWelcome, getExit, getRefresh --------------------------

  /** The user's own message for `kind`: the row exists and the column holds a string. */
  function CustomMessage(db: Table, uid: string, kind: EventKind): Option<string> {
    if uid in db then MessageOf(db[uid], kind) else None
  }

  /** `Random.pick` yields an index of the default list whenever that list is not empty. */
  predicate PickInRange(config: Config, kind: EventKind, pick: nat) {
    |Defaults(config, kind)| == 0 || pick < |Defaults(config, kind)|
  }

  /**
   * getWelcome / getExit / getRefresh. A custom message decides alone: the empty
   * string means "send nothing", any other is rendered. Without one, an empty
   * default list yields nothing and otherwise some entry of the list is rendered.
   */
  function SelectMessage(db: Table, config: Config, kind: EventKind, session: Session, pick: nat)
    : (r: Option<Rendered>)
    requires PickInRange(config, kind, pick)
    ensures var custom := CustomMessage(db, session.userId, kind);
      && (custom == Some("") ==> r == None)
      && (custom.Some? && custom.value != "" ==>
            r == Some(RenderMessage(custom.value, session.userId, session.username)))
      && (custom.None? ==> (r == None <==> |Defaults(config, kind)| == 0))
      && (custom.None? && r.Some? ==>
            exists i :: 0 <= i < |Defaults(config, kind)|
              && r.value == RenderMessage(Defaults(config, kind)[i], session.userId, session.username))
  {
    var custom := CustomMessage(db, session.userId, kind);
    if custom.Some? then
      if custom.value == "" then None
      else Some(RenderMessage(custom.value, session.userId, session.username))
    else if |Defaults(config, kind)| == 0 then None
    else Some(RenderMessage(Defaults(config, kind)[pick], session.userId, session.username))
  }

  /** A custom message makes the choice independent of the default list and of the random pick. */
  lemma CustomIgnoresDefaults(db: Table, config: Config, config': Config, kind: EventKind,
                              session: Session, pick: nat, pick': nat)
    requires PickInRange(config, kind, pick) && PickInRange(config', kind, pick')
    requires CustomMessage(db, session.userId, kind).Some?
    ensures SelectMessage(db, config, kind, session, pick) == SelectMessage(db, config', kind, session, pick')
  {
  }

  /** The handlers' test `!message || (Array.isArray(message) && message.length === 0)`, negated. */
  predicate Sendable(m: Option<Rendered>) {
    m.Some? && m.value != Plain("") && m.value != Elements([])
  }

  /**
   * A rendered template is sent exactly when the template is not empty; in
   * particular the test for an empty array never fires, since a template with a
   * marker always renders to at least one mention.
   */
  lemma RenderedSendable(template: string, userId: string, name: string)
    ensures Sendable(Some(RenderMessage(template, userId, name))) <==> template != ""
    ensures RenderMessage(template, userId, name) != Elements([])
  {
    if MarkerCount(template) > 0 {
      RenderShape(template, userId, name);
      RenderRoundTrip(template, userId, name);
      assert template != "";
    } else {
      NoMarkerUnchanged(template, userId, name);
    }
  }

  // ---- The event handlers -------------------------------------------------------------

  /** Where a message goes: the event's channel, or privately to the user. */
  datatype Delivery = ToChannel(channelId: string, message: Rendered) | ToUser(userId: string, message: Rendered)

  /** The `onlyIIROSE` filter lets the session through. */
  predicate PlatformAllowed(config: Config, session: Session) {
    !config.onlyIIROSE || session.platform == "iirose"
  }

  /** The user's row exists and has switched the event off explicitly (`=== false`). */
  predicate SwitchedOff(db: Table, uid: string, kind: EventKind) {
    uid in db && FlagOf(db[uid], kind) == Some(false)
  }

  /**
   * What a handler sends, given whether the rate check suppressed the call: a
   * message goes out exactly when the global switch is on, the call is not
   * rate-limited, the platform filter passes, the user is not the bot (the
   * refresh handler does not ask), the user has not switched the event off and
   * the chosen message is not empty. Only a private welcome goes to the user.
   */
  function Dispatch(config: Config, kind: EventKind, limited: bool, session: Session, db: Table, pick: nat)
    : (r: Option<Delivery>)
    requires PickInRange(config, kind, pick)
    ensures r.Some? <==>
      && Enabled(config, kind)
      && !limited
      && PlatformAllowed(config, session)
      && (kind == Refresh || session.userId != session.selfId)
      && !SwitchedOff(db, session.userId, kind)
      && Sendable(SelectMessage(db, config, kind, session, pick))
    ensures r.Some? ==> r.value.message == SelectMessage(db, config, kind, session, pick).value
    ensures r.Some? ==>
      if kind == Add && config.bePrivate then r.value == ToUser(session.userId, r.value.message)
      else r.value == ToChannel(session.channelId, r.value.message)
  {
    if !Enabled(config, kind) || limited || !PlatformAllowed(config, session) then None
    else if kind != Refresh && session.userId == session.selfId then None
    else if SwitchedOff(db, session.userId, kind) then None
    else
      var message := SelectMessage(db, config, kind, session, pick);
      if !Sendable(message) then None
      else if kind == Add && config.bePrivate then Some(ToUser(session.userId, message.value))
      else Some(ToChannel(session.channelId, message.value))
  }

  /**
   * The handlers of `guild-member-added`, `guild-member-removed` and
   * `iirose/guild-member-refresh`. The rate check runs straight after the global
   * switch, before the platform and self-id filters, so an event those filters
   * drop still starts a cooldown for its user.
   */
  method OnMemberEvent(tracker: CooldownTracker, config: Config, kind: EventKind, session: Session,
                       db: Table, pick: nat, now: int) returns (out: Option<Delivery>)
    requires tracker.Valid() && tracker.cooldown == config.cooldown
    requires PickInRange(config, kind, pick)
    modifies tracker
    ensures tracker.Valid()
    ensures out == Dispatch(config, kind,
                            Suppressed(old(tracker.timestamps), config.cooldown, MakeKey(session.userId, kind), now),
                            session, db, pick)
    ensures !Enabled(config, kind) ==> unchanged(tracker)
    ensures Enabled(config, kind)
            && (Suppressed(old(tracker.timestamps), config.cooldown, MakeKey(session.userId, kind), now)
                || config.cooldown <= 0) ==>
              && tracker.timestamps == old(tracker.timestamps) && tracker.timers == old(tracker.timers)
              && tracker.scheduled == old(tracker.scheduled) && tracker.nextHandle == old(tracker.nextHandle)
    ensures Enabled(config, kind) && config.cooldown > 0
            && !Suppressed(old(tracker.timestamps), config.cooldown, MakeKey(session.userId, kind), now) ==>
              var key := MakeKey(session.userId, kind);
              && tracker.timestamps == old(tracker.timestamps)[key := now]
              && tracker.timers == old(tracker.timers)[key := Timer(old(tracker.nextHandle), now + TimerDelay(config.cooldown))]
              && tracker.scheduled == (if key in old(tracker.timers) then old(tracker.scheduled) - {old(tracker.timers)[key].handle}
                                       else old(tracker.scheduled)) + {old(tracker.nextHandle)}
              && tracker.nextHandle == old(tracker.nextHandle) + 1
  {
    if !Enabled(config, kind) {
      return None;
    }
    var limited := tracker.IsRateLimited(session.userId, kind, now);
    if limited {
      return None;
    }
    if config.onlyIIROSE && session.platform != "iirose" {
      return None;
    }
    if kind != Refresh && session.userId == session.selfId {
      return None;
    }
    if SwitchedOff(db, session.userId, kind) {
      return None;
    }
    var message := SelectMessage(db, config, kind, session, pick);
    if !Sendable(message) {
      return None;
    }
    if kind == Add && config.bePrivate {
      return Some(ToUser(session.userId, message.value));
    }
    return Some(ToChannel(session.channelId, message.value));
  }

  /** The refresh handler has no self-id filter: the bot's own refresh is greeted like any other. */
  lemma RefreshIgnoresSelfId(config: Config, limited: bool, session: Session, db: Table, pick: nat, selfId: string)
    requires PickInRange(config, Refresh, pick)
    ensures Dispatch(config, Refresh, limited, session, db, pick)
         == Dispatch(config, Refresh, limited, session.(selfId := selfId), db, pick)
  {
  }

  // ---- Commands -------------------------------------------------------------------

  /** What a command answers, without its wording. */
  datatype Reply =
    | Silent                                          // the action returns nothing
    | MessageMissing                                  // "you did not give a message"
    | NotSet                                          // "you have no message of your own"
    | Saved                                           // "saved"
    | Removed                                         // "removed"
    | Status(add: bool, remove: bool, refresh: bool)  // the user's three switches
    | InvalidEvent                                    // "invalid event name"
    | Switched(kind: EventKind, enabled: bool)        // "your <event> messages are now on/off"

  /** A command's reply and the table after it. */
  datatype Outcome = Outcome(reply: Reply, db: Table)

  /**
   * `iirose.welcome.wb.set` / `lr.set` / `rf.set <message>`: off the platform,
   * nothing; an empty message is refused; otherwise only that message column of
   * the user's row is written, the row being created from `created` when missing.
   */
  function SetMessage(db: Table, config: Config, session: Session, kind: EventKind, message: string,
                      created: Row): (r: Outcome)
    ensures !PlatformAllowed(config, session) ==> r == Outcome(Silent, db)
    ensures PlatformAllowed(config, session) && message == "" ==> r == Outcome(MessageMissing, db)
    ensures PlatformAllowed(config, session) && message != "" ==>
      && r.reply == Saved
      && r.db.Keys == db.Keys + {session.userId}
      && OthersUntouched(db, r.db, session.userId)
      && MessageOf(r.db[session.userId], kind) == Some(message)
      && AgreeExceptMessage(RowOf(db, session.userId, created), r.db[session.userId], kind)
  {
    if !PlatformAllowed(config, session) then Outcome(Silent, db)
    else if message == "" then Outcome(MessageMissing, db)
    else Outcome(Saved, db[session.userId := WithMessage(RowOf(db, session.userId, created), kind, message)])
  }

  /** The user has a message of their own for `kind`: the row exists and the column is truthy. */
  predicate HasOwnMessage(db: Table, uid: string, kind: EventKind) {
    var custom := CustomMessage(db, uid, kind);
    custom.Some? && custom.value != ""
  }

  /**
   * `iirose.welcome.wb.rm` / `lr.rm` / `rf.rm`: off the platform, nothing;
   * without a message of the user's own, "not set" and no write; otherwise that
   * column is set to the empty string and nothing else changes.
   */
  function RemoveMessage(db: Table, config: Config, session: Session, kind: EventKind): (r: Outcome)
    ensures !PlatformAllowed(config, session) ==> r == Outcome(Silent, db)
    ensures PlatformAllowed(config, session) && !HasOwnMessage(db, session.userId, kind) ==>
      r == Outcome(NotSet, db)
    ensures PlatformAllowed(config, session) && HasOwnMessage(db, session.userId, kind) ==>
      && r.reply == Removed
      && r.db.Keys == db.Keys
      && OthersUntouched(db, r.db, session.userId)
      && MessageOf(r.db[session.userId], kind) == Some("")
      && AgreeExceptMessage(db[session.userId], r.db[session.userId], kind)
  {
    if !PlatformAllowed(config, session) then Outcome(Silent, db)
    else if !HasOwnMessage(db, session.userId, kind) then Outcome(NotSet, db)
    else Outcome(Removed, db[session.userId := WithMessage(db[session.userId], kind, "")])
  }

  /** After a successful `set`, the user's events of that kind use the new message, whatever the defaults. */
  lemma SetThenSelect(db: Table, config: Config, session: Session, kind: EventKind, message: string,
                       created: Row, pick: nat)
    requires PlatformAllowed(config, session) && message != ""
    requires PickInRange(config, kind, pick)
    ensures SelectMessage(SetMessage(db, config, session, kind, message, created).db, config, kind, session, pick)
         == Some(RenderMessage(message, session.userId, session.username))
  {
  }

  /**
   * A `set` for one event leaves the message every other event would choose
   * for that user as it was, when the user already has a row or the created
   * row leaves the other message column unset.
   */
  lemma SetKeepsOtherKinds(db: Table, config: Config, session: Session, kind: EventKind, message: string,
                           created: Row, other: EventKind, pick: nat)
    requires other != kind
    requires session.userId in db || MessageOf(created, other).None?
    requires PickInRange(config, other, pick)
    ensures SelectMessage(SetMessage(db, config, session, kind, message, created).db, config, other, session, pick)
         == SelectMessage(db, config, other, session, pick)
  {
  }

  /**
   * With the ORM's created row, a user without a row who runs `set` for one
   * event stops getting the default messages of the other two: the created
   * `''` columns count as custom messages that say "send nothing".
   */
  lemma OrmSetSilencesOtherKinds(db: Table, config: Config, session: Session, kind: EventKind,
                                 message: string, other: EventKind, pick: nat)
    requires session.userId !in db && other != kind
    requires PlatformAllowed(config, session) && message != ""
    requires 0 < |Defaults(config, other)| && PickInRange(config, other, pick)
    ensures SelectMessage(db, config, other, session, pick).Some?
    ensures SelectMessage(SetMessage(db, config, session, kind, message, OrmFreshRow).db,
                          config, other, session, pick) == None
  {
  }

  /**
   * After a successful `rm` the user gets no message of that kind at all: the
   * empty string left behind means "send nothing", not "use the default list".
   */
  lemma RemoveThenSilent(db: Table, config: Config, session: Session, kind: EventKind,
                         limited: bool, pick: nat)
    requires PlatformAllowed(config, session) && HasOwnMessage(db, session.userId, kind)
    requires PickInRange(config, kind, pick)
    ensures var db' := RemoveMessage(db, config, session, kind).db;
      && SelectMessage(db', config, kind, session, pick) == None
      && Dispatch(config, kind, limited, session, db', pick) == None
  {
  }

  // ---- toggle ---------------------------------------------------------------------

  function LowerChar(c: char): char {
    if 'A' <= c <= 'Z' then (c as int + 32) as char else c
  }

  /** `toLowerCase` on ASCII letters. */
  function ToLower(s: string): (r: string)
    ensures |r| == |s|
  {
    if s == [] then [] else [LowerChar(s[0])] + ToLower(s[1..])
  }

  /** A string without upper-case ASCII letters is its own lower case. */
  lemma {:induction false} NoUpperUnchanged(s: string)
    requires forall i :: 0 <= i < |s| ==> !('A' <= s[i] <= 'Z')
    ensures ToLower(s) == s
  {
    if s != [] {
      NoUpperUnchanged(s[1..]);
      assert s == [s[0]] + s[1..];
    }
  }

  /** `eventMap[key]` restricted to the map's own three entries. */
  function ParseEvent(name: string): (r: Option<EventKind>)
    ensures r.Some? <==> name == "add" || name == "remove" || name == "refresh"
    ensures r.Some? ==> KindName(r.value) == name
  {
    if name == "add" then Some(Add)
    else if name == "remove" then Some(Remove)
    else if name == "refresh" then Some(Refresh)
    else None
  }

  /** The user's current state of an event: an unset switch counts as on (`!== false`). */
  predicate IsOn(row: Row, kind: EventKind) {
    FlagOf(row, kind) != Some(false)
  }

  /**
   * `iirose.welcome.toggle [event] [enable]`. Without an event it reports the
   * three states and writes nothing; an event name that is not add, remove or
   * refresh after lowercasing is refused with no write; otherwise the switch is
   * set to `enable`, or flipped when `enable` is absent, and only that column of
   * that user's row changes (a missing row is created from `created`). The current
   * state is read from the stored row, or from BlankRow when there is none.
   */
  function Toggle(db: Table, session: Session, event: string, enable: Option<bool>, created: Row): (r: Outcome)
    ensures var row := RowOf(db, session.userId, BlankRow);
      event == "" ==> r == Outcome(Status(IsOn(row, Add), IsOn(row, Remove), IsOn(row, Refresh)), db)
    ensures event != "" && ParseEvent(ToLower(event)).None? ==> r == Outcome(InvalidEvent, db)
    ensures var parsed := ParseEvent(ToLower(event));
      event != "" && parsed.Some? ==>
        var kind := parsed.value;
        var row := RowOf(db, session.userId, BlankRow);
        var state := if enable.Some? then enable.value else !IsOn(row, kind);
        && r.reply == Switched(kind, state)
        && r.db.Keys == db.Keys + {session.userId}
        && OthersUntouched(db, r.db, session.userId)
        && FlagOf(r.db[session.userId], kind) == Some(state)
        && AgreeExceptFlag(RowOf(db, session.userId, created), r.db[session.userId], kind)
  {
    var row := RowOf(db, session.userId, BlankRow);
    if event == "" then Outcome(Status(IsOn(row, Add), IsOn(row, Remove), IsOn(row, Refresh)), db)
    else
      var parsed := ParseEvent(ToLower(event));
      if parsed.None? then Outcome(InvalidEvent, db)
      else
        var kind := parsed.value;
        var state := enable.GetOr(!IsOn(row, kind));
        Outcome(Switched(kind, state), db[session.userId := WithFlag(RowOf(db, session.userId, created), kind, state)])
  }

  /** Switching an event off silences every later event of that kind for that user. */
  lemma ToggleOffSilences(db: Table, session: Session, event: string, kind: EventKind,
                          created: Row, config: Config, limited: bool, later: Session, pick: nat)
    requires event != "" && ParseEvent(ToLower(event)) == Some(kind)
    requires later.userId == session.userId
    requires PickInRange(config, kind, pick)
    ensures Dispatch(config, kind, limited, later, Toggle(db, session, event, Some(false), created).db, pick) == None
  {
  }

  /** Two toggles without `enable` bring the user's state of that event back to what it was. */
  lemma ToggleTwiceRestores(db: Table, session: Session, event: string, kind: EventKind, created: Row)
    requires event != "" && ParseEvent(ToLower(event)) == Some(kind)
    ensures var db2 := Toggle(Toggle(db, session, event, None, created).db, session, event, None, created).db;
      IsOn(RowOf(db2, session.userId, BlankRow), kind) == IsOn(RowOf(db, session.userId, BlankRow), kind)
  {
  }

  /**
   * With the ORM's created row, the first `toggle` of a user without a row
   * also takes away every default message of that user: the created `''`
   * columns count as custom messages that say "send nothing".
   */
  lemma OrmToggleSilencesDefaults(db: Table, session: Session, event: string, enable: Option<bool>,
                                  config: Config, kind: EventKind, pick: nat)
    requires session.userId !in db
    requires event != "" && ParseEvent(ToLower(event)).Some?
    requires 0 < |Defaults(config, kind)| && PickInRange(config, kind, pick)
    ensures SelectMessage(db, config, kind, session, pick).Some?
    ensures SelectMessage(Toggle(db, session, event, enable, OrmFreshRow).db, config, kind, session, pick) == None
  {
  }

  /**
   * `eventMap[key]` as the source evaluates it: the object literal also answers
   * for the names it inherits from Object.prototype, and the only ones that are
   * already lower case are `constructor` and `__proto__`.
   */
  datatype ColumnLookup = Column(kind: EventKind) | Inherited(name: string)

  function EventColumnAsWritten(event: string): (r: Option<ColumnLookup>)
    ensures r.Some? && r.value.Column? ==> KindName(r.value.kind) == ToLower(event)
  {
    var key := ToLower(event);
    match ParseEvent(key)
    case Some(kind) => Some(Column(kind))
    case None => if key == "constructor" || key == "__proto__" then Some(Inherited(key)) else None
  }

  /**
   * The source's guard `if (!dbKey)` lets `toggle constructor` through: the
   * lookup is truthy although no column is named, and the command goes on to
   * write a column that does not exist. The model's Toggle refuses it.
   */
  lemma InheritedNamePassesGuard()
    ensures EventColumnAsWritten("constructor") == Some(Inherited("constructor"))
    ensures Toggle(map[], Session("u", "u", "iirose", "bot", "c"), "constructor", None, BlankRow).reply == InvalidEvent
  {
    NoUpperUnchanged("constructor");
  }

  /** On every other event name the source's lookup and ParseEvent agree after lowercasing. */
  lemma AsWrittenAgreesElsewhere(event: string)
    requires ToLower(event) != "constructor" && ToLower(event) != "__proto__"
    ensures EventColumnAsWritten(event).Some? <==> ParseEvent(ToLower(event)).Some?
    ensures ParseEvent(ToLower(event)).Some? ==>
      EventColumnAsWritten(event) == Some(Column(ParseEvent(ToLower(event)).value))
  {
  }
}
