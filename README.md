# iirose-welcome, modelled in Dafny

A model of the welcome plugin of the iirose plugin set (`packages/iirose-welcome/src/index.ts`):
a bot greets users who join a room, says goodbye to users who leave, and remarks on users who
refresh. Each user can set, remove and switch off their own messages. A per-user, per-event
cooldown keeps one user from being greeted over and over.

The model has four files:

- `wrappers.dfy` (`Wrappers`): an `Option` type, used for values the source reads as `undefined`.
- `cooldown.dfy` (`Cooldown`): the cooldown tracker. It is a class with the two maps the plugin
  keeps: `userEventTimestamps` becomes `timestamps` and `cleanupTimers` becomes `timers`. Both are
  keyed by `` `${userId}:${eventType}` ``. Two more fields model the host's timer queue: the set
  of timer handles still scheduled, and the next fresh handle. So `clearTimeout` is visible in
  the model. `Date.now()` is the parameter `now`, in milliseconds. A timer elapsing is the
  method `Fire`.
- `render.dfy` (`Render`): `renderMessage`. It replaces each `(@)` of a template with a mention
  of the user. `split`, the `flatMap` and the `filter(Boolean)` are modelled step by step.
- `welcome.dfy` (`Welcome`): the table `iirose_welcome` as a map from uid to row, and the message
  choice of getWelcome/getExit/getRefresh. Also the `set`/`rm` commands for the three events, the
  `toggle` command, and the guard sequence of the three event handlers.

The three pieces fit together in one method, `Welcome.OnMemberEvent`. It calls the tracker's
`IsRateLimited`, reads the table and chooses and renders a message. Its result is what
`Welcome.Dispatch` says.

Some details follow the code exactly:

- A stored timestamp of 0 counts as absent. The source tests `lastEventTime &&`, so an event
  accepted at time 0 does not suppress the next one, although a record is stored for it.
  `Cooldown.ZeroTimestampScenario` shows this.
- The cleanup timer is started with `setTimeout(..., cooldown * 1000)`. Node.js replaces a delay
  above 2147483647 ms (about 24.8 days) with 1 ms. So with a cooldown above 2147483 seconds the
  record is deleted almost at once, and the next event is accepted after that deletion. The model
  writes this clamp out as `Cooldown.TimerDelay`; `Cooldown.LongCooldownScenario` shows the early
  expiry.
- The refresh handler has no self-id test. The rate check runs before the self-id test, so the
  bot's own join or leave still starts a cooldown for the bot's id. The same holds in the model for
  the `onlyIIROSE` test, but in the plugin that test drops nothing: the handlers are registered
  under `ctx.platform("iirose")`, a filter the model leaves out.
- A row that an upsert creates is a parameter `created` of `SetMessage` and `Toggle`.
  If the database fills each `'string'` column of a created row with `''`, which is the row
  `Welcome.OrmFreshRow`, then a user's first `set` or `toggle` also stores `''` in the other
  message columns. That `''` means "send nothing", so those events lose their default messages.
  `Welcome.OrmSetSilencesOtherKinds` and `Welcome.OrmToggleSilencesDefaults` state this.

## Model

| member | source | states |
|---|---|---|
| `Cooldown.MakeKey` | packages/iirose-welcome/src/index.ts:116 | no contract of its own; `KeyInjective` states its property |
| `Cooldown.KeyInjective` | packages/iirose-welcome/src/index.ts:116 | two (user, event type) pairs with the same key are the same pair, even when a user id contains `:` |
| `Cooldown.Suppressed` | packages/iirose-welcome/src/index.ts:113-126 | no contract of its own; it is the rate test `IsRateLimited` returns, and its properties are `AcceptedWindow` and `KindsIndependent` |
| `Cooldown.AcceptedWindow` | packages/iirose-welcome/src/index.ts:117-126 | once an event is stored at `at`, a call at any time `now` for that key is suppressed exactly when `at != 0` and `now < at + cooldown*1000`; a clock that has gone back is suppressed too |
| `Cooldown.KindsIndependent` | packages/iirose-welcome/src/index.ts:116-126 | recording one (user, event type) never changes whether any other pair is suppressed, for example another event type of the same user |
| `Cooldown.TimerDelay` | packages/iirose-welcome/src/index.ts:135-139 | the delay the host uses for `setTimeout(..., cooldown * 1000)`: always between 1 and 2147483647 ms, and equal to the requested delay whenever that is in range |
| `Cooldown.TimerDelayCases` | packages/iirose-welcome/src/index.ts:135-139 | for a positive cooldown, the timer runs for the whole window up to 2147483 seconds; above that it runs for 1 ms, shorter than the window |
| `Cooldown.CooldownTracker.constructor` | packages/iirose-welcome/src/index.ts:93-96 | a new tracker is valid, with both maps empty and no timer scheduled |
| `Cooldown.CooldownTracker.IsRateLimited` | packages/iirose-welcome/src/index.ts:110-145 | keeps `Valid()`, so both maps keep the same key set. Returns true exactly when the cooldown is on and a truthy timestamp less than a cooldown old is stored. A suppressed call, or any call with the cooldown off, changes nothing, so the expiry is not extended. An accepted call stores `now`, clears the key's old timer, schedules one fresh timer due `now + TimerDelay(cooldown)`, and leaves every other key as it was |
| `Cooldown.CooldownTracker.Fire` | packages/iirose-welcome/src/index.ts:136-140 | the key's timer callback deletes the key from both maps and unschedules its handle; `Valid()` is kept |
| `Cooldown.CooldownTracker.Dispose` | packages/iirose-welcome/src/index.ts:99-107 | clears every scheduled timer, then empties both maps. The final state is the same whatever the state before, so the method is idempotent |
| `Render.RenderMessage` | packages/iirose-welcome/src/index.ts:165-172 | no contract of its own; its properties are `NoMarkerUnchanged`, `RenderShape`, `RenderRoundTrip` and `RenderUnrender` |
| `Render.Contains` | packages/iirose-welcome/src/index.ts:167 | no contract of its own; it is `includes('(@)')`, and `ContainsIffCount` ties it to the markers `split` cuts at. `RenderMessage` branches on it |
| `Render.Split` | packages/iirose-welcome/src/index.ts:169 | `split('(@)')` yields at least one part, and the first part is a prefix of the template |
| `Render.Interleave` | packages/iirose-welcome/src/index.ts:169-170 | the `flatMap` puts one mention after every part but the last: `2n - 1` segments for `n` parts |
| `Render.DropEmpty` | packages/iirose-welcome/src/index.ts:171 | `filter(Boolean)` leaves no empty text and adds nothing |
| `Render.SplitJoin` | packages/iirose-welcome/src/index.ts:169 | joining the parts of `split('(@)')` with `(@)` gives the template back |
| `Render.ContainsIffCount` | packages/iirose-welcome/src/index.ts:167-169 | `includes('(@)')` holds exactly when the left-to-right count of markers that `split` cuts at is positive |
| `Render.NoMarkerUnchanged` | packages/iirose-welcome/src/index.ts:167 | a template without `(@)` is returned unchanged, as a string |
| `Render.RenderRoundTrip` | packages/iirose-welcome/src/index.ts:165-172 | writing each mention back as `(@)` and concatenating gives the original template, for every template |
| `Render.RenderShape` | packages/iirose-welcome/src/index.ts:167-171 | a template with `(@)` renders to a non-empty segment list with one mention of the user per marker. No text is empty and no text holds a marker. No two texts are adjacent |
| `Render.RenderUnrender` | packages/iirose-welcome/src/index.ts:165-172 | the converse round trip: every well-formed segment list is what its written-back template renders to. So the rendering is the only segmentation of that shape |
| `Welcome.WithMessage` | packages/iirose-welcome/src/index.ts:364-367 | the partial upsert of a message column writes that column and no other |
| `Welcome.WithFlag` | packages/iirose-welcome/src/index.ts:500-503 | the partial upsert `[dbKey]: newState` writes that switch column and no other |
| `Welcome.CustomMessage` | packages/iirose-welcome/src/index.ts:180-184 | no contract of its own; the user's stored message column, or none when the user has no row (also at 216-220 and 252-255). `SelectMessage` and `CustomIgnoresDefaults` state how it decides the choice |
| `Welcome.SelectMessage` | packages/iirose-welcome/src/index.ts:175-267 | a custom string decides alone: `""` yields nothing, anything else yields its rendering. Without one, an empty default list yields nothing; otherwise the result renders some entry of the list |
| `Welcome.CustomIgnoresDefaults` | packages/iirose-welcome/src/index.ts:180-195 | with a custom message, neither the default list nor the random pick affects the choice |
| `Welcome.Sendable` | packages/iirose-welcome/src/index.ts:282 | no contract of its own; `RenderedSendable` states which rendered templates pass it |
| `Welcome.RenderedSendable` | packages/iirose-welcome/src/index.ts:282 | a rendered template passes the handlers' emptiness test exactly when the template is not empty; the empty-array case never arises |
| `Welcome.PlatformAllowed` | packages/iirose-welcome/src/index.ts:274 | no contract of its own; the `onlyIIROSE` test of the handlers (also at 310 and 334) and of the commands (358-361, 375-378, 393-396, 410-413, 428, 442). Used by `Dispatch`, `SetMessage` and `RemoveMessage` |
| `Welcome.SwitchedOff` | packages/iirose-welcome/src/index.ts:279 | no contract of its own; the user's row exists and its switch is `=== false` (also at 315 and 338). Used by `Dispatch`; `ToggleOffSilences` shows a switched-off event sends nothing |
| `Welcome.Dispatch` | packages/iirose-welcome/src/index.ts:270-349 | a message is sent exactly when all of these hold: the global switch is on, the call is not rate-limited, the platform filter passes, the user is not the bot (except on refresh), the user's switch is not explicitly false, and the message is not empty. The chosen message is what is sent. Only a private welcome goes to the user; everything else goes to the channel |
| `Welcome.OnMemberEvent` | packages/iirose-welcome/src/index.ts:270-349 | the handlers send what `Dispatch` says for the tracker's rate decision and keep the tracker valid. With the switch off the tracker is untouched. With the switch on, a suppressed call or an off cooldown leaves all four tracker fields as they were. An accepted rate check stores `now`, replaces the key's timer by a fresh one due `now + TimerDelay(cooldown)` and schedules it, even when a later filter drops the event |
| `Welcome.RefreshIgnoresSelfId` | packages/iirose-welcome/src/index.ts:330-341 | the refresh handler's outcome does not depend on the bot's own id |
| `Welcome.SetMessage` | packages/iirose-welcome/src/index.ts:355-370 | `wb.set` (and `lr.set` at 390-405, `rf.set` at 425-437) does nothing off the platform and rejects an empty message without writing. Otherwise it creates (from `created`) or updates only that user's row, and in it only that message column |
| `Welcome.HasOwnMessage` | packages/iirose-welcome/src/index.ts:380 | no contract of its own; it holds when the user has a row whose message is not empty, which is the negation of the `rm` guard. `RemoveMessage` branches on it |
| `Welcome.RemoveMessage` | packages/iirose-welcome/src/index.ts:372-388 | `wb.rm` (and `lr.rm` at 407-423, `rf.rm` at 439-452) does nothing off the platform. With no row, or a falsy message, it replies "not set" and writes nothing. Otherwise it sets only that message column to `""` |
| `Welcome.SetThenSelect` | packages/iirose-welcome/src/index.ts:364-367 | after a successful `set`, that user's events of that kind render the new message, whatever the defaults |
| `Welcome.SetKeepsOtherKinds` | packages/iirose-welcome/src/index.ts:364-367 | a `set` for one event leaves the message choice for the user's other events as it was, when the user has a row or the created row leaves the other message column unset |
| `Welcome.OrmSetSilencesOtherKinds` | packages/iirose-welcome/src/index.ts:152-163 | if created rows hold `''` in their message columns, a user without a row who sets one message loses the default messages of the other events |
| `Welcome.RemoveThenSilent` | packages/iirose-welcome/src/index.ts:382-385 | after a successful `rm`, that user gets no message of that kind: the `""` left behind means "send nothing", not "use the defaults" |
| `Welcome.ToLower` | packages/iirose-welcome/src/index.ts:483 | `toLowerCase` on ASCII letters keeps the length; `NoUpperUnchanged` shows a string without upper-case letters is unchanged |
| `Welcome.NoUpperUnchanged` | packages/iirose-welcome/src/index.ts:483 | `toLowerCase` leaves a string without upper-case ASCII letters as it is |
| `Welcome.ParseEvent` | packages/iirose-welcome/src/index.ts:462-488 | the event map accepts exactly `add`, `remove` and `refresh`, and maps each to its own event |
| `Welcome.IsOn` | packages/iirose-welcome/src/index.ts:473-475 | no contract of its own; the `!== false` test, so an unset switch counts as on. `Toggle` reports and flips it, and `ToggleTwiceRestores` shows two flips restore it |
| `Welcome.Toggle` | packages/iirose-welcome/src/index.ts:454-506 | with no event, the command reports the three states (an unset switch counts as on) and writes nothing. An invalid name after lowercasing is refused with no write. Otherwise the switch becomes `enable`, or the flip of the current state when `enable` is absent. The current state of a user without a row is read from `{ uid }`. Only that column of that user's row changes, and a missing row is created from `created` |
| `Welcome.ToggleOffSilences` | packages/iirose-welcome/src/index.ts:500-503 | after a `toggle` whose `enable` arrives as `false`, no later event of that kind sends anything for that user |
| `Welcome.ToggleTwiceRestores` | packages/iirose-welcome/src/index.ts:471-498 | two toggles without `enable` restore the user's state of that event |
| `Welcome.OrmToggleSilencesDefaults` | packages/iirose-welcome/src/index.ts:500-503 | if created rows hold `''` in their message columns, the first `toggle` of a user without a row takes away that user's default messages for every event |
| `Welcome.EventColumnAsWritten` | packages/iirose-welcome/src/index.ts:483-488 | the source's `eventMap[event.toLowerCase()]` lookup, including the names the object literal inherits. A column it finds is named by the lowercased event |
| `Welcome.InheritedNamePassesGuard` | packages/iirose-welcome/src/index.ts:483-488 | `toggle constructor` passes the source's `!dbKey` guard, which `Toggle` refuses |
| `Welcome.AsWrittenAgreesElsewhere` | packages/iirose-welcome/src/index.ts:484-485 | for every event whose lower case is not one of those inherited names, the source's lookup and `ParseEvent` of the lower case agree |

## Findings

| source | as written | input that shows it | evidently intended | confidence | as-written member | corrected member |
|---|---|---|---|---|---|---|
| packages/iirose-welcome/src/index.ts:483-488 | `eventMap[key]` on an object literal, rejected only when falsy. Lower-case names inherited from `Object.prototype` are truthy | `iirose.welcome.toggle constructor`: the lookup returns the `Object` function, so the guard passes. The command then upserts a column named after that function and replies that "constructor" was switched off | refuse every name other than add, remove and refresh ("invalid event name") | not executed; the guard behaviour follows from JavaScript's property lookup. What the database does with the bogus column is not modelled | `Welcome.EventColumnAsWritten`, `Welcome.InheritedNamePassesGuard` | `Welcome.ParseEvent` (used by `Welcome.Toggle`) |

## Left out

- Time and timers: `Date.now()` is the parameter `now`, and `setTimeout`'s callback is the
  explicit `Fire`. The model does not oblige the host to fire a timer only once it is due; `Valid()`
  only records each timer's due time.
- The database and the `await` points: the table is an in-memory map and each handler or command is
  one sequential step, with no interleaving between handlers.
- SetKeepsOtherKinds: holds for a user without a row only when the row the database creates
  leaves the other message columns unset. It covers the create branches of `SetMessage` and
  `Toggle`. Which initial values the database really gives a created row is left open as the
  parameter `created`; no particular `created` is built into the model. If the database gives
  string columns `''` (`OrmFreshRow`), the other events of such a user send nothing.
- `Random.pick`: the caller supplies the index `pick`, which must lie in the default list when that
  list is not empty.
- Sending: `bot.sendMessage` and `sendPrivateMessage` are not modelled; the handler returns the
  delivery it would send. Send errors and the logger calls in the `catch` blocks are left out too.
- Reply wording, the usage text, the `Config` schema and the internals of `h.at` are left out.
  A mention is the segment `At(userId, name)`.
- The framework's own `ctx.platform("iirose")` filter on the handlers is left out; the handlers'
  own `onlyIIROSE` test is modelled. In the plugin every session a handler sees is on `iirose`, so
  there that test never drops an event; only the model can reach that case.
- `cooldown` is an integer number of seconds; fractional values are not modelled.
- A missing command argument and an empty one are both the empty string; the source treats both
  as falsy.
- Toggle: `enable` is whatever boolean, or nothing, the framework's argument parser passes for
  `[enable:boolean]`. How the parser turns the typed word (`true`, `false`, anything else) into
  that value is not modelled; the framework is not part of this model.
- `toLowerCase` is modelled on ASCII letters only. No other character lowercases to a letter of
  `add`, `remove` or `refresh`, so validity is decided the same way.
- The source's `toggle` after the inherited-name guard writes a column that does not exist.
  The model's `Toggle` refuses those names instead (see Findings).
- `packages/word-core-iirose-event-trigger/src/index.ts` and `packages/iirose-self-cut/src/index.ts`
  are not part of this model. They only pass fixed strings to an external trigger engine or send
  fixed text.
