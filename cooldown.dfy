/**
 * The per-user, per-event cooldown of the welcome plugin: a map from
 * `userId:eventType` keys to the time of the last accepted event, and a map from
 * the same keys to the cleanup timer that forgets the entry once the cooldown
 * has elapsed. Time is the explicit parameter `now` (milliseconds); the host's
 * timer queue is modelled by the set of timer handles still scheduled, and a
 * timer elapsing is the explicit call `Fire`.
 */
module Cooldown {

  /** The three event types a cooldown is kept for. */
  datatype EventKind = Add | Remove | Refresh

  /** The spelling of an event type inside a key. */
  function KindName(kind: EventKind): string {
    match kind
    case Add => "add"
    case Remove => "remove"
    case Refresh => "refresh"
  }

  type Key = string

  /** The key `${userId}:${eventType}`. */
  function MakeKey(userId: string, kind: EventKind): Key {
    userId + ":" + KindName(kind)
  }

  /**
   * Distinct (user, event type) pairs never share a key, even when a user id
   * itself contains ':' — the last character of the key fixes the event type
   * and the length then fixes the user id.
   */
  lemma KeyInjective(u1: string, k1: EventKind, u2: string, k2: EventKind)
    requires MakeKey(u1, k1) == MakeKey(u2, k2)
    ensures u1 == u2 && k1 == k2
  {
    var s := MakeKey(u1, k1);
    assert s[|s| - 1] == KindName(k1)[|KindName(k1)| - 1];
    assert s[|s| - 1] == KindName(k2)[|KindName(k2)| - 1];
    assert k1 == k2 by {
      match k1
      case Add => assert s[|s| - 1] == 'd';
      case Remove => assert s[|s| - 1] == 'e';
      case Refresh => assert s[|s| - 1] == 'h';
    }
    assert |u1| == |u2|;
    assert u1 == s[..|u1|] == u2;
  }

  /** The cooldown in milliseconds, as `config.cooldown * 1000`. */
  function WindowMs(cooldown: int): int {
    cooldown * 1000
  }

  /**
   * Whether a call for `key` at `now` is suppressed: the cooldown is on, a
   * timestamp is stored for the key, it is truthy (a stored 0 counts as absent)
   * and less than the cooldown has passed since it.
   */
  predicate Suppressed(timestamps: map<Key, int>, cooldown: int, key: Key, now: int) {
    && cooldown > 0
    && key in timestamps
    && timestamps[key] != 0
    && now - timestamps[key] < WindowMs(cooldown)
  }

  /**
   * An event accepted at `at` suppresses every call for the same key until the
   * cooldown has passed, and none after it (unless it was accepted at time 0,
   * which the source's truthiness test forgets). A call at a clock earlier
   * than `at` is suppressed too.
   */
  lemma AcceptedWindow(timestamps: map<Key, int>, cooldown: int, key: Key, at: int, now: int)
    requires cooldown > 0
    ensures Suppressed(timestamps[key := at], cooldown, key, now)
        <==> at != 0 && now < at + WindowMs(cooldown)
  {
  }

  /**
   * Accepting an event of one type for a user changes nothing about whether
   * another event type for the same user (or any other user) is suppressed.
   */
  lemma KindsIndependent(timestamps: map<Key, int>, cooldown: int, user: string, kind: EventKind,
                         other: string, otherKind: EventKind, at: int, now: int)
    requires user != other || kind != otherKind
    ensures Suppressed(timestamps[MakeKey(user, kind) := at], cooldown, MakeKey(other, otherKind), now)
        == Suppressed(timestamps, cooldown, MakeKey(other, otherKind), now)
  {
    if MakeKey(user, kind) == MakeKey(other, otherKind) {
      KeyInjective(user, kind, other, otherKind);
    }
  }

  /** The largest delay Node's `setTimeout` honours, 2^31 - 1 ms. */
  const TimeoutMax: int := 0x7FFF_FFFF

  /**
   * The delay the cleanup timer actually waits. Node replaces a delay outside
   * 1 .. 2^31 - 1 ms by 1 ms, so a cooldown above 2147483 s is forgotten after
   * 1 ms although the timestamp test still uses the full cooldown.
   */
  function TimerDelay(cooldown: int): (d: int)
    ensures 1 <= d <= TimeoutMax
    ensures 1 <= WindowMs(cooldown) <= TimeoutMax ==> d == WindowMs(cooldown)
  {
    var w := WindowMs(cooldown);
    if 1 <= w <= TimeoutMax then w else 1
  }

  /** Within Node's limit the timer waits the whole cooldown; above it, one millisecond. */
  lemma TimerDelayCases(cooldown: int)
    requires cooldown > 0
    ensures cooldown <= 2147483 ==> TimerDelay(cooldown) == WindowMs(cooldown)
    ensures cooldown > 2147483 ==> TimerDelay(cooldown) == 1 && TimerDelay(cooldown) < WindowMs(cooldown)
  {
  }

  /** A cleanup timer: its handle in the host's timer queue and the time it is due. */
  datatype Timer = Timer(handle: nat, due: int)

  /** The handles of the timers in `timers`. */
  function Handles(timers: map<Key, Timer>): set<nat> {
    set k | k in timers :: timers[k].handle
  }

  class CooldownTracker {
    /** `config.cooldown`, in seconds; 0 or less turns the cooldown off. */
    const cooldown: int
    /** `userEventTimestamps`: the time each key's last accepted event happened. */
    var timestamps: map<Key, int>
    /** `cleanupTimers`: the timer that will forget each key. */
    var timers: map<Key, Timer>
    /** Handles of timers set by this tracker that are still scheduled (not cleared, not fired). */
    var scheduled: set<nat>
    /** The host's next fresh timer handle. */
    var nextHandle: nat

    /**
     * Both maps have the same keys; exactly the timers in `timers` are still
     * scheduled, each key with its own; each timer is due `TimerDelay` after its
     * key's timestamp; and with the cooldown off nothing is ever recorded.
     */
    ghost predicate Valid()
      reads this
    {
      && timestamps.Keys == timers.Keys
      && scheduled == Handles(timers)
      && (forall k :: k in timers ==> timers[k].handle < nextHandle)
      && (forall k, k' :: k in timers && k' in timers && k != k' ==> timers[k].handle != timers[k'].handle)
      && (forall k :: k in timers ==> timers[k].due == timestamps[k] + TimerDelay(cooldown))
      && (cooldown <= 0 ==> timestamps == map[])
    }

    constructor (cooldown: int)
      ensures Valid()
      ensures this.cooldown == cooldown
      ensures timestamps == map[] && timers == map[] && scheduled == {}
    {
      this.cooldown := cooldown;
      timestamps := map[];
      timers := map[];
      scheduled := {};
      nextHandle := 0;
    }

    /**
     * `isRateLimited(userId, eventType)` at time `now`. A suppressed call, and
     * any call with the cooldown off, changes nothing; an accepted one stores
     * `now` for its key, clears the key's old timer and schedules one fresh
     * timer due `TimerDelay(cooldown)` later, leaving every other key as it was.
     */
    method IsRateLimited(userId: string, kind: EventKind, now: int) returns (limited: bool)
      requires Valid()
      modifies this
      ensures Valid()
      ensures limited == Suppressed(old(timestamps), cooldown, MakeKey(userId, kind), now)
      ensures limited || cooldown <= 0 ==>
        timestamps == old(timestamps) && timers == old(timers)
        && scheduled == old(scheduled) && nextHandle == old(nextHandle)
      ensures !limited && cooldown > 0 ==>
        var key := MakeKey(userId, kind);
        && timestamps == old(timestamps)[key := now]
        && timers == old(timers)[key := Timer(old(nextHandle), now + TimerDelay(cooldown))]
        && scheduled == (if key in old(timers) then old(scheduled) - {old(timers)[key].handle}
                         else old(scheduled)) + {old(nextHandle)}
        && nextHandle == old(nextHandle) + 1
    {
      if cooldown <= 0 {
        return false;
      }
      var key := MakeKey(userId, kind);
      if key in timestamps && timestamps[key] != 0 && now - timestamps[key] < WindowMs(cooldown) {
        return true;
      }
      timestamps := timestamps[key := now];
      if key in timers {
        // clearTimeout(oldTimer)
        HandlesAfterRemove(timers, key);
        scheduled := scheduled - {timers[key].handle};
      }
      var timer := Timer(nextHandle, now + TimerDelay(cooldown));
      nextHandle := nextHandle + 1;
      scheduled := scheduled + {timer.handle};
      ghost var before := timers;
      timers := timers[key := timer];
      HandlesAfterSet(before, key, timer);
      return false;
    }

    /**
     * The timer installed for `key` elapses: its callback deletes the key from
     * both maps. (A key without a timer has nothing that could fire.)
     */
    method Fire(key: Key)
      requires Valid()
      modifies this
      ensures Valid()
      ensures timestamps == old(timestamps) - {key} && timers == old(timers) - {key}
      ensures scheduled == if key in old(timers) then old(scheduled) - {old(timers)[key].handle}
                           else old(scheduled)
      ensures nextHandle == old(nextHandle)
    {
      if key in timers {
        scheduled := scheduled - {timers[key].handle};
        HandlesAfterRemove(timers, key);
      } else {
        assert timers - {key} == timers;
      }
      timestamps := timestamps - {key};
      timers := timers - {key};
    }

    /**
     * The plugin's `dispose` handler: clears every cleanup timer, then empties
     * both maps. Its final state is the empty tracker whatever the state before,
     * so a second call, or a call on an empty tracker, changes nothing.
     */
    method Dispose()
      requires Valid()
      modifies this
      ensures Valid()
      ensures timestamps == map[] && timers == map[] && scheduled == {}
      ensures nextHandle == old(nextHandle)
    {
      var remaining := timers.Values;
      DistinctHandles(timers);
      while remaining != {}
        invariant remaining <= old(timers).Values
        invariant timers == old(timers) && timestamps == old(timestamps) && nextHandle == old(nextHandle)
        invariant scheduled == set t | t in remaining :: t.handle
        invariant forall t, t' :: t in remaining && t' in remaining && t.handle == t'.handle ==> t == t'
        decreases remaining
      {
        var timer :| timer in remaining;
        // clearTimeout(timer)
        scheduled := scheduled - {timer.handle};
        remaining := remaining - {timer};
      }
      timers := map[];
      timestamps := map[];
    }
  }

  lemma HandlesAfterSet(timers: map<Key, Timer>, key: Key, timer: Timer)
    ensures Handles(timers[key := timer])
         == (if key in timers then Handles(timers - {key}) else Handles(timers)) + {timer.handle}
  {
    var after := timers[key := timer];
    var rest := if key in timers then timers - {key} else timers;
    forall h | h in Handles(after)
      ensures h in Handles(rest) + {timer.handle}
    {
      var k :| k in after && after[k].handle == h;
      if k != key {
        assert k in rest && rest[k].handle == h;
      }
    }
    forall h | h in Handles(rest)
      ensures h in Handles(after)
    {
      var k :| k in rest && rest[k].handle == h;
      assert k in after && after[k].handle == h;
    }
    assert key in after && after[key].handle == timer.handle;
  }

  lemma HandlesAfterRemove(timers: map<Key, Timer>, key: Key)
    requires key in timers
    requires forall k :: k in timers && k != key ==> timers[k].handle != timers[key].handle
    ensures Handles(timers - {key}) == Handles(timers) - {timers[key].handle}
  {
    var rest := timers - {key};
    forall h | h in Handles(timers) - {timers[key].handle}
      ensures h in Handles(rest)
    {
      var k :| k in timers && timers[k].handle == h;
      assert k in rest && rest[k].handle == h;
    }
    forall h | h in Handles(rest)
      ensures h in Handles(timers) - {timers[key].handle}
    {
      var k :| k in rest && rest[k].handle == h;
      assert k in timers && timers[k].handle == h;
    }
  }

  lemma DistinctHandles(timers: map<Key, Timer>)
    requires forall k, k' :: k in timers && k' in timers && k != k' ==> timers[k].handle != timers[k'].handle
    ensures Handles(timers) == set t | t in timers.Values :: t.handle
    ensures forall t, t' :: t in timers.Values && t' in timers.Values && t.handle == t'.handle ==> t == t'
  {
  }

  /**
   * Example run of the tracker, at millisecond times: different event types are
   * independent, a suppressed call does not extend the window, an elapsed timer
   * forgets its key, and dispose is idempotent.
   */
  method Scenarios() {
    var tracker := new CooldownTracker(10);
    var r := tracker.IsRateLimited("u1", Add, 1000);
    assert !r;
    r := tracker.IsRateLimited("u1", Remove, 1000);
    assert !r;
    r := tracker.IsRateLimited("u1", Add, 6000);
    assert r;
    r := tracker.IsRateLimited("u1", Add, 11500);
    assert !r;
    tracker.Fire(MakeKey("u1", Add));
    tracker.Fire(MakeKey("u1", Remove));
    assert tracker.timestamps == map[];
    tracker.Dispose();
    tracker.Dispose();
    assert tracker.timestamps == map[] && tracker.timers == map[];
  }

  /**
   * A timestamp of 0 is falsy in the source, so an event accepted at time 0
   * does not suppress the next one; with the cooldown off nothing is recorded.
   */
  method ZeroTimestampScenario() {
    var quirk := new CooldownTracker(1);
    var r := quirk.IsRateLimited("bob", Refresh, 0);
    assert !r;
    r := quirk.IsRateLimited("bob", Refresh, 500);
    assert !r;
    r := quirk.IsRateLimited("bob", Refresh, 700);
    assert r;

    var off := new CooldownTracker(0);
    r := off.IsRateLimited("u1", Add, 5);
    r := off.IsRateLimited("u1", Add, 6);
    assert !r && off.timestamps == map[];
  }

  /**
   * A cooldown of 2147484 s asks for a delay above 2^31 - 1 ms, so the cleanup
   * timer is due 1 ms later and, once it has fired, the next call is accepted.
   */
  method LongCooldownScenario() {
    var long := new CooldownTracker(2147484);
    var r := long.IsRateLimited("u1", Add, 1000);
    assert long.timers[MakeKey("u1", Add)].due == 1001;
    r := long.IsRateLimited("u1", Add, 1001);
    assert r;
    long.Fire(MakeKey("u1", Add));
    r := long.IsRateLimited("u1", Add, 1002);
    assert !r;
  }
}
