/** The debounce registry: one quiescence timer per watch key. A qualifying event arms
    or resets the key's timer; a timer whose deadline has passed fires, hands the key's
    move to the relocator and leaves the registry. Time is an abstract integer clock in
    nanoseconds, and each call is one atomic step. */
module Debounce {
  import opened Wrappers
  import Paths

  /** A *time.Timer. `id` tells timer objects apart; a stopped timer has no deadline. */
  datatype Timer = Stopped(id: nat) | Armed(id: nat, deadline: int)

  /** The map from watch key to timer, and the number of timer objects made so far. */
  datatype Registry = Registry(timers: map<string, Timer>, issued: nat)

  /** The rename the callback asks for: source path to destination path. */
  datatype Move = Move(src: seq<string>, dst: seq<string>)

  /** What a firing timer leaves behind. */
  datatype Fired = Fired(next: Registry, move: Move)

  const Empty: Registry := Registry(map[], 0)

  /** Every timer in the map is armed and was made by this registry, and no timer
      object is held under two keys. */
  ghost predicate Valid(r: Registry) {
    && (forall k :: k in r.timers ==> r.timers[k].Armed? && r.timers[k].id < r.issued)
    && (forall k, k' :: k in r.timers && k' in r.timers && k != k' ==> r.timers[k].id != r.timers[k'].id)
  }

  /** The timer for `key`, if there is one. */
  function Lookup(r: Registry, key: string): Option<Timer> {
    if key in r.timers then Some(r.timers[key]) else None
  }

  /** A qualifying event for `key` at time `now`: an absent key gets a new timer, made
      stopped; then the key's timer is reset to fire `waitFor` from now. The net effect
      is direct scheduling: exactly one entry for the key, keeping the existing timer
      object if there was one, armed at `now + waitFor`, and nothing else touched. */
  function Event(r: Registry, key: string, now: int, waitFor: int): (r': Registry)
    ensures key in r'.timers
    ensures r'.timers[key] == Armed(if key in r.timers then r.timers[key].id else r.issued, now + waitFor)
    ensures r'.timers.Keys == r.timers.Keys + {key}
    ensures forall k :: k in r.timers && k != key ==> r'.timers[k] == r.timers[k]
    ensures |r'.timers| == if key in r.timers then |r.timers| else |r.timers| + 1
    ensures r'.issued == if key in r.timers then r.issued else r.issued + 1
    ensures Valid(r) ==> Valid(r')
  {
    var created :=
      match Lookup(r, key)
      case Some(_) => r
      case None => Registry(r.timers[key := Stopped(r.issued)], r.issued + 1);
    var timer := created.timers[key];
    Registry(created.timers[key := Armed(timer.id, now + waitFor)], created.issued)
  }

  /** The timer for `key` goes off at `now`: only an armed timer whose deadline has come.
      The callback renames join(source, key) to join(destination, key) and then deletes
      the key, whatever the rename's outcome. */
  function Expire(r: Registry, key: string, now: int, source: seq<string>, destination: seq<string>): (o: Option<Fired>)
    ensures o.Some? <==> key in r.timers && r.timers[key].Armed? && r.timers[key].deadline <= now
    ensures o.Some? ==> o.value.next.timers == r.timers - {key} && o.value.next.issued == r.issued
    ensures o.Some? && Valid(r) ==> Valid(o.value.next)
  {
    match Lookup(r, key)
    case Some(Armed(_, deadline)) =>
      if deadline <= now then
        var move := Move(Paths.Join(source, key), Paths.Join(destination, key));
        Some(Fired(Registry(r.timers - {key}, r.issued), move))
      else None
    case _ => None
  }

  /** A key that is a proper name is moved from directly below the source root to
      directly below the destination root. */
  lemma {:induction false} ExpireMovesEntry(r: Registry, key: string, now: int, source: seq<string>, destination: seq<string>)
    requires Paths.IsName(key)
    requires Expire(r, key, now, source, destination).Some?
    ensures Expire(r, key, now, source, destination).value.move == Move(source + [key], destination + [key])
  {
    Paths.JoinName(source, key);
    Paths.JoinName(destination, key);
  }

  /** Resets supersede one another: two events for a key leave what the later one alone would. */
  lemma LaterEventWins(r: Registry, key: string, t1: int, t2: int, waitFor: int)
    ensures Event(Event(r, key, t1, waitFor), key, t2, waitFor) == Event(r, key, t2, waitFor)
  {
    var once := Event(r, key, t2, waitFor);
    var twice := Event(Event(r, key, t1, waitFor), key, t2, waitFor);
    assert twice.timers.Keys == once.timers.Keys;
    forall k | k in once.timers
      ensures twice.timers[k] == once.timers[k]
    {
      if k != key {
        assert k in r.timers;
      }
    }
    assert twice.timers == once.timers;
  }

  /** After firing, the key is absent, so the next expiry for it on the registry that
      firing returned finds nothing, at any time. Watcher.MovesOncePerQuietPeriod states
      the same over a trace with other inputs in between. */
  lemma FiresOnce(r: Registry, key: string, t1: int, t2: int, src: seq<string>, dst: seq<string>)
    requires Expire(r, key, t1, src, dst).Some?
    ensures Expire(Expire(r, key, t1, src, dst).value.next, key, t2, src, dst).None?
  {
  }

  /** No premature fire: a timer armed at `now` does not go off before `now + waitFor`. */
  lemma NoFireBeforeWait(r: Registry, key: string, now: int, waitFor: int, later: int, src: seq<string>, dst: seq<string>)
    requires later < now + waitFor
    ensures Expire(Event(r, key, now, waitFor), key, later, src, dst).None?
  {
  }

  /** After expiry, a new event for the key gets a fresh timer, distinct from every timer
      the registry held before. */
  lemma FreshTimerAfterExpiry(r: Registry, key: string, t: int, now: int, waitFor: int, src: seq<string>, dst: seq<string>)
    requires Valid(r)
    requires Expire(r, key, t, src, dst).Some?
    ensures var r' := Event(Expire(r, key, t, src, dst).value.next, key, now, waitFor);
      forall k :: k in r.timers ==> r'.timers[key].id != r.timers[k].id
  {
  }
}
