/** The Redis commands behind the mutex and the semaphore, and the decorator that runs one job
    under them. Times are Redis milliseconds. */
module RedisLeases {
  import opened Prelude

  /** Each held token with the instant its lease ends: the one key of a mutex, or the sorted set. */
  type Leases = map<string, int>

  /** SET NX still sees a mutex key at the instant it expires; the semaphore script drops scores
      up to and including now. */
  predicate Holds(limit: int, until: int, now: int) {
    if limit == 1 then now <= until else now < until
  }

  function StillHeld(limit: int, leases: Leases, now: int): Leases {
    map t | t in leases && Holds(limit, leases[t], now) :: leases[t]
  }

  predicate CanAcquire(limit: int, leases: Leases, now: int) {
    |StillHeld(limit, leases, now)| < limit
  }

  function AfterAcquire(limit: int, leases: Leases, now: int, token: string, ttlMs: int): Leases {
    var held := StillHeld(limit, leases, now);
    if |held| < limit then held[token := now + ttlMs] else held
  }

  function AfterRelease(limit: int, leases: Leases, now: int, token: string): Leases {
    (if limit == 1 then StillHeld(limit, leases, now) else leases) - {token}
  }

  datatype Lease = Lease(token: string, until: int)

  class RedisServer {
    var now: int
    var strings: map<string, Lease>
    var sortedSets: map<string, map<string, int>>

    constructor (clock: int)
      ensures now == clock && strings == map[] && sortedSets == map[]
    {
      now, strings, sortedSets := clock, map[], map[];
    }

    /** What is stored for a key that is used with this limit. */
    function Table(limit: int, key: string): Leases
      reads this
    {
      if limit == 1 then (if key in strings then map[strings[key].token := strings[key].until] else map[])
      else if key in sortedSets then sortedSets[key] else map[]
    }

    /** Redis never answers from a key past its expiry. */
    method ExpireString(key: string)
      modifies this`strings
      ensures Table(1, key) == StillHeld(1, old(Table(1, key)), now)
      ensures key in strings ==> now <= strings[key].until
      ensures forall k :: k != key ==> Table(1, k) == old(Table(1, k))
    {
      if key in strings && now > strings[key].until {
        strings := strings - {key};
      }
    }

    /** SET key token NX PX ttl; Redis refuses an expiry that is not positive. */
    method AcquireMutex(key: string, token: string, ttlMs: int) returns (acquired: Result<bool>)
      modifies this`strings
      ensures ttlMs <= 0 ==> acquired.Raised? && strings == old(strings)
      ensures ttlMs > 0 ==> acquired == Ok(CanAcquire(1, old(Table(1, key)), now))
      ensures ttlMs > 0 ==> Table(1, key) == AfterAcquire(1, old(Table(1, key)), now, token, ttlMs)
      ensures forall k :: k != key ==> Table(1, k) == old(Table(1, k))
    {
      if ttlMs <= 0 {
        return Raised("RedisError");
      }
      ExpireString(key);
      if key in strings {
        assert strings[key].token in StillHeld(1, Table(1, key), now);
        return Ok(false);
      }
      assert Table(1, key) == map[];
      strings := strings[key := Lease(token, now + ttlMs)];
      return Ok(true);
    }

    /** The release script: delete the key only while it still holds the caller's token. */
    method ReleaseMutex(key: string, token: string) returns (deleted: int)
      modifies this`strings
      ensures Table(1, key) == AfterRelease(1, old(Table(1, key)), now, token)
      ensures forall k :: k != key ==> Table(1, k) == old(Table(1, k))
      ensures deleted == if token in StillHeld(1, old(Table(1, key)), now) then 1 else 0
    {
      ExpireString(key);
      if key in strings && strings[key].token == token {
        strings := strings - {key};
        return 1;
      } else {
        return 0;
      }
    }

    /** The acquire script: drop lapsed leases, count the rest, add a lease if there is room. */
    method AcquireSemaphore(key: string, limit: int, token: string, ttlMs: int) returns (result: int)
      requires limit != 1
      modifies this`sortedSets
      ensures result == if CanAcquire(limit, old(Table(limit, key)), now) then 1 else 0
      ensures Table(limit, key) == AfterAcquire(limit, old(Table(limit, key)), now, token, ttlMs)
      ensures forall k :: k != key ==> Table(limit, k) == old(Table(limit, k))
    {
      var zset := if key in sortedSets then sortedSets[key] else map[];
      zset := map t | t in zset && !(zset[t] <= now) :: zset[t];
      assert zset == StillHeld(limit, Table(limit, key), now);
      hide StillHeld;
      var count := |zset|;
      if count < limit {
        zset := zset[token := now + ttlMs];
        result := 1;
      } else {
        result := 0;
      }
      sortedSets := sortedSets[key := zset];
    }

    method ReleaseSemaphore(key: string, limit: int, token: string)
      requires limit != 1
      modifies this`sortedSets
      ensures Table(limit, key) == AfterRelease(limit, old(Table(limit, key)), now, token)
      ensures forall k :: k != key ==> Table(limit, k) == old(Table(limit, k))
    {
      if key in sortedSets {
        sortedSets := sortedSets[key := sortedSets[key] - {token}];
      }
    }

    /** The clock, and whatever other clients of the key do while a body runs. */
    method RunOthers(limit: int, key: string, others: seq<OtherCall>)
      modifies this
      ensures World(Table(limit, key), now) == AfterOthers(limit, old(World(Table(limit, key), now)), others)
    {
      for i := 0 to |others|
        invariant World(Table(limit, key), now) == AfterOthers(limit, old(World(Table(limit, key), now)), others[..i])
      {
        assert others[..i + 1][..i] == others[..i];
        match others[i] {
          case Elapse(ms) => now := now + ms;
          case OtherAcquire(token, ttlMs) =>
            if limit == 1 {
              var _ := AcquireMutex(key, token, ttlMs);
            } else {
              var _ := AcquireSemaphore(key, limit, token, ttlMs);
            }
          case OtherRelease(token) =>
            if limit == 1 {
              var _ := ReleaseMutex(key, token);
            } else {
              ReleaseSemaphore(key, limit, token);
            }
        }
      }
      assert others[..|others|] == others;
    }
  }

  // ---------- the decorator ----------

  datatype OtherCall = Elapse(ms: nat) | OtherAcquire(token: string, ttlMs: int) | OtherRelease(token: string)

  datatype World = World(leases: Leases, now: int)

  function AfterOther(limit: int, w: World, call: OtherCall): World {
    match call
    case Elapse(ms) => w.(now := w.now + ms)
    case OtherAcquire(token, ttlMs) =>
      if limit == 1 && ttlMs <= 0 then w
      else w.(leases := AfterAcquire(limit, w.leases, w.now, token, ttlMs))
    case OtherRelease(token) => w.(leases := AfterRelease(limit, w.leases, w.now, token))
  }

  function AfterOthers(limit: int, w: World, calls: seq<OtherCall>): World {
    if calls == [] then w
    else AfterOther(limit, AfterOthers(limit, w, calls[..|calls| - 1]), calls[|calls| - 1])
  }

  /** What a Redis call does: it works, the request never arrives, or the reply is lost. */
  datatype Fault = NoFault | RequestLost | ReplyLost

  datatype BodyEnd = Returns | RaisesRedisError | RaisesOther

  datatype Outcome = RaisedValueError | Skipped | Returned | Aborted | RaisedFromBody

  /** The decorated function, called once. The token is the uuid it draws, others is what the rest
      of the world does while the body runs. */
  method Concurrency(redis: RedisServer, limit: int, key: string, ttlSeconds: int, token: string,
                     acquireFault: Fault, others: seq<OtherCall>, bodyEnd: BodyEnd, releaseFault: Fault)
    returns (outcome: Outcome, bodyRuns: nat)
    requires token !in redis.Table(limit, key)
    modifies redis
    ensures limit < 1 ==> outcome == RaisedValueError && bodyRuns == 0
    // Without a failing Redis call no lease of this call is left behind, however the body ends.
    ensures acquireFault == NoFault && releaseFault == NoFault ==> token !in redis.Table(limit, key)
    ensures limit >= 1 ==>
      var before := old(World(redis.Table(limit, key), redis.now));
      var room := CanAcquire(limit, before.leases, before.now);
      var acquired := World(AfterAcquire(limit, before.leases, before.now, token, ttlSeconds * 1000), before.now);
      var after := AfterOthers(limit, acquired, others);
      if acquireFault == RequestLost || (limit == 1 && ttlSeconds <= 0) then
        // the acquire itself fails: no body, no change
        outcome == Aborted && bodyRuns == 0 && redis.Table(limit, key) == before.leases
      else if acquireFault == ReplyLost then
        // the lease was taken but its token is lost: it stays until it lapses
        outcome == Aborted && bodyRuns == 0 && redis.Table(limit, key) == acquired.leases
      else if !room then
        outcome == Skipped && bodyRuns == 0 && redis.Table(limit, key) == acquired.leases
      else
        && bodyRuns == 1
        && outcome == (match bodyEnd case Returns => Returned case RaisesRedisError => Aborted case RaisesOther => RaisedFromBody)
        && redis.Table(limit, key) == if releaseFault == RequestLost then after.leases
                                      else AfterRelease(limit, after.leases, after.now, token)
  {
    bodyRuns := 0;
    if limit < 1 {
      return RaisedValueError, 0;
    }
    var held: Option<string> := None;
    var acquired: Result<bool> := Raised("RedisError");
    if acquireFault != RequestLost {
      var ttlMs := ttlSeconds * 1000;
      if limit == 1 {
        acquired := redis.AcquireMutex(key, token, ttlMs);
      } else {
        var result := redis.AcquireSemaphore(key, limit, token, ttlMs);
        acquired := Ok(result == 1);
      }
    }
    if acquired.Raised? || acquireFault == ReplyLost {
      outcome := Aborted;
    } else if !acquired.value {
      outcome := Skipped;
    } else {
      held := Some(token);
      bodyRuns := 1;
      redis.RunOthers(limit, key, others);
      outcome := match bodyEnd
        case Returns => Returned
        case RaisesRedisError => Aborted
        case RaisesOther => RaisedFromBody;
    }
    if held.Some? && releaseFault != RequestLost {
      if limit == 1 {
        var _ := redis.ReleaseMutex(key, held.value);
      } else {
        redis.ReleaseSemaphore(key, limit, held.value);
      }
    }
  }
}
