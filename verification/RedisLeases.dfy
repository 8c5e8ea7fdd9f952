/** Worker leases in Redis: a key set only when absent, with an expiry and a random token, and
    released only by the token that set it. */
module RedisLeases {
  import opened Common
  import Text

  /** Server time is in milliseconds, durations are in nanoseconds. */
  const MILLISECOND := 1_000_000
  const DEFAULT_TTL := 5_000_000_000

  datatype Entry = Entry(token: string, expires: nat)

  type Keys = map<string, Entry>

  predicate Live(keys: Keys, key: string, now: nat) {
    key in keys && now < keys[key].expires
  }

  /** The milliseconds that are sent; a duration below one millisecond becomes 0. */
  function Expiry(ttl: int): nat {
    (if ttl <= 0 then DEFAULT_TTL else ttl) / MILLISECOND
  }

  function SetIfAbsent(keys: Keys, key: string, token: string, milliseconds: nat, now: nat): Keys {
    if milliseconds == 0 || Live(keys, key, now) then keys else keys[key := Entry(token, now + milliseconds)]
  }

  /** The release script compares and deletes in one atomic step. */
  function DeleteIfOwn(keys: Keys, key: string, token: string, now: nat): Keys {
    if Live(keys, key, now) && keys[key].token == token then keys - {key} else keys
  }

  class RedisCoordinator {
    const prefix: string
    var keys: Keys

    constructor (prefix: string)
      ensures keys == map[]
      ensures this.prefix == if Text.Blank(prefix) then "bucketmux" else prefix
    {
      this.prefix := if Text.Blank(prefix) then "bucketmux" else prefix;
      keys := map[];
    }

    function WorkerKey(name: string): string {
      prefix + ":worker:" + name
    }

    /** Redis refuses an expiry of 0 milliseconds. */
    method TryAcquire(name: string, ttl: int, token: string, now: nat) returns (r: Result<Option<string>>)
      modifies this`keys
      ensures keys == SetIfAbsent(old(keys), WorkerKey(name), token, Expiry(ttl), now)
      ensures r.Err? <==> 0 < ttl < MILLISECOND
      ensures r.Ok? ==> (r.value == None <==> Live(old(keys), WorkerKey(name), now))
      ensures r.Ok? && r.value.Some? ==> (r.value.value == token && Live(keys, WorkerKey(name), now)
          && keys[WorkerKey(name)].token == token)
    {
      var duration := ttl;
      if duration <= 0 {
        duration := DEFAULT_TTL;
      }
      var milliseconds := duration / MILLISECOND;
      if milliseconds == 0 {
        return Err(AdapterFailed);
      }
      var key := WorkerKey(name);
      if key in keys && now < keys[key].expires {
        return Ok(None);
      }
      keys := keys[key := Entry(token, now + milliseconds)];
      return Ok(Some(token));
    }

    method Release(key: string, token: string, now: nat)
      modifies this`keys
      ensures keys == DeleteIfOwn(old(keys), key, token, now)
    {
      if key in keys && now < keys[key].expires && keys[key].token == token {
        keys := keys - {key};
      }
    }
  }

  // ---- runs ------------------------------------------------------------

  /** A lease as its holder knows it: the key, and the time at which it expires. */
  datatype Grant = Grant(key: string, until: nat)

  /** `granted` has every lease ever handed out and not released, by token. */
  datatype World = World(now: nat, keys: Keys, granted: map<string, Grant>, used: set<string>)

  datatype Step =
    | Tick(to: nat)
    | Acquire(key: string, ttl: int, token: string)
    | Release(token: string)

  /** Tokens are random and never drawn twice; a holder may release long after its expiry. */
  function Apply(w: World, step: Step): World {
    match step
    case Tick(to) => if to < w.now then w else w.(now := to)
    case Acquire(key, ttl, token) =>
      if token in w.used then w
      else if Expiry(ttl) == 0 || Live(w.keys, key, w.now) then w.(used := w.used + {token})
      else w.(keys := SetIfAbsent(w.keys, key, token, Expiry(ttl), w.now),
              granted := w.granted[token := Grant(key, w.now + Expiry(ttl))],
              used := w.used + {token})
    case Release(token) =>
      if token !in w.granted then w
      else w.(keys := DeleteIfOwn(w.keys, w.granted[token].key, token, w.now), granted := w.granted - {token})
  }

  function Run(w: World, steps: seq<Step>): World
    decreases steps
  {
    if steps == [] then w else Run(Apply(w, steps[0]), steps[1..])
  }

  predicate Holds(w: World, token: string) {
    token in w.granted && w.now < w.granted[token].until
  }

  /** An unexpired, unreleased lease is the entry under its key. */
  predicate Backed(w: World, token: string) {
    Holds(w, token) ==>
      w.granted[token].key in w.keys && w.keys[w.granted[token].key] == Entry(token, w.granted[token].until)
  }

  ghost predicate Sound(w: World) {
    (forall token :: Backed(w, token)) && w.granted.Keys <= w.used
  }

  lemma StepSound(w: World, step: Step)
    requires Sound(w)
    ensures Sound(Apply(w, step))
  {
    var after := Apply(w, step);
    forall token ensures Backed(after, token) {
      assert Backed(w, token);
    }
  }

  lemma {:induction false} RunSound(w: World, steps: seq<Step>)
    requires Sound(w)
    ensures Sound(Run(w, steps))
    decreases steps
  {
    if steps != [] {
      StepSound(w, steps[0]);
      RunSound(Apply(w, steps[0]), steps[1..]);
    }
  }

  /** No run ever gives one key to two unexpired holders. */
  lemma NeverTwoHolders(steps: seq<Step>, a: string, b: string)
    ensures var w := Run(World(0, map[], map[], {}), steps);
            Holds(w, a) && Holds(w, b) && w.granted[a].key == w.granted[b].key ==> a == b
  {
    var start := World(0, map[], map[], {});
    RunSound(start, steps);
    var w := Run(start, steps);
    assert Backed(w, a) && Backed(w, b);
  }

  predicate Releases(step: Step, token: string) {
    step.Release? && step.token == token
  }

  lemma StepKeepsLease(w: World, step: Step, token: string)
    requires Sound(w) && Holds(w, token) && !Releases(step, token)
    ensures var after := Apply(w, step); token in after.granted && after.granted[token] == w.granted[token]
  {}

  lemma {:induction false} ClockForward(w: World, steps: seq<Step>)
    ensures w.now <= Run(w, steps).now
    decreases steps
  {
    if steps != [] {
      ClockForward(Apply(w, steps[0]), steps[1..]);
    }
  }

  /** Until it expires, a lease can be taken away by nothing but its own release: no acquisition
      and no release of another lease, however late, removes it. */
  lemma {:induction false} LeaseSurvives(w: World, steps: seq<Step>, token: string)
    requires Sound(w) && Holds(w, token)
    requires forall i :: 0 <= i < |steps| ==> !Releases(steps[i], token)
    requires Run(w, steps).now < w.granted[token].until
    ensures Holds(Run(w, steps), token) && Run(w, steps).granted[token] == w.granted[token]
    ensures var after := Run(w, steps); (after.granted[token].key in after.keys
        && after.keys[after.granted[token].key].token == token)
    decreases steps
  {
    if steps == [] {
      assert Backed(w, token);
    } else {
      StepSound(w, steps[0]);
      StepKeepsLease(w, steps[0], token);
      ClockForward(Apply(w, steps[0]), steps[1..]);
      LeaseSurvives(Apply(w, steps[0]), steps[1..], token);
    }
  }

  /** A release changes the keys exactly when the releasing token still owns the live entry. */
  lemma ReleaseIsOwn(w: World, token: string)
    requires Sound(w) && token in w.granted
    ensures Apply(w, Release(token)).keys != w.keys <==>
            Live(w.keys, w.granted[token].key, w.now) && w.keys[w.granted[token].key].token == token
    ensures forall other :: other != token && Holds(w, other) ==> Holds(Apply(w, Release(token)), other)
  {
    var key := w.granted[token].key;
    if Live(w.keys, key, w.now) && w.keys[key].token == token {
      assert key !in (w.keys - {key});
    }
  }

  /** A key that nobody holds unexpired is given to the next caller with an expiry of a millisecond or
      more, for that many whole milliseconds, five seconds if none is asked; then it is free again. */
  lemma LeaseIsGiven(w: World, key: string, ttl: int, token: string, later: nat)
    requires token !in w.used && token !in w.granted && (ttl <= 0 || ttl >= 1_000_000)
    requires key in w.keys ==> w.keys[key].expires <= w.now
    ensures var after := Apply(w, Acquire(key, ttl, token));
            var lasts := if ttl <= 0 then 5_000 else ttl / 1_000_000;
            && token in after.granted && after.granted[token] == Grant(key, w.now + lasts)
            && key in after.keys && after.keys[key].token == token && after.keys - {key} == w.keys - {key}
            && (Live(after.keys, key, later) <==> later < w.now + lasts)
  {}

  /** A key that is held unexpired is given to nobody else. */
  lemma LeaseIsRefused(w: World, key: string, ttl: int, token: string)
    requires key in w.keys && w.now < w.keys[key].expires
    ensures var after := Apply(w, Acquire(key, ttl, token)); after.keys == w.keys && after.granted == w.granted
  {}
}
