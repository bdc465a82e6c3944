/**
 * One dimension of the observation limiter: a bounded map from keys to fixed-window token
 * buckets, and what a whole run of asks does to it.
 *
 * The source hands out `&mut` references into a hash map; here an operation returns the map it
 * leaves behind. Hash-map iteration order is unspecified, so which of several equally old
 * buckets is evicted is not determined: an `Ask` records the victim that was taken.
 */
module TokenBuckets {
  import opened Prelude

  const MAX_TRACKED_SOURCES: nat := 4096
  const SESSION_SOURCE_WINDOW_MS: nat := 60_000
  const GLOBAL_WINDOW_MS: nat := 1_000

  datatype TokenBucket = TokenBucket(tokens: u32, window: u64, lastSeenMs: u64) {
    /** Whether a token is available in the window containing `nowMs`. */
    predicate Peek(nowMs: u64, windowMs: nat)
      requires windowMs > 0
    {
      nowMs / windowMs != window || tokens > 0
    }

    /** Refill when a new window has begun, then take one token (saturating at zero). */
    function Spend(capacity: u32, nowMs: u64, windowMs: nat): TokenBucket
      requires windowMs > 0
    {
      var available := if nowMs / windowMs != window then capacity else tokens;
      TokenBucket(if available == 0 then 0 else available - 1, nowMs / windowMs, nowMs)
    }

    function Touch(nowMs: u64): TokenBucket {
      this.(lastSeenMs := nowMs)
    }

    /** How many tokens a request at `nowMs` would find. */
    function Available(capacity: u32, nowMs: u64, windowMs: nat): u32
      requires windowMs > 0
    {
      if nowMs / windowMs != window then capacity else tokens
    }
  }

  function NewBucket(capacity: u32, nowMs: u64, windowMs: nat): TokenBucket
    requires windowMs > 0
  {
    TokenBucket(capacity, nowMs / windowMs, nowMs)
  }

  /** What a bucket can hand out in a window other than its own; one even if it has no capacity. */
  function Refill(capacity: u32): u32 {
    if capacity == 0 then 1 else capacity
  }

  type Buckets<!K(==)> = map<K, TokenBucket>

  // ----- get-or-create with eviction -----

  ghost predicate IsOldest<K>(m: Buckets<K>, v: K) {
    v in m && forall k :: k in m ==> m[v].lastSeenMs <= m[k].lastSeenMs
  }

  /** The victims `bucket_for` may take when asked for `key`. */
  ghost predicate VictimAllowed<K>(m: Buckets<K>, key: K, victim: Option<K>) {
    if key !in m && |m| >= MAX_TRACKED_SOURCES
    then victim.Some? && IsOldest(m, victim.value)
    else victim.None?
  }

  function BucketFor<K>(m: Buckets<K>, key: K, capacity: u32, nowMs: u64, victim: Option<K>): (r: Buckets<K>)
    ensures key in r
  {
    var kept := if victim.Some? then m - {victim.value} else m;
    if key in kept then kept else kept[key := NewBucket(capacity, nowMs, SESSION_SOURCE_WINDOW_MS)]
  }

  /** `map.iter().min_by_key(..)` over an iteration order nobody chose. */
  method LeastRecentlySeen<K>(m: Buckets<K>) returns (victim: Option<K>)
    ensures m == map[] ==> victim.None?
    ensures m != map[] ==> victim.Some? && IsOldest(m, victim.value)
  {
    victim := None;
    var unseen := m.Keys;
    while unseen != {}
      invariant unseen <= m.Keys
      invariant victim.None? ==> unseen == m.Keys
      invariant victim.Some? ==> victim.value in m
      invariant victim.Some? ==> forall k :: k in m && k !in unseen ==> m[victim.value].lastSeenMs <= m[k].lastSeenMs
      decreases |unseen|
    {
      var k :| k in unseen;
      unseen := unseen - {k};
      if victim.None? || m[k].lastSeenMs < m[victim.value].lastSeenMs {
        victim := Some(k);
      }
    }
  }

  /** `bucket_for`: the map with a bucket for `key` in it, and who had to leave. */
  method GetOrCreate<K>(m: Buckets<K>, key: K, capacity: u32, nowMs: u64)
    returns (r: Buckets<K>, ghost victim: Option<K>)
    ensures VictimAllowed(m, key, victim)
    ensures r == BucketFor(m, key, capacity, nowMs, victim)
  {
    r := m;
    victim := None;
    if key !in m && |m| >= MAX_TRACKED_SOURCES {
      var v := LeastRecentlySeen(m);
      if v.Some? {
        r := r - {v.value};
        victim := v;
      }
    }
    if key !in r {
      r := r[key := NewBucket(capacity, nowMs, SESSION_SOURCE_WINDOW_MS)];
    }
  }

  // ----- one ask, and runs of them -----

  /** One consultation of this dimension; `granted` says whether every dimension let it through. */
  datatype Ask<K> = Ask(key: K, nowMs: u64, victim: Option<K>, granted: bool)

  function Minute(nowMs: u64): u64 {
    nowMs / 60_000
  }

  function Consulted<K>(m: Buckets<K>, capacity: u32, a: Ask<K>): (r: Buckets<K>)
    ensures a.key in r
  {
    BucketFor(m, a.key, capacity, a.nowMs, a.victim)
  }

  /** Whether this dimension has a token for the ask. */
  predicate Permits<K>(m: Buckets<K>, capacity: u32, a: Ask<K>) {
    Consulted(m, capacity, a)[a.key].Peek(a.nowMs, SESSION_SOURCE_WINDOW_MS)
  }

  function Advance<K>(m: Buckets<K>, capacity: u32, a: Ask<K>): Buckets<K> {
    var r := Consulted(m, capacity, a);
    if !Permits(m, capacity, a) then r[a.key := r[a.key].Touch(a.nowMs)]
    else if a.granted then r[a.key := r[a.key].Spend(capacity, a.nowMs, SESSION_SOURCE_WINDOW_MS)]
    else r
  }

  ghost predicate Feasible<K>(m: Buckets<K>, capacity: u32, a: Ask<K>) {
    VictimAllowed(m, a.key, a.victim) && (a.granted ==> Permits(m, capacity, a))
  }

  function After<K>(capacity: u32, asks: seq<Ask<K>>): Buckets<K> {
    if asks == [] then map[] else Advance(After(capacity, Front(asks)), capacity, Last(asks))
  }

  ghost predicate IsRun<K>(capacity: u32, asks: seq<Ask<K>>) {
    asks == [] || (IsRun(capacity, Front(asks)) && Feasible(After(capacity, Front(asks)), capacity, Last(asks)))
  }

  ghost predicate AskedInOrder<K>(asks: seq<Ask<K>>) {
    InOrder(asks, (a: Ask<K>) => a.nowMs)
  }

  function Now<K>(asks: seq<Ask<K>>): u64 {
    if asks == [] then 0 else Last(asks).nowMs
  }

  /** How many asks of `key` were granted in minute `w`. */
  function Grants<K(==)>(asks: seq<Ask<K>>, key: K, w: nat): nat {
    if asks == [] then 0
    else
      var a := Last(asks);
      Grants(Front(asks), key, w) + if a.granted && a.key == key && Minute(a.nowMs) == w then 1 else 0
  }

  function AllGrants<K>(asks: seq<Ask<K>>, w: nat): nat {
    if asks == [] then 0
    else
      var a := Last(asks);
      AllGrants(Front(asks), w) + if a.granted && Minute(a.nowMs) == w then 1 else 0
  }

  /** How many times the bucket of `key` was thrown out during minute `w`. */
  function Evictions<K(==)>(asks: seq<Ask<K>>, key: K, w: nat): nat {
    if asks == [] then 0
    else
      var a := Last(asks);
      Evictions(Front(asks), key, w) + if a.victim == Some(key) && Minute(a.nowMs) == w then 1 else 0
  }

  ghost predicate NoEvictions<K>(asks: seq<Ask<K>>) {
    forall i :: 0 <= i < |asks| ==> asks[i].victim.None?
  }

  ghost function KeysAsked<K>(asks: seq<Ask<K>>): set<K> {
    set i | 0 <= i < |asks| :: asks[i].key
  }

  // ----- the map stays bounded -----

  lemma {:induction false} SizeBound<K>(capacity: u32, asks: seq<Ask<K>>)
    requires IsRun(capacity, asks)
    ensures |After(capacity, asks)| <= MAX_TRACKED_SOURCES
  {
    if asks != [] {
      SizeBound(capacity, Front(asks));
      var m, a := After(capacity, Front(asks)), Last(asks);
      var r := Consulted(m, capacity, a);
      assert After(capacity, asks).Keys == r.Keys;
      if a.victim.Some? {
        assert (m - {a.victim.value}).Keys == m.Keys - {a.victim.value};
        assert r.Keys == m.Keys - {a.victim.value} + {a.key};
      } else {
        assert r.Keys == m.Keys + {a.key};
      }
    }
  }

  /** A bucket that is already tracked is handed out as it is: nobody enters, nobody leaves. */
  lemma CommitNeverEvicts<K>(m: Buckets<K>, key: K, capacity: u32, nowMs: u64, victim: Option<K>)
    requires key in m && VictimAllowed(m, key, victim)
    ensures victim.None? && BucketFor(m, key, capacity, nowMs, victim) == m
  {
  }

  // ----- budgets, when buckets may be evicted -----

  /**
   * What the bucket of `key` says about minute `w` once `g` of its asks were granted in it, `now`
   * being the current minute and `lost` the tokens that went away with evicted buckets.
   */
  ghost predicate WithinBudget(b: Option<TokenBucket>, capacity: u32, w: nat, now: u64, g: nat, lost: nat) {
    && (b.Some? ==> b.value.window <= now && b.value.tokens <= capacity)
    && (now < w ==> g == 0)
    && (now > w ==> g <= capacity + lost)
    && (now == w ==>
      if b.None? then g <= lost
      else if b.value.window == w then g + b.value.tokens <= capacity + lost
      else g == 0)
  }

  function Lookup<K>(m: Buckets<K>, key: K): Option<TokenBucket> {
    if key in m then Some(m[key]) else None
  }

  lemma BudgetStep<K>(m: Buckets<K>, capacity: u32, a: Ask<K>, key: K, w: nat, now: u64, g: nat, lost: nat)
    requires capacity >= 1 && Feasible(m, capacity, a) && now <= Minute(a.nowMs)
    requires WithinBudget(Lookup(m, key), capacity, w, now, g, lost)
    ensures WithinBudget(Lookup(Advance(m, capacity, a), key), capacity, w, Minute(a.nowMs),
                         g + if a.granted && a.key == key && Minute(a.nowMs) == w then 1 else 0,
                         lost + if a.victim == Some(key) && Minute(a.nowMs) == w then capacity else 0)
  {
  }

  lemma {:induction false} BudgetInvariant<K>(capacity: u32, asks: seq<Ask<K>>, key: K, w: nat)
    requires IsRun(capacity, asks) && AskedInOrder(asks) && capacity >= 1
    ensures WithinBudget(Lookup(After(capacity, asks), key), capacity, w, Minute(Now(asks)),
                         Grants(asks, key, w), Times(capacity, Evictions(asks, key, w)))
  {
    if asks != [] {
      var past, a := Front(asks), Last(asks);
      BudgetInvariant(capacity, past, key, w);
      MinuteMonotone(Now(past), a.nowMs);
      BudgetStep(After(capacity, past), capacity, a, key, w, Minute(Now(past)),
                 Grants(past, key, w), Times(capacity, Evictions(past, key, w)));
    }
  }

  lemma MinuteMonotone(t: u64, t': u64)
    requires t <= t'
    ensures Minute(t) <= Minute(t')
  {
  }

  /** `n` times the capacity. */
  function Times(capacity: u32, n: nat): nat {
    if n == 0 then 0 else capacity + Times(capacity, n - 1)
  }

  lemma {:induction false} TimesIsProduct(capacity: u32, n: nat)
    ensures Times(capacity, n) == capacity * n
  {
    if n > 0 {
      TimesIsProduct(capacity, n - 1);
    }
  }

  lemma WithinBudgetBounds(b: Option<TokenBucket>, capacity: u32, w: nat, now: u64, g: nat, lost: nat)
    requires WithinBudget(b, capacity, w, now, g, lost)
    ensures g <= capacity + lost
  {
  }

  lemma GrantsWithinTimes<K>(capacity: u32, asks: seq<Ask<K>>, key: K, w: nat)
    requires IsRun(capacity, asks) && AskedInOrder(asks) && capacity >= 1
    ensures Grants(asks, key, w) <= Times(capacity, Evictions(asks, key, w) + 1)
  {
    hide *;
    var g, e := Grants(asks, key, w), Evictions(asks, key, w);
    assert g <= capacity + Times(capacity, e) by {
      BudgetInvariant(capacity, asks, key, w);
      WithinBudgetBounds(Lookup(After(capacity, asks), key), capacity, w, Minute(Now(asks)), g, Times(capacity, e));
    }
    TimesNext(capacity, e);
  }

  lemma TimesNext(capacity: u32, n: nat)
    ensures Times(capacity, n + 1) == capacity + Times(capacity, n)
  {
  }

  /** Grants to one key in one minute never exceed the capacity times one plus its evictions. */
  lemma GrantsBounded<K>(capacity: u32, asks: seq<Ask<K>>, key: K, w: nat)
    requires IsRun(capacity, asks) && AskedInOrder(asks) && capacity >= 1
    ensures Grants(asks, key, w) <= capacity * (Evictions(asks, key, w) + 1)
  {
    GrantsWithinTimes(capacity, asks, key, w);
    TimesIsProduct(capacity, Evictions(asks, key, w) + 1);
  }

  // ----- budgets, exactly, when nothing is evicted -----

  /** While at most `MAX_TRACKED_SOURCES` keys have asked, nobody is evicted and everybody is tracked. */
  lemma {:induction false} FewKeysNoEvictions<K>(capacity: u32, asks: seq<Ask<K>>)
    requires IsRun(capacity, asks) && |KeysAsked(asks)| <= MAX_TRACKED_SOURCES
    ensures NoEvictions(asks) && After(capacity, asks).Keys == KeysAsked(asks)
  {
    hide KeysAsked, Advance, NoEvictions, Feasible;
    if asks == [] {
      NothingAsked<K>();
    } else {
      var past, a := Front(asks), Last(asks);
      KeysAskedLast(asks);
      SubsetSize(KeysAsked(past), KeysAsked(asks));
      FewKeysNoEvictions(capacity, past);
      RoomForOne(After(capacity, past), capacity, a);
      NoEvictionsLast(asks);
    }
  }

  lemma NothingAsked<K>()
    ensures KeysAsked<K>([]) == {} && NoEvictions<K>([])
  {
  }

  lemma NoEvictionsLast<K>(asks: seq<Ask<K>>)
    requires asks != [] && NoEvictions(Front(asks)) && Last(asks).victim.None?
    ensures NoEvictions(asks)
  {
    forall i | 0 <= i < |asks| ensures asks[i].victim.None? {
      if i < |asks| - 1 { assert Front(asks)[i] == asks[i]; }
    }
  }

  /** A map that still has room for the asker, if it is new, evicts nobody. */
  lemma RoomForOne<K>(m: Buckets<K>, capacity: u32, a: Ask<K>)
    requires Feasible(m, capacity, a) && |m.Keys + {a.key}| <= MAX_TRACKED_SOURCES
    ensures a.victim.None? && Advance(m, capacity, a).Keys == m.Keys + {a.key}
  {
    assert |m| == |m.Keys|;
    if a.key !in m {
      assert |m.Keys + {a.key}| == |m.Keys| + 1;
    }
  }

  lemma KeysAskedLast<K>(asks: seq<Ask<K>>)
    requires asks != []
    ensures KeysAsked(asks) == KeysAsked(Front(asks)) + {Last(asks).key}
  {
  }

  /** The bucket of `key` counts down exactly the grants of its own minute, and no later minute has any. */
  ghost predicate ExactlyCounted(b: Option<TokenBucket>, capacity: u32, w: nat, now: u64, g: nat) {
    && (b.Some? ==> b.value.window <= now)
    && (b.None? ==> g == 0)
    && (b.Some? && b.value.window == w ==> g + b.value.tokens == capacity)
    && (b.Some? && b.value.window < w ==> g == 0)
  }

  /** How many asks of `key` were granted in minute `w` since its bucket was last thrown out. */
  function GrantsSince<K(==)>(asks: seq<Ask<K>>, key: K, w: nat): nat {
    if asks == [] then 0
    else
      var a := Last(asks);
      (if a.victim == Some(key) then 0 else GrantsSince(Front(asks), key, w))
      + if a.granted && a.key == key && Minute(a.nowMs) == w then 1 else 0
  }

  lemma {:induction false} SinceIsAll<K>(asks: seq<Ask<K>>, key: K, w: nat)
    requires NoEvictions(asks)
    ensures GrantsSince(asks, key, w) == Grants(asks, key, w)
  {
    if asks != [] {
      assert asks[|asks| - 1].victim.None?;
      SinceIsAll(Front(asks), key, w);
    }
  }

  lemma CountStep<K>(m: Buckets<K>, capacity: u32, a: Ask<K>, key: K, w: nat, now: u64, g: nat)
    requires capacity >= 1 && Feasible(m, capacity, a) && now <= Minute(a.nowMs)
    requires ExactlyCounted(Lookup(m, key), capacity, w, now, g)
    ensures ExactlyCounted(Lookup(Advance(m, capacity, a), key), capacity, w, Minute(a.nowMs),
                           (if a.victim == Some(key) then 0 else g)
                           + if a.granted && a.key == key && Minute(a.nowMs) == w then 1 else 0)
  {
  }

  /** A bucket counts exactly the grants since it was created, whoever was evicted before. */
  lemma {:induction false} CountSince<K>(capacity: u32, asks: seq<Ask<K>>, key: K, w: nat)
    requires IsRun(capacity, asks) && AskedInOrder(asks) && capacity >= 1
    ensures ExactlyCounted(Lookup(After(capacity, asks), key), capacity, w, Minute(Now(asks)),
                           GrantsSince(asks, key, w))
  {
    if asks != [] {
      var past, a := Front(asks), Last(asks);
      CountSince(capacity, past, key, w);
      MinuteMonotone(Now(past), a.nowMs);
      CountStep(After(capacity, past), capacity, a, key, w, Minute(Now(past)), GrantsSince(past, key, w));
    }
  }

  lemma CountInvariant<K>(capacity: u32, asks: seq<Ask<K>>, key: K, w: nat)
    requires IsRun(capacity, asks) && AskedInOrder(asks) && NoEvictions(asks) && capacity >= 1
    ensures ExactlyCounted(Lookup(After(capacity, asks), key), capacity, w, Minute(Now(asks)), Grants(asks, key, w))
  {
    CountSince(capacity, asks, key, w);
    SinceIsAll(asks, key, w);
  }

  /**
   * The dimension permits an ask exactly when the grants to its key in this minute, since the key's
   * bucket was last evicted, leave budget for it.
   */
  lemma PermitsSince<K>(capacity: u32, past: seq<Ask<K>>, a: Ask<K>)
    requires IsRun(capacity, past) && AskedInOrder(past + [a]) && capacity >= 1
    requires VictimAllowed(After(capacity, past), a.key, a.victim)
    ensures Permits(After(capacity, past), capacity, a) <==> GrantsSince(past, a.key, Minute(a.nowMs)) < capacity
  {
    assert forall i :: 0 <= i < |past| ==> past[i] == (past + [a])[i];
    assert (past + [a])[|past|] == a;
    CountSince(capacity, past, a.key, Minute(a.nowMs));
    MinuteMonotone(Now(past), a.nowMs);
  }

  /** Without evictions these are all its grants. */
  lemma PermitsIsOracle<K>(capacity: u32, past: seq<Ask<K>>, a: Ask<K>)
    requires IsRun(capacity, past) && AskedInOrder(past + [a]) && NoEvictions(past) && capacity >= 1
    requires VictimAllowed(After(capacity, past), a.key, a.victim)
    ensures Permits(After(capacity, past), capacity, a) <==> Grants(past, a.key, Minute(a.nowMs)) < capacity
  {
    PermitsSince(capacity, past, a);
    SinceIsAll(past, a.key, Minute(a.nowMs));
  }

  // ----- who is evicted -----

  /** When the bucket of `key` was last created, spent from, or touched by a refusal of its own budget. */
  function LastTouch<K(==)>(capacity: u32, asks: seq<Ask<K>>, key: K): Option<u64> {
    if asks == [] then None
    else
      var m, a := After(capacity, Front(asks)), Last(asks);
      if a.key == key && (key !in m || a.granted || !Permits(m, capacity, a)) then Some(a.nowMs)
      else LastTouch(capacity, Front(asks), key)
  }

  lemma {:induction false} LastSeenIsLastTouch<K>(capacity: u32, asks: seq<Ask<K>>, key: K)
    requires IsRun(capacity, asks) && key in After(capacity, asks)
    ensures LastTouch(capacity, asks, key) == Some(After(capacity, asks)[key].lastSeenMs)
  {
    var past, a := Front(asks), Last(asks);
    if key in After(capacity, past) {
      LastSeenIsLastTouch(capacity, past, key);
    }
  }

  ghost predicate AskedSince<K>(asks: seq<Ask<K>>, key: K, t: u64) {
    exists i :: 0 <= i < |asks| && asks[i].key == key && asks[i].nowMs >= t
  }

  lemma {:induction false} AskedSinceExtends<K>(asks: seq<Ask<K>>, key: K, t: u64, t': u64)
    requires asks != [] && AskedSince(Front(asks), key, t) && t' <= t
    ensures AskedSince(asks, key, t')
  {
  }

  /** A bucket in the map after an ask was there before, unchanged, or was last seen by that ask. */
  lemma SeenByThisAsk<K>(m: Buckets<K>, capacity: u32, a: Ask<K>, key: K)
    requires key in Advance(m, capacity, a)
    ensures (key in m && Advance(m, capacity, a)[key] == m[key])
         || (key == a.key && Advance(m, capacity, a)[key].lastSeenMs == a.nowMs)
  {
  }

  lemma {:induction false} TrackedKeysAsked<K>(capacity: u32, asks: seq<Ask<K>>, key: K)
    requires IsRun(capacity, asks) && key in After(capacity, asks)
    ensures AskedSince(asks, key, After(capacity, asks)[key].lastSeenMs)
  {
    var past, a := Front(asks), Last(asks);
    assert asks[|past|] == a;
    SeenByThisAsk(After(capacity, past), capacity, a, key);
    if key in After(capacity, past) && After(capacity, asks)[key] == After(capacity, past)[key] {
      TrackedKeysAsked(capacity, past, key);
      var t := After(capacity, past)[key].lastSeenMs;
      AskedSinceExtends(asks, key, t, t);
    }
  }

  lemma NewcomerIsLater<K>(capacity: u32, asks: seq<Ask<K>>, key: K)
    requires asks != [] && IsRun(capacity, asks) && AskedInOrder(asks) && key in After(capacity, Front(asks))
    ensures After(capacity, Front(asks))[key].lastSeenMs <= Last(asks).nowMs
    ensures AskedSince(asks, Last(asks).key, After(capacity, Front(asks))[key].lastSeenMs)
  {
    hide After, Feasible;
    var past, a := Front(asks), Last(asks);
    TrackedKeysAsked(capacity, past, key);
    var i :| 0 <= i < |past| && past[i].key == key && past[i].nowMs >= After(capacity, past)[key].lastSeenMs;
    assert asks[i] == past[i] && asks[|past|] == a;
  }

  lemma OthersAskedSince<K>(capacity: u32, asks: seq<Ask<K>>, k: K)
    requires asks != [] && IsRun(capacity, asks) && AskedInOrder(asks) && Last(asks).victim.Some?
    requires k == Last(asks).key || k in After(capacity, Front(asks))
    ensures AskedSince(asks, k, After(capacity, Front(asks))[Last(asks).victim.value].lastSeenMs)
  {
    var past, a := Front(asks), Last(asks);
    var m, v := After(capacity, past), a.victim.value;
    if k == a.key {
      NewcomerIsLater(capacity, asks, v);
    } else {
      TrackedKeysAsked(capacity, past, k);
      AskedSinceExtends(asks, k, m[k].lastSeenMs, m[v].lastSeenMs);
    }
  }

  /** Everyone the map keeps, and the newcomer. */
  ghost function Survivors<K>(m: Buckets<K>, a: Ask<K>): set<K>
    requires a.victim.Some?
  {
    m.Keys - {a.victim.value} + {a.key}
  }

  lemma SurvivorsAreMany<K>(m: Buckets<K>, a: Ask<K>)
    requires VictimAllowed(m, a.key, a.victim) && a.victim.Some?
    ensures a.victim.value !in Survivors(m, a) && |Survivors(m, a)| >= MAX_TRACKED_SOURCES
  {
  }

  /**
   * A bucket last touched at time `t` is thrown out only once `MAX_TRACKED_SOURCES` other keys
   * have asked at `t` or later, the newcomer among them.
   */
  lemma EvictionGuarantee<K>(capacity: u32, asks: seq<Ask<K>>)
    requires asks != [] && IsRun(capacity, asks) && AskedInOrder(asks) && Last(asks).victim.Some?
    ensures var v := Last(asks).victim.value;
            var t := LastTouch(capacity, Front(asks), v);
            && t.Some?
            && exists others: set<K> ::
                && v !in others && |others| >= MAX_TRACKED_SOURCES
                && forall k :: k in others ==> AskedSince(asks, k, t.value)
  {
    var past, a := Front(asks), Last(asks);
    var m, v := After(capacity, past), a.victim.value;
    LastSeenIsLastTouch(capacity, past, v);
    var others := Survivors(m, a);
    SurvivorsAreMany(m, a);
    forall k | k in others ensures AskedSince(asks, k, m[v].lastSeenMs) {
      OthersAskedSince(capacity, asks, k);
    }
  }

  // ----- where the tokens went -----

  /** Tokens of minute `w` that the tracked buckets have handed out. */
  ghost function SpentTotal<K>(m: Buckets<K>, capacity: u32, w: nat): int {
    if m == map[] then 0
    else
      var k :| k in m;
      SpentIn(m[k], capacity, w) + SpentTotal(m - {k}, capacity, w)
  }

  function SpentIn(b: TokenBucket, capacity: u32, w: nat): int {
    if b.window == w then capacity - b.tokens else 0
  }

  lemma {:induction false} SpentTotalSplit<K>(m: Buckets<K>, capacity: u32, w: nat, key: K)
    requires key in m
    ensures SpentTotal(m, capacity, w) == SpentIn(m[key], capacity, w) + SpentTotal(m - {key}, capacity, w)
    decreases |m|
  {
    var k :| k in m && SpentTotal(m, capacity, w) == SpentIn(m[k], capacity, w) + SpentTotal(m - {k}, capacity, w);
    if k != key {
      SpentTotalSplit(m - {k}, capacity, w, key);
      SpentTotalSplit(m - {key}, capacity, w, k);
      assert m - {k} - {key} == m - {key} - {k};
    }
  }

  lemma SpentTotalUpdate<K>(m: Buckets<K>, capacity: u32, w: nat, key: K, b: TokenBucket)
    ensures SpentTotal(m[key := b], capacity, w) == SpentTotal(m - {key}, capacity, w) + SpentIn(b, capacity, w)
    ensures key !in m ==> SpentTotal(m - {key}, capacity, w) == SpentTotal(m, capacity, w)
  {
    SpentTotalSplit(m[key := b], capacity, w, key);
    assert m[key := b] - {key} == m - {key};
    if key !in m { assert m - {key} == m; }
  }

  /** Tokens of the current minute (or a later one) missing from the buckets are exactly the grants made. */
  lemma {:induction false} SpentIsGranted<K>(capacity: u32, asks: seq<Ask<K>>, w: nat)
    requires IsRun(capacity, asks) && AskedInOrder(asks) && NoEvictions(asks) && capacity >= 1
    requires Minute(Now(asks)) <= w
    ensures SpentTotal(After(capacity, asks), capacity, w) == AllGrants(asks, w)
  {
    if asks != [] {
      var past, a := Front(asks), Last(asks);
      MinuteMonotone(Now(past), a.nowMs);
      SpentIsGranted(capacity, past, w);
      CountInvariant(capacity, past, a.key, w);
      SpentStep(After(capacity, past), capacity, a, w);
    }
  }

  lemma SpentStep<K>(m: Buckets<K>, capacity: u32, a: Ask<K>, w: nat)
    requires capacity >= 1 && Feasible(m, capacity, a) && a.victim.None? && Minute(a.nowMs) <= w
    requires a.key in m ==> m[a.key].window <= Minute(a.nowMs)
    ensures SpentTotal(Advance(m, capacity, a), capacity, w)
         == SpentTotal(m, capacity, w) + if a.granted && Minute(a.nowMs) == w then 1 else 0
  {
    var b := Advance(m, capacity, a)[a.key];
    assert Advance(m, capacity, a) == m[a.key := b];
    SpentTotalUpdate(m, capacity, w, a.key, b);
    if a.key in m {
      SpentTotalSplit(m, capacity, w, a.key);
    }
  }
}
