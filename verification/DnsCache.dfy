/** The cache of resolved host names: the same order of use as the reputation
    cache, but concurrent misses each resolve and each store. */
module DnsCache {
  import opened Lru
  import opened Wrappers

  datatype Resolver = System | Cloudflare

  datatype Key = Key(host: string, resolver: Resolver)

  datatype Answer = Answer(ok: bool, detail: string)

  datatype Entry = Entry(expiresAt: int, answer: Answer)

  const TTL := 3600
  const MAX_SIZE: nat := 1024

  /** What lowercasing does to a host; nothing is assumed of it. */
  type Lowering = string -> string

  /** Lowercasing of ASCII text. */
  function LowerChar(c: char): char {
    if 'A' <= c <= 'Z' then c + ' ' else c
  }

  function Lower(host: string): string {
    seq(|host|, i requires 0 <= i < |host| => LowerChar(host[i]))
  }

  datatype Caller = Looking(key: Key) | Answered(answer: Answer)

  datatype State = State(cache: seq<Slot<Key, Entry>>, callers: map<nat, Caller>)

  /** A caller asks; a resolution a caller waits for ends. */
  datatype Step =
    | Ask(caller: nat, host: string, resolver: Resolver, at: int)
    | Resolve(caller: nat, answer: Answer, at: int)

  const START := State([], map[])

  predicate Fresh(cache: seq<Slot<Key, Entry>>, key: Key, at: int) {
    var found := Get(cache, key);
    found.Some? && at < found.value.expiresAt
  }

  function Touch(lower: Lowering, s: State, step: Step): Option<Access<Key, Entry>> {
    match step
    case Ask(caller, host, resolver, at) =>
      var key := Key(lower(host), resolver);
      if caller in s.callers then None else if Fresh(s.cache, key, at) then Some(Hit(key)) else Some(Drop(key))
    case Resolve(caller, answer, at) =>
      if caller in s.callers && s.callers[caller].Looking? && answer.ok
      then Some(Store(s.callers[caller].key, Entry(at + TTL, answer))) else None
  }

  function Touched(lower: Lowering, s: State, step: Step): seq<Slot<Key, Entry>> {
    var touch := Touch(lower, s, step);
    if touch.Some? then Apply(s.cache, MAX_SIZE, touch.value) else s.cache
  }

  function Next(lower: Lowering, s: State, step: Step): State {
    var cache := Touched(lower, s, step);
    match step
    case Ask(caller, host, resolver, at) =>
      var key := Key(lower(host), resolver);
      if caller in s.callers then s
      else if Fresh(s.cache, key, at) then
        State(cache, s.callers[caller := Answered(Get(s.cache, key).value.answer)])
      else State(cache, s.callers[caller := Looking(key)])
    case Resolve(caller, answer, at) =>
      if caller in s.callers && s.callers[caller].Looking?
      then State(cache, s.callers[caller := Answered(answer)]) else s
  }

  function Run(lower: Lowering, steps: seq<Step>): State {
    if steps == [] then START else Next(lower, Run(lower, steps[..|steps| - 1]), steps[|steps| - 1])
  }

  function History(lower: Lowering, steps: seq<Step>): seq<Access<Key, Entry>> {
    if steps == [] then []
    else
      var front := steps[..|steps| - 1];
      var touch := Touch(lower, Run(lower, front), steps[|steps| - 1]);
      History(lower, front) + if touch.Some? then [touch.value] else []
  }

  /** The clock never runs backwards. */
  predicate Timely(steps: seq<Step>) {
    forall i, j :: 0 <= i < j < |steps| ==> steps[i].at <= steps[j].at
  }

  lemma {:induction false} CacheIsReplay(lower: Lowering, steps: seq<Step>)
    ensures Run(lower, steps).cache == Replay(MAX_SIZE, History(lower, steps))
  {
    if steps != [] {
      var front, last := steps[..|steps| - 1], steps[|steps| - 1];
      CacheIsReplay(lower, front);
      var touch := Touch(lower, Run(lower, front), last);
      if touch.Some? {
        ReplayNext(MAX_SIZE, History(lower, front), touch.value);
      } else {
        assert History(lower, steps) == History(lower, front);
      }
    }
  }

  /** Whatever was stored was good and got an hour from the moment it was stored. */
  lemma {:induction false} StoredFacts(lower: Lowering, steps: seq<Step>, slot: Slot<Key, Entry>)
    requires Timely(steps) && slot in Run(lower, steps).cache
    ensures steps != [] && slot.value.answer.ok && slot.value.expiresAt <= steps[|steps| - 1].at + TTL
  {
    if steps != [] {
      var front, last := steps[..|steps| - 1], steps[|steps| - 1];
      CacheIsReplay(lower, front);
      ReplayKeepsShape(MAX_SIZE, History(lower, front));
      var touch := Touch(lower, Run(lower, front), last);
      if touch.Some? {
        ApplySource(Run(lower, front).cache, MAX_SIZE, touch.value, slot);
      }
      if slot in Run(lower, front).cache {
        StoredFacts(lower, front, slot);
        assert front[|front| - 1] == steps[|steps| - 2];
      }
    }
  }

  lemma ExpiryOverStep(lower: Lowering, steps: seq<Step>, step: Step, key: Key)
    requires Timely(steps + [step])
    requires Get(Run(lower, steps).cache, key).Some? && Get(Run(lower, steps + [step]).cache, key).Some?
    ensures Get(Run(lower, steps + [step]).cache, key).value.expiresAt
            >= Get(Run(lower, steps).cache, key).value.expiresAt
  {
    var all := steps + [step];
    assert all[..|all| - 1] == steps;
    TimelyFront(steps, step);
    CacheIsReplay(lower, steps);
    ReplayKeepsShape(MAX_SIZE, History(lower, steps));
    var cache, cache' := Run(lower, steps).cache, Run(lower, all).cache;
    GetFinds(cache, key);
    GetFinds(cache', key);
    var slot, slot' := Slot(key, Get(cache, key).value), Slot(key, Get(cache', key).value);
    StoredFacts(lower, steps, slot);
    assert steps[|steps| - 1].at <= step.at by {
      assert all[|steps| - 1] == steps[|steps| - 1] && all[|steps|] == step;
    }
    var touch := Touch(lower, Run(lower, steps), step);
    if touch.Some? {
      ApplySource(cache, MAX_SIZE, touch.value, slot');
    }
    if k :| 0 <= k < |cache| && cache[k] == slot' {
      GetOfSlot(cache, k);
    }
  }

  predicate CachedThroughout(lower: Lowering, before: seq<Step>, stretch: seq<Step>, key: Key) {
    forall n :: 0 <= n <= |stretch| ==> Get(Run(lower, before + stretch[..n]).cache, key).Some?
  }

  /** Main result.  However resolutions interleave, over any stretch of a run
      in which a key stays cached its expiry never moves earlier. */
  lemma {:induction false} ExpiryNeverMovesEarlier(lower: Lowering, before: seq<Step>, stretch: seq<Step>, key: Key)
    requires Timely(before + stretch) && CachedThroughout(lower, before, stretch, key)
    ensures Get(Run(lower, before).cache, key).Some? && Get(Run(lower, before + stretch).cache, key).Some?
    ensures Get(Run(lower, before + stretch).cache, key).value.expiresAt
            >= Get(Run(lower, before).cache, key).value.expiresAt
    decreases |stretch|
  {
    hide Run, Get;
    assert stretch[..0] == [] && before + [] == before && stretch[..|stretch|] == stretch;
    assert Get(Run(lower, before + stretch[..0]).cache, key).Some?;
    assert Get(Run(lower, before + stretch[..|stretch|]).cache, key).Some?;
    if stretch != [] {
      var front, last := stretch[..|stretch| - 1], stretch[|stretch| - 1];
      assert before + stretch == before + front + [last];
      TimelyFront(before + front, last);
      forall n | 0 <= n <= |front|
        ensures Get(Run(lower, before + front[..n]).cache, key).Some?
      {
        assert front[..n] == stretch[..n];
      }
      ExpiryNeverMovesEarlier(lower, before, front, key);
      ExpiryOverStep(lower, before + front, last, key);
    }
  }

  lemma TimelyFront(steps: seq<Step>, step: Step)
    requires Timely(steps + [step])
    ensures Timely(steps)
  {
    assert forall i :: 0 <= i < |steps| ==> (steps + [step])[i] == steps[i];
  }

  /** Hosts that differ only in the case of ASCII letters share a key. */
  lemma LowerIgnoresCase(host: string, other: string)
    requires |host| == |other|
    requires forall i :: 0 <= i < |host| ==>
               || host[i] == other[i]
               || ('A' <= host[i] <= 'Z' && other[i] == host[i] + ' ')
               || ('A' <= other[i] <= 'Z' && host[i] == other[i] + ' ')
    ensures Lower(host) == Lower(other)
  {
    forall i | 0 <= i < |host|
      ensures Lower(host)[i] == Lower(other)[i]
    {
    }
  }

  predicate AsciiHost(host: string) {
    forall i :: 0 <= i < |host| ==> host[i] < '\U{80}'
  }

  /** Asking in another letter case is the same step, so it hits what was
      stored for the host in any case. */
  lemma AnyCaseIsTheSameStep(lower: Lowering, s: State, caller: nat, host: string, other: string,
                             resolver: Resolver, at: int)
    requires forall h :: AsciiHost(h) ==> lower(h) == Lower(h)
    requires AsciiHost(host) && AsciiHost(other) && Lower(host) == Lower(other)
    ensures Next(lower, s, Ask(caller, host, resolver, at)) == Next(lower, s, Ask(caller, other, resolver, at))
  {
    assert lower(host) == lower(other);
  }

  /** Main result.  At every await the cache is within bounds and in order of
      last use, and a caller answered from it gets the latest good answer stored
      for its lowercased host and resolver, not yet expired. */
  lemma {:induction false} HitsAreTheLatestGoodAnswer(lower: Lowering, steps: seq<Step>, caller: nat, host: string,
                                                      resolver: Resolver, at: int)
    requires Timely(steps)
    ensures var s, history, key := Run(lower, steps), History(lower, steps), Key(lower(host), resolver);
            && |s.cache| <= 1024 && Distinct(s.cache) && ByLastUse(s.cache, history)
            && (caller !in s.callers && Fresh(s.cache, key, at) ==>
                  && LastStored(history, key).Some?
                  && var entry := LastStored(history, key).value;
                     && entry.answer.ok && at < entry.expiresAt
                     && Next(lower, s, Ask(caller, host, resolver, at)).callers[caller] == Answered(entry.answer))
  {
    var s, history, key := Run(lower, steps), History(lower, steps), Key(lower(host), resolver);
    CacheIsReplay(lower, steps);
    ReplayKeepsShape(MAX_SIZE, history);
    OrderedByLastUse(MAX_SIZE, history);
    GetFinds(s.cache, key);
    if caller !in s.callers && Fresh(s.cache, key, at) {
      var slot := Slot(key, Get(s.cache, key).value);
      CachedIsLastStored(MAX_SIZE, history, slot);
      StoredFacts(lower, steps, slot);
    }
  }

  /** Main result.  A caller is answered without a resolution exactly when an
      entry of its lowercased host and resolver is there that has not expired. */
  lemma {:induction false} HitExactly(lower: Lowering, steps: seq<Step>, caller: nat, host: string,
                                      resolver: Resolver, at: int)
    requires caller !in Run(lower, steps).callers
    ensures var s := Run(lower, steps);
            var s' := Next(lower, s, Ask(caller, host, resolver, at));
            (caller in s'.callers && s'.callers[caller].Answered?)
            <==> exists i :: 0 <= i < |s.cache| && s.cache[i].key == Key(lower(host), resolver)
                             && at < s.cache[i].value.expiresAt
  {
    hide Run, Without;
    var cache, key := Run(lower, steps).cache, Key(lower(host), resolver);
    CacheIsReplay(lower, steps);
    ReplayKeepsShape(MAX_SIZE, History(lower, steps));
    GetFinds(cache, key);
    forall i | 0 <= i < |cache| && cache[i].key == key
      ensures Get(cache, key) == Some(cache[i].value)
    {
      GetOfSlot(cache, i);
    }
  }

  /** Main result.  A resolution that ends gives its own answer to the caller;
      a good one is cached, to expire an hour later, another is not. */
  lemma {:induction false} ResolutionIsKept(lower: Lowering, steps: seq<Step>, caller: nat, answer: Answer, at: int)
    requires var s := Run(lower, steps);
             caller in s.callers && s.callers[caller].Looking?
    ensures var s := Run(lower, steps);
            var s' := Next(lower, s, Resolve(caller, answer, at));
            && s'.callers == s.callers[caller := Answered(answer)]
            && if answer.ok then Get(s'.cache, s.callers[caller].key) == Some(Entry(at + 3600, answer))
               else s'.cache == s.cache
  {
    hide Run, Trimmed;
    var s := Run(lower, steps);
    if answer.ok {
      CacheIsReplay(lower, steps);
      ReplayKeepsShape(MAX_SIZE, History(lower, steps));
      StoredIsFound(s.cache, MAX_SIZE, s.callers[caller].key, Entry(at + TTL, answer));
    }
  }

  /** The cache as the program has it: one ordered dictionary, changed before
      and after the await. */
  class Resolutions {
    const lower: Lowering
    var cache: seq<Slot<Key, Entry>>
    var callers: map<nat, Caller>

    ghost function View(): State
      reads this
    {
      State(cache, callers)
    }

    constructor (lower: Lowering)
      ensures View() == START && this.lower == lower
    {
      this.lower := lower;
      cache, callers := [], map[];
    }

    /** A caller up to the point where it returns or awaits the resolution. */
    method Begin(caller: nat, host: string, resolver: Resolver, at: int)
      requires caller !in callers
      modifies this
      ensures View() == Next(lower, old(View()), Ask(caller, host, resolver, at))
    {
      var key := Key(lower(host), resolver);
      var cached := Get(cache, key);
      if cached.Some? && at < cached.value.expiresAt {
        cache := Without(cache, key) + [Slot(key, cached.value)];
        callers := callers[caller := Answered(cached.value.answer)];
        return;
      }
      cache := Without(cache, key);
      callers := callers[caller := Looking(key)];
    }

    /** The rest of the caller once the resolution has ended. */
    method Finish(caller: nat, answer: Answer, at: int)
      requires caller in callers && callers[caller].Looking?
      modifies this
      ensures View() == Next(lower, old(View()), Resolve(caller, answer, at))
    {
      if answer.ok {
        var key := callers[caller].key;
        cache := Evict(Without(cache, key) + [Slot(key, Entry(at + TTL, answer))], MAX_SIZE);
      }
      callers := callers[caller := Answered(answer)];
    }
  }
}
