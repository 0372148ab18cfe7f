/** A bounded cache kept in order of last use, as both caches of the program
    keep their ordered dictionaries. */
module Lru {
  import opened Wrappers

  /** One entry; a cache lists its entries oldest use first. */
  datatype Slot<K, V> = Slot(key: K, value: V)

  predicate Has<K(==), V>(cache: seq<Slot<K, V>>, key: K) {
    exists i :: 0 <= i < |cache| && cache[i].key == key
  }

  function Get<K(==), V>(cache: seq<Slot<K, V>>, key: K): Option<V> {
    if cache == [] then None
    else if cache[0].key == key then Some(cache[0].value)
    else Get(cache[1..], key)
  }

  function Without<K(==), V>(cache: seq<Slot<K, V>>, key: K): seq<Slot<K, V>> {
    if cache == [] then []
    else if cache[0].key == key then Without(cache[1..], key)
    else [cache[0]] + Without(cache[1..], key)
  }

  /** The newest `max` entries. */
  function Trimmed<K, V>(cache: seq<Slot<K, V>>, max: nat): seq<Slot<K, V>> {
    if |cache| > max then cache[|cache| - max..] else cache
  }

  /** Take entries from the front until the size fits. */
  method Evict<K, V>(cache: seq<Slot<K, V>>, max: nat) returns (left: seq<Slot<K, V>>)
    ensures left == Trimmed(cache, max)
  {
    left := cache;
    while |left| > max
      invariant |left| <= |cache| && left == cache[|cache| - |left|..]
      invariant |left| >= max || left == cache
    {
      assert left[1..] == cache[|cache| - |left| + 1..];
      left := left[1..];
    }
  }

  /** What callers do to a cache: use an entry, store one, or drop one. */
  datatype Access<K, V> = Hit(key: K) | Store(key: K, value: V) | Drop(key: K)

  function Apply<K(==), V>(cache: seq<Slot<K, V>>, max: nat, access: Access<K, V>): seq<Slot<K, V>> {
    match access
    case Hit(key) =>
      var found := Get(cache, key);
      if found.Some? then Without(cache, key) + [Slot(key, found.value)] else cache
    case Store(key, value) => Trimmed(Without(cache, key) + [Slot(key, value)], max)
    case Drop(key) => Without(cache, key)
  }

  function Replay<K(==), V>(max: nat, history: seq<Access<K, V>>): seq<Slot<K, V>> {
    if history == [] then []
    else Apply(Replay(max, history[..|history| - 1]), max, history[|history| - 1])
  }

  lemma ReplayNext<K, V>(max: nat, history: seq<Access<K, V>>, access: Access<K, V>)
    ensures Replay(max, history + [access]) == Apply(Replay(max, history), max, access)
  {
    assert (history + [access])[..|history|] == history;
  }

  // ---- Shape -----------------------------------------------------------------

  predicate Distinct<K(==), V>(cache: seq<Slot<K, V>>) {
    forall i, j :: 0 <= i < j < |cache| ==> cache[i].key != cache[j].key
  }

  lemma {:induction false} GetFinds<K, V>(cache: seq<Slot<K, V>>, key: K)
    ensures Has(cache, key) <==> Get(cache, key).Some?
    ensures Get(cache, key).Some? ==> exists i :: 0 <= i < |cache| && cache[i] == Slot(key, Get(cache, key).value)
  {
    if cache != [] {
      var rest := cache[1..];
      GetFinds(rest, key);
      if cache[0].key == key {
        assert cache[0] == Slot(key, Get(cache, key).value);
      } else {
        forall i | 0 <= i < |cache| && cache[i].key == key
          ensures Has(rest, key)
        {
          assert rest[i - 1] == cache[i];
        }
        if Get(rest, key).Some? {
          var i :| 0 <= i < |rest| && rest[i] == Slot(key, Get(rest, key).value);
          assert cache[i + 1] == rest[i];
        }
      }
    }
  }

  lemma {:induction false} WithoutAbsent<K, V>(cache: seq<Slot<K, V>>, key: K)
    requires forall i :: 0 <= i < |cache| ==> cache[i].key != key
    ensures Without(cache, key) == cache
  {
    if cache != [] {
      WithoutAbsent(cache[1..], key);
      assert cache == [cache[0]] + cache[1..];
    }
  }

  lemma {:induction false} WithoutAt<K, V>(cache: seq<Slot<K, V>>, i: nat)
    requires Distinct(cache) && i < |cache|
    ensures Without(cache, cache[i].key) == cache[..i] + cache[i + 1..]
  {
    var key, rest := cache[i].key, cache[1..];
    if i == 0 {
      WithoutAbsent(rest, key);
      assert cache[..0] + cache[1..] == rest;
    } else {
      assert rest[i - 1].key == key;
      WithoutAt(rest, i - 1);
      assert cache[..i] + cache[i + 1..] == [cache[0]] + (rest[..i - 1] + rest[i..]);
    }
  }

  lemma {:induction false} GetOfSlot<K, V>(cache: seq<Slot<K, V>>, i: nat)
    requires Distinct(cache) && i < |cache|
    ensures Get(cache, cache[i].key) == Some(cache[i].value)
  {
    if i > 0 {
      assert cache[0].key != cache[i].key;
      GetOfSlot(cache[1..], i - 1);
    }
  }

  /** What was just stored is found, if anything may be kept. */
  lemma StoredIsFound<K, V>(cache: seq<Slot<K, V>>, max: nat, key: K, value: V)
    requires Distinct(cache) && max > 0
    ensures Get(Apply(cache, max, Store(key, value)), key) == Some(value)
  {
    hide Get, Without;
    WithoutFacts(cache, key);
    PutLast(Without(cache, key), Slot(key, value));
    var all := Without(cache, key) + [Slot(key, value)];
    var left := Trimmed(all, max);
    assert left[|left| - 1] == Slot(key, value);
    GetOfSlot(left, |left| - 1);
  }

  /** Taking one key out of a list without repetitions keeps the rest in order. */
  lemma {:induction false} WithoutIsSubsequence<K, V>(cache: seq<Slot<K, V>>, key: K)
    requires Distinct(cache)
    ensures !Has(cache, key) ==> Without(cache, key) == cache
    ensures forall i :: 0 <= i < |cache| && cache[i].key == key ==> Without(cache, key) == cache[..i] + cache[i + 1..]
  {
    hide Without, Distinct;
    if !Has(cache, key) {
      WithoutAbsent(cache, key);
    }
    forall i | 0 <= i < |cache| && cache[i].key == key
      ensures Without(cache, key) == cache[..i] + cache[i + 1..]
    {
      WithoutAt(cache, i);
    }
  }

  /** What is left without a key: the other entries, still distinct. */
  lemma WithoutFacts<K, V>(cache: seq<Slot<K, V>>, key: K)
    requires Distinct(cache)
    ensures var left := Without(cache, key);
            && Distinct(left) && !Has(left, key)
            && |left| == |cache| - (if Has(cache, key) then 1 else 0)
            && (forall slot :: slot in left ==> slot in cache && slot.key != key)
  {
    WithoutIsSubsequence(cache, key);
    if Has(cache, key) {
      var i :| 0 <= i < |cache| && cache[i].key == key;
      assert Without(cache, key) == cache[..i] + cache[i + 1..];
    }
  }

  lemma PutLast<K, V>(cache: seq<Slot<K, V>>, slot: Slot<K, V>)
    requires Distinct(cache) && !Has(cache, slot.key)
    ensures Distinct(cache + [slot])
  {
  }

  /** Every access keeps keys distinct and the size within bounds. */
  lemma ApplyKeepsShape<K, V>(cache: seq<Slot<K, V>>, max: nat, access: Access<K, V>)
    requires Distinct(cache) && |cache| <= max
    ensures Distinct(Apply(cache, max, access)) && |Apply(cache, max, access)| <= max
  {
    WithoutFacts(cache, access.key);
    GetFinds(cache, access.key);
    match access
    case Hit(key) =>
      if Get(cache, key).Some? {
        PutLast(Without(cache, key), Slot(key, Get(cache, key).value));
      }
    case Store(key, value) => PutLast(Without(cache, key), Slot(key, value));
    case Drop(_) =>
  }

  lemma {:induction false} ReplayKeepsShape<K, V>(max: nat, history: seq<Access<K, V>>)
    ensures Distinct(Replay(max, history)) && |Replay(max, history)| <= max
  {
    if history != [] {
      ReplayKeepsShape(max, history[..|history| - 1]);
      ApplyKeepsShape(Replay(max, history[..|history| - 1]), max, history[|history| - 1]);
    }
  }

  // ---- Contents --------------------------------------------------------------

  /** The value stored last under a key. */
  function LastStored<K(==), V>(history: seq<Access<K, V>>, key: K): Option<V> {
    if history == [] then None
    else
      var last := history[|history| - 1];
      if last.Store? && last.key == key then Some(last.value) else LastStored(history[..|history| - 1], key)
  }

  /** Where an entry of the new cache comes from. */
  lemma ApplySource<K, V>(cache: seq<Slot<K, V>>, max: nat, access: Access<K, V>, slot: Slot<K, V>)
    requires Distinct(cache) && slot in Apply(cache, max, access)
    ensures (slot in cache && (access.Store? ==> slot.key != access.key))
            || (access.Store? && slot == Slot(access.key, access.value))
    ensures access.Drop? ==> slot.key != access.key
  {
    WithoutFacts(cache, access.key);
    GetFinds(cache, access.key);
  }

  /** A cached value is the one stored last under its key. */
  lemma {:induction false} CachedIsLastStored<K, V>(max: nat, history: seq<Access<K, V>>, slot: Slot<K, V>)
    requires slot in Replay(max, history)
    ensures LastStored(history, slot.key) == Some(slot.value)
  {
    var before, last := history[..|history| - 1], history[|history| - 1];
    ReplayKeepsShape(max, before);
    ApplySource(Replay(max, before), max, last, slot);
    if slot in Replay(max, before) && !(last.Store? && slot.key == last.key) {
      CachedIsLastStored(max, before, slot);
    }
  }

  // ---- Order -----------------------------------------------------------------

  /** How many accesses there were up to the last use of a key. */
  function LastUse<K(==), V>(history: seq<Access<K, V>>, key: K): nat {
    if history == [] then 0
    else if !history[|history| - 1].Drop? && history[|history| - 1].key == key then |history|
    else LastUse(history[..|history| - 1], key)
  }

  ghost predicate ByLastUse<K, V>(cache: seq<Slot<K, V>>, history: seq<Access<K, V>>) {
    forall i, j :: 0 <= i < j < |cache| ==> LastUse(history, cache[i].key) < LastUse(history, cache[j].key)
  }

  lemma {:induction false} LastUseBound<K, V>(history: seq<Access<K, V>>, key: K)
    ensures LastUse(history, key) <= |history|
  {
    if history != [] {
      LastUseBound(history[..|history| - 1], key);
    }
  }

  lemma WithoutKeepsOrder<K, V>(cache: seq<Slot<K, V>>, history: seq<Access<K, V>>, key: K)
    requires Distinct(cache) && ByLastUse(cache, history)
    ensures ByLastUse(Without(cache, key), history)
  {
    hide Without, LastUse;
    if i :| 0 <= i < |cache| && cache[i].key == key {
      WithoutAt(cache, i);
    } else {
      WithoutAbsent(cache, key);
    }
  }

  /** A use of one key leaves the last uses of the others as they were. */
  lemma LastUseNext<K, V>(history: seq<Access<K, V>>, access: Access<K, V>, key: K)
    ensures LastUse(history + [access], key)
            == if !access.Drop? && access.key == key then |history| + 1 else LastUse(history, key)
  {
    assert (history + [access])[..|history|] == history;
  }

  /** Entries that keep their order, and a just used one behind them. */
  lemma OrderNext<K, V>(left: seq<Slot<K, V>>, history: seq<Access<K, V>>, access: Access<K, V>, value: V)
    requires ByLastUse(left, history) && !Has(left, access.key)
    ensures ByLastUse(left, history + [access])
    ensures !access.Drop? ==> ByLastUse(left + [Slot(access.key, value)], history + [access])
  {
    hide LastUse;
    var all := left + [Slot(access.key, value)];
    forall i | 0 <= i < |left|
      ensures LastUse(history + [access], left[i].key) == LastUse(history, left[i].key) <= |history|
    {
      LastUseNext(history, access, left[i].key);
      LastUseBound(history, left[i].key);
    }
    LastUseNext(history, access, access.key);
  }

  lemma OrderOnly<K, V>(left: seq<Slot<K, V>>, history: seq<Access<K, V>>, access: Access<K, V>)
    requires ByLastUse(left, history) && !Has(left, access.key)
    ensures ByLastUse(left, history + [access])
  {
    hide LastUse;
    forall i | 0 <= i < |left|
      ensures LastUse(history + [access], left[i].key) == LastUse(history, left[i].key)
    {
      LastUseNext(history, access, left[i].key);
    }
  }

  lemma ApplyKeepsOrder<K, V>(cache: seq<Slot<K, V>>, max: nat, history: seq<Access<K, V>>, access: Access<K, V>)
    requires Distinct(cache) && ByLastUse(cache, history)
    ensures ByLastUse(Apply(cache, max, access), history + [access])
  {
    hide LastUse, Without, Get;
    WithoutKeepsOrder(cache, history, access.key);
    WithoutFacts(cache, access.key);
    match access
    case Hit(key) =>
      GetFinds(cache, key);
      if Has(cache, key) {
        OrderNext(Without(cache, key), history, access, Get(cache, key).value);
      } else {
        OrderOnly(cache, history, access);
      }
    case Store(key, value) => OrderNext(Without(cache, key), history, access, value);
    case Drop(key) => OrderOnly(Without(cache, key), history, access);
  }

  /** Entries stand in the cache in the order in which they were last used. */
  lemma {:induction false} OrderedByLastUse<K, V>(max: nat, history: seq<Access<K, V>>)
    ensures ByLastUse(Replay(max, history), history)
  {
    if history != [] {
      var before, last := history[..|history| - 1], history[|history| - 1];
      OrderedByLastUse(max, before);
      ReplayKeepsShape(max, before);
      ApplyKeepsOrder(Replay(max, before), max, before, last);
      assert history == before + [last];
    }
  }

  // ---- Retention -------------------------------------------------------------

  /** The keys used in a stretch of accesses. */
  function UsedKeys<K(==), V>(accesses: seq<Access<K, V>>): set<K> {
    set i | 0 <= i < |accesses| && !accesses[i].Drop? :: accesses[i].key
  }

  /** Entry `i` has the key, and all entries behind it were used since. */
  predicate KeptAt<K(==), V>(cache: seq<Slot<K, V>>, key: K, i: nat, since: set<K>) {
    && i < |cache| && cache[i].key == key
    && forall j :: i < j < |cache| ==> cache[j].key in since - {key}
  }

  lemma {:induction false} DistinctKeysCount<K, V>(cache: seq<Slot<K, V>>, keys: set<K>)
    requires Distinct(cache) && forall j :: 0 <= j < |cache| ==> cache[j].key in keys
    ensures |cache| <= |keys|
  {
    if cache != [] {
      DistinctKeysCount(cache[1..], keys - {cache[0].key});
    }
  }

  /** Taking out another key keeps the entry. */
  lemma WithoutKeeps<K, V>(cache: seq<Slot<K, V>>, other: K, key: K, i: nat, since: set<K>) returns (i': nat)
    requires Distinct(cache) && KeptAt(cache, key, i, since) && other != key
    ensures KeptAt(Without(cache, other), key, i', since)
  {
    hide Without;
    if k :| 0 <= k < |cache| && cache[k].key == other {
      WithoutAt(cache, k);
      i' := if k < i then i - 1 else i;
    } else {
      WithoutAbsent(cache, other);
      i' := i;
    }
  }

  /** One more access keeps the entry, as long as the keys used since leave room. */
  lemma ApplyKeeps<K, V>(cache: seq<Slot<K, V>>, max: nat, access: Access<K, V>, key: K, i: nat, since: set<K>)
    returns (i': nat)
    requires Distinct(cache) && |cache| <= max && KeptAt(cache, key, i, since)
    requires access != Drop(key)
    requires var since' := if access.Drop? then since else since + {access.key};
             |since' - {key}| < max
    ensures var since' := if access.Drop? then since else since + {access.key};
            KeptAt(Apply(cache, max, access), key, i', since')
  {
    hide Without, Get, Trimmed, Distinct;
    GetFinds(cache, access.key);
    var since' := if access.Drop? then since else since + {access.key};
    if access.key == key {
      assert cache[i].key == key;
      WithoutFacts(cache, key);
      TrimNothing(Without(cache, key) + [Slot(key, cache[i].value)], max);
      if access.Store? {
        TrimNothing(Without(cache, key) + [Slot(key, access.value)], max);
      }
      i' := |Without(cache, key)|;
    } else {
      var at := WithoutKeeps(cache, access.key, key, i, since);
      i' := at;
      WithoutIsSubsequence(cache, access.key);
      if access.Store? {
        var left, slot := Without(cache, access.key), Slot(access.key, access.value);
        WithoutFacts(cache, access.key);
        PutLast(left, slot);
        i' := TrimKeeps(left + [slot], max, key, at, since');
      }
    }
  }

  lemma TrimNothing<K, V>(cache: seq<Slot<K, V>>, max: nat)
    requires |cache| <= max
    ensures Trimmed(cache, max) == cache
  {
  }

  lemma TrimKeeps<K, V>(cache: seq<Slot<K, V>>, max: nat, key: K, i: nat, since: set<K>) returns (i': nat)
    requires KeptAt(cache, key, i, since) && |since - {key}| < max && Distinct(cache)
    ensures KeptAt(Trimmed(cache, max), key, i', since)
  {
    DistinctKeysCount(cache[i + 1..], since - {key});
    i' := if |cache| > max then i - (|cache| - max) else i;
  }

  /** A key that was used, and since then neither dropped nor followed by uses
      of as many other keys as the cache holds, is still cached. */
  lemma {:induction false} StillCached<K, V>(max: nat, before: seq<Access<K, V>>, use: Access<K, V>,
                                              since: seq<Access<K, V>>) returns (i: nat)
    requires use.Store? || (use.Hit? && Has(Replay(max, before), use.key))
    requires Drop(use.key) !in since && |UsedKeys(since) - {use.key}| < max
    ensures KeptAt(Replay(max, before + [use] + since), use.key, i, UsedKeys(since))
    decreases |since|
  {
    var key := use.key;
    if since == [] {
      var cache := Replay(max, before);
      ReplayNext(max, before, use);
      assert before + [use] + since == before + [use];
      ReplayKeepsShape(max, before);
      ReplayKeepsShape(max, before + [use]);
      GetFinds(cache, key);
      i := |Replay(max, before + [use])| - 1;
    } else {
      var front, last := since[..|since| - 1], since[|since| - 1];
      var history := before + [use] + front;
      assert since == front + [last];
      assert before + [use] + since == history + [last];
      var used := if last.Drop? then UsedKeys(front) else UsedKeys(front) + {last.key};
      assert used == UsedKeys(since) by { UsedKeysNext(front, last); }
      Smaller(UsedKeys(front) - {key}, UsedKeys(since) - {key});
      var k := StillCached(max, before, use, front);
      ReplayKeepsShape(max, history);
      ReplayNext(max, history, last);
      i := ApplyKeeps(Replay(max, history), max, last, key, k, UsedKeys(front));
    }
  }

  lemma UsedKeysNext<K, V>(front: seq<Access<K, V>>, last: Access<K, V>)
    ensures UsedKeys(front + [last]) == if last.Drop? then UsedKeys(front) else UsedKeys(front) + {last.key}
  {
    var all := front + [last];
    forall key | key in UsedKeys(front)
      ensures key in UsedKeys(all)
    {
      var i :| 0 <= i < |front| && !front[i].Drop? && front[i].key == key;
      assert all[i] == front[i];
    }
    assert all[|front|] == last;
  }

  lemma Smaller<T>(small: set<T>, big: set<T>)
    requires small <= big
    ensures |small| <= |big|
  {
    if small != {} {
      var x :| x in small;
      Smaller(small - {x}, big - {x});
    }
  }
}
