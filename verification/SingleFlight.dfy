/** The reputation cache: at most one load per key, results shared by all the
    callers that miss, only good results kept for a day.

    Between two awaits the event loop runs one piece of code to its end.  These
    pieces are the steps: a caller arrives, a load completes, the done callback
    of a load runs, a waiting caller resumes, a waiting caller is cancelled.  A
    step that cannot happen in a state leaves the state as it is. */
module SingleFlight {
  import opened Lru
  import opened Wrappers

  /** Provider, address and API key. */
  datatype Key = Key(provider: string, ip: string, apiKey: string)

  /** The detail is the provider's fields or its error text. */
  datatype Report = Report(status: string, detail: string, checkedAt: int, cached: bool)

  /** How the provider check ends: it raises, or returns a record in which the
      status may be missing. */
  datatype Reply = Raised | Answered(status: Option<string>, detail: string)

  const TTL := 86400
  const MAX_SIZE: nat := 1024

  datatype Entry = Entry(storedAt: int, report: Report)

  datatype Progress = Running | Done(report: Report)

  /** A load; it is retired once its done callback has run. */
  datatype Task = Task(key: Key, progress: Progress, retired: bool)

  datatype Caller =
    | Waiting(task: nat)
    | Returned(report: Report, joined: Option<nat>)
    | Cancelled

  datatype State = State(
    cache: seq<Slot<Key, Entry>>,
    pending: map<Key, nat>,
    tasks: seq<Task>,
    callers: map<nat, Caller>)

  datatype Step =
    | Arrive(caller: nat, key: Key, at: int)
    | Complete(task: nat, reply: Reply, at: int, wallClock: int)
    | Retire(task: nat)
    | Resume(caller: nat)
    | Cancel(caller: nat)

  const START := State([], map[], [], map[])

  /** What a load makes of the reply. */
  function Loaded(reply: Reply, wallClock: int): Report {
    match reply
    case Raised => Report("error", "Сервис недоступен", wallClock, false)
    case Answered(status, detail) =>
      Report(if status.Some? then status.value else "error", detail, wallClock, false)
  }

  predicate Fresh(cache: seq<Slot<Key, Entry>>, key: Key, at: int) {
    var found := Get(cache, key);
    found.Some? && at - found.value.storedAt < TTL
  }

  /** The use a step makes of the cache, if any. */
  function Touch(s: State, step: Step): Option<Access<Key, Entry>> {
    match step
    case Arrive(caller, key, at) =>
      if caller in s.callers then None else if Fresh(s.cache, key, at) then Some(Hit(key)) else Some(Drop(key))
    case Complete(task, reply, at, wallClock) =>
      if task < |s.tasks| && s.tasks[task].progress.Running? && Loaded(reply, wallClock).status == "ok"
      then Some(Store(s.tasks[task].key, Entry(at, Loaded(reply, wallClock)))) else None
    case _ => None
  }

  function Touched(s: State, step: Step): seq<Slot<Key, Entry>> {
    var touch := Touch(s, step);
    if touch.Some? then Apply(s.cache, MAX_SIZE, touch.value) else s.cache
  }

  function Next(s: State, step: Step): State {
    var cache := Touched(s, step);
    match step
    case Arrive(caller, key, at) =>
      if caller in s.callers then s
      else if Fresh(s.cache, key, at) then
        var report := Get(s.cache, key).value.report.(cached := true);
        s.(cache := cache, callers := s.callers[caller := Returned(report, None)])
      else if key in s.pending then
        s.(cache := cache, callers := s.callers[caller := Waiting(s.pending[key])])
      else
        State(cache, s.pending[key := |s.tasks|], s.tasks + [Task(key, Running, false)],
              s.callers[caller := Waiting(|s.tasks|)])
    case Complete(task, reply, at, wallClock) =>
      if task < |s.tasks| && s.tasks[task].progress.Running? then
        var done := s.tasks[task].(progress := Done(Loaded(reply, wallClock)));
        s.(cache := cache, tasks := s.tasks[task := done])
      else s
    case Retire(task) =>
      if task < |s.tasks| && s.tasks[task].progress.Done? && !s.tasks[task].retired then
        // The callback removes whatever is pending under the key.
        s.(pending := s.pending - {s.tasks[task].key}, tasks := s.tasks[task := s.tasks[task].(retired := true)])
      else s
    case Resume(caller) =>
      if Ready(s, caller) then
        var task := s.callers[caller].task;
        s.(callers := s.callers[caller := Returned(s.tasks[task].progress.report, Some(task))])
      else s
    case Cancel(caller) =>
      if caller in s.callers && s.callers[caller].Waiting?
      then s.(callers := s.callers[caller := Cancelled]) else s
  }

  /** The caller waits for a load that is complete. */
  predicate Ready(s: State, caller: nat) {
    && caller in s.callers && s.callers[caller].Waiting?
    && s.callers[caller].task < |s.tasks| && s.tasks[s.callers[caller].task].progress.Done?
  }

  function Run(s: State, steps: seq<Step>): State {
    if steps == [] then s else Next(Run(s, steps[..|steps| - 1]), steps[|steps| - 1])
  }

  /** Every use of the cache in a run, in order. */
  function History(s: State, steps: seq<Step>): seq<Access<Key, Entry>> {
    if steps == [] then []
    else
      var front := steps[..|steps| - 1];
      var touch := Touch(Run(s, front), steps[|steps| - 1]);
      History(s, front) + if touch.Some? then [touch.value] else []
  }

  // ---- Single flight ---------------------------------------------------------

  /** Pending keys and loads that are not retired are the same thing. */
  ghost predicate OneFlight(s: State) {
    && (forall key :: key in s.pending ==> s.pending[key] < |s.tasks| && s.tasks[s.pending[key]].key == key
                                           && !s.tasks[s.pending[key]].retired)
    && (forall t :: 0 <= t < |s.tasks| && !s.tasks[t].retired ==>
          s.tasks[t].key in s.pending && s.pending[s.tasks[t].key] == t)
    && (forall t :: 0 <= t < |s.tasks| && s.tasks[t].retired ==> s.tasks[t].progress.Done?)
  }

  /** Callers wait for loads that exist and returned what their load produced. */
  ghost predicate Honest(s: State) {
    forall c :: c in s.callers ==> HonestCaller(s.tasks, s.callers[c])
  }

  predicate HonestCaller(tasks: seq<Task>, caller: Caller) {
    match caller
    case Waiting(task) => task < |tasks|
    case Returned(report, Some(task)) => task < |tasks| && tasks[task].progress == Done(report)
    case _ => true
  }

  lemma OneFlightNext(s: State, step: Step)
    requires OneFlight(s)
    ensures OneFlight(Next(s, step))
  {
    hide Touched, Fresh, Loaded, Ready, OneFlight;
    match step
    case Arrive(_, key, _) =>
      if key !in s.pending {
        StartedStaysOne(s, key, Next(s, step));
      }
      OneFlightIs(s, Next(s, step));
    case Complete(task, _, _, _) =>
      if task < |s.tasks| && s.tasks[task].progress.Running? {
        TaskDone(s, task, Next(s, step));
      }
    case Retire(task) =>
      if task < |s.tasks| && s.tasks[task].progress.Done? && !s.tasks[task].retired {
        TaskRetired(s, task, Next(s, step));
      }
    case _ => OneFlightIs(s, Next(s, step));
  }

  lemma OneFlightIs(s: State, s': State)
    requires OneFlight(s)
    ensures s'.pending == s.pending && s'.tasks == s.tasks ==> OneFlight(s')
  {
  }

  lemma StartedStaysOne(s: State, key: Key, s': State)
    requires OneFlight(s) && key !in s.pending
    ensures s'.pending == s.pending[key := |s.tasks|] && s'.tasks == s.tasks + [Task(key, Running, false)] ==>
              OneFlight(s')
  {
  }

  lemma TaskDone(s: State, task: nat, s': State)
    requires OneFlight(s) && task < |s.tasks| && s.tasks[task].progress.Running?
    requires s'.pending == s.pending && |s'.tasks| == |s.tasks|
    requires forall t :: 0 <= t < |s.tasks| && t != task ==> s'.tasks[t] == s.tasks[t]
    requires s'.tasks[task].progress.Done? && s'.tasks[task].key == s.tasks[task].key
    requires s'.tasks[task].retired == s.tasks[task].retired
    ensures OneFlight(s')
  {
  }

  lemma TaskRetired(s: State, task: nat, s': State)
    requires OneFlight(s) && task < |s.tasks| && s.tasks[task].progress.Done? && !s.tasks[task].retired
    requires s'.pending == s.pending - {s.tasks[task].key}
    requires s'.tasks == s.tasks[task := s.tasks[task].(retired := true)]
    ensures OneFlight(s')
  {
  }

  lemma HonestNext(s: State, step: Step)
    requires OneFlight(s) && Honest(s)
    ensures Honest(Next(s, step))
  {
    var s' := Next(s, step);
    forall c | c in s'.callers
      ensures HonestCaller(s'.tasks, s'.callers[c])
    {
      if c in s.callers {
        assert HonestCaller(s.tasks, s.callers[c]);
      }
    }
  }

  lemma {:induction false} RunIsHonest(s: State, steps: seq<Step>)
    requires OneFlight(s) && Honest(s)
    ensures OneFlight(Run(s, steps)) && Honest(Run(s, steps))
  {
    if steps != [] {
      var front, last := steps[..|steps| - 1], steps[|steps| - 1];
      RunIsHonest(s, front);
      OneFlightNext(Run(s, front), last);
      HonestNext(Run(s, front), last);
    }
  }

  /** Main result.  After any interleaving of the steps: a key is pending
      exactly while it has a load that is not retired, it is pending with that
      load, and there is no second one; what a caller returned is what the load
      it joined produced. */
  lemma {:induction false} SingleFlightInEveryRun(steps: seq<Step>)
    ensures var s := Run(START, steps);
            && (forall t :: 0 <= t < |s.tasks| && !s.tasks[t].retired ==>
                  s.tasks[t].key in s.pending && s.pending[s.tasks[t].key] == t)
            && (forall t, u :: 0 <= t < u < |s.tasks| && !s.tasks[t].retired && !s.tasks[u].retired ==>
                  s.tasks[t].key != s.tasks[u].key)
            && (forall key :: key in s.pending ==>
                  s.pending[key] < |s.tasks| && s.tasks[s.pending[key]].key == key
                  && !s.tasks[s.pending[key]].retired)
            && (forall c :: c in s.callers && s.callers[c].Returned? && s.callers[c].joined.Some? ==>
                  s.callers[c].joined.value < |s.tasks|
                  && s.tasks[s.callers[c].joined.value].progress == Done(s.callers[c].report))
  {
    RunIsHonest(START, steps);
    var s := Run(START, steps);
    forall c | c in s.callers
      ensures HonestCaller(s.tasks, s.callers[c])
    {
    }
  }

  /** The callback, which removes by key, never removes another load. */
  lemma CallbackRemovesOnlyItsOwn(steps: seq<Step>, task: nat, key: Key)
    ensures var s := Run(START, steps);
            key in s.pending && s.pending[key] != task ==>
              key in Next(s, Retire(task)).pending && Next(s, Retire(task)).pending[key] == s.pending[key]
  {
    RunIsHonest(START, steps);
  }

  // ---- Every caller is served --------------------------------------------------

  predicate NeverCancelled(caller: nat, steps: seq<Step>) {
    forall i :: 0 <= i < |steps| ==> steps[i] != Cancel(caller)
  }

  /** The result of a load never changes once it is there. */
  lemma {:induction false} ResultsStay(s: State, steps: seq<Step>, task: nat)
    requires task < |s.tasks|
    ensures task < |Run(s, steps).tasks|
    ensures s.tasks[task].progress.Done? ==> Run(s, steps).tasks[task].progress == s.tasks[task].progress
  {
    if steps != [] {
      ResultsStay(s, steps[..|steps| - 1], task);
    }
  }

  lemma ServedNext(s: State, step: Step, caller: nat)
    requires caller in s.callers && s.callers[caller].Returned?
    ensures caller in Next(s, step).callers && Next(s, step).callers[caller] == s.callers[caller]
  {
    hide Touched;
  }

  /** What one step does to a waiting caller it does not cancel. */
  lemma WaitingNext(s: State, step: Step, caller: nat, task: nat)
    requires caller in s.callers && s.callers[caller] == Waiting(task) && step != Cancel(caller)
    ensures var s' := Next(s, step);
            && caller in s'.callers
            && (s'.callers[caller] == Waiting(task)
                || (s'.callers[caller].Returned? && s'.callers[caller].joined == Some(task)))
  {
    hide Touched;
  }

  lemma {:induction false} WaitsOn(s: State, steps: seq<Step>, caller: nat, task: nat)
    requires NeverCancelled(caller, steps)
    requires caller in s.callers && s.callers[caller] == Waiting(task)
    ensures var s' := Run(s, steps);
            && caller in s'.callers
            && (s'.callers[caller] == Waiting(task)
                || (s'.callers[caller].Returned? && s'.callers[caller].joined == Some(task)))
  {
    hide Next;
    if steps != [] {
      var front, last := steps[..|steps| - 1], steps[|steps| - 1];
      WaitsOn(s, front, caller, task);
      if Run(s, front).callers[caller].Waiting? {
        WaitingNext(Run(s, front), last, caller, task);
      } else {
        ServedNext(Run(s, front), last, caller);
      }
    }
  }

  /** Main result.  A caller that misses and is never cancelled returns, once
      its load is complete and it is resumed, the result of the very load it
      joined, be it the one it started, one already running, or one that had
      completed but whose callback had not yet run. */
  lemma EveryMissIsServed(before: seq<Step>, caller: nat, key: Key, at: int, after: seq<Step>)
    requires var s := Run(START, before);
             caller !in s.callers && !Fresh(s.cache, key, at)
    requires NeverCancelled(caller, after)
    ensures var s := Run(START, before);
            var task := if key in s.pending then s.pending[key] else |s.tasks|;
            var s' := Run(Next(s, Arrive(caller, key, at)), after);
            && task < |s'.tasks| && s'.tasks[task].key == key
            && (s'.tasks[task].progress.Done? ==>
                  caller in Next(s', Resume(caller)).callers
                  && Next(s', Resume(caller)).callers[caller] == Returned(s'.tasks[task].progress.report, Some(task)))
  {
    hide Run, NeverCancelled, Touched, Fresh, Loaded;
    var s := Run(START, before);
    var task := if key in s.pending then s.pending[key] else |s.tasks|;
    var joined := Next(s, Arrive(caller, key, at));
    RunIsHonest(START, before);
    OneFlightNext(s, Arrive(caller, key, at));
    HonestNext(s, Arrive(caller, key, at));
    WaitsOn(joined, after, caller, task);
    RunIsHonest(joined, after);
    KeysStay(joined, after, task);
    var s' := Run(joined, after);
    assert HonestCaller(s'.tasks, s'.callers[caller]);
  }

  lemma {:induction false} KeysStay(s: State, steps: seq<Step>, task: nat)
    requires task < |s.tasks|
    ensures task < |Run(s, steps).tasks| && Run(s, steps).tasks[task].key == s.tasks[task].key
  {
    if steps != [] {
      KeysStay(s, steps[..|steps| - 1], task);
    }
  }

  // ---- Cancelling callers --------------------------------------------------------

  function WithoutCancels(steps: seq<Step>): seq<Step> {
    if steps == [] then []
    else
      var last := steps[|steps| - 1];
      WithoutCancels(steps[..|steps| - 1]) + if last.Cancel? then [] else [last]
  }

  /** Two states that differ at most in callers that were cancelled. */
  ghost predicate SameBut(s: State, s': State, cancelled: set<nat>) {
    && s.cache == s'.cache && s.pending == s'.pending && s.tasks == s'.tasks
    && s.callers.Keys == s'.callers.Keys
    && forall c :: c in s.callers && c !in cancelled ==> s.callers[c] == s'.callers[c]
  }

  function CancelledIn(steps: seq<Step>): set<nat> {
    set i | 0 <= i < |steps| && steps[i].Cancel? :: steps[i].caller
  }

  lemma SameButNext(s: State, s': State, step: Step, cancelled: set<nat>)
    requires SameBut(s, s', cancelled) && !step.Cancel?
    ensures SameBut(Next(s, step), Next(s', step), cancelled)
  {
    assert Touch(s, step) == Touch(s', step);
    if step.Resume? {
      // Whether a cancelled caller still waits does not matter to the others.
      assert Next(s, step).cache == s.cache && Next(s', step).cache == s'.cache;
    }
  }

  lemma {:induction false} CancelsAreErasable(s: State, steps: seq<Step>, cancelled: set<nat>)
    requires CancelledIn(steps) <= cancelled
    ensures SameBut(Run(s, steps), Run(s, WithoutCancels(steps)), cancelled)
  {
    if steps != [] {
      var front, last := steps[..|steps| - 1], steps[|steps| - 1];
      assert CancelledIn(front) <= CancelledIn(steps);
      CancelsAreErasable(s, front, cancelled);
      if last.Cancel? {
        assert last.caller in CancelledIn(steps);
        assert WithoutCancels(steps) == WithoutCancels(front);
      } else {
        SameButNext(Run(s, front), Run(s, WithoutCancels(front)), last, cancelled);
        assert WithoutCancels(steps)[..|WithoutCancels(steps)| - 1] == WithoutCancels(front);
      }
    }
  }

  /** Main result.  Cancelling callers, any of them at any time, changes
      neither what loads store nor what any other caller returns. */
  lemma CancellingChangesNothingElse(steps: seq<Step>)
    ensures SameBut(Run(START, steps), Run(START, WithoutCancels(steps)), CancelledIn(steps))
  {
    CancelsAreErasable(START, steps, CancelledIn(steps));
  }

  // ---- The cache as a log of good loads ------------------------------------------

  /** The cache is what replaying its uses gives. */
  lemma {:induction false} CacheIsReplay(steps: seq<Step>)
    ensures Run(START, steps).cache == Replay(MAX_SIZE, History(START, steps))
  {
    if steps != [] {
      var front, last := steps[..|steps| - 1], steps[|steps| - 1];
      CacheIsReplay(front);
      var touch := Touch(Run(START, front), last);
      NextTouches(Run(START, front), last);
      if touch.Some? {
        ReplayNext(MAX_SIZE, History(START, front), touch.value);
      } else {
        assert History(START, steps) == History(START, front);
      }
    }
  }

  lemma NextTouches(s: State, step: Step)
    ensures Next(s, step).cache == Touched(s, step)
  {
  }

  /** Everything stored is the good result of a completed load, not marked as cached. */
  lemma {:induction false} OnlyGoodIsStored(steps: seq<Step>, i: nat)
    requires i < |History(START, steps)| && History(START, steps)[i].Store?
    ensures var entry := History(START, steps)[i].value;
            entry.report.status == "ok" && !entry.report.cached
  {
    var front := steps[..|steps| - 1];
    if i < |History(START, front)| {
      OnlyGoodIsStored(front, i);
      assert History(START, steps)[i] == History(START, front)[i];
    }
  }

  lemma {:induction false} LastStoredIsStored(history: seq<Access<Key, Entry>>, key: Key)
    requires LastStored(history, key).Some?
    ensures exists i :: 0 <= i < |history| && history[i] == Store(key, LastStored(history, key).value)
  {
    var front, last := history[..|history| - 1], history[|history| - 1];
    if last.Store? && last.key == key {
      assert history[|history| - 1] == Store(key, LastStored(history, key).value);
    } else {
      LastStoredIsStored(front, key);
      var i :| 0 <= i < |front| && front[i] == Store(key, LastStored(front, key).value);
      assert history[i] == front[i];
    }
  }

  /** Main result.  In every run, a caller that is answered from the cache gets
      the latest good result loaded for its key, which is younger than a day;
      the hit leaves its age as it was; and the cache never exceeds its size,
      in the order of last use. */
  lemma HitsAreTheLatestGoodLoad(steps: seq<Step>, caller: nat, key: Key, at: int)
    ensures var s, history := Run(START, steps), History(START, steps);
            && |s.cache| <= 1024 && Distinct(s.cache) && ByLastUse(s.cache, history)
            && (caller !in s.callers && Fresh(s.cache, key, at) ==>
                  && LastStored(history, key).Some?
                  && var entry := LastStored(history, key).value;
                     var s' := Next(s, Arrive(caller, key, at));
                     && entry.report.status == "ok" && at - entry.storedAt < 86400
                     && s'.callers[caller] == Returned(entry.report.(cached := true), None)
                     && s'.pending == s.pending && s'.tasks == s.tasks
                     && s'.cache == Without(s.cache, key) + [Slot(key, entry)])
  {
    var s, history := Run(START, steps), History(START, steps);
    CacheIsReplay(steps);
    ReplayKeepsShape(MAX_SIZE, history);
    OrderedByLastUse(MAX_SIZE, history);
    if caller !in s.callers && Fresh(s.cache, key, at) {
      GetFinds(s.cache, key);
      var entry := Get(s.cache, key).value;
      CachedIsLastStored(MAX_SIZE, history, Slot(key, entry));
      LastStoredIsStored(history, key);
      var i :| 0 <= i < |history| && history[i] == Store(key, entry);
      OnlyGoodIsStored(steps, i);
    }
  }

  /** An entry is there when it is used. */
  lemma {:induction false} HitsArePresent(steps: seq<Step>, i: nat)
    requires i < |History(START, steps)| && History(START, steps)[i].Hit?
    ensures Has(Replay(MAX_SIZE, History(START, steps)[..i]), History(START, steps)[i].key)
  {
    var front, last := steps[..|steps| - 1], steps[|steps| - 1];
    var history, before := History(START, steps), History(START, front);
    if i < |before| {
      HitsArePresent(front, i);
      assert history[..i] == before[..i] && history[i] == before[i];
    } else {
      CacheIsReplay(front);
      assert history[..i] == before;
      GetFinds(Run(START, front).cache, history[i].key);
    }
  }

  /** Main result.  A key used at some moment of a run is still cached later,
      provided no caller looked it up in vain in between and fewer other keys
      than the cache holds were used. */
  lemma {:induction false} RecentlyUsedIsCached(steps: seq<Step>, i: nat)
    requires i < |History(START, steps)| && !History(START, steps)[i].Drop?
    requires var history, key := History(START, steps), History(START, steps)[i].key;
             Drop(key) !in history[i + 1..] && |UsedKeys(history[i + 1..]) - {key}| < 1024
    ensures Has(Run(START, steps).cache, History(START, steps)[i].key)
  {
    hide Run, History, Replay, UsedKeys;
    var history := History(START, steps);
    CacheIsReplay(steps);
    if history[i].Hit? {
      HitsArePresent(steps, i);
    }
    var k := StillCached(MAX_SIZE, history[..i], history[i], history[i + 1..]);
    assert history == history[..i] + [history[i]] + history[i + 1..];
  }

  // ---- Replies -------------------------------------------------------------------

  /** A report tells a reply: the status is the provider's, or "error" when the
      check raised or gave none; the rest is as it was given, or says that the
      service is not available. */
  predicate Tells(report: Report, reply: Reply, wallClock: int) {
    && report.checkedAt == wallClock && !report.cached
    && match reply
       case Raised => report.status == "error" && report.detail == "Сервис недоступен"
       case Answered(None, detail) => report.status == "error" && report.detail == detail
       case Answered(Some(status), detail) => report.status == status && report.detail == detail
  }

  predicate GoodReply(reply: Reply) {
    reply.Answered? && reply.status == Some("ok")
  }

  predicate RunningLoad(s: State, task: nat) {
    task < |s.tasks| && s.tasks[task].progress.Running?
  }

  /** Main result.  What a load stores and what it ends with, by the reply: its
      result tells the reply; a good reply is cached as the newest entry of its
      key, any other leaves the cache as it was. */
  lemma {:induction false} LoadTellsReply(steps: seq<Step>, task: nat, reply: Reply, at: int, wallClock: int)
    requires RunningLoad(Run(START, steps), task)
    ensures var s := Run(START, steps);
            var s' := Next(s, Complete(task, reply, at, wallClock));
            && s'.tasks[task].progress.Done? && Tells(s'.tasks[task].progress.report, reply, wallClock)
            && s'.pending == s.pending && s'.callers == s.callers
            && if GoodReply(reply) then
                 Get(s'.cache, s.tasks[task].key)
                 == Some(Entry(at, Report("ok", reply.detail, wallClock, false)))
               else s'.cache == s.cache
  {
    hide Run, Trimmed;
    var s := Run(START, steps);
    if GoodReply(reply) {
      CacheIsReplay(steps);
      ReplayKeepsShape(MAX_SIZE, History(START, steps));
      StoredIsFound(s.cache, MAX_SIZE, s.tasks[task].key, Entry(at, Report("ok", reply.detail, wallClock, false)));
    }
  }

  /** Step `j` of a run stores an entry that tells its good reply. */
  ghost predicate StoredBy(steps: seq<Step>, j: nat, access: Access<Key, Entry>) {
    && j < |steps| && steps[j].Complete? && GoodReply(steps[j].reply)
    && RunningLoad(Run(START, steps[..j]), steps[j].task)
    && access == Store(Run(START, steps[..j]).tasks[steps[j].task].key,
                       Entry(steps[j].at, Report("ok", steps[j].reply.detail, steps[j].wallClock, false)))
  }

  /** Main result.  Whatever is ever stored in a run tells a good reply to a
      running load of its key, given at the time it is stored with. */
  lemma {:induction false} StoresTellGoodReplies(steps: seq<Step>, i: nat)
    requires i < |History(START, steps)| && History(START, steps)[i].Store?
    ensures exists j: nat :: StoredBy(steps, j, History(START, steps)[i])
  {
    hide Run;
    var front, last := steps[..|steps| - 1], steps[|steps| - 1];
    var access := History(START, steps)[i];
    if i < |History(START, front)| {
      assert History(START, front)[i] == access;
      StoresTellGoodReplies(front, i);
      var j: nat :| StoredBy(front, j, access);
      assert steps[..j] == front[..j] && steps[j] == front[j];
      assert StoredBy(steps, j, access);
    } else {
      assert Touch(Run(START, front), last) == Some(access);
      assert steps[..|steps| - 1] == front;
      assert StoredBy(steps, |steps| - 1, access);
    }
  }

  /** Main result.  A caller that waits for a load and is not cancelled returns,
      when it resumes, a report that tells the reply of that load. */
  lemma {:induction false} CallersAreToldTheReply(before: seq<Step>, task: nat, reply: Reply, at: int, wallClock: int,
                                                  after: seq<Step>, caller: nat)
    requires var s := Run(START, before);
             RunningLoad(s, task) && caller in s.callers && s.callers[caller] == Waiting(task)
    requires NeverCancelled(caller, after)
    ensures var s := Run(Next(Run(START, before), Complete(task, reply, at, wallClock)), after);
            var s' := Next(s, Resume(caller));
            && caller in s'.callers && s'.callers[caller].Returned? && s'.callers[caller].joined == Some(task)
            && Tells(s'.callers[caller].report, reply, wallClock)
  {
    hide Run, Tells, NeverCancelled, Touched, Loaded, GoodReply;
    var done := Next(Run(START, before), Complete(task, reply, at, wallClock));
    LoadTellsReply(before, task, reply, at, wallClock);
    RunIsHonest(START, before);
    OneFlightNext(Run(START, before), Complete(task, reply, at, wallClock));
    HonestNext(Run(START, before), Complete(task, reply, at, wallClock));
    ResultsStay(done, after, task);
    WaitsOn(done, after, caller, task);
    RunIsHonest(done, after);
    var s := Run(done, after);
    assert HonestCaller(s.tasks, s.callers[caller]);
  }

  // ---- Hits ------------------------------------------------------------------------

  /** Main result.  A caller is answered from the cache exactly when an entry of
      its key is there that was stored less than a day ago. */
  lemma {:induction false} HitExactly(steps: seq<Step>, caller: nat, key: Key, at: int)
    requires caller !in Run(START, steps).callers
    ensures var s, s' := Run(START, steps), Next(Run(START, steps), Arrive(caller, key, at));
            (caller in s'.callers && s'.callers[caller].Returned?)
            <==> exists i :: 0 <= i < |s.cache| && s.cache[i].key == key && at - s.cache[i].value.storedAt < 86400
  {
    hide Run, Without;
    var cache := Run(START, steps).cache;
    CacheIsReplay(steps);
    ReplayKeepsShape(MAX_SIZE, History(START, steps));
    GetFinds(cache, key);
    forall i | 0 <= i < |cache| && cache[i].key == key
      ensures Get(cache, key) == Some(cache[i].value)
    {
      GetOfSlot(cache, i);
    }
  }
}
