/** The reputation cache as the program has it: two dictionaries, changed in
    place by the code that runs between two awaits. */
module ReputationCache {
  import opened Lru
  import opened SingleFlight
  import opened Wrappers

  class Service {
    var cache: seq<Slot<Key, Entry>>
    var pending: map<Key, nat>
    var tasks: seq<Task>
    var callers: map<nat, Caller>

    ghost function View(): State
      reads this
    {
      State(cache, pending, tasks, callers)
    }

    constructor ()
      ensures View() == START
    {
      cache, pending, tasks, callers := [], map[], [], map[];
    }

    /** A caller up to the point where it returns or starts to wait. */
    method CachedCheck(caller: nat, key: Key, at: int)
      requires caller !in callers
      modifies this
      ensures View() == Next(old(View()), Arrive(caller, key, at))
    {
      var cached := Get(cache, key);
      if cached.Some? && at - cached.value.storedAt < TTL {
        cache := Without(cache, key) + [Slot(key, cached.value)];
        callers := callers[caller := Returned(cached.value.report.(cached := true), None)];
        return;
      }
      cache := Without(cache, key);
      if key !in pending {
        pending := pending[key := |tasks|];
        tasks := tasks + [Task(key, Running, false)];
      }
      callers := callers[caller := Waiting(pending[key])];
    }

    /** A load from the reply of the provider to its end. */
    method Load(task: nat, reply: Reply, at: int, wallClock: int)
      requires task < |tasks| && tasks[task].progress.Running?
      modifies this
      ensures View() == Next(old(View()), Complete(task, reply, at, wallClock))
    {
      var report := Loaded(reply, wallClock);
      if report.status == "ok" {
        var key := tasks[task].key;
        cache := Evict(Without(cache, key) + [Slot(key, Entry(at, report))], MAX_SIZE);
      }
      tasks := tasks[task := tasks[task].(progress := Done(report))];
    }

    /** The done callback. */
    method LoadDone(task: nat)
      requires task < |tasks| && tasks[task].progress.Done? && !tasks[task].retired
      modifies this
      ensures View() == Next(old(View()), Retire(task))
    {
      pending := pending - {tasks[task].key};
      tasks := tasks[task := tasks[task].(retired := true)];
    }

    /** A waiting caller goes on after the await. */
    method Wake(caller: nat)
      requires Ready(View(), caller)
      modifies this
      ensures View() == Next(old(View()), Resume(caller))
    {
      var task := callers[caller].task;
      callers := callers[caller := Returned(tasks[task].progress.report, Some(task))];
    }

    /** The await is shielded: only the caller ends, not the load. */
    method CancelCaller(caller: nat)
      requires caller in callers && callers[caller].Waiting?
      modifies this
      ensures View() == Next(old(View()), Cancel(caller))
    {
      callers := callers[caller := Cancelled];
    }
  }
}
