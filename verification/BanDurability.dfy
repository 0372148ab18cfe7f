/** What survives restarts and crashes. */
module BanDurability {
  import opened BanModel
  import opened BanHistory

  function Entries(document: Document): map<Ip, Ban> {
    if document.Listing? then document.entries else map[]
  }

  /** From a time on, the file and the memory hold the same bans in force. */
  predicate InSync(store: Store, now: int) {
    Active(Entries(store.document), now) == Active(store.bans, now)
  }

  /** Being in sync at one time means a restart at any later time finds
      exactly the bans the running store would enforce then. */
  lemma InSyncMeansRestartable(store: Store, now: int, at: int)
    requires InSync(store, now) && now <= at
    ensures LoadedBans(store.document, at) == Active(store.bans, at)
  {
    ActiveLater(Entries(store.document), store.bans, now, at);
  }

  lemma InSyncLater(store: Store, now: int, later: int)
    requires InSync(store, now) && now <= later
    ensures InSync(store, later)
  {
    ActiveLater(Entries(store.document), store.bans, now, later);
  }

  // ---- Staying in sync -------------------------------------------------------

  lemma DroppingExpired(bans: map<Ip, Ban>, now: int, gone: set<Ip>)
    requires gone <= Expired(bans, now)
    ensures Active(bans - gone, now) == Active(bans, now)
  {
  }

  /** Without a list the file counts as empty, with one the file is what was listed. */
  lemma ForgottenInSync(store: Store, now: int, gone: set<Ip>)
    requires InSync(store, now) && gone <= Expired(store.bans, now)
    ensures InSync(Forgotten(store, gone), now)
  {
    DroppingExpired(store.bans, now, gone);
  }

  /** A failure leaves file and memory in sync, except when an expired ban of
      the address is still in memory and one failure is enough for a new one:
      the set of banned addresses is then what it was, and nothing is written. */
  lemma FailureKeepsSync(cfg: Config, store: Store, op: Op)
    requires op.Failure? && op.checkedAt <= op.now && 0 < cfg.banTtl
    requires InSync(store, op.checkedAt)
    ensures InSync(Step(cfg, store, op), op.now) <==>
            !(op.ip in Expired(store.bans, op.checkedAt) && cfg.Limit(op.kind) <= 1)
  {
    if IsBanned(store, op.ip, op.checkedAt) {
      InSyncLater(store, op.checkedAt, op.now);
    } else {
      AskedInSync(store, op.checkedAt, op.now, op.ip);
      JudgeByCount(cfg, store, op);
      StepByVerdict(cfg, store, op);
      if Judge(cfg, store, op).Banned? {
        BanSync(cfg, store, op);
      }
    }
  }

  /** A limit of one: the new ban of an address whose expired ban is still in
      memory is not in the file, which lists nothing. */
  lemma UnsavedBanExample()
    ensures var cfg, ip := Config(1, 1, 3600, 10800), Ip("192.0.2.1");
            var expired := map[ip := Ban(ip, 50, UNKNOWN_CLIENT)];
            var store := Store(map[], map[], expired, Listing(expired));
            var op := Failure(Login, ip, UNKNOWN_CLIENT, 100, 100);
            && InSync(store, 100) && !InSync(Step(cfg, store, op), 100)
            && Step(cfg, store, op).document == Listing(map[])
            && IsBanned(Step(cfg, store, op), ip, 100)
  {
    var cfg, ip := Config(1, 1, 3600, 10800), Ip("192.0.2.1");
    var expired := map[ip := Ban(ip, 50, UNKNOWN_CLIENT)];
    var store := Store(map[], map[], expired, Listing(expired));
    var op := Failure(Login, ip, UNKNOWN_CLIENT, 100, 100);
    assert ip in Expired(expired, 100);
    FailureKeepsSync(cfg, store, op);
    JudgeByCount(cfg, store, op);
    assert expired - {ip} == map[] && expired[ip := Ban(ip, 10900, UNKNOWN_CLIENT)].Keys == expired.Keys;
  }

  lemma AskedInSync(store: Store, now: int, later: int, ip: Ip)
    requires InSync(store, now) && now <= later
    ensures InSync(Asked(store, ip, now), later)
  {
    if ip in Expired(store.bans, now) {
      ForgottenInSync(store, now, {ip});
    }
    InSyncLater(Asked(store, ip, now), now, later);
  }

  lemma BanSync(cfg: Config, store: Store, op: Op)
    requires op.Failure? && op.checkedAt <= op.now && 0 < cfg.banTtl
    requires !IsBanned(store, op.ip, op.checkedAt) && Judge(cfg, store, op).Banned?
    ensures op.ip in Expired(store.bans, op.checkedAt) <==> op.ip in store.bans
    ensures op.ip in store.bans ==> cfg.Limit(op.kind) <= 1 && !InSync(Step(cfg, store, op), op.now)
    ensures op.ip !in store.bans ==> InSync(Step(cfg, store, op), op.now)
  {
    var after, asked := Step(cfg, store, op), Asked(store, op.ip, op.checkedAt);
    JudgeByCount(cfg, store, op);
    assert op.ip in Active(after.bans, op.now);
    if op.ip in store.bans {
      assert Find(asked.Failures(op.kind), op.ip) == [];
      assert after.bans.Keys == store.bans.Keys;
      assert op.ip !in Entries(after.document);
      assert op.ip !in Active(Entries(after.document), op.now);
    } else {
      assert op.ip in after.bans.Keys && op.ip !in store.bans.Keys;
    }
  }

  /** Both limits leave room for a failure that does not ban. */
  predicate Durable(cfg: Config) {
    2 <= cfg.loginLimit && 2 <= cfg.authLimit && 0 < cfg.banTtl
  }

  lemma ProductionIsDurable()
    ensures PRODUCTION.Sound() && Durable(PRODUCTION)
  {
  }

  lemma StepInSync(cfg: Config, store: Store, op: Op, now: int)
    requires Durable(cfg) && Timely(op, now) && InSync(store, now)
    ensures InSync(Step(cfg, store, op), After(op, now))
  {
    match op
    case Failure(_, _, _, checkedAt, _) =>
      InSyncLater(store, now, checkedAt);
      FailureKeepsSync(cfg, store, op);
    case Success(_) =>
    case Query(ip, at) =>
      InSyncLater(store, now, at);
      AskedInSync(store, at, at, ip);
    case Cleanup(at) =>
      InSyncLater(store, now, at);
      ForgottenInSync(store, at, Expired(store.bans, at));
  }

  /** A store started on any file is in sync, also while the file still lists
      bans that have expired. */
  lemma StartedInSync(cfg: Config, document: Document, readAt: int, cleanedAt: int)
    requires readAt <= cleanedAt
    ensures InSync(Started(cfg, document, readAt, cleanedAt), cleanedAt)
    ensures Active(Started(cfg, document, readAt, cleanedAt).bans, cleanedAt) == LoadedBans(document, cleanedAt)
  {
    if document.Listing? {
      var loaded := Store(map[], map[], LoadedBans(document, readAt), document);
      assert Active(Active(document.entries, readAt), cleanedAt) == Active(document.entries, cleanedAt);
      ForgottenInSync(loaded, cleanedAt, Expired(loaded.bans, cleanedAt));
      DroppingExpired(loaded.bans, cleanedAt, Expired(loaded.bans, cleanedAt));
    }
  }

  // ---- Crashes ---------------------------------------------------------------

  /** The time at which an operation looks for expired bans. */
  function LooksAt(op: Op): int {
    match op
    case Failure(_, _, _, checkedAt, _) => checkedAt
    case Success(_) => 0
    case Query(_, at) => at
    case Cleanup(at) => at
  }

  /** The lists with which an operation may have replaced the file on the way:
      the bans it started with less some that had expired. */
  ghost predicate Passing(store: Store, op: Op, document: Document) {
    && document.Listing? && !op.Success?
    && exists gone :: Leaves(store.bans, gone, document.entries) && gone <= Expired(store.bans, LooksAt(op))
  }

  predicate Leaves(bans: map<Ip, Ban>, gone: set<Ip>, left: map<Ip, Ban>) {
    left == bans - gone
  }

  /** What the file may hold when the process dies during an operation. */
  ghost predicate CrashImage(cfg: Config, store: Store, op: Op, document: Document) {
    || document == store.document
    || document == Step(cfg, store, op).document
    || Passing(store, op, document)
  }

  /** What an operation does to the bans in force afterwards: nothing, unless
      it created one. */
  lemma BansAfter(cfg: Config, store: Store, op: Op, now: int, at: int)
    requires Timely(op, now) && After(op, now) <= at
    ensures var after, verdict := Step(cfg, store, op), Judge(cfg, store, op);
            if verdict.Banned? then Active(after.bans, at) - {op.ip} == Active(store.bans, at) - {op.ip}
                                    && op.ip !in Active(store.bans, at)
            else Active(after.bans, at) == Active(store.bans, at)
  {
    match op
    case Failure(_, ip, _, checkedAt, _) =>
      if !IsBanned(store, ip, checkedAt) {
        JudgeByCount(cfg, store, op);
        StepByVerdict(cfg, store, op);
        if ip in store.bans {
          DroppingExpired(store.bans, at, {ip});
        }
      }
    case Success(_) =>
    case Query(ip, t) =>
      if ip in Expired(store.bans, t) {
        DroppingExpired(store.bans, at, {ip});
      }
    case Cleanup(t) =>
      DroppingExpired(store.bans, at, Expired(store.bans, t));
  }

  /** Main result.  A restart after a crash at any moment of an operation finds
      the bans the finished operation would have left in force, short of at
      most the one ban it was creating; no ban that was deleted comes back. */
  lemma CrashLosesAtMostTheNewBan(cfg: Config, store: Store, op: Op, now: int, image: Document, at: int)
    requires Durable(cfg) && Timely(op, now) && InSync(store, now)
    requires CrashImage(cfg, store, op, image) && After(op, now) <= at
    ensures var inForce := Active(Step(cfg, store, op).bans, at);
            || LoadedBans(image, at) == inForce
            || (Judge(cfg, store, op).Banned? && LoadedBans(image, at) == inForce - {op.ip})
  {
    hide Step, Judge, Active, Passing;
    BansAfter(cfg, store, op, now, at);
    if image == Step(cfg, store, op).document {
      StepInSync(cfg, store, op, now);
      InSyncMeansRestartable(Step(cfg, store, op), After(op, now), at);
    } else {
      OldImage(store, op, now, image, at);
      WithoutOne(Active(store.bans, at), op);
    }
  }

  /** Short of the last write, the file still yields the bans from before. */
  lemma OldImage(store: Store, op: Op, now: int, image: Document, at: int)
    requires Timely(op, now) && InSync(store, now) && After(op, now) <= at
    requires image == store.document || Passing(store, op, image)
    ensures LoadedBans(image, at) == Active(store.bans, at)
  {
    Forwards(op, now);
    if image == store.document {
      InSyncMeansRestartable(store, now, at);
    } else {
      var gone :| Leaves(store.bans, gone, image.entries) && gone <= Expired(store.bans, LooksAt(op));
      DroppingExpired(store.bans, at, gone);
    }
  }

  lemma Forwards(op: Op, now: int)
    requires Timely(op, now)
    ensures now <= After(op, now) && (!op.Success? ==> LooksAt(op) <= After(op, now))
  {
  }

  lemma WithoutOne(bans: map<Ip, Ban>, op: Op)
    ensures op.Failure? && op.ip !in bans ==> bans - {op.ip} == bans
  {
  }

  /** What the file may hold when the process dies while a store starts on it:
      the old list, or the bans it had loaded less some that expired meanwhile. */
  ghost predicate StartImage(document: Document, readAt: int, cleanedAt: int, image: Document) {
    || image == document
    || (document.Listing? && image.Listing?
        && exists gone :: Leaves(LoadedBans(document, readAt), gone, image.entries)
                          && gone <= Expired(LoadedBans(document, readAt), cleanedAt))
  }

  /** After a crash while a store starts, the next start loads what this one
      would have enforced. */
  lemma CrashWhileStarting(document: Document, readAt: int, cleanedAt: int, image: Document, at: int)
    requires readAt <= cleanedAt <= at && StartImage(document, readAt, cleanedAt, image)
    ensures LoadedBans(image, at) == LoadedBans(document, at)
  {
    if image != document {
      var loaded := LoadedBans(document, readAt);
      var gone :| Leaves(loaded, gone, image.entries) && gone <= Expired(loaded, cleanedAt);
      DroppingExpired(loaded, at, gone);
      assert Active(Active(document.entries, readAt), at) == Active(document.entries, at);
    }
  }

  /** Cleaning up while starting writes only lists that may be left behind. */
  lemma StartingCleansUp(cfg: Config, document: Document, readAt: int, cleanedAt: int, image: Document)
    requires document.Listing?
    requires CrashImage(cfg, Store(map[], map[], LoadedBans(document, readAt), document), Cleanup(cleanedAt), image)
    ensures StartImage(document, readAt, cleanedAt, image)
  {
    var loaded := LoadedBans(document, readAt);
    assert Leaves(loaded, Expired(loaded, cleanedAt), loaded - Expired(loaded, cleanedAt));
  }

  // ---- Whole lives -----------------------------------------------------------

  /** A start that dies on the way and what it leaves in the file. */
  datatype Attempt = Attempt(readAt: int, cleanedAt: int, image: Document)

  /** A life of the store: operations, and crashes in the middle of one,
      followed by starts that crash too and in the end by one that does not. */
  datatype Event =
    | Do(op: Op)
    | Crash(op: Op, image: Document, attempts: seq<Attempt>, readAt: int, cleanedAt: int)

  /** What the file holds after some attempts to start on it. */
  function LeftBehind(image: Document, attempts: seq<Attempt>): Document {
    if attempts == [] then image else attempts[|attempts| - 1].image
  }

  function AttemptsEnd(attempts: seq<Attempt>, now: int): int {
    if attempts == [] then now else attempts[|attempts| - 1].cleanedAt
  }

  ghost predicate PossibleAttempts(image: Document, attempts: seq<Attempt>, now: int) {
    attempts != [] ==>
      var front, last := attempts[..|attempts| - 1], attempts[|attempts| - 1];
      && PossibleAttempts(image, front, now)
      && AttemptsEnd(front, now) <= last.readAt <= last.cleanedAt
      && StartImage(LeftBehind(image, front), last.readAt, last.cleanedAt, last.image)
  }

  function Live(cfg: Config, store: Store, event: Event): Store {
    match event
    case Do(op) => Step(cfg, store, op)
    case Crash(_, image, attempts, readAt, cleanedAt) =>
      Started(cfg, LeftBehind(image, attempts), readAt, cleanedAt)
  }

  function EventEnd(event: Event, now: int): int {
    match event
    case Do(op) => After(op, now)
    case Crash(_, _, _, _, cleanedAt) => cleanedAt
  }

  ghost predicate Possible(cfg: Config, store: Store, event: Event, now: int) {
    && Timely(event.op, now)
    && match event
       case Do(_) => true
       case Crash(op, image, attempts, readAt, cleanedAt) =>
         && CrashImage(cfg, store, op, image) && PossibleAttempts(image, attempts, After(op, now))
         && AttemptsEnd(attempts, After(op, now)) <= readAt <= cleanedAt
  }

  ghost predicate PossibleLife(cfg: Config, store: Store, life: seq<Event>, now: int)
    decreases |life|
  {
    life != [] ==>
      && Possible(cfg, store, life[0], now)
      && PossibleLife(cfg, Live(cfg, store, life[0]), life[1..], EventEnd(life[0], now))
  }

  /** However many starts die, the file yields the same bans. */
  lemma {:induction false} AttemptsChangeNothing(image: Document, attempts: seq<Attempt>, now: int, at: int)
    requires PossibleAttempts(image, attempts, now) && AttemptsEnd(attempts, now) <= at
    ensures now <= AttemptsEnd(attempts, now)
    ensures LoadedBans(LeftBehind(image, attempts), at) == LoadedBans(image, at)
    decreases |attempts|
  {
    hide LoadedBans, StartImage;
    if attempts != [] {
      var front, last := attempts[..|attempts| - 1], attempts[|attempts| - 1];
      AttemptsChangeNothing(image, front, now, at);
      CrashWhileStarting(LeftBehind(image, front), last.readAt, last.cleanedAt, last.image, at);
    }
  }

  /** Main result.  The store that at last starts after a crash, and after any
      number of starts that crashed too, enforces the bans the interrupted
      operation would have left in force, short of at most the one it was creating. */
  lemma CrashedLifeGoesOn(cfg: Config, store: Store, crash: Event, now: int)
    requires Durable(cfg) && InSync(store, now) && crash.Crash? && Possible(cfg, store, crash, now)
    ensures var inForce := Active(Step(cfg, store, crash.op).bans, crash.cleanedAt);
            var after := Active(Live(cfg, store, crash).bans, crash.cleanedAt);
            || after == inForce
            || (Judge(cfg, store, crash.op).Banned? && after == inForce - {crash.op.ip})
  {
    hide Step, Judge, Active, CrashImage, StartImage, LoadedBans, Started;
    var left, at := LeftBehind(crash.image, crash.attempts), crash.cleanedAt;
    AttemptsChangeNothing(crash.image, crash.attempts, After(crash.op, now), at);
    CrashLosesAtMostTheNewBan(cfg, store, crash.op, now, crash.image, at);
    StartedInSync(cfg, left, crash.readAt, at);
  }

  function Lived(cfg: Config, store: Store, life: seq<Event>): Store
    decreases |life|
  {
    if life == [] then store else Lived(cfg, Live(cfg, store, life[0]), life[1..])
  }

  function LifeEnd(life: seq<Event>, now: int): int {
    if life == [] then now else LifeEnd(life[1..], EventEnd(life[0], now))
  }

  /** The bans created during a life, by finished and by interrupted operations. */
  function Created(cfg: Config, store: Store, life: seq<Event>): set<Ban>
    decreases |life|
  {
    if life == [] then {}
    else
      var verdict := Judge(cfg, store, life[0].op);
      (if verdict.Banned? then {verdict.ban} else {}) + Created(cfg, Live(cfg, store, life[0]), life[1..])
  }

  lemma {:induction false} LifeInSync(cfg: Config, store: Store, life: seq<Event>, now: int)
    requires Durable(cfg) && InSync(store, now) && PossibleLife(cfg, store, life, now)
    ensures InSync(Lived(cfg, store, life), LifeEnd(life, now))
    decreases |life|
  {
    if life != [] {
      EventInSync(cfg, store, life[0], now);
      LifeInSync(cfg, Live(cfg, store, life[0]), life[1..], EventEnd(life[0], now));
    }
  }

  /** Main result.  Starting from any file and after any life of operations,
      crashes and restarts, one more restart at any later time loads exactly
      the bans the running store would enforce at that time. */
  lemma RestartEquivalence(cfg: Config, first: Document, readAt: int, cleanedAt: int, life: seq<Event>, at: int)
    requires Durable(cfg) && readAt <= cleanedAt
    requires PossibleLife(cfg, Started(cfg, first, readAt, cleanedAt), life, cleanedAt)
    requires LifeEnd(life, cleanedAt) <= at
    ensures var store := Lived(cfg, Started(cfg, first, readAt, cleanedAt), life);
            LoadedBans(store.document, at) == Active(store.bans, at)
  {
    var store := Started(cfg, first, readAt, cleanedAt);
    StartedInSync(cfg, first, readAt, cleanedAt);
    LifeInSync(cfg, store, life, cleanedAt);
    InSyncMeansRestartable(Lived(cfg, store, life), LifeEnd(life, cleanedAt), at);
  }

  // ---- Bans survive ----------------------------------------------------------

  predicate Keeps(before: map<Ip, Ban>, after: map<Ip, Ban>) {
    forall ip :: ip in before ==> ip in after && after[ip] == before[ip]
  }

  lemma {:induction false} LifeEndsLater(cfg: Config, store: Store, life: seq<Event>, now: int)
    requires PossibleLife(cfg, store, life, now)
    ensures now <= LifeEnd(life, now)
    decreases |life|
  {
    hide Step, Started, CrashImage;
    if life != [] {
      EventEndsLater(cfg, store, life[0], now);
      LifeEndsLater(cfg, Live(cfg, store, life[0]), life[1..], EventEnd(life[0], now));
    }
  }

  lemma EventEndsLater(cfg: Config, store: Store, event: Event, now: int)
    requires Possible(cfg, store, event, now)
    ensures now <= EventEnd(event, now)
    ensures event.Crash? ==> After(event.op, now) <= AttemptsEnd(event.attempts, After(event.op, now))
  {
    hide CrashImage, LoadedBans, StartImage;
    Forwards(event.op, now);
    if event.Crash? {
      var start := After(event.op, now);
      AttemptsChangeNothing(event.image, event.attempts, start, AttemptsEnd(event.attempts, start));
    }
  }

  /** A store started on a file enforces, from then on, what the file lists. */
  lemma StartedEnforces(cfg: Config, document: Document, readAt: int, cleanedAt: int, at: int)
    requires readAt <= cleanedAt <= at
    ensures Active(Started(cfg, document, readAt, cleanedAt).bans, at) == LoadedBans(document, at)
  {
    hide Started;
    StartedInSync(cfg, document, readAt, cleanedAt);
    ActiveLater(Started(cfg, document, readAt, cleanedAt).bans, Entries(document), cleanedAt, at);
  }

  lemma OpKeeps(cfg: Config, store: Store, op: Op, now: int, at: int, after: map<Ip, Ban>)
    requires Timely(op, now) && After(op, now) <= at
    requires var inForce := Active(Step(cfg, store, op).bans, at);
             after == inForce || (Judge(cfg, store, op).Banned? && after == inForce - {op.ip})
    ensures Keeps(Active(store.bans, at), after)
  {
    hide Step, Active;
    BansAfter(cfg, store, op, now, at);
    var before, inForce := Active(store.bans, at), Active(Step(cfg, store, op).bans, at);
    if Judge(cfg, store, op).Banned? {
      assert before - {op.ip} == inForce - {op.ip};
      forall ip | ip in before
        ensures ip in after && after[ip] == before[ip]
      {
        assert ip in before - {op.ip} && (before - {op.ip})[ip] == (inForce - {op.ip})[ip];
      }
    }
  }

  lemma EventKeeps(cfg: Config, store: Store, event: Event, now: int, at: int)
    requires Durable(cfg) && InSync(store, now) && Possible(cfg, store, event, now) && EventEnd(event, now) <= at
    ensures Keeps(Active(store.bans, at), Active(Live(cfg, store, event).bans, at))
  {
    hide Step, Judge, Active, Started, CrashImage, StartImage, LoadedBans, Keeps;
    EventEndsLater(cfg, store, event, now);
    match event
    case Do(op) => OpKeeps(cfg, store, op, now, at, Active(Step(cfg, store, op).bans, at));
    case Crash(op, image, attempts, readAt, cleanedAt) =>
      CrashLosesAtMostTheNewBan(cfg, store, op, now, image, at);
      AttemptsChangeNothing(image, attempts, After(op, now), at);
      StartedEnforces(cfg, LeftBehind(image, attempts), readAt, cleanedAt, at);
      OpKeeps(cfg, store, op, now, at, LoadedBans(image, at));
  }

  lemma EventInSync(cfg: Config, store: Store, event: Event, now: int)
    requires Durable(cfg) && InSync(store, now) && Possible(cfg, store, event, now)
    ensures InSync(Live(cfg, store, event), EventEnd(event, now))
  {
    hide InSync, Step, Started, CrashImage, StartImage;
    match event
    case Do(op) => StepInSync(cfg, store, op, now);
    case Crash(_, image, attempts, readAt, cleanedAt) =>
      StartedInSync(cfg, LeftBehind(image, attempts), readAt, cleanedAt);
  }

  /** Main result.  No life of operations, crashes and crashed starts takes a
      ban out of force before its end: whatever the store would have enforced at
      a time after the life it still enforces then, unchanged. */
  lemma {:induction false} BansSurvive(cfg: Config, store: Store, life: seq<Event>, now: int, at: int)
    requires Durable(cfg) && InSync(store, now) && PossibleLife(cfg, store, life, now) && LifeEnd(life, now) <= at
    ensures Keeps(Active(store.bans, at), Active(Lived(cfg, store, life).bans, at))
    decreases |life|
  {
    hide InSync, Active, Live, Possible;
    if life != [] {
      var event, end := life[0], EventEnd(life[0], now);
      var next := Live(cfg, store, event);
      LifeEndsLater(cfg, next, life[1..], end);
      EventKeeps(cfg, store, event, now, at);
      EventInSync(cfg, store, event, now);
      BansSurvive(cfg, next, life[1..], end, at);
    }
  }

  // ---- Provenance ------------------------------------------------------------

  predicate From(bans: map<Ip, Ban>, source: set<Ban>) {
    forall ip :: ip in bans ==> bans[ip] in source
  }

  predicate AllFrom(store: Store, source: set<Ban>) {
    From(store.bans, source) && From(Entries(store.document), source)
  }

  lemma StepFrom(cfg: Config, store: Store, op: Op, source: set<Ban>)
    requires AllFrom(store, source)
    ensures var verdict := Judge(cfg, store, op);
            AllFrom(Step(cfg, store, op), source + if verdict.Banned? then {verdict.ban} else {})
  {
    if op.Failure? && !IsBanned(store, op.ip, op.checkedAt) {
      JudgeByCount(cfg, store, op);
      StepByVerdict(cfg, store, op);
    }
  }

  lemma ImageFrom(cfg: Config, store: Store, op: Op, source: set<Ban>, image: Document)
    requires AllFrom(store, source) && CrashImage(cfg, store, op, image)
    ensures var verdict := Judge(cfg, store, op);
            From(Entries(image), source + if verdict.Banned? then {verdict.ban} else {})
  {
    StepFrom(cfg, store, op, source);
    if image != store.document && image != Step(cfg, store, op).document {
      var gone :| Leaves(store.bans, gone, image.entries) && gone <= Expired(store.bans, LooksAt(op));
    }
  }

  lemma {:induction false} AttemptsFrom(image: Document, attempts: seq<Attempt>, now: int, source: set<Ban>)
    requires PossibleAttempts(image, attempts, now) && From(Entries(image), source)
    ensures From(Entries(LeftBehind(image, attempts)), source)
    decreases |attempts|
  {
    if attempts != [] {
      var front, last := attempts[..|attempts| - 1], attempts[|attempts| - 1];
      AttemptsFrom(image, front, now, source);
      var document := LeftBehind(image, front);
      if last.image != document {
        var gone :| Leaves(LoadedBans(document, last.readAt), gone, last.image.entries)
                    && gone <= Expired(LoadedBans(document, last.readAt), last.cleanedAt);
      }
    }
  }

  lemma StartedFrom(cfg: Config, document: Document, readAt: int, cleanedAt: int, source: set<Ban>)
    requires From(Entries(document), source)
    ensures AllFrom(Started(cfg, document, readAt, cleanedAt), source)
  {
    hide Pruned;
  }

  /** Main result.  Whatever was interrupted, every ban in memory or in the
      file was in the first file or was created by some operation, and is
      unchanged since: same address, client and end of term. */
  lemma {:induction false} NoBanOutOfThinAir(cfg: Config, store: Store, life: seq<Event>, now: int, source: set<Ban>)
    requires AllFrom(store, source) && PossibleLife(cfg, store, life, now)
    ensures AllFrom(Lived(cfg, store, life), source + Created(cfg, store, life))
    decreases |life|
  {
    if life == [] {
      assert source + {} == source;
    } else {
      var event, op := life[0], life[0].op;
      var verdict := Judge(cfg, store, op);
      var source' := source + if verdict.Banned? then {verdict.ban} else {};
      match event {
        case Do(_) => StepFrom(cfg, store, op, source);
        case Crash(_, image, attempts, readAt, cleanedAt) =>
          ImageFrom(cfg, store, op, source, image);
          AttemptsFrom(image, attempts, After(op, now), source');
          StartedFrom(cfg, LeftBehind(image, attempts), readAt, cleanedAt, source');
      }
      var next := Live(cfg, store, event);
      NoBanOutOfThinAir(cfg, next, life[1..], EventEnd(event, now), source');
      assert source + Created(cfg, store, life) == source' + Created(cfg, next, life[1..]);
    }
  }
}
