/** Pruning, lazy deletion and periodic cleanup never change a decision.

    The ledger is the plain rule the store implements: it keeps every failure
    since the last reset, forgets nothing with time, and has no cleanup.  The
    store is shown to give the same verdict as the ledger in every run. */
module BanHistory {
  import opened BanModel

  /** Every failure since the last reset, and the last ban, of each address. */
  datatype Ledger = Ledger(login: map<Ip, seq<int>>, auth: map<Ip, seq<int>>, bans: map<Ip, Ban>) {
    function Failures(kind: Kind): map<Ip, seq<int>> {
      if kind == Login then login else auth
    }
  }

  function LedgerVerdict(cfg: Config, ledger: Ledger, op: Op): Verdict {
    if !op.Failure? then Nothing
    else if op.ip in ledger.bans && ledger.bans[op.ip].expiresAt > op.checkedAt then Ignored
    else
      var history := Find(ledger.Failures(op.kind), op.ip) + [op.now];
      if |Recent(history, op.now - cfg.window)| >= cfg.Limit(op.kind)
      then Banned(Ban(op.ip, op.now + cfg.banTtl, op.client))
      else Noted
  }

  function LedgerCounted(ledger: Ledger, kind: Kind, ip: Ip, now: int): Ledger {
    var longer := Find(ledger.Failures(kind), ip) + [now];
    if kind == Login
    then ledger.(login := ledger.login[ip := longer])
    else ledger.(auth := ledger.auth[ip := longer])
  }

  /** A ban resets both histories of its address, a login resets the login history. */
  function LedgerStep(cfg: Config, ledger: Ledger, op: Op): Ledger {
    match LedgerVerdict(cfg, ledger, op)
    case Banned(ban) =>
      Ledger(ledger.login - {op.ip}, ledger.auth - {op.ip}, ledger.bans[op.ip := ban])
    case Noted => LedgerCounted(ledger, op.kind, op.ip, op.now)
    case _ =>
      if op.Success? then ledger.(login := ledger.login - {op.ip}) else ledger
  }

  function LedgerRun(cfg: Config, ledger: Ledger, ops: seq<Op>): Ledger
    decreases |ops|
  {
    if ops == [] then ledger else LedgerRun(cfg, LedgerStep(cfg, ledger, ops[0]), ops[1..])
  }

  function LedgerVerdicts(cfg: Config, ledger: Ledger, ops: seq<Op>): (verdicts: seq<Verdict>)
    ensures |verdicts| == |ops|
    decreases |ops|
  {
    if ops == [] then []
    else [LedgerVerdict(cfg, ledger, ops[0])]
         + LedgerVerdicts(cfg, LedgerStep(cfg, ledger, ops[0]), ops[1..])
  }

  /** What a store that has just started amounts to. */
  function Opening(store: Store): Ledger {
    Ledger(map[], map[], store.bans)
  }

  // ---- Failure lists -----------------------------------------------------

  lemma {:induction false} RecentOfRecent(times: seq<int>, early: int, late: int)
    requires early <= late
    ensures Recent(Recent(times, early), late) == Recent(times, late)
  {
    if times != [] {
      var front, last := times[..|times| - 1], times[|times| - 1];
      assert times == front + [last];
      RecentOfRecent(front, early, late);
      RecentAppend(front, last, early);
      RecentAppend(front, last, late);
      if last > early {
        RecentAppend(Recent(front, early), last, late);
      } else {
        assert Recent(front, early) + [] == Recent(front, early);
      }
    }
  }

  lemma RecentAppend(times: seq<int>, t: int, cutoff: int)
    ensures Recent(times + [t], cutoff) == Recent(times, cutoff) + if t > cutoff then [t] else []
  {
    assert (times + [t])[..|times|] == times;
  }

  lemma FindPruned(failures: map<Ip, seq<int>>, cutoff: int, ip: Ip)
    ensures Find(Pruned(failures, cutoff), ip) == Recent(Find(failures, ip), cutoff)
  {
  }

  // ---- The simulation ----------------------------------------------------

  /** Two failure lists no cleanup can tell apart from a time on. */
  predicate SameRecent(mine: seq<int>, full: seq<int>, cutoff: int) {
    Recent(mine, cutoff) == Recent(full, cutoff)
  }

  /** The store and the ledger agree about one address. */
  predicate Agree(store: Store, ledger: Ledger, ip: Ip, cutoff: int) {
    && SameRecent(Find(store.login, ip), Find(ledger.login, ip), cutoff)
    && SameRecent(Find(store.auth, ip), Find(ledger.auth, ip), cutoff)
    && (ip in store.bans ==>
          Find(store.login, ip) == Find(store.auth, ip) == Find(ledger.login, ip) == Find(ledger.auth, ip) == [])
  }

  ghost predicate Simulates(cfg: Config, store: Store, ledger: Ledger, now: int) {
    && Active(store.bans, now) == Active(ledger.bans, now)
    && AgreeOnAll(store, ledger, now - cfg.window)
  }

  ghost predicate AgreeOnAll(store: Store, ledger: Ledger, cutoff: int) {
    forall ip :: Agree(store, ledger, ip, cutoff)
  }

  lemma SameRecentLater(mine: seq<int>, full: seq<int>, early: int, late: int)
    requires SameRecent(mine, full, early) && early <= late
    ensures SameRecent(mine, full, late)
  {
    RecentOfRecent(mine, early, late);
    RecentOfRecent(full, early, late);
  }

  lemma ActiveAgree(mine: map<Ip, Ban>, theirs: map<Ip, Ban>, now: int, at: int, ip: Ip)
    requires Active(mine, now) == Active(theirs, now) && now <= at
    ensures (ip in mine && mine[ip].expiresAt > at) <==> (ip in theirs && theirs[ip].expiresAt > at)
    ensures ip in mine && mine[ip].expiresAt > at ==> mine[ip] == theirs[ip]
  {
    assert ip in Active(mine, now) <==> ip in Active(theirs, now);
    if ip in Active(mine, now) {
      assert Active(mine, now)[ip] == Active(theirs, now)[ip];
    }
  }

  lemma ActiveLater(mine: map<Ip, Ban>, theirs: map<Ip, Ban>, now: int, later: int)
    requires Active(mine, now) == Active(theirs, now) && now <= later
    ensures Active(mine, later) == Active(theirs, later)
  {
    forall ip
      ensures ip in Active(mine, later) <==> ip in Active(theirs, later)
      ensures ip in Active(mine, later) ==> Active(mine, later)[ip] == Active(theirs, later)[ip]
    {
      ActiveAgree(mine, theirs, now, later, ip);
    }
  }

  /** Time passing alone keeps the simulation. */
  lemma SimulatesLater(cfg: Config, store: Store, ledger: Ledger, now: int, later: int)
    requires Simulates(cfg, store, ledger, now) && now <= later
    ensures Simulates(cfg, store, ledger, later)
  {
    ActiveLater(store.bans, ledger.bans, now, later);
    var early, late := now - cfg.window, later - cfg.window;
    forall ip
      ensures Agree(store, ledger, ip, late)
    {
      assert Agree(store, ledger, ip, early);
      SameRecentLater(Find(store.login, ip), Find(ledger.login, ip), early, late);
      SameRecentLater(Find(store.auth, ip), Find(ledger.auth, ip), early, late);
    }
  }

  /** Dropping expired bans keeps the simulation. */
  lemma ForgottenSimulates(cfg: Config, store: Store, ledger: Ledger, now: int, ips: set<Ip>)
    requires Simulates(cfg, store, ledger, now) && ips <= Expired(store.bans, now)
    ensures Simulates(cfg, Forgotten(store, ips), ledger, now)
  {
    var left, cutoff := Forgotten(store, ips), now - cfg.window;
    assert Active(left.bans, now) == Active(store.bans, now);
    forall ip
      ensures Agree(left, ledger, ip, cutoff)
    {
      assert Agree(store, ledger, ip, cutoff);
    }
  }

  lemma CleanedSimulates(cfg: Config, store: Store, ledger: Ledger, now: int)
    requires Simulates(cfg, store, ledger, now)
    ensures Simulates(cfg, Cleaned(cfg, store, now), ledger, now)
  {
    var left, cleaned := Forgotten(store, Expired(store.bans, now)), Cleaned(cfg, store, now);
    var cutoff := now - cfg.window;
    ForgottenSimulates(cfg, store, ledger, now, Expired(store.bans, now));
    forall ip
      ensures Agree(cleaned, ledger, ip, cutoff)
    {
      assert Agree(left, ledger, ip, cutoff);
      FindPruned(left.login, cutoff, ip);
      FindPruned(left.auth, cutoff, ip);
      RecentOfRecent(Find(left.login, ip), cutoff, cutoff);
      RecentOfRecent(Find(left.auth, ip), cutoff, cutoff);
    }
  }

  lemma AskedSimulates(cfg: Config, store: Store, ledger: Ledger, now: int, ip: Ip)
    requires Simulates(cfg, store, ledger, now)
    ensures Simulates(cfg, Asked(store, ip, now), ledger, now)
    ensures !IsBanned(store, ip, now) ==> ip !in Asked(store, ip, now).bans
  {
    if ip in store.bans && store.bans[ip].expiresAt <= now {
      ForgottenSimulates(cfg, store, ledger, now, {ip});
    }
  }

  /** The pruned list and the whole history stay alike when both grow. */
  lemma SameRecentAppend(mine: seq<int>, full: seq<int>, cutoff: int, t: int)
    requires SameRecent(mine, full, cutoff) && cutoff < t
    ensures SameRecent(Recent(mine, cutoff) + [t], full + [t], cutoff)
    ensures Recent(mine, cutoff) + [t] == Recent(full + [t], cutoff)
  {
    RecentOfRecent(mine, cutoff, cutoff);
    RecentAppend(Recent(mine, cutoff), t, cutoff);
    RecentAppend(full, t, cutoff);
  }

  /** A failure short of the limit extends both histories by the same time. */
  lemma CountSimulates(cfg: Config, store: Store, ledger: Ledger, kind: Kind, ip: Ip, now: int)
    requires 0 < cfg.window && Simulates(cfg, store, ledger, now) && ip !in store.bans
    ensures Simulates(cfg, Counted(cfg, store, kind, ip, now), LedgerCounted(ledger, kind, ip, now), now)
  {
    var cutoff := now - cfg.window;
    var store', ledger' := Counted(cfg, store, kind, ip, now), LedgerCounted(ledger, kind, ip, now);
    forall other
      ensures Agree(store', ledger', other, cutoff)
    {
      assert Agree(store, ledger, other, cutoff);
      if other == ip {
        CountAgrees(cfg, store, ledger, kind, ip, now);
      } else {
        assert Find(store'.login, other) == Find(store.login, other);
        assert Find(ledger'.login, other) == Find(ledger.login, other);
      }
    }
  }

  lemma CountAgrees(cfg: Config, store: Store, ledger: Ledger, kind: Kind, ip: Ip, now: int)
    requires 0 < cfg.window && Agree(store, ledger, ip, now - cfg.window) && ip !in store.bans
    ensures Agree(Counted(cfg, store, kind, ip, now), LedgerCounted(ledger, kind, ip, now), ip, now - cfg.window)
  {
    hide Recent, SameRecent;
    SameRecentAppend(Find(store.Failures(kind), ip), Find(ledger.Failures(kind), ip), now - cfg.window, now);
  }

  lemma SameNewBan(mine: map<Ip, Ban>, theirs: map<Ip, Ban>, ban: Ban, now: int)
    requires Active(mine, now) == Active(theirs, now)
    ensures Active(mine[ban.ip := ban], now) == Active(theirs[ban.ip := ban], now)
  {
    var mine', theirs' := mine[ban.ip := ban], theirs[ban.ip := ban];
    forall other
      ensures other in Active(mine', now) <==> other in Active(theirs', now)
      ensures other in Active(mine', now) ==> Active(mine', now)[other] == Active(theirs', now)[other]
    {
      ActiveAgree(mine, theirs, now, now, other);
    }
  }

  lemma ResetAgrees(store: Store, store': Store, ledger: Ledger, ledger': Ledger, ip: Ip, other: Ip, cutoff: int)
    requires Agree(store, ledger, other, cutoff)
    requires store'.login == store.login - {ip} && store'.auth == store.auth - {ip}
    requires ledger'.login == ledger.login - {ip} && ledger'.auth == ledger.auth - {ip}
    requires other in store'.bans ==> other in store.bans || other == ip
    ensures Agree(store', ledger', other, cutoff)
  {
    hide Recent;
  }

  /** A ban empties both histories of its address and enters both ban tables. */
  lemma BanSimulates(cfg: Config, store: Store, ledger: Ledger, ban: Ban, document: Document, now: int)
    requires Simulates(cfg, store, ledger, now)
    ensures var ip := ban.ip;
            Simulates(cfg, Store(store.login - {ip}, store.auth - {ip}, store.bans[ip := ban], document),
                      Ledger(ledger.login - {ip}, ledger.auth - {ip}, ledger.bans[ip := ban]), now)
  {
    hide Active, Agree;
    var ip, cutoff := ban.ip, now - cfg.window;
    var store' := Store(store.login - {ip}, store.auth - {ip}, store.bans[ip := ban], document);
    var ledger' := Ledger(ledger.login - {ip}, ledger.auth - {ip}, ledger.bans[ip := ban]);
    SameNewBan(store.bans, ledger.bans, ban, now);
    forall other
      ensures Agree(store', ledger', other, cutoff)
    {
      assert Agree(store, ledger, other, cutoff);
      ResetAgrees(store, store', ledger, ledger', ip, other, cutoff);
    }
  }

  /** The verdict read off the length of the pruned list. */
  lemma JudgeByCount(cfg: Config, store: Store, op: Op)
    requires op.Failure? && !IsBanned(store, op.ip, op.checkedAt)
    ensures var pruned := Recent(Find(Asked(store, op.ip, op.checkedAt).Failures(op.kind), op.ip), op.now - cfg.window);
            Judge(cfg, store, op) == if |pruned| + 1 < cfg.Limit(op.kind) then Noted
                                     else Banned(Ban(op.ip, op.now + cfg.banTtl, op.client))
  {
    var asked := Asked(store, op.ip, op.checkedAt);
    var pruned := Recent(Find(asked.Failures(op.kind), op.ip), op.now - cfg.window);
    assert |pruned + [op.now]| == |pruned| + 1;
    assert op.ip !in asked.bans;
  }

  /** The state a failure leaves, read off its verdict. */
  lemma StepByVerdict(cfg: Config, store: Store, op: Op)
    requires op.Failure? && !IsBanned(store, op.ip, op.checkedAt)
    ensures var asked, after := Asked(store, op.ip, op.checkedAt), Step(cfg, store, op);
            match Judge(cfg, store, op)
            case Noted => after == Counted(cfg, asked, op.kind, op.ip, op.now)
            case Banned(ban) =>
              after == Store(asked.login - {op.ip}, asked.auth - {op.ip}, asked.bans[op.ip := ban], after.document)
            case _ => false
  {
    JudgeByCount(cfg, store, op);
  }

  /** A failure of an address that is not banned gets the same verdict from
      the pruned list as from the whole history. */
  lemma VerdictsAgree(cfg: Config, store: Store, ledger: Ledger, op: Op)
    requires 0 < cfg.window && op.Failure? && op.checkedAt <= op.now
    requires Simulates(cfg, store, ledger, op.checkedAt) && !IsBanned(store, op.ip, op.checkedAt)
    ensures var asked := Asked(store, op.ip, op.checkedAt);
            && op.ip !in asked.bans && Simulates(cfg, asked, ledger, op.now)
    ensures Judge(cfg, store, op) == LedgerVerdict(cfg, ledger, op)
  {
    hide Step, Judge, Recent, Active;
    JudgeByCount(cfg, store, op);
    var ip, kind, cutoff := op.ip, op.kind, op.now - cfg.window;
    ActiveAgree(store.bans, ledger.bans, op.checkedAt, op.checkedAt, ip);
    AskedSimulates(cfg, store, ledger, op.checkedAt, ip);
    var asked := Asked(store, ip, op.checkedAt);
    SimulatesLater(cfg, asked, ledger, op.checkedAt, op.now);
    assert Agree(asked, ledger, ip, cutoff);
    SameRecentAppend(Find(asked.Failures(kind), ip), Find(ledger.Failures(kind), ip), cutoff, op.now);
  }

  lemma FailureSimulates(cfg: Config, store: Store, ledger: Ledger, op: Op)
    requires 0 < cfg.window && op.Failure? && op.checkedAt <= op.now
    requires Simulates(cfg, store, ledger, op.checkedAt)
    ensures Judge(cfg, store, op) == LedgerVerdict(cfg, ledger, op)
    ensures Simulates(cfg, Step(cfg, store, op), LedgerStep(cfg, ledger, op), op.now)
  {
    if IsBanned(store, op.ip, op.checkedAt) {
      ActiveAgree(store.bans, ledger.bans, op.checkedAt, op.checkedAt, op.ip);
      SimulatesLater(cfg, store, ledger, op.checkedAt, op.now);
    } else {
      VerdictsAgree(cfg, store, ledger, op);
      JudgeByCount(cfg, store, op);
      StepByVerdict(cfg, store, op);
      var asked := Asked(store, op.ip, op.checkedAt);
      if Judge(cfg, store, op).Noted? {
        CountSimulates(cfg, asked, ledger, op.kind, op.ip, op.now);
      } else {
        BanSimulates(cfg, asked, ledger, Ban(op.ip, op.now + cfg.banTtl, op.client),
                     Step(cfg, store, op).document, op.now);
      }
    }
  }

  lemma StepSimulates(cfg: Config, store: Store, ledger: Ledger, op: Op, now: int)
    requires 0 < cfg.window && Timely(op, now) && Simulates(cfg, store, ledger, now)
    ensures Judge(cfg, store, op) == LedgerVerdict(cfg, ledger, op)
    ensures Simulates(cfg, Step(cfg, store, op), LedgerStep(cfg, ledger, op), After(op, now))
  {
    match op
    case Failure(_, _, _, checkedAt, _) =>
      SimulatesLater(cfg, store, ledger, now, checkedAt);
      FailureSimulates(cfg, store, ledger, op);
    case Success(ip) =>
      var store', ledger', cutoff := Step(cfg, store, op), LedgerStep(cfg, ledger, op), now - cfg.window;
      forall other
        ensures Agree(store', ledger', other, cutoff)
      {
        assert Agree(store, ledger, other, cutoff);
      }
    case Query(ip, at) =>
      SimulatesLater(cfg, store, ledger, now, at);
      AskedSimulates(cfg, store, ledger, at, ip);
    case Cleanup(at) =>
      SimulatesLater(cfg, store, ledger, now, at);
      CleanedSimulates(cfg, store, ledger, at);
  }

  lemma {:induction false} RunSimulates(cfg: Config, store: Store, ledger: Ledger, ops: seq<Op>, now: int)
    requires 0 < cfg.window && TimelyRun(ops, now) && Simulates(cfg, store, ledger, now)
    ensures Verdicts(cfg, store, ops) == LedgerVerdicts(cfg, ledger, ops)
    ensures Simulates(cfg, Run(cfg, store, ops), LedgerRun(cfg, ledger, ops), EndTime(ops, now))
    decreases |ops|
  {
    if ops != [] {
      StepSimulates(cfg, store, ledger, ops[0], now);
      RunSimulates(cfg, Step(cfg, store, ops[0]), LedgerStep(cfg, ledger, ops[0]), ops[1..], After(ops[0], now));
    }
  }

  /** Main result.  In every run of a store started on any state file, each
      failure is judged exactly as the unpruned ledger judges it. */
  lemma PruningIsExact(cfg: Config, document: Document, readAt: int, cleanedAt: int, ops: seq<Op>)
    requires 0 < cfg.window && readAt <= cleanedAt && TimelyRun(ops, cleanedAt)
    ensures var store := Started(cfg, document, readAt, cleanedAt);
            Verdicts(cfg, store, ops) == LedgerVerdicts(cfg, Opening(store), ops)
  {
    var store := Started(cfg, document, readAt, cleanedAt);
    assert store.login == map[] && store.auth == map[];
    RunSimulates(cfg, store, Opening(store), ops, cleanedAt);
  }

  // ---- Cleanup is invisible ----------------------------------------------

  /** The operations that count: failures and successful logins. */
  function Essential(ops: seq<Op>): seq<Op> {
    if ops == [] then []
    else (if ops[0].Failure? || ops[0].Success? then [ops[0]] else []) + Essential(ops[1..])
  }

  /** The verdicts on failures, in order. */
  function Rulings(verdicts: seq<Verdict>): seq<Verdict> {
    if verdicts == [] then []
    else (if verdicts[0] == Nothing then [] else [verdicts[0]]) + Rulings(verdicts[1..])
  }

  lemma {:induction false} LedgerSeesEssential(cfg: Config, ledger: Ledger, ops: seq<Op>)
    ensures Rulings(LedgerVerdicts(cfg, ledger, ops)) == Rulings(LedgerVerdicts(cfg, ledger, Essential(ops)))
    decreases |ops|
  {
    if ops != [] {
      var op, rest := ops[0], ops[1..];
      LedgerSeesEssential(cfg, LedgerStep(cfg, ledger, op), rest);
      if op.Failure? || op.Success? {
        assert Essential(ops)[0] == op && Essential(ops)[1..] == Essential(rest);
      } else {
        assert Essential(ops) == Essential(rest);
      }
    }
  }

  /** Main result.  Two runs with the same failures and logins at the same
      times get the same rulings, wherever either of them cleans up or asks. */
  lemma CleanupIsInvisible(cfg: Config, store: Store, now: int, ops: seq<Op>, ops': seq<Op>)
    requires 0 < cfg.window && store.login == map[] && store.auth == map[]
    requires TimelyRun(ops, now) && TimelyRun(ops', now)
    requires Essential(ops) == Essential(ops')
    ensures Rulings(Verdicts(cfg, store, ops)) == Rulings(Verdicts(cfg, store, ops'))
  {
    RunSimulates(cfg, store, Opening(store), ops, now);
    RunSimulates(cfg, store, Opening(store), ops', now);
    LedgerSeesEssential(cfg, Opening(store), ops);
    LedgerSeesEssential(cfg, Opening(store), ops');
  }
}
