/** Which failure bans: the limit of each kind, in failures of one window. */
module BanLimits {
  import opened BanModel
  import opened BanHistory
  import opened BanRate

  /** The times of the failures of a kind and address that were not ignored,
      since the address was last banned or, for logins, last logged in. */
  function Since(kind: Kind, ip: Ip, past: seq<int>, ops: seq<Op>, verdicts: seq<Verdict>): seq<int>
    requires |ops| == |verdicts|
    decreases |ops|
  {
    if ops == [] then past
    else
      var op, verdict := ops[0], verdicts[0];
      var next :=
        if (op.Failure? && op.ip == ip && verdict.Banned?) || (op == Success(ip) && kind == Login) then []
        else if Recorded(kind, ip, op, verdict) then past + [op.now]
        else past;
      Since(kind, ip, next, ops[1..], verdicts[1..])
  }

  lemma {:induction false} LedgerKeepsSince(cfg: Config, ledger: Ledger, kind: Kind, ip: Ip, ops: seq<Op>)
    ensures Find(LedgerRun(cfg, ledger, ops).Failures(kind), ip)
            == Since(kind, ip, Find(ledger.Failures(kind), ip), ops, LedgerVerdicts(cfg, ledger, ops))
    decreases |ops|
  {
    hide LedgerVerdict, LedgerStep, Find;
    if ops != [] {
      var op := ops[0];
      HistoryStep(cfg, ledger, kind, ip, op);
      BansStep(cfg, ledger, ip, op);
      VerdictOfOther(cfg, ledger, op);
      LedgerKeepsSince(cfg, LedgerStep(cfg, ledger, op), kind, ip, ops[1..]);
      assert LedgerVerdicts(cfg, ledger, ops)[1..] == LedgerVerdicts(cfg, LedgerStep(cfg, ledger, op), ops[1..]);
    }
  }

  lemma VerdictOfOther(cfg: Config, ledger: Ledger, op: Op)
    ensures !op.Failure? ==> LedgerVerdict(cfg, ledger, op) == Nothing
  {
  }

  predicate UpTo(times: seq<int>, now: int) {
    forall i :: 0 <= i < |times| ==> times[i] <= now
  }

  lemma {:induction false} SinceIsPast(kind: Kind, ip: Ip, past: seq<int>, ops: seq<Op>, verdicts: seq<Verdict>,
                                       now: int)
    requires |ops| == |verdicts| && TimelyRun(ops, now) && UpTo(past, now)
    ensures UpTo(Since(kind, ip, past, ops, verdicts), EndTime(ops, now))
    decreases |ops|
  {
    if ops != [] {
      var op, verdict := ops[0], verdicts[0];
      var next :=
        if (op.Failure? && op.ip == ip && verdict.Banned?) || (op == Success(ip) && kind == Login) then []
        else if Recorded(kind, ip, op, verdict) then past + [op.now]
        else past;
      assert UpTo(next, After(op, now));
      SinceIsPast(kind, ip, next, ops[1..], verdicts[1..], After(op, now));
    }
  }

  /** Pruning keeps exactly the times of the window that ends now. */
  lemma {:induction false} RecentIsInWindow(times: seq<int>, low: int, high: int)
    requires UpTo(times, high)
    ensures |Recent(times, low)| == InWindow(times, low, high)
  {
    if times != [] {
      RecentIsInWindow(times[..|times| - 1], low, high);
      assert times[|times| - 1] <= high;
    }
  }

  /** The failures that count when an operation fails: those since the last
      reset and the new one, in the window that ends with it. */
  function Counting(cfg: Config, store: Store, before: seq<Op>, op: Op): nat
    requires op.Failure?
  {
    InWindow(Since(op.kind, op.ip, [], before, Verdicts(cfg, store, before)) + [op.now], op.now - cfg.window, op.now)
  }

  lemma DecidedByCount(cfg: Config, store: Store, start: int, before: seq<Op>, op: Op)
    requires 0 < cfg.window && store.login == map[] && store.auth == map[]
    requires TimelyRun(before, start) && op.Failure? && Timely(op, EndTime(before, start))
    ensures var verdict := Judge(cfg, Run(cfg, store, before), op);
            verdict == if IsBanned(Run(cfg, store, before), op.ip, op.checkedAt) then Ignored
                       else if Counting(cfg, store, before, op) >= cfg.Limit(op.kind)
                       then Banned(Ban(op.ip, op.now + cfg.banTtl, op.client)) else Noted
  {
    hide Run, LedgerRun, Verdicts, LedgerVerdicts, Active, Recent, InWindow, Judge, IsBanned, Since,
         TimelyRun, EndTime;
    var ledger, now := LedgerRun(cfg, Opening(store), before), EndTime(before, start);
    RunSimulates(cfg, store, Opening(store), before, start);
    StepSimulates(cfg, Run(cfg, store, before), ledger, op, now);
    LedgerKeepsSince(cfg, Opening(store), op.kind, op.ip, before);
    var verdicts := Verdicts(cfg, store, before);
    var past := Since(op.kind, op.ip, [], before, verdicts);
    SinceIsPast(op.kind, op.ip, [], before, verdicts, start);
    RecentIsInWindow(past + [op.now], op.now - cfg.window, op.now);
    IgnoredWhileBanned(cfg, Run(cfg, store, before), op);
  }

  lemma IgnoredWhileBanned(cfg: Config, store: Store, op: Op)
    requires op.Failure?
    ensures Judge(cfg, store, op) == Ignored <==> IsBanned(store, op.ip, op.checkedAt)
  {
  }

  /** Main result.  In every run of a store started on any file, a failed login
      is ignored exactly while its address is banned, and otherwise bans if and
      only if it makes `loginLimit` failed logins since the last reset fall into
      the window. */
  lemma LoginFailureBans(cfg: Config, document: Document, readAt: int, cleanedAt: int, before: seq<Op>, op: Op)
    requires 0 < cfg.window && readAt <= cleanedAt && TimelyRun(before, cleanedAt)
    requires op.Failure? && op.kind == Login && Timely(op, EndTime(before, cleanedAt))
    ensures var store := Started(cfg, document, readAt, cleanedAt);
            var verdict := Judge(cfg, Run(cfg, store, before), op);
            verdict == if IsBanned(Run(cfg, store, before), op.ip, op.checkedAt) then Ignored
                       else if Counting(cfg, store, before, op) >= cfg.loginLimit
                       then Banned(Ban(op.ip, op.now + cfg.banTtl, op.client)) else Noted
  {
    hide Judge, Counting, Run;
    StartedIsFresh(cfg, document, readAt, cleanedAt);
    DecidedByCount(cfg, Started(cfg, document, readAt, cleanedAt), cleanedAt, before, op);
  }

  /** Main result.  The same for requests without a session and `authLimit`. */
  lemma AuthFailureBans(cfg: Config, document: Document, readAt: int, cleanedAt: int, before: seq<Op>, op: Op)
    requires 0 < cfg.window && readAt <= cleanedAt && TimelyRun(before, cleanedAt)
    requires op.Failure? && op.kind == Auth && Timely(op, EndTime(before, cleanedAt))
    ensures var store := Started(cfg, document, readAt, cleanedAt);
            var verdict := Judge(cfg, Run(cfg, store, before), op);
            verdict == if IsBanned(Run(cfg, store, before), op.ip, op.checkedAt) then Ignored
                       else if Counting(cfg, store, before, op) >= cfg.authLimit
                       then Banned(Ban(op.ip, op.now + cfg.banTtl, op.client)) else Noted
  {
    hide Judge, Counting, Run;
    StartedIsFresh(cfg, document, readAt, cleanedAt);
    DecidedByCount(cfg, Started(cfg, document, readAt, cleanedAt), cleanedAt, before, op);
  }

  lemma StartedIsFresh(cfg: Config, document: Document, readAt: int, cleanedAt: int)
    ensures var store := Started(cfg, document, readAt, cleanedAt);
            store.login == map[] && store.auth == map[]
  {
  }

  // ---- The rate of each kind -------------------------------------------------

  /** Main result.  In any stretch of any run without a successful login of the
      address, no window holds more of its recorded failed logins than `loginLimit`. */
  lemma LoginRateBound(cfg: Config, store: Store, start: int, before: seq<Op>, stretch: seq<Op>, ip: Ip, high: int)
    requires cfg.Sound() && 1 <= cfg.loginLimit && store.login == map[] && store.auth == map[]
    requires TimelyRun(before, start) && TimelyRun(stretch, EndTime(before, start)) && NoSuccess(ip, stretch)
    ensures var verdicts := Verdicts(cfg, Run(cfg, store, before), stretch);
            InWindow(RecordedTimes(Login, ip, stretch, verdicts), high - cfg.window, high) <= cfg.loginLimit
  {
    hide Run, Verdicts, RecordedTimes, InWindow;
    RateBound(cfg, store, start, before, stretch, Login, ip, high);
  }

  /** Main result.  In any stretch of any run no window holds more recorded
      requests of an address without a session than `authLimit`. */
  lemma AuthRateBound(cfg: Config, store: Store, start: int, before: seq<Op>, stretch: seq<Op>, ip: Ip, high: int)
    requires cfg.Sound() && 1 <= cfg.authLimit && store.login == map[] && store.auth == map[]
    requires TimelyRun(before, start) && TimelyRun(stretch, EndTime(before, start))
    ensures var verdicts := Verdicts(cfg, Run(cfg, store, before), stretch);
            InWindow(RecordedTimes(Auth, ip, stretch, verdicts), high - cfg.window, high) <= cfg.authLimit
  {
    hide Run, Verdicts, RecordedTimes, InWindow;
    RateBound(cfg, store, start, before, stretch, Auth, ip, high);
  }

  // ---- A row of failures -------------------------------------------------------

  /** One address fails at these times. */
  function Attempts(kind: Kind, ip: Ip, client: Client, times: seq<int>): (ops: seq<Op>)
    ensures |ops| == |times|
  {
    if times == [] then []
    else [Failure(kind, ip, client, times[0], times[0])] + Attempts(kind, ip, client, times[1..])
  }

  /** All are noted but the last, which bans. */
  function LastBans(ban: Ban, count: nat): seq<Verdict>
    requires count > 0
  {
    if count == 1 then [Banned(ban)] else [Noted] + LastBans(ban, count - 1)
  }

  lemma {:induction false} AllRecent(times: seq<int>, cutoff: int)
    requires forall i :: 0 <= i < |times| ==> times[i] > cutoff
    ensures Recent(times, cutoff) == times
  {
    if times != [] {
      AllRecent(times[..|times| - 1], cutoff);
    }
  }

  lemma {:induction false} AttemptsFrom(cfg: Config, ledger: Ledger, kind: Kind, ip: Ip, client: Client,
                                        times: seq<int>, k: nat)
    requires k < |times| == cfg.Limit(kind) && Sorted(times) && times[|times| - 1] < times[0] + cfg.window
    requires Find(ledger.Failures(kind), ip) == times[..k]
    requires ip in ledger.bans ==> ledger.bans[ip].expiresAt <= times[0]
    ensures LedgerVerdicts(cfg, ledger, Attempts(kind, ip, client, times[k..]))
            == LastBans(Ban(ip, times[|times| - 1] + cfg.banTtl, client), |times| - k)
    decreases |times| - k
  {
    hide Recent, LedgerVerdict, LedgerStep, LedgerVerdicts, Find;
    var op := Failure(kind, ip, client, times[k], times[k]);
    var rest := Attempts(kind, ip, client, times[k + 1..]);
    assert Attempts(kind, ip, client, times[k..]) == [op] + rest by {
      assert times[k..][1..] == times[k + 1..];
    }
    AttemptCounts(cfg, ledger, op, times, k);
    LedgerFirst(cfg, ledger, op, rest);
    if k < |times| - 1 {
      AttemptsFrom(cfg, LedgerStep(cfg, ledger, op), kind, ip, client, times, k + 1);
    } else {
      NoneLeft(cfg, LedgerStep(cfg, ledger, op));
    }
  }

  lemma NoneLeft(cfg: Config, ledger: Ledger)
    ensures LedgerVerdicts(cfg, ledger, []) == []
  {
  }

  /** One attempt more: the last one bans, the others extend the history. */
  lemma AttemptCounts(cfg: Config, ledger: Ledger, op: Op, times: seq<int>, k: nat)
    requires op.Failure? && k < |times| == cfg.Limit(op.kind) && Sorted(times) && op.checkedAt == op.now == times[k]
    requires times[|times| - 1] < times[0] + cfg.window
    requires Find(ledger.Failures(op.kind), op.ip) == times[..k]
    requires op.ip in ledger.bans ==> ledger.bans[op.ip].expiresAt <= times[0]
    ensures LedgerVerdict(cfg, ledger, op)
            == if k == |times| - 1 then Banned(Ban(op.ip, times[k] + cfg.banTtl, op.client)) else Noted
    ensures k < |times| - 1 ==>
              && Find(LedgerStep(cfg, ledger, op).Failures(op.kind), op.ip) == times[..k + 1]
              && LedgerStep(cfg, ledger, op).bans == ledger.bans
  {
    hide Recent;
    assert times[..k] + [times[k]] == times[..k + 1];
    AllRecent(times[..k + 1], times[k] - cfg.window);
  }

  lemma LedgerFirst(cfg: Config, ledger: Ledger, op: Op, rest: seq<Op>)
    ensures LedgerVerdicts(cfg, ledger, [op] + rest)
            == [LedgerVerdict(cfg, ledger, op)] + LedgerVerdicts(cfg, LedgerStep(cfg, ledger, op), rest)
  {
    assert ([op] + rest)[1..] == rest;
  }

  lemma {:induction false} AttemptsAreTimely(kind: Kind, ip: Ip, client: Client, times: seq<int>, start: int)
    requires Sorted(times) && (times != [] ==> start <= times[0])
    ensures TimelyRun(Attempts(kind, ip, client, times), start)
    decreases |times|
  {
    if times != [] {
      AttemptsAreTimely(kind, ip, client, times[1..], times[0]);
      assert Attempts(kind, ip, client, times)[1..] == Attempts(kind, ip, client, times[1..]);
    }
  }

  lemma AttemptsBan(cfg: Config, store: Store, start: int, kind: Kind, ip: Ip, client: Client, times: seq<int>)
    requires cfg.Sound() && store.login == map[] && store.auth == map[]
    requires 0 < |times| == cfg.Limit(kind) && Sorted(times) && start <= times[0]
    requires ip in store.bans ==> store.bans[ip].expiresAt <= times[0]
    requires times[|times| - 1] < times[0] + cfg.window
    ensures Verdicts(cfg, store, Attempts(kind, ip, client, times))
            == LastBans(Ban(ip, times[|times| - 1] + cfg.banTtl, client), |times|)
  {
    hide Verdicts, LedgerVerdicts, Attempts, LastBans, Active, Recent;
    AttemptsAreTimely(kind, ip, client, times, start);
    RunSimulates(cfg, store, Opening(store), Attempts(kind, ip, client, times), start);
    assert times[..0] == [] && times[0..] == times;
    AttemptsFrom(cfg, Opening(store), kind, ip, client, times, 0);
  }

  /** Main result.  As the application runs, the fifth failed login of an
      address within an hour bans it for three hours, and the four before do not. */
  lemma FifthLoginFailureBans(store: Store, start: int, ip: Ip, client: Client, a: int, b: int, c: int, d: int, e: int)
    requires store.login == map[] && store.auth == map[]
    requires ip in store.bans ==> store.bans[ip].expiresAt <= a
    requires start <= a <= b <= c <= d <= e < a + 3600
    ensures Verdicts(PRODUCTION, store, Attempts(Login, ip, client, [a, b, c, d, e]))
            == [Noted, Noted, Noted, Noted, Banned(Ban(ip, e + 10800, client))]
  {
    hide Verdicts, Attempts;
    var times, ban := [a, b, c, d, e], Ban(ip, e + 10800, client);
    assert Sorted(times);
    AttemptsBan(PRODUCTION, store, start, Login, ip, client, times);
    assert LastBans(ban, 2) == [Noted] + LastBans(ban, 1) == [Noted, Banned(ban)];
    assert LastBans(ban, 3) == [Noted] + LastBans(ban, 2);
    assert LastBans(ban, 4) == [Noted] + LastBans(ban, 3);
  }

  lemma {:induction false} LastBansAt(ban: Ban, count: nat, i: nat)
    requires i < count
    ensures |LastBans(ban, count)| == count
    ensures LastBans(ban, count)[i] == if i == count - 1 then Banned(ban) else Noted
    decreases count
  {
    if count > 1 {
      LastBansAt(ban, count - 1, if i > 0 then i - 1 else 0);
    }
  }

  /** Main result.  The twentieth request without a session within an hour bans,
      and the nineteen before do not. */
  lemma TwentiethRequestBans(store: Store, start: int, ip: Ip, client: Client, times: seq<int>, i: nat)
    requires store.login == map[] && store.auth == map[]
    requires |times| == 20 && Sorted(times) && start <= times[0] && times[19] < times[0] + 3600
    requires ip in store.bans ==> store.bans[ip].expiresAt <= times[0]
    requires i < 20
    ensures Verdicts(PRODUCTION, store, Attempts(Auth, ip, client, times))[i]
            == if i == 19 then Banned(Ban(ip, times[19] + 10800, client)) else Noted
  {
    hide Verdicts, Attempts, LastBans;
    AttemptsBan(PRODUCTION, store, start, Auth, ip, client, times);
    LastBansAt(Ban(ip, times[19] + 10800, client), 20, i);
  }
}
