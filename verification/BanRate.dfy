/** How often an address can fail, and how long a ban lasts, over whole runs. */
module BanRate {
  import opened BanModel
  import opened BanHistory

  /** The times of the failures of one kind and address that were not ignored. */
  function RecordedTimes(kind: Kind, ip: Ip, ops: seq<Op>, verdicts: seq<Verdict>): seq<int>
    requires |ops| == |verdicts|
  {
    if ops == [] then []
    else
      (if Recorded(kind, ip, ops[0], verdicts[0]) then [ops[0].now] else [])
      + RecordedTimes(kind, ip, ops[1..], verdicts[1..])
  }

  predicate Recorded(kind: Kind, ip: Ip, op: Op, verdict: Verdict) {
    op.Failure? && op.kind == kind && op.ip == ip && (verdict.Noted? || verdict.Banned?)
  }

  predicate NoSuccess(ip: Ip, ops: seq<Op>) {
    forall i :: 0 <= i < |ops| ==> ops[i] != Success(ip)
  }

  /** How many of the times lie in the half-open interval (low, high]. */
  function InWindow(times: seq<int>, low: int, high: int): nat {
    if times == [] then 0
    else
      InWindow(times[..|times| - 1], low, high) + if low < times[|times| - 1] <= high then 1 else 0
  }

  predicate Sorted(times: seq<int>) {
    forall i, j :: 0 <= i < j < |times| ==> times[i] <= times[j]
  }

  /** Any `gap` + 1 consecutive times span at least `width`. */
  predicate Spaced(times: seq<int>, gap: int, width: int) {
    forall i, j :: 0 <= i < |times| && j == i + gap && 0 <= j < |times| ==> times[j] - times[i] >= width
  }

  // ---- Counting in sorted lists ------------------------------------------

  lemma {:induction false} FewInWindow(times: seq<int>, low: int, high: int, k: nat)
    requires Sorted(times) && k <= |times| && (k > 0 ==> times[k - 1] <= low)
    ensures InWindow(times, low, high) <= |times| - k
  {
    if k < |times| {
      FewInWindow(times[..|times| - 1], low, high, k);
    } else if k > 0 {
      FewInWindow(times[..k - 1], low, high, k - 1);
    }
  }

  /** Spacing by the limit bounds every window by the limit. */
  lemma {:induction false} SpacedBoundsWindow(times: seq<int>, limit: nat, width: int, high: int)
    requires Sorted(times) && 0 < limit && Spaced(times, limit, width)
    ensures InWindow(times, high - width, high) <= limit
  {
    if times != [] {
      var n, front := |times|, times[..|times| - 1];
      if times[n - 1] > high {
        SpacedBoundsWindow(front, limit, width, high);
      } else if n > limit {
        assert times[n - 1] - times[n - 1 - limit] >= width;
        FewInWindow(times, high - width, high, n - limit);
      } else {
        FewInWindow(times, high - width, high, 0);
      }
    }
  }

  lemma {:induction false} RecentKeepsTail(times: seq<int>, cutoff: int, k: nat)
    requires Sorted(times) && k < |times| && times[k] > cutoff
    ensures |Recent(times, cutoff)| >= |times| - k
  {
    var front := times[..|times| - 1];
    assert times == front + [times[|times| - 1]];
    if k < |times| - 1 {
      RecentKeepsTail(front, cutoff, k);
    }
  }

  // ---- The invariant of a history ----------------------------------------

  /** A history holds no full window, since that would have become a ban. */
  predicate Quiet(cfg: Config, kind: Kind, history: seq<int>, now: int) {
    && Sorted(history)
    && (history != [] ==> history[|history| - 1] <= now)
    && Spaced(history, cfg.Limit(kind) - 1, cfg.window)
  }

  /** One more time after a list that keeps its distance. */
  lemma OneMoreSpaced(times: seq<int>, t: int, limit: int, width: int)
    requires 1 <= limit && Sorted(times) && Spaced(times, limit, width)
    requires times != [] ==> times[|times| - 1] <= t
    requires limit <= |times| ==> t - times[|times| - limit] >= width
    ensures Sorted(times + [t]) && Spaced(times + [t], limit, width)
  {
    var longer := times + [t];
    forall i, j | 0 <= i < |longer| && j == i + limit && 0 <= j < |longer|
      ensures longer[j] - longer[i] >= width
    {
      if j < |times| {
        assert times[j] - times[i] >= width;
      }
    }
  }

  lemma NotedStaysQuiet(cfg: Config, kind: Kind, history: seq<int>, now: int, t: int)
    requires cfg.Sound() && 1 <= cfg.Limit(kind) && Quiet(cfg, kind, history, now) && now <= t
    requires |Recent(history + [t], t - cfg.window)| < cfg.Limit(kind)
    ensures Quiet(cfg, kind, history + [t], t)
  {
    var longer, gap := history + [t], cfg.Limit(kind) - 1;
    var k := |longer| - 1 - gap;
    hide Recent;
    assert Sorted(longer);
    if k >= 0 && longer[k] > t - cfg.window {
      RecentKeepsTail(longer, t - cfg.window, k);
      assert false;
    }
    OneMoreSpaced(history, t, gap, cfg.window);
  }

  /** What a step does to one history: it grows, is reset, or stays. */
  lemma HistoryStep(cfg: Config, ledger: Ledger, kind: Kind, ip: Ip, op: Op)
    ensures var verdict, ledger' := LedgerVerdict(cfg, ledger, op), LedgerStep(cfg, ledger, op);
            var history, history' := Find(ledger.Failures(kind), ip), Find(ledger'.Failures(kind), ip);
            if verdict.Noted? && op.kind == kind && op.ip == ip then
              history' == history + [op.now] && |Recent(history', op.now - cfg.window)| < cfg.Limit(kind)
            else if (verdict.Banned? && op.ip == ip) || (op == Success(ip) && kind == Login) then
              history' == []
            else history' == history
  {
    hide Recent;
  }

  lemma QuietLater(cfg: Config, kind: Kind, history: seq<int>, history': seq<int>, now: int, op: Op,
                   verdict: Verdict, ip: Ip)
    requires cfg.Sound() && 1 <= cfg.Limit(kind) && Timely(op, now) && Quiet(cfg, kind, history, now)
    requires op.Failure? || verdict == Nothing
    requires || history' == history || history' == []
             || (op.Failure? && history' == history + [op.now]
                 && |Recent(history', op.now - cfg.window)| < cfg.Limit(kind))
    ensures Quiet(cfg, kind, history', After(op, now))
  {
    if history' != history && history' != [] {
      NotedStaysQuiet(cfg, kind, history, now, op.now);
    }
  }

  lemma QuietStep(cfg: Config, ledger: Ledger, kind: Kind, ip: Ip, op: Op, now: int)
    requires cfg.Sound() && 1 <= cfg.Limit(kind) && Timely(op, now)
    requires Quiet(cfg, kind, Find(ledger.Failures(kind), ip), now)
    ensures Quiet(cfg, kind, Find(LedgerStep(cfg, ledger, op).Failures(kind), ip), After(op, now))
  {
    var history := Find(ledger.Failures(kind), ip);
    var history' := Find(LedgerStep(cfg, ledger, op).Failures(kind), ip);
    HistoryStep(cfg, ledger, kind, ip, op);
    QuietLater(cfg, kind, history, history', now, op, LedgerVerdict(cfg, ledger, op), ip);
  }

  lemma {:induction false} QuietRun(cfg: Config, ledger: Ledger, kind: Kind, ip: Ip, ops: seq<Op>, now: int)
    requires cfg.Sound() && 1 <= cfg.Limit(kind) && TimelyRun(ops, now)
    requires Quiet(cfg, kind, Find(ledger.Failures(kind), ip), now)
    ensures Quiet(cfg, kind, Find(LedgerRun(cfg, ledger, ops).Failures(kind), ip), EndTime(ops, now))
    decreases |ops|
  {
    if ops != [] {
      QuietStep(cfg, ledger, kind, ip, ops[0], now);
      QuietRun(cfg, LedgerStep(cfg, ledger, ops[0]), kind, ip, ops[1..], After(ops[0], now));
    }
  }

  // ---- The invariant of a stretch without a login --------------------------

  predicate Orderly(cfg: Config, kind: Kind, times: seq<int>, now: int) {
    && Sorted(times) && Spaced(times, cfg.Limit(kind), cfg.window)
    && (times != [] ==> times[|times| - 1] <= now)
  }

  /** The times recorded so far in a stretch: those before position `m` lie a
      whole term before the end of the last ban, the others end the history. */
  predicate Split(cfg: Config, history: seq<int>, bans: map<Ip, Ban>, ip: Ip, times: seq<int>, m: nat) {
    && m <= |times| <= m + |history|
    && (forall i :: m <= i < |times| ==> times[i] == history[i - |times| + |history|])
    && (m > 0 ==> ip in bans && times[m - 1] + cfg.banTtl <= bans[ip].expiresAt)
  }

  /** The next failure that is not ignored comes a window after the one `limit` before it. */
  lemma NextIsSpaced(cfg: Config, kind: Kind, history: seq<int>, bans: map<Ip, Ban>, ip: Ip, now: int,
                     times: seq<int>, m: nat, t: int)
    requires cfg.Sound() && 1 <= cfg.Limit(kind) && now <= t
    requires Quiet(cfg, kind, history, now) && Orderly(cfg, kind, times, now)
    requires Split(cfg, history, bans, ip, times, m)
    requires ip in bans ==> bans[ip].expiresAt <= t
    ensures Orderly(cfg, kind, times + [t], t)
  {
    var limit := cfg.Limit(kind);
    var k := |times| - limit;
    if k >= 0 {
      if k < m {
        assert times[k] <= times[m - 1];
      } else {
        var h := |history| - limit;
        assert times[k] == history[h];
        assert history[h + (limit - 1)] - history[h] >= cfg.window;
      }
      assert t - times[k] >= cfg.window;
    }
    OneMoreSpaced(times, t, limit, cfg.window);
  }

  /** Where the split lies after a step. */
  function NextSplit(ip: Ip, op: Op, verdict: Verdict, m: nat, recorded: nat): nat {
    if op.Failure? && op.ip == ip && verdict.Banned? then recorded else m
  }

  function Extended(kind: Kind, ip: Ip, times: seq<int>, op: Op, verdict: Verdict): seq<int> {
    if Recorded(kind, ip, op, verdict) then times + [op.now] else times
  }

  lemma OrderlyStep(cfg: Config, ledger: Ledger, kind: Kind, ip: Ip, now: int, times: seq<int>, m: nat, op: Op)
    requires cfg.Sound() && 1 <= cfg.Limit(kind) && Timely(op, now)
    requires Quiet(cfg, kind, Find(ledger.Failures(kind), ip), now) && Orderly(cfg, kind, times, now)
    requires Split(cfg, Find(ledger.Failures(kind), ip), ledger.bans, ip, times, m)
    ensures Orderly(cfg, kind, Extended(kind, ip, times, op, LedgerVerdict(cfg, ledger, op)), After(op, now))
  {
    if Recorded(kind, ip, op, LedgerVerdict(cfg, ledger, op)) {
      NextIsSpaced(cfg, kind, Find(ledger.Failures(kind), ip), ledger.bans, ip, now, times, m, op.now);
    }
  }

  lemma SplitStep(cfg: Config, ledger: Ledger, kind: Kind, ip: Ip, now: int, times: seq<int>, m: nat, op: Op)
    requires Timely(op, now) && Orderly(cfg, kind, times, now)
    requires Split(cfg, Find(ledger.Failures(kind), ip), ledger.bans, ip, times, m)
    requires kind == Login ==> op != Success(ip)
    ensures var verdict, ledger' := LedgerVerdict(cfg, ledger, op), LedgerStep(cfg, ledger, op);
            var times' := Extended(kind, ip, times, op, verdict);
            Split(cfg, Find(ledger'.Failures(kind), ip), ledger'.bans, ip, times',
                  NextSplit(ip, op, verdict, m, |times'|))
  {
    hide LedgerVerdict, LedgerStep, Find;
    HistoryStep(cfg, ledger, kind, ip, op);
    BansStep(cfg, ledger, ip, op);
    var verdict, ledger' := LedgerVerdict(cfg, ledger, op), LedgerStep(cfg, ledger, op);
    var times' := Extended(kind, ip, times, op, verdict);
    if op.Failure? && op.ip == ip && verdict.Banned? {
      assert times' != [] ==> times'[|times'| - 1] <= op.now;
      BanSplits(cfg, ledger'.bans, ip, times', op.now);
    } else if Recorded(kind, ip, op, verdict) {
      NoteSplits(cfg, Find(ledger.Failures(kind), ip), ledger.bans, ip, times, m, op.now);
    }
  }

  lemma BansStep(cfg: Config, ledger: Ledger, ip: Ip, op: Op)
    ensures var verdict, bans := LedgerVerdict(cfg, ledger, op), LedgerStep(cfg, ledger, op).bans;
            if op.Failure? && op.ip == ip && verdict.Banned?
            then ip in bans && bans[ip].expiresAt == op.now + cfg.banTtl
            else (ip in bans <==> ip in ledger.bans) && (ip in bans ==> bans[ip] == ledger.bans[ip])
    ensures !op.Failure? ==> LedgerVerdict(cfg, ledger, op) == Nothing
  {
    hide Recent, Find;
  }

  lemma BanSplits(cfg: Config, bans: map<Ip, Ban>, ip: Ip, times: seq<int>, now: int)
    requires ip in bans && bans[ip].expiresAt == now + cfg.banTtl
    requires times != [] ==> times[|times| - 1] <= now
    ensures Split(cfg, [], bans, ip, times, |times|)
  {
  }

  lemma NoteSplits(cfg: Config, history: seq<int>, bans: map<Ip, Ban>, ip: Ip, times: seq<int>, m: nat, t: int)
    requires Split(cfg, history, bans, ip, times, m)
    ensures Split(cfg, history + [t], bans, ip, times + [t], m)
  {
  }

  lemma {:induction false} StretchIsSpaced(cfg: Config, ledger: Ledger, kind: Kind, ip: Ip, now: int,
                                           times: seq<int>, m: nat, ops: seq<Op>)
    requires cfg.Sound() && 1 <= cfg.Limit(kind) && TimelyRun(ops, now)
    requires Quiet(cfg, kind, Find(ledger.Failures(kind), ip), now) && Orderly(cfg, kind, times, now)
    requires Split(cfg, Find(ledger.Failures(kind), ip), ledger.bans, ip, times, m)
    requires kind == Login ==> NoSuccess(ip, ops)
    ensures Orderly(cfg, kind, times + RecordedTimes(kind, ip, ops, LedgerVerdicts(cfg, ledger, ops)),
                    EndTime(ops, now))
    decreases |ops|
  {
    if ops == [] {
      assert times + [] == times;
    } else {
      var op, rest := ops[0], ops[1..];
      var verdict, next := LedgerVerdict(cfg, ledger, op), LedgerStep(cfg, ledger, op);
      var times' := Extended(kind, ip, times, op, verdict);
      QuietStep(cfg, ledger, kind, ip, op, now);
      OrderlyStep(cfg, ledger, kind, ip, now, times, m, op);
      SplitStep(cfg, ledger, kind, ip, now, times, m, op);
      StretchIsSpaced(cfg, next, kind, ip, After(op, now), times', NextSplit(ip, op, verdict, m, |times'|), rest);
      RecordedFirst(cfg, ledger, kind, ip, times, ops);
    }
  }

  lemma RecordedFirst(cfg: Config, ledger: Ledger, kind: Kind, ip: Ip, times: seq<int>, ops: seq<Op>)
    requires ops != []
    ensures var op, next := ops[0], LedgerStep(cfg, ledger, ops[0]);
            times + RecordedTimes(kind, ip, ops, LedgerVerdicts(cfg, ledger, ops))
            == Extended(kind, ip, times, op, LedgerVerdict(cfg, ledger, op))
               + RecordedTimes(kind, ip, ops[1..], LedgerVerdicts(cfg, next, ops[1..]))
  {
    var verdicts := LedgerVerdicts(cfg, ledger, ops);
    assert verdicts[1..] == LedgerVerdicts(cfg, LedgerStep(cfg, ledger, ops[0]), ops[1..]);
  }

  // ---- Rate bound ----------------------------------------------------------

  lemma StretchIsOrderly(cfg: Config, ledger: Ledger, now: int, stretch: seq<Op>, kind: Kind, ip: Ip)
    requires cfg.Sound() && 1 <= cfg.Limit(kind) && TimelyRun(stretch, now)
    requires Quiet(cfg, kind, Find(ledger.Failures(kind), ip), now)
    requires kind == Login ==> NoSuccess(ip, stretch)
    ensures Orderly(cfg, kind, RecordedTimes(kind, ip, stretch, LedgerVerdicts(cfg, ledger, stretch)),
                    EndTime(stretch, now))
  {
    StretchIsSpaced(cfg, ledger, kind, ip, now, [], 0, stretch);
    var times := RecordedTimes(kind, ip, stretch, LedgerVerdicts(cfg, ledger, stretch));
    assert [] + times == times;
  }

  lemma LedgerRateBound(cfg: Config, ledger: Ledger, now: int, stretch: seq<Op>, kind: Kind, ip: Ip, high: int)
    requires cfg.Sound() && 1 <= cfg.Limit(kind) && TimelyRun(stretch, now)
    requires Quiet(cfg, kind, Find(ledger.Failures(kind), ip), now)
    requires kind == Login ==> NoSuccess(ip, stretch)
    ensures var times := RecordedTimes(kind, ip, stretch, LedgerVerdicts(cfg, ledger, stretch));
            InWindow(times, high - cfg.window, high) <= cfg.Limit(kind)
  {
    StretchIsOrderly(cfg, ledger, now, stretch, kind, ip);
    var times := RecordedTimes(kind, ip, stretch, LedgerVerdicts(cfg, ledger, stretch));
    SpacedBoundsWindow(times, cfg.Limit(kind), cfg.window, high);
  }

  /** Main result.  In any stretch of any run, no window holds more recorded
      failures of an address than the limit of their kind, whichever kind
      caused the bans in between; for logins the stretch must not contain a
      successful login of the address. */
  lemma RateBound(cfg: Config, store: Store, start: int, before: seq<Op>, stretch: seq<Op>,
                  kind: Kind, ip: Ip, high: int)
    requires cfg.Sound() && 1 <= cfg.Limit(kind) && store.login == map[] && store.auth == map[]
    requires TimelyRun(before, start) && TimelyRun(stretch, EndTime(before, start))
    requires kind == Login ==> NoSuccess(ip, stretch)
    ensures var verdicts := Verdicts(cfg, Run(cfg, store, before), stretch);
            InWindow(RecordedTimes(kind, ip, stretch, verdicts), high - cfg.window, high) <= cfg.Limit(kind)
  {
    hide Run, LedgerRun, Verdicts, LedgerVerdicts, Active, Recent;
    var ledger, now := LedgerRun(cfg, Opening(store), before), EndTime(before, start);
    RunSimulates(cfg, store, Opening(store), before, start);
    RunSimulates(cfg, Run(cfg, store, before), ledger, stretch, now);
    QuietRun(cfg, Opening(store), kind, ip, before, start);
    LedgerRateBound(cfg, ledger, now, stretch, kind, ip, high);
  }

  // ---- Length of a ban -----------------------------------------------------

  predicate NoBan(ip: Ip, verdicts: seq<Verdict>) {
    forall i :: 0 <= i < |verdicts| && verdicts[i].Banned? ==> verdicts[i].ban.ip != ip
  }

  lemma {:induction false} LedgerKeepsBan(cfg: Config, ledger: Ledger, ban: Ban, ops: seq<Op>, now: int)
    requires cfg.Sound() && TimelyRun(ops, now)
    requires ban.ip in ledger.bans && ledger.bans[ban.ip].expiresAt >= ban.expiresAt
    requires now < ban.expiresAt ==> ledger.bans[ban.ip] == ban
    ensures var bans := LedgerRun(cfg, ledger, ops).bans;
            ban.ip in bans && (EndTime(ops, now) < ban.expiresAt ==> bans[ban.ip] == ban)
    ensures NoBan(ban.ip, LedgerVerdicts(cfg, ledger, ops)) ==>
              LedgerRun(cfg, ledger, ops).bans[ban.ip] == ledger.bans[ban.ip]
    ensures forall i :: 0 <= i < |ops| && LedgerVerdicts(cfg, ledger, ops)[i].Banned?
                        && LedgerVerdicts(cfg, ledger, ops)[i].ban.ip == ban.ip
              ==> LedgerVerdicts(cfg, ledger, ops)[i].ban.expiresAt - cfg.banTtl >= ban.expiresAt
    decreases |ops|
  {
    if ops != [] {
      var verdict, next := LedgerVerdict(cfg, ledger, ops[0]), LedgerStep(cfg, ledger, ops[0]);
      EndsLater(ops[1..], After(ops[0], now));
      LedgerKeepsBan(cfg, next, ban, ops[1..], After(ops[0], now));
      var verdicts := LedgerVerdicts(cfg, ledger, ops);
      var later := LedgerVerdicts(cfg, next, ops[1..]);
      assert verdicts == [verdict] + later;
      assert forall i :: 0 < i < |ops| ==> verdicts[i] == later[i - 1];
      if NoBan(ban.ip, verdicts) {
        forall i | 0 <= i < |later| && later[i].Banned?
          ensures later[i].ban.ip != ban.ip
        {
          assert verdicts[i + 1] == later[i];
        }
        assert verdicts[0] == verdict;
      }
    }
  }

  lemma {:induction false} EndsLater(ops: seq<Op>, now: int)
    requires TimelyRun(ops, now)
    ensures now <= EndTime(ops, now)
  {
    if ops != [] {
      EndsLater(ops[1..], After(ops[0], now));
    }
  }

  /** Main result.  Once a failure gets an address banned, then whatever
      follows: the very same ban is in force until exactly its term after the
      failure, it is over from then on unless the address was banned again,
      and no other ban of the address starts before that moment. */
  lemma BanLastsItsTerm(cfg: Config, store: Store, start: int, before: seq<Op>, op: Op, rest: seq<Op>, at: int)
    requires cfg.Sound() && store.login == map[] && store.auth == map[]
    requires TimelyRun(before, start) && Timely(op, EndTime(before, start))
    requires op.Failure? && TimelyRun(rest, op.now) && EndTime(rest, op.now) <= at
    requires Judge(cfg, Run(cfg, store, before), op).Banned?
    ensures var banned := Step(cfg, Run(cfg, store, before), op);
            var ban := Judge(cfg, Run(cfg, store, before), op).ban;
            var after, verdicts := Run(cfg, banned, rest), Verdicts(cfg, banned, rest);
            && ban == Ban(op.ip, op.now + cfg.banTtl, op.client)
            && (at < op.now + cfg.banTtl ==> IsBanned(after, op.ip, at) && after.bans[op.ip] == ban)
            && (at >= op.now + cfg.banTtl && NoBan(op.ip, verdicts) ==> !IsBanned(after, op.ip, at))
            && forall i :: 0 <= i < |verdicts| && verdicts[i].Banned? && verdicts[i].ban.ip == op.ip
                 ==> verdicts[i].ban.expiresAt - cfg.banTtl >= op.now + cfg.banTtl
  {
    hide Run, LedgerRun, Verdicts, LedgerVerdicts, Active, Recent;
    var ledger, now := LedgerRun(cfg, Opening(store), before), EndTime(before, start);
    RunSimulates(cfg, store, Opening(store), before, start);
    StepSimulates(cfg, Run(cfg, store, before), ledger, op, now);
    var banned, ledger' := Step(cfg, Run(cfg, store, before), op), LedgerStep(cfg, ledger, op);
    RunSimulates(cfg, banned, ledger', rest, op.now);
    var ban := LedgerVerdict(cfg, ledger, op).ban;
    LedgerKeepsBan(cfg, ledger', ban, rest, op.now);
    ActiveAgree(Run(cfg, banned, rest).bans, LedgerRun(cfg, ledger', rest).bans, EndTime(rest, op.now), at, op.ip);
  }
}
