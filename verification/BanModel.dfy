/** The state of the ban store and what one operation does to it.

    Times are integers and every reading of the clock is an argument.  The
    operations here are net effects on values; `BanStore.dfy` reaches them
    through nested calls and loops on an object, as the program does. */
module BanModel {

  datatype Ip = Ip(text: string)

  datatype Client = Client(os: string, browser: string, device: string)

  const UNKNOWN_CLIENT := Client("-", "-", "-")

  datatype Ban = Ban(ip: Ip, expiresAt: int, client: Client)

  datatype Kind = Login | Auth

  datatype Config = Config(loginLimit: int, authLimit: int, window: int, banTtl: int) {
    function Limit(kind: Kind): int {
      if kind == Login then loginLimit else authLimit
    }

    /** What the proofs use of the constants. */
    predicate Sound() {
      0 < window <= banTtl
    }
  }

  /** The constants the application runs with. */
  const PRODUCTION := Config(5, 20, 3600, 10800)

  /** The state file: not there, not a JSON list, or a list of bans, one per address. */
  datatype Document = Missing | Unreadable | Listing(entries: map<Ip, Ban>)

  datatype Store = Store(
    login: map<Ip, seq<int>>,
    auth: map<Ip, seq<int>>,
    bans: map<Ip, Ban>,
    document: Document)
  {
    function Failures(kind: Kind): map<Ip, seq<int>> {
      if kind == Login then login else auth
    }

    function WithFailures(kind: Kind, failures: map<Ip, seq<int>>): Store {
      if kind == Login then this.(login := failures) else this.(auth := failures)
    }
  }

  function Find(failures: map<Ip, seq<int>>, ip: Ip): seq<int> {
    if ip in failures then failures[ip] else []
  }

  /** The failure times later than the cutoff, in order. */
  function Recent(times: seq<int>, cutoff: int): seq<int> {
    if times == [] then []
    else
      var last := times[|times| - 1];
      Recent(times[..|times| - 1], cutoff) + if last > cutoff then [last] else []
  }

  /** Prune every list and drop the lists that become empty. */
  function Pruned(failures: map<Ip, seq<int>>, cutoff: int): map<Ip, seq<int>> {
    map ip | ip in failures && Recent(failures[ip], cutoff) != [] :: Recent(failures[ip], cutoff)
  }

  /** The bans still in force at a time. */
  function Active(bans: map<Ip, Ban>, at: int): map<Ip, Ban> {
    map ip | ip in bans && bans[ip].expiresAt > at :: bans[ip]
  }

  predicate IsBanned(store: Store, ip: Ip, at: int) {
    ip in store.bans && store.bans[ip].expiresAt > at
  }

  /** Drop the ban and the failures of some addresses and write the bans left,
      provided a ban was dropped. */
  function Forgotten(store: Store, ips: set<Ip>): Store {
    var bans := store.bans - ips;
    Store(store.login - ips, store.auth - ips, bans,
          if ips !! store.bans.Keys then store.document else Listing(bans))
  }

  /** Asking about an address drops its ban when that has expired. */
  function Asked(store: Store, ip: Ip, at: int): Store {
    if ip in store.bans && store.bans[ip].expiresAt <= at then Forgotten(store, {ip}) else store
  }

  /** A failure that does not reach the limit. */
  function Counted(cfg: Config, store: Store, kind: Kind, ip: Ip, now: int): Store {
    var failures := Recent(Find(store.Failures(kind), ip), now - cfg.window) + [now];
    store.WithFailures(kind, store.Failures(kind)[ip := failures])
  }

  /** One failed login or one request without a session: the ban check reads
      the clock first, the failure itself is stamped with a second reading. */
  function FailureRecorded(cfg: Config, store: Store, kind: Kind, ip: Ip, client: Client,
                           checkedAt: int, now: int): Store
  {
    if IsBanned(store, ip, checkedAt) then store
    else
      var asked := Asked(store, ip, checkedAt);
      var failures := Recent(Find(asked.Failures(kind), ip), now - cfg.window) + [now];
      if |failures| < cfg.Limit(kind) then Counted(cfg, asked, kind, ip, now)
      else
        var bans := asked.bans[ip := Ban(ip, now + cfg.banTtl, client)];
        // The file is rewritten only when the set of banned addresses changed.
        Store(asked.login - {ip}, asked.auth - {ip}, bans,
              if bans.Keys == store.bans.Keys then asked.document else Listing(bans))
  }

  function SuccessRecorded(store: Store, ip: Ip): Store {
    store.(login := store.login - {ip})
  }

  function Expired(bans: map<Ip, Ban>, at: int): set<Ip> {
    set ip | ip in bans && bans[ip].expiresAt <= at
  }

  function Cleaned(cfg: Config, store: Store, at: int): Store {
    var left := Forgotten(store, Expired(store.bans, at));
    left.(login := Pruned(left.login, at - cfg.window), auth := Pruned(left.auth, at - cfg.window))
  }

  /** The bans a store started at some time takes from a state file. */
  function LoadedBans(document: Document, at: int): map<Ip, Ban> {
    if document.Listing? then Active(document.entries, at) else map[]
  }

  /** A store started on a state file: it reads the file at one time and, if
      that held a list, cleans up at a second time. */
  function Started(cfg: Config, document: Document, readAt: int, cleanedAt: int): Store {
    var loaded := Store(map[], map[], LoadedBans(document, readAt), document);
    if document.Listing? then Cleaned(cfg, loaded, cleanedAt) else loaded
  }

  /** The operations handlers, the periodic callback and the admin page perform. */
  datatype Op =
    | Failure(kind: Kind, ip: Ip, client: Client, checkedAt: int, now: int)
    | Success(ip: Ip)
    | Query(ip: Ip, at: int)
    | Cleanup(at: int)

  function Step(cfg: Config, store: Store, op: Op): Store {
    match op
    case Failure(kind, ip, client, checkedAt, now) =>
      FailureRecorded(cfg, store, kind, ip, client, checkedAt, now)
    case Success(ip) => SuccessRecorded(store, ip)
    case Query(ip, at) => Asked(store, ip, at)
    case Cleanup(at) => Cleaned(cfg, store, at)
  }

  /** The clock when an operation starts at `now` has finished. */
  function After(op: Op, now: int): int {
    match op
    case Failure(_, _, _, _, later) => later
    case Success(_) => now
    case Query(_, at) => at
    case Cleanup(at) => at
  }

  /** The clock never runs backwards. */
  predicate Timely(op: Op, now: int) {
    match op
    case Failure(_, _, _, checkedAt, later) => now <= checkedAt <= later
    case Success(_) => true
    case Query(_, at) => now <= at
    case Cleanup(at) => now <= at
  }

  predicate TimelyRun(ops: seq<Op>, now: int) {
    ops == [] || (Timely(ops[0], now) && TimelyRun(ops[1..], After(ops[0], now)))
  }

  function EndTime(ops: seq<Op>, now: int): int {
    if ops == [] then now else EndTime(ops[1..], After(ops[0], now))
  }

  function Run(cfg: Config, store: Store, ops: seq<Op>): Store
    decreases |ops|
  {
    if ops == [] then store else Run(cfg, Step(cfg, store, ops[0]), ops[1..])
  }

  /** What an operation decided about a failure: other operations decide nothing. */
  datatype Verdict = Nothing | Ignored | Noted | Banned(ban: Ban)

  function Judge(cfg: Config, store: Store, op: Op): Verdict {
    if !op.Failure? then Nothing
    else if IsBanned(store, op.ip, op.checkedAt) then Ignored
    else
      var after := Step(cfg, store, op);
      if op.ip in after.bans then Banned(after.bans[op.ip]) else Noted
  }

  function Verdicts(cfg: Config, store: Store, ops: seq<Op>): (verdicts: seq<Verdict>)
    ensures |verdicts| == |ops|
    decreases |ops|
  {
    if ops == [] then []
    else [Judge(cfg, store, ops[0])] + Verdicts(cfg, Step(cfg, store, ops[0]), ops[1..])
  }
}
