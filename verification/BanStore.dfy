/** The ban store as the program has it: an object whose methods call each
    other, with the overriding methods of the persistent store in place of the
    inherited ones, and a file written through a temporary one. */
module BanStore {
  import opened BanModel
  import opened BanDurability

  datatype TmpFile = Absent | Torn | Full(entries: map<Ip, Ban>)

  datatype Disk = Disk(document: Document, tmp: TmpFile)

  class PersistentBanStore {
    const cfg: Config
    var login: map<Ip, seq<int>>
    var auth: map<Ip, seq<int>>
    var bans: map<Ip, Ban>
    var disk: Disk
    // Every state the disk was in since the store was created, oldest first.
    ghost var trail: seq<Disk>

    ghost function View(): Store
      reads this
    {
      Store(login, auth, bans, disk.document)
    }

    /** Between two moments the file only held what a crash during the
        operation may leave. */
    ghost predicate CrashSafe(before: Store, op: Op, from: nat)
      reads this
    {
      from <= |trail| && forall i :: from <= i < |trail| ==> CrashImage(cfg, before, op, trail[i].document)
    }

    constructor (cfg: Config, document: Document, readAt: int, cleanedAt: int)
      ensures this.cfg == cfg
      ensures View() == Started(cfg, document, readAt, cleanedAt)
      ensures forall i :: 0 <= i < |trail| ==> StartImage(document, readAt, cleanedAt, trail[i].document)
    {
      this.cfg := cfg;
      login, auth, bans := map[], map[], map[];
      disk := Disk(document, Absent);
      trail := [Disk(document, Absent)];
      new;
      Load(readAt, cleanedAt);
    }

    method Load(readAt: int, cleanedAt: int)
      requires login == map[] && auth == map[] && bans == map[]
      modifies this
      ensures View() == Started(cfg, old(disk.document), readAt, cleanedAt)
      ensures |old(trail)| <= |trail| && old(trail) == trail[..|old(trail)|]
      ensures forall i :: |old(trail)| <= i < |trail| ==>
                StartImage(old(disk.document), readAt, cleanedAt, trail[i].document)
    {
      if !disk.document.Listing? {
        return;
      }
      var entries := disk.document.entries;
      var todo := entries.Keys;
      while todo != {}
        invariant todo <= entries.Keys
        invariant login == map[] && auth == map[] && disk == old(disk) && trail == old(trail)
        invariant bans == Active(entries - todo, readAt)
        decreases todo
      {
        var ip :| ip in todo;
        if entries[ip].expiresAt > readAt {
          bans := bans[ip := entries[ip]];
        }
        todo := todo - {ip};
      }
      assert entries - {} == entries;
      CleanupExpired(cleanedAt);
      forall i | |old(trail)| <= i < |trail|
        ensures StartImage(old(disk.document), readAt, cleanedAt, trail[i].document)
      {
        StartingCleansUp(cfg, old(disk.document), readAt, cleanedAt, trail[i].document);
      }
    }

    /** Write the list next to the file, then put it in the file's place. */
    method Save()
      modifies this`disk, this`trail
      ensures disk == Disk(Listing(bans), Absent)
      ensures |trail| == |old(trail)| + 3 && old(trail) == trail[..|old(trail)|]
      ensures forall i :: |old(trail)| <= i < |trail| ==> trail[i].document in {old(disk.document), Listing(bans)}
    {
      disk := disk.(tmp := Torn);
      trail := trail + [disk];
      disk := disk.(tmp := Full(bans));
      trail := trail + [disk];
      disk := Disk(Listing(disk.tmp.entries), Absent);
      trail := trail + [disk];
    }

    method IsBanned(ip: Ip, at: int) returns (answer: bool)
      modifies this
      ensures answer == BanModel.IsBanned(old(View()), ip, at)
      ensures View() == Asked(old(View()), ip, at)
      ensures |old(trail)| <= |trail| && old(trail) == trail[..|old(trail)|]
      ensures forall i :: |old(trail)| <= i < |trail| ==> trail[i].document in {old(disk.document), disk.document}
      ensures CrashSafe(old(View()), Query(ip, at), |old(trail)|)
    {
      if ip !in bans {
        return false;
      }
      if bans[ip].expiresAt <= at {
        Delete(ip);
        return false;
      }
      return true;
    }

    method RecordLoginFailure(ip: Ip, client: Client, checkedAt: int, now: int)
      modifies this
      ensures View() == Step(cfg, old(View()), Failure(Login, ip, client, checkedAt, now))
      ensures CrashSafe(old(View()), Failure(Login, ip, client, checkedAt, now), |old(trail)|)
    {
      RecordFailure(Login, ip, cfg.loginLimit, client, checkedAt, now);
    }

    method RecordAuthFailure(ip: Ip, client: Client, checkedAt: int, now: int)
      modifies this
      ensures View() == Step(cfg, old(View()), Failure(Auth, ip, client, checkedAt, now))
      ensures CrashSafe(old(View()), Failure(Auth, ip, client, checkedAt, now), |old(trail)|)
    {
      RecordFailure(Auth, ip, cfg.authLimit, client, checkedAt, now);
    }

    /** The overriding method: save when the set of banned addresses changed. */
    method RecordFailure(kind: Kind, ip: Ip, limit: int, client: Client, checkedAt: int, now: int)
      requires limit == cfg.Limit(kind)
      modifies this
      ensures View() == FailureRecorded(cfg, old(View()), kind, ip, client, checkedAt, now)
      ensures CrashSafe(old(View()), Failure(kind, ip, client, checkedAt, now), |old(trail)|)
    {
      hide FailureRecorded, Asked, Passing;
      ghost var before := View();
      var banned := bans.Keys;
      SuperRecordFailure(kind, ip, limit, client, checkedAt, now);
      SavedWhenBansChange(cfg, before, Failure(kind, ip, client, checkedAt, now));
      if bans.Keys != banned {
        Save();
      }
    }

    /** The inherited method; its ban check runs the overriding `Delete`. */
    method SuperRecordFailure(kind: Kind, ip: Ip, limit: int, client: Client, checkedAt: int, now: int)
      requires limit == cfg.Limit(kind)
      modifies this
      ensures var asked := Asked(old(View()), ip, checkedAt);
              View() == FailureRecorded(cfg, old(View()), kind, ip, client, checkedAt, now).(document := asked.document)
      ensures |old(trail)| <= |trail| && old(trail) == trail[..|old(trail)|]
      ensures forall i :: |old(trail)| <= i < |trail| ==> trail[i].document in {old(disk.document), disk.document}
    {
      var isBanned := IsBanned(ip, checkedAt);
      if isBanned {
        return;
      }
      var failuresByIp := if kind == Login then login else auth;
      var failures := Recent(Find(failuresByIp, ip), now - cfg.window);
      failures := failures + [now];
      if |failures| >= limit {
        bans := bans[ip := Ban(ip, now + cfg.banTtl, client)];
        login := login - {ip};
        auth := auth - {ip};
        return;
      }
      if kind == Login {
        login := login[ip := failures];
      } else {
        auth := auth[ip := failures];
      }
    }

    method RecordSuccess(ip: Ip)
      modifies this`login
      ensures View() == SuccessRecorded(old(View()), ip)
    {
      login := login - {ip};
    }

    /** What the admin page lists. */
    method ActiveBans(at: int) returns (listed: seq<Ban>)
      modifies this
      ensures View() == Cleaned(cfg, old(View()), at)
      ensures SoonestFirst(listed) && Lists(listed, Active(old(bans), at))
      ensures CrashSafe(old(View()), Cleanup(at), |old(trail)|)
    {
      hide SoonestFirst, Lists, CrashImage;
      CleanupExpired(at);
      listed := SortedByExpiry(bans);
      assert bans == Active(old(bans), at);
    }

    /** The overriding method: save when there was a ban to drop. */
    method Delete(ip: Ip)
      modifies this
      ensures View() == Forgotten(old(View()), {ip})
      ensures |old(trail)| <= |trail| && old(trail) == trail[..|old(trail)|]
      ensures forall i :: |old(trail)| <= i < |trail| ==> trail[i].document in {old(disk.document), disk.document}
    {
      var hadBan := ip in bans;
      SuperDelete(ip);
      if hadBan {
        Save();
      }
    }

    method SuperDelete(ip: Ip)
      modifies this`bans, this`login, this`auth
      ensures bans == old(bans) - {ip} && login == old(login) - {ip} && auth == old(auth) - {ip}
    {
      bans := bans - {ip};
      login := login - {ip};
      auth := auth - {ip};
    }

    /** The overriding method: save once more when bans were dropped. */
    method CleanupExpired(at: int)
      modifies this
      ensures View() == Cleaned(cfg, old(View()), at)
      ensures |old(trail)| <= |trail| && old(trail) == trail[..|old(trail)|]
      ensures CrashSafe(old(View()), Cleanup(at), |old(trail)|)
    {
      var banned := bans.Keys;
      SuperCleanupExpired(at);
      if bans.Keys != banned {
        Save();
      }
    }

    method SuperCleanupExpired(at: int)
      modifies this
      ensures View() == Cleaned(cfg, old(View()), at)
      ensures |old(trail)| <= |trail| && old(trail) == trail[..|old(trail)|]
      ensures forall i :: |old(trail)| <= i < |trail| ==>
                trail[i].document == old(disk.document) || Passing(old(View()), Cleanup(at), trail[i].document)
    {
      ghost var before := View();
      var expired := Expired(bans, at);
      ghost var gone: set<Ip> := {};
      while expired != {}
        invariant gone !! expired && gone + expired == Expired(before.bans, at)
        invariant View() == Forgotten(before, gone)
        invariant |old(trail)| <= |trail| && old(trail) == trail[..|old(trail)|]
        invariant forall i :: |old(trail)| <= i < |trail| ==>
                    trail[i].document == before.document || Passing(before, Cleanup(at), trail[i].document)
        decreases expired
      {
        var ip :| ip in expired;
        ForgottenMore(before, gone, ip);
        Delete(ip);
        assert Leaves(before.bans, gone, before.bans - gone);
        assert Leaves(before.bans, gone + {ip}, bans);
        gone := gone + {ip};
        expired := expired - {ip};
      }
      login := CleanupFailures(login, at);
      auth := CleanupFailures(auth, at);
    }

    method CleanupFailures(failuresByIp: map<Ip, seq<int>>, at: int) returns (left: map<Ip, seq<int>>)
      ensures left == Pruned(failuresByIp, at - cfg.window)
    {
      left := failuresByIp;
      ghost var pruned := Pruned(failuresByIp, at - cfg.window);
      var todo := failuresByIp.Keys;
      while todo != {}
        invariant todo <= failuresByIp.Keys
        invariant forall ip :: ip in todo ==> ip in left && left[ip] == failuresByIp[ip]
        invariant forall ip :: ip !in todo ==> (ip in left <==> ip in pruned)
        invariant forall ip :: ip !in todo && ip in left ==> left[ip] == pruned[ip]
        decreases todo
      {
        var ip :| ip in todo;
        var recent := Recent(failuresByIp[ip], at - cfg.window);
        if recent != [] {
          left := left[ip := recent];
        } else {
          left := left - {ip};
        }
        todo := todo - {ip};
      }
    }
  }

  predicate SoonestFirst(listed: seq<Ban>) {
    forall i, j :: 0 <= i < j < |listed| ==> listed[i].expiresAt <= listed[j].expiresAt
  }

  predicate InOrder(listed: seq<Ban>, bans: map<Ip, Ban>, order: seq<Ip>) {
    && |order| == |listed|
    && (forall i, j :: 0 <= i < j < |order| ==> order[i] != order[j])
    && (forall i :: 0 <= i < |order| ==> order[i] in bans && listed[i] == bans[order[i]])
  }

  /** Every ban is listed, once. */
  ghost predicate Lists(listed: seq<Ban>, bans: map<Ip, Ban>) {
    exists order :: InOrder(listed, bans, order) && forall ip :: ip in bans ==> ip in order
  }

  predicate Soonest(bans: map<Ip, Ban>, todo: set<Ip>, ip: Ip)
    requires todo <= bans.Keys
  {
    ip in todo && forall other :: other in todo ==> bans[ip].expiresAt <= bans[other].expiresAt
  }

  /** The list so far holds the bans not left to do, and none that ends later. */
  predicate Sorting(bans: map<Ip, Ban>, todo: set<Ip>, listed: seq<Ban>, order: seq<Ip>) {
    && todo <= bans.Keys && SoonestFirst(listed) && InOrder(listed, bans, order)
    && (forall ip :: ip in bans ==> (ip in todo <==> ip !in order))
    && (forall i, ip :: 0 <= i < |listed| && ip in todo ==> listed[i].expiresAt <= bans[ip].expiresAt)
  }

  method SortedByExpiry(bans: map<Ip, Ban>) returns (listed: seq<Ban>)
    ensures SoonestFirst(listed) && Lists(listed, bans)
  {
    hide SoonestFirst, InOrder;
    listed := [];
    var todo := bans.Keys;
    ghost var order: seq<Ip> := [];
    NothingSorted(bans);
    while todo != {}
      invariant Sorting(bans, todo, listed, order)
      decreases todo
    {
      SomeoneIsSoonest(bans, todo);
      var ip :| Soonest(bans, todo, ip);
      SortingNext(bans, todo, listed, order, ip);
      listed := listed + [bans[ip]];
      order := order + [ip];
      todo := todo - {ip};
    }
  }

  lemma NothingSorted(bans: map<Ip, Ban>)
    ensures Sorting(bans, bans.Keys, [], [])
  {
  }

  lemma SortingNext(bans: map<Ip, Ban>, todo: set<Ip>, listed: seq<Ban>, order: seq<Ip>, ip: Ip)
    requires Sorting(bans, todo, listed, order) && Soonest(bans, todo, ip)
    ensures Sorting(bans, todo - {ip}, listed + [bans[ip]], order + [ip])
  {
    var order' := order + [ip];
    forall other | other in bans
      ensures other in todo - {ip} <==> other !in order'
    {
      assert other in order' <==> other in order || other == ip;
    }
  }

  lemma {:induction false} SomeoneIsSoonest(bans: map<Ip, Ban>, todo: set<Ip>)
    requires todo <= bans.Keys && todo != {}
    ensures exists ip :: Soonest(bans, todo, ip)
  {
    var ip :| ip in todo;
    var rest := todo - {ip};
    if rest == {} {
      assert todo == {ip} && Soonest(bans, todo, ip);
    } else {
      SomeoneIsSoonest(bans, rest);
      var first :| Soonest(bans, rest, first);
      assert todo == rest + {ip};
      assert Soonest(bans, todo, if bans[ip].expiresAt <= bans[first].expiresAt then ip else first);
    }
  }

  /** The file after a failure: rewritten if the set of banned addresses
      changed, else what the ban check left. */
  lemma SavedWhenBansChange(cfg: Config, before: Store, op: Op)
    requires op.Failure?
    ensures var asked := Asked(before, op.ip, op.checkedAt);
            var after := FailureRecorded(cfg, before, op.kind, op.ip, op.client, op.checkedAt, op.now);
            && after.document == (if after.bans.Keys == before.bans.Keys then asked.document else Listing(after.bans))
            && (asked.document == before.document || Passing(before, op, asked.document))
  {
    hide Recent, Find;
    var asked := Asked(before, op.ip, op.checkedAt);
    assert Leaves(before.bans, {op.ip}, asked.bans) || asked == before;
  }

  /** Dropping expired bans one at a time amounts to dropping them at once. */
  lemma ForgottenMore(store: Store, gone: set<Ip>, ip: Ip)
    requires gone <= store.bans.Keys && ip in store.bans && ip !in gone
    ensures Forgotten(Forgotten(store, gone), {ip}) == Forgotten(store, gone + {ip})
    ensures Forgotten(store, {}) == store
  {
    assert store.bans - gone - {ip} == store.bans - (gone + {ip});
    assert store.login - gone - {ip} == store.login - (gone + {ip});
    assert store.auth - gone - {ip} == store.auth - (gone + {ip});
    assert store.bans - {} == store.bans && store.login - {} == store.login && store.auth - {} == store.auth;
  }
}
