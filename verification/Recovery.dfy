/**
 * The two loops over the active rows, row by row, and their closed forms: a cleanup pass and
 * the restart recovery give the same result whatever order the query returns the rows in.
 */
module Recovery {
  import opened Basics
  import opened Clock
  import opened Store
  import opened Protocol
  import opened Invariants

  // ---- Row by row ------------------------------------------------------------------------

  function ExpireRow(w: World, s: Id, row: Session): World {
    w.(db := w.db.ExpireSession(s).ExpireToken(row.tokenId))
  }

  /**
   * The body of the cleanup loop for a row as the query returned it, with the test as coded,
   * or as documented on a remaining time that is not clamped.
   */
  function CleanupRow(cfg: Config, w: World, s: Id, row: Session, ok: bool, documented: bool): World {
    if Due(row, cfg.grace, w.now, documented) && ok then ExpireRow(Deauthorize(w, row.pair, true), s, row) else w
  }

  /** The body of the recovery loop for a row as the query returned it. */
  function RecoverRow(cfg: Config, w: World, s: Id, row: Session, ok: bool): World {
    var remaining := Remaining(row.expiresAt, w.now);
    if remaining <= cfg.grace then ExpireRow(w, s, row)
    else if ok then Authorize(w, row.tokenId, row.pair, remaining)
    else w
  }

  /** A query result: each active row once, in some order. */
  ghost predicate Lists(db: Db, order: seq<Id>, ids: set<Id>) {
    && (forall i :: 0 <= i < |order| ==> order[i] in ids)
    && (forall s :: s in ids ==> s in order)
    && (forall i, j :: 0 <= i < j < |order| ==> order[i] != order[j])
    && ids <= db.ActiveRows()
  }

  function CleanupRows(cfg: Config, snap: World, order: seq<Id>, failing: set<Id>, documented: bool): World
    requires forall i :: 0 <= i < |order| ==> order[i] in snap.db.sessions
  {
    if order == [] then snap
    else
      var n := |order| - 1;
      var before := CleanupRows(cfg, snap, order[..n], failing, documented);
      CleanupRow(cfg, before, order[n], snap.db.sessions[order[n]], order[n] !in failing, documented)
  }

  function RecoverRows(cfg: Config, snap: World, order: seq<Id>, failing: set<Id>): World
    requires forall i :: 0 <= i < |order| ==> order[i] in snap.db.sessions
  {
    if order == [] then snap
    else
      var n := |order| - 1;
      var before := RecoverRows(cfg, snap, order[..n], failing);
      RecoverRow(cfg, before, order[n], snap.db.sessions[order[n]], order[n] !in failing)
  }

  // ---- Closed forms ------------------------------------------------------------------------

  lemma ExpireAllNone(db: Db)
    ensures db.ExpireAll({}) == db
  {
    assert db.ExpireAll({}).sessions == db.sessions;
    assert db.ExpireAll({}).tokens == db.tokens;
  }

  lemma ExpireAllOneMore(db: Db, ids: set<Id>, s: Id)
    requires s in db.sessions
    ensures db.ExpireAll(ids + {s}) == db.ExpireAll(ids).ExpireSession(s).ExpireToken(db.sessions[s].tokenId)
  {
    var a := db.ExpireAll(ids + {s});
    var b := db.ExpireAll(ids).ExpireSession(s).ExpireToken(db.sessions[s].tokenId);
    assert a.sessions == b.sessions;
    assert a.tokens == b.tokens by {
      forall t | t in db.tokens ensures a.tokens[t] == b.tokens[t] {
        assert (exists r :: r in ids + {s} && r in db.sessions && db.sessions[r].tokenId == t) <==>
               db.sessions[s].tokenId == t || exists r :: r in ids && r in db.sessions && db.sessions[r].tokenId == t;
      }
    }
  }

  lemma ListsPrefix(db: Db, order: seq<Id>, ids: set<Id>)
    requires Lists(db, order, ids) && order != []
    ensures var n := |order| - 1;
      && order[n] in ids
      && Lists(db, order[..n], ids - {order[n]})
  {
    var n := |order| - 1;
    forall s | s in ids - {order[n]} ensures s in order[..n] {
      var i :| 0 <= i < |order| && order[i] == s;
      assert order[..n][i] == s;
    }
  }

  ghost function CleanupOver(cfg: Config, w: World, ids: set<Id>, failing: set<Id>, documented: bool): World {
    var due := (ids * DueRows(cfg, w, documented)) - failing;
    w.(db := w.db.ExpireAll(due), fw := w.fw - PairsOf(w.db, due))
  }

  lemma CleanupOneMore(cfg: Config, w: World, ids: set<Id>, s: Id, failing: set<Id>, documented: bool)
    requires ids <= w.db.ActiveRows() && s in ids
    ensures var before := CleanupOver(cfg, w, ids - {s}, failing, documented);
      CleanupOver(cfg, w, ids, failing, documented)
        == CleanupRow(cfg, before, s, w.db.sessions[s], s !in failing, documented)
  {
    var before := ((ids - {s}) * DueRows(cfg, w, documented)) - failing;
    var after := (ids * DueRows(cfg, w, documented)) - failing;
    if Due(w.db.sessions[s], cfg.grace, w.now, documented) && s !in failing {
      assert after == before + {s};
      ExpireAllOneMore(w.db, before, s);
      assert PairsOf(w.db, after) == PairsOf(w.db, before) + {w.db.sessions[s].pair};
      assert w.fw - PairsOf(w.db, after) == (w.fw - PairsOf(w.db, before)) - {w.db.sessions[s].pair};
    } else {
      assert after == before;
    }
  }

  lemma {:induction false} CleanupRowsOver(
      cfg: Config, w: World, order: seq<Id>, ids: set<Id>, failing: set<Id>, documented: bool)
    requires Lists(w.db, order, ids)
    ensures CleanupRows(cfg, w, order, failing, documented) == CleanupOver(cfg, w, ids, failing, documented)
  {
    if order == [] {
      assert ids * DueRows(cfg, w, documented) - failing == {};
      ExpireAllNone(w.db);
      assert w.fw - PairsOf(w.db, {}) == w.fw;
    } else {
      var n := |order| - 1;
      ListsPrefix(w.db, order, ids);
      CleanupRowsOver(cfg, w, order[..n], ids - {order[n]}, failing, documented);
      CleanupOneMore(cfg, w, ids, order[n], failing, documented);
    }
  }

  /** With either test, a cleanup pass does the same for every order of the rows. */
  lemma CleanupAnyOrder(cfg: Config, w: World, order: seq<Id>, failing: set<Id>, documented: bool)
    requires Lists(w.db, order, w.db.ActiveRows())
    ensures CleanupRows(cfg, w, order, failing, documented) == CleanupPass(cfg, w, failing, documented)
  {
    CleanupRowsOver(cfg, w, order, w.db.ActiveRows(), failing, documented);
    assert w.db.ActiveRows() * DueRows(cfg, w, documented) == DueRows(cfg, w, documented);
  }

  lemma RestoredFwAt(w: World, before: set<Id>, s: Id, p: Pair)
    requires OnePerMac(w.db) && before + {s} <= w.db.ActiveRows()
    ensures var fw1 := RestoredFw(w, before)[w.db.sessions[s].pair := RestoreDeadline(w, s)];
            var fw2 := RestoredFw(w, before + {s});
      (p in fw1 <==> p in fw2) && (p in fw1 ==> fw1[p] == fw2[p])
  {
    assert PairsOf(w.db, before + {s}) == PairsOf(w.db, before) + {w.db.sessions[s].pair};
    if p == w.db.sessions[s].pair {
      RestoredRow(w, before + {s}, s);
    } else if p in PairsOf(w.db, before) {
      var o := OwnerOf(w.db, before, p);
      RestoredRow(w, before, o);
      RestoredRow(w, before + {s}, o);
    }
  }

  lemma RestoredFwOneMore(w: World, before: set<Id>, s: Id)
    requires OnePerMac(w.db) && before + {s} <= w.db.ActiveRows()
    ensures RestoredFw(w, before + {s}) == RestoredFw(w, before)[w.db.sessions[s].pair := RestoreDeadline(w, s)]
  {
    forall p: Pair
      ensures var fw1 := RestoredFw(w, before)[w.db.sessions[s].pair := RestoreDeadline(w, s)];
              var fw2 := RestoredFw(w, before + {s});
        (p in fw1 <==> p in fw2) && (p in fw1 ==> fw1[p] == fw2[p])
    {
      RestoredFwAt(w, before, s, p);
    }
  }

  lemma RestoreGrantsOneMore(w: World, before: set<Id>, s: Id)
    requires s in w.db.sessions
    ensures RestoreGrants(w, before + {s})
         == RestoreGrants(w, before) + {Grant(w.db.sessions[s].tokenId, w.db.sessions[s].pair, RestoreDeadline(w, s))}
  {
  }

  lemma SkipOneMore(cfg: Config, w: World, ids: set<Id>, s: Id, failing: set<Id>)
    requires ids <= w.db.ActiveRows() && s in ids && s in RestorableRows(cfg, w) && s in failing
    ensures RecoveryOver(cfg, w, ids, failing) == RecoveryOver(cfg, w, ids - {s}, failing)
  {
    var fits := RestorableRows(cfg, w);
    assert ids - fits == (ids - {s}) - fits;
    assert (ids * fits) - failing == ((ids - {s}) * fits) - failing;
  }

  lemma RestoreOneMore(cfg: Config, w: World, ids: set<Id>, s: Id, failing: set<Id>)
    requires OnePerMac(w.db) && ids <= w.db.ActiveRows() && s in ids && s in RestorableRows(cfg, w) && s !in failing
    ensures RecoveryOver(cfg, w, ids, failing)
         == RecoverRow(cfg, RecoveryOver(cfg, w, ids - {s}, failing), s, w.db.sessions[s], true)
  {
    var before := RestoredSet(cfg, w, ids - {s}, failing);
    assert RestoredSet(cfg, w, ids, failing) == before + {s};
    assert OverdueSet(cfg, w, ids) == OverdueSet(cfg, w, ids - {s});
    assert before + {s} <= w.db.ActiveRows();
    RestoreStep(cfg, w, ids, s, failing, before);
  }

  lemma RestoreStep(cfg: Config, w: World, ids: set<Id>, s: Id, failing: set<Id>, before: set<Id>)
    requires OnePerMac(w.db) && s in RestorableRows(cfg, w) && before + {s} <= w.db.ActiveRows()
    requires before == RestoredSet(cfg, w, ids - {s}, failing) && RestoredSet(cfg, w, ids, failing) == before + {s}
    requires OverdueSet(cfg, w, ids) == OverdueSet(cfg, w, ids - {s})
    ensures RecoveryOver(cfg, w, ids, failing)
         == RecoverRow(cfg, RecoveryOver(cfg, w, ids - {s}, failing), s, w.db.sessions[s], true)
  {
    var row := w.db.sessions[s];
    var a := RecoveryOver(cfg, w, ids, failing);
    var b := RecoveryOver(cfg, w, ids - {s}, failing);
    assert a.fw == b.fw[row.pair := RestoreDeadline(w, s)] by { RestoredFwOneMore(w, before, s); }
    assert a.grants == b.grants + {Grant(row.tokenId, row.pair, RestoreDeadline(w, s))} by {
      RestoreGrantsOneMore(w, before, s);
    }
    assert a == b.(fw := a.fw, grants := a.grants);
  }

  lemma ExpireOneMore(cfg: Config, w: World, ids: set<Id>, s: Id, failing: set<Id>)
    requires ids <= w.db.ActiveRows() && s in ids && s !in RestorableRows(cfg, w)
    ensures RecoveryOver(cfg, w, ids, failing)
         == RecoverRow(cfg, RecoveryOver(cfg, w, ids - {s}, failing), s, w.db.sessions[s], s !in failing)
  {
    var fits := RestorableRows(cfg, w);
    assert ((ids - {s}) * fits) - failing == (ids * fits) - failing;
    assert ids - fits == ((ids - {s}) - fits) + {s};
    ExpireAllOneMore(w.db, (ids - {s}) - fits, s);
  }

  lemma RecoveryOneMore(cfg: Config, w: World, ids: set<Id>, s: Id, failing: set<Id>)
    requires OnePerMac(w.db) && ids <= w.db.ActiveRows() && s in ids
    ensures RecoveryOver(cfg, w, ids, failing)
         == RecoverRow(cfg, RecoveryOver(cfg, w, ids - {s}, failing), s, w.db.sessions[s], s !in failing)
  {
    if s in RestorableRows(cfg, w) && s in failing {
      SkipOneMore(cfg, w, ids, s, failing);
    } else if s in RestorableRows(cfg, w) {
      RestoreOneMore(cfg, w, ids, s, failing);
    } else {
      ExpireOneMore(cfg, w, ids, s, failing);
    }
  }

  lemma {:induction false} RecoverRowsOver(cfg: Config, w: World, order: seq<Id>, ids: set<Id>, failing: set<Id>)
    requires OnePerMac(w.db) && Lists(w.db, order, ids)
    ensures RecoverRows(cfg, w, order, failing) == RecoveryOver(cfg, w, ids, failing)
  {
    if order == [] {
      assert ids - RestorableRows(cfg, w) == {};
      assert ids * RestorableRows(cfg, w) - failing == {};
      ExpireAllNone(w.db);
      assert RestoredFw(w, {}) == w.fw;
      assert RestoreGrants(w, {}) == {};
    } else {
      var n := |order| - 1;
      ListsPrefix(w.db, order, ids);
      RecoverRowsOver(cfg, w, order[..n], ids - {order[n]}, failing);
      RecoveryOneMore(cfg, w, ids, order[n], failing);
    }
  }

  /** Recovery does the same for every order of the rows. */
  lemma RecoverAnyOrder(cfg: Config, w: World, order: seq<Id>, failing: set<Id>)
    requires OnePerMac(w.db) && Lists(w.db, order, w.db.ActiveRows())
    ensures RecoverRows(cfg, w, order, failing) == RecoveryLoop(cfg, w, failing)
  {
    RecoverRowsOver(cfg, w, order, w.db.ActiveRows(), failing);
  }

  // ---- What recovery establishes ---------------------------------------------------------

  lemma PurgeTwice(db: Db, cutoff: int)
    ensures db.Purge(cutoff).Purge(cutoff) == db.Purge(cutoff)
  {
    var db1 := db.Purge(cutoff);
    var db2 := db1.Purge(cutoff);
    assert db1.PurgeSessions(cutoff).sessions == db1.sessions;
    assert db2.sessions == db1.sessions;
    forall t | t in db1.tokens ensures t in db2.tokens {
      if db.PurgeSessions(cutoff).Referenced(t) { assert db1.Referenced(t); }
    }
    assert db2.tokens == db1.tokens;
  }

  ghost function Reboot(cfg: Config, w: World): World {
    Boot(cfg, w, {}, {})
  }

  lemma RebootDb(cfg: Config, w: World)
    ensures Reboot(cfg, w).db == w.db.ExpireAll(w.db.ActiveRows() - RestorableRows(cfg, w)).Purge(Cutoff(cfg, w.now))
  {
    BootTables(cfg, w, {}, {});
  }

  lemma RebootRest(cfg: Config, w: World)
    ensures Reboot(cfg, w) == w.(
      db := Reboot(cfg, w).db,
      fw := RestoredFw(w.(fw := map[]), RestorableRows(cfg, w)),
      lastPurge := w.now,
      grants := w.grants + RestoreGrants(w, RestorableRows(cfg, w)))
  {
    var w1 := Surviving(w, {});
    assert w1 == w.(fw := map[]);
    assert w1.db.ActiveRows() * RestorableRows(cfg, w1) - {} == RestorableRows(cfg, w);
    assert RestoreGrants(w1, RestorableRows(cfg, w)) == RestoreGrants(w, RestorableRows(cfg, w));
  }

  lemma PurgeActive(db: Db, cutoff: int)
    ensures forall s :: db.Purge(cutoff).ActiveRow(s) <==> db.ActiveRow(s)
    ensures forall s :: s in db.Purge(cutoff).sessions ==>
      s in db.sessions && db.Purge(cutoff).sessions[s] == db.sessions[s]
  {
  }

  lemma RebootRow(cfg: Config, w: World, s: Id)
    requires DbInv(w.db)
    ensures Reboot(cfg, w).db.ActiveRow(s) <==> s in RestorableRows(cfg, w)
    ensures s in RestorableRows(cfg, w) ==> Reboot(cfg, w).db.sessions[s] == w.db.sessions[s]
  {
    var ids := w.db.ActiveRows() - RestorableRows(cfg, w);
    RebootDb(cfg, w);
    ExpireAllRows(w.db, ids);
    PurgeActive(w.db.ExpireAll(ids), Cutoff(cfg, w.now));
    JoinedRows(w.db);
  }

  /** After a reboot the active rows are those with more time than the grace. */
  lemma RebootActive(cfg: Config, w: World)
    requires DbInv(w.db)
    ensures Reboot(cfg, w).db.ActiveRows() == RestorableRows(cfg, w)
    ensures forall s :: s in RestorableRows(cfg, w) ==>
      s in Reboot(cfg, w).db.sessions && Reboot(cfg, w).db.sessions[s] == w.db.sessions[s]
  {
    var db' := Reboot(cfg, w).db;
    RebootKeepsDb(cfg, w);
    forall s: Id
      ensures s in db'.ActiveRows() <==> s in RestorableRows(cfg, w)
      ensures s in RestorableRows(cfg, w) ==> s in db'.sessions && db'.sessions[s] == w.db.sessions[s]
    {
      JoinedRows(db');
      RebootRow(cfg, w, s);
    }
  }

  lemma RebootFirewall(cfg: Config, w: World)
    requires OnePerMac(w.db)
    ensures var fw := Reboot(cfg, w).fw;
      && (forall p :: p in fw <==> exists s :: s in RestorableRows(cfg, w) && w.db.sessions[s].pair == p)
      && (forall s :: s in RestorableRows(cfg, w) ==>
            w.db.sessions[s].pair in fw && fw[w.db.sessions[s].pair] == RestoreDeadline(w, s))
  {
    RebootRest(cfg, w);
    var fits := RestorableRows(cfg, w);
    var fw := RestoredFw(w.(fw := map[]), fits);
    forall s | s in fits ensures w.db.sessions[s].pair in fw && fw[w.db.sessions[s].pair] == RestoreDeadline(w, s) {
      RestoredRow(w.(fw := map[]), fits, s);
    }
    assert fw.Keys == PairsOf(w.db, fits);
  }

  /**
   * From an emptied firewall, with every restore call succeeding, the recovery loop lets
   * through exactly the pairs of the active rows with more time than the grace, each until
   * its remaining whole seconds have passed, for any order of the rows. It expires every other
   * active row with its token and leaves all other rows and tokens alone; the purge that
   * follows touches no active row.
   */
  lemma RecoveryReestablishes(cfg: Config, w: World, order: seq<Id>)
    requires DbInv(w.db) && Lists(w.db, order, w.db.ActiveRows())
    ensures var w1 := RecoverRows(cfg, Surviving(w, {}), order, {});
            var fits := RestorableRows(cfg, w);
            var over := w.db.ActiveRows() - fits;
      && (forall p :: p in w1.fw <==> exists s :: s in fits && w.db.sessions[s].pair == p)
      && (forall s :: s in fits ==>
            w.db.sessions[s].pair in w1.fw && w1.fw[w.db.sessions[s].pair] == RestoreDeadline(w, s))
      && w1.db == w.db.(sessions := w1.db.sessions, tokens := w1.db.tokens)
      && Relabelled(w.db, w1.db, over)
      && Reboot(cfg, w) == PurgeStep(cfg, w1)
    ensures Reboot(cfg, w).db.ActiveRows() == RestorableRows(cfg, w)
  {
    RecoverAnyOrder(cfg, Surviving(w, {}), order, {});
    RebootFirewall(cfg, w);
    RebootActive(cfg, w);
    assert RestorableRows(cfg, Surviving(w, {})) == RestorableRows(cfg, w);
    RelabelledByExpiry(w.db, w.db.ActiveRows() - RestorableRows(cfg, w));
  }

  /** The rows in `over` and their tokens are expired, and no other row or token has changed. */
  ghost predicate Relabelled(db1: Db, db2: Db, over: set<Id>) {
    && db2.sessions.Keys == db1.sessions.Keys && db2.tokens.Keys == db1.tokens.Keys
    && (forall s :: s in db1.sessions ==>
          db2.sessions[s] == if s in over then db1.sessions[s].(status := SessionStatus.Expired) else db1.sessions[s])
    && (forall t :: t in db1.tokens ==>
          db2.tokens[t] == if exists s :: s in over && s in db1.sessions && db1.sessions[s].tokenId == t
                           then db1.tokens[t].(status := TokenStatus.Expired) else db1.tokens[t])
  }

  lemma RelabelledByExpiry(db: Db, over: set<Id>)
    ensures Relabelled(db, db.ExpireAll(over), over)
  {
  }

  lemma RebootKeepsDb(cfg: Config, w: World)
    requires DbInv(w.db)
    ensures DbInv(Reboot(cfg, w).db)
  {
    BootKeepsDb(cfg, w, {}, {});
  }

  lemma RebootDbTwice(cfg: Config, w: World)
    requires DbInv(w.db)
    ensures RestorableRows(cfg, Reboot(cfg, w)) == RestorableRows(cfg, w)
    ensures Reboot(cfg, Reboot(cfg, w)).db == Reboot(cfg, w).db
  {
    var w1 := Reboot(cfg, w);
    RebootKeepsDb(cfg, w);
    RebootActive(cfg, w);
    RebootDb(cfg, w);
    RebootDb(cfg, w1);
    assert RestorableRows(cfg, w1) == RestorableRows(cfg, w);
    assert w1.db.ActiveRows() - RestorableRows(cfg, w1) == {};
    ExpireAllNone(w1.db);
    PurgeTwice(w.db.ExpireAll(w.db.ActiveRows() - RestorableRows(cfg, w)), Cutoff(cfg, w.now));
  }

  lemma RebootRestoresTwice(cfg: Config, w: World)
    requires DbInv(w.db)
    ensures Reboot(cfg, Reboot(cfg, w)).fw == Reboot(cfg, w).fw
    ensures Reboot(cfg, Reboot(cfg, w)).grants == Reboot(cfg, w).grants
  {
    var fits := RestorableRows(cfg, w);
    var w1 := Reboot(cfg, w);
    assert RestorableRows(cfg, w1) == fits by { RebootDbTwice(cfg, w); }
    assert forall s :: s in fits ==> s in w1.db.sessions && w1.db.sessions[s] == w.db.sessions[s] by {
      RebootActive(cfg, w);
    }
    RebootRest(cfg, w);
    RebootRest(cfg, w1);
    SameRestore(w.(fw := map[]), w1.(fw := map[]), fits);
    assert RestoreGrants(w1, fits) == RestoreGrants(w, fits) by { SameGrants(w, w1, fits); }
  }

  /** Repeating the recovery at the same instant changes nothing. */
  lemma RecoveryIdempotent(cfg: Config, w: World)
    requires DbInv(w.db)
    ensures Reboot(cfg, Reboot(cfg, w)) == Reboot(cfg, w)
  {
    RebootDbTwice(cfg, w);
    RebootRestoresTwice(cfg, w);
    RebootRest(cfg, w);
    RebootRest(cfg, Reboot(cfg, w));
  }

  lemma SameGrants(w1: World, w2: World, ids: set<Id>)
    requires w1.now == w2.now
    requires forall s :: s in ids ==>
      s in w1.db.sessions && s in w2.db.sessions && w2.db.sessions[s] == w1.db.sessions[s]
    ensures RestoreGrants(w1, ids) == RestoreGrants(w2, ids)
  {
    forall g | g in RestoreGrants(w1, ids) ensures g in RestoreGrants(w2, ids) {}
    forall g | g in RestoreGrants(w2, ids) ensures g in RestoreGrants(w1, ids) {}
  }

  lemma SameRestore(w1: World, w2: World, ids: set<Id>)
    requires OnePerMac(w1.db) && ids <= w1.db.ActiveRows() && w1.now == w2.now && w1.fw == w2.fw
    requires forall s :: s in ids ==> s in w2.db.sessions && w2.db.sessions[s] == w1.db.sessions[s]
    ensures RestoredFw(w1, ids) == RestoredFw(w2, ids)
  {
    assert PairsOf(w1.db, ids) == PairsOf(w2.db, ids);
    forall p | p in PairsOf(w1.db, ids) ensures RestoredFw(w1, ids)[p] == RestoredFw(w2, ids)[p] {
      assert w1.db.ActiveRow(OwnerOf(w1.db, ids, p)) && w1.db.ActiveRow(OwnerOf(w2.db, ids, p));
    }
  }

  // ---- The cleanup test --------------------------------------------------------------------

  /**
   * The row is the grace or more past its expiry; for a grace that is not positive, it has no
   * more whole seconds left than that.
   */
  predicate Overdue(row: Session, grace: int, now: nat) {
    if grace > 0 then now >= MS * (row.expiresAt + grace) else MS * row.expiresAt - now < MS * (1 - grace)
  }

  /** The documented test means overdue; the coded one never holds for a positive grace. */
  lemma CleanupTests(row: Session, grace: int, now: nat)
    ensures DocumentedDue(row, grace, now) <==> Overdue(row, grace, now)
    ensures CleanupDue(row, grace, now) <==> grace <= 0 && Overdue(row, grace, now)
  {
  }

  ghost function OverdueRows(cfg: Config, w: World): set<Id> {
    set s | s in w.db.ActiveRows() && Overdue(w.db.sessions[s], cfg.grace, w.now)
  }

  lemma DueAreOverdue(cfg: Config, w: World)
    ensures DueRows(cfg, w, true) == OverdueRows(cfg, w)
    ensures DueRows(cfg, w, false) == if cfg.grace <= 0 then OverdueRows(cfg, w) else {}
  {
    forall s | s in w.db.ActiveRows()
      ensures s in DueRows(cfg, w, true) <==> s in OverdueRows(cfg, w)
      ensures s in DueRows(cfg, w, false) <==> cfg.grace <= 0 && s in OverdueRows(cfg, w)
    {
      CleanupTests(w.db.sessions[s], cfg.grace, w.now);
    }
  }

  lemma ExpiresNone(w: World)
    ensures w.(db := w.db.ExpireAll({}), fw := w.fw - PairsOf(w.db, {})) == w
  {
    ExpireAllNone(w.db);
    assert w.fw - PairsOf(w.db, {}) == w.fw;
  }

  /**
   * The loop as documented, on a remaining time that can go negative: for any order of the
   * rows, exactly the overdue active rows whose deauthorise call succeeds expire, each with
   * its token and its pair, and nothing else changes.
   */
  lemma DocumentedCleanup(cfg: Config, w: World, order: seq<Id>, failing: set<Id>)
    requires Lists(w.db, order, w.db.ActiveRows())
    ensures var w' := CleanupRows(cfg, w, order, failing, true);
            var over := OverdueRows(cfg, w) - failing;
      && Relabelled(w.db, w'.db, over)
      && (forall p :: p in w'.fw <==> p in w.fw && !exists s :: s in over && w.db.sessions[s].pair == p)
      && (forall p :: p in w'.fw ==> w'.fw[p] == w.fw[p])
      && w' == w.(db := w'.db, fw := w'.fw)
      && w'.db == w.db.(sessions := w'.db.sessions, tokens := w'.db.tokens)
  {
    CleanupAnyOrder(cfg, w, order, failing, true);
    DueAreOverdue(cfg, w);
    RelabelledByExpiry(w.db, OverdueRows(cfg, w) - failing);
  }

  lemma PassNeverExpires(cfg: Config, w: World, failing: set<Id>)
    requires cfg.grace > 0
    ensures CleanupPass(cfg, w, failing, false) == w
  {
    DueAreOverdue(cfg, w);
    assert DueRows(cfg, w, false) - failing == {};
    ExpiresNone(w);
  }

  /** With the clamp no remaining time reaches a positive grace: the loop does nothing. */
  lemma CleanupNeverExpires(cfg: Config, w: World, order: seq<Id>, failing: set<Id>)
    requires cfg.grace > 0 && Lists(w.db, order, w.db.ActiveRows())
    ensures CleanupRows(cfg, w, order, failing, false) == w
  {
    CleanupAnyOrder(cfg, w, order, failing, false);
    PassNeverExpires(cfg, w, failing);
  }

  /**
   * The coded loop does what the documented one does, for any orders of the rows, if and only
   * if the grace is not positive, or no row is overdue except those whose call fails.
   */
  lemma CleanupMeetsItsDocumentation(cfg: Config, w: World, coded: seq<Id>, intended: seq<Id>, failing: set<Id>)
    requires Lists(w.db, coded, w.db.ActiveRows()) && Lists(w.db, intended, w.db.ActiveRows())
    ensures CleanupRows(cfg, w, coded, failing, false) == CleanupRows(cfg, w, intended, failing, true)
       <==> cfg.grace <= 0 || OverdueRows(cfg, w) <= failing
  {
    CleanupAnyOrder(cfg, w, coded, failing, false);
    CleanupAnyOrder(cfg, w, intended, failing, true);
    DueAreOverdue(cfg, w);
    if cfg.grace > 0 {
      PassNeverExpires(cfg, w, failing);
      if OverdueRows(cfg, w) <= failing {
        assert OverdueRows(cfg, w) - failing == {};
        ExpiresNone(w);
      } else {
        var s :| s in OverdueRows(cfg, w) && s !in failing;
        assert CleanupPass(cfg, w, failing, true).db.sessions[s].status == SessionStatus.Expired;
      }
    }
  }

  /** Every row and token that is expired in `db2` was so in `db1` already. */
  ghost predicate NoneExpires(db1: Db, db2: Db) {
    && (forall s :: s in db2.sessions && db2.sessions[s].status == SessionStatus.Expired ==>
          s in db1.sessions && db1.sessions[s].status == SessionStatus.Expired)
    && (forall t :: t in db2.tokens && db2.tokens[t].status == TokenStatus.Expired ==>
          t in db1.tokens && db1.tokens[t].status == TokenStatus.Expired)
  }

  lemma MoveExpiresNone(db: Db, s: Id, t: Id, pair: Pair, expiresAt: int, stamp: int)
    ensures NoneExpires(db, db) && NoneExpires(db, db.DisconnectSession(s))
    ensures t in db.tokens ==>
      NoneExpires(db, db.DisconnectSession(s).InsertSession(t, pair, expiresAt, stamp).value)
  {
  }

  lemma MigrationExpiresNone(w: World, t: Id, pair: Pair, deauthOk: bool, authOk: bool)
    ensures NoneExpires(w.db, MigrateSession(w, t, pair, deauthOk, authOk).world.db)
  {
    var found := w.db.ActiveRowOf(t);
    MigrationTables(w, t, pair, deauthOk, authOk);
    if found.Some? {
      assert found.value in w.db.sessions;
      MoveExpiresNone(w.db, found.value, t, pair, w.db.sessions[found.value].expiresAt, Stamp(w.now));
    } else {
      MoveExpiresNone(w.db, 0, t, pair, 0, 0);
    }
  }

  lemma CreationExpiresNone(w: World, t: Id, minutes: int, pair: Pair, authOk: bool)
    requires t in w.db.tokens
    ensures NoneExpires(w.db, CreateSession(w, t, minutes, pair, authOk).world.db)
  {
    if authOk { CreationTables(w, t, minutes, pair); }
  }

  lemma AuthExpiresNone(w: World, t: Id, pair: Pair, deauthOk: bool, authOk: bool)
    ensures NoneExpires(w.db, PortalAuth(w, t, pair, deauthOk, authOk).world.db)
  {
    if w.db.Joined(t) {
      CreationExpiresNone(w, t, w.db.plans[w.db.tokens[t].planId].durationMinutes, pair, authOk);
      MigrationExpiresNone(w, t, pair, deauthOk, authOk);
    }
  }

  lemma PurgeExpiresNone(db: Db, cutoff: int)
    ensures NoneExpires(db, db.Purge(cutoff))
  {
  }

  lemma NextExpiresNone(cfg: Config, w: World, step: Step)
    requires cfg.grace > 0 && !step.StepBoot?
    ensures NoneExpires(w.db, Next(cfg, w, step).db)
  {
    match step
    case StepCleanup(failing) =>
      PassNeverExpires(cfg, w, failing);
      PurgeExpiresNone(w.db, Cutoff(cfg, w.now));
    case StepAuth(t, pair, deauthOk, authOk) => AuthExpiresNone(w, t, pair, deauthOk, authOk);
    case _ =>
  }

  /**
   * So with a positive grace, from any state whatever, nothing becomes expired until the
   * service restarts.
   */
  lemma {:induction false} OnlyRestartsExpire(cfg: Config, w: World, steps: seq<Step>)
    requires cfg.grace > 0
    requires forall i :: 0 <= i < |steps| ==> !steps[i].StepBoot?
    ensures NoneExpires(w.db, Run(cfg, w, steps).db)
    decreases |steps|
  {
    if steps != [] {
      NextExpiresNone(cfg, w, steps[0]);
      OnlyRestartsExpire(cfg, Next(cfg, w, steps[0]), steps[1..]);
    }
  }

  // ---- The purge -------------------------------------------------------------------------------

  /** The row was started the retention ago, or earlier. */
  predicate Aged(cfg: Config, row: Session, now: nat) {
    now >= MS * (row.startedAt + cfg.retentionDays * SECONDS_PER_DAY + 1)
  }

  /**
   * A purge removes exactly the closed rows that have aged, and the expired and revoked tokens
   * that no remaining row refers to; it changes nothing that it leaves.
   */
  lemma PurgeMeans(cfg: Config, w: World)
    ensures var w' := PurgeStep(cfg, w);
      && w' == w.(db := w.db.(sessions := w'.db.sessions, tokens := w'.db.tokens), lastPurge := w.now)
      && (forall s :: s in w'.db.sessions <==>
            s in w.db.sessions && (w.db.ActiveRow(s) || !Aged(cfg, w.db.sessions[s], w.now)))
      && (forall s :: s in w'.db.sessions ==> w'.db.sessions[s] == w.db.sessions[s])
      && (forall t :: t in w'.db.tokens <==>
            && t in w.db.tokens
            && (|| w.db.tokens[t].status !in {TokenStatus.Expired, TokenStatus.Revoked}
                || exists s :: s in w'.db.sessions && w'.db.sessions[s].tokenId == t))
      && (forall t :: t in w'.db.tokens ==> w'.db.tokens[t] == w.db.tokens[t])
  {
    forall s | s in w.db.sessions
      ensures w.db.sessions[s].startedAt >= Cutoff(cfg, w.now) <==> !Aged(cfg, w.db.sessions[s], w.now)
    {
    }
  }

  /** With a positive grace, as shipped, a round of the ticker is a purge once an hour and nothing else. */
  lemma ShippedRound(cfg: Config, w: World, failing: set<Id>)
    requires cfg.grace > 0
    ensures CleanupRound(cfg, w, failing) == if w.now - w.lastPurge >= 3600000 then PurgeStep(cfg, w) else w
  {
    PassNeverExpires(cfg, w, failing);
  }
}
