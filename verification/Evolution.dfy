/**
 * What one step can do to the rows of the session table and to the history, whatever the
 * step: rows keep their content, only lose activity, and new rows come from a redemption.
 */
module Evolution {
  import opened Basics
  import opened Clock
  import opened Store
  import opened Protocol
  import opened Invariants

  /** The rows of `w2` are those of `w1`, closed or removed or kept, and new ones of token `u`. */
  ghost predicate RowsEvolve(db1: Db, db2: Db, u: Option<Id>) {
    && db1.nextSession <= db2.nextSession
    && (forall s :: s in db2.sessions && s < db1.nextSession ==>
          && s in db1.sessions
          && db2.sessions[s].(status := db1.sessions[s].status) == db1.sessions[s]
          && (db2.ActiveRow(s) ==> db1.ActiveRow(s)))
    && (forall s :: s in db2.sessions && s >= db1.nextSession ==> Some(db2.sessions[s].tokenId) == u)
  }

  ghost predicate GrantsEvolve(w1: World, w2: World, u: Option<Id>) {
    forall g :: g in w2.grants && g !in w1.grants ==> Some(g.tokenId) == u
  }

  function Redeemer(step: Step): Option<Id> {
    if step.StepAuth? then Some(step.tokenId) else None
  }

  /** The token is fresh, or has an active row with at least a second left. */
  ghost predicate Usable(w: World, t: Id) {
    && t in w.db.tokens
    && (w.db.tokens[t].status == TokenStatus.Unused || exists s: Id :: OpenRow(w, t, s))
  }

  ghost predicate OpenRow(w: World, t: Id, s: Id) {
    w.db.ActiveRow(s) && w.db.sessions[s].tokenId == t && Remaining(w.db.sessions[s].expiresAt, w.now) > 0
  }

  lemma InsertEvolves(db: Db, t: Id, pair: Pair, expiresAt: int, stamp: int)
    requires Keyed(db) && t in db.tokens
    ensures RowsEvolve(db, db.InsertSession(t, pair, expiresAt, stamp).value, Some(t))
  {
  }

  lemma CreateSessionEvolves(w: World, t: Id, minutes: int, pair: Pair, authOk: bool)
    requires Keyed(w.db)
    ensures var w' := CreateSession(w, t, minutes, pair, authOk).world;
      RowsEvolve(w.db, w'.db, Some(t)) && GrantsEvolve(w, w', Some(t))
  {
    if authOk && t in w.db.tokens {
      InsertEvolves(w.db, t, pair, (w.now + minutes * 60 * MS) / MS, Stamp(w.now));
    }
  }

  lemma DisconnectEvolves(db: Db, s: Id)
    requires Keyed(db)
    ensures RowsEvolve(db, db.DisconnectSession(s), None)
  {
  }

  lemma EvolveThen(db1: Db, db2: Db, db3: Db, t: Id)
    requires RowsEvolve(db1, db2, None) && RowsEvolve(db2, db3, Some(t)) && db1.nextSession == db2.nextSession
    ensures RowsEvolve(db1, db2, Some(t)) && RowsEvolve(db1, db3, Some(t))
  {
  }

  lemma SameEvolves(db: Db, t: Id)
    requires Keyed(db)
    ensures RowsEvolve(db, db, Some(t))
  {
  }

  lemma MigrationGrantsEvolve(w: World, t: Id, pair: Pair, deauthOk: bool, authOk: bool)
    ensures GrantsEvolve(w, MigrateSession(w, t, pair, deauthOk, authOk).world, Some(t))
  {
  }

  lemma MoveEvolves(db: Db, s: Id, t: Id, pair: Pair, expiresAt: int, stamp: int)
    requires Keyed(db) && t in db.tokens
    ensures RowsEvolve(db, db.DisconnectSession(s), Some(t))
    ensures RowsEvolve(db, db.DisconnectSession(s).InsertSession(t, pair, expiresAt, stamp).value, Some(t))
  {
    var db1 := db.DisconnectSession(s);
    DisconnectEvolves(db, s);
    InsertEvolves(db1, t, pair, expiresAt, stamp);
    EvolveThen(db, db1, db1.InsertSession(t, pair, expiresAt, stamp).value, t);
  }

  lemma MigrateSessionEvolves(w: World, t: Id, pair: Pair, deauthOk: bool, authOk: bool)
    requires Keyed(w.db)
    ensures var w' := MigrateSession(w, t, pair, deauthOk, authOk).world;
      RowsEvolve(w.db, w'.db, Some(t)) && GrantsEvolve(w, w', Some(t))
  {
    MigrationTables(w, t, pair, deauthOk, authOk);
    MigrationGrantsEvolve(w, t, pair, deauthOk, authOk);
    if MigrateSession(w, t, pair, deauthOk, authOk).world.db == w.db {
      SameEvolves(w.db, t);
    } else {
      var s := w.db.ActiveRowOf(t).value;
      assert w.db.sessions[s].tokenId == t;
      MoveEvolves(w.db, s, t, pair, w.db.sessions[s].expiresAt, Stamp(w.now));
    }
  }

  lemma AuthEvolves(w: World, u: Id, pair: Pair, deauthOk: bool, authOk: bool)
    requires Keyed(w.db)
    ensures var w' := PortalAuth(w, u, pair, deauthOk, authOk).world;
      RowsEvolve(w.db, w'.db, Some(u)) && GrantsEvolve(w, w', Some(u))
  {
    if w.db.Joined(u) {
      CreateSessionEvolves(w, u, w.db.plans[w.db.tokens[u].planId].durationMinutes, pair, authOk);
      MigrateSessionEvolves(w, u, pair, deauthOk, authOk);
    }
  }

  /** A code that is not usable leads to an error page and nothing else. */
  lemma UnusableAuth(w: World, u: Id, pair: Pair, deauthOk: bool, authOk: bool)
    requires !Usable(w, u)
    ensures PortalAuth(w, u, pair, deauthOk, authOk).world == w
  {
    if w.db.Joined(u) && w.db.ActiveRowOf(u).Some? {
      var s := w.db.ActiveRowOf(u).value;
      assert w.db.ActiveRow(s) && w.db.sessions[s].tokenId == u;
      assert !OpenRow(w, u, s);
    }
  }

  lemma ExpireAndPurgeEvolve(db: Db, ids: set<Id>, cutoff: int)
    requires Keyed(db)
    ensures RowsEvolve(db, db.ExpireAll(ids), None)
    ensures RowsEvolve(db, db.ExpireAll(ids).Purge(cutoff), None)
  {
    var db1 := db.ExpireAll(ids);
    forall s | s in db1.sessions
      ensures s in db.sessions && db1.sessions[s].(status := db.sessions[s].status) == db.sessions[s]
    {
    }
    var db2 := db1.Purge(cutoff);
    forall s | s in db2.sessions ensures s in db1.sessions && db2.sessions[s] == db1.sessions[s] {}
  }

  lemma QuietEvolves(cfg: Config, w: World, step: Step)
    requires Keyed(w.db) && (step.StepTick? || IsAdmin(step))
    ensures RowsEvolve(w.db, Next(cfg, w, step).db, None)
  {
    assert Next(cfg, w, step).db.sessions == w.db.sessions;
  }

  lemma DisconnectStepEvolves(w: World, s: Id, ok: bool)
    requires Keyed(w.db)
    ensures RowsEvolve(w.db, Disconnect(w, s, ok).world.db, None)
  {
    DisconnectEvolves(w.db, s);
  }

  lemma CleanupEvolves(cfg: Config, w: World, failing: set<Id>)
    requires Keyed(w.db)
    ensures RowsEvolve(w.db, CleanupRound(cfg, w, failing).db, None)
  {
    ExpireAndPurgeEvolve(w.db, DueRows(cfg, w, false) - failing, Cutoff(cfg, w.now));
  }

  lemma BootEvolves(cfg: Config, w: World, kept: set<Pair>, failing: set<Id>)
    requires Keyed(w.db)
    ensures RowsEvolve(w.db, Boot(cfg, w, kept, failing).db, None)
  {
    BootTables(cfg, w, kept, failing);
    ExpireAndPurgeEvolve(w.db, w.db.ActiveRows() - RestorableRows(cfg, w), Cutoff(cfg, w.now));
  }

  /** A submission brings rows of its token only, and every other step brings none. */
  lemma NextRows(cfg: Config, w: World, step: Step)
    requires Keyed(w.db)
    ensures RowsEvolve(w.db, Next(cfg, w, step).db, Redeemer(step))
  {
    if step.StepAuth? {
      AuthEvolves(w, step.tokenId, step.pair, step.deauthOk, step.authOk);
    } else {
      OthersEvolve(cfg, w, step);
    }
  }

  lemma OthersEvolve(cfg: Config, w: World, step: Step)
    requires Keyed(w.db) && !step.StepAuth?
    ensures RowsEvolve(w.db, Next(cfg, w, step).db, None)
  {
    match step
    case StepDisconnect(s, ok) => DisconnectStepEvolves(w, s, ok);
    case StepCleanup(failing) => CleanupEvolves(cfg, w, failing);
    case StepBoot(kept, failing) => BootEvolves(cfg, w, kept, failing);
    case _ => QuietEvolves(cfg, w, step);
  }

  lemma BootGrantsOwned(cfg: Config, w: World, kept: set<Pair>, failing: set<Id>, g: Grant)
    requires g in Boot(cfg, w, kept, failing).grants && g !in w.grants
    ensures exists s: Id :: w.db.ActiveRow(s) && w.db.sessions[s].tokenId == g.tokenId
  {
    var w1 := Surviving(w, kept);
    var s :| s in RestorableRows(cfg, w1) - failing && g.tokenId == w.db.sessions[s].tokenId;
    assert w.db.ActiveRow(s);
  }

  /** Grants come from a redemption, or from a restart for a token with an active row. */
  lemma NextGrants(cfg: Config, w: World, step: Step, g: Grant)
    requires Keyed(w.db) && g in Next(cfg, w, step).grants && g !in w.grants
    ensures
      || Some(g.tokenId) == Redeemer(step)
      || exists s: Id :: w.db.ActiveRow(s) && w.db.sessions[s].tokenId == g.tokenId
  {
    match step
    case StepAuth(u, pair, deauthOk, authOk) => AuthEvolves(w, u, pair, deauthOk, authOk);
    case StepBoot(kept, failing) => BootGrantsOwned(cfg, w, kept, failing, g);
    case _ =>
  }

  /** Old token ids stay used, and no step makes an old token unused again. */
  ghost predicate TokenAges(db1: Db, db2: Db, t: Id) {
    && t < db2.nextToken
    && (t in db2.tokens ==> t in db1.tokens)
    && (t in db2.tokens && db2.tokens[t].status == TokenStatus.Unused ==> db1.tokens[t].status == TokenStatus.Unused)
  }

  lemma AuthAges(w: World, u: Id, pair: Pair, deauthOk: bool, authOk: bool, t: Id)
    requires Keyed(w.db) && t < w.db.nextToken
    ensures TokenAges(w.db, PortalAuth(w, u, pair, deauthOk, authOk).world.db, t)
  {
    if w.db.Joined(u) && w.db.tokens[u].status == TokenStatus.Active {
      MigrationTables(w, u, pair, deauthOk, authOk);
    }
  }

  lemma ExpireAndPurgeAge(db: Db, ids: set<Id>, cutoff: int, t: Id)
    requires t < db.nextToken
    ensures TokenAges(db, db.ExpireAll(ids), t) && TokenAges(db, db.ExpireAll(ids).Purge(cutoff), t)
  {
  }

  lemma NextTokens(cfg: Config, w: World, step: Step, t: Id)
    requires Keyed(w.db) && t < w.db.nextToken
    ensures TokenAges(w.db, Next(cfg, w, step).db, t)
  {
    match step
    case StepAuth(u, pair, deauthOk, authOk) => AuthAges(w, u, pair, deauthOk, authOk, t);
    case StepCleanup(failing) => ExpireAndPurgeAge(w.db, DueRows(cfg, w, false) - failing, Cutoff(cfg, w.now), t);
    case StepBoot(kept, failing) =>
      BootTables(cfg, w, kept, failing);
      ExpireAndPurgeAge(w.db, w.db.ActiveRows() - RestorableRows(cfg, w), Cutoff(cfg, w.now), t);
    case _ =>
  }
}
