/**
 * What every run of whole handlers keeps: the three stores are consistent, a token has at
 * most one active row, and everything granted for a token stays within one second of the
 * expiry it received at redemption.
 */
module Invariants {
  import opened Basics
  import opened Clock
  import opened Store
  import opened Protocol

  // ---- The invariant -------------------------------------------------------------------

  ghost predicate Keyed(db: Db) {
    && (forall p :: p in db.plans ==>
          p < db.nextPlan && PlanInput(db.plans[p].durationMinutes, db.plans[p].priceAriary))
    && (forall t :: t in db.tokens ==> t < db.nextToken && db.tokens[t].planId in db.plans)
    && (forall s :: s in db.sessions ==> s < db.nextSession && db.sessions[s].tokenId in db.tokens)
  }

  ghost predicate OnePerMac(db: Db) {
    forall a, b :: db.ActiveRow(a) && db.ActiveRow(b) && db.sessions[a].pair.mac == db.sessions[b].pair.mac ==> a == b
  }

  ghost predicate OnePerToken(db: Db) {
    forall a, b :: db.ActiveRow(a) && db.ActiveRow(b) && db.sessions[a].tokenId == db.sessions[b].tokenId ==> a == b
  }

  /**
   * Redeemed tokens, and only those, carry a redemption time and an expiry, which lie a
   * plan's duration apart.
   */
  ghost predicate Stamped(db: Db) {
    forall t :: t in db.tokens ==>
      && (db.tokens[t].expiresAt.Some? <==> db.tokens[t].status in {TokenStatus.Active, TokenStatus.Expired})
      && (db.tokens[t].redeemedAt.Some? <==> db.tokens[t].expiresAt.Some?)
      && (db.tokens[t].expiresAt.Some? ==>
            60 <= db.tokens[t].expiresAt.value - db.tokens[t].redeemedAt.value <= SECONDS_PER_DAY)
  }

  /** Every row carries the expiry of its token, so unused and revoked tokens have no rows. */
  ghost predicate RowsCarryExpiry(db: Db) {
    forall s :: s in db.sessions && db.sessions[s].tokenId in db.tokens ==>
      db.tokens[db.sessions[s].tokenId].expiresAt == Some(db.sessions[s].expiresAt)
  }

  ghost predicate ActiveRowsOfActiveTokens(db: Db) {
    forall s :: db.ActiveRow(s) && db.sessions[s].tokenId in db.tokens ==>
      db.tokens[db.sessions[s].tokenId].status == TokenStatus.Active
  }

  ghost predicate DbInv(db: Db) {
    && Keyed(db)
    && OnePerMac(db)
    && OnePerToken(db)
    && Stamped(db)
    && RowsCarryExpiry(db)
    && ActiveRowsOfActiveTokens(db)
  }

  /** The tokens' expiries are those recorded at redemption; an unused token has none yet. */
  ghost predicate EntitledInv(w: World) {
    && (forall t :: t in w.db.tokens && w.db.tokens[t].expiresAt.Some? ==>
          t in w.entitled && w.entitled[t] == w.db.tokens[t].expiresAt.value)
    && (forall t :: t in w.entitled ==>
          t < w.db.nextToken && (t in w.db.tokens ==> w.db.tokens[t].expiresAt.Some?))
  }

  /** Every deadline ever granted lies strictly within one second of the token's expiry. */
  ghost predicate GrantsNear(w: World) {
    forall g :: g in w.grants ==> g.tokenId in w.entitled && Near(g.deadline, w.entitled[g.tokenId])
  }

  /** Every pair in the firewall is there by a grant, with the deadline of that grant, not yet past. */
  ghost predicate Backed(w: World) {
    && (forall p :: p in w.fw ==> exists g :: g in w.grants && g.pair == p && g.deadline == w.fw[p])
    && (forall p :: p in w.fw ==> w.now < w.fw[p])
  }

  /** What no configuration breaks. */
  ghost predicate TablesInv(w: World) {
    DbInv(w.db) && EntitledInv(w)
  }

  /** What needs a grace that is not negative. */
  ghost predicate GrantsInv(w: World) {
    GrantsNear(w) && Backed(w)
  }

  ghost predicate Inv(w: World) {
    TablesInv(w) && GrantsInv(w)
  }

  // ---- Single statements ---------------------------------------------------------------

  lemma JoinedRows(db: Db)
    requires Keyed(db)
    ensures forall s :: s in db.sessions ==> db.Joined(db.sessions[s].tokenId)
    ensures forall s :: s in db.ActiveRows() <==> db.ActiveRow(s)
  {
  }

  lemma TheActiveRow(db: Db, s: Id)
    requires DbInv(db) && db.ActiveRow(s)
    ensures db.ActiveRowOf(db.sessions[s].tokenId) == Some(s)
  {
    JoinedRows(db);
    var t := db.sessions[s].tokenId;
    assert s in db.ActiveRowsOf(t);
    var r := db.ActiveRowOf(t).value;
    assert db.ActiveRow(r) && db.sessions[r].tokenId == t;
  }

  /** The insert leaves at most one active row per MAC, the new one. */
  lemma InsertActive(db: Db, t: Id, pair: Pair, expiresAt: int, stamp: int)
    requires Keyed(db) && OnePerMac(db) && t in db.tokens
    ensures var db' := db.InsertSession(t, pair, expiresAt, stamp).value;
      && OnePerMac(db')
      && (forall a :: db'.ActiveRow(a) && a != db.nextSession ==> db.ActiveRow(a) && db'.sessions[a] == db.sessions[a])
  {
    var db' := db.InsertSession(t, pair, expiresAt, stamp).value;
    forall a | db'.ActiveRow(a)
      ensures
        || a == db.nextSession
        || (db.ActiveRow(a) && db'.sessions[a] == db.sessions[a] && db.sessions[a].pair.mac != pair.mac)
    {
    }
  }

  lemma InsertRedeemActive(db: Db, t: Id, pair: Pair, expiresAt: int, stamp: int)
    requires DbInv(db) && t in db.tokens && db.tokens[t].status == TokenStatus.Unused
    ensures var db' := db.InsertSession(t, pair, expiresAt, stamp).value.RedeemToken(t, expiresAt, stamp);
      OnePerMac(db') && OnePerToken(db') && ActiveRowsOfActiveTokens(db')
  {
    InsertActive(db, t, pair, expiresAt, stamp);
    var db1 := db.InsertSession(t, pair, expiresAt, stamp).value;
    var db' := db1.RedeemToken(t, expiresAt, stamp);
    assert forall a :: db'.ActiveRow(a) <==> db1.ActiveRow(a);
    forall s | db.ActiveRow(s) ensures db.sessions[s].tokenId != t {
      assert db.sessions[s].tokenId in db.tokens;
    }
  }

  lemma InsertRedeemStamps(db: Db, t: Id, pair: Pair, expiresAt: int, stamp: int)
    requires DbInv(db) && t in db.tokens && db.tokens[t].status == TokenStatus.Unused
    requires 60 <= expiresAt - stamp <= SECONDS_PER_DAY
    ensures var db' := db.InsertSession(t, pair, expiresAt, stamp).value.RedeemToken(t, expiresAt, stamp);
      Keyed(db') && Stamped(db') && RowsCarryExpiry(db')
  {
    forall s | s in db.sessions ensures db.sessions[s].tokenId != t {
      assert db.sessions[s].tokenId in db.tokens;
    }
  }

  /** Between the two writes the new row belongs to a token that carries no expiry yet. */
  lemma InsertAloneBreaks(db: Db, t: Id, pair: Pair, expiresAt: int, stamp: int)
    requires DbInv(db) && t in db.tokens && db.tokens[t].status == TokenStatus.Unused
    ensures !RowsCarryExpiry(db.InsertSession(t, pair, expiresAt, stamp).value)
  {
    var db' := db.InsertSession(t, pair, expiresAt, stamp).value;
    assert db.nextSession in db'.sessions && db'.sessions[db.nextSession].tokenId == t;
  }

  /** The two writes of a first redemption keep the tables consistent; the insert alone never does. */
  lemma InsertRedeemKeeps(db: Db, t: Id, pair: Pair, expiresAt: int, stamp: int)
    requires DbInv(db) && t in db.tokens && db.tokens[t].status == TokenStatus.Unused
    requires 60 <= expiresAt - stamp <= SECONDS_PER_DAY
    ensures DbInv(db.InsertSession(t, pair, expiresAt, stamp).value.RedeemToken(t, expiresAt, stamp))
    ensures !DbInv(db.InsertSession(t, pair, expiresAt, stamp).value)
  {
    InsertRedeemActive(db, t, pair, expiresAt, stamp);
    InsertRedeemStamps(db, t, pair, expiresAt, stamp);
    InsertAloneBreaks(db, t, pair, expiresAt, stamp);
  }

  /** `db2` is `db1` with some rows closed. */
  ghost predicate RowsClosed(db1: Db, db2: Db) {
    && db2 == db1.(sessions := db2.sessions)
    && db2.sessions.Keys == db1.sessions.Keys
    && (forall s :: s in db1.sessions ==> db2.sessions[s].(status := db1.sessions[s].status) == db1.sessions[s])
    && (forall a :: db2.ActiveRow(a) ==> db1.ActiveRow(a))
  }

  lemma ClosingKeeps(db1: Db, db2: Db)
    requires DbInv(db1) && RowsClosed(db1, db2)
    ensures DbInv(db2)
  {
  }

  lemma DisconnectKeeps(db: Db, s: Id)
    requires DbInv(db)
    ensures DbInv(db.DisconnectSession(s))
    ensures forall a :: db.DisconnectSession(s).ActiveRow(a) <==> db.ActiveRow(a) && a != s
  {
    ClosingKeeps(db, db.DisconnectSession(s));
  }

  lemma InsertStamps(db: Db, t: Id, pair: Pair, expiresAt: int, stamp: int)
    requires DbInv(db) && t in db.tokens && db.tokens[t].expiresAt == Some(expiresAt)
    ensures var db' := db.InsertSession(t, pair, expiresAt, stamp).value;
      Keyed(db') && Stamped(db') && RowsCarryExpiry(db')
  {
  }

  lemma InsertKeeps(db: Db, t: Id, pair: Pair, expiresAt: int, stamp: int)
    requires DbInv(db) && t in db.tokens
    requires db.tokens[t].status == TokenStatus.Active && db.tokens[t].expiresAt == Some(expiresAt)
    requires forall s :: db.ActiveRow(s) ==> db.sessions[s].tokenId != t
    ensures DbInv(db.InsertSession(t, pair, expiresAt, stamp).value)
  {
    InsertStamps(db, t, pair, expiresAt, stamp);
    InsertActive(db, t, pair, expiresAt, stamp);
  }

  /** Closing the row of a token and inserting another with the same expiry. */
  lemma MoveKeeps(db: Db, s: Id, pair: Pair, stamp: int)
    requires DbInv(db) && db.ActiveRow(s)
    ensures DbInv(db.DisconnectSession(s))
    ensures var row := db.sessions[s];
            db.DisconnectSession(s).InsertSession(row.tokenId, pair, row.expiresAt, stamp).Some? &&
            DbInv(db.DisconnectSession(s).InsertSession(row.tokenId, pair, row.expiresAt, stamp).value)
  {
    DisconnectKeeps(db, s);
    var row := db.sessions[s];
    InsertKeeps(db.DisconnectSession(s), row.tokenId, pair, row.expiresAt, stamp);
  }

  lemma ExpireAllRows(db: Db, ids: set<Id>)
    ensures db.ExpireAll(ids).sessions.Keys == db.sessions.Keys
    ensures forall s :: s in db.sessions ==>
      db.ExpireAll(ids).sessions[s] ==
        if s in ids then db.sessions[s].(status := SessionStatus.Expired) else db.sessions[s]
    ensures forall a :: db.ExpireAll(ids).ActiveRow(a) <==> db.ActiveRow(a) && a !in ids
  {
  }

  lemma ExpireAllTokens(db: Db, ids: set<Id>)
    requires ActiveRowsOfActiveTokens(db) && forall s :: s in ids ==> db.ActiveRow(s)
    ensures db.ExpireAll(ids).tokens.Keys == db.tokens.Keys
    ensures forall t :: t in db.tokens ==>
      || db.ExpireAll(ids).tokens[t] == db.tokens[t]
      || (&& db.tokens[t].status == TokenStatus.Active
          && db.ExpireAll(ids).tokens[t] == db.tokens[t].(status := TokenStatus.Expired)
          && exists s :: s in ids && db.sessions[s].tokenId == t)
  {
  }

  /** Of the tokens, only those of the expired rows change, and these have no other active row. */
  lemma ExpireAllActive(db: Db, ids: set<Id>)
    requires DbInv(db) && forall s :: s in ids ==> db.ActiveRow(s)
    ensures var db' := db.ExpireAll(ids);
      OnePerMac(db') && OnePerToken(db') && ActiveRowsOfActiveTokens(db')
  {
    ExpireAllRows(db, ids);
    ExpireAllTokens(db, ids);
    var db' := db.ExpireAll(ids);
    forall a | db'.ActiveRow(a) && db'.sessions[a].tokenId in db'.tokens
      ensures db'.tokens[db'.sessions[a].tokenId] == db.tokens[db.sessions[a].tokenId]
    {
      forall s | s in ids ensures db.sessions[s].tokenId != db.sessions[a].tokenId {
        assert db.ActiveRow(s) && db.ActiveRow(a);
      }
    }
  }

  lemma ExpireAllStamps(db: Db, ids: set<Id>)
    requires Keyed(db) && Stamped(db) && ActiveRowsOfActiveTokens(db) && forall s :: s in ids ==> db.ActiveRow(s)
    ensures Keyed(db.ExpireAll(ids)) && Stamped(db.ExpireAll(ids))
  {
    ExpireAllRows(db, ids);
    ExpireAllTokens(db, ids);
  }

  lemma ExpireAllExpiries(db: Db, ids: set<Id>)
    requires RowsCarryExpiry(db)
    ensures RowsCarryExpiry(db.ExpireAll(ids))
  {
  }

  lemma ExpireAllKeeps(db: Db, ids: set<Id>)
    requires DbInv(db) && forall s :: s in ids ==> db.ActiveRow(s)
    ensures DbInv(db.ExpireAll(ids))
  {
    ExpireAllActive(db, ids);
    ExpireAllStamps(db, ids);
    ExpireAllExpiries(db, ids);
  }

  lemma PurgeKeeps(db: Db, cutoff: int)
    requires DbInv(db)
    ensures DbInv(db.Purge(cutoff))
    ensures forall t :: t in db.tokens && t !in db.Purge(cutoff).tokens ==>
              db.tokens[t].status in {TokenStatus.Expired, TokenStatus.Revoked}
  {
    var db1 := db.PurgeSessions(cutoff);
    var db' := db.Purge(cutoff);
    forall s | s in db'.sessions ensures db'.sessions[s].tokenId in db'.tokens {
      assert db1.Referenced(db1.sessions[s].tokenId);
    }
    forall a | db'.ActiveRow(a) ensures db.ActiveRow(a) && db'.sessions[a] == db.sessions[a] {}
  }

  /** Administration touches plans and unredeemed tokens only. */
  ghost predicate Administered(db1: Db, db2: Db) {
    && db2.sessions == db1.sessions && db1.nextToken <= db2.nextToken
    && (forall t :: t in db1.tokens ==>
          && t in db2.tokens
          && db2.tokens[t].expiresAt == db1.tokens[t].expiresAt
          && (db1.tokens[t].expiresAt.Some? ==> db2.tokens[t].status == db1.tokens[t].status))
    && (forall t :: t in db2.tokens && t !in db1.tokens ==> t >= db1.nextToken && db2.tokens[t].expiresAt.None?)
  }

  lemma AdminKeeps(db1: Db, db2: Db)
    requires DbInv(db1) && Administered(db1, db2) && Keyed(db2) && Stamped(db2)
    ensures DbInv(db2)
  {
    forall s | db2.ActiveRow(s) ensures db1.ActiveRow(s) {}
  }

  lemma RevokeKeeps(db: Db, t: Id)
    requires DbInv(db)
    ensures DbInv(db.RevokeToken(t)) && Administered(db, db.RevokeToken(t))
  {
    AdminKeeps(db, db.RevokeToken(t));
  }

  lemma CreateTokenKeeps(db: Db, p: Id)
    requires DbInv(db)
    ensures DbInv(db.CreateToken(p)) && Administered(db, db.CreateToken(p))
  {
    AdminKeeps(db, db.CreateToken(p));
  }

  lemma SavePlanKeeps(db: Db, p: Id, plan: Plan)
    requires DbInv(db) && PlanInput(plan.durationMinutes, plan.priceAriary)
    ensures DbInv(db.SavePlan(p, plan)) && Administered(db, db.SavePlan(p, plan))
  {
    AdminKeeps(db, db.SavePlan(p, plan));
  }

  // ---- Handlers: the tables ------------------------------------------------------------

  lemma CreationTables(w: World, t: Id, minutes: int, pair: Pair)
    requires t in w.db.tokens
    ensures var h := CreateSession(w, t, minutes, pair, true);
            var expiresAt := (w.now + minutes * 60 * MS) / MS;
      && h.world.now == w.now
      && h.world.db ==
           w.db.InsertSession(t, pair, expiresAt, Stamp(w.now)).value.RedeemToken(t, expiresAt, Stamp(w.now))
  {
  }

  lemma FirstRow(w: World, t: Id, minutes: int, pair: Pair)
    requires 1 <= minutes <= 1440
    requires DbInv(w.db) && t in w.db.tokens && w.db.tokens[t].status == TokenStatus.Unused
    ensures DbInv(CreateSession(w, t, minutes, pair, true).world.db)
  {
    var expiresAt := (w.now + minutes * 60 * MS) / MS;
    InsertRedeemKeeps(w.db, t, pair, expiresAt, Stamp(w.now));
    CreationTables(w, t, minutes, pair);
  }

  /** The tables a migration can leave: as they were, the old row closed, or the row moved. */
  lemma MigrationTables(w: World, t: Id, pair: Pair, deauthOk: bool, authOk: bool)
    ensures var w' := MigrateSession(w, t, pair, deauthOk, authOk).world;
      && w'.entitled == w.entitled
      && (|| w'.db == w.db
          || (&& w.db.ActiveRowOf(t).Some?
              && var s := w.db.ActiveRowOf(t).value;
                 var db1 := w.db.DisconnectSession(s);
                 var db2 := db1.InsertSession(t, pair, w.db.sessions[s].expiresAt, Stamp(w.now));
                 w'.db == db1 || (db2.Some? && w'.db == db2.value)))
  {
  }

  lemma MigrationResult(w: World, t: Id, s: Id, pair: Pair, deauthOk: bool, authOk: bool)
    requires w.db.ActiveRowOf(t) == Some(s)
    ensures var h := MigrateSession(w, t, pair, deauthOk, authOk);
            var row := w.db.sessions[s];
            var db1 := w.db.DisconnectSession(s);
      && h.world.now == w.now
      && h.world.db == if Remaining(row.expiresAt, w.now) <= 0 then w.db
                       else if !authOk || t !in w.db.tokens then db1
                       else db1.InsertSession(t, pair, row.expiresAt, Stamp(w.now)).value
  {
  }

  lemma MigrateSessionKeepsDb(w: World, t: Id, pair: Pair, deauthOk: bool, authOk: bool)
    requires DbInv(w.db)
    ensures var w' := MigrateSession(w, t, pair, deauthOk, authOk).world;
      DbInv(w'.db) && w'.db.tokens == w.db.tokens && w'.db.nextToken == w.db.nextToken
  {
    MigrationTables(w, t, pair, deauthOk, authOk);
    if w.db.ActiveRowOf(t).Some? {
      var s := w.db.ActiveRowOf(t).value;
      assert w.db.ActiveRow(s) && w.db.sessions[s].tokenId == t;
      MoveKeeps(w.db, s, pair, Stamp(w.now));
    }
  }

  lemma AuthKeepsDb(w: World, t: Id, pair: Pair, deauthOk: bool, authOk: bool)
    requires DbInv(w.db)
    ensures DbInv(PortalAuth(w, t, pair, deauthOk, authOk).world.db)
  {
    if w.db.Joined(t) {
      match w.db.tokens[t].status
      case Unused => if authOk { FirstRow(w, t, w.db.plans[w.db.tokens[t].planId].durationMinutes, pair); }
      case Active => MigrateSessionKeepsDb(w, t, pair, deauthOk, authOk);
      case Expired =>
      case Revoked =>
    }
  }

  lemma ExpireAndPurgeKeep(db: Db, ids: set<Id>, cutoff: int)
    requires DbInv(db) && forall s :: s in ids ==> db.ActiveRow(s)
    ensures DbInv(db.ExpireAll(ids)) && DbInv(db.ExpireAll(ids).Purge(cutoff))
  {
    ExpireAllKeeps(db, ids);
    PurgeKeeps(db.ExpireAll(ids), cutoff);
  }

  lemma BootTables(cfg: Config, w: World, kept: set<Pair>, failing: set<Id>)
    ensures var w' := Boot(cfg, w, kept, failing);
      && w'.db == w.db.ExpireAll(w.db.ActiveRows() - RestorableRows(cfg, w)).Purge(Cutoff(cfg, w.now))
      && w'.entitled == w.entitled && w'.now == w.now
  {
    assert RestorableRows(cfg, Surviving(w, kept)) == RestorableRows(cfg, w);
  }

  predicate IsAdmin(step: Step) {
    step.StepSavePlan? || step.StepCreateToken? || step.StepRevoke?
  }

  lemma AdminStepKeeps(cfg: Config, w: World, step: Step)
    requires DbInv(w.db) && IsAdmin(step)
    ensures DbInv(Next(cfg, w, step).db) && Administered(w.db, Next(cfg, w, step).db)
    ensures Next(cfg, w, step) == w.(db := Next(cfg, w, step).db)
  {
    match step
    case StepSavePlan(p, minutes, price) =>
      if PlanInput(minutes, price) { SavePlanKeeps(w.db, p, Plan(minutes, price)); }
    case StepCreateToken(p) => CreateTokenKeeps(w.db, p);
    case StepRevoke(t) => RevokeKeeps(w.db, t);
  }

  lemma CleanupKeepsDb(cfg: Config, w: World, failing: set<Id>)
    requires DbInv(w.db)
    ensures DbInv(CleanupRound(cfg, w, failing).db)
  {
    ExpireAndPurgeKeep(w.db, DueRows(cfg, w, false) - failing, Cutoff(cfg, w.now));
  }

  lemma BootKeepsDb(cfg: Config, w: World, kept: set<Pair>, failing: set<Id>)
    requires DbInv(w.db)
    ensures DbInv(Boot(cfg, w, kept, failing).db)
  {
    BootTables(cfg, w, kept, failing);
    ExpireAndPurgeKeep(w.db, w.db.ActiveRows() - RestorableRows(cfg, w), Cutoff(cfg, w.now));
  }

  /** One step of any kind keeps the tables consistent, whatever the configuration. */
  lemma NextKeepsDb(cfg: Config, w: World, step: Step)
    requires DbInv(w.db)
    ensures DbInv(Next(cfg, w, step).db)
  {
    match step
    case StepTick(ms) =>
    case StepAuth(t, pair, deauthOk, authOk) => AuthKeepsDb(w, t, pair, deauthOk, authOk);
    case StepDisconnect(s, ok) => DisconnectKeeps(w.db, s);
    case StepCleanup(failing) => CleanupKeepsDb(cfg, w, failing);
    case StepBoot(kept, failing) => BootKeepsDb(cfg, w, kept, failing);
    case _ => AdminStepKeeps(cfg, w, step);
  }

  lemma {:induction false} RunKeepsDb(cfg: Config, w: World, steps: seq<Step>)
    requires DbInv(w.db)
    ensures DbInv(Run(cfg, w, steps).db)
    decreases |steps|
  {
    if steps != [] {
      NextKeepsDb(cfg, w, steps[0]);
      RunKeepsDb(cfg, Next(cfg, w, steps[0]), steps[1..]);
    }
  }

  // ---- Handlers: the entitlements ------------------------------------------------------

  lemma FirstEntitled(w: World, t: Id, minutes: int, pair: Pair)
    requires EntitledInv(w) && t in w.db.tokens && w.db.tokens[t].expiresAt.None? && t < w.db.nextToken
    ensures EntitledInv(CreateSession(w, t, minutes, pair, true).world)
  {
    var w' := CreateSession(w, t, minutes, pair, true).world;
    var expiresAt := (w.now + minutes * 60 * MS) / MS;
    assert t !in w.entitled;
    assert w'.entitled == w.entitled[t := expiresAt];
    assert w'.db.tokens == w.db.tokens[t := w.db.tokens[t].(
        status := TokenStatus.Active, redeemedAt := Some(Stamp(w.now)), expiresAt := Some(expiresAt))];
  }

  lemma AuthEntitled(w: World, t: Id, pair: Pair, deauthOk: bool, authOk: bool)
    requires TablesInv(w)
    ensures EntitledInv(PortalAuth(w, t, pair, deauthOk, authOk).world)
  {
    if w.db.Joined(t) {
      match w.db.tokens[t].status
      case Unused => if authOk { FirstEntitled(w, t, w.db.plans[w.db.tokens[t].planId].durationMinutes, pair); }
      case Active =>
        MigrationTables(w, t, pair, deauthOk, authOk);
        MigrateSessionKeepsDb(w, t, pair, deauthOk, authOk);
      case Expired =>
      case Revoked =>
    }
  }

  lemma AdminEntitled(w: World, db: Db)
    requires EntitledInv(w) && Administered(w.db, db)
    ensures EntitledInv(w.(db := db))
  {
  }

  lemma ExpireAndPurgeEntitled(w: World, ids: set<Id>, cutoff: int, db: Db)
    requires TablesInv(w) && forall s :: s in ids ==> w.db.ActiveRow(s)
    requires db == w.db.ExpireAll(ids) || db == w.db.ExpireAll(ids).Purge(cutoff)
    ensures EntitledInv(w.(db := db))
  {
    ExpireAllTokens(w.db, ids);
  }

  lemma NextEntitled(cfg: Config, w: World, step: Step)
    requires TablesInv(w)
    ensures EntitledInv(Next(cfg, w, step))
  {
    match step
    case StepTick(ms) =>
    case StepAuth(t, pair, deauthOk, authOk) => AuthEntitled(w, t, pair, deauthOk, authOk);
    case StepDisconnect(s, ok) =>
    case StepCleanup(failing) =>
      ExpireAndPurgeEntitled(w, DueRows(cfg, w, false) - failing, Cutoff(cfg, w.now), Next(cfg, w, step).db);
    case StepBoot(kept, failing) =>
      BootTables(cfg, w, kept, failing);
      ExpireAndPurgeEntitled(w, w.db.ActiveRows() - RestorableRows(cfg, w), Cutoff(cfg, w.now), Next(cfg, w, step).db);
    case _ =>
      AdminStepKeeps(cfg, w, step);
      AdminEntitled(w, Next(cfg, w, step).db);
  }

  lemma NextKeepsTables(cfg: Config, w: World, step: Step)
    requires TablesInv(w)
    ensures TablesInv(Next(cfg, w, step))
  {
    NextKeepsDb(cfg, w, step);
    NextEntitled(cfg, w, step);
  }

  /** The tables and entitlements stay consistent over every run, whatever the configuration. */
  lemma {:induction false} RunKeepsTables(cfg: Config, w: World, steps: seq<Step>)
    requires TablesInv(w)
    ensures TablesInv(Run(cfg, w, steps))
    decreases |steps|
  {
    if steps != [] {
      NextKeepsTables(cfg, w, steps[0]);
      RunKeepsTables(cfg, Next(cfg, w, steps[0]), steps[1..]);
    }
  }

  // ---- Handlers: the grants and the firewall -------------------------------------------

  /** No new grant, and no pair in the firewall that was not there before. */
  lemma FewerPairs(w1: World, w2: World)
    requires GrantsInv(w1) && w2.grants == w1.grants && w2.entitled == w1.entitled
    requires forall p :: p in w2.fw ==> p in w1.fw && w2.fw[p] == w1.fw[p] && w2.now < w2.fw[p]
    ensures GrantsInv(w2)
  {
  }

  /** One more grant near the token's expiry. */
  lemma OneMoreGrant(w1: World, w2: World, g: Grant)
    requires GrantsInv(w1) && w2.grants == w1.grants + {g} && w2.fw == w1.fw[g.pair := g.deadline] && w2.now == w1.now
    requires forall t :: t in w1.entitled ==> t in w2.entitled && w2.entitled[t] == w1.entitled[t]
    requires g.tokenId in w2.entitled && Near(g.deadline, w2.entitled[g.tokenId]) && w1.now < g.deadline
    ensures GrantsInv(w2)
  {
    forall p | p in w2.fw ensures exists h :: h in w2.grants && h.pair == p && h.deadline == w2.fw[p] {
      assert p == g.pair ==> g in w2.grants && g.deadline == w2.fw[p];
    }
  }

  /** A first grant: the deadline rounds to the expiry the token is about to receive. */
  lemma FirstGrant(w: World, t: Id, minutes: int, pair: Pair)
    requires minutes >= 1 && GrantsInv(w) && t in w.db.tokens && t !in w.entitled
    ensures GrantsInv(CreateSession(w, t, minutes, pair, true).world)
  {
    OneMoreGrant(w, CreateSession(w, t, minutes, pair, true).world, Grant(t, pair, w.now + minutes * 60 * MS));
  }

  lemma MigrationGrant(w: World, t: Id, pair: Pair, deauthOk: bool, authOk: bool)
    requires Inv(w)
    ensures GrantsInv(MigrateSession(w, t, pair, deauthOk, authOk).world)
  {
    var w' := MigrateSession(w, t, pair, deauthOk, authOk).world;
    if w.db.ActiveRowOf(t).Some? {
      var s := w.db.ActiveRowOf(t).value;
      var row := w.db.sessions[s];
      var remaining := Remaining(row.expiresAt, w.now);
      assert w.db.ActiveRow(s) && row.tokenId == t;
      assert w.entitled[t] == row.expiresAt;
      var w1 := Deauthorize(w, row.pair, deauthOk);
      FewerPairs(w, w1);
      if remaining > 0 && authOk {
        OneMoreGrant(w1, w', Grant(t, pair, w.now + remaining * MS));
      }
    }
  }

  lemma AuthGrant(w: World, t: Id, pair: Pair, deauthOk: bool, authOk: bool)
    requires Inv(w)
    ensures GrantsInv(PortalAuth(w, t, pair, deauthOk, authOk).world)
  {
    if w.db.Joined(t) {
      match w.db.tokens[t].status
      case Unused => if authOk { FirstGrant(w, t, w.db.plans[w.db.tokens[t].planId].durationMinutes, pair); }
      case Active => MigrationGrant(w, t, pair, deauthOk, authOk);
      case Expired =>
      case Revoked =>
    }
  }

  lemma RestoreNear(w: World, s: Id)
    requires s in w.db.sessions && Remaining(w.db.sessions[s].expiresAt, w.now) > 0
    ensures Near(RestoreDeadline(w, s), w.db.sessions[s].expiresAt)
  {
  }

  /** A restored row gets its own deadline: no other active row has its pair. */
  lemma RestoredRow(w: World, ids: set<Id>, s: Id)
    requires OnePerMac(w.db) && ids <= w.db.ActiveRows() && s in ids
    ensures w.db.sessions[s].pair in RestoredFw(w, ids)
    ensures RestoredFw(w, ids)[w.db.sessions[s].pair] == RestoreDeadline(w, s)
  {
    assert w.db.sessions[s].pair in PairsOf(w.db, ids);
    var o := OwnerOf(w.db, ids, w.db.sessions[s].pair);
    assert w.db.ActiveRow(o) && w.db.ActiveRow(s);
  }

  /** Every row a restart authorises has a whole second left; a grace of zero or more sees to that. */
  ghost predicate TimedRestore(cfg: Config, w: World, step: Step) {
    step.StepBoot? ==>
      forall s :: s in RestorableRows(cfg, w) && s !in step.failing ==>
        Remaining(w.db.sessions[s].expiresAt, w.now) > 0
  }

  lemma RecoveryGrants(cfg: Config, w: World, failing: set<Id>)
    requires Inv(w)
    requires forall s :: s in RestorableRows(cfg, w) && s !in failing ==>
      Remaining(w.db.sessions[s].expiresAt, w.now) > 0
    ensures GrantsInv(RecoveryLoop(cfg, w, failing))
  {
    var w' := RecoveryLoop(cfg, w, failing);
    var restored := (w.db.ActiveRows() * RestorableRows(cfg, w)) - failing;
    forall g | g in w'.grants && g !in w.grants
      ensures g.tokenId in w.entitled && Near(g.deadline, w.entitled[g.tokenId])
    {
      var s :| s in restored && g == Grant(w.db.sessions[s].tokenId, w.db.sessions[s].pair, RestoreDeadline(w, s));
      RestoreNear(w, s);
    }
    forall p | p in w'.fw ensures exists g :: g in w'.grants && g.pair == p && g.deadline == w'.fw[p] {
      if p in PairsOf(w.db, restored) {
        var s := OwnerOf(w.db, restored, p);
        assert Grant(w.db.sessions[s].tokenId, p, RestoreDeadline(w, s)) in w'.grants;
      }
    }
  }

  lemma BootGrants(cfg: Config, w: World, kept: set<Pair>, failing: set<Id>)
    requires Inv(w) && TimedRestore(cfg, w, StepBoot(kept, failing))
    ensures GrantsInv(Boot(cfg, w, kept, failing))
  {
    var w1 := Surviving(w, kept);
    FewerPairs(w, w1);
    assert RestorableRows(cfg, w1) == RestorableRows(cfg, w);
    RecoveryGrants(cfg, w1, failing);
    FewerPairs(RecoveryLoop(cfg, w1, failing), Boot(cfg, w, kept, failing));
  }

  /** A row authorised with no second left puts a deadline into the firewall that is not ahead. */
  lemma UntimedRestore(cfg: Config, w: World, kept: set<Pair>, failing: set<Id>, s: Id)
    requires DbInv(w.db) && s in RestorableRows(cfg, w) && s !in failing
    requires Remaining(w.db.sessions[s].expiresAt, w.now) <= 0
    ensures !Backed(Boot(cfg, w, kept, failing))
  {
    var w1 := Surviving(w, kept);
    var restored := RestoredSet(cfg, w1, w1.db.ActiveRows(), failing);
    assert RestorableRows(cfg, w1) == RestorableRows(cfg, w);
    RestoredRow(w1, restored, s);
    assert Boot(cfg, w, kept, failing).fw == RestoredFw(w1, restored);
  }

  lemma QuietGrants(cfg: Config, w: World, step: Step)
    requires GrantsInv(w) && !step.StepAuth? && !step.StepBoot?
    ensures GrantsInv(Next(cfg, w, step))
  {
    FewerPairs(w, Next(cfg, w, step));
  }

  lemma NextGrantsInv(cfg: Config, w: World, step: Step)
    requires Inv(w) && TimedRestore(cfg, w, step)
    ensures GrantsInv(Next(cfg, w, step))
  {
    match step
    case StepAuth(t, pair, deauthOk, authOk) => AuthGrant(w, t, pair, deauthOk, authOk);
    case StepBoot(kept, failing) => BootGrants(cfg, w, kept, failing);
    case _ => QuietGrants(cfg, w, step);
  }

  lemma UntimedBreaks(cfg: Config, w: World, kept: set<Pair>, failing: set<Id>)
    requires DbInv(w.db) && !TimedRestore(cfg, w, StepBoot(kept, failing))
    ensures !GrantsInv(Boot(cfg, w, kept, failing))
  {
    var s :| s in RestorableRows(cfg, w) && s !in failing && Remaining(w.db.sessions[s].expiresAt, w.now) <= 0;
    assert !Backed(Boot(cfg, w, kept, failing)) by { UntimedRestore(cfg, w, kept, failing, s); }
  }

  lemma NextGrantsExactly(cfg: Config, w: World, step: Step)
    requires Inv(w)
    ensures GrantsInv(Next(cfg, w, step)) <==> TimedRestore(cfg, w, step)
  {
    if TimedRestore(cfg, w, step) {
      NextGrantsInv(cfg, w, step);
    } else {
      UntimedBreaks(cfg, w, step.kept, step.failing);
    }
  }

  /** One step keeps the whole invariant if and only if it restores no row without time left. */
  lemma NextKeeps(cfg: Config, w: World, step: Step)
    requires Inv(w)
    ensures Inv(Next(cfg, w, step)) <==> TimedRestore(cfg, w, step)
  {
    NextKeepsTables(cfg, w, step);
    NextGrantsExactly(cfg, w, step);
  }

  ghost predicate TimedRun(cfg: Config, w: World, steps: seq<Step>)
    decreases |steps|
  {
    steps == [] || (TimedRestore(cfg, w, steps[0]) && TimedRun(cfg, Next(cfg, w, steps[0]), steps[1..]))
  }

  /** The whole invariant at every state the run passes through. */
  ghost predicate AlwaysInv(cfg: Config, w: World, steps: seq<Step>)
    decreases |steps|
  {
    Inv(w) && (steps == [] || AlwaysInv(cfg, Next(cfg, w, steps[0]), steps[1..]))
  }

  /**
   * A run keeps the whole invariant throughout if and only if no restart in it restores a row
   * without time left, as none does with a grace that is not negative.
   */
  lemma {:induction false} RunKeeps(cfg: Config, w: World, steps: seq<Step>)
    requires Inv(w)
    ensures AlwaysInv(cfg, w, steps) <==> TimedRun(cfg, w, steps)
    ensures TimedRun(cfg, w, steps) ==> Inv(Run(cfg, w, steps))
    ensures cfg.grace >= 0 ==> TimedRun(cfg, w, steps)
    decreases |steps|
  {
    if steps != [] {
      var w1 := Next(cfg, w, steps[0]);
      NextKeeps(cfg, w, steps[0]);
      if Inv(w1) { RunKeeps(cfg, w1, steps[1..]); }
    }
  }
}
