/**
 * Consequences over whole runs: paid time never grows, a status never moves backwards, and
 * exactly which tokens can still bring a client online.
 */
module Entitlement {
  import opened Basics
  import opened Clock
  import opened Store
  import opened Protocol
  import opened Invariants
  import opened Evolution

  // ---- Entitlement ---------------------------------------------------------------------

  /** An empty installation satisfies the invariant, so every run from it does. */
  lemma ReachableInv(cfg: Config, start: nat, steps: seq<Step>)
    ensures TablesInv(Run(cfg, Init(start), steps))
    ensures cfg.grace >= 0 ==> Inv(Run(cfg, Init(start), steps))
  {
    RunKeepsTables(cfg, Init(start), steps);
    if cfg.grace >= 0 { RunKeeps(cfg, Init(start), steps); }
  }

  /** Time, grants and entitlements only grow. */
  ghost predicate HistoryGrows(w1: World, w2: World) {
    && w1.now <= w2.now
    && w1.grants <= w2.grants
    && (forall t :: t in w1.entitled ==> t in w2.entitled && w2.entitled[t] == w1.entitled[t])
  }

  lemma AuthExtends(w: World, t: Id, pair: Pair, deauthOk: bool, authOk: bool)
    ensures HistoryGrows(w, PortalAuth(w, t, pair, deauthOk, authOk).world)
  {
  }

  lemma NextExtends(cfg: Config, w: World, step: Step)
    ensures HistoryGrows(w, Next(cfg, w, step))
  {
    match step
    case StepAuth(t, pair, deauthOk, authOk) => AuthExtends(w, t, pair, deauthOk, authOk);
    case _ =>
  }

  lemma {:induction false} RunExtends(cfg: Config, w: World, steps: seq<Step>)
    ensures HistoryGrows(w, Run(cfg, w, steps))
    decreases |steps|
  {
    if steps != [] {
      NextExtends(cfg, w, steps[0]);
      RunExtends(cfg, Next(cfg, w, steps[0]), steps[1..]);
    }
  }

  /**
   * Paid time never grows. Take any state of a run and any later one: a token entitled in
   * the first keeps that expiry in the second, on the token and on every row, and, the grace
   * not being negative, every deadline granted for it up to then lies strictly within one
   * second of that expiry.
   */
  lemma EntitlementNeverGrows(cfg: Config, w: World, steps: seq<Step>, t: Id)
    requires TablesInv(w) && t in w.entitled
    ensures var w' := Run(cfg, w, steps);
      && (t in w'.db.tokens ==> w'.db.tokens[t].expiresAt == Some(w.entitled[t]))
      && (forall s :: s in w'.db.sessions && w'.db.sessions[s].tokenId == t ==>
            w'.db.sessions[s].expiresAt == w.entitled[t])
      && (GrantsInv(w) && cfg.grace >= 0 ==>
            forall g :: g in w'.grants && g.tokenId == t ==> Near(g.deadline, w.entitled[t]))
  {
    var w' := Run(cfg, w, steps);
    RunKeepsTables(cfg, w, steps);
    RunExtends(cfg, w, steps);
    forall s | s in w'.db.sessions && w'.db.sessions[s].tokenId == t
      ensures w'.db.sessions[s].expiresAt == w.entitled[t]
    {
      assert w'.db.sessions[s].tokenId in w'.db.tokens;
    }
    if GrantsInv(w) && cfg.grace >= 0 { RunKeeps(cfg, w, steps); }
  }

  /** The pair is in the firewall for a token whose paid time is not over by a second or more. */
  ghost predicate PaidFor(w: World, p: Pair, t: Id) {
    && p in w.fw && t in w.entitled
    && w.now < w.fw[p] < MS * (w.entitled[t] + 1)
    && (exists g :: g in w.grants && g.tokenId == t && g.pair == p)
    && (t in w.db.tokens ==>
          && w.db.tokens[t].redeemedAt.Some?
          && w.fw[p] < MS * (w.db.tokens[t].redeemedAt.value + SECONDS_PER_DAY + 1))
  }

  ghost predicate AllPaidFor(w: World) {
    forall p :: p in w.fw ==> exists t: Id :: PaidFor(w, p, t)
  }

  /**
   * Nobody is let through unpaid: each pair in the firewall traces back to an authorise call
   * for a token, and less than a second after that token's expiry it is gone. While the token
   * exists that is at most a day and a second after redemption.
   */
  lemma FirewallIsPaidFor(w: World)
    requires Inv(w)
    ensures AllPaidFor(w)
  {
    forall p | p in w.fw ensures exists t: Id :: PaidFor(w, p, t) {
      var g :| g in w.grants && g.pair == p && g.deadline == w.fw[p];
      assert PaidFor(w, p, g.tokenId);
    }
  }

  // ---- Status ---------------------------------------------------------------------------

  /** The statuses a token may have some time after it had status `a`. */
  predicate Reaches(a: TokenStatus, b: TokenStatus) {
    || a == b
    || (a == TokenStatus.Unused && b != TokenStatus.Unused)
    || (a == TokenStatus.Active && b == TokenStatus.Expired)
  }

  predicate Moves(a: TokenStatus, b: TokenStatus) {
    || a == b
    || (a == TokenStatus.Unused && b in {TokenStatus.Active, TokenStatus.Revoked})
    || (a == TokenStatus.Active && b == TokenStatus.Expired)
  }

  /** The token's status moved by at most one arrow, or the token is gone with all its rows. */
  ghost predicate TokenMoves(db1: Db, db2: Db, t: Id)
    requires t in db1.tokens
  {
    if t in db2.tokens then Moves(db1.tokens[t].status, db2.tokens[t].status)
    else db1.tokens[t].status != TokenStatus.Unused && !db2.Referenced(t)
  }

  lemma AuthMoves(w: World, u: Id, pair: Pair, deauthOk: bool, authOk: bool, t: Id)
    requires DbInv(w.db) && t in w.db.tokens
    ensures TokenMoves(w.db, PortalAuth(w, u, pair, deauthOk, authOk).world.db, t)
  {
    if w.db.Joined(u) && w.db.tokens[u].status == TokenStatus.Active {
      MigrateSessionKeepsDb(w, u, pair, deauthOk, authOk);
    }
  }

  lemma ExpireMoves(db: Db, ids: set<Id>, cutoff: int, t: Id)
    requires DbInv(db) && t in db.tokens && forall s :: s in ids ==> db.ActiveRow(s)
    ensures TokenMoves(db, db.ExpireAll(ids), t) && TokenMoves(db, db.ExpireAll(ids).Purge(cutoff), t)
  {
    ExpireAllTokens(db, ids);
  }

  lemma QuietMoves(cfg: Config, w: World, step: Step, t: Id)
    requires DbInv(w.db) && t in w.db.tokens && !step.StepAuth? && !step.StepCleanup? && !step.StepBoot?
    ensures TokenMoves(w.db, Next(cfg, w, step).db, t)
  {
  }

  /**
   * One step moves a status by at most one arrow, and removes a token only when no row refers
   * to it and it is not unused. (One step can both expire a token and purge it.)
   */
  lemma NextMoves(cfg: Config, w: World, step: Step, t: Id)
    requires DbInv(w.db) && t in w.db.tokens
    ensures TokenMoves(w.db, Next(cfg, w, step).db, t)
  {
    match step
    case StepAuth(u, pair, deauthOk, authOk) => AuthMoves(w, u, pair, deauthOk, authOk, t);
    case StepCleanup(failing) =>
      ExpireMoves(w.db, DueRows(cfg, w, false) - failing, Cutoff(cfg, w.now), t);
    case StepBoot(kept, failing) =>
      BootTables(cfg, w, kept, failing);
      ExpireMoves(w.db, w.db.ActiveRows() - RestorableRows(cfg, w), Cutoff(cfg, w.now), t);
    case _ => QuietMoves(cfg, w, step, t);
  }

  /** Removed token ids are never used again. */
  lemma {:induction false} RemovedForever(cfg: Config, w: World, steps: seq<Step>, t: Id)
    requires DbInv(w.db) && t < w.db.nextToken && t !in w.db.tokens
    ensures t !in Run(cfg, w, steps).db.tokens
    decreases |steps|
  {
    if steps != [] {
      NextTokens(cfg, w, steps[0], t);
      NextKeepsDb(cfg, w, steps[0]);
      RemovedForever(cfg, Next(cfg, w, steps[0]), steps[1..], t);
    }
  }

  /** Over a whole run a status only moves Unused, Active, Expired or Unused, Revoked. */
  lemma {:induction false} StatusNeverReturns(cfg: Config, w: World, steps: seq<Step>, t: Id)
    requires DbInv(w.db) && t in w.db.tokens
    ensures var db' := Run(cfg, w, steps).db;
      t in db'.tokens ==> Reaches(w.db.tokens[t].status, db'.tokens[t].status)
    decreases |steps|
  {
    if steps != [] {
      var w1 := Next(cfg, w, steps[0]);
      NextMoves(cfg, w, steps[0], t);
      NextKeepsDb(cfg, w, steps[0]);
      NextTokens(cfg, w, steps[0], t);
      if t in w1.db.tokens {
        StatusNeverReturns(cfg, w1, steps[1..], t);
      } else {
        RemovedForever(cfg, w1, steps[1..], t);
      }
    }
  }

  // ---- Which tokens can still connect ----------------------------------------------------

  /** `w2` has a row of the token that `w1` did not have yet. */
  ghost predicate NewRow(w1: World, w2: World, t: Id) {
    exists s :: s in w2.db.sessions && w2.db.sessions[s].tokenId == t && s >= w1.db.nextSession
  }

  ghost predicate NewGrant(w1: World, w2: World, t: Id) {
    exists g :: g in w2.grants && g.tokenId == t && g !in w1.grants
  }

  lemma SpentStep(cfg: Config, w: World, step: Step, t: Id)
    requires DbInv(w.db) && t < w.db.nextToken && !Usable(w, t)
    ensures !Usable(Next(cfg, w, step), t) && !NewRow(w, Next(cfg, w, step), t)
  {
    if step.StepAuth? && step.tokenId == t {
      UnusableAuth(w, t, step.pair, step.deauthOk, step.authOk);
    } else {
      var w' := Next(cfg, w, step);
      NextRows(cfg, w, step);
      NextTokens(cfg, w, step, t);
      NextExtends(cfg, w, step);
      forall s: Id | OpenRow(w', t, s) ensures OpenRow(w, t, s) {
        assert s in w'.db.sessions;
      }
    }
  }

  lemma {:induction false} SpentRun(cfg: Config, w: World, steps: seq<Step>, t: Id)
    requires DbInv(w.db) && t < w.db.nextToken && !Usable(w, t)
    ensures !Usable(Run(cfg, w, steps), t) && !NewRow(w, Run(cfg, w, steps), t)
    decreases |steps|
  {
    if steps != [] {
      var w1 := Next(cfg, w, steps[0]);
      SpentStep(cfg, w, steps[0], t);
      NextKeepsDb(cfg, w, steps[0]);
      NextTokens(cfg, w, steps[0], t);
      SpentRun(cfg, w1, steps[1..], t);
      RunRows(cfg, w1, steps[1..]);
      var w' := Run(cfg, w, steps);
      assert w' == Run(cfg, w1, steps[1..]);
      NextRows(cfg, w, steps[0]);
      forall s | s in w'.db.sessions && w'.db.sessions[s].tokenId == t ensures s < w.db.nextSession {
        assert s < w1.db.nextSession;
        assert s in w1.db.sessions && w1.db.sessions[s].tokenId == t;
      }
    }
  }

  /** Rows never change their token during a run, and old ids are not filled again. */
  lemma {:induction false} RunRows(cfg: Config, w: World, steps: seq<Step>)
    requires DbInv(w.db)
    ensures var db' := Run(cfg, w, steps).db;
      forall s :: s in db'.sessions && s < w.db.nextSession ==>
        && s in w.db.sessions
        && db'.sessions[s].(status := w.db.sessions[s].status) == w.db.sessions[s]
        && (db'.ActiveRow(s) ==> w.db.ActiveRow(s))
    decreases |steps|
  {
    if steps != [] {
      NextRows(cfg, w, steps[0]);
      NextKeepsDb(cfg, w, steps[0]);
      RunRows(cfg, Next(cfg, w, steps[0]), steps[1..]);
    }
  }

  /** The token was used, and none of its rows is active. */
  ghost predicate Finished(w: World, t: Id) {
    && t < w.db.nextToken
    && (t in w.db.tokens ==> w.db.tokens[t].status != TokenStatus.Unused)
    && (forall s: Id :: w.db.ActiveRow(s) ==> w.db.sessions[s].tokenId != t)
  }

  lemma FinishedStep(cfg: Config, w: World, step: Step, t: Id)
    requires DbInv(w.db) && Finished(w, t)
    ensures Finished(Next(cfg, w, step), t) && !NewGrant(w, Next(cfg, w, step), t)
  {
    var w' := Next(cfg, w, step);
    NextTokens(cfg, w, step, t);
    if step.StepAuth? && step.tokenId == t {
      UnusableAuth(w, t, step.pair, step.deauthOk, step.authOk);
    } else {
      NextRows(cfg, w, step);
      forall s: Id | w'.db.ActiveRow(s) ensures w'.db.sessions[s].tokenId != t {
        assert s in w'.db.sessions;
      }
      forall g | g in w'.grants && g !in w.grants ensures g.tokenId != t {
        NextGrants(cfg, w, step, g);
      }
    }
  }

  /** The authorise calls that succeed in one step: what it grants to an empty history. */
  ghost function Authorised(cfg: Config, w: World, step: Step): set<Grant> {
    Next(cfg, w.(grants := {}), step).grants
  }

  lemma CreateAuthorised(w: World, t: Id, minutes: int, pair: Pair, authOk: bool)
    ensures CreateSession(w, t, minutes, pair, authOk).world.grants
         == w.grants + CreateSession(w.(grants := {}), t, minutes, pair, authOk).world.grants
  {
  }

  lemma MigrateAuthorised(w: World, t: Id, pair: Pair, deauthOk: bool, authOk: bool)
    ensures MigrateSession(w, t, pair, deauthOk, authOk).world.grants
         == w.grants + MigrateSession(w.(grants := {}), t, pair, deauthOk, authOk).world.grants
  {
  }

  lemma AuthAuthorised(w: World, t: Id, pair: Pair, deauthOk: bool, authOk: bool)
    ensures PortalAuth(w, t, pair, deauthOk, authOk).world.grants
         == w.grants + PortalAuth(w.(grants := {}), t, pair, deauthOk, authOk).world.grants
  {
    if w.db.Joined(t) {
      CreateAuthorised(w, t, w.db.plans[w.db.tokens[t].planId].durationMinutes, pair, authOk);
      MigrateAuthorised(w, t, pair, deauthOk, authOk);
    }
  }

  lemma BootAuthorised(cfg: Config, w: World, kept: set<Pair>, failing: set<Id>)
    ensures Boot(cfg, w, kept, failing).grants == w.grants + Boot(cfg, w.(grants := {}), kept, failing).grants
  {
    var w1 := Surviving(w, kept);
    var w2 := Surviving(w.(grants := {}), kept);
    assert RestoredSet(cfg, w1, w1.db.ActiveRows(), failing) == RestoredSet(cfg, w2, w2.db.ActiveRows(), failing);
    var restored := RestoredSet(cfg, w1, w1.db.ActiveRows(), failing);
    forall s | s in restored && s in w1.db.sessions ensures RestoreDeadline(w1, s) == RestoreDeadline(w2, s) {}
    assert RestoreGrants(w1, restored) == RestoreGrants(w2, restored);
  }

  /** The history of grants collects the authorise calls of every step. */
  lemma GrantsAreAuthorised(cfg: Config, w: World, step: Step)
    ensures Next(cfg, w, step).grants == w.grants + Authorised(cfg, w, step)
  {
    match step
    case StepAuth(t, pair, deauthOk, authOk) => AuthAuthorised(w, t, pair, deauthOk, authOk);
    case StepBoot(kept, failing) => BootAuthorised(cfg, w, kept, failing);
    case _ =>
  }

  /** No step of the run makes an authorise call for the token, not even one that was made before. */
  ghost predicate NeverAuthorised(cfg: Config, w: World, steps: seq<Step>, t: Id)
    decreases |steps|
  {
    steps == [] ||
    (&& (forall g :: g in Authorised(cfg, w, steps[0]) ==> g.tokenId != t)
     && NeverAuthorised(cfg, Next(cfg, w, steps[0]), steps[1..], t))
  }

  /** The token never gets a row or an authorise call on the run, and ends it finished. */
  ghost predicate OverFor(cfg: Config, w: World, steps: seq<Step>, t: Id) {
    && !NewRow(w, Run(cfg, w, steps), t)
    && !NewGrant(w, Run(cfg, w, steps), t)
    && NeverAuthorised(cfg, w, steps, t)
    && Finished(Run(cfg, w, steps), t)
  }

  lemma FinishedUnauthorised(cfg: Config, w: World, step: Step, t: Id)
    requires DbInv(w.db) && Finished(w, t)
    ensures forall g :: g in Authorised(cfg, w, step) ==> g.tokenId != t
  {
    FinishedStep(cfg, w.(grants := {}), step, t);
  }

  lemma {:induction false} FinishedRun(cfg: Config, w: World, steps: seq<Step>, t: Id)
    requires DbInv(w.db) && Finished(w, t)
    ensures OverFor(cfg, w, steps, t)
    decreases |steps|
  {
    SpentRun(cfg, w, steps, t);
    if steps != [] {
      FinishedStep(cfg, w, steps[0], t);
      FinishedUnauthorised(cfg, w, steps[0], t);
      NextKeepsDb(cfg, w, steps[0]);
      FinishedRun(cfg, Next(cfg, w, steps[0]), steps[1..], t);
    }
  }

  /** A usable token comes back with a single submission while the firewall answers. */
  lemma UsableConnects(cfg: Config, w: World, t: Id, pair: Pair)
    requires DbInv(w.db) && Usable(w, t)
    ensures NewRow(w, Next(cfg, w, StepAuth(t, pair, true, true)), t)
  {
    var w' := Next(cfg, w, StepAuth(t, pair, true, true));
    JoinedRows(w.db);
    if w.db.tokens[t].status != TokenStatus.Unused {
      var s: Id :| OpenRow(w, t, s);
      TheActiveRow(w.db, s);
    }
    assert w'.db.sessions[w.db.nextSession].tokenId == t;
  }

  lemma RunOne(cfg: Config, w: World, step: Step)
    ensures Run(cfg, w, [step]) == Next(cfg, w, step)
  {
    assert Run(cfg, Next(cfg, w, step), []) == Next(cfg, w, step);
  }

  ghost predicate CanReturn(cfg: Config, w: World, t: Id) {
    exists steps :: NewRow(w, Run(cfg, w, steps), t)
  }

  lemma UsableCanReturn(cfg: Config, w: World, t: Id)
    requires DbInv(w.db) && Usable(w, t)
    ensures CanReturn(cfg, w, t)
  {
    var step := StepAuth(t, Pair("", ""), true, true);
    UsableConnects(cfg, w, t, Pair("", ""));
    RunOne(cfg, w, step);
    assert NewRow(w, Run(cfg, w, [step]), t);
  }

  /**
   * Exactly the usable tokens can connect again: some continuation of the run inserts a row
   * for a token if and only if it is unused, or has an active row with a second left.
   */
  lemma WhoCanReturn(cfg: Config, w: World, t: Id)
    requires DbInv(w.db) && t < w.db.nextToken
    ensures Usable(w, t) <==> CanReturn(cfg, w, t)
  {
    if Usable(w, t) {
      UsableCanReturn(cfg, w, t);
    } else {
      forall steps: seq<Step> ensures !NewRow(w, Run(cfg, w, steps), t) {
        SpentRun(cfg, w, steps, t);
      }
    }
  }

  /** Closing the active row of a token finishes the token. */
  lemma ClosingFinishes(w: World, s: Id, w1: World)
    requires DbInv(w.db) && w.db.ActiveRow(s) && w1.db == w.db.DisconnectSession(s)
    ensures DbInv(w1.db) && Finished(w1, w.db.sessions[s].tokenId)
  {
    DisconnectKeeps(w.db, s);
    forall a: Id | w1.db.ActiveRow(a) ensures w1.db.sessions[a].tokenId != w.db.sessions[s].tokenId {
      assert w.db.ActiveRow(a) && a != s;
    }
  }

  /**
   * Disconnecting the active row of a token is final: no continuation inserts a row or makes
   * an authorise call for it, at any of its steps.
   */
  lemma DisconnectIsFinal(cfg: Config, w: World, s: Id, steps: seq<Step>)
    requires DbInv(w.db) && w.db.ActiveRow(s)
    ensures var w1 := Disconnect(w, s, true).world;
            var t := w.db.sessions[s].tokenId;
      OverFor(cfg, w1, steps, t)
  {
    var w1 := Disconnect(w, s, true).world;
    JoinedRows(w.db);
    ClosingFinishes(w, s, w1);
    FinishedRun(cfg, w1, steps, w.db.sessions[s].tokenId);
  }

  lemma FailedMigration(w: World, t: Id, pair: Pair, deauthOk: bool, s: Id)
    requires DbInv(w.db) && OpenRow(w, t, s)
    ensures var h := PortalAuth(w, t, pair, deauthOk, false);
      h.outcome == FirewallFailed && h.world.db == w.db.DisconnectSession(s)
  {
    JoinedRows(w.db);
    TheActiveRow(w.db, s);
  }

  /**
   * A migration whose authorise call fails is just as final: the old row is already closed,
   * so the time left on the token is lost.
   */
  lemma FailedMigrationIsFinal(cfg: Config, w: World, t: Id, pair: Pair, deauthOk: bool, steps: seq<Step>)
    requires DbInv(w.db) && Usable(w, t) && w.db.tokens[t].status != TokenStatus.Unused
    ensures var h := PortalAuth(w, t, pair, deauthOk, false);
      h.outcome == FirewallFailed && OverFor(cfg, h.world, steps, t)
  {
    var w1 := PortalAuth(w, t, pair, deauthOk, false).world;
    var s: Id :| OpenRow(w, t, s);
    FailedMigration(w, t, pair, deauthOk, s);
    ClosingFinishes(w, s, w1);
    FinishedRun(cfg, w1, steps, t);
  }

  /** By contrast, a first redemption whose authorise call fails changes nothing at all. */
  lemma FailedRedemptionCostsNothing(w: World, t: Id, pair: Pair, deauthOk: bool)
    requires w.db.Joined(t) && w.db.tokens[t].status == TokenStatus.Unused
    ensures PortalAuth(w, t, pair, deauthOk, false) == Handled(w, FirewallFailed)
  {
  }

  /**
   * What a failed authorise call costs: some continuation still opens a session for the token
   * if and only if the call was for its first redemption.
   */
  lemma FailedAuthoriseCosts(cfg: Config, w: World, t: Id, pair: Pair, deauthOk: bool)
    requires DbInv(w.db) && Usable(w, t)
    ensures var h := PortalAuth(w, t, pair, deauthOk, false);
      && h.outcome == FirewallFailed
      && (CanReturn(cfg, h.world, t) <==> w.db.tokens[t].status == TokenStatus.Unused)
  {
    if w.db.tokens[t].status == TokenStatus.Unused {
      FailedRedemptionCostsNothing(w, t, pair, deauthOk);
      UsableCanReturn(cfg, w, t);
    } else {
      var w1 := PortalAuth(w, t, pair, deauthOk, false).world;
      FailedMigrationIsFinal(cfg, w, t, pair, deauthOk, []);
      forall steps: seq<Step> ensures !NewRow(w1, Run(cfg, w1, steps), t) {
        FailedMigrationIsFinal(cfg, w, t, pair, deauthOk, steps);
      }
    }
  }

  // ---- The administrator's tokens --------------------------------------------------------------

  /** Time only passes; the firewall drops exactly the pairs whose deadline has come. */
  lemma TickMeans(cfg: Config, w: World, ms: nat)
    ensures var w' := Next(cfg, w, StepTick(ms));
      && w' == w.(now := w.now + ms, fw := w'.fw)
      && (forall p :: p in w'.fw <==> p in w.fw && w.fw[p] > w.now + ms)
      && (forall p :: p in w'.fw ==> w'.fw[p] == w.fw[p])
  {
  }

  /**
   * Saving a plan within the bounds of 1 to 1440 minutes stores it, under its id or the next
   * one, and changes no other plan, no token, row or expiry; any other input changes nothing.
   */
  lemma SaveMeans(cfg: Config, w: World, p: Id, minutes: int, price: int)
    ensures var w' := Next(cfg, w, StepSavePlan(p, minutes, price));
            var id := if p in w.db.plans then p else w.db.nextPlan;
      if 1 <= minutes <= 1440 && price >= 0 then
        && w' == w.(db := w.db.(plans := w.db.plans[id := Plan(minutes, price)], nextPlan := w'.db.nextPlan))
        && w'.db.nextPlan == (if p in w.db.plans then w.db.nextPlan else w.db.nextPlan + 1)
      else w' == w
  {
  }

  /** A new token gets an id never used before, and can connect; one of a missing plan is not stored. */
  lemma CreatedIsUsable(cfg: Config, w: World, p: Id)
    requires DbInv(w.db)
    ensures p !in w.db.plans ==> Next(cfg, w, StepCreateToken(p)) == w
    ensures p in w.db.plans ==>
      var w' := Next(cfg, w, StepCreateToken(p));
      && w.db.nextToken !in w.db.tokens
      && w'.db.Joined(w.db.nextToken) && w'.db.tokens[w.db.nextToken].planId == p
      && Usable(w', w.db.nextToken) && CanReturn(cfg, w', w.db.nextToken)
      && forall t :: t in w.db.tokens ==> t in w'.db.tokens && w'.db.tokens[t] == w.db.tokens[t]
  {
    if p in w.db.plans {
      var w' := Next(cfg, w, StepCreateToken(p));
      NextKeepsDb(cfg, w, StepCreateToken(p));
      UsableCanReturn(cfg, w', w.db.nextToken);
    }
  }

  /**
   * Revoking an unused token ends it for every continuation and touches nothing else; revoking
   * any other token does nothing.
   */
  lemma RevokeIsFinal(cfg: Config, w: World, t: Id, steps: seq<Step>)
    requires DbInv(w.db)
    ensures var w' := Next(cfg, w, StepRevoke(t));
      if t in w.db.tokens && w.db.tokens[t].status == TokenStatus.Unused then
        && w' == w.(db := w.db.(tokens := w.db.tokens[t := w.db.tokens[t].(status := TokenStatus.Revoked)]))
        && OverFor(cfg, w', steps, t)
      else w' == w
  {
    var w' := Next(cfg, w, StepRevoke(t));
    if t in w.db.tokens && w.db.tokens[t].status == TokenStatus.Unused {
      RevokeKeeps(w.db, t);
      forall s: Id | w'.db.ActiveRow(s) ensures w'.db.sessions[s].tokenId != t {
        assert w.db.sessions[s].tokenId in w.db.tokens;
      }
      FinishedRun(cfg, w', steps, t);
    }
  }
}
