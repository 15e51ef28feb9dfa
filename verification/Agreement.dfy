/**
 * Agreement of the session table with the firewall: whoever has paid time left is let
 * through. Each step keeps it exactly under a guard on the step, and so does each run.
 */
module Agreement {
  import opened Basics
  import opened Clock
  import opened Store
  import opened Protocol
  import opened Invariants

  /** Row `s` is let through, until less than a second from its expiry. */
  ghost predicate Served(w: World, s: Id)
    requires s in w.db.sessions
  {
    var row := w.db.sessions[s];
    row.pair in w.fw && Near(w.fw[row.pair], row.expiresAt)
  }

  ghost predicate Open(w: World, s: Id) {
    w.db.ActiveRow(s) && Remaining(w.db.sessions[s].expiresAt, w.now) >= 1
  }

  ghost predicate Agreed(w: World) {
    forall s: Id :: Open(w, s) ==> Served(w, s)
  }

  /** No other open row uses the pair of row `s`. An active row has its pair to itself. */
  ghost predicate PairUnshared(w: World, s: Id)
    requires s in w.db.sessions
  {
    forall a: Id :: Open(w, a) && a != s ==> w.db.sessions[a].pair != w.db.sessions[s].pair
  }

  /** An open row that a restart keeps active, but fails to restore, while its pair did not survive. */
  ghost predicate Abandoned(cfg: Config, w: World, kept: set<Pair>, failing: set<Id>, s: Id) {
    && Open(w, s) && Remaining(w.db.sessions[s].expiresAt, w.now) > cfg.grace
    && s in failing && w.db.sessions[s].pair !in kept
  }

  /**
   * What a step has to respect. A disconnect must not name a closed row whose pair an open
   * row uses; a restart must abandon no open row.
   */
  ghost predicate Guard(cfg: Config, w: World, step: Step) {
    match step
    case StepDisconnect(s, ok) => ok && s in w.db.sessions ==> PairUnshared(w, s)
    case StepBoot(kept, failing) =>
      forall s: Id :: !Abandoned(cfg, w, kept, failing, s)
    case _ => true
  }

  lemma ActiveIsUnshared(w: World, s: Id)
    requires DbInv(w.db) && w.db.ActiveRow(s)
    ensures PairUnshared(w, s)
  {
  }

  // ---- Steps that always keep agreement --------------------------------------------------

  lemma TickAgrees(w: World, ms: nat)
    requires Agreed(w)
    ensures Agreed(Tick(w, ms))
  {
    var w' := Tick(w, ms);
    forall s: Id | Open(w', s) ensures Served(w', s) {
      assert Open(w, s);
    }
  }

  lemma CreateSessionAgrees(w: World, t: Id, minutes: int, pair: Pair, authOk: bool)
    requires Agreed(w) && DbInv(w.db) && t in w.db.tokens
    ensures Agreed(CreateSession(w, t, minutes, pair, authOk).world)
  {
    var w' := CreateSession(w, t, minutes, pair, authOk).world;
    forall s: Id | Open(w', s) ensures Served(w', s) {
      if s != w.db.nextSession || !authOk {
        assert Open(w, s);
      }
    }
  }

  /** Closing an active row and taking out its pair concerns no other open row. */
  lemma ClosingAgrees(w: World, s: Id, deauthOk: bool)
    requires Agreed(w) && DbInv(w.db) && w.db.ActiveRow(s)
    ensures Agreed(Deauthorize(w, w.db.sessions[s].pair, deauthOk).(db := w.db.DisconnectSession(s)))
  {
    var w' := Deauthorize(w, w.db.sessions[s].pair, deauthOk).(db := w.db.DisconnectSession(s));
    forall a: Id | Open(w', a) ensures Served(w', a) {
      assert Open(w, a) && a != s;
    }
  }

  /** A session inserted for a pair that was just authorised with its remaining time. */
  lemma InsertAgrees(w: World, t: Id, pair: Pair, expiresAt: int)
    requires Agreed(w) && DbInv(w.db) && t in w.db.tokens && Remaining(expiresAt, w.now) > 0
    ensures var w1 := Authorize(w, t, pair, Remaining(expiresAt, w.now));
      Agreed(w1.(db := w1.db.InsertSession(t, pair, expiresAt, Stamp(w.now)).value))
  {
    var w1 := Authorize(w, t, pair, Remaining(expiresAt, w.now));
    var w' := w1.(db := w1.db.InsertSession(t, pair, expiresAt, Stamp(w.now)).value);
    forall s: Id | Open(w', s) ensures Served(w', s) {
      if s != w.db.nextSession { assert Open(w, s); }
    }
  }

  lemma MigrateSessionAgrees(w: World, t: Id, pair: Pair, deauthOk: bool, authOk: bool)
    requires Agreed(w) && DbInv(w.db) && t in w.db.tokens
    ensures Agreed(MigrateSession(w, t, pair, deauthOk, authOk).world)
  {
    if w.db.ActiveRowOf(t).Some? {
      var s := w.db.ActiveRowOf(t).value;
      var row := w.db.sessions[s];
      assert w.db.ActiveRow(s);
      ClosingAgrees(w, s, deauthOk);
      DisconnectKeeps(w.db, s);
      if Remaining(row.expiresAt, w.now) > 0 {
        InsertAgrees(Deauthorize(w, row.pair, deauthOk).(db := w.db.DisconnectSession(s)), t, pair, row.expiresAt);
      }
    }
  }

  lemma CleanupRoundAgrees(cfg: Config, w: World, failing: set<Id>)
    requires Agreed(w) && DbInv(w.db)
    ensures Agreed(CleanupRound(cfg, w, failing))
  {
    var w' := CleanupRound(cfg, w, failing);
    var ids := DueRows(cfg, w, false) - failing;
    forall s: Id | Open(w', s) ensures Served(w', s) {
      assert Open(w, s) && s !in ids;
      forall a | a in ids ensures w.db.sessions[a].pair != w.db.sessions[s].pair {}
    }
  }

  // ---- Steps with a guard ----------------------------------------------------------------

  lemma DisconnectAgrees(w: World, s: Id, ok: bool)
    requires Agreed(w) && DbInv(w.db)
    ensures Agreed(Disconnect(w, s, ok).world) <==> (ok && s in w.db.sessions ==> PairUnshared(w, s))
  {
    var w' := Disconnect(w, s, ok).world;
    if ok && s in w.db.sessions {
      JoinedRows(w.db);
      forall a: Id ensures Open(w', a) <==> Open(w, a) && a != s {}
      if PairUnshared(w, s) {
        forall a: Id | Open(w', a) ensures Served(w', a) {}
      } else {
        var a: Id :| Open(w, a) && a != s && w.db.sessions[a].pair == w.db.sessions[s].pair;
        assert Open(w', a) && !Served(w', a);
      }
    }
  }

  lemma BootOpen(cfg: Config, w: World, kept: set<Pair>, failing: set<Id>, s: Id)
    requires DbInv(w.db)
    ensures var w' := Boot(cfg, w, kept, failing);
      && (Open(w', s) <==> Open(w, s) && Remaining(w.db.sessions[s].expiresAt, w.now) > cfg.grace)
      && (Open(w', s) ==> w'.db.sessions[s] == w.db.sessions[s])
  {
    JoinedRows(w.db);
    BootTables(cfg, w, kept, failing);
    var ids := w.db.ActiveRows() - RestorableRows(cfg, w);
    ExpireAllRows(w.db, ids);
    assert w.db.ExpireAll(ids).ActiveRow(s) <==> w.db.ActiveRow(s) && s in RestorableRows(cfg, w);
  }

  lemma BootServed(cfg: Config, w: World, kept: set<Pair>, failing: set<Id>, s: Id)
    requires DbInv(w.db) && Agreed(w) && Open(Boot(cfg, w, kept, failing), s)
    ensures Served(Boot(cfg, w, kept, failing), s) <==> s !in failing || w.db.sessions[s].pair in kept
  {
    BootOpen(cfg, w, kept, failing, s);
    JoinedRows(w.db);
    var w1 := Surviving(w, kept);
    var restored := (w1.db.ActiveRows() * RestorableRows(cfg, w1)) - failing;
    var pair := w.db.sessions[s].pair;
    assert Boot(cfg, w, kept, failing).fw == RecoveryLoop(cfg, w1, failing).fw;
    if s !in failing {
      RestoredRow(w1, restored, s);
    } else {
      forall a | a in restored ensures w.db.sessions[a].pair != pair {
        assert w.db.ActiveRow(a) && w.db.ActiveRow(s);
      }
      assert pair !in PairsOf(w.db, restored);
      assert Open(w, s);
    }
  }

  lemma BootAbandons(cfg: Config, w: World, kept: set<Pair>, failing: set<Id>, s: Id)
    requires DbInv(w.db) && Agreed(w)
    ensures var w' := Boot(cfg, w, kept, failing);
      Abandoned(cfg, w, kept, failing, s) <==> Open(w', s) && !Served(w', s)
  {
    BootOpen(cfg, w, kept, failing, s);
    if Open(Boot(cfg, w, kept, failing), s) { BootServed(cfg, w, kept, failing, s); }
  }

  lemma BootAgrees(cfg: Config, w: World, kept: set<Pair>, failing: set<Id>)
    requires DbInv(w.db) && Agreed(w)
    ensures Agreed(Boot(cfg, w, kept, failing)) <==> Guard(cfg, w, StepBoot(kept, failing))
  {
    var w' := Boot(cfg, w, kept, failing);
    forall s: Id ensures Abandoned(cfg, w, kept, failing, s) <==> Open(w', s) && !Served(w', s) {
      BootAbandons(cfg, w, kept, failing, s);
    }
  }

  // ---- Runs ------------------------------------------------------------------------------

  lemma AuthAgrees(w: World, t: Id, pair: Pair, deauthOk: bool, authOk: bool)
    requires DbInv(w.db) && Agreed(w)
    ensures Agreed(PortalAuth(w, t, pair, deauthOk, authOk).world)
  {
    if w.db.Joined(t) {
      CreateSessionAgrees(w, t, w.db.plans[w.db.tokens[t].planId].durationMinutes, pair, authOk);
      MigrateSessionAgrees(w, t, pair, deauthOk, authOk);
    }
  }

  /**
   * From agreement one step leads to agreement if and only if it respects its guard: only a
   * disconnect of a closed row and a failed restore can lock out a client with time left.
   */
  lemma NextAgrees(cfg: Config, w: World, step: Step)
    requires DbInv(w.db) && Agreed(w)
    ensures Agreed(Next(cfg, w, step)) <==> Guard(cfg, w, step)
  {
    match step
    case StepTick(ms) => TickAgrees(w, ms);
    case StepAuth(t, pair, deauthOk, authOk) => AuthAgrees(w, t, pair, deauthOk, authOk);
    case StepDisconnect(s, ok) => DisconnectAgrees(w, s, ok);
    case StepCleanup(failing) => CleanupRoundAgrees(cfg, w, failing);
    case StepBoot(kept, failing) => BootAgrees(cfg, w, kept, failing);
    case _ => AdminAgrees(cfg, w, step);
  }

  lemma AdminAgrees(cfg: Config, w: World, step: Step)
    requires Agreed(w) && IsAdmin(step)
    ensures Agreed(Next(cfg, w, step))
  {
    SameRowsAgree(w, Next(cfg, w, step));
  }

  lemma SameRowsAgree(w: World, w': World)
    requires Agreed(w) && w'.db.sessions == w.db.sessions && w'.fw == w.fw && w'.now == w.now
    ensures Agreed(w')
  {
    forall s: Id | Open(w', s) ensures Served(w', s) {
      assert Open(w, s);
    }
  }

  ghost predicate GuardedRun(cfg: Config, w: World, steps: seq<Step>)
    decreases |steps|
  {
    steps == [] || (Guard(cfg, w, steps[0]) && GuardedRun(cfg, Next(cfg, w, steps[0]), steps[1..]))
  }

  /** Agreement at every state the run passes through. */
  ghost predicate AlwaysAgreed(cfg: Config, w: World, steps: seq<Step>)
    decreases |steps|
  {
    Agreed(w) && (steps == [] || AlwaysAgreed(cfg, Next(cfg, w, steps[0]), steps[1..]))
  }

  /** A run stays in agreement throughout if and only if every step respects its guard. */
  lemma {:induction false} RunAgrees(cfg: Config, w: World, steps: seq<Step>)
    requires DbInv(w.db) && Agreed(w)
    ensures AlwaysAgreed(cfg, w, steps) <==> GuardedRun(cfg, w, steps)
    ensures GuardedRun(cfg, w, steps) ==> Agreed(Run(cfg, w, steps))
    decreases |steps|
  {
    if steps != [] {
      var w1 := Next(cfg, w, steps[0]);
      NextAgrees(cfg, w, steps[0]);
      NextKeepsDb(cfg, w, steps[0]);
      if Agreed(w1) { RunAgrees(cfg, w1, steps[1..]); }
    }
  }

  /**
   * Every run from an empty installation in which disconnects name active rows and restores
   * succeed ends in agreement, whichever other firewall calls fail.
   */
  lemma CarefulRunAgrees(cfg: Config, start: nat, steps: seq<Step>)
    requires CarefulRun(cfg, Init(start), steps)
    ensures Agreed(Run(cfg, Init(start), steps))
  {
    CarefulIsGuarded(cfg, Init(start), steps);
    RunAgrees(cfg, Init(start), steps);
  }

  ghost predicate CarefulRun(cfg: Config, w: World, steps: seq<Step>)
    decreases |steps|
  {
    steps == [] ||
    (&& (steps[0].StepDisconnect? ==> w.db.ActiveRow(steps[0].sessionId))
     && (steps[0].StepBoot? ==> steps[0].failing == {})
     && CarefulRun(cfg, Next(cfg, w, steps[0]), steps[1..]))
  }

  lemma {:induction false} CarefulIsGuarded(cfg: Config, w: World, steps: seq<Step>)
    requires DbInv(w.db) && CarefulRun(cfg, w, steps)
    ensures GuardedRun(cfg, w, steps)
    decreases |steps|
  {
    if steps != [] {
      if steps[0].StepDisconnect? { ActiveIsUnshared(w, steps[0].sessionId); }
      NextKeepsDb(cfg, w, steps[0]);
      CarefulIsGuarded(cfg, Next(cfg, w, steps[0]), steps[1..]);
    }
  }
}
