/**
 * The two granularities agree: a handler that no other one interrupts, run call by call, leaves
 * the tables and the firewall as the handler taken as one step does.
 */
module Granularity {
  import opened Basics
  import opened Clock
  import opened Store
  import opened Protocol
  import opened Invariants
  import opened Recovery
  import I = Interleaving

  /** So many calls of one thread, each answered as `ok` says. */
  function Alone(sys: I.System, thread: I.Thread, grace: int, order: seq<Id>, ok: I.Thread -> bool, calls: nat)
    : I.Advance
    decreases calls
  {
    if calls == 0 then I.Advance(sys, thread)
    else
      var next := I.Proceed(sys, thread, grace, order, ok(thread));
      Alone(next.sys, next.thread, grace, order, ok, calls - 1)
  }

  predicate Matches(sys: I.System, w: World) {
    sys.db == w.db && sys.fw == w.fw && sys.now == w.now
  }

  /** The thread has returned, in a system that looks like `w`. */
  predicate Ends(end: I.Advance, w: World) {
    end.thread.Finished? && Matches(end.sys, w)
  }

  lemma {:induction false} FinishedStays(
      sys: I.System, grace: int, order: seq<Id>, ok: I.Thread -> bool, calls: nat)
    ensures Alone(sys, I.Finished, grace, order, ok, calls) == I.Advance(sys, I.Finished)
  {
    if calls > 0 { FinishedStays(sys, grace, order, ok, calls - 1); }
  }

  // ---- Requests --------------------------------------------------------------------------------

  /** Firewall calls answer as given, and writes succeed. */
  function Answers(deauthOk: bool, authOk: bool): I.Thread -> bool {
    (thread: I.Thread) =>
      if thread.CreateAuthorize? || thread.MigrateAuthorize? then authOk
      else if thread.MigrateDeauthorize? || thread.DisconnectDeauthorize? then deauthOk
      else true
  }

  /** One call of the thread. */
  lemma OneCall(
      sys: I.System, thread: I.Thread, grace: int, order: seq<Id>, ok: I.Thread -> bool, calls: nat, next: I.Advance)
    requires calls > 0 && next == I.Proceed(sys, thread, grace, order, ok(thread))
    ensures Alone(sys, thread, grace, order, ok, calls) == Alone(next.sys, next.thread, grace, order, ok, calls - 1)
  {
  }

  lemma InsertAlone(
      sys: I.System, grace: int, order: seq<Id>, ok: I.Thread -> bool, t: Id, pair: Pair, expiresAt: int, calls: nat)
    requires calls >= 2 && ok(I.CreateInsert(t, pair, expiresAt)) && ok(I.CreateRedeem(t, expiresAt))
    ensures var end := Alone(sys, I.CreateInsert(t, pair, expiresAt), grace, order, ok, calls);
            var stamp := Stamp(sys.now);
      && end.thread.Finished? && end.sys.fw == sys.fw && end.sys.now == sys.now
      && end.sys.db == if t !in sys.db.tokens then sys.db
                       else sys.db.InsertSession(t, pair, expiresAt, stamp).value.RedeemToken(t, expiresAt, stamp)
  {
    var a := I.Proceed(sys, I.CreateInsert(t, pair, expiresAt), grace, order, true);
    OneCall(sys, I.CreateInsert(t, pair, expiresAt), grace, order, ok, calls, a);
    if t !in sys.db.tokens {
      FinishedStays(sys, grace, order, ok, calls - 1);
    } else {
      var b := I.Proceed(a.sys, a.thread, grace, order, true);
      OneCall(a.sys, a.thread, grace, order, ok, calls - 1, b);
      FinishedStays(b.sys, grace, order, ok, calls - 2);
    }
  }

  lemma CreateAlone(
      sys: I.System, w: World, grace: int, order: seq<Id>, t: Id, minutes: int, pair: Pair, deauthOk: bool,
      authOk: bool, calls: nat)
    requires Matches(sys, w) && calls >= 3
    ensures var thread := I.CreateAuthorize(t, pair, minutes, (w.now + minutes * 60 * MS) / MS);
      Ends(Alone(sys, thread, grace, order, Answers(deauthOk, authOk), calls),
           CreateSession(w, t, minutes, pair, authOk).world)
  {
    var ok := Answers(deauthOk, authOk);
    var expiresAt := (w.now + minutes * 60 * MS) / MS;
    var thread := I.CreateAuthorize(t, pair, minutes, expiresAt);
    var a := I.Proceed(sys, thread, grace, order, authOk);
    OneCall(sys, thread, grace, order, ok, calls, a);
    if authOk {
      InsertAlone(a.sys, grace, order, ok, t, pair, expiresAt, calls - 1);
    } else {
      FinishedStays(sys, grace, order, ok, calls - 1);
    }
  }

  /** From closing the old row on. */
  lemma CloseAlone(
      sys: I.System, grace: int, order: seq<Id>, t: Id, pair: Pair, s: Id, row: Session, remaining: int, deauthOk: bool,
      authOk: bool, calls: nat)
    requires calls >= 3
    ensures var ok := Answers(deauthOk, authOk);
            var end := Alone(sys, I.MigrateClose(t, pair, s, row, remaining), grace, order, ok, calls);
            var db1 := sys.db.DisconnectSession(s);
      && end.thread.Finished? && end.sys.now == sys.now
      && end.sys.fw == (if authOk then sys.fw[pair := sys.now + remaining * MS] else sys.fw)
      && end.sys.db == if !authOk || t !in sys.db.tokens then db1
                       else db1.InsertSession(t, pair, row.expiresAt, Stamp(sys.now)).value
  {
    var ok := Answers(deauthOk, authOk);
    var a := I.Proceed(sys, I.MigrateClose(t, pair, s, row, remaining), grace, order, true);
    OneCall(sys, I.MigrateClose(t, pair, s, row, remaining), grace, order, ok, calls, a);
    var b := I.Proceed(a.sys, a.thread, grace, order, authOk);
    OneCall(a.sys, a.thread, grace, order, ok, calls - 1, b);
    if authOk {
      var c := I.Proceed(b.sys, b.thread, grace, order, true);
      OneCall(b.sys, b.thread, grace, order, ok, calls - 2, c);
      FinishedStays(c.sys, grace, order, ok, calls - 3);
    } else {
      FinishedStays(b.sys, grace, order, ok, calls - 2);
    }
  }

  /** The firewall after a migration. */
  lemma MigrationFirewall(w: World, t: Id, s: Id, pair: Pair, deauthOk: bool, authOk: bool)
    requires w.db.ActiveRowOf(t) == Some(s) && Remaining(w.db.sessions[s].expiresAt, w.now) > 0
    ensures var fw1 := if deauthOk then w.fw - {w.db.sessions[s].pair} else w.fw;
      MigrateSession(w, t, pair, deauthOk, authOk).world.fw ==
        if authOk then fw1[pair := w.now + Remaining(w.db.sessions[s].expiresAt, w.now) * MS] else fw1
  {
  }

  lemma MigrateAlone(
      sys: I.System, w: World, grace: int, order: seq<Id>, t: Id, pair: Pair, deauthOk: bool, authOk: bool, calls: nat)
    requires Matches(sys, w) && calls >= 5
    ensures Ends(Alone(sys, I.MigrateRead(t, pair), grace, order, Answers(deauthOk, authOk), calls),
                 MigrateSession(w, t, pair, deauthOk, authOk).world)
  {
    var ok := Answers(deauthOk, authOk);
    var a := I.Proceed(sys, I.MigrateRead(t, pair), grace, order, true);
    OneCall(sys, I.MigrateRead(t, pair), grace, order, ok, calls, a);
    if a.thread.Finished? {
      FinishedStays(sys, grace, order, ok, calls - 1);
    } else {
      MoveAlone(sys, w, grace, order, t, pair, deauthOk, authOk, calls - 1);
    }
  }

  lemma MoveAlone(
      sys: I.System, w: World, grace: int, order: seq<Id>, t: Id, pair: Pair, deauthOk: bool, authOk: bool, calls: nat)
    requires Matches(sys, w) && calls >= 4 && w.db.ActiveRowOf(t).Some?
    requires Remaining(w.db.sessions[w.db.ActiveRowOf(t).value].expiresAt, w.now) > 0
    ensures var s := w.db.ActiveRowOf(t).value;
            var row := w.db.sessions[s];
            var thread := I.MigrateDeauthorize(t, pair, s, row, Remaining(row.expiresAt, w.now));
      Ends(Alone(sys, thread, grace, order, Answers(deauthOk, authOk), calls),
           MigrateSession(w, t, pair, deauthOk, authOk).world)
  {
    var s := w.db.ActiveRowOf(t).value;
    var row := w.db.sessions[s];
    var remaining := Remaining(row.expiresAt, w.now);
    var thread := I.MigrateDeauthorize(t, pair, s, row, remaining);
    var a := I.Proceed(sys, thread, grace, order, deauthOk);
    OneCall(sys, thread, grace, order, Answers(deauthOk, authOk), calls, a);
    CloseAlone(a.sys, grace, order, t, pair, s, row, remaining, deauthOk, authOk, calls - 1);
    MigrationResult(w, t, s, pair, deauthOk, authOk);
    MigrationFirewall(w, t, s, pair, deauthOk, authOk);
  }

  lemma AuthReads(sys: I.System, grace: int, order: seq<Id>, t: Id, pair: Pair)
    ensures var a := I.Proceed(sys, I.AuthRead(t, pair), grace, order, true);
      && a.sys == sys
      && a.thread ==
           if !sys.db.Joined(t) then I.Finished
           else
             var minutes := sys.db.plans[sys.db.tokens[t].planId].durationMinutes;
             match sys.db.tokens[t].status
             case Unused => I.CreateAuthorize(t, pair, minutes, (sys.now + minutes * 60 * MS) / MS)
             case Active => I.MigrateRead(t, pair)
             case Expired => I.Finished
             case Revoked => I.Finished
  {
  }

  /** A submitted code, in six calls at most. */
  lemma AuthAlone(
      sys: I.System, w: World, grace: int, order: seq<Id>, t: Id, pair: Pair, deauthOk: bool, authOk: bool, calls: nat)
    requires Matches(sys, w) && calls >= 6
    ensures Ends(Alone(sys, I.AuthRead(t, pair), grace, order, Answers(deauthOk, authOk), calls),
                 PortalAuth(w, t, pair, deauthOk, authOk).world)
  {
    var ok := Answers(deauthOk, authOk);
    AuthReads(sys, grace, order, t, pair);
    OneCall(sys, I.AuthRead(t, pair), grace, order, ok, calls, I.Proceed(sys, I.AuthRead(t, pair), grace, order, true));
    if w.db.Joined(t) {
      match w.db.tokens[t].status
      case Unused =>
        var minutes := w.db.plans[w.db.tokens[t].planId].durationMinutes;
        CreateAlone(sys, w, grace, order, t, minutes, pair, deauthOk, authOk, calls - 1);
      case Active => MigrateAlone(sys, w, grace, order, t, pair, deauthOk, authOk, calls - 1);
      case Expired => FinishedStays(sys, grace, order, ok, calls - 1);
      case Revoked => FinishedStays(sys, grace, order, ok, calls - 1);
    } else {
      FinishedStays(sys, grace, order, ok, calls - 1);
    }
  }

  /** The administrator's disconnect, in three. */
  lemma DisconnectAlone(sys: I.System, w: World, grace: int, order: seq<Id>, s: Id, ok: bool, calls: nat)
    requires Matches(sys, w) && calls >= 3
    ensures Ends(Alone(sys, I.DisconnectRead(s), grace, order, Answers(ok, true), calls), Disconnect(w, s, ok).world)
  {
    var answers := Answers(ok, true);
    var a := I.Proceed(sys, I.DisconnectRead(s), grace, order, true);
    OneCall(sys, I.DisconnectRead(s), grace, order, answers, calls, a);
    if a.thread.Finished? {
      FinishedStays(sys, grace, order, answers, calls - 1);
    } else {
      ShutOutAlone(sys, grace, order, s, w.db.sessions[s].pair, ok, calls - 1);
    }
  }

  lemma ShutOutAlone(sys: I.System, grace: int, order: seq<Id>, s: Id, pair: Pair, ok: bool, calls: nat)
    requires calls >= 2
    ensures Alone(sys, I.DisconnectDeauthorize(s, pair), grace, order, Answers(ok, true), calls) ==
      I.Advance(if ok then sys.(fw := sys.fw - {pair}, db := sys.db.DisconnectSession(s)) else sys, I.Finished)
  {
    var answers := Answers(ok, true);
    var a := I.Proceed(sys, I.DisconnectDeauthorize(s, pair), grace, order, ok);
    OneCall(sys, I.DisconnectDeauthorize(s, pair), grace, order, answers, calls, a);
    if ok {
      var b := I.Proceed(a.sys, a.thread, grace, order, true);
      OneCall(a.sys, a.thread, grace, order, answers, calls - 1, b);
      FinishedStays(b.sys, grace, order, answers, calls - 2);
    } else {
      FinishedStays(sys, grace, order, answers, calls - 1);
    }
  }

  lemma CreateTokenAlone(cfg: Config, sys: I.System, w: World, order: seq<Id>, p: Id, calls: nat)
    requires Matches(sys, w) && calls >= 1
    ensures Ends(Alone(sys, I.CreateToken(p), cfg.grace, order, Answers(true, true), calls),
                 Next(cfg, w, StepCreateToken(p)))
  {
    var a := I.Proceed(sys, I.CreateToken(p), cfg.grace, order, true);
    OneCall(sys, I.CreateToken(p), cfg.grace, order, Answers(true, true), calls, a);
    FinishedStays(a.sys, cfg.grace, order, Answers(true, true), calls - 1);
  }

  lemma RevokeWriteAlone(sys: I.System, grace: int, order: seq<Id>, t: Id, calls: nat)
    requires calls >= 1
    ensures Alone(sys, I.RevokeWrite(t), grace, order, Answers(true, true), calls)
         == I.Advance(sys.(db := sys.db.RevokeToken(t)), I.Finished)
  {
    var a := I.Advance(sys.(db := sys.db.RevokeToken(t)), I.Finished);
    OneCall(sys, I.RevokeWrite(t), grace, order, Answers(true, true), calls, a);
    FinishedStays(a.sys, grace, order, Answers(true, true), calls - 1);
  }

  lemma RevokeReads(sys: I.System, grace: int, order: seq<Id>, t: Id)
    ensures I.Proceed(sys, I.RevokeRead(t), grace, order, true) ==
      I.Advance(sys, if !sys.db.Joined(t) || sys.db.tokens[t].status != TokenStatus.Unused then I.Finished
                     else I.RevokeWrite(t))
  {
  }

  lemma RevokeAlone(cfg: Config, sys: I.System, w: World, order: seq<Id>, t: Id, calls: nat)
    requires Matches(sys, w) && Keyed(w.db) && calls >= 2
    ensures Ends(Alone(sys, I.RevokeRead(t), cfg.grace, order, Answers(true, true), calls), Next(cfg, w, StepRevoke(t)))
  {
    var a := I.Proceed(sys, I.RevokeRead(t), cfg.grace, order, true);
    RevokeReads(sys, cfg.grace, order, t);
    OneCall(sys, I.RevokeRead(t), cfg.grace, order, Answers(true, true), calls, a);
    if a.thread == I.Finished {
      FinishedStays(sys, cfg.grace, order, Answers(true, true), calls - 1);
    } else {
      RevokeWriteAlone(sys, cfg.grace, order, t, calls - 1);
    }
  }

  lemma OrphansAlone(sys: I.System, grace: int, order: seq<Id>, calls: nat)
    requires calls >= 1
    ensures Alone(sys, I.PurgeOrphans, grace, order, Answers(true, true), calls)
         == I.Advance(sys.(db := sys.db.PurgeTokens()), I.Finished)
  {
    var a := I.Advance(sys.(db := sys.db.PurgeTokens()), I.Finished);
    OneCall(sys, I.PurgeOrphans, grace, order, Answers(true, true), calls, a);
    FinishedStays(a.sys, grace, order, Answers(true, true), calls - 1);
  }

  lemma PurgeAlone(cfg: Config, sys: I.System, w: World, order: seq<Id>, calls: nat)
    requires Matches(sys, w) && calls >= 2
    ensures Ends(Alone(sys, I.PurgeRows(Cutoff(cfg, w.now)), cfg.grace, order, Answers(true, true), calls),
                 PurgeStep(cfg, w))
  {
    var cutoff := Cutoff(cfg, w.now);
    var a := I.Advance(sys.(db := sys.db.PurgeSessions(cutoff)), I.PurgeOrphans);
    OneCall(sys, I.PurgeRows(cutoff), cfg.grace, order, Answers(true, true), calls, a);
    OrphansAlone(a.sys, cfg.grace, order, calls - 1);
  }

  // ---- The loops ---------------------------------------------------------------------------------

  /** The cleanup loop from its first row on. */
  function CleanupFrom(cfg: Config, w: World, rows: map<Id, Session>, todo: seq<Id>, failing: set<Id>): World
    requires forall i :: 0 <= i < |todo| ==> todo[i] in rows
    decreases |todo|
  {
    if todo == [] then w
    else
      CleanupFrom(cfg, CleanupRow(cfg, w, todo[0], rows[todo[0]], todo[0] !in failing, false), rows, todo[1..], failing)
  }

  lemma {:induction false} CleanupFromRows(cfg: Config, snap: World, done: seq<Id>, todo: seq<Id>, failing: set<Id>)
    requires forall i :: 0 <= i < |done| ==> done[i] in snap.db.sessions
    requires forall i :: 0 <= i < |todo| ==> todo[i] in snap.db.sessions
    ensures CleanupRows(cfg, snap, done + todo, failing, false)
         == CleanupFrom(cfg, CleanupRows(cfg, snap, done, failing, false), snap.db.sessions, todo, failing)
    decreases |todo|
  {
    if todo == [] {
      assert done + todo == done;
    } else {
      var more := done + [todo[0]];
      assert more + todo[1..] == done + todo;
      assert more[..|done|] == done;
      CleanupFromRows(cfg, snap, more, todo[1..], failing);
    }
  }

  /** The deauthorise calls of the rows in `failing` fail, and nothing else. */
  function CleanupAnswers(failing: set<Id>): I.Thread -> bool {
    (thread: I.Thread) => !(thread.CleanupDeauthorize? && thread.todo != [] && thread.todo[0] in failing)
  }

  /** A due row whose deauthorise call succeeds, in three calls. */
  lemma DueRowAlone(
      cfg: Config, sys: I.System, w: World, rows: map<Id, Session>, todo: seq<Id>, order: seq<Id>, failing: set<Id>,
      calls: nat)
    requires Matches(sys, w) && calls >= 3 && todo != [] && todo[0] in rows && todo[0] !in failing
    requires CleanupDue(rows[todo[0]], cfg.grace, w.now)
    ensures var ok := CleanupAnswers(failing);
            var w' := CleanupRow(cfg, w, todo[0], rows[todo[0]], true, false);
            var sys' := sys.(db := w'.db, fw := w'.fw);
      && Matches(sys', w')
      && Alone(sys, I.CleanupDeauthorize(todo, rows), cfg.grace, order, ok, calls)
           == Alone(sys', I.NextDue(todo[1..], rows, cfg.grace, w.now), cfg.grace, order, ok, calls - 3)
  {
    var ok := CleanupAnswers(failing);
    var a := I.Proceed(sys, I.CleanupDeauthorize(todo, rows), cfg.grace, order, true);
    OneCall(sys, I.CleanupDeauthorize(todo, rows), cfg.grace, order, ok, calls, a);
    var b := I.Proceed(a.sys, a.thread, cfg.grace, order, true);
    OneCall(a.sys, a.thread, cfg.grace, order, ok, calls - 1, b);
    OneCall(b.sys, b.thread, cfg.grace, order, ok, calls - 2, I.Proceed(b.sys, b.thread, cfg.grace, order, true));
  }

  lemma {:induction false} CleanupFromAlone(
      cfg: Config, sys: I.System, w: World, rows: map<Id, Session>, todo: seq<Id>, order: seq<Id>, failing: set<Id>,
      calls: nat)
    requires Matches(sys, w) && calls >= 3 * |todo| && forall i :: 0 <= i < |todo| ==> todo[i] in rows
    ensures Ends(Alone(sys, I.NextDue(todo, rows, cfg.grace, w.now), cfg.grace, order, CleanupAnswers(failing), calls),
                 CleanupFrom(cfg, w, rows, todo, failing))
    decreases |todo|
  {
    var ok := CleanupAnswers(failing);
    if todo == [] {
      FinishedStays(sys, cfg.grace, order, ok, calls);
    } else if !CleanupDue(rows[todo[0]], cfg.grace, w.now) {
      CleanupFromAlone(cfg, sys, w, rows, todo[1..], order, failing, calls);
    } else if todo[0] in failing {
      OneCall(sys, I.CleanupDeauthorize(todo, rows), cfg.grace, order, ok, calls,
              I.Proceed(sys, I.CleanupDeauthorize(todo, rows), cfg.grace, order, false));
      CleanupFromAlone(cfg, sys, w, rows, todo[1..], order, failing, calls - 1);
    } else {
      var w' := CleanupRow(cfg, w, todo[0], rows[todo[0]], true, false);
      DueRowAlone(cfg, sys, w, rows, todo, order, failing, calls);
      CleanupFromAlone(cfg, sys.(db := w'.db, fw := w'.fw), w', rows, todo[1..], order, failing, calls - 3);
    }
  }

  lemma CleanupFromIsPass(cfg: Config, w: World, order: seq<Id>, failing: set<Id>)
    requires Lists(w.db, order, w.db.ActiveRows())
    ensures CleanupFrom(cfg, w, w.db.sessions, order, failing) == CleanupPass(cfg, w, failing, false)
  {
    CleanupFromRows(cfg, w, [], order, failing);
    assert [] + order == order;
    CleanupAnyOrder(cfg, w, order, failing, false);
  }

  /** A cleanup pass over the queried rows, whichever deauthorise calls fail. */
  lemma CleanupAlone(cfg: Config, sys: I.System, w: World, order: seq<Id>, failing: set<Id>, calls: nat)
    requires Matches(sys, w) && Lists(w.db, order, w.db.ActiveRows()) && calls >= 1 + 3 * |order|
    ensures Ends(Alone(sys, I.CleanupRead, cfg.grace, order, CleanupAnswers(failing), calls),
                 CleanupPass(cfg, w, failing, false))
  {
    CleanupFromIsPass(cfg, w, order, failing);
    OneCall(sys, I.CleanupRead, cfg.grace, order, CleanupAnswers(failing), calls,
            I.Advance(sys, I.NextDue(order, sys.db.sessions, cfg.grace, sys.now)));
    CleanupFromAlone(cfg, sys, w, w.db.sessions, order, order, failing, calls - 1);
  }

  /** The recovery loop from its first row on. */
  function RecoverFrom(cfg: Config, w: World, rows: map<Id, Session>, todo: seq<Id>, failing: set<Id>): World
    requires forall i :: 0 <= i < |todo| ==> todo[i] in rows
    decreases |todo|
  {
    if todo == [] then w
    else RecoverFrom(cfg, RecoverRow(cfg, w, todo[0], rows[todo[0]], todo[0] !in failing), rows, todo[1..], failing)
  }

  lemma {:induction false} RecoverFromRows(cfg: Config, snap: World, done: seq<Id>, todo: seq<Id>, failing: set<Id>)
    requires forall i :: 0 <= i < |done| ==> done[i] in snap.db.sessions
    requires forall i :: 0 <= i < |todo| ==> todo[i] in snap.db.sessions
    ensures RecoverRows(cfg, snap, done + todo, failing)
         == RecoverFrom(cfg, RecoverRows(cfg, snap, done, failing), snap.db.sessions, todo, failing)
    decreases |todo|
  {
    if todo == [] {
      assert done + todo == done;
    } else {
      var more := done + [todo[0]];
      assert more + todo[1..] == done + todo;
      assert more[..|done|] == done;
      RecoverFromRows(cfg, snap, more, todo[1..], failing);
    }
  }

  /** The authorise calls of the rows in `failing` fail; writes succeed. */
  function RecoverAnswers(grace: int, now: nat, failing: set<Id>): I.Thread -> bool {
    (thread: I.Thread) =>
      !(&& thread.RecoverRow? && thread.todo != [] && thread.todo[0] in thread.rows && thread.todo[0] in failing
        && Remaining(thread.rows[thread.todo[0]].expiresAt, now) > grace)
  }

  /** A row that is restored, in one call. */
  lemma RestoreAlone(
      cfg: Config, sys: I.System, w: World, rows: map<Id, Session>, todo: seq<Id>, order: seq<Id>, failing: set<Id>,
      calls: nat)
    requires Matches(sys, w) && calls >= 1 && todo != [] && todo[0] in rows
    requires Remaining(rows[todo[0]].expiresAt, w.now) > cfg.grace
    ensures var ok := RecoverAnswers(cfg.grace, w.now, failing);
            var w' := RecoverRow(cfg, w, todo[0], rows[todo[0]], todo[0] !in failing);
      && Matches(sys.(fw := w'.fw), w')
      && Alone(sys, I.RecoverRow(todo, rows), cfg.grace, order, ok, calls)
           == Alone(sys.(fw := w'.fw), I.RecoverRow(todo[1..], rows), cfg.grace, order, ok, calls - 1)
  {
    var thread := I.RecoverRow(todo, rows);
    OneCall(sys, thread, cfg.grace, order, RecoverAnswers(cfg.grace, w.now, failing), calls,
            I.Proceed(sys, thread, cfg.grace, order, todo[0] !in failing));
  }

  /** A row that is expired with its token, in two. */
  lemma ExpireAlone(
      cfg: Config, sys: I.System, w: World, rows: map<Id, Session>, todo: seq<Id>, order: seq<Id>, failing: set<Id>,
      calls: nat)
    requires Matches(sys, w) && calls >= 2 && todo != [] && todo[0] in rows
    requires Remaining(rows[todo[0]].expiresAt, w.now) <= cfg.grace
    ensures var ok := RecoverAnswers(cfg.grace, w.now, failing);
            var w' := RecoverRow(cfg, w, todo[0], rows[todo[0]], todo[0] !in failing);
      && Matches(sys.(db := w'.db), w')
      && Alone(sys, I.RecoverRow(todo, rows), cfg.grace, order, ok, calls)
           == Alone(sys.(db := w'.db), I.RecoverRow(todo[1..], rows), cfg.grace, order, ok, calls - 2)
  {
    var ok := RecoverAnswers(cfg.grace, w.now, failing);
    var a := I.Proceed(sys, I.RecoverRow(todo, rows), cfg.grace, order, true);
    OneCall(sys, I.RecoverRow(todo, rows), cfg.grace, order, ok, calls, a);
    OneCall(a.sys, I.RecoverExpireToken(todo, rows), cfg.grace, order, ok, calls - 1,
            I.Proceed(a.sys, I.RecoverExpireToken(todo, rows), cfg.grace, order, true));
  }

  lemma NoneLeftAlone(
      sys: I.System, rows: map<Id, Session>, grace: int, order: seq<Id>, ok: I.Thread -> bool, calls: nat)
    requires calls >= 1
    ensures Alone(sys, I.RecoverRow([], rows), grace, order, ok, calls) == I.Advance(sys, I.Finished)
  {
    OneCall(sys, I.RecoverRow([], rows), grace, order, ok, calls, I.Advance(sys, I.Finished));
    FinishedStays(sys, grace, order, ok, calls - 1);
  }

  /** The first row of the list, whichever way it goes: what is left is the list after it. */
  lemma FirstRowAlone(
      cfg: Config, sys: I.System, w: World, rows: map<Id, Session>, todo: seq<Id>, order: seq<Id>, failing: set<Id>,
      calls: nat)
    returns (sys': I.System, left: nat)
    requires Matches(sys, w) && calls >= 2 && todo != [] && todo[0] in rows
    ensures left >= calls - 2
    ensures Matches(sys', RecoverRow(cfg, w, todo[0], rows[todo[0]], todo[0] !in failing))
    ensures var ok := RecoverAnswers(cfg.grace, w.now, failing);
      Alone(sys, I.RecoverRow(todo, rows), cfg.grace, order, ok, calls)
        == Alone(sys', I.RecoverRow(todo[1..], rows), cfg.grace, order, ok, left)
  {
    var w' := RecoverRow(cfg, w, todo[0], rows[todo[0]], todo[0] !in failing);
    if Remaining(rows[todo[0]].expiresAt, w.now) > cfg.grace {
      RestoreAlone(cfg, sys, w, rows, todo, order, failing, calls);
      return sys.(fw := w'.fw), calls - 1;
    } else {
      ExpireAlone(cfg, sys, w, rows, todo, order, failing, calls);
      return sys.(db := w'.db), calls - 2;
    }
  }

  lemma {:induction false} RecoverFromAlone(
      cfg: Config, sys: I.System, w: World, rows: map<Id, Session>, todo: seq<Id>, order: seq<Id>, failing: set<Id>,
      calls: nat)
    requires Matches(sys, w) && calls >= 1 + 2 * |todo| && forall i :: 0 <= i < |todo| ==> todo[i] in rows
    ensures var ok := RecoverAnswers(cfg.grace, w.now, failing);
      Ends(Alone(sys, I.RecoverRow(todo, rows), cfg.grace, order, ok, calls), RecoverFrom(cfg, w, rows, todo, failing))
    decreases |todo|
  {
    if todo == [] {
      NoneLeftAlone(sys, rows, cfg.grace, order, RecoverAnswers(cfg.grace, w.now, failing), calls);
    } else {
      var w' := RecoverRow(cfg, w, todo[0], rows[todo[0]], todo[0] !in failing);
      var sys', left := FirstRowAlone(cfg, sys, w, rows, todo, order, failing, calls);
      assert w'.now == w.now;
      RecoverFromAlone(cfg, sys', w', rows, todo[1..], order, failing, left);
    }
  }

  lemma RecoverFromIsLoop(cfg: Config, w: World, order: seq<Id>, failing: set<Id>)
    requires OnePerMac(w.db) && Lists(w.db, order, w.db.ActiveRows())
    ensures RecoverFrom(cfg, w, w.db.sessions, order, failing) == RecoveryLoop(cfg, w, failing)
  {
    RecoverFromRows(cfg, w, [], order, failing);
    assert [] + order == order;
    RecoverAnyOrder(cfg, w, order, failing);
  }

  lemma RecoverReads(sys: I.System, grace: int, order: seq<Id>, ok: I.Thread -> bool, calls: nat)
    requires calls > 0 && ok(I.RecoverRead)
    ensures Alone(sys, I.RecoverRead, grace, order, ok, calls)
         == Alone(sys, I.RecoverRow(order, sys.db.sessions), grace, order, ok, calls - 1)
  {
    OneCall(sys, I.RecoverRead, grace, order, ok, calls, I.Advance(sys, I.RecoverRow(order, sys.db.sessions)));
  }

  lemma RecoverFromRead(cfg: Config, sys: I.System, w: World, order: seq<Id>, failing: set<Id>, calls: nat)
    requires Matches(sys, w) && calls >= 2 + 2 * |order| && forall i :: 0 <= i < |order| ==> order[i] in w.db.sessions
    ensures Ends(Alone(sys, I.RecoverRead, cfg.grace, order, RecoverAnswers(cfg.grace, w.now, failing), calls),
                 RecoverFrom(cfg, w, w.db.sessions, order, failing))
  {
    RecoverReads(sys, cfg.grace, order, RecoverAnswers(cfg.grace, w.now, failing), calls);
    RecoverFromAlone(cfg, sys, w, w.db.sessions, order, order, failing, calls - 1);
  }

  /** The recovery over the queried rows, whichever authorise calls fail. */
  lemma RecoverAlone(cfg: Config, sys: I.System, w: World, order: seq<Id>, failing: set<Id>, calls: nat)
    requires OnePerMac(w.db) && Matches(sys, w) && Lists(w.db, order, w.db.ActiveRows()) && calls >= 2 + 2 * |order|
    ensures Ends(Alone(sys, I.RecoverRead, cfg.grace, order, RecoverAnswers(cfg.grace, w.now, failing), calls),
                 RecoveryLoop(cfg, w, failing))
  {
    RecoverFromRead(cfg, sys, w, order, failing, calls);
    RecoverFromIsLoop(cfg, w, order, failing);
  }
}
