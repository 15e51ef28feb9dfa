/**
 * Handlers that interleave at every await, with every call free to fail. Each thread is a
 * program counter with its local variables; one step of the system runs one thread up to its
 * next await. Under all interleavings a MAC has at most one active row, its newest.
 */
module Interleaving {
  import opened Basics
  import opened Clock
  import opened Store
  import opened Devices
  import Invariants

  /** Where a handler stands: the call it makes next, with what it read before. */
  datatype Thread =
    | AuthRead(t: Id, pair: Pair)
    | CreateAuthorize(t: Id, pair: Pair, minutes: int, expiresAt: int)
    | CreateInsert(t: Id, pair: Pair, expiresAt: int)
    | CreateRedeem(t: Id, expiresAt: int)
    | MigrateRead(t: Id, pair: Pair)
    | MigrateDeauthorize(t: Id, pair: Pair, s: Id, row: Session, remaining: int)
    | MigrateClose(t: Id, pair: Pair, s: Id, row: Session, remaining: int)
    | MigrateAuthorize(t: Id, pair: Pair, row: Session, remaining: int)
    | MigrateInsert(t: Id, pair: Pair, row: Session)
    | DisconnectRead(s: Id)
    | DisconnectDeauthorize(s: Id, pair: Pair)
    | DisconnectClose(s: Id)
    | CleanupRead
    | CleanupDeauthorize(todo: seq<Id>, rows: map<Id, Session>)
    | CleanupExpireSession(todo: seq<Id>, rows: map<Id, Session>)
    | CleanupExpireToken(todo: seq<Id>, rows: map<Id, Session>)
    | RecoverRead
    | RecoverRow(todo: seq<Id>, rows: map<Id, Session>)
    | RecoverExpireToken(todo: seq<Id>, rows: map<Id, Session>)
    | PurgeRows(cutoff: int)
    | PurgeOrphans
    | CreateToken(planId: Id)
    | RevokeRead(t: Id)
    | RevokeWrite(t: Id)
    | Finished

  /** The threads a request, the ticker or the administrator starts. */
  predicate Starts(thread: Thread) {
    || thread.AuthRead?
    || thread.DisconnectRead?
    || thread.CleanupRead?
    || thread.RecoverRead?
    || thread.PurgeRows?
    || thread.CreateToken?
    || thread.RevokeRead?
  }

  /** `newest` is history: the id of the last row inserted for each MAC. */
  datatype System = System(
    db: Db,
    fw: map<Pair, int>,
    now: nat,
    threads: seq<Thread>,
    newest: map<string, Id>)

  datatype Advance = Advance(sys: System, thread: Thread)

  function Insert(sys: System, t: Id, pair: Pair, expiresAt: int): Option<System> {
    match sys.db.InsertSession(t, pair, expiresAt, Stamp(sys.now))
    case None => None
    case Some(db) => Some(sys.(db := db, newest := sys.newest[pair.mac := sys.db.nextSession]))
  }

  /** The cleanup loop looks for the next row of its list that is due. */
  function NextDue(todo: seq<Id>, rows: map<Id, Session>, grace: int, now: nat): (thread: Thread)
    ensures thread.Finished? || thread.CleanupDeauthorize?
  {
    if todo == [] then Finished
    else if todo[0] in rows && Remaining(rows[todo[0]].expiresAt, now) <= -grace then CleanupDeauthorize(todo, rows)
    else NextDue(todo[1..], rows, grace, now)
  }

  function AfterRow(todo: seq<Id>, rows: map<Id, Session>, grace: int, now: nat): (thread: Thread)
    ensures thread.Finished? || thread.CleanupDeauthorize?
  {
    if todo == [] then Finished else NextDue(todo[1..], rows, grace, now)
  }

  /**
   * One thread up to its next await. When the call fails the handler returns its error,
   * except where the code logs it and goes on. `order` is the list a query returns.
   */
  function Proceed(sys: System, thread: Thread, grace: int, order: seq<Id>, ok: bool): Advance {
    match thread
    case AuthRead(t, pair) =>
      if !ok || !sys.db.Joined(t) then Advance(sys, Finished)
      else if sys.db.tokens[t].status == TokenStatus.Unused
      then
        var minutes := sys.db.plans[sys.db.tokens[t].planId].durationMinutes;
        Advance(sys, CreateAuthorize(t, pair, minutes, (sys.now + minutes * 60 * MS) / MS))
      else if sys.db.tokens[t].status == TokenStatus.Active
      then Advance(sys, MigrateRead(t, pair))
      else Advance(sys, Finished)
    case CreateAuthorize(t, pair, minutes, expiresAt) =>
      if !ok then Advance(sys, Finished)
      else Advance(sys.(fw := sys.fw[pair := sys.now + minutes * 60 * MS]), CreateInsert(t, pair, expiresAt))
    case CreateInsert(t, pair, expiresAt) =>
      var next := Insert(sys, t, pair, expiresAt);
      if !ok || next.None? then Advance(sys, Finished) else Advance(next.value, CreateRedeem(t, expiresAt))
    case CreateRedeem(t, expiresAt) =>
      if !ok then Advance(sys, Finished)
      else Advance(sys.(db := sys.db.RedeemToken(t, expiresAt, Stamp(sys.now))), Finished)
    case MigrateRead(t, pair) =>
      var found := sys.db.ActiveRowOf(t);
      if !ok || found.None? then Advance(sys, Finished)
      else
        var row := sys.db.sessions[found.value];
        var remaining := Remaining(row.expiresAt, sys.now);
        if remaining <= 0 then Advance(sys, Finished)
        else Advance(sys, MigrateDeauthorize(t, pair, found.value, row, remaining))
    case MigrateDeauthorize(t, pair, s, row, remaining) =>
      Advance(if ok then sys.(fw := sys.fw - {row.pair}) else sys, MigrateClose(t, pair, s, row, remaining))
    case MigrateClose(t, pair, s, row, remaining) =>
      if !ok then Advance(sys, Finished)
      else Advance(sys.(db := sys.db.DisconnectSession(s)), MigrateAuthorize(t, pair, row, remaining))
    case MigrateAuthorize(t, pair, row, remaining) =>
      if !ok then Advance(sys, Finished)
      else Advance(sys.(fw := sys.fw[pair := sys.now + remaining * MS]), MigrateInsert(t, pair, row))
    case MigrateInsert(t, pair, row) =>
      var next := Insert(sys, t, pair, row.expiresAt);
      if !ok || next.None? then Advance(sys, Finished) else Advance(next.value, Finished)
    case DisconnectRead(s) =>
      if !ok || s !in sys.db.sessions || !sys.db.Joined(sys.db.sessions[s].tokenId) then Advance(sys, Finished)
      else Advance(sys, DisconnectDeauthorize(s, sys.db.sessions[s].pair))
    case DisconnectDeauthorize(s, pair) =>
      if !ok then Advance(sys, Finished) else Advance(sys.(fw := sys.fw - {pair}), DisconnectClose(s))
    case DisconnectClose(s) =>
      if !ok then Advance(sys, Finished) else Advance(sys.(db := sys.db.DisconnectSession(s)), Finished)
    case CleanupRead =>
      if !ok then Advance(sys, Finished) else Advance(sys, NextDue(order, sys.db.sessions, grace, sys.now))
    case CleanupDeauthorize(todo, rows) =>
      if todo == [] || todo[0] !in rows || !ok then Advance(sys, AfterRow(todo, rows, grace, sys.now))
      else Advance(sys.(fw := sys.fw - {rows[todo[0]].pair}), CleanupExpireSession(todo, rows))
    case CleanupExpireSession(todo, rows) =>
      if todo == [] || !ok then Advance(sys, AfterRow(todo, rows, grace, sys.now))
      else Advance(sys.(db := sys.db.ExpireSession(todo[0])), CleanupExpireToken(todo, rows))
    case CleanupExpireToken(todo, rows) =>
      Advance(if todo == [] || todo[0] !in rows || !ok then sys
              else sys.(db := sys.db.ExpireToken(rows[todo[0]].tokenId)),
              AfterRow(todo, rows, grace, sys.now))
    case RecoverRead =>
      if !ok then Advance(sys, Finished) else Advance(sys, RecoverRow(order, sys.db.sessions))
    case RecoverRow(todo, rows) =>
      if todo == [] then Advance(sys, Finished)
      else if todo[0] !in rows || !ok then Advance(sys, RecoverRow(todo[1..], rows))
      else
        var remaining := Remaining(rows[todo[0]].expiresAt, sys.now);
        if remaining > grace
        then Advance(sys.(fw := sys.fw[rows[todo[0]].pair := sys.now + remaining * MS]), RecoverRow(todo[1..], rows))
        else Advance(sys.(db := sys.db.ExpireSession(todo[0])), RecoverExpireToken(todo, rows))
    case RecoverExpireToken(todo, rows) =>
      Advance(if todo == [] || todo[0] !in rows || !ok then sys
              else sys.(db := sys.db.ExpireToken(rows[todo[0]].tokenId)),
              if todo == [] then Finished else RecoverRow(todo[1..], rows))
    case PurgeRows(cutoff) =>
      if !ok then Advance(sys, Finished) else Advance(sys.(db := sys.db.PurgeSessions(cutoff)), PurgeOrphans)
    case PurgeOrphans =>
      if !ok then Advance(sys, Finished) else Advance(sys.(db := sys.db.PurgeTokens()), Finished)
    case CreateToken(planId) =>
      Advance(if ok then sys.(db := sys.db.CreateToken(planId)) else sys, Finished)
    case RevokeRead(t) =>
      if !ok || !sys.db.Joined(t) || sys.db.tokens[t].status != TokenStatus.Unused then Advance(sys, Finished)
      else Advance(sys, RevokeWrite(t))
    case RevokeWrite(t) =>
      Advance(if ok then sys.(db := sys.db.RevokeToken(t)) else sys, Finished)
    case Finished => Advance(sys, Finished)
  }

  datatype Event =
    | Spawn(thread: Thread)
    | Schedule(index: nat, order: seq<Id>, ok: bool)
    | Pass(ms: nat)
    | Crash

  function React(sys: System, grace: int, event: Event): System {
    match event
    case Spawn(thread) => if Starts(thread) then sys.(threads := sys.threads + [thread]) else sys
    case Schedule(i, order, ok) =>
      if i >= |sys.threads| then sys
      else
        var next := Proceed(sys, sys.threads[i], grace, order, ok);
        next.sys.(threads := sys.threads[i := next.thread])
    case Pass(ms) => sys.(now := sys.now + ms)
    case Crash => sys.(threads := [])
  }

  function Execute(sys: System, grace: int, events: seq<Event>): System
    decreases |events|
  {
    if events == [] then sys else Execute(React(sys, grace, events[0]), grace, events[1..])
  }

  // ---- One active row per MAC, the newest -----------------------------------------------------

  /**
   * An active row is the last one ever inserted for its MAC; so a MAC has at most one, and
   * no row of that MAC, active or not, has a greater id.
   */
  ghost predicate NewestActive(sys: System) {
    && (forall s :: s in sys.db.sessions ==>
          && s < sys.db.nextSession
          && sys.db.sessions[s].pair.mac in sys.newest
          && s <= sys.newest[sys.db.sessions[s].pair.mac])
    && (forall s :: sys.db.ActiveRow(s) ==> s == sys.newest[sys.db.sessions[s].pair.mac])
    && (forall mac :: mac in sys.newest ==> sys.newest[mac] < sys.db.nextSession)
  }

  /** Rows are immutable but for their status, and a closed row stays closed. */
  ghost predicate Settles(db1: Db, db2: Db) {
    && db1.nextSession <= db2.nextSession
    && (forall s :: s in db2.sessions && s < db1.nextSession ==>
          && s in db1.sessions
          && db2.sessions[s].(status := db1.sessions[s].status) == db1.sessions[s]
          && (db2.ActiveRow(s) ==> db1.ActiveRow(s)))
  }

  lemma InsertIsNewest(sys: System, t: Id, pair: Pair, expiresAt: int)
    requires NewestActive(sys)
    ensures Insert(sys, t, pair, expiresAt).Some? ==>
      NewestActive(Insert(sys, t, pair, expiresAt).value) && Settles(sys.db, Insert(sys, t, pair, expiresAt).value.db)
  {
    if t in sys.db.tokens {
      var sys' := Insert(sys, t, pair, expiresAt).value;
      forall s | sys'.db.ActiveRow(s) ensures s == sys'.newest[sys'.db.sessions[s].pair.mac] {
        assert s == sys.db.nextSession || (sys.db.ActiveRow(s) && sys.db.sessions[s].pair.mac != pair.mac);
      }
    }
  }

  /** Every statement other than the insert only closes or removes rows. */
  lemma ClosingIsNewest(sys: System, db: Db)
    requires NewestActive(sys) && db.nextSession == sys.db.nextSession && Settles(sys.db, db)
    requires forall s :: s in db.sessions ==> s < db.nextSession
    ensures NewestActive(sys.(db := db))
  {
  }

  lemma SetSessionIsNewest(sys: System, s: Id, status: SessionStatus)
    requires NewestActive(sys) && status != SessionStatus.Active
    ensures NewestActive(sys.(db := sys.db.SetSession(s, status))) && Settles(sys.db, sys.db.SetSession(s, status))
  {
    assert Settles(sys.db, sys.db.SetSession(s, status));
    ClosingIsNewest(sys, sys.db.SetSession(s, status));
  }

  lemma PurgeIsNewest(sys: System, cutoff: int)
    requires NewestActive(sys)
    ensures NewestActive(sys.(db := sys.db.PurgeSessions(cutoff))) && Settles(sys.db, sys.db.PurgeSessions(cutoff))
  {
    ClosingIsNewest(sys, sys.db.PurgeSessions(cutoff));
  }

  lemma SameRowsAreNewest(sys: System, sys': System)
    requires NewestActive(sys) && sys'.db.sessions == sys.db.sessions && sys'.db.nextSession == sys.db.nextSession
    requires sys'.newest == sys.newest
    ensures NewestActive(sys') && Settles(sys.db, sys'.db)
  {
    assert forall s :: sys'.db.ActiveRow(s) <==> sys.db.ActiveRow(s);
  }

  predicate WritesRows(thread: Thread) {
    || thread.CreateInsert?
    || thread.MigrateInsert?
    || thread.MigrateClose?
    || thread.DisconnectClose?
    || thread.CleanupExpireSession?
    || thread.RecoverRow?
    || thread.PurgeRows?
  }

  lemma OthersLeaveRows(sys: System, thread: Thread, grace: int, order: seq<Id>, ok: bool)
    requires !WritesRows(thread)
    ensures var sys' := Proceed(sys, thread, grace, order, ok).sys;
      sys'.db.sessions == sys.db.sessions && sys'.db.nextSession == sys.db.nextSession && sys'.newest == sys.newest
  {
  }

  lemma InsertsKeep(sys: System, thread: Thread, grace: int, order: seq<Id>, ok: bool)
    requires NewestActive(sys) && (thread.CreateInsert? || thread.MigrateInsert?)
    ensures var sys' := Proceed(sys, thread, grace, order, ok).sys;
      NewestActive(sys') && Settles(sys.db, sys'.db)
  {
    SameRowsAreNewest(sys, sys);
    match thread
    case CreateInsert(t, pair, expiresAt) => InsertIsNewest(sys, t, pair, expiresAt);
    case MigrateInsert(t, pair, row) => InsertIsNewest(sys, t, pair, row.expiresAt);
  }

  /** The tables after a thread that closes or removes rows. */
  lemma ClosesRows(sys: System, thread: Thread, grace: int, order: seq<Id>, ok: bool)
    requires WritesRows(thread) && !thread.CreateInsert? && !thread.MigrateInsert?
    ensures var sys' := Proceed(sys, thread, grace, order, ok).sys;
      && sys'.newest == sys.newest
      && (|| sys'.db == sys.db
          || (exists s: Id :: sys'.db == sys.db.SetSession(s, SessionStatus.Disconnected))
          || (exists s: Id :: sys'.db == sys.db.SetSession(s, SessionStatus.Expired))
          || (exists cutoff: int :: sys'.db == sys.db.PurgeSessions(cutoff)))
  {
    match thread
    case MigrateClose(_, _, s, _, _) =>
      assert sys.db.DisconnectSession(s) == sys.db.SetSession(s, SessionStatus.Disconnected);
    case DisconnectClose(s) => assert sys.db.DisconnectSession(s) == sys.db.SetSession(s, SessionStatus.Disconnected);
    case CleanupExpireSession(todo, _) =>
      if todo != [] { assert sys.db.ExpireSession(todo[0]) == sys.db.SetSession(todo[0], SessionStatus.Expired); }
    case RecoverRow(todo, _) =>
      if todo != [] { assert sys.db.ExpireSession(todo[0]) == sys.db.SetSession(todo[0], SessionStatus.Expired); }
    case PurgeRows(cutoff) =>
  }

  lemma ClosesKeep(sys: System, thread: Thread, grace: int, order: seq<Id>, ok: bool)
    requires NewestActive(sys) && WritesRows(thread) && !thread.CreateInsert? && !thread.MigrateInsert?
    ensures var sys' := Proceed(sys, thread, grace, order, ok).sys;
      NewestActive(sys.(db := sys'.db)) && Settles(sys.db, sys'.db)
  {
    var db' := Proceed(sys, thread, grace, order, ok).sys.db;
    ClosesRows(sys, thread, grace, order, ok);
    if db' == sys.db {
      SameRowsAreNewest(sys, sys);
    } else if exists s: Id :: db' == sys.db.SetSession(s, SessionStatus.Disconnected) {
      var s: Id :| db' == sys.db.SetSession(s, SessionStatus.Disconnected);
      SetSessionIsNewest(sys, s, SessionStatus.Disconnected);
    } else if exists s: Id :: db' == sys.db.SetSession(s, SessionStatus.Expired) {
      var s: Id :| db' == sys.db.SetSession(s, SessionStatus.Expired);
      SetSessionIsNewest(sys, s, SessionStatus.Expired);
    } else {
      var cutoff: int :| db' == sys.db.PurgeSessions(cutoff);
      PurgeIsNewest(sys, cutoff);
    }
  }

  lemma ProceedKeeps(sys: System, thread: Thread, grace: int, order: seq<Id>, ok: bool)
    requires NewestActive(sys)
    ensures var sys' := Proceed(sys, thread, grace, order, ok).sys;
      NewestActive(sys') && Settles(sys.db, sys'.db)
  {
    var sys' := Proceed(sys, thread, grace, order, ok).sys;
    if !WritesRows(thread) {
      OthersLeaveRows(sys, thread, grace, order, ok);
      SameRowsAreNewest(sys, sys');
    } else if thread.CreateInsert? || thread.MigrateInsert? {
      InsertsKeep(sys, thread, grace, order, ok);
    } else {
      ClosesKeep(sys, thread, grace, order, ok);
      ClosesRows(sys, thread, grace, order, ok);
      SameRowsAreNewest(sys.(db := sys'.db), sys');
    }
  }

  lemma ReactKeeps(sys: System, grace: int, event: Event)
    requires NewestActive(sys)
    ensures NewestActive(React(sys, grace, event)) && Settles(sys.db, React(sys, grace, event).db)
  {
    if event.Schedule? && event.index < |sys.threads| {
      ProceedKeeps(sys, sys.threads[event.index], grace, event.order, event.ok);
    }
  }

  lemma {:induction false} ExecuteKeeps(sys: System, grace: int, events: seq<Event>)
    requires NewestActive(sys)
    ensures NewestActive(Execute(sys, grace, events)) && Settles(sys.db, Execute(sys, grace, events).db)
    decreases |events|
  {
    if events != [] {
      ReactKeeps(sys, grace, events[0]);
      ExecuteKeeps(React(sys, grace, events[0]), grace, events[1..]);
    }
  }

  /**
   * Under every interleaving and every pattern of failures: at most one active row per MAC,
   * and the session looked up for a MAC is the last one inserted for it, never an older row.
   */
  lemma LookupIsNewest(db: Db, fw: map<Pair, int>, start: nat, grace: int, events: seq<Event>, mac: string)
    requires db.sessions == map[]
    ensures var sys := Execute(System(db, fw, start, [], map[]), grace, events);
      && (forall a, b | sys.db.ActiveRow(a) && sys.db.ActiveRow(b) ::
            sys.db.sessions[a].pair.mac == sys.db.sessions[b].pair.mac ==> a == b)
      && (sys.db.LiveRowOf(mac, sys.now).Some? ==>
            && mac in sys.newest
            && sys.db.LiveRowOf(mac, sys.now).value == sys.newest[mac]
            && forall s :: s in sys.db.sessions && sys.db.sessions[s].pair.mac == mac ==> s <= sys.newest[mac])
  {
    ExecuteKeeps(System(db, fw, start, [], map[]), grace, events);
  }

  /** No row ever returns to active, and ids are not reused. */
  lemma NoRevival(sys: System, grace: int, events: seq<Event>, s: Id)
    requires NewestActive(sys) && s < sys.db.nextSession && !sys.db.ActiveRow(s)
    ensures !Execute(sys, grace, events).db.ActiveRow(s)
  {
    ExecuteKeeps(sys, grace, events);
  }

  /** A call that fails leaves tables, firewall and history as they were. */
  lemma FailedCall(sys: System, thread: Thread, grace: int, order: seq<Id>)
    ensures Proceed(sys, thread, grace, order, false).sys == sys
    ensures var next := Proceed(sys, thread, grace, order, false).thread;
      && (Submits(thread) && !thread.MigrateDeauthorize? ==> next == Finished)
      && (thread.DisconnectRead? || thread.DisconnectDeauthorize? || thread.DisconnectClose? ==> next == Finished)
      && (thread.MigrateDeauthorize? ==>
            next == MigrateClose(thread.t, thread.pair, thread.s, thread.row, thread.remaining))
      && (thread.CleanupDeauthorize? || thread.CleanupExpireSession? || thread.CleanupExpireToken? ==>
            next == if thread.todo == [] then Finished else NextDue(thread.todo[1..], thread.rows, grace, sys.now))
      && ((thread.RecoverRow? || thread.RecoverExpireToken?) && thread.todo != [] ==>
            next == RecoverRow(thread.todo[1..], thread.rows))
  {
  }

  // ---- One active row per token: the exact condition -------------------------------------------

  predicate Inserts(thread: Thread) {
    thread.CreateInsert? || thread.MigrateInsert?
  }

  /** The call of this thread inserts a row. */
  predicate InsertsNow(sys: System, thread: Thread, ok: bool) {
    Inserts(thread) && ok && thread.t in sys.db.tokens
  }

  /** A row may be inserted while the active rows of its token, if any, are of the same device. */
  ghost predicate InsertGuard(sys: System, thread: Thread, ok: bool) {
    InsertsNow(sys, thread, ok) ==>
      forall a :: sys.db.ActiveRow(a) && sys.db.sessions[a].tokenId == thread.t ==>
        sys.db.sessions[a].pair.mac == thread.pair.mac
  }

  ghost predicate EventGuard(sys: System, event: Event) {
    event.Schedule? && event.index < |sys.threads| ==> InsertGuard(sys, sys.threads[event.index], event.ok)
  }

  /** Active rows of `db2` were active in `db1`, for the same token. */
  ghost predicate OnlyCloses(db1: Db, db2: Db) {
    forall a :: db2.ActiveRow(a) ==> db1.ActiveRow(a) && db2.sessions[a].tokenId == db1.sessions[a].tokenId
  }

  lemma OthersAddNone(sys: System, thread: Thread, grace: int, order: seq<Id>, ok: bool)
    requires !InsertsNow(sys, thread, ok)
    ensures Proceed(sys, thread, grace, order, ok).sys.db.nextSession == sys.db.nextSession
  {
    if !WritesRows(thread) {
      OthersLeaveRows(sys, thread, grace, order, ok);
    } else if !Inserts(thread) {
      ClosesRows(sys, thread, grace, order, ok);
    }
  }

  lemma OthersOnlyClose(sys: System, thread: Thread, grace: int, order: seq<Id>, ok: bool)
    requires NewestActive(sys) && !InsertsNow(sys, thread, ok)
    ensures OnlyCloses(sys.db, Proceed(sys, thread, grace, order, ok).sys.db)
  {
    var sys' := Proceed(sys, thread, grace, order, ok).sys;
    ProceedKeeps(sys, thread, grace, order, ok);
    OthersAddNone(sys, thread, grace, order, ok);
    forall a: Id | sys'.db.ActiveRow(a)
      ensures sys.db.ActiveRow(a) && sys'.db.sessions[a].tokenId == sys.db.sessions[a].tokenId
    {
      assert a in sys'.db.sessions && a < sys.db.nextSession;
    }
  }

  lemma InsertedRows(sys: System, thread: Thread, grace: int, order: seq<Id>, ok: bool)
    requires NewestActive(sys) && InsertsNow(sys, thread, ok)
    ensures var db' := Proceed(sys, thread, grace, order, ok).sys.db;
      && (forall a :: db'.ActiveRow(a) <==>
            a == sys.db.nextSession || (sys.db.ActiveRow(a) && sys.db.sessions[a].pair.mac != thread.pair.mac))
      && (forall a :: db'.ActiveRow(a) && a != sys.db.nextSession ==> db'.sessions[a] == sys.db.sessions[a])
      && sys.db.nextSession in db'.sessions && db'.sessions[sys.db.nextSession].tokenId == thread.t
      && db'.tokens == sys.db.tokens && db'.nextToken == sys.db.nextToken
  {
  }

  /** One call keeps one active row per token if and only if it respects the guard. */
  lemma ProceedOnePerToken(sys: System, thread: Thread, grace: int, order: seq<Id>, ok: bool)
    requires NewestActive(sys) && Invariants.OnePerToken(sys.db)
    ensures Invariants.OnePerToken(Proceed(sys, thread, grace, order, ok).sys.db) <==> InsertGuard(sys, thread, ok)
  {
    var db' := Proceed(sys, thread, grace, order, ok).sys.db;
    if InsertsNow(sys, thread, ok) {
      InsertedRows(sys, thread, grace, order, ok);
      if !InsertGuard(sys, thread, ok) {
        var a :| sys.db.ActiveRow(a) && sys.db.sessions[a].tokenId == thread.t &&
                 sys.db.sessions[a].pair.mac != thread.pair.mac;
        assert db'.ActiveRow(a) && db'.ActiveRow(sys.db.nextSession) && a != sys.db.nextSession;
      }
    } else {
      OthersOnlyClose(sys, thread, grace, order, ok);
    }
  }

  ghost predicate AlwaysOnePerToken(sys: System, grace: int, events: seq<Event>)
    decreases |events|
  {
    && Invariants.OnePerToken(sys.db)
    && (events == [] || AlwaysOnePerToken(React(sys, grace, events[0]), grace, events[1..]))
  }

  ghost predicate GuardedEvents(sys: System, grace: int, events: seq<Event>)
    decreases |events|
  {
    events == [] || (EventGuard(sys, events[0]) && GuardedEvents(React(sys, grace, events[0]), grace, events[1..]))
  }

  lemma ReactOnePerToken(sys: System, grace: int, event: Event)
    requires NewestActive(sys) && Invariants.OnePerToken(sys.db)
    ensures Invariants.OnePerToken(React(sys, grace, event).db) <==> EventGuard(sys, event)
  {
    if event.Schedule? && event.index < |sys.threads| {
      ProceedOnePerToken(sys, sys.threads[event.index], grace, event.order, event.ok);
    }
  }

  /**
   * Under interleaving and failures a token has at most one active row throughout a run if
   * and only if no insert of the run meets an active row of its token on another device.
   */
  lemma {:induction false} OnePerTokenExactly(sys: System, grace: int, events: seq<Event>)
    requires NewestActive(sys) && Invariants.OnePerToken(sys.db)
    ensures AlwaysOnePerToken(sys, grace, events) <==> GuardedEvents(sys, grace, events)
    decreases |events|
  {
    if events != [] {
      var sys' := React(sys, grace, events[0]);
      ReactKeeps(sys, grace, events[0]);
      ReactOnePerToken(sys, grace, events[0]);
      if Invariants.OnePerToken(sys'.db) { OnePerTokenExactly(sys', grace, events[1..]); }
    }
  }

  // ---- One active row per token: what callers can do -------------------------------------------

  /** The thread serves a submitted code and has not finished. */
  predicate Submits(thread: Thread) {
    || thread.AuthRead?
    || thread.CreateAuthorize?
    || thread.CreateInsert?
    || thread.CreateRedeem?
    || thread.MigrateRead?
    || thread.MigrateDeauthorize?
    || thread.MigrateClose?
    || thread.MigrateAuthorize?
    || thread.MigrateInsert?
  }

  /**
   * Submissions of one token do not overlap, and an inserted row's redeem is not lost, neither
   * by a failed write nor by a crash before it.
   */
  ghost predicate OrderlyEvent(sys: System, event: Event) {
    match event
    case Spawn(thread) =>
      thread.AuthRead? ==>
        forall i :: 0 <= i < |sys.threads| && Submits(sys.threads[i]) ==> sys.threads[i].t != thread.t
    case Schedule(i, _, ok) => i < |sys.threads| && sys.threads[i].CreateRedeem? ==> ok
    case Pass(_) => true
    case Crash => forall i :: 0 <= i < |sys.threads| ==> !sys.threads[i].CreateRedeem?
  }

  ghost predicate OrderlyEvents(sys: System, grace: int, events: seq<Event>)
    decreases |events|
  {
    events == [] || (OrderlyEvent(sys, events[0]) && OrderlyEvents(React(sys, grace, events[0]), grace, events[1..]))
  }

  ghost predicate NoActiveRow(db: Db, t: Id) {
    forall a :: db.ActiveRow(a) ==> db.sessions[a].tokenId != t
  }

  ghost predicate OnlyActiveRow(db: Db, t: Id, s: Id) {
    forall a :: db.ActiveRow(a) && db.sessions[a].tokenId == t ==> a == s
  }

  predicate WasUsed(db: Db, t: Id) {
    t < db.nextToken && (t in db.tokens ==> db.tokens[t].status != TokenStatus.Unused)
  }

  /** What a submission still knows of what it has read, while it has its token to itself. */
  ghost predicate Relies(db: Db, thread: Thread) {
    match thread
    case CreateAuthorize(t, _, _, _) => t < db.nextToken && NoActiveRow(db, t)
    case CreateInsert(t, _, _) => t < db.nextToken && NoActiveRow(db, t)
    case MigrateRead(t, _) => WasUsed(db, t)
    case MigrateDeauthorize(t, _, s, _, _) => WasUsed(db, t) && OnlyActiveRow(db, t, s)
    case MigrateClose(t, _, s, _, _) => WasUsed(db, t) && OnlyActiveRow(db, t, s)
    case MigrateAuthorize(t, _, _, _) => WasUsed(db, t) && NoActiveRow(db, t)
    case MigrateInsert(t, _, _) => WasUsed(db, t) && NoActiveRow(db, t)
    case _ => true
  }

  ghost predicate Pending(threads: seq<Thread>, t: Id) {
    exists i :: 0 <= i < |threads| && threads[i].CreateRedeem? && threads[i].t == t
  }

  /** An unused token has an active row only while its redeem is pending. */
  ghost predicate RedeemsPending(sys: System) {
    forall a :: sys.db.ActiveRow(a) ==>
      var t := sys.db.sessions[a].tokenId;
      t in sys.db.tokens && sys.db.tokens[t].status == TokenStatus.Unused ==> Pending(sys.threads, t)
  }

  ghost predicate Apart(threads: seq<Thread>) {
    forall i, j :: 0 <= i < j < |threads| && Submits(threads[i]) && Submits(threads[j]) ==> threads[i].t != threads[j].t
  }

  ghost predicate Numbered(db: Db) {
    && (forall t :: t in db.tokens ==> t < db.nextToken)
    && (forall s :: s in db.sessions ==> db.sessions[s].tokenId < db.nextToken)
  }

  ghost predicate Orderly(sys: System) {
    && NewestActive(sys) && Invariants.OnePerToken(sys.db) && Numbered(sys.db)
    && Apart(sys.threads)
    && (forall i :: 0 <= i < |sys.threads| ==> Relies(sys.db, sys.threads[i]))
    && RedeemsPending(sys)
  }

  /** Old token ids are not reused, and no token becomes unused again. */
  ghost predicate TokensAge(db1: Db, db2: Db) {
    && db1.nextToken <= db2.nextToken
    && (forall t :: t in db2.tokens && t < db1.nextToken ==>
          && t in db1.tokens
          && (db2.tokens[t].status == TokenStatus.Unused ==> db1.tokens[t].status == TokenStatus.Unused))
  }

  predicate WritesTokens(thread: Thread) {
    || thread.CreateRedeem?
    || thread.CleanupExpireToken?
    || thread.RecoverExpireToken?
    || thread.PurgeOrphans?
    || thread.CreateToken?
    || thread.RevokeWrite?
  }

  lemma OthersLeaveTokens(sys: System, thread: Thread, grace: int, order: seq<Id>, ok: bool)
    requires !WritesTokens(thread)
    ensures var db' := Proceed(sys, thread, grace, order, ok).sys.db;
      db'.tokens == sys.db.tokens && db'.nextToken == sys.db.nextToken
  {
  }

  ghost predicate Ages(db1: Db, db2: Db) {
    TokensAge(db1, db2) && Numbered(db2)
  }

  lemma RedeemAndRevokeAge(sys: System, thread: Thread, grace: int, order: seq<Id>, ok: bool)
    requires Numbered(sys.db) && (thread.CreateRedeem? || thread.RevokeWrite?)
    ensures Ages(sys.db, Proceed(sys, thread, grace, order, ok).sys.db)
  {
  }

  lemma ExpiryAges(sys: System, thread: Thread, grace: int, order: seq<Id>, ok: bool)
    requires Numbered(sys.db) && (thread.CleanupExpireToken? || thread.RecoverExpireToken?)
    ensures Ages(sys.db, Proceed(sys, thread, grace, order, ok).sys.db)
  {
  }

  lemma PurgeAndCreateAge(sys: System, thread: Thread, grace: int, order: seq<Id>, ok: bool)
    requires Numbered(sys.db) && (thread.PurgeOrphans? || thread.CreateToken?)
    ensures Ages(sys.db, Proceed(sys, thread, grace, order, ok).sys.db)
  {
  }

  lemma RowsStayNumbered(sys: System, thread: Thread, grace: int, order: seq<Id>, ok: bool)
    requires NewestActive(sys) && Numbered(sys.db) && !WritesTokens(thread)
    ensures Numbered(Proceed(sys, thread, grace, order, ok).sys.db)
  {
    var sys' := Proceed(sys, thread, grace, order, ok).sys;
    OthersLeaveTokens(sys, thread, grace, order, ok);
    ProceedKeeps(sys, thread, grace, order, ok);
    forall s | s in sys'.db.sessions ensures sys'.db.sessions[s].tokenId < sys.db.nextToken {
      if s >= sys.db.nextSession { NewRowOfToken(sys, thread, grace, order, ok, s); }
    }
  }

  lemma NewRowOfToken(sys: System, thread: Thread, grace: int, order: seq<Id>, ok: bool, s: Id)
    requires NewestActive(sys) && s >= sys.db.nextSession
    requires s in Proceed(sys, thread, grace, order, ok).sys.db.sessions
    ensures Proceed(sys, thread, grace, order, ok).sys.db.sessions[s].tokenId in sys.db.tokens
  {
    if InsertsNow(sys, thread, ok) {
      InsertedRows(sys, thread, grace, order, ok);
    } else {
      ProceedKeeps(sys, thread, grace, order, ok);
      OthersAddNone(sys, thread, grace, order, ok);
      assert false;
    }
  }

  lemma ProceedAges(sys: System, thread: Thread, grace: int, order: seq<Id>, ok: bool)
    requires NewestActive(sys) && Numbered(sys.db)
    ensures Ages(sys.db, Proceed(sys, thread, grace, order, ok).sys.db)
  {
    if thread.CreateRedeem? || thread.RevokeWrite? {
      RedeemAndRevokeAge(sys, thread, grace, order, ok);
    } else if thread.CleanupExpireToken? || thread.RecoverExpireToken? {
      ExpiryAges(sys, thread, grace, order, ok);
    } else if thread.PurgeOrphans? || thread.CreateToken? {
      PurgeAndCreateAge(sys, thread, grace, order, ok);
    } else {
      OthersLeaveTokens(sys, thread, grace, order, ok);
      RowsStayNumbered(sys, thread, grace, order, ok);
    }
  }

  /** Unless the thread inserts for it, the active rows of a token can only close. */
  lemma OtherTokensClose(sys: System, thread: Thread, grace: int, order: seq<Id>, ok: bool, t: Id)
    requires NewestActive(sys) && !(InsertsNow(sys, thread, ok) && thread.t == t)
    ensures var db' := Proceed(sys, thread, grace, order, ok).sys.db;
      forall a :: db'.ActiveRow(a) && db'.sessions[a].tokenId == t ==>
        sys.db.ActiveRow(a) && sys.db.sessions[a].tokenId == t
  {
    if InsertsNow(sys, thread, ok) {
      InsertedRows(sys, thread, grace, order, ok);
    } else {
      OthersOnlyClose(sys, thread, grace, order, ok);
    }
  }

  lemma StillRelies(db1: Db, db2: Db, thread: Thread)
    requires Relies(db1, thread) && TokensAge(db1, db2)
    requires Submits(thread) ==> forall a :: db2.ActiveRow(a) && db2.sessions[a].tokenId == thread.t ==>
      db1.ActiveRow(a) && db1.sessions[a].tokenId == thread.t
    ensures Relies(db2, thread)
  {
  }

  lemma SameSubmission(sys: System, thread: Thread, grace: int, order: seq<Id>, ok: bool)
    ensures var next := Proceed(sys, thread, grace, order, ok).thread;
      Submits(next) ==> Submits(thread) && next.t == thread.t
  {
  }

  /** What a submission has just read or written is what it then relies on. */
  lemma NextRelies(sys: System, thread: Thread, grace: int, order: seq<Id>, ok: bool)
    requires Invariants.OnePerToken(sys.db) && Numbered(sys.db) && Relies(sys.db, thread)
    requires thread.AuthRead? && thread.t in sys.db.tokens && sys.db.tokens[thread.t].status == TokenStatus.Unused ==>
      NoActiveRow(sys.db, thread.t)
    ensures var next := Proceed(sys, thread, grace, order, ok);
      Relies(next.sys.db, next.thread)
  {
    if !Submits(thread) {
      SameSubmission(sys, thread, grace, order, ok);
    } else if thread.MigrateRead? {
      MigrateReadRelies(sys, thread, grace, order, ok);
    } else if thread.MigrateClose? {
      assert forall a :: sys.db.DisconnectSession(thread.s).ActiveRow(a) ==> sys.db.ActiveRow(a) && a != thread.s;
    }
  }

  lemma MigrateReadRelies(sys: System, thread: Thread, grace: int, order: seq<Id>, ok: bool)
    requires Invariants.OnePerToken(sys.db) && Relies(sys.db, thread) && thread.MigrateRead?
    ensures var next := Proceed(sys, thread, grace, order, ok);
      Relies(next.sys.db, next.thread)
  {
    if sys.db.ActiveRowOf(thread.t).Some? {
      var s := sys.db.ActiveRowOf(thread.t).value;
      assert sys.db.ActiveRow(s) && sys.db.sessions[s].tokenId == thread.t;
    }
  }

  /** A submission that has its token to itself inserts only what the guard allows. */
  lemma ReliesOnGuard(sys: System, thread: Thread, ok: bool)
    requires Relies(sys.db, thread)
    ensures InsertGuard(sys, thread, ok)
  {
  }

  lemma ScheduleRelies(sys: System, i: nat, grace: int, order: seq<Id>, ok: bool)
    requires Orderly(sys) && i < |sys.threads|
    ensures var next := Proceed(sys, sys.threads[i], grace, order, ok);
            var threads := sys.threads[i := next.thread];
      Apart(threads) && forall j :: 0 <= j < |threads| ==> Relies(next.sys.db, threads[j])
  {
    var thread := sys.threads[i];
    var next := Proceed(sys, thread, grace, order, ok);
    var threads := sys.threads[i := next.thread];
    SameSubmission(sys, thread, grace, order, ok);
    ProceedAges(sys, thread, grace, order, ok);
    forall j | 0 <= j < |threads| ensures Relies(next.sys.db, threads[j]) {
      if j != i {
        if Submits(threads[j]) { OtherTokensClose(sys, thread, grace, order, ok, threads[j].t); }
        StillRelies(sys.db, next.sys.db, threads[j]);
      } else {
        NextRelies(sys, thread, grace, order, ok);
      }
    }
  }

  /** A redeem that does not fail is no longer pending because its token is no longer unused. */
  lemma ScheduleRedeems(sys: System, i: nat, grace: int, order: seq<Id>, ok: bool)
    requires Orderly(sys) && i < |sys.threads| && (sys.threads[i].CreateRedeem? ==> ok)
    ensures RedeemsPending(React(sys, grace, Schedule(i, order, ok)))
  {
    var thread := sys.threads[i];
    var sys' := React(sys, grace, Schedule(i, order, ok));
    ProceedAges(sys, thread, grace, order, ok);
    forall a | sys'.db.ActiveRow(a) && sys'.db.sessions[a].tokenId in sys'.db.tokens &&
               sys'.db.tokens[sys'.db.sessions[a].tokenId].status == TokenStatus.Unused
      ensures Pending(sys'.threads, sys'.db.sessions[a].tokenId)
    {
      var t := sys'.db.sessions[a].tokenId;
      if InsertsNow(sys, thread, ok) && t == thread.t {
        assert sys'.threads[i].CreateRedeem? && sys'.threads[i].t == t;
      } else {
        OtherTokensClose(sys, thread, grace, order, ok, t);
        assert sys.db.ActiveRow(a) && sys.db.sessions[a].tokenId == t && t < sys.db.nextToken;
        var j :| 0 <= j < |sys.threads| && sys.threads[j].CreateRedeem? && sys.threads[j].t == t;
        assert j != i;
        assert sys'.threads[j] == sys.threads[j];
      }
    }
  }

  lemma ReactOrderly(sys: System, grace: int, event: Event)
    requires Orderly(sys) && OrderlyEvent(sys, event)
    ensures Orderly(React(sys, grace, event))
  {
    ReactKeeps(sys, grace, event);
    match event
    case Schedule(i, order, ok) =>
      if i < |sys.threads| {
        ScheduleRelies(sys, i, grace, order, ok);
        ScheduleRedeems(sys, i, grace, order, ok);
        ReliesOnGuard(sys, sys.threads[i], ok);
        ProceedOnePerToken(sys, sys.threads[i], grace, order, ok);
        ProceedAges(sys, sys.threads[i], grace, order, ok);
      }
    case Spawn(thread) => SpawnOrderly(sys, thread, grace);
    case _ =>
  }

  lemma SpawnOrderly(sys: System, thread: Thread, grace: int)
    requires Orderly(sys) && OrderlyEvent(sys, Spawn(thread))
    ensures Orderly(React(sys, grace, Spawn(thread)))
  {
    var sys' := React(sys, grace, Spawn(thread));
    if Starts(thread) {
      forall t | Pending(sys.threads, t) ensures Pending(sys'.threads, t) {
        var j :| 0 <= j < |sys.threads| && sys.threads[j].CreateRedeem? && sys.threads[j].t == t;
        assert sys'.threads[j] == sys.threads[j];
      }
    }
  }

  lemma {:induction false} OrderlyOnePerToken(sys: System, grace: int, events: seq<Event>)
    requires Orderly(sys) && OrderlyEvents(sys, grace, events)
    ensures AlwaysOnePerToken(sys, grace, events)
    decreases |events|
  {
    if events != [] {
      ReactOrderly(sys, grace, events[0]);
      OrderlyOnePerToken(React(sys, grace, events[0]), grace, events[1..]);
    }
  }

  /**
   * From a service without sessions: when submissions of one token do not overlap and no
   * redeem after an insert is lost, a token has at most one active row throughout, however
   * the other handlers interleave and whatever else fails.
   */
  lemma ApartSubmissionsKeepOnePerToken(db: Db, fw: map<Pair, int>, start: nat, grace: int, events: seq<Event>)
    requires db.sessions == map[] && forall t :: t in db.tokens ==> t < db.nextToken
    requires OrderlyEvents(System(db, fw, start, [], map[]), grace, events)
    ensures AlwaysOnePerToken(System(db, fw, start, [], map[]), grace, events)
  {
    OrderlyOnePerToken(System(db, fw, start, [], map[]), grace, events);
  }

  // ---- Neither condition can go ----------------------------------------------------------------

  /** One unused token of an hour, with some sessions and threads. */
  ghost function Shop(sessions: map<Id, Session>, fw: map<Pair, int>, threads: seq<Thread>, newest: map<string, Id>)
    : System
  {
    System(Db(map[0 := Plan(60, 1000)], map[0 := Token(0, TokenStatus.Unused, None, None)], sessions, 1, 1, |sessions|),
           fw, 0, threads, newest)
  }

  const PHONE_ROW := Session(0, PHONE, 0, 3600, SessionStatus.Active)

  const GO0 := Schedule(0, [], true)
  const GO1 := Schedule(1, [], true)

  lemma ExecuteTwo(sys: System, grace: int, first: Event, second: Event, rest: seq<Event>)
    ensures Execute(sys, grace, [first, second] + rest)
         == Execute(React(React(sys, grace, first), grace, second), grace, rest)
  {
    assert ([first, second] + rest)[1..] == [second] + rest;
    assert ([second] + rest)[1..] == rest;
  }

  /** The second device's insert leaves the first device's row alone. */
  lemma TabletInserts(threads: seq<Thread>, fw: map<Pair, int>, grace: int)
    requires |threads| == 2 && threads[1] == CreateInsert(0, TABLET, 3600)
    ensures var db := React(Shop(map[0 := PHONE_ROW], fw, threads, map[PHONE.mac := 0]), grace, GO1).db;
      db.ActiveRow(0) && db.ActiveRow(1) && db.sessions[0].tokenId == db.sessions[1].tokenId
  {
    assert PHONE.mac[16] != TABLET.mac[16];
  }

  lemma PhoneInserts(threads: seq<Thread>, fw: map<Pair, int>, grace: int)
    requires |threads| > 0 && threads[0] == CreateInsert(0, PHONE, 3600)
    ensures React(Shop(map[], fw, threads, map[]), grace, GO0)
         == Shop(map[0 := PHONE_ROW], fw, threads[0 := CreateRedeem(0, 3600)], map[PHONE.mac := 0])
  {
    assert Shop(map[], fw, threads, map[]).db.DisplaceMac(PHONE.mac).sessions == map[];
  }

  lemma ReadsUnused(
      sessions: map<Id, Session>, fw: map<Pair, int>, threads: seq<Thread>, newest: map<string, Id>, i: nat, pair: Pair,
      grace: int)
    requires i < |threads| && threads[i] == AuthRead(0, pair)
    ensures React(Shop(sessions, fw, threads, newest), grace, Schedule(i, [], true))
         == Shop(sessions, fw, threads[i := CreateAuthorize(0, pair, 60, 3600)], newest)
  {
  }

  lemma AuthorizesHour(
      sessions: map<Id, Session>, fw: map<Pair, int>, threads: seq<Thread>, newest: map<string, Id>, i: nat, pair: Pair,
      grace: int)
    requires i < |threads| && threads[i] == CreateAuthorize(0, pair, 60, 3600)
    ensures React(Shop(sessions, fw, threads, newest), grace, Schedule(i, [], true))
         == Shop(sessions, fw[pair := 3600000], threads[i := CreateInsert(0, pair, 3600)], newest)
  {
  }

  /** Two devices submit one code at the same time: both read, then both authorise, then both insert. */
  const OVERLAPPING := [GO0, GO1] + ([GO0, GO1] + ([GO0, GO1] + []))

  /** Overlapping submissions, with no call failing, leave one token with two active rows. */
  lemma InterleavedSubmissions(grace: int)
    ensures var threads := [AuthRead(0, PHONE), AuthRead(0, TABLET)];
            var db := Execute(Shop(map[], map[], threads, map[]), grace, OVERLAPPING).db;
      db.ActiveRow(0) && db.ActiveRow(1) && db.sessions[0].tokenId == db.sessions[1].tokenId
  {
    var threads := [AuthRead(0, PHONE), AuthRead(0, TABLET)];
    var priced := [CreateAuthorize(0, PHONE, 60, 3600), CreateAuthorize(0, TABLET, 60, 3600)];
    var paid := [CreateInsert(0, PHONE, 3600), CreateInsert(0, TABLET, 3600)];
    var fw := map[PHONE := 3600000];
    ExecuteTwo(Shop(map[], map[], threads, map[]), grace, GO0, GO1, [GO0, GO1] + ([GO0, GO1] + []));
    ReadsUnused(map[], map[], threads, map[], 0, PHONE, grace);
    ReadsUnused(map[], map[], threads[0 := priced[0]], map[], 1, TABLET, grace);
    assert threads[0 := priced[0]][1 := priced[1]] == priced;
    ExecuteTwo(Shop(map[], map[], priced, map[]), grace, GO0, GO1, [GO0, GO1] + []);
    AuthorizesHour(map[], map[], priced, map[], 0, PHONE, grace);
    AuthorizesHour(map[], map[PHONE := 3600000], priced[0 := paid[0]], map[], 1, TABLET, grace);
    assert priced[0 := paid[0]][1 := paid[1]] == paid;
    fw := fw[TABLET := 3600000];
    ExecuteTwo(Shop(map[], fw, paid, map[]), grace, GO0, GO1, []);
    PhoneInserts(paid, fw, grace);
    TabletInserts(paid[0 := CreateRedeem(0, 3600)], fw, grace);
  }

  const FAIL0 := Schedule(0, [], false)

  /** One device redeems a code but the redeem write fails; later another device submits the code. */
  const LOST := [GO0, GO0] + ([GO0, FAIL0] + ([Spawn(AuthRead(0, TABLET)), GO1] + ([GO1, GO1] + [])))

  /** A lost redeem, with no submissions overlapping, does the same. */
  lemma LostRedeem(grace: int)
    ensures var db := Execute(Shop(map[], map[], [AuthRead(0, PHONE)], map[]), grace, LOST).db;
      db.ActiveRow(0) && db.ActiveRow(1) && db.sessions[0].tokenId == db.sessions[1].tokenId
  {
    var rows := map[0 := PHONE_ROW];
    var newest := map[PHONE.mac := 0];
    var fw := map[PHONE := 3600000];
    LostFirst(grace);
    var half := [Spawn(AuthRead(0, TABLET)), GO1] + ([GO1, GO1] + []);
    assert Execute(Shop(map[], map[], [AuthRead(0, PHONE)], map[]), grace, LOST)
        == Execute(Shop(rows, fw, [Finished], newest), grace, half);
    ExecuteTwo(Shop(rows, fw, [Finished], newest), grace, Spawn(AuthRead(0, TABLET)), GO1, [GO1, GO1] + []);
    assert [Finished] + [AuthRead(0, TABLET)] == [Finished, AuthRead(0, TABLET)];
    ReadsUnused(rows, fw, [Finished, AuthRead(0, TABLET)], newest, 1, TABLET, grace);
    var priced := [Finished, CreateAuthorize(0, TABLET, 60, 3600)];
    assert [Finished, AuthRead(0, TABLET)][1 := priced[1]] == priced;
    ExecuteTwo(Shop(rows, fw, priced, newest), grace, GO1, GO1, []);
    AuthorizesHour(rows, fw, priced, newest, 1, TABLET, grace);
    TabletInserts(priced[1 := CreateInsert(0, TABLET, 3600)], fw[TABLET := 3600000], grace);
  }

  lemma LostFirst(grace: int)
    ensures Execute(Shop(map[], map[], [AuthRead(0, PHONE)], map[]), grace, LOST)
         == Execute(Shop(map[0 := PHONE_ROW], map[PHONE := 3600000], [Finished], map[PHONE.mac := 0]), grace,
                    [Spawn(AuthRead(0, TABLET)), GO1] + ([GO1, GO1] + []))
  {
    var rest := [Spawn(AuthRead(0, TABLET)), GO1] + ([GO1, GO1] + []);
    var priced := [CreateAuthorize(0, PHONE, 60, 3600)];
    ExecuteTwo(Shop(map[], map[], [AuthRead(0, PHONE)], map[]), grace, GO0, GO0, [GO0, FAIL0] + rest);
    ReadsUnused(map[], map[], [AuthRead(0, PHONE)], map[], 0, PHONE, grace);
    assert [AuthRead(0, PHONE)][0 := priced[0]] == priced;
    AuthorizesHour(map[], map[], priced, map[], 0, PHONE, grace);
    assert priced[0 := CreateInsert(0, PHONE, 3600)] == [CreateInsert(0, PHONE, 3600)];
    LostWrite(grace, rest);
  }

  lemma LostWrite(grace: int, rest: seq<Event>)
    ensures Execute(Shop(map[], map[PHONE := 3600000], [CreateInsert(0, PHONE, 3600)], map[]), grace,
                    [GO0, FAIL0] + rest)
         == Execute(Shop(map[0 := PHONE_ROW], map[PHONE := 3600000], [Finished], map[PHONE.mac := 0]), grace, rest)
  {
    var paid := [CreateInsert(0, PHONE, 3600)];
    ExecuteTwo(Shop(map[], map[PHONE := 3600000], paid, map[]), grace, GO0, FAIL0, rest);
    PhoneInserts(paid, map[PHONE := 3600000], grace);
    assert paid[0 := CreateRedeem(0, 3600)] == [CreateRedeem(0, 3600)];
    assert [CreateRedeem(0, 3600)][0 := Finished] == [Finished];
  }
}
