/**
 * The service as it runs: a database and a firewall updated in place, and the handlers that
 * drive them call by call. Every method does to the state what its handler does to a world.
 * The outcome of a firewall call is a parameter.
 */
module Service {
  import opened Basics
  import opened Clock
  import opened Store
  import Protocol
  import opened Invariants
  import opened Recovery
  import opened Evolution
  import opened Agreement
  import opened Outcomes

  type World = Protocol.World
  type Outcome = Protocol.Outcome
  type Config = Protocol.Config

  class Database {
    var plans: map<Id, Plan>
    var tokens: map<Id, Token>
    var sessions: map<Id, Session>
    var nextPlan: Id
    var nextToken: Id
    var nextSession: Id

    function View(): Db
      reads this
    {
      Db(plans, tokens, sessions, nextPlan, nextToken, nextSession)
    }

    constructor ()
      ensures View() == Db(map[], map[], map[], 0, 0, 0)
    {
      plans, tokens, sessions := map[], map[], map[];
      nextPlan, nextToken, nextSession := 0, 0, 0;
    }

    method RedeemToken(t: Id, expiresAt: int, stamp: int)
      modifies this
      ensures View() == old(View()).RedeemToken(t, expiresAt, stamp)
    {
      if t in tokens {
        tokens := tokens[t := tokens[t].(
          status := TokenStatus.Active, redeemedAt := Some(stamp), expiresAt := Some(expiresAt))];
      }
    }

    method ExpireToken(t: Id)
      modifies this
      ensures View() == old(View()).ExpireToken(t)
    {
      if t in tokens {
        tokens := tokens[t := tokens[t].(status := TokenStatus.Expired)];
      }
    }

    method RevokeToken(t: Id)
      modifies this
      ensures View() == old(View()).RevokeToken(t)
    {
      if t in tokens && tokens[t].status == TokenStatus.Unused {
        tokens := tokens[t := tokens[t].(status := TokenStatus.Revoked)];
      }
    }

    method ExpireSession(s: Id)
      modifies this
      ensures View() == old(View()).ExpireSession(s)
    {
      if s in sessions {
        sessions := sessions[s := sessions[s].(status := SessionStatus.Expired)];
      }
    }

    method DisconnectSession(s: Id)
      modifies this
      ensures View() == old(View()).DisconnectSession(s)
    {
      if s in sessions {
        sessions := sessions[s := sessions[s].(status := SessionStatus.Disconnected)];
      }
    }

    /** The insert transaction: displace the MAC's active rows, insert, commit or roll back. */
    method CreateSession(t: Id, pair: Pair, expiresAt: int, stamp: int) returns (r: Option<Id>)
      modifies this
      ensures match old(View()).InsertSession(t, pair, expiresAt, stamp)
              case None => r == None && View() == old(View())
              case Some(db) => r == Some(old(nextSession)) && View() == db
    {
      if t !in tokens {
        return None;
      }
      sessions := map s | s in sessions ::
        if sessions[s].status == SessionStatus.Active && sessions[s].pair.mac == pair.mac
        then sessions[s].(status := SessionStatus.Disconnected) else sessions[s];
      r := Some(nextSession);
      sessions := sessions[nextSession := Session(t, pair, stamp, expiresAt, SessionStatus.Active)];
      nextSession := nextSession + 1;
    }

    /** Both delete statements; the count is that of the first. */
    method PurgeExpiredSessions(cutoff: int) returns (count: nat)
      modifies this
      ensures View() == old(View()).Purge(cutoff)
      ensures count == |old(sessions)| - |sessions|
    {
      ghost var before := View();
      var doomed := set s | s in sessions &&
        sessions[s].status != SessionStatus.Active && sessions[s].startedAt < cutoff;
      count := |doomed|;
      RemainingRows(sessions, doomed);
      sessions := Without(sessions, doomed);
      var referenced := set s | s in sessions :: sessions[s].tokenId;
      tokens := WithoutOrphans(tokens, referenced);
      PurgedInPlace(before, cutoff, doomed, referenced);
    }

    /** The active rows, each once, in some order. */
    method GetActiveSessions() returns (rows: seq<Id>)
      ensures Lists(View(), rows, View().ActiveRows())
    {
      var todo := View().ActiveRows();
      rows := [];
      while todo != {}
        invariant todo <= View().ActiveRows()
        invariant Lists(View(), rows, View().ActiveRows() - todo)
        decreases todo
      {
        var s :| s in todo;
        assert s !in rows;
        ghost var seen := View().ActiveRows() - todo;
        rows := rows + [s];
        todo := todo - {s};
        assert View().ActiveRows() - todo == seen + {s};
      }
      assert View().ActiveRows() - {} == View().ActiveRows();
    }
  }

  function Without(sessions: map<Id, Session>, doomed: set<Id>): map<Id, Session> {
    map s | s in sessions && s !in doomed :: sessions[s]
  }

  lemma RemainingRows(sessions: map<Id, Session>, doomed: set<Id>)
    requires doomed <= sessions.Keys
    ensures |Without(sessions, doomed)| == |sessions| - |doomed|
  {
    var rest := Without(sessions, doomed);
    assert rest.Keys == sessions.Keys - doomed;
    assert |rest| == |rest.Keys| && |sessions| == |sessions.Keys|;
  }

  function WithoutOrphans(tokens: map<Id, Token>, referenced: set<Id>): map<Id, Token> {
    map t | t in tokens &&
      (tokens[t].status == TokenStatus.Unused || tokens[t].status == TokenStatus.Active || t in referenced) :: tokens[t]
  }

  lemma PurgedInPlace(db: Db, cutoff: int, doomed: set<Id>, referenced: set<Id>)
    requires doomed == set s | s in db.sessions &&
      db.sessions[s].status != SessionStatus.Active && db.sessions[s].startedAt < cutoff
    requires referenced == set s | s in Without(db.sessions, doomed) :: Without(db.sessions, doomed)[s].tokenId
    ensures db.Purge(cutoff)
         == db.(sessions := Without(db.sessions, doomed), tokens := WithoutOrphans(db.tokens, referenced))
  {
    var db1 := db.PurgeSessions(cutoff);
    assert db1.sessions == Without(db.sessions, doomed);
    assert forall t :: db1.Referenced(t) <==> t in referenced;
    assert db1.PurgeTokens().tokens == WithoutOrphans(db.tokens, referenced);
  }

  class Firewall {
    var entries: map<Pair, int>

    constructor ()
      ensures entries == map[]
    {
      entries := map[];
    }

    method AuthorizeClient(pair: Pair, seconds: int, now: nat, ok: bool) returns (done: bool)
      modifies this
      ensures done == ok
      ensures entries == if ok then old(entries)[pair := now + seconds * MS] else old(entries)
    {
      if ok {
        entries := entries[pair := now + seconds * MS];
      }
      done := ok;
    }

    method DeauthorizeClient(pair: Pair, ok: bool) returns (done: bool)
      modifies this
      ensures done == ok
      ensures entries == if ok then old(entries) - {pair} else old(entries)
    {
      if ok {
        entries := entries - {pair};
      }
      done := ok;
    }
  }

  /** What every handler keeps, from wherever it starts. */
  ghost predicate Keeps(w1: World, w2: World) {
    (DbInv(w1.db) ==> DbInv(w2.db)) && (TablesInv(w1) ==> TablesInv(w2)) && (Inv(w1) ==> Inv(w2))
  }

  lemma AuthDelivers(w: World, t: Id, pair: Pair, deauthOk: bool, authOk: bool)
    ensures var h := Protocol.PortalAuth(w, t, pair, deauthOk, authOk);
      && (DbInv(w.db) ==> (h.outcome.Connected? <==> Usable(w, t) && authOk))
      && Keeps(w, h.world)
      && (DbInv(w.db) && Agreed(w) ==> Agreed(h.world))
  {
    if DbInv(w.db) {
      ConnectsExactly(w, t, pair, deauthOk, authOk);
      AuthKeepsDb(w, t, pair, deauthOk, authOk);
      if EntitledInv(w) { AuthEntitled(w, t, pair, deauthOk, authOk); }
      if Inv(w) { AuthGrant(w, t, pair, deauthOk, authOk); }
      if Agreed(w) { AuthAgrees(w, t, pair, deauthOk, authOk); }
    }
  }

  lemma DisconnectKeepsAll(w: World, s: Id, ok: bool)
    ensures Keeps(w, Protocol.Disconnect(w, s, ok).world)
  {
    if DbInv(w.db) { DisconnectKeeps(w.db, s); }
    if GrantsInv(w) { FewerPairs(w, Protocol.Disconnect(w, s, ok).world); }
  }

  lemma DisconnectDelivers(w: World, s: Id, ok: bool)
    ensures var w' := Protocol.Disconnect(w, s, ok).world;
      && (Keyed(w.db) ==> DisconnectEffect(w, s, ok, Protocol.Disconnect(w, s, ok)))
      && Keeps(w, w')
      && (DbInv(w.db) && Agreed(w) ==>
            (Agreed(w') <==> (ok && s in w.db.sessions ==> PairUnshared(w, s))))
  {
    DisconnectKeepsAll(w, s, ok);
    if Keyed(w.db) { DisconnectMeans(w, s, ok); }
    if DbInv(w.db) && Agreed(w) { DisconnectAgrees(w, s, ok); }
  }

  class AppState {
    const db: Database
    const firewall: Firewall
    var now: nat
    var lastPurge: nat
    ghost var grants: set<Protocol.Grant>
    ghost var entitled: map<Id, int>

    ghost function View(): World
      reads this, db, firewall
    {
      Protocol.World(db.View(), firewall.entries, now, lastPurge, grants, entitled)
    }

    constructor (now: nat)
      ensures View() == Protocol.Init(now) && fresh(db) && fresh(firewall)
    {
      db := new Database();
      firewall := new Firewall();
      this.now, lastPurge := now, now;
      grants, entitled := {}, map[];
    }

    /** Firewall first, so that a failure leaves the token unused; then the row; then the token. */
    method CreateSession(t: Id, minutes: int, pair: Pair, authOk: bool) returns (outcome: Outcome)
      modifies this, db, firewall
      ensures Protocol.Handled(View(), outcome) == Protocol.CreateSession(old(View()), t, minutes, pair, authOk)
    {
      var expiresAt := (now + minutes * 60 * MS) / MS;
      var ok := firewall.AuthorizeClient(pair, minutes * 60, now, authOk);
      if !ok {
        return Protocol.FirewallFailed;
      }
      grants := grants + {Protocol.Grant(t, pair, now + minutes * 60 * MS)};
      var id := db.CreateSession(t, pair, expiresAt, Stamp(now));
      if id.None? {
        return Protocol.StoreFailed;
      }
      db.RedeemToken(t, expiresAt, Stamp(now));
      entitled := Protocol.FirstSeen(entitled, t, expiresAt);
      return Protocol.Connected(id.value);
    }

    method MigrateSession(t: Id, pair: Pair, deauthOk: bool, authOk: bool) returns (outcome: Outcome)
      modifies this, db, firewall
      ensures Protocol.Handled(View(), outcome) == Protocol.MigrateSession(old(View()), t, pair, deauthOk, authOk)
    {
      var found := db.View().ActiveRowOf(t);
      if found.None? {
        return Protocol.NoActiveSession;
      }
      var row := db.sessions[found.value];
      var remaining := Remaining(row.expiresAt, now);
      if remaining <= 0 {
        return Protocol.AlreadyExpired;
      }
      var _ := firewall.DeauthorizeClient(row.pair, deauthOk);
      db.DisconnectSession(found.value);
      var ok := firewall.AuthorizeClient(pair, remaining, now, authOk);
      if !ok {
        return Protocol.FirewallFailed;
      }
      grants := grants + {Protocol.Grant(t, pair, now + remaining * MS)};
      var id := db.CreateSession(t, pair, row.expiresAt, Stamp(now));
      if id.None? {
        return Protocol.StoreFailed;
      }
      return Protocol.Connected(id.value);
    }

    /** A submitted code; on consistent tables it connects exactly when it should, and keeps what it must. */
    method PortalAuth(t: Id, pair: Pair, deauthOk: bool, authOk: bool) returns (outcome: Outcome)
      modifies this, db, firewall
      ensures Protocol.Handled(View(), outcome) == Protocol.PortalAuth(old(View()), t, pair, deauthOk, authOk)
      ensures DbInv(old(View()).db) ==> (outcome.Connected? <==> Usable(old(View()), t) && authOk)
      ensures Keeps(old(View()), View())
      ensures DbInv(old(View()).db) && Agreed(old(View())) ==> Agreed(View())
    {
      AuthDelivers(View(), t, pair, deauthOk, authOk);
      if t !in db.tokens || db.tokens[t].planId !in db.plans {
        return Protocol.Invalid;
      }
      var token := db.tokens[t];
      match token.status {
        case Unused => outcome := CreateSession(t, db.plans[token.planId].durationMinutes, pair, authOk);
        case Active => outcome := MigrateSession(t, pair, deauthOk, authOk);
        case Expired => outcome := Protocol.Invalid;
        case Revoked => outcome := Protocol.Invalid;
      }
    }

    /** Closes any row; it keeps agreement exactly when no other open row uses the pair. */
    method Disconnect(s: Id, deauthOk: bool) returns (outcome: Outcome)
      modifies db, firewall
      ensures Protocol.Handled(View(), outcome) == Protocol.Disconnect(old(View()), s, deauthOk)
      ensures Keyed(old(View()).db) ==> DisconnectEffect(old(View()), s, deauthOk, Protocol.Handled(View(), outcome))
      ensures Keeps(old(View()), View())
      ensures DbInv(old(View()).db) && Agreed(old(View())) ==>
        (Agreed(View()) <==> (deauthOk && s in old(View()).db.sessions ==> PairUnshared(old(View()), s)))
    {
      DisconnectDelivers(View(), s, deauthOk);
      if s !in db.sessions || !db.View().Joined(db.sessions[s].tokenId) {
        return Protocol.NotFound;
      }
      var ok := firewall.DeauthorizeClient(db.sessions[s].pair, deauthOk);
      if !ok {
        return Protocol.FirewallFailed;
      }
      db.DisconnectSession(s);
      return Protocol.Done;
    }

    method Purge(cfg: Config) returns (count: nat)
      modifies this, db
      ensures View() == Protocol.PurgeStep(cfg, old(View()))
      ensures count == |old(db.sessions)| - |db.sessions|
    {
      count := db.PurgeExpiredSessions(Protocol.Cutoff(cfg, now));
      lastPurge := now;
    }

    /** One round of the cleanup ticker: `failing` are the rows whose deauthorise call fails. */
    method CleanupRound(cfg: Config, failing: set<Id>)
      modifies this, db, firewall
      ensures View() == Protocol.CleanupRound(cfg, old(View()), failing)
    {
      var rows := db.GetActiveSessions();
      var snapshot := db.sessions;
      for i := 0 to |rows|
        invariant db.sessions.Keys == snapshot.Keys
        invariant View() == CleanupRows(cfg, old(View()), rows[..i], failing, false)
      {
        var s := rows[i];
        var row := snapshot[s];
        assert rows[..i + 1][..i] == rows[..i];
        if Remaining(row.expiresAt, now) <= -cfg.grace {
          var ok := firewall.DeauthorizeClient(row.pair, s !in failing);
          if ok {
            db.ExpireSession(s);
            db.ExpireToken(row.tokenId);
          }
        }
      }
      assert rows[..|rows|] == rows;
      CleanupAnyOrder(cfg, old(View()), rows, failing, false);
      if now - lastPurge >= Protocol.PURGE_INTERVAL {
        var _ := Purge(cfg);
      }
    }

    /** One row of the restart, as the query returned it. */
    method RecoverSession(cfg: Config, s: Id, row: Session, authOk: bool) returns (restored: nat, expired: nat)
      modifies this`grants, db, firewall
      ensures View() == RecoverRow(cfg, old(View()), s, row, authOk)
      ensures restored == if Remaining(row.expiresAt, now) > cfg.grace && authOk then 1 else 0
      ensures expired == if Remaining(row.expiresAt, now) > cfg.grace then 0 else 1
    {
      restored, expired := 0, 0;
      var remaining := Remaining(row.expiresAt, now);
      if remaining > cfg.grace {
        var ok := firewall.AuthorizeClient(row.pair, remaining, now, authOk);
        if ok {
          grants := grants + {Protocol.Grant(row.tokenId, row.pair, now + remaining * MS)};
          restored := 1;
        }
      } else {
        db.ExpireSession(s);
        db.ExpireToken(row.tokenId);
        expired := 1;
      }
    }

    /** The recovery loop over the rows of the query. */
    method RecoverSessions(
        cfg: Config, rows: seq<Id>, failing: set<Id>, ghost toRestore: set<Id>, ghost toExpire: set<Id>)
      returns (restored: nat, expired: nat)
      requires forall i :: 0 <= i < |rows| ==> rows[i] in db.sessions
      requires forall i, j :: 0 <= i < j < |rows| ==> rows[i] != rows[j]
      requires forall i :: 0 <= i < |rows| ==>
        var fits := Remaining(db.sessions[rows[i]].expiresAt, now) > cfg.grace;
        (rows[i] in toRestore <==> fits && rows[i] !in failing) && (rows[i] in toExpire <==> !fits)
      modifies this`grants, db, firewall
      ensures View() == RecoverRows(cfg, old(View()), rows, failing)
      ensures restored == |Ids(rows) * toRestore| && expired == |Ids(rows) * toExpire|
    {
      ghost var w := View();
      var snapshot := db.sessions;
      restored, expired := 0, 0;
      for i := 0 to |rows|
        invariant View() == RecoverRows(cfg, w, rows[..i], failing)
        invariant restored == |Ids(rows[..i]) * toRestore| && expired == |Ids(rows[..i]) * toExpire|
      {
        assert rows[..i + 1][..i] == rows[..i];
        IdsOneMore(rows, i, toRestore);
        IdsOneMore(rows, i, toExpire);
        var r, e := RecoverSession(cfg, rows[i], snapshot[rows[i]], rows[i] !in failing);
        restored, expired := restored + r, expired + e;
      }
      assert rows[..|rows|] == rows;
    }

    /**
     * The restart: restore what has more time than the grace, expire the rest, then purge.
     * `failing` are the rows whose authorise call fails.
     */
    method Recover(cfg: Config, failing: set<Id>) returns (restored: nat, expired: nat)
      requires OnePerMac(db.View())
      modifies this, db, firewall
      ensures View() == Protocol.PurgeStep(cfg, Protocol.RecoveryLoop(cfg, old(View()), failing))
      ensures restored == |Protocol.RestorableRows(cfg, old(View())) - failing|
      ensures expired == |old(db.View()).ActiveRows() - Protocol.RestorableRows(cfg, old(View()))|
    {
      ghost var w := View();
      ghost var toRestore := Protocol.RestorableRows(cfg, w) - failing;
      ghost var toExpire := w.db.ActiveRows() - Protocol.RestorableRows(cfg, w);
      var rows := db.GetActiveSessions();
      assert Ids(rows) * toRestore == toRestore && Ids(rows) * toExpire == toExpire;
      RecoverAnyOrder(cfg, w, rows, failing);
      restored, expired := RecoverSessions(cfg, rows, failing, toRestore, toExpire);
      var _ := Purge(cfg);
    }
  }

  ghost function Ids(rows: seq<Id>): set<Id> {
    set s | s in rows
  }

  lemma IdsOneMore(rows: seq<Id>, i: nat, chosen: set<Id>)
    requires i < |rows| && forall a, b :: 0 <= a < b < |rows| ==> rows[a] != rows[b]
    ensures |Ids(rows[..i + 1]) * chosen| == |Ids(rows[..i]) * chosen| + (if rows[i] in chosen then 1 else 0)
  {
    var s := rows[i];
    assert rows[..i + 1] == rows[..i] + [s];
    assert s !in rows[..i];
    assert Ids(rows[..i + 1]) * chosen == (Ids(rows[..i]) * chosen) + (if s in chosen then {s} else {});
  }
}
