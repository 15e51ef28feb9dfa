/**
 * What the handlers achieve when they answer: exactly when a submission connects, and what
 * connecting, moving and disconnecting mean for the tables and the firewall.
 */
module Outcomes {
  import opened Basics
  import opened Clock
  import opened Store
  import opened Protocol
  import opened Invariants
  import opened Evolution
  import opened Agreement

  lemma UsableRow(w: World, t: Id)
    requires DbInv(w.db) && t in w.db.tokens
    ensures Usable(w, t) <==>
      || w.db.tokens[t].status == TokenStatus.Unused
      || (&& w.db.ActiveRowOf(t).Some?
          && Remaining(w.db.sessions[w.db.ActiveRowOf(t).value].expiresAt, w.now) > 0)
  {
    if w.db.ActiveRowOf(t).Some? {
      var r := w.db.ActiveRowOf(t).value;
      assert w.db.ActiveRow(r) && w.db.sessions[r].tokenId == t;
      assert Remaining(w.db.sessions[r].expiresAt, w.now) > 0 ==> OpenRow(w, t, r);
    }
    if w.db.tokens[t].status != TokenStatus.Unused && Usable(w, t) {
      var s: Id :| OpenRow(w, t, s);
      TheActiveRow(w.db, s);
    }
  }

  /** A submitted code connects exactly when its token is usable and the firewall accepts the pair. */
  lemma ConnectsExactly(w: World, t: Id, pair: Pair, deauthOk: bool, authOk: bool)
    requires DbInv(w.db)
    ensures PortalAuth(w, t, pair, deauthOk, authOk).outcome.Connected? <==> Usable(w, t) && authOk
  {
    if t in w.db.tokens {
      UsableRow(w, t);
      if w.db.ActiveRowOf(t).Some? {
        var r := w.db.ActiveRowOf(t).value;
        assert w.db.ActiveRow(r) && w.db.sessions[r].tokenId == t;
      }
    }
  }

  /** The row of a submission that connected: for its token and pair, with the time paid for. */
  lemma ConnectedRow(w: World, t: Id, pair: Pair, deauthOk: bool, authOk: bool)
    requires DbInv(w.db) && PortalAuth(w, t, pair, deauthOk, authOk).outcome.Connected?
    ensures var h := PortalAuth(w, t, pair, deauthOk, authOk);
            var s := h.outcome.sessionId;
      && s !in w.db.sessions && h.world.db.ActiveRow(s)
      && h.world.db.sessions[s].tokenId == t && h.world.db.sessions[s].pair == pair
      && Served(h.world, s)
      && h.world.db.sessions[s].expiresAt ==
           if w.db.tokens[t].status == TokenStatus.Unused
           then Stamp(w.now) + 60 * w.db.plans[w.db.tokens[t].planId].durationMinutes
           else w.db.tokens[t].expiresAt.value
  {
    if w.db.tokens[t].status == TokenStatus.Active {
      var r := w.db.ActiveRowOf(t).value;
      assert w.db.ActiveRow(r) && w.db.sessions[r].tokenId == t;
    }
  }

  /**
   * Once connected, the new row is the only active row of its device and of its token, the
   * pair is let through until within a second of the row's expiry, and that expiry is the
   * purchased duration from now, or for a token in use the expiry it had.
   */
  lemma ConnectedMeans(w: World, t: Id, pair: Pair, deauthOk: bool, authOk: bool)
    requires DbInv(w.db) && PortalAuth(w, t, pair, deauthOk, authOk).outcome.Connected?
    ensures var h := PortalAuth(w, t, pair, deauthOk, authOk);
            var s := h.outcome.sessionId;
      && s !in w.db.sessions && h.world.db.ActiveRow(s)
      && h.world.db.sessions[s].tokenId == t && h.world.db.sessions[s].pair == pair
      && Served(h.world, s)
      && (forall a :: h.world.db.ActiveRow(a) && a != s ==>
            h.world.db.sessions[a].pair.mac != pair.mac && h.world.db.sessions[a].tokenId != t)
      && h.world.db.sessions[s].expiresAt ==
           if w.db.tokens[t].status == TokenStatus.Unused
           then Stamp(w.now) + 60 * w.db.plans[w.db.tokens[t].planId].durationMinutes
           else w.db.tokens[t].expiresAt.value
  {
    ConnectedRow(w, t, pair, deauthOk, authOk);
    AuthKeepsDb(w, t, pair, deauthOk, authOk);
  }

  /** A migration takes the old pair out of the firewall, unless the device keeps its pair or the call fails. */
  lemma MigrationLeavesOldPair(w: World, s: Id, pair: Pair, deauthOk: bool)
    requires DbInv(w.db) && w.db.ActiveRow(s) && OpenRow(w, w.db.sessions[s].tokenId, s)
    ensures var row := w.db.sessions[s];
            var h := PortalAuth(w, row.tokenId, pair, deauthOk, true);
      && !h.world.db.ActiveRow(s)
      && (row.pair in h.world.fw <==> row.pair == pair || (!deauthOk && row.pair in w.fw))
      && (forall p :: p != row.pair && p != pair ==>
            (p in h.world.fw <==> p in w.fw) && (p in w.fw ==> h.world.fw[p] == w.fw[p]))
  {
    TheActiveRow(w.db, s);
    JoinedRows(w.db);
  }

  /**
   * What a submission is told, and that without a connection nothing changes except when the
   * authorise call fails.
   */
  lemma AnswersExactly(w: World, t: Id, pair: Pair, deauthOk: bool, authOk: bool)
    requires DbInv(w.db)
    ensures var h := PortalAuth(w, t, pair, deauthOk, authOk);
      && (h.outcome == Invalid <==>
            t !in w.db.tokens || w.db.tokens[t].status in {TokenStatus.Expired, TokenStatus.Revoked})
      && (h.outcome == NoActiveSession <==>
            && t in w.db.tokens && w.db.tokens[t].status == TokenStatus.Active
            && forall s :: w.db.ActiveRow(s) ==> w.db.sessions[s].tokenId != t)
      && (h.outcome == AlreadyExpired <==>
            exists s: Id :: LastSecond(w, t, s))
      && (h.outcome == FirewallFailed <==> Usable(w, t) && !authOk)
      && (h.outcome.Connected? <==> Usable(w, t) && authOk)
      && (h.outcome in {Invalid, NoActiveSession, AlreadyExpired} ==> h.world == w)
  {
    JoinedRows(w.db);
    ConnectsExactly(w, t, pair, deauthOk, authOk);
    forall s: Id | w.db.ActiveRow(s) && w.db.sessions[s].tokenId == t ensures w.db.ActiveRowOf(t) == Some(s) {
      TheActiveRow(w.db, s);
    }
    if t in w.db.tokens {
      UsableRow(w, t);
      if w.db.ActiveRowOf(t).Some? {
        var r := w.db.ActiveRowOf(t).value;
        assert w.db.ActiveRow(r) && w.db.sessions[r].tokenId == t;
        assert LastSecond(w, t, r) <==> Remaining(w.db.sessions[r].expiresAt, w.now) <= 0;
      }
    }
  }

  /** The active row of the token has less than a second left. */
  ghost predicate LastSecond(w: World, t: Id, s: Id) {
    w.db.ActiveRow(s) && w.db.sessions[s].tokenId == t && MS * w.db.sessions[s].expiresAt - w.now < MS
  }

  /**
   * What a failed authorise call leaves: a first redemption all as it was, a migration the old
   * row closed and its pair out of the firewall, if that call succeeded.
   */
  lemma FailureLeaves(w: World, t: Id, pair: Pair, deauthOk: bool)
    requires DbInv(w.db) && Usable(w, t)
    ensures var h := PortalAuth(w, t, pair, deauthOk, false);
      && (w.db.tokens[t].status == TokenStatus.Unused ==> h.world == w)
      && (forall s: Id :: OpenRow(w, t, s) ==>
            && h.world == w.(db := h.world.db, fw := h.world.fw)
            && h.world.fw == (if deauthOk then w.fw - {w.db.sessions[s].pair} else w.fw)
            && h.world.db == w.db.(
                 sessions := w.db.sessions[s := w.db.sessions[s].(status := SessionStatus.Disconnected)]))
  {
    JoinedRows(w.db);
    forall s: Id | OpenRow(w, t, s)
      ensures w.db.ActiveRowOf(t) == Some(s) && w.db.tokens[t].status == TokenStatus.Active
    {
      TheActiveRow(w.db, s);
    }
  }

  /** The token's own new state: redeemed now for the plan's duration, or as it was. */
  ghost predicate RedeemedOnce(w: World, w': World, t: Id)
    requires w.db.Joined(t)
  {
    w'.db.tokens == if w.db.tokens[t].status != TokenStatus.Unused then w.db.tokens else w.db.tokens[t :=
      w.db.tokens[t].(status := TokenStatus.Active, redeemedAt := Some(w.now / MS),
                      expiresAt := Some(w.now / MS + 60 * w.db.plans[w.db.tokens[t].planId].durationMinutes))]
  }

  /**
   * What connecting changes besides the new row: the token on its first redemption; the other
   * active rows of the device and of the token, which are closed; and nothing else in the tables.
   */
  lemma ConnectedChanges(w: World, t: Id, pair: Pair, deauthOk: bool, authOk: bool)
    requires DbInv(w.db) && PortalAuth(w, t, pair, deauthOk, authOk).outcome.Connected?
    ensures w.db.Joined(t)
    ensures var w' := PortalAuth(w, t, pair, deauthOk, authOk).world;
      && RedeemedOnce(w, w', t)
      && w'.db == w.db.(tokens := w'.db.tokens, sessions := w'.db.sessions, nextSession := w.db.nextSession + 1)
      && w'.db.sessions.Keys == w.db.sessions.Keys + {w.db.nextSession}
      && w'.db.sessions[w.db.nextSession].startedAt == w.now / MS
      && forall s :: s in w.db.sessions ==>
           w'.db.sessions[s] ==
             if w.db.ActiveRow(s) && (w.db.sessions[s].pair.mac == pair.mac || w.db.sessions[s].tokenId == t)
             then w.db.sessions[s].(status := SessionStatus.Disconnected) else w.db.sessions[s]
  {
    JoinedRows(w.db);
    forall s: Id | w.db.ActiveRow(s) && w.db.sessions[s].tokenId == t ensures w.db.ActiveRowOf(t) == Some(s) {
      TheActiveRow(w.db, s);
    }
    if w.db.tokens[t].status == TokenStatus.Active {
      var r := w.db.ActiveRowOf(t).value;
      assert w.db.ActiveRow(r) && w.db.sessions[r].tokenId == t;
      MoveResult(w, t, r, pair, deauthOk);
    } else {
      FreshResult(w, t, pair);
    }
  }

  /** The rows after closing one and inserting another. */
  lemma MovedRows(db: Db, r: Id, t: Id, pair: Pair, expiresAt: int, stamp: int)
    requires Keyed(db) && db.ActiveRow(r) && t in db.tokens
    ensures var db' := db.DisconnectSession(r).InsertSession(t, pair, expiresAt, stamp).value;
      && db' == db.(sessions := db'.sessions, nextSession := db.nextSession + 1)
      && db'.sessions.Keys == db.sessions.Keys + {db.nextSession}
      && db'.sessions[db.nextSession].startedAt == stamp
      && forall s :: s in db.sessions ==>
           db'.sessions[s] ==
             if s == r || (db.ActiveRow(s) && db.sessions[s].pair.mac == pair.mac)
             then db.sessions[s].(status := SessionStatus.Disconnected) else db.sessions[s]
  {
  }

  lemma MoveResult(w: World, t: Id, r: Id, pair: Pair, deauthOk: bool)
    requires Keyed(w.db) && t in w.db.tokens && w.db.ActiveRowOf(t) == Some(r) && w.db.ActiveRow(r)
    requires Remaining(w.db.sessions[r].expiresAt, w.now) > 0
    ensures var db' := MigrateSession(w, t, pair, deauthOk, true).world.db;
      && db' == w.db.(sessions := db'.sessions, nextSession := w.db.nextSession + 1)
      && db'.sessions.Keys == w.db.sessions.Keys + {w.db.nextSession}
      && db'.sessions[w.db.nextSession].startedAt == w.now / MS
      && forall s :: s in w.db.sessions ==>
           db'.sessions[s] ==
             if s == r || (w.db.ActiveRow(s) && w.db.sessions[s].pair.mac == pair.mac)
             then w.db.sessions[s].(status := SessionStatus.Disconnected) else w.db.sessions[s]
  {
    MigrationResult(w, t, r, pair, deauthOk, true);
    MovedRows(w.db, r, t, pair, w.db.sessions[r].expiresAt, Stamp(w.now));
  }

  lemma FreshResult(w: World, t: Id, pair: Pair)
    requires DbInv(w.db) && t in w.db.tokens && w.db.tokens[t].status == TokenStatus.Unused
    ensures var minutes := w.db.plans[w.db.tokens[t].planId].durationMinutes;
            var w' := CreateSession(w, t, minutes, pair, true).world;
      && RedeemedOnce(w, w', t)
      && w'.db == w.db.(tokens := w'.db.tokens, sessions := w'.db.sessions, nextSession := w.db.nextSession + 1)
      && w'.db.sessions.Keys == w.db.sessions.Keys + {w.db.nextSession}
      && w'.db.sessions[w.db.nextSession].startedAt == w.now / MS
      && (forall s :: s in w.db.sessions ==> w.db.sessions[s].tokenId != t)
      && forall s :: s in w.db.sessions ==>
           w'.db.sessions[s] ==
             if w.db.ActiveRow(s) && w.db.sessions[s].pair.mac == pair.mac
             then w.db.sessions[s].(status := SessionStatus.Disconnected) else w.db.sessions[s]
  {
    forall s | s in w.db.sessions ensures w.db.sessions[s].tokenId != t {
      assert w.db.sessions[s].tokenId in w.db.tokens;
    }
  }

  /** A first redemption changes no pair of the firewall but its own. */
  lemma RedemptionLeavesOthers(w: World, t: Id, pair: Pair, deauthOk: bool)
    requires DbInv(w.db) && t in w.db.tokens && w.db.tokens[t].status == TokenStatus.Unused
    ensures var minutes := w.db.plans[w.db.tokens[t].planId].durationMinutes;
      PortalAuth(w, t, pair, deauthOk, true).world.fw == w.fw[pair := w.now + 60 * minutes * MS]
  {
  }

  /** What a disconnect answers and does, on any tables: the firewall call comes first. */
  ghost predicate DisconnectEffect(w: World, s: Id, ok: bool, h: Handled) {
    && (h.outcome == Done <==> s in w.db.sessions && ok)
    && (h.outcome == NotFound <==> s !in w.db.sessions)
    && (h.outcome == FirewallFailed <==> s in w.db.sessions && !ok)
    && (h.outcome != Done ==> h.world == w)
    && (h.outcome == Done ==>
          && h.world == w.(db := h.world.db, fw := w.fw - {w.db.sessions[s].pair})
          && h.world.db == w.db.(
               sessions := w.db.sessions[s := w.db.sessions[s].(status := SessionStatus.Disconnected)]))
  }

  /**
   * A disconnect succeeds exactly for an existing row and an answering firewall. Then the row
   * is closed and its pair shut out, and no other row, token or pair changes; otherwise nothing
   * changes at all.
   */
  lemma DisconnectMeans(w: World, s: Id, ok: bool)
    requires Keyed(w.db)
    ensures DisconnectEffect(w, s, ok, Disconnect(w, s, ok))
  {
    JoinedRows(w.db);
  }
}
