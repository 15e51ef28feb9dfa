/**
 * The three tables of the database and the statements that write them. Each statement, and
 * the one transaction that inserts a session, is one function from tables to tables.
 */
module Store {
  import opened Basics
  import opened Clock

  type Id = nat

  datatype Pair = Pair(mac: string, ip: string)

  datatype TokenStatus = Unused | Active | Expired | Revoked

  datatype SessionStatus = Active | Expired | Disconnected

  datatype Plan = Plan(durationMinutes: int, priceAriary: int)

  datatype Token = Token(
    planId: Id,
    status: TokenStatus,
    redeemedAt: Option<int>,
    expiresAt: Option<int>)

  datatype Session = Session(
    tokenId: Id,
    pair: Pair,
    startedAt: int,
    expiresAt: int,
    status: SessionStatus)

  datatype Db = Db(
    plans: map<Id, Plan>,
    tokens: map<Id, Token>,
    sessions: map<Id, Session>,
    nextPlan: Id,
    nextToken: Id,
    nextSession: Id)
  {
    /** The token survives the inner join with its plan. */
    predicate Joined(t: Id) {
      t in tokens && tokens[t].planId in plans
    }

    predicate ActiveRow(s: Id) {
      s in sessions && sessions[s].status == SessionStatus.Active
    }

    /** `SESSION_ACTIVE`: the active rows, joined with token and plan. */
    function ActiveRows(): set<Id> {
      set s | s in sessions && ActiveRow(s) && Joined(sessions[s].tokenId)
    }

    function ActiveRowsOf(t: Id): set<Id> {
      set s | s in ActiveRows() && sessions[s].tokenId == t
    }

    /** `SESSION_BY_TOKEN`. */
    function ActiveRowOf(t: Id): Option<Id> {
      First(ActiveRowsOf(t))
    }

    function LiveRowsOf(mac: string, now: nat): set<Id> {
      set s | s in ActiveRows() && sessions[s].pair.mac == mac && SqlLive(sessions[s].expiresAt, now)
    }

    /** `SESSION_BY_MAC`: the newest live row of a MAC. */
    function LiveRowOf(mac: string, now: nat): Option<Id> {
      Last(LiveRowsOf(mac, now))
    }

    function SavePlan(p: Id, plan: Plan): Db {
      if p in plans then this.(plans := plans[p := plan])
      else this.(plans := plans[nextPlan := plan], nextPlan := nextPlan + 1)
    }

    /** Inserting a token of a missing plan violates the foreign key. */
    function CreateToken(planId: Id): Db {
      if planId !in plans then this
      else this.(tokens := tokens[nextToken := Token(planId, TokenStatus.Unused, None, None)],
                 nextToken := nextToken + 1)
    }

    function RedeemToken(t: Id, expiresAt: int, stamp: int): Db {
      if t !in tokens then this
      else this.(tokens := tokens[t := tokens[t].(
          status := TokenStatus.Active, redeemedAt := Some(stamp), expiresAt := Some(expiresAt))])
    }

    function ExpireToken(t: Id): Db {
      if t !in tokens then this
      else this.(tokens := tokens[t := tokens[t].(status := TokenStatus.Expired)])
    }

    function RevokeToken(t: Id): Db {
      if t !in tokens || tokens[t].status != TokenStatus.Unused then this
      else this.(tokens := tokens[t := tokens[t].(status := TokenStatus.Revoked)])
    }

    function SetSession(s: Id, status: SessionStatus): Db {
      if s !in sessions then this
      else this.(sessions := sessions[s := sessions[s].(status := status)])
    }

    function ExpireSession(s: Id): Db {
      SetSession(s, SessionStatus.Expired)
    }

    function DisconnectSession(s: Id): Db {
      SetSession(s, SessionStatus.Disconnected)
    }

    /** The first statement of the insert transaction. */
    function DisplaceMac(mac: string): Db {
      this.(sessions := map s | s in sessions ::
          if ActiveRow(s) && sessions[s].pair.mac == mac
          then sessions[s].(status := SessionStatus.Disconnected) else sessions[s])
    }

    /** The insert transaction; it rolls back when the token does not exist. */
    function InsertSession(t: Id, pair: Pair, expiresAt: int, stamp: int): Option<Db> {
      if t !in tokens then None
      else
        var db := DisplaceMac(pair.mac);
        Some(db.(sessions := db.sessions[nextSession := Session(t, pair, stamp, expiresAt, SessionStatus.Active)],
                 nextSession := nextSession + 1))
    }

    /** The first statement of a purge: closed rows started before the cutoff. */
    function PurgeSessions(cutoff: int): Db {
      this.(sessions := map s | s in sessions && (ActiveRow(s) || sessions[s].startedAt >= cutoff) :: sessions[s])
    }

    predicate Referenced(t: Id) {
      exists s :: s in sessions && sessions[s].tokenId == t
    }

    /** The second statement of a purge: finished tokens that no row refers to. */
    function PurgeTokens(): Db {
      this.(tokens := map t | t in tokens &&
          (tokens[t].status == TokenStatus.Unused || tokens[t].status == TokenStatus.Active || Referenced(t)) ::
          tokens[t])
    }

    function Purge(cutoff: int): Db {
      PurgeSessions(cutoff).PurgeTokens()
    }

    /** Expiring a set of rows, each together with its token. */
    ghost function ExpireAll(ids: set<Id>): Db {
      this.(
        sessions := map s | s in sessions ::
          if s in ids then sessions[s].(status := SessionStatus.Expired) else sessions[s],
        tokens := map t | t in tokens ::
          if exists s :: s in ids && s in sessions && sessions[s].tokenId == t
          then tokens[t].(status := TokenStatus.Expired) else tokens[t])
    }
  }
}
