/**
 * The token, session and firewall protocol at the granularity of whole handlers: database
 * writes succeed, each firewall call may fail, and a failed call leaves the set unchanged.
 * `grants` and `entitled` are history: every authorise call that succeeded, and the expiry
 * each token received at its first redemption.
 */
module Protocol {
  import opened Basics
  import opened Clock
  import opened Store

  datatype Config = Config(grace: int, retentionDays: int)

  datatype Grant = Grant(tokenId: Id, pair: Pair, deadline: int)

  datatype World = World(
    db: Db,
    fw: map<Pair, int>,
    now: nat,
    lastPurge: nat,
    grants: set<Grant>,
    entitled: map<Id, int>)

  datatype Outcome =
    | Connected(sessionId: Id)
    | Done
    | Invalid
    | NotFound
    | NoActiveSession
    | AlreadyExpired
    | FirewallFailed
    | StoreFailed

  datatype Handled = Handled(world: World, outcome: Outcome)

  const PURGE_INTERVAL: int := 3600 * MS

  ghost function Init(now: nat): World {
    World(Db(map[], map[], map[], 0, 0, 0), map[], now, now, {}, map[])
  }

  function FirstSeen(entitled: map<Id, int>, t: Id, expiresAt: int): map<Id, int> {
    if t in entitled then entitled else entitled[t := expiresAt]
  }

  // ---- Handlers ------------------------------------------------------------------------

  /** A successful authorise call sets the deadline of the pair. */
  function Authorize(w: World, t: Id, pair: Pair, seconds: int): World {
    var deadline := w.now + seconds * MS;
    w.(fw := w.fw[pair := deadline], grants := w.grants + {Grant(t, pair, deadline)})
  }

  function Deauthorize(w: World, pair: Pair, ok: bool): World {
    if ok then w.(fw := w.fw - {pair}) else w
  }

  /** Redeem a fresh token: firewall first, then the session row, then the token. */
  function CreateSession(w: World, t: Id, minutes: int, pair: Pair, authOk: bool): Handled {
    if !authOk then Handled(w, FirewallFailed)
    else
      var expiresAt := (w.now + minutes * 60 * MS) / MS;
      var w1 := Authorize(w, t, pair, minutes * 60);
      match w1.db.InsertSession(t, pair, expiresAt, Stamp(w.now))
      case None => Handled(w1, StoreFailed)
      case Some(db) =>
        Handled(w1.(db := db.RedeemToken(t, expiresAt, Stamp(w.now)),
                    entitled := FirstSeen(w1.entitled, t, expiresAt)),
                Connected(w.db.nextSession))
  }

  /** Move the active session of a token to a new pair, keeping its expiry. */
  function MigrateSession(w: World, t: Id, pair: Pair, deauthOk: bool, authOk: bool): Handled {
    match w.db.ActiveRowOf(t)
    case None => Handled(w, NoActiveSession)
    case Some(s) =>
      var row := w.db.sessions[s];
      var remaining := Remaining(row.expiresAt, w.now);
      if remaining <= 0 then Handled(w, AlreadyExpired)
      else
        var w1 := Deauthorize(w, row.pair, deauthOk);
        var w2 := w1.(db := w1.db.DisconnectSession(s));
        if !authOk then Handled(w2, FirewallFailed)
        else
          var w3 := Authorize(w2, t, pair, remaining);
          match w3.db.InsertSession(t, pair, row.expiresAt, Stamp(w.now))
          case None => Handled(w3, StoreFailed)
          case Some(db) => Handled(w3.(db := db), Connected(w.db.nextSession))
  }

  /** What a submitted code leads to, by the stored status of its token. */
  function PortalAuth(w: World, t: Id, pair: Pair, deauthOk: bool, authOk: bool): Handled {
    if !w.db.Joined(t) then Handled(w, Invalid)
    else
      var token := w.db.tokens[t];
      match token.status
      case Unused => CreateSession(w, t, w.db.plans[token.planId].durationMinutes, pair, authOk)
      case Active => MigrateSession(w, t, pair, deauthOk, authOk)
      case Expired => Handled(w, Invalid)
      case Revoked => Handled(w, Invalid)
  }

  /** The administrator closes a session, whatever the status of its row. */
  function Disconnect(w: World, s: Id, deauthOk: bool): Handled {
    if s !in w.db.sessions || !w.db.Joined(w.db.sessions[s].tokenId) then Handled(w, NotFound)
    else if !deauthOk then Handled(w, FirewallFailed)
    else
      var w1 := Deauthorize(w, w.db.sessions[s].pair, true);
      Handled(w1.(db := w1.db.DisconnectSession(s)), Done)
  }

  // ---- Cleanup and recovery ------------------------------------------------------------

  predicate CleanupDue(row: Session, grace: int, now: nat) {
    Remaining(row.expiresAt, now) <= -grace
  }

  /** The same test on a remaining time that is not clamped at zero. */
  predicate DocumentedDue(row: Session, grace: int, now: nat) {
    SecondsUntil(row.expiresAt, now) <= -grace
  }

  predicate Due(row: Session, grace: int, now: nat, documented: bool) {
    if documented then DocumentedDue(row, grace, now) else CleanupDue(row, grace, now)
  }

  ghost function PairsOf(db: Db, ids: set<Id>): set<Pair> {
    set s | s in ids && s in db.sessions :: db.sessions[s].pair
  }

  ghost function DueRows(cfg: Config, w: World, documented: bool): set<Id> {
    set s | s in w.db.ActiveRows() && Due(w.db.sessions[s], cfg.grace, w.now, documented)
  }

  /** A cleanup pass in one piece: `failing` are the rows whose deauthorise call fails. */
  ghost function CleanupPass(cfg: Config, w: World, failing: set<Id>, documented: bool): World {
    var ids := DueRows(cfg, w, documented) - failing;
    w.(db := w.db.ExpireAll(ids), fw := w.fw - PairsOf(w.db, ids))
  }

  function Cutoff(cfg: Config, now: nat): int {
    Stamp(now) - cfg.retentionDays * SECONDS_PER_DAY
  }

  function PurgeStep(cfg: Config, w: World): World {
    w.(db := w.db.Purge(Cutoff(cfg, w.now)), lastPurge := w.now)
  }

  /** One round of the ticker: the pass, then an hourly purge. */
  ghost function CleanupRound(cfg: Config, w: World, failing: set<Id>): World {
    var w1 := CleanupPass(cfg, w, failing, false);
    if w1.now - w1.lastPurge >= PURGE_INTERVAL then PurgeStep(cfg, w1) else w1
  }

  ghost function RestorableRows(cfg: Config, w: World): set<Id> {
    set s | s in w.db.ActiveRows() && Remaining(w.db.sessions[s].expiresAt, w.now) > cfg.grace
  }

  /** The deadline a restore call gives row `s`. */
  function RestoreDeadline(w: World, s: Id): int
    requires s in w.db.sessions
  {
    w.now + Remaining(w.db.sessions[s].expiresAt, w.now) * MS
  }

  ghost function OwnerOf(db: Db, ids: set<Id>, pair: Pair): Id
    requires pair in PairsOf(db, ids)
    ensures OwnerOf(db, ids, pair) in ids && OwnerOf(db, ids, pair) in db.sessions
    ensures db.sessions[OwnerOf(db, ids, pair)].pair == pair
  {
    var s :| s in ids && s in db.sessions && db.sessions[s].pair == pair;
    s
  }

  /** The firewall after authorising the rows in `restored` at their remaining time. */
  ghost function RestoredFw(w: World, restored: set<Id>): map<Pair, int> {
    var pairs := PairsOf(w.db, restored);
    map p | p in w.fw.Keys + pairs ::
      if p in pairs then RestoreDeadline(w, OwnerOf(w.db, restored, p)) else w.fw[p]
  }

  ghost function RestoreGrants(w: World, restored: set<Id>): set<Grant> {
    set s | s in restored && s in w.db.sessions ::
      Grant(w.db.sessions[s].tokenId, w.db.sessions[s].pair, RestoreDeadline(w, s))
  }

  /** The rows of `ids` that recovery restores, and those it expires. */
  ghost function RestoredSet(cfg: Config, w: World, ids: set<Id>, failing: set<Id>): set<Id> {
    (ids * RestorableRows(cfg, w)) - failing
  }

  ghost function OverdueSet(cfg: Config, w: World, ids: set<Id>): set<Id> {
    ids - RestorableRows(cfg, w)
  }

  /**
   * Recovery over the active rows in `ids`, in one piece: rows with more time than the grace
   * are authorised, except those in `failing`, and the others expire with their tokens.
   */
  ghost function RecoveryOver(cfg: Config, w: World, ids: set<Id>, failing: set<Id>): World {
    var restored := RestoredSet(cfg, w, ids, failing);
    w.(db := w.db.ExpireAll(OverdueSet(cfg, w, ids)),
       fw := RestoredFw(w, restored),
       grants := w.grants + RestoreGrants(w, restored))
  }

  ghost function RecoveryLoop(cfg: Config, w: World, failing: set<Id>): World {
    RecoveryOver(cfg, w, w.db.ActiveRows(), failing)
  }

  function Surviving(w: World, kept: set<Pair>): World {
    w.(fw := map p | p in w.fw && p in kept :: w.fw[p])
  }

  /** A restart: the set keeps the pairs in `kept` (none after a reboot), then recovery. */
  ghost function Boot(cfg: Config, w: World, kept: set<Pair>, failing: set<Id>): World {
    PurgeStep(cfg, RecoveryLoop(cfg, Surviving(w, kept), failing))
  }

  /** Time passes; the firewall drops the pairs whose timeout has run out. */
  ghost function Tick(w: World, ms: nat): World {
    var now := w.now + ms;
    w.(now := now, fw := map p | p in w.fw && w.fw[p] > now :: w.fw[p])
  }

  // ---- Runs ----------------------------------------------------------------------------

  datatype Step =
    | StepTick(ms: nat)
    | StepSavePlan(planId: Id, minutes: int, price: int)
    | StepCreateToken(planId: Id)
    | StepRevoke(tokenId: Id)
    | StepAuth(tokenId: Id, pair: Pair, deauthOk: bool, authOk: bool)
    | StepDisconnect(sessionId: Id, deauthOk: bool)
    | StepCleanup(failing: set<Id>)
    | StepBoot(kept: set<Pair>, failing: set<Id>)

  /** The bounds the admin interface puts on a plan. */
  predicate PlanInput(minutes: int, price: int) {
    1 <= minutes <= 1440 && price >= 0
  }

  ghost function Next(cfg: Config, w: World, step: Step): World {
    match step
    case StepTick(ms) => Tick(w, ms)
    case StepSavePlan(p, minutes, price) =>
      if PlanInput(minutes, price) then w.(db := w.db.SavePlan(p, Plan(minutes, price))) else w
    case StepCreateToken(p) => w.(db := w.db.CreateToken(p))
    case StepRevoke(t) => w.(db := w.db.RevokeToken(t))
    case StepAuth(t, pair, deauthOk, authOk) => PortalAuth(w, t, pair, deauthOk, authOk).world
    case StepDisconnect(s, ok) => Disconnect(w, s, ok).world
    case StepCleanup(failing) => CleanupRound(cfg, w, failing)
    case StepBoot(kept, failing) => Boot(cfg, w, kept, failing)
  }

  ghost function Run(cfg: Config, w: World, steps: seq<Step>): World
    decreases |steps|
  {
    if steps == [] then w else Run(cfg, Next(cfg, w, steps[0]), steps[1..])
  }
}
