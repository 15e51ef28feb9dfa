/**
 * The sales statistics over the token table, and the purge. Days are whole days of the
 * stored times. A purge must not remove what the statistics still count.
 */
module Stats {
  import opened Basics
  import opened Clock
  import opened Store
  import opened Protocol
  import opened Invariants

  datatype DailyStats = DailyStats(sold: nat, live: nat, revenue: int)

  datatype DayStats = DayStats(date: int, sold: nat, revenue: int)

  function DayOf(stamp: int): int {
    stamp / SECONDS_PER_DAY
  }

  function Today(now: nat): int {
    DayOf(Stamp(now))
  }

  /** The first of the seven days. */
  function WeekStart(now: nat): int {
    Today(now) - 6
  }

  /** `status IN ('active', 'expired')` on a token that has a redemption time. */
  predicate Sold(db: Db, t: Id) {
    t in db.tokens && db.tokens[t].status in {TokenStatus.Active, TokenStatus.Expired} && db.tokens[t].redeemedAt.Some?
  }

  /** `redeemed_at >= date(...)`. */
  ghost function SoldSince(db: Db, day: int): set<Id> {
    set t | t in db.tokens && Sold(db, t) && db.tokens[t].redeemedAt.value >= day * SECONDS_PER_DAY
  }

  /** `date(redeemed_at) = ...`. */
  ghost function SoldOn(db: Db, day: int): set<Id> {
    set t | t in db.tokens && Sold(db, t) && DayOf(db.tokens[t].redeemedAt.value) == day
  }

  function Price(db: Db, t: Id): int {
    if db.Joined(t) then db.plans[db.tokens[t].planId].priceAriary else 0
  }

  ghost function Revenue(db: Db, ids: set<Id>): int {
    if ids == {} then 0
    else
      var t :| t in ids;
      Price(db, t) + Revenue(db, ids - {t})
  }

  ghost function LiveSessions(db: Db, now: nat): set<Id> {
    set s | s in db.sessions && db.ActiveRow(s) && SqlLive(db.sessions[s].expiresAt, now)
  }

  ghost function GetDailyStats(db: Db, now: nat): DailyStats {
    var ids := SoldSince(db, Today(now));
    DailyStats(|ids|,
               |LiveSessions(db, now)|,
               Revenue(db, ids))
  }

  /** The recursive query that lists the days from `d` up to today. */
  function Dates(d: int, today: int): seq<int>
    decreases today - d
  {
    [d] + if d < today then Dates(d + 1, today) else []
  }

  ghost function Entry(db: Db, day: int): DayStats {
    DayStats(day, |SoldOn(db, day)|, Revenue(db, SoldOn(db, day)))
  }

  ghost function Entries(db: Db, dates: seq<int>): seq<DayStats> {
    seq(|dates|, i requires 0 <= i < |dates| => Entry(db, dates[i]))
  }

  ghost function GetWeeklyStats(db: Db, now: nat): seq<DayStats> {
    Entries(db, Dates(WeekStart(now), Today(now)))
  }

  // ---- Sums --------------------------------------------------------------------------------

  lemma {:induction false} RevenueWithout(db: Db, ids: set<Id>, t: Id)
    requires t in ids
    ensures Revenue(db, ids) == Price(db, t) + Revenue(db, ids - {t})
    decreases |ids|
  {
    var u :| u in ids && Revenue(db, ids) == Price(db, u) + Revenue(db, ids - {u});
    if u != t {
      RevenueWithout(db, ids - {u}, t);
      RevenueWithout(db, ids - {t}, u);
      assert ids - {u} - {t} == ids - {t} - {u};
    }
  }

  lemma {:induction false} RevenueUnion(db: Db, a: set<Id>, b: set<Id>)
    requires a !! b
    ensures Revenue(db, a + b) == Revenue(db, a) + Revenue(db, b)
    decreases |a|
  {
    if a == {} {
      assert a + b == b;
    } else {
      var t :| t in a;
      RevenueWithout(db, a, t);
      RevenueWithout(db, a + b, t);
      assert a + b - {t} == (a - {t}) + b;
      RevenueUnion(db, a - {t}, b);
    }
  }

  lemma {:induction false} RevenueSame(db1: Db, db2: Db, ids: set<Id>)
    requires forall t :: t in ids ==> Price(db1, t) == Price(db2, t)
    ensures Revenue(db1, ids) == Revenue(db2, ids)
    decreases |ids|
  {
    if ids != {} {
      var t :| t in ids;
      RevenueWithout(db1, ids, t);
      RevenueWithout(db2, ids, t);
      RevenueSame(db1, db2, ids - {t});
    }
  }

  // ---- The week ----------------------------------------------------------------------------

  lemma {:induction false} DatesConsecutive(d: int, today: int)
    requires d <= today
    ensures |Dates(d, today)| == today - d + 1
    ensures forall i :: 0 <= i < |Dates(d, today)| ==> Dates(d, today)[i] == d + i
    decreases today - d
  {
    if d < today { DatesConsecutive(d + 1, today); }
  }

  /** The weekly statistics are seven consecutive days, ending today. */
  lemma WeekShape(db: Db, now: nat)
    ensures |GetWeeklyStats(db, now)| == 7
    ensures forall i :: 0 <= i < 7 ==> GetWeeklyStats(db, now)[i] == Entry(db, WeekStart(now) + i)
  {
    DatesConsecutive(WeekStart(now), Today(now));
  }

  ghost function TotalSold(week: seq<DayStats>): int {
    if week == [] then 0 else week[0].sold + TotalSold(week[1..])
  }

  ghost function TotalRevenue(week: seq<DayStats>): int {
    if week == [] then 0 else week[0].revenue + TotalRevenue(week[1..])
  }

  /** The tokens sold on the days from `d` to `today`. */
  ghost function SoldBetween(db: Db, d: int, today: int): set<Id> {
    set t | t in db.tokens && Sold(db, t) && d <= DayOf(db.tokens[t].redeemedAt.value) <= today
  }

  lemma SplitEntries(db: Db, d: int, today: int)
    requires d < today
    ensures Entries(db, Dates(d, today)) == [Entry(db, d)] + Entries(db, Dates(d + 1, today))
  {
    var rest := Dates(d + 1, today);
    assert Dates(d, today) == [d] + rest;
    assert forall i :: 0 <= i < |rest| ==> ([d] + rest)[i + 1] == rest[i];
    assert Entries(db, [d] + rest) == [Entry(db, d)] + Entries(db, rest);
  }

  lemma SplitSold(db: Db, d: int, today: int)
    requires d < today
    ensures SoldBetween(db, d, today) == SoldOn(db, d) + SoldBetween(db, d + 1, today)
    ensures SoldOn(db, d) !! SoldBetween(db, d + 1, today)
  {
  }

  lemma {:induction false} TotalsConserved(db: Db, d: int, today: int)
    requires d <= today
    ensures TotalSold(Entries(db, Dates(d, today))) == |SoldBetween(db, d, today)|
    ensures TotalRevenue(Entries(db, Dates(d, today))) == Revenue(db, SoldBetween(db, d, today))
    decreases today - d
  {
    var week := Entries(db, Dates(d, today));
    if d == today {
      assert week == [Entry(db, d)];
      assert SoldBetween(db, d, today) == SoldOn(db, d);
    } else {
      SplitEntries(db, d, today);
      SplitSold(db, d, today);
      assert week[1..] == Entries(db, Dates(d + 1, today));
      TotalsConserved(db, d + 1, today);
      RevenueUnion(db, SoldOn(db, d), SoldBetween(db, d + 1, today));
    }
  }

  /**
   * Nothing is lost or counted twice: every token sold in the window belongs to exactly one
   * of the seven days, and the days add up to the totals of the window.
   */
  lemma WeekConserves(db: Db, now: nat)
    ensures forall t :: t in SoldBetween(db, WeekStart(now), Today(now)) ==>
      exists day :: WeekStart(now) <= day <= Today(now) && t in SoldOn(db, day)
    ensures forall t, a, b :: t in SoldOn(db, a) && t in SoldOn(db, b) ==> a == b
    ensures TotalSold(GetWeeklyStats(db, now)) == |SoldBetween(db, WeekStart(now), Today(now))|
    ensures TotalRevenue(GetWeeklyStats(db, now)) == Revenue(db, SoldBetween(db, WeekStart(now), Today(now)))
  {
    TotalsConserved(db, WeekStart(now), Today(now));
    forall t | t in SoldBetween(db, WeekStart(now), Today(now))
      ensures exists day :: WeekStart(now) <= day <= Today(now) && t in SoldOn(db, day)
    {
      assert t in SoldOn(db, DayOf(db.tokens[t].redeemedAt.value));
    }
  }

  /** No redemption time lies in the future. */
  ghost predicate RedeemedInThePast(w: World) {
    forall t :: t in w.db.tokens && w.db.tokens[t].redeemedAt.Some? ==> w.db.tokens[t].redeemedAt.value <= Stamp(w.now)
  }

  /** The last day of the week is the daily statistics, though one compares times and the other days. */
  lemma LastDayIsToday(w: World)
    requires RedeemedInThePast(w)
    ensures |GetWeeklyStats(w.db, w.now)| == 7
    ensures GetWeeklyStats(w.db, w.now)[6] ==
      DayStats(Today(w.now), GetDailyStats(w.db, w.now).sold, GetDailyStats(w.db, w.now).revenue)
  {
    WeekShape(w.db, w.now);
    forall t | t in w.db.tokens && Sold(w.db, t)
      ensures t in SoldSince(w.db, Today(w.now)) <==> t in SoldOn(w.db, Today(w.now))
    {
      var r := w.db.tokens[t].redeemedAt.value;
      assert r <= Stamp(w.now);
      assert DayOf(r) == Today(w.now) <==> r >= Today(w.now) * SECONDS_PER_DAY;
    }
    assert SoldSince(w.db, Today(w.now)) == SoldOn(w.db, Today(w.now));
  }

  // ---- Retention -----------------------------------------------------------------------------

  /** The row a token received at its redemption, started at that very second. */
  ghost predicate OriginalRow(db: Db, t: Id, s: Id)
    requires t in db.tokens && db.tokens[t].redeemedAt.Some?
  {
    s in db.sessions && db.sessions[s].tokenId == t && db.sessions[s].startedAt == db.tokens[t].redeemedAt.value
  }

  /** A redeemed token keeps its original row until that row is older than the retention. */
  ghost predicate Kept(cfg: Config, w: World, t: Id)
    requires t in w.db.tokens && w.db.tokens[t].redeemedAt.Some?
  {
    || (exists s: Id :: OriginalRow(w.db, t, s))
    || w.db.tokens[t].redeemedAt.value < Cutoff(cfg, w.now)
  }

  ghost predicate Retained(cfg: Config, w: World) {
    && RedeemedInThePast(w)
    && forall t :: t in w.db.tokens && w.db.tokens[t].redeemedAt.Some? ==> Kept(cfg, w, t)
  }

  /** `db2` lost no row of `db1` and redeemed no further token. */
  ghost predicate TablesPersist(db1: Db, db2: Db) {
    && (forall t :: t in db2.tokens && db2.tokens[t].redeemedAt.Some? ==>
          t in db1.tokens && db1.tokens[t].redeemedAt == db2.tokens[t].redeemedAt)
    && (forall s :: s in db1.sessions ==>
          s in db2.sessions && db2.sessions[s].(status := db1.sessions[s].status) == db1.sessions[s])
  }

  ghost predicate RowsPersist(w1: World, w2: World) {
    w1.now <= w2.now && TablesPersist(w1.db, w2.db)
  }

  lemma PersistRetains(cfg: Config, w1: World, w2: World)
    requires Retained(cfg, w1) && RowsPersist(w1, w2)
    ensures Retained(cfg, w2)
  {
    forall t | t in w2.db.tokens && w2.db.tokens[t].redeemedAt.Some? ensures Kept(cfg, w2, t) {
      assert Kept(cfg, w1, t);
      if exists s: Id :: OriginalRow(w1.db, t, s) {
        var s: Id :| OriginalRow(w1.db, t, s);
        assert OriginalRow(w2.db, t, s);
      }
    }
  }

  lemma PurgeRetains(cfg: Config, w: World)
    requires Retained(cfg, w)
    ensures Retained(cfg, PurgeStep(cfg, w))
  {
    var w' := PurgeStep(cfg, w);
    forall t | t in w'.db.tokens && w'.db.tokens[t].redeemedAt.Some? ensures Kept(cfg, w', t) {
      assert Kept(cfg, w, t);
      if exists s: Id :: OriginalRow(w.db, t, s) {
        var s: Id :| OriginalRow(w.db, t, s);
        assert w.db.sessions[s].startedAt >= Cutoff(cfg, w.now) ==> OriginalRow(w'.db, t, s);
      }
    }
  }

  lemma CreateSessionRetains(cfg: Config, w: World, t: Id, minutes: int, pair: Pair, authOk: bool)
    requires Retained(cfg, w) && Keyed(w.db) && t in w.db.tokens && w.db.tokens[t].redeemedAt.None?
    ensures Retained(cfg, CreateSession(w, t, minutes, pair, authOk).world)
  {
    var w' := CreateSession(w, t, minutes, pair, authOk).world;
    forall u | u in w'.db.tokens && w'.db.tokens[u].redeemedAt.Some? ensures Kept(cfg, w', u) {
      if u == t {
        assert OriginalRow(w'.db, t, w.db.nextSession);
      } else {
        assert Kept(cfg, w, u);
        if exists s: Id :: OriginalRow(w.db, u, s) {
          var s: Id :| OriginalRow(w.db, u, s);
          assert OriginalRow(w'.db, u, s);
        }
      }
    }
  }

  lemma DisconnectPersists(db: Db, s: Id)
    ensures TablesPersist(db, db.DisconnectSession(s))
  {
  }

  lemma InsertPersists(db: Db, t: Id, pair: Pair, expiresAt: int, stamp: int)
    requires Keyed(db) && t in db.tokens
    ensures TablesPersist(db, db.InsertSession(t, pair, expiresAt, stamp).value)
  {
  }

  lemma PersistTwice(db1: Db, db2: Db, db3: Db)
    requires TablesPersist(db1, db2) && TablesPersist(db2, db3)
    ensures TablesPersist(db1, db3)
  {
  }

  lemma MovePersists(db: Db, s: Id, t: Id, pair: Pair, expiresAt: int, stamp: int)
    requires Keyed(db) && t in db.tokens
    ensures TablesPersist(db, db.DisconnectSession(s))
    ensures TablesPersist(db, db.DisconnectSession(s).InsertSession(t, pair, expiresAt, stamp).value)
  {
    var db1 := db.DisconnectSession(s);
    DisconnectPersists(db, s);
    InsertPersists(db1, t, pair, expiresAt, stamp);
    PersistTwice(db, db1, db1.InsertSession(t, pair, expiresAt, stamp).value);
  }

  lemma MigrationPersists(w: World, t: Id, pair: Pair, deauthOk: bool, authOk: bool)
    requires Keyed(w.db)
    ensures RowsPersist(w, MigrateSession(w, t, pair, deauthOk, authOk).world)
  {
    MigrationTables(w, t, pair, deauthOk, authOk);
    if w.db.ActiveRowOf(t).Some? {
      var s := w.db.ActiveRowOf(t).value;
      assert w.db.sessions[s].tokenId == t;
      MovePersists(w.db, s, t, pair, w.db.sessions[s].expiresAt, Stamp(w.now));
    }
  }

  lemma AuthRetains(cfg: Config, w: World, t: Id, pair: Pair, deauthOk: bool, authOk: bool)
    requires Retained(cfg, w) && DbInv(w.db)
    ensures Retained(cfg, PortalAuth(w, t, pair, deauthOk, authOk).world)
  {
    if w.db.Joined(t) {
      match w.db.tokens[t].status
      case Unused => CreateSessionRetains(cfg, w, t, w.db.plans[w.db.tokens[t].planId].durationMinutes, pair, authOk);
      case Active =>
        MigrationPersists(w, t, pair, deauthOk, authOk);
        PersistRetains(cfg, w, MigrateSession(w, t, pair, deauthOk, authOk).world);
      case Expired =>
      case Revoked =>
    }
  }

  lemma ExpiryPersists(w1: World, w2: World, ids: set<Id>)
    requires w2.now == w1.now && w2.db == w1.db.ExpireAll(ids)
    ensures RowsPersist(w1, w2)
  {
  }

  lemma CleanupRetains(cfg: Config, w: World, failing: set<Id>)
    requires Retained(cfg, w)
    ensures Retained(cfg, CleanupRound(cfg, w, failing))
  {
    var w1 := CleanupPass(cfg, w, failing, false);
    ExpiryPersists(w, w1, DueRows(cfg, w, false) - failing);
    PersistRetains(cfg, w, w1);
    PurgeRetains(cfg, w1);
  }

  lemma BootRetains(cfg: Config, w: World, kept: set<Pair>, failing: set<Id>)
    requires Retained(cfg, w)
    ensures Retained(cfg, Boot(cfg, w, kept, failing))
  {
    var w1 := Surviving(w, kept);
    var w2 := RecoveryLoop(cfg, w1, failing);
    ExpiryPersists(w, w2, w1.db.ActiveRows() - RestorableRows(cfg, w1));
    PersistRetains(cfg, w, w2);
    PurgeRetains(cfg, w2);
  }

  /** Same rows and redemptions at a later time. */
  lemma QuietRetains(cfg: Config, w: World, w': World)
    requires Retained(cfg, w) && w.now <= w'.now && w'.db.sessions == w.db.sessions
    requires forall t :: t in w'.db.tokens && w'.db.tokens[t].redeemedAt.Some? ==>
      t in w.db.tokens && w.db.tokens[t].redeemedAt == w'.db.tokens[t].redeemedAt
    ensures Retained(cfg, w')
  {
    PersistRetains(cfg, w, w');
  }

  lemma AdminRetains(cfg: Config, w: World, step: Step)
    requires Retained(cfg, w) && (step.StepTick? || IsAdmin(step))
    ensures Retained(cfg, Next(cfg, w, step))
  {
    QuietRetains(cfg, w, Next(cfg, w, step));
  }

  lemma DisconnectRetains(cfg: Config, w: World, s: Id, ok: bool)
    requires Retained(cfg, w)
    ensures Retained(cfg, Disconnect(w, s, ok).world)
  {
    DisconnectPersists(w.db, s);
    PersistRetains(cfg, w, Disconnect(w, s, ok).world);
  }

  lemma NextRetains(cfg: Config, w: World, step: Step)
    requires DbInv(w.db) && Retained(cfg, w)
    ensures Retained(cfg, Next(cfg, w, step))
  {
    match step
    case StepAuth(t, pair, deauthOk, authOk) => AuthRetains(cfg, w, t, pair, deauthOk, authOk);
    case StepCleanup(failing) => CleanupRetains(cfg, w, failing);
    case StepBoot(kept, failing) => BootRetains(cfg, w, kept, failing);
    case StepDisconnect(s, ok) => DisconnectRetains(cfg, w, s, ok);
    case _ => AdminRetains(cfg, w, step);
  }

  lemma {:induction false} RunRetains(cfg: Config, w: World, steps: seq<Step>)
    requires DbInv(w.db) && Retained(cfg, w)
    ensures Retained(cfg, Run(cfg, w, steps))
    decreases |steps|
  {
    if steps != [] {
      NextRetains(cfg, w, steps[0]);
      NextKeepsDb(cfg, w, steps[0]);
      RunRetains(cfg, Next(cfg, w, steps[0]), steps[1..]);
    }
  }

  /** At every reachable state the last day of the week is the daily statistics. */
  lemma ReachableLastDay(cfg: Config, start: nat, steps: seq<Step>)
    ensures var w := Run(cfg, Init(start), steps);
      && |GetWeeklyStats(w.db, w.now)| == 7
      && GetWeeklyStats(w.db, w.now)[6] ==
           DayStats(Today(w.now), GetDailyStats(w.db, w.now).sold, GetDailyStats(w.db, w.now).revenue)
  {
    RunRetains(cfg, Init(start), steps);
    LastDayIsToday(Run(cfg, Init(start), steps));
  }

  // ---- Runs with and without their purges ----------------------------------------------------

  /** A step without the purge that ends it. */
  ghost function NextUnpurged(cfg: Config, w: World, step: Step): World {
    match step
    case StepCleanup(failing) => CleanupPass(cfg, w, failing, false)
    case StepBoot(kept, failing) => RecoveryLoop(cfg, Surviving(w, kept), failing)
    case _ => Next(cfg, w, step)
  }

  ghost function RunUnpurged(cfg: Config, w: World, steps: seq<Step>): World
    decreases |steps|
  {
    if steps == [] then w else RunUnpurged(cfg, NextUnpurged(cfg, w, steps[0]), steps[1..])
  }

  ghost predicate SameStats(db1: Db, db2: Db, now: nat) {
    GetDailyStats(db1, now) == GetDailyStats(db2, now) && GetWeeklyStats(db1, now) == GetWeeklyStats(db2, now)
  }

  /** Purges go unnoticed: every run shows the statistics it would show had it never purged. */
  ghost predicate PurgeSafe(retentionDays: int) {
    forall grace: int, start: nat, steps: seq<Step> ::
      var cfg := Config(grace, retentionDays);
      var w := Run(cfg, Init(start), steps);
      SameStats(RunUnpurged(cfg, Init(start), steps).db, w.db, w.now)
  }

  /** `db2` is `db1` without some closed rows. */
  ghost predicate RowsPurged(db1: Db, db2: Db) {
    && db2 == db1.(sessions := db2.sessions, tokens := db2.tokens)
    && (forall s :: s in db2.sessions ==> s in db1.sessions && db2.sessions[s] == db1.sessions[s])
    && (forall s :: db1.ActiveRow(s) ==> s in db2.sessions)
  }

  /** `db2` is without some finished tokens sold before `day`. */
  ghost predicate TokensPurged(db1: Db, db2: Db, day: int) {
    && (forall t :: t in db2.tokens ==> t in db1.tokens && db2.tokens[t] == db1.tokens[t])
    && (forall t :: t in db1.tokens && t !in db2.tokens ==>
          && db1.tokens[t].status in {TokenStatus.Expired, TokenStatus.Revoked}
          && (db1.tokens[t].redeemedAt.Some? ==> DayOf(db1.tokens[t].redeemedAt.value) < day))
  }

  ghost predicate PurgedFrom(db1: Db, db2: Db, day: int) {
    RowsPurged(db1, db2) && TokensPurged(db1, db2, day)
  }

  lemma SameActiveRows(db1: Db, db2: Db, day: int)
    requires Keyed(db1) && Keyed(db2) && PurgedFrom(db1, db2, day)
    ensures db1.ActiveRows() == db2.ActiveRows()
  {
    JoinedRows(db1);
    JoinedRows(db2);
  }

  lemma InsertPurged(db1: Db, db2: Db, day: int, t: Id, pair: Pair, expiresAt: int, stamp: int)
    requires Keyed(db1) && PurgedFrom(db1, db2, day) && t in db2.tokens
    ensures PurgedFrom(db1.InsertSession(t, pair, expiresAt, stamp).value,
                       db2.InsertSession(t, pair, expiresAt, stamp).value, day)
  {
    assert forall s :: s in db2.sessions ==> (db2.ActiveRow(s) <==> db1.ActiveRow(s));
  }

  lemma DisconnectPurged(db1: Db, db2: Db, day: int, s: Id)
    requires PurgedFrom(db1, db2, day)
    ensures PurgedFrom(db1.DisconnectSession(s), db2.DisconnectSession(s), day)
    ensures s !in db2.sessions ==> PurgedFrom(db1.DisconnectSession(s), db2, day)
  {
  }

  lemma RedeemPurged(db1: Db, db2: Db, day: int, t: Id, expiresAt: int, stamp: int)
    requires PurgedFrom(db1, db2, day) && t in db2.tokens
    ensures PurgedFrom(db1.RedeemToken(t, expiresAt, stamp), db2.RedeemToken(t, expiresAt, stamp), day)
  {
  }

  lemma ExpireRowsPurged(db1: Db, db2: Db, ids: set<Id>)
    requires RowsPurged(db1, db2) && forall s :: s in ids ==> db2.ActiveRow(s)
    ensures RowsPurged(db1.ExpireAll(ids), db2.ExpireAll(ids))
  {
    ExpireAllRows(db1, ids);
    ExpireAllRows(db2, ids);
  }

  lemma ExpirePurged(db1: Db, db2: Db, day: int, ids: set<Id>)
    requires Keyed(db2) && PurgedFrom(db1, db2, day) && forall s :: s in ids ==> db2.ActiveRow(s)
    ensures PurgedFrom(db1.ExpireAll(ids), db2.ExpireAll(ids), day)
  {
    ExpireRowsPurged(db1, db2, ids);
    forall t | t in db1.tokens && t !in db2.tokens
      ensures !exists s :: s in ids && s in db1.sessions && db1.sessions[s].tokenId == t
    {
    }
    assert TokensPurged(db1.ExpireAll(ids), db2.ExpireAll(ids), day);
  }

  lemma SavePlanPurged(db1: Db, db2: Db, day: int, p: Id, plan: Plan)
    requires PurgedFrom(db1, db2, day)
    ensures PurgedFrom(db1.SavePlan(p, plan), db2.SavePlan(p, plan), day)
  {
  }

  lemma CreateTokenPurged(db1: Db, db2: Db, day: int, p: Id)
    requires Keyed(db1) && PurgedFrom(db1, db2, day)
    ensures PurgedFrom(db1.CreateToken(p), db2.CreateToken(p), day)
  {
  }

  lemma RevokePurged(db1: Db, db2: Db, day: int, t: Id)
    requires PurgedFrom(db1, db2, day)
    ensures PurgedFrom(db1.RevokeToken(t), db2.RevokeToken(t), day)
  {
  }

  /** The unpurged run and the run are at the same instant and differ by old closed records only. */
  ghost predicate InStep(full: World, w: World) {
    full.now == w.now && PurgedFrom(full.db, w.db, WeekStart(w.now))
  }

  lemma TickInStep(full: World, w: World, ms: nat)
    requires InStep(full, w)
    ensures InStep(Tick(full, ms), Tick(w, ms))
  {
    assert WeekStart(w.now) <= WeekStart(w.now + ms);
  }

  lemma MovePurged(db1: Db, db2: Db, day: int, s: Id, t: Id, pair: Pair, expiresAt: int, stamp: int)
    requires Keyed(db1) && PurgedFrom(db1, db2, day) && t in db2.tokens
    ensures PurgedFrom(db1.DisconnectSession(s), db2.DisconnectSession(s), day)
    ensures PurgedFrom(db1.DisconnectSession(s).InsertSession(t, pair, expiresAt, stamp).value,
                       db2.DisconnectSession(s).InsertSession(t, pair, expiresAt, stamp).value, day)
  {
    DisconnectPurged(db1, db2, day, s);
    InsertPurged(db1.DisconnectSession(s), db2.DisconnectSession(s), day, t, pair, expiresAt, stamp);
  }

  lemma MigrateInStep(full: World, w: World, t: Id, pair: Pair, deauthOk: bool, authOk: bool)
    requires DbInv(full.db) && DbInv(w.db) && InStep(full, w) && t in w.db.tokens
    ensures InStep(MigrateSession(full, t, pair, deauthOk, authOk).world,
                   MigrateSession(w, t, pair, deauthOk, authOk).world)
  {
    SameActiveRows(full.db, w.db, WeekStart(w.now));
    assert full.db.ActiveRowsOf(t) == w.db.ActiveRowsOf(t);
    assert full.db.ActiveRowOf(t) == w.db.ActiveRowOf(t);
    if w.db.ActiveRowOf(t).Some? {
      var s := w.db.ActiveRowOf(t).value;
      assert w.db.ActiveRow(s) && full.db.sessions[s] == w.db.sessions[s];
      MigrationResult(full, t, s, pair, deauthOk, authOk);
      MigrationResult(w, t, s, pair, deauthOk, authOk);
      MovePurged(full.db, w.db, WeekStart(w.now), s, t, pair, w.db.sessions[s].expiresAt, Stamp(w.now));
    }
  }

  lemma InsertRedeemPurged(db1: Db, db2: Db, day: int, t: Id, pair: Pair, expiresAt: int, stamp: int)
    requires Keyed(db1) && PurgedFrom(db1, db2, day) && t in db2.tokens
    ensures PurgedFrom(db1.InsertSession(t, pair, expiresAt, stamp).value.RedeemToken(t, expiresAt, stamp),
                       db2.InsertSession(t, pair, expiresAt, stamp).value.RedeemToken(t, expiresAt, stamp), day)
  {
    InsertPurged(db1, db2, day, t, pair, expiresAt, stamp);
    RedeemPurged(db1.InsertSession(t, pair, expiresAt, stamp).value,
                 db2.InsertSession(t, pair, expiresAt, stamp).value, day, t, expiresAt, stamp);
  }

  lemma CreateInStep(full: World, w: World, t: Id, minutes: int, pair: Pair, authOk: bool)
    requires Keyed(full.db) && InStep(full, w) && t in w.db.tokens
    ensures InStep(CreateSession(full, t, minutes, pair, authOk).world,
                   CreateSession(w, t, minutes, pair, authOk).world)
  {
    if authOk {
      CreationTables(full, t, minutes, pair);
      CreationTables(w, t, minutes, pair);
      InsertRedeemPurged(full.db, w.db, WeekStart(w.now), t, pair, (w.now + minutes * 60 * MS) / MS, Stamp(w.now));
    }
  }

  lemma AuthInStep(full: World, w: World, t: Id, pair: Pair, deauthOk: bool, authOk: bool)
    requires DbInv(full.db) && DbInv(w.db) && InStep(full, w)
    ensures InStep(PortalAuth(full, t, pair, deauthOk, authOk).world, PortalAuth(w, t, pair, deauthOk, authOk).world)
  {
    if w.db.Joined(t) {
      assert full.db.tokens[t] == w.db.tokens[t] && full.db.plans == w.db.plans;
      match w.db.tokens[t].status
      case Unused => CreateInStep(full, w, t, w.db.plans[w.db.tokens[t].planId].durationMinutes, pair, authOk);
      case Active => MigrateInStep(full, w, t, pair, deauthOk, authOk);
      case Expired =>
      case Revoked =>
    } else {
      assert full.db.Joined(t) ==> full.db.tokens[t].status in {TokenStatus.Expired, TokenStatus.Revoked};
    }
  }

  lemma DisconnectInStep(full: World, w: World, s: Id, ok: bool)
    requires Keyed(full.db) && Keyed(w.db) && InStep(full, w)
    ensures InStep(Disconnect(full, s, ok).world, Disconnect(w, s, ok).world)
  {
    JoinedRows(full.db);
    JoinedRows(w.db);
    DisconnectPurged(full.db, w.db, WeekStart(w.now), s);
  }

  /** What the statistics of the week rest on survives a purge. */
  lemma PurgeKeepsSold(cfg: Config, w: World, t: Id)
    requires cfg.retentionDays >= 7 && Retained(cfg, w)
    requires t in w.db.tokens && w.db.tokens[t].redeemedAt.Some?
    requires DayOf(w.db.tokens[t].redeemedAt.value) >= WeekStart(w.now)
    ensures t in w.db.Purge(Cutoff(cfg, w.now)).tokens
  {
    var cutoff := Cutoff(cfg, w.now);
    assert w.db.tokens[t].redeemedAt.value >= cutoff;
    assert Kept(cfg, w, t);
    var s: Id :| OriginalRow(w.db, t, s);
    assert s in w.db.PurgeSessions(cutoff).sessions;
    assert w.db.PurgeSessions(cutoff).Referenced(t);
  }

  lemma PurgePurges(cfg: Config, db1: Db, w: World)
    requires cfg.retentionDays >= 7 && DbInv(w.db) && Retained(cfg, w) && PurgedFrom(db1, w.db, WeekStart(w.now))
    ensures PurgedFrom(db1, w.db.Purge(Cutoff(cfg, w.now)), WeekStart(w.now))
  {
    var db2 := w.db.Purge(Cutoff(cfg, w.now));
    PurgeKeeps(w.db, Cutoff(cfg, w.now));
    forall t | t in w.db.tokens && w.db.tokens[t].redeemedAt.Some?
      ensures DayOf(w.db.tokens[t].redeemedAt.value) >= WeekStart(w.now) ==> t in db2.tokens
    {
      if DayOf(w.db.tokens[t].redeemedAt.value) >= WeekStart(w.now) { PurgeKeepsSold(cfg, w, t); }
    }
    assert RowsPurged(db1, db2);
  }

  /** Expiring rows on both sides and purging on one. */
  lemma ExpireThenPurge(cfg: Config, full: Db, w: World, ids: set<Id>)
    requires cfg.retentionDays >= 7 && DbInv(w.db) && Retained(cfg, w) && forall s :: s in ids ==> w.db.ActiveRow(s)
    requires PurgedFrom(full, w.db, WeekStart(w.now))
    ensures PurgedFrom(full.ExpireAll(ids), w.db.ExpireAll(ids), WeekStart(w.now))
    ensures PurgedFrom(full.ExpireAll(ids), w.db.ExpireAll(ids).Purge(Cutoff(cfg, w.now)), WeekStart(w.now))
  {
    var w1 := w.(db := w.db.ExpireAll(ids));
    ExpirePurged(full, w.db, WeekStart(w.now), ids);
    ExpireAllKeeps(w.db, ids);
    ExpiryPersists(w, w1, ids);
    PersistRetains(cfg, w, w1);
    PurgePurges(cfg, full.ExpireAll(ids), w1);
  }

  lemma CleanupInStep(cfg: Config, full: World, w: World, failing: set<Id>)
    requires cfg.retentionDays >= 7 && DbInv(full.db) && DbInv(w.db) && Retained(cfg, w) && InStep(full, w)
    ensures InStep(CleanupPass(cfg, full, failing, false), CleanupRound(cfg, w, failing))
  {
    SameActiveRows(full.db, w.db, WeekStart(w.now));
    assert DueRows(cfg, full, false) == DueRows(cfg, w, false);
    ExpireThenPurge(cfg, full.db, w, DueRows(cfg, w, false) - failing);
  }

  lemma BootInStep(cfg: Config, full: World, w: World, kept: set<Pair>, failing: set<Id>)
    requires cfg.retentionDays >= 7 && DbInv(full.db) && DbInv(w.db) && Retained(cfg, w) && InStep(full, w)
    ensures InStep(RecoveryLoop(cfg, Surviving(full, kept), failing), Boot(cfg, w, kept, failing))
  {
    SameActiveRows(full.db, w.db, WeekStart(w.now));
    assert RestorableRows(cfg, Surviving(full, kept)) == RestorableRows(cfg, w);
    BootTables(cfg, w, kept, failing);
    ExpireThenPurge(cfg, full.db, w, w.db.ActiveRows() - RestorableRows(cfg, w));
  }

  lemma AdminInStep(cfg: Config, full: World, w: World, step: Step)
    requires Keyed(full.db) && InStep(full, w) && IsAdmin(step)
    ensures InStep(Next(cfg, full, step), Next(cfg, w, step))
  {
    match step
    case StepSavePlan(p, minutes, price) => SavePlanPurged(full.db, w.db, WeekStart(w.now), p, Plan(minutes, price));
    case StepCreateToken(p) => CreateTokenPurged(full.db, w.db, WeekStart(w.now), p);
    case StepRevoke(t) => RevokePurged(full.db, w.db, WeekStart(w.now), t);
  }

  lemma NextInStep(cfg: Config, full: World, w: World, step: Step)
    requires cfg.retentionDays >= 7 && DbInv(full.db) && DbInv(w.db) && Retained(cfg, w) && InStep(full, w)
    ensures InStep(NextUnpurged(cfg, full, step), Next(cfg, w, step))
  {
    match step
    case StepTick(ms) => TickInStep(full, w, ms);
    case StepAuth(t, pair, deauthOk, authOk) => AuthInStep(full, w, t, pair, deauthOk, authOk);
    case StepDisconnect(s, ok) => DisconnectInStep(full, w, s, ok);
    case StepCleanup(failing) => CleanupInStep(cfg, full, w, failing);
    case StepBoot(kept, failing) => BootInStep(cfg, full, w, kept, failing);
    case _ => AdminInStep(cfg, full, w, step);
  }

  lemma UnpurgedKeepsDb(cfg: Config, w: World, step: Step)
    requires DbInv(w.db)
    ensures DbInv(NextUnpurged(cfg, w, step).db)
  {
    match step
    case StepCleanup(failing) => ExpireAllKeeps(w.db, DueRows(cfg, w, false) - failing);
    case StepBoot(kept, failing) =>
      ExpireAllKeeps(w.db, w.db.ActiveRows() - RestorableRows(cfg, Surviving(w, kept)));
    case _ => NextKeepsDb(cfg, w, step);
  }

  /** Over every run, purging only ever takes old closed records away. */
  lemma {:induction false} RunInStep(cfg: Config, full: World, w: World, steps: seq<Step>)
    requires cfg.retentionDays >= 7 && DbInv(full.db) && DbInv(w.db) && Retained(cfg, w) && InStep(full, w)
    ensures InStep(RunUnpurged(cfg, full, steps), Run(cfg, w, steps))
    decreases |steps|
  {
    if steps != [] {
      NextInStep(cfg, full, w, steps[0]);
      UnpurgedKeepsDb(cfg, full, steps[0]);
      NextKeepsDb(cfg, w, steps[0]);
      NextRetains(cfg, w, steps[0]);
      RunInStep(cfg, NextUnpurged(cfg, full, steps[0]), Next(cfg, w, steps[0]), steps[1..]);
    }
  }

  // ---- The statistics do not notice ------------------------------------------------------------

  lemma SameSold(db1: Db, db2: Db, day: int, today: int)
    requires PurgedFrom(db1, db2, day) && day <= today
    ensures SoldOn(db1, today) == SoldOn(db2, today)
    ensures SoldSince(db1, today) == SoldSince(db2, today)
    ensures forall t :: t in SoldSince(db1, today) ==> Price(db1, t) == Price(db2, t)
  {
    forall t | t in db1.tokens && Sold(db1, t) && DayOf(db1.tokens[t].redeemedAt.value) >= day
      ensures t in db2.tokens && db2.tokens[t] == db1.tokens[t]
    {
    }
    forall t | t in SoldSince(db1, today) ensures DayOf(db1.tokens[t].redeemedAt.value) >= day {}
  }

  lemma SameEntry(db1: Db, db2: Db, day: int, today: int)
    requires PurgedFrom(db1, db2, day) && day <= today
    ensures Entry(db1, today) == Entry(db2, today)
  {
    SameSold(db1, db2, day, today);
    forall t | t in SoldOn(db1, today) ensures Price(db1, t) == Price(db2, t) {
      assert t in SoldSince(db1, today);
    }
    RevenueSame(db1, db2, SoldOn(db1, today));
  }

  lemma SameWeek(db1: Db, db2: Db, now: nat)
    requires PurgedFrom(db1, db2, WeekStart(now))
    ensures GetWeeklyStats(db1, now) == GetWeeklyStats(db2, now)
  {
    WeekShape(db1, now);
    WeekShape(db2, now);
    forall i | 0 <= i < 7 ensures GetWeeklyStats(db1, now)[i] == GetWeeklyStats(db2, now)[i] {
      SameEntry(db1, db2, WeekStart(now), WeekStart(now) + i);
    }
  }

  lemma PurgedSameStats(db1: Db, db2: Db, now: nat)
    requires PurgedFrom(db1, db2, WeekStart(now))
    ensures SameStats(db1, db2, now)
  {
    SameWeek(db1, db2, now);
    SameSold(db1, db2, WeekStart(now), Today(now));
    RevenueSame(db1, db2, SoldSince(db1, Today(now)));
    assert LiveSessions(db1, now) == LiveSessions(db2, now);
  }

  /** With a retention of at least a week the purges of a run leave every later statistic alone. */
  lemma PurgesGoUnnoticed(cfg: Config, start: nat, steps: seq<Step>)
    requires cfg.retentionDays >= 7
    ensures var w := Run(cfg, Init(start), steps);
      SameStats(RunUnpurged(cfg, Init(start), steps).db, w.db, w.now)
  {
    RunInStep(cfg, Init(start), Init(start), steps);
    var w := Run(cfg, Init(start), steps);
    PurgedSameStats(RunUnpurged(cfg, Init(start), steps).db, w.db, w.now);
  }

  lemma LongRetentionIsSafe(retentionDays: int)
    requires retentionDays >= 7
    ensures PurgeSafe(retentionDays)
  {
    forall grace: int, start: nat, steps: seq<Step>
      ensures var cfg := Config(grace, retentionDays);
              var w := Run(cfg, Init(start), steps);
        SameStats(RunUnpurged(cfg, Init(start), steps).db, w.db, w.now)
    {
      PurgesGoUnnoticed(Config(grace, retentionDays), start, steps);
    }
  }

  // ---- What the statistics count -----------------------------------------------------------------

  /** Days begin at midnight, today's numbers run from there, and a live session's expiry lies ahead. */
  lemma StatsMean(w: World, day: int)
    ensures Entry(w.db, day).date == day
    ensures Entry(w.db, day).sold == |set t | t in w.db.tokens && Sold(w.db, t) &&
      86400 * day <= w.db.tokens[t].redeemedAt.value < 86400 * (day + 1)|
    ensures GetDailyStats(w.db, w.now).sold == |set t | t in w.db.tokens && Sold(w.db, t) &&
      86400 * Today(w.now) <= w.db.tokens[t].redeemedAt.value|
    ensures GetDailyStats(w.db, w.now).live == |set s | s in w.db.sessions &&
      w.db.ActiveRow(s) && w.now < MS * w.db.sessions[s].expiresAt|
    ensures 86400000 * Today(w.now) <= w.now < 86400000 * (Today(w.now) + 1)
  {
    assert SoldOn(w.db, day) == set t | t in w.db.tokens && Sold(w.db, t) &&
      86400 * day <= w.db.tokens[t].redeemedAt.value < 86400 * (day + 1);
    assert SoldSince(w.db, Today(w.now)) == set t | t in w.db.tokens && Sold(w.db, t) &&
      86400 * Today(w.now) <= w.db.tokens[t].redeemedAt.value;
    assert LiveSessions(w.db, w.now) == set s | s in w.db.sessions &&
      w.db.ActiveRow(s) && w.now < MS * w.db.sessions[s].expiresAt;
  }

  /** The step is a first redemption that goes through: a sale. */
  predicate IsSale(w: World, step: Step) {
    && step.StepAuth? && step.authOk
    && step.tokenId in w.db.tokens && w.db.tokens[step.tokenId].status == TokenStatus.Unused
  }

  function PriceOf(w: World, t: Id): int
    requires Keyed(w.db) && t in w.db.tokens
  {
    w.db.plans[w.db.tokens[t].planId].priceAriary
  }

  /** The tables after a sale: one more token counts as sold, now, and the others are as they were. */
  ghost predicate SaleOf(w: World, t: Id, db': Db) {
    && t in w.db.tokens && !Sold(w.db, t)
    && db'.plans == w.db.plans && db'.tokens.Keys == w.db.tokens.Keys
    && (forall u :: u in w.db.tokens && u != t ==> db'.tokens[u] == w.db.tokens[u])
    && db'.tokens[t].planId == w.db.tokens[t].planId
    && Sold(db', t) && db'.tokens[t].redeemedAt.value == Stamp(w.now)
  }

  lemma SaleTables(w: World, t: Id, pair: Pair, deauthOk: bool)
    requires DbInv(w.db) && t in w.db.tokens && w.db.tokens[t].status == TokenStatus.Unused
    ensures SaleOf(w, t, PortalAuth(w, t, pair, deauthOk, true).world.db)
  {
    CreationTables(w, t, w.db.plans[w.db.tokens[t].planId].durationMinutes, pair);
  }

  /** One more sale among the tokens of a set, at its price. */
  lemma RevenueOneMore(db1: Db, db2: Db, ids: set<Id>, t: Id)
    requires t !in ids && forall u :: u in ids ==> Price(db1, u) == Price(db2, u)
    ensures Revenue(db2, ids + {t}) == Revenue(db1, ids) + Price(db2, t)
  {
    RevenueWithout(db2, ids + {t}, t);
    assert ids + {t} - {t} == ids;
    RevenueSame(db1, db2, ids);
  }

  lemma SaleSets(w: World, t: Id, db': Db, day: int)
    requires Keyed(w.db) && SaleOf(w, t, db')
    ensures SoldOn(db', day) == if day == Today(w.now) then SoldOn(w.db, day) + {t} else SoldOn(w.db, day)
    ensures SoldSince(db', Today(w.now)) == SoldSince(w.db, Today(w.now)) + {t}
    ensures t !in SoldOn(w.db, day) && t !in SoldSince(w.db, Today(w.now))
    ensures Price(db', t) == PriceOf(w, t)
    ensures forall u :: u in w.db.tokens && u != t ==> Price(w.db, u) == Price(db', u)
  {
  }

  lemma SaleEntry(w: World, t: Id, db': Db, day: int)
    requires Keyed(w.db) && SaleOf(w, t, db')
    ensures Entry(db', day) == (
      if day == Today(w.now)
      then DayStats(day, Entry(w.db, day).sold + 1, Entry(w.db, day).revenue + PriceOf(w, t))
      else Entry(w.db, day))
  {
    SaleSets(w, t, db', day);
    if day == Today(w.now) {
      RevenueOneMore(w.db, db', SoldOn(w.db, day), t);
    } else {
      RevenueSame(w.db, db', SoldOn(w.db, day));
    }
  }

  lemma SaleToday(w: World, t: Id, db': Db)
    requires Keyed(w.db) && SaleOf(w, t, db')
    ensures GetDailyStats(db', w.now).sold == GetDailyStats(w.db, w.now).sold + 1
    ensures GetDailyStats(db', w.now).revenue == GetDailyStats(w.db, w.now).revenue + PriceOf(w, t)
  {
    SaleSets(w, t, db', Today(w.now));
    RevenueOneMore(w.db, db', SoldSince(w.db, Today(w.now)), t);
  }

  /**
   * A sale adds one to the day and its plan's price in Ariary to the revenue, in today's entry
   * and in the daily statistics, and leaves every other day alone.
   */
  lemma SaleCounts(w: World, t: Id, pair: Pair, deauthOk: bool, day: int)
    requires DbInv(w.db) && t in w.db.tokens && w.db.tokens[t].status == TokenStatus.Unused
    ensures var db' := PortalAuth(w, t, pair, deauthOk, true).world.db;
      && Entry(db', day) == (
           if day == Today(w.now)
           then DayStats(day, Entry(w.db, day).sold + 1, Entry(w.db, day).revenue + PriceOf(w, t))
           else Entry(w.db, day))
      && GetDailyStats(db', w.now).sold == GetDailyStats(w.db, w.now).sold + 1
      && GetDailyStats(db', w.now).revenue == GetDailyStats(w.db, w.now).revenue + PriceOf(w, t)
  {
    SaleTables(w, t, pair, deauthOk);
    SaleEntry(w, t, PortalAuth(w, t, pair, deauthOk, true).world.db, day);
    SaleToday(w, t, PortalAuth(w, t, pair, deauthOk, true).world.db);
  }

  lemma InsertLives(db: Db, t: Id, pair: Pair, expiresAt: int, stamp: int, now: nat)
    requires Keyed(db) && t in db.tokens && SqlLive(expiresAt, now)
    ensures var db' := db.InsertSession(t, pair, expiresAt, stamp).value.RedeemToken(t, expiresAt, stamp);
      LiveSessions(db', now)
        == (set s | s in LiveSessions(db, now) && db.sessions[s].pair.mac != pair.mac) + {db.nextSession}
  {
    var db' := db.InsertSession(t, pair, expiresAt, stamp).value.RedeemToken(t, expiresAt, stamp);
    assert forall s :: db'.ActiveRow(s) <==>
      s == db.nextSession || (db.ActiveRow(s) && db.sessions[s].pair.mac != pair.mac);
  }

  /** After a sale the live sessions are the one of the sale and those of other devices. */
  lemma SaleLives(w: World, t: Id, pair: Pair, deauthOk: bool)
    requires DbInv(w.db) && t in w.db.tokens && w.db.tokens[t].status == TokenStatus.Unused
    ensures var db' := PortalAuth(w, t, pair, deauthOk, true).world.db;
            var others := set s | s in LiveSessions(w.db, w.now) && w.db.sessions[s].pair.mac != pair.mac;
      && w.db.nextSession !in others
      && LiveSessions(db', w.now) == others + {w.db.nextSession}
      && GetDailyStats(db', w.now).live == |others| + 1
  {
    var minutes := w.db.plans[w.db.tokens[t].planId].durationMinutes;
    CreationTables(w, t, minutes, pair);
    InsertLives(w.db, t, pair, (w.now + minutes * 60 * MS) / MS, Stamp(w.now), w.now);
  }

  /** The same sales at the same prices. */
  ghost predicate SameSales(db1: Db, db2: Db) {
    && (forall t :: Sold(db1, t) <==> Sold(db2, t))
    && (forall t :: Sold(db1, t) ==>
          db2.tokens[t].redeemedAt == db1.tokens[t].redeemedAt && db2.tokens[t].planId == db1.tokens[t].planId)
  }

  lemma SameSalesEntry(db1: Db, db2: Db, day: int)
    requires SameSales(db1, db2)
    ensures SoldOn(db1, day) == SoldOn(db2, day)
    ensures (forall t :: Sold(db1, t) ==> Price(db1, t) == Price(db2, t)) ==> Entry(db1, day) == Entry(db2, day)
  {
    assert SoldOn(db1, day) == SoldOn(db2, day);
    if forall t :: Sold(db1, t) ==> Price(db1, t) == Price(db2, t) { RevenueSame(db1, db2, SoldOn(db1, day)); }
  }

  lemma ExpirySameSales(db: Db, ids: set<Id>)
    requires DbInv(db) && forall s :: s in ids ==> db.ActiveRow(s)
    ensures SameSales(db, db.ExpireAll(ids)) && db.ExpireAll(ids).plans == db.plans
  {
    ExpireAllTokens(db, ids);
  }

  lemma AuthSameSales(w: World, t: Id, pair: Pair, deauthOk: bool, authOk: bool)
    requires DbInv(w.db) && !IsSale(w, StepAuth(t, pair, deauthOk, authOk))
    ensures var db' := PortalAuth(w, t, pair, deauthOk, authOk).world.db;
      db'.tokens == w.db.tokens && db'.plans == w.db.plans
  {
    if w.db.Joined(t) && w.db.tokens[t].status == TokenStatus.Active {
      MigrationTables(w, t, pair, deauthOk, authOk);
    }
  }

  /** The step overwrites a plan, and with it the price at which past sales are shown. */
  predicate Reprices(w: World, step: Step) {
    step.StepSavePlan? && step.planId in w.db.plans
  }

  /** The same sales, and no plan that is there already changes. */
  ghost predicate Unsold(db1: Db, db2: Db) {
    && SameSales(db1, db2)
    && forall p :: p in db1.plans ==> p in db2.plans && db2.plans[p] == db1.plans[p]
  }

  lemma AdminSameSales(cfg: Config, w: World, step: Step)
    requires DbInv(w.db) && IsAdmin(step)
    ensures SameSales(w.db, Next(cfg, w, step).db)
    ensures !Reprices(w, step) ==> Unsold(w.db, Next(cfg, w, step).db)
  {
  }

  lemma DisconnectSameSales(w: World, s: Id, ok: bool)
    ensures Unsold(w.db, Disconnect(w, s, ok).world.db)
  {
  }

  lemma SweepsSameSales(cfg: Config, w: World, step: Step)
    requires DbInv(w.db) && (step.StepCleanup? || step.StepBoot?)
    ensures Unsold(w.db, NextUnpurged(cfg, w, step).db)
  {
    match step
    case StepCleanup(failing) => ExpirySameSales(w.db, DueRows(cfg, w, false) - failing);
    case StepBoot(kept, failing) =>
      ExpirySameSales(w.db, w.db.ActiveRows() - RestorableRows(cfg, Surviving(w, kept)));
  }

  /** No step but a sale changes which tokens count as sold, and when. */
  lemma OthersSameSales(cfg: Config, w: World, step: Step)
    requires DbInv(w.db) && !IsSale(w, step)
    ensures SameSales(w.db, NextUnpurged(cfg, w, step).db)
    ensures !Reprices(w, step) ==> Unsold(w.db, NextUnpurged(cfg, w, step).db)
  {
    if step.StepAuth? {
      AuthSameSales(w, step.tokenId, step.pair, step.deauthOk, step.authOk);
    } else if step.StepCleanup? || step.StepBoot? {
      SweepsSameSales(cfg, w, step);
    } else if step.StepDisconnect? {
      DisconnectSameSales(w, step.sessionId, step.deauthOk);
    } else if IsAdmin(step) {
      AdminSameSales(cfg, w, step);
    }
  }

  /** So no step but a sale changes a day's count, and but a repricing its revenue. */
  lemma OnlySalesCount(cfg: Config, w: World, step: Step, day: int)
    requires DbInv(w.db) && !IsSale(w, step)
    ensures var db' := NextUnpurged(cfg, w, step).db;
      Entry(db', day).sold == Entry(w.db, day).sold && (!Reprices(w, step) ==> Entry(db', day) == Entry(w.db, day))
  {
    OthersSameSales(cfg, w, step);
    SameSalesEntry(w.db, NextUnpurged(cfg, w, step).db, day);
  }

  /** The sales of a run on one day, and what they brought at the prices of their moments. */
  ghost function SalesOn(cfg: Config, w: World, steps: seq<Step>, day: int): nat
    decreases |steps|
  {
    if steps == [] then 0
    else
      (if IsSale(w, steps[0]) && Today(w.now) == day then 1 else 0)
      + SalesOn(cfg, Next(cfg, w, steps[0]), steps[1..], day)
  }

  ghost function TakingsOn(cfg: Config, w: World, steps: seq<Step>, day: int): int
    requires DbInv(w.db)
    decreases |steps|
  {
    if steps == [] then 0
    else
      NextKeepsDb(cfg, w, steps[0]);
      (if IsSale(w, steps[0]) && Today(w.now) == day then PriceOf(w, steps[0].tokenId) else 0)
      + TakingsOn(cfg, Next(cfg, w, steps[0]), steps[1..], day)
  }

  ghost predicate NeverReprices(cfg: Config, w: World, steps: seq<Step>)
    decreases |steps|
  {
    steps == [] || (!Reprices(w, steps[0]) && NeverReprices(cfg, Next(cfg, w, steps[0]), steps[1..]))
  }

  lemma SaleInStep(full: World, w: World, step: Step)
    requires DbInv(full.db) && DbInv(w.db) && InStep(full, w)
    ensures IsSale(full, step) <==> IsSale(w, step)
    ensures IsSale(w, step) ==> PriceOf(full, step.tokenId) == PriceOf(w, step.tokenId)
    ensures Reprices(full, step) <==> Reprices(w, step)
  {
  }

  lemma StepCounts(cfg: Config, full: World, w: World, step: Step, day: int)
    requires DbInv(full.db) && DbInv(w.db) && InStep(full, w)
    ensures var before := Entry(full.db, day);
            var after := Entry(NextUnpurged(cfg, full, step).db, day);
            var now := IsSale(w, step) && Today(w.now) == day;
      && after.sold == before.sold + (if now then 1 else 0)
      && (!Reprices(w, step) ==>
            after.revenue == before.revenue + if now then PriceOf(w, step.tokenId) else 0)
  {
    SaleInStep(full, w, step);
    if IsSale(w, step) {
      SaleCounts(full, step.tokenId, step.pair, step.deauthOk, day);
    } else {
      OnlySalesCount(cfg, full, step, day);
    }
  }

  lemma {:induction false} SalesConserved(cfg: Config, full: World, w: World, steps: seq<Step>, day: int)
    requires cfg.retentionDays >= 7 && DbInv(full.db) && DbInv(w.db) && Retained(cfg, w) && InStep(full, w)
    ensures var entry := Entry(RunUnpurged(cfg, full, steps).db, day);
      && entry.sold == Entry(full.db, day).sold + SalesOn(cfg, w, steps, day)
      && (NeverReprices(cfg, w, steps) ==>
            entry.revenue == Entry(full.db, day).revenue + TakingsOn(cfg, w, steps, day))
    decreases |steps|
  {
    if steps != [] {
      StepCounts(cfg, full, w, steps[0], day);
      NextInStep(cfg, full, w, steps[0]);
      UnpurgedKeepsDb(cfg, full, steps[0]);
      NextKeepsDb(cfg, w, steps[0]);
      NextRetains(cfg, w, steps[0]);
      SalesConserved(cfg, NextUnpurged(cfg, full, steps[0]), Next(cfg, w, steps[0]), steps[1..], day);
    }
  }

  lemma UnpurgedSales(cfg: Config, start: nat, steps: seq<Step>, day: int)
    requires cfg.retentionDays >= 7
    ensures var entry := Entry(RunUnpurged(cfg, Init(start), steps).db, day);
      && entry.sold == SalesOn(cfg, Init(start), steps, day)
      && (NeverReprices(cfg, Init(start), steps) ==> entry.revenue == TakingsOn(cfg, Init(start), steps, day))
  {
    SalesConserved(cfg, Init(start), Init(start), steps, day);
    assert SoldOn(Init(start).db, day) == {};
  }

  /**
   * From an empty installation and with a retention of at least a week, every day of the week
   * shows exactly the sales made on it, and, no plan being overwritten, the Ariary they brought,
   * through all migrations, expiries, disconnects, restarts and purges since.
   */
  lemma WeekIsTheSales(cfg: Config, start: nat, steps: seq<Step>, i: nat)
    requires cfg.retentionDays >= 7 && i < 7
    ensures var w := Run(cfg, Init(start), steps);
            var week := GetWeeklyStats(w.db, w.now);
      && |week| == 7 && week[i].date == Today(w.now) - 6 + i
      && week[i].sold == SalesOn(cfg, Init(start), steps, week[i].date)
      && (NeverReprices(cfg, Init(start), steps) ==>
            week[i].revenue == TakingsOn(cfg, Init(start), steps, week[i].date))
  {
    var w := Run(cfg, Init(start), steps);
    PurgesGoUnnoticed(cfg, start, steps);
    UnpurgedSales(cfg, start, steps, WeekStart(w.now) + i);
    WeekShape(w.db, w.now);
    WeekShape(RunUnpurged(cfg, Init(start), steps).db, w.now);
  }
}
