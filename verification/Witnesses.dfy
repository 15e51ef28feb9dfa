/**
 * Concrete runs from an empty installation that show where a property stops: a retention
 * shorter than a week changes the statistics, a negative grace lets clients through unpaid,
 * a positive one keeps overdue rows active, and disconnecting a closed row can lock out the
 * client that took over its pair.
 */
module Witnesses {
  import opened Basics
  import opened Clock
  import opened Store
  import opened Devices
  import opened Protocol
  import opened Invariants
  import opened Agreement
  import opened Entitlement
  import opened Recovery
  import opened Stats

  const HOUR := Plan(60, 1000)

  lemma RunConcat(cfg: Config, w: World, a: seq<Step>, step: Step)
    ensures Run(cfg, w, a + [step]) == Next(cfg, Run(cfg, w, a), step)
    decreases |a|
  {
    if a == [] {
      assert ([] + [step])[1..] == [];
      assert Run(cfg, Next(cfg, w, step), []) == Next(cfg, w, step);
    } else {
      assert (a + [step])[1..] == a[1..] + [step];
      RunConcat(cfg, Next(cfg, w, a[0]), a[1..], step);
    }
  }

  // ---- A short retention -----------------------------------------------------------------

  const SOLD_STEPS := [StepSavePlan(0, 60, 1000), StepCreateToken(0), StepTick(86400000),
                       StepAuth(0, PHONE, true, true)]

  /** One token, redeemed at the first second of day 1. */
  ghost function SoldWorld(): World {
    World(
      Db(map[0 := HOUR],
         map[0 := Token(0, TokenStatus.Active, Some(86400), Some(90000))],
         map[0 := Session(0, PHONE, 86400, 90000, SessionStatus.Active)], 1, 1, 1),
      map[PHONE := 90000000], 86400000, 0, {Grant(0, PHONE, 90000000)}, map[0 := 90000])
  }

  lemma SoldRun(cfg: Config)
    ensures Run(cfg, Init(0), SOLD_STEPS) == SoldWorld()
  {
    var w0 := Init(0);
    var w1 := Next(cfg, w0, SOLD_STEPS[0]);
    assert w1 == w0.(db := Db(map[0 := HOUR], map[], map[], 1, 0, 0));
    var w2 := Next(cfg, w1, SOLD_STEPS[1]);
    assert w2 == w0.(db := Db(map[0 := HOUR], map[0 := Token(0, TokenStatus.Unused, None, None)], map[], 1, 1, 0));
    var w3 := Next(cfg, w2, SOLD_STEPS[2]);
    assert w3 == w2.(now := 86400000);
    var w4 := Next(cfg, w3, SOLD_STEPS[3]);
    assert w3.db.DisplaceMac(PHONE.mac).sessions == map[];
    assert w4.db == SoldWorld().db;
    assert w4 == SoldWorld();
    RunConcat(cfg, w0, [], SOLD_STEPS[0]);
    RunConcat(cfg, w0, SOLD_STEPS[..1], SOLD_STEPS[1]);
    RunConcat(cfg, w0, SOLD_STEPS[..2], SOLD_STEPS[2]);
    RunConcat(cfg, w0, SOLD_STEPS[..3], SOLD_STEPS[3]);
    assert SOLD_STEPS[..1] == [] + [SOLD_STEPS[0]];
    assert SOLD_STEPS[..2] == SOLD_STEPS[..1] + [SOLD_STEPS[1]];
    assert SOLD_STEPS[..3] == SOLD_STEPS[..2] + [SOLD_STEPS[2]];
    assert SOLD_STEPS == SOLD_STEPS[..3] + [SOLD_STEPS[3]];
  }

  /** The token of `SoldWorld` expired at a restart, a second into day 7. */
  ghost function WeekLater(): World {
    World(
      Db(map[0 := HOUR],
         map[0 := Token(0, TokenStatus.Expired, Some(86400), Some(90000))],
         map[0 := Session(0, PHONE, 86400, 90000, SessionStatus.Expired)], 1, 1, 1),
      map[], 604801000, 90000000, {Grant(0, PHONE, 90000000)}, map[0 := 90000])
  }

  /** `SoldWorld` an hour later: nothing left in the firewall, the row still active. */
  ghost function HourLater(): World {
    SoldWorld().(now := 90000000, fw := map[])
  }

  lemma HourLaterRows(cfg: Config)
    requires cfg.grace >= 0
    ensures HourLater().db.ActiveRows() == {0}
    ensures RestorableRows(cfg, HourLater()) == {}
  {
  }

  lemma WeekLaterPurge(cutoff: int)
    requires cutoff <= 86400
    ensures WeekLater().db.Purge(cutoff) == WeekLater().db
  {
    var db := WeekLater().db;
    assert db.PurgeSessions(cutoff).sessions == db.sessions;
    assert db.Referenced(0) by { assert 0 in db.sessions && db.sessions[0].tokenId == 0; }
    assert db.PurgeTokens().tokens == db.tokens;
  }

  lemma HourLaterExpires()
    ensures HourLater().db.ExpireAll({0}) == WeekLater().db
  {
    var db := HourLater().db;
    assert 0 in {0} && 0 in db.sessions && db.sessions[0].tokenId == 0;
    assert db.ExpireAll({0}).sessions == WeekLater().db.sessions;
    assert db.ExpireAll({0}).tokens == WeekLater().db.tokens;
  }

  lemma HourLaterRebootDb(cfg: Config)
    requires cfg.grace >= 0 && 1 <= cfg.retentionDays
    ensures Reboot(cfg, HourLater()).db == WeekLater().db
  {
    HourLaterRows(cfg);
    RebootDb(cfg, HourLater());
    assert {0} - {} == {0};
    HourLaterExpires();
    WeekLaterPurge(Cutoff(cfg, HourLater().now));
  }

  lemma HourLaterRest(cfg: Config)
    requires cfg.grace >= 0
    ensures Reboot(cfg, HourLater()) == HourLater().(db := Reboot(cfg, HourLater()).db, lastPurge := 90000000)
  {
    HourLaterRows(cfg);
    RebootRest(cfg, HourLater());
    assert RestoredFw(HourLater().(fw := map[]), {}) == map[];
    assert RestoreGrants(HourLater(), {}) == {};
  }

  lemma HourLaterReboot(cfg: Config)
    requires cfg.grace >= 0 && 1 <= cfg.retentionDays
    ensures Next(cfg, HourLater(), StepBoot({}, {})) == WeekLater().(now := 90000000)
  {
    HourLaterRest(cfg);
    HourLaterRebootDb(cfg);
  }

  lemma ExpiredRun(cfg: Config)
    requires cfg.grace >= 0 && 1 <= cfg.retentionDays
    ensures Next(cfg, Next(cfg, Next(cfg, SoldWorld(), StepTick(3600000)), StepBoot({}, {})), StepTick(514801000))
         == WeekLater()
  {
    assert Next(cfg, SoldWorld(), StepTick(3600000)) == HourLater() by {
      assert Tick(SoldWorld(), 3600000).fw == map[];
    }
    HourLaterReboot(cfg);
    assert Tick(WeekLater().(now := 90000000), 514801000).fw == map[];
  }

  const WEEK_STEPS := SOLD_STEPS + [StepTick(3600000)] + [StepBoot({}, {})] + [StepTick(514801000)]

  lemma WeekRun(cfg: Config)
    requires cfg.grace >= 0 && 1 <= cfg.retentionDays
    ensures Run(cfg, Init(0), WEEK_STEPS) == WeekLater()
  {
    SoldRun(cfg);
    RunConcat(cfg, Init(0), SOLD_STEPS, StepTick(3600000));
    RunConcat(cfg, Init(0), SOLD_STEPS + [StepTick(3600000)], StepBoot({}, {}));
    RunConcat(cfg, Init(0), SOLD_STEPS + [StepTick(3600000)] + [StepBoot({}, {})], StepTick(514801000));
    ExpiredRun(cfg);
  }

  lemma UnpurgedConcat(cfg: Config, w: World, a: seq<Step>, step: Step)
    ensures RunUnpurged(cfg, w, a + [step]) == NextUnpurged(cfg, RunUnpurged(cfg, w, a), step)
    decreases |a|
  {
    if a == [] {
      assert ([] + [step])[1..] == [];
      assert RunUnpurged(cfg, NextUnpurged(cfg, w, step), []) == NextUnpurged(cfg, w, step);
    } else {
      assert (a + [step])[1..] == a[1..] + [step];
      UnpurgedConcat(cfg, NextUnpurged(cfg, w, a[0]), a[1..], step);
    }
  }

  /** Before its first restart or cleanup a run has purged nothing. */
  lemma UnpurgedSame(cfg: Config, w: World, steps: seq<Step>)
    requires forall i :: 0 <= i < |steps| ==> !steps[i].StepBoot? && !steps[i].StepCleanup?
    ensures RunUnpurged(cfg, w, steps) == Run(cfg, w, steps)
    decreases |steps|
  {
    if steps != [] { UnpurgedSame(cfg, Next(cfg, w, steps[0]), steps[1..]); }
  }

  lemma UnpurgedReboot(cfg: Config, w: World)
    ensures NextUnpurged(cfg, w, StepBoot({}, {})).now == w.now
    ensures NextUnpurged(cfg, w, StepBoot({}, {})).db == w.db.ExpireAll(w.db.ActiveRows() - RestorableRows(cfg, w))
  {
    assert RestorableRows(cfg, Surviving(w, {})) == RestorableRows(cfg, w);
  }

  lemma UnpurgedWeek(cfg: Config)
    requires cfg.grace >= 0
    ensures RunUnpurged(cfg, Init(0), WEEK_STEPS + [StepBoot({}, {})]).db == WeekLater().db
  {
    var sold := SOLD_STEPS + [StepTick(3600000)];
    SoldRun(cfg);
    UnpurgedSame(cfg, Init(0), sold);
    RunConcat(cfg, Init(0), SOLD_STEPS, StepTick(3600000));
    var w1 := RunUnpurged(cfg, Init(0), sold);
    assert w1.db == HourLater().db && w1.now == HourLater().now;
    UnpurgedConcat(cfg, Init(0), sold, StepBoot({}, {}));
    UnpurgedReboot(cfg, w1);
    assert w1.db.ActiveRows() - RestorableRows(cfg, w1) == {0};
    HourLaterExpires();
    UnpurgedConcat(cfg, Init(0), sold + [StepBoot({}, {})], StepTick(514801000));
    UnpurgedConcat(cfg, Init(0), WEEK_STEPS, StepBoot({}, {}));
    var w2 := RunUnpurged(cfg, Init(0), WEEK_STEPS);
    assert w2.db == WeekLater().db;
    UnpurgedReboot(cfg, w2);
    assert w2.db.ActiveRows() - RestorableRows(cfg, w2) == {};
    ExpireAllNone(w2.db);
  }

  lemma WeekLaterPurged(cutoff: int)
    requires cutoff > 86400
    ensures WeekLater().db.Purge(cutoff).tokens == map[]
  {
    var db1 := WeekLater().db.PurgeSessions(cutoff);
    assert db1.sessions == map[];
    assert !db1.Referenced(0);
  }

  lemma PurgedWeek(cfg: Config)
    requires cfg.grace >= 0 && 1 <= cfg.retentionDays <= 6
    ensures Run(cfg, Init(0), WEEK_STEPS + [StepBoot({}, {})]).db.tokens == map[]
    ensures Run(cfg, Init(0), WEEK_STEPS + [StepBoot({}, {})]).now == WeekLater().now
  {
    var w := WeekLater();
    WeekRun(cfg);
    RunConcat(cfg, Init(0), WEEK_STEPS, StepBoot({}, {}));
    BootTables(cfg, w, {}, {});
    assert w.db.ActiveRows() - RestorableRows(cfg, w) == {};
    ExpireAllNone(w.db);
    WeekLaterPurged(Cutoff(cfg, w.now));
  }

  /**
   * With a retention of one to six days the next restart drops that sale from the week it
   * belongs to: a run without purges would still show it.
   */
  lemma ShortRetentionLosesASale(cfg: Config)
    requires cfg.grace >= 0 && 1 <= cfg.retentionDays <= 6
    ensures var steps := WEEK_STEPS + [StepBoot({}, {})];
            var w := Run(cfg, Init(0), steps);
      !SameStats(RunUnpurged(cfg, Init(0), steps).db, w.db, w.now)
  {
    PurgedWeek(cfg);
    UnpurgedWeek(cfg);
    var steps := WEEK_STEPS + [StepBoot({}, {})];
    var w := Run(cfg, Init(0), steps);
    var full := RunUnpurged(cfg, Init(0), steps).db;
    assert WeekStart(w.now) == 1;
    assert 0 in SoldOn(full, 1);
    assert SoldOn(w.db, 1) == {};
    WeekShape(full, w.now);
    WeekShape(w.db, w.now);
    assert GetWeeklyStats(full, w.now)[0].sold != GetWeeklyStats(w.db, w.now)[0].sold;
  }

  /**
   * Among the retentions the configuration accepts, exactly those of a week or more are safe,
   * the row and the redemption of a sale being stamped with one reading of the clock.
   */
  lemma SafeRetentions(retentionDays: int)
    requires retentionDays > 0
    ensures PurgeSafe(retentionDays) <==> retentionDays >= 7
  {
    if retentionDays >= 7 {
      LongRetentionIsSafe(retentionDays);
    } else {
      var cfg := Config(10, retentionDays);
      ShortRetentionLosesASale(cfg);
      var start: nat := 0;
      var w := Run(cfg, Init(start), WEEK_STEPS + [StepBoot({}, {})]);
      assert !SameStats(RunUnpurged(cfg, Init(start), WEEK_STEPS + [StepBoot({}, {})]).db, w.db, w.now);
    }
  }

  // ---- A grace below zero ------------------------------------------------------------------

  /** The invariant at every state of every run with this grace. */
  ghost predicate AlwaysConsistent(grace: int) {
    forall retentionDays: int, start: nat, steps: seq<Step> ::
      Inv(Run(Config(grace, retentionDays), Init(start), steps))
  }

  ghost predicate AlwaysPaidFor(grace: int) {
    forall retentionDays: int, start: nat, steps: seq<Step> ::
      AllPaidFor(Run(Config(grace, retentionDays), Init(start), steps))
  }

  const LATE_STEPS := SOLD_STEPS + [StepTick(3601000)] + [StepBoot({}, {})]

  /** `SoldWorld` a second after the expiry. */
  ghost function Late(): World {
    SoldWorld().(now := 90001000, fw := map[])
  }

  lemma LateTick(cfg: Config)
    ensures Run(cfg, Init(0), SOLD_STEPS + [StepTick(3601000)]) == Late()
  {
    SoldRun(cfg);
    RunConcat(cfg, Init(0), SOLD_STEPS, StepTick(3601000));
    assert Tick(SoldWorld(), 3601000).fw == map[];
  }

  lemma RebootStep(cfg: Config, w: World)
    ensures Next(cfg, w, StepBoot({}, {})) == Reboot(cfg, w)
  {
  }

  lemma LateRun(cfg: Config)
    ensures Run(cfg, Init(0), LATE_STEPS) == Reboot(cfg, Late())
  {
    LateTick(cfg);
    RunConcat(cfg, Init(0), SOLD_STEPS + [StepTick(3601000)], StepBoot({}, {}));
    RebootStep(cfg, Late());
  }

  lemma LateRows(cfg: Config)
    requires cfg.grace < 0
    ensures Late().db.ActiveRows() == {0} && RestorableRows(cfg, Late()) == {0}
  {
  }

  lemma LateReboot(cfg: Config)
    requires cfg.grace < 0
    ensures var w := Reboot(cfg, Late());
      PHONE in w.fw && w.fw[PHONE] == w.now
  {
    LateRows(cfg);
    RebootRest(cfg, Late());
    assert OnePerMac(Late().db);
    RestoredRow(Late().(fw := map[]), {0}, 0);
  }

  /** A restart then authorises the expired row anew, with no time at all. */
  lemma NegativeGraceRestores(cfg: Config)
    requires cfg.grace < 0
    ensures var w := Run(cfg, Init(0), LATE_STEPS);
      !Inv(w) && !AllPaidFor(w) && PHONE in w.fw
  {
    LateRun(cfg);
    LateReboot(cfg);
  }

  /**
   * Every run keeps the invariant, and every run lets through only what is paid for, if and
   * only if the grace is not negative, which the configuration does not ask for.
   */
  lemma SafeGraces(grace: int)
    ensures AlwaysConsistent(grace) <==> grace >= 0
    ensures AlwaysPaidFor(grace) <==> grace >= 0
  {
    if grace >= 0 {
      forall retentionDays: int, start: nat, steps: seq<Step>
        ensures Inv(Run(Config(grace, retentionDays), Init(start), steps))
        ensures AllPaidFor(Run(Config(grace, retentionDays), Init(start), steps))
      {
        ReachableInv(Config(grace, retentionDays), start, steps);
        FirewallIsPaidFor(Run(Config(grace, retentionDays), Init(start), steps));
      }
    } else {
      NegativeGraceRestores(Config(grace, 30));
      var start: nat := 0;
      assert !Inv(Run(Config(grace, 30), Init(start), LATE_STEPS));
    }
  }

  // ---- A row that cleanup leaves ------------------------------------------------------------

  /** `SoldWorld` when the row's expiry and the grace have passed. */
  ghost function Lapsed(cfg: Config): World
    requires cfg.grace > 0
  {
    SoldWorld().(now := 90000000 + MS * cfg.grace, fw := map[])
  }

  lemma LapsedRun(cfg: Config)
    requires cfg.grace > 0
    ensures Run(cfg, Init(0), SOLD_STEPS + [StepTick(3600000 + MS * cfg.grace)]) == Lapsed(cfg)
  {
    SoldRun(cfg);
    RunConcat(cfg, Init(0), SOLD_STEPS, StepTick(3600000 + MS * cfg.grace));
    assert Tick(SoldWorld(), 3600000 + MS * cfg.grace).fw == map[];
  }

  lemma LapsedRows(cfg: Config)
    requires cfg.grace > 0
    ensures Lists(Lapsed(cfg).db, [0], Lapsed(cfg).db.ActiveRows())
    ensures OverdueRows(cfg, Lapsed(cfg)) == {0}
  {
    assert Lapsed(cfg).db.ActiveRows() == {0};
  }

  lemma LapsedRound(cfg: Config)
    requires cfg.grace > 0
    ensures var db' := Next(cfg, Lapsed(cfg), StepCleanup({})).db;
      db'.ActiveRow(0) && 0 in db'.tokens && db'.tokens[0].status == TokenStatus.Active
  {
    PassNeverExpires(cfg, Lapsed(cfg), {});
    PurgeActive(Lapsed(cfg).db, Cutoff(cfg, Lapsed(cfg).now));
    assert Lapsed(cfg).db.ActiveRow(0);
  }

  /**
   * With a positive grace, a row whose expiry and grace have passed: the documented loop
   * expires it, the coded round leaves it and its token active.
   */
  lemma OverdueRowStaysActive(cfg: Config)
    requires cfg.grace > 0
    ensures var w := Run(cfg, Init(0), SOLD_STEPS + [StepTick(3600000 + MS * cfg.grace)]);
            var db' := Next(cfg, w, StepCleanup({})).db;
      && Lists(w.db, [0], w.db.ActiveRows()) && OverdueRows(cfg, w) == {0}
      && 0 !in CleanupRows(cfg, w, [0], {}, true).db.ActiveRows()
      && db'.ActiveRow(0) && 0 in db'.tokens && db'.tokens[0].status == TokenStatus.Active
  {
    LapsedRun(cfg);
    LapsedRows(cfg);
    LapsedRound(cfg);
    DocumentedCleanup(cfg, Lapsed(cfg), [0], {});
    assert 0 in OverdueRows(cfg, Lapsed(cfg)) - {};
  }

  // ---- A stale disconnect ------------------------------------------------------------------

  /** One phone redeems a second token while its first is still running. */
  const TWO_TOKENS := [StepSavePlan(0, 60, 1000), StepCreateToken(0), StepCreateToken(0),
                       StepAuth(0, PHONE, true, true), StepAuth(1, PHONE, true, true)]

  ghost function FreshTokens(): World {
    Init(0).(db := Db(map[0 := HOUR],
                      map[0 := Token(0, TokenStatus.Unused, None, None), 1 := Token(0, TokenStatus.Unused, None, None)],
                      map[], 1, 2, 0))
  }

  ghost function OneRedeemed(): World {
    FreshTokens().(
      db := Db(map[0 := HOUR],
               map[0 := Token(0, TokenStatus.Active, Some(0), Some(3600)),
                   1 := Token(0, TokenStatus.Unused, None, None)],
               map[0 := Session(0, PHONE, 0, 3600, SessionStatus.Active)], 1, 2, 1),
      fw := map[PHONE := 3600000],
      grants := {Grant(0, PHONE, 3600000)},
      entitled := map[0 := 3600])
  }

  ghost function BothRedeemed(): World {
    OneRedeemed().(
      db := Db(map[0 := HOUR],
               map[0 := Token(0, TokenStatus.Active, Some(0), Some(3600)),
                   1 := Token(0, TokenStatus.Active, Some(0), Some(3600))],
               map[0 := Session(0, PHONE, 0, 3600, SessionStatus.Disconnected),
                   1 := Session(1, PHONE, 0, 3600, SessionStatus.Active)], 1, 2, 2),
      grants := {Grant(0, PHONE, 3600000), Grant(1, PHONE, 3600000)},
      entitled := map[0 := 3600, 1 := 3600])
  }

  lemma FreshTokensRun(cfg: Config)
    ensures Next(cfg, Next(cfg, Next(cfg, Init(0), TWO_TOKENS[0]), TWO_TOKENS[1]), TWO_TOKENS[2]) == FreshTokens()
  {
    var w1 := Next(cfg, Init(0), TWO_TOKENS[0]);
    assert w1 == Init(0).(db := Db(map[0 := HOUR], map[], map[], 1, 0, 0));
    var w2 := Next(cfg, w1, TWO_TOKENS[1]);
    assert w2 == Init(0).(db := Db(map[0 := HOUR], map[0 := Token(0, TokenStatus.Unused, None, None)], map[], 1, 1, 0));
  }

  lemma OneRedeemedRun(cfg: Config)
    ensures Next(cfg, FreshTokens(), TWO_TOKENS[3]) == OneRedeemed()
  {
    assert FreshTokens().db.DisplaceMac(PHONE.mac).sessions == map[];
    assert Next(cfg, FreshTokens(), TWO_TOKENS[3]).db == OneRedeemed().db;
  }

  lemma BothRedeemedDb()
    ensures var expiresAt: int := 3600;
      OneRedeemed().db.InsertSession(1, PHONE, expiresAt, 0).value.RedeemToken(1, expiresAt, 0) == BothRedeemed().db
  {
    var db := OneRedeemed().db;
    assert db.ActiveRow(0);
    assert db.DisplaceMac(PHONE.mac).sessions == map[0 := Session(0, PHONE, 0, 3600, SessionStatus.Disconnected)];
  }

  lemma BothRedeemedRun(cfg: Config)
    ensures Next(cfg, OneRedeemed(), TWO_TOKENS[4]) == BothRedeemed()
  {
    BothRedeemedDb();
    CreationTables(OneRedeemed(), 1, 60, PHONE);
    var w := OneRedeemed();
    assert w.db.Joined(1) && w.db.tokens[1].status == TokenStatus.Unused && w.db.plans[0] == HOUR;
    assert Next(cfg, w, TWO_TOKENS[4]) == CreateSession(w, 1, 60, PHONE, true).world;
  }

  lemma TwoTokensRun(cfg: Config)
    ensures Run(cfg, Init(0), TWO_TOKENS) == BothRedeemed()
  {
    var steps := TWO_TOKENS;
    var w0 := Init(0);
    RunConcat(cfg, w0, [], steps[0]);
    RunConcat(cfg, w0, steps[..1], steps[1]);
    RunConcat(cfg, w0, steps[..2], steps[2]);
    RunConcat(cfg, w0, steps[..3], steps[3]);
    RunConcat(cfg, w0, steps[..4], steps[4]);
    assert steps[..1] == [] + [steps[0]];
    assert steps[..2] == steps[..1] + [steps[1]];
    assert steps[..3] == steps[..2] + [steps[2]];
    assert steps[..4] == steps[..3] + [steps[3]];
    assert steps == steps[..4] + [steps[4]];
    FreshTokensRun(cfg);
    OneRedeemedRun(cfg);
    BothRedeemedRun(cfg);
  }

  lemma BothRedeemedServed()
    ensures Agreed(BothRedeemed())
  {
  }

  lemma StaleDisconnect()
    ensures var w := Disconnect(BothRedeemed(), 0, true).world;
      Open(w, 1) && !Served(w, 1)
  {
    assert BothRedeemed().db.Joined(0);
  }

  /**
   * Disconnecting the first, displaced row then takes the phone's pair out of the firewall,
   * although the second token has its whole hour left.
   */
  lemma StaleDisconnectLocksOut(cfg: Config)
    ensures Agreed(Run(cfg, Init(0), TWO_TOKENS))
    ensures var w := Run(cfg, Init(0), TWO_TOKENS + [StepDisconnect(0, true)]);
      Open(w, 1) && !Served(w, 1)
  {
    TwoTokensRun(cfg);
    BothRedeemedServed();
    StaleDisconnect();
    RunConcat(cfg, Init(0), TWO_TOKENS, StepDisconnect(0, true));
  }
}
