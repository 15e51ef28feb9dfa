/**
 * The rate limiter: maps that are pruned, swept and shared between addresses, against a
 * specification that keeps each address's whole history since its last ban.
 */
module RateLimit {
  import opened Basics

  /** Instants are nanoseconds of the monotonic clock. */
  const SECOND: int := 1000000000

  const U32: int := 0x1_0000_0000

  datatype Limits = Limits(maxAttempts: nat, windowSeconds: nat, banAfter: nat, banSeconds: nat) {
    /** What the configuration check accepts of the four fields. */
    predicate Accepted() {
      0 < maxAttempts <= banAfter < U32 && 0 < windowSeconds && 0 < banSeconds
    }

    function Window(): nat {
      windowSeconds * SECOND
    }

    function BanLength(): nat {
      banSeconds * SECOND
    }
  }

  datatype Verdict = Allowed | Throttled | Banned(retryAfter: int)

  /** The instants within the window that ends at `now`. */
  function Recent(limits: Limits, s: seq<nat>, now: nat): seq<nat> {
    if s == [] then []
    else
      var n := |s| - 1;
      var rest := Recent(limits, s[..n], now);
      if now - s[n] < limits.Window() then rest + [s[n]] else rest
  }

  // ---- Specification -----------------------------------------------------------------------

  /** The attempts of one address since its last ban, none forgotten, and that ban's end. */
  datatype Record = Record(log: seq<nat>, bannedUntil: nat)

  const FRESH := Record([], 0)

  datatype Ruling = Ruling(record: Record, verdict: Verdict)

  /** The ruling on an address that is not banned, given its attempts in the window. */
  function RuleByCount(limits: Limits, record: Record, now: nat, count: nat): Ruling {
    if count >= limits.banAfter then Ruling(Record([], now + limits.BanLength()), Banned(limits.banSeconds))
    else Ruling(Record(record.log + [now], record.bannedUntil),
                if count > limits.maxAttempts then Throttled else Allowed)
  }

  function Rule(limits: Limits, record: Record, now: nat): Ruling {
    if now < record.bannedUntil then
      Ruling(record, Banned(Max((record.bannedUntil - now) / SECOND, 1)))
    else
      RuleByCount(limits, record, now, |Recent(limits, record.log + [now], now)|)
  }

  // ---- Windows -------------------------------------------------------------------------------

  lemma {:induction false} RecentAgain(limits: Limits, s: seq<nat>, now: nat, later: nat)
    requires now <= later
    ensures Recent(limits, Recent(limits, s, now), later) == Recent(limits, s, later)
    ensures |Recent(limits, s, later)| <= |Recent(limits, s, now)| <= |s|
  {
    if s != [] {
      var n := |s| - 1;
      RecentAgain(limits, s[..n], now, later);
      var kept := Recent(limits, s[..n], now);
      if now - s[n] < limits.Window() {
        assert (kept + [s[n]])[..|kept|] == kept;
      }
    }
  }

  lemma RecentOneMore(limits: Limits, s: seq<nat>, x: nat, now: nat)
    ensures Recent(limits, s + [x], now) ==
      if now - x < limits.Window() then Recent(limits, s, now) + [x] else Recent(limits, s, now)
  {
    assert (s + [x])[..|s|] == s;
  }

  /** Two lists of attempts that cannot be told apart from `since` on. */
  ghost predicate SameWindows(limits: Limits, a: seq<nat>, b: seq<nat>, since: nat) {
    forall t: nat :: since <= t ==> Recent(limits, a, t) == Recent(limits, b, t)
  }

  lemma PrunedSame(limits: Limits, a: seq<nat>, b: seq<nat>, now: nat)
    requires SameWindows(limits, a, b, now)
    ensures SameWindows(limits, Recent(limits, a, now), b, now)
  {
    forall t: nat | now <= t ensures Recent(limits, Recent(limits, a, now), t) == Recent(limits, b, t) {
      RecentAgain(limits, a, now, t);
    }
  }

  // ---- The limiter ---------------------------------------------------------------------------

  class RateLimiter {
    const limits: Limits
    var attempts: map<string, seq<nat>>
    var bans: map<string, nat>
    ghost var records: map<string, Record>
    ghost var clock: nat

    ghost function RecordOf(ip: string): Record
      reads this`records
    {
      if ip in records then records[ip] else FRESH
    }

    function Stored(ip: string): seq<nat>
      reads this`attempts
    {
      if ip in attempts then attempts[ip] else []
    }

    /** The stored attempts of an address show the same windows as its whole record. */
    ghost predicate Tracks(ip: string)
      reads this
    {
      && |Stored(ip)| < limits.banAfter
      && SameWindows(limits, Stored(ip), RecordOf(ip).log, clock)
      && (if ip in bans then RecordOf(ip).bannedUntil == bans[ip] else RecordOf(ip).bannedUntil <= clock)
    }

    ghost predicate Valid()
      reads this
    {
      limits.Accepted() && forall ip: string :: Tracks(ip)
    }

    constructor (limits: Limits)
      requires limits.Accepted()
      ensures Valid() && this.limits == limits && records == map[] && clock == 0
    {
      this.limits := limits;
      attempts, bans := map[], map[];
      records, clock := map[], 0;
    }

    /** Time passes without a change. */
    ghost method Wait(now: nat)
      requires Valid() && clock <= now
      modifies this`clock
      ensures Valid() && clock == now
    {
      clock := now;
      forall ip: string ensures Tracks(ip) {
        assert old(Tracks(ip));
      }
    }

    /** Drop expired bans. */
    method PruneBans(now: nat)
      requires Valid() && clock <= now
      modifies this`bans, this`clock
      ensures Valid() && clock == now
      ensures forall ip :: ip in bans ==> now < bans[ip]
    {
      bans := map ip | ip in bans && now < bans[ip] :: bans[ip];
      clock := now;
      forall ip: string ensures Tracks(ip) {
        assert old(Tracks(ip));
      }
    }

    /** The periodic sweep over all addresses. */
    method Sweep(now: nat)
      requires Valid() && clock == now
      modifies this`attempts
      ensures Valid()
    {
      if attempts != map[] && |attempts| % 256 == 0 {
        attempts := map ip | ip in attempts && Recent(limits, attempts[ip], now) != [] ::
          Recent(limits, attempts[ip], now);
        forall ip: string ensures Tracks(ip) {
          assert old(Tracks(ip));
          PrunedSame(limits, old(Stored(ip)), RecordOf(ip).log, now);
          RecentAgain(limits, old(Stored(ip)), now, now);
        }
      }
    }

    /** Start a ban; it takes over from the attempts. */
    method StartBan(ip: string, now: nat)
      requires Valid() && clock == now
      modifies this`bans, this`attempts, this`records
      ensures Valid()
      ensures RecordOf(ip) == Record([], now + limits.BanLength())
      ensures forall other: string :: other != ip ==> RecordOf(other) == old(RecordOf(other))
    {
      bans := bans[ip := now + limits.BanLength()];
      attempts := attempts[ip := []];
      records := records[ip := Record([], now + limits.BanLength())];
      forall other: string ensures Tracks(other) {
        assert old(Tracks(other));
      }
    }

    /** Replace the attempts of an address by its recent ones, this one included. */
    method StoreAttempts(ip: string, entry: seq<nat>, now: nat)
      requires Valid() && clock == now && |entry| < limits.banAfter
      requires SameWindows(limits, entry, RecordOf(ip).log + [now], now)
      modifies this`attempts, this`records
      ensures Valid()
      ensures RecordOf(ip) == Record(old(RecordOf(ip)).log + [now], old(RecordOf(ip)).bannedUntil)
      ensures forall other: string :: other != ip ==> RecordOf(other) == old(RecordOf(other))
    {
      ghost var log := RecordOf(ip).log + [now];
      attempts := attempts[ip := entry];
      records := records[ip := Record(log, RecordOf(ip).bannedUntil)];
      forall other: string ensures Tracks(other) {
        assert old(Tracks(other));
      }
    }

    /** The attempts of an address that count now, this one included; there are few enough to count. */
    method RecentAttempts(ip: string, now: nat) returns (entry: seq<nat>)
      requires Valid() && clock == now && RecordOf(ip).bannedUntil <= now
      ensures Rule(limits, RecordOf(ip), now) == RuleByCount(limits, RecordOf(ip), now, |entry|)
      ensures SameWindows(limits, entry, RecordOf(ip).log + [now], now)
      ensures |entry| <= limits.banAfter
    {
      ghost var log := RecordOf(ip).log + [now];
      PrunedSame(limits, log, log, now);
      assert Tracks(ip);
      RecentOneMore(limits, RecordOf(ip).log, now, now);
      RecentAgain(limits, Stored(ip), now, now);
      entry := Recent(limits, Stored(ip), now) + [now];
      assert entry == Recent(limits, log, now);
    }

    /** Record an attempt of an address that is not banned, and rule on it. */
    method RecordAttempt(ip: string, now: nat) returns (verdict: Verdict)
      requires Valid() && clock == now && RecordOf(ip).bannedUntil <= now
      modifies this`bans, this`attempts, this`records
      ensures Valid()
      ensures Ruling(RecordOf(ip), verdict) == Rule(limits, old(RecordOf(ip)), now)
      ensures forall other: string :: other != ip ==> RecordOf(other) == old(RecordOf(other))
    {
      var entry := RecentAttempts(ip, now);
      var count := |entry| % U32;
      assert count == |entry|;
      if count >= limits.banAfter {
        StartBan(ip, now);
        verdict := Banned(limits.banSeconds);
      } else {
        StoreAttempts(ip, entry, now);
        verdict := if count > limits.maxAttempts then Throttled else Allowed;
      }
    }

    /** Check an attempt and record it. */
    method CheckAndRecord(ip: string, now: nat) returns (verdict: Verdict)
      requires Valid() && clock <= now
      modifies this
      ensures Valid() && clock == now
      ensures Ruling(RecordOf(ip), verdict) == Rule(limits, old(RecordOf(ip)), now)
      ensures forall other: string :: other != ip ==> RecordOf(other) == old(RecordOf(other))
    {
      assert Tracks(ip);
      if ip in bans && now < bans[ip] {
        verdict := Banned(Max((bans[ip] - now) / SECOND, 1));
        Wait(now);
      } else {
        assert RecordOf(ip).bannedUntil <= now;
        PruneBans(now);
        Sweep(now);
        verdict := RecordAttempt(ip, now);
      }
    }
  }

  // ---- Sequences of calls ----------------------------------------------------------------------

  datatype Call = Call(ip: string, at: nat)

  /** What an address's own calls have led to; calls of others are skipped. */
  function RecordAfter(limits: Limits, calls: seq<Call>, ip: string): Record {
    if calls == [] then FRESH
    else
      var n := |calls| - 1;
      var before := RecordAfter(limits, calls[..n], ip);
      if calls[n].ip == ip then Rule(limits, before, calls[n].at).record else before
  }

  function VerdictAt(limits: Limits, calls: seq<Call>, i: nat): Verdict
    requires i < |calls|
  {
    Rule(limits, RecordAfter(limits, calls[..i], calls[i].ip), calls[i].at).verdict
  }

  ghost predicate Nondecreasing(calls: seq<Call>) {
    forall i, j :: 0 <= i < j < |calls| ==> calls[i].at <= calls[j].at
  }

  /**
   * For every sequence of calls at nondecreasing times a limiter rules as the specification
   * does on the calling address's own history: pruning, sweeping, and the other addresses
   * cannot be observed.
   */
  method Replay(limits: Limits, calls: seq<Call>) returns (verdicts: seq<Verdict>)
    requires limits.Accepted() && Nondecreasing(calls)
    ensures |verdicts| == |calls|
    ensures forall i :: 0 <= i < |calls| ==> verdicts[i] == VerdictAt(limits, calls, i)
  {
    var limiter := new RateLimiter(limits);
    verdicts := [];
    for i := 0 to |calls|
      invariant limiter.Valid() && limiter.limits == limits
      invariant fresh(limiter)
      invariant forall j :: i <= j < |calls| ==> limiter.clock <= calls[j].at
      invariant |verdicts| == i
      invariant forall j :: 0 <= j < i ==> verdicts[j] == VerdictAt(limits, calls, j)
      invariant forall ip: string :: limiter.RecordOf(ip) == RecordAfter(limits, calls[..i], ip)
    {
      assert calls[..i + 1][..i] == calls[..i];
      var verdict := limiter.CheckAndRecord(calls[i].ip, calls[i].at);
      verdicts := verdicts + [verdict];
    }
  }

  // ---- Bans --------------------------------------------------------------------------------------

  /** Call `i` comes from an address that is not banned, and gets it banned. */
  predicate StartsBan(limits: Limits, calls: seq<Call>, i: nat)
    requires i < |calls|
  {
    && RecordAfter(limits, calls[..i], calls[i].ip).bannedUntil <= calls[i].at
    && VerdictAt(limits, calls, i).Banned?
  }

  function BanEnd(limits: Limits, calls: seq<Call>, i: nat): nat
    requires i < |calls|
  {
    calls[i].at + limits.BanLength()
  }

  /** Up to its end the ban stands as it was set, whatever is attempted. */
  lemma {:induction false} BannedRecord(limits: Limits, calls: seq<Call>, i: nat, n: nat)
    requires limits.Accepted() && i < n <= |calls| && StartsBan(limits, calls, i)
    requires forall k :: i < k < n ==> calls[k].at < BanEnd(limits, calls, i)
    ensures RecordAfter(limits, calls[..n], calls[i].ip) == Record([], BanEnd(limits, calls, i))
    decreases n
  {
    assert calls[..n][..n - 1] == calls[..n - 1];
    if n > i + 1 { BannedRecord(limits, calls, i, n - 1); }
  }

  /** Records that no attempt from `since` on can tell apart. */
  predicate Alike(a: Record, b: Record, since: nat) {
    a.log == b.log && (a.bannedUntil == b.bannedUntil || (a.bannedUntil <= since && b.bannedUntil <= since))
  }

  lemma AlikeRuled(limits: Limits, a: Record, b: Record, since: nat, now: nat)
    requires Alike(a, b, since) && since <= now
    ensures Rule(limits, a, now).verdict == Rule(limits, b, now).verdict
    ensures Alike(Rule(limits, a, now).record, Rule(limits, b, now).record, since)
  {
  }

  lemma RecordOneMore(limits: Limits, calls: seq<Call>, call: Call, ip: string)
    ensures RecordAfter(limits, calls + [call], ip) ==
      if call.ip == ip then Rule(limits, RecordAfter(limits, calls, ip), call.at).record
      else RecordAfter(limits, calls, ip)
  {
    assert (calls + [call])[..|calls|] == calls;
  }

  lemma AlikeOneMore(limits: Limits, a: seq<Call>, b: seq<Call>, call: Call, ip: string, since: nat)
    requires Alike(RecordAfter(limits, a, ip), RecordAfter(limits, b, ip), since) && since <= call.at
    ensures Alike(RecordAfter(limits, a + [call], ip), RecordAfter(limits, b + [call], ip), since)
  {
    RecordOneMore(limits, a, call, ip);
    RecordOneMore(limits, b, call, ip);
    AlikeRuled(limits, RecordAfter(limits, a, ip), RecordAfter(limits, b, ip), since, call.at);
  }

  /** After the end of the ban the address stands as if its calls had begun then. */
  lemma {:induction false} BanForgets(limits: Limits, calls: seq<Call>, i: nat, j: nat, n: nat)
    requires limits.Accepted() && Nondecreasing(calls) && i < j <= n <= |calls| && StartsBan(limits, calls, i)
    requires forall k :: i < k < j ==> calls[k].at < BanEnd(limits, calls, i)
    requires j < n ==> calls[j].at >= BanEnd(limits, calls, i)
    ensures Alike(RecordAfter(limits, calls[..n], calls[i].ip), RecordAfter(limits, calls[j..n], calls[i].ip),
                  BanEnd(limits, calls, i))
    decreases n
  {
    var ip := calls[i].ip;
    if n == j {
      BannedRecord(limits, calls, i, j);
      assert calls[j..j] == [];
    } else {
      BanForgets(limits, calls, i, j, n - 1);
      assert calls[j].at <= calls[n - 1].at;
      assert calls[..n] == calls[..n - 1] + [calls[n - 1]];
      assert calls[j..n] == calls[j..n - 1] + [calls[n - 1]];
      AlikeOneMore(limits, calls[..n - 1], calls[j..n - 1], calls[n - 1], ip, BanEnd(limits, calls, i));
    }
  }

  /**
   * In every sequence of calls a ban lasts exactly its length. Let call `i` start one, and
   * call `m` come later from the same address. Before the ban's end `m` is banned, told the
   * seconds left, and neither extends nor changes the ban. From the end on it is ruled as if
   * the calls had begun with `j`, the first one at or after the end.
   */
  lemma BanLastsExactly(limits: Limits, calls: seq<Call>, i: nat, j: nat, m: nat)
    requires limits.Accepted() && Nondecreasing(calls) && i < j <= |calls| && i < m < |calls|
    requires StartsBan(limits, calls, i) && calls[m].ip == calls[i].ip
    requires forall k :: i < k < j ==> calls[k].at < BanEnd(limits, calls, i)
    requires j < |calls| ==> calls[j].at >= BanEnd(limits, calls, i)
    ensures calls[m].at < BanEnd(limits, calls, i) ==>
      && VerdictAt(limits, calls, m) == Banned(Max((BanEnd(limits, calls, i) - calls[m].at) / SECOND, 1))
      && RecordAfter(limits, calls[..m + 1], calls[i].ip) == RecordAfter(limits, calls[..i + 1], calls[i].ip)
    ensures calls[m].at >= BanEnd(limits, calls, i) ==>
      j <= m && VerdictAt(limits, calls, m) == VerdictAt(limits, calls[j..], m - j)
  {
    BannedRecord(limits, calls, i, i + 1);
    if calls[m].at < BanEnd(limits, calls, i) {
      assert forall k :: i < k <= m ==> calls[k].at <= calls[m].at;
      BannedRecord(limits, calls, i, m);
      BannedRecord(limits, calls, i, m + 1);
    } else {
      BanForgets(limits, calls, i, j, m);
      assert calls[j..][..m - j] == calls[j..m];
      AlikeRuled(limits, RecordAfter(limits, calls[..m], calls[m].ip), RecordAfter(limits, calls[j..m], calls[m].ip),
                 BanEnd(limits, calls, i), calls[m].at);
    }
  }

  // ---- Every verdict, by counting ------------------------------------------------------------------

  /** The calls of call `i`'s address, from `first` on and up to itself, that its window still holds. */
  ghost function InWindow(limits: Limits, calls: seq<Call>, first: nat, i: nat): set<nat>
    requires i < |calls|
  {
    set k: nat | first <= k <= i && calls[k].ip == calls[i].ip && calls[i].at - calls[k].at < limits.Window()
  }

  /** Nothing from `first` on banned the address before call `i`. */
  ghost predicate Unbanned(limits: Limits, calls: seq<Call>, first: nat, i: nat)
    requires i < |calls|
  {
    forall k :: first <= k < i && calls[k].ip == calls[i].ip ==> !VerdictAt(limits, calls, k).Banned?
  }

  /** What the configuration promises for a number of attempts in the window. */
  predicate Promised(limits: Limits, count: nat, verdict: Verdict) {
    && (verdict == Allowed <==> count <= limits.maxAttempts && count < limits.banAfter)
    && (verdict == Throttled <==> limits.maxAttempts < count < limits.banAfter)
    && (verdict == Banned(limits.banSeconds) <==> count >= limits.banAfter)
  }

  function OwnTimes(calls: seq<Call>, ip: string): seq<nat> {
    if calls == [] then []
    else
      var n := |calls| - 1;
      OwnTimes(calls[..n], ip) + if calls[n].ip == ip then [calls[n].at] else []
  }

  ghost function OwnRecent(limits: Limits, calls: seq<Call>, ip: string, now: nat): set<nat> {
    set k: nat | k < |calls| && calls[k].ip == ip && now - calls[k].at < limits.Window()
  }

  lemma OwnRecentOneMore(limits: Limits, calls: seq<Call>, call: Call, ip: string, now: nat)
    ensures OwnRecent(limits, calls + [call], ip, now) ==
      if call.ip == ip && now - call.at < limits.Window() then OwnRecent(limits, calls, ip, now) + {|calls|}
      else OwnRecent(limits, calls, ip, now)
  {
  }

  lemma OwnTimesOneMore(calls: seq<Call>, call: Call, ip: string)
    ensures OwnTimes(calls + [call], ip) ==
      if call.ip == ip then OwnTimes(calls, ip) + [call.at] else OwnTimes(calls, ip)
  {
    assert (calls + [call])[..|calls|] == calls;
  }

  lemma OneMoreCounts(limits: Limits, calls: seq<Call>, call: Call, ip: string, now: nat)
    requires |Recent(limits, OwnTimes(calls, ip), now)| == |OwnRecent(limits, calls, ip, now)|
    ensures |Recent(limits, OwnTimes(calls + [call], ip), now)| == |OwnRecent(limits, calls + [call], ip, now)|
  {
    RecentOneMore(limits, OwnTimes(calls, ip), call.at, now);
    OwnTimesOneMore(calls, call, ip);
    OwnRecentOneMore(limits, calls, call, ip, now);
    assert |calls| !in OwnRecent(limits, calls, ip, now);
  }

  lemma {:induction false} RecentCounts(limits: Limits, calls: seq<Call>, ip: string, now: nat)
    ensures |Recent(limits, OwnTimes(calls, ip), now)| == |OwnRecent(limits, calls, ip, now)|
  {
    if calls == [] {
      assert OwnRecent(limits, calls, ip, now) == {};
    } else {
      var n := |calls| - 1;
      RecentCounts(limits, calls[..n], ip, now);
      OneMoreCounts(limits, calls[..n], calls[n], ip, now);
      assert calls == calls[..n] + [calls[n]];
    }
  }

  /** While no call has banned it, an address's record is the list of its own calls. */
  lemma {:induction false} LogIsOwn(limits: Limits, calls: seq<Call>, ip: string)
    requires limits.Accepted()
    requires forall k :: 0 <= k < |calls| && calls[k].ip == ip ==> !VerdictAt(limits, calls, k).Banned?
    ensures RecordAfter(limits, calls, ip) == Record(OwnTimes(calls, ip), 0)
  {
    if calls != [] {
      var n := |calls| - 1;
      forall k | 0 <= k < n && calls[k].ip == ip ensures !VerdictAt(limits, calls[..n], k).Banned? {
        assert calls[..n][..k] == calls[..k];
      }
      LogIsOwn(limits, calls[..n], ip);
    }
  }

  /** An address that was never banned is ruled by the number of its calls in the window. */
  lemma VerdictByCount(limits: Limits, calls: seq<Call>, i: nat)
    requires limits.Accepted() && i < |calls| && Unbanned(limits, calls, 0, i)
    ensures Promised(limits, |InWindow(limits, calls, 0, i)|, VerdictAt(limits, calls, i))
  {
    var ip := calls[i].ip;
    forall k | 0 <= k < i && calls[k].ip == ip ensures !VerdictAt(limits, calls[..i], k).Banned? {
      assert calls[..i][..k] == calls[..k];
    }
    LogIsOwn(limits, calls[..i], ip);
    assert calls[..i + 1][..i] == calls[..i];
    RecentCounts(limits, calls[..i + 1], ip, calls[i].at);
    assert OwnRecent(limits, calls[..i + 1], ip, calls[i].at) == InWindow(limits, calls, 0, i);
  }

  ghost function Shifted(s: set<nat>, distance: nat): set<nat> {
    set k | k in s :: k + distance
  }

  lemma {:induction false} ShiftedCount(s: set<nat>, distance: nat)
    ensures |Shifted(s, distance)| == |s|
  {
    if s == {} {
      assert Shifted(s, distance) == {};
    } else {
      var x :| x in s;
      ShiftedCount(s - {x}, distance);
      forall y | y in Shifted(s, distance) ensures y in Shifted(s - {x}, distance) + {x + distance} {
        var k :| k in s && k + distance == y;
        assert k != x ==> k in s - {x};
      }
      assert Shifted(s, distance) == Shifted(s - {x}, distance) + {x + distance};
    }
  }

  lemma InWindowShift(limits: Limits, calls: seq<Call>, j: nat, m: nat)
    requires j <= m < |calls|
    ensures |InWindow(limits, calls[j..], 0, m - j)| == |InWindow(limits, calls, j, m)|
  {
    var late := InWindow(limits, calls[j..], 0, m - j);
    ShiftedCount(late, j);
    forall k | k in InWindow(limits, calls, j, m) ensures k in Shifted(late, j) {
      assert calls[j..][k - j] == calls[k] && k - j in late;
    }
    assert InWindow(limits, calls, j, m) == Shifted(late, j);
  }

  /** From call `j`, the first one at or after the ban's end, the calls rule as on their own. */
  lemma RuledAlone(limits: Limits, calls: seq<Call>, i: nat, j: nat, k: nat)
    requires limits.Accepted() && Nondecreasing(calls) && i < j <= k < |calls|
    requires StartsBan(limits, calls, i) && calls[k].ip == calls[i].ip
    requires forall l :: i < l < j ==> calls[l].at < BanEnd(limits, calls, i)
    requires calls[j].at >= BanEnd(limits, calls, i)
    ensures VerdictAt(limits, calls, k) == VerdictAt(limits, calls[j..], k - j)
  {
    assert j < k ==> calls[j].at <= calls[k].at;
    BanLastsExactly(limits, calls, i, j, k);
  }

  /**
   * After a ban the same holds from its end on: with `i` starting the ban and `j` the first
   * call at or after its end, a call not banned since is ruled by the number of the address's
   * calls since `j` in the window. Together with `BanLastsExactly` this settles every verdict.
   */
  lemma VerdictAfterBan(limits: Limits, calls: seq<Call>, i: nat, j: nat, m: nat)
    requires limits.Accepted() && Nondecreasing(calls) && i < j <= m < |calls|
    requires StartsBan(limits, calls, i) && calls[m].ip == calls[i].ip
    requires forall k :: i < k < j ==> calls[k].at < BanEnd(limits, calls, i)
    requires calls[j].at >= BanEnd(limits, calls, i) && Unbanned(limits, calls, j, m)
    ensures Promised(limits, |InWindow(limits, calls, j, m)|, VerdictAt(limits, calls, m))
  {
    var late := calls[j..];
    assert Unbanned(limits, late, 0, m - j) by {
      forall k | 0 <= k < m - j && late[k].ip == late[m - j].ip ensures !VerdictAt(limits, late, k).Banned? {
        RuledAlone(limits, calls, i, j, k + j);
      }
    }
    VerdictByCount(limits, late, m - j);
    InWindowShift(limits, calls, j, m);
    RuledAlone(limits, calls, i, j, m);
  }

  // ---- The sliding window --------------------------------------------------------------------------

  /** The instants at which an address was allowed. */
  function AllowedTimes(limits: Limits, calls: seq<Call>, ip: string): seq<nat> {
    if calls == [] then []
    else
      var n := |calls| - 1;
      var rest := AllowedTimes(limits, calls[..n], ip);
      if calls[n].ip == ip && VerdictAt(limits, calls, n) == Allowed then rest + [calls[n].at] else rest
  }

  /** The instants of a half-open window of the configured length. */
  function Within(limits: Limits, s: seq<nat>, start: nat): seq<nat> {
    if s == [] then []
    else
      var n := |s| - 1;
      var rest := Within(limits, s[..n], start);
      if start <= s[n] < start + limits.Window() then rest + [s[n]] else rest
  }

  lemma {:induction false} WithinIsRecent(limits: Limits, s: seq<nat>, start: nat, now: nat)
    requires start <= now < start + limits.Window()
    ensures |Within(limits, s, start)| <= |Recent(limits, s, now)|
  {
    if s != [] { WithinIsRecent(limits, s[..|s| - 1], start, now); }
  }

  lemma {:induction false} RecentOld(limits: Limits, s: seq<nat>, now: nat)
    requires forall i :: 0 <= i < |s| ==> now - s[i] >= limits.Window()
    ensures Recent(limits, s, now) == []
  {
    if s != [] { RecentOld(limits, s[..|s| - 1], now); }
  }

  lemma {:induction false} AllowedArePast(limits: Limits, calls: seq<Call>, ip: string, now: nat)
    requires forall i :: 0 <= i < |calls| ==> calls[i].at <= now
    ensures forall i :: 0 <= i < |AllowedTimes(limits, calls, ip)| ==> AllowedTimes(limits, calls, ip)[i] <= now
  {
    if calls != [] { AllowedArePast(limits, calls[..|calls| - 1], ip, now); }
  }

  /** Once an address is not banned, what it was allowed recently is in its record. */
  lemma {:induction false} AllowedAreRecorded(limits: Limits, calls: seq<Call>, ip: string, t: nat)
    requires limits.Accepted() && limits.windowSeconds <= limits.banSeconds
    requires forall i :: 0 <= i < |calls| ==> calls[i].at <= t
    requires Nondecreasing(calls)
    requires RecordAfter(limits, calls, ip).bannedUntil <= t
    ensures |Recent(limits, AllowedTimes(limits, calls, ip), t)|
         <= |Recent(limits, RecordAfter(limits, calls, ip).log, t)|
  {
    if calls != [] {
      var n := |calls| - 1;
      var before := calls[..n];
      var record := RecordAfter(limits, before, ip);
      var allowed := AllowedTimes(limits, before, ip);
      if calls[n].ip != ip {
        AllowedAreRecorded(limits, before, ip, t);
      } else if calls[n].at < record.bannedUntil {
        AllowedAreRecorded(limits, before, ip, t);
      } else {
        var now := calls[n].at;
        var ruling := Rule(limits, record, now);
        assert VerdictAt(limits, calls, n) == ruling.verdict;
        if ruling.verdict.Banned? {
          AllowedArePast(limits, before, ip, now);
          assert limits.Window() <= limits.BanLength();
          RecentOld(limits, allowed, t);
        } else {
          AllowedAreRecorded(limits, before, ip, t);
          RecentOneMore(limits, record.log, now, t);
          RecentOneMore(limits, allowed, now, t);
        }
      }
    }
  }

  /**
   * When a ban is at least as long as the window, no half-open window of that length holds
   * more than the configured number of allowed attempts of one address.
   */
  lemma {:induction false} SlidingWindowBound(limits: Limits, calls: seq<Call>, ip: string, start: nat)
    requires limits.Accepted() && limits.windowSeconds <= limits.banSeconds && Nondecreasing(calls)
    ensures |Within(limits, AllowedTimes(limits, calls, ip), start)| <= limits.maxAttempts
  {
    if calls != [] {
      var n := |calls| - 1;
      var before := calls[..n];
      var allowed := AllowedTimes(limits, before, ip);
      var now := calls[n].at;
      SlidingWindowBound(limits, before, ip, start);
      if calls[n].ip == ip && VerdictAt(limits, calls, n) == Allowed {
        assert AllowedTimes(limits, calls, ip) == allowed + [now];
        assert (allowed + [now])[..|allowed|] == allowed;
        if start <= now < start + limits.Window() {
          var record := RecordAfter(limits, before, ip);
          AllowedAreRecorded(limits, before, ip, now);
          RecentOneMore(limits, record.log, now, now);
          RecentOneMore(limits, allowed, now, now);
          WithinIsRecent(limits, allowed + [now], start, now);
        }
      }
    }
  }

  // ---- Short bans ----------------------------------------------------------------------------------

  function Burst(n: nat): seq<Call> {
    seq(n, _ => Call("", 0))
  }

  function Zeros(n: nat): seq<nat> {
    seq(n, _ => 0)
  }

  lemma {:induction false} ZerosAreRecent(limits: Limits, n: nat)
    requires limits.Accepted()
    ensures |Recent(limits, Zeros(n), 0)| == n
  {
    if n > 0 {
      ZerosAreRecent(limits, n - 1);
      assert (Zeros(n))[..n - 1] == Zeros(n - 1);
    }
  }

  lemma OneMoreZero(n: nat)
    ensures Zeros(n) + [0] == Zeros(n + 1)
    ensures Burst(n) + [Call("", 0)] == Burst(n + 1)
  {
  }

  lemma OneMoreCall(limits: Limits, calls: seq<Call>, call: Call)
    ensures var ruling := Rule(limits, RecordAfter(limits, calls, call.ip), call.at);
            var allowed := AllowedTimes(limits, calls, call.ip);
      && RecordAfter(limits, calls + [call], call.ip) == ruling.record
      && AllowedTimes(limits, calls + [call], call.ip) ==
           if ruling.verdict == Allowed then allowed + [call.at] else allowed
  {
    assert (calls + [call])[..|calls|] == calls;
  }

  lemma BurstRule(limits: Limits, n: nat)
    requires limits.Accepted() && n < limits.banAfter
    ensures Rule(limits, Record(Zeros(n), 0), 0) == RuleByCount(limits, Record(Zeros(n), 0), 0, n + 1)
  {
    OneMoreZero(n);
    ZerosAreRecent(limits, n + 1);
  }

  /** A burst at one instant: the configured number is allowed, the rest throttled, until the ban. */
  lemma {:induction false} BurstRuns(limits: Limits, n: nat)
    requires limits.Accepted() && n < limits.banAfter
    ensures RecordAfter(limits, Burst(n), "") == Record(Zeros(n), 0)
    ensures AllowedTimes(limits, Burst(n), "") == Zeros(if n < limits.maxAttempts then n else limits.maxAttempts)
  {
    if n == 0 {
      assert Burst(0) == [] && Zeros(0) == [];
    } else {
      BurstRuns(limits, n - 1);
      BurstStep(limits, n - 1, Burst(n - 1));
      OneMoreZero(n - 1);
    }
  }

  lemma BurstStep(limits: Limits, n: nat, calls: seq<Call>)
    requires limits.Accepted() && n + 1 < limits.banAfter
    requires RecordAfter(limits, calls, "") == Record(Zeros(n), 0)
    requires AllowedTimes(limits, calls, "") == Zeros(if n < limits.maxAttempts then n else limits.maxAttempts)
    ensures RecordAfter(limits, calls + [Call("", 0)], "") == Record(Zeros(n + 1), 0)
    ensures AllowedTimes(limits, calls + [Call("", 0)], "")
         == Zeros(if n < limits.maxAttempts then n + 1 else limits.maxAttempts)
  {
    OneMoreCall(limits, calls, Call("", 0));
    BurstRule(limits, n);
    OneMoreZero(n);
  }

  lemma {:induction false} WithinAll(limits: Limits, s: seq<nat>, start: nat)
    requires forall i :: 0 <= i < |s| ==> start <= s[i] < start + limits.Window()
    ensures Within(limits, s, start) == s
  {
    if s != [] { WithinAll(limits, s[..|s| - 1], start); }
  }

  /** A burst up to the ban: every attempt before it that is not throttled was allowed. */
  lemma BurstIsBanned(limits: Limits)
    requires limits.Accepted()
    ensures RecordAfter(limits, Burst(limits.banAfter), "") == Record([], limits.BanLength())
    ensures AllowedTimes(limits, Burst(limits.banAfter), "") == Zeros(BurstAllowed(limits))
  {
    var n := limits.banAfter - 1;
    BurstRuns(limits, n);
    BurstRule(limits, n);
    OneMoreCall(limits, Burst(n), Call("", 0));
    OneMoreZero(n);
  }

  function BurstAllowed(limits: Limits): nat
    requires limits.Accepted()
  {
    if limits.maxAttempts < limits.banAfter then limits.maxAttempts else limits.banAfter - 1
  }

  /** The first attempt at the end of a ban is allowed, unless every attempt is banned. */
  lemma BackAtTheEnd(limits: Limits, end: nat)
    requires limits.Accepted() && limits.banAfter > 1
    ensures Rule(limits, Record([], end), end) == Ruling(Record([end], end), Allowed)
  {
    RecentOneMore(limits, [], end, end);
    assert [] + [end] == [end];
  }

  /** A second one at the same instant is allowed too, unless two attempts start a ban. */
  lemma TwiceAtTheEnd(limits: Limits, end: nat)
    requires limits.Accepted() && limits.banAfter == limits.maxAttempts > 1
    ensures Rule(limits, Record([end], end), end) ==
      if limits.banAfter == 2 then Ruling(Record([], end + limits.BanLength()), Banned(limits.banSeconds))
      else Ruling(Record([end, end], end), Allowed)
  {
    RecentOneMore(limits, [], end, end);
    RecentOneMore(limits, [end], end, end);
    assert [] + [end] == [end] && [end] + [end] == [end, end];
  }

  /** A burst up to the ban, and what comes back as soon as bans end to exceed the bound. */
  function Comeback(limits: Limits): seq<Call> {
    var back := Call("", limits.BanLength());
    if limits.maxAttempts < limits.banAfter then Burst(limits.banAfter) + [back]
    else if limits.banAfter > 2 then Burst(limits.banAfter) + [back] + [back]
    else Burst(limits.banAfter) + [back] + [back] + [Call("", 2 * limits.BanLength())]
  }

  function ComebackTimes(limits: Limits): seq<nat>
    requires limits.Accepted()
  {
    var end := limits.BanLength();
    var zeros := Zeros(BurstAllowed(limits));
    if limits.maxAttempts < limits.banAfter then zeros + [end]
    else if limits.banAfter > 2 then zeros + [end] + [end]
    else zeros + [end] + [2 * end]
  }

  lemma ComebackIsAllowed(limits: Limits)
    requires limits.Accepted() && limits.banAfter > 1
    ensures AllowedTimes(limits, Comeback(limits), "") == ComebackTimes(limits)
  {
    var end := limits.BanLength();
    var back := Call("", end);
    var burst := Burst(limits.banAfter);
    BurstIsBanned(limits);
    BackAtTheEnd(limits, end);
    OneMoreCall(limits, burst, back);
    if limits.maxAttempts == limits.banAfter {
      TwiceAtTheEnd(limits, end);
      OneMoreCall(limits, burst + [back], back);
      if limits.banAfter == 2 {
        BackAtTheEnd(limits, 2 * end);
        OneMoreCall(limits, burst + [back] + [back], Call("", 2 * end));
      }
    }
  }

  // ---- The exact condition ---------------------------------------------------------------------------

  ghost predicate WindowsBounded(limits: Limits) {
    forall calls: seq<Call>, ip: string, start: nat :: Nondecreasing(calls) ==>
      |Within(limits, AllowedTimes(limits, calls, ip), start)| <= limits.maxAttempts
  }

  /**
   * How long a ban must be for the bound. When the first attempt starts a ban, nothing is ever
   * allowed; when both thresholds are two, allowed attempts come singly, two may fall into a
   * window, and two bans together must be as long as it; otherwise one ban must.
   */
  predicate BansLongEnough(limits: Limits) {
    if limits.banAfter == 1 then true
    else if limits.maxAttempts == limits.banAfter == 2 then limits.windowSeconds <= 2 * limits.banSeconds
    else limits.windowSeconds <= limits.banSeconds
  }

  /** Consecutive elements are at least `gap` apart. */
  ghost predicate Spaced(s: seq<nat>, gap: nat) {
    forall p :: 0 <= p < |s| - 1 ==> s[p + 1] >= s[p] + gap
  }

  lemma {:induction false} SpacedSorted(s: seq<nat>, gap: nat, p: nat, q: nat)
    requires Spaced(s, gap) && p <= q < |s|
    ensures s[p] <= s[q]
    decreases q
  {
    if p < q {
      SpacedSorted(s, gap, p, q - 1);
      assert s[q - 1 + 1] >= s[q - 1] + gap;
    }
  }

  lemma {:induction false} WithinLength(limits: Limits, s: seq<nat>, start: nat)
    ensures |Within(limits, s, start)| <= |s|
  {
    if s != [] { WithinLength(limits, s[..|s| - 1], start); }
  }

  lemma {:induction false} WithinNone(limits: Limits, s: seq<nat>, start: nat)
    requires forall i :: 0 <= i < |s| ==> s[i] < start
    ensures Within(limits, s, start) == []
  {
    if s != [] { WithinNone(limits, s[..|s| - 1], start); }
  }

  /** A window of at most two gaps holds at most two spaced instants. */
  lemma {:induction false} SpacedWithin(limits: Limits, s: seq<nat>, start: nat, gap: nat)
    requires Spaced(s, gap) && limits.Window() <= 2 * gap
    ensures |Within(limits, s, start)| <= 2
  {
    if |s| > 2 {
      var n := |s| - 1;
      if start <= s[n] < start + limits.Window() {
        var older := s[..n - 1];
        forall q | 0 <= q < |older| ensures older[q] < start {
          SpacedSorted(s, gap, q, n - 2);
          assert s[n - 2 + 1] >= s[n - 2] + gap && s[n - 1 + 1] >= s[n - 1] + gap;
        }
        WithinNone(limits, older, start);
        assert s[..n][..n - 1] == older;
      } else {
        SpacedWithin(limits, s[..n], start, gap);
      }
    } else {
      WithinLength(limits, s, start);
    }
  }

  function Gap(limits: Limits): nat {
    if limits.Window() < limits.BanLength() then limits.Window() else limits.BanLength()
  }

  /** The last allowed attempt is the last recorded one, or a ban has followed it. */
  predicate Follows(limits: Limits, allowed: seq<nat>, record: Record) {
    || allowed == []
    || (record.log != [] && record.log[|record.log| - 1] == allowed[|allowed| - 1])
    || record.bannedUntil >= allowed[|allowed| - 1] + limits.BanLength()
  }

  lemma AllowedAlone(limits: Limits, log: seq<nat>, now: nat)
    requires log != [] && |Recent(limits, log + [now], now)| < 2 && 0 < limits.Window()
    ensures now - log[|log| - 1] >= limits.Window()
  {
    RecentOneMore(limits, log, now, now);
  }

  /** When two attempts start a ban, allowed ones are a window or a ban apart. */
  lemma {:induction false} AllowedSpaced(limits: Limits, calls: seq<Call>, ip: string)
    requires limits.Accepted() && limits.maxAttempts == limits.banAfter == 2 && Nondecreasing(calls)
    ensures Spaced(AllowedTimes(limits, calls, ip), Gap(limits))
    ensures Follows(limits, AllowedTimes(limits, calls, ip), RecordAfter(limits, calls, ip))
  {
    if calls != [] {
      var n := |calls| - 1;
      var record := RecordAfter(limits, calls[..n], ip);
      AllowedSpaced(limits, calls[..n], ip);
      AllowedArePast(limits, calls[..n], ip, calls[n].at);
      if calls[n].ip == ip && VerdictAt(limits, calls, n) == Allowed && record.log != [] {
        AllowedAlone(limits, record.log, calls[n].at);
      }
    }
  }

  /** When the first attempt starts a ban, none is ever allowed. */
  lemma {:induction false} NoneAllowed(limits: Limits, calls: seq<Call>, ip: string)
    requires limits.Accepted() && limits.banAfter == 1
    ensures AllowedTimes(limits, calls, ip) == []
  {
    if calls != [] {
      var n := |calls| - 1;
      NoneAllowed(limits, calls[..n], ip);
      var record := RecordAfter(limits, calls[..n], ip);
      RecentOneMore(limits, record.log, calls[n].at, calls[n].at);
    }
  }

  lemma LongBansBound(limits: Limits, calls: seq<Call>, ip: string, start: nat)
    requires limits.Accepted() && BansLongEnough(limits) && Nondecreasing(calls)
    ensures |Within(limits, AllowedTimes(limits, calls, ip), start)| <= limits.maxAttempts
  {
    if limits.banAfter == 1 {
      NoneAllowed(limits, calls, ip);
    } else if limits.maxAttempts == limits.banAfter == 2 {
      AllowedSpaced(limits, calls, ip);
      SpacedWithin(limits, AllowedTimes(limits, calls, ip), start, Gap(limits));
    } else {
      SlidingWindowBound(limits, calls, ip, start);
    }
  }

  /** One allowed attempt more than the bound, all inside one window. */
  lemma ComebackFits(limits: Limits)
    requires limits.Accepted() && !BansLongEnough(limits)
    ensures |ComebackTimes(limits)| == limits.maxAttempts + 1
    ensures forall i :: 0 <= i < |ComebackTimes(limits)| ==> 0 <= ComebackTimes(limits)[i] < limits.Window()
  {
    var end := limits.BanLength();
    var zeros := Zeros(BurstAllowed(limits));
    assert end < limits.Window();
    if limits.maxAttempts < limits.banAfter {
      assert ComebackTimes(limits) == zeros + [end];
    } else if limits.banAfter > 2 {
      assert ComebackTimes(limits) == zeros + [end] + [end];
    } else {
      assert 2 * end < limits.Window();
      assert ComebackTimes(limits) == zeros + [end] + [2 * end];
    }
  }

  lemma ComebackOrdered(limits: Limits)
    requires limits.Accepted()
    ensures Nondecreasing(Comeback(limits))
  {
    var burst := Burst(limits.banAfter);
    var end := limits.BanLength();
    var back := Call("", end);
    assert Nondecreasing(burst + [back]);
    assert Nondecreasing(burst + [back] + [back]);
    assert Nondecreasing(burst + [back] + [back] + [Call("", 2 * end)]);
  }

  lemma ShortBansExceed(limits: Limits)
    requires limits.Accepted() && !BansLongEnough(limits)
    ensures Nondecreasing(Comeback(limits))
    ensures |Within(limits, AllowedTimes(limits, Comeback(limits), ""), 0)| > limits.maxAttempts
  {
    ComebackOrdered(limits);
    ComebackIsAllowed(limits);
    ComebackFits(limits);
    WithinAll(limits, ComebackTimes(limits), 0);
  }

  /**
   * For every accepted configuration, no sequence of calls ever gets more than the configured
   * number of allowed attempts into a window if and only if bans are long enough.
   */
  lemma WindowBoundExactly(limits: Limits)
    requires limits.Accepted()
    ensures WindowsBounded(limits) <==> BansLongEnough(limits)
  {
    if BansLongEnough(limits) {
      forall calls: seq<Call>, ip: string, start: nat | Nondecreasing(calls)
        ensures |Within(limits, AllowedTimes(limits, calls, ip), start)| <= limits.maxAttempts
      {
        LongBansBound(limits, calls, ip, start);
      }
    } else {
      ShortBansExceed(limits);
    }
  }
}
