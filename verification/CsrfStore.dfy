/**
 * The store of form tokens, one per client, pruned whenever one is generated, against a
 * history that forgets nothing until a validation consumes it.
 */
module CsrfStore {
  import opened Basics

  const SECOND: int := 1000000000

  const TTL: int := 600 * SECOND

  datatype Entry = Entry(token: string, createdAt: nat)

  function LowerChar(c: char): char {
    if 'A' <= c <= 'Z' then (c as int + 32) as char else c
  }

  /** Clients are keyed by their address in lower case. */
  function Key(mac: string): string {
    seq(|mac|, i requires 0 <= i < |mac| => LowerChar(mac[i]))
  }

  /** Two addresses are the same client's exactly when they differ at most in the case of letters. */
  lemma SameClient(a: string, b: string)
    ensures Key(a) == Key(b) <==> |a| == |b| && forall i :: 0 <= i < |a| ==> SameLetter(a[i], b[i])
  {
    if Key(a) == Key(b) {
      assert |a| == |b|;
      forall i | 0 <= i < |a| ensures SameLetter(a[i], b[i]) {
        assert Key(a)[i] == Key(b)[i];
      }
    }
  }

  predicate SameLetter(a: char, b: char) {
    || a == b
    || ('A' <= a <= 'Z' && b as int == a as int + 32)
    || ('A' <= b <= 'Z' && a as int == b as int + 32)
  }

  // ---- Specification -----------------------------------------------------------------------

  /** `drawn` is the random token that a generation would draw. */
  datatype Request =
    | Generate(mac: string, drawn: string)
    | GetOrGenerate(mac: string, drawn: string)
    | Validate(mac: string, submitted: string)
    | Set(mac: string, token: string)

  datatype Op = Op(at: nat, request: Request)

  datatype Answer = Issued(token: string) | Verdict(ok: bool) | Stored

  datatype Reply = Reply(entry: Option<Entry>, answer: Answer)

  function Serve(entry: Option<Entry>, op: Op): Reply {
    match op.request
    case Generate(_, drawn) => Reply(Some(Entry(drawn, op.at)), Issued(drawn))
    case GetOrGenerate(_, drawn) =>
      if entry.Some? && op.at - entry.value.createdAt < TTL then Reply(entry, Issued(entry.value.token))
      else Reply(Some(Entry(drawn, op.at)), Issued(drawn))
    case Validate(_, submitted) =>
      Reply(None, Verdict(entry.Some? && op.at - entry.value.createdAt <= TTL && entry.value.token == submitted))
    case Set(_, token) => Reply(Some(Entry(token, op.at)), Stored)
  }

  /** The token outstanding for a key; operations on other keys do not touch it. */
  function Outstanding(ops: seq<Op>, key: string): Option<Entry> {
    if ops == [] then None
    else
      var n := |ops| - 1;
      var before := Outstanding(ops[..n], key);
      if Key(ops[n].request.mac) == key then Serve(before, ops[n]).entry else before
  }

  function AnswerAt(ops: seq<Op>, i: nat): Answer
    requires i < |ops|
  {
    Serve(Outstanding(ops[..i], Key(ops[i].request.mac)), ops[i]).answer
  }

  /** The operation draws a new token from a generation, which prunes the store. */
  predicate Draws(entry: Option<Entry>, op: Op) {
    || op.request.Generate?
    || (op.request.GetOrGenerate? && !(entry.Some? && op.at - entry.value.createdAt < TTL))
  }

  predicate DrawsAt(ops: seq<Op>, i: nat)
    requires i < |ops|
  {
    Draws(Outstanding(ops[..i], Key(ops[i].request.mac)), ops[i])
  }

  /** When the store was pruned last. */
  function LastDraw(ops: seq<Op>): nat {
    if ops == [] then 0
    else
      var n := |ops| - 1;
      if DrawsAt(ops, n) then ops[n].at else LastDraw(ops[..n])
  }

  /**
   * A right token submitted at an age of exactly its TTL, after a token was drawn for another
   * client at that same instant: the draw has pruned what a validation would still accept.
   */
  ghost predicate PrunedAtTheLimit(ops: seq<Op>, i: nat)
    requires i < |ops|
  {
    var before := Outstanding(ops[..i], Key(ops[i].request.mac));
    && ops[i].request.Validate?
    && before.Some? && ops[i].at - before.value.createdAt == TTL
    && before.value.token == ops[i].request.submitted
    && exists k :: 0 <= k < i && ops[k].at == ops[i].at && DrawsAt(ops, k) &&
         Key(ops[k].request.mac) != Key(ops[i].request.mac)
  }

  ghost predicate Nondecreasing(ops: seq<Op>) {
    forall i, j :: 0 <= i < j < |ops| ==> ops[i].at <= ops[j].at
  }

  /** After a draw for a key its outstanding token is no older than the draw. */
  lemma {:induction false} YoungerThanDraw(ops: seq<Op>, k: nat)
    requires Nondecreasing(ops) && k < |ops| && DrawsAt(ops, k)
    ensures var after := Outstanding(ops, Key(ops[k].request.mac));
      after.Some? ==> ops[k].at <= after.value.createdAt
  {
    var n := |ops| - 1;
    if k < n {
      assert ops[..n][..k] == ops[..k];
      YoungerThanDraw(ops[..n], k);
    }
  }

  /** The last draw was at the present instant exactly when some draw was. */
  lemma {:induction false} LastDrawNow(ops: seq<Op>, now: nat)
    requires Nondecreasing(ops) && now > 0 && forall i :: 0 <= i < |ops| ==> ops[i].at <= now
    ensures LastDraw(ops) <= now
    ensures LastDraw(ops) == now <==> exists k :: 0 <= k < |ops| && ops[k].at == now && DrawsAt(ops, k)
  {
    if ops != [] {
      var n := |ops| - 1;
      LastDrawNow(ops[..n], now);
      forall k | 0 <= k < n ensures DrawsAt(ops[..n], k) <==> DrawsAt(ops, k) {
        assert ops[..n][..k] == ops[..k];
      }
      if LastDraw(ops[..n]) == now {
        var k :| 0 <= k < n && ops[..n][k].at == now && DrawsAt(ops[..n], k);
        assert ops[k].at == now && DrawsAt(ops, k);
      }
    }
  }

  // ---- The store -----------------------------------------------------------------------------

  class PortalCsrfStore {
    var tokens: map<string, Entry>
    ghost var outstanding: map<string, Entry>
    ghost var lastDraw: nat
    ghost var clock: nat

    ghost function Expected(key: string): Option<Entry>
      reads this`outstanding
    {
      if key in outstanding then Some(outstanding[key]) else None
    }

    function Held(key: string): Option<Entry>
      reads this`tokens
    {
      if key in tokens then Some(tokens[key]) else None
    }

    /** The store holds what is outstanding, but for entries the last draw found at their TTL or older. */
    ghost predicate Tracks(key: string)
      reads this
    {
      Held(key) ==
        if Expected(key).Some? && lastDraw - Expected(key).value.createdAt >= TTL then None else Expected(key)
    }

    ghost predicate Valid()
      reads this
    {
      lastDraw <= clock && forall key: string :: Tracks(key)
    }

    constructor ()
      ensures Valid() && outstanding == map[] && clock == lastDraw == 0
    {
      tokens, outstanding, lastDraw, clock := map[], map[], 0, 0;
    }

    method Generate(mac: string, drawn: string, now: nat) returns (token: string)
      requires Valid() && clock <= now
      modifies this
      ensures Valid() && clock == lastDraw == now && token == drawn
      ensures outstanding == old(outstanding)[Key(mac) := Entry(drawn, now)]
    {
      tokens := map key | key in tokens && now - tokens[key].createdAt < TTL :: tokens[key];
      tokens := tokens[Key(mac) := Entry(drawn, now)];
      outstanding := outstanding[Key(mac) := Entry(drawn, now)];
      lastDraw, clock := now, now;
      token := drawn;
      forall key: string ensures Tracks(key) {
        assert old(Tracks(key));
      }
    }

    method GetOrGenerate(mac: string, drawn: string, now: nat) returns (token: string)
      requires Valid() && clock <= now
      modifies this
      ensures Valid() && clock == now
      ensures var reply := Serve(old(Expected(Key(mac))), Op(now, Request.GetOrGenerate(mac, drawn)));
        reply.answer == Issued(token) && outstanding == old(outstanding)[Key(mac) := reply.entry.value]
      ensures lastDraw == if Draws(old(Expected(Key(mac))), Op(now, Request.GetOrGenerate(mac, drawn)))
                          then now else old(lastDraw)
    {
      assert Tracks(Key(mac));
      if Key(mac) in tokens && now - tokens[Key(mac)].createdAt < TTL {
        token := tokens[Key(mac)].token;
        clock := now;
        forall key: string ensures Tracks(key) {
          assert old(Tracks(key));
        }
        assert outstanding == outstanding[Key(mac) := outstanding[Key(mac)]];
        return;
      }
      token := Generate(mac, drawn, now);
    }

    /** Valid or not, the token is consumed; a right one is refused exactly when a draw has pruned it. */
    method Validate(mac: string, submitted: string, now: nat) returns (ok: bool)
      requires Valid() && clock <= now
      modifies this
      ensures Valid() && clock == now
      ensures outstanding == old(outstanding) - {Key(mac)}
      ensures var expected := old(Expected(Key(mac)));
              var verdict := Serve(expected, Op(now, Request.Validate(mac, submitted))).answer.ok;
        ok <==> verdict && old(lastDraw) - expected.value.createdAt < TTL
      ensures lastDraw == old(lastDraw)
    {
      var key := Key(mac);
      assert Tracks(key);
      ok := key in tokens && !(now - tokens[key].createdAt > TTL) && tokens[key].token == submitted;
      tokens := tokens - {key};
      outstanding := outstanding - {key};
      clock := now;
      forall other: string ensures Tracks(other) {
        assert old(Tracks(other));
      }
    }

    method Set(mac: string, token: string, now: nat)
      requires Valid() && clock <= now
      modifies this
      ensures Valid() && clock == now
      ensures outstanding == old(outstanding)[Key(mac) := Entry(token, now)] && lastDraw == old(lastDraw)
    {
      tokens := tokens[Key(mac) := Entry(token, now)];
      outstanding := outstanding[Key(mac) := Entry(token, now)];
      clock := now;
      forall key: string ensures Tracks(key) {
        assert old(Tracks(key));
      }
    }

    method Handle(op: Op) returns (answer: Answer)
      requires Valid() && clock <= op.at
      modifies this
      ensures Valid() && clock == op.at
      ensures var before := old(Expected(Key(op.request.mac)));
              var reply := Serve(before, op);
        && answer == (if Refuses(before, op, old(lastDraw)) then Verdict(false) else reply.answer)
        && Expected(Key(op.request.mac)) == reply.entry
        && lastDraw == (if Draws(before, op) then op.at else old(lastDraw))
      ensures forall key: string :: key != Key(op.request.mac) ==> Expected(key) == old(Expected(key))
    {
      match op.request {
        case Generate(mac, drawn) =>
          var token := Generate(mac, drawn, op.at);
          answer := Issued(token);
        case GetOrGenerate(mac, drawn) =>
          var token := GetOrGenerate(mac, drawn, op.at);
          answer := Issued(token);
        case Validate(mac, submitted) =>
          var ok := Validate(mac, submitted, op.at);
          answer := Verdict(ok);
        case Set(mac, token) =>
          Set(mac, token, op.at);
          answer := Stored;
      }
    }
  }

  /** A right token within its TTL that the last draw has already pruned. */
  predicate Refuses(before: Option<Entry>, op: Op, lastDraw: nat) {
    && op.request.Validate? && before.Some?
    && Serve(before, op).answer == Verdict(true)
    && lastDraw - before.value.createdAt >= TTL
  }

  lemma PrefixDraws(ops: seq<Op>, i: nat, k: nat)
    requires k < i <= |ops|
    ensures DrawsAt(ops[..i], k) <==> DrawsAt(ops, k)
  {
    assert ops[..i][..k] == ops[..k];
  }

  /** The last draw before `i` was at the same instant exactly when some draw before it was. */
  lemma DrawAtOnce(ops: seq<Op>, i: nat)
    requires Nondecreasing(ops) && i < |ops| && ops[i].at > 0
    ensures LastDraw(ops[..i]) <= ops[i].at
    ensures LastDraw(ops[..i]) == ops[i].at <==> exists k :: 0 <= k < i && ops[k].at == ops[i].at && DrawsAt(ops, k)
  {
    LastDrawNow(ops[..i], ops[i].at);
    if LastDraw(ops[..i]) == ops[i].at {
      var k :| 0 <= k < i && ops[..i][k].at == ops[i].at && DrawsAt(ops[..i], k);
      PrefixDraws(ops, i, k);
    }
    if exists k :: 0 <= k < i && ops[k].at == ops[i].at && DrawsAt(ops, k) {
      var k :| 0 <= k < i && ops[k].at == ops[i].at && DrawsAt(ops, k);
      PrefixDraws(ops, i, k);
      assert ops[..i][k].at == ops[i].at;
    }
  }

  /** A draw at the instant of `i`, for a token older than that, was for another client. */
  lemma DrawForAnother(ops: seq<Op>, i: nat, k: nat)
    requires Nondecreasing(ops) && k < i < |ops| && DrawsAt(ops, k) && ops[k].at == ops[i].at
    requires var before := Outstanding(ops[..i], Key(ops[i].request.mac));
      before.Some? && before.value.createdAt < ops[i].at
    ensures Key(ops[k].request.mac) != Key(ops[i].request.mac)
  {
    PrefixDraws(ops, i, k);
    YoungerThanDraw(ops[..i], k);
  }

  /** That happens only at an age of exactly the TTL, and only after a draw at that instant. */
  lemma RefusedWhenPruned(ops: seq<Op>, i: nat)
    requires Nondecreasing(ops) && i < |ops|
    ensures Refuses(Outstanding(ops[..i], Key(ops[i].request.mac)), ops[i], LastDraw(ops[..i]))
       <==> PrunedAtTheLimit(ops, i)
  {
    if ops[i].at == 0 {
      LastDrawNow(ops[..i], 1);
    } else {
      DrawAtOnce(ops, i);
      var before := Outstanding(ops[..i], Key(ops[i].request.mac));
      if Refuses(before, ops[i], LastDraw(ops[..i])) {
        var k :| 0 <= k < i && ops[k].at == ops[i].at && DrawsAt(ops, k);
        DrawForAnother(ops, i, k);
      }
    }
  }

  /** What a client observes. */
  ghost function Observed(ops: seq<Op>, i: nat): Answer
    requires i < |ops|
  {
    if PrunedAtTheLimit(ops, i) then Verdict(false) else AnswerAt(ops, i)
  }

  lemma HandledAsObserved(ops: seq<Op>, i: nat, answer: Answer)
    requires Nondecreasing(ops) && i < |ops|
    requires var before := Outstanding(ops[..i], Key(ops[i].request.mac));
      answer == if Refuses(before, ops[i], LastDraw(ops[..i])) then Verdict(false) else Serve(before, ops[i]).answer
    ensures answer == Observed(ops, i)
  {
    RefusedWhenPruned(ops, i);
  }

  lemma OneMoreOp(ops: seq<Op>, i: nat)
    requires i < |ops|
    ensures var own := Key(ops[i].request.mac);
            var before := Outstanding(ops[..i], own);
      && Outstanding(ops[..i + 1], own) == Serve(before, ops[i]).entry
      && (forall key: string :: key != own ==> Outstanding(ops[..i + 1], key) == Outstanding(ops[..i], key))
      && LastDraw(ops[..i + 1]) == if Draws(before, ops[i]) then ops[i].at else LastDraw(ops[..i])
  {
    assert ops[..i + 1][..i] == ops[..i];
  }

  /** The store stands where the first `i` operations have left it. */
  ghost predicate Stands(store: PortalCsrfStore, ops: seq<Op>, i: nat)
    reads store
    requires i <= |ops|
  {
    && store.Valid()
    && (forall key: string :: store.Expected(key) == Outstanding(ops[..i], key))
    && store.lastDraw == LastDraw(ops[..i])
  }

  method HandleNext(store: PortalCsrfStore, ops: seq<Op>, i: nat) returns (answer: Answer)
    requires Nondecreasing(ops) && i < |ops| && Stands(store, ops, i) && store.clock <= ops[i].at
    modifies store
    ensures Stands(store, ops, i + 1) && store.clock == ops[i].at
    ensures answer == Observed(ops, i)
  {
    OneMoreOp(ops, i);
    answer := store.Handle(ops[i]);
    HandledAsObserved(ops, i, answer);
  }

  /**
   * For every sequence of operations at nondecreasing times the store answers each as the
   * unpruned history of that client alone, but refuses a right token exactly when its age is
   * its TTL and a token was drawn for another client at that instant. Nothing else of other
   * clients can be observed.
   */
  method Replay(ops: seq<Op>) returns (answers: seq<Answer>)
    requires Nondecreasing(ops)
    ensures |answers| == |ops|
    ensures forall i :: 0 <= i < |ops| ==> answers[i] == Observed(ops, i)
  {
    var store := new PortalCsrfStore();
    answers := [];
    for i := 0 to |ops|
      invariant fresh(store) && Stands(store, ops, i)
      invariant forall j :: i <= j < |ops| ==> store.clock <= ops[j].at
      invariant |answers| == i
      invariant forall j :: 0 <= j < i ==> answers[j] == Observed(ops, j)
    {
      var answer := HandleNext(store, ops, i);
      answers := answers + [answer];
    }
  }

  /** A token drawn, another client's drawn at the very end of its TTL, and the first submitted. */
  const LIMIT_OPS := [Op(0, Request.Generate("a", "x")), Op(TTL, Request.Generate("b", "y")),
                      Op(TTL, Request.Validate("a", "x"))]

  /** So the refusal does happen, where the client's own history would accept. */
  lemma LimitIsReached()
    ensures Nondecreasing(LIMIT_OPS)
    ensures Observed(LIMIT_OPS, 2) == Verdict(false) && AnswerAt(LIMIT_OPS, 2) == Verdict(true)
  {
    var ops := LIMIT_OPS;
    assert Key("a")[0] == 'a' && Key("b")[0] == 'b';
    assert ops[..2][..1] == ops[..1] && ops[..1][..0] == [];
    assert Outstanding(ops[..1], Key("a")) == Some(Entry("x", 0));
    assert Outstanding(ops[..2], Key("a")) == Some(Entry("x", 0));
    assert DrawsAt(ops, 1) && ops[1].at == ops[2].at;
  }

  // ---- Every answer, from the operations --------------------------------------------------------

  /** The token that an operation puts in place, when it does. */
  function TokenOf(op: Op): string {
    match op.request
    case Generate(_, drawn) => drawn
    case GetOrGenerate(_, drawn) => drawn
    case Validate(_, submitted) => submitted
    case Set(_, token) => token
  }

  predicate IssuesAt(ops: seq<Op>, k: nat)
    requires k < |ops|
  {
    ops[k].request.Set? || DrawsAt(ops, k)
  }

  /** Operation `k` issued a token for the key, and none since has replaced or consumed it. */
  ghost predicate Standing(ops: seq<Op>, k: nat, key: string) {
    && k < |ops| && Key(ops[k].request.mac) == key && IssuesAt(ops, k)
    && forall j :: k < j < |ops| && Key(ops[j].request.mac) == key ==> !ops[j].request.Validate? && !IssuesAt(ops, j)
  }

  lemma {:induction false} StandingIsOutstanding(ops: seq<Op>, k: nat, key: string)
    requires Standing(ops, k, key)
    ensures Outstanding(ops, key) == Some(Entry(TokenOf(ops[k]), ops[k].at))
    decreases |ops|
  {
    var n := |ops| - 1;
    if k < n {
      forall j | 0 <= j < n ensures DrawsAt(ops[..n], j) <==> DrawsAt(ops, j) {
        PrefixDraws(ops, n, j);
      }
      StandingIsOutstanding(ops[..n], k, key);
    }
  }

  lemma {:induction false} OutstandingIsStanding(ops: seq<Op>, key: string)
    requires Outstanding(ops, key).Some?
    ensures exists k: nat :: Standing(ops, k, key) && Outstanding(ops, key) == Some(Entry(TokenOf(ops[k]), ops[k].at))
  {
    var n := |ops| - 1;
    if Key(ops[n].request.mac) == key && IssuesAt(ops, n) {
      assert Standing(ops, n, key);
    } else {
      OutstandingIsStanding(ops[..n], key);
      var k: nat :| Standing(ops[..n], k, key) && Outstanding(ops[..n], key) == Some(Entry(TokenOf(ops[k]), ops[k].at));
      forall j | 0 <= j < n ensures DrawsAt(ops[..n], j) <==> DrawsAt(ops, j) {
        PrefixDraws(ops, n, j);
      }
      assert Standing(ops, k, key);
    }
  }

  /** Before operation `i` a token stands for its client that `k` issued at most its TTL ago. */
  ghost predicate StandsInTime(ops: seq<Op>, i: nat, k: nat)
    requires i < |ops|
  {
    k < i && Standing(ops[..i], k, Key(ops[i].request.mac)) && ops[i].at - ops[k].at <= TTL
  }

  /** The same, and younger than its TTL. */
  ghost predicate StandsYoung(ops: seq<Op>, i: nat, k: nat)
    requires i < |ops|
  {
    StandsInTime(ops, i, k) && ops[i].at - ops[k].at < TTL
  }

  lemma StandsAlone(ops: seq<Op>, i: nat, k: nat)
    requires i < |ops| && k < i && Standing(ops[..i], k, Key(ops[i].request.mac))
    ensures Outstanding(ops[..i], Key(ops[i].request.mac)) == Some(Entry(TokenOf(ops[k]), ops[k].at))
  {
    StandingIsOutstanding(ops[..i], k, Key(ops[i].request.mac));
  }

  lemma StandsSome(ops: seq<Op>, i: nat)
    requires i < |ops| && Outstanding(ops[..i], Key(ops[i].request.mac)).Some?
    ensures exists k: nat :: k < i && Standing(ops[..i], k, Key(ops[i].request.mac))
  {
    OutstandingIsStanding(ops[..i], Key(ops[i].request.mac));
  }

  /**
   * A submission is accepted if and only if exactly that token was issued to the client, at
   * most its TTL ago, has not been replaced or consumed since, and is not pruned at the very
   * end of its TTL.
   */
  lemma AcceptedExactly(ops: seq<Op>, i: nat)
    requires i < |ops| && ops[i].request.Validate?
    ensures Observed(ops, i) == Verdict(true) <==>
      && !PrunedAtTheLimit(ops, i)
      && exists k: nat :: StandsInTime(ops, i, k) && TokenOf(ops[k]) == ops[i].request.submitted
  {
    var before := Outstanding(ops[..i], Key(ops[i].request.mac));
    forall k: nat | k < i && Standing(ops[..i], k, Key(ops[i].request.mac))
      ensures before == Some(Entry(TokenOf(ops[k]), ops[k].at))
    {
      StandsAlone(ops, i, k);
    }
    if before.Some? {
      StandsSome(ops, i);
      var k: nat :| k < i && Standing(ops[..i], k, Key(ops[i].request.mac));
      assert Observed(ops, i) == Verdict(true) ==>
        StandsInTime(ops, i, k) && TokenOf(ops[k]) == ops[i].request.submitted;
    }
  }

  /**
   * What a request for a token gets: a generation what it draws; asking again the standing
   * token while it is younger than its TTL, and otherwise what it draws.
   */
  lemma IssuedExactly(ops: seq<Op>, i: nat)
    requires i < |ops| && !ops[i].request.Validate?
    ensures ops[i].request.Set? ==> Observed(ops, i) == Stored
    ensures ops[i].request.Generate? ==> Observed(ops, i) == Issued(ops[i].request.drawn)
    ensures ops[i].request.GetOrGenerate? ==>
      && (forall k: nat :: StandsYoung(ops, i, k) ==> Observed(ops, i) == Issued(TokenOf(ops[k])))
      && ((forall k: nat :: !StandsYoung(ops, i, k)) ==> Observed(ops, i) == Issued(ops[i].request.drawn))
  {
    var before := Outstanding(ops[..i], Key(ops[i].request.mac));
    forall k: nat | k < i && Standing(ops[..i], k, Key(ops[i].request.mac))
      ensures before == Some(Entry(TokenOf(ops[k]), ops[k].at))
    {
      StandsAlone(ops, i, k);
    }
    if before.Some? {
      StandsSome(ops, i);
      var k: nat :| k < i && Standing(ops[..i], k, Key(ops[i].request.mac));
      assert ops[i].at - before.value.createdAt < TTL ==> StandsYoung(ops, i, k);
    }
  }

  /** And a request draws exactly when it generates, or asks while no young enough token stands. */
  lemma DrawsExactly(ops: seq<Op>, i: nat)
    requires i < |ops|
    ensures DrawsAt(ops, i) <==>
      || ops[i].request.Generate?
      || (ops[i].request.GetOrGenerate? && forall k: nat :: !StandsYoung(ops, i, k))
  {
    var before := Outstanding(ops[..i], Key(ops[i].request.mac));
    forall k: nat | k < i && Standing(ops[..i], k, Key(ops[i].request.mac))
      ensures before == Some(Entry(TokenOf(ops[k]), ops[k].at))
    {
      StandsAlone(ops, i, k);
    }
    if before.Some? {
      StandsSome(ops, i);
      var k: nat :| k < i && Standing(ops[..i], k, Key(ops[i].request.mac));
      assert ops[i].at - before.value.createdAt < TTL ==> StandsYoung(ops, i, k);
    }
  }

  // ---- What a client can rely on ----------------------------------------------------------------

  /** Only `GetOrGenerate` requests on the key from index `from` on, all before the token's TTL. */
  ghost predicate OnlyAsked(ops: seq<Op>, from: nat, key: string, entry: Entry) {
    forall j :: from <= j < |ops| && Key(ops[j].request.mac) == key ==>
      ops[j].request.GetOrGenerate? && ops[j].at - entry.createdAt < TTL
  }

  /**
   * Within the TTL, asking again returns the same token, until a validation, a generation or
   * a direct store on the key.
   */
  lemma {:induction false} SameTokenWhenAskedAgain(ops: seq<Op>, from: nat, key: string, entry: Entry)
    requires from <= |ops| && Outstanding(ops[..from], key) == Some(entry)
    requires OnlyAsked(ops, from, key, entry)
    ensures Outstanding(ops, key) == Some(entry)
    ensures forall j :: from <= j < |ops| && Key(ops[j].request.mac) == key ==>
      Observed(ops, j) == AnswerAt(ops, j) == Issued(entry.token)
    decreases |ops|
  {
    if from == |ops| {
      assert ops[..from] == ops;
    } else {
      var n := |ops| - 1;
      var before := ops[..n];
      assert before[..from] == ops[..from];
      SameTokenWhenAskedAgain(before, from, key, entry);
      forall j | from <= j < |ops| && Key(ops[j].request.mac) == key ensures AnswerAt(ops, j) == Issued(entry.token) {
        if j < n {
          assert before[..j] == ops[..j];
          assert AnswerAt(before, j) == Issued(entry.token);
        }
      }
    }
  }

  /** No new token is issued on the key from index `from` on. */
  ghost predicate OnlyValidated(ops: seq<Op>, from: nat, key: string) {
    forall j :: from <= j < |ops| && Key(ops[j].request.mac) == key ==> ops[j].request.Validate?
  }

  /** After any validation, right or wrong, all later ones on the key fail until a new token. */
  lemma {:induction false} OneTimeUse(ops: seq<Op>, i: nat, key: string)
    requires i < |ops| && ops[i].request.Validate? && Key(ops[i].request.mac) == key
    requires OnlyValidated(ops, i, key)
    ensures Outstanding(ops, key) == None
    ensures forall j :: i < j < |ops| && Key(ops[j].request.mac) == key ==>
      Observed(ops, j) == AnswerAt(ops, j) == Verdict(false)
    decreases |ops|
  {
    var n := |ops| - 1;
    if i < n {
      var before := ops[..n];
      OneTimeUse(before, i, key);
      forall j | i < j < |ops| && Key(ops[j].request.mac) == key ensures AnswerAt(ops, j) == Verdict(false) {
        if j < n {
          assert before[..j] == ops[..j];
          assert AnswerAt(before, j) == Verdict(false);
        }
      }
    }
  }
}
