/**
 * What clients and the administrator are shown: the status endpoints of a device, and the
 * filtered, paged token list with its effective statuses.
 */
module Views {
  import opened Basics
  import opened Clock
  import opened Store
  import opened Protocol
  import opened Invariants
  import opened Agreement

  // ---- A device's own status ---------------------------------------------------------------

  datatype PortalStatus = PortalStatus(connected: bool, remainingSeconds: int)

  /** `/portal/status.json`. */
  function GetPortalStatus(db: Db, mac: string, now: nat): PortalStatus {
    match db.LiveRowOf(mac, now)
    case None => PortalStatus(false, 0)
    case Some(s) =>
      var remaining := Remaining(db.sessions[s].expiresAt, now);
      PortalStatus(remaining > 0, remaining)
  }

  datatype Capport = Capport(captive: bool, secondsRemaining: Option<int>)

  /** `/api/captive` (section 5 of RFC 8908); a client whose MAC is unknown is captive. */
  function GetCapport(db: Db, mac: Option<string>, now: nat): Capport {
    var row := if mac.Some? then db.LiveRowOf(mac.value, now) else None;
    if row.Some? && Remaining(db.sessions[row.value].expiresAt, now) > 0
    then Capport(false, Some(Remaining(db.sessions[row.value].expiresAt, now)))
    else Capport(true, None)
  }

  lemma LiveRowIsTheRow(db: Db, s: Id, now: nat)
    requires DbInv(db) && db.ActiveRow(s) && SqlLive(db.sessions[s].expiresAt, now)
    ensures db.LiveRowOf(db.sessions[s].pair.mac, now) == Some(s)
  {
    JoinedRows(db);
    var mac := db.sessions[s].pair.mac;
    assert s in db.LiveRowsOf(mac, now);
    var r := db.LiveRowOf(mac, now).value;
    assert db.ActiveRow(r) && db.sessions[r].pair.mac == mac;
  }

  /**
   * Both endpoints say the same, and they say connected exactly when the device has an open
   * row: never for a row that SQL calls dead, and not in the last second of a live one.
   */
  lemma EndpointsAgree(w: World, mac: string)
    requires DbInv(w.db)
    ensures var status := GetPortalStatus(w.db, mac, w.now);
            var api := GetCapport(w.db, Some(mac), w.now);
      && (status.connected <==> !api.captive)
      && (status.connected ==> api.secondsRemaining == Some(status.remainingSeconds) && status.remainingSeconds > 0)
      && (status.connected <==> exists s: Id :: Open(w, s) && w.db.sessions[s].pair.mac == mac)
      && (forall s: Id :: Open(w, s) && w.db.sessions[s].pair.mac == mac ==>
            var left := MS * w.db.sessions[s].expiresAt - w.now;
            MS * status.remainingSeconds <= left < MS * (status.remainingSeconds + 1))
      && (!status.connected ==> api.secondsRemaining == None && status.remainingSeconds == 0)
      && (GetCapport(w.db, None, w.now) == Capport(true, None))
      && (status.connected ==> w.db.LiveRowOf(mac, w.now).Some?)
      && (w.db.LiveRowOf(mac, w.now).Some? && !status.connected ==>
            0 < MS * w.db.sessions[w.db.LiveRowOf(mac, w.now).value].expiresAt - w.now < MS)
  {
    var row := w.db.LiveRowOf(mac, w.now);
    if row.Some? {
      LivenessGap(w.db.sessions[row.value].expiresAt, w.now);
      assert GetPortalStatus(w.db, mac, w.now).connected ==> Open(w, row.value);
    }
    forall s: Id | Open(w, s) && w.db.sessions[s].pair.mac == mac ensures row == Some(s) {
      LivenessGap(w.db.sessions[s].expiresAt, w.now);
      LiveRowIsTheRow(w.db, s, w.now);
    }
  }

  /**
   * A device that is told it is connected is let through, on the IP of its row, and the
   * firewall agrees with the seconds it is shown to within two seconds.
   */
  lemma ConnectedIsLetThrough(w: World, mac: string)
    requires DbInv(w.db) && Agreed(w) && GetPortalStatus(w.db, mac, w.now).connected
    ensures var seconds := GetPortalStatus(w.db, mac, w.now).remainingSeconds;
      exists ip: string :: Pair(mac, ip) in w.fw &&
        MS * (seconds - 1) < w.fw[Pair(mac, ip)] - w.now < MS * (seconds + 2)
  {
    EndpointsAgree(w, mac);
    var s := w.db.LiveRowOf(mac, w.now).value;
    var row := w.db.sessions[s];
    assert Open(w, s);
    assert row.pair == Pair(mac, row.pair.ip);
    assert Near(w.fw[row.pair], row.expiresAt);
  }

  // ---- The token list ------------------------------------------------------------------------

  function StatusText(s: TokenStatus): string {
    match s
    case Unused => "unused"
    case Active => "active"
    case Expired => "expired"
    case Revoked => "revoked"
  }

  /** `status = 'active' AND expires_at > now`; a missing expiry satisfies no comparison. */
  predicate LiveToken(t: Token, now: nat) {
    t.status == TokenStatus.Active && t.expiresAt.Some? && t.expiresAt.value > Stamp(now)
  }

  predicate LapsedToken(t: Token, now: nat) {
    t.status == TokenStatus.Active && t.expiresAt.Some? && t.expiresAt.value <= Stamp(now)
  }

  function EffectiveStatus(t: Token, now: nat): TokenStatus {
    if LapsedToken(t, now) then TokenStatus.Expired else t.status
  }

  /** The WHERE clause chosen for a filter; other strings compare with the stored status. */
  predicate Where(filter: Option<string>, t: Token, now: nat) {
    if filter == None then true
    else if filter.value == "current" then t.status == TokenStatus.Unused || LiveToken(t, now)
    else if filter.value == "active" then LiveToken(t, now)
    else if filter.value == "expired" then t.status == TokenStatus.Expired || LapsedToken(t, now)
    else StatusText(t.status) == filter.value
  }

  /** The status column the same query returns. */
  function Shown(filter: Option<string>, t: Token, now: nat): TokenStatus {
    if filter == None then EffectiveStatus(t, now)
    else if filter == Some("expired") then TokenStatus.Expired
    else t.status
  }

  const STATUSES := {TokenStatus.Unused, TokenStatus.Active, TokenStatus.Expired, TokenStatus.Revoked}

  /**
   * A token falls under exactly one of the four status filters, that of its effective
   * status, unless it is active without an expiry: then it falls under none of them.
   */
  lemma FiltersPartition(t: Token, now: nat)
    ensures forall s :: s in STATUSES && Where(Some(StatusText(s)), t, now) ==> s == EffectiveStatus(t, now)
    ensures Where(Some(StatusText(EffectiveStatus(t, now))), t, now)
       <==> !(t.status == TokenStatus.Active && t.expiresAt.None?)
    ensures Where(Some("current"), t, now) <==> Where(Some("unused"), t, now) || Where(Some("active"), t, now)
    ensures forall f: Option<string> :: Where(f, t, now) ==> Shown(f, t, now) == EffectiveStatus(t, now)
  {
    forall f: Option<string> | Where(f, t, now) ensures Shown(f, t, now) == EffectiveStatus(t, now) {
      StatusTexts(t.status);
    }
    StatusTexts(t.status);
    StatusTexts(EffectiveStatus(t, now));
    forall s | s in STATUSES && Where(Some(StatusText(s)), t, now) ensures s == EffectiveStatus(t, now) {
      StatusTexts(s);
    }
  }

  lemma StatusTexts(s: TokenStatus)
    ensures forall r :: StatusText(r) == StatusText(s) ==> r == s
    ensures StatusText(s) != "current"
    ensures StatusText(s) == "active" <==> s == TokenStatus.Active
    ensures StatusText(s) == "expired" <==> s == TokenStatus.Expired
  {
    assert "unused"[0] == 'u' && "active"[0] == 'a' && "expired"[0] == 'e' && "revoked"[0] == 'r';
    assert "current"[0] == 'c';
  }

  /** In a reachable state the four filters cover the table. */
  lemma FiltersCover(db: Db, t: Id, now: nat)
    requires DbInv(db) && t in db.tokens
    ensures Where(Some(StatusText(EffectiveStatus(db.tokens[t], now))), db.tokens[t], now)
  {
    FiltersPartition(db.tokens[t], now);
  }

  /**
   * What each filter lists, by the clock: "active" the active tokens whose expiry lies ahead,
   * "expired" those expired and those active ones whose expiry has come, "current" what is
   * unused or active, "unused" and "revoked" the stored status, no filter everything, and any
   * other word nothing.
   */
  lemma FiltersMean(t: Token, now: nat)
    ensures Where(Some("active"), t, now) <==>
      t.status == TokenStatus.Active && t.expiresAt.Some? && now < MS * t.expiresAt.value
    ensures Where(Some("expired"), t, now) <==>
      || t.status == TokenStatus.Expired
      || (t.status == TokenStatus.Active && t.expiresAt.Some? && MS * t.expiresAt.value <= now)
    ensures Where(Some("unused"), t, now) <==> t.status == TokenStatus.Unused
    ensures Where(Some("revoked"), t, now) <==> t.status == TokenStatus.Revoked
    ensures Where(Some("current"), t, now) <==>
      || t.status == TokenStatus.Unused
      || (t.status == TokenStatus.Active && t.expiresAt.Some? && now < MS * t.expiresAt.value)
    ensures Where(None, t, now)
    ensures forall word: string :: word !in {"active", "expired", "unused", "revoked", "current"} ==>
      !Where(Some(word), t, now)
  {
    assert "unused"[0] == 'u' && "active"[0] == 'a' && "expired"[0] == 'e' && "revoked"[0] == 'r';
    assert "current"[0] == 'c';
  }

  /**
   * A token whose row is open is listed as active and nowhere as expired, and an active token
   * whose time has run out is listed as expired and not as active.
   */
  lemma OpenIsListedActive(w: World, s: Id)
    requires DbInv(w.db) && Open(w, s)
    ensures var t := w.db.tokens[w.db.sessions[s].tokenId];
      && EffectiveStatus(t, w.now) == TokenStatus.Active
      && Where(Some("active"), t, w.now) && Where(Some("current"), t, w.now) && !Where(Some("expired"), t, w.now)
  {
    LivenessGap(w.db.sessions[s].expiresAt, w.now);
    FiltersMean(w.db.tokens[w.db.sessions[s].tokenId], w.now);
  }

  /** The tokens in the fixed order of the table, each once. */
  ghost predicate Ordered(db: Db, order: seq<Id>) {
    && (forall i :: 0 <= i < |order| ==> order[i] in db.tokens)
    && (forall t :: t in db.tokens ==> t in order)
    && (forall i, j :: 0 <= i < j < |order| ==> order[i] != order[j])
  }

  predicate Selected(db: Db, filter: Option<string>, t: Id, now: nat) {
    db.Joined(t) && Where(filter, db.tokens[t], now)
  }

  /** The list query, which joins each token with its plan. */
  function Select(db: Db, order: seq<Id>, filter: Option<string>, now: nat): seq<Id> {
    if order == [] then []
    else
      var n := |order| - 1;
      Select(db, order[..n], filter, now) + if Selected(db, filter, order[n], now) then [order[n]] else []
  }

  /** The count query, which does not join. */
  ghost function Matching(db: Db, filter: Option<string>, now: nat): set<Id> {
    set t | t in db.tokens && Where(filter, db.tokens[t], now)
  }

  ghost function SelectedSet(db: Db, order: seq<Id>, filter: Option<string>, now: nat): set<Id> {
    set t | t in order && Selected(db, filter, t, now)
  }

  lemma SelectedOneMore(db: Db, order: seq<Id>, last: Id, filter: Option<string>, now: nat)
    ensures SelectedSet(db, order + [last], filter, now)
         == SelectedSet(db, order, filter, now) + if Selected(db, filter, last, now) then {last} else {}
  {
  }

  lemma {:induction false} SelectCounts(db: Db, order: seq<Id>, filter: Option<string>, now: nat)
    requires forall i, j :: 0 <= i < j < |order| ==> order[i] != order[j]
    ensures |Select(db, order, filter, now)| == |SelectedSet(db, order, filter, now)|
  {
    if order == [] {
      assert SelectedSet(db, order, filter, now) == {};
    } else {
      var n := |order| - 1;
      SelectCounts(db, order[..n], filter, now);
      assert order == order[..n] + [order[n]];
      SelectedOneMore(db, order[..n], order[n], filter, now);
      assert order[n] !in order[..n];
    }
  }

  lemma {:induction false} SelectMembers(db: Db, order: seq<Id>, filter: Option<string>, now: nat, t: Id)
    ensures t in Select(db, order, filter, now) <==> t in SelectedSet(db, order, filter, now)
  {
    if order != [] {
      var n := |order| - 1;
      SelectMembers(db, order[..n], filter, now, t);
      assert order == order[..n] + [order[n]];
    }
  }

  ghost predicate Precedes(order: seq<Id>, x: Id, y: Id) {
    exists a, b :: 0 <= a < b < |order| && order[a] == x && order[b] == y
  }

  /** The list keeps the order of the table. */
  lemma {:induction false} SelectKeepsOrder(db: Db, order: seq<Id>, filter: Option<string>, now: nat, i: nat, j: nat)
    requires i < j < |Select(db, order, filter, now)|
    ensures Precedes(order, Select(db, order, filter, now)[i], Select(db, order, filter, now)[j])
  {
    var n := |order| - 1;
    var rest := Select(db, order[..n], filter, now);
    if j < |rest| {
      SelectKeepsOrder(db, order[..n], filter, now, i, j);
      var a, b :| 0 <= a < b < |order[..n]| && order[..n][a] == rest[i] && order[..n][b] == rest[j];
      assert order[a] == rest[i] && order[b] == rest[j];
    } else {
      SelectMembers(db, order[..n], filter, now, rest[i]);
      var a :| 0 <= a < |order[..n]| && order[..n][a] == rest[i];
      assert order[a] == rest[i] && order[n] == Select(db, order, filter, now)[j];
    }
  }

  /** Every count equals the length of its list, and the list holds exactly the matching tokens. */
  lemma CountIsLength(db: Db, order: seq<Id>, filter: Option<string>, now: nat)
    requires DbInv(db) && Ordered(db, order)
    ensures |Select(db, order, filter, now)| == |Matching(db, filter, now)|
    ensures forall t :: t in Select(db, order, filter, now) <==> t in Matching(db, filter, now)
  {
    SelectCounts(db, order, filter, now);
    assert SelectedSet(db, order, filter, now) == Matching(db, filter, now);
    forall t: Id ensures t in Select(db, order, filter, now) <==> t in Matching(db, filter, now) {
      SelectMembers(db, order, filter, now, t);
    }
  }

  // ---- Pages ---------------------------------------------------------------------------------

  /** `LIMIT ? OFFSET ?`: a negative offset is none, a negative limit is no limit. */
  function Window<T>(rows: seq<T>, limit: int, offset: int): seq<T> {
    var start := if offset < 0 then 0 else if offset > |rows| then |rows| else offset;
    var stop := if limit < 0 || start + limit > |rows| then |rows| else start + limit;
    rows[start..stop]
  }

  function Page<T>(rows: seq<T>, page: int, perPage: int): seq<T> {
    Window(rows, perPage, (page - 1) * perPage)
  }

  function TotalPages(total: nat, perPage: int): int {
    if perPage <= 0 then 1 else (total + perPage - 1) / perPage
  }

  predicate HasNext(total: nat, page: int, perPage: int) {
    page < TotalPages(total, perPage)
  }

  function FirstPages<T>(rows: seq<T>, count: nat, perPage: int): seq<T> {
    if count == 0 then [] else FirstPages(rows, count - 1, perPage) + Page(rows, count, perPage)
  }

  lemma Ceiling(total: nat, perPage: int, page: nat)
    requires perPage > 0
    ensures page < TotalPages(total, perPage) <==> page * perPage < total
  {
    var q := TotalPages(total, perPage);
    assert q * perPage <= total + perPage - 1 < (q + 1) * perPage;
    if page < q {
      assert (page + 1) * perPage <= q * perPage;
      assert (page + 1) * perPage == page * perPage + perPage;
    } else {
      assert q * perPage <= page * perPage;
      assert (q + 1) * perPage == q * perPage + perPage;
    }
  }

  lemma PageExtends<T>(rows: seq<T>, offset: nat, perPage: nat)
    ensures var seen := if offset < |rows| then rows[..offset] else rows;
      seen + Window(rows, perPage, offset) == if offset + perPage < |rows| then rows[..offset + perPage] else rows
  {
  }

  lemma {:induction false} FirstPagesPrefix<T>(rows: seq<T>, count: nat, perPage: int)
    requires perPage > 0
    ensures FirstPages(rows, count, perPage) == if count * perPage < |rows| then rows[..count * perPage] else rows
  {
    if count == 0 {
      assert rows[..0] == [];
    } else {
      FirstPagesPrefix(rows, count - 1, perPage);
      var offset := (count - 1) * perPage;
      assert count * perPage == offset + perPage;
      PageExtends(rows, offset, perPage);
    }
  }

  /** Pages 1 to the last concatenate to the whole list. */
  lemma PagesCover<T>(rows: seq<T>, perPage: int)
    requires perPage > 0
    ensures TotalPages(|rows|, perPage) >= 0
    ensures FirstPages(rows, TotalPages(|rows|, perPage), perPage) == rows
  {
    var last := TotalPages(|rows|, perPage);
    Ceiling(|rows|, perPage, last);
    FirstPagesPrefix(rows, last, perPage);
  }

  /** A page has a next one exactly when that next page is not empty. */
  lemma NextPageExists<T>(rows: seq<T>, page: nat, perPage: int)
    requires perPage > 0
    ensures HasNext(|rows|, page, perPage) <==> Page(rows, page + 1, perPage) != []
  {
    Ceiling(|rows|, perPage, page);
    var offset := page * perPage;
    assert offset >= 0;
    assert Page(rows, page + 1, perPage) == Window(rows, perPage, offset);
  }

  // ---- The paged list --------------------------------------------------------------------------

  datatype TokenPage = TokenPage(tokens: seq<Id>, total: nat, page: int, perPage: int)

  /** One request for a page: the count query, then the list query with limit and offset. */
  ghost function ListTokensPaged(
      db: Db, order: seq<Id>, filter: Option<string>, page: int, perPage: int, now: nat): TokenPage {
    TokenPage(Page(Select(db, order, filter, now), page, perPage), |Matching(db, filter, now)|, page, perPage)
  }

  /** What an administrator has seen after the first `count` pages. */
  ghost function Browse(
      db: Db, order: seq<Id>, filter: Option<string>, count: nat, perPage: int, now: nat): seq<Id> {
    if count == 0 then []
    else Browse(db, order, filter, count - 1, perPage, now)
         + ListTokensPaged(db, order, filter, count, perPage, now).tokens
  }

  lemma {:induction false} BrowseIsFirstPages(
      db: Db, order: seq<Id>, filter: Option<string>, count: nat, perPage: int, now: nat)
    ensures Browse(db, order, filter, count, perPage, now)
         == FirstPages(Select(db, order, filter, now), count, perPage)
  {
    if count > 0 { BrowseIsFirstPages(db, order, filter, count - 1, perPage, now); }
  }

  /**
   * Following the pages, whose number comes from the count query, shows each matching token
   * exactly once; and a page offers a next one exactly when that request returns tokens.
   */
  lemma BrowsingCovers(db: Db, order: seq<Id>, filter: Option<string>, page: nat, perPage: int, now: nat)
    requires DbInv(db) && Ordered(db, order) && perPage > 0
    ensures var last := TotalPages(ListTokensPaged(db, order, filter, page, perPage, now).total, perPage);
      && last >= 0
      && (forall t :: t in Browse(db, order, filter, last, perPage, now) <==> t in Matching(db, filter, now))
      && |Browse(db, order, filter, last, perPage, now)| == |Matching(db, filter, now)|
    ensures HasNext(ListTokensPaged(db, order, filter, page, perPage, now).total, page, perPage)
       <==> ListTokensPaged(db, order, filter, page + 1, perPage, now).tokens != []
  {
    var rows := Select(db, order, filter, now);
    CountIsLength(db, order, filter, now);
    PagesCover(rows, perPage);
    BrowseIsFirstPages(db, order, filter, TotalPages(|rows|, perPage), perPage, now);
    NextPageExists(rows, page, perPage);
  }
}
