/**
 * The click ledger: the `users` and `clicks` tables and the service
 * operations over them.  Each SQL statement of the service becomes an
 * operation on a map or a sequence; the schema's constraints (primary keys,
 * NOT NULL, AUTOINCREMENT, the user reference of a click) are kept as the
 * object invariant `Ledger.Valid`.
 *
 * Timestamps are readings of an abstract clock (`nat`) that never goes
 * back; two events may read the same value, as SQLite's second-granularity
 * CURRENT_TIMESTAMP does.
 */
module ClickLedger {
  import opened Common

  /** A row of `users`; the map key is the subject id (the primary key). */
  datatype UserRow = UserRow(email: string, name: string, createdAt: nat)

  /** A row of `clicks`. */
  datatype ClickRow = ClickRow(id: nat, userId: string, clickedAt: nat)

  /** What `recordClick` returns. */
  datatype ClickReceipt = ClickReceipt(clickId: nat, userId: string, timestamp: nat)

  /** One element of the array `getUserClickHistory` returns. */
  datatype HistoryEntry = HistoryEntry(id: nat, timestamp: nat)

  /** One element of `topUsers` in the global statistics. */
  datatype TopUser = TopUser(email: string, name: string, clicks: nat)

  datatype GlobalStats = GlobalStats(totalClicks: nat, totalUsers: nat, topUsers: seq<TopUser>)

  /** What `getUserInfo` returns for a known user. */
  datatype UserInfo = UserInfo(id: string, email: string, name: string, createdAt: nat, totalClicks: nat)

  // ---------------------------------------------------------------------
  // Ordering: ORDER BY <key> DESC
  // ---------------------------------------------------------------------

  ghost predicate NonIncreasing<T>(s: seq<T>, key: T -> int)
  {
    forall i, j :: 0 <= i < j < |s| ==> key(s[i]) >= key(s[j])
  }

  /** Inserts `x` into a sequence already ordered by `key`, descending. */
  function InsertDesc<T(==)>(x: T, s: seq<T>, key: T -> int): (r: seq<T>)
    requires NonIncreasing(s, key)
    ensures multiset(r) == multiset(s) + multiset{x}
    ensures NonIncreasing(r, key)
    ensures |r| == |s| + 1
    ensures key(r[0]) == key(x) || (s != [] && key(r[0]) == key(s[0]))
  {
    if s == [] || key(x) >= key(s[0]) then
      ConsKeepsOrder(x, s, key);
      [x] + s
    else
      assert s == [s[0]] + s[1..];
      TailKeepsOrder(s, key);
      var rest := InsertDesc(x, s[1..], key);
      ConsKeepsOrder(s[0], rest, key);
      assert multiset([s[0]] + rest) == multiset{s[0]} + multiset(rest);
      [s[0]] + rest
  }

  lemma TailKeepsOrder<T>(s: seq<T>, key: T -> int)
    requires NonIncreasing(s, key) && s != []
    ensures NonIncreasing(s[1..], key)
    ensures forall j :: 0 <= j < |s| ==> key(s[j]) <= key(s[0])
  {
  }

  /** Putting in front an element that ranks at least as high as the head keeps the order. */
  lemma ConsKeepsOrder<T>(y: T, s: seq<T>, key: T -> int)
    requires NonIncreasing(s, key)
    requires s != [] ==> key(s[0]) <= key(y)
    ensures NonIncreasing([y] + s, key)
  {
  }

  /** A permutation of `s` ordered by `key`, largest first. */
  function SortDesc<T(==)>(s: seq<T>, key: T -> int): (r: seq<T>)
    ensures multiset(r) == multiset(s)
    ensures |r| == |s|
    ensures NonIncreasing(r, key)
  {
    if s == [] then
      []
    else
      assert s == [s[0]] + s[1..];
      InsertDesc(s[0], SortDesc(s[1..], key), key)
  }

  /**
   * LIMIT k on a sequence ordered by `key`: what is cut off is never
   * ranked above anything that is kept.
   */
  lemma {:induction false} PrefixIsTop<T>(s: seq<T>, k: nat, key: T -> int)
    requires NonIncreasing(s, key) && k <= |s|
    ensures multiset(s) - multiset(s[..k]) == multiset(s[k..])
    ensures forall x, j :: x in multiset(s[k..]) && 0 <= j < k ==> key(x) <= key(s[j])
  {
    assert s == s[..k] + s[k..];
    forall x, j | x in multiset(s[k..]) && 0 <= j < k
      ensures key(x) <= key(s[j])
    {
      assert x in s[k..];
      var i :| 0 <= i < |s[k..]| && s[k..][i] == x;
      assert s[k + i] == x;
    }
  }

  // ---------------------------------------------------------------------
  // The `clicks` table: WHERE user_id = ?, COUNT(*), DELETE
  // ---------------------------------------------------------------------

  /** SELECT * FROM clicks WHERE user_id = u, in table order. */
  function ClicksOf(clicks: seq<ClickRow>, u: string): (r: seq<ClickRow>)
    ensures |r| <= |clicks|
    ensures forall x :: x in r ==> x in clicks && x.userId == u
    ensures (forall i :: 0 <= i < |clicks| ==> clicks[i].userId == u) ==> r == clicks
  {
    if clicks == [] then
      []
    else
      var init, last := clicks[..|clicks| - 1], clicks[|clicks| - 1];
      assert clicks == init + [last];
      ClicksOf(init, u) + (if last.userId == u then [last] else [])
  }

  /** No click of `u` is missed by the selection. */
  lemma {:induction false} ClicksOfComplete(clicks: seq<ClickRow>, u: string, i: nat)
    requires i < |clicks| && clicks[i].userId == u
    ensures clicks[i] in ClicksOf(clicks, u)
  {
    if i < |clicks| - 1 {
      ClicksOfComplete(clicks[..|clicks| - 1], u, i);
    }
  }

  /** SELECT COUNT(*) FROM clicks WHERE user_id = u. */
  function UserClickCount(clicks: seq<ClickRow>, u: string): (n: nat)
    ensures n <= |clicks|
    ensures (forall i :: 0 <= i < |clicks| ==> clicks[i].userId == u) ==> n == |clicks|
  {
    if clicks == [] then
      0
    else
      var init, last := clicks[..|clicks| - 1], clicks[|clicks| - 1];
      UserClickCount(init, u) + (if last.userId == u then 1 else 0)
  }

  /** The count is the size of the selection. */
  lemma {:induction false} CountIsSelectionSize(clicks: seq<ClickRow>, u: string)
    ensures |ClicksOf(clicks, u)| == UserClickCount(clicks, u)
  {
    if clicks != [] {
      CountIsSelectionSize(clicks[..|clicks| - 1], u);
    }
  }

  /** The count is zero exactly when no row of the table belongs to `u`. */
  lemma {:induction false} CountZeroIffNoClicks(clicks: seq<ClickRow>, u: string)
    ensures UserClickCount(clicks, u) == 0 <==> forall i :: 0 <= i < |clicks| ==> clicks[i].userId != u
  {
    if clicks != [] {
      var init := clicks[..|clicks| - 1];
      CountZeroIffNoClicks(init, u);
      assert forall i :: 0 <= i < |init| ==> init[i] == clicks[i];
    }
  }

  /** DELETE FROM clicks WHERE user_id = u: the rows that survive, in table order. */
  function RemoveClicksOf(clicks: seq<ClickRow>, u: string): (r: seq<ClickRow>)
    ensures forall x :: x in r ==> x in clicks && x.userId != u
    ensures |r| == |clicks| - UserClickCount(clicks, u)
  {
    if clicks == [] then
      []
    else
      var init, last := clicks[..|clicks| - 1], clicks[|clicks| - 1];
      assert clicks == init + [last];
      RemoveClicksOf(init, u) + (if last.userId != u then [last] else [])
  }

  /** INSERT INTO clicks appends one row: only its owner's selection grows. */
  lemma {:induction false} ClicksOfAppend(clicks: seq<ClickRow>, row: ClickRow, u: string)
    ensures ClicksOf(clicks + [row], u) == ClicksOf(clicks, u) + (if row.userId == u then [row] else [])
  {
    assert (clicks + [row])[..|clicks|] == clicks;
  }

  /** An appended row adds one click to its owner and leaves everyone else's selection as it was. */
  lemma AppendTouchesOnlyOwner(clicks: seq<ClickRow>, row: ClickRow)
    ensures UserClickCount(clicks + [row], row.userId) == UserClickCount(clicks, row.userId) + 1
    ensures forall v :: v != row.userId ==> ClicksOf(clicks + [row], v) == ClicksOf(clicks, v)
  {
    CountAfterAppend(clicks, row, row.userId);
    forall v | v != row.userId
      ensures ClicksOf(clicks + [row], v) == ClicksOf(clicks, v)
    {
      ClicksOfAppend(clicks, row, v);
    }
  }

  /** Counting after an append: exactly one more for the row's owner, the same for everyone else. */
  lemma CountAfterAppend(clicks: seq<ClickRow>, row: ClickRow, u: string)
    ensures UserClickCount(clicks + [row], u) == UserClickCount(clicks, u) + (if row.userId == u then 1 else 0)
  {
    assert (clicks + [row])[..|clicks|] == clicks;
  }

  /** Deleting one user's clicks leaves every other user's clicks exactly as they were. */
  lemma {:induction false} RemoveKeepsOthers(clicks: seq<ClickRow>, u: string, v: string)
    requires u != v
    ensures ClicksOf(RemoveClicksOf(clicks, u), v) == ClicksOf(clicks, v)
  {
    if clicks != [] {
      var init, last := clicks[..|clicks| - 1], clicks[|clicks| - 1];
      RemoveKeepsOthers(init, u, v);
      assert ClicksOf(clicks, v) == ClicksOf(init, v) + (if last.userId == v then [last] else []);
      if last.userId != u {
        assert RemoveClicksOf(clicks, u) == RemoveClicksOf(init, u) + [last];
        ClicksOfAppend(RemoveClicksOf(init, u), last, v);
      } else {
        assert RemoveClicksOf(clicks, u) == RemoveClicksOf(init, u);
      }
    }
  }

  /**
   * `a` was inserted before `b`: AUTOINCREMENT gave it the smaller id, and
   * the clock, which never goes back, gave it a timestamp no later.
   */
  ghost predicate InsertedBefore(a: ClickRow, b: ClickRow)
  {
    a.id < b.id && a.clickedAt <= b.clickedAt
  }

  /** The table lists clicks in insertion order. */
  ghost predicate InInsertionOrder(clicks: seq<ClickRow>)
  {
    forall i, j :: 0 <= i < j < |clicks| ==> InsertedBefore(clicks[i], clicks[j])
  }

  /** An INSERT of a row newer than every other keeps the table in insertion order. */
  lemma AppendKeepsOrder(clicks: seq<ClickRow>, row: ClickRow)
    requires InInsertionOrder(clicks)
    requires forall i :: 0 <= i < |clicks| ==> InsertedBefore(clicks[i], row)
    ensures InInsertionOrder(clicks + [row])
  {
  }

  /** A DELETE keeps the surviving rows in their order. */
  lemma {:induction false} RemoveKeepsOrder(clicks: seq<ClickRow>, u: string)
    requires InInsertionOrder(clicks)
    ensures InInsertionOrder(RemoveClicksOf(clicks, u))
  {
    if clicks != [] {
      var init, last := clicks[..|clicks| - 1], clicks[|clicks| - 1];
      RemoveKeepsOrder(init, u);
      var kept := RemoveClicksOf(init, u);
      forall i | 0 <= i < |kept|
        ensures InsertedBefore(kept[i], last)
      {
        var k :| 0 <= k < |init| && init[k] == kept[i];
        assert clicks[k] == kept[i];
      }
    }
  }

  // ---------------------------------------------------------------------
  // The `users` table
  // ---------------------------------------------------------------------

  /**
   * The check-then-insert of `ensureUserExists`: the row is added only when
   * the id is new; an existing row is never refreshed (first writer wins).
   */
  function WithUser(users: map<string, UserRow>, id: string, row: UserRow): (r: map<string, UserRow>)
    ensures r.Keys == users.Keys + {id}
    ensures forall k :: k in users ==> r[k] == users[k]
    ensures id !in users ==> r[id] == row
    ensures |r| == |users| + (if id in users then 0 else 1)
  {
    if id in users then users else users[id := row]
  }

  /** A second `ensureUserExists` for the same id changes nothing, whatever profile it carries. */
  lemma WithUserIdempotent(users: map<string, UserRow>, id: string, row: UserRow, row': UserRow)
    ensures WithUser(WithUser(users, id, row), id, row') == WithUser(users, id, row)
  {
  }

  // ---------------------------------------------------------------------
  // Read-only queries
  // ---------------------------------------------------------------------

  function ClickedAt(c: ClickRow): int
  {
    c.clickedAt
  }

  /** The first `k` elements of a permutation of `b` are drawn from `b`. */
  lemma {:induction false} PermutationPrefix<T>(a: seq<T>, b: seq<T>, k: nat)
    requires multiset(a) == multiset(b) && k <= |a|
    ensures multiset(a[..k]) <= multiset(b)
    ensures forall i :: 0 <= i < k ==> a[i] in b
  {
    assert a == a[..k] + a[k..];
    forall i | 0 <= i < k
      ensures a[i] in b
    {
      assert a[i] in multiset(a);
    }
  }

  /**
   * SELECT id, clicked_at FROM clicks WHERE user_id = u ORDER BY clicked_at DESC LIMIT limit,
   * as rows.  Ties between equal timestamps are in no particular order.
   */
  function HistoryRows(clicks: seq<ClickRow>, u: string, limit: nat): (r: seq<ClickRow>)
    ensures |r| == Min(limit, UserClickCount(clicks, u))
    ensures forall x :: x in r ==> x in clicks && x.userId == u
    ensures multiset(r) <= multiset(ClicksOf(clicks, u))
    ensures NonIncreasing(r, ClickedAt)
    ensures forall x, j :: x in multiset(ClicksOf(clicks, u)) - multiset(r) && 0 <= j < |r| ==>
              ClickedAt(x) <= ClickedAt(r[j])
  {
    var mine := ClicksOf(clicks, u);
    CountIsSelectionSize(clicks, u);
    var sorted := SortDesc(mine, ClickedAt);
    var k := Min(limit, |sorted|);
    PrefixIsTop(sorted, k, ClickedAt);
    PermutationPrefix(sorted, mine, k);
    sorted[..k]
  }

  /** `clicks.map(click => ({id: click.id, timestamp: click.clicked_at}))`. */
  function AsEntries(rows: seq<ClickRow>): (r: seq<HistoryEntry>)
    ensures |r| == |rows|
    ensures forall i :: 0 <= i < |rows| ==> r[i] == HistoryEntry(rows[i].id, rows[i].clickedAt)
  {
    if rows == [] then [] else [HistoryEntry(rows[0].id, rows[0].clickedAt)] + AsEntries(rows[1..])
  }

  /** Projecting rows of `u`, newest first, gives entries of `u`'s clicks, newest first. */
  lemma EntriesOfRows(clicks: seq<ClickRow>, u: string, rows: seq<ClickRow>)
    requires forall x :: x in rows ==> x in clicks && x.userId == u
    requires NonIncreasing(rows, ClickedAt)
    ensures forall i :: 0 <= i < |rows| ==> ClickRow(AsEntries(rows)[i].id, u, AsEntries(rows)[i].timestamp) in clicks
    ensures forall i, j :: 0 <= i < j < |rows| ==> AsEntries(rows)[i].timestamp >= AsEntries(rows)[j].timestamp
  {
    var r := AsEntries(rows);
    forall i | 0 <= i < |rows|
      ensures ClickRow(r[i].id, u, r[i].timestamp) in clicks
    {
      assert rows[i] in rows;
      assert ClickRow(r[i].id, u, r[i].timestamp) == rows[i];
    }
    forall i, j | 0 <= i < j < |rows|
      ensures r[i].timestamp >= r[j].timestamp
    {
      assert ClickedAt(rows[i]) >= ClickedAt(rows[j]);
    }
  }

  /** `getUserClickHistory`: the newest `limit` clicks of `u`, newest first, as {id, timestamp}. */
  function UserClickHistory(clicks: seq<ClickRow>, u: string, limit: nat): (r: seq<HistoryEntry>)
    ensures |r| == Min(limit, UserClickCount(clicks, u))
    ensures forall i :: 0 <= i < |r| ==> ClickRow(r[i].id, u, r[i].timestamp) in clicks
    ensures forall i, j :: 0 <= i < j < |r| ==> r[i].timestamp >= r[j].timestamp
  {
    var rows := HistoryRows(clicks, u, limit);
    EntriesOfRows(clicks, u, rows);
    AsEntries(rows)
  }

  /**
   * Two of three rows at strictly increasing times, ordered newest first,
   * such that the row left out is no newer than either: the newest two.
   */
  lemma NewestTwo(a: ClickRow, b: ClickRow, c: ClickRow, r: seq<ClickRow>)
    requires a.clickedAt < b.clickedAt < c.clickedAt
    requires |r| == 2 && multiset(r) <= multiset{a, b, c}
    requires r[0].clickedAt >= r[1].clickedAt
    requires forall x, j :: x in multiset{a, b, c} - multiset(r) && 0 <= j < |r| ==> x.clickedAt <= r[j].clickedAt
    ensures r == [c, b]
  {
    var all := multiset{a, b, c};
    assert r == [r[0], r[1]];
    assert multiset(r) == multiset{r[0], r[1]};
    assert r[0] in all && r[1] in all;
  }

  /** Three clicks of one user: the selection is the whole table, three rows. */
  lemma ThreeOfOneUser(a: ClickRow, b: ClickRow, c: ClickRow)
    requires a.userId == b.userId == c.userId
    ensures ClicksOf([a, b, c], a.userId) == [a, b, c]
    ensures multiset(ClicksOf([a, b, c], a.userId)) == multiset{a, b, c}
    ensures UserClickCount([a, b, c], a.userId) == 3
  {
    var clicks := [a, b, c];
    assert forall i :: 0 <= i < |clicks| ==> clicks[i].userId == a.userId;
    assert multiset(clicks) == multiset{a, b, c};
  }

  /**
   * Of three clicks of one user at strictly increasing times, a history
   * of two holds the newest two, newest first.
   */
  lemma HistoryOfThree(a: ClickRow, b: ClickRow, c: ClickRow)
    requires a.userId == b.userId == c.userId
    requires a.clickedAt < b.clickedAt < c.clickedAt
    ensures HistoryRows([a, b, c], a.userId, 2) == [c, b]
  {
    var u, clicks := a.userId, [a, b, c];
    ThreeOfOneUser(a, b, c);
    var mine := multiset(ClicksOf(clicks, u));
    var r := HistoryRows(clicks, u, 2);
    assert |r| == 2 && multiset(r) <= mine;
    assert ClickedAt(r[0]) >= ClickedAt(r[1]);
    forall x, j | x in multiset{a, b, c} - multiset(r) && 0 <= j < |r|
      ensures x.clickedAt <= r[j].clickedAt
    {
      assert x in mine - multiset(r);
      assert ClickedAt(x) <= ClickedAt(r[j]);
    }
    NewestTwo(a, b, c, r);
  }

  /** The history is the entries of the selected rows. */
  lemma HistoryIsEntries(clicks: seq<ClickRow>, u: string, limit: nat)
    ensures UserClickHistory(clicks, u, limit) == AsEntries(HistoryRows(clicks, u, limit))
  {
  }

  /** The entries of two rows. */
  lemma EntriesOfPair(x: ClickRow, y: ClickRow)
    ensures AsEntries([x, y]) == [HistoryEntry(x.id, x.clickedAt), HistoryEntry(y.id, y.clickedAt)]
  {
    var e := AsEntries([x, y]);
    assert |e| == 2 && e[0] == HistoryEntry(x.id, x.clickedAt) && e[1] == HistoryEntry(y.id, y.clickedAt);
  }

  /** The same history as entries: the two newest ids with their times. */
  lemma HistoryEntriesOfThree(a: ClickRow, b: ClickRow, c: ClickRow)
    requires a.userId == b.userId == c.userId
    requires a.clickedAt < b.clickedAt < c.clickedAt
    ensures UserClickHistory([a, b, c], a.userId, 2) == [HistoryEntry(c.id, c.clickedAt), HistoryEntry(b.id, b.clickedAt)]
  {
    HistoryOfThree(a, b, c);
    HistoryIsEntries([a, b, c], a.userId, 2);
    EntriesOfPair(c, b);
  }

  /** Some listing of a set, each element once: the store's unspecified natural order. */
  ghost function SetToSeq(s: set<string>): (r: seq<string>)
    ensures multiset(r) == multiset(s)
    ensures |r| == |s|
  {
    if s == {} then
      []
    else
      var x :| x in s;
      assert s == (s - {x}) + {x};
      [x] + SetToSeq(s - {x})
  }

  /** The ranking key of `topUsers`: COUNT(c.id) of the LEFT JOIN, zero for a user without clicks. */
  function ClickCountOf(clicks: seq<ClickRow>): string -> int
  {
    u => UserClickCount(clicks, u)
  }

  /**
   * All users ranked by click count, most clicks first: the LEFT JOIN
   * grouped by user and ordered by click_count DESC, before the LIMIT.
   */
  ghost function Ranking(users: map<string, UserRow>, clicks: seq<ClickRow>): (ranked: seq<string>)
    ensures multiset(ranked) == multiset(users.Keys)
    ensures |ranked| == |users|
    ensures forall i, j :: 0 <= i < j < |ranked| ==> UserClickCount(clicks, ranked[i]) >= UserClickCount(clicks, ranked[j])
  {
    var key := ClickCountOf(clicks);
    var ranked := SortDesc(SetToSeq(users.Keys), key);
    assert |users.Keys| == |users|;
    assert forall x :: key(x) == UserClickCount(clicks, x);
    ranked
  }

  /**
   * LIMIT k on the ranking: no user twice, and every user left out has no
   * more clicks than any user kept.
   */
  lemma TopOfRanking(users: map<string, UserRow>, clicks: seq<ClickRow>, ranked: seq<string>, k: nat)
    requires multiset(ranked) == multiset(users.Keys) && k <= |ranked|
    requires forall i, j :: 0 <= i < j < |ranked| ==> UserClickCount(clicks, ranked[i]) >= UserClickCount(clicks, ranked[j])
    ensures multiset(ranked[..k]) <= multiset(users.Keys)
    ensures forall i, j :: 0 <= i < j < k ==>
              UserClickCount(clicks, ranked[..k][i]) >= UserClickCount(clicks, ranked[..k][j])
    ensures forall id, j :: id in users && id !in ranked[..k] && 0 <= j < k ==>
              UserClickCount(clicks, id) <= UserClickCount(clicks, ranked[..k][j])
  {
    assert ranked == ranked[..k] + ranked[k..];
    assert forall i :: 0 <= i < k ==> ranked[..k][i] == ranked[i];
    forall id, j | id in users && id !in ranked[..k] && 0 <= j < k
      ensures UserClickCount(clicks, id) <= UserClickCount(clicks, ranked[..k][j])
    {
      assert id in multiset(ranked);
      var i :| 0 <= i < |ranked| && ranked[i] == id;
    }
  }

  /**
   * The ids behind `topUsers`: ORDER BY click_count DESC LIMIT 5 over all
   * users, also those with no clicks.  No user appears twice.
   */
  ghost function TopUserIds(users: map<string, UserRow>, clicks: seq<ClickRow>): (ids: seq<string>)
    ensures |ids| == Min(5, |users|)
    ensures multiset(ids) <= multiset(users.Keys)
    ensures forall i, j :: 0 <= i < j < |ids| ==> UserClickCount(clicks, ids[i]) >= UserClickCount(clicks, ids[j])
    ensures forall id, j :: id in users && id !in ids && 0 <= j < |ids| ==>
              UserClickCount(clicks, id) <= UserClickCount(clicks, ids[j])
  {
    var ranked := Ranking(users, clicks);
    var k := Min(5, |ranked|);
    TopOfRanking(users, clicks, ranked, k);
    ranked[..k]
  }

  /** `getGlobalStats`. */
  ghost function GlobalStatsOf(users: map<string, UserRow>, clicks: seq<ClickRow>): (s: GlobalStats)
    ensures s.totalClicks == |clicks| && s.totalUsers == |users|
    ensures |s.topUsers| == Min(5, |users|)
    ensures forall i, j :: 0 <= i < j < |s.topUsers| ==> s.topUsers[i].clicks >= s.topUsers[j].clicks
    ensures |users| > 0 ==> forall id :: id in users ==> UserClickCount(clicks, id) <= s.topUsers[0].clicks
  {
    var ids := TopUserIds(users, clicks);
    TopIdsAreUsers(users, ids);
    var top := TopUserRows(users, clicks, ids);
    assert |users| > 0 ==> forall id :: id in users ==> UserClickCount(clicks, id) <= top[0].clicks by {
      if |users| > 0 {
        LeaderHasMostClicks(users, clicks, ids);
      }
    }
    GlobalStats(|clicks|, |users|, top)
  }

  /** The SELECT list of the ranking query: u.email, u.name, COUNT(c.id), for each ranked id. */
  function TopUserRows(users: map<string, UserRow>, clicks: seq<ClickRow>, ids: seq<string>): (top: seq<TopUser>)
    requires forall i :: 0 <= i < |ids| ==> ids[i] in users
    ensures |top| == |ids|
    ensures forall i :: 0 <= i < |ids| ==>
              top[i] == TopUser(users[ids[i]].email, users[ids[i]].name, UserClickCount(clicks, ids[i]))
    ensures (forall i, j :: 0 <= i < j < |ids| ==> UserClickCount(clicks, ids[i]) >= UserClickCount(clicks, ids[j])) ==>
              forall i, j :: 0 <= i < j < |top| ==> top[i].clicks >= top[j].clicks
  {
    seq(|ids|, i requires 0 <= i < |ids| =>
      TopUser(users[ids[i]].email, users[ids[i]].name, UserClickCount(clicks, ids[i])))
  }

  /** Each entry of `topUsers` is a user's email and name with that user's own click count. */
  lemma TopUsersAreUsers(users: map<string, UserRow>, clicks: seq<ClickRow>)
    ensures forall i :: 0 <= i < |GlobalStatsOf(users, clicks).topUsers| ==>
              exists id :: id in users &&
                GlobalStatsOf(users, clicks).topUsers[i] == TopUser(users[id].email, users[id].name, UserClickCount(clicks, id))
  {
    var ids := TopUserIds(users, clicks);
    TopIdsAreUsers(users, ids);
    var top := GlobalStatsOf(users, clicks).topUsers;
    assert top == TopUserRows(users, clicks, ids);
    forall i | 0 <= i < |top|
      ensures exists id :: id in users && top[i] == TopUser(users[id].email, users[id].name, UserClickCount(clicks, id))
    {
      var id := ids[i];
      assert id in users && top[i] == TopUser(users[id].email, users[id].name, UserClickCount(clicks, id));
    }
  }

  lemma TopIdsAreUsers(users: map<string, UserRow>, ids: seq<string>)
    requires multiset(ids) <= multiset(users.Keys)
    ensures forall i :: 0 <= i < |ids| ==> ids[i] in users
  {
    forall i | 0 <= i < |ids|
      ensures ids[i] in users
    {
      assert ids[i] in multiset(ids);
    }
  }

  /** The first of the top users has at least as many clicks as any user. */
  lemma LeaderHasMostClicks(users: map<string, UserRow>, clicks: seq<ClickRow>, ids: seq<string>)
    requires ids == TopUserIds(users, clicks) && |users| > 0
    ensures forall id :: id in users ==> UserClickCount(clicks, id) <= UserClickCount(clicks, ids[0])
  {
    forall id | id in users
      ensures UserClickCount(clicks, id) <= UserClickCount(clicks, ids[0])
    {
      if id in ids {
        var i :| 0 <= i < |ids| && ids[i] == id;
      }
    }
  }

  /** `getUserInfo`: null exactly for an unknown user; otherwise the row and the user's click count. */
  function UserInfoOf(users: map<string, UserRow>, clicks: seq<ClickRow>, u: string): (r: Option<UserInfo>)
    ensures r.None? <==> u !in users
    ensures r.Some? ==> r.value.id == u && r.value.totalClicks == UserClickCount(clicks, u)
    ensures r.Some? ==> r.value.email == users[u].email && r.value.name == users[u].name
                        && r.value.createdAt == users[u].createdAt
  {
    if u !in users then None
    else Some(UserInfo(u, users[u].email, users[u].name, users[u].createdAt, UserClickCount(clicks, u)))
  }

  // ---------------------------------------------------------------------
  // The store
  // ---------------------------------------------------------------------

  /**
   * The schema's constraints over the two tables, the AUTOINCREMENT
   * counter and the clock: `users.id` is the primary key (the map key),
   * `email` is NOT NULL (a `string`), every click names an existing user,
   * and `clicks.id` is AUTOINCREMENT (positive, increasing, below
   * `nextId`).  No stamp is later than the clock.
   */
  ghost predicate TablesValid(users: map<string, UserRow>, clicks: seq<ClickRow>, nextId: nat, now: nat)
  {
    && 0 < nextId
    && (forall i :: 0 <= i < |clicks| ==> 0 < clicks[i].id < nextId)
    && (forall i :: 0 <= i < |clicks| ==> clicks[i].userId in users && clicks[i].clickedAt <= now)
    && InInsertionOrder(clicks)
    && (forall id :: id in users ==> users[id].createdAt <= now)
  }

  /** Inserting a click of a known user under the next id, stamped now, keeps the tables valid. */
  lemma InsertKeepsTablesValid(users: map<string, UserRow>, clicks: seq<ClickRow>, nextId: nat, now: nat, row: ClickRow)
    requires TablesValid(users, clicks, nextId, now)
    requires row == ClickRow(nextId, row.userId, now) && row.userId in users
    ensures TablesValid(users, clicks + [row], nextId + 1, now)
    ensures forall i :: 0 <= i < |clicks| ==> clicks[i].id < row.id
  {
    AppendKeepsOrder(clicks, row);
  }

  /** The two tables, the AUTOINCREMENT counter and the clock. */
  class Ledger {
    var users: map<string, UserRow>
    var clicks: seq<ClickRow>
    /** The next id AUTOINCREMENT hands out: larger than every id ever used. */
    var nextId: nat
    var now: nat

    /** The schema's constraints hold of the current tables. */
    ghost predicate Valid()
      reads this
    {
      TablesValid(users, clicks, nextId, now)
    }

    /** A freshly created database: both tables empty. */
    constructor ()
      ensures Valid()
      ensures users == map[] && clicks == [] && nextId == 1 && now == 0
    {
      users := map[];
      clicks := [];
      nextId := 1;
      now := 0;
    }

    /** Time passes between requests; the clock never goes back. */
    method Advance(elapsed: nat)
      requires Valid()
      modifies this
      ensures Valid()
      ensures now == old(now) + elapsed
      ensures users == old(users) && clicks == old(clicks) && nextId == old(nextId)
    {
      now := now + elapsed;
    }

    /** `ensureUserExists`: insert the user when the id is not yet there. */
    method EnsureUserExists(userId: string, email: string, name: string)
      requires Valid()
      modifies this
      ensures Valid()
      ensures users == WithUser(old(users), userId, UserRow(email, name, now))
      ensures userId in users
      ensures clicks == old(clicks) && nextId == old(nextId) && now == old(now)
    {
      if userId !in users {
        users := users[userId := UserRow(email, name, now)];
      }
    }

    /**
     * `INSERT INTO clicks (user_id) VALUES (?)` for an existing user: one
     * row under the next AUTOINCREMENT id, stamped now; `lastID` is
     * returned.
     */
    method InsertClick(userId: string) returns (lastId: nat)
      requires Valid() && userId in users
      modifies this`clicks, this`nextId
      ensures Valid()
      ensures lastId == old(nextId)
      ensures clicks == old(clicks) + [ClickRow(lastId, userId, now)]
      ensures forall i :: 0 <= i < |old(clicks)| ==> old(clicks)[i].id < lastId
      ensures UserClickCount(clicks, userId) == old(UserClickCount(clicks, userId)) + 1
      ensures forall v :: v != userId ==> ClicksOf(clicks, v) == old(ClicksOf(clicks, v))
      ensures nextId == old(nextId) + 1
    {
      var row := ClickRow(nextId, userId, now);
      InsertKeepsTablesValid(users, clicks, nextId, now, row);
      AppendTouchesOnlyOwner(clicks, row);
      lastId := nextId;
      clicks, nextId := clicks + [row], nextId + 1;
    }

    /**
     * `recordClick`: make sure the user exists, then insert one click for
     * them under a fresh id.
     */
    method RecordClick(userId: string, email: string, name: string) returns (receipt: ClickReceipt)
      requires Valid()
      modifies this
      ensures Valid()
      ensures receipt == ClickReceipt(old(nextId), userId, now)
      ensures users == WithUser(old(users), userId, UserRow(email, name, now))
      ensures clicks == old(clicks) + [ClickRow(receipt.clickId, userId, now)]
      ensures forall i :: 0 <= i < |old(clicks)| ==> old(clicks)[i].id < receipt.clickId
      ensures userId in users
      ensures UserClickCount(clicks, userId) == old(UserClickCount(clicks, userId)) + 1
      ensures forall v :: v != userId ==> ClicksOf(clicks, v) == old(ClicksOf(clicks, v))
      ensures nextId == old(nextId) + 1 && now == old(now)
    {
      ghost var before := clicks;
      EnsureUserExists(userId, email, name);
      assert clicks == before;
      var clickId := InsertClick(userId);
      assert UserClickCount(clicks, userId) == UserClickCount(before, userId) + 1;
      assert forall v :: v != userId ==> ClicksOf(clicks, v) == ClicksOf(before, v);
      receipt := ClickReceipt(clickId, userId, now);
    }

    /**
     * `deleteUserClicks`: delete every click of the user and report how
     * many rows went.  The user row stays.
     */
    method DeleteUserClicks(userId: string) returns (deleted: nat)
      requires Valid()
      modifies this
      ensures Valid()
      ensures clicks == RemoveClicksOf(old(clicks), userId)
      ensures deleted == old(UserClickCount(clicks, userId))
      ensures deleted == |old(clicks)| - |clicks|
      ensures UserClickCount(clicks, userId) == 0
      ensures forall v :: v != userId ==> ClicksOf(clicks, v) == old(ClicksOf(clicks, v))
      ensures users == old(users) && nextId == old(nextId) && now == old(now)
    {
      var before := clicks;
      RemoveKeepsOrder(clicks, userId);
      clicks := RemoveClicksOf(clicks, userId);
      deleted := |before| - |clicks|;
      CountZeroIffNoClicks(clicks, userId);
      forall v | v != userId
        ensures ClicksOf(clicks, v) == ClicksOf(before, v)
      {
        RemoveKeepsOthers(before, userId, v);
      }
      forall i | 0 <= i < |clicks|
        ensures 0 < clicks[i].id < nextId && clicks[i].userId in users && clicks[i].clickedAt <= now
      {
        assert clicks[i] in before;
      }
    }
  }

  // ---------------------------------------------------------------------
  // Properties of the ledger as a whole
  // ---------------------------------------------------------------------

  /** A user with no row has no clicks, as long as every click names an existing user. */
  lemma UnknownUserHasNoClicks(users: map<string, UserRow>, clicks: seq<ClickRow>, u: string)
    requires forall i :: 0 <= i < |clicks| ==> clicks[i].userId in users
    requires u !in users
    ensures UserClickCount(clicks, u) == 0
    ensures UserInfoOf(users, clicks, u) == None
  {
    CountZeroIffNoClicks(clicks, u);
  }

  /** With two users, every click belongs to one of them, so the counts add up to the table size. */
  lemma {:induction false} TwoUserPartition(clicks: seq<ClickRow>, a: string, b: string)
    requires a != b
    requires forall i :: 0 <= i < |clicks| ==> clicks[i].userId == a || clicks[i].userId == b
    ensures |clicks| == UserClickCount(clicks, a) + UserClickCount(clicks, b)
  {
    if clicks != [] {
      var init, last := clicks[..|clicks| - 1], clicks[|clicks| - 1];
      assert clicks == init + [last];
      TwoUserPartition(init, a, b);
      CountAfterAppend(init, last, a);
      CountAfterAppend(init, last, b);
    }
  }

  /** The leader's count is some user's own count. */
  lemma LeaderIsAUser(users: map<string, UserRow>, clicks: seq<ClickRow>)
    requires |users| > 0
    ensures exists id :: id in users && GlobalStatsOf(users, clicks).topUsers[0].clicks == UserClickCount(clicks, id)
  {
    var ids := TopUserIds(users, clicks);
    TopIdsAreUsers(users, ids);
    assert GlobalStatsOf(users, clicks).topUsers == TopUserRows(users, clicks, ids);
    assert ids[0] in users;
  }

  /** Two users with 5 and 2 clicks: 7 clicks, 2 users, and the leader has 5. */
  lemma GlobalStatsTwoUsers(users: map<string, UserRow>, clicks: seq<ClickRow>, a: string, b: string)
    requires users.Keys == {a, b} && a != b
    requires forall i :: 0 <= i < |clicks| ==> clicks[i].userId in users
    requires UserClickCount(clicks, a) == 5 && UserClickCount(clicks, b) == 2
    ensures GlobalStatsOf(users, clicks).totalClicks == 7
    ensures GlobalStatsOf(users, clicks).totalUsers == 2
    ensures GlobalStatsOf(users, clicks).topUsers[0].clicks == 5
  {
    assert |users| == |users.Keys| == 2;
    forall i | 0 <= i < |clicks|
      ensures clicks[i].userId == a || clicks[i].userId == b
    {
      assert clicks[i].userId in users.Keys;
    }
    TwoUserPartition(clicks, a, b);
    var top := GlobalStatsOf(users, clicks).topUsers;
    assert a in users;
    assert top[0].clicks >= 5;
    LeaderIsAUser(users, clicks);
    var id :| id in users && top[0].clicks == UserClickCount(clicks, id);
    assert id in users.Keys;
  }

  /** User "u1" clicks once: one row appended, stamped with the next id and the current time. */
  method ClickAsU1(ledger: Ledger)
    requires ledger.Valid()
    modifies ledger
    ensures ledger.Valid()
    ensures ledger.clicks == old(ledger.clicks) + [ClickRow(old(ledger.nextId), "u1", old(ledger.now))]
    ensures ledger.nextId == old(ledger.nextId) + 1 && ledger.now == old(ledger.now)
  {
    var receipt := ledger.RecordClick("u1", "u1@example.com", "One");
  }

  /** A fresh ledger after user "u1" clicks at times 0, 1 and 2. */
  method ClickThreeTimes() returns (ledger: Ledger)
    ensures fresh(ledger) && ledger.Valid()
    ensures ledger.clicks == [ClickRow(1, "u1", 0), ClickRow(2, "u1", 1), ClickRow(3, "u1", 2)]
  {
    ledger := new Ledger();
    ClickAsU1(ledger);
    ledger.Advance(1);
    ClickAsU1(ledger);
    ledger.Advance(1);
    ClickAsU1(ledger);
  }

  /**
   * Three clicks of one user, then the queries and the logout delete:
   * the count is 3, a history of 2 holds the two newest clicks newest
   * first, the delete reports 3 and leaves the count at 0.
   */
  method ThreeClicksScenario() returns (count: nat, history: seq<HistoryEntry>, deleted: nat, after: nat)
    ensures count == 3
    ensures history == [HistoryEntry(3, 2), HistoryEntry(2, 1)]
    ensures deleted == 3
    ensures after == 0
  {
    var ledger := ClickThreeTimes();
    var a, b, c := ClickRow(1, "u1", 0), ClickRow(2, "u1", 1), ClickRow(3, "u1", 2);
    ThreeOfOneUser(a, b, c);
    HistoryEntriesOfThree(a, b, c);
    count := UserClickCount(ledger.clicks, "u1");
    history := UserClickHistory(ledger.clicks, "u1", 2);
    deleted := ledger.DeleteUserClicks("u1");
    after := UserClickCount(ledger.clicks, "u1");
  }
}
