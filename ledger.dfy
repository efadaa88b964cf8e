/**
 * The `users` and `reports` tables of the SQLite store and the operations on them:
 * `ensureUserByTelegram`, `addReport` with its repeat-score query, `summaryForUser`
 * and `globalSummary`.
 *
 * The tables are sequences in insertion (rowid) order. A query
 * `... WHERE user_id = ? ORDER BY created_at DESC LIMIT n` is the first `n` of the
 * stable descending sort of the matching rows, so rows with equal timestamps are
 * assumed to come in insertion order (SQLite does not promise any order for them).
 * Identifiers come from a counter instead of `uuidv4`, and the
 * clock is a parameter.
 */
module Ledger {
  import opened Wrappers
  import opened JsText
  import opened Sorting
  import opened Analytics

  type Id = nat

  /** A row of `users`; `None` is SQL `NULL` (or JavaScript `null`/`undefined`). */
  datatype User = User(
    id: Id,
    username: Option<string>,
    displayName: Option<string>,
    telegramId: string,
    joinedAt: int)

  /** A row of `reports`; `suspicious` is the stored integer flag. */
  datatype Report = Report(
    id: Id,
    userId: Id,
    text: string,
    createdAt: int,
    taskType: TaskType,
    length: nat,
    suspicious: nat,
    repeatScore: real)

  /** The failure of an insert into `users`: the `username UNIQUE` constraint. */
  datatype DbError = UniqueUsername

  /** How many rows the per-user summary reads. */
  const SummaryLimit: nat := 1000
  /** How many rows the global summary reads. */
  const GlobalLimit: nat := 1000

  // ---------------------------------------------------------------------------
  // Queries
  // ---------------------------------------------------------------------------

  /** `value || null` for an optional string: the empty string is stored as `NULL`. */
  function NullIfFalsy(v: Option<string>): (r: Option<string>)
    ensures r.Some? <==> v.Some? && v.value != []
    ensures r.Some? ==> r == v
  {
    if v == Some([]) then None else v
  }

  /** `SELECT * FROM users WHERE telegram_id = ?`: the first user with that id. */
  function FindByTelegram(us: seq<User>, telegramId: string): (r: Option<User>)
    ensures r.Some? ==> r.value in us && r.value.telegramId == telegramId
    ensures r.None? <==> forall u :: u in us ==> u.telegramId != telegramId
  {
    if us == [] then None
    else if us[0].telegramId == telegramId then Some(us[0])
    else FindByTelegram(us[1..], telegramId)
  }

  /** Whether inserting `username` would violate `username UNIQUE`: a non-`NULL`
      value that some row already holds (`NULL`s never clash). */
  predicate UsernameTaken(us: seq<User>, username: Option<string>) {
    username.Some? && exists i :: 0 <= i < |us| && us[i].username == username
  }

  /** An inserted user is what a later lookup by its Telegram id finds. */
  lemma {:induction false} FindAfterInsert(us: seq<User>, u: User)
    requires FindByTelegram(us, u.telegramId).None?
    ensures FindByTelegram(us + [u], u.telegramId) == Some(u)
    decreases |us|
  {
    if us == [] {
      assert us + [u] == [u];
    } else {
      assert (us + [u])[1..] == us[1..] + [u];
      FindAfterInsert(us[1..], u);
    }
  }

  function CreatedAt(r: Report): int { r.createdAt }

  /** The first `n` elements, or all of them when there are fewer (`LIMIT n`). */
  function Take<T>(s: seq<T>, n: nat): (r: seq<T>)
    ensures |r| <= n && |r| <= |s|
    ensures |r| == |s| || |r| == n
    ensures r == s[..|r|]
  {
    if |s| <= n then s else s[..n]
  }

  /** `ORDER BY created_at DESC LIMIT n`. */
  function Newest(rs: seq<Report>, n: nat): (r: seq<Report>)
    ensures |r| <= n && |r| <= |rs|
  {
    Take(SortDescBy(rs, CreatedAt), n)
  }

  /** `WHERE user_id = ?`, in table order. */
  function OfUser(rs: seq<Report>, userId: Id): (r: seq<Report>)
    ensures |r| <= |rs|
    ensures forall x :: x in r <==> x in rs && x.userId == userId
  {
    if rs == [] then []
    else
      var rest := OfUser(rs[1..], userId);
      assert forall x :: x in rs <==> x == rs[0] || x in rs[1..];
      if rs[0].userId == userId then [rs[0]] + rest else rest
  }

  /** `WHERE user_id = ?` keeps every row of the user as often as the table holds it
      and no other row. */
  lemma {:induction false} OfUserMultiset(rs: seq<Report>, userId: Id)
    ensures multiset(OfUser(rs, userId)) <= multiset(rs)
    ensures forall x: Report :: x.userId == userId ==> multiset(OfUser(rs, userId))[x] == multiset(rs)[x]
  {
    if rs != [] {
      var rest := OfUser(rs[1..], userId);
      OfUserMultiset(rs[1..], userId);
      assert multiset(rs) == multiset{rs[0]} + multiset(rs[1..]) by {
        assert rs == [rs[0]] + rs[1..];
      }
      if rs[0].userId == userId {
        assert OfUser(rs, userId) == [rs[0]] + rest;
        assert multiset(OfUser(rs, userId)) == multiset{rs[0]} + multiset(rest);
      } else {
        assert OfUser(rs, userId) == rest;
      }
    }
  }

  /** `WHERE user_id = ?` reads the table in order: the rows of a concatenation are
      the rows of the first part followed by those of the second. */
  lemma {:induction false} OfUserAppend(a: seq<Report>, b: seq<Report>, userId: Id)
    ensures OfUser(a + b, userId) == OfUser(a, userId) + OfUser(b, userId)
  {
    if a == [] {
      assert a + b == b;
    } else {
      assert (a + b)[0] == a[0];
      assert (a + b)[1..] == a[1..] + b;
      OfUserAppend(a[1..], b, userId);
    }
  }

  /** `listReportsForUser(userId, n)`. */
  function ReportsForUser(rs: seq<Report>, userId: Id, n: nat): seq<Report> {
    Newest(OfUser(rs, userId), n)
  }

  /** What `listReportsForUser` returns: `n` of the user's own reports, or all of them
      when there are fewer, newest first; no report left out is newer than one
      returned. */
  lemma ReportsForUserSound(rs: seq<Report>, userId: Id, n: nat)
    ensures var r := ReportsForUser(rs, userId, n);
      var own := OfUser(rs, userId);
      && |r| == (if |own| <= n then |own| else n)
      && (forall x :: x in r ==> x in rs && x.userId == userId)
      && multiset(r) <= multiset(own)
      && SortedDescBy(r, CreatedAt)
      && (|own| <= n ==> multiset(r) == multiset(own))
      && (forall x, y :: x in r && y in multiset(own) - multiset(r) ==> y.createdAt <= x.createdAt)
  {
    var own := OfUser(rs, userId);
    var sorted := SortDescBy(own, CreatedAt);
    var r := ReportsForUser(rs, userId, n);
    SortDescBySorted(own, CreatedAt);
    SortDescByPermutation(own, CreatedAt);
    assert r == sorted[..|r|];
    var back := sorted[|r|..];
    assert sorted == r + back;
    assert multiset(own) - multiset(r) == multiset(back);
    PrefixSorted(sorted, CreatedAt, |r|);
    PrefixNewer(sorted, |r|);
    forall x | x in r ensures x in rs && x.userId == userId {
      assert x in multiset(own);
    }
  }

  /** In a list sorted newest first, no row after the first `m` is newer than any of them. */
  lemma PrefixNewer(sorted: seq<Report>, m: nat)
    requires m <= |sorted| && SortedDescBy(sorted, CreatedAt)
    ensures forall x, y :: x in sorted[..m] && y in sorted[m..] ==> y.createdAt <= x.createdAt
  {
    forall x, y | x in sorted[..m] && y in sorted[m..] ensures y.createdAt <= x.createdAt {
      var i :| 0 <= i < m && sorted[..m][i] == x;
      var j :| 0 <= j < |sorted| - m && sorted[m..][j] == y;
      assert CreatedAt(sorted[i]) >= CreatedAt(sorted[m + j]);
    }
  }

  function Texts(rs: seq<Report>): (r: seq<string>)
    ensures |r| == |rs| && forall i :: 0 <= i < |rs| ==> r[i] == rs[i].text
  {
    seq(|rs|, i requires 0 <= i < |rs| => rs[i].text)
  }

  /** `SELECT text FROM reports WHERE user_id = ? ORDER BY created_at DESC LIMIT 5`. */
  function RecentTexts(rs: seq<Report>, userId: Id): (r: seq<string>)
    ensures |r| <= RecentWindow
  {
    Texts(ReportsForUser(rs, userId, RecentWindow))
  }

  /** The stored integer for a boolean detector result. */
  function Flag(b: bool): (n: nat)
    ensures n <= 1 && (n == 1 <==> b)
  {
    if b then 1 else 0
  }

  /** A row as `addReport` writes it: the derived columns agree with its text. */
  predicate ReportOk(r: Report) {
    && r.length == |r.text|
    && r.taskType == ClassifyTask(Some(r.text))
    && r.suspicious == Flag(IsSuspicious(Some(r.text)))
    && 0.0 <= r.repeatScore <= 1.0
  }

  /** The row `addReport` inserts: length, task type and suspicious flag derived from
      the text, next to the repeat score computed beforehand. */
  function Enrich(id: Id, userId: Id, text: string, createdAt: int, score: real): (r: Report)
    requires 0.0 <= score <= 1.0
    ensures ReportOk(r)
    ensures r.id == id && r.userId == userId && r.text == text && r.createdAt == createdAt
    ensures r.repeatScore == score
  {
    Report(id, userId, text, createdAt, ClassifyTask(Some(text)), |text|,
           Flag(IsSuspicious(Some(text))), score)
  }

  // ---------------------------------------------------------------------------
  // summaryForUser
  // ---------------------------------------------------------------------------

  /** `{ count, suspicious_count, avg_length, taskDist }` of `summaryForUser`. */
  datatype UserSummary = UserSummary(
    count: nat,
    suspiciousCount: nat,
    avgLength: real,
    taskDist: map<TaskType, nat>)

  /** `reports.filter(r => r.suspicious).length`. */
  function SuspiciousCount(rs: seq<Report>): (n: nat)
    ensures n <= |rs|
  {
    if rs == [] then 0 else (if rs[0].suspicious != 0 then 1 else 0) + SuspiciousCount(rs[1..])
  }

  function ReportLength(r: Report): int { r.length }

  /** `total / Math.max(1, count)`. */
  function Average(total: int, count: nat): (avg: real)
    ensures count == 0 ==> avg == total as real
    ensures count > 0 ==> avg * count as real == total as real
  {
    var divisor: nat := if count < 1 then 1 else count;
    Share(total, divisor);
    total as real / divisor as real
  }

  /** `taskDist[t] || 0`. */
  function DistGet(d: map<TaskType, nat>, t: TaskType): nat {
    if t in d then d[t] else 0
  }

  /** The `taskDist` object after the loop has seen `rs`. */
  function TaskDist(rs: seq<Report>): map<TaskType, nat> {
    if rs == [] then map[]
    else
      var d := TaskDist(rs[..|rs| - 1]);
      var t := rs[|rs| - 1].taskType;
      d[t := DistGet(d, t) + 1]
  }

  /** The summary of a list of reports, as `summaryForUser` builds it. */
  function SummaryOf(rs: seq<Report>): UserSummary {
    UserSummary(|rs|, SuspiciousCount(rs), Average(SumBy(rs, ReportLength), |rs|), TaskDist(rs))
  }

  function TaskTypes(rs: seq<Report>): (r: seq<TaskType>)
    ensures |r| == |rs| && forall i :: 0 <= i < |rs| ==> r[i] == rs[i].taskType
  {
    seq(|rs|, i requires 0 <= i < |rs| => rs[i].taskType)
  }

  /** The histogram counts every task type as often as it occurs, and has a key
      exactly for the types that occur. */
  lemma {:induction false} TaskDistCounts(rs: seq<Report>, t: TaskType)
    ensures DistGet(TaskDist(rs), t) == multiset(TaskTypes(rs))[t]
    ensures t in TaskDist(rs) <==> t in TaskTypes(rs)
    decreases |rs|
  {
    if rs != [] {
      var init := rs[..|rs| - 1];
      TaskDistCounts(init, t);
      assert TaskTypes(rs) == TaskTypes(init) + [rs[|rs| - 1].taskType];
    }
  }

  function DistSum(d: map<TaskType, nat>): nat {
    DistGet(d, Accounts) + DistGet(d, Chat) + DistGet(d, Transfers) + DistGet(d, Skip)
      + DistGet(d, Other)
  }

  /** The `taskDist` values add up to `count`. */
  lemma {:induction false} TaskDistSum(rs: seq<Report>)
    ensures DistSum(TaskDist(rs)) == |rs|
    decreases |rs|
  {
    if rs != [] {
      TaskDistSum(rs[..|rs| - 1]);
      DistSumBump(TaskDist(rs[..|rs| - 1]), rs[|rs| - 1].taskType);
    }
  }

  lemma DistSumBump(d: map<TaskType, nat>, t: TaskType)
    ensures DistSum(d[t := DistGet(d, t) + 1]) == DistSum(d) + 1
  {
    var d' := d[t := DistGet(d, t) + 1];
    assert forall x :: DistGet(d', x) == DistGet(d, x) + (if x == t then 1 else 0);
  }

  /** The summary's promises: the histogram adds up to the count, at most all reports
      are suspicious, and the average is that of the lengths over the count (so 0
      without reports, by the contract of `Average`). */
  lemma SummaryOfSound(rs: seq<Report>)
    ensures var s := SummaryOf(rs);
      && s.count == |rs|
      && DistSum(s.taskDist) == s.count
      && s.suspiciousCount <= s.count
      && s.avgLength == Average(SumBy(rs, ReportLength), s.count)
      && (s.count == 0 ==> s.avgLength == 0.0)
  {
    TaskDistSum(rs);
  }

  lemma Share(part: int, whole: nat)
    requires 0 < whole
    ensures (part as real / whole as real) * whole as real == part as real
  {
  }

  // ---------------------------------------------------------------------------
  // globalSummary
  // ---------------------------------------------------------------------------

  /** One leaderboard row `{ user_id, count }`. */
  datatype Entry = Entry(userId: Id, count: nat)

  /** `{ usersCount, reportsCount, leaderboard }` of `globalSummary`. */
  datatype GlobalStats = GlobalStats(usersCount: nat, reportsCount: nat, leaderboard: seq<Entry>)

  function EntryCount(e: Entry): int { e.count }

  /** `byUser[id] = (byUser[id] || 0) + 1` on the entries of `byUser` in key-insertion
      order, the order `Object.entries` lists them in. */
  function Bump(es: seq<Entry>, userId: Id): (r: seq<Entry>)
    ensures |r| == |es| || |r| == |es| + 1
  {
    if es == [] then [Entry(userId, 1)]
    else if es[0].userId == userId then [Entry(userId, es[0].count + 1)] + es[1..]
    else [es[0]] + Bump(es[1..], userId)
  }

  /** `(byUser[id] || 0) + 1` adds an entry exactly when the user has none yet. */
  lemma {:induction false} BumpGrows(es: seq<Entry>, userId: Id)
    ensures |Bump(es, userId)| == |es| + 1 <==> forall e :: e in es ==> e.userId != userId
    decreases |es|
  {
    if es != [] {
      assert forall e :: e in es <==> e == es[0] || e in es[1..];
      if es[0].userId != userId {
        BumpGrows(es[1..], userId);
      }
    }
  }

  /** The entries of `byUser` after the loop has seen `rs`. */
  function ByUser(rs: seq<Report>): seq<Entry> {
    if rs == [] then [] else Bump(ByUser(rs[..|rs| - 1]), rs[|rs| - 1].userId)
  }

  function UserIds(rs: seq<Report>): (r: seq<Id>)
    ensures |r| == |rs| && forall i :: 0 <= i < |rs| ==> r[i] == rs[i].userId
  {
    seq(|rs|, i requires 0 <= i < |rs| => rs[i].userId)
  }

  /** The count recorded for `userId`: that of its first entry, or 0. */
  function Lookup(es: seq<Entry>, userId: Id): nat {
    if es == [] then 0 else if es[0].userId == userId then es[0].count else Lookup(es[1..], userId)
  }

  /** 1 for an entry of `userId`, else 0; summed, the number of entries for that user. */
  function IsFor(userId: Id): Entry -> int {
    (e: Entry) => if e.userId == userId then 1 else 0
  }

  lemma {:induction false} BumpLookup(es: seq<Entry>, u: Id, v: Id)
    ensures Lookup(Bump(es, u), v) == Lookup(es, v) + (if u == v then 1 else 0)
    decreases |es|
  {
    if es != [] && es[0].userId != u {
      BumpLookup(es[1..], u, v);
      assert Bump(es, u)[1..] == Bump(es[1..], u);
    }
  }

  lemma {:induction false} BumpSum(es: seq<Entry>, u: Id)
    ensures SumBy(Bump(es, u), EntryCount) == SumBy(es, EntryCount) + 1
    decreases |es|
  {
    if es != [] {
      if es[0].userId == u {
        assert Bump(es, u)[1..] == es[1..];
      } else {
        BumpSum(es[1..], u);
        assert Bump(es, u)[1..] == Bump(es[1..], u);
      }
    } else {
      assert Bump(es, u)[1..] == [];
    }
  }

  /** Bumping adds a new entry exactly when the user had none. */
  lemma {:induction false} BumpEntries(es: seq<Entry>, u: Id, v: Id)
    ensures SumBy(Bump(es, u), IsFor(v))
      == SumBy(es, IsFor(v)) + (if u == v && SumBy(es, IsFor(u)) == 0 then 1 else 0)
    decreases |es|
  {
    if es == [] {
      assert Bump(es, u)[1..] == [];
    } else if es[0].userId == u {
      assert Bump(es, u)[1..] == es[1..];
      assert SumBy(es, IsFor(u)) >= 1 by { SumByNonNegative(es[1..], u); }
    } else {
      BumpEntries(es[1..], u, v);
      assert Bump(es, u)[1..] == Bump(es[1..], u);
    }
  }

  lemma {:induction false} SumByNonNegative(es: seq<Entry>, u: Id)
    ensures SumBy(es, IsFor(u)) >= 0
    decreases |es|
  {
    if es != [] {
      SumByNonNegative(es[1..], u);
    }
  }

  /** The entries of `byUser` count each user's reports, sum to the number of reports
      and hold one entry for each user with a report and none for any other user. */
  lemma {:induction false} ByUserSound(rs: seq<Report>, v: Id)
    ensures Lookup(ByUser(rs), v) == multiset(UserIds(rs))[v]
    ensures SumBy(ByUser(rs), EntryCount) == |rs|
    ensures SumBy(ByUser(rs), IsFor(v)) == (if v in UserIds(rs) then 1 else 0)
    decreases |rs|
  {
    if rs != [] {
      var init := rs[..|rs| - 1];
      var u := rs[|rs| - 1].userId;
      ByUserSound(init, v);
      ByUserSound(init, u);
      BumpLookup(ByUser(init), u, v);
      BumpSum(ByUser(init), u);
      BumpEntries(ByUser(init), u, v);
      assert UserIds(rs) == UserIds(init) + [u];
    }
  }

  /** `leaderboard` after the sort by descending count. */
  function Leaderboard(rs: seq<Report>): seq<Entry> {
    SortDescBy(ByUser(rs), EntryCount)
  }

  /** An entry of a user with a single entry holds the count `Lookup` finds. */
  lemma {:induction false} LookupOfMember(es: seq<Entry>, e: Entry)
    requires e in es && SumBy(es, IsFor(e.userId)) <= 1
    ensures e.count == Lookup(es, e.userId)
    decreases |es|
  {
    if es[0] != e {
      assert e in es[1..];
      if es[0].userId == e.userId {
        MemberCounted(es[1..], e);
        assert false;
      }
      LookupOfMember(es[1..], e);
    }
  }

  lemma {:induction false} MemberCounted(es: seq<Entry>, e: Entry)
    requires e in es
    ensures SumBy(es, IsFor(e.userId)) >= 1
    decreases |es|
  {
    SumByNonNegative(es[1..], e.userId);
    if es[0] != e {
      assert e in es[1..];
      MemberCounted(es[1..], e);
    }
  }

  /** Each leaderboard entry holds the number of reports of its user. */
  lemma LeaderboardCounts(rs: seq<Report>)
    ensures forall e :: e in Leaderboard(rs) ==> e.count == multiset(UserIds(rs))[e.userId]
  {
    SortDescByPermutation(ByUser(rs), EntryCount);
    forall e | e in Leaderboard(rs) ensures e.count == multiset(UserIds(rs))[e.userId] {
      assert e in multiset(ByUser(rs));
      ByUserSound(rs, e.userId);
      LookupOfMember(ByUser(rs), e);
    }
  }

  /** The leaderboard's promises: each entry holds its user's number of reports, the
      counts sum to the number of reports read, there is one entry per distinct user
      id, and the entries are ordered by non-increasing count. */
  lemma LeaderboardSound(rs: seq<Report>, v: Id)
    ensures forall e :: e in Leaderboard(rs) ==> e.count == multiset(UserIds(rs))[e.userId]
    ensures SumBy(Leaderboard(rs), EntryCount) == |rs|
    ensures SumBy(Leaderboard(rs), IsFor(v)) == (if v in UserIds(rs) then 1 else 0)
    ensures SortedDescBy(Leaderboard(rs), EntryCount)
  {
    LeaderboardCounts(rs);
    ByUserSound(rs, v);
    SortDescByPermutation(ByUser(rs), EntryCount);
    SumByPermutation(ByUser(rs), Leaderboard(rs), EntryCount);
    SumByPermutation(ByUser(rs), Leaderboard(rs), IsFor(v));
    SortDescBySorted(ByUser(rs), EntryCount);
  }

  /** `calcRepeatScore` on the history rows it has read. */
  method RepeatScore(recent: seq<string>, text: string) returns (score: real)
    ensures score == RepeatRatio(recent, text)
  {
    if |recent| == 0 {
      return 0.0;
    }
    var base := NormalizeText(Some(text));
    var matches := CountRepeats(recent, base);
    score := matches as real / |recent| as real;
  }

  /** The loop of `calcRepeatScore`: skips empty texts and counts those whose
      normalised form is `base`. */
  method CountRepeats(recent: seq<string>, base: string) returns (matches: nat)
    ensures matches == CountMatches(recent, base)
  {
    matches := 0;
    var i := 0;
    while i < |recent|
      invariant 0 <= i <= |recent|
      invariant matches == CountMatches(recent[..i], base)
    {
      CountMatchesStep(recent, i, base);
      var rep := false;
      if recent[i] != [] {
        var t := NormalizeText(Some(recent[i]));
        rep := t == base;
      }
      assert rep == IsRepeat(recent[i], base);
      if rep {
        matches := matches + 1;
      }
      i := i + 1;
    }
    PrefixWhole(recent);
  }

  // ---------------------------------------------------------------------------
  // The store
  // ---------------------------------------------------------------------------

  /** Ids below the next fresh one, no two rows sharing an id, and no two sharing a
      non-null username (`username UNIQUE`). No two rows share a Telegram id either:
      the schema does not demand this, but it holds while every call of
      `ensureUserByTelegram` is one step. */
  ghost predicate UsersOk(us: seq<User>, nextId: nat) {
    && (forall i :: 0 <= i < |us| ==> us[i].id < nextId)
    && (forall i, j :: 0 <= i < j < |us| ==> us[i].id != us[j].id)
    && (forall i, j :: 0 <= i < j < |us| ==> us[i].telegramId != us[j].telegramId)
    && (forall i, j :: 0 <= i < j < |us| && us[i].username.Some? ==> us[i].username != us[j].username)
  }

  ghost predicate ReportsOk(rs: seq<Report>, nextId: nat) {
    && (forall i :: 0 <= i < |rs| ==> rs[i].id < nextId && ReportOk(rs[i]))
    && (forall i, j :: 0 <= i < j < |rs| ==> rs[i].id != rs[j].id)
  }

  lemma AppendUser(us: seq<User>, nextId: nat, u: User)
    requires UsersOk(us, nextId) && u.id == nextId
    requires FindByTelegram(us, u.telegramId).None? && !UsernameTaken(us, u.username)
    ensures UsersOk(us + [u], nextId + 1)
  {
    var us' := us + [u];
    forall i, j | 0 <= i < j < |us'| ensures us'[i].telegramId != us'[j].telegramId {
      if j == |us| {
        assert us'[i] in us;
      }
    }
  }

  lemma AppendReport(rs: seq<Report>, nextId: nat, r: Report)
    requires ReportsOk(rs, nextId) && r.id == nextId && ReportOk(r)
    ensures ReportsOk(rs + [r], nextId + 1)
  {
    var rs' := rs + [r];
    forall i | 0 <= i < |rs'| ensures rs'[i].id < nextId + 1 && ReportOk(rs'[i]) {
      if i < |rs| {
        assert rs'[i] == rs[i];
      }
    }
    forall i, j | 0 <= i < j < |rs'| ensures rs'[i].id != rs'[j].id {
      assert rs'[i] == rs[i];
      if j < |rs| {
        assert rs'[j] == rs[j];
      }
    }
  }

  class Store {
    var users: seq<User>
    var reports: seq<Report>
    var nextId: nat

    ghost predicate Valid()
      reads this
    {
      UsersOk(users, nextId) && ReportsOk(reports, nextId)
    }

    constructor ()
      ensures Valid() && users == [] && reports == []
    {
      users := [];
      reports := [];
      nextId := 0;
    }

    /** `ensureUserByTelegram`: the stored user with that Telegram id if there is one,
        else a new user joined at `now`. The insert stores empty names as `NULL` but
        returns the names as given; a non-`NULL` username that is already taken makes
        the insert, and so the call, fail. */
    method EnsureUserByTelegram(telegramId: string, username: Option<string>,
                                displayName: Option<string>, now: int)
      returns (res: Result<User, DbError>)
      requires Valid()
      modifies this
      ensures Valid() && reports == old(reports)
      ensures FindByTelegram(old(users), telegramId).Some? ==>
        res == Ok(FindByTelegram(old(users), telegramId).value)
        && users == old(users) && nextId == old(nextId)
      ensures (FindByTelegram(old(users), telegramId).None?
               && UsernameTaken(old(users), NullIfFalsy(username))) ==>
        res == Err(UniqueUsername) && users == old(users) && nextId == old(nextId)
      ensures (FindByTelegram(old(users), telegramId).None?
               && !UsernameTaken(old(users), NullIfFalsy(username))) ==>
        res == Ok(User(old(nextId), username, displayName, telegramId, now))
        && users == old(users)
          + [User(old(nextId), NullIfFalsy(username), NullIfFalsy(displayName), telegramId, now)]
        && nextId == old(nextId) + 1
      ensures res.Ok? ==> FindByTelegram(users, telegramId).Some?
    {
      var existing := FindByTelegram(users, telegramId);
      if existing.Some? {
        return Ok(existing.value);
      }
      var id := nextId;
      var stored := User(id, NullIfFalsy(username), NullIfFalsy(displayName), telegramId, now);
      if UsernameTaken(users, stored.username) {
        return Err(UniqueUsername);
      }
      AppendUser(users, nextId, stored);
      FindAfterInsert(users, stored);
      users := users + [stored];
      nextId := nextId + 1;
      res := Ok(User(id, username, displayName, telegramId, now));
    }

    /** `calcRepeatScore`: the share of the user's last five report texts that equal the
        candidate after normalisation, empty texts never matching; 0 without history. */
    method CalcRepeatScore(userId: Id, text: string) returns (score: real)
      ensures score == RepeatRatio(RecentTexts(reports, userId), text)
      ensures 0.0 <= score <= 1.0
    {
      var recent := RecentTexts(reports, userId);
      score := RepeatScore(recent, text);
    }

    /** `addReport`: scores the text against the history as it was before the insert,
        then appends exactly one row whose derived columns come from its text. */
    method AddReport(userId: Id, text: string, createdAt: int) returns (r: Report)
      requires Valid()
      modifies this
      ensures Valid() && users == old(users) && nextId == old(nextId) + 1
      ensures reports == old(reports) + [r]
      ensures r == Enrich(old(nextId), userId, text, createdAt,
                          RepeatRatio(RecentTexts(old(reports), userId), text))
      ensures forall x :: x in old(reports) ==> x.id != r.id
    {
      var score := CalcRepeatScore(userId, text);
      r := Enrich(nextId, userId, text, createdAt, score);
      AppendReport(reports, nextId, r);
      reports := reports + [r];
      nextId := nextId + 1;
    }

    /** `summaryForUser` without the day buckets and the percentage indices: the count,
        suspicious count, average length and task histogram of the user's newest 1000
        reports. */
    method SummaryForUser(userId: Id) returns (s: UserSummary)
      ensures s == SummaryOf(ReportsForUser(reports, userId, SummaryLimit))
      ensures DistSum(s.taskDist) == s.count && s.suspiciousCount <= s.count
      ensures s.count == 0 ==> s.avgLength == 0.0
    {
      var rs := ReportsForUser(reports, userId, SummaryLimit);
      var count := |rs|;
      var dist: map<TaskType, nat> := map[];
      var i := 0;
      while i < |rs|
        invariant 0 <= i <= |rs|
        invariant dist == TaskDist(rs[..i])
      {
        var t := rs[i].taskType;
        dist := dist[t := DistGet(dist, t) + 1];
        assert rs[..i + 1][..i] == rs[..i];
        i := i + 1;
      }
      assert rs[..i] == rs;
      s := UserSummary(count, SuspiciousCount(rs), Average(SumBy(rs, ReportLength), count), dist);
      SummaryOfSound(rs);
    }

    /** `globalSummary`: the number of users, the number of reports read (the newest
        1000) and the leaderboard of report counts per user, sorted in place by
        descending count. */
    method GlobalSummary() returns (g: GlobalStats)
      ensures g.usersCount == |users|
      ensures g.reportsCount == |Newest(reports, GlobalLimit)|
      ensures g.leaderboard == Leaderboard(Newest(reports, GlobalLimit))
      ensures SumBy(g.leaderboard, EntryCount) == g.reportsCount
      ensures SortedDescBy(g.leaderboard, EntryCount)
      ensures forall e :: e in g.leaderboard ==>
        e.count == multiset(UserIds(Newest(reports, GlobalLimit)))[e.userId]
      ensures forall v ::
        SumBy(g.leaderboard, IsFor(v)) == (if v in UserIds(Newest(reports, GlobalLimit)) then 1 else 0)
    {
      var rs := Newest(reports, GlobalLimit);
      var byUser: seq<Entry> := [];
      var i := 0;
      while i < |rs|
        invariant 0 <= i <= |rs|
        invariant byUser == ByUser(rs[..i])
      {
        byUser := Bump(byUser, rs[i].userId);
        assert rs[..i + 1][..i] == rs[..i];
        i := i + 1;
      }
      assert rs[..i] == rs;
      var board := new Entry[|byUser|](k requires 0 <= k < |byUser| => byUser[k]);
      assert board[..] == byUser;
      SortDescInPlace(board, EntryCount);
      LeaderboardSound(rs, 0);
      forall v ensures SumBy(Leaderboard(rs), IsFor(v)) == (if v in UserIds(rs) then 1 else 0) {
        LeaderboardSound(rs, v);
      }
      g := GlobalStats(|users|, |rs|, board[..]);
    }
  }
}
