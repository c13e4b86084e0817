/**
 * `UserPasswordHistoryRepository`: an append-only log of the password hashes a
 * user has had, read back newest first, at most `limit` (by default 5) at a time.
 */
module HistoryStore {
  import opened Wrappers
  import opened Entities

  /** `PASSWORD_HISTORY_LIMIT` */
  const PasswordHistoryLimit: nat := 5

  /** The entries of one user, in log order. */
  function ForUser(s: seq<HistoryRow>, userId: Id): (r: seq<HistoryRow>)
    ensures |r| <= |s|
    ensures forall k :: 0 <= k < |r| ==> r[k].userId == userId
    ensures multiset(r) <= multiset(s)
    ensures forall k :: 0 <= k < |s| && s[k].userId == userId ==> s[k] in r
  {
    if s == [] then []
    else
      var rest := ForUser(s[..|s| - 1], userId);
      assert s == s[..|s| - 1] + [s[|s| - 1]];
      if s[|s| - 1].userId == userId then rest + [s[|s| - 1]] else rest
  }

  predicate SortedNewestFirst(s: seq<HistoryRow>) {
    forall i, j :: 0 <= i < j < |s| ==> s[i].createdAt >= s[j].createdAt
  }

  /** Places `x` before the first entry that is not newer than it. */
  function InsertNewestFirst(x: HistoryRow, s: seq<HistoryRow>): (r: seq<HistoryRow>)
    requires SortedNewestFirst(s)
    ensures SortedNewestFirst(r)
    ensures multiset(r) == multiset(s) + multiset{x}
    ensures |r| == |s| + 1
    ensures forall k :: 0 <= k < |r| ==> r[k] == x || r[k] in s
  {
    if s == [] || x.createdAt >= s[0].createdAt then [x] + s
    else
      var rest := InsertNewestFirst(x, s[1..]);
      HeadBoundsInsertion(x, s, rest);
      assert s == [s[0]] + s[1..];
      [s[0]] + rest
  }

  /** The head of a sorted log, older than nothing after it and newer than `x`, is newer than all of `rest`. */
  lemma HeadBoundsInsertion(x: HistoryRow, s: seq<HistoryRow>, rest: seq<HistoryRow>)
    requires SortedNewestFirst(s) && |s| > 0 && x.createdAt < s[0].createdAt
    requires forall k :: 0 <= k < |rest| ==> rest[k] == x || rest[k] in s[1..]
    ensures forall k :: 0 <= k < |rest| ==> s[0].createdAt >= rest[k].createdAt
  {
    forall k | 0 <= k < |rest| ensures s[0].createdAt >= rest[k].createdAt {
      if rest[k] != x {
        var j :| 0 <= j < |s[1..]| && s[1..][j] == rest[k];
        assert s[j + 1] == rest[k];
      }
    }
  }

  /**
   * `orderBy: { createdAt: 'desc' }`. Entries with the same timestamp keep the
   * later-logged one first.
   */
  function SortNewestFirst(s: seq<HistoryRow>): (r: seq<HistoryRow>)
    ensures SortedNewestFirst(r)
    ensures multiset(r) == multiset(s)
    ensures |r| == |s|
  {
    if s == [] then []
    else
      assert s == s[..|s| - 1] + [s[|s| - 1]];
      InsertNewestFirst(s[|s| - 1], SortNewestFirst(s[..|s| - 1]))
  }

  /** `take: n` */
  function Take<T>(s: seq<T>, n: nat): (r: seq<T>)
    ensures |r| == if n < |s| then n else |s|
    ensures r == s[..|r|]
  {
    if n < |s| then s[..n] else s
  }

  /** `getPasswordHistoryByUserId(userId, limit)` over the log `s`. */
  function History(s: seq<HistoryRow>, userId: Id, limit: Option<nat>): (r: seq<HistoryRow>)
    ensures |r| <= limit.GetOr(PasswordHistoryLimit)
    ensures forall k :: 0 <= k < |r| ==> r[k].userId == userId && r[k] in s
    ensures SortedNewestFirst(r)
  {
    var all := SortNewestFirst(ForUser(s, userId));
    var r := Take(all, limit.GetOr(PasswordHistoryLimit));
    assert forall k :: 0 <= k < |r| ==> r[k] in multiset(ForUser(s, userId));
    r
  }

  /**
   * The history is the newest `limit` entries of the user: no entry of that user
   * that is left out is newer than one that is returned, and when fewer than
   * `limit` come back, every entry of the user does.
   */
  lemma {:induction false} HistoryIsNewest(s: seq<HistoryRow>, userId: Id, limit: Option<nat>, e: HistoryRow)
    requires e in s && e.userId == userId
    ensures var r := History(s, userId, limit);
            e in r || (|r| == limit.GetOr(PasswordHistoryLimit) && forall k :: 0 <= k < |r| ==> r[k].createdAt >= e.createdAt)
  {
    var mine := ForUser(s, userId);
    var all := SortNewestFirst(mine);
    var n := limit.GetOr(PasswordHistoryLimit);
    var r := Take(all, n);
    assert e in multiset(all);
    var j :| 0 <= j < |all| && all[j] == e;
    if j < |r| {
      assert r[j] == e;
    } else {
      assert |r| == n;
    }
  }

  lemma {:induction false} ForUserAppend(s: seq<HistoryRow>, x: HistoryRow, userId: Id)
    ensures ForUser(s + [x], userId) == if x.userId == userId then ForUser(s, userId) + [x] else ForUser(s, userId)
  {
    assert (s + [x])[..|s + [x]| - 1] == s;
  }

  class UserPasswordHistoryRepository {
    var entries: seq<HistoryRow>

    constructor ()
      ensures entries == []
    {
      entries := [];
    }

    function GetPasswordHistoryByUserId(userId: Id, limit: Option<nat>): (r: seq<HistoryRow>)
      reads this
      ensures r == History(entries, userId, limit)
    {
      History(entries, userId, limit)
    }

    /** `addPasswordHistory(tx, userId, passwordHash)`: appends one entry, keeps every older one. */
    method AddPasswordHistory(id: Id, userId: Id, passwordHash: string, now: Timestamp) returns (r: HistoryRow)
      modifies this
      ensures r == HistoryRow(id, userId, passwordHash, now)
      ensures entries == old(entries) + [r]
    {
      r := HistoryRow(id, userId, passwordHash, now);
      entries := entries + [r];
    }
  }

  /**
   * An entry appended no earlier than the user's other entries is the first one the
   * history returns (the database clock does not go backwards).
   */
  lemma {:induction false} AppendedIsNewest(s: seq<HistoryRow>, x: HistoryRow, limit: Option<nat>)
    requires forall k :: 0 <= k < |s| && s[k].userId == x.userId ==> s[k].createdAt <= x.createdAt
    requires limit.GetOr(PasswordHistoryLimit) >= 1
    ensures History(s + [x], x.userId, limit)[0] == x
  {
    ForUserAppend(s, x, x.userId);
    var mine := ForUser(s, x.userId);
    var sorted := SortNewestFirst(mine);
    var ext := mine + [x];
    assert ext[..|ext| - 1] == mine;
    assert SortNewestFirst(ext) == InsertNewestFirst(x, sorted);
    if sorted != [] {
      assert sorted[0] in multiset(mine);
      assert sorted[0] in mine;
      var k :| 0 <= k < |s| && s[k] == sorted[0];
    }
  }
}
