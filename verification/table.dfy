/**
 * The `fileInfo` table as service/file_service.go sees it: its rows in
 * insertion order, the rows each query selects, and the status update the
 * service issues. Every function here gives the meaning of one SQL
 * statement of that file; the service methods are stated in terms of them.
 */
module Table {
  import opened Wrappers
  import opened Models

  /** `id` is the primary key: no two rows share it. */
  predicate UniqueIds(rows: seq<FileInfo>)
  {
    forall i, j :: 0 <= i < j < |rows| ==> rows[i].id != rows[j].id
  }

  /** Every status is 0 (active) or 1 (removed). */
  predicate StatusBinary(rows: seq<FileInfo>)
  {
    forall i :: 0 <= i < |rows| ==> rows[i].status == ACTIVE || rows[i].status == REMOVED
  }

  predicate WellFormed(rows: seq<FileInfo>)
  {
    UniqueIds(rows) && StatusBinary(rows)
  }

  /** The ids present in the table. */
  function Ids(rows: seq<FileInfo>): set<nat>
  {
    set r | r in rows :: r.id
  }

  /** A row after `status` has been set to 1. */
  function Removed(r: FileInfo): FileInfo
  {
    r.(status := REMOVED)
  }

  /**
   * Row by row, `after` is `before` with some active rows moved to status 1:
   * nothing else changes, and no status goes back to 0.
   */
  predicate StatusOnlyRises(before: seq<FileInfo>, after: seq<FileInfo>)
  {
    |after| == |before| &&
    forall k :: 0 <= k < |before| ==>
      after[k] == before[k] || (before[k].status == ACTIVE && after[k] == Removed(before[k]))
  }

  /** `UPDATE fileInfo SET status = 1 WHERE id IN ids`, keeping the row order. */
  function SetRemoved(rows: seq<FileInfo>, ids: set<nat>): (out: seq<FileInfo>)
    ensures |out| == |rows|
    ensures forall k :: 0 <= k < |rows| ==>
      out[k] == if rows[k].id in ids then Removed(rows[k]) else rows[k]
  {
    if rows == [] then []
    else [if rows[0].id in ids then Removed(rows[0]) else rows[0]] + SetRemoved(rows[1..], ids)
  }

  /** The status update keeps the table well formed and only ever raises a status. */
  lemma SetRemovedOnlyRises(rows: seq<FileInfo>, ids: set<nat>)
    requires WellFormed(rows)
    ensures WellFormed(SetRemoved(rows, ids))
    ensures StatusOnlyRises(rows, SetRemoved(rows, ids))
    ensures Ids(SetRemoved(rows, ids)) == Ids(rows)
  {
    var out := SetRemoved(rows, ids);
    forall x | x in Ids(out)
      ensures x in Ids(rows)
    {
      var r :| r in out && r.id == x;
      var k :| 0 <= k < |out| && out[k] == r;
      assert rows[k].id == x;
    }
    forall x | x in Ids(rows)
      ensures x in Ids(out)
    {
      var r :| r in rows && r.id == x;
      var k :| 0 <= k < |rows| && rows[k] == r;
      assert out[k].id == x;
    }
  }

  /**
   * Updating by the id of one row of a keyed table (`Model(&row).Update`)
   * changes that row and no other.
   */
  lemma SetRemovedOne(rows: seq<FileInfo>, k: nat)
    requires UniqueIds(rows) && k < |rows|
    ensures SetRemoved(rows, {rows[k].id}) == rows[k := Removed(rows[k])]
  {
  }

  /** Two status updates in a row are one update over both id sets. */
  lemma SetRemovedTwice(rows: seq<FileInfo>, a: set<nat>, b: set<nat>)
    ensures SetRemoved(SetRemoved(rows, a), b) == SetRemoved(rows, a + b)
  {
  }

  /**
   * Which active rows a sweep selects: the ids listed in a delete request,
   * or an upload date strictly before the expiry instant.
   */
  datatype Criterion = ByIds(ids: set<nat>) | OlderThan(expiry: int)

  /**
   * The WHERE clause of the sweep queries: `id IN (…) AND status = 0`, or
   * `status = 0 AND uploadDate < expiry`.
   */
  predicate Picks(c: Criterion, r: FileInfo)
  {
    r.status == ACTIVE &&
    match c
    case ByIds(ids) => r.id in ids
    case OlderThan(expiry) => r.uploadDate < expiry
  }

  /** The rows a sweep query returns, in table order. */
  function Query(rows: seq<FileInfo>, c: Criterion): (found: seq<FileInfo>)
    ensures |found| <= |rows|
    ensures forall r :: r in found <==> r in rows && Picks(c, r)
  {
    if rows == [] then []
    else
      assert rows == [rows[0]] + rows[1..];
      (if Picks(c, rows[0]) then [rows[0]] else []) + Query(rows[1..], c)
  }

  /** A query over a keyed table returns no id twice. */
  lemma {:induction false} QueryUniqueIds(rows: seq<FileInfo>, c: Criterion)
    requires UniqueIds(rows)
    ensures UniqueIds(Query(rows, c))
  {
    if rows != [] {
      var rest := Query(rows[1..], c);
      QueryUniqueIds(rows[1..], c);
      if Picks(c, rows[0]) {
        forall j | 0 <= j < |rest|
          ensures rest[j].id != rows[0].id
        {
          assert rest[j] in rest;
          var k :| 0 <= k < |rows[1..]| && rows[1..][k] == rest[j];
          assert rows[k + 1] == rest[j];
        }
      }
    }
  }

  /**
   * A selected row whose file removal does not fail: `os.Remove` either
   * deletes the file or finds it already gone, and `fails` holds the paths
   * whose removal reports any other error.
   */
  predicate Sweeps(c: Criterion, fails: set<string>, r: FileInfo)
  {
    Picks(c, r) && r.filePath !in fails
  }

  /** The ids a sweep moves to status 1. */
  function SweptIds(rows: seq<FileInfo>, c: Criterion, fails: set<string>): set<nat>
  {
    set r | r in rows && Sweeps(c, fails, r) :: r.id
  }

  /** The files a sweep removes. */
  function SweptPaths(rows: seq<FileInfo>, c: Criterion, fails: set<string>): set<string>
  {
    set r | r in rows && Sweeps(c, fails, r) :: r.filePath
  }

  /** The ids among `found` whose file removal does not fail. */
  function RemovableIds(found: seq<FileInfo>, fails: set<string>): set<nat>
  {
    set r | r in found && r.filePath !in fails :: r.id
  }

  /** The paths among `found` whose removal does not fail. */
  function RemovablePaths(found: seq<FileInfo>, fails: set<string>): set<string>
  {
    set r | r in found && r.filePath !in fails :: r.filePath
  }

  /** Walking the query result and keeping the removable rows yields the sweep. */
  lemma QueryRemovable(rows: seq<FileInfo>, c: Criterion, fails: set<string>)
    ensures RemovableIds(Query(rows, c), fails) == SweptIds(rows, c, fails)
    ensures RemovablePaths(Query(rows, c), fails) == SweptPaths(rows, c, fails)
  {
  }

  /** The number of rows a sweep selects and can remove. */
  function CountSwept(rows: seq<FileInfo>, c: Criterion, fails: set<string>): nat
  {
    if rows == [] then 0
    else (if Sweeps(c, fails, rows[0]) then 1 else 0) + CountSwept(rows[1..], c, fails)
  }

  /**
   * Flipping the swept ids changes exactly the swept rows: each of them
   * moves from status 0 to 1 and every other row stays as it was.
   */
  lemma SweepChangesExactlySwept(rows: seq<FileInfo>, c: Criterion, fails: set<string>)
    requires UniqueIds(rows)
    ensures forall k :: 0 <= k < |rows| ==>
      SetRemoved(rows, SweptIds(rows, c, fails))[k] ==
        if Sweeps(c, fails, rows[k]) then Removed(rows[k]) else rows[k]
  {
    var ids := SweptIds(rows, c, fails);
    forall k | 0 <= k < |rows|
      ensures rows[k].id in ids <==> Sweeps(c, fails, rows[k])
    {
      if rows[k].id in ids {
        var r :| r in rows && Sweeps(c, fails, r) && r.id == rows[k].id;
        var m :| 0 <= m < |rows| && rows[m] == r;
        assert m == k;
      }
    }
  }

  /** Sweeping again with the same selection and failures finds nothing more to flip. */
  lemma SweepAgainFindsNothing(rows: seq<FileInfo>, c: Criterion, fails: set<string>)
    ensures SweptIds(SetRemoved(rows, SweptIds(rows, c, fails)), c, fails) == {}
  {
    var ids := SweptIds(rows, c, fails);
    var out := SetRemoved(rows, ids);
    forall r | r in out
      ensures !Sweeps(c, fails, r)
    {
      var k :| 0 <= k < |out| && out[k] == r;
      if rows[k].id !in ids {
        assert rows[k] == r;
      }
    }
  }

  /** The swept ids of a table are those of its first row and of the rest. */
  lemma SweptIdsCons(rows: seq<FileInfo>, c: Criterion, fails: set<string>)
    requires rows != []
    ensures SweptIds(rows, c, fails) ==
      (if Sweeps(c, fails, rows[0]) then {rows[0].id} else {}) + SweptIds(rows[1..], c, fails)
  {
    assert rows == [rows[0]] + rows[1..];
  }

  /** The number of distinct ids a sweep flips is the number of rows it selects. */
  lemma {:induction false} SweptIdsCount(rows: seq<FileInfo>, c: Criterion, fails: set<string>)
    requires UniqueIds(rows)
    ensures |SweptIds(rows, c, fails)| == CountSwept(rows, c, fails)
  {
    if rows != [] {
      var rest := rows[1..];
      SweptIdsCount(rest, c, fails);
      SweptIdsCons(rows, c, fails);
      forall r | r in rest
        ensures r.id != rows[0].id
      {
        var m :| 0 <= m < |rest| && rest[m] == r;
        assert rows[m + 1] == r;
      }
      assert rows[0].id !in SweptIds(rest, c, fails);
    }
  }

  /** A delete by ids flips at most as many records as there are distinct ids. */
  lemma DeleteCountBound(rows: seq<FileInfo>, ids: set<nat>, fails: set<string>)
    ensures |SweptIds(rows, ByIds(ids), fails)| <= |ids|
  {
    SubsetCardinality(SweptIds(rows, ByIds(ids), fails), ids);
  }

  lemma SubsetCardinality(a: set<nat>, b: set<nat>)
    requires a <= b
    ensures |a| <= |b|
  {
    assert b == a + (b - a);
  }

  /**
   * One batch of a delete: after the ids of earlier batches `done` have been
   * swept, sweeping the batch ids `batch` flips the ids of the combined
   * request not flipped already.
   */
  lemma BatchStepIds(rows: seq<FileInfo>, done: set<nat>, batch: set<nat>, fails: set<string>)
    requires UniqueIds(rows)
    ensures var flipped := SweptIds(rows, ByIds(done), fails);
      var now := SetRemoved(rows, flipped);
      flipped !! SweptIds(now, ByIds(batch), fails) &&
      flipped + SweptIds(now, ByIds(batch), fails) == SweptIds(rows, ByIds(done + batch), fails)
  {
    var flipped := SweptIds(rows, ByIds(done), fails);
    var now := SetRemoved(rows, flipped);
    var added := SweptIds(now, ByIds(batch), fails);
    var all := SweptIds(rows, ByIds(done + batch), fails);
    SweepChangesExactlySwept(rows, ByIds(done), fails);
    forall x | x in added
      ensures x !in flipped && x in all
    {
      var r :| r in now && Sweeps(ByIds(batch), fails, r) && r.id == x;
      var k :| 0 <= k < |now| && now[k] == r;
      assert rows[k] == r;
    }
    forall x | x in all
      ensures x in flipped + added
    {
      var r :| r in rows && Sweeps(ByIds(done + batch), fails, r) && r.id == x;
      var k :| 0 <= k < |rows| && rows[k] == r;
      if x !in flipped {
        assert now[k] == r;
      }
    }
  }

  /** The same batch step for the files removed. */
  lemma BatchStepPaths(rows: seq<FileInfo>, done: set<nat>, batch: set<nat>, fails: set<string>)
    requires UniqueIds(rows)
    ensures var now := SetRemoved(rows, SweptIds(rows, ByIds(done), fails));
      SweptPaths(rows, ByIds(done), fails) + SweptPaths(now, ByIds(batch), fails)
        == SweptPaths(rows, ByIds(done + batch), fails)
  {
    var now := SetRemoved(rows, SweptIds(rows, ByIds(done), fails));
    var pDone := SweptPaths(rows, ByIds(done), fails);
    var pAdded := SweptPaths(now, ByIds(batch), fails);
    var pAll := SweptPaths(rows, ByIds(done + batch), fails);
    SweepChangesExactlySwept(rows, ByIds(done), fails);
    forall p | p in pAdded
      ensures p in pAll
    {
      var r :| r in now && Sweeps(ByIds(batch), fails, r) && r.filePath == p;
      var k :| 0 <= k < |now| && now[k] == r;
      assert rows[k] == r;
    }
    forall p | p in pAll
      ensures p in pDone + pAdded
    {
      var r :| r in rows && Sweeps(ByIds(done + batch), fails, r) && r.filePath == p;
      var k :| 0 <= k < |rows| && rows[k] == r;
      if !Sweeps(ByIds(done), fails, r) {
        assert now[k] == r;
      }
    }
  }

  /**
   * `First` over `fileName = name AND status = 0`: the earliest such row,
   * or None when there is none.
   */
  function FindActive(rows: seq<FileInfo>, name: string): (found: Option<nat>)
    ensures found.None? <==>
      forall k :: 0 <= k < |rows| ==> !(rows[k].fileName == name && rows[k].status == ACTIVE)
    ensures found.Some? ==>
      var k := found.value;
      k < |rows| && rows[k].fileName == name && rows[k].status == ACTIVE &&
      forall j :: 0 <= j < k ==> !(rows[j].fileName == name && rows[j].status == ACTIVE)
  {
    if rows == [] then None
    else if rows[0].fileName == name && rows[0].status == ACTIVE then Some(0)
    else match FindActive(rows[1..], name)
      case None => None
      case Some(k) => Some(k + 1)
  }

  /** `p` occurs in `s` starting at position `i`. */
  predicate OccursAt(s: string, p: string, i: nat)
  {
    i + |p| <= |s| && s[i..i + |p|] == p
  }

  /** `p` occurs somewhere in `s`: SQL `s LIKE '%p%'` with no wildcards in `p`. */
  predicate Contains(s: string, p: string)
  {
    exists i: nat :: i <= |s| && OccursAt(s, p, i)
  }

  /** The WHERE clause of the listing: status 0 and, when a filter is given, a name containing it. */
  predicate Listed(r: FileInfo, filter: string)
  {
    r.status == ACTIVE && (filter == "" || Contains(r.fileName, filter))
  }

  /** The rows the listing query matches, in table order. */
  function ListedRows(rows: seq<FileInfo>, filter: string): (ls: seq<FileInfo>)
    ensures |ls| <= |rows|
    ensures forall r :: r in ls <==> r in rows && Listed(r, filter)
  {
    if rows == [] then []
    else
      assert rows == [rows[0]] + rows[1..];
      (if Listed(rows[0], filter) then [rows[0]] else []) + ListedRows(rows[1..], filter)
  }

  /**
   * The listing holds each matching row as often as the table does and no
   * other row, so its length is the number of matching records.
   */
  lemma {:induction false} ListedRowsCounts(rows: seq<FileInfo>, filter: string)
    ensures var ls := ListedRows(rows, filter);
      forall r :: multiset(ls)[r] == if Listed(r, filter) then multiset(rows)[r] else 0
  {
    if rows != [] {
      ListedRowsCounts(rows[1..], filter);
      assert rows == [rows[0]] + rows[1..];
    }
  }

  /** Newest first: upload dates never increase along the sequence. */
  predicate NewestFirst(rs: seq<FileInfo>)
  {
    forall i, j :: 0 <= i < j < |rs| ==> rs[i].uploadDate >= rs[j].uploadDate
  }

  /** Places `r` after every strictly newer row and before the rest. */
  function InsertByDate(r: FileInfo, rs: seq<FileInfo>): (out: seq<FileInfo>)
    ensures multiset(out) == multiset(rs) + multiset{r}
  {
    if rs == [] then [r]
    else if rs[0].uploadDate > r.uploadDate then
      assert rs == [rs[0]] + rs[1..];
      [rs[0]] + InsertByDate(r, rs[1..])
    else [r] + rs
  }

  /** `ORDER BY uploadDate DESC`, keeping table order among equal dates. */
  function OrderByDateDesc(rs: seq<FileInfo>): (out: seq<FileInfo>)
    ensures multiset(out) == multiset(rs)
  {
    if rs == [] then []
    else
      assert rs == [rs[0]] + rs[1..];
      InsertByDate(rs[0], OrderByDateDesc(rs[1..]))
  }

  /** The rows of `rs` uploaded at `date`, in their order in `rs`. */
  function DatedAt(rs: seq<FileInfo>, date: int): seq<FileInfo>
  {
    if rs == [] then []
    else (if rs[0].uploadDate == date then [rs[0]] else []) + DatedAt(rs[1..], date)
  }

  /** DatedAt looks at the first row, then at the rest. */
  lemma DatedAtCons(x: FileInfo, xs: seq<FileInfo>, date: int)
    ensures DatedAt([x] + xs, date) == (if x.uploadDate == date then [x] else []) + DatedAt(xs, date)
  {
    assert ([x] + xs)[1..] == xs;
  }

  /** Passing the strictly newer first row of `rs` keeps what inserting `r` does to the dated rows. */
  lemma DatedAtPastNewer(r: FileInfo, rs: seq<FileInfo>, tail: seq<FileInfo>, date: int)
    requires rs != [] && rs[0].uploadDate > r.uploadDate
    requires DatedAt(tail, date) == (if r.uploadDate == date then [r] else []) + DatedAt(rs[1..], date)
    ensures DatedAt([rs[0]] + tail, date) == (if r.uploadDate == date then [r] else []) + DatedAt(rs, date)
  {
    DatedAtCons(rs[0], tail, date);
    assert DatedAt(rs, date) == (if rs[0].uploadDate == date then [rs[0]] else []) + DatedAt(rs[1..], date);
    if r.uploadDate == date {
      assert rs[0].uploadDate != date;
    } else {
      assert DatedAt(tail, date) == DatedAt(rs[1..], date);
    }
  }

  /** Inserting `r` puts it in front of every row with its date, and moves no other row. */
  lemma {:induction false} InsertByDateDatedAt(r: FileInfo, rs: seq<FileInfo>, date: int)
    ensures DatedAt(InsertByDate(r, rs), date) ==
      (if r.uploadDate == date then [r] else []) + DatedAt(rs, date)
  {
    if rs != [] && rs[0].uploadDate > r.uploadDate {
      var tail := InsertByDate(r, rs[1..]);
      assert InsertByDate(r, rs) == [rs[0]] + tail;
      InsertByDateDatedAt(r, rs[1..], date);
      DatedAtPastNewer(r, rs, tail, date);
    } else {
      assert InsertByDate(r, rs) == [r] + rs;
      DatedAtCons(r, rs, date);
    }
  }

  /**
   * The ordering is stable: for every date, the rows uploaded at that date
   * come out in the order the table holds them.
   */
  lemma {:induction false} EqualDatesKeepTableOrder(rs: seq<FileInfo>, date: int)
    ensures DatedAt(OrderByDateDesc(rs), date) == DatedAt(rs, date)
  {
    if rs != [] {
      EqualDatesKeepTableOrder(rs[1..], date);
      InsertByDateDatedAt(rs[0], OrderByDateDesc(rs[1..]), date);
    }
  }

  lemma {:induction false} InsertByDateKeepsOrder(r: FileInfo, rs: seq<FileInfo>)
    requires NewestFirst(rs)
    ensures NewestFirst(InsertByDate(r, rs))
  {
    if rs != [] && rs[0].uploadDate >= r.uploadDate {
      var tail := InsertByDate(r, rs[1..]);
      InsertByDateKeepsOrder(r, rs[1..]);
      forall x | x in tail
        ensures rs[0].uploadDate >= x.uploadDate
      {
        assert x in multiset(tail);
        assert x in multiset(rs[1..]) + multiset{r};
        if x != r {
          assert x in rs[1..];
        }
      }
      forall j | 0 <= j < |tail|
        ensures rs[0].uploadDate >= tail[j].uploadDate
      {
        assert tail[j] in tail;
      }
    }
  }

  /** The ordered listing is newest first and holds exactly the rows it was given. */
  lemma {:induction false} OrderByDateDescSorts(rs: seq<FileInfo>)
    ensures NewestFirst(OrderByDateDesc(rs))
    ensures multiset(OrderByDateDesc(rs)) == multiset(rs)
  {
    if rs != [] {
      OrderByDateDescSorts(rs[1..]);
      InsertByDateKeepsOrder(rs[0], OrderByDateDesc(rs[1..]));
    }
  }

  /** `OFFSET offset LIMIT limit`. */
  function Window<T>(s: seq<T>, offset: nat, limit: nat): (w: seq<T>)
    ensures |w| <= limit
    ensures forall i :: 0 <= i < |w| ==> offset + i < |s| && w[i] == s[offset + i]
    ensures |w| == limit || offset + |w| >= |s|
  {
    if offset >= |s| then []
    else if offset + limit <= |s| then s[offset..offset + limit]
    else s[offset..]
  }
}
