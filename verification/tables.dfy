/** A SQLite table with an `INTEGER PRIMARY KEY AUTOINCREMENT` key: the rows by id, and the
    next id AUTOINCREMENT hands out (ids are never reused, even after a delete). */
module Tables {

  datatype Table<T> = Table(rows: map<int, T>, next: int) {

    /** Every stored id was handed out earlier, and ids start at 1. */
    ghost predicate Valid() {
      next >= 1 && forall id :: id in rows ==> 1 <= id < next
    }

    /** An INSERT: the row receives the next id. */
    function Insert(row: T): (r: (Table<T>, int))
      ensures r.1 == next && r.0.next == next + 1
      ensures r.0.rows == rows[r.1 := row]
      ensures Valid() ==> r.0.Valid() && r.1 !in rows && r.1 >= 1
    {
      (Table(rows[next := row], next + 1), next)
    }

    /** An UPDATE of an existing row. */
    function Put(id: int, row: T): (r: Table<T>)
      requires id in rows
      ensures r.rows == rows[id := row] && r.next == next
      ensures Valid() ==> r.Valid()
    {
      Table(rows[id := row], next)
    }

    /** A DELETE of the rows whose ids are in `gone`. */
    function Remove(gone: set<int>): (r: Table<T>)
      ensures r.next == next
      ensures forall id :: id in r.rows <==> id in rows && id !in gone
      ensures forall id :: id in r.rows ==> r.rows[id] == rows[id]
      ensures Valid() ==> r.Valid()
    {
      Table(map id | id in rows && id !in gone :: rows[id], next)
    }

    /** The stored ids from `from` upwards, in increasing order: the order of a full scan. */
    function IdsFrom(from: int): (ids: seq<int>)
      ensures forall k :: 0 <= k < |ids| ==> ids[k] in rows && from <= ids[k] < next
      ensures forall j, k :: 0 <= j < k < |ids| ==> ids[j] < ids[k]
      ensures forall id :: id in rows && from <= id < next ==> id in ids
      decreases next - from
    {
      if from >= next then []
      else if from in rows then [from] + IdsFrom(from + 1)
      else IdsFrom(from + 1)
    }

    /** The ids of a full table scan, in rowid order. */
    function Ids(): (ids: seq<int>)
      ensures forall k :: 0 <= k < |ids| ==> ids[k] in rows
      ensures forall j, k :: 0 <= j < k < |ids| ==> ids[j] < ids[k]
      ensures Valid() ==> forall id :: id in rows ==> id in ids
    {
      IdsFrom(1)
    }
  }

  /** The rows among `ids` that satisfy `keep`, in the order of `ids`: a `WHERE` over a scan. */
  function Select<T>(t: Table<T>, ids: seq<int>, keep: T -> bool): (r: seq<(int, T)>)
    requires forall k :: 0 <= k < |ids| ==> ids[k] in t.rows
    requires forall j, k :: 0 <= j < k < |ids| ==> ids[j] < ids[k]
    ensures Selected(t, ids, keep, r)
    decreases |ids|
  {
    if |ids| == 0 then []
    else
      var rest := Select(t, ids[1..], keep);
      if keep(t.rows[ids[0]]) then
        SelectTake(t, ids, keep, rest);
        [(ids[0], t.rows[ids[0]])] + rest
      else
        SelectSkip(t, ids, keep, rest);
        rest
  }

  /** `r` holds exactly the rows among `ids` that satisfy `keep`, in increasing id order. */
  ghost predicate Selected<T>(t: Table<T>, ids: seq<int>, keep: T -> bool, r: seq<(int, T)>) {
    && (forall k :: 0 <= k < |r| ==> r[k].0 in t.rows && t.rows[r[k].0] == r[k].1 && keep(r[k].1))
    && (forall k :: 0 <= k < |r| ==> r[k].0 in ids)
    && (forall k :: 0 <= k < |ids| && ids[k] in t.rows && keep(t.rows[ids[k]]) ==> (ids[k], t.rows[ids[k]]) in r)
    && (forall j, k :: 0 <= j < k < |r| ==> r[j].0 < r[k].0)
  }

  /** Selecting from `ids` when its first row fails `keep` selects the same rows as the rest. */
  lemma SelectSkip<T>(t: Table<T>, ids: seq<int>, keep: T -> bool, rest: seq<(int, T)>)
    requires |ids| > 0 && ids[0] in t.rows && !keep(t.rows[ids[0]])
    requires forall j, k :: 0 <= j < k < |ids| ==> ids[j] < ids[k]
    requires Selected(t, ids[1..], keep, rest)
    ensures Selected(t, ids, keep, rest)
  {
    SelectAbove(t, ids, rest);
    forall k | 0 <= k < |ids| && ids[k] in t.rows && keep(t.rows[ids[k]])
      ensures (ids[k], t.rows[ids[k]]) in rest
    {
      assert k != 0;
      assert ids[k] == ids[1..][k - 1];
    }
  }

  /** Selecting from `ids` when its first row passes `keep` puts that row in front of the rest. */
  lemma SelectTake<T>(t: Table<T>, ids: seq<int>, keep: T -> bool, rest: seq<(int, T)>)
    requires |ids| > 0 && ids[0] in t.rows && keep(t.rows[ids[0]])
    requires forall j, k :: 0 <= j < k < |ids| ==> ids[j] < ids[k]
    requires Selected(t, ids[1..], keep, rest)
    ensures Selected(t, ids, keep, [(ids[0], t.rows[ids[0]])] + rest)
  {
    var r := [(ids[0], t.rows[ids[0]])] + rest;
    SelectAbove(t, ids, rest);
    forall k | 0 <= k < |r|
      ensures r[k].0 in t.rows && t.rows[r[k].0] == r[k].1 && keep(r[k].1) && r[k].0 in ids
    {
      if k > 0 {
        assert r[k] == rest[k - 1];
      }
    }
    forall k | 0 <= k < |ids| && ids[k] in t.rows && keep(t.rows[ids[k]])
      ensures (ids[k], t.rows[ids[k]]) in r
    {
      if k == 0 {
        assert r[0] == (ids[0], t.rows[ids[0]]);
      } else {
        assert ids[k] == ids[1..][k - 1];
        assert (ids[k], t.rows[ids[k]]) in rest;
      }
    }
    forall j, k | 0 <= j < k < |r| ensures r[j].0 < r[k].0 {
      assert r[k] == rest[k - 1];
      if j > 0 {
        assert r[j] == rest[j - 1];
      }
    }
  }

  /** The ids after the first of a strictly increasing `ids` all lie above it. */
  lemma SelectAbove<T>(t: Table<T>, ids: seq<int>, rest: seq<(int, T)>)
    requires |ids| > 0
    requires forall j, k :: 0 <= j < k < |ids| ==> ids[j] < ids[k]
    requires forall k :: 0 <= k < |rest| ==> rest[k].0 in ids[1..]
    ensures forall k :: 0 <= k < |rest| ==> ids[0] < rest[k].0 && rest[k].0 in ids
  {
    forall k | 0 <= k < |rest| ensures ids[0] < rest[k].0 && rest[k].0 in ids {
      var i :| 0 <= i < |ids[1..]| && ids[1..][i] == rest[k].0;
      assert ids[1..][i] == ids[i + 1];
    }
  }

  /** `SELECT … WHERE keep` without `ORDER BY`: the matching rows in rowid order. */
  function Where<T>(t: Table<T>, keep: T -> bool): (r: seq<(int, T)>)
    ensures forall k :: 0 <= k < |r| ==> r[k].0 in t.rows && t.rows[r[k].0] == r[k].1 && keep(r[k].1)
    ensures forall j, k :: 0 <= j < k < |r| ==> r[j].0 < r[k].0
    ensures t.Valid() ==> forall id :: id in t.rows && keep(t.rows[id]) ==> (id, t.rows[id]) in r
  {
    var ids := t.Ids();
    var r := Select(t, ids, keep);
    assert t.Valid() ==> forall id :: id in t.rows && keep(t.rows[id]) ==> (id, t.rows[id]) in r by {
      if t.Valid() {
        forall id | id in t.rows && keep(t.rows[id]) ensures (id, t.rows[id]) in r {
          var k :| 0 <= k < |ids| && ids[k] == id;
        }
      }
    }
    r
  }

  /** `SELECT COUNT(*) … WHERE keep`: how many stored rows satisfy `keep`. */
  function Count<T>(t: Table<T>, keep: T -> bool): nat {
    |set id | id in t.rows && keep(t.rows[id])|
  }

  /** The ids of a result set. */
  function KeysOf<T>(r: seq<(int, T)>): set<int> {
    set k | 0 <= k < |r| :: r[k].0
  }

  /** The ids of a non-empty result set: its first id and the ids of the rest. */
  lemma KeysOfCons<T>(r: seq<(int, T)>)
    requires |r| > 0
    ensures KeysOf(r) == {r[0].0} + KeysOf(r[1..])
  {
    var rest := r[1..];
    forall x | x in KeysOf(r) ensures x in {r[0].0} + KeysOf(rest) {
      var k :| 0 <= k < |r| && r[k].0 == x;
      if k > 0 {
        assert rest[k - 1] == r[k];
      }
    }
    forall x | x in KeysOf(rest) ensures x in KeysOf(r) {
      var k :| 0 <= k < |rest| && rest[k].0 == x;
      assert r[k + 1] == rest[k];
    }
  }

  /** In a strictly increasing result set the first id does not come back later. */
  lemma FirstKeyFresh<T>(r: seq<(int, T)>)
    requires |r| > 0
    requires forall j, k :: 0 <= j < k < |r| ==> r[j].0 < r[k].0
    ensures r[0].0 !in KeysOf(r[1..])
  {
    var rest := r[1..];
    forall k | 0 <= k < |rest| ensures rest[k].0 != r[0].0 {
      assert rest[k] == r[k + 1];
    }
  }

  /** A result set in strictly increasing id order holds no id twice. */
  lemma {:induction false} StrictKeysCount<T>(r: seq<(int, T)>)
    requires forall j, k :: 0 <= j < k < |r| ==> r[j].0 < r[k].0
    ensures |KeysOf(r)| == |r|
  {
    if |r| > 0 {
      var rest := r[1..];
      assert forall j, k :: 0 <= j < k < |rest| ==> rest[j].0 < rest[k].0 by {
        forall j, k | 0 <= j < k < |rest| ensures rest[j].0 < rest[k].0 {
          assert rest[j] == r[j + 1] && rest[k] == r[k + 1];
        }
      }
      StrictKeysCount(rest);
      KeysOfCons(r);
      FirstKeyFresh(r);
    }
  }

  /** The ids a full scan returns are the ids of the stored rows that satisfy `keep`. */
  lemma WhereKeys<T>(t: Table<T>, keep: T -> bool)
    requires t.Valid()
    ensures KeysOf(Where(t, keep)) == set id | id in t.rows && keep(t.rows[id])
  {
    var r := Where(t, keep);
    var matching := set id | id in t.rows && keep(t.rows[id]);
    forall id | id in matching ensures id in KeysOf(r) {
      var k :| 0 <= k < |r| && r[k] == (id, t.rows[id]);
    }
    forall id | id in KeysOf(r) ensures id in matching {
      var k :| 0 <= k < |r| && r[k].0 == id;
    }
  }

  /** A full scan returns exactly as many rows as `COUNT(*)` with the same condition. */
  lemma WhereCount<T>(t: Table<T>, keep: T -> bool)
    requires t.Valid()
    ensures |Where(t, keep)| == Count(t, keep)
  {
    StrictKeysCount(Where(t, keep));
    WhereKeys(t, keep);
  }

  /** `SELECT … WHERE keep ORDER BY key`: the matching rows, ordered by the key, rowid order
      among equal keys. */
  function WhereOrderBy<T>(t: Table<T>, keep: T -> bool, key: T -> int): (r: seq<(int, T)>)
    ensures forall k :: 0 <= k < |r| ==> r[k].0 in t.rows && t.rows[r[k].0] == r[k].1 && keep(r[k].1)
    ensures t.Valid() ==> forall id :: id in t.rows && keep(t.rows[id]) ==> (id, t.rows[id]) in r
    ensures SortedBy(r, (p: (int, T)) => key(p.1))
  {
    var rows := Where(t, keep);
    var r := SortBy(rows, (p: (int, T)) => key(p.1));
    SameElements(rows, r);
    r
  }

  lemma SameElements<T>(a: seq<T>, b: seq<T>)
    requires multiset(a) == multiset(b)
    ensures forall k :: 0 <= k < |b| ==> b[k] in a
    ensures forall x :: x in a ==> x in b
  {
    forall k | 0 <= k < |b| ensures b[k] in a {
      assert b[k] in multiset(b);
    }
    forall x | x in a ensures x in b {
      assert x in multiset(a);
    }
  }

  function EmptyTable<T>(): (t: Table<T>)
    ensures t.Valid() && |t.rows| == 0
  {
    Table(map[], 1)
  }

  /** `xs` ordered by `key`, ascending. */
  ghost predicate SortedBy<T>(xs: seq<T>, key: T -> int) {
    forall j, k :: 0 <= j < k < |xs| ==> key(xs[j]) <= key(xs[k])
  }

  /** `xs` with `x` put before the first element whose key is larger. */
  function InsertBy<T>(x: T, xs: seq<T>, key: T -> int): (r: seq<T>)
    requires SortedBy(xs, key)
    ensures SortedBy(r, key)
    ensures multiset(r) == multiset(xs) + multiset{x}
    ensures |r| == |xs| + 1
  {
    if |xs| == 0 then [x]
    else if key(x) < key(xs[0]) then [x] + xs
    else
      var tail := InsertBy(x, xs[1..], key);
      InsertBehind(x, xs, tail, key);
      [xs[0]] + tail
  }

  /** Putting `x` into the tail of `xs`, when `x` does not go first, keeps `xs[0]` in front. */
  lemma InsertBehind<T>(x: T, xs: seq<T>, tail: seq<T>, key: T -> int)
    requires |xs| > 0 && SortedBy(xs, key) && key(xs[0]) <= key(x)
    requires SortedBy(tail, key) && multiset(tail) == multiset(xs[1..]) + multiset{x}
    ensures SortedBy([xs[0]] + tail, key)
    ensures multiset([xs[0]] + tail) == multiset(xs) + multiset{x}
  {
    assert xs == [xs[0]] + xs[1..];
    forall k | 0 <= k < |tail| ensures key(xs[0]) <= key(tail[k]) {
      assert tail[k] in multiset(tail);
      if tail[k] != x {
        assert tail[k] in multiset(xs[1..]);
        var i :| 0 <= i < |xs[1..]| && xs[1..][i] == tail[k];
        assert xs[1..][i] == xs[i + 1];
      }
    }
    var r := [xs[0]] + tail;
    forall j, k | 0 <= j < k < |r| ensures key(r[j]) <= key(r[k]) {
      assert r[k] == tail[k - 1];
      if j > 0 {
        assert r[j] == tail[j - 1];
      }
    }
  }

  /** A stable insertion sort: SQL's `ORDER BY key` over rows that arrive in rowid order. */
  function SortBy<T>(xs: seq<T>, key: T -> int): (r: seq<T>)
    ensures SortedBy(r, key)
    ensures multiset(r) == multiset(xs)
    ensures |r| == |xs|
  {
    if |xs| == 0 then []
    else
      var r := InsertBy(xs[|xs| - 1], SortBy(xs[..|xs| - 1], key), key);
      assert xs == xs[..|xs| - 1] + [xs[|xs| - 1]];
      r
  }
}
