/**
 * The diary's one table, `Entry(content, timestamp)` with its implicit
 * integer primary key, as an immutable sequence of records in creation
 * order. The queries the program runs against it (`order_by`, `fn.Max`,
 * `fn.Min`, `.where(...).get()`, `delete_instance`) are functions here.
 */
module Entries {
  import opened Wrappers

  /** The creation time; only its order matters to the diary. */
  type Timestamp = int

  datatype Entry = Entry(id: int, content: string, ts: Timestamp)

  /** All entries, oldest first. */
  type Store = seq<Entry>

  /**
   * The store invariant: ids are unique and rise in creation order, and
   * timestamps rise with them.
   */
  predicate Valid(s: Store) {
    forall i, j :: 0 <= i < j < |s| ==> s[i].id < s[j].id && s[i].ts < s[j].ts
  }

  /** A sequence shown newest first, the order of `order_by(Entry.timestamp.desc())`. */
  predicate NewestFirst(xs: seq<Entry>) {
    forall i, j :: 0 <= i < j < |xs| ==> xs[i].ts > xs[j].ts
  }

  /** `fn.Max(Entry.id)`: the largest id in a non-empty store. */
  function MaxId(s: Store): (m: int)
    requires 0 < |s|
    ensures exists i :: 0 <= i < |s| && s[i].id == m
    ensures forall i :: 0 <= i < |s| ==> s[i].id <= m
  {
    if |s| == 1 then s[0].id
    else
      var m := MaxId(s[1..]);
      assert forall i :: 1 <= i < |s| ==> s[i] == s[1..][i - 1];
      if s[0].id > m then s[0].id else m
  }

  /** `fn.Min(Entry.id)`: the smallest id in a non-empty store. */
  function MinId(s: Store): (m: int)
    requires 0 < |s|
    ensures exists i :: 0 <= i < |s| && s[i].id == m
    ensures forall i :: 0 <= i < |s| ==> m <= s[i].id
  {
    if |s| == 1 then s[0].id
    else
      var m := MinId(s[1..]);
      assert forall i :: 1 <= i < |s| ==> s[i] == s[1..][i - 1];
      if s[0].id < m then s[0].id else m
  }

  /** In a valid store the newest entry holds the largest id and the oldest the smallest. */
  lemma ExtremeIds(s: Store)
    requires Valid(s) && 0 < |s|
    ensures MaxId(s) == s[|s| - 1].id
    ensures MinId(s) == s[0].id
  {
  }

  /**
   * The id SQLite gives a new row of a table whose integer primary key is
   * not AUTOINCREMENT: one more than the largest id present, 1 in an empty table.
   */
  function NextId(s: Store): (id: int)
    ensures forall i :: 0 <= i < |s| ==> s[i].id < id
  {
    if |s| == 0 then 1 else MaxId(s) + 1
  }

  /** `Entry.create(content=...)` at time `now`. */
  function Create(s: Store, content: string, now: Timestamp): (r: Store)
    ensures |r| == |s| + 1 && r[..|s|] == s
    ensures r[|s|].content == content && r[|s|].ts == now
    ensures forall i :: 0 <= i < |s| ==> s[i].id < r[|s|].id
  {
    s + [Entry(NextId(s), content, now)]
  }

  /** A clock reading later than every stored timestamp keeps the store valid. */
  lemma CreateKeepsValid(s: Store, content: string, now: Timestamp)
    requires Valid(s)
    requires forall i :: 0 <= i < |s| ==> s[i].ts < now
    ensures Valid(Create(s, content, now))
  {
  }

  /** `delete_instance()`: the row with primary key `id` is gone. */
  function Remove(s: Store, id: int): (r: Store)
    ensures |r| <= |s|
    ensures forall e :: e in r <==> e in s && e.id != id
  {
    if |s| == 0 then []
    else if s[0].id == id then Remove(s[1..], id)
    else [s[0]] + Remove(s[1..], id)
  }

  /** Every entry of `xs` is newer than `x`, by id and by timestamp. */
  predicate Above(x: Entry, xs: seq<Entry>) {
    forall e :: e in xs ==> x.id < e.id && x.ts < e.ts
  }

  /** In a valid store the first entry is older than all the others. */
  lemma FirstIsOldest(s: Store)
    requires Valid(s) && 0 < |s|
    ensures Above(s[0], s[1..])
  {
    forall e | e in s[1..]
      ensures s[0].id < e.id && s[0].ts < e.ts
    {
      var k :| 0 <= k < |s[1..]| && s[1..][k] == e;
      assert s[k + 1] == e;
    }
  }

  /** Putting an older entry in front of a valid sequence keeps it valid. */
  lemma ConsValid(x: Entry, xs: seq<Entry>)
    requires Valid(xs) && Above(x, xs)
    ensures Valid([x] + xs)
  {
    var r := [x] + xs;
    forall i, j | 0 <= i < j < |r|
      ensures r[i].id < r[j].id && r[i].ts < r[j].ts
    {
      assert r[j] == xs[j - 1];
      if 0 < i {
        assert r[i] == xs[i - 1];
      } else {
        assert xs[j - 1] in xs;
      }
    }
  }

  lemma {:induction false} RemoveKeepsValid(s: Store, id: int)
    requires Valid(s)
    ensures Valid(Remove(s, id))
    decreases |s|
  {
    if |s| > 0 {
      var tail := s[1..];
      assert Valid(tail);
      RemoveKeepsValid(tail, id);
      if s[0].id != id {
        FirstIsOldest(s);
        ConsValid(s[0], Remove(tail, id));
      }
    }
  }

  /** Deleting an id that is present removes exactly one row: ids are unique. */
  lemma {:induction false} RemovePresent(s: Store, id: int)
    requires Valid(s)
    requires exists i :: 0 <= i < |s| && s[i].id == id
    ensures |Remove(s, id)| == |s| - 1
    decreases |s|
  {
    assert Valid(s[1..]);
    if s[0].id == id {
      RemoveAbsent(s[1..], id);
    } else {
      RemovePresent(s[1..], id);
    }
  }

  /** Deleting an id that is absent changes nothing. */
  lemma {:induction false} RemoveAbsent(s: Store, id: int)
    requires forall i :: 0 <= i < |s| ==> s[i].id != id
    ensures Remove(s, id) == s
    decreases |s|
  {
    if |s| > 0 {
      var tail := s[1..];
      assert forall i :: 0 <= i < |tail| ==> tail[i].id == s[i + 1].id;
      RemoveAbsent(tail, id);
      assert s[0].id != id;
      assert Remove(s, id) == [s[0]] + tail;
      assert s == [s[0]] + tail;
    }
  }

  /**
   * `define_entries()`: every entry, newest first by creation. In a valid
   * store this is descending timestamp order (`ListingNewestFirst`).
   */
  function Listing(s: Store): (r: seq<Entry>)
    ensures |r| == |s|
    ensures forall i :: 0 <= i < |s| ==> r[i] == s[|s| - 1 - i]
    ensures forall e :: e in r <==> e in s
  {
    var r := seq(|s|, i requires 0 <= i < |s| => s[|s| - 1 - i]);
    assert forall e :: e in s ==> e in r by {
      forall e | e in s ensures e in r {
        var i :| 0 <= i < |s| && s[i] == e;
        assert r[|s| - 1 - i] == e;
      }
    }
    r
  }

  /** The listing of a valid store is newest first, and so is its id order. */
  lemma ListingNewestFirst(s: Store)
    requires Valid(s)
    ensures NewestFirst(Listing(s))
    ensures forall i, j :: 0 <= i < j < |s| ==> Listing(s)[i].id > Listing(s)[j].id
  {
  }

  /** `.where(Entry.content.contains(query))` on an ordered query: the entries that match, order kept. */
  function Filter(xs: seq<Entry>, query: string, matches: (string, string) -> bool): (r: seq<Entry>)
    ensures |r| <= |xs|
    ensures forall e :: e in r <==> e in xs && matches(e.content, query)
  {
    if |xs| == 0 then []
    else if matches(xs[0].content, query) then [xs[0]] + Filter(xs[1..], query, matches)
    else Filter(xs[1..], query, matches)
  }

  /** Every entry of `xs` is older than `x`. */
  predicate Behind(x: Entry, xs: seq<Entry>) {
    forall e :: e in xs ==> e.ts < x.ts
  }

  /** In a newest-first sequence the first entry is newer than all the others. */
  lemma FirstIsNewest(xs: seq<Entry>)
    requires NewestFirst(xs) && 0 < |xs|
    ensures Behind(xs[0], xs[1..])
  {
    forall e | e in xs[1..]
      ensures e.ts < xs[0].ts
    {
      var k :| 0 <= k < |xs[1..]| && xs[1..][k] == e;
      assert xs[k + 1] == e;
    }
  }

  /** Putting a newer entry in front of a newest-first sequence keeps it newest first. */
  lemma ConsNewestFirst(x: Entry, xs: seq<Entry>)
    requires NewestFirst(xs) && Behind(x, xs)
    ensures NewestFirst([x] + xs)
  {
    var r := [x] + xs;
    forall i, j | 0 <= i < j < |r|
      ensures r[i].ts > r[j].ts
    {
      assert r[j] == xs[j - 1];
      if 0 < i {
        assert r[i] == xs[i - 1];
      } else {
        assert xs[j - 1] in xs;
      }
    }
  }

  lemma {:induction false} FilterKeepsOrder(xs: seq<Entry>, query: string, matches: (string, string) -> bool)
    requires NewestFirst(xs)
    ensures NewestFirst(Filter(xs, query, matches))
    decreases |xs|
  {
    if |xs| > 0 {
      var tail := xs[1..];
      assert NewestFirst(tail);
      FilterKeepsOrder(tail, query, matches);
      if matches(xs[0].content, query) {
        FirstIsNewest(xs);
        ConsNewestFirst(xs[0], Filter(tail, query, matches));
      }
    }
  }

  /** The distinct entries of `xs` that pass the test. */
  function Passing(xs: seq<Entry>, query: string, matches: (string, string) -> bool): set<Entry> {
    set e | e in xs && matches(e.content, query)
  }

  lemma PassingCons(xs: seq<Entry>, query: string, matches: (string, string) -> bool)
    requires 0 < |xs|
    ensures matches(xs[0].content, query) ==> Passing(xs, query, matches) == Passing(xs[1..], query, matches) + {xs[0]}
    ensures !matches(xs[0].content, query) ==> Passing(xs, query, matches) == Passing(xs[1..], query, matches)
  {
    assert forall e :: e in xs <==> e == xs[0] || e in xs[1..];
  }

  /**
   * No entry occurs twice in a newest-first sequence, so the filter keeps
   * exactly one copy of each entry that passes.
   */
  lemma {:induction false} FilterCount(xs: seq<Entry>, query: string, matches: (string, string) -> bool)
    requires NewestFirst(xs)
    ensures |Filter(xs, query, matches)| == |Passing(xs, query, matches)|
    decreases |xs|
  {
    if |xs| > 0 {
      var tail := xs[1..];
      assert NewestFirst(tail);
      FilterCount(tail, query, matches);
      FirstIsNewest(xs);
      PassingCons(xs, query, matches);
      assert xs[0] !in Passing(tail, query, matches);
    }
  }

  /** `.where(...).get()`: the position of the first entry that passes, if any. */
  function FirstWhere(xs: seq<Entry>, pass: Entry -> bool): (r: Option<nat>)
    ensures r.None? ==> forall i :: 0 <= i < |xs| ==> !pass(xs[i])
    ensures r.Some? ==> r.value < |xs| && pass(xs[r.value])
    ensures r.Some? ==> forall i :: 0 <= i < r.value ==> !pass(xs[i])
  {
    if |xs| == 0 then None
    else if pass(xs[0]) then Some(0)
    else
      match FirstWhere(xs[1..], pass)
      case None => None
      case Some(k) => Some(k + 1)
  }
}
