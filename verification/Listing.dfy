/**
 What it means for a list to hold one entry for each row that has one, in the order of the rows. The
 loops that collect findings are specified by it: nothing left out, nothing added, nothing moved.
 */
module Listing {
  import opened Common

  ghost predicate Ascends(at: seq<int>) {
    forall i, j :: 0 <= i < j < |at| ==> at[i] < at[j]
  }

  /** The positions of the rows that have an entry. */
  ghost function Listed<S, T>(rows: seq<S>, entry: S -> Option<T>): set<int> {
    set k | 0 <= k < |rows| && entry(rows[k]).Some?
  }

  /** `at[i]` is the position of the row that the i-th entry of the list is for. */
  ghost predicate ListsAt<S, T>(list: seq<T>, rows: seq<S>, entry: S -> Option<T>, at: seq<int>) {
    && |at| == |list| && Ascends(at)
    && (forall i :: 0 <= i < |at| ==> 0 <= at[i] < |rows| && entry(rows[at[i]]) == Some(list[i]))
    && (forall k :: k in Listed(rows, entry) ==> k in at)
  }

  ghost predicate Lists<S, T>(list: seq<T>, rows: seq<S>, entry: S -> Option<T>) {
    exists at :: ListsAt(list, rows, entry, at)
  }

  ghost function AsList<T>(o: Option<T>): seq<T> {
    if o.Some? then [o.value] else []
  }

  lemma NothingListed<S, T>(entry: S -> Option<T>)
    ensures Lists([], [], entry)
  {
    var list: seq<T>, rows: seq<S> := [], [];
    assert ListsAt(list, rows, entry, []);
  }

  /** One more row adds its entry, if it has one, at the end. */
  lemma OneMoreListed<S, T>(list: seq<T>, rows: seq<S>, entry: S -> Option<T>, row: S)
    requires Lists(list, rows, entry)
    ensures Lists(list + AsList(entry(row)), rows + [row], entry)
  {
    var at :| ListsAt(list, rows, entry, at);
    var at' := if entry(row).Some? then at + [|rows|] else at;
    forall k | k in Listed(rows + [row], entry) ensures k in at' {
      if k < |rows| {
        assert k in Listed(rows, entry) && k in at;
      } else {
        assert at'[|at|] == k;
      }
    }
    assert ListsAt(list + AsList(entry(row)), rows + [row], entry, at');
  }

  /** The entries of a list are those of the rows. */
  lemma ListedEntries<S, T>(list: seq<T>, rows: seq<S>, entry: S -> Option<T>)
    requires Lists(list, rows, entry)
    ensures forall e :: e in list <==> exists row :: row in rows && entry(row) == Some(e)
  {
    var at :| ListsAt(list, rows, entry, at);
    forall e | e in list ensures exists row :: row in rows && entry(row) == Some(e) {
      var i :| 0 <= i < |list| && list[i] == e;
      assert rows[at[i]] in rows;
    }
    forall row | row in rows && entry(row).Some? ensures entry(row).value in list {
      var k :| 0 <= k < |rows| && rows[k] == row;
      assert k in Listed(rows, entry);
      var i :| 0 <= i < |at| && at[i] == k;
      assert list[i] == entry(row).value;
    }
  }

  /** There are as many entries as rows that have one. */
  lemma ListedCount<S, T>(list: seq<T>, rows: seq<S>, entry: S -> Option<T>)
    requires Lists(list, rows, entry)
    ensures |list| == |Listed(rows, entry)|
  {
    var at :| ListsAt(list, rows, entry, at);
    PositionsOf(list, rows, entry, at);
    AscendingCount(at, Listed(rows, entry));
  }

  lemma {:induction false} AscendingCount(at: seq<int>, s: set<int>)
    requires Ascends(at) && forall k :: k in at <==> k in s
    ensures |s| == |at|
  {
    if at == [] {
      forall k ensures k !in s {
        assert k !in at;
      }
    } else {
      WithoutLast(at, s);
      AscendingCount(at[..|at| - 1], s - {at[|at| - 1]});
    }
  }

  /** The rows and the entries fix the list. */
  lemma ListedOnce<S, T>(list: seq<T>, other: seq<T>, rows: seq<S>, entry: S -> Option<T>)
    requires Lists(list, rows, entry) && Lists(other, rows, entry)
    ensures list == other
  {
    var at :| ListsAt(list, rows, entry, at);
    var at' :| ListsAt(other, rows, entry, at');
    PositionsOf(list, rows, entry, at);
    PositionsOf(other, rows, entry, at');
    SamePositions(at, at', Listed(rows, entry));
  }

  lemma PositionsOf<S, T>(list: seq<T>, rows: seq<S>, entry: S -> Option<T>, at: seq<int>)
    requires ListsAt(list, rows, entry, at)
    ensures Ascends(at) && forall k :: k in at <==> k in Listed(rows, entry)
  {
    forall k | k in at ensures k in Listed(rows, entry) {
      var i :| 0 <= i < |at| && at[i] == k;
    }
  }

  lemma WithoutLast(at: seq<int>, s: set<int>)
    requires at != [] && Ascends(at) && forall k :: k in at <==> k in s
    ensures var front, last := at[..|at| - 1], at[|at| - 1];
            && last in s && (forall k :: k in s ==> k <= last)
            && Ascends(front) && forall k :: k in front <==> k in s - {last}
  {
    var front, last := at[..|at| - 1], at[|at| - 1];
    assert at == front + [last] && last in at;
    forall k ensures k in front <==> k in s - {last} {
      assert k in at <==> k in front || k == last;
    }
  }

  lemma {:induction false} SamePositions(at: seq<int>, at': seq<int>, s: set<int>)
    requires Ascends(at) && forall k :: k in at <==> k in s
    requires Ascends(at') && forall k :: k in at' <==> k in s
    ensures at == at'
  {
    assert at != [] ==> at[0] in at;
    assert at' != [] ==> at'[0] in at';
    if at != [] {
      WithoutLast(at, s);
      WithoutLast(at', s);
      SamePositions(at[..|at| - 1], at'[..|at'| - 1], s - {at[|at| - 1]});
      assert at == at[..|at| - 1] + [at[|at| - 1]];
    }
  }
}
