/** The order Python and Go give to strings, and sorted listings of string sets. */
module Ordering {
  /** Lexicographic order by code point, the shorter string first. */
  predicate Less(a: string, b: string) {
    b != [] && (a == [] || a[0] < b[0] || (a[0] == b[0] && Less(a[1..], b[1..])))
  }

  lemma {:induction false} LessTransitive(a: string, b: string, c: string)
    requires Less(a, b) && Less(b, c)
    ensures Less(a, c)
  {
    if a != [] && a[0] == b[0] == c[0] {
      LessTransitive(a[1..], b[1..], c[1..]);
    }
  }

  lemma {:induction false} LessTrichotomy(a: string, b: string)
    ensures !(Less(a, b) && Less(b, a))
    ensures a == b || Less(a, b) || Less(b, a)
    ensures !Less(a, a)
  {
    if a != [] {
      LessTrichotomy(a[1..], a[1..]);
      if b != [] {
        LessTrichotomy(a[1..], b[1..]);
        assert a == [a[0]] + a[1..] && b == [b[0]] + b[1..];
      }
    }
  }

  /** A common prefix does not matter to the order. */
  lemma {:induction false} LessAfterPrefix(p: string, a: string, b: string)
    ensures Less(p + a, p + b) == Less(a, b)
  {
    if p == [] {
      assert p + a == a && p + b == b;
    } else {
      assert (p + a)[1..] == p[1..] + a && (p + b)[1..] == p[1..] + b;
      LessAfterPrefix(p[1..], a, b);
    }
  }

  ghost predicate Increasing(xs: seq<string>) {
    forall i, j :: 0 <= i < j < |xs| ==> Less(xs[i], xs[j])
  }

  /** `xs` is what `sorted` returns for the set `s`. */
  ghost predicate SortedListing(s: set<string>, xs: seq<string>) {
    Increasing(xs) && forall x :: x in s <==> x in xs
  }

  lemma EmptyListing(s: set<string>, xs: seq<string>)
    requires SortedListing(s, xs)
    ensures xs == [] <==> s == {}
  {
    if xs != [] {
      assert xs[0] in s;
    }
  }

  /** A set has one sorted listing. */
  lemma {:induction false} SortedListingUnique(s: set<string>, xs: seq<string>, ys: seq<string>)
    requires SortedListing(s, xs) && SortedListing(s, ys)
    ensures xs == ys
    decreases |xs|
  {
    EmptyListing(s, xs);
    EmptyListing(s, ys);
    if xs != [] {
      assert xs[0] in ys;
      var i :| 0 <= i < |ys| && ys[i] == xs[0];
      assert ys[0] in xs;
      var j :| 0 <= j < |xs| && xs[j] == ys[0];
      LessTrichotomy(xs[0], ys[0]);
      assert xs[0] == ys[0];
      TailIsListing(s, xs);
      TailIsListing(s, ys);
      SortedListingUnique(s - {xs[0]}, xs[1..], ys[1..]);
      assert xs == [xs[0]] + xs[1..] && ys == [ys[0]] + ys[1..];
    }
  }

  lemma TailIsListing(s: set<string>, xs: seq<string>)
    requires xs != [] && SortedListing(s, xs)
    ensures SortedListing(s - {xs[0]}, xs[1..])
  {
    forall x ensures x in s - {xs[0]} <==> x in xs[1..] {
      LessTrichotomy(x, x);
      if x in xs && x != xs[0] {
        var k :| 0 <= k < |xs| && xs[k] == x;
        assert xs[1..][k - 1] == x;
      }
      if x in xs[1..] {
        var k :| 0 <= k < |xs[1..]| && xs[1..][k] == x;
        assert xs[k + 1] == x && Less(xs[0], x);
      }
    }
  }

  /** The built-in `sorted`, on a set: insert each element behind the smaller ones. */
  method SortedStrings(s: set<string>) returns (xs: seq<string>)
    ensures SortedListing(s, xs)
  {
    xs := [];
    var rest := s;
    while rest != {}
      invariant rest <= s && SortedListing(s - rest, xs)
      decreases rest
    {
      var x :| x in rest;
      var i := 0;
      while i < |xs| && Less(xs[i], x)
        invariant 0 <= i <= |xs|
        invariant forall k :: 0 <= k < i ==> Less(xs[k], x)
      {
        i := i + 1;
      }
      InsertKeepsListing(s - rest, xs, x, i);
      xs, rest := xs[..i] + [x] + xs[i..], rest - {x};
      assert s - rest == s - (rest + {x}) + {x};
    }
    assert s - rest == s;
  }

  lemma InsertKeepsListing(s: set<string>, xs: seq<string>, x: string, i: nat)
    requires SortedListing(s, xs) && x !in s && i <= |xs|
    requires forall k :: 0 <= k < i ==> Less(xs[k], x)
    requires i < |xs| ==> !Less(xs[i], x)
    ensures SortedListing(s + {x}, xs[..i] + [x] + xs[i..])
  {
    var ys := xs[..i] + [x] + xs[i..];
    InsertKeepsOrder(xs, x, i);
    assert xs == xs[..i] + xs[i..];
    forall y ensures y in s + {x} <==> y in ys {
      assert y in xs <==> y in xs[..i] || y in xs[i..];
    }
  }

  lemma InsertKeepsOrder(xs: seq<string>, x: string, i: nat)
    requires Increasing(xs) && x !in xs && i <= |xs|
    requires forall k :: 0 <= k < i ==> Less(xs[k], x)
    requires i < |xs| ==> !Less(xs[i], x)
    ensures Increasing(xs[..i] + [x] + xs[i..])
  {
    forall k | i <= k < |xs| ensures Less(x, xs[k]) {
      assert xs[i] in xs;
      LessTrichotomy(xs[i], x);
      if k > i { LessTransitive(x, xs[i], xs[k]); }
    }
    IncreasingConcat(xs[..i], [x]);
    IncreasingConcat(xs[..i] + [x], xs[i..]);
  }

  lemma IncreasingConcat(xs: seq<string>, ys: seq<string>)
    requires Increasing(xs) && Increasing(ys)
    requires xs != [] && ys != [] ==> Less(xs[|xs| - 1], ys[0])
    ensures Increasing(xs + ys)
  {
    forall i, j | 0 <= i < |xs| && 0 <= j < |ys| ensures Less(xs[i], ys[j]) {
      if i < |xs| - 1 { LessTransitive(xs[i], xs[|xs| - 1], ys[0]); }
      if j > 0 { LessTransitive(xs[i], ys[0], ys[j]); }
    }
  }
}
