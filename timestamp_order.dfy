/** Ordering bookmarks by timestamp, as `sort((a, b) => a.timestamp - b.timestamp)`
    does on every page that lists them. `Array.prototype.sort` is stable, so
    bookmarks with equal timestamps keep their stored order; the reference
    order is an insertion sort that inserts each element from the right. */
module TimestampOrder {
  import opened BookmarkModel

  predicate SortedByTime(s: seq<Bookmark>) {
    forall i, j :: 0 <= i < j < |s| ==> s[i].timestamp <= s[j].timestamp
  }

  /** Places `x` after every element whose timestamp is not larger, scanning
      from the right end of `sorted`. */
  function InsertByTime(sorted: seq<Bookmark>, x: Bookmark): (r: seq<Bookmark>)
    ensures |r| == |sorted| + 1
  {
    if sorted == [] then [x]
    else if x.timestamp < sorted[|sorted| - 1].timestamp then
      InsertByTime(sorted[..|sorted| - 1], x) + [sorted[|sorted| - 1]]
    else sorted + [x]
  }

  /** The stable ascending-timestamp order of `s`. */
  function SortByTime(s: seq<Bookmark>): (r: seq<Bookmark>)
    ensures |r| == |s|
  {
    if s == [] then [] else InsertByTime(SortByTime(s[..|s| - 1]), s[|s| - 1])
  }

  /** The records of `s` at one timestamp, in their order in `s`. */
  function AtTime(t: nat): Bookmark -> bool {
    (b: Bookmark) => b.timestamp == t
  }

  lemma {:induction false} InsertPermutes(sorted: seq<Bookmark>, x: Bookmark)
    ensures multiset(InsertByTime(sorted, x)) == multiset(sorted) + multiset{x}
  {
    if sorted != [] && x.timestamp < sorted[|sorted| - 1].timestamp {
      InsertPermutes(sorted[..|sorted| - 1], x);
      assert sorted == sorted[..|sorted| - 1] + [sorted[|sorted| - 1]];
    }
  }

  /** Appending a record no earlier than any present keeps the order. */
  lemma SortedSnoc(s: seq<Bookmark>, x: Bookmark)
    requires SortedByTime(s)
    requires forall y :: y in s ==> y.timestamp <= x.timestamp
    ensures SortedByTime(s + [x])
  {
    var r := s + [x];
    forall i, j | 0 <= i < j < |r| ensures r[i].timestamp <= r[j].timestamp {
      if j == |s| {
        assert r[i] in s;
      } else {
        assert r[i] == s[i] && r[j] == s[j];
      }
    }
  }

  /** Insertion adds `x` and nothing but the records already there. */
  lemma {:induction false} InsertMembers(sorted: seq<Bookmark>, x: Bookmark)
    ensures forall y :: y in InsertByTime(sorted, x) ==> y == x || y in sorted
  {
    if sorted != [] && x.timestamp < sorted[|sorted| - 1].timestamp {
      var init := sorted[..|sorted| - 1];
      InsertMembers(init, x);
      forall y | y in init ensures y in sorted {
        var m :| 0 <= m < |init| && init[m] == y;
        assert sorted[m] == y;
      }
    }
  }

  lemma {:induction false} InsertSorted(sorted: seq<Bookmark>, x: Bookmark)
    requires SortedByTime(sorted)
    ensures SortedByTime(InsertByTime(sorted, x))
  {
    if sorted == [] {
    } else {
      var init, last := sorted[..|sorted| - 1], sorted[|sorted| - 1];
      if x.timestamp < last.timestamp {
        var r := InsertByTime(init, x);
        assert SortedByTime(r) by {
          assert SortedByTime(init);
          InsertSorted(init, x);
        }
        assert forall y :: y in r ==> y.timestamp <= last.timestamp by {
          InsertMembers(init, x);
          forall y | y in init ensures y.timestamp <= last.timestamp {
            var m :| 0 <= m < |init| && init[m] == y;
            assert sorted[m] == y;
          }
        }
        SortedSnoc(r, last);
        assert InsertByTime(sorted, x) == r + [last];
      } else {
        assert forall y :: y in sorted ==> y.timestamp <= x.timestamp by {
          forall y | y in sorted ensures y.timestamp <= x.timestamp {
            var m :| 0 <= m < |sorted| && sorted[m] == y;
          }
        }
        SortedSnoc(sorted, x);
      }
    }
  }

  /** Records at different timestamps never both pass a filter by one timestamp. */
  lemma SingletonsCommute(x: Bookmark, y: Bookmark, t: nat)
    requires x.timestamp != y.timestamp
    ensures Filter([x], AtTime(t)) + Filter([y], AtTime(t)) == Filter([y], AtTime(t)) + Filter([x], AtTime(t))
  {
    FilterSingleton(x, AtTime(t));
    FilterSingleton(y, AtTime(t));
  }

  /** Inserting `x` leaves the records of every other timestamp in their
      order and puts `x` after the records that share its timestamp. */
  lemma {:induction false} InsertStable(sorted: seq<Bookmark>, x: Bookmark, t: nat)
    ensures Filter(InsertByTime(sorted, x), AtTime(t)) == Filter(sorted, AtTime(t)) + Filter([x], AtTime(t))
  {
    if sorted == [] {
    } else {
      var init, last := sorted[..|sorted| - 1], sorted[|sorted| - 1];
      var keep := AtTime(t);
      assert sorted == init + [last];
      if x.timestamp < last.timestamp {
        var ins := InsertByTime(init, x);
        var a, b, c := Filter(init, keep), Filter([x], keep), Filter([last], keep);
        calc {
          Filter(InsertByTime(sorted, x), keep);
          { assert InsertByTime(sorted, x) == ins + [last]; }
          Filter(ins + [last], keep);
          { FilterAppend(ins, [last], keep); }
          Filter(ins, keep) + c;
          { InsertStable(init, x, t); }
          (a + b) + c;
          { assert (a + b) + c == a + (b + c); }
          a + (b + c);
          { SingletonsCommute(x, last, t); }
          a + (c + b);
          { assert a + (c + b) == (a + c) + b; }
          (a + c) + b;
          { FilterAppend(init, [last], keep); }
          Filter(sorted, keep) + b;
        }
      } else {
        FilterAppend(sorted, [x], AtTime(t));
      }
    }
  }

  /** Sorting only reorders: the result is a permutation of the input. */
  lemma {:induction false} SortPermutes(s: seq<Bookmark>)
    ensures multiset(SortByTime(s)) == multiset(s)
  {
    if s != [] {
      var init, x := s[..|s| - 1], s[|s| - 1];
      assert SortByTime(s) == InsertByTime(SortByTime(init), x);
      SortPermutes(init);
      InsertPermutes(SortByTime(init), x);
      assert s == init + [x];
    }
  }

  /** The result is in ascending timestamp order. */
  lemma {:induction false} SortSorted(s: seq<Bookmark>)
    ensures SortedByTime(SortByTime(s))
  {
    if s != [] {
      SortSorted(s[..|s| - 1]);
      InsertSorted(SortByTime(s[..|s| - 1]), s[|s| - 1]);
    }
  }

  /** The sort is stable: the records sharing a timestamp stay in input order. */
  lemma {:induction false} SortStable(s: seq<Bookmark>, t: nat)
    ensures Filter(SortByTime(s), AtTime(t)) == Filter(s, AtTime(t))
  {
    if s != [] {
      var init, x := s[..|s| - 1], s[|s| - 1];
      SortStable(init, t);
      InsertStable(SortByTime(init), x, t);
      assert s == init + [x];
      FilterAppend(init, [x], AtTime(t));
    }
  }

  /** The three facts together, for every timestamp at once. */
  lemma SortByTimeSpec(s: seq<Bookmark>)
    ensures SortedByTime(SortByTime(s))
    ensures multiset(SortByTime(s)) == multiset(s)
    ensures forall t :: Filter(SortByTime(s), AtTime(t)) == Filter(s, AtTime(t))
  {
    SortSorted(s);
    SortPermutes(s);
    forall t ensures Filter(SortByTime(s), AtTime(t)) == Filter(s, AtTime(t)) {
      SortStable(s, t);
    }
  }

  /** The first record after sorting is one of the earliest of the input. */
  lemma SortedFirstIsEarliest(s: seq<Bookmark>)
    requires s != []
    ensures |SortByTime(s)| == |s|
    ensures SortByTime(s)[0] in s
    ensures forall b :: b in s ==> SortByTime(s)[0].timestamp <= b.timestamp
  {
    var r := SortByTime(s);
    SortPermutes(s);
    SortSorted(s);
    assert |r| == |multiset(r)| == |multiset(s)| == |s|;
    assert r[0] in multiset(r);
    forall b | b in s ensures r[0].timestamp <= b.timestamp {
      assert b in multiset(r);
      var k :| 0 <= k < |r| && r[k] == b;
    }
  }

  /** Where the right-to-left scan stops: `x` lands after `done[..j]` when
      everything from `j` on is later than `x` and `done[j - 1]` is not. */
  lemma {:induction false} InsertAt(done: seq<Bookmark>, j: nat, x: Bookmark)
    requires j <= |done|
    requires j == 0 || done[j - 1].timestamp <= x.timestamp
    requires forall k :: j <= k < |done| ==> x.timestamp < done[k].timestamp
    ensures InsertByTime(done, x) == done[..j] + [x] + done[j..]
    decreases |done|
  {
    if j == |done| {
      assert done[..j] == done && done[j..] == [];
    } else {
      var init, last := done[..|done| - 1], done[|done| - 1];
      InsertAt(init, j, x);
      assert init[..j] == done[..j];
      assert init[j..] + [last] == done[j..];
    }
  }

  lemma SortPrefix(s: seq<Bookmark>, i: nat)
    requires i < |s|
    ensures SortByTime(s[..i + 1]) == InsertByTime(SortByTime(s[..i]), s[i])
  {
    assert s[..i + 1][..i] == s[..i];
  }

  /** A sequence that agrees with `done` before `j`, holds `x` at `j` and
      agrees with `done` shifted by one after `j` is `done` with `x` put in at `j`. */
  lemma ShiftedIn(s: seq<Bookmark>, done: seq<Bookmark>, j: nat, x: Bookmark)
    requires j <= |done| && |s| == |done| + 1
    requires forall k :: 0 <= k < j ==> s[k] == done[k]
    requires s[j] == x
    requires forall k :: j < k < |s| ==> s[k] == done[k - 1]
    ensures s == done[..j] + [x] + done[j..]
  {
  }

  /** Moves `a[i]` left past every larger record of `a[..i]`. */
  method InsertInPlace(a: array<Bookmark>, i: nat)
    requires i < a.Length
    modifies a
    ensures a[..i + 1] == InsertByTime(old(a[..i]), old(a[i]))
    ensures a[i + 1..] == old(a[i + 1..])
  {
    var x := a[i];
    ghost var done := a[..i];
    var j := i;
    while j > 0 && x.timestamp < a[j - 1].timestamp
      invariant 0 <= j <= i
      invariant forall k :: 0 <= k < j ==> a[k] == done[k]
      invariant forall k :: j < k <= i ==> a[k] == done[k - 1]
      invariant forall k :: i < k < a.Length ==> a[k] == old(a[k])
      invariant forall k :: j <= k < i ==> x.timestamp < done[k].timestamp
    {
      a[j] := a[j - 1];
      j := j - 1;
    }
    a[j] := x;
    InsertAt(done, j, x);
    ShiftedIn(a[..i + 1], done, j, x);
  }

  /** `array.sort((a, b) => a.timestamp - b.timestamp)` in place: an
      insertion sort that shifts larger records one slot to the right. */
  method SortByTimestamp(a: array<Bookmark>)
    modifies a
    ensures a[..] == SortByTime(old(a[..]))
  {
    ghost var input := a[..];
    for i := 0 to a.Length
      invariant a[..i] == SortByTime(input[..i])
      invariant a[i..] == input[i..]
    {
      assert a[i] == input[i..][0];
      InsertInPlace(a, i);
      SortPrefix(input, i);
    }
    assert a[..] == a[..a.Length];
    assert input == input[..a.Length];
  }
}
