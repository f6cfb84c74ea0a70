/** Global ordering: Python's built-in `sorted` keyed on the timestamp. `sorted` is a stable sort,
    so it is modelled by a stable insertion sort, and the lemmas below show that any sequence that
    is ordered by time and keeps the relative order of equal-time points is this one. */
module TimeSort {
  import opened GpxModel

  /** Non-decreasing in time. */
  ghost predicate SortedByTime(s: seq<TrackPoint>)
  {
    forall i, j :: 0 <= i < j < |s| ==> s[i].time <= s[j].time
  }

  /** The points of `s` whose timestamp is `t`, in their order in `s`. */
  function WithTime(s: seq<TrackPoint>, t: int): seq<TrackPoint>
  {
    if s == [] then []
    else (if s[0].time == t then [s[0]] else []) + WithTime(s[1..], t)
  }

  /** The sort keeps the order of equal-time points exactly when every time class is unchanged. */
  ghost predicate StableFor(out: seq<TrackPoint>, input: seq<TrackPoint>)
  {
    forall t :: WithTime(out, t) == WithTime(input, t)
  }

  /** Inserts `p` into a time-ordered sequence after every point whose time is not later. */
  function Insert(s: seq<TrackPoint>, p: TrackPoint): (r: seq<TrackPoint>)
    ensures multiset(r) == multiset(s) + multiset{p}
  {
    if s == [] || p.time < s[0].time then [p] + s
    else
      assert s == [s[0]] + s[1..];
      [s[0]] + Insert(s[1..], p)
  }

  /** The result of `sorted(points, key=time)`: each point, in input order, inserted into the
      sorted prefix before it. */
  function SortByTime(s: seq<TrackPoint>): (r: seq<TrackPoint>)
    ensures multiset(r) == multiset(s)
  {
    if s == [] then []
    else
      assert s == s[..|s| - 1] + [s[|s| - 1]];
      Insert(SortByTime(s[..|s| - 1]), s[|s| - 1])
  }

  lemma {:induction false} WithTimeAppend(a: seq<TrackPoint>, b: seq<TrackPoint>, t: int)
    ensures WithTime(a + b, t) == WithTime(a, t) + WithTime(b, t)
  {
    if a == [] {
      assert a + b == b;
    } else {
      var head := if a[0].time == t then [a[0]] else [];
      assert (a + b)[0] == a[0];
      assert (a + b)[1..] == a[1..] + b;
      calc {
        WithTime(a + b, t);
        head + WithTime(a[1..] + b, t);
        { WithTimeAppend(a[1..], b, t); }
        head + (WithTime(a[1..], t) + WithTime(b, t));
        (head + WithTime(a[1..], t)) + WithTime(b, t);
        WithTime(a, t) + WithTime(b, t);
      }
    }
  }

  lemma {:induction false} WithTimeNone(s: seq<TrackPoint>, t: int)
    requires forall i :: 0 <= i < |s| ==> s[i].time != t
    ensures WithTime(s, t) == []
  {
    if s != [] {
      WithTimeNone(s[1..], t);
    }
  }

  /** Every member of a time class has that time and comes from the sequence; every point of the
      sequence is in its own time class. */
  lemma {:induction false} WithTimeMembers(s: seq<TrackPoint>, t: int)
    ensures forall x :: x in WithTime(s, t) <==> x in s && x.time == t
  {
    if s != [] {
      WithTimeMembers(s[1..], t);
      assert s == [s[0]] + s[1..];
    }
  }

  lemma {:induction false} InsertSorted(s: seq<TrackPoint>, p: TrackPoint)
    requires SortedByTime(s)
    ensures SortedByTime(Insert(s, p))
  {
    if s != [] && p.time >= s[0].time {
      InsertSorted(s[1..], p);
      var r := Insert(s[1..], p);
      InsertMembers(s[1..], p);
      HeadIsEarliest(s);
      assert forall k :: 0 <= k < |r| ==> s[0].time <= r[k].time by {
        forall k | 0 <= k < |r|
          ensures s[0].time <= r[k].time
        {
          assert r[k] in r;
        }
      }
      assert Insert(s, p) == [s[0]] + r;
    }
  }

  /** Inserting adds the point and nothing else. */
  lemma {:induction false} InsertMembers(s: seq<TrackPoint>, p: TrackPoint)
    ensures forall x :: x in Insert(s, p) <==> x in s || x == p
  {
    forall x
      ensures x in Insert(s, p) <==> x in s || x == p
    {
      assert x in Insert(s, p) <==> x in multiset(Insert(s, p));
      assert x in s <==> x in multiset(s);
    }
  }

  /** Nothing in a time-ordered sequence is earlier than its first point. */
  lemma {:induction false} HeadIsEarliest(s: seq<TrackPoint>)
    requires SortedByTime(s) && s != []
    ensures forall x :: x in s[1..] ==> s[0].time <= x.time
  {
    forall x | x in s[1..]
      ensures s[0].time <= x.time
    {
      var j :| 0 <= j < |s[1..]| && s[1..][j] == x;
      assert s[j + 1] == x;
    }
  }

  /** The time class of a sequence that starts with `x`. */
  lemma {:induction false} WithTimeCons(x: TrackPoint, r: seq<TrackPoint>, t: int)
    ensures WithTime([x] + r, t) == (if x.time == t then [x] else []) + WithTime(r, t)
  {
    assert ([x] + r)[0] == x;
    assert ([x] + r)[1..] == r;
  }

  /** A point earlier than everything in a sorted sequence is alone in its time class. */
  lemma {:induction false} InsertFrontWithTime(s: seq<TrackPoint>, p: TrackPoint, t: int)
    requires SortedByTime(s) && s != [] && p.time < s[0].time
    ensures WithTime([p] + s, t) == WithTime(s, t) + (if p.time == t then [p] else [])
  {
    WithTimeCons(p, s, t);
    if p.time == t {
      assert forall i :: 0 <= i < |s| ==> s[0].time <= s[i].time;
      WithTimeNone(s, t);
    }
  }

  /** Inserting into a sorted sequence puts `p` last in its time class. */
  lemma {:induction false} InsertWithTime(s: seq<TrackPoint>, p: TrackPoint, t: int)
    requires SortedByTime(s)
    ensures WithTime(Insert(s, p), t) == WithTime(s, t) + (if p.time == t then [p] else [])
  {
    if s == [] {
      assert Insert(s, p) == [p] + [];
      WithTimeCons(p, [], t);
    } else if p.time < s[0].time {
      assert Insert(s, p) == [p] + s;
      InsertFrontWithTime(s, p, t);
    } else {
      assert SortedByTime(s[1..]);
      InsertWithTime(s[1..], p, t);
      InsertLaterWithTime(s, p, t);
    }
  }

  /** The step of InsertWithTime where `p` goes after the first point. */
  lemma {:induction false} InsertLaterWithTime(s: seq<TrackPoint>, p: TrackPoint, t: int)
    requires s != [] && p.time >= s[0].time
    requires WithTime(Insert(s[1..], p), t) == WithTime(s[1..], t) + (if p.time == t then [p] else [])
    ensures WithTime(Insert(s, p), t) == WithTime(s, t) + (if p.time == t then [p] else [])
  {
    var x, rest := s[0], Insert(s[1..], p);
    var tail := if p.time == t then [p] else [];
    var head := if x.time == t then [x] else [];
    var mid := WithTime(s[1..], t);
    assert Insert(s, p) == [x] + rest;
    WithTimeCons(x, rest, t);
    assert WithTime(Insert(s, p), t) == head + (mid + tail);
    assert WithTime(s, t) == head + mid;
    AppendAssoc(head, mid, tail);
  }

  lemma {:induction false} SortByTimeSorted(s: seq<TrackPoint>)
    ensures SortedByTime(SortByTime(s))
  {
    if s != [] {
      SortByTimeSorted(s[..|s| - 1]);
      InsertSorted(SortByTime(s[..|s| - 1]), s[|s| - 1]);
    }
  }

  /** Sorting one more point adds it at the end of its time class. */
  lemma {:induction false} SortByTimeLastWithTime(s: seq<TrackPoint>, t: int)
    requires s != []
    ensures WithTime(SortByTime(s), t)
            == WithTime(SortByTime(s[..|s| - 1]), t) + (if s[|s| - 1].time == t then [s[|s| - 1]] else [])
  {
    var init := s[..|s| - 1];
    SortByTimeSorted(init);
    InsertWithTime(SortByTime(init), s[|s| - 1], t);
  }

  /** The last point of a sequence comes last in its time class. */
  lemma {:induction false} WithTimeLast(s: seq<TrackPoint>, t: int)
    requires s != []
    ensures WithTime(s, t)
            == WithTime(s[..|s| - 1], t) + (if s[|s| - 1].time == t then [s[|s| - 1]] else [])
  {
    var x := s[|s| - 1];
    assert s == s[..|s| - 1] + [x];
    WithTimeAppend(s[..|s| - 1], [x], t);
    assert [x][1..] == [];
  }

  lemma {:induction false} SortByTimeWithTime(s: seq<TrackPoint>, t: int)
    ensures WithTime(SortByTime(s), t) == WithTime(s, t)
  {
    if s != [] {
      SortByTimeLastWithTime(s, t);
      SortByTimeWithTime(s[..|s| - 1], t);
      WithTimeLast(s, t);
    }
  }

  /** The model of `sorted`: a permutation, ordered by time, and stable. */
  lemma {:induction false} SortByTimeIsStableSort(s: seq<TrackPoint>)
    ensures multiset(SortByTime(s)) == multiset(s)
    ensures SortedByTime(SortByTime(s))
    ensures StableFor(SortByTime(s), s)
  {
    SortByTimeSorted(s);
    forall t
      ensures WithTime(SortByTime(s), t) == WithTime(s, t)
    {
      SortByTimeWithTime(s, t);
    }
  }

  lemma {:induction false} WithTimeOfHead(s: seq<TrackPoint>)
    requires s != []
    ensures WithTime(s, s[0].time) == [s[0]] + WithTime(s[1..], s[0].time)
  {
  }

  /** Sequences with the same time classes are both empty or both not. */
  lemma {:induction false} SameClassesSameEmptiness(a: seq<TrackPoint>, b: seq<TrackPoint>)
    requires forall t :: WithTime(a, t) == WithTime(b, t)
    ensures a == [] <==> b == []
  {
    if a != [] {
      WithTimeOfHead(a);
      assert WithTime(b, a[0].time) != [];
    }
    if b != [] {
      WithTimeOfHead(b);
      assert WithTime(a, b[0].time) != [];
    }
  }

  /** Non-empty time-ordered sequences with the same time classes start with the same point, and
      what follows has the same time classes again. */
  lemma {:induction false} SameClassesSameHead(a: seq<TrackPoint>, b: seq<TrackPoint>)
    requires a != [] && b != []
    requires SortedByTime(a) && SortedByTime(b)
    requires forall t :: WithTime(a, t) == WithTime(b, t)
    ensures a[0] == b[0]
    ensures forall t :: WithTime(a[1..], t) == WithTime(b[1..], t)
  {
    var ta, tb := a[0].time, b[0].time;
    WithTimeMembers(a, tb);
    WithTimeMembers(b, ta);
    WithTimeOfHead(a);
    WithTimeOfHead(b);
    assert b[0] in WithTime(b, tb);
    assert a[0] in WithTime(a, ta);
    assert ta == tb;
    assert WithTime(a, ta)[0] == a[0] && WithTime(b, ta)[0] == b[0];
    forall t
      ensures WithTime(a[1..], t) == WithTime(b[1..], t)
    {
      var head := if a[0].time == t then [a[0]] else [];
      assert WithTime(a, t) == head + WithTime(a[1..], t);
      assert WithTime(b, t) == head + WithTime(b[1..], t);
      assert (head + WithTime(a[1..], t))[|head|..] == WithTime(a[1..], t);
      assert (head + WithTime(b[1..], t))[|head|..] == WithTime(b[1..], t);
    }
  }

  /** Two time-ordered sequences with the same time classes are equal: a stable sort by time has
      exactly one possible result, so the insertion sort agrees with `sorted`. */
  lemma {:induction false} StableSortUnique(a: seq<TrackPoint>, b: seq<TrackPoint>)
    requires SortedByTime(a) && SortedByTime(b)
    requires forall t :: WithTime(a, t) == WithTime(b, t)
    ensures a == b
  {
    SameClassesSameEmptiness(a, b);
    if a != [] {
      SameClassesSameHead(a, b);
      StableSortUnique(a[1..], b[1..]);
      assert a == [a[0]] + a[1..];
      assert b == [b[0]] + b[1..];
    }
  }

  /** Any stable sort by time of `s` is SortByTime(s). */
  lemma {:induction false} StableSortIsSortByTime(s: seq<TrackPoint>, r: seq<TrackPoint>)
    requires SortedByTime(r) && StableFor(r, s)
    ensures r == SortByTime(s)
  {
    SortByTimeIsStableSort(s);
    StableSortUnique(r, SortByTime(s));
  }
}
