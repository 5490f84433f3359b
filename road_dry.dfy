/** The instant dryness check (`is_road_dry`): sort the records by day, take
    the last (at most) two, and call the road dry iff each of them has rain
    <= 5 mm and humidity <= 90 %. */
module RoadDry {
  import opened Records

  ghost predicate SortedByDay(s: seq<Day>) {
    forall i, j :: 0 <= i < j < |s| ==> s[i].day <= s[j].day
  }

  /** No two records share a day. */
  ghost predicate DistinctDays(rows: seq<Day>) {
    forall i, j :: 0 <= i < j < |rows| ==> rows[i].day != rows[j].day
  }

  /** Inserts `r` before the first record that is not earlier than it. */
  function Insert(r: Day, s: seq<Day>): seq<Day> {
    if s == [] || r.day <= s[0].day then [r] + s
    else [s[0]] + Insert(r, s[1..])
  }

  /** The records ordered by day (`sort_values("date_day")`); records with
      the same day keep their input order. */
  function SortByDay(rows: seq<Day>): seq<Day> {
    if rows == [] then []
    else Insert(rows[0], SortByDay(rows[1..]))
  }

  /** The number of records dated strictly after day `d`. */
  function Later(rows: seq<Day>, d: int): (c: nat)
    ensures c <= |rows|
  {
    if rows == [] then 0
    else (if rows[0].day > d then 1 else 0) + Later(rows[1..], d)
  }

  /** The last two records by day (`tail(2)`), or all of them when there
      are fewer. */
  function LatestTwo(rows: seq<Day>): seq<Day> {
    var s := SortByDay(rows);
    s[|s| - (if |s| < 2 then |s| else 2)..]
  }

  /** `is_road_dry`: the rain test and the humidity test are each taken
      over the whole window, then combined. */
  function IsRoadDry(rows: seq<Day>): (dry: bool)
    ensures dry <==> forall b :: b in LatestTwo(rows) ==> LooksDry(b)
    ensures rows == [] ==> dry
    ensures |rows| == 1 ==> (dry <==> LooksDry(rows[0]))
  {
    var window := LatestTwo(rows);
    LatestTwoIsLatest(rows);
    assert |rows| == 1 ==> multiset(window) == multiset(rows) && window == [window[0]];
    var rainOk := forall b :: b in window ==> b.rain <= HeavyRainMm;
    var humidityOk := forall b :: b in window ==> b.hum <= HighHumidityPct;
    rainOk && humidityOk
  }

  /** Inserting adds exactly `r`. */
  lemma {:induction false} InsertPermutes(r: Day, s: seq<Day>)
    ensures multiset(Insert(r, s)) == multiset(s) + multiset{r}
  {
    if s != [] && r.day > s[0].day {
      InsertPermutes(r, s[1..]);
      assert s == [s[0]] + s[1..];
    }
  }

  /** A record dated no later than every record of a sorted list can be
      put in front of it. */
  lemma {:induction false} SortedCons(x: Day, s: seq<Day>)
    requires SortedByDay(s)
    requires forall y :: y in s ==> x.day <= y.day
    ensures SortedByDay([x] + s)
  {
  }

  /** Inserting into a sorted list keeps it sorted. */
  lemma {:induction false} InsertSorted(r: Day, s: seq<Day>)
    requires SortedByDay(s)
    ensures SortedByDay(Insert(r, s))
  {
    if s == [] || r.day <= s[0].day {
      forall y | y in s
        ensures r.day <= y.day
      {
        var j :| 0 <= j < |s| && s[j] == y;
      }
      SortedCons(r, s);
    } else {
      var rest := Insert(r, s[1..]);
      assert SortedByDay(s[1..]);
      InsertSorted(r, s[1..]);
      InsertPermutes(r, s[1..]);
      forall y | y in rest
        ensures s[0].day <= y.day
      {
        assert y in multiset(rest);
        if y != r {
          assert y in s[1..];
        }
      }
      SortedCons(s[0], rest);
    }
  }

  /** Sorting yields a list sorted by day that is a permutation of the
      input. */
  lemma {:induction false} SortByDayCorrect(rows: seq<Day>)
    ensures SortedByDay(SortByDay(rows))
    ensures multiset(SortByDay(rows)) == multiset(rows)
  {
    if rows != [] {
      SortByDayCorrect(rows[1..]);
      InsertSorted(rows[0], SortByDay(rows[1..]));
      InsertPermutes(rows[0], SortByDay(rows[1..]));
      assert rows == [rows[0]] + rows[1..];
    }
  }

  /** The window holds min(2, n) of the input records, and no record left
      out of it is dated after a record kept. */
  lemma {:induction false} LatestTwoIsLatest(rows: seq<Day>)
    ensures |LatestTwo(rows)| == if |rows| < 2 then |rows| else 2
    ensures multiset(LatestTwo(rows)) <= multiset(rows)
    ensures forall r, b :: r in multiset(rows) - multiset(LatestTwo(rows)) && b in LatestTwo(rows) ==>
      r.day <= b.day
  {
    var s := SortByDay(rows);
    SortByDayCorrect(rows);
    var k := if |s| < 2 then |s| else 2;
    var rest, w := s[..|s| - k], s[|s| - k..];
    assert s == rest + w;
    assert multiset(rows) - multiset(w) == multiset(rest);
    forall r, b | r in multiset(rows) - multiset(w) && b in w
      ensures r.day <= b.day
    {
      assert r in rest;
    }
  }

  lemma {:induction false} LaterAppend(a: seq<Day>, b: seq<Day>, d: int)
    ensures Later(a + b, d) == Later(a, d) + Later(b, d)
  {
    if a == [] {
      assert a + b == b;
    } else {
      assert (a + b)[1..] == a[1..] + b;
      LaterAppend(a[1..], b, d);
    }
  }

  lemma {:induction false} LaterInsert(r: Day, s: seq<Day>, d: int)
    ensures Later(Insert(r, s), d) == Later(s, d) + (if r.day > d then 1 else 0)
  {
    if s == [] || r.day <= s[0].day {
      assert ([r] + s)[1..] == s;
    } else {
      LaterInsert(r, s[1..], d);
      assert ([s[0]] + Insert(r, s[1..]))[1..] == Insert(r, s[1..]);
    }
  }

  /** Sorting does not change how many records are later than a day. */
  lemma {:induction false} LaterSort(rows: seq<Day>, d: int)
    ensures Later(SortByDay(rows), d) == Later(rows, d)
  {
    if rows != [] {
      LaterSort(rows[1..], d);
      LaterInsert(rows[0], SortByDay(rows[1..]), d);
    }
  }

  /** Records all dated after `d` are all counted. */
  lemma {:induction false} LaterAll(s: seq<Day>, d: int)
    requires forall x :: x in s ==> x.day > d
    ensures Later(s, d) == |s|
  {
    if s != [] {
      LaterAll(s[1..], d);
    }
  }

  /** Records none dated after `d` are not counted. */
  lemma {:induction false} LaterNone(s: seq<Day>, d: int)
    requires forall x :: x in s ==> x.day <= d
    ensures Later(s, d) == 0
  {
    if s != [] {
      LaterNone(s[1..], d);
    }
  }

  /** In a sorted sequence only records after position p can be later than
      the record at p. */
  lemma {:induction false} LaterSortedUpper(s: seq<Day>, p: nat)
    requires SortedByDay(s) && p < |s|
    ensures Later(s, s[p].day) <= |s| - 1 - p
  {
    assert s == s[..p + 1] + s[p + 1..];
    LaterAppend(s[..p + 1], s[p + 1..], s[p].day);
    LaterNone(s[..p + 1], s[p].day);
  }

  /** In a sorted sequence the record at p and every record after it are
      dated after any day earlier than the record at p. */
  lemma {:induction false} LaterSortedLower(s: seq<Day>, p: nat, d: int)
    requires SortedByDay(s) && p < |s| && d < s[p].day
    ensures Later(s, d) >= |s| - p
  {
    assert s == s[..p] + s[p..];
    LaterAppend(s[..p], s[p..], d);
    LaterAll(s[p..], d);
  }

  /** When no record is dated exactly `d`, "after d - 1" and "after d"
      count the same records. */
  lemma {:induction false} LaterNoTie(s: seq<Day>, d: int)
    requires forall x :: x in s ==> x.day != d
    ensures Later(s, d - 1) == Later(s, d)
  {
    if s != [] {
      LaterNoTie(s[1..], d);
    }
  }

  /** With distinct days, the records dated on or after a record are the
      ones dated after it plus the record itself. */
  lemma {:induction false} LaterSelf(rows: seq<Day>, i: nat)
    requires DistinctDays(rows) && i < |rows|
    ensures Later(rows, rows[i].day - 1) == Later(rows, rows[i].day) + 1
  {
    var d := rows[i].day;
    var a, b := rows[..i], rows[i + 1..];
    assert rows == a + [rows[i]] + b;
    assert forall x :: x in a ==> x.day != d;
    assert forall x :: x in b ==> x.day != d;
    LaterAppend(a + [rows[i]], b, d);
    LaterAppend(a + [rows[i]], b, d - 1);
    LaterAppend(a, [rows[i]], d);
    LaterAppend(a, [rows[i]], d - 1);
    LaterNoTie(a, d);
    LaterNoTie(b, d);
  }

  /** In a sorted list, a position in the tail of length k has at most k - 1
      records dated after it. */
  lemma {:induction false} TailIsLatest(s: seq<Day>, k: nat, q: nat)
    requires SortedByDay(s) && k <= |s| && |s| - k <= q < |s|
    ensures Later(s, s[q].day) < k
  {
    LaterSortedUpper(s, q);
  }

  /** In a sorted list, a position with at most k records dated on or after
      it lies in the tail of length min(k, n). */
  lemma {:induction false} RecentIsInTail(s: seq<Day>, k: nat, q: nat, d: int)
    requires SortedByDay(s) && q < |s| && d < s[q].day && Later(s, d) <= k
    ensures |s| - k <= q
  {
    LaterSortedLower(s, q, d);
  }

  /** Every record of the window has fewer than two records dated after it. */
  lemma {:induction false} WindowIsLatest(rows: seq<Day>, b: Day)
    requires b in LatestTwo(rows)
    ensures Later(rows, b.day) < 2
  {
    var s := SortByDay(rows);
    var k := if |s| < 2 then |s| else 2;
    SortByDayCorrect(rows);
    var q :| |s| - k <= q < |s| && s[q] == b;
    TailIsLatest(s, k, q);
    LaterSort(rows, b.day);
  }

  /** Where a record with at most two records dated on or after it lands
      in the sorted list. */
  lemma {:induction false} RecentSortedPosition(rows: seq<Day>, x: Day, s: seq<Day>, q: nat)
    requires Later(rows, x.day - 1) <= 2
    requires s == SortByDay(rows) && q < |s| && s[q] == x
    ensures |s| - 2 <= q
  {
    SortByDayCorrect(rows);
    LaterSort(rows, x.day - 1);
    RecentIsInTail(s, 2, q, x.day - 1);
  }

  /** A position at most two from the end lies in the tail of length
      min(2, n). */
  lemma {:induction false} InTail(s: seq<Day>, q: nat)
    requires |s| - 2 <= q < |s|
    ensures s[q] in s[|s| - (if |s| < 2 then |s| else 2)..]
  {
  }

  /** A record with at most two records (itself included) dated on or after
      it is in the window. */
  lemma {:induction false} RecentIsInWindow(rows: seq<Day>, x: Day)
    requires x in rows && Later(rows, x.day - 1) <= 2
    ensures x in LatestTwo(rows)
  {
    var s := SortByDay(rows);
    SortByDayCorrect(rows);
    assert x in multiset(s);
    var q :| 0 <= q < |s| && s[q] == x;
    RecentSortedPosition(rows, x, s, q);
    InTail(s, q);
  }

  /** For distinct days: if the road is dry, every record with fewer than two
      records dated after it looks dry. */
  lemma {:induction false} DryMeansRecentLookDry(rows: seq<Day>, i: nat)
    requires DistinctDays(rows) && i < |rows| && Later(rows, rows[i].day) < 2
    requires IsRoadDry(rows)
    ensures LooksDry(rows[i])
  {
    LaterSelf(rows, i);
    RecentIsInWindow(rows, rows[i]);
  }

  /** If every record with fewer than two records dated after it looks dry,
      the road is dry. */
  lemma {:induction false} RecentLookDryMeansDry(rows: seq<Day>)
    requires forall i :: 0 <= i < |rows| && Later(rows, rows[i].day) < 2 ==> LooksDry(rows[i])
    ensures IsRoadDry(rows)
  {
    forall b | b in LatestTwo(rows)
      ensures LooksDry(b)
    {
      WindowIsLatest(rows, b);
      LatestTwoIsLatest(rows);
      assert b in multiset(LatestTwo(rows));
      var i :| 0 <= i < |rows| && rows[i] == b;
    }
  }

  /** For records with distinct days, the road is dry iff every record with
      fewer than two records dated after it (that is, each of the last
      min(2, n) records by day) has rain <= 5 mm and humidity <= 90 %. */
  lemma {:induction false} IsRoadDryIff(rows: seq<Day>)
    requires DistinctDays(rows)
    ensures IsRoadDry(rows) <==>
      forall i :: 0 <= i < |rows| && Later(rows, rows[i].day) < 2 ==> LooksDry(rows[i])
  {
    if IsRoadDry(rows) {
      forall i | 0 <= i < |rows| && Later(rows, rows[i].day) < 2
        ensures LooksDry(rows[i])
      {
        DryMeansRecentLookDry(rows, i);
      }
    } else if forall i :: 0 <= i < |rows| && Later(rows, rows[i].day) < 2 ==> LooksDry(rows[i]) {
      RecentLookDryMeansDry(rows);
    }
  }

  /** An example: one record, light rain, humid: not dry. */
  lemma {:induction false} Example()
    ensures !IsRoadDry([Day(0, 3.0, 91.0)])
  {
  }
}
