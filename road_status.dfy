/** The per-day road-status classifier (`road_status_per_day`): a two-variable
    state machine folded left to right over the daily rows, in the order the
    rows are given, labelling every day Dry or Mud. */
module RoadStatus {
  import opened Records

  datatype Status = Dry | Mud

  /** The loop state of the classifier: `is_muddy` and `days_since_rain`. */
  datatype State = State(muddy: bool, sinceRain: int)

  /** One row of the returned table: the record, the two helper columns the
      classifier adds, and the `road_status` column. */
  datatype Row = Row(rec: Day, heavyRain: bool, highHumidity: bool, status: Status)

  /** The "arbitrarily large" starting value of `days_since_rain`. */
  const Sentinel: int := 99

  const Initial: State := State(false, Sentinel)

  /** One transition of the state machine on the record of one day. */
  function Next(s: State, d: Day): State {
    if HeavyRain(d) then State(true, 0)
    else if s.muddy then
      var n := s.sinceRain + 1;
      State(n < 2 || HighHumidity(d), n)
    else s
  }

  /** In every branch of the classifier the label written is Mud exactly when
      `is_muddy` holds after the update. */
  function StatusOf(s: State): Status {
    if s.muddy then Mud else Dry
  }

  /** The state after folding `Next` over `rows` from the initial state. */
  function Run(rows: seq<Day>): State {
    if rows == [] then Initial
    else Next(Run(rows[..|rows| - 1]), rows[|rows| - 1])
  }

  /** The labels of the fold, one per row, in row order. */
  function Labels(rows: seq<Day>): (labels: seq<Status>)
    ensures |labels| == |rows|
  {
    if rows == [] then []
    else Labels(rows[..|rows| - 1]) + [StatusOf(Run(rows))]
  }

  /** The index of the most recent heavy-rain row, if there is one. */
  function LastHeavy(rows: seq<Day>): (j: Option<nat>)
    ensures j.Some? ==> j.value < |rows| && HeavyRain(rows[j.value])
    ensures j.Some? ==> forall k :: j.value < k < |rows| ==> !HeavyRain(rows[k])
    ensures j.None? <==> forall k :: 0 <= k < |rows| ==> !HeavyRain(rows[k])
  {
    if rows == [] then None
    else if HeavyRain(rows[|rows| - 1]) then Some(|rows| - 1)
    else LastHeavy(rows[..|rows| - 1])
  }

  /** The documented rule, stated without the state machine: after `rows`
      the road is muddy iff some row j had heavy rain, no later row did, and
      every row from j + 2 on had high humidity (rows j + 1 is the grace
      period). */
  ghost predicate MudByRule(rows: seq<Day>) {
    exists j :: 0 <= j < |rows| && HeavyRain(rows[j])
      && (forall k :: j < k < |rows| ==> !HeavyRain(rows[k]))
      && (forall k :: j + 2 <= k < |rows| ==> HighHumidity(rows[k]))
  }

  /** Every row from j + 2 on had humidity > 90 %. */
  ghost predicate HumidFrom(rows: seq<Day>, j: nat) {
    forall k :: j + 2 <= k < |rows| ==> HighHumidity(rows[k])
  }

  /** Extending the rows by one day extends `HumidFrom` by that day. */
  lemma {:induction false} HumidFromSnoc(rows: seq<Day>, j: nat)
    requires rows != []
    ensures HumidFrom(rows, j) <==>
      HumidFrom(rows[..|rows| - 1], j) && (|rows| - 1 >= j + 2 ==> HighHumidity(rows[|rows| - 1]))
  {
  }

  /** The rule expressed through the most recent heavy-rain row. */
  lemma {:induction false} MudByRuleViaLastHeavy(rows: seq<Day>)
    ensures MudByRule(rows) <==> LastHeavy(rows).Some? && HumidFrom(rows, LastHeavy(rows).value)
  {
  }

  /** The fold invariant, stated through the most recent heavy-rain row. */
  lemma {:induction false} RunTracksLastHeavy(rows: seq<Day>)
    ensures Run(rows).muddy ==>
      LastHeavy(rows).Some? && Run(rows).sinceRain == |rows| - 1 - LastHeavy(rows).value
    ensures Run(rows).muddy <==> LastHeavy(rows).Some? && HumidFrom(rows, LastHeavy(rows).value)
  {
    if rows != [] {
      var p := rows[..|rows| - 1];
      var d := rows[|rows| - 1];
      RunTracksLastHeavy(p);
      assert Run(rows) == Next(Run(p), d);
      if !HeavyRain(d) {
        assert LastHeavy(rows) == LastHeavy(p);
        if LastHeavy(p).Some? {
          HumidFromSnoc(rows, LastHeavy(p).value);
        }
      }
    }
  }

  /** Invariant of the fold: while muddy, the counter is exactly the number
      of rows since the most recent heavy-rain row (so the sentinel is never
      read), and the state is muddy exactly when the documented rule says. */
  lemma {:induction false} RunInvariant(rows: seq<Day>)
    ensures Run(rows).muddy ==>
      LastHeavy(rows).Some? && Run(rows).sinceRain == |rows| - 1 - LastHeavy(rows).value
    ensures Run(rows).muddy <==> MudByRule(rows)
  {
    RunTracksLastHeavy(rows);
    MudByRuleViaLastHeavy(rows);
  }

  /** The fold state after the first i + 1 rows is one step from the state
      after the first i. */
  lemma {:induction false} RunStep(rows: seq<Day>, i: nat)
    requires i < |rows|
    ensures Run(rows[..i + 1]) == Next(Run(rows[..i]), rows[i])
  {
    assert rows[..i + 1][..i] == rows[..i];
  }

  /** One more row adds one label, read off the state after that row. */
  lemma {:induction false} LabelsStep(rows: seq<Day>, i: nat)
    requires i < |rows|
    ensures Labels(rows[..i + 1]) == Labels(rows[..i]) + [StatusOf(Run(rows[..i + 1]))]
  {
    assert rows[..i + 1][..i] == rows[..i];
  }

  /** The label of row i is read off the state after rows 0..i. */
  lemma {:induction false} LabelsAt(rows: seq<Day>, i: nat)
    requires i < |rows|
    ensures Labels(rows)[i] == StatusOf(Run(rows[..i + 1]))
  {
    if i == |rows| - 1 {
      assert rows[..i + 1] == rows;
    } else {
      var p := rows[..|rows| - 1];
      LabelsAt(p, i);
      assert p[..i + 1] == rows[..i + 1];
    }
  }

  /** The label at position i depends only on rows 0..i. */
  lemma {:induction false} LabelsPrefix(rows: seq<Day>, n: nat)
    requires n <= |rows|
    ensures Labels(rows)[..n] == Labels(rows[..n])
  {
    forall i | 0 <= i < n
      ensures Labels(rows)[i] == Labels(rows[..n])[i]
    {
      LabelsAt(rows, i);
      LabelsAt(rows[..n], i);
      assert rows[..n][..i + 1] == rows[..i + 1];
    }
  }

  /** Appending rows never changes the labels of the earlier rows. */
  lemma {:induction false} AppendKeepsLabels(rows: seq<Day>, more: seq<Day>)
    ensures Labels(rows + more)[..|rows|] == Labels(rows)
  {
    LabelsPrefix(rows + more, |rows|);
    assert (rows + more)[..|rows|] == rows;
  }

  /** Main theorem: the label of row i is Mud exactly when the documented
      rule holds of rows 0..i. */
  lemma {:induction false} LabelsFollowRule(rows: seq<Day>, i: nat)
    requires i < |rows|
    ensures Labels(rows)[i] == Mud <==> MudByRule(rows[..i + 1])
  {
    LabelsAt(rows, i);
    RunInvariant(rows[..i + 1]);
  }

  /** Any day with rain > 5 mm is Mud, whatever the state and humidity. */
  lemma {:induction false} HeavyRainIsMud(rows: seq<Day>, i: nat)
    requires i < |rows| && HeavyRain(rows[i])
    ensures Labels(rows)[i] == Mud
  {
    LabelsAt(rows, i);
    RunStep(rows, i);
  }

  /** Grace period: the day after a heavy-rain day is Mud even when it is
      itself dry and not humid. */
  lemma {:induction false} DayAfterHeavyRainIsMud(rows: seq<Day>, i: nat)
    requires i + 1 < |rows| && HeavyRain(rows[i])
    ensures Labels(rows)[i + 1] == Mud
  {
    LabelsAt(rows, i + 1);
    RunStep(rows, i + 1);
    RunStep(rows, i);
  }

  /** Once muddy, a day with humidity > 90 % stays Mud. */
  lemma {:induction false} HumidityKeepsMud(rows: seq<Day>, i: nat)
    requires 0 < i < |rows|
    requires Labels(rows)[i - 1] == Mud && HighHumidity(rows[i])
    ensures Labels(rows)[i] == Mud
  {
    LabelsAt(rows, i - 1);
    LabelsAt(rows, i);
    RunStep(rows, i);
  }

  /** After a Mud day, a day without heavy rain turns Dry exactly when at
      least two rows have passed since the most recent heavy rain and its
      humidity is at most 90 %. */
  lemma {:induction false} MudClearsExactly(rows: seq<Day>, i: nat)
    requires 0 < i < |rows|
    requires Labels(rows)[i - 1] == Mud && !HeavyRain(rows[i])
    ensures LastHeavy(rows[..i]).Some?
    ensures Labels(rows)[i] == Dry <==>
      i - LastHeavy(rows[..i]).value >= 2 && !HighHumidity(rows[i])
  {
    LabelsAt(rows, i - 1);
    LabelsAt(rows, i);
    RunStep(rows, i);
    assert rows[..i - 1 + 1] == rows[..i];
    RunInvariant(rows[..i]);
  }

  /** A Dry day is followed by Dry days until the next heavy rain. */
  lemma {:induction false} DryStaysDry(rows: seq<Day>, i: nat)
    requires 0 < i < |rows|
    requires Labels(rows)[i - 1] == Dry && !HeavyRain(rows[i])
    ensures Labels(rows)[i] == Dry
  {
    LabelsAt(rows, i - 1);
    LabelsAt(rows, i);
    RunStep(rows, i);
    assert rows[..i - 1 + 1] == rows[..i];
  }

  /** Without any heavy rain every day is Dry. */
  lemma {:induction false} NoHeavyRainAllDry(rows: seq<Day>)
    requires forall k :: 0 <= k < |rows| ==> !HeavyRain(rows[k])
    ensures forall i :: 0 <= i < |rows| ==> Labels(rows)[i] == Dry
  {
    forall i | 0 <= i < |rows|
      ensures Labels(rows)[i] == Dry
    {
      LabelsFollowRule(rows, i);
      MudByRuleViaLastHeavy(rows[..i + 1]);
    }
  }

  /** Two examples of the classifier: a dry day then a wet day;
      and rain under persistently high humidity that clears only once the
      grace period is over and the humidity drops. */
  lemma {:induction false} Examples()
    ensures Labels([Day(0, 0.0, 50.0), Day(1, 8.0, 60.0)]) == [Dry, Mud]
    ensures Labels([Day(0, 8.0, 95.0), Day(1, 0.0, 95.0), Day(2, 0.0, 95.0), Day(3, 0.0, 50.0)])
      == [Mud, Mud, Mud, Dry]
  {
    var a := [Day(0, 0.0, 50.0), Day(1, 8.0, 60.0)];
    assert a[..1] == [Day(0, 0.0, 50.0)];
    assert [Day(0, 0.0, 50.0)][..0] == [];
    var b := [Day(0, 8.0, 95.0), Day(1, 0.0, 95.0), Day(2, 0.0, 95.0), Day(3, 0.0, 50.0)];
    HeavyRainIsMud(b, 0);
    DayAfterHeavyRainIsMud(b, 0);
    HumidityKeepsMud(b, 2);
    MudClearsExactly(b, 3);
    assert LastHeavy(b[..3]) == Some(0) by {
      assert b[..3][..2] == b[..2];
      assert b[..2][..1] == b[..1];
    }
  }

  /** The grace period counts rows, not days: a heavy-rain day followed,
      five days later, by a dry and not humid day still gives Mud, Mud. */
  lemma {:induction false} GapDoesNotCount()
    ensures Labels([Day(0, 8.0, 60.0), Day(5, 0.0, 50.0)]) == [Mud, Mud]
  {
    var c := [Day(0, 8.0, 60.0), Day(5, 0.0, 50.0)];
    HeavyRainIsMud(c, 0);
    DayAfterHeavyRainIsMud(c, 0);
  }

  /** `road_status_per_day`: copies the table, adds the `heavy_rain` and
      `high_humidity` columns and a `road_status` column preset to Dry, then
      walks the rows by position, updating `is_muddy` and `days_since_rain`
      and writing each row's status in place. The input is left untouched;
      the result has one row per input row, in order, labelled by the fold. */
  method RoadStatusPerDay(rows: seq<Day>) returns (table: array<Row>)
    ensures fresh(table)
    ensures table.Length == |rows|
    ensures forall i :: 0 <= i < |rows| ==>
      table[i] == Row(rows[i], HeavyRain(rows[i]), HighHumidity(rows[i]), Labels(rows)[i])
  {
    var n := |rows|;
    table := new Row[n](i requires 0 <= i < n =>
      Row(rows[i], HeavyRain(rows[i]), HighHumidity(rows[i]), Dry));
    var isMuddy := false;
    var daysSinceRain := Sentinel;
    var i := 0;
    while i < n
      invariant 0 <= i <= n
      invariant State(isMuddy, daysSinceRain) == Run(rows[..i])
      invariant forall k :: 0 <= k < i ==>
        table[k] == Row(rows[k], HeavyRain(rows[k]), HighHumidity(rows[k]), Labels(rows[..i])[k])
      invariant forall k :: i <= k < n ==>
        table[k] == Row(rows[k], HeavyRain(rows[k]), HighHumidity(rows[k]), Dry)
    {
      if table[i].heavyRain {
        isMuddy := true;
        daysSinceRain := 0;
        table[i] := table[i].(status := Mud);
      } else if isMuddy {
        daysSinceRain := daysSinceRain + 1;
        if daysSinceRain < 2 || table[i].highHumidity {
          table[i] := table[i].(status := Mud);
        } else {
          isMuddy := false;
          table[i] := table[i].(status := Dry);
        }
      } else {
        table[i] := table[i].(status := Dry);
      }
      RunStep(rows, i);
      LabelsStep(rows, i);
      i := i + 1;
    }
    assert rows[..n] == rows;
  }
}
