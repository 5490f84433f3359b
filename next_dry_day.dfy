/** The next-dry-day estimator (`estimate_next_dry_day`): a first-match scan,
    in row order, for a record dated today or later that meets the static
    dryness threshold. It deliberately ignores the classifier's grace period.
    The current date, which `estimate_next_dry_day` reads from the clock, is a
    parameter. */
module NextDryDay {
  import opened Records

  /** A row the estimator accepts: dated on or after `today`, rain <= 5 mm
      and humidity <= 90 %. */
  predicate Qualifies(d: Day, today: int) {
    d.day >= today && LooksDry(d)
  }

  /** Returns the day of the first qualifying row in row order, or None
      when no row qualifies. */
  method EstimateNextDryDay(rows: seq<Day>, today: int) returns (next: Option<int>)
    ensures next.None? <==> forall i :: 0 <= i < |rows| ==> !Qualifies(rows[i], today)
    ensures next.Some? ==> next.value >= today
    ensures next.Some? ==>
      exists i :: 0 <= i < |rows| && rows[i].day == next.value && Qualifies(rows[i], today) &&
        forall j :: 0 <= j < i ==> !Qualifies(rows[j], today)
  {
    var i := 0;
    while i < |rows|
      invariant 0 <= i <= |rows|
      invariant forall j :: 0 <= j < i ==> !Qualifies(rows[j], today)
    {
      var row := rows[i];
      if row.day >= today {
        if row.rain <= HeavyRainMm && row.hum <= HighHumidityPct {
          return Some(row.day);
        }
      }
      i := i + 1;
    }
    return None;
  }

  /** An example: with today = 2, the past dry-looking rows do not
      count and the answer is day 3. */
  method Example() returns (next: Option<int>)
    ensures next == Some(3)
  {
    var rows := [Day(0, 9.0, 99.0), Day(1, 8.0, 99.0), Day(2, 9.0, 99.0), Day(3, 2.0, 40.0)];
    next := EstimateNextDryDay(rows, 2);
    assert Qualifies(rows[3], 2);
    assert !Qualifies(rows[0], 2) && !Qualifies(rows[1], 2) && !Qualifies(rows[2], 2);
  }
}
