/** The daily weather record shared by the three road-status functions. */
module Records {

  datatype Option<T> = None | Some(value: T)

  /** One daily aggregate for a single location. `day` is the calendar
      date as a day number; `rain` is the daily rain total in mm and `hum`
      the mean relative humidity in %. The measurements are only ever
      compared against thresholds, so exact reals stand in for floats. */
  datatype Day = Day(day: int, rain: real, hum: real)

  /** Rain strictly above this many mm makes the road muddy. */
  const HeavyRainMm: real := 5.0

  /** Humidity strictly above this many % keeps the road muddy. */
  const HighHumidityPct: real := 90.0

  /** The `heavy_rain` column: rain > 5 mm. */
  predicate HeavyRain(d: Day) {
    d.rain > HeavyRainMm
  }

  /** The `high_humidity` column: humidity > 90 %. */
  predicate HighHumidity(d: Day) {
    d.hum > HighHumidityPct
  }

  /** The static dryness threshold of the instant check and the estimator:
      rain <= 5 mm and humidity <= 90 %. */
  predicate LooksDry(d: Day) {
    d.rain <= HeavyRainMm && d.hum <= HighHumidityPct
  }
}
