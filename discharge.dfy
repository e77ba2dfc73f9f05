/**
 * The discharge loader: the streamflow file of one basin, converted from
 * cubic feet per second to millimetres per day over the catchment area,
 * with negative results replaced by NaN.
 */
module Discharge {
  import opened Wrappers
  import opened Errors
  import opened Dates
  import opened FileMatch

  /**
   * A float without rounding: a real number, an infinity (from a division
   * by a zero area) or NaN, the missing-value marker.
   */
  datatype Float = Num(v: real) | Inf(negative: bool) | NaN

  /** The comparison x < 0, which is false for NaN. */
  predicate Negative(x: Float) {
    match x
    case Num(v) => v < 0.0
    case Inf(negative) => negative
    case NaN => false
  }

  /** One line of a streamflow file: basin, Year, Mnth, Day, QObs (cfs) and the quality flag. */
  datatype FlowRow = FlowRow(basin: string, year: int, mnth: int, day: int, qobs: real, flag: string)

  /** The returned series: one discharge value per date, in file order. */
  datatype Series = Series(dates: seq<Date>, values: seq<Float>)

  /** Cubic millimetres per cubic foot. */
  const MM3_PER_FT3: real := 28316846.592
  const SECONDS_PER_DAY: real := 86400.0
  /** The factor 10**6 by which the area is multiplied. */
  const AREA_SCALE: int := 1000000

  /** x * c for a positive constant c. */
  function Times(x: Float, c: real): Float
    requires c > 0.0
  {
    match x
    case Num(v) => Num(v * c)
    case _ => x
  }

  /** x / d, where d is the integer divisor converted to a float. */
  function Over(x: Float, d: int): Float {
    match x
    case Num(v) =>
      if d != 0 then Num(v / d as real)
      else if v > 0.0 then Inf(false)
      else if v < 0.0 then Inf(true)
      else NaN
    case Inf(negative) => if d < 0 then Inf(!negative) else x
    case NaN => NaN
  }

  /**
   * 28316846.592 * q * 86400 / (area * 10**6). NaN stays NaN; with a
   * positive area nothing becomes or stops being NaN, the sign is kept and
   * an infinity is unchanged.
   */
  function Convert(q: Float, area: int): (r: Float)
    ensures q.NaN? ==> r.NaN?
    ensures area > 0 ==> (r.NaN? <==> q.NaN?) && (Negative(r) <==> Negative(q))
    ensures area > 0 && q.Inf? ==> r == q
  {
    Over(Times(Times(q, MM3_PER_FT3), SECONDS_PER_DAY), area * AREA_SCALE)
  }

  /**
   * The masked assignment: the result is NaN exactly when x was negative or
   * already NaN, anything not negative is untouched, and nothing negative
   * remains.
   */
  function Mask(x: Float): (r: Float)
    ensures r.NaN? <==> Negative(x) || x.NaN?
    ensures !Negative(x) ==> r == x
    ensures !Negative(r)
  {
    if Negative(x) then NaN else x
  }

  /**
   * With a positive area a finite discharge converts to a finite value of
   * the same sign: the formula scaled by a positive factor.
   */
  lemma ConvertPositiveArea(q: real, area: int)
    requires area > 0
    ensures Convert(Num(q), area).Num?
    ensures Convert(Num(q), area).v == q * (MM3_PER_FT3 * SECONDS_PER_DAY / (area * AREA_SCALE) as real)
    ensures Convert(Num(q), area).v < 0.0 <==> q < 0.0
    ensures Convert(Num(q), area).v == 0.0 <==> q == 0.0
  {
    var d := (area * AREA_SCALE) as real;
    var k := MM3_PER_FT3 * SECONDS_PER_DAY;
    assert d > 0.0;
    assert q * MM3_PER_FT3 * SECONDS_PER_DAY / d == q * (k / d);
    assert k / d > 0.0;
    if q < 0.0 {
      assert q * (k / d) < 0.0;
    } else if q > 0.0 {
      assert q * (k / d) > 0.0;
    }
  }

  /** With a zero area a positive flow becomes +inf, a negative one -inf and zero becomes NaN. */
  lemma ConvertZeroArea(q: real)
    ensures Convert(Num(q), 0) == if q > 0.0 then Inf(false) else if q < 0.0 then Inf(true) else NaN
  {
    assert q * MM3_PER_FT3 * SECONDS_PER_DAY > 0.0 <==> q > 0.0;
    assert q * MM3_PER_FT3 * SECONDS_PER_DAY < 0.0 <==> q < 0.0;
  }

  /** 300 cfs over a catchment of 831000000 m^2 is about 0.88324 mm/day. */
  lemma ConvertExample()
    ensures Convert(Num(300.0), 831000000).Num?
    ensures 0.88324 < Convert(Num(300.0), 831000000).v < 0.88325
  {
    ConvertPositiveArea(300.0, 831000000);
  }

  /** Overwrites every value with its conversion to mm/day, in place. */
  method Normalize(q: array<Float>, area: int)
    modifies q
    ensures forall i :: 0 <= i < q.Length ==> q[i] == Convert(old(q[i]), area)
  {
    for i := 0 to q.Length
      invariant forall j :: 0 <= j < i ==> q[j] == Convert(old(q[j]), area)
      invariant forall j :: i <= j < q.Length ==> q[j] == old(q[j])
    {
      q[i] := Convert(q[i], area);
    }
  }

  /** Sets every negative value to NaN, in place, and leaves the other values as they are. */
  method MaskNegative(q: array<Float>)
    modifies q
    ensures forall i :: 0 <= i < q.Length ==> q[i] == Mask(old(q[i]))
  {
    for i := 0 to q.Length
      invariant forall j :: 0 <= j < i ==> q[j] == Mask(old(q[j]))
      invariant forall j :: i <= j < q.Length ==> q[j] == old(q[j])
    {
      if Negative(q[i]) {
        q[i] := NaN;
      }
    }
  }

  /**
   * Loads the discharge series of a basin. matches is what the search for
   * the basin's streamflow file returned; rows is the table parsed from the
   * first match; area is the catchment area in m^2.
   */
  method LoadDischarge(basin: string, matches: seq<string>, rows: seq<FlowRow>, area: int)
    returns (r: Result<Series, Error>)
    ensures |matches| == 0 ==> r == Err(NoFileForBasin(basin))
    ensures |matches| > 0 ==>
              (r.Ok? <==> forall i :: 0 <= i < |rows| ==> ValidYmd((rows[i].year, rows[i].mnth, rows[i].day)))
    ensures r.Err? && |matches| > 0 ==>
              exists k :: 0 <= k < |rows| && !ValidYmd((rows[k].year, rows[k].mnth, rows[k].day))
                && (forall j :: 0 <= j < k ==> ValidYmd((rows[j].year, rows[j].mnth, rows[j].day)))
                && r.error == InvalidDate(DateText(rows[k].year, rows[k].mnth, rows[k].day))
    ensures r.Ok? ==> |r.value.dates| == |rows| && |r.value.values| == |rows|
    ensures r.Ok? ==> forall i :: 0 <= i < |rows| ==>
              && r.value.dates[i] == Date(rows[i].year, rows[i].mnth, rows[i].day)
              && r.value.values[i] == Mask(Convert(Num(rows[i].qobs), area))
    ensures r.Ok? && area > 0 ==> forall i :: 0 <= i < |rows| ==>
              (r.value.values[i].NaN? <==> rows[i].qobs < 0.0)
  {
    var file := SelectFile(basin, matches);
    if file.Err? {
      return Err(file.error);
    }
    var ymd := Ymds(rows, (row: FlowRow) => (row.year, row.mnth, row.day));
    var dates := DateIndex(ymd);
    if dates.Err? {
      var k := FirstInvalid(ymd);
      assert k < |rows| && ymd[k] == (rows[k].year, rows[k].mnth, rows[k].day);
      return Err(dates.error);
    }
    var q := new Float[|rows|](i requires 0 <= i < |rows| => Num(rows[i].qobs));
    Normalize(q, area);
    MaskNegative(q);
    r := Ok(Series(dates.value, q[..]));
  }
}
