/** What `calculate_bmi` in BMI.py computes from the two entries before it updates the
    window: both numbers, the height read as centimetres when it is above 3, the two checks,
    the BMI, its category and the value the progress bar is sent to. */
module Calculation {
  import opened Results
  import opened NumberText
  import opened Categories

  const HeightError := "Height must be > 0"
  const WeightError := "Weight must be > 0"

  /** The highest value of the progress bar. */
  const BarMaximum := 40.0

  /** A successful calculation: the weight in kilograms, the height in metres, the BMI, its
      category, and where the progress bar is sent. */
  datatype Reading = Reading(weight: real, height: real, bmi: real, category: Category, target: real)

  /** A height above 3 is taken to be in centimetres and converted to metres; the conversion
      never changes the sign, and the result is at most 3 exactly for entries up to 300. */
  function ToMetres(h: real): (r: real)
    ensures r > 0.0 <==> h > 0.0
    ensures r <= 3.0 <==> h <= 300.0
  {
    if h > 3.0 then h / 100.0 else h
  }

  /** A height entered in centimetres (above 3, up to 300) gives the height entered in
      metres. */
  lemma ToMetresProperties(h: real)
    ensures 3.0 < h <= 300.0 ==> ToMetres(h) == ToMetres(h / 100.0) == h / 100.0
  {
  }

  /** `min(max(bmi, 0), 40)`: the BMI held within the range of the progress bar. */
  function ProgressTarget(bmi: real): (t: real)
    ensures 0.0 <= t <= BarMaximum
    ensures t == bmi <==> 0.0 <= bmi <= BarMaximum
    ensures bmi > BarMaximum ==> t == BarMaximum
    ensures bmi < 0.0 ==> t == 0.0
  {
    var lifted := if bmi > 0.0 then bmi else 0.0;
    if lifted < BarMaximum then lifted else BarMaximum
  }

  /** A BMI that is no higher sends the bar no further. */
  lemma ProgressTargetMonotone(x: real, y: real)
    requires x <= y
    ensures ProgressTarget(x) <= ProgressTarget(y)
  {
  }

  lemma Quotient(w: real, h: real)
    requires h > 0.0
    ensures h * h > 0.0
    ensures w / (h * h) * (h * h) == w
    ensures w > 0.0 ==> w / (h * h) > 0.0
  {
    assert h * h > 0.0;
  }

  /** What a successful calculation shows: a BMI that is the weight over the square of the
      height, its category, and the bar's target, which is the BMI held within the bar. */
  predicate IsReading(x: Reading) {
    && x.weight > 0.0 && x.height > 0.0 && x.bmi > 0.0
    && x.bmi * (x.height * x.height) == x.weight
    && x.category == Classify(x.bmi)
    && x.target == ProgressTarget(x.bmi)
  }

  /** `calculate_bmi` once the height is in metres: reject a height and then a weight that
      is not positive, and divide. */
  function EvaluateMetres(w: real, m: real): (r: Result<Reading>)
    ensures r.Ok? <==> m > 0.0 && w > 0.0
    ensures r.Err? ==> r.message == if m <= 0.0 then HeightError else WeightError
    ensures r.Ok? ==> IsReading(r.value) && r.value.weight == w && r.value.height == m
  {
    if m <= 0.0 then Err(HeightError)
    else if w <= 0.0 then Err(WeightError)
    else
      Quotient(w, m);
      var bmi := w / (m * m);
      Ok(Reading(w, m, bmi, Classify(bmi), ProgressTarget(bmi)))
  }

  /** `calculate_bmi` after both entries parsed, to `w` and `h`. */
  function Evaluate(w: real, h: real): (r: Result<Reading>)
    ensures r.Ok? <==> h > 0.0 && w > 0.0
    ensures r.Err? ==> r.message == if h <= 0.0 then HeightError else WeightError
    ensures r.Ok? ==> IsReading(r.value) && r.value.weight == w && r.value.height == ToMetres(h)
  {
    EvaluateMetres(w, ToMetres(h))
  }

  /** `calculate_bmi` on the texts of the two entries: the reading, or the message of the
      first `ValueError` raised (the weight is parsed before the height). */
  function CalculateBmi(weightText: string, heightText: string): (r: Result<Reading>)
    ensures r.Ok? ==> IsReading(r.value) && ParseNumber(weightText) == Ok(r.value.weight)
    ensures r.Ok? ==> ParseNumber(heightText).Ok? && r.value.height == ToMetres(ParseNumber(heightText).value)
  {
    var w :- ParseNumber(weightText);
    var h :- ParseNumber(heightText);
    Evaluate(w, h)
  }

  /** The calculation succeeds exactly when both entries hold a digit and the numbers read
      from them are above zero. */
  lemma CalculateSucceedsIff(weightText: string, heightText: string)
    ensures CalculateBmi(weightText, heightText).Ok? <==>
              && HasDigit(weightText) && HasDigit(heightText)
              && ParseNumber(weightText).Ok? && ParseNumber(weightText).value > 0.0
              && ParseNumber(heightText).Ok? && ParseNumber(heightText).value > 0.0
  {
    ParseFailsIffNoDigit(weightText);
    ParseFailsIffNoDigit(heightText);
  }

  /** Which error is reported: an unreadable weight first, then an unreadable height, then
      a height that is not positive, and a weight that is not positive last. */
  lemma CalculateErrorOrder(weightText: string, heightText: string)
    ensures var r := CalculateBmi(weightText, heightText);
            var w, h := ParseNumber(weightText), ParseNumber(heightText);
            && (w.Err? ==> r == Err(w.message))
            && (w.Ok? && h.Err? ==> r == Err(h.message))
            && (w.Ok? && h.Ok? && h.value <= 0.0 ==> r == Err(HeightError))
            && (w.Ok? && h.Ok? && h.value > 0.0 && w.value <= 0.0 ==> r == Err(WeightError))
  {
  }

  /** A height entered in centimetres gives the same reading as the same height entered in
      metres: "175" and "1.75". */
  lemma CentimetresReadAsMetres(w: real, h: real)
    requires 3.0 < h <= 300.0
    ensures Evaluate(w, h) == Evaluate(w, h / 100.0)
  {
    ToMetresProperties(h);
  }

  // ---------- Examples ----------

  lemma Value70(t: string)
    requires t == "70"
    ensures IsNumeral(t) && NumeralValue(t) == 70.0
  {
    assert PointIndex(t) == 2;
    assert WholeDigits(t) == t;
    assert "70"[..1] == "7";
    assert DigitsValue("70") == 70;
  }

  lemma Value0(t: string)
    requires t == "0"
    ensures IsNumeral(t) && NumeralValue(t) == 0.0
  {
    assert PointIndex(t) == 1;
    assert WholeDigits(t) == t;
  }

  lemma Parse70(s: string)
    requires s == "70"
    ensures ParseNumber(s) == Ok(70.0)
  {
    Value70(s[0..2]);
    ParseNumberAt(s, 0, 2);
  }

  lemma Parse0(s: string)
    requires s == "0"
    ensures ParseNumber(s) == Ok(0.0)
  {
    Value0(s[0..1]);
    ParseNumberAt(s, 0, 1);
  }

  /** 70 kg at 175: the height is read as 1.75 m and the BMI, about 22.86, is normal. */
  lemma NormalValues()
    ensures Evaluate(70.0, 175.0).Ok?
    ensures var x := Evaluate(70.0, 175.0).value;
            x.height == 1.75 && x.bmi == 70.0 / 3.0625 && x.category == NormalWeight && x.target == x.bmi
  {
    assert ToMetres(175.0) == 1.75;
    assert 1.75 * 1.75 == 3.0625;
  }

  /** "70" and "175 cm" give that reading. */
  lemma NormalReading(weightText: string, heightText: string)
    requires weightText == "70" && heightText == "175 cm"
    ensures CalculateBmi(weightText, heightText).Ok?
    ensures var x := CalculateBmi(weightText, heightText).value;
            x.height == 1.75 && x.bmi == 70.0 / 3.0625 && x.category == NormalWeight && x.target == x.bmi
  {
    Parse70(weightText);
    ParseWithUnit(heightText);
    assert CalculateBmi(weightText, heightText) == Evaluate(70.0, 175.0);
    NormalValues();
  }

  /** A height with no number in it is reported before anything is computed. */
  lemma UnreadableHeight(weightText: string, heightText: string)
    requires weightText == "70" && heightText == "abc"
    ensures CalculateBmi(weightText, heightText) == Err("Couldn't parse number from 'abc'")
  {
    Parse70(weightText);
    ParseNoNumber(heightText);
  }

  /** With a zero height and a zero weight, the height is the one reported. */
  lemma ZeroHeightReportedFirst(weightText: string, heightText: string)
    requires weightText == "0" && heightText == "0"
    ensures CalculateBmi(weightText, heightText) == Err(HeightError)
  {
    Parse0(weightText);
    Parse0(heightText);
  }
}
