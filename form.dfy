/** The window of BMI.py as state: the two entries, what the labels show, the progress bar
    and the pending timer callbacks, with one method per event (a click on "Calculate BMI",
    a timer callback, typing into an entry). */
module Form {
  import opened Results
  import opened Categories
  import opened Calculation
  import opened Animation

  class Window {
    var weightText: string
    var heightText: string
    /** The BMI `bmi_var` shows; none before the first successful calculation. */
    var shownBmi: Option<real>
    /** The text of `result_var`. */
    var resultText: string
    /** The foreground colour of the result label; none until a calculation sets one. */
    var resultColor: Option<string>
    var titleColor: string
    /** The message of the last error box. */
    var lastError: Option<string>
    const bar: ProgressBar
    /** The target of the scheduled `animate_progress` callback, if one is scheduled. */
    var progressTarget: Option<real>
    const title: ColorCycle
    const resultCycle: ColorCycle

    ghost predicate Valid()
      reads this, bar, title, resultCycle
    {
      && title != resultCycle
      && title.palette == TitlePalette && title.running
      && resultCycle.palette == ResultPalette
      && 0.0 <= bar.value <= BarMaximum
      && (progressTarget.Some? ==> 0.0 <= progressTarget.value <= BarMaximum)
      && (shownBmi.Some? ==> shownBmi.value > 0.0 && resultText == Classify(shownBmi.value).Label())
      && (resultCycle.running <==> shownBmi.Some?)
    }

    /** The window as it opens: empty entries and labels, the bar at 0, and `animate_title()`
        already run once. */
    constructor ()
      ensures Valid()
      ensures weightText == "" && heightText == "" && shownBmi == None && resultText == ""
      ensures resultColor == None && lastError == None && progressTarget == None
      ensures bar.value == 0.0 && titleColor == TitlePalette[0] && title.next == 1
      ensures !resultCycle.running
      ensures fresh(bar) && fresh(title) && fresh(resultCycle)
    {
      weightText := "";
      heightText := "";
      shownBmi := None;
      resultText := "";
      resultColor := None;
      lastError := None;
      progressTarget := None;
      bar := new ProgressBar();
      title := new ColorCycle(TitlePalette);
      resultCycle := new ColorCycle(ResultPalette);
      new;
      titleColor := title.Start();
    }

    /** The user edits the entries. */
    method Type(weight: string, height: string)
      modifies this`weightText, this`heightText
      ensures weightText == weight && heightText == height
    {
      weightText := weight;
      heightText := height;
    }

    /** What `calculate_bmi` does with its outcome. On an error the error box shows its
        message and nothing else changes. On success the BMI, the label and its colour are
        set, the first tick of the bar's animation runs, and the colour cycle of the result
        label starts over, so the label shows the cycle's first colour rather than the
        category's. A pending bar animation is replaced by the new one. */
    method Show(r: Result<Reading>)
      requires Valid()
      requires r.Ok? ==> IsReading(r.value)
      modifies this`shownBmi, this`resultText, this`resultColor, this`lastError, this`progressTarget
      modifies bar, resultCycle
      ensures Valid()
      ensures r.Err? ==>
                && lastError == Some(r.message)
                && shownBmi == old(shownBmi) && resultText == old(resultText)
                && resultColor == old(resultColor)
                && bar.value == old(bar.value) && progressTarget == old(progressTarget)
                && resultCycle.next == old(resultCycle.next) && resultCycle.running == old(resultCycle.running)
      ensures r.Ok? ==>
                && lastError == old(lastError)
                && shownBmi == Some(r.value.bmi) && resultText == r.value.category.Label()
                && resultColor == Some(ResultPalette[0])
                && Move(bar.value, progressTarget.None?) == Step(old(bar.value), r.value.target)
                && (progressTarget.Some? ==> progressTarget.value == r.value.target)
                && resultCycle.running && resultCycle.next == 1
    {
      if r.Err? {
        lastError := Some(r.message);
      } else {
        var x := r.value;
        shownBmi := Some(x.bmi);
        resultText := x.category.Label();
        resultColor := Some(x.category.Color());
        var done := bar.Tick(x.target);
        progressTarget := if done then None else Some(x.target);
        var c := resultCycle.Start();
        resultColor := Some(c);
      }
    }

    /** A click on "Calculate BMI" (`calculate_bmi`): the calculation on the two entries,
        and what the window then shows. */
    method Calculate()
      requires Valid()
      modifies this`shownBmi, this`resultText, this`resultColor, this`lastError, this`progressTarget
      modifies bar, resultCycle
      ensures Valid()
      ensures var r := CalculateBmi(weightText, heightText);
              && (r.Err? ==>
                    && lastError == Some(r.message)
                    && shownBmi == old(shownBmi) && resultText == old(resultText)
                    && resultColor == old(resultColor)
                    && bar.value == old(bar.value) && progressTarget == old(progressTarget)
                    && resultCycle.next == old(resultCycle.next) && resultCycle.running == old(resultCycle.running))
              && (r.Ok? ==>
                    && lastError == old(lastError)
                    && shownBmi == Some(r.value.bmi) && resultText == r.value.category.Label()
                    && resultColor == Some(ResultPalette[0])
                    && Move(bar.value, progressTarget.None?) == Step(old(bar.value), r.value.target)
                    && (progressTarget.Some? ==> progressTarget.value == r.value.target)
                    && resultCycle.running && resultCycle.next == 1)
    {
      var r := CalculateBmi(weightText, heightText);
      Show(r);
    }

    /** The scheduled `animate_progress` callback. */
    method ProgressTick()
      requires Valid() && progressTarget.Some?
      modifies bar, this`progressTarget
      ensures Valid()
      ensures Move(bar.value, progressTarget.None?) == Step(old(bar.value), old(progressTarget.value))
      ensures progressTarget.Some? ==> progressTarget == old(progressTarget)
    {
      var done := bar.Tick(progressTarget.value);
      if done {
        progressTarget := None;
      }
    }

    /** Every scheduled `animate_progress` callback, run with no other event in between: the
        bar shows the values of `Trace` and stops on the target, with nothing left pending. */
    method SettleProgress() returns (shown: seq<real>)
      requires Valid() && progressTarget.Some?
      modifies bar, this`progressTarget
      ensures Valid() && progressTarget == None
      ensures shown == Trace(old(bar.value), old(progressTarget.value))
      ensures bar.value == old(progressTarget.value)
    {
      shown := bar.Animate(progressTarget.value);
      progressTarget := None;
    }

    /** The scheduled `animate_title` callback. */
    method TitleTick()
      requires Valid()
      modifies title, this`titleColor
      ensures Valid()
      ensures titleColor == ColorAt(TitlePalette, old(title.next)) && title.next == old(title.next) + 1
    {
      titleColor := title.Tick();
    }

    /** The scheduled `animate_result_color` callback, once a calculation has started it. */
    method ResultColorTick()
      requires Valid() && resultCycle.running
      modifies resultCycle, this`resultColor
      ensures Valid()
      ensures resultColor == Some(ColorAt(ResultPalette, old(resultCycle.next)))
      ensures resultCycle.next == old(resultCycle.next) + 1
    {
      var c := resultCycle.Tick();
      resultColor := Some(c);
    }
  }
}
