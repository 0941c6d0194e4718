# Animated BMI calculator — a verified model

BMI.py is a small tkinter window with two entries, weight and height, and a "Calculate BMI"
button. A click does the following:

- It reads a number out of each entry (`parse_number`). The reader accepts text such as
  "175 cm" or "1,75".
- It takes a height above 3 to be in centimetres.
- It rejects a height and then a weight that is not positive.
- It computes `w / (h * h)`.
- It shows the value, the category (`bmi_category`) and the category's colour.
- It starts two timer-driven animations. A progress bar eases toward the BMI, clamped to
  [0, 40]. The colour of the result label cycles through a palette.
- Independently of the button, the title colour cycles from start-up.

The project models that logic in Dafny:

- `NumberText`: `parse_number` as a character scanner. The scanner is proved to find
  the leftmost-longest match of `[-+]?\d*\.?\d+`, which is the match `re.search`
  reports for this pattern. The module also holds the trimming, the comma rule, the value of
  the matched text, and the text around a number.
- `Categories`: `bmi_category` as four half-open bins with their labels and colours.
- `Calculation`: the part of `calculate_bmi` that computes a value. It is a function from
  the two entry texts to either a reading or the message of the first error raised.
- `Animation`: the progress bar as a class whose `Tick` is one run of `animate_progress`.
  `Animate` runs a chain of ticks to the end, proved against the sequence `Trace` of values
  it shows. The two colour cycles are counter classes.
- `Form`: the window as a class whose methods are the events: a click, each timer
  callback, and typing.
- `Results`: the `Result` and `Option` types.

Numbers are Dafny `real`s: the arithmetic is exact, where the program uses IEEE doubles.

## Model

| member | source | states |
|---|---|---|
| NumberText.StripStart | BMI.py:11 | `lstrip` half of `strip()`: the result is a suffix, everything dropped is white space (Python's `isspace` set), and the result does not start with white space |
| NumberText.StripEnd | BMI.py:11 | `rstrip` half of `strip()`: the result is a prefix, everything dropped is white space, and the result does not end with white space |
| NumberText.Strip | BMI.py:11 | `strip()`: the result is no longer than the text and neither starts nor ends with white space |
| NumberText.StripIs | BMI.py:11 | `strip()` of a text is the slice `[a, b)` whenever everything outside the slice is white space and the slice is empty or has no white space at either end |
| NumberText.StripIdempotent | BMI.py:11 | stripping a stripped text changes nothing |
| NumberText.CommaToPoint | BMI.py:11 | `replace(',', '.')`: same length; each comma becomes a point and every other character is unchanged |
| NumberText.CommaToPointIdempotent | BMI.py:11 | after the replacement no comma is left, and replacing again changes nothing |
| NumberText.Normalized | BMI.py:11 | the text searched is as long as the stripped text, at most as long as the entry, and holds no comma |
| NumberText.NormalizedIdempotent | BMI.py:11 | normalising the normalised text changes nothing |
| NumberText.CommaReadsAsPoint | BMI.py:11-15 | text with commas parses exactly like the same text with points, so "1,75" and "1.75" give the same result |
| NumberText.DigitRunEnd | BMI.py:12 | the end of the maximal run of digits from a position: everything before it is a digit and the character at it is not |
| NumberText.MatchEnd | BMI.py:12 | an attempted match at `i` that succeeds ends after `i` and within the text |
| NumberText.MatchEndCorrect | BMI.py:12 | the scanner's match at a position is a match of the pattern and no longer match starts there; when the scanner finds none, no match starts there |
| NumberText.SearchFrom | BMI.py:12 | a match found from `i` on starts at or after `i` and is non-empty and within the text |
| NumberText.SearchFromCorrect | BMI.py:12 | searching from `i` finds the leftmost match starting at or after `i` and the longest one there; it finds nothing only when no match starts at or after `i` |
| NumberText.Search | BMI.py:12 | a found match is a non-empty span of the text |
| NumberText.SearchCorrect | BMI.py:12-13 | `re.search` finds nothing iff the pattern occurs nowhere; otherwise its match is the leftmost-longest one, and it is the only span that is |
| NumberText.ParseNumber | BMI.py:7-15 | `parse_number` fails iff the stripped, comma-replaced text has no match, and then its message quotes that text |
| NumberText.ParseNumberSpec | BMI.py:11-15 | a success of `parse_number` is the value of the leftmost-longest match in the stripped, comma-replaced text |
| NumberText.NumeralShape | BMI.py:12 | every match starts with a sign, a digit or '.', continues with digits and '.', has at most one '.', and ends in a digit |
| NumberText.UnsignedChars | BMI.py:12 | every character of an unsigned match other than its point is a digit |
| NumberText.MatchesEndInDigit | BMI.py:12 | every match anywhere in a text ends with a digit |
| NumberText.NoDigitNoNumber | BMI.py:12-14 | text without a digit, the empty text included, raises "Couldn't parse number from '…'" quoting the normalised text |
| NumberText.NormalizedNoDigit | BMI.py:11 | stripping and comma replacement add no digit |
| NumberText.NormalizedPlain | BMI.py:11 | text that neither starts nor ends with white space and holds no comma is left as it is |
| NumberText.DigitSurvives | BMI.py:11 | stripping and comma replacement keep every digit of the text |
| NumberText.DigitMatches | BMI.py:12 | a single digit is a match |
| NumberText.DigitParses | BMI.py:11-15 | a digit anywhere in the text makes `parse_number` succeed |
| NumberText.ParseFailsIffNoDigit | BMI.py:11-15 | `parse_number` raises its error exactly when the text holds no digit |
| NumberText.DigitsValue | BMI.py:15 | the value of `n` digits is below `10^n` |
| NumberText.DigitsValueAppend | BMI.py:15 | the value of digits `a` followed by digits `b` is `a`'s value shifted by `|b|` places plus `b`'s value |
| NumberText.UnsignedValueScaled | BMI.py:15 | `float` of a decimal match is its digits without the point over ten to the number of decimals ("1.75" is 175/100) |
| NumberText.UnsignedValue | BMI.py:15 | `float` of an unsigned match has the digits before the point as its integer part: the decimals add less than one |
| NumberText.NumeralValue | BMI.py:15 | `float` of a match is negative only when the match starts with '-', and a match starting with '-' is never positive |
| NumberText.SignedValue | BMI.py:12-15 | a leading '-' negates the value of the unsigned part, a leading '+' keeps it, and no sign gives it unchanged |
| NumberText.StripStartIs | BMI.py:11 | `lstrip` keeps exactly the suffix from the first character that is not white space |
| NumberText.StripEndIs | BMI.py:11 | `rstrip` keeps exactly the prefix up to the last character that is not white space |
| NumberText.StripStartCommaToPoint | BMI.py:11 | `lstrip` and the comma replacement commute |
| NumberText.StripEndCommaToPoint | BMI.py:11 | `rstrip` and the comma replacement commute |
| NumberText.SearchSkipsText | BMI.py:12 | text in front with no sign, digit or '.' shifts the match found and changes nothing else |
| NumberText.ShiftedLeftmostLongest | BMI.py:12 | after text in front with no sign, digit or '.', the leftmost-longest match is that of the rest, shifted by the length of that text |
| NumberText.ShiftedNoMatch | BMI.py:12-13 | such text in front of text with no match adds no match |
| NumberText.SearchNumeralThenText | BMI.py:12 | a match followed by text that cannot continue it is found whole: not a digit, and not a '.' and digit when the match has no point yet |
| NumberText.NormalizedAround | BMI.py:11 | stripping and comma replacement leave the text in front and the number unchanged and act only on the text behind |
| NumberText.ParseIgnoresText | BMI.py:11-15 | a number with text around it reads as that number, when the text in front cannot start a match and the text behind cannot continue it |
| NumberText.ParseNumberAt | BMI.py:11-15 | the same statement for a number that spans positions `i` to `j` of the text |
| NumberText.ParseWithUnit | BMI.py:8-15 | "175 cm" reads as 175 |
| NumberText.ParseAfterText | BMI.py:12-15 | "abc-5" reads as -5: leading text skipped, sign kept |
| NumberText.ParseDecimalPoint | BMI.py:8-15 | "1.75" reads as 1.75 |
| NumberText.ParseDecimalComma | BMI.py:8-15 | "1,75" reads as 1.75 |
| NumberText.ParseTrailingPoint | BMI.py:12-15 | "175." reads as 175: a point with no digit after it is not part of the number |
| NumberText.ParseStopsAtSecondPoint | BMI.py:12-15 | "1.2.3" reads as 1.2 |
| NumberText.ParseNoNumber | BMI.py:13-14 | "abc" raises "Couldn't parse number from 'abc'" |
| NumberText.ParseBlank | BMI.py:11-14 | every text of white space only, the empty text included, raises "Couldn't parse number from ''", quoting the stripped text |
| Categories.Classify | BMI.py:17-25 | the category's bin contains the BMI, and no other bin does |
| Categories.BmiCategory | BMI.py:17-25 | the (label, colour) pair returned is that of a category whose bin contains the BMI |
| Categories.CutsAtOrBelow | BMI.py:18-24 | the number of cut points 18.5, 25, 30 a value has reached: the reference count, independent of the if-chain, that `ClassifyCountsCuts` ties `Classify` to; it never exceeds the number of cut points |
| Categories.ClassifyCountsCuts | BMI.py:18-25 | the rank of the category is the number of cut points 18.5, 25, 30 that the BMI has reached |
| Categories.LabelsNameBins | BMI.py:18-25 | distinct categories have distinct labels and distinct colours |
| Categories.CutsAtOrBelowMonotone | BMI.py:18-24 | a higher value reaches at least as many cut points |
| Categories.ClassifyMonotone | BMI.py:18-25 | a higher BMI never falls in a lower category |
| Categories.ClassifyAtCuts | BMI.py:18-25 | 18.5 is "Normal weight", 25 "Overweight", 30 "Obese"; values just below each fall in the bin below |
| Calculation.ToMetres | BMI.py:96-97 | the conversion keeps the sign of the height, and the result is at most 3 exactly when the height typed is at most 300 |
| Calculation.ToMetresProperties | BMI.py:96-97 | a height in centimetres (above 3, up to 300) gives the same metres as the height typed in metres |
| Calculation.ProgressTarget | BMI.py:111 | `min(max(bmi, 0), 40)` lies in [0, 40], equals the BMI exactly when the BMI is in range, and is 40 above it |
| Calculation.ProgressTargetMonotone | BMI.py:111 | a higher BMI sends the bar no lower |
| Calculation.EvaluateMetres | BMI.py:99-111 | succeeds iff height and weight are positive; the height error takes precedence; a success is a reading with `bmi * h * h == w`, its category, and its clamped target |
| Calculation.Evaluate | BMI.py:95-111 | the same, after a height above 3 is divided by 100 |
| Calculation.CalculateBmi | BMI.py:89-111 | a success is a valid reading whose weight is the parsed weight and whose height is the parsed height converted to metres |
| Calculation.CalculateSucceedsIff | BMI.py:90-102 | the calculation succeeds iff both entries hold a digit and both parsed numbers are positive |
| Calculation.CalculateErrorOrder | BMI.py:91-102 | the error reported is the first of these that applies: the weight parse, the height parse, the height check, the weight check |
| Calculation.CentimetresReadAsMetres | BMI.py:95-97 | a height typed in centimetres (3 < h <= 300) gives the same result as the same height typed in metres |
| Calculation.NormalValues | BMI.py:95-111 | 70 kg at 175 gives height 1.75 m, BMI 70/3.0625 (about 22.86), "Normal weight", and a target equal to the BMI |
| Calculation.NormalReading | BMI.py:89-111 | the entries "70" and "175 cm" give that reading |
| Calculation.UnreadableHeight | BMI.py:91-93 | the entries "70" and "abc" give "Couldn't parse number from 'abc'" |
| Calculation.ZeroHeightReportedFirst | BMI.py:99-102 | the entries "0" and "0" report the height error, not the weight error |
| Animation.Step | BMI.py:74-79 | a tick stops with the bar on the target iff the bar is within 0.5 of it; otherwise the bar moves toward the target by `min(1.8, distance)` without passing it, so the distance falls by at least 0.5 |
| Animation.StepStaysInRange | BMI.py:74-79 | a bar and a target inside an interval keep the bar inside it, so the bar stays in [0, 40] |
| Animation.StepLowersRemaining | BMI.py:75-80 | every tick that does not stop lowers the measure `floor(2 * distance)`, so the chain terminates |
| Animation.Trace | BMI.py:72-80 | a chain shows at least one value; it is a single tick exactly when the bar starts within 0.5 of the target, and that tick puts the bar on the target |
| Animation.TraceEndsOnTarget | BMI.py:72-80 | a chain of ticks always stops, with the bar on the target |
| Animation.TraceApproaches | BMI.py:72-80 | every value the chain shows lies between the start and the target, and each is no further from the target than the one before |
| Animation.TraceLength | BMI.py:72-80 | the chain takes at most `2 + distance / 1.8` ticks |
| Animation.InterleavedChainsCycle | BMI.py:72-80 | two uncancelled chains on one bar, with the bar at least 1.8 above the first target and not above the second, bring the bar back to where it was and neither stops |
| Animation.ProgressBar.constructor | BMI.py:64 | the bar starts at 0 |
| Animation.ProgressBar.Tick | BMI.py:72-80 | one callback moves the bar as `Step` says and reports whether the chain stops |
| Animation.ProgressBar.Animate | BMI.py:72-80 | the callbacks run to the end show the values of `Trace` and leave the bar on the target |
| Animation.ColorAt | BMI.py:69 | `colors[i % len(colors)]` is a colour of the palette (line 85 uses the same rule) |
| Animation.ColorAtCycles | BMI.py:69 | the colours repeat after one pass through the palette, and the first pass shows the palette in order |
| Animation.ColorCycle.constructor | BMI.py:68 | a cycle over a palette, not yet started |
| Animation.ColorCycle.Start | BMI.py:68-70 | the first call shows the palette's first colour and schedules counter 1 |
| Animation.ColorCycle.Tick | BMI.py:69-70 | a callback shows `colors[i % len(colors)]` for its counter and schedules counter `i + 1` |
| Form.Window.constructor | BMI.py:28-65 | the window opens with empty entries and labels, the bar at 0 and no error; the title shows the first colour with counter 1 scheduled, as `animate_title()` at line 118 leaves it |
| Form.Window.Type | BMI.py:41-47 | typing sets the two entry texts |
| Form.Window.Show | BMI.py:104-115 | an error shows its message and changes nothing else. A reading sets the BMI, the label, the first bar tick toward its target and a restarted colour cycle; the label ends in the cycle's first colour |
| Form.Window.Calculate | BMI.py:89-115 | a click applies `Show` to the calculation on the current entries, keeping the window's invariant: a shown BMI is positive and matches the label |
| Form.Window.ProgressTick | BMI.py:72-80 | the pending bar callback moves the bar as `Step` says and stays pending until the chain stops |
| Form.Window.SettleProgress | BMI.py:72-80 | the pending bar callbacks, run to the end, show `Trace` and leave the bar on the target with nothing pending |
| Form.Window.TitleTick | BMI.py:68-70 | the title callback shows the palette colour for its counter and advances it |
| Form.Window.ResultColorTick | BMI.py:82-86 | the result label callback shows the palette colour for its counter and advances it |

## Left out

- The widgets, fonts, layout and window properties (BMI.py:28-65) have no logic. The model keeps only their state: the entry texts, the label texts and colours, and the bar value.
- The error dialog `messagebox.showerror` is modelled as the field `lastError`. `root.mainloop()` is not modelled.
- `root.after` scheduling and its delays are not modelled. Each callback is a tick method, and the events can be interleaved as a sequence of method calls. The window keeps at most one pending bar chain and one result-colour chain, so interleavings that involve several chains of the same kind are not covered (see Form.Window.Show below).
- IEEE-754 doubles are modelled as exact reals. Rounding in `float(...)`, `w / (h * h)` and the 1.8 steps is not modelled, and neither is the `:.2f` formatting of the BMI text (BMI.py:105): `shownBmi` holds the value itself.
- Calculation.EvaluateMetres assumes exact arithmetic, so it misses two failures of doubles. First, a tiny positive height such as "0." followed by 200 zeros and a "1" makes `h * h` underflow to 0. Then `w / (h * h)` raises `ZeroDivisionError`, which the `except ValueError` at BMI.py:114 does not catch. Second, entries of 400 nines overflow `float` to infinity, so the BMI is inf/inf = NaN. A NaN BMI is classified "Obese" (every comparison in `bmi_category` is false), and its bar chain never stops: `min(1.8, nan)` is 1.8, so the bar moves down by 1.8 on every tick.
- The `s is None` branch of `parse_number` (BMI.py:9-10) is left out. An entry always yields a string, so the branch cannot be reached.
- NumberText.IsDigit is ASCII '0'-'9' only. Python's `\d` and `float` also accept other Unicode decimal digits.
- NumberText.ParseIgnoresText gives sufficient conditions on the surrounding text, not a complete characterisation. `ParseNumber` and `ParseNumberSpec` together are the complete statement.
- Form.Window.Show and Form.Window.Calculate keep a single pending bar chain and a single result-colour chain, which the calculation restarts. In the program, each calculation starts new chains beside the old ones, and none is ever cancelled. For the bar this is the finding below. For the colours, the chains that pile up each recolour the label.
- Form.Window.Show sets the category's colour and then, as the program does, the colour cycle's first colour at once. So the category colour is never what the label ends up showing.

## Findings

| source | as written | input that shows it | evidently intended | confidence | as-written member | corrected member |
|---|---|---|---|---|---|---|
| BMI.py:72-80 | each calculation (line 111) starts a new `animate_progress` chain and never cancels the one still pending, so two chains drive the one bar toward different targets | weight 35 and height 1, so the bar heads for 35; then, with the bar at 23.4, weight 20 and height 1. The two chains move the bar 23.4 → 21.6 → 23.4 forever | a new calculation replaces the pending animation, so the bar settles on the latest BMI | medium, not executed | Animation.InterleavedChainsCycle | Form.Window.Calculate |
