/** The BMI categories of `bmi_category` in BMI.py: four half-open bins cut at 18.5, 25 and
    30, each with the label and the colour the result label shows. */
module Categories {

  datatype Category = Underweight | NormalWeight | Overweight | Obese {

    /** The text the result label shows. */
    function Label(): string {
      match this
      case Underweight => "Underweight"
      case NormalWeight => "Normal weight"
      case Overweight => "Overweight"
      case Obese => "Obese"
    }

    /** The colour the result label is given. */
    function Color(): string {
      match this
      case Underweight => "#00BFFF"
      case NormalWeight => "#32CD32"
      case Overweight => "#FFD700"
      case Obese => "#FF4500"
    }

    /** Position of the bin, from the lowest BMI values to the highest. */
    function Rank(): nat {
      match this
      case Underweight => 0
      case NormalWeight => 1
      case Overweight => 2
      case Obese => 3
    }
  }

  /** The bins as intervals: each includes its lower cut point and excludes its upper one. */
  predicate InBin(c: Category, bmi: real) {
    match c
    case Underweight => bmi < 18.5
    case NormalWeight => 18.5 <= bmi < 25.0
    case Overweight => 25.0 <= bmi < 30.0
    case Obese => 30.0 <= bmi
  }

  /** The cut points between consecutive bins, in increasing order. */
  const Cuts: seq<real> := [18.5, 25.0, 30.0]

  /** How many of the cut points lie at or below `x`. */
  function CutsAtOrBelow(cuts: seq<real>, x: real): (n: nat)
    ensures n <= |cuts|
  {
    if cuts == [] then 0
    else (if cuts[0] <= x then 1 else 0) + CutsAtOrBelow(cuts[1..], x)
  }

  /** `bmi_category(bmi)`: the bin the BMI falls in, and no other. */
  function Classify(bmi: real): (c: Category)
    ensures InBin(c, bmi)
    ensures forall d: Category :: InBin(d, bmi) ==> d == c
  {
    if bmi < 18.5 then Underweight
    else if bmi < 25.0 then NormalWeight
    else if bmi < 30.0 then Overweight
    else Obese
  }

  /** `bmi_category(bmi)` as the program returns it: the label and the colour. */
  function BmiCategory(bmi: real): (r: (string, string))
    ensures exists c: Category :: InBin(c, bmi) && r == (c.Label(), c.Color())
  {
    var c := Classify(bmi);
    (c.Label(), c.Color())
  }

  /** The rank of the bin a BMI falls in is the number of cut points the BMI has reached. */
  lemma ClassifyCountsCuts(bmi: real)
    ensures Classify(bmi).Rank() == CutsAtOrBelow(Cuts, bmi)
  {
    assert Cuts[1..][1..][1..] == [];
    assert CutsAtOrBelow(Cuts[1..][1..], bmi) == if 30.0 <= bmi then 1 else 0;
  }

  /** Different categories show different labels and different colours, so the pair
      `bmi_category` returns names its bin. */
  lemma LabelsNameBins(c: Category, d: Category)
    ensures c.Label() == d.Label() <==> c == d
    ensures c.Color() == d.Color() <==> c == d
    ensures c.Rank() == d.Rank() <==> c == d
  {
  }

  /** Reaching more cut points takes a BMI at least as high. */
  lemma {:induction false} CutsAtOrBelowMonotone(cuts: seq<real>, x: real, y: real)
    requires x <= y
    ensures CutsAtOrBelow(cuts, x) <= CutsAtOrBelow(cuts, y)
  {
    if cuts != [] {
      CutsAtOrBelowMonotone(cuts[1..], x, y);
    }
  }

  /** A higher BMI never falls in a lower bin. */
  lemma ClassifyMonotone(x: real, y: real)
    requires x <= y
    ensures Classify(x).Rank() <= Classify(y).Rank()
  {
    CutsAtOrBelowMonotone(Cuts, x, y);
    ClassifyCountsCuts(x);
    ClassifyCountsCuts(y);
  }

  /** Each cut point belongs to the bin above it; a value just below it, to the bin below. */
  lemma ClassifyAtCuts()
    ensures Classify(18.5) == NormalWeight && Classify(25.0) == Overweight && Classify(30.0) == Obese
    ensures Classify(18.49) == Underweight && Classify(24.99) == NormalWeight && Classify(29.99) == Overweight
  {
  }
}
