/**
 * The data encoders and the evaluation count of the shopping classifier
 * (project4/shopping/shopping.py). The encoders are fixed string tables that
 * answer `None` for any key they do not hold; `Evaluate` counts true
 * positives and true negatives and turns them into rates.
 */
module Shopping {
  import opened Wrappers

  /** The month names as the data set spells them, in calendar order ("June", not "Jun"). */
  const Months: seq<string> :=
    ["Jan", "Feb", "Mar", "Apr", "May", "June", "Jul", "Aug", "Sep", "Oct", "Nov", "Dec"]

  /** The dictionary behind `month_to_int`. */
  const MonthTable: map<string, int> :=
    map["Jan" := 0, "Feb" := 1, "Mar" := 2, "Apr" := 3, "May" := 4, "June" := 5,
        "Jul" := 6, "Aug" := 7, "Sep" := 8, "Oct" := 9, "Nov" := 10, "Dec" := 11]

  /** The dictionary behind `visit_to_int`. */
  const VisitorTable: map<string, int> :=
    map["Returning_Visitor" := 1, "New_Visitor" := 0, "Other" := 0]

  /** The dictionary behind `true_or_false`. */
  const BooleanTable: map<string, int> := map["TRUE" := 1, "FALSE" := 0]

  /** `dict.get`: the value stored under `key`, or `None`. */
  function Get(table: map<string, int>, key: string): (r: Option<int>)
    ensures r.Some? <==> key in table
    ensures r.Some? ==> r.value == table[key]
  {
    if key in table then Some(table[key]) else None
  }

  /** A month name encoded as its position in the calendar, 0 for "Jan" to 11 for "Dec". */
  function MonthToInt(month: string): (r: Option<int>)
    ensures r.Some? <==> month in Months
    ensures r.Some? ==> 0 <= r.value < 12 && Months[r.value] == month
  {
    Get(MonthTable, month)
  }

  /** A visitor type encoded as 1 for a returning visitor and 0 for any other known type. */
  function VisitToInt(visitorType: string): (r: Option<int>)
    ensures r == Some(1) <==> visitorType == "Returning_Visitor"
    ensures r == Some(0) <==> visitorType == "New_Visitor" || visitorType == "Other"
    ensures r.None? <==> visitorType !in {"Returning_Visitor", "New_Visitor", "Other"}
  {
    Get(VisitorTable, visitorType)
  }

  /** "TRUE" encoded as 1 and "FALSE" as 0; nothing else is recognised. */
  function TrueOrFalse(input: string): (r: Option<int>)
    ensures r == Some(1) <==> input == "TRUE"
    ensures r == Some(0) <==> input == "FALSE"
    ensures r.None? <==> input != "TRUE" && input != "FALSE"
  {
    Get(BooleanTable, input)
  }

  /** Every month name is encoded as its own index, so the twelve codes are 0..11 in order. */
  lemma MonthCodesInOrder(k: nat)
    requires k < 12
    ensures MonthToInt(Months[k]) == Some(k)
  {
  }

  /** Distinct month names never share a code. */
  lemma MonthToIntInjective(a: string, b: string)
    requires MonthToInt(a).Some? && MonthToInt(a) == MonthToInt(b)
    ensures a == b
  {
  }

  /** The tables are case-sensitive and hold "June" but not "Jun". */
  lemma TablesAreCaseSensitive()
    ensures MonthToInt("Jun") == None && MonthToInt("jan") == None && MonthToInt("JAN") == None
    ensures VisitToInt("returning_visitor") == None && TrueOrFalse("True") == None
  {
  }

  /** `labels.count(v)` restricted to the first `n` labels. */
  function Occurrences(labels: seq<int>, v: int, n: nat): nat
    requires n <= |labels|
  {
    if n == 0 then 0 else Occurrences(labels, v, n - 1) + (if labels[n - 1] == v then 1 else 0)
  }

  /** The number of indices below `n` at which both the label and the prediction equal `v`. */
  function Agreements(labels: seq<int>, predictions: seq<int>, v: int, n: nat): nat
    requires n <= |labels| && n <= |predictions|
  {
    if n == 0 then 0
    else Agreements(labels, predictions, v, n - 1)
         + (if labels[n - 1] == v && predictions[n - 1] == v then 1 else 0)
  }

  /** Agreeing on `v` requires the label to be `v`, so agreements never exceed occurrences. */
  lemma {:induction false} AgreementsAtMostOccurrences(labels: seq<int>, predictions: seq<int>, v: int, n: nat)
    requires n <= |labels| && n <= |predictions|
    ensures Agreements(labels, predictions, v, n) <= Occurrences(labels, v, n)
  {
    if n > 0 {
      AgreementsAtMostOccurrences(labels, predictions, v, n - 1);
    }
  }

  /** Counting over a longer prefix never finds fewer occurrences. */
  lemma {:induction false} OccurrencesMonotone(labels: seq<int>, v: int, n: nat, m: nat)
    requires n <= m <= |labels|
    ensures Occurrences(labels, v, n) <= Occurrences(labels, v, m)
  {
    if n < m {
      OccurrencesMonotone(labels, v, n, m - 1);
    }
  }

  /** A count over a larger positive count is a rate between 0 and 1. */
  lemma RateInUnitInterval(part: nat, whole: nat)
    requires 0 < whole && part <= whole
    ensures 0.0 <= part as real / whole as real <= 1.0
  {
    assert part as real <= whole as real;
  }

  /**
   * `evaluate`: the true-positive count over the true-positive-or-false-negative
   * count, and the true-negative count over the count of negative labels. The
   * source divides by `labels.count(1)` and `labels.count(0)` and so raises
   * when either is zero; that case is `None` here. Only the first
   * `|predictions|` labels are compared, as in the source's loop.
   */
  method Evaluate(labels: seq<int>, predictions: seq<int>) returns (rates: Option<(real, real)>)
    requires |predictions| <= |labels|
    ensures rates.None? <==> Occurrences(labels, 1, |labels|) == 0 || Occurrences(labels, 0, |labels|) == 0
    ensures rates.Some? ==>
      rates.value.0 == Agreements(labels, predictions, 1, |predictions|) as real / Occurrences(labels, 1, |labels|) as real &&
      rates.value.1 == Agreements(labels, predictions, 0, |predictions|) as real / Occurrences(labels, 0, |labels|) as real
    ensures rates.Some? ==> 0.0 <= rates.value.0 <= 1.0 && 0.0 <= rates.value.1 <= 1.0
  {
    var sensitivity: nat := 0;
    var specificity: nat := 0;
    for i := 0 to |predictions|
      invariant sensitivity == Agreements(labels, predictions, 1, i)
      invariant specificity == Agreements(labels, predictions, 0, i)
    {
      if labels[i] == 1 && predictions[i] == 1 {
        sensitivity := sensitivity + 1;
      } else if labels[i] == 0 && predictions[i] == 0 {
        specificity := specificity + 1;
      }
    }
    var positives := Occurrences(labels, 1, |labels|);
    var negatives := Occurrences(labels, 0, |labels|);
    if positives == 0 || negatives == 0 {
      return None;
    }
    AgreementsAtMostOccurrences(labels, predictions, 1, |predictions|);
    AgreementsAtMostOccurrences(labels, predictions, 0, |predictions|);
    OccurrencesMonotone(labels, 1, |predictions|, |labels|);
    OccurrencesMonotone(labels, 0, |predictions|, |labels|);
    RateInUnitInterval(sensitivity, positives);
    RateInUnitInterval(specificity, negatives);
    rates := Some((sensitivity as real / positives as real, specificity as real / negatives as real));
  }
}
