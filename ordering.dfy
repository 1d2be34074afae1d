/** The mixed-type comparison behind boundary filtering. A bound is an
    integer id, positive infinity (an open upper end) or a calendar date; a
    post is compared through the list `[mid, date]`, whose date may be
    missing. Python orders an `int` or `float` against another number and a
    `date` against a `date`; `>` between any other pair raises `TypeError`,
    which `compare` swallows before trying the next candidate. */
module Ordering {
  import opened Wrappers

  datatype Date = Date(year: int, month: int, day: int)

  /** Chronological order of calendar dates. */
  predicate DateBefore(a: Date, b: Date) {
    a.year < b.year
    || (a.year == b.year && (a.month < b.month || (a.month == b.month && a.day < b.day)))
  }

  /** A Python value taking part in a comparison: an `int`, `float('inf')`,
      a `datetime.date`, or `None` (a post whose date could not be read). */
  datatype Value = Int(i: int) | Inf | Dated(date: Date) | Null

  predicate Numeric(v: Value) {
    v.Int? || v.Inf?
  }

  /** The pairs for which Python's `>` does not raise `TypeError`. */
  predicate Comparable(a: Value, b: Value) {
    (Numeric(a) && Numeric(b)) || (a.Dated? && b.Dated?)
  }

  /** `a > b` where Python defines it. */
  predicate Greater(a: Value, b: Value)
    requires Comparable(a, b)
  {
    match (a, b)
    case (Inf, Int(_)) => true
    case (Int(x), Int(y)) => x > y
    case (Dated(x), Dated(y)) => DateBefore(y, x)
    case _ => false
  }

  /** The symbol `compare` selects for `a` against `b`: exactly one of
      `>`, `=` and `<` holds of two comparable values. */
  function Relation(a: Value, b: Value): (r: char)
    requires Comparable(a, b)
    ensures r == '>' || r == '=' || r == '<'
    ensures r == '>' <==> Greater(a, b)
    ensures r == '=' <==> a == b
    ensures r == '<' <==> Greater(b, a)
  {
    if Greater(a, b) then '>' else if a == b then '=' else '<'
  }

  /** `k` is the first candidate comparable with `standard`. */
  predicate FirstComparable(standard: Value, candidate: seq<Value>, k: int) {
    0 <= k < |candidate| && Comparable(standard, candidate[k])
    && forall j :: 0 <= j < k ==> !Comparable(standard, candidate[j])
  }

  /** `compare(standard, operation, candidate)`: the first candidate that
      can be compared with `standard` decides, and the answer is whether the
      selected symbol occurs in `operation`; `None` when every candidate
      raises `TypeError`. */
  function Compare(standard: Value, operation: string, candidate: seq<Value>): (r: Option<bool>)
    ensures r.None? <==> forall k :: 0 <= k < |candidate| ==> !Comparable(standard, candidate[k])
    ensures r.Some? ==> exists k :: FirstComparable(standard, candidate, k)
                                  && r.value == (Relation(standard, candidate[k]) in operation)
  {
    if candidate == [] then None
    else if Comparable(standard, candidate[0]) then
      assert FirstComparable(standard, candidate, 0);
      Some(Relation(standard, candidate[0]) in operation)
    else
      var r := Compare(standard, operation, candidate[1..]);
      if r.Some? then
        var k :| FirstComparable(standard, candidate[1..], k)
                 && r.value == (Relation(standard, candidate[1..][k]) in operation);
        assert FirstComparable(standard, candidate, k + 1);
        r
      else
        r
  }

  /** Callers use the result of `compare` as a condition, so `None` counts
      as false. */
  predicate Holds(r: Option<bool>) {
    r == Some(true)
  }

  /** The list `[mid, date]` a post is compared through. */
  function Point(mid: int, date: Option<Date>): seq<Value> {
    [Int(mid), if date.Some? then Dated(date.value) else Null]
  }

  /** Against a post, a numeric bound is decided by the id, a date bound by
      the date, and a date bound against a post without a date is
      incomparable. */
  lemma {:induction false} CompareAgainstPoint(standard: Value, operation: string, mid: int, date: Option<Date>)
    ensures Compare(standard, operation, Point(mid, date))
      == if Numeric(standard) then Some(Relation(standard, Int(mid)) in operation)
         else if standard.Dated? && date.Some? then Some(Relation(standard, Dated(date.value)) in operation)
         else None
  {
    var p := Point(mid, date);
    if !Numeric(standard) {
      assert p[1..] == [p[1]];
      assert [p[1]][1..] == [];
    }
  }

  /** `compare(lower, '>', [mid, date])`: the post lies below the lower bound. */
  predicate BelowLower(lower: Value, mid: int, date: Option<Date>) {
    Holds(Compare(lower, ">", Point(mid, date)))
  }

  /** `compare(upper, '<', [mid, date])`: the post lies above the upper bound. */
  predicate AboveUpper(upper: Value, mid: int, date: Option<Date>) {
    Holds(Compare(upper, "<", Point(mid, date)))
  }

  lemma BelowLowerMeaning(lower: Value, mid: int, date: Option<Date>)
    ensures BelowLower(lower, mid, date) <==>
      (lower.Int? && mid < lower.i) || lower.Inf?
      || (lower.Dated? && date.Some? && DateBefore(date.value, lower.date))
  {
    CompareAgainstPoint(lower, ">", mid, date);
  }

  lemma AboveUpperMeaning(upper: Value, mid: int, date: Option<Date>)
    ensures AboveUpper(upper, mid, date) <==>
      (upper.Int? && upper.i < mid)
      || (upper.Dated? && date.Some? && DateBefore(upper.date, date.value))
  {
    CompareAgainstPoint(upper, "<", mid, date);
  }

  /** An id bound ranks a larger id as greater, whatever the post's date. */
  lemma IdGreater(a: int, b: int, date: Option<Date>)
    requires a > b
    ensures Compare(Int(a), ">", Point(b, date)) == Some(true)
  {
    CompareAgainstPoint(Int(a), ">", b, date);
  }

  /** A date bound cannot be compared with a post that has no date, so such
      a post is never excluded by it. */
  lemma DateBoundWithoutDate(bound: Date, operation: string, mid: int)
    ensures Compare(Dated(bound), operation, Point(mid, None)) == None
    ensures !BelowLower(Dated(bound), mid, None) && !AboveUpper(Dated(bound), mid, None)
  {
    CompareAgainstPoint(Dated(bound), operation, mid, None);
    CompareAgainstPoint(Dated(bound), ">", mid, None);
    CompareAgainstPoint(Dated(bound), "<", mid, None);
  }

  /** Once a candidate is comparable, the candidates after it are ignored. */
  lemma LaterCandidatesIgnored(standard: Value, operation: string, first: seq<Value>, later: seq<Value>)
    requires exists k :: 0 <= k < |first| && Comparable(standard, first[k])
    ensures Compare(standard, operation, first + later) == Compare(standard, operation, first)
  {
    var r, r' := Compare(standard, operation, first + later), Compare(standard, operation, first);
    var k :| FirstComparable(standard, first, k) && r'.value == (Relation(standard, first[k]) in operation);
    assert (first + later)[k] == first[k];
    assert r.Some?;
    var k' :| FirstComparable(standard, first + later, k') && r.value == (Relation(standard, (first + later)[k']) in operation);
    assert k == k';
  }
}
