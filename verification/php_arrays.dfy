/** PHP truthiness and array_filter() without a callback, as applied to the
    value of a Drupal `checkboxes` element: an ordered map from option key to
    either the key itself (ticked) or the integer 0 (not ticked). */
module PhpArrays {
  import opened PhpStrings

  /** The scalar values a form element can carry. */
  datatype Scalar = Int(i: int) | Str(s: string) | Bool(b: bool) | Null

  /** One key/value pair of a PHP array; the key is kept with its value. */
  datatype Entry = Entry(key: string, value: Scalar)

  /** A PHP array in insertion order. */
  type PhpArray = seq<Entry>

  /** PHP's conversion to bool: 0, "", "0", false and null are falsy. */
  predicate Truthy(v: Scalar): (b: bool)
    ensures !b <==> v in {Int(0), Str(""), Str("0"), Bool(false), Null}
  {
    match v
    case Int(i) => i != 0
    case Str(s) => !IsEmptyString(s)
    case Bool(b) => b
    case Null => false
  }

  /** array_filter($a): the entries of `a` whose value is truthy, keys and
      order preserved. An entry survives exactly when it was in `a` with a
      truthy value. */
  function ArrayFilter(a: PhpArray): (r: PhpArray)
    ensures forall e :: e in r <==> e in a && Truthy(e.value)
    ensures |r| <= |a|
  {
    if |a| == 0 then []
    else (if Truthy(a[0].value) then [a[0]] else []) + ArrayFilter(a[1..])
  }

  /** Filtering works piecewise, so the survivors keep their relative order. */
  lemma {:induction false} ArrayFilterAppend(a: PhpArray, b: PhpArray)
    ensures ArrayFilter(a + b) == ArrayFilter(a) + ArrayFilter(b)
    decreases |a|
  {
    if |a| == 0 {
      assert a + b == b;
    } else {
      assert (a + b)[0] == a[0];
      assert (a + b)[1..] == a[1..] + b;
      ArrayFilterAppend(a[1..], b);
    }
  }

  /** An array whose values are all truthy is kept whole. */
  lemma {:induction false} ArrayFilterKeepsTruthy(a: PhpArray)
    requires forall i :: 0 <= i < |a| ==> Truthy(a[i].value)
    ensures ArrayFilter(a) == a
    decreases |a|
  {
    if |a| > 0 {
      ArrayFilterKeepsTruthy(a[1..]);
    }
  }

  /** Filtering a second time changes nothing. */
  lemma ArrayFilterIdempotent(a: PhpArray)
    ensures ArrayFilter(ArrayFilter(a)) == ArrayFilter(a)
  {
    var r := ArrayFilter(a);
    forall i | 0 <= i < |r| ensures Truthy(r[i].value) {
      assert r[i] in r;
    }
    ArrayFilterKeepsTruthy(r);
  }

  /** count(array_filter($a)) > 0 exactly when some value of `a` is truthy. */
  lemma ArrayFilterNonEmptyIff(a: PhpArray)
    ensures |ArrayFilter(a)| > 0 <==> exists i :: 0 <= i < |a| && Truthy(a[i].value)
  {
    var r := ArrayFilter(a);
    if |r| > 0 {
      assert r[0] in r;
      var i :| 0 <= i < |a| && a[i] == r[0];
    }
    if i :| 0 <= i < |a| && Truthy(a[i].value) {
      assert a[i] in r;
    }
  }
}
