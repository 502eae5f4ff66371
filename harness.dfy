/**
 * The table-driven test harness of test/Test.java (assertEqual and
 * assertMPEqual with their overloads).
 *
 * A run checks that the input and expected tables have the same length,
 * looks the method under test up by name, invokes it once per row in index
 * order and compares each result with the expected value: element by element
 * when the expected value is an array, with `equals` otherwise. The first
 * mismatch halts the process; when every row matches, the success line is
 * printed.
 *
 * Reflection is replaced by parameters: `classFound` says whether
 * `Class.forName` finds the class, `resolve(row)` whether `getMethod` finds
 * a method for the parameter types of that row and `newInstance` succeeds,
 * and `f` is what `Method.invoke` does with one row of arguments. Printing
 * and `System.exit` are replaced by the `Outcome` the run ends in.
 */
module Harness {

  /** A result or expected value: a single object, or an array of elements. */
  datatype Value<T> = Scalar(x: T) | Arr(elems: seq<T>)

  /**
   * What Method.invoke gives back: the returned value, or an exception
   * (InvocationTargetException from the tested method, IllegalArgumentException
   * for arguments the method does not accept). Both are caught by the harness.
   */
  datatype Result<T> = Ok(value: Value<T>) | Threw

  /** How a run ends. */
  datatype Outcome =
    | LengthMismatch    // validateLengths printed its message and exited
    | LookupFailed      // a caught reflective exception before any row: the class, method or instance could not be had
    | NoFirstRow        // both tables empty: inputs[0] throws ArrayIndexOutOfBoundsException, which the harness does not catch
    | AllPassed         // every row matched; the success line was printed
    | FailedAt(i: nat)  // row i did not match; the failure line was printed and the process exited
    | Errored(i: nat)   // a caught exception at row i; its stack trace was printed, and no success line
    | Escaped(i: nat)   // the output of row i was an array shorter than expected: the ArrayIndexOutOfBoundsException is not caught
    | CastFailed        // a table could not be cast to Object[][]: ClassCastException, not caught

  /** How comparing one row ends. */
  datatype Verdict =
    | Pass      // the output matches
    | Mismatch  // an equals test failed
    | Caught    // an exception the harness catches (IllegalArgumentException)
    | Uncaught  // an exception the harness does not catch (ArrayIndexOutOfBoundsException)

  /**
   * The inner loop over an expected array from index j: Array.get on a
   * non-array output throws IllegalArgumentException, an index past the end
   * of the output throws ArrayIndexOutOfBoundsException, and the first
   * element that is not equal is a mismatch. Elements of the output past
   * the end of the expected array are never looked at.
   */
  function CompareFrom<T(==)>(es: seq<T>, output: Value<T>, j: nat): Verdict
    requires j <= |es|
    decreases |es| - j
  {
    if j == |es| then Pass
    else if !output.Arr? then Caught
    else if j >= |output.elems| then Uncaught
    else if es[j] != output.elems[j] then Mismatch
    else CompareFrom(es, output, j + 1)
  }

  /** Comparing the output of a row with its expected value. */
  function Compare<T(==)>(e: Value<T>, output: Value<T>): Verdict
  {
    match e
    case Scalar(x) => if output == Scalar(x) then Pass else Mismatch
    case Arr(es) => CompareFrom(es, output, 0)
  }

  /** The verdict on a row given what the invocation returned. */
  function CaseVerdict<T(==)>(r: Result<T>, e: Value<T>): Verdict
  {
    match r
    case Threw => Caught
    case Ok(output) => Compare(e, output)
  }

  /** The outcome when row i ends the run with verdict v. */
  function HaltAt(v: Verdict, i: nat): Outcome
  {
    match v
    case Pass => AllPassed
    case Mismatch => FailedAt(i)
    case Caught => Errored(i)
    case Uncaught => Escaped(i)
  }

  /** Row k matches its expected value. */
  predicate Passes<In, T(==)>(f: In -> Result<T>, inputs: seq<In>, expected: seq<Value<T>>, k: nat)
    requires k < |inputs| && k < |expected|
  {
    CaseVerdict(f(inputs[k]), expected[k]) == Pass
  }

  /** The loop over the rows, from row i on. */
  function Scan<In, T(==)>(f: In -> Result<T>, inputs: seq<In>, expected: seq<Value<T>>, i: nat): Outcome
    requires |inputs| == |expected| && i <= |inputs|
    decreases |inputs| - i
  {
    if i == |inputs| then AllPassed
    else
      var v := CaseVerdict(f(inputs[i]), expected[i]);
      if v == Pass then Scan(f, inputs, expected, i + 1) else HaltAt(v, i)
  }

  /** The run of assertEqual (and of the array form of assertMPEqual). */
  function Run<In, T(==)>(classFound: bool, resolve: In -> bool, f: In -> Result<T>,
                          inputs: seq<In>, expected: seq<Value<T>>): Outcome
  {
    if |inputs| != |expected| then LengthMismatch
    else if !classFound then LookupFailed
    else if |inputs| == 0 then NoFirstRow
    else if !resolve(inputs[0]) then LookupFailed
    else Scan(f, inputs, expected, 0)
  }

  /** How many rows a run with this outcome invoked. */
  function Invocations(outcome: Outcome, n: nat): nat
  {
    match outcome
    case AllPassed => n
    case FailedAt(i) => i + 1
    case Errored(i) => i + 1
    case Escaped(i) => i + 1
    case _ => 0
  }

  /** The row indices 0, 1, ..., n - 1 in order. */
  function Upto(n: nat): (r: seq<nat>)
    ensures |r| == n && forall k :: 0 <= k < n ==> r[k] == k
  {
    seq(n, k => k)
  }

  /**
   * assertEqual on arrays: `calls` records the rows passed to Method.invoke,
   * in the order of the calls.
   */
  method AssertEqual<In, T(==)>(classFound: bool, resolve: In -> bool, f: In -> Result<T>,
                                inputs: seq<In>, expected: seq<Value<T>>)
    returns (outcome: Outcome, ghost calls: seq<nat>)
    ensures outcome == Run(classFound, resolve, f, inputs, expected)
    ensures calls == Upto(Invocations(outcome, |inputs|))
  {
    calls := [];
    // validateLengths
    if |inputs| != |expected| {
      return LengthMismatch, calls;
    }
    if !classFound {
      return LookupFailed, calls;
    }
    if |inputs| == 0 {
      return NoFirstRow, calls;
    }
    if !resolve(inputs[0]) {
      return LookupFailed, calls;
    }
    var i := 0;
    while i < |inputs|
      invariant 0 <= i <= |inputs|
      invariant calls == Upto(i)
      invariant Scan(f, inputs, expected, 0) == Scan(f, inputs, expected, i)
    {
      var e := expected[i];
      var r := f(inputs[i]);
      calls := calls + [i];
      if r.Threw? {
        return Errored(i), calls;
      }
      var output := r.value;
      match e {
        case Arr(es) =>
          var j := 0;
          while j < |es|
            invariant 0 <= j <= |es|
            invariant CompareFrom(es, output, 0) == CompareFrom(es, output, j)
          {
            if !output.Arr? {
              return Errored(i), calls;
            }
            if j >= |output.elems| {
              return Escaped(i), calls;
            }
            if es[j] != output.elems[j] {
              return FailedAt(i), calls;
            }
            j := j + 1;
          }
        case Scalar(x) =>
          if output != Scalar(x) {
            return FailedAt(i), calls;
          }
      }
      i := i + 1;
    }
    return AllPassed, calls;
  }

  // ---------------------------------------------------------------------
  // Comparing one row

  /** From index j on, the verdict on an expected array, stated without the loop. */
  lemma {:induction false} CompareFromVerdict<T>(es: seq<T>, output: Value<T>, j: nat)
    requires j <= |es| && (output.Arr? ==> j <= |output.elems|)
    ensures CompareFrom(es, output, j) == Pass <==>
      j == |es| || (output.Arr? && |es| <= |output.elems| && forall k :: j <= k < |es| ==> es[k] == output.elems[k])
    ensures CompareFrom(es, output, j) == Caught <==> j < |es| && !output.Arr?
    ensures CompareFrom(es, output, j) == Uncaught <==>
      output.Arr? && j <= |output.elems| < |es| && forall k :: j <= k < |output.elems| ==> es[k] == output.elems[k]
    ensures CompareFrom(es, output, j) == Mismatch <==>
      output.Arr? && exists k :: j <= k < |es| && k < |output.elems| && es[k] != output.elems[k]
    decreases |es| - j
  {
    if j < |es| && output.Arr? && j < |output.elems| && es[j] == output.elems[j] {
      CompareFromVerdict(es, output, j + 1);
      if CompareFrom(es, output, j) == Mismatch {
        var k :| j + 1 <= k < |es| && k < |output.elems| && es[k] != output.elems[k];
      }
    }
  }

  /**
   * An expected array matches exactly when every one of its elements equals
   * the output element at the same index. An output that is not an array
   * throws a caught exception unless the expected array is empty; an output
   * array that is shorter, and agrees as far as it goes, throws an uncaught one.
   */
  lemma CompareArray<T>(es: seq<T>, output: Value<T>)
    ensures Compare(Arr(es), output) == Pass <==>
      |es| == 0 || (output.Arr? && |es| <= |output.elems| && forall k :: 0 <= k < |es| ==> es[k] == output.elems[k])
    ensures Compare(Arr(es), output) == Caught <==> |es| > 0 && !output.Arr?
    ensures Compare(Arr(es), output) == Uncaught <==>
      output.Arr? && |output.elems| < |es| && forall k :: 0 <= k < |output.elems| ==> es[k] == output.elems[k]
    ensures Compare(Arr(es), output) == Mismatch <==>
      output.Arr? && exists k :: 0 <= k < |es| && k < |output.elems| && es[k] != output.elems[k]
  {
    CompareFromVerdict(es, output, 0);
  }

  /** Output elements past the end of the expected array are never inspected. */
  lemma CompareIgnoresExtraElements<T>(es: seq<T>, os: seq<T>, extra: seq<T>)
    requires |es| <= |os|
    ensures Compare(Arr(es), Arr(os + extra)) == Compare(Arr(es), Arr(os))
  {
    CompareArray(es, Arr(os + extra));
    CompareArray(es, Arr(os));
    assert forall k :: 0 <= k < |os| ==> (os + extra)[k] == os[k];
  }

  /** A scalar expected value matches exactly an equal output, and never throws. */
  lemma CompareScalar<T>(x: T, output: Value<T>)
    ensures Compare(Scalar(x), output) == Pass <==> output == Scalar(x)
    ensures Compare(Scalar(x), output) != Pass ==> Compare(Scalar(x), output) == Mismatch
  {
  }

  // ---------------------------------------------------------------------
  // The run

  /** The lookup happens and a method is found for the first row's types. */
  predicate SetUp<In, T>(classFound: bool, resolve: In -> bool, inputs: seq<In>, expected: seq<Value<T>>)
  {
    |inputs| == |expected| && classFound && |inputs| > 0 && resolve(inputs[0])
  }

  /** From row i on, the loop completes exactly when every row passes. */
  lemma {:induction false} ScanAllPassed<In, T>(f: In -> Result<T>, inputs: seq<In>, expected: seq<Value<T>>, i: nat)
    requires |inputs| == |expected| && i <= |inputs|
    ensures Scan(f, inputs, expected, i) == AllPassed <==>
      forall k :: i <= k < |inputs| ==> Passes(f, inputs, expected, k)
    decreases |inputs| - i
  {
    if i < |inputs| && Passes(f, inputs, expected, i) {
      ScanAllPassed(f, inputs, expected, i + 1);
    }
  }

  /** From row i on, the loop halts at the first row k that does not pass, by its verdict. */
  lemma {:induction false} ScanHaltsAt<In, T>(f: In -> Result<T>, inputs: seq<In>, expected: seq<Value<T>>, i: nat, k: nat)
    requires |inputs| == |expected| && i <= k < |inputs|
    requires !Passes(f, inputs, expected, k)
    requires forall m :: i <= m < k ==> Passes(f, inputs, expected, m)
    ensures Scan(f, inputs, expected, i) == HaltAt(CaseVerdict(f(inputs[k]), expected[k]), k)
    decreases k - i
  {
    if i < k {
      assert Passes(f, inputs, expected, i);
      ScanHaltsAt(f, inputs, expected, i + 1, k);
    }
  }

  /** From row i on, the loop completes or halts at some first row that does not pass. */
  lemma {:induction false} ScanFirstFailure<In, T>(f: In -> Result<T>, inputs: seq<In>, expected: seq<Value<T>>, i: nat)
    requires |inputs| == |expected| && i <= |inputs|
    ensures Scan(f, inputs, expected, i) == AllPassed ||
      exists k :: i <= k < |inputs| && !Passes(f, inputs, expected, k) &&
        (forall m :: i <= m < k ==> Passes(f, inputs, expected, m)) &&
        Scan(f, inputs, expected, i) == HaltAt(CaseVerdict(f(inputs[k]), expected[k]), k)
    decreases |inputs| - i
  {
    if i < |inputs| {
      if Passes(f, inputs, expected, i) {
        ScanFirstFailure(f, inputs, expected, i + 1);
        if Scan(f, inputs, expected, i) != AllPassed {
          var k :| i + 1 <= k < |inputs| && !Passes(f, inputs, expected, k) &&
            (forall m :: i + 1 <= m < k ==> Passes(f, inputs, expected, m)) &&
            Scan(f, inputs, expected, i + 1) == HaltAt(CaseVerdict(f(inputs[k]), expected[k]), k);
          assert forall m :: i <= m < k ==> Passes(f, inputs, expected, m);
        }
      }
    }
  }

  /** The loop ends in AllPassed, or in a halt at a row from i on. */
  lemma {:induction false} ScanShape<In, T>(f: In -> Result<T>, inputs: seq<In>, expected: seq<Value<T>>, i: nat)
    requires |inputs| == |expected| && i <= |inputs|
    ensures var o := Scan(f, inputs, expected, i);
      o.AllPassed? || ((o.FailedAt? || o.Errored? || o.Escaped?) && i <= o.i < |inputs|)
    decreases |inputs| - i
  {
    if i < |inputs| && Passes(f, inputs, expected, i) {
      ScanShape(f, inputs, expected, i + 1);
    }
  }

  /**
   * The success line is reached exactly when the lookup succeeds, the table
   * is not empty and every row matches.
   */
  lemma RunAllPassed<In, T>(classFound: bool, resolve: In -> bool, f: In -> Result<T>,
                            inputs: seq<In>, expected: seq<Value<T>>)
    ensures Run(classFound, resolve, f, inputs, expected) == AllPassed <==>
      SetUp(classFound, resolve, inputs, expected) &&
      forall k :: 0 <= k < |inputs| ==> Passes(f, inputs, expected, k)
  {
    if SetUp(classFound, resolve, inputs, expected) {
      ScanAllPassed(f, inputs, expected, 0);
    }
  }

  /**
   * The run halts at row i (a mismatch, a caught or an uncaught exception)
   * exactly when the lookup succeeds, every earlier row matched and row i does
   * not; which of the three it is follows the verdict on row i.
   */
  lemma RunHaltsAtFirstFailure<In, T>(classFound: bool, resolve: In -> bool, f: In -> Result<T>,
                                      inputs: seq<In>, expected: seq<Value<T>>, i: nat)
    ensures Run(classFound, resolve, f, inputs, expected) in {FailedAt(i), Errored(i), Escaped(i)} <==>
      SetUp(classFound, resolve, inputs, expected) && i < |inputs| &&
      (forall m :: 0 <= m < i ==> Passes(f, inputs, expected, m)) && !Passes(f, inputs, expected, i)
    ensures (SetUp(classFound, resolve, inputs, expected) && i < |inputs| &&
      (forall m :: 0 <= m < i ==> Passes(f, inputs, expected, m)) && !Passes(f, inputs, expected, i)) ==>
      Run(classFound, resolve, f, inputs, expected) == HaltAt(CaseVerdict(f(inputs[i]), expected[i]), i)
  {
    if SetUp(classFound, resolve, inputs, expected) {
      if i < |inputs| && (forall m :: 0 <= m < i ==> Passes(f, inputs, expected, m)) && !Passes(f, inputs, expected, i) {
        ScanHaltsAt(f, inputs, expected, 0, i);
      }
      ScanFirstFailure(f, inputs, expected, 0);
      if Run(classFound, resolve, f, inputs, expected) in {FailedAt(i), Errored(i), Escaped(i)} {
        var k :| 0 <= k < |inputs| && !Passes(f, inputs, expected, k) &&
          (forall m :: 0 <= m < k ==> Passes(f, inputs, expected, m)) &&
          Run(classFound, resolve, f, inputs, expected) == HaltAt(CaseVerdict(f(inputs[k]), expected[k]), k);
        assert k == i;
      }
    }
  }

  /**
   * Before anything is invoked: a length mismatch is reported first, then a
   * class that is not found, then an empty table, then a method that is not
   * found; every other outcome invokes at least one row.
   */
  lemma RunBeforeInvoking<In, T>(classFound: bool, resolve: In -> bool, f: In -> Result<T>,
                                 inputs: seq<In>, expected: seq<Value<T>>)
    ensures Run(classFound, resolve, f, inputs, expected) == LengthMismatch <==> |inputs| != |expected|
    ensures Run(classFound, resolve, f, inputs, expected) != CastFailed
    ensures Run(classFound, resolve, f, inputs, expected) == NoFirstRow <==>
      |inputs| == |expected| && classFound && |inputs| == 0
    ensures Run(classFound, resolve, f, inputs, expected) == LookupFailed <==>
      |inputs| == |expected| && (!classFound || (|inputs| > 0 && !resolve(inputs[0])))
    ensures Invocations(Run(classFound, resolve, f, inputs, expected), |inputs|) == 0 <==>
      !SetUp(classFound, resolve, inputs, expected)
  {
    if SetUp(classFound, resolve, inputs, expected) {
      ScanShape(f, inputs, expected, 0);
    }
  }

  // ---------------------------------------------------------------------
  // The overloads

  /** assertEqual on two lists: List.toArray keeps the list's order, so this is the array form. */
  method AssertEqualList<In, T(==)>(classFound: bool, resolve: In -> bool, f: In -> Result<T>,
                                    inputs: seq<In>, expected: seq<Value<T>>)
    returns (outcome: Outcome, ghost calls: seq<nat>)
    ensures outcome == Run(classFound, resolve, f, inputs, expected)
    ensures calls == Upto(Invocations(outcome, |inputs|))
  {
    outcome, calls := AssertEqual(classFound, resolve, f, inputs, expected);
  }

  /** `order` lists every key of `tests` once: the iteration order of keySet(). */
  predicate Enumerates<K(==), V>(order: seq<K>, tests: map<K, V>)
  {
    |order| == |tests| &&
    (forall k :: 0 <= k < |order| ==> order[k] in tests) &&
    (forall p, q :: 0 <= p < q < |order| ==> order[p] != order[q])
  }

  /** values(), in the iteration order of keySet(). */
  function ValuesInOrder<K, V>(tests: map<K, V>, order: seq<K>): (r: seq<V>)
    requires forall k :: 0 <= k < |order| ==> order[k] in tests
    ensures |r| == |order| && forall k :: 0 <= k < |order| ==> r[k] == tests[order[k]]
  {
    seq(|order|, k requires 0 <= k < |order| => tests[order[k]])
  }

  /**
   * assertEqual on a map: the keys are the inputs and the values the expected
   * results, both in the iteration order of the map, so the tables always
   * have the same length and each key is run at most once.
   */
  method AssertEqualMap<In(==), T(==)>(classFound: bool, resolve: In -> bool, f: In -> Result<T>,
                                       tests: map<In, Value<T>>, order: seq<In>)
    returns (outcome: Outcome, ghost calls: seq<nat>)
    requires Enumerates(order, tests)
    ensures outcome == Run(classFound, resolve, f, order, ValuesInOrder(tests, order))
    ensures outcome != LengthMismatch
    ensures calls == Upto(Invocations(outcome, |order|))
  {
    var inputs := order;
    var expected := ValuesInOrder(tests, order);
    outcome, calls := AssertEqual(classFound, resolve, f, inputs, expected);
    RunBeforeInvoking(classFound, resolve, f, inputs, expected);
  }

  /**
   * Method.invoke with a row of arguments: a row whose length is not the
   * parameter count of the method found for the first row throws
   * IllegalArgumentException.
   */
  function Spread<A, T>(f: seq<A> -> Result<T>, arity: nat): seq<A> -> Result<T>
  {
    args => if |args| != arity then Threw else f(args)
  }

  /** The parameter count of the method found: the length of the first row. */
  function Arity<A>(inputs: seq<seq<A>>): nat
  {
    if |inputs| == 0 then 0 else |inputs[0]|
  }

  /** The run of assertMPEqual: each row is a list of positional arguments. */
  function RunMP<A, T(==)>(classFound: bool, resolve: seq<A> -> bool, f: seq<A> -> Result<T>,
                           inputs: seq<seq<A>>, expected: seq<Value<T>>): Outcome
  {
    Run(classFound, resolve, Spread(f, Arity(inputs)), inputs, expected)
  }

  /**
   * assertMPEqual on arrays: the same loop as assertEqual, with the
   * parameter types taken from the elements of the first row.
   */
  method AssertMPEqual<A, T(==)>(classFound: bool, resolve: seq<A> -> bool, f: seq<A> -> Result<T>,
                                 inputs: seq<seq<A>>, expected: seq<Value<T>>)
    returns (outcome: Outcome, ghost calls: seq<nat>)
    ensures outcome == RunMP(classFound, resolve, f, inputs, expected)
    ensures calls == Upto(Invocations(outcome, |inputs|))
  {
    outcome, calls := AssertEqual(classFound, resolve, Spread(f, Arity(inputs)), inputs, expected);
  }

  /**
   * The parameter types come from the first row only: the first row whose
   * length differs from it, if every row before it matched, ends the run
   * with a caught exception at that row.
   */
  lemma MPArityMismatch<A, T>(classFound: bool, resolve: seq<A> -> bool, f: seq<A> -> Result<T>,
                                  inputs: seq<seq<A>>, expected: seq<Value<T>>, i: nat)
    requires SetUp(classFound, resolve, inputs, expected) && i < |inputs|
    requires |inputs[i]| != |inputs[0]|
    requires forall m :: 0 <= m < i ==> Passes(Spread(f, Arity(inputs)), inputs, expected, m)
    ensures RunMP(classFound, resolve, f, inputs, expected) == Errored(i)
  {
    RunHaltsAtFirstFailure(classFound, resolve, Spread(f, Arity(inputs)), inputs, expected, i);
  }

  /**
   * assertMPEqual on two lists, as written: `(Object[][]) inputs.toArray()`
   * throws ClassCastException, not caught, unless the list's toArray()
   * returns an array whose runtime type is Object[][] (`rowTyped`); an
   * ArrayList returns an Object[].
   */
  method AssertMPEqualListAsWritten<A, T(==)>(classFound: bool, resolve: seq<A> -> bool, f: seq<A> -> Result<T>,
                                              inputs: seq<seq<A>>, expected: seq<Value<T>>, rowTyped: bool)
    returns (outcome: Outcome, ghost calls: seq<nat>)
    ensures !rowTyped ==> outcome == CastFailed && calls == []
    ensures rowTyped ==> outcome == RunMP(classFound, resolve, f, inputs, expected)
    ensures calls == Upto(Invocations(outcome, |inputs|))
  {
    if !rowTyped {
      return CastFailed, [];
    }
    outcome, calls := AssertMPEqual(classFound, resolve, f, inputs, expected);
  }

  /** assertMPEqual on two lists, converting to arrays of rows as intended. */
  method AssertMPEqualList<A, T(==)>(classFound: bool, resolve: seq<A> -> bool, f: seq<A> -> Result<T>,
                                     inputs: seq<seq<A>>, expected: seq<Value<T>>)
    returns (outcome: Outcome, ghost calls: seq<nat>)
    ensures outcome == RunMP(classFound, resolve, f, inputs, expected)
    ensures outcome != CastFailed
    ensures calls == Upto(Invocations(outcome, |inputs|))
  {
    outcome, calls := AssertMPEqual(classFound, resolve, f, inputs, expected);
    RunBeforeInvoking(classFound, resolve, Spread(f, Arity(inputs)), inputs, expected);
  }

  /**
   * assertMPEqual on a map, as written: `(Object[][]) tests.keySet().toArray()`
   * always throws ClassCastException, since keySet().toArray() returns an
   * Object[]; no row is run, whatever the map holds.
   */
  method AssertMPEqualMapAsWritten<A(==), T(==)>(classFound: bool, resolve: seq<A> -> bool, f: seq<A> -> Result<T>,
                                             tests: map<seq<A>, Value<T>>, order: seq<seq<A>>)
    returns (outcome: Outcome, ghost calls: seq<nat>)
    requires Enumerates(order, tests)
    ensures outcome == CastFailed && calls == []
  {
    return CastFailed, [];
  }

  /** assertMPEqual on a map, converting the keys to an array of rows as intended. */
  method AssertMPEqualMap<A(==), T(==)>(classFound: bool, resolve: seq<A> -> bool, f: seq<A> -> Result<T>,
                                    tests: map<seq<A>, Value<T>>, order: seq<seq<A>>)
    returns (outcome: Outcome, ghost calls: seq<nat>)
    requires Enumerates(order, tests)
    ensures outcome == RunMP(classFound, resolve, f, order, ValuesInOrder(tests, order))
    ensures outcome != LengthMismatch && outcome != CastFailed
    ensures calls == Upto(Invocations(outcome, |order|))
  {
    outcome, calls := AssertMPEqual(classFound, resolve, f, order, ValuesInOrder(tests, order));
    RunBeforeInvoking(classFound, resolve, Spread(f, Arity(order)), order, ValuesInOrder(tests, order));
  }

  // ---------------------------------------------------------------------
  // Examples

  function Square(x: int): Result<int>
  {
    Ok(Scalar(x * x))
  }

  function Add(args: seq<int>): Result<int>
  {
    if |args| == 2 then Ok(Scalar(args[0] + args[1])) else Threw
  }

  /** square over 1..4 passes against 1, 4, 9, 16 and fails at the last row against 1, 4, 9, 17. */
  lemma SquareExample()
    ensures Run(true, _ => true, Square, [1, 2, 3, 4], [Scalar(1), Scalar(4), Scalar(9), Scalar(16)]) == AllPassed
    ensures Run(true, _ => true, Square, [1, 2, 3, 4], [Scalar(1), Scalar(4), Scalar(9), Scalar(17)]) == FailedAt(3)
  {
  }

  /**
   * A multi-parameter map {[1, 2] -> 3, [3, 4] -> 7} for add: the intended
   * run passes (AssertMPEqualMapAsWritten ends in CastFailed on every map).
   */
  lemma AddMapExample()
    ensures Enumerates([[1, 2], [3, 4]], map[[1, 2] := Scalar(3), [3, 4] := Scalar(7)])
    ensures RunMP(true, _ => true, Add, [[1, 2], [3, 4]],
                  ValuesInOrder(map[[1, 2] := Scalar(3), [3, 4] := Scalar(7)], [[1, 2], [3, 4]])) == AllPassed
  {
    var vs := ValuesInOrder(map[[1, 2] := Scalar(3), [3, 4] := Scalar(7)], [[1, 2], [3, 4]]);
    assert vs == [Scalar(3), Scalar(7)];
    var g := Spread(Add, 2);
    var r1: seq<int>, r2: seq<int> := [1, 2], [3, 4];
    assert |r1| == 2 && r1[0] + r1[1] == 3 && |r2| == 2 && r2[0] + r2[1] == 7;
    assert g(r1) == Add(r1) == Ok(Scalar(3));
    assert g(r2) == Add(r2) == Ok(Scalar(7));
    assert Scan(g, [[1, 2], [3, 4]], vs, 2) == AllPassed;
    assert Scan(g, [[1, 2], [3, 4]], vs, 1) == AllPassed;
  }
}
