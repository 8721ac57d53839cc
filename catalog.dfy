/**
 * Reference data: individual tests and test groups, with their prices.
 * Bounds are stored two-place decimals; the sex-specific ones and the free-text
 * `normal_value_m`/`normal_value_f` are the fields the forms and the report
 * utility read (`normal_value_min_m` … `normal_value_f`, `display_order`).
 */
module Catalog {
  import opened Optional
  import opened Decimals

  datatype IndividualTest = IndividualTest(
    id: nat,
    name: string,
    description: string,      // the department; never NULL
    subclass: string,         // blank allowed, never NULL
    unit: string,
    normalMin: Bound, normalMax: Bound,
    minM: Bound, maxM: Bound, minF: Bound, maxF: Bound,
    normalM: Option<string>, normalF: Option<string>,
    price: int,               // hundredths; the admin validator keeps it >= 0
    displayOrder: int)

  /** A group's `tests` are kept in the order `order_by("display_order")` returns them. */
  datatype TestGroup = TestGroup(
    id: nat,
    name: string,
    description: Option<string>,   // `null=True`: may be NULL
    tests: seq<IndividualTest>,
    totalPrice: int)

  /** `sum(test.price for test in tests)`. */
  function SumPrices(tests: seq<IndividualTest>): int {
    if tests == [] then 0 else SumPrices(tests[..|tests| - 1]) + tests[|tests| - 1].price
  }

  /** `sum(group.total_price for group in groups)`. */
  function SumGroupPrices(groups: seq<TestGroup>): int {
    if groups == [] then 0 else SumGroupPrices(groups[..|groups| - 1]) + groups[|groups| - 1].totalPrice
  }

  /** Number of tests across the groups: the loop total of `check_completion_status`. */
  function GroupTestsCount(groups: seq<TestGroup>): nat {
    if groups == [] then 0 else GroupTestsCount(groups[..|groups| - 1]) + |groups[|groups| - 1].tests|
  }

  predicate PricesValid(tests: seq<IndividualTest>) {
    forall i :: 0 <= i < |tests| ==> tests[i].price >= 0
  }

  /** The admin validator on `total_price`: no group costs less than zero. */
  predicate GroupPricesValid(groups: seq<TestGroup>) {
    forall i :: 0 <= i < |groups| ==> groups[i].totalPrice >= 0
  }

  /**
   * `TestGroup.get_individual_price_sum`: the sum of the member tests' own
   * prices; with valid prices it is non-negative and no member costs more.
   */
  function IndividualPriceSum(g: TestGroup): (s: int)
    ensures PricesValid(g.tests) ==> s >= 0 && forall i :: 0 <= i < |g.tests| ==> g.tests[i].price <= s
  {
    SumPricesBounds(g.tests);
    SumPrices(g.tests)
  }

  lemma SumPricesBounds(tests: seq<IndividualTest>)
    ensures PricesValid(tests) ==>
              SumPrices(tests) >= 0 && forall i :: 0 <= i < |tests| ==> tests[i].price <= SumPrices(tests)
  {
    if PricesValid(tests) {
      SumPricesNonNegative(tests);
      forall i | 0 <= i < |tests|
        ensures tests[i].price <= SumPrices(tests)
      {
        SumPricesBoundsEach(tests, i);
      }
    }
  }

  lemma {:induction false} SumPricesAppend(a: seq<IndividualTest>, b: seq<IndividualTest>)
    ensures SumPrices(a + b) == SumPrices(a) + SumPrices(b)
  {
    if b == [] {
      assert a + b == a;
    } else {
      assert (a + b)[..|a + b| - 1] == a + b[..|b| - 1];
      SumPricesAppend(a, b[..|b| - 1]);
    }
  }

  lemma {:induction false} SumGroupPricesAppend(a: seq<TestGroup>, b: seq<TestGroup>)
    ensures SumGroupPrices(a + b) == SumGroupPrices(a) + SumGroupPrices(b)
  {
    if b == [] {
      assert a + b == a;
    } else {
      assert (a + b)[..|a + b| - 1] == a + b[..|b| - 1];
      SumGroupPricesAppend(a, b[..|b| - 1]);
    }
  }

  /** With the admin's non-negative prices, a sum of prices is non-negative and bounds each price. */
  lemma {:induction false} SumPricesBoundsEach(tests: seq<IndividualTest>, i: nat)
    requires PricesValid(tests) && i < |tests|
    ensures 0 <= tests[i].price <= SumPrices(tests)
  {
    var n := |tests|;
    SumPricesNonNegative(tests[..n - 1]);
    if i < n - 1 {
      SumPricesBoundsEach(tests[..n - 1], i);
    }
  }

  lemma {:induction false} SumPricesNonNegative(tests: seq<IndividualTest>)
    requires PricesValid(tests)
    ensures SumPrices(tests) >= 0
  {
    if tests != [] {
      SumPricesNonNegative(tests[..|tests| - 1]);
    }
  }

  lemma {:induction false} GroupTestsCountAppend(a: seq<TestGroup>, b: seq<TestGroup>)
    ensures GroupTestsCount(a + b) == GroupTestsCount(a) + GroupTestsCount(b)
  {
    if b == [] {
      assert a + b == a;
    } else {
      assert (a + b)[..|a + b| - 1] == a + b[..|b| - 1];
      GroupTestsCountAppend(a, b[..|b| - 1]);
    }
  }

  lemma {:induction false} SumGroupPricesNonNegative(groups: seq<TestGroup>)
    ensures GroupPricesValid(groups) ==> SumGroupPrices(groups) >= 0
  {
    if groups != [] {
      SumGroupPricesNonNegative(groups[..|groups| - 1]);
    }
  }
}
