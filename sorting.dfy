/**
  ORDER BY over Employee rows: a lexicographic comparison along a list of
  sort orders, and the order the database returns rows in, modelled as a
  stable insertion sort (rows that compare equal keep their storage order).
 */
module Sorting {
  import Dates
  import Strings
  import opened Entities
  import opened Criteria

  function CompareInts(a: int, b: int): int {
    if a < b then -1 else if a == b then 0 else 1
  }

  function CompareReals(a: real, b: real): int {
    if a < b then -1 else if a == b then 0 else 1
  }

  /** Sign of comparing two rows on one attribute, ascending. */
  function CompareProperty(a: Employee, b: Employee, p: Property): int {
    match p
    case Id => CompareInts(a.id, b.id)
    case FirstName => Strings.Compare(a.firstName, b.firstName)
    case Salary => CompareReals(a.salary, b.salary)
    case HireDate => Dates.Compare(a.hireDate, b.hireDate)
  }

  /** The two rows agree on an attribute. */
  predicate SameProperty(a: Employee, b: Employee, p: Property) {
    match p
    case Id => a.id == b.id
    case FirstName => a.firstName == b.firstName
    case Salary => a.salary == b.salary
    case HireDate => a.hireDate == b.hireDate
  }

  /** Sign of comparing two rows on one ORDER BY item. */
  function CompareBy(a: Employee, b: Employee, o: SortOrder): int {
    var c := CompareProperty(a, b, o.property);
    if o.direction == Ascending then c else -c
  }

  /** Sign of comparing two rows along a list of ORDER BY items: the first item on which they differ decides. */
  function CompareAll(a: Employee, b: Employee, orders: seq<SortOrder>): int
    decreases |orders|
  {
    if orders == [] then 0
    else
      var c := CompareBy(a, b, orders[0]);
      if c != 0 then c else CompareAll(a, b, orders[1..])
  }

  /** One ORDER BY item compares like a total preorder whose ties are exactly the rows agreeing on its attribute. */
  lemma CompareByFacts(a: Employee, b: Employee, c: Employee, o: SortOrder)
    ensures CompareBy(a, b, o) == -CompareBy(b, a, o)
    ensures CompareBy(a, b, o) == 0 <==> SameProperty(a, b, o.property)
    ensures CompareBy(a, b, o) <= 0 && CompareBy(b, c, o) <= 0 ==> CompareBy(a, c, o) <= 0
  {
    match o.property
    case Id =>
    case Salary =>
    case HireDate =>
      Dates.CompareFacts(a.hireDate, b.hireDate, c.hireDate);
      Dates.CompareFacts(b.hireDate, c.hireDate, a.hireDate);
      Dates.CompareFacts(c.hireDate, a.hireDate, b.hireDate);
      Dates.CompareFacts(a.hireDate, c.hireDate, b.hireDate);
      Dates.CompareFacts(c.hireDate, b.hireDate, a.hireDate);
      Dates.CompareFacts(b.hireDate, a.hireDate, c.hireDate);
    case FirstName =>
      Strings.CompareAntisymmetric(a.firstName, b.firstName);
      Strings.CompareZeroIffEqual(a.firstName, b.firstName);
      if o.direction == Ascending {
        if CompareBy(a, b, o) <= 0 && CompareBy(b, c, o) <= 0 {
          Strings.CompareTransitive(a.firstName, b.firstName, c.firstName);
        }
      } else {
        Strings.CompareAntisymmetric(b.firstName, c.firstName);
        Strings.CompareAntisymmetric(a.firstName, c.firstName);
        if CompareBy(a, b, o) <= 0 && CompareBy(b, c, o) <= 0 {
          Strings.CompareTransitive(c.firstName, b.firstName, a.firstName);
        }
      }
  }

  lemma {:induction false} CompareAllReflexive(a: Employee, orders: seq<SortOrder>)
    ensures CompareAll(a, a, orders) == 0
    decreases |orders|
  {
    if orders != [] {
      CompareByFacts(a, a, a, orders[0]);
      CompareAllReflexive(a, orders[1..]);
    }
  }

  lemma {:induction false} CompareAllAntisymmetric(a: Employee, b: Employee, orders: seq<SortOrder>)
    ensures CompareAll(a, b, orders) == -CompareAll(b, a, orders)
    decreases |orders|
  {
    if orders != [] {
      CompareByFacts(a, b, a, orders[0]);
      CompareAllAntisymmetric(a, b, orders[1..]);
    }
  }

  lemma {:induction false} CompareAllTransitive(a: Employee, b: Employee, c: Employee, orders: seq<SortOrder>)
    requires CompareAll(a, b, orders) <= 0 && CompareAll(b, c, orders) <= 0
    ensures CompareAll(a, c, orders) <= 0
    decreases |orders|
  {
    if orders != [] {
      var o := orders[0];
      CompareByFacts(a, b, c, o);
      CompareByFacts(b, c, a, o);
      CompareByFacts(a, c, b, o);
      CompareByFacts(c, a, b, o);
      if CompareBy(a, b, o) == 0 && CompareBy(b, c, o) == 0 {
        CompareAllTransitive(a, b, c, orders[1..]);
      }
    }
  }

  /** Ties along a list of ORDER BY items are exactly rows agreeing on every listed attribute. */
  lemma {:induction false} CompareAllZero(a: Employee, b: Employee, orders: seq<SortOrder>)
    ensures CompareAll(a, b, orders) == 0 <==> forall k :: 0 <= k < |orders| ==> SameProperty(a, b, orders[k].property)
    decreases |orders|
  {
    if orders != [] {
      CompareByFacts(a, b, a, orders[0]);
      CompareAllZero(a, b, orders[1..]);
      assert forall k :: 1 <= k < |orders| ==> orders[k] == orders[1..][k - 1];
    }
  }

  /** Every earlier row compares at most equal to every later row. */
  predicate Sorted(s: seq<Employee>, orders: seq<SortOrder>) {
    forall i, j :: 0 <= i < j < |s| ==> CompareAll(s[i], s[j], orders) <= 0
  }

  /** Places `x` in front of the first row it does not come after. */
  function Insert(x: Employee, s: seq<Employee>, orders: seq<SortOrder>): (r: seq<Employee>)
    ensures |r| == |s| + 1
  {
    if s == [] then [x]
    else if CompareAll(x, s[0], orders) <= 0 then [x] + s
    else [s[0]] + Insert(x, s[1..], orders)
  }

  /** The rows in the order ORDER BY `orders` returns them. */
  function SortBy(s: seq<Employee>, orders: seq<SortOrder>): (r: seq<Employee>)
    ensures |r| == |s|
  {
    if s == [] then [] else Insert(s[0], SortBy(s[1..], orders), orders)
  }

  lemma {:induction false} InsertPermutes(x: Employee, s: seq<Employee>, orders: seq<SortOrder>)
    ensures multiset(Insert(x, s, orders)) == multiset(s) + multiset{x}
  {
    if s != [] && CompareAll(x, s[0], orders) > 0 {
      InsertPermutes(x, s[1..], orders);
      assert s == [s[0]] + s[1..];
    }
  }

  lemma {:induction false} InsertSorted(x: Employee, s: seq<Employee>, orders: seq<SortOrder>)
    requires Sorted(s, orders)
    ensures Sorted(Insert(x, s, orders), orders)
  {
    if s == [] {
    } else if CompareAll(x, s[0], orders) <= 0 {
      var r := [x] + s;
      forall i, j | 0 <= i < j < |r| ensures CompareAll(r[i], r[j], orders) <= 0 {
        if i == 0 && j > 1 {
          CompareAllTransitive(x, s[0], s[j - 1], orders);
        }
      }
    } else {
      var rest := Insert(x, s[1..], orders);
      InsertSorted(x, s[1..], orders);
      InsertPermutes(x, s[1..], orders);
      forall j | 0 <= j < |rest| ensures CompareAll(s[0], rest[j], orders) <= 0 {
        assert rest[j] in multiset(rest);
        if rest[j] == x {
          CompareAllAntisymmetric(x, s[0], orders);
        } else {
          assert rest[j] in multiset(s[1..]);
          var k :| 0 <= k < |s[1..]| && s[1..][k] == rest[j];
          assert s[k + 1] == rest[j];
        }
      }
      var r := [s[0]] + rest;
      forall i, j | 0 <= i < j < |r| ensures CompareAll(r[i], r[j], orders) <= 0 {
        if i == 0 {
          assert r[j] == rest[j - 1];
        } else {
          assert r[i] == rest[i - 1] && r[j] == rest[j - 1];
        }
      }
    }
  }

  /** ORDER BY returns a rearrangement of the rows, in order. */
  lemma {:induction false} SortBySortsAndPermutes(s: seq<Employee>, orders: seq<SortOrder>)
    ensures Sorted(SortBy(s, orders), orders)
    ensures multiset(SortBy(s, orders)) == multiset(s)
  {
    if s != [] {
      SortBySortsAndPermutes(s[1..], orders);
      InsertSorted(s[0], SortBy(s[1..], orders), orders);
      InsertPermutes(s[0], SortBy(s[1..], orders), orders);
      assert s == [s[0]] + s[1..];
    }
  }

  /** With no ORDER BY item every pair ties, so rows keep their storage order. */
  lemma {:induction false} SortByNothing(s: seq<Employee>)
    ensures SortBy(s, []) == s
  {
    if s != [] {
      SortByNothing(s[1..]);
    }
  }

  /** No two distinct rows of `s` tie under the ordering. */
  predicate TieFree(s: seq<Employee>, orders: seq<SortOrder>) {
    forall x, y :: x in s && y in s && CompareAll(x, y, orders) == 0 ==> x == y
  }

  /** A sorted sequence starts with a row that comes no later than any of its rows. */
  lemma SortedHeadFirst(s: seq<Employee>, x: Employee, orders: seq<SortOrder>)
    requires Sorted(s, orders) && x in s
    ensures CompareAll(s[0], x, orders) <= 0
  {
    var k :| 0 <= k < |s| && s[k] == x;
    if k == 0 {
      CompareAllReflexive(x, orders);
    }
  }

  lemma SortedTail(s: seq<Employee>, orders: seq<SortOrder>)
    requires s != [] && Sorted(s, orders)
    ensures Sorted(s[1..], orders)
  {
    forall i, j | 0 <= i < j < |s[1..]| ensures CompareAll(s[1..][i], s[1..][j], orders) <= 0 {
      assert s[1..][i] == s[i + 1] && s[1..][j] == s[j + 1];
    }
  }

  lemma TieFreeTail(s: seq<Employee>, orders: seq<SortOrder>)
    requires s != [] && TieFree(s, orders)
    ensures TieFree(s[1..], orders)
  {
    forall x | x in s[1..] ensures x in s {
    }
  }

  /**
    When no two distinct rows tie, the ordering fixes the result: two sorted
    rearrangements of the same rows are the same sequence.
   */
  lemma {:induction false} SortedPermutationsEqual(s1: seq<Employee>, s2: seq<Employee>, orders: seq<SortOrder>)
    requires Sorted(s1, orders) && Sorted(s2, orders)
    requires multiset(s1) == multiset(s2)
    requires TieFree(s1, orders)
    ensures s1 == s2
    decreases |s1|
  {
    if s1 == [] {
      assert |s2| == |multiset(s2)| == 0;
    } else {
      assert |s2| == |multiset(s2)| == |multiset(s1)| == |s1|;
      assert s1[0] in multiset(s2) && s2[0] in multiset(s1);
      SortedHeadFirst(s2, s1[0], orders);
      SortedHeadFirst(s1, s2[0], orders);
      CompareAllAntisymmetric(s1[0], s2[0], orders);
      assert s1[0] == s2[0];
      assert s1 == [s1[0]] + s1[1..] && s2 == [s2[0]] + s2[1..];
      calc {
        multiset(s1[1..]);
        multiset(s1) - multiset{s1[0]};
        multiset(s2) - multiset{s2[0]};
        multiset(s2[1..]);
      }
      SortedTail(s1, orders);
      SortedTail(s2, orders);
      TieFreeTail(s1, orders);
      SortedPermutationsEqual(s1[1..], s2[1..], orders);
    }
  }
}
