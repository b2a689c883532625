/**
  EmployeeServiceImpl's three searches. The first two AND together the
  fragments whose inputs are present (Specification.where(null) restricts
  nothing) and return one page; the third hands everything to the
  composite fragment and returns every match in the fragment's order.
 */
module EmployeeService {
  import opened Nullable
  import opened Dates
  import opened Strings
  import opened Entities
  import opened Criteria
  import opened Sorting
  import opened Repository
  import opened EmployeeSpecifications

  /** The salary filter is added only for a minimum salary that is present and positive. */
  predicate SalaryFilterEnabled(minSalary: Option<real>) {
    minSalary.Some? && minSalary.value > 0.0
  }

  /** Which rows the firstName / minSalary / departmentName search keeps. */
  predicate SearchSpecificationsMatches(firstName: Option<string>, minSalary: Option<real>,
                                        departmentName: Option<string>, e: Employee) {
    && (HasText(firstName) ==> e.firstName == firstName.value)
    && (SalaryFilterEnabled(minSalary) ==> e.salary > minSalary.value)
    && (HasText(departmentName) ==> e.department.name == departmentName.value)
  }

  /** Search by first name, minimum salary and department name, one page at a time. */
  method SearchSpecifications(rows: seq<Employee>, firstName: Option<string>, minSalary: Option<real>,
                              departmentName: Option<string>, pageable: Pageable)
    returns (page: Page)
    requires ValidPageable(pageable)
    ensures page == PageOf(SortBy(Filter(rows, e => SearchSpecificationsMatches(firstName, minSalary, departmentName, e)),
                                  pageable.sort), pageable)
    ensures page.totalElements == |Filter(rows, e => SearchSpecificationsMatches(firstName, minSalary, departmentName, e))|
    ensures forall e :: e in page.content ==> e in rows && SearchSpecificationsMatches(firstName, minSalary, departmentName, e)
  {
    var employeeSpec: Specification := None;

    if HasText(firstName) {
      employeeSpec := AndSpec(employeeSpec, Some(HasFirstName(firstName.value)));
    }

    if minSalary.Some? && minSalary.value > 0.0 {
      employeeSpec := AndSpec(employeeSpec, Some(HasSalaryGreaterThan(minSalary.value)));
    }

    if HasText(departmentName) {
      employeeSpec := AndSpec(employeeSpec, Some(HasDepartmentName(departmentName.value)));
    }

    assert forall e :: Satisfies(employeeSpec, e) <==> SearchSpecificationsMatches(firstName, minSalary, departmentName, e);
    FilterCongruent(rows, e => Satisfies(employeeSpec, e),
                    e => SearchSpecificationsMatches(firstName, minSalary, departmentName, e));
    page := FindAllPaged(rows, employeeSpec, pageable);
  }

  /** A null, empty or whitespace-only first name switches the name filter off, whatever the other inputs. */
  lemma BlankFirstNameIgnored(firstName: Option<string>, minSalary: Option<real>, departmentName: Option<string>, e: Employee)
    requires !HasText(firstName)
    ensures SearchSpecificationsMatches(firstName, minSalary, departmentName, e)
        <==> SearchSpecificationsMatches(None, minSalary, departmentName, e)
  {
  }

  /** A null, empty or whitespace-only department name switches the department filter off, whatever the other inputs. */
  lemma BlankDepartmentIgnored(firstName: Option<string>, minSalary: Option<real>, departmentName: Option<string>, e: Employee)
    requires !HasText(departmentName)
    ensures SearchSpecificationsMatches(firstName, minSalary, departmentName, e)
        <==> SearchSpecificationsMatches(firstName, minSalary, None, e)
  {
  }

  /** A minimum salary of zero or less is the same as none. */
  lemma NonPositiveMinSalaryIsAbsent(firstName: Option<string>, minSalary: real, departmentName: Option<string>, e: Employee)
    requires minSalary <= 0.0
    ensures SearchSpecificationsMatches(firstName, Some(minSalary), departmentName, e)
        <==> SearchSpecificationsMatches(firstName, None, departmentName, e)
  {
  }

  /** The salary bound is strict: earning exactly the minimum excludes an employee. */
  lemma MinSalaryBoundExcluded(firstName: Option<string>, minSalary: real, departmentName: Option<string>, e: Employee)
    requires minSalary > 0.0 && e.salary == minSalary
    ensures !SearchSpecificationsMatches(firstName, Some(minSalary), departmentName, e)
  {
  }

  /** With no usable input the search keeps every row, in storage order. */
  lemma {:induction false} SearchSpecificationsUnfiltered(rows: seq<Employee>, firstName: Option<string>,
                                                          minSalary: Option<real>, departmentName: Option<string>)
    requires !HasText(firstName) && !SalaryFilterEnabled(minSalary) && !HasText(departmentName)
    ensures Filter(rows, e => SearchSpecificationsMatches(firstName, minSalary, departmentName, e)) == rows
  {
    FilterEverything(rows, e => SearchSpecificationsMatches(firstName, minSalary, departmentName, e));
  }

  /** Filters are only ANDed: supplying any one input can only remove rows. */
  lemma {:induction false} SearchSpecificationsExtraFilterNeverAdds(rows: seq<Employee>, firstName: Option<string>,
                                                                    minSalary: Option<real>, departmentName: Option<string>)
    ensures multiset(Filter(rows, e => SearchSpecificationsMatches(firstName, minSalary, departmentName, e)))
         <= multiset(Filter(rows, e => SearchSpecificationsMatches(None, minSalary, departmentName, e)))
    ensures multiset(Filter(rows, e => SearchSpecificationsMatches(firstName, minSalary, departmentName, e)))
         <= multiset(Filter(rows, e => SearchSpecificationsMatches(firstName, None, departmentName, e)))
    ensures multiset(Filter(rows, e => SearchSpecificationsMatches(firstName, minSalary, departmentName, e)))
         <= multiset(Filter(rows, e => SearchSpecificationsMatches(firstName, minSalary, None, e)))
  {
    FilterMonotone(rows, e => SearchSpecificationsMatches(firstName, minSalary, departmentName, e),
                   e => SearchSpecificationsMatches(None, minSalary, departmentName, e));
    FilterMonotone(rows, e => SearchSpecificationsMatches(firstName, minSalary, departmentName, e),
                   e => SearchSpecificationsMatches(firstName, None, departmentName, e));
    FilterMonotone(rows, e => SearchSpecificationsMatches(firstName, minSalary, departmentName, e),
                   e => SearchSpecificationsMatches(firstName, minSalary, None, e));
  }

  /** The seniority filter is added only for a number of years present and within [1, 20]. */
  predicate SeniorityFilterEnabled(xYears: Option<int>) {
    xYears.Some? && xYears.value <= 20 && xYears.value >= 1
  }

  /** Which rows the xYears / departmentName search keeps. */
  predicate SearchOldEmployeesMatches(xYears: Option<int>, departmentName: Option<string>, today: Date, e: Employee) {
    && (SeniorityFilterEnabled(xYears) ==> Before(e.hireDate, MinusYears(today, xYears.value)))
    && (HasText(departmentName) ==> e.department.name == departmentName.value)
  }

  /** Search for employees hired more than `xYears` years ago, optionally in one department, one page at a time. */
  method SearchOldEmployees(rows: seq<Employee>, xYears: Option<int>, departmentName: Option<string>, today: Date,
                            pageable: Pageable)
    returns (page: Page)
    requires ValidPageable(pageable)
    ensures page == PageOf(SortBy(Filter(rows, e => SearchOldEmployeesMatches(xYears, departmentName, today, e)),
                                  pageable.sort), pageable)
    ensures page.totalElements == |Filter(rows, e => SearchOldEmployeesMatches(xYears, departmentName, today, e))|
    ensures forall e :: e in page.content ==> e in rows && SearchOldEmployeesMatches(xYears, departmentName, today, e)
  {
    var employeeSpec: Specification := None;

    if xYears.Some? && xYears.value <= 20 && xYears.value >= 1 {
      employeeSpec := AndSpec(employeeSpec, Some(HasAHiringDateGreaterThanXYears(xYears.value, today)));
    }

    if HasText(departmentName) {
      employeeSpec := AndSpec(employeeSpec, Some(HasDepartmentName(departmentName.value)));
    }

    assert forall e :: Satisfies(employeeSpec, e) <==> SearchOldEmployeesMatches(xYears, departmentName, today, e);
    FilterCongruent(rows, e => Satisfies(employeeSpec, e),
                    e => SearchOldEmployeesMatches(xYears, departmentName, today, e));
    page := FindAllPaged(rows, employeeSpec, pageable);
  }

  /** A null, empty or whitespace-only department name switches the seniority search's department filter off. */
  lemma OldEmployeesBlankDepartmentIgnored(xYears: Option<int>, departmentName: Option<string>, today: Date, e: Employee)
    requires !HasText(departmentName)
    ensures SearchOldEmployeesMatches(xYears, departmentName, today, e)
        <==> SearchOldEmployeesMatches(xYears, None, today, e)
  {
  }

  /** A number of years outside [1, 20] is silently the same as none; the department filter still applies. */
  lemma OutOfRangeYearsIgnored(xYears: int, departmentName: Option<string>, today: Date, e: Employee)
    requires xYears < 1 || xYears > 20
    ensures SearchOldEmployeesMatches(Some(xYears), departmentName, today, e)
        <==> SearchOldEmployeesMatches(None, departmentName, today, e)
    ensures SearchOldEmployeesMatches(Some(xYears), departmentName, today, e)
        <==> (HasText(departmentName) ==> e.department.name == departmentName.value)
  {
  }

  /** Every employee the seniority filter keeps was hired before today. */
  lemma SeniorMatchesHiredBeforeToday(xYears: Option<int>, departmentName: Option<string>, today: Date, e: Employee)
    requires SeniorityFilterEnabled(xYears) && SearchOldEmployeesMatches(xYears, departmentName, today, e)
    ensures Before(e.hireDate, today)
  {
    MinusYearsIsEarlier(today, xYears.value);
  }

  /** Asking for more years of seniority never admits more employees. */
  lemma {:induction false} MoreYearsFewerMatches(rows: seq<Employee>, fewer: int, more: int,
                                                 departmentName: Option<string>, today: Date)
    requires 1 <= fewer <= more <= 20
    ensures multiset(Filter(rows, e => SearchOldEmployeesMatches(Some(more), departmentName, today, e)))
         <= multiset(Filter(rows, e => SearchOldEmployeesMatches(Some(fewer), departmentName, today, e)))
  {
    MinusYearsAntitone(today, fewer, more);
    FilterMonotone(rows, e => SearchOldEmployeesMatches(Some(more), departmentName, today, e),
                   e => SearchOldEmployeesMatches(Some(fewer), departmentName, today, e));
  }

  /** Filters are only ANDed: supplying either input can only remove rows. */
  lemma {:induction false} SearchOldEmployeesExtraFilterNeverAdds(rows: seq<Employee>, xYears: Option<int>,
                                                                  departmentName: Option<string>, today: Date)
    ensures multiset(Filter(rows, e => SearchOldEmployeesMatches(xYears, departmentName, today, e)))
         <= multiset(Filter(rows, e => SearchOldEmployeesMatches(None, departmentName, today, e)))
    ensures multiset(Filter(rows, e => SearchOldEmployeesMatches(xYears, departmentName, today, e)))
         <= multiset(Filter(rows, e => SearchOldEmployeesMatches(xYears, None, today, e)))
  {
    FilterMonotone(rows, e => SearchOldEmployeesMatches(xYears, departmentName, today, e),
                   e => SearchOldEmployeesMatches(None, departmentName, today, e));
    FilterMonotone(rows, e => SearchOldEmployeesMatches(xYears, departmentName, today, e),
                   e => SearchOldEmployeesMatches(xYears, None, today, e));
  }

  /** With no usable input the search keeps every row, in storage order. */
  lemma {:induction false} SearchOldEmployeesUnfiltered(rows: seq<Employee>, xYears: Option<int>,
                                                        departmentName: Option<string>, today: Date)
    requires !SeniorityFilterEnabled(xYears) && !HasText(departmentName)
    ensures Filter(rows, e => SearchOldEmployeesMatches(xYears, departmentName, today, e)) == rows
  {
    FilterEverything(rows, e => SearchOldEmployeesMatches(xYears, departmentName, today, e));
  }

  /**
    Search by initial hire date, first-name text and department name without
    paging: the composite fragment's matches, first name descending, then id
    ascending.
   */
  method SearchNoPagination(rows: seq<Employee>, initialDate: Option<Date>, firstName: Option<string>,
                            departmentName: Option<string>, today: Date)
    returns (result: seq<Employee>)
    ensures result == SortBy(Filter(rows, e => CompositeMatches(initialDate, firstName, departmentName, today, e)),
                             CompositeOrder)
    ensures forall e :: e in result <==> e in rows && CompositeMatches(initialDate, firstName, departmentName, today, e)
    ensures multiset(result) == multiset(Filter(rows, e => CompositeMatches(initialDate, firstName, departmentName, today, e)))
    ensures Sorted(result, CompositeOrder)
  {
    var query := new CriteriaQuery();
    var specification := HasHireDateBetweenTwoDatesOrGetByDepartmentName(initialDate, firstName, departmentName, today, query);
    result := FindAll(rows, Some(specification), query.orderList);
    ghost var matches := Filter(rows, e => CompositeMatches(initialDate, firstName, departmentName, today, e));
    FilterCongruent(rows, e => Satisfies(Some(specification), e),
                    e => CompositeMatches(initialDate, firstName, departmentName, today, e));
    assert result == SortBy(matches, CompositeOrder);
    SortBySortsAndPermutes(matches, CompositeOrder);
    assert forall e :: e in result <==> e in multiset(matches);
    assert forall e :: e in matches <==> e in rows && CompositeMatches(initialDate, firstName, departmentName, today, e);
  }

  /**
    When ids identify rows, the ordering leaves no choice: any ordering of the
    matches by first name descending and id ascending is the search's result.
   */
  lemma {:induction false} SearchNoPaginationDetermined(rows: seq<Employee>, initialDate: Option<Date>,
                                                        firstName: Option<string>, departmentName: Option<string>,
                                                        today: Date, other: seq<Employee>)
    requires forall x, y :: x in rows && y in rows && x.id == y.id ==> x == y
    requires Sorted(other, CompositeOrder)
    requires multiset(other) == multiset(Filter(rows, e => CompositeMatches(initialDate, firstName, departmentName, today, e)))
    ensures other == SortBy(Filter(rows, e => CompositeMatches(initialDate, firstName, departmentName, today, e)),
                            CompositeOrder)
  {
    var matches := Filter(rows, e => CompositeMatches(initialDate, firstName, departmentName, today, e));
    var sorted := SortBy(matches, CompositeOrder);
    SortBySortsAndPermutes(matches, CompositeOrder);
    forall x, y | x in other && y in other && CompareAll(x, y, CompositeOrder) == 0 ensures x == y {
      assert x in multiset(other) && y in multiset(other);
      CompareAllZero(x, y, CompositeOrder);
      assert SameProperty(x, y, CompositeOrder[1].property);
    }
    SortedPermutationsEqual(other, sorted, CompositeOrder);
  }

  /**
    With neither a usable initial date nor first-name text, the search returns
    the whole table, whatever the department name, ordered like any other result.
   */
  lemma {:induction false} SearchNoPaginationWithoutAndFilters(rows: seq<Employee>, initialDate: Option<Date>,
                                                               firstName: Option<string>, departmentName: Option<string>,
                                                               today: Date)
    requires !DateRangeEnabled(initialDate, today) && !HasText(firstName)
    ensures SortBy(Filter(rows, e => CompositeMatches(initialDate, firstName, departmentName, today, e)), CompositeOrder)
         == SortBy(rows, CompositeOrder)
  {
    FilterEverything(rows, e => CompositeMatches(initialDate, firstName, departmentName, today, e));
  }
}
