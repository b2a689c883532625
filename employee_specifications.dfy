/**
  EmployeeSpecifications: the reusable filter fragments over Employee and
  the composite fragment that folds three optional conditions into an AND
  group and an OR group. The clock is the `today` parameter.
 */
module EmployeeSpecifications {
  import opened Nullable
  import opened Dates
  import opened Strings
  import opened Entities
  import opened Criteria
  import opened Sorting

  /** hasFirstName: the first name equals the value exactly. */
  function HasFirstName(firstName: string): (p: Predicate)
    ensures forall e :: Holds(p, e) <==> e.firstName == firstName
  {
    FirstNameEquals(firstName)
  }

  /** hasSalaryGreaterThan: the salary lies strictly above the value. */
  function HasSalaryGreaterThan(salary: real): (p: Predicate)
    ensures forall e :: Holds(p, e) <==> e.salary > salary
    ensures forall e: Employee :: e.salary == salary ==> !Holds(p, e)
  {
    SalaryGreaterThan(salary)
  }

  /** hasDepartmentName: the employee's department is called exactly the value. */
  function HasDepartmentName(departmentName: string): (p: Predicate)
    ensures forall e :: Holds(p, e) <==> e.department.name == departmentName
  {
    DepartmentNameEquals(departmentName)
  }

  /**
    hasAHiringDateGreaterThanXYears: hired strictly before the date `xYears`
    years before today; for one year or more, every match was hired before today.
   */
  function HasAHiringDateGreaterThanXYears(xYears: int, today: Date): (p: Predicate)
    ensures forall e :: Holds(p, e) <==> Before(e.hireDate, MinusYears(today, xYears))
    ensures xYears >= 1 ==> forall e :: Holds(p, e) ==> Before(e.hireDate, today)
  {
    var localDate := MinusYears(today, xYears);
    HireDateBefore(localDate)
  }

  /** The date range joins the AND group only for an initial date strictly before today. */
  predicate DateRangeEnabled(initialDate: Option<Date>, today: Date) {
    initialDate.Some? && Before(initialDate.value, today)
  }

  /** The AND group: hired within [initialDate, today] and first name containing the text, each only when enabled. */
  predicate AndGroup(initialDate: Option<Date>, firstName: Option<string>, today: Date, e: Employee) {
    (DateRangeEnabled(initialDate, today) ==>
       !Before(e.hireDate, initialDate.value) && !Before(today, e.hireDate))
    && (HasText(firstName) ==> Contains(e.firstName, firstName.value))
  }

  /** The OR group: in the named department, when a department name has text. */
  predicate OrGroup(departmentName: Option<string>, e: Employee) {
    HasText(departmentName) && e.department.name == departmentName.value
  }

  /** Meaning of the composite fragment: the AND group or the OR group. */
  predicate CompositeMatches(initialDate: Option<Date>, firstName: Option<string>, departmentName: Option<string>,
                             today: Date, e: Employee) {
    AndGroup(initialDate, firstName, today, e) || OrGroup(departmentName, e)
  }

  /** The ordering the composite fragment imposes: first name descending, then id ascending. */
  const CompositeOrder: seq<SortOrder> := [SortOrder(Descending, FirstName), SortOrder(Ascending, Id)]

  /**
    Under the composite ordering a row comes first when its first name is
    greater, or when the names are equal and its id is smaller; rows tie
    only when both name and id agree.
   */
  lemma CompositeOrderMeaning(a: Employee, b: Employee)
    ensures CompareAll(a, b, CompositeOrder) < 0
        <==> Strings.Compare(a.firstName, b.firstName) > 0 || (a.firstName == b.firstName && a.id < b.id)
    ensures CompareAll(a, b, CompositeOrder) == 0 <==> a.firstName == b.firstName && a.id == b.id
  {
    Strings.CompareZeroIffEqual(a.firstName, b.firstName);
    assert CompositeOrder[1..][1..] == [];
  }

  /**
    hasHireDateBetweenTwoDatesOrGetByDepartmentName: starts from an empty
    conjunction and an empty disjunction, adds each enabled condition to its
    group, orders the query, and always returns the OR of the two groups.
   */
  method HasHireDateBetweenTwoDatesOrGetByDepartmentName(initialDate: Option<Date>, firstName: Option<string>,
                                                         departmentName: Option<string>, today: Date,
                                                         query: CriteriaQuery)
    returns (p: Predicate)
    modifies query
    ensures query.orderList == CompositeOrder
    ensures p.Or?
    ensures forall e :: Holds(p, e) <==> CompositeMatches(initialDate, firstName, departmentName, today, e)
  {
    var conjunction := Conjunction;
    var disjunction := Disjunction;
    var currentDate := today;

    if initialDate.Some? && Before(initialDate.value, currentDate) {
      var between := HireDateBetween(initialDate.value, currentDate);
      conjunction := And(conjunction, between);
    }
    assert forall e :: Holds(conjunction, e) <==>
      (DateRangeEnabled(initialDate, today) ==> !Before(e.hireDate, initialDate.value) && !Before(today, e.hireDate));

    if HasText(firstName) {
      var like := FirstNameLike(firstName.value);
      conjunction := And(conjunction, like);
    }
    assert forall e :: Holds(conjunction, e) <==> AndGroup(initialDate, firstName, today, e);

    if HasText(departmentName) {
      var equal := DepartmentNameEquals(departmentName.value);
      disjunction := Or(disjunction, equal);
    }
    assert forall e :: Holds(disjunction, e) <==> OrGroup(departmentName, e);

    query.OrderBy(CompositeOrder);

    p := Or(conjunction, disjunction);
  }

  /**
    An alternative selection that returns no restriction when neither group
    received a condition, the OR of both when both did, and otherwise the one
    group that did. It is not what the fragment does.
   */
  function FourWaySelection(initialDate: Option<Date>, firstName: Option<string>, departmentName: Option<string>,
                            today: Date): Specification
  {
    var conjunction := AndGroupSelection(initialDate, firstName, today);
    var disjunction := if HasText(departmentName) then Some(DepartmentNameEquals(departmentName.value)) else None;
    if conjunction.None? && disjunction.None? then None
    else if conjunction.Some? && disjunction.Some? then Some(Or(conjunction.value, disjunction.value))
    else if conjunction.Some? then conjunction
    else disjunction
  }

  /** The AND group as the alternative builds it: only the conditions received, or nothing when none was. */
  function AndGroupSelection(initialDate: Option<Date>, firstName: Option<string>, today: Date): (r: Specification)
    ensures r.None? <==> !DateRangeEnabled(initialDate, today) && !HasText(firstName)
    ensures forall e :: Satisfies(r, e) <==> AndGroup(initialDate, firstName, today, e)
  {
    if DateRangeEnabled(initialDate, today) && HasText(firstName) then
      var both := And(HireDateBetween(initialDate.value, today), FirstNameLike(firstName.value));
      assert forall e :: Holds(both, e) <==> AndGroup(initialDate, firstName, today, e);
      Some(both)
    else if DateRangeEnabled(initialDate, today) then Some(HireDateBetween(initialDate.value, today))
    else if HasText(firstName) then Some(FirstNameLike(firstName.value))
    else None
  }

  /**
    The alternative admits the same rows as the unconditional OR except when
    a department name is the only condition: then it keeps that department's
    employees, while the fragment keeps every employee.
   */
  lemma FourWaySelectionDiffersOnlyForDepartmentAlone(initialDate: Option<Date>, firstName: Option<string>,
                                                      departmentName: Option<string>, today: Date, e: Employee)
    ensures var alone := !DateRangeEnabled(initialDate, today) && !HasText(firstName) && HasText(departmentName);
      var selected := Satisfies(FourWaySelection(initialDate, firstName, departmentName, today), e);
      var matched := CompositeMatches(initialDate, firstName, departmentName, today, e);
      && (!alone ==> (selected <==> matched))
      && (alone ==> matched && (selected <==> e.department.name == departmentName.value))
  {
    var selection := FourWaySelection(initialDate, firstName, departmentName, today);
    var conjunction := AndGroupSelection(initialDate, firstName, today);
    assert Satisfies(conjunction, e) <==> AndGroup(initialDate, firstName, today, e);
    if HasText(departmentName) {
      var equal := DepartmentNameEquals(departmentName.value);
      assert Holds(equal, e) <==> OrGroup(departmentName, e);
      assert selection == if conjunction.Some? then Some(Or(conjunction.value, equal)) else Some(equal);
    } else {
      assert selection == conjunction;
    }
  }

  /** An absent initial date and one not strictly before today are treated alike. */
  lemma UnusableInitialDateIgnored(initialDate: Option<Date>, firstName: Option<string>,
                                   departmentName: Option<string>, today: Date, e: Employee)
    requires initialDate.None? || !Before(initialDate.value, today)
    ensures CompositeMatches(initialDate, firstName, departmentName, today, e)
        <==> CompositeMatches(None, firstName, departmentName, today, e)
  {
  }

  /** With neither a usable initial date nor first-name text, every row matches, whatever the department name. */
  lemma EmptyAndGroupMatchesEveryone(initialDate: Option<Date>, firstName: Option<string>,
                                     departmentName: Option<string>, today: Date, e: Employee)
    requires !DateRangeEnabled(initialDate, today) && !HasText(firstName)
    ensures CompositeMatches(initialDate, firstName, departmentName, today, e)
  {
  }

  /** A department name alone does not narrow the result: every row of every department matches. */
  lemma DepartmentAloneMatchesEveryone(departmentName: string, today: Date, e: Employee)
    ensures CompositeMatches(None, None, Some(departmentName), today, e)
  {
  }

  /** Without department text the composite is exactly the AND group. */
  lemma BlankDepartmentIsAndGroup(initialDate: Option<Date>, firstName: Option<string>,
                                  departmentName: Option<string>, today: Date, e: Employee)
    requires !HasText(departmentName)
    ensures CompositeMatches(initialDate, firstName, departmentName, today, e)
        <==> AndGroup(initialDate, firstName, today, e)
  {
  }

  /** With department text, every employee of that department matches and no AND-group match is lost. */
  lemma DepartmentOnlyWidens(initialDate: Option<Date>, firstName: Option<string>,
                             departmentName: Option<string>, today: Date, e: Employee)
    requires HasText(departmentName)
    ensures e.department.name == departmentName.value ==> CompositeMatches(initialDate, firstName, departmentName, today, e)
    ensures AndGroup(initialDate, firstName, today, e) ==> CompositeMatches(initialDate, firstName, departmentName, today, e)
    ensures CompositeMatches(initialDate, firstName, departmentName, today, e)
        <==> AndGroup(initialDate, firstName, today, e) || e.department.name == departmentName.value
  {
  }

  /** With a usable initial date and first-name text, AND semantics: both the range and the containment must hold. */
  lemma DateAndNameBothRequired(initialDate: Date, firstName: string, today: Date, e: Employee)
    requires Before(initialDate, today) && HasText(Some(firstName))
    ensures CompositeMatches(Some(initialDate), Some(firstName), None, today, e)
        <==> !Before(e.hireDate, initialDate) && !Before(today, e.hireDate) && Contains(e.firstName, firstName)
  {
  }
}
