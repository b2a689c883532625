/**
  The JPA Criteria vocabulary the filters are written in: a predicate tree
  built by the CriteriaBuilder, its meaning for one Employee row, Spring's
  nullable Specification result and its `and` composition, and the query
  object whose ordering a fragment may set.
 */
module Criteria {
  import opened Nullable
  import opened Dates
  import opened Strings
  import opened Entities

  /** A predicate as the CriteriaBuilder calls used by the filters build it. */
  datatype Predicate =
    | Conjunction                          // criteriaBuilder.conjunction(): zero conjuncts
    | Disjunction                          // criteriaBuilder.disjunction(): zero disjuncts
    | FirstNameEquals(name: string)
    | FirstNameLike(fragment: string)      // firstName LIKE '%' + fragment + '%'
    | SalaryGreaterThan(amount: real)
    | DepartmentNameEquals(departmentName: string)
    | HireDateBefore(limit: Date)
    | HireDateBetween(low: Date, high: Date)
    | And(left: Predicate, right: Predicate)
    | Or(left: Predicate, right: Predicate)

  /** Whether an employee row satisfies a predicate. */
  predicate Holds(p: Predicate, e: Employee): (r: bool)
    ensures p.Conjunction? ==> r
    ensures p.Disjunction? ==> !r
    ensures p.HireDateBetween? && r ==> !Before(p.high, p.low)
  {
    match p
    case Conjunction => true
    case Disjunction => false
    case FirstNameEquals(name) => e.firstName == name
    case FirstNameLike(fragment) => Contains(e.firstName, fragment)
    case SalaryGreaterThan(amount) => e.salary > amount
    case DepartmentNameEquals(departmentName) => e.department.name == departmentName
    case HireDateBefore(limit) => Before(e.hireDate, limit)
    case HireDateBetween(low, high) => !Before(e.hireDate, low) && !Before(high, e.hireDate)
    case And(left, right) => Holds(left, e) && Holds(right, e)
    case Or(left, right) => Holds(left, e) || Holds(right, e)
  }

  /**
    What a Spring Specification contributes to a query: a predicate, or
    nothing at all (`None`), which is what `Specification.where(null)` gives.
   */
  type Specification = Option<Predicate>

  /** A row is kept by a specification that contributes nothing, or whose predicate it satisfies. */
  predicate Satisfies(spec: Specification, e: Employee) {
    spec.None? || Holds(spec.value, e)
  }

  /**
    `Specification.and`: a side that contributes nothing is dropped, so the
    composition restricts exactly by both sides.
   */
  function AndSpec(lhs: Specification, rhs: Specification): (r: Specification)
    ensures forall e :: Satisfies(r, e) <==> Satisfies(lhs, e) && Satisfies(rhs, e)
    ensures r.None? <==> lhs.None? && rhs.None?
  {
    if lhs.None? then rhs
    else if rhs.None? then lhs
    else Some(And(lhs.value, rhs.value))
  }

  /** The sortable Employee attributes. */
  datatype Property = Id | FirstName | Salary | HireDate

  datatype Direction = Ascending | Descending

  /** One ORDER BY item. */
  datatype SortOrder = SortOrder(direction: Direction, property: Property)

  /** The query a Specification is applied to; only its ordering is modelled. */
  class CriteriaQuery {
    var orderList: seq<SortOrder>

    constructor ()
      ensures orderList == []
    {
      orderList := [];
    }

    /** CriteriaQuery.orderBy: replaces any ordering set before. */
    method OrderBy(orders: seq<SortOrder>)
      modifies this
      ensures orderList == orders
    {
      orderList := orders;
    }
  }
}
