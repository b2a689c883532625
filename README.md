# Employee filter composition, modelled in Dafny

This project models the dynamic filtering of the Employee collection in the
Spring Data JPA "specifications" demo service: the reusable filter fragments
of `EmployeeSpecifications`, the composite fragment that folds an optional
initial hire date, first-name text and department name into an AND group and
an OR group and fixes the result order, and the three `searchEmployees`
operations of `EmployeeServiceImpl` that combine them.

The database is replaced by a sequence of `Employee` rows, the clock by a
`today` argument, and the JPA Criteria machinery by a small predicate tree
(`Criteria.Predicate`) with its meaning for one row (`Criteria.Holds`).

Modules, one per component:

- `Nullable` (nullable.dfy): `Option`, for parameters that may be null.
- `Dates` (dates.dfy): `LocalDate` as (year, month, day) with `isBefore`, `compareTo` and `minusYears`. That includes the February 29 clamp.
- `Strings` (strings.dfy): `StringUtils.hasText` with Java's whitespace set, `LIKE '%x%'` containment, and the text ordering.
- `Entities` (entities.dfy): the `Department` and `Employee` records.
- `Criteria` (criteria.dfy): the predicate tree and Spring's nullable `Specification` with `and`. It also holds the `CriteriaQuery` class, whose ordering the composite fragment sets in place.
- `Sorting` (sorting.dfy): ORDER BY as a lexicographic comparison and a stable insertion sort. Its lemmas prove the sort yields a sorted permutation. When no two rows tie, that permutation is unique.
- `Repository` (repository.dfy): `findAll(spec)` and `findAll(spec, pageable)` as filter, sort and slice.
- `EmployeeSpecifications` (employee_specifications.dfy): the four fragments and the composite fragment. The composite is a method with the two accumulators and is proved equal to `CompositeMatches`.
- `EmployeeService` (employee_service.dfy): the three searches, each proved against its own "row matches iff ..." predicate. The lemmas cover absence, the `[1, 20]` range gate, AND-only narrowing and the uniqueness of the ordered result.

Behaviour the model makes explicit:

- The composite fragment always returns `or(conjunction, disjunction)`. The conjunction starts true and the disjunction starts false. So when no date or first-name condition is enabled, every employee matches, whatever the department name (`EmptyAndGroupMatchesEveryone`; `DepartmentAloneMatchesEveryone` is the case where the department name is the only input). A department name can only widen the AND group's result.
- There is no special case in the code for "no condition given". One alternative returns the OR group alone when only a department name is given. That alternative is not equivalent to the code: it keeps that department's employees, while the code keeps every employee (`FourWaySelectionDiffersOnlyForDepartmentAlone`). The model follows the code.
- An initial date that is absent, today, or in the future is ignored. A minimum salary that is absent or not positive is ignored. A number of years outside `[1, 20]` is ignored. None of these is an error.

## Model

| member | source | states |
|---|---|---|
| `Dates.MinusYears` | src/main/java/dev/magadiflo/specifications/app/persistence/repository/specifications/EmployeeSpecifications.java:34 | the cutoff date lies the given number of years earlier, in the same month, on a day no later than today's day |
| `Dates.MinusYearsIsEarlier` | src/main/java/dev/magadiflo/specifications/app/persistence/repository/specifications/EmployeeSpecifications.java:34 | subtracting one year or more gives a date strictly before the original |
| `Dates.MinusYearsAntitone` | src/main/java/dev/magadiflo/specifications/app/persistence/repository/specifications/EmployeeSpecifications.java:34 | subtracting more years never gives a later cutoff |
| `Dates.MinusYearsValid` | src/main/java/dev/magadiflo/specifications/app/persistence/repository/specifications/EmployeeSpecifications.java:34 | the cutoff of a valid date is a valid date |
| `Dates.MinusYearsKeepsDay` | src/main/java/dev/magadiflo/specifications/app/persistence/repository/specifications/EmployeeSpecifications.java:34 | every valid date except February 29 keeps its month and day |
| `Dates.MinusYearsLeapDay` | src/main/java/dev/magadiflo/specifications/app/persistence/repository/specifications/EmployeeSpecifications.java:34 | February 29 becomes February 28 in a common year and stays in a leap year |
| `Dates.MinusYearsLeapDayExamples` | src/main/java/dev/magadiflo/specifications/app/persistence/repository/specifications/EmployeeSpecifications.java:34 | 2024-02-29 minus one year is 2023-02-28; minus four years is 2020-02-29 |
| `Dates.Before` | src/main/java/dev/magadiflo/specifications/app/persistence/repository/specifications/EmployeeSpecifications.java:58 | `isBefore` puts an earlier year first and never relates a date to itself; `Dates.CompareFacts` proves it is the strict part of a total order |
| `Dates.CompareFacts` | src/main/java/dev/magadiflo/specifications/app/persistence/repository/specifications/EmployeeSpecifications.java:58-59 | date comparison is a total order, antisymmetric and transitive, zero exactly on equal dates, negative exactly for `isBefore` |
| `Strings.HasText` | src/main/java/dev/magadiflo/specifications/app/service/impl/EmployeeServiceImpl.java:44 | a text that has text is present and non-empty; `Strings.BlankForms` proves it is false exactly for null or all-whitespace input |
| `Strings.BlankForms` | src/main/java/dev/magadiflo/specifications/app/service/impl/EmployeeServiceImpl.java:44 | null, empty and whitespace-only texts have no text, and a string has no text iff all its characters are whitespace |
| `Strings.BlankExamples` | src/main/java/dev/magadiflo/specifications/app/service/impl/EmployeeServiceImpl.java:52 | spaces, tabs and newlines alone are blank; text surrounded by spaces is not |
| `Strings.ContainsIffOccurs` | src/main/java/dev/magadiflo/specifications/app/persistence/repository/specifications/EmployeeSpecifications.java:64 | the `LIKE '%x%'` test holds iff the text occurs at some position of the name |
| `Strings.Contains` | src/main/java/dev/magadiflo/specifications/app/persistence/repository/specifications/EmployeeSpecifications.java:64 | a prefix is contained and a contained text is no longer than the name; `Strings.ContainsIffOccurs` proves it holds iff the text occurs at some position |
| `Strings.CompareAntisymmetric` | src/main/java/dev/magadiflo/specifications/app/persistence/repository/specifications/EmployeeSpecifications.java:74 | swapping two names negates their comparison |
| `Strings.CompareZeroIffEqual` | src/main/java/dev/magadiflo/specifications/app/persistence/repository/specifications/EmployeeSpecifications.java:74 | two names tie exactly when they are equal |
| `Strings.CompareTransitive` | src/main/java/dev/magadiflo/specifications/app/persistence/repository/specifications/EmployeeSpecifications.java:74 | the name ordering is transitive |
| `Criteria.Holds` | src/main/java/dev/magadiflo/specifications/app/persistence/repository/specifications/EmployeeSpecifications.java:52-78 | an empty conjunction holds and an empty disjunction does not, and a row hired between two dates implies the range is not reversed; each `CriteriaBuilder` call is one constructor with its meaning |
| `Criteria.AndSpec` | src/main/java/dev/magadiflo/specifications/app/service/impl/EmployeeServiceImpl.java:42-45 | `and` of two specifications keeps exactly the rows both keep, and restricts nothing only when neither side does |
| `Criteria.CriteriaQuery.constructor` | src/main/java/dev/magadiflo/specifications/app/persistence/repository/specifications/EmployeeSpecifications.java:41 | a fresh query has no ordering |
| `Criteria.CriteriaQuery.OrderBy` | src/main/java/dev/magadiflo/specifications/app/persistence/repository/specifications/EmployeeSpecifications.java:73-76 | ordering a query replaces its ordering with the given one |
| `Sorting.CompareByFacts` | src/main/java/dev/magadiflo/specifications/app/persistence/repository/specifications/EmployeeSpecifications.java:73-76 | one ascending or descending ORDER BY item is antisymmetric and transitive, and ties exactly rows agreeing on its attribute |
| `Sorting.CompareAllReflexive` | src/main/java/dev/magadiflo/specifications/app/persistence/repository/specifications/EmployeeSpecifications.java:73-76 | every row ties with itself under any ordering |
| `Sorting.CompareAllAntisymmetric` | src/main/java/dev/magadiflo/specifications/app/persistence/repository/specifications/EmployeeSpecifications.java:73-76 | swapping two rows negates their comparison under a list of ORDER BY items |
| `Sorting.CompareAllTransitive` | src/main/java/dev/magadiflo/specifications/app/persistence/repository/specifications/EmployeeSpecifications.java:73-76 | the lexicographic ordering along ORDER BY items is transitive |
| `Sorting.CompareAllZero` | src/main/java/dev/magadiflo/specifications/app/persistence/repository/specifications/EmployeeSpecifications.java:73-76 | two rows tie exactly when they agree on every listed attribute |
| `Sorting.InsertPermutes` | src/main/java/dev/magadiflo/specifications/app/persistence/repository/specifications/EmployeeSpecifications.java:73-76 | inserting a row adds exactly that row |
| `Sorting.InsertSorted` | src/main/java/dev/magadiflo/specifications/app/persistence/repository/specifications/EmployeeSpecifications.java:73-76 | inserting into an ordered sequence keeps it ordered |
| `Sorting.SortBy` | src/main/java/dev/magadiflo/specifications/app/persistence/repository/specifications/EmployeeSpecifications.java:73-76 | ORDER BY keeps the number of rows; `Sorting.SortBySortsAndPermutes` proves the result is an ordered permutation |
| `Sorting.SortBySortsAndPermutes` | src/main/java/dev/magadiflo/specifications/app/persistence/repository/specifications/EmployeeSpecifications.java:73-76 | ORDER BY returns the same rows, ordered |
| `Sorting.SortByNothing` | src/main/java/dev/magadiflo/specifications/app/service/impl/EmployeeServiceImpl.java:56 | without ORDER BY items rows keep their storage order |
| `Sorting.SortedPermutationsEqual` | src/main/java/dev/magadiflo/specifications/app/persistence/repository/specifications/EmployeeSpecifications.java:73-76 | when no two distinct rows tie, two ordered rearrangements of the same rows are equal |
| `Repository.Filter` | src/main/java/dev/magadiflo/specifications/app/service/impl/EmployeeServiceImpl.java:78 | the filtered rows are exactly the table's rows the test admits, each admitted row with as many copies as the table has and every other row with none |
| `Repository.FilterCongruent` | src/main/java/dev/magadiflo/specifications/app/service/impl/EmployeeServiceImpl.java:56 | two tests admitting the same rows filter alike |
| `Repository.FilterEverything` | src/main/java/dev/magadiflo/specifications/app/service/impl/EmployeeServiceImpl.java:42 | a test every row passes, like `where(null)`, keeps the whole table in order |
| `Repository.FilterMonotone` | src/main/java/dev/magadiflo/specifications/app/service/impl/EmployeeServiceImpl.java:44-54 | a stricter test keeps a sub-multiset of what a looser one keeps |
| `Repository.PageOf` | src/main/java/dev/magadiflo/specifications/app/service/impl/EmployeeServiceImpl.java:56 | a page holds rows offset..offset+size of the result (fewer at the end, none past it) and reports the total count |
| `Repository.FirstPage` | src/main/java/dev/magadiflo/specifications/app/web/api/EmployeeRestController.java:41-45 | page 0 holds min(page size, matches) rows, the first ones of the result |
| `Repository.FindAll` | src/main/java/dev/magadiflo/specifications/app/service/impl/EmployeeServiceImpl.java:78 | `findAll(spec)` returns exactly the admitted rows, ordered by the query's ordering |
| `Repository.FindAllPaged` | src/main/java/dev/magadiflo/specifications/app/service/impl/EmployeeServiceImpl.java:56 | `findAll(spec, pageable)` counts all admitted rows, reports the requested page number and size, and returns the page-number-th slice of page-size rows of `findAll(spec)` ordered by the pageable's sort: ordered, only admitted rows, fewer at the end and none past it |
| `EmployeeSpecifications.HasFirstName` | src/main/java/dev/magadiflo/specifications/app/persistence/repository/specifications/EmployeeSpecifications.java:20-22 | matches iff the first name equals the value exactly |
| `EmployeeSpecifications.HasSalaryGreaterThan` | src/main/java/dev/magadiflo/specifications/app/persistence/repository/specifications/EmployeeSpecifications.java:24-26 | matches iff the salary is strictly greater; a salary equal to the value is excluded |
| `EmployeeSpecifications.HasDepartmentName` | src/main/java/dev/magadiflo/specifications/app/persistence/repository/specifications/EmployeeSpecifications.java:28-30 | matches iff the department's name equals the value |
| `EmployeeSpecifications.HasAHiringDateGreaterThanXYears` | src/main/java/dev/magadiflo/specifications/app/persistence/repository/specifications/EmployeeSpecifications.java:32-37 | matches iff hired strictly before today minus the years; for one year or more every match was hired before today |
| `EmployeeSpecifications.CompositeOrderMeaning` | src/main/java/dev/magadiflo/specifications/app/persistence/repository/specifications/EmployeeSpecifications.java:73-76 | a row comes first when its first name is greater, or the names are equal and its id is smaller; ties need equal name and id |
| `EmployeeSpecifications.HasHireDateBetweenTwoDatesOrGetByDepartmentName` | src/main/java/dev/magadiflo/specifications/app/persistence/repository/specifications/EmployeeSpecifications.java:40-80 | the fragment sets the ordering first name descending, id ascending, always returns an OR, and matches iff the AND group or the OR group holds |
| `EmployeeSpecifications.FourWaySelectionDiffersOnlyForDepartmentAlone` | src/main/java/dev/magadiflo/specifications/app/persistence/repository/specifications/EmployeeSpecifications.java:52-78 | returning only the groups that received conditions agrees with the unconditional OR except when a department name is the only condition, where the OR keeps everyone |
| `EmployeeSpecifications.UnusableInitialDateIgnored` | src/main/java/dev/magadiflo/specifications/app/persistence/repository/specifications/EmployeeSpecifications.java:58-61 | an initial date not strictly before today gives the same predicate as none |
| `EmployeeSpecifications.EmptyAndGroupMatchesEveryone` | src/main/java/dev/magadiflo/specifications/app/persistence/repository/specifications/EmployeeSpecifications.java:52-78 | with no usable date and blank first name every employee matches, whatever the department name |
| `EmployeeSpecifications.DepartmentAloneMatchesEveryone` | src/main/java/dev/magadiflo/specifications/app/persistence/repository/specifications/EmployeeSpecifications.java:68-78 | a department name as the only input matches every employee |
| `EmployeeSpecifications.BlankDepartmentIsAndGroup` | src/main/java/dev/magadiflo/specifications/app/persistence/repository/specifications/EmployeeSpecifications.java:58-78 | with a blank department name the composite is exactly the AND group |
| `EmployeeSpecifications.DepartmentOnlyWidens` | src/main/java/dev/magadiflo/specifications/app/persistence/repository/specifications/EmployeeSpecifications.java:68-78 | with a department name the composite is the AND group or membership of that department: no department member and no AND-group match is lost |
| `EmployeeSpecifications.DateAndNameBothRequired` | src/main/java/dev/magadiflo/specifications/app/persistence/repository/specifications/EmployeeSpecifications.java:58-66 | with a usable date and first-name text, a match needs both the inclusive date range and the containment |
| `EmployeeService.SearchSpecifications` | src/main/java/dev/magadiflo/specifications/app/service/impl/EmployeeServiceImpl.java:41-57 | the page is the requested slice of the sorted rows satisfying (blank name or equal name) and (salary filter off or salary greater) and (blank department or equal department) |
| `EmployeeService.BlankFirstNameIgnored` | src/main/java/dev/magadiflo/specifications/app/service/impl/EmployeeServiceImpl.java:44-46 | a null, empty or whitespace-only first name gives the same matches as none, whatever the salary and department inputs |
| `EmployeeService.BlankDepartmentIgnored` | src/main/java/dev/magadiflo/specifications/app/service/impl/EmployeeServiceImpl.java:52-54 | a null, empty or whitespace-only department name gives the same matches as none, whatever the name and salary inputs |
| `EmployeeService.NonPositiveMinSalaryIsAbsent` | src/main/java/dev/magadiflo/specifications/app/service/impl/EmployeeServiceImpl.java:48-50 | a minimum salary of zero or less gives the same predicate as none |
| `EmployeeService.MinSalaryBoundExcluded` | src/main/java/dev/magadiflo/specifications/app/service/impl/EmployeeServiceImpl.java:48-50 | an employee earning exactly a positive minimum is not matched |
| `EmployeeService.SearchSpecificationsUnfiltered` | src/main/java/dev/magadiflo/specifications/app/service/impl/EmployeeServiceImpl.java:42-56 | with no usable input every row is kept, in storage order |
| `EmployeeService.SearchSpecificationsExtraFilterNeverAdds` | src/main/java/dev/magadiflo/specifications/app/service/impl/EmployeeServiceImpl.java:44-54 | supplying any one input only removes rows |
| `EmployeeService.SearchOldEmployees` | src/main/java/dev/magadiflo/specifications/app/service/impl/EmployeeServiceImpl.java:60-73 | the page is the requested slice of the sorted rows satisfying (years outside [1, 20] or hired before today minus the years) and (blank department or equal department) |
| `EmployeeService.OldEmployeesBlankDepartmentIgnored` | src/main/java/dev/magadiflo/specifications/app/service/impl/EmployeeServiceImpl.java:68-70 | in the seniority search a null, empty or whitespace-only department name gives the same matches as none, whatever the years |
| `EmployeeService.OutOfRangeYearsIgnored` | src/main/java/dev/magadiflo/specifications/app/service/impl/EmployeeServiceImpl.java:63-70 | years outside [1, 20] give the same predicate as none, and the department filter still applies |
| `EmployeeService.SeniorMatchesHiredBeforeToday` | src/main/java/dev/magadiflo/specifications/app/service/impl/EmployeeServiceImpl.java:64-66 | every employee kept by an enabled seniority filter was hired before today |
| `EmployeeService.MoreYearsFewerMatches` | src/main/java/dev/magadiflo/specifications/app/service/impl/EmployeeServiceImpl.java:64-66 | asking for more years never admits more employees |
| `EmployeeService.SearchOldEmployeesExtraFilterNeverAdds` | src/main/java/dev/magadiflo/specifications/app/service/impl/EmployeeServiceImpl.java:64-70 | supplying either input only removes rows |
| `EmployeeService.SearchOldEmployeesUnfiltered` | src/main/java/dev/magadiflo/specifications/app/service/impl/EmployeeServiceImpl.java:61-72 | with no usable input every row is kept, in storage order |
| `EmployeeService.SearchNoPagination` | src/main/java/dev/magadiflo/specifications/app/service/impl/EmployeeServiceImpl.java:76-79 | returns exactly the rows satisfying the composite predicate, as a permutation of them, ordered first name descending then id ascending |
| `EmployeeService.SearchNoPaginationDetermined` | src/main/java/dev/magadiflo/specifications/app/service/impl/EmployeeServiceImpl.java:76-79 | when ids identify rows, any sequence of the matches in the composite order equals the search's result |
| `EmployeeService.SearchNoPaginationWithoutAndFilters` | src/main/java/dev/magadiflo/specifications/app/service/impl/EmployeeServiceImpl.java:76-79 | with no usable date and blank first name the result is the whole table in the composite order, whatever the department name |

## Left out

- Clock: `LocalDate.now()` is the `today` argument. The `log.info` lines that record it are not modelled.
- HTTP layer: `EmployeeRestController` and `DepartmentRestController` (parameter parsing, defaults page 0, size 5, sort id ascending, the 404 mapping) are not part of this model. A page request is a `Pageable` whose size is at least one, as `PageRequest.of` guarantees.
- Pass-through operations: `getAllEmployees`, `getEmployee`, `DepartmentServiceImpl`, the service and repository interfaces delegate to `JpaRepository` unchanged.
- Persistence: SQL generation, transactions and the inner join on `department` are not modelled. That join would drop employees without a department; every employee has one here.
- SQL NULL: record fields are never null. The fragments take non-null arguments, which is how the services call them.
- Salary is a `real`: `Double` rounding and NaN are not modelled.
- Dates: the year range limit of `LocalDate` (an exception outside ±999,999,999) is not modelled.
- Text ordering compares code points. Database collation (case or accent folding) is not modelled. Text equality is exact.
- Sort keys: an ORDER BY item names one of `id`, `firstName`, `salary` or `hireDate`. A request sorted by another attribute, such as `lastName` or `department.name`, is not modelled (EmployeeRestController.java:43 and :55 accept any sort).
- Ties in ORDER BY keep storage order. A database may return tied rows in any order.
- `Page` carries content, total count, page number and size. The total page count and the sort description are not modelled.
- `Strings.IsWhitespace` works on Unicode scalar values. Java tests UTF-16 code units, which differs only for surrogate halves.
- EmployeeSpecifications.HasHireDateBetweenTwoDatesOrGetByDepartmentName: the first-name `LIKE '%' + text + '%'` is a plain substring test. The model ignores `%` and `_` inside the text (SQL reads them as wildcards) and collation-dependent case folding.
