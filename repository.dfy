/**
  What the Employee repository does with a Specification: keep the rows it
  admits, order them, and for a paged request cut out one page.
 */
module Repository {
  import opened Entities
  import opened Criteria
  import opened Sorting

  /** The rows `keep` admits, in their original order. */
  function Filter(rows: seq<Employee>, keep: Employee -> bool): (r: seq<Employee>)
    ensures forall e :: e in r <==> e in rows && keep(e)
    ensures forall e :: multiset(r)[e] == if keep(e) then multiset(rows)[e] else 0
  {
    if rows == [] then []
    else
      assert rows == [rows[0]] + rows[1..];
      if keep(rows[0]) then [rows[0]] + Filter(rows[1..], keep)
      else Filter(rows[1..], keep)
  }

  /** Filtering depends only on which rows the test admits. */
  lemma {:induction false} FilterCongruent(rows: seq<Employee>, f: Employee -> bool, g: Employee -> bool)
    requires forall e :: f(e) == g(e)
    ensures Filter(rows, f) == Filter(rows, g)
  {
    if rows != [] {
      FilterCongruent(rows[1..], f, g);
    }
  }

  /** A test every row passes keeps the whole table, in order. */
  lemma {:induction false} FilterEverything(rows: seq<Employee>, keep: Employee -> bool)
    requires forall e :: keep(e)
    ensures Filter(rows, keep) == rows
  {
    if rows != [] {
      FilterEverything(rows[1..], keep);
      assert rows == [rows[0]] + rows[1..];
    }
  }

  /** A stricter test keeps no row, nor any copy of a row, that a looser one drops. */
  lemma {:induction false} FilterMonotone(rows: seq<Employee>, stricter: Employee -> bool, looser: Employee -> bool)
    requires forall e :: stricter(e) ==> looser(e)
    ensures multiset(Filter(rows, stricter)) <= multiset(Filter(rows, looser))
  {
    if rows != [] {
      FilterMonotone(rows[1..], stricter, looser);
    }
  }

  /** PageRequest: a zero-based page number, a page size of at least one, and a sort. */
  datatype Pageable = Pageable(pageNumber: nat, pageSize: nat, sort: seq<SortOrder>)

  predicate ValidPageable(p: Pageable) {
    p.pageSize >= 1
  }

  /** A page of results and the number of rows matched in all. */
  datatype Page = Page(content: seq<Employee>, totalElements: nat, number: nat, size: nat)

  /**
    `content` is the `pageNumber`-th slice of `pageSize` rows of `rows`: it starts at
    row pageNumber * pageSize and holds as many rows as remain there, at most pageSize.
   */
  predicate IsSliceOf(content: seq<Employee>, rows: seq<Employee>, pageable: Pageable) {
    var offset := pageable.pageNumber * pageable.pageSize;
    && |content| == (if offset >= |rows| then 0
                     else if |rows| - offset < pageable.pageSize then |rows| - offset
                     else pageable.pageSize)
    && forall k :: 0 <= k < |content| ==> content[k] == rows[offset + k]
  }

  /** The `pageNumber`-th slice of `pageSize` rows of an ordered result. */
  function PageOf(rows: seq<Employee>, pageable: Pageable): (r: Page)
    requires ValidPageable(pageable)
    ensures r.totalElements == |rows|
    ensures r.number == pageable.pageNumber && r.size == pageable.pageSize
    ensures IsSliceOf(r.content, rows, pageable)
  {
    var offset := pageable.pageNumber * pageable.pageSize;
    var content :=
      if offset >= |rows| then []
      else if |rows| - offset < pageable.pageSize then rows[offset..]
      else rows[offset..offset + pageable.pageSize];
    Page(content, |rows|, pageable.pageNumber, pageable.pageSize)
  }

  /** The first page holds min(pageSize, matches) rows: the first rows of the result. */
  lemma FirstPage(rows: seq<Employee>, pageSize: nat, sort: seq<SortOrder>)
    requires pageSize >= 1
    ensures var page := PageOf(rows, Pageable(0, pageSize, sort));
      |page.content| == (if |rows| < pageSize then |rows| else pageSize)
      && page.content <= rows
  {
  }

  /** A page of an ordered result is ordered and holds only rows of that result. */
  lemma PageContentFrom(ordered: seq<Employee>, pageable: Pageable, page: Page)
    requires ValidPageable(pageable) && page == PageOf(ordered, pageable)
    ensures Sorted(ordered, pageable.sort) ==> Sorted(page.content, pageable.sort)
    ensures forall e :: e in page.content ==> e in ordered
  {
    var offset := pageable.pageNumber * pageable.pageSize;
    forall e | e in page.content ensures e in ordered {
      var k :| 0 <= k < |page.content| && page.content[k] == e;
      assert e == ordered[offset + k];
    }
    if Sorted(ordered, pageable.sort) {
      forall i, j | 0 <= i < j < |page.content|
        ensures CompareAll(page.content[i], page.content[j], pageable.sort) <= 0
      {
        assert page.content[i] == ordered[offset + i] && page.content[j] == ordered[offset + j];
      }
    }
  }

  /** JpaSpecificationExecutor.findAll(spec) with the ordering the query carries. */
  function FindAll(rows: seq<Employee>, spec: Specification, orders: seq<SortOrder>): (r: seq<Employee>)
    ensures Sorted(r, orders)
    ensures multiset(r) == multiset(Filter(rows, e => Satisfies(spec, e)))
    ensures forall e :: e in r <==> e in rows && Satisfies(spec, e)
    ensures |r| == |Filter(rows, e => Satisfies(spec, e))|
  {
    var admitted := Filter(rows, e => Satisfies(spec, e));
    SortBySortsAndPermutes(admitted, orders);
    assert forall e :: e in SortBy(admitted, orders) <==> e in multiset(admitted);
    assert |SortBy(admitted, orders)| == |multiset(SortBy(admitted, orders))| == |admitted|;
    SortBy(admitted, orders)
  }

  /** JpaSpecificationExecutor.findAll(spec, pageable): the requested page of the result ordered by the pageable's sort. */
  function FindAllPaged(rows: seq<Employee>, spec: Specification, pageable: Pageable): (r: Page)
    requires ValidPageable(pageable)
    ensures r.totalElements == |Filter(rows, e => Satisfies(spec, e))|
    ensures r.number == pageable.pageNumber && r.size == pageable.pageSize
    ensures forall e :: e in r.content ==> e in rows && Satisfies(spec, e)
    ensures Sorted(r.content, pageable.sort)
    ensures IsSliceOf(r.content, FindAll(rows, spec, pageable.sort), pageable)
  {
    var ordered := FindAll(rows, spec, pageable.sort);
    var page := PageOf(ordered, pageable);
    PageContentFrom(ordered, pageable, page);
    page
  }
}
