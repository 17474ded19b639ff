/** The DataTable component's state and its event handlers. The derived values
    (filtered, sorted and paginated rows, page count) are recomputed from the
    state on every read, as the component recomputes them on every render. */
module Table {
  import opened Values
  import opened Filtering
  import opened Sorting
  import opened Pagination
  import opened Columns
  import opened Transfer
  import opened Seed

  class AppState {
    var data: seq<Record>
    var search: string
    var sortConfig: SortConfig
    var page: int
    var columns: Registry

    /** The page never drops below 1, and the registry holds each column once. */
    ghost predicate Valid()
      reads this
    {
      page >= 1 && UniqueNames(columns)
    }

    /** The initial render. `stored` is the registry read back from storage
        (None when there is none). */
    constructor (stored: Option<Registry>)
      requires stored.Some? ==> UniqueNames(stored.value)
      ensures Valid()
      ensures data == SeedRows && search == "" && page == 1
      ensures sortConfig == SortConfig("name", Asc)
      ensures columns == if stored.Some? then stored.value else DefaultRegistry
    {
      data := SeedRows;
      search := "";
      sortConfig := SortConfig("name", Asc);
      page := 1;
      columns := if stored.Some? then stored.value else DefaultRegistry;
      DefaultRegistryIsUnique();
    }

    /** `filteredData`: the rows of the dataset that match the search. */
    function FilteredData(): (r: seq<Record>)
      reads this
      ensures forall x :: x in r <==> x in data && Matches(x, search)
    {
      Filter(data, search)
    }

    /** `sortedData`: the filtered rows, each as often as before, in the order
        of the sort configuration. */
    function SortedData(): (r: seq<Record>)
      reads this
      ensures multiset(r) == multiset(FilteredData())
      ensures Sorted(sortConfig, r)
    {
      SortPermutes(sortConfig, FilteredData());
      SortSorts(sortConfig, FilteredData());
      SortRows(sortConfig, FilteredData())
    }

    /** `paginatedData`: at most ten rows, each a row of the dataset that matches the search. */
    function PaginatedData(): (r: seq<Record>)
      reads this
      ensures |r| <= RowsPerPage
      ensures forall x :: x in r ==> x in data && Matches(x, search)
    {
      assert forall x :: x in SortedData() ==> x in multiset(FilteredData());
      Window(SortedData(), page)
    }

    /** `totalPages`: the fewest ten-row pages that hold the sorted view. */
    function TotalPages(): (r: nat)
      reads this
      ensures r * RowsPerPage >= |SortedData()|
      ensures r > 0 ==> (r - 1) * RowsPerPage < |SortedData()|
    {
      PageCount(|SortedData()|)
    }

    /** The search box's `onChange`. The page is not reset. */
    method SetSearch(q: string)
      requires Valid()
      modifies this
      ensures Valid()
      ensures search == q
      ensures data == old(data) && sortConfig == old(sortConfig)
      ensures page == old(page) && columns == old(columns)
    {
      search := q;
    }

    /** `handleSort(key)`, a click on a header. The page is not reset. */
    method HandleSort(key: string)
      requires Valid()
      modifies this
      ensures Valid()
      ensures sortConfig == NextSortConfig(old(sortConfig), key)
      ensures data == old(data) && search == old(search)
      ensures page == old(page) && columns == old(columns)
    {
      sortConfig := NextSortConfig(sortConfig, key);
    }

    /** The Prev button: `setPage(page - 1)` unless `page === 1`. */
    method Prev()
      requires Valid()
      modifies this
      ensures Valid()
      ensures page == AfterPrev(old(page))
      ensures data == old(data) && search == old(search)
      ensures sortConfig == old(sortConfig) && columns == old(columns)
    {
      if page != 1 {
        page := page - 1;
      }
    }

    /** The Next button: `setPage(page + 1)` unless `page === totalPages`. */
    method Next()
      requires Valid()
      modifies this
      ensures Valid()
      ensures page == AfterNext(old(page), old(TotalPages()))
      ensures data == old(data) && search == old(search)
      ensures sortConfig == old(sortConfig) && columns == old(columns)
    {
      if page != TotalPages() {
        page := page + 1;
      }
    }

    /** A checkbox in the Manage Columns dialog. */
    method SetColumnVisible(col: string, b: bool)
      requires Valid()
      modifies this
      ensures Valid()
      ensures columns == SetVisible(old(columns), col, b)
      ensures data == old(data) && search == old(search)
      ensures sortConfig == old(sortConfig) && page == old(page)
    {
      SetVisibleUnique(columns, col, b);
      columns := SetVisible(columns, col, b);
    }

    /** `handleImport`, given the records the CSV reader returned. The dataset
        is replaced wholesale or not at all; nothing else changes. */
    method HandleImport(parsed: seq<Record>) returns (outcome: ImportOutcome)
      requires Valid()
      modifies this
      ensures Valid()
      ensures outcome == CheckImport(parsed)
      ensures data == if outcome == Accepted then parsed else old(data)
      ensures search == old(search) && sortConfig == old(sortConfig)
      ensures page == old(page) && columns == old(columns)
    {
      outcome := CheckImport(parsed);
      if outcome == Accepted {
        data := parsed;
      }
    }

    /** `handleExport`, up to the CSV writer: one object per row of the whole
        dataset (not the filtered or sorted view), keyed by the visible columns. */
    method HandleExport() returns (rows: seq<ExportedRow>)
      requires Valid()
      ensures rows == ExportRows(data, columns)
      ensures |rows| == |data|
      ensures forall i :: 0 <= i < |rows| ==> KeysOf(rows[i]) == VisibleKeys(columns)
    {
      rows := ExportRows(data, columns);
      forall i | 0 <= i < |rows|
        ensures KeysOf(rows[i]) == VisibleKeys(columns)
      {
        ExportProjection(data, columns, i);
      }
    }
  }

  /** With an empty search the view holds every row, each as often as in the
      data, so the page count is that of the whole dataset. */
  lemma {:induction false} EmptySearchShowsAll(cfg: SortConfig, rows: seq<Record>)
    requires forall i :: 0 <= i < |rows| ==> |rows[i]| > 0
    ensures multiset(SortRows(cfg, Filter(rows, ""))) == multiset(rows)
    ensures |SortRows(cfg, Filter(rows, ""))| == |rows|
  {
    FilterEmptyQuery(rows);
    SortPermutes(cfg, rows);
  }

  /** With an empty search the state shows every row, so 25 rows make three pages. */
  lemma ViewOfAll(t: AppState)
    requires t.search == "" && |t.data| == 25
    requires forall i :: 0 <= i < |t.data| ==> |t.data[i]| > 0
    ensures |t.SortedData()| == 25 && t.TotalPages() == 3
  {
    EmptySearchShowsAll(t.sortConfig, t.data);
  }

  /** Paging through 25 rows with an empty search box, as on the built-in rows
      after start-up: three pages; Next stops on the third, which holds the last
      five rows. */
  method ExamplePaging(t: AppState)
    requires t.Valid() && t.page == 1 && t.search == "" && |t.data| == 25
    requires forall i :: 0 <= i < |t.data| ==> |t.data[i]| > 0
    modifies t
  {
    ViewOfAll(t);
    t.Next();
    t.Next();
    assert t.page == 3;
    ViewOfAll(t);
    WindowOfPage(t.SortedData(), 3);
    assert |t.PaginatedData()| == 5;
    t.Next();
    assert t.page == 3;
  }

  /** The built-in rows meet what ExamplePaging asks of the dataset. */
  method ExampleStartUp()
  {
    var t := new AppState(None);
    SeedRowsHaveFields();
    ExamplePaging(t);
  }

  /** Hiding `age` drops it from every exported row, while the dataset keeps it. */
  method ExampleHideAge()
  {
    var t := new AppState(None);
    t.SetColumnVisible("age", false);
    SetVisibleLookup(DefaultRegistry, "age", false, "age");
    var rows := t.HandleExport();
    SeedRowsHaveFields();
    assert |rows| == 25;
    forall i | 0 <= i < |rows|
      ensures "age" !in KeysOf(rows[i])
    {
      ExportProjection(t.data, t.columns, i);
    }
  }
}
