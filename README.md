# DataTable engine, modelled in Dafny

This project models the table engine inside the React component `DataTable`. The component holds a list of records and lets the user do five things with it:

- search every field for a case-insensitive substring;
- sort by one column, ascending or descending, by clicking its header;
- page through the result ten rows at a time with Prev and Next;
- show or hide columns through an ordered registry of visibility flags;
- import a dataset, and export the whole dataset restricted to the visible columns.

The modules follow the component's parts:

- `Values`: field values (integers and text), records as maps from column name to value, and the text operations the search uses: `toString`, ASCII `toLowerCase`, `includes`.
- `Filtering`: `filteredData`.
- `Sorting`: the comparator, `sortedData` (a stable insertion sort of a copy), `handleSort` and `getArrow`.
- `Pagination`: JavaScript `slice`, `paginatedData`, `totalPages`, and the guards on the Prev and Next buttons.
- `Columns`: the `visibleColumns` registry, its default value, the checkbox toggle and the extraction of the visible keys.
- `Transfer`: the per-row projection `handleExport` passes to the CSV writer, and the guard `handleImport` applies to the CSV reader's result.
- `Seed`: the 25 built-in rows.
- `Table`: class `AppState`. It keeps the component's state cells as fields: `data`, `search`, `sortConfig`, `page`, and `columns` for the `visibleColumns` state. Its handler methods update these fields. The derived views are functions of the state.

Choices the source leaves open:

- **Order on values.** A missing field sorts first, then numbers by value, then text lexicographically by character code. JavaScript's `<` gives no consistent order across types or against `undefined`.
- **Stable sort.** Rows with equal keys keep their input order, as ECMAScript 2019 requires of `Array.prototype.sort`. With `"desc"` the comparison is reversed and ties still keep input order.
- **Import.** Import receives the records the CSV reader has already parsed. Export yields the projected objects; turning them into CSV text is not modelled.
- **Stored registry.** The registry restored from storage is a constructor parameter. `None` means nothing is stored, which selects the six-column default.

In these places the model follows the code, which may differ from what one expects:

- `totalPages` is `Math.ceil(n / 10)`, which is 0 for an empty result, not at least 1.
- The page is never clamped, and is not reset when the search, the sort or the data change.
- Next is disabled only when `page === totalPages`. So on an empty result it stays enabled and leads to page 2 (`NextLeavesEmptyResult`).
- Toggling a column that is not in the registry appends it, as the object spread `{ ...visibleColumns, [col]: b }` does. It is not ignored and does not fail.
- Import does not touch the column registry.
- An empty parse result makes `result.data[0].name` throw. That is modelled as the rejection `NoRecords`, which leaves the data unchanged, like `InvalidFormat`.

## Model

| member | source | states |
|---|---|---|
| Values.Get | internshala_assignment/src/Components/Data_table.jsx:68-69 | `row[k]` is present exactly when the row has column k, and then it is that field; otherwise it is `undefined`. |
| Values.Truthy | internshala_assignment/src/Components/Data_table.jsx:99 | A missing field, the number 0 and the empty string are falsy; only a present field can be truthy. |
| Values.NatToTextRoundTrip | internshala_assignment/src/Components/Data_table.jsx:63 | The decimal numeral `toString` gives a number reads back as that number. |
| Values.NumeralUnique | internshala_assignment/src/Components/Data_table.jsx:63 | Two numerals with the same value are the same string, so digits, no leading zero and the round trip fix the text of each number. |
| Values.NatToText | internshala_assignment/src/Components/Data_table.jsx:63 | A number's text is a decimal numeral: one or more digits, with no leading zero, and not starting with 0 for a positive number. |
| Values.IntToText | internshala_assignment/src/Components/Data_table.jsx:63 | A number's `toString` starts with a minus sign exactly when the number is negative. The rest is a decimal numeral with no leading zero, and it is never "0" after a minus sign. |
| Values.IntToTextRoundTrip | internshala_assignment/src/Components/Data_table.jsx:63 | Reading back a number's `toString`, sign included, gives the number. |
| Values.Lower | internshala_assignment/src/Components/Data_table.jsx:63 | `toLowerCase` keeps the length, leaves no capital letter, keeps every other character and maps each capital to its small letter. |
| Values.LowerIdempotent | internshala_assignment/src/Components/Data_table.jsx:63 | Lowering a lowered string changes nothing. |
| Values.NumeralIsLowerCase | internshala_assignment/src/Components/Data_table.jsx:63 | A number's text is unchanged by lower-casing, so a number field matches the search by its digits. |
| Values.ToText | internshala_assignment/src/Components/Data_table.jsx:63 | `val.toString()` of a number is the number's text, which reads back as the number and is unchanged by lower-casing; text is returned as it is. |
| Values.Contains | internshala_assignment/src/Components/Data_table.jsx:63 | `includes(t)` can only hold when t is no longer than the string. |
| Values.ContainsIffOccurs | internshala_assignment/src/Components/Data_table.jsx:63 | `includes(t)` holds exactly when t occurs in the string at some position. |
| Values.ContainsEmpty | internshala_assignment/src/Components/Data_table.jsx:63 | Every string includes the empty string. |
| Filtering.Matches | internshala_assignment/src/Components/Data_table.jsx:62-63 | The search predicate can only hold for a row that has at least one field. |
| Filtering.Filter | internshala_assignment/src/Components/Data_table.jsx:61-65 | The result keeps a row exactly when some field of it matches the search. It is no longer than the data and holds no row more often than the data does. |
| Filtering.FilterIsSubsequence | internshala_assignment/src/Components/Data_table.jsx:61-65 | The filtered rows are a subsequence of the data: their order is kept. |
| Filtering.FilterAppend | internshala_assignment/src/Components/Data_table.jsx:61-65 | Filtering a concatenation is the concatenation of the filtered parts. |
| Filtering.FilterSingle | internshala_assignment/src/Components/Data_table.jsx:61-65 | A single row is kept exactly when it matches. Together with FilterAppend this fixes the result as the matching rows in order. |
| Filtering.MatchesEmptyQuery | internshala_assignment/src/Components/Data_table.jsx:62-63 | The empty search matches exactly the rows that have at least one field (`some` over no values is false). |
| Filtering.FilterEmptyQuery | internshala_assignment/src/Components/Data_table.jsx:61-65 | With an empty search, a dataset whose rows all have a field is kept whole. |
| Filtering.FilterIdempotent | internshala_assignment/src/Components/Data_table.jsx:61-65 | Filtering twice with the same search changes nothing. |
| Sorting.TextLe | internshala_assignment/src/Components/Data_table.jsx:70-71 | Text compares by character code: a prefix sorts before every extension of it, and a text sorts first only if its first character is not larger. |
| Sorting.TextLeIsLex | internshala_assignment/src/Components/Data_table.jsx:70-71 | The text order is exactly dictionary order, as JavaScript's `<` compares strings: a text sorts first when it is a prefix of the other, or when at the first position where the two differ it has the smaller character. |
| Sorting.ValueLe | internshala_assignment/src/Components/Data_table.jsx:70-71 | Every number sorts before every text; two numbers compare by value. |
| Sorting.KeyLe | internshala_assignment/src/Components/Data_table.jsx:68-71 | A missing field sorts before everything; a present field never sorts before a missing one. |
| Sorting.TextLeTotal | internshala_assignment/src/Components/Data_table.jsx:70-71 | Text comparison is total and antisymmetric. |
| Sorting.TextLeReflexive | internshala_assignment/src/Components/Data_table.jsx:70-71 | Text comparison is reflexive. |
| Sorting.TextLeTransitive | internshala_assignment/src/Components/Data_table.jsx:70-71 | Text comparison is transitive. |
| Sorting.KeyLeTotalOrder | internshala_assignment/src/Components/Data_table.jsx:68-72 | The order on sort keys (missing, numbers, text) is a total order. |
| Sorting.KeyOf | internshala_assignment/src/Components/Data_table.jsx:68-69 | `a[sortConfig.key]` is present exactly when the row has the sort column, and then it is that field. |
| Sorting.InOrder | internshala_assignment/src/Components/Data_table.jsx:67-73 | The comparator returns 0 for equal keys, so two rows with equal keys are in order both ways round. |
| Sorting.InOrderTotal | internshala_assignment/src/Components/Data_table.jsx:67-73 | For any two rows the comparator lets one precede the other. Two rows can be out of order only when their keys differ. |
| Sorting.InOrderTransitive | internshala_assignment/src/Components/Data_table.jsx:67-73 | The comparator's order is transitive in both directions. |
| Sorting.Insert | internshala_assignment/src/Components/Data_table.jsx:67 | Inserting a row gives one row more. |
| Sorting.InsertPermutes | internshala_assignment/src/Components/Data_table.jsx:67 | Inserting a row adds exactly that row. |
| Sorting.InsertSorted | internshala_assignment/src/Components/Data_table.jsx:67-73 | Inserting into sorted rows keeps them sorted. |
| Sorting.SortRows | internshala_assignment/src/Components/Data_table.jsx:67 | `[...filteredData].sort(...)` returns as many rows as it was given; it is a permutation by SortPermutes. |
| Sorting.SortPermutes | internshala_assignment/src/Components/Data_table.jsx:67 | `sortedData` is a permutation of `filteredData`. |
| Sorting.SortSorts | internshala_assignment/src/Components/Data_table.jsx:67-73 | Adjacent rows of `sortedData` are non-decreasing on the key for `"asc"` and non-increasing otherwise. |
| Sorting.SortedPairwise | internshala_assignment/src/Components/Data_table.jsx:67-73 | In sorted rows every earlier row is in order with every later one. |
| Sorting.InsertStable | internshala_assignment/src/Components/Data_table.jsx:67-73 | Inserting a row puts it before every row with an equal key. |
| Sorting.SortStable | internshala_assignment/src/Components/Data_table.jsx:67-73 | For every key value, the rows carrying it come out of the sort in the order they went in. |
| Sorting.SortKeepsSorted | internshala_assignment/src/Components/Data_table.jsx:67-73 | Rows already in order come out unchanged. |
| Sorting.SortIdempotent | internshala_assignment/src/Components/Data_table.jsx:67-73 | Sorting sorted rows again with the same configuration changes nothing. |
| Sorting.NextSortConfig | internshala_assignment/src/Components/Data_table.jsx:79-85 | `handleSort(k)` always selects k. It gives `"desc"` exactly when the previous configuration was k ascending. |
| Sorting.ClicksAlternate | internshala_assignment/src/Components/Data_table.jsx:79-85 | Repeated clicks on one header alternate the direction. From k ascending, an even number of clicks gives ascending; from any other configuration, an odd number does. |
| Sorting.SortTwiceFromAscending | internshala_assignment/src/Components/Data_table.jsx:79-85 | Two clicks on k starting from k ascending return to k ascending. |
| Sorting.Arrow | internshala_assignment/src/Components/Data_table.jsx:87-90 | `getArrow(c)` is the two-way arrow exactly when c is not the sort key; otherwise it is up for ascending and down for descending. |
| Pagination.SliceIndex | internshala_assignment/src/Components/Data_table.jsx:76 | `slice` normalises an index into the sequence: at least 0, at most the length, 0 for an index at or below minus the length, the length for one at or past it. |
| Pagination.StartIndex | internshala_assignment/src/Components/Data_table.jsx:75 | `startIndex` is a whole number of pages in, and is at least 0 exactly when the page is at least 1. |
| Pagination.Slice | internshala_assignment/src/Components/Data_table.jsx:76 | `slice` returns at most as many elements as the sequence has, at most end - begin of them for front indices, all taken from the sequence. |
| Pagination.SliceWhole | internshala_assignment/src/Components/Data_table.jsx:76 | Slicing from 0, or from minus the length, to the length gives back the whole sequence. |
| Pagination.SliceJoin | internshala_assignment/src/Components/Data_table.jsx:76 | Two adjacent slices put end to end give the slice across both. |
| Pagination.SliceFromEnd | internshala_assignment/src/Components/Data_table.jsx:76 | A negative begin index -k (k at least 1) gives the last k elements. |
| Pagination.Window | internshala_assignment/src/Components/Data_table.jsx:75-76 | The page shown holds at most ten rows, each taken from the sorted rows. |
| Pagination.PageCount | internshala_assignment/src/Components/Data_table.jsx:77 | `totalPages` is the least number of ten-row pages holding all rows: 0 exactly for no rows. |
| Pagination.WindowOfPage | internshala_assignment/src/Components/Data_table.jsx:75-76 | For page 1 or more, the window is the rows from (page-1)*10, up to ten of them, cut at the end. It is empty exactly past the last page. |
| Pagination.PagesRun | internshala_assignment/src/Components/Data_table.jsx:75-76 | Consecutive pages put end to end give the matching contiguous run of rows. |
| Pagination.PagesPastEnd | internshala_assignment/src/Components/Data_table.jsx:75-76 | Pages starting past the end are all empty. |
| Pagination.PagesCoverRows | internshala_assignment/src/Components/Data_table.jsx:75-77 | Pages 1 to `totalPages`, concatenated, give every sorted row exactly once, in order. |
| Pagination.PrevEnabled | internshala_assignment/src/Components/Data_table.jsx:177 | Prev is disabled on page 1 and enabled on every page from 2 on. |
| Pagination.NextEnabled | internshala_assignment/src/Components/Data_table.jsx:187 | Next is disabled on page `totalPages` and on no other page: it is enabled before it and also past it. |
| Pagination.AfterPrev | internshala_assignment/src/Components/Data_table.jsx:177-178 | Prev lowers the page by one exactly when the page is not 1. So a page of at least 1 stays at least 1. |
| Pagination.AfterNext | internshala_assignment/src/Components/Data_table.jsx:187-188 | Next raises the page by one exactly when the page is not `totalPages`. A page within 1..totalPages stays within it. |
| Pagination.NextLeavesEmptyResult | internshala_assignment/src/Components/Data_table.jsx:187-188 | With no rows, `totalPages` is 0, so Next stays enabled on page 1 and leads to an empty page 2. |
| Columns.Names | internshala_assignment/src/Components/Data_table.jsx:199 | `Object.keys(visibleColumns)` lists the registry's names in order. |
| Columns.Lookup | internshala_assignment/src/Components/Data_table.jsx:203 | `visibleColumns[col]` is defined exactly for registered names, and then it is that entry's flag. |
| Columns.DefaultRegistryIsUnique | internshala_assignment/src/Components/Data_table.jsx:37-46 | The default registry names each of its six columns once. |
| Columns.SetVisible | internshala_assignment/src/Components/Data_table.jsx:204-206 | Toggling a registered column keeps the names and their order. Toggling an unregistered one appends it with the new flag. |
| Columns.SetVisibleLookup | internshala_assignment/src/Components/Data_table.jsx:205 | After the toggle the column reads the new flag, and every other column reads as before. |
| Columns.SetVisibleUnique | internshala_assignment/src/Components/Data_table.jsx:205 | The toggle keeps every name unique. |
| Columns.SetVisibleOnly | internshala_assignment/src/Components/Data_table.jsx:199-206 | Position by position, only the toggled column's entry changes, and it gets the new flag. |
| Columns.VisibleKeys | internshala_assignment/src/Components/Data_table.jsx:106 | The visible keys are exactly the names whose entry is visible, and there are no more of them than entries. |
| Columns.VisibleKeysInOrder | internshala_assignment/src/Components/Data_table.jsx:106 | The visible keys are a subsequence of the registry's names: they come in registry order. |
| Columns.VisibleKeysDistinct | internshala_assignment/src/Components/Data_table.jsx:106 | With each name registered once, every visible key appears once. |
| Columns.VisibleKeysByFlag | internshala_assignment/src/Components/Data_table.jsx:153-160 | With unique names, a name is shown as a header and exported exactly when its flag is true. |
| Columns.HideRemovesKey | internshala_assignment/src/Components/Data_table.jsx:199-206 | Hiding a registered column removes exactly that name from the visible keys and keeps the rest in order. |
| Columns.HideNotVisible | internshala_assignment/src/Components/Data_table.jsx:106 | An unregistered name is never a visible key. |
| Columns.WithoutAbsent | internshala_assignment/src/Components/Data_table.jsx:106 | Removing a name that is not there changes nothing. |
| Transfer.ExportRow | internshala_assignment/src/Components/Data_table.jsx:108 | An exported object has one entry per visible key, in order: entry j is key j with `row[key]` (or `undefined`). |
| Transfer.ExportRows | internshala_assignment/src/Components/Data_table.jsx:107-109 | `data.map(...)` gives one exported object per data row, and object i is the projection of data row i. |
| Transfer.KeysOf | internshala_assignment/src/Components/Data_table.jsx:108 | The keys of an exported object, in order. |
| Transfer.ExportRowShape | internshala_assignment/src/Components/Data_table.jsx:108 | An exported object has exactly the given keys, in the given order. |
| Transfer.ExportProjection | internshala_assignment/src/Components/Data_table.jsx:105-109 | Export has one row per record of the full dataset. Each row has exactly the visible keys, in registry order, with `row[k]`. A hidden column never appears. |
| Transfer.CheckImport | internshala_assignment/src/Components/Data_table.jsx:99-100 | The parse result is accepted exactly when it has a first record whose `name` is present and truthy. An empty result is the `NoRecords` rejection. |
| Seed.PersonRow | internshala_assignment/src/Components/Data_table.jsx:7-31 | Each built-in row has exactly the six columns. |
| Seed.SeedRowsHaveFields | internshala_assignment/src/Components/Data_table.jsx:6-32 | There are 25 built-in rows and each has a `name` field. |
| Table.EmptySearchShowsAll | internshala_assignment/src/Components/Data_table.jsx:61-77 | With an empty search, and every row having a field, the sorted view holds every row of the dataset as often as the data does, so it has as many rows. |
| Table.ViewOfAll | internshala_assignment/src/Components/Data_table.jsx:75-77 | With an empty search and 25 rows that all have a field, the view has 25 rows and `totalPages` is 3. |
| Table.AppState.constructor | internshala_assignment/src/Components/Data_table.jsx:34-50 | Start-up state: the built-in rows, an empty search, sort on `name` ascending, page 1, and the stored registry or else the default. |
| Table.AppState.FilteredData | internshala_assignment/src/Components/Data_table.jsx:61-65 | `filteredData` holds exactly the rows of `data` that match the search. |
| Table.AppState.SortedData | internshala_assignment/src/Components/Data_table.jsx:67-73 | `sortedData` is a permutation of `filteredData` in the order of the sort configuration. |
| Table.AppState.TotalPages | internshala_assignment/src/Components/Data_table.jsx:77 | `totalPages` is the least number of ten-row pages that holds `sortedData`. |
| Table.AppState.PaginatedData | internshala_assignment/src/Components/Data_table.jsx:75-76 | The shown page has at most ten rows, each a row of `data` that matches the search. |
| Table.AppState.SetSearch | internshala_assignment/src/Components/Data_table.jsx:131-132 | Typing sets the search and leaves everything else, the page included, as it was. |
| Table.AppState.HandleSort | internshala_assignment/src/Components/Data_table.jsx:79-85 | A header click moves the sort configuration by NextSortConfig and changes nothing else. |
| Table.AppState.Prev | internshala_assignment/src/Components/Data_table.jsx:175-181 | Prev sets the page by AfterPrev, keeps the page at least 1 and changes nothing else. |
| Table.AppState.Next | internshala_assignment/src/Components/Data_table.jsx:185-191 | Next sets the page by AfterNext, using the page count before the click, and changes nothing else. |
| Table.AppState.SetColumnVisible | internshala_assignment/src/Components/Data_table.jsx:199-206 | A checkbox replaces the registry by SetVisible, keeps names unique and changes nothing else. |
| Table.AppState.HandleImport | internshala_assignment/src/Components/Data_table.jsx:92-103 | The data is replaced wholesale by the parsed records when CheckImport accepts them, and is kept otherwise. The registry, search, sort and page are untouched either way. |
| Table.AppState.HandleExport | internshala_assignment/src/Components/Data_table.jsx:105-110 | Export projects the whole dataset, not the filtered or sorted view: one row per record, each keyed by exactly the visible columns. |

## Left out

- CSV text: `Papa.parse` and `Papa.unparse` belong to a library that is not part of this model. Import starts from parsed records; export stops at the projected objects. So the text round trip is not modelled.
- Browser I/O: the file input, the `if (!file) return` early exit, `Blob` and the `saveAs` download.
- Persistence: the `localStorage` reads and writes and JSON encoding of the registry and theme. The restored registry is only a constructor parameter.
- Theme, rendering, the Manage Columns modal's show and hide, and header capitalisation are UI and not modelled.
- JavaScript's `<` and `>` on mixed number and text values and on `undefined`: the model uses one fixed total order instead (see above). Text compares by Unicode scalar value, not UTF-16 code unit, which differs only beyond the Basic Multilingual Plane.
- Stability: the host sort's tie order is taken to be stable (ECMAScript 2019 and later); an engine with an unstable sort could order equal-key rows differently.
- `toLowerCase` is modelled on ASCII letters only; other Unicode case mappings are not modelled.
- Numbers are integers: floating-point values, `NaN` and their `toString` forms are not modelled.
- Field numbers are taken to be safe integers (magnitude below 2^53). For them `IntToText` is exactly the decimal numeral `toString` writes. Larger integers are not exact in JavaScript, and from 1e21 on `toString` writes exponent form ("1e+21"); neither is modelled.
- JavaScript objects list integer-like keys before other keys. Registry order is modelled as plain insertion order.
- `val.toString()` on a `null` or `undefined` field value would throw. Field values in the model are always present values, so that case is not modelled.
- Table.AppState.PaginatedData: its own contract gives only the size bound and membership. The exact slice is stated by Pagination.WindowOfPage and Pagination.PagesCoverRows over `SortedData()`.
