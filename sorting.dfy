/** Sorting the filtered rows by one column, and the header click that picks the
    column and the direction. */
module Sorting {
  import opened Values

  datatype Direction = Asc | Desc

  /** `sortConfig`: the active sort column and direction. */
  datatype SortConfig = SortConfig(key: string, direction: Direction)

  // ---------------------------------------------------------------------------
  // The order on field values: a missing field first, then numbers by value,
  // then text in lexicographic order of character codes.

  /** Text order by character code: at the first position where two strings
      differ the smaller character sorts first, and a prefix sorts before every
      extension of it (TextLeIsLex). */
  predicate TextLe(a: string, b: string)
    ensures |a| <= |b| && a == b[..|a|] ==> TextLe(a, b)
    ensures TextLe(a, b) && a != [] ==> b != [] && a[0] <= b[0]
    decreases |a|
  {
    if a == [] then true
    else if b == [] then false
    else if a[0] != b[0] then a[0] < b[0]
    else TextLe(a[1..], b[1..])
  }

  /** Numbers before text; numbers by value and text by TextLe. */
  predicate ValueLe(x: Value, y: Value)
    ensures x.Num? && y.Text? ==> ValueLe(x, y)
    ensures x.Text? && y.Num? ==> !ValueLe(x, y)
    ensures x.Num? && y.Num? ==> (ValueLe(x, y) <==> x.n <= y.n)
  {
    match (x, y)
    case (Num(a), Num(b)) => a <= b
    case (Num(_), Text(_)) => true
    case (Text(_), Num(_)) => false
    case (Text(a), Text(b)) => TextLe(a, b)
  }

  /** A missing field before every present one; present ones by ValueLe. */
  predicate KeyLe(x: Option<Value>, y: Option<Value>)
    ensures x.None? ==> KeyLe(x, y)
    ensures x.Some? && y.None? ==> !KeyLe(x, y)
  {
    match (x, y)
    case (None, _) => true
    case (Some(_), None) => false
    case (Some(a), Some(b)) => ValueLe(a, b)
  }

  lemma {:induction false} TextLeTotal(a: string, b: string)
    ensures TextLe(a, b) || TextLe(b, a)
    ensures TextLe(a, b) && TextLe(b, a) ==> a == b
    decreases |a|
  {
    if a != [] && b != [] && a[0] == b[0] {
      TextLeTotal(a[1..], b[1..]);
      assert a == [a[0]] + a[1..] && b == [b[0]] + b[1..];
    }
  }

  lemma {:induction false} TextLeReflexive(a: string)
    ensures TextLe(a, a)
    decreases |a|
  {
    if a != [] {
      TextLeReflexive(a[1..]);
    }
  }

  lemma {:induction false} TextLeTransitive(a: string, b: string, c: string)
    requires TextLe(a, b) && TextLe(b, c)
    ensures TextLe(a, c)
    decreases |a|
  {
    if a != [] && b != [] && c != [] && a[0] == b[0] && b[0] == c[0] {
      TextLeTransitive(a[1..], b[1..], c[1..]);
    }
  }

  /** Dictionary order, as JavaScript's `<` on strings compares them: a is a
      prefix of b, or at the first position where they differ a has the
      smaller character. */
  ghost predicate LexBefore(a: string, b: string)
  {
    (|a| <= |b| && a == b[..|a|])
    || exists i :: 0 <= i < |a| && i < |b| && a[..i] == b[..i] && a[i] < b[i]
  }

  /** TextLe is exactly dictionary order. */
  lemma {:induction false} TextLeIsLex(a: string, b: string)
    ensures TextLe(a, b) <==> LexBefore(a, b)
    decreases |a|
  {
    if a == [] {
      assert a == b[..0];
    } else if b == [] {
    } else if a[0] != b[0] {
      if a[0] < b[0] {
        assert a[..0] == b[..0];
      }
    } else {
      var a', b' := a[1..], b[1..];
      TextLeIsLex(a', b');
      assert (|a'| <= |b'| && a' == b'[..|a'|]) <==> (|a| <= |b| && a == b[..|a|]) by {
        if |a| <= |b| && a == b[..|a|] {
          assert b'[..|a'|] == b[..|a|][1..];
        }
        if |a'| <= |b'| && a' == b'[..|a'|] {
          assert a == [a[0]] + a' && b[..|a|] == [b[0]] + b'[..|a'|];
        }
      }
      if exists i :: 0 <= i < |a'| && i < |b'| && a'[..i] == b'[..i] && a'[i] < b'[i] {
        var i :| 0 <= i < |a'| && i < |b'| && a'[..i] == b'[..i] && a'[i] < b'[i];
        assert a[..i + 1] == [a[0]] + a'[..i] && b[..i + 1] == [b[0]] + b'[..i];
      }
      if exists i :: 0 <= i < |a| && i < |b| && a[..i] == b[..i] && a[i] < b[i] {
        var i :| 0 <= i < |a| && i < |b| && a[..i] == b[..i] && a[i] < b[i];
        assert i > 0;
        assert a'[..i - 1] == a[..i][1..] && b'[..i - 1] == b[..i][1..];
      }
    }
  }

  /** KeyLe is a total order: total, reflexive, antisymmetric and transitive. */
  lemma KeyLeTotalOrder(x: Option<Value>, y: Option<Value>, z: Option<Value>)
    ensures KeyLe(x, y) || KeyLe(y, x)
    ensures KeyLe(x, x)
    ensures KeyLe(x, y) && KeyLe(y, x) ==> x == y
    ensures KeyLe(x, y) && KeyLe(y, z) ==> KeyLe(x, z)
  {
    if x.Some? && y.Some? && x.value.Text? && y.value.Text? {
      TextLeTotal(x.value.s, y.value.s);
    }
    if x.Some? && x.value.Text? {
      TextLeReflexive(x.value.s);
    }
    if KeyLe(x, y) && KeyLe(y, z) && x.Some? && y.Some? && z.Some?
       && x.value.Text? && y.value.Text? && z.value.Text? {
      TextLeTransitive(x.value.s, y.value.s, z.value.s);
    }
  }

  // ---------------------------------------------------------------------------
  // The comparator

  /** The value the comparator reads from a row: `row[sortConfig.key]`. */
  function KeyOf(cfg: SortConfig, row: Record): (r: Option<Value>)
    ensures r.Some? <==> cfg.key in row
    ensures r.Some? ==> r.value == row[cfg.key]
  {
    Get(row, cfg.key)
  }

  /** a may stand before b: the comparator on (a, b) is not positive. With
      "asc" that is key(a) <= key(b); otherwise key(a) >= key(b). */
  predicate InOrder(cfg: SortConfig, a: Record, b: Record)
    ensures KeyOf(cfg, a) == KeyOf(cfg, b) ==> InOrder(cfg, a, b)
  {
    KeyLeTotalOrder(KeyOf(cfg, a), KeyOf(cfg, a), KeyOf(cfg, a));
    if cfg.direction == Asc then KeyLe(KeyOf(cfg, a), KeyOf(cfg, b))
    else KeyLe(KeyOf(cfg, b), KeyOf(cfg, a))
  }

  lemma InOrderTotal(cfg: SortConfig, a: Record, b: Record)
    ensures InOrder(cfg, a, b) || InOrder(cfg, b, a)
    ensures !InOrder(cfg, a, b) ==> KeyOf(cfg, a) != KeyOf(cfg, b)
  {
    KeyLeTotalOrder(KeyOf(cfg, a), KeyOf(cfg, b), KeyOf(cfg, a));
    KeyLeTotalOrder(KeyOf(cfg, b), KeyOf(cfg, a), KeyOf(cfg, b));
  }

  lemma InOrderTransitive(cfg: SortConfig, a: Record, b: Record, c: Record)
    requires InOrder(cfg, a, b) && InOrder(cfg, b, c)
    ensures InOrder(cfg, a, c)
  {
    KeyLeTotalOrder(KeyOf(cfg, a), KeyOf(cfg, b), KeyOf(cfg, c));
    KeyLeTotalOrder(KeyOf(cfg, c), KeyOf(cfg, b), KeyOf(cfg, a));
  }

  /** Adjacent rows are in order. */
  ghost predicate Sorted(cfg: SortConfig, s: seq<Record>)
  {
    forall i :: 0 < i < |s| ==> InOrder(cfg, s[i - 1], s[i])
  }

  // ---------------------------------------------------------------------------
  // The sort: a stable insertion sort of a copy of the rows

  /** Puts x in front of the first row it may precede. */
  function Insert(cfg: SortConfig, x: Record, s: seq<Record>): (r: seq<Record>)
    ensures |r| == |s| + 1
  {
    if s == [] then [x]
    else if InOrder(cfg, x, s[0]) then [x] + s
    else [s[0]] + Insert(cfg, x, s[1..])
  }

  /** `[...filteredData].sort(comparator)` */
  function SortRows(cfg: SortConfig, s: seq<Record>): (r: seq<Record>)
    ensures |r| == |s|
  {
    if s == [] then [] else Insert(cfg, s[0], SortRows(cfg, s[1..]))
  }

  lemma {:induction false} InsertPermutes(cfg: SortConfig, x: Record, s: seq<Record>)
    ensures multiset(Insert(cfg, x, s)) == multiset(s) + multiset{x}
  {
    if s != [] && !InOrder(cfg, x, s[0]) {
      InsertPermutes(cfg, x, s[1..]);
      assert s == [s[0]] + s[1..];
    }
  }

  lemma {:induction false} InsertSorted(cfg: SortConfig, x: Record, s: seq<Record>)
    requires Sorted(cfg, s)
    ensures Sorted(cfg, Insert(cfg, x, s))
    ensures Insert(cfg, x, s)[0] == x || (s != [] && Insert(cfg, x, s)[0] == s[0])
  {
    if s != [] && !InOrder(cfg, x, s[0]) {
      InOrderTotal(cfg, x, s[0]);
      InsertSorted(cfg, x, s[1..]);
      var t := Insert(cfg, x, s[1..]);
      assert s[1..] != [] ==> InOrder(cfg, s[0], s[1..][0]);
      assert Insert(cfg, x, s) == [s[0]] + t;
    }
  }

  /** The sorted rows are the same rows, each as often as before. */
  lemma {:induction false} SortPermutes(cfg: SortConfig, s: seq<Record>)
    ensures multiset(SortRows(cfg, s)) == multiset(s)
  {
    if s != [] {
      SortPermutes(cfg, s[1..]);
      InsertPermutes(cfg, s[0], SortRows(cfg, s[1..]));
      assert s == [s[0]] + s[1..];
    }
  }

  /** With "asc" every row's key is at most the next row's key; with "desc" at least. */
  lemma {:induction false} SortSorts(cfg: SortConfig, s: seq<Record>)
    ensures Sorted(cfg, SortRows(cfg, s))
  {
    if s != [] {
      SortSorts(cfg, s[1..]);
      InsertSorted(cfg, s[0], SortRows(cfg, s[1..]));
    }
  }

  /** Adjacent order gives order between any two positions. */
  lemma {:induction false} SortedPairwise(cfg: SortConfig, s: seq<Record>, i: int, j: int)
    requires Sorted(cfg, s) && 0 <= i < j < |s|
    ensures InOrder(cfg, s[i], s[j])
    decreases j - i
  {
    if i + 1 < j {
      SortedPairwise(cfg, s, i + 1, j);
      InOrderTransitive(cfg, s[i], s[i + 1], s[j]);
    }
  }

  // Stability: rows with equal keys keep their relative order.

  /** The rows whose sort key equals v, in order. */
  function WithKey(cfg: SortConfig, v: Option<Value>, s: seq<Record>): seq<Record>
  {
    if s == [] then []
    else if KeyOf(cfg, s[0]) == v then [s[0]] + WithKey(cfg, v, s[1..])
    else WithKey(cfg, v, s[1..])
  }

  lemma {:induction false} InsertStable(cfg: SortConfig, v: Option<Value>, x: Record, s: seq<Record>)
    ensures WithKey(cfg, v, Insert(cfg, x, s))
         == (if KeyOf(cfg, x) == v then [x] else []) + WithKey(cfg, v, s)
  {
    if s == [] {
    } else if InOrder(cfg, x, s[0]) {
      assert ([x] + s)[1..] == s;
    } else {
      InOrderTotal(cfg, x, s[0]);
      InsertStable(cfg, v, x, s[1..]);
      assert ([s[0]] + Insert(cfg, x, s[1..]))[1..] == Insert(cfg, x, s[1..]);
    }
  }

  /** The sort is stable: for every key value, the rows carrying it come out in
      the order they went in. */
  lemma {:induction false} SortStable(cfg: SortConfig, v: Option<Value>, s: seq<Record>)
    ensures WithKey(cfg, v, SortRows(cfg, s)) == WithKey(cfg, v, s)
  {
    if s != [] {
      SortStable(cfg, v, s[1..]);
      InsertStable(cfg, v, s[0], SortRows(cfg, s[1..]));
    }
  }

  /** Rows already in order are left as they are. */
  lemma {:induction false} SortKeepsSorted(cfg: SortConfig, s: seq<Record>)
    requires Sorted(cfg, s)
    ensures SortRows(cfg, s) == s
  {
    if s != [] {
      assert Sorted(cfg, s[1..]);
      SortKeepsSorted(cfg, s[1..]);
      assert s == [s[0]] + s[1..];
    }
  }

  lemma SortIdempotent(cfg: SortConfig, s: seq<Record>)
    ensures SortRows(cfg, SortRows(cfg, s)) == SortRows(cfg, s)
  {
    SortSorts(cfg, s);
    SortKeepsSorted(cfg, SortRows(cfg, s));
  }

  // ---------------------------------------------------------------------------
  // The header click and the arrow next to each header

  /** `handleSort(key)`: a click on the column already sorted ascending turns it
      descending; any other click sorts that column ascending. */
  function NextSortConfig(prev: SortConfig, key: string): (r: SortConfig)
    ensures r.key == key
    ensures r.direction == Desc <==> prev == SortConfig(key, Asc)
  {
    if prev.key == key && prev.direction == Asc then SortConfig(key, Desc)
    else SortConfig(key, Asc)
  }

  /** The configuration after n clicks on the same header. */
  function Clicks(cfg: SortConfig, key: string, n: nat): SortConfig
  {
    if n == 0 then cfg else NextSortConfig(Clicks(cfg, key, n - 1), key)
  }

  /** Repeated clicks alternate the direction: starting from that column
      ascending, an even number of clicks gives ascending again; from anything
      else, an odd number does. */
  lemma {:induction false} ClicksAlternate(cfg: SortConfig, key: string, n: nat)
    requires n >= 1
    ensures Clicks(cfg, key, n).key == key
    ensures Clicks(cfg, key, n).direction == Asc
        <==> ((n % 2 == 0) <==> cfg == SortConfig(key, Asc))
  {
    if n > 1 {
      ClicksAlternate(cfg, key, n - 1);
    }
  }

  lemma SortTwiceFromAscending(key: string)
    ensures NextSortConfig(NextSortConfig(SortConfig(key, Asc), key), key) == SortConfig(key, Asc)
  {
  }

  /** `getArrow(col)`: a two-way arrow on every header but the sorted one,
      which shows an up arrow for ascending and a down arrow for descending. */
  function Arrow(cfg: SortConfig, col: string): (r: string)
    ensures r == "\U{2195}" <==> cfg.key != col
    ensures r == "\U{2191}" <==> cfg.key == col && cfg.direction == Asc
    ensures r == "\U{2193}" <==> cfg.key == col && cfg.direction.Desc?
  {
    assert "\U{2191}"[0] != "\U{2193}"[0] && "\U{2193}"[0] != "\U{2195}"[0] && "\U{2195}"[0] != "\U{2191}"[0];
    if cfg.key != col then "\U{2195}"
    else if cfg.direction == Asc then "\U{2191}" else "\U{2193}"
  }
}
