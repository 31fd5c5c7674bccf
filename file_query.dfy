/**
 * The listing query over the `files` table: AND-combined filters, one sort key
 * (descending when written with a leading `-`), and a page of `per_page` rows.
 */
module FileQuery {
  import opened Common
  import opened Strings
  import opened Sequences
  import opened FileModel

  /** The allowed filters; an absent one does not constrain the listing. */
  datatype Filters = Filters(
    mimeType: Option<string>,     // exact match on mime_type
    name: Option<string>,         // partial match on name
    description: Option<string>,  // partial match on description
    createdOn: Option<int>)       // the createdOn scope: a calendar day

  const NoFilters: Filters := Filters(None, None, None, None)

  /** The allowed sort fields. */
  datatype SortField = Name | Size | CreatedAt | UpdatedAt

  /** A sort key; `descending` is the leading `-`. */
  datatype Sort = Sort(field: SortField, descending: bool)

  /** `-created_at`: newest first. */
  const DefaultSort: Sort := Sort(CreatedAt, true)

  const DefaultPerPage: nat := 15

  // ---------------------------------------------------------------------------
  // Filters

  /**
   * A partial filter: the value occurs in the field, both case-folded by `fold`
   * (the library lower-cases both sides of its `LIKE`).
   */
  predicate PartialMatch(field: string, value: string, fold: string -> string)
  {
    Contains(fold(field), fold(value))
  }

  /** A row passes every filter that is given. A row without description fails a description filter. */
  predicate Matches(f: Filters, fold: string -> string, r: Record)
  {
    && (f.mimeType.Some? ==> r.mimeType == f.mimeType.value)
    && (f.name.Some? ==> PartialMatch(r.name, f.name.value, fold))
    && (f.description.Some? ==> r.description.Some? && PartialMatch(r.description.value, f.description.value, fold))
    && (f.createdOn.Some? ==> DateOf(r.createdAt) == f.createdOn.value)
  }

  function WhereMimeType(rows: seq<Record>, v: string): seq<Record>
  {
    Where(rows, (x: Record) => x.mimeType == v)
  }

  function WhereName(rows: seq<Record>, v: string, fold: string -> string): seq<Record>
  {
    Where(rows, (x: Record) => PartialMatch(x.name, v, fold))
  }

  function WhereDescription(rows: seq<Record>, v: string, fold: string -> string): seq<Record>
  {
    Where(rows, (x: Record) => x.description.Some? && PartialMatch(x.description.value, v, fold))
  }

  /** Each given filter adds one `where` clause to the query, in the order they are declared. */
  function ApplyFilters(rows: seq<Record>, f: Filters, fold: string -> string): seq<Record>
  {
    var a := if f.mimeType.Some? then WhereMimeType(rows, f.mimeType.value) else rows;
    var b := if f.name.Some? then WhereName(a, f.name.value, fold) else a;
    var c := if f.description.Some? then WhereDescription(b, f.description.value, fold) else b;
    if f.createdOn.Some? then CreatedOn(c, f.createdOn.value) else c
  }

  lemma WhereMembers<T>(s: seq<T>, p: T -> bool)
    ensures forall x :: x in Where(s, p) <==> x in s && p(x)
  {
    var w := Where(s, p);
    forall x | x in w ensures x in s && p(x) {
      var i :| 0 <= i < |w| && w[i] == x;
    }
    forall x | x in s && p(x) ensures x in w {
      var i :| 0 <= i < |s| && s[i] == x;
    }
  }

  /** A row is listed exactly when it is in the table and passes every given filter. */
  lemma ApplyFiltersMembers(rows: seq<Record>, f: Filters, fold: string -> string)
    ensures forall x :: x in ApplyFilters(rows, f, fold) <==> x in rows && Matches(f, fold, x)
  {
    var a := if f.mimeType.Some? then WhereMimeType(rows, f.mimeType.value) else rows;
    var b := if f.name.Some? then WhereName(a, f.name.value, fold) else a;
    var c := if f.description.Some? then WhereDescription(b, f.description.value, fold) else b;
    if f.mimeType.Some? {
      WhereMembers(rows, (x: Record) => x.mimeType == f.mimeType.value);
    }
    if f.name.Some? {
      WhereMembers(a, (x: Record) => PartialMatch(x.name, f.name.value, fold));
    }
    if f.description.Some? {
      WhereMembers(b, (x: Record) => x.description.Some? && PartialMatch(x.description.value, f.description.value, fold));
    }
    if f.createdOn.Some? {
      WhereMembers(c, (x: Record) => DateOf(x.createdAt) == f.createdOn.value);
    }
  }

  /** Filtering only removes rows: the listing keeps the table's rows, unmodified and in order. */
  lemma ApplyFiltersSubsequence(rows: seq<Record>, f: Filters, fold: string -> string)
    ensures IsSubsequence(ApplyFilters(rows, f, fold), rows)
  {
    var a := if f.mimeType.Some? then WhereMimeType(rows, f.mimeType.value) else rows;
    var b := if f.name.Some? then WhereName(a, f.name.value, fold) else a;
    var c := if f.description.Some? then WhereDescription(b, f.description.value, fold) else b;
    var d := ApplyFilters(rows, f, fold);
    SubsequenceReflexive(rows);
    SubsequenceReflexive(a);
    SubsequenceReflexive(b);
    SubsequenceReflexive(c);
    assert IsSubsequence(a, rows);
    SubsequenceTransitive(b, a, rows);
    SubsequenceTransitive(c, b, rows);
    SubsequenceTransitive(d, c, rows);
  }

  /** The mime_type filter alone keeps exactly the rows of that type. */
  lemma MimeTypeFilterExact(rows: seq<Record>, v: string, fold: string -> string)
    ensures forall x :: x in ApplyFilters(rows, NoFilters.(mimeType := Some(v)), fold) <==> x in rows && x.mimeType == v
  {
    ApplyFiltersMembers(rows, NoFilters.(mimeType := Some(v)), fold);
  }

  /** The name filter alone keeps exactly the rows whose folded name contains the folded value. */
  lemma NameFilterPartial(rows: seq<Record>, v: string, fold: string -> string)
    ensures forall x :: x in ApplyFilters(rows, NoFilters.(name := Some(v)), fold) <==>
      x in rows && exists i: nat :: OccursAt(fold(x.name), fold(v), i)
  {
    ApplyFiltersMembers(rows, NoFilters.(name := Some(v)), fold);
    forall x: Record {
      ContainsIff(fold(x.name), fold(v));
    }
  }

  /** With no filter given, the listing is the whole table. */
  lemma NoFiltersKeepAll(rows: seq<Record>, fold: string -> string)
    ensures ApplyFilters(rows, NoFilters, fold) == rows
  {
  }

  // ---------------------------------------------------------------------------
  // Sorting

  /** Ascending comparison on one field; names compare by character code. */
  predicate KeyLe(a: Record, b: Record, field: SortField)
  {
    match field
    case Name => LexLe(a.name, b.name)
    case Size => a.size <= b.size
    case CreatedAt => a.createdAt <= b.createdAt
    case UpdatedAt => a.updatedAt <= b.updatedAt
  }

  /** `a` may be listed before `b` under sort `s`. */
  predicate InOrder(a: Record, b: Record, s: Sort)
  {
    if s.descending then KeyLe(b, a, s.field) else KeyLe(a, b, s.field)
  }

  /** Every row is in order with every later row. Rows with equal keys may come in any order. */
  predicate SortedBy(rs: seq<Record>, s: Sort)
  {
    forall i, j :: 0 <= i < j < |rs| ==> InOrder(rs[i], rs[j], s)
  }

  lemma InOrderTotal(a: Record, b: Record, s: Sort)
    ensures InOrder(a, b, s) || InOrder(b, a, s)
  {
    if s.field == Name {
      LexLeTotal(a.name, b.name);
    }
  }

  lemma InOrderTransitive(a: Record, b: Record, c: Record, s: Sort)
    requires InOrder(a, b, s) && InOrder(b, c, s)
    ensures InOrder(a, c, s)
  {
    if s.field == Name {
      if s.descending {
        LexLeTransitive(c.name, b.name, a.name);
      } else {
        LexLeTransitive(a.name, b.name, c.name);
      }
    }
  }

  /** Inserts `x` before the first row it is in order with. */
  function Insert(x: Record, rs: seq<Record>, s: Sort): seq<Record>
  {
    if |rs| == 0 then [x]
    else if InOrder(x, rs[0], s) then [x] + rs
    else [rs[0]] + Insert(x, rs[1..], s)
  }

  /** The rows in the order of `s` (the database's `ORDER BY`). */
  function SortRecords(rs: seq<Record>, s: Sort): seq<Record>
  {
    if |rs| == 0 then [] else Insert(rs[0], SortRecords(rs[1..], s), s)
  }

  /** A row in order with every row of a sorted listing can be put in front of it. */
  lemma SortedCons(h: Record, t: seq<Record>, s: Sort)
    requires SortedBy(t, s)
    requires forall y :: y in t ==> InOrder(h, y, s)
    ensures SortedBy([h] + t, s)
  {
    var r := [h] + t;
    forall i, j | 0 <= i < j < |r| ensures InOrder(r[i], r[j], s) {
      assert r[j] == t[j - 1];
      if i > 0 {
        assert r[i] == t[i - 1];
      }
    }
  }

  lemma {:induction false} InsertCorrect(x: Record, rs: seq<Record>, s: Sort)
    requires SortedBy(rs, s)
    ensures SortedBy(Insert(x, rs, s), s)
    ensures multiset(Insert(x, rs, s)) == multiset(rs) + multiset{x}
  {
    if |rs| == 0 {
    } else if InOrder(x, rs[0], s) {
      forall y | y in rs ensures InOrder(x, y, s) {
        var k :| 0 <= k < |rs| && rs[k] == y;
        if k > 0 {
          InOrderTransitive(x, rs[0], y, s);
        }
      }
      SortedCons(x, rs, s);
    } else {
      InOrderTotal(x, rs[0], s);
      var t := Insert(x, rs[1..], s);
      InsertCorrect(x, rs[1..], s);
      assert rs == [rs[0]] + rs[1..];
      forall y | y in t ensures InOrder(rs[0], y, s) {
        assert y in multiset(t);
        if y != x {
          assert y in multiset(rs[1..]);
          var k :| 0 <= k < |rs[1..]| && rs[1..][k] == y;
          assert rs[k + 1] == y;
        }
      }
      SortedCons(rs[0], t, s);
    }
  }

  /** The sorted listing is in order and holds exactly the given rows, each as often as given. */
  lemma {:induction false} SortRecordsCorrect(rs: seq<Record>, s: Sort)
    ensures SortedBy(SortRecords(rs, s), s)
    ensures multiset(SortRecords(rs, s)) == multiset(rs)
  {
    if |rs| > 0 {
      SortRecordsCorrect(rs[1..], s);
      InsertCorrect(rs[0], SortRecords(rs[1..], s), s);
      assert rs == [rs[0]] + rs[1..];
    }
  }

  /** No two distinct rows of `rs` are tied under `s`: each pair is ordered one way only. */
  predicate TieFree(rs: seq<Record>, s: Sort)
  {
    forall x, y :: x in rs && y in rs && x != y ==> !(InOrder(x, y, s) && InOrder(y, x, s))
  }

  /**
   * Without ties the sorted order is unique: two sorted arrangements of the same
   * rows are the same sequence.
   */
  lemma {:induction false} SortedPermutationUnique(a: seq<Record>, b: seq<Record>, s: Sort)
    requires SortedBy(a, s) && SortedBy(b, s)
    requires multiset(a) == multiset(b)
    requires TieFree(a, s)
    ensures a == b
    decreases |a|
  {
    assert |a| == |b| by {
      assert |multiset(a)| == |multiset(b)|;
    }
    if |a| > 0 {
      SortedHeadsAgree(a, b, s);
      TailMultiset(a, b);
      TieFreeTail(a, s);
      SortedPermutationUnique(a[1..], b[1..], s);
      assert a == [a[0]] + a[1..] && b == [b[0]] + b[1..];
    }
  }

  /** Two sorted arrangements of the same tie-free rows start with the same row. */
  lemma SortedHeadsAgree(a: seq<Record>, b: seq<Record>, s: Sort)
    requires SortedBy(a, s) && SortedBy(b, s)
    requires multiset(a) == multiset(b) && |a| > 0 && |b| > 0
    requires TieFree(a, s)
    ensures a[0] == b[0]
  {
    assert b[0] in multiset(a) && a[0] in multiset(b);
    var m :| 0 <= m < |a| && a[m] == b[0];
    var k :| 0 <= k < |b| && b[k] == a[0];
    assert m == 0 || InOrder(a[0], b[0], s);
    assert k == 0 || InOrder(b[0], a[0], s);
    assert a[0] in a && b[0] in a;
    assert InOrder(a[0], b[0], s) && InOrder(b[0], a[0], s) ==> a[0] == b[0];
  }

  lemma TailMultiset(a: seq<Record>, b: seq<Record>)
    requires multiset(a) == multiset(b) && |a| > 0 && |b| > 0 && a[0] == b[0]
    ensures multiset(a[1..]) == multiset(b[1..])
  {
    assert a == [a[0]] + a[1..];
    assert b == [b[0]] + b[1..];
    assert multiset(a) == multiset{a[0]} + multiset(a[1..]);
    assert multiset(b) == multiset{a[0]} + multiset(b[1..]);
    assert multiset(a[1..]) == multiset(a) - multiset{a[0]};
    assert multiset(b[1..]) == multiset(b) - multiset{a[0]};
  }

  lemma TieFreeTail(a: seq<Record>, s: Sort)
    requires |a| > 0 && TieFree(a, s)
    ensures TieFree(a[1..], s)
  {
    forall x | x in a[1..] ensures x in a {
    }
  }

  /** Tie-freedom depends only on which rows are present. */
  lemma TieFreePermutation(a: seq<Record>, b: seq<Record>, s: Sort)
    requires multiset(a) == multiset(b) && TieFree(a, s)
    ensures TieFree(b, s)
  {
    forall x | x in b ensures x in a {
      assert x in multiset(b);
    }
  }

  /**
   * With ties, the order is not unique: two rows created in the same second are
   * sorted by `-created_at` either way round, so page 1 of one arrangement and
   * page 2 of the other show the same row twice and the other row never.
   */
  lemma TiesMayRepeatAcrossPages(a: Record, b: Record)
    requires a != b && a.createdAt == b.createdAt
    ensures SortedBy([a, b], DefaultSort) && SortedBy([b, a], DefaultSort)
    ensures PageSlice([a, b], 1, 1) + PageSlice([b, a], 1, 2) == [a, a]
  {
    assert PageSlice([a, b], 1, 1) == [a];
    assert PageSlice([b, a], 1, 2) == [a];
  }

  /** Sorted by `-created_at`: every row was created no earlier than any row after it. */
  lemma DefaultSortNewestFirst(rs: seq<Record>)
    ensures forall i, j :: 0 <= i < j < |SortRecords(rs, DefaultSort)| ==>
      SortRecords(rs, DefaultSort)[i].createdAt >= SortRecords(rs, DefaultSort)[j].createdAt
  {
    SortRecordsCorrect(rs, DefaultSort);
  }

  /** Sizes 1000, 5000, 2000 sorted by `size` come out as 1000, 2000, 5000. */
  lemma SizeSortExample(a: Record, b: Record, c: Record)
    requires a.size == 1000 && b.size == 5000 && c.size == 2000
    ensures var r := SortRecords([a, b, c], Sort(Size, false));
      |r| == 3 && r[0].size == 1000 && r[1].size == 2000 && r[2].size == 5000
  {
    var s := Sort(Size, false);
    var rows := [a, b, c];
    assert rows[1..][1..][1..] == [];
    assert SortRecords([c], s) == [c];
    assert rows[1..] == [b, c];
    assert rows[1..][1..] == [c];
    assert SortRecords([b, c], s) == Insert(b, [c], s) == [c, b];
    assert SortRecords(rows, s) == Insert(a, [c, b], s) == [a, c, b];
  }

  // ---------------------------------------------------------------------------
  // Pagination

  /** `paginate(request('per_page', 15))`: an absent or zero `per_page` falls back to 15. */
  function EffectivePerPage(perPage: Option<nat>): (n: nat)
    ensures n >= 1
    ensures perPage.Some? && perPage.value > 0 ==> n == perPage.value
    ensures perPage.None? || perPage.value == 0 ==> n == DefaultPerPage
  {
    if perPage.Some? && perPage.value > 0 then perPage.value else DefaultPerPage
  }

  /** The current page: the `page` parameter when it is at least 1, otherwise page 1. */
  function EffectivePage(page: Option<int>): (n: nat)
    ensures n >= 1
    ensures page.Some? && page.value >= 1 ==> n == page.value
    ensures page.None? || page.value < 1 ==> n == 1
  {
    if page.Some? && page.value >= 1 then page.value else 1
  }

  /** Page `page` (from 1) of `perPage` items: skip `(page - 1) * perPage`, take `perPage`. */
  function PageSlice<T>(items: seq<T>, perPage: nat, page: nat): seq<T>
    requires perPage >= 1 && page >= 1
  {
    var lo := Min((page - 1) * perPage, |items|);
    var hi := Min(page * perPage, |items|);
    items[lo..hi]
  }

  /** A page holds at most `perPage` items, and the first holds `min(perPage, total)`. */
  lemma PageSliceSize<T>(items: seq<T>, perPage: nat, page: nat)
    requires perPage >= 1 && page >= 1
    ensures |PageSlice(items, perPage, page)| <= perPage
    ensures page == 1 ==> |PageSlice(items, perPage, page)| == Min(perPage, |items|)
  {
    assert page * perPage == (page - 1) * perPage + perPage;
  }

  /** Pages 1 to `k`, one after the other. */
  function Pages<T>(items: seq<T>, perPage: nat, k: nat): seq<T>
    requires perPage >= 1
  {
    if k == 0 then [] else Pages(items, perPage, k - 1) + PageSlice(items, perPage, k)
  }

  /** Pages 1 to `k` are the first `k * perPage` items: no item is skipped or repeated. */
  lemma {:induction false} PagesCover<T>(items: seq<T>, perPage: nat, k: nat)
    requires perPage >= 1
    ensures Pages(items, perPage, k) == items[..Min(k * perPage, |items|)]
  {
    if k > 0 {
      PagesCover(items, perPage, k - 1);
      var lo := Min((k - 1) * perPage, |items|);
      var hi := Min(k * perPage, |items|);
      assert (k - 1) * perPage <= k * perPage;
      assert items[..lo] + items[lo..hi] == items[..hi];
    }
  }

  /** Twenty rows at five per page: pages 1 to 4 hold five rows each and together all twenty. */
  lemma TwentyRowsFivePerPage<T>(items: seq<T>)
    requires |items| == 20
    ensures forall k :: 1 <= k <= 4 ==> |PageSlice(items, 5, k)| == 5
    ensures Pages(items, 5, 4) == items
  {
    PagesCover(items, 5, 4);
    assert items[..20] == items;
  }

  /** A page of a sorted listing is sorted. */
  lemma PageSliceSorted(items: seq<Record>, perPage: nat, page: nat, s: Sort)
    requires perPage >= 1 && page >= 1 && SortedBy(items, s)
    ensures SortedBy(PageSlice(items, perPage, page), s)
  {
    var lo := Min((page - 1) * perPage, |items|);
    var p := PageSlice(items, perPage, page);
    forall i, j | 0 <= i < j < |p| ensures InOrder(p[i], p[j], s) {
      assert p[i] == items[lo + i] && p[j] == items[lo + j];
    }
  }

  /** Every item of a page is an item of the listing. */
  lemma PageSliceMembers<T>(items: seq<T>, perPage: nat, page: nat)
    requires perPage >= 1 && page >= 1
    ensures forall x :: x in PageSlice(items, perPage, page) ==> x in items
  {
    var lo := Min((page - 1) * perPage, |items|);
    var p := PageSlice(items, perPage, page);
    forall x | x in p ensures x in items {
      var i :| 0 <= i < |p| && p[i] == x;
      assert items[lo + i] == x;
    }
  }
}
