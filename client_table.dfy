/**
 * The log table of the browser page (public/script.js): the in-memory
 * search over the loaded records, the pagination bar, the range line and
 * the page-level state (`currentPage`, `itemsPerPage`, `allLogs`,
 * `filteredLogs`) that the page's handlers reassign.
 */
module ClientTable {
  import opened Wrappers
  import opened Text
  import opened SyslogProcessor
  import opened ClientCsv

  function Min(a: int, b: int): int { if a <= b then a else b }
  function Max(a: int, b: int): int { if a <= b then b else a }

  // ---------------------------------------------------------------------
  // The search box
  // ---------------------------------------------------------------------

  /**
   * What `value.toString()` throws when `value` is `undefined`, in the
   * wording of Chromium's V8 engine; other browsers word it differently, and
   * the lemmas only compare it with itself.
   */
  const ToStringOfUndefined := "TypeError: Cannot read properties of undefined (reading 'toString')"

  /** A value that, lower-cased, contains the (already lower-cased) term. */
  predicate Hit(v: JsValue, term: string)
  {
    v.Str? && Contains(ToLower(v.s), term)
  }

  /**
   * `Object.values(item).some(value => value.toString().toLowerCase().includes(term))`:
   * the values are visited in order, the first hit answers `true`, and an
   * `undefined` value reached before any hit throws.
   */
  function SomeHit(values: seq<JsValue>, term: string): Result<bool>
    decreases |values|
  {
    if values == [] then Ok(false)
    else if values[0].Undefined? then Err(ToStringOfUndefined)
    else if Contains(ToLower(values[0].s), term) then Ok(true)
    else SomeHit(values[1..], term)
  }

  /** `allLogs.filter(…)` with the term lower-cased by the caller; the first record that throws aborts the filter. */
  function FilterLogs(items: seq<Item>, term: string): Result<seq<Item>>
    decreases |items|
  {
    if items == [] then Ok([])
    else
      match SomeHit(ItemValues(items[0]), term)
      case Err(m) => Err(m)
      case Ok(keep) =>
        match FilterLogs(items[1..], term)
        case Err(m) => Err(m)
        case Ok(rest) => Ok((if keep then [items[0]] else []) + rest)
  }

  predicate AllDefined(values: seq<JsValue>)
  {
    forall k :: 0 <= k < |values| ==> values[k].Str?
  }

  /** A record some value of which contains the term. */
  predicate Matches(item: Item, term: string)
  {
    exists k :: 0 <= k < 11 && Hit(ItemValues(item)[k], term)
  }

  /** With every value a string, the scan answers whether some value contains the term. */
  lemma {:induction false} SomeHitDefined(values: seq<JsValue>, term: string)
    requires AllDefined(values)
    ensures SomeHit(values, term) == Ok(exists k :: 0 <= k < |values| && Hit(values[k], term))
    decreases |values|
  {
    if values != [] {
      SomeHitDefined(values[1..], term);
      if exists k :: 0 <= k < |values[1..]| && Hit(values[1..][k], term) {
        var k :| 0 <= k < |values[1..]| && Hit(values[1..][k], term);
        assert Hit(values[k + 1], term);
      }
      if exists k :: 0 <= k < |values| && Hit(values[k], term) {
        var k :| 0 <= k < |values| && Hit(values[k], term);
        if k > 0 {
          assert Hit(values[1..][k - 1], term);
        }
      }
    }
  }

  /**
   * The scan throws exactly when an `undefined` value comes before every
   * value that contains the term, and then with the `toString` error.
   */
  lemma {:induction false} SomeHitFailsIff(values: seq<JsValue>, term: string)
    ensures SomeHit(values, term).Err? <==>
            exists k :: 0 <= k < |values| && values[k].Undefined? && forall j :: 0 <= j < k ==> !Hit(values[j], term)
    ensures SomeHit(values, term).Err? ==> SomeHit(values, term).message == ToStringOfUndefined
    decreases |values|
  {
    if values != [] {
      SomeHitFailsIff(values[1..], term);
      var tail := values[1..];
      if exists k :: 0 <= k < |tail| && tail[k].Undefined? && forall j :: 0 <= j < k ==> !Hit(tail[j], term) {
        var k :| 0 <= k < |tail| && tail[k].Undefined? && forall j :: 0 <= j < k ==> !Hit(tail[j], term);
        if !Hit(values[0], term) {
          assert values[k + 1].Undefined?;
          forall j | 0 <= j < k + 1 ensures !Hit(values[j], term) {
            if j > 0 {
              assert values[j] == tail[j - 1];
            }
          }
        }
      }
      if exists k :: 0 <= k < |values| && values[k].Undefined? && forall j :: 0 <= j < k ==> !Hit(values[j], term) {
        var k :| 0 <= k < |values| && values[k].Undefined? && forall j :: 0 <= j < k ==> !Hit(values[j], term);
        if k > 0 {
          assert !Hit(values[0], term);
          assert tail[k - 1].Undefined?;
          forall j | 0 <= j < k - 1 ensures !Hit(tail[j], term) {
            assert tail[j] == values[j + 1];
          }
        }
      }
    }
  }

  /** The filter succeeds exactly when no record's scan throws. */
  lemma {:induction false} FilterLogsOkIff(items: seq<Item>, term: string)
    ensures FilterLogs(items, term).Ok? <==> forall i :: 0 <= i < |items| ==> SomeHit(ItemValues(items[i]), term).Ok?
    decreases |items|
  {
    if items != [] {
      FilterLogsOkIff(items[1..], term);
      if forall i :: 0 <= i < |items[1..]| ==> SomeHit(ItemValues(items[1..][i]), term).Ok? {
        forall i | 0 <= i < |items| && i > 0 ensures SomeHit(ItemValues(items[i]), term).Ok? {
          assert items[i] == items[1..][i - 1];
        }
      }
    }
  }

  /**
   * With every value of every record a string, the search keeps exactly the
   * records some value of which contains the term, in their order.
   */
  lemma {:induction false} FilterLogsDefined(items: seq<Item>, term: string, keep: Item -> bool)
    requires forall i :: 0 <= i < |items| ==> AllDefined(ItemValues(items[i]))
    requires forall it :: keep(it) <==> Matches(it, term)
    ensures FilterLogs(items, term) == Ok(Filter(items, keep))
    decreases |items|
  {
    if items != [] {
      SomeHitDefined(ItemValues(items[0]), term);
      FilterLogsDefined(items[1..], term, keep);
    }
  }

  /** A lower-cased empty term keeps every record whose time is a string. */
  lemma {:induction false} EmptyTermKeepsAll(items: seq<Item>)
    requires forall i :: 0 <= i < |items| ==> items[i].time.Str?
    ensures FilterLogs(items, "") == Ok(items)
    decreases |items|
  {
    if items != [] {
      var first := ToLower(items[0].time.s);
      assert first[..0] == "";
      assert SomeHit(ItemValues(items[0]), "") == Ok(true);
      EmptyTermKeepsAll(items[1..]);
      assert [items[0]] + items[1..] == items;
    }
  }

  /**
   * On a record whose first `n` values are strings and whose value `n` is
   * `undefined`, the scan either finds the term among the first `n` values
   * or throws: it never answers `false`.
   */
  lemma {:induction false} SomeHitBeforeUndefined(values: seq<JsValue>, n: nat, term: string)
    requires n < |values| && values[n].Undefined?
    requires forall k :: 0 <= k < n ==> values[k].Str?
    ensures SomeHit(values, term) ==
            if exists k :: 0 <= k < n && Hit(values[k], term) then Ok(true) else Err(ToStringOfUndefined)
    decreases n
  {
    if n > 0 {
      SomeHitBeforeUndefined(values[1..], n - 1, term);
      if exists k :: 0 <= k < n - 1 && Hit(values[1..][k], term) {
        var k :| 0 <= k < n - 1 && Hit(values[1..][k], term);
        assert Hit(values[k + 1], term);
      }
      if exists k :: 0 <= k < n && Hit(values[k], term) {
        var k :| 0 <= k < n && Hit(values[k], term);
        if k > 0 {
          assert Hit(values[1..][k - 1], term);
        }
      }
    }
  }

  /** The search keeps every record when every record's scan answers `true`. */
  lemma {:induction false} AllHitsKeepAll(items: seq<Item>, term: string)
    requires forall i :: 0 <= i < |items| ==> SomeHit(ItemValues(items[i]), term) == Ok(true)
    ensures FilterLogs(items, term) == Ok(items)
    decreases |items|
  {
    if items != [] {
      forall i | 0 <= i < |items| - 1 ensures SomeHit(ItemValues(items[1..][i]), term) == Ok(true) {
        assert items[1..][i] == items[i + 1];
      }
      AllHitsKeepAll(items[1..], term);
      assert [items[0]] + items[1..] == items;
    }
  }

  /**
   * Records read from lines of at most ten fields lack at least `nat_port`:
   * searching them either keeps every record (each contains the term in
   * one of its fields) or throws.
   */
  lemma SearchOfShortRecords(parts: seq<seq<string>>, term: string)
    requires forall i :: 0 <= i < |parts| ==> |parts[i]| <= 10
    ensures var items := seq(|parts|, i requires 0 <= i < |parts| => ItemFromParts(parts[i]));
            && (FilterLogs(items, term).Ok? <==> forall i :: 0 <= i < |parts| ==> FoundIn(parts[i], term))
            && (FilterLogs(items, term).Ok? ==> FilterLogs(items, term).value == items)
  {
    var items := seq(|parts|, i requires 0 <= i < |parts| => ItemFromParts(parts[i]));
    forall i | 0 <= i < |parts|
      ensures SomeHit(ItemValues(items[i]), term) == if FoundIn(parts[i], term) then Ok(true) else Err(ToStringOfUndefined)
    {
      ShortRecordScan(parts[i], term);
    }
    FilterLogsOkIff(items, term);
    if FilterLogs(items, term).Ok? {
      forall i | 0 <= i < |parts| ensures FoundIn(parts[i], term) {
        assert SomeHit(ItemValues(items[i]), term).Ok?;
      }
      AllHitsKeepAll(items, term);
    } else {
      var i :| 0 <= i < |items| && !SomeHit(ItemValues(items[i]), term).Ok?;
      assert !FoundIn(parts[i], term);
    }
  }

  /**
   * On records loaded from readable stored lines the search is all or
   * nothing: it succeeds exactly when every record holds the term in one of
   * the eight values its line was written with, and then keeps them all.
   */
  lemma SearchOfStoredRecords(events: seq<ConnectionEvent>, term: string)
    requires forall i :: 0 <= i < |events| ==> ReadableLine(events[i])
    ensures var items := seq(|events|, i requires 0 <= i < |events| => ItemFromParts(CsvFields(StoredText(events[i]))));
            && (FilterLogs(items, term).Ok? <==> forall i :: 0 <= i < |events| ==> FoundIn(StoredValues(events[i]), term))
            && (FilterLogs(items, term).Ok? ==> FilterLogs(items, term).value == items)
  {
    var parts := seq(|events|, i requires 0 <= i < |events| => CsvFields(StoredText(events[i])));
    forall i | 0 <= i < |parts| ensures parts[i] == StoredValues(events[i]) {
      StoredFields(events[i]);
    }
    SearchOfShortRecords(parts, term);
    assert seq(|parts|, i requires 0 <= i < |parts| => ItemFromParts(parts[i]))
        == seq(|events|, i requires 0 <= i < |events| => ItemFromParts(CsvFields(StoredText(events[i]))));
  }

  /** Some field of the line, lower-cased, contains the term. */
  predicate FoundIn(p: seq<string>, term: string)
  {
    exists k :: 0 <= k < |p| && Contains(ToLower(p[k]), term)
  }

  /** The scan of one record read from a line of at most ten fields. */
  lemma ShortRecordScan(p: seq<string>, term: string)
    requires |p| <= 10
    ensures SomeHit(ItemValues(ItemFromParts(p)), term) == if FoundIn(p, term) then Ok(true) else Err(ToStringOfUndefined)
  {
    RecordValues(p);
    ScanOfParts(ItemValues(ItemFromParts(p)), p, term);
  }

  /** The values of a record read from parts are the parts by position, `undefined` past the end. */
  lemma RecordValues(p: seq<string>)
    ensures var values := ItemValues(ItemFromParts(p));
            forall k :: 0 <= k < 11 ==> values[k] == Element(p, k)
  {
  }

  /** Scanning eleven values read by position from at most ten parts. */
  lemma ScanOfParts(values: seq<JsValue>, p: seq<string>, term: string)
    requires |p| <= 10 && |values| == 11
    requires forall k :: 0 <= k < 11 ==> values[k] == Element(p, k)
    ensures SomeHit(values, term) == if FoundIn(p, term) then Ok(true) else Err(ToStringOfUndefined)
  {
    var n := |p|;
    assert values[n] == Element(p, n);
    SomeHitBeforeUndefined(values, n, term);
    if FoundIn(p, term) {
      var k :| 0 <= k < n && Contains(ToLower(p[k]), term);
      assert values[k] == Element(p, k);
      assert Hit(values[k], term);
    }
    if exists k :: 0 <= k < n && Hit(values[k], term) {
      var k :| 0 <= k < n && Hit(values[k], term);
      assert values[k] == Element(p, k);
      assert Contains(ToLower(p[k]), term);
    }
  }

  // ---------------------------------------------------------------------
  // Pages
  // ---------------------------------------------------------------------

  /** `Math.ceil(count / perPage)`. */
  function TotalPages(count: nat, perPage: nat): (pages: nat)
    requires perPage > 0
    ensures pages * perPage >= count
    ensures pages == 0 || (pages - 1) * perPage < count
  {
    (count + perPage - 1) / perPage
  }

  /** `array.slice(start, end)`: negative positions count from the end, and both are clamped to the array. */
  function Slice<T>(xs: seq<T>, start: int, end: int): seq<T>
  {
    var a := if start < 0 then Max(|xs| + start, 0) else Min(start, |xs|);
    var b := if end < 0 then Max(|xs| + end, 0) else Min(end, |xs|);
    if a < b then xs[a..b] else []
  }

  /** The records `renderTable` shows on page `page`. */
  function PageSlice<T>(xs: seq<T>, page: int, perPage: nat): seq<T>
  {
    Slice(xs, (page - 1) * perPage, (page - 1) * perPage + perPage)
  }

  /** The record at position `i` is shown on page `i / perPage + 1`, at row `i % perPage`. */
  lemma PageOfRecord<T>(xs: seq<T>, perPage: nat, i: nat)
    requires perPage > 0 && i < |xs|
    ensures var page := PageSlice(xs, i / perPage + 1, perPage);
            i % perPage < |page| && page[i % perPage] == xs[i]
  {
    var start := (i / perPage + 1 - 1) * perPage;
    PageStart(i, perPage);
    SliceWithin(xs, start, start + perPage);
  }

  /** Page `k` starts `perPage` records after page `k - 1`. */
  lemma MultipleStep(k: int, perPage: nat)
    requires k >= 1
    ensures (k - 1) * perPage >= 0 && (k - 1) * perPage + perPage == k * perPage
  {
  }

  /** Record `i` lies on the page that starts at the multiple of `perPage` just below it. */
  lemma PageStart(i: nat, perPage: nat)
    requires perPage > 0
    ensures var start := (i / perPage + 1 - 1) * perPage;
            0 <= start <= i < start + perPage && start + i % perPage == i
  {
  }

  /** Between two positions that are not negative, `slice` is the clamped subsequence. */
  lemma SliceWithin<T>(xs: seq<T>, a: int, b: int)
    requires 0 <= a <= b
    ensures Slice(xs, a, b) == xs[Min(a, |xs|)..Min(b, |xs|)]
  {
  }

  /** The pages `1 .. k`, one after the other. */
  function Pages<T>(xs: seq<T>, perPage: nat, k: nat): seq<T>
  {
    if k == 0 then [] else Pages(xs, perPage, k - 1) + PageSlice(xs, k, perPage)
  }

  /** The first `k` pages hold the first `k * perPage` records. */
  lemma {:induction false} PagesPrefix<T>(xs: seq<T>, perPage: nat, k: nat)
    requires perPage > 0
    ensures Pages(xs, perPage, k) == xs[..Min(k * perPage, |xs|)]
  {
    if k > 0 {
      PagesPrefix(xs, perPage, k - 1);
      var start := (k - 1) * perPage;
      MultipleStep(k, perPage);
      var a, b := Min(start, |xs|), Min(start + perPage, |xs|);
      SliceWithin(xs, start, start + perPage);
      assert xs[..a] + xs[a..b] == xs[..b];
    }
  }

  /** Page after page, the table shows every record exactly once and in order. */
  lemma PagesCoverAll<T>(xs: seq<T>, perPage: nat)
    requires perPage > 0
    ensures Pages(xs, perPage, TotalPages(|xs|, perPage)) == xs
  {
    PagesPrefix(xs, perPage, TotalPages(|xs|, perPage));
    assert xs[..|xs|] == xs;
  }

  /** `startRange`, `endRange` and `totalItems` as `updateRangeInfo` shows them. */
  datatype RangeInfo = RangeInfo(first: int, last: int, total: nat)

  function Range(page: int, perPage: nat, total: nat): RangeInfo
  {
    RangeInfo((page - 1) * perPage + 1, Min(page * perPage, total), total)
  }

  /**
   * On any page that has records the range line describes exactly the
   * records shown: positions `first .. last`, counted from one.
   */
  lemma RangeDescribesPage<T>(xs: seq<T>, page: int, perPage: nat)
    requires perPage > 0 && 1 <= page <= TotalPages(|xs|, perPage)
    ensures var r, shown := Range(page, perPage, |xs|), PageSlice(xs, page, perPage);
            && 1 <= r.first <= r.last <= r.total
            && |shown| == r.last - r.first + 1
            && forall k :: 0 <= k < |shown| ==> shown[k] == xs[r.first - 1 + k]
  {
    assert (page - 1) * perPage + perPage == page * perPage;
    assert (page - 1) * perPage < |xs|;
  }

  // ---------------------------------------------------------------------
  // The pagination bar
  // ---------------------------------------------------------------------

  /** `createPageButton(page, active)` or `createEllipsis()`. */
  datatype Control = PageButton(page: int, active: bool) | Ellipsis

  /** The buttons for pages `from .. to`, the one for `current` active. */
  function Buttons(from: int, to: int, current: int): (bs: seq<Control>)
    ensures |bs| == Max(0, to - from + 1)
    ensures forall k :: 0 <= k < |bs| ==> bs[k] == PageButton(from + k, from + k == current)
    decreases Max(0, to - from + 1)
  {
    if from > to then [] else Buttons(from, to - 1, current) + [PageButton(to, to == current)]
  }

  /** The first page of the middle window of a long bar. */
  function WindowStart(current: int, total: int): int
  {
    if current >= total - 2 then total - 3 else Max(2, current - 1)
  }

  /** The last page of the middle window of a long bar. */
  function WindowEnd(current: int, total: int): int
  {
    if current <= 3 then 4 else Min(total - 1, current + 1)
  }

  /** The bar `updatePagination` draws for page `current` of `total`. */
  function Layout(current: int, total: int): seq<Control>
  {
    if total <= 5 then Buttons(1, total, current)
    else
      [PageButton(1, current == 1)]
      + (if current > 3 then [Ellipsis] else [])
      + Buttons(WindowStart(current, total), WindowEnd(current, total), current)
      + (if current < total - 2 then [Ellipsis] else [])
      + [PageButton(total, current == total)]
  }

  /** The `for` loops of `updatePagination`: one button per page `from .. to` added to `bar`. */
  method AddButtons(bar: seq<Control>, from: int, to: int, current: int) returns (bar': seq<Control>)
    ensures bar' == bar + Buttons(from, to, current)
  {
    bar' := bar;
    var i := from;
    while i <= to
      invariant from <= i <= Max(from, to + 1)
      invariant bar' == bar + Buttons(from, i - 1, current)
    {
      bar' := bar' + [PageButton(i, i == current)];
      i := i + 1;
    }
  }

  /** What `updatePagination` computes: the bar, and whether Previous and Next are disabled. */
  method UpdatePagination(current: int, total: int) returns (bar: seq<Control>, prevDisabled: bool, nextDisabled: bool)
    ensures bar == Layout(current, total)
    ensures prevDisabled <==> current == 1
    ensures nextDisabled <==> current == total
  {
    bar := [];
    if total <= 5 {
      bar := AddButtons(bar, 1, total, current);
    } else {
      bar := bar + [PageButton(1, current == 1)];
      if current > 3 {
        bar := bar + [Ellipsis];
      }
      ghost var left := bar;
      assert left == [PageButton(1, current == 1)] + (if current > 3 then [Ellipsis] else []);
      var start := Max(2, current - 1);
      var end := Min(total - 1, current + 1);
      if current <= 3 {
        end := 4;
      }
      if current >= total - 2 {
        start := total - 3;
      }
      assert start == WindowStart(current, total) && end == WindowEnd(current, total);
      bar := AddButtons(bar, start, end, current);
      ghost var window := Buttons(start, end, current);
      if current < total - 2 {
        bar := bar + [Ellipsis];
      }
      ghost var right := if current < total - 2 then [Ellipsis] else [];
      assert bar == left + window + right;
      bar := bar + [PageButton(total, current == total)];
    }
    prevDisabled := current == 1;
    nextDisabled := current == total;
  }

  /** Every button of the bar, whatever the current page, names a page that exists, and is active exactly on the current page. */
  lemma ButtonsInRange(current: int, total: int)
    ensures forall k :: 0 <= k < |Layout(current, total)| && Layout(current, total)[k].PageButton? ==>
              1 <= Layout(current, total)[k].page <= total
              && (Layout(current, total)[k].active <==> Layout(current, total)[k].page == current)
  {
  }

  /** With at most five pages the bar is exactly one button per page, in order. */
  lemma FewPages(current: int, total: nat)
    requires total <= 5
    ensures |Layout(current, total)| == total
    ensures forall k :: 0 <= k < total ==> Layout(current, total)[k] == PageButton(k + 1, k + 1 == current)
  {
  }

  /** Page numbers only grow from left to right. */
  predicate Increasing(bar: seq<Control>)
  {
    forall i, j :: 0 <= i < j < |bar| && bar[i].PageButton? && bar[j].PageButton? ==> bar[i].page < bar[j].page
  }

  /**
   * With more than five pages and a current page that exists, the bar starts
   * with page 1 and ends with the last page, the window between them stays
   * within `2 .. total - 1`, the current page is shown and active, and page
   * numbers only grow from left to right.
   */
  lemma ManyPages(current: int, total: int)
    requires 5 < total && 1 <= current <= total
    ensures var bar := Layout(current, total);
            && bar[0] == PageButton(1, current == 1)
            && bar[|bar| - 1] == PageButton(total, current == total)
            && (forall k :: 0 < k < |bar| - 1 && bar[k].PageButton? ==> 2 <= bar[k].page <= total - 1)
            && PageButton(current, true) in bar
            && Increasing(bar)
  {
    LongBarShape(current, total);
    LongBarIncreasing(current, total);
  }

  /** The window of a long bar lies within `2 .. total - 1` and holds the current page unless that is the first or the last. */
  lemma WindowBounds(current: int, total: int)
    requires 5 < total && 1 <= current <= total
    ensures 2 <= WindowStart(current, total) <= WindowEnd(current, total) <= total - 1
    ensures 2 <= current <= total - 1 ==> WindowStart(current, total) <= current <= WindowEnd(current, total)
  {
  }

  lemma LongBarShape(current: int, total: int)
    requires 5 < total && 1 <= current <= total
    ensures var bar := Layout(current, total);
            && bar[0] == PageButton(1, current == 1)
            && bar[|bar| - 1] == PageButton(total, current == total)
            && (forall k :: 0 < k < |bar| - 1 && bar[k].PageButton? ==> 2 <= bar[k].page <= total - 1)
            && PageButton(current, true) in bar
  {
    var start, end := WindowStart(current, total), WindowEnd(current, total);
    WindowBounds(current, total);
    var left := [PageButton(1, current == 1)] + (if current > 3 then [Ellipsis] else []);
    var window := Buttons(start, end, current);
    var right := (if current < total - 2 then [Ellipsis] else []) + [PageButton(total, current == total)];
    var bar := Layout(current, total);
    assert bar == left + window + right;
    forall k | 0 < k < |bar| - 1 && bar[k].PageButton? ensures 2 <= bar[k].page <= total - 1 {
      assert |left| <= k < |left| + |window|;
      assert bar[k] == window[k - |left|];
    }
    if current == 1 {
      assert bar[0] == PageButton(current, true);
    } else if current == total {
      assert bar[|bar| - 1] == PageButton(current, true);
    } else {
      assert bar[|left| + current - start] == window[current - start] == PageButton(current, true);
    }
  }

  lemma LongBarIncreasing(current: int, total: int)
    requires 5 < total && 1 <= current <= total
    ensures Increasing(Layout(current, total))
  {
    var start, end := WindowStart(current, total), WindowEnd(current, total);
    WindowBounds(current, total);
    var left := [PageButton(1, current == 1)] + (if current > 3 then [Ellipsis] else []);
    var window := Buttons(start, end, current);
    var right := (if current < total - 2 then [Ellipsis] else []) + [PageButton(total, current == total)];
    assert Layout(current, total) == left + window + right;
    ThreePartsIncreasing(left, window, right, start, end);
  }

  /** Buttons before a window of growing pages and buttons after it, each side in order, give a bar in order. */
  lemma ThreePartsIncreasing(left: seq<Control>, window: seq<Control>, right: seq<Control>, lo: int, hi: int)
    requires lo <= hi
    requires Increasing(left) && Increasing(window) && Increasing(right)
    requires forall k :: 0 <= k < |left| && left[k].PageButton? ==> left[k].page < lo
    requires forall k :: 0 <= k < |window| && window[k].PageButton? ==> lo <= window[k].page <= hi
    requires forall k :: 0 <= k < |right| && right[k].PageButton? ==> hi < right[k].page
    ensures Increasing(left + window + right)
  {
    var bar := left + window + right;
    forall i, j | 0 <= i < j < |bar| && bar[i].PageButton? && bar[j].PageButton?
      ensures bar[i].page < bar[j].page
    {
      var n, m := |left|, |left| + |window|;
      if j < n {
        assert bar[i] == left[i] && bar[j] == left[j];
      } else if i >= m {
        assert bar[i] == right[i - m] && bar[j] == right[j - m];
      } else if i >= n && j < m {
        assert bar[i] == window[i - n] && bar[j] == window[j - n];
      } else if i < n {
        assert bar[i] == left[i];
        assert j < m ==> bar[j] == window[j - n];
        assert j >= m ==> bar[j] == right[j - m];
      } else {
        assert bar[i] == window[i - n] && bar[j] == right[j - m];
      }
    }
  }

  // ---------------------------------------------------------------------
  // The page's state
  // ---------------------------------------------------------------------

  /** The records of fetched log entries: each entry's content parsed as a CSV line, fields by position. */
  function Records(contents: seq<string>): (items: seq<Item>)
    ensures |items| == |contents|
    ensures forall i :: 0 <= i < |contents| ==> items[i] == ItemFromParts(CsvFields(contents[i]))
  {
    seq(|contents|, i requires 0 <= i < |contents| => ItemFromParts(CsvFields(contents[i])))
  }

  class LogView {
    var currentPage: int
    var itemsPerPage: nat
    var allLogs: seq<Item>
    var filteredLogs: seq<Item>

    /** The current page is always one the bar could show (page 1 while there are no records). */
    predicate Valid()
      reads this
    {
      itemsPerPage > 0 && 1 <= currentPage <= Max(1, TotalPages(|filteredLogs|, itemsPerPage))
    }

    function PageCount(): nat
      reads this
      requires itemsPerPage > 0
    {
      TotalPages(|filteredLogs|, itemsPerPage)
    }

    /** The module-level `let`s as the page loads. */
    constructor()
      ensures Valid()
      ensures currentPage == 1 && itemsPerPage == 25 && allLogs == [] && filteredLogs == []
    {
      currentPage := 1;
      itemsPerPage := 25;
      allLogs := [];
      filteredLogs := [];
    }

    /** `resetServerSearch`: the records are dropped and the first page shown. */
    method Reset()
      requires Valid()
      modifies this
      ensures Valid()
      ensures allLogs == [] && filteredLogs == [] && currentPage == 1 && itemsPerPage == old(itemsPerPage)
    {
      allLogs := [];
      filteredLogs := [];
      currentPage := 1;
    }

    /** `loadRouterLogs` and `performServerSearch` once the entries arrive: parse, show all, go to page 1. */
    method LoadLogs(contents: seq<string>)
      requires Valid()
      modifies this
      ensures Valid()
      ensures allLogs == Records(contents) && filteredLogs == allLogs && currentPage == 1
      ensures itemsPerPage == old(itemsPerPage)
    {
      allLogs := Records(contents);
      filteredLogs := allLogs;
      currentPage := 1;
    }

    /** `goToPage(page)`, reached only through a button of the bar. */
    method GoToPage(page: int)
      requires Valid()
      requires exists k :: 0 <= k < |Layout(currentPage, PageCount())| && Layout(currentPage, PageCount())[k].PageButton?
                             && Layout(currentPage, PageCount())[k].page == page
      modifies this
      ensures Valid()
      ensures currentPage == page
      ensures allLogs == old(allLogs) && filteredLogs == old(filteredLogs) && itemsPerPage == old(itemsPerPage)
    {
      ButtonsInRange(currentPage, PageCount());
      currentPage := page;
    }

    /** The Previous button: one page back unless on page 1. */
    method PrevPage()
      requires Valid()
      modifies this
      ensures Valid()
      ensures currentPage == if old(currentPage) > 1 then old(currentPage) - 1 else old(currentPage)
      ensures allLogs == old(allLogs) && filteredLogs == old(filteredLogs) && itemsPerPage == old(itemsPerPage)
    {
      if currentPage > 1 {
        currentPage := currentPage - 1;
      }
    }

    /** The Next button: one page on unless on the last page. */
    method NextPage()
      requires Valid()
      modifies this
      ensures Valid()
      ensures currentPage == if old(currentPage) < old(PageCount()) then old(currentPage) + 1 else old(currentPage)
      ensures allLogs == old(allLogs) && filteredLogs == old(filteredLogs) && itemsPerPage == old(itemsPerPage)
    {
      var total := TotalPages(|filteredLogs|, itemsPerPage);
      if currentPage < total {
        currentPage := currentPage + 1;
      }
    }

    /** The per-page selector: a new page size, back to page 1. */
    method SetPerPage(perPage: nat)
      requires Valid() && perPage > 0
      modifies this
      ensures Valid()
      ensures itemsPerPage == perPage && currentPage == 1
      ensures allLogs == old(allLogs) && filteredLogs == old(filteredLogs)
    {
      itemsPerPage := perPage;
      currentPage := 1;
    }

    /**
     * The search box: the records of `allLogs` matching the lower-cased
     * input become `filteredLogs` and page 1 is shown; when a record throws,
     * the handler stops before any assignment.
     */
    method Search(input: string) returns (error: Option<string>)
      requires Valid()
      modifies this
      ensures Valid()
      ensures var r := FilterLogs(old(allLogs), ToLower(input));
              && (error.Some? <==> r.Err?)
              && (r.Err? ==> error.value == r.message && filteredLogs == old(filteredLogs) && currentPage == old(currentPage))
              && (r.Ok? ==> filteredLogs == r.value && currentPage == 1)
      ensures allLogs == old(allLogs) && itemsPerPage == old(itemsPerPage)
    {
      var term := ToLower(input);
      var r := FilterLogs(allLogs, term);
      if r.Err? {
        error := Some(r.message);
      } else {
        filteredLogs := r.value;
        currentPage := 1;
        error := None;
      }
    }

    /**
     * `renderTable`: `filteredLogs` is sorted in place (the order the
     * engine's sort produces is the parameter `sorted`), then the current
     * page's records, the bar and the range line are drawn.
     */
    method Render(sorted: seq<Item>) returns (shown: seq<Item>, bar: seq<Control>, prevDisabled: bool, nextDisabled: bool, range: RangeInfo)
      requires Valid() && multiset(sorted) == multiset(filteredLogs)
      modifies this
      ensures Valid()
      ensures filteredLogs == sorted
      ensures shown == PageSlice(sorted, currentPage, itemsPerPage)
      ensures bar == Layout(currentPage, PageCount())
      ensures (prevDisabled <==> currentPage == 1) && (nextDisabled <==> currentPage == PageCount())
      ensures range == Range(currentPage, itemsPerPage, |sorted|)
      ensures allLogs == old(allLogs) && currentPage == old(currentPage) && itemsPerPage == old(itemsPerPage)
    {
      assert |sorted| == |multiset(sorted)| == |filteredLogs|;
      filteredLogs := sorted;
      var startIndex := (currentPage - 1) * itemsPerPage;
      var endIndex := startIndex + itemsPerPage;
      shown := Slice(filteredLogs, startIndex, endIndex);
      bar, prevDisabled, nextDisabled := UpdatePagination(currentPage, TotalPages(|filteredLogs|, itemsPerPage));
      range := RangeInfo((currentPage - 1) * itemsPerPage + 1, Min(currentPage * itemsPerPage, |filteredLogs|), |filteredLogs|);
    }
  }
}
