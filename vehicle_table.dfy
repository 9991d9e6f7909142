/** The listing computations of the vehicle table (frontend
    src/components/VehicleTable.jsx): the case-insensitive plate search, the
    page count, the page window and the page moves. Rendering is not modelled. */
module VehicleTable {
  import opened Text
  import opened Vehicles

  /** The page sizes the table offers; the first one is the initial size. */
  const PerPageChoices: seq<nat> := [5, 10, 20]

  function Min(a: int, b: int): int {
    if a <= b then a else b
  }

  // ---- Search ----

  /** `v.plate.toLowerCase().includes(search.toLowerCase())`. */
  predicate Matches(v: Vehicle, search: string) {
    Contains(Lower(v.plate), Lower(search))
  }

  /** The `filtered` memo: the vehicles whose plate matches, in list order. */
  function Filtered(vs: seq<Vehicle>, search: string): (r: seq<Vehicle>)
    ensures |r| <= |vs|
    ensures forall v | v in r :: v in vs && Matches(v, search)
    ensures forall v | v in vs && Matches(v, search) :: v in r
  {
    if vs == [] then []
    else
      var last := vs[|vs| - 1];
      Filtered(vs[..|vs| - 1], search) + (if Matches(last, search) then [last] else [])
  }

  /** Filtering works piece by piece, so it keeps the list's order. */
  lemma {:induction false} FilteredConcat(a: seq<Vehicle>, b: seq<Vehicle>, search: string)
    ensures Filtered(a + b, search) == Filtered(a, search) + Filtered(b, search)
    decreases |b|
  {
    if b == [] {
      assert a + b == a;
    } else {
      var b' := b[..|b| - 1];
      var last := b[|b| - 1];
      assert (a + b)[..|a + b| - 1] == a + b';
      assert (a + b)[|a + b| - 1] == last;
      FilteredConcat(a, b', search);
    }
  }

  /** When every vehicle matches, nothing is dropped. */
  lemma {:induction false} FilteredAllMatch(vs: seq<Vehicle>, search: string)
    requires forall k | 0 <= k < |vs| :: Matches(vs[k], search)
    ensures Filtered(vs, search) == vs
  {
    if vs != [] {
      FilteredAllMatch(vs[..|vs| - 1], search);
      assert vs[..|vs| - 1] + [vs[|vs| - 1]] == vs;
    }
  }

  /** An empty search box shows every vehicle. */
  lemma FilteredEmptySearch(vs: seq<Vehicle>)
    ensures Filtered(vs, "") == vs
  {
    forall k | 0 <= k < |vs|
      ensures Matches(vs[k], "")
    {
      assert Lower("") == "";
      ContainsEmpty(Lower(vs[k].plate));
    }
    FilteredAllMatch(vs, "");
  }

  // ---- Pages ----

  /** `Math.ceil(count / perPage)`: the fewest pages of `perPage` rows that
      hold `count` rows. */
  function TotalPages(count: nat, perPage: nat): (t: nat)
    requires perPage > 0
    ensures t * perPage >= count
    ensures t > 0 ==> (t - 1) * perPage < count
    ensures t == 0 <==> count == 0
  {
    var t := (count + perPage - 1) / perPage;
    var rem := (count + perPage - 1) % perPage;
    assert t * perPage + rem == count + perPage - 1;
    assert (t - 1) * perPage == t * perPage - perPage;
    t
  }

  /** Where a `slice` argument lands: a negative one counts from the end;
      the result is clamped to the list. */
  function SliceIndex(i: int, length: nat): (r: nat)
    ensures r <= length
    ensures 0 <= i <= length ==> r == i
  {
    if i < 0 then (if length + i < 0 then 0 else length + i)
    else if i > length then length
    else i
  }

  /** `s.slice(start, end)`. */
  function Slice<T>(s: seq<T>, start: int, end: int): (r: seq<T>)
    ensures |r| <= |s|
    ensures 0 <= start <= end <= |s| ==> r == s[start..end]
    ensures 0 <= end <= start ==> r == []
    ensures start <= end ==> |r| <= end - start
  {
    var from, to := SliceIndex(start, |s|), SliceIndex(end, |s|);
    if from < to then s[from..to] else []
  }

  /** Page `page` begins where page `page - 1` ends. */
  lemma PageStep(page: int, perPage: nat)
    ensures page * perPage == (page - 1) * perPage + perPage
    ensures 1 <= page ==> 0 <= (page - 1) * perPage
  {
  }

  /** `currentData`: the rows shown on page `page` (counted from 1). */
  function CurrentData<T>(filtered: seq<T>, page: int, perPage: nat): (r: seq<T>)
    requires perPage > 0
    ensures |r| <= perPage
  {
    PageStep(page, perPage);
    Slice(filtered, (page - 1) * perPage, page * perPage)
  }

  /** Page `page` shows rows `(page - 1) * perPage` up to `page * perPage`,
      cut short at the end of the list. */
  lemma CurrentDataWindow<T>(filtered: seq<T>, page: int, perPage: nat)
    requires perPage > 0 && 1 <= page
    ensures 0 <= (page - 1) * perPage
    ensures CurrentData(filtered, page, perPage)
      == filtered[Min((page - 1) * perPage, |filtered|)..Min(page * perPage, |filtered|)]
  {
    PageStep(page, perPage);
  }

  /** The rows of pages 1 to `k`, one page after another. */
  function Pages<T>(filtered: seq<T>, perPage: nat, k: nat): seq<T>
    requires perPage > 0
  {
    if k == 0 then [] else Pages(filtered, perPage, k - 1) + CurrentData(filtered, k, perPage)
  }

  lemma {:induction false} PagesPrefix<T>(filtered: seq<T>, perPage: nat, k: nat)
    requires perPage > 0
    ensures Pages(filtered, perPage, k) == filtered[..Min(k * perPage, |filtered|)]
  {
    if k > 0 {
      PagesPrefix(filtered, perPage, k - 1);
      PageStep(k, perPage);
      var before := (k - 1) * perPage;
      var a := Min(before, |filtered|);
      var b := Min(before + perPage, |filtered|);
      CurrentDataWindow(filtered, k, perPage);
      assert filtered[..a] + filtered[a..b] == filtered[..b];
    }
  }

  /** The pages 1 to `totalPages`, laid end to end, are exactly the filtered
      list: every row is on one page and no page repeats or skips a row. */
  lemma PagesCover<T>(filtered: seq<T>, perPage: nat)
    requires perPage > 0
    ensures Pages(filtered, perPage, TotalPages(|filtered|, perPage)) == filtered
  {
    PagesPrefix(filtered, perPage, TotalPages(|filtered|, perPage));
  }

  /** The "←" button: `Math.max(p - 1, 1)`. */
  function PrevPage(page: int): (r: int)
    ensures r >= 1
    ensures page > 1 ==> r == page - 1
    ensures page <= 1 ==> r == 1
  {
    if page - 1 > 1 then page - 1 else 1
  }

  /** The "→" button: `Math.min(p + 1, totalPages)`. */
  function NextPage(page: int, totalPages: nat): (r: int)
    ensures r <= totalPages
    ensures page < totalPages ==> r == page + 1
    ensures page >= totalPages ==> r == totalPages
  {
    if page + 1 < totalPages then page + 1 else totalPages
  }

  /** From a page that exists, both buttons lead to a page that exists. */
  lemma PageMovesStayInRange(page: int, totalPages: nat)
    requires 1 <= page <= totalPages
    ensures 1 <= PrevPage(page) <= totalPages
    ensures 1 <= NextPage(page, totalPages) <= totalPages
  {
  }

  // ---- The table's view state ----

  datatype TableView = TableView(search: string, page: int, perPage: nat)

  /** The table as first shown: no search, page 1, five per page. */
  const InitialView: TableView := TableView("", 1, PerPageChoices[0])

  /** Typing in the search box: the text becomes the search and the page goes
      back to 1. */
  function OnSearchInput(view: TableView, text: string): (r: TableView)
    ensures r.search == text && r.page == 1 && r.perPage == view.perPage
  {
    view.(search := text, page := 1)
  }

  /** Choosing a page size keeps the current page. */
  function OnPerPageInput(view: TableView, perPage: nat): (r: TableView)
    ensures r.perPage == perPage && r.page == view.page && r.search == view.search
  {
    view.(perPage := perPage)
  }

  /** The rows the table shows in a view. */
  function Shown(vs: seq<Vehicle>, view: TableView): seq<Vehicle>
    requires view.perPage > 0
  {
    CurrentData(Filtered(vs, view.search), view.page, view.perPage)
  }

  /** After typing, the table shows the first matches, at most a page of them. */
  lemma SearchShowsFirstMatches(vs: seq<Vehicle>, view: TableView, text: string)
    requires view.perPage > 0
    ensures var f := Filtered(vs, text);
            Shown(vs, OnSearchInput(view, text)) == f[..Min(view.perPage, |f|)]
  {
  }

  /** Initially every vehicle is listed, the first five shown. */
  lemma InitialViewShowsFirstFive(vs: seq<Vehicle>)
    ensures Shown(vs, InitialView) == vs[..Min(5, |vs|)]
  {
    FilteredEmptySearch(vs);
  }
}
