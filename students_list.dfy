/**
 * The students list panel: the list of every student from `get_all_students`,
 * a search box that narrows it, and a pager that shows ten students at a time
 * with "previous" and "next" buttons and a "Página p de t" label.
 *
 * The panel is an object whose handlers update its fields in place, so it is a
 * class here. The widgets it drives become fields: `shown` is what the tree
 * view lists, `pageLabel` the pager's label, `prevEnabled` and `nextEnabled`
 * the buttons' states.
 */
module StudentsList {
  import opened Text
  import opened Table
  import opened StudentController

  /** `self.page_size`: students per page. */
  const PageSize: nat := 10

  // ---------------------------------------------------------------- page arithmetic

  /** `(n + size - 1) // size`: the page count without the "at least one page" fix. */
  function RawPages(n: nat, size: nat): nat
    requires size > 0
  {
    (n + size - 1) / size
  }

  /** The page count that `populate_student_list` shows: `RawPages`, but 1 for an empty list. */
  function TotalPages(n: nat, size: nat): (t: nat)
    requires size > 0
    ensures t >= 1
    ensures n == 0 ==> t == 1
    ensures n > 0 ==> (t - 1) * size < n <= t * size
  {
    CeilingPages(n, size);
    var pages := RawPages(n, size);
    if pages == 0 then 1 else pages
  }

  /** `RawPages` is the ceiling of `n / size`: the fewest pages of `size` that hold `n` students. */
  lemma CeilingPages(n: nat, size: nat)
    requires size > 0
    ensures RawPages(n, size) * size >= n
    ensures n > 0 ==> (RawPages(n, size) - 1) * size < n
    ensures n == 0 ==> RawPages(n, size) == 0
  {
    var q, r := (n + size - 1) / size, (n + size - 1) % size;
    assert n + size - 1 == q * size + r;
    assert (q - 1) * size == q * size - size;
  }

  /** `next_page` compares with the raw count; since pages start at 1 that agrees with `TotalPages`. */
  lemma NextGuardAgrees(page: int, n: nat, size: nat)
    requires size > 0 && page >= 1
    ensures page < RawPages(n, size) <==> page < TotalPages(n, size)
  {
  }

  /** `students[(page - 1) * size : page * size]`, with Python's clamping at the end of the list. */
  function PageSlice(s: seq<StudentView>, page: int, size: nat): (r: seq<StudentView>)
    requires page >= 1 && size > 0
    ensures |r| <= size
    ensures forall i :: 0 <= i < |r| ==> (page - 1) * size + i < |s| && r[i] == s[(page - 1) * size + i]
    ensures (page - 1) * size + size <= |s| ==> |r| == size
    ensures (page - 1) * size < |s| ==> |r| == Min((page - 1) * size + size, |s|) - (page - 1) * size
  {
    var start := (page - 1) * size;
    var end := start + size;
    if start >= |s| then [] else s[start .. Min(end, |s|)]
  }

  function Min(a: int, b: int): int {
    if a <= b then a else b
  }

  lemma MulMonotone(a: nat, b: nat, size: nat)
    requires a <= b
    ensures a * size <= b * size
  {
  }

  /** Every page from 1 to the page count has at least one student, when there are any. */
  lemma PagesInRangeNonEmpty(s: seq<StudentView>, page: int, size: nat)
    requires size > 0 && 1 <= page <= TotalPages(|s|, size) && |s| > 0
    ensures PageSlice(s, page, size) != []
  {
    MulMonotone(page - 1, TotalPages(|s|, size) - 1, size);
  }

  /**
   * Every student of the list is on exactly one page: the one numbered
   * `i / size + 1`, at position `i % size`, and that page is within the count.
   */
  lemma StudentOnItsPage(s: seq<StudentView>, i: nat, size: nat)
    requires size > 0 && i < |s|
    ensures 1 <= i / size + 1 <= TotalPages(|s|, size)
    ensures i % size < |PageSlice(s, i / size + 1, size)|
    ensures PageSlice(s, i / size + 1, size)[i % size] == s[i]
  {
    var p, k := i / size, i % size;
    assert i == p * size + k;
    var t := TotalPages(|s|, size);
    if p + 1 > t {
      MulMonotone(t, p, size);
      assert false;
    }
  }

  // ---------------------------------------------------------------- search

  /** The text typed in the search box as `on_search_students` uses it: lower-cased, then stripped. */
  function SearchQuery(raw: string): string {
    Strip(ToLower(raw))
  }

  /** A student matches a query when it occurs in the lower-cased identificacion, nombre or apellido. */
  predicate Matches(v: StudentView, q: string) {
    Contains(ToLower(v.identificacion), q) || Contains(ToLower(v.nombre), q) || Contains(ToLower(v.apellido), q)
  }

  function MatchesQuery(q: string): StudentView -> bool {
    (v: StudentView) => Matches(v, q)
  }

  /** The list `on_search_students` keeps for what was typed: every student for an empty query. */
  function Search(all: seq<StudentView>, raw: string): (r: seq<StudentView>)
    ensures SearchQuery(raw) == "" ==> r == all
    ensures forall i :: 0 <= i < |r| ==> r[i] in all && (SearchQuery(raw) == "" || Matches(r[i], SearchQuery(raw)))
    ensures forall i :: 0 <= i < |all| && (SearchQuery(raw) == "" || Matches(all[i], SearchQuery(raw))) ==> all[i] in r
  {
    var q := SearchQuery(raw);
    if q == "" then all else Filter(all, MatchesQuery(q))
  }

  /** A query that is only blank space shows every student. */
  lemma BlankQueryShowsAll(all: seq<StudentView>, raw: string)
    requires forall i :: 0 <= i < |raw| ==> IsSpace(raw[i])
    ensures Search(all, raw) == all
  {
    StripBlank(ToLower(raw));
  }

  /**
   * A non-empty query keeps the matching students at exactly their positions
   * in the full list, in the same order.
   */
  lemma SearchKeepsOrder(all: seq<StudentView>, raw: string)
    requires SearchQuery(raw) != ""
    ensures |Search(all, raw)| == |Positions(all, MatchesQuery(SearchQuery(raw)), 0)|
    ensures forall k :: 0 <= k < |Search(all, raw)| ==>
      Search(all, raw)[k] == all[Positions(all, MatchesQuery(SearchQuery(raw)), 0)[k]]
  {
    assert all[0..] == all;
    FilterAtPositions(all, MatchesQuery(SearchQuery(raw)), 0);
  }

  lemma StripBlank(s: string)
    requires forall i :: 0 <= i < |s| ==> IsSpace(s[i])
    ensures Strip(s) == ""
  {
    StripIsStripOf(s);
  }

  // ---------------------------------------------------------------- the panel

  class StudentsListFrame {
    /** `self.all_students`: read once, when the panel is built. */
    var allStudents: seq<StudentView>
    /** `self.filtered_students`: what the last search kept. */
    var filteredStudents: seq<StudentView>
    /** `self.current_page`, counted from 1. */
    var currentPage: int
    /** The rows of the tree view. */
    var shown: seq<StudentView>
    var pageLabel: string
    var prevEnabled: bool
    var nextEnabled: bool

    /** The pager shows the current page of the filtered list and the controls agree with it. */
    ghost predicate Displayed()
      reads this
      requires currentPage >= 1
    {
      var total := TotalPages(|filteredStudents|, PageSize);
      shown == PageSlice(filteredStudents, currentPage, PageSize) &&
      pageLabel == PageLabel(currentPage, total) &&
      (prevEnabled <==> currentPage > 1) &&
      (nextEnabled <==> currentPage < total)
    }

    /** The current page is always one the pager counts, and the display is up to date. */
    ghost predicate Valid()
      reads this
    {
      1 <= currentPage <= TotalPages(|filteredStudents|, PageSize) &&
      Displayed()
    }

    /** `__init__` and `create_widgets`: every student, first page. */
    constructor (all: seq<StudentView>)
      ensures Valid()
      ensures allStudents == all && filteredStudents == all && currentPage == 1
    {
      allStudents := all;
      filteredStudents := all;
      currentPage := 1;
      new;
      PopulateStudentList();
    }

    /** `populate_student_list` on the filtered list: refills the tree and the pager controls. */
    method PopulateStudentList()
      requires currentPage >= 1
      modifies this`shown, this`pageLabel, this`prevEnabled, this`nextEnabled
      ensures Displayed()
    {
      var n := |filteredStudents|;
      var totalPages := RawPages(n, PageSize);
      if totalPages == 0 {
        totalPages := 1;
      }
      var page := PageSlice(filteredStudents, currentPage, PageSize);
      shown := [];
      for k := 0 to |page|
        invariant shown == page[..k]
      {
        shown := shown + [page[k]];
      }
      assert page[..|page|] == page;
      UpdatePaginationControls(totalPages);
    }

    /** `update_pagination_controls`. */
    method UpdatePaginationControls(totalPages: nat)
      modifies this`pageLabel, this`prevEnabled, this`nextEnabled
      ensures pageLabel == PageLabel(currentPage, totalPages)
      ensures prevEnabled <==> currentPage > 1
      ensures nextEnabled <==> currentPage < totalPages
    {
      pageLabel := PageLabel(currentPage, totalPages);
      prevEnabled := currentPage > 1;
      nextEnabled := currentPage < totalPages;
    }

    /** `on_search_students`: filter the full list by the query and go back to the first page. */
    method OnSearchStudents(raw: string)
      requires Valid()
      modifies this
      ensures Valid()
      ensures allStudents == old(allStudents)
      ensures filteredStudents == Search(allStudents, raw)
      ensures currentPage == 1
    {
      var query := SearchQuery(raw);
      if query != "" {
        filteredStudents := Filter(allStudents, MatchesQuery(query));
      } else {
        filteredStudents := allStudents;
      }
      currentPage := 1;
      PopulateStudentList();
    }

    /** `next_page`: one page on, unless this is the last page; nothing changes then. */
    method NextPage()
      requires Valid()
      modifies this
      ensures Valid()
      ensures allStudents == old(allStudents) && filteredStudents == old(filteredStudents)
      ensures old(currentPage) < TotalPages(|filteredStudents|, PageSize) ==> currentPage == old(currentPage) + 1
      ensures old(currentPage) >= TotalPages(|filteredStudents|, PageSize) ==> unchanged(this)
    {
      var totalPages := RawPages(|filteredStudents|, PageSize);
      NextGuardAgrees(currentPage, |filteredStudents|, PageSize);
      if currentPage < totalPages {
        currentPage := currentPage + 1;
        PopulateStudentList();
      }
    }

    /** `prev_page`: one page back, unless this is the first page; nothing changes then. */
    method PrevPage()
      requires Valid()
      modifies this
      ensures Valid()
      ensures allStudents == old(allStudents) && filteredStudents == old(filteredStudents)
      ensures old(currentPage) > 1 ==> currentPage == old(currentPage) - 1
      ensures old(currentPage) <= 1 ==> unchanged(this)
    {
      if currentPage > 1 {
        currentPage := currentPage - 1;
        PopulateStudentList();
      }
    }
  }

  /** `f"Página {p} de {total}"`. */
  function PageLabel(page: int, total: int): string {
    "Página " + IntToString(page) + " de " + IntToString(total)
  }
}
