/**
 * The view state of the students page (the record list, the search term, the
 * sort configuration and the current page) and the handlers that change it.
 * React's effect that returns to page 1 after the search term or the sort
 * configuration changes is folded into the handlers that change them.
 */
module ListingPage {
  import opened Records
  import opened Listing

  class StudentsPage {
    var students: seq<Student>
    var searchTerm: string
    var sortConfig: SortConfig
    var currentPage: int

    /** The current page is a page number: no handler takes it below 1. */
    ghost predicate Valid()
      reads this
    {
      currentPage >= 1
    }

    /** The current page lies in [1, totalPages], or is 1 when there are no pages. */
    ghost predicate OnExistingPage()
      reads this
    {
      1 <= currentPage <= Max(1, TotalPages())
    }

    function Filtered(): seq<Student>
      reads this
    {
      FilteredStudents(sortConfig, students, searchTerm)
    }

    function TotalPages(): nat
      reads this
    {
      Listing.TotalPages(|Filtered()|)
    }

    function Displayed(): seq<Student>
      reads this
    {
      DisplayedStudents(Filtered(), currentPage)
    }

    function PageButtons(): seq<int>
      reads this
    {
      PageWindow(currentPage, TotalPages())
    }

    /** The page as first rendered: no records yet, no search, marks descending, page 1. */
    constructor ()
      ensures Valid() && OnExistingPage()
      ensures students == [] && searchTerm == "" && sortConfig == InitialSortConfig && currentPage == 1
    {
      students := [];
      searchTerm := "";
      sortConfig := InitialSortConfig;
      currentPage := 1;
    }

    /** The list endpoint answered: the records are replaced; the view settings stay. */
    method Load(fetched: seq<Student>)
      requires Valid()
      modifies this
      ensures Valid()
      ensures students == fetched
      ensures searchTerm == old(searchTerm) && sortConfig == old(sortConfig) && currentPage == old(currentPage)
    {
      students := fetched;
    }

    /**
     * A click on the header of key: the configuration toggles and the listing
     * returns to page 1. Only the order changes, not which records are listed.
     */
    method HandleSort(key: SortKey)
      requires Valid()
      modifies this
      ensures Valid() && OnExistingPage()
      ensures sortConfig == NextSortConfig(old(sortConfig), key) && currentPage == 1
      ensures students == old(students) && searchTerm == old(searchTerm)
      ensures multiset(Filtered()) == multiset(old(Filtered()))
    {
      ghost var oldConfig, term := sortConfig, searchTerm;
      sortConfig := NextSortConfig(sortConfig, key);
      currentPage := 1;
      SortIsPermutation(oldConfig, students);
      SortIsPermutation(sortConfig, students);
      FilterPermutation(SortStudents(oldConfig, students), SortStudents(sortConfig, students),
        (st: Student) => Matches(st, term));
    }

    /** Typing in the search box: a different term returns the listing to page 1. */
    method SetSearchTerm(term: string)
      requires Valid()
      modifies this
      ensures Valid()
      ensures searchTerm == term
      ensures currentPage == if term == old(searchTerm) then old(currentPage) else 1
      ensures term != old(searchTerm) ==> OnExistingPage()
      ensures students == old(students) && sortConfig == old(sortConfig)
    {
      if term != searchTerm {
        searchTerm := term;
        currentPage := 1;
      }
    }

    /** The "previous" button, which is shown only while there is at least one page. */
    method GoToPrevious()
      requires Valid()
      modifies this
      ensures Valid()
      ensures currentPage == if TotalPages() > 0 then PreviousPage(old(currentPage)) else old(currentPage)
      ensures old(OnExistingPage()) ==> OnExistingPage()
      ensures students == old(students) && searchTerm == old(searchTerm) && sortConfig == old(sortConfig)
    {
      if TotalPages() > 0 {
        currentPage := PreviousPage(currentPage);
      }
    }

    /** The "next" button, which is shown only while there is at least one page. */
    method GoToNext()
      requires Valid()
      modifies this
      ensures Valid()
      ensures currentPage == if TotalPages() > 0 then NextPage(old(currentPage), TotalPages()) else old(currentPage)
      ensures old(OnExistingPage()) ==> OnExistingPage()
      ensures students == old(students) && searchTerm == old(searchTerm) && sortConfig == old(sortConfig)
    {
      if TotalPages() > 0 {
        currentPage := NextPage(currentPage, TotalPages());
      }
    }

    /** A page-number button; only the numbers of the window are offered. */
    method GoToPage(pageNum: int)
      requires Valid()
      requires pageNum in PageButtons()
      modifies this
      ensures Valid() && OnExistingPage()
      ensures currentPage == pageNum
      ensures students == old(students) && searchTerm == old(searchTerm) && sortConfig == old(sortConfig)
    {
      currentPage := pageNum;
    }
  }
}
