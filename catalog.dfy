/**
 * The page state of scripts.js: the module-level `page` and `matches`,
 * the books appended to the list container, the "no results" message,
 * the "Show more" button, and the detail overlay. Each event handler is a
 * method; rendering is reduced to the sequence of books displayed.
 */
module CatalogPage {
  import opened Wrappers
  import opened Sequences
  import opened Books
  import opened Paging

  class Catalog {
    /** The static book list of data.js. */
    const books: seq<Book>
    /** `config.booksPerPage`. */
    const n: nat

    /** The current match list. */
    var matches: seq<Book>
    /** The number of pages displayed so far. */
    var page: nat
    /** The filters that produced `matches`. */
    ghost var filters: Filters

    /** The books in the list container, in order. */
    var displayed: seq<Book>
    /** Whether the "no results" message is shown. */
    var noResults: bool
    /** The count shown on the "Show more" button. */
    var remaining: nat
    /** Whether the "Show more" button is disabled. */
    var showMoreDisabled: bool

    /** Whether the detail overlay is open. */
    var overlayOpen: bool
    /** The book the detail overlay was last filled with. */
    var active: Option<Book>

    /** Between events: the match list is the result of the last query, the list shows pages 1..page of it, and the button reflects the remaining count. */
    ghost predicate Valid()
      reads this
    {
      n > 0 && page >= 1 &&
      matches == GetBooks(books, filters) &&
      displayed == Shown(matches, page, n) &&
      remaining == Remaining(|matches|, page, n) &&
      showMoreDisabled == ShowMoreDisabled(remaining)
    }

    /** Page load: all books match, page 1, and the first page is displayed. */
    constructor (books: seq<Book>, n: nat)
      requires n > 0
      ensures Valid()
      ensures this.books == books && this.n == n
      ensures matches == books && page == 1 && filters == NoFilters
      ensures displayed == books[..Min(|books|, n)]
      ensures !noResults && !overlayOpen && active == None
    {
      this.books := books;
      this.n := n;
      matches := books;
      page := 1;
      filters := NoFilters;
      displayed := [];
      noResults := false;
      remaining := 0;
      showMoreDisabled := true;
      overlayOpen := false;
      active := None;
      new;
      GetBooksUnconstrained(books, NoFilters);
      DisplayBooks(0, n);
      UpdateRemainingBookCount();
      assert displayed == Shown(matches, 1, n);
      ShownIsPrefix(matches, 1, n);
    }

    /**
     * `displayBooks(matches, start, end)`: appends `matches.slice(start, end)` to the list.
     * An intermediate step of the constructor, `Search` and `ShowMore`; on its own it does not keep `Valid()`.
     */
    method DisplayBooks(start: nat, end: nat)
      modifies this`displayed
      ensures displayed == old(displayed) + Slice(matches, start, end)
    {
      displayed := displayed + Slice(matches, start, end);
    }

    /**
     * `updateRemainingBookCount(matches, page)`: refreshes the button's count and disabled state.
     * An intermediate step of the constructor, `Search` and `ShowMore`, run after `page` and the list change.
     */
    method UpdateRemainingBookCount()
      modifies this`remaining, this`showMoreDisabled
      ensures remaining == Remaining(|matches|, page, n)
      ensures showMoreDisabled == ShowMoreDisabled(remaining)
    {
      remaining := Remaining(|matches|, page, n);
      showMoreDisabled := ShowMoreDisabled(remaining);
    }

    /** Search form submit: run the query, go back to page 1, and redraw the list. */
    method Search(f: Filters)
      requires Valid()
      modifies this`matches, this`filters, this`page, this`displayed, this`noResults,
        this`remaining, this`showMoreDisabled
      ensures Valid()
      ensures matches == GetBooks(books, f) && page == 1
      ensures displayed == matches[..Min(|matches|, n)]
      ensures noResults <==> matches == []
      ensures remaining == |matches| - |displayed|
    {
      matches := GetBooks(books, f);
      filters := f;
      page := 1;
      displayed := [];
      if |matches| < 1 {
        noResults := true;
      } else {
        noResults := false;
        DisplayBooks(0, n);
      }
      UpdateRemainingBookCount();
      assert displayed == Shown(matches, 1, n);
      RemainingIsUnshown(matches, 1, n);
    }

    /** "Show more": append the next page and advance the page counter. */
    method ShowMore()
      requires Valid()
      modifies this`displayed, this`page, this`remaining, this`showMoreDisabled
      ensures Valid()
      ensures page == old(page) + 1
      ensures displayed == old(displayed) + Slice(matches, old(page) * n, (old(page) + 1) * n)
      ensures displayed == matches[..Min(|matches|, page * n)]
      ensures remaining == |matches| - |displayed|
      ensures old(showMoreDisabled) ==> displayed == old(displayed)
    {
      ghost var p := page;
      DisplayBooks(page * n, (page + 1) * n);
      page := page + 1;
      assert (p + 1 - 1) * n == p * n;
      assert PageItems(matches, p + 1, n) == Slice(matches, p * n, (p + 1) * n);
      assert displayed == Shown(matches, p + 1, n);
      UpdateRemainingBookCount();
      RemainingIsUnshown(matches, page, n);
      ShownIsPrefix(matches, page, n);
    }

    /** A preview was clicked: look the id up in the full book list and open the overlay only if it is found. */
    method Select(id: string)
      modifies this`overlayOpen, this`active
      ensures FindById(books, id).Some? ==> overlayOpen && active == FindById(books, id)
      ensures FindById(books, id).None? ==> overlayOpen == old(overlayOpen) && active == old(active)
    {
      var found := FindById(books, id);
      if found.Some? {
        overlayOpen := true;
        active := found;
      }
    }
  }
}
