/** The list of books shown: the catalog filtered by testament and, when
    "unread only" is on, by whether the book still has an unread chapter. */
module View {
  import opened Keys
  import opened Catalog
  import opened Progress

  /** The testament filter: every book, or one testament. */
  datatype TestamentFilter = All | Only(testament: Testament)

  /** The testament test of the filter callback: "all" lets every book
      through, a single testament only its own books. */
  predicate MatchesTestament(book: Book, filter: TestamentFilter)
    ensures filter.All? ==> MatchesTestament(book, filter)
    ensures filter.Only? ==> (MatchesTestament(book, filter) <==> book.testament == filter.testament)
  {
    filter.All? || book.testament == filter.testament
  }

  /** The filter callback's verdict on one book. */
  predicate Shown(book: Book, filter: TestamentFilter, showUnreadOnly: bool, p: ProgressMap) {
    && MatchesTestament(book, filter)
    && (showUnreadOnly ==> CountRead(p, book.name, book.chapters) < book.chapters)
  }

  /** The counting loop of the filter callback: chapters 1..book.chapters of
      the book whose key is truthy. */
  method CompletedInBook(p: ProgressMap, book: Book) returns (completedInBook: nat)
    ensures completedInBook == CountRead(p, book.name, book.chapters)
  {
    completedInBook := 0;
    for i := 1 to book.chapters + 1
      invariant completedInBook == CountRead(p, book.name, i - 1)
    {
      if IsRead(p, ChapterKey(book.name, i)) {
        completedInBook := completedInBook + 1;
      }
    }
  }

  /** The filter callback: reject a book of the other testament; with
      "unread only" on, keep it only if fewer chapters are read than it has. */
  method KeepBook(book: Book, filter: TestamentFilter, showUnreadOnly: bool, p: ProgressMap)
    returns (keep: bool)
    ensures keep <==>
      && MatchesTestament(book, filter)
      && (showUnreadOnly ==> exists i :: 1 <= i <= book.chapters && !IsRead(p, ChapterKey(book.name, i)))
    ensures keep == Shown(book, filter, showUnreadOnly, p)
  {
    var matchesTestament := filter.All? || book.testament == filter.testament;
    if !matchesTestament {
      return false;
    }
    if showUnreadOnly {
      var completedInBook := CompletedInBook(p, book);
      CountReadFull(p, book.name, book.chapters);
      return completedInBook < book.chapters;
    }
    return true;
  }

  /** filteredBooks: the catalog books the callback keeps, in catalog order. */
  function FilteredBooks(catalog: seq<Book>, filter: TestamentFilter, showUnreadOnly: bool, p: ProgressMap)
    : (shown: seq<Book>)
    ensures |shown| <= |catalog|
    ensures forall b :: b in shown ==> b in catalog && Shown(b, filter, showUnreadOnly, p)
    ensures forall b :: b in catalog && Shown(b, filter, showUnreadOnly, p) ==> b in shown
  {
    if catalog == [] then []
    else
      var rest := FilteredBooks(catalog[1..], filter, showUnreadOnly, p);
      if Shown(catalog[0], filter, showUnreadOnly, p) then [catalog[0]] + rest else rest
  }

  /** `xs` is `ys` with some elements left out and the rest in their order. */
  predicate IsSubsequence<T(==)>(xs: seq<T>, ys: seq<T>)
    decreases |ys|
  {
    if ys == [] then xs == []
    else (xs != [] && xs[0] == ys[0] && IsSubsequence(xs[1..], ys[1..])) || IsSubsequence(xs, ys[1..])
  }

  /** Filtering never reorders the catalog. */
  lemma {:induction false} FilteredIsSubsequence(catalog: seq<Book>, filter: TestamentFilter, showUnreadOnly: bool, p: ProgressMap)
    ensures IsSubsequence(FilteredBooks(catalog, filter, showUnreadOnly, p), catalog)
  {
    if catalog != [] {
      FilteredIsSubsequence(catalog[1..], filter, showUnreadOnly, p);
      var rest := FilteredBooks(catalog[1..], filter, showUnreadOnly, p);
      if Shown(catalog[0], filter, showUnreadOnly, p) {
        assert ([catalog[0]] + rest)[1..] == rest;
      }
    }
  }

  /** With "unread only" off the progress map plays no part. */
  lemma {:induction false} FilterIgnoresProgressWhenAllShown(catalog: seq<Book>, filter: TestamentFilter, p: ProgressMap, q: ProgressMap)
    ensures FilteredBooks(catalog, filter, false, p) == FilteredBooks(catalog, filter, false, q)
  {
    if catalog != [] {
      FilterIgnoresProgressWhenAllShown(catalog[1..], filter, p, q);
    }
  }

  /** With an empty map and "unread only" on, every book of the selected
      testament is shown: no book with at least one chapter is fully read. */
  lemma {:induction false} EmptyProgressShowsEveryBook(catalog: seq<Book>, filter: TestamentFilter, p: ProgressMap)
    requires forall i :: 0 <= i < |catalog| ==> catalog[i].chapters > 0
    ensures FilteredBooks(catalog, filter, true, map[]) == FilteredBooks(catalog, filter, false, p)
  {
    if catalog != [] {
      assert forall i :: 0 <= i < |catalog[1..]| ==> catalog[1..][i] == catalog[i + 1];
      EmptyProgressShowsEveryBook(catalog[1..], filter, p);
      assert catalog[0].chapters > 0;
      CountReadZero(map[], catalog[0].name, catalog[0].chapters);
    }
  }

  /** After marking every chapter of a book as read, the book is not on the
      "unread only" list. */
  lemma CompletedBookHidden(catalog: seq<Book>, filter: TestamentFilter, p: ProgressMap, book: Book)
    ensures book !in FilteredBooks(catalog, filter, true, BookProgress(p, book.name, book.chapters, true))
  {
    BookProgressCount(p, book.name, book.chapters, true);
  }
}
