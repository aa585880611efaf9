/** The static catalog of books. The concrete list lives in a constants file
    that is not part of this model, so every operation that needs it takes
    the catalog as a parameter. */
module Catalog {

  datatype Testament = Old | New

  /** A catalog entry: its name is its identifier in the progress map. */
  datatype Book = Book(name: string, testament: Testament, chapters: nat)

  /** What the catalog guarantees: every book has at least one chapter and
      no two books share a name. */
  predicate ValidCatalog(books: seq<Book>) {
    && (forall i :: 0 <= i < |books| ==> books[i].chapters > 0)
    && (forall i, j :: 0 <= i < j < |books| ==> books[i].name != books[j].name)
  }

  /** Dropping the first book keeps a catalog valid. */
  lemma ValidCatalogTail(books: seq<Book>)
    requires books != [] && ValidCatalog(books)
    ensures ValidCatalog(books[1..])
    ensures forall i :: 0 <= i < |books[1..]| ==> books[1..][i].name != books[0].name
  {
  }

  /** The number of chapters in the whole catalog (TOTAL_CHAPTERS). */
  function TotalChapters(books: seq<Book>): nat {
    if books == [] then 0 else books[0].chapters + TotalChapters(books[1..])
  }

  /** The total of two lists put together is the sum of their totals. */
  lemma {:induction false} TotalChaptersAppend(a: seq<Book>, b: seq<Book>)
    ensures TotalChapters(a + b) == TotalChapters(a) + TotalChapters(b)
  {
    if a == [] {
      assert a + b == b;
    } else {
      assert (a + b)[1..] == a[1..] + b;
      TotalChaptersAppend(a[1..], b);
    }
  }
}
