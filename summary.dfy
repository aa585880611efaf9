/** The header's totals: chapters read and chapters remaining.

    As written, the read figure is the number of keys in the map, so keys
    that name no catalog chapter and keys held as false also count, and
    "remaining" (total chapters minus that figure) can drop below zero.
    CatalogCompleted counts only read catalog chapters; it never exceeds the
    catalog total and agrees with the key count on every map that holds only
    read catalog chapters, which is every map the toggles produce from an
    empty one. */
module Summary {
  import opened Keys
  import opened Catalog
  import opened Progress

  /** `TOTAL_CHAPTERS - totalCompleted`, as displayed. */
  function RemainingAsWritten(catalog: seq<Book>, p: ProgressMap): (remaining: int)
    ensures remaining <= TotalChapters(catalog)
    ensures remaining < 0 <==> TotalCompleted(p) > TotalChapters(catalog)
  {
    TotalChapters(catalog) - TotalCompleted(p)
  }

  /** `k` names chapter 1..chapters of some catalog book. */
  predicate IsCatalogKey(catalog: seq<Book>, k: string) {
    exists j, i :: 0 <= j < |catalog| && 1 <= i <= catalog[j].chapters && k == ChapterKey(catalog[j].name, i)
  }

  /** A map holding only read catalog chapters. */
  predicate WellFormed(catalog: seq<Book>, p: ProgressMap) {
    forall k :: k in p ==> p[k] && IsCatalogKey(catalog, k)
  }

  /** The keys of the read chapters among chapters 1..n of one book. */
  function BookReadKeys(p: ProgressMap, bookName: string, n: nat): set<string> {
    if n == 0 then {}
    else
      var key := ChapterKey(bookName, n);
      BookReadKeys(p, bookName, n - 1) + if IsRead(p, key) then {key} else {}
  }

  /** The book's read keys are exactly its read chapters' keys, one per
      chapter counted. */
  lemma {:induction false} BookReadKeysSpec(p: ProgressMap, bookName: string, n: nat)
    ensures forall k :: k in BookReadKeys(p, bookName, n) ==>
      IsRead(p, k) && exists i :: 1 <= i <= n && k == ChapterKey(bookName, i)
    ensures forall i :: 1 <= i <= n && IsRead(p, ChapterKey(bookName, i)) ==>
      ChapterKey(bookName, i) in BookReadKeys(p, bookName, n)
    ensures |BookReadKeys(p, bookName, n)| == CountRead(p, bookName, n)
  {
    if n > 0 {
      BookReadKeysSpec(p, bookName, n - 1);
      var before := BookReadKeys(p, bookName, n - 1);
      var key := ChapterKey(bookName, n);
      forall i | 1 <= i <= n - 1 ensures ChapterKey(bookName, i) != key {
        if ChapterKey(bookName, i) == key {
          ChapterKeyInjective(bookName, i, bookName, n);
        }
      }
      assert key !in before;
    }
  }

  /** The keys of all read catalog chapters. */
  function CatalogReadKeys(catalog: seq<Book>, p: ProgressMap): (ks: set<string>)
    ensures forall k :: k in ks ==> IsRead(p, k) && IsCatalogKey(catalog, k)
    ensures forall j, i ::
      0 <= j < |catalog| && 1 <= i <= catalog[j].chapters && IsRead(p, ChapterKey(catalog[j].name, i)) ==>
        ChapterKey(catalog[j].name, i) in ks
  {
    if catalog == [] then {}
    else
      var rest := CatalogReadKeys(catalog[1..], p);
      var here := BookReadKeys(p, catalog[0].name, catalog[0].chapters);
      BookReadKeysSpec(p, catalog[0].name, catalog[0].chapters);
      assert forall k :: k in rest ==> IsCatalogKey(catalog, k) by {
        forall k | k in rest ensures IsCatalogKey(catalog, k) {
          var j, i :| 0 <= j < |catalog[1..]| && 1 <= i <= catalog[1..][j].chapters && k == ChapterKey(catalog[1..][j].name, i);
          assert catalog[1..][j] == catalog[j + 1];
        }
      }
      forall j, i | 0 <= j < |catalog| && 1 <= i <= catalog[j].chapters && IsRead(p, ChapterKey(catalog[j].name, i))
        ensures ChapterKey(catalog[j].name, i) in here + rest
      {
        if j > 0 {
          assert catalog[1..][j - 1] == catalog[j];
        }
      }
      here + rest
  }

  /** The number of read catalog chapters: the per-book counts summed. */
  function CatalogCompleted(catalog: seq<Book>, p: ProgressMap): (count: nat)
    ensures count <= TotalChapters(catalog)
  {
    if catalog == [] then 0
    else CountRead(p, catalog[0].name, catalog[0].chapters) + CatalogCompleted(catalog[1..], p)
  }

  /** Remaining chapters, counted from the catalog. */
  function Remaining(catalog: seq<Book>, p: ProgressMap): (remaining: nat)
    ensures remaining <= TotalChapters(catalog)
  {
    TotalChapters(catalog) - CatalogCompleted(catalog, p)
  }

  /** In a valid catalog each read chapter has its own key. */
  lemma {:induction false} CatalogReadKeysCount(catalog: seq<Book>, p: ProgressMap)
    requires ValidCatalog(catalog)
    ensures |CatalogReadKeys(catalog, p)| == CatalogCompleted(catalog, p)
  {
    if catalog != [] {
      var rest := catalog[1..];
      ValidCatalogTail(catalog);
      CatalogReadKeysCount(rest, p);
      BookReadKeysSpec(p, catalog[0].name, catalog[0].chapters);
      var here := BookReadKeys(p, catalog[0].name, catalog[0].chapters);
      var there := CatalogReadKeys(rest, p);
      forall k | k in here ensures k !in there {
        if k in there {
          var i :| 1 <= i <= catalog[0].chapters && k == ChapterKey(catalog[0].name, i);
          var j, i' :| 0 <= j < |rest| && 1 <= i' <= rest[j].chapters && k == ChapterKey(rest[j].name, i');
          ChapterKeyInjective(catalog[0].name, i, rest[j].name, i');
        }
      }
      assert here * there == {};
    }
  }

  /** Every read catalog chapter is a key, so the catalog count never
      exceeds the key count. */
  lemma CatalogCompletedAtMostTotal(catalog: seq<Book>, p: ProgressMap)
    requires ValidCatalog(catalog)
    ensures CatalogCompleted(catalog, p) <= TotalCompleted(p)
  {
    CatalogReadKeysCount(catalog, p);
    SubsetSize(CatalogReadKeys(catalog, p), p.Keys);
  }

  /** A subset is no larger than its superset. */
  lemma {:induction false} SubsetSize<T>(a: set<T>, b: set<T>)
    requires a <= b
    ensures |a| <= |b|
  {
    if a != {} {
      var x :| x in a;
      SubsetSize(a - {x}, b - {x});
    }
  }

  /** On a map holding only read catalog chapters both counts agree, so the
      corrected figure changes nothing for maps the interface builds. */
  lemma WellFormedCountsAgree(catalog: seq<Book>, p: ProgressMap)
    requires ValidCatalog(catalog) && WellFormed(catalog, p)
    ensures CatalogCompleted(catalog, p) == TotalCompleted(p)
    ensures Remaining(catalog, p) == RemainingAsWritten(catalog, p)
  {
    CatalogReadKeysCount(catalog, p);
    forall k | k in p ensures k in CatalogReadKeys(catalog, p) {
      var j, i :| 0 <= j < |catalog| && 1 <= i <= catalog[j].chapters && k == ChapterKey(catalog[j].name, i);
    }
    assert CatalogReadKeys(catalog, p) == p.Keys;
  }

  /** Toggling a catalog chapter keeps a map well formed. */
  lemma ToggleKeepsWellFormed(catalog: seq<Book>, p: ProgressMap, j: nat, chapter: nat)
    requires WellFormed(catalog, p)
    requires j < |catalog| && 1 <= chapter <= catalog[j].chapters
    ensures WellFormed(catalog, Toggled(p, ChapterKey(catalog[j].name, chapter)))
  {
  }

  /** Marking or clearing a whole catalog book keeps a map well formed. */
  lemma BookProgressKeepsWellFormed(catalog: seq<Book>, p: ProgressMap, j: nat, completed: bool)
    requires WellFormed(catalog, p)
    requires j < |catalog|
    ensures WellFormed(catalog, BookProgress(p, catalog[j].name, catalog[j].chapters, completed))
  {
  }

  /** Importing `{"Obadiah-1": true, "NotABook-5": true}` against a catalog
      whose one book, Obadiah, has a single chapter: the book is fully read,
      the unknown key is inert in the book's count, yet the header shows two
      chapters read out of one and -1 remaining. */
  lemma RemainingAsWrittenGoesNegative()
    ensures var catalog := [Book("Obadiah", Old, 1)];
            var p := map["Obadiah-1" := true, "NotABook-5" := true];
            && ValidCatalog(catalog)
            && CountRead(p, "Obadiah", 1) == 1
            && TotalCompleted(p) == 2
            && RemainingAsWritten(catalog, p) == -1
            && Remaining(catalog, p) == 0
  {
    var catalog := [Book("Obadiah", Old, 1)];
    var p := map["Obadiah-1" := true, "NotABook-5" := true];
    assert NatToString(1) == "1";
    assert ChapterKey("Obadiah", 1) == "Obadiah-1";
    assert "Obadiah-1" != "NotABook-5";
    assert p.Keys == {"Obadiah-1", "NotABook-5"};
    assert catalog[1..] == [];
  }
}
