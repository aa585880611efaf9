/** Which book cards are expanded: a set of book names, updated by copying
    the previous set and adding or deleting one name, or replaced wholesale
    by expand-all and collapse-all. */
module Expansion {
  import opened Catalog

  /** The set with `bookName` flipped: the symmetric difference with
      {bookName}. */
  function ExpansionToggled(expanded: set<string>, bookName: string): set<string> {
    (expanded - {bookName}) + ({bookName} - expanded)
  }

  /** Toggling a card flips that one name and leaves every other as it was. */
  lemma ExpansionToggleFlipsOnlyItsBook(expanded: set<string>, bookName: string)
    ensures bookName in ExpansionToggled(expanded, bookName) <==> bookName !in expanded
    ensures forall other :: other != bookName ==>
      (other in ExpansionToggled(expanded, bookName) <==> other in expanded)
  {
  }

  /** Toggling the same card twice restores the set. */
  lemma ExpansionToggleTwiceRestores(expanded: set<string>, bookName: string)
    ensures ExpansionToggled(ExpansionToggled(expanded, bookName), bookName) == expanded
  {
  }

  /** toggleBookExpansion: copy the set, then delete the name if present,
      otherwise add it. */
  method ToggleBookExpansion(prev: set<string>, bookName: string) returns (next: set<string>)
    ensures next == ExpansionToggled(prev, bookName)
  {
    var newSet := prev;
    if bookName in newSet {
      newSet := newSet - {bookName};
    } else {
      newSet := newSet + {bookName};
    }
    next := newSet;
  }

  /** handleExpandAll: the set of the names of all catalog books. */
  function ExpandAll(catalog: seq<Book>): (expanded: set<string>)
    ensures forall i :: 0 <= i < |catalog| ==> catalog[i].name in expanded
    ensures forall name :: name in expanded ==> exists i :: 0 <= i < |catalog| && catalog[i].name == name
  {
    set b | b in catalog :: b.name
  }

  /** With unique names, expand-all holds one name per catalog book. */
  lemma {:induction false} ExpandAllSize(catalog: seq<Book>)
    requires ValidCatalog(catalog)
    ensures |ExpandAll(catalog)| == |catalog|
  {
    if catalog != [] {
      var rest := catalog[1..];
      ValidCatalogTail(catalog);
      ExpandAllSize(rest);
      ExpandAllCons(catalog);
      assert catalog[0].name !in ExpandAll(rest);
    }
  }

  /** The names of a non-empty catalog: its first name and those of the rest. */
  lemma ExpandAllCons(catalog: seq<Book>)
    requires catalog != []
    ensures ExpandAll(catalog) == {catalog[0].name} + ExpandAll(catalog[1..])
  {
  }

  /** handleCollapseAll: no card stays expanded. */
  function CollapseAll(): (expanded: set<string>)
    ensures forall name :: name !in expanded
  {
    {}
  }
}
