/** The progress store: a map from chapter key to a flag. A chapter counts as
    read when its key is present with a true value (a truthy lookup); a
    missing key means unread. Imported maps may also hold keys mapped to
    false, which read as unread but are still keys of the map.

    The React state updaters are modelled as methods from the previous map
    to the new one: each copies the map into a local variable and deletes or
    assigns keys in it, and each is proved equal to a specification function
    defined independently of its loop or branches. */
module Progress {
  import opened Keys

  type ProgressMap = map<string, bool>

  /** The truthiness test `progress[key]`. */
  predicate IsRead(p: ProgressMap, key: string) {
    key in p && p[key]
  }

  /** `Object.keys(progress).length`: every key counts, whatever its value and
      whether or not it names a catalog chapter. */
  function TotalCompleted(p: ProgressMap): (total: nat)
    ensures total == 0 <==> p == map[]
    ensures total == |set k | k in p && p[k]| + |set k | k in p && !p[k]|
  {
    var read := set k | k in p && p[k];
    var heldFalse := set k | k in p && !p[k];
    assert p.Keys == read + heldFalse && read * heldFalse == {};
    |p.Keys|
  }

  // ---------------------------------------------------------------------------
  // Toggling one chapter

  /** The map after toggling `key`: every other entry as before; `key` absent
      when it was read, otherwise present and true. */
  function Toggled(p: ProgressMap, key: string): ProgressMap {
    map k | k in p.Keys + {key} && (k == key ==> !IsRead(p, key)) :: if k == key then true else p[k]
  }

  /** Toggling changes only the toggled key, and flips whether it is read. */
  lemma ToggleChangesOnlyItsKey(p: ProgressMap, key: string)
    ensures key in Toggled(p, key) <==> !IsRead(p, key)
    ensures IsRead(Toggled(p, key), key) <==> !IsRead(p, key)
    ensures forall k :: k != key ==> (k in Toggled(p, key) <==> k in p)
    ensures forall k :: k != key && k in p ==> Toggled(p, key)[k] == p[k]
  {
  }

  /** toggleChapter: copy the map, then delete the key if its value is truthy,
      otherwise set it to true. */
  method ToggleChapter(prev: ProgressMap, bookName: string, chapter: nat) returns (next: ProgressMap)
    ensures next == Toggled(prev, ChapterKey(bookName, chapter))
  {
    var key := ChapterKey(bookName, chapter);
    var newState := prev;
    if key in newState && newState[key] {
      newState := newState - {key};
    } else {
      newState := newState[key := true];
    }
    next := newState;
  }

  /** Toggling twice restores the map when the key was absent or true. */
  lemma ToggleTwiceRestores(p: ProgressMap, key: string)
    requires key !in p || p[key]
    ensures Toggled(Toggled(p, key), key) == p
  {
  }

  /** A key imported with value false is first set to true, then deleted: two
      toggles do not restore such a map. */
  lemma ToggleTwiceFromFalse(p: ProgressMap, key: string)
    requires key in p && !p[key]
    ensures Toggled(p, key) == p[key := true]
    ensures Toggled(Toggled(p, key), key) == p - {key}
    ensures Toggled(Toggled(p, key), key) != p
  {
  }

  /** The effect of a toggle on totalCompleted: one fewer key for a read
      chapter, one more for an absent one, and no change for a key held as
      false (it is overwritten with true). */
  lemma ToggleAdjustsTotal(p: ProgressMap, key: string)
    ensures TotalCompleted(Toggled(p, key)) ==
      if IsRead(p, key) then TotalCompleted(p) - 1
      else if key in p then TotalCompleted(p)
      else TotalCompleted(p) + 1
  {
    var r := Toggled(p, key);
    if IsRead(p, key) {
      assert r.Keys == p.Keys - {key};
    } else if key in p {
      assert r.Keys == p.Keys;
    } else {
      assert r.Keys == p.Keys + {key};
    }
  }

  // ---------------------------------------------------------------------------
  // Marking or clearing a whole book

  /** The keys of chapters 1..n of a book. */
  function BookKeys(bookName: string, n: nat): set<string> {
    set i | 1 <= i <= n :: ChapterKey(bookName, i)
  }

  /** The map after marking a whole book: every key of chapters 1..n set to
      true, or every one of them removed; all other entries as before. */
  function BookProgress(p: ProgressMap, bookName: string, n: nat, completed: bool): ProgressMap {
    Mark(p, BookKeys(bookName, n), completed)
  }

  /** Every key of `ks` set to true, or every one of them removed. */
  function Mark(p: ProgressMap, ks: set<string>, completed: bool): ProgressMap {
    if completed then p + map k | k in ks :: true else p - ks
  }

  /** What marking a book does to each key: chapters 1..n end up read (or
      absent), every other key keeps its presence and value. */
  lemma BookProgressFrame(p: ProgressMap, bookName: string, n: nat, completed: bool)
    ensures forall i :: 1 <= i <= n ==>
      (IsRead(BookProgress(p, bookName, n, completed), ChapterKey(bookName, i)) <==> completed)
    ensures forall i :: 1 <= i <= n && !completed ==>
      ChapterKey(bookName, i) !in BookProgress(p, bookName, n, completed)
    ensures forall k :: k !in BookKeys(bookName, n) ==>
      (k in BookProgress(p, bookName, n, completed) <==> k in p)
    ensures forall k :: k !in BookKeys(bookName, n) && k in p ==>
      BookProgress(p, bookName, n, completed)[k] == p[k]
  {
  }

  /** Marking chapters 1..i is marking 1..i - 1, then chapter i. */
  lemma BookProgressStep(p: ProgressMap, bookName: string, i: nat, completed: bool)
    requires i >= 1
    ensures BookProgress(p, bookName, i, completed) ==
      var before := BookProgress(p, bookName, i - 1, completed);
      if completed then before[ChapterKey(bookName, i) := true]
      else before - {ChapterKey(bookName, i)}
  {
  }

  /** toggleBookProgress: copy the map, then for i = 1..totalChapters set the
      key of chapter i to true, or delete it. */
  method SetBookProgress(prev: ProgressMap, bookName: string, totalChapters: nat, completed: bool)
    returns (next: ProgressMap)
    ensures next == BookProgress(prev, bookName, totalChapters, completed)
  {
    var newState := prev;
    assert BookKeys(bookName, 0) == {};
    for i := 1 to totalChapters + 1
      invariant newState == BookProgress(prev, bookName, i - 1, completed)
    {
      var key := ChapterKey(bookName, i);
      BookProgressStep(prev, bookName, i, completed);
      if completed {
        newState := newState[key := true];
      } else {
        newState := newState - {key};
      }
    }
    next := newState;
  }

  /** The per-book completed count: chapters 1..n of the book that are read. */
  function CountRead(p: ProgressMap, bookName: string, n: nat): (count: nat)
    ensures count <= n
  {
    if n == 0 then 0
    else CountRead(p, bookName, n - 1) + (if IsRead(p, ChapterKey(bookName, n)) then 1 else 0)
  }

  /** A book's count reaches its chapter count exactly when all its chapters
      are read. */
  lemma {:induction false} CountReadFull(p: ProgressMap, bookName: string, n: nat)
    ensures CountRead(p, bookName, n) == n <==>
      forall i :: 1 <= i <= n ==> IsRead(p, ChapterKey(bookName, i))
  {
    if n > 0 {
      CountReadFull(p, bookName, n - 1);
    }
  }

  /** A book's count is zero exactly when none of its chapters is read. */
  lemma {:induction false} CountReadZero(p: ProgressMap, bookName: string, n: nat)
    ensures CountRead(p, bookName, n) == 0 <==>
      forall i :: 1 <= i <= n ==> !IsRead(p, ChapterKey(bookName, i))
  {
    if n > 0 {
      CountReadZero(p, bookName, n - 1);
    }
  }

  /** The count depends only on whether the book's own chapters are read. */
  lemma {:induction false} CountReadAgree(p: ProgressMap, q: ProgressMap, bookName: string, n: nat)
    requires forall i :: 1 <= i <= n ==>
      (IsRead(p, ChapterKey(bookName, i)) <==> IsRead(q, ChapterKey(bookName, i)))
    ensures CountRead(p, bookName, n) == CountRead(q, bookName, n)
  {
    if n > 0 {
      CountReadAgree(p, q, bookName, n - 1);
    }
  }

  /** After marking a book its count is its chapter count; after clearing it
      the count is zero. */
  lemma BookProgressCount(p: ProgressMap, bookName: string, n: nat, completed: bool)
    ensures CountRead(BookProgress(p, bookName, n, completed), bookName, n) == if completed then n else 0
  {
    BookProgressFrame(p, bookName, n, completed);
    var r := BookProgress(p, bookName, n, completed);
    if completed {
      CountReadFull(r, bookName, n);
    } else {
      CountReadZero(r, bookName, n);
    }
  }

  /** Marking one book leaves the count of every other book unchanged. */
  lemma BookProgressOtherBook(p: ProgressMap, bookName: string, n: nat, completed: bool, other: string, m: nat)
    requires other != bookName
    ensures CountRead(BookProgress(p, bookName, n, completed), other, m) == CountRead(p, other, m)
  {
    BookProgressFrame(p, bookName, n, completed);
    forall i | 1 <= i <= m
      ensures ChapterKey(other, i) !in BookKeys(bookName, n)
    {
      if ChapterKey(other, i) in BookKeys(bookName, n) {
        var j :| 1 <= j <= n && ChapterKey(other, i) == ChapterKey(bookName, j);
        ChapterKeyInjective(other, i, bookName, j);
      }
    }
    CountReadAgree(BookProgress(p, bookName, n, completed), p, other, m);
  }

  /** The last marking of a book wins: whatever the book held after an
      earlier marking, the later one decides. With both flags equal this is
      idempotence. */
  lemma BookProgressLastWins(p: ProgressMap, bookName: string, n: nat, first: bool, second: bool)
    ensures BookProgress(BookProgress(p, bookName, n, first), bookName, n, second)
         == BookProgress(p, bookName, n, second)
  {
  }

  // ---------------------------------------------------------------------------
  // Clearing everything

  /** handleClearAll: the empty map when the user confirms, otherwise the map
      unchanged. */
  function ClearAll(current: ProgressMap, confirmed: bool): (r: ProgressMap)
    ensures confirmed ==> TotalCompleted(r) == 0 && forall k :: !IsRead(r, k)
    ensures !confirmed ==> r == current
  {
    if confirmed then map[] else current
  }
}
