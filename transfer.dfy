/** Export and import of the progress map as a JSON file.

    The text layer (JSON.stringify, JSON.parse, the file reader, the download
    anchor) is not modelled: export produces, and import receives, the value
    that JSON.parse would return. Inside arrays and objects only the
    truthiness of each member is kept, which is all the progress map ever
    consults. */
module Transfer {
  import opened Keys
  import opened Progress

  /** A value returned by JSON.parse. */
  datatype Json =
    | JNull
    | JBool(b: bool)
    | JNumber(x: real)
    | JString(s: string)
    | JArray(elems: seq<bool>)
    | JObject(fields: map<string, bool>)

  /** The outcome of JSON.parse on the file's text: it throws, or yields a value. */
  datatype Parsed = ParseFailed | Parsed(value: Json)

  /** What the user is told once the file has been read. */
  datatype Notice =
    | Imported      // the success alert
    | Cancelled     // the confirmation was declined: no alert
    | NotAnObject   // the "file format error" alert
    | LoadFailed    // the "load failed: file format error" alert from the catch block

  datatype ImportResult = ImportResult(progress: ProgressMap, notice: Notice)

  /** `typeof v === 'object' && v !== null`: true of objects and also of arrays. */
  predicate IsObjectType(j: Json)
    ensures IsObjectType(j) <==> j != JNull && !j.JBool? && !j.JNumber? && !j.JString?
  {
    j.JArray? || j.JObject?
  }

  /** The entries an array contributes when used as the progress map: its
      indices rendered in decimal are its keys. */
  function ArrayEntries(xs: seq<bool>): ProgressMap {
    if xs == [] then map[]
    else ArrayEntries(xs[..|xs| - 1])[NatToString(|xs| - 1) := xs[|xs| - 1]]
  }

  /** Index i of the array is found under the key `${i}`, no other key is
      present, and there are as many keys as elements. */
  lemma {:induction false} ArrayEntriesSpec(xs: seq<bool>)
    ensures forall i :: 0 <= i < |xs| ==> NatToString(i) in ArrayEntries(xs) && ArrayEntries(xs)[NatToString(i)] == xs[i]
    ensures forall k :: k in ArrayEntries(xs) ==> exists i :: 0 <= i < |xs| && k == NatToString(i)
    ensures |ArrayEntries(xs)| == |xs|
  {
    if xs != [] {
      var n := |xs| - 1;
      var front := xs[..n];
      ArrayEntriesSpec(front);
      var before := ArrayEntries(front);
      var key := NatToString(n);
      assert ArrayEntries(xs) == before[key := xs[n]];
      forall i | 0 <= i < n ensures NatToString(i) != key {
        if NatToString(i) == key {
          NatToStringInjective(i, n);
        }
      }
      assert key !in before;
      forall i | 0 <= i < |xs|
        ensures NatToString(i) in ArrayEntries(xs) && ArrayEntries(xs)[NatToString(i)] == xs[i]
      {
        if i < n {
          assert front[i] == xs[i];
        }
      }
      forall k | k in ArrayEntries(xs) ensures exists i :: 0 <= i < |xs| && k == NatToString(i) {
        if k != key {
          assert k in before;
        }
      }
    }
  }

  /** The number of keys `Object.keys` reports for an accepted value. */
  function KeyCount(j: Json): nat
    requires IsObjectType(j)
  {
    match j
    case JObject(fields) => |fields|
    case JArray(elems) => |elems|
  }

  /** The progress map an accepted value becomes. */
  function AsProgress(j: Json): (p: ProgressMap)
    requires IsObjectType(j)
    ensures TotalCompleted(p) == KeyCount(j)
  {
    match j
    case JObject(fields) => fields
    case JArray(elems) => ArrayEntriesSpec(elems); ArrayEntries(elems)
  }

  /** The reader's onload handler: replace the map with the parsed value only
      when it is of object type and not null and the user confirms; keep it
      otherwise. `confirmed` is the answer the user gives to the confirmation
      prompt, which is only shown for a value of object type. */
  function HandleImport(current: ProgressMap, parsed: Parsed, confirmed: bool): (r: ImportResult)
    ensures r.notice == Imported <==> parsed.Parsed? && IsObjectType(parsed.value) && confirmed
    ensures r.notice == Cancelled <==> parsed.Parsed? && IsObjectType(parsed.value) && !confirmed
    ensures r.notice == NotAnObject <==> parsed.Parsed? && !IsObjectType(parsed.value)
    ensures r.notice == LoadFailed <==> parsed.ParseFailed?
    ensures r.notice != Imported ==> r.progress == current
    ensures r.notice == Imported ==> TotalCompleted(r.progress) == KeyCount(parsed.value)
  {
    match parsed
    case ParseFailed => ImportResult(current, LoadFailed)
    case Parsed(value) =>
      if IsObjectType(value) then
        if confirmed then ImportResult(AsProgress(value), Imported)
        else ImportResult(current, Cancelled)
      else ImportResult(current, NotAnObject)
  }

  /** handleExport: the value written to the file is the map itself. */
  function Export(p: ProgressMap): (j: Json)
    ensures IsObjectType(j) && KeyCount(j) == TotalCompleted(p)
  {
    JObject(p)
  }

  /** Importing an exported file, with confirmation, restores exactly the
      exported map, whatever the map was before. */
  lemma ExportImportRoundTrip(current: ProgressMap, p: ProgressMap)
    ensures HandleImport(current, Parsed(Export(p)), true) == ImportResult(p, Imported)
  {
  }

  /** An imported array is accepted, its keys are its indices, and none of
      them is a chapter key: every chapter reads as unread afterwards, yet
      totalCompleted is the array's length. */
  lemma ImportedArrayIsInert(current: ProgressMap, xs: seq<bool>, bookName: string, chapter: nat)
    ensures HandleImport(current, Parsed(JArray(xs)), true).notice == Imported
    ensures TotalCompleted(HandleImport(current, Parsed(JArray(xs)), true).progress) == |xs|
    ensures !IsRead(HandleImport(current, Parsed(JArray(xs)), true).progress, ChapterKey(bookName, chapter))
  {
    ArrayEntriesSpec(xs);
    var key := ChapterKey(bookName, chapter);
    forall i: nat | i < |xs| ensures NatToString(i) != key {
      assert key[|bookName|] == '-';
    }
  }
}
