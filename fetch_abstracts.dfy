/**
 * The item-extraction step of the library fetch: the placeholder-credential
 * check, and the filter that keeps the library items that have an abstract and
 * projects each of them to the record the tagging tool later loads.
 */
module FetchAbstracts {
  import opened Wrappers

  /** The `data` object of one library item; a key absent from it is `None`. */
  datatype ItemData = ItemData(
    title: Option<string>,
    abstractNote: Option<string>,
    tags: Option<seq<string>>)

  /** One top-level item as the library service returns it. */
  datatype LibraryItem = LibraryItem(key: string, data: ItemData)

  /** One entry of the saved item file. */
  datatype Record = Record(key: string, title: string, abstractText: string, tags: seq<string>)

  /** What one run of the fetch does: stop early, or save these records. */
  datatype FetchOutcome = Unconfigured | Saved(records: seq<Record>)

  const PlaceholderLibraryId := "YOUR_LIBRARY_ID"
  const PlaceholderApiKey := "YOUR_API_KEY"

  /** The credentials are still the template's default values. */
  predicate IsPlaceholder(libraryId: string, apiKey: string) {
    libraryId == PlaceholderLibraryId || apiKey == PlaceholderApiKey
  }

  /** The `abstractNote` key is present and its value is truthy (a non-empty string). */
  predicate HasAbstract(data: ItemData) {
    data.abstractNote.Some? && data.abstractNote.value != ""
  }

  /** The record saved for one item, with the defaults for missing keys. */
  function Project(item: LibraryItem): Record {
    Record(item.key,
           item.data.title.GetOr(""),
           item.data.abstractNote.GetOr(""),
           item.data.tags.GetOr([]))
  }

  /** The records extracted from `items`, in their order: the specification of the loop. */
  function Extracted(items: seq<LibraryItem>): (r: seq<Record>)
    ensures |r| <= |items|
    ensures forall j :: 0 <= j < |r| ==> r[j].abstractText != ""
  {
    if items == [] then []
    else
      var last := items[|items| - 1];
      Extracted(items[..|items| - 1]) + (if HasAbstract(last.data) then [Project(last)] else [])
  }

  /** The positions of `items` that are kept, in increasing order. */
  function Kept(items: seq<LibraryItem>): seq<nat> {
    if items == [] then []
    else
      var n := |items| - 1;
      Kept(items[..n]) + (if HasAbstract(items[n].data) then [n] else [])
  }

  /**
   * The kept positions are increasing, in range, and are exactly the items
   * with an abstract: the filter drops no qualifying item and reorders nothing.
   */
  lemma {:induction false} KeptPositions(items: seq<LibraryItem>)
    ensures forall j :: 0 <= j < |Kept(items)| ==> Kept(items)[j] < |items|
    ensures forall j, k :: 0 <= j < k < |Kept(items)| ==> Kept(items)[j] < Kept(items)[k]
    ensures forall i :: 0 <= i < |items| ==> (i in Kept(items) <==> HasAbstract(items[i].data))
  {
    if items != [] {
      var n := |items| - 1;
      KeptPositions(items[..n]);
      assert forall i :: 0 <= i < n ==> items[..n][i] == items[i];
    }
  }

  /** The j-th extracted record is the projection of the j-th kept item. */
  lemma {:induction false} ExtractedIsKeptProjection(items: seq<LibraryItem>)
    ensures |Extracted(items)| == |Kept(items)|
    ensures forall j :: 0 <= j < |Kept(items)| ==>
              Kept(items)[j] < |items| && Extracted(items)[j] == Project(items[Kept(items)[j]])
  {
    if items != [] {
      var n := |items| - 1;
      ExtractedIsKeptProjection(items[..n]);
      KeptPositions(items[..n]);
      assert forall i :: 0 <= i < n ==> items[..n][i] == items[i];
    }
  }

  /**
   * Every extracted record carries the item's key, its title (or ""), its
   * abstract and its tags (or []).
   */
  lemma ExtractedFields(items: seq<LibraryItem>, j: nat)
    requires j < |Extracted(items)|
    ensures |Kept(items)| == |Extracted(items)| && Kept(items)[j] < |items|
    ensures var item, r := items[Kept(items)[j]], Extracted(items)[j];
      HasAbstract(item.data) &&
      r.key == item.key &&
      r.title == (if item.data.title.Some? then item.data.title.value else "") &&
      r.abstractText == item.data.abstractNote.value &&
      r.tags == (if item.data.tags.Some? then item.data.tags.value else [])
  {
    ExtractedIsKeptProjection(items);
    KeptPositions(items);
    assert Kept(items)[j] in Kept(items);
  }

  /** Extraction distributes over concatenation of the input. */
  lemma {:induction false} ExtractedAppend(a: seq<LibraryItem>, b: seq<LibraryItem>)
    ensures Extracted(a + b) == Extracted(a) + Extracted(b)
  {
    if b == [] {
      assert a + b == a;
    } else {
      var n := |b| - 1;
      ExtractedAppend(a, b[..n]);
      assert (a + b)[..|a + b| - 1] == a + b[..n];
    }
  }

  /** The extraction loop. */
  method ExtractRecords(items: seq<LibraryItem>) returns (extracted: seq<Record>)
    ensures extracted == Extracted(items)
  {
    extracted := [];
    for i := 0 to |items|
      invariant extracted == Extracted(items[..i])
    {
      var item := items[i];
      assert items[..i + 1][..i] == items[..i];
      if HasAbstract(item.data) {
        var data := Record(item.key,
                           item.data.title.GetOr(""),
                           item.data.abstractNote.GetOr(""),
                           item.data.tags.GetOr([]));
        extracted := extracted + [data];
      }
    }
    assert items[..|items|] == items;
  }

  /**
   * One run of the fetch; `library` stands for what the library service
   * returns for the configured credentials.
   */
  method FetchZoteroItems(libraryId: string, apiKey: string, library: seq<LibraryItem>)
    returns (outcome: FetchOutcome)
    ensures outcome.Unconfigured? <==> IsPlaceholder(libraryId, apiKey)
    ensures outcome.Saved? ==> outcome.records == Extracted(library)
  {
    if libraryId == PlaceholderLibraryId || apiKey == PlaceholderApiKey {
      return Unconfigured;
    }
    var extracted := ExtractRecords(library);
    outcome := Saved(extracted);
  }
}
