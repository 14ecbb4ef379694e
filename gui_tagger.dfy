/**
 * The review session of the tagging window: a list of items, a cursor into
 * it, one boolean per taxonomy tag (the check boxes), and a completion state
 * in which the four control buttons are disabled. The widgets themselves are
 * not modelled; the check boxes are the map `tagVars` from tag name to its
 * checked state.
 */
module GuiTagger {
  import opened Wrappers
  import FetchAbstracts

  /** The sentinel added to every saved tag list. */
  const Reviewed := "reviewed"

  /** One entry of the item file: the fetched record and, once saved, its `assigned_tags`. */
  datatype Item = Item(record: FetchAbstracts.Record, assignedTags: Option<seq<string>>)

  /** The four control buttons; all four are disabled on completion. */
  datatype Button = BackButton | SuggestButton | SaveButton | SkipButton

  /** What a save did: nothing (no current item), or wrote the file, or failed to. */
  datatype SaveOutcome = NothingToSave | Written | WriteFailed

  predicate Distinct(s: seq<string>) {
    forall i, j :: 0 <= i < j < |s| ==> s[i] != s[j]
  }

  function Names(s: seq<string>): set<string> {
    set t | t in s
  }

  function Occurrences(s: seq<string>, x: string): nat {
    if s == [] then 0 else (if s[0] == x then 1 else 0) + Occurrences(s[1..], x)
  }

  /** The tags that are checked in `vars`. */
  function Selection(vars: map<string, bool>): set<string> {
    set t | t in vars && vars[t]
  }

  /**
   * The key order of `tag_vars` after assigning one entry per row of the Tag
   * column: a name seen again keeps the position of its first assignment.
   */
  function Dedup(rows: seq<string>): (names: seq<string>)
    ensures Names(names) == Names(rows)
    ensures Distinct(names)
  {
    if rows == [] then []
    else
      var n := |rows| - 1;
      assert rows == rows[..n] + [rows[n]];
      assert Names(rows) == Names(rows[..n]) + {rows[n]};
      if rows[n] in rows[..n] then Dedup(rows[..n]) else Dedup(rows[..n]) + [rows[n]]
  }

  /** The positions of `rows` where a name occurs for the first time, in increasing order. */
  function FirstPositions(rows: seq<string>): seq<nat> {
    if rows == [] then []
    else
      var n := |rows| - 1;
      FirstPositions(rows[..n]) + (if rows[n] in rows[..n] then [] else [n])
  }

  /** The first-occurrence positions are in range and increase. */
  lemma {:induction false} FirstPositionsOrdered(rows: seq<string>)
    ensures forall j :: 0 <= j < |FirstPositions(rows)| ==> FirstPositions(rows)[j] < |rows|
    ensures forall j, k :: 0 <= j < k < |FirstPositions(rows)| ==>
              FirstPositions(rows)[j] < FirstPositions(rows)[k]
  {
    if rows != [] {
      FirstPositionsOrdered(rows[..|rows| - 1]);
    }
  }

  /** Row i is kept exactly when its name has not occurred in an earlier row. */
  lemma {:induction false} FirstPositionAt(rows: seq<string>, i: nat)
    requires i < |rows|
    ensures i in FirstPositions(rows) <==> rows[i] !in rows[..i]
  {
    var n := |rows| - 1;
    var front := rows[..n];
    FirstPositionsOrdered(front);
    assert n !in FirstPositions(front);
    if i < n {
      FirstPositionAt(front, i);
      assert front[i] == rows[i] && front[..i] == rows[..i];
    } else {
      assert rows[..i] == front;
    }
  }

  /** A row's position is kept exactly when its name has not occurred in an earlier row. */
  lemma FirstPositionsExact(rows: seq<string>)
    ensures forall i :: 0 <= i < |rows| ==> (i in FirstPositions(rows) <==> rows[i] !in rows[..i])
  {
    forall i | 0 <= i < |rows| ensures i in FirstPositions(rows) <==> rows[i] !in rows[..i] {
      FirstPositionAt(rows, i);
    }
  }

  /**
   * The key order is the Tag column restricted to first occurrences: the j-th
   * key is the row at the j-th first-occurrence position.
   */
  lemma {:induction false} DedupAtFirstPositions(rows: seq<string>)
    ensures |Dedup(rows)| == |FirstPositions(rows)|
    ensures forall j :: 0 <= j < |FirstPositions(rows)| ==>
              FirstPositions(rows)[j] < |rows| && Dedup(rows)[j] == rows[FirstPositions(rows)[j]]
  {
    if rows != [] {
      var n := |rows| - 1;
      var front := rows[..n];
      DedupAtFirstPositions(front);
      forall i | 0 <= i < n ensures front[i] == rows[i] { }
    }
  }

  /** The checked tag names in key order. */
  function Checked(taxonomy: seq<string>, vars: map<string, bool>): (r: seq<string>)
    ensures forall x :: x in r <==> x in taxonomy && x in vars && vars[x]
  {
    if taxonomy == [] then []
    else
      var n := |taxonomy| - 1;
      assert taxonomy == taxonomy[..n] + [taxonomy[n]];
      Checked(taxonomy[..n], vars)
      + (if taxonomy[n] in vars && vars[taxonomy[n]] then [taxonomy[n]] else [])
  }

  /** The positions of the checked names in the key order, in increasing order. */
  function CheckedPositions(taxonomy: seq<string>, vars: map<string, bool>): seq<nat> {
    if taxonomy == [] then []
    else
      var n := |taxonomy| - 1;
      CheckedPositions(taxonomy[..n], vars)
      + (if taxonomy[n] in vars && vars[taxonomy[n]] then [n] else [])
  }

  /** The checked positions increase, and a key's position is among them exactly when its box is checked. */
  lemma {:induction false} CheckedPositionsExact(taxonomy: seq<string>, vars: map<string, bool>)
    ensures forall j :: 0 <= j < |CheckedPositions(taxonomy, vars)| ==>
              CheckedPositions(taxonomy, vars)[j] < |taxonomy|
    ensures forall j, k :: 0 <= j < k < |CheckedPositions(taxonomy, vars)| ==>
              CheckedPositions(taxonomy, vars)[j] < CheckedPositions(taxonomy, vars)[k]
    ensures forall i :: 0 <= i < |taxonomy| ==>
              (i in CheckedPositions(taxonomy, vars) <==> taxonomy[i] in vars && vars[taxonomy[i]])
  {
    if taxonomy != [] {
      var n := |taxonomy| - 1;
      var front := taxonomy[..n];
      CheckedPositionsExact(front, vars);
      forall i | 0 <= i < n ensures front[i] == taxonomy[i] { }
    }
  }

  /**
   * The collected list follows the key order: its j-th name is the key at
   * the j-th checked position.
   */
  lemma {:induction false} CheckedAtPositions(taxonomy: seq<string>, vars: map<string, bool>)
    ensures |Checked(taxonomy, vars)| == |CheckedPositions(taxonomy, vars)|
    ensures forall j :: 0 <= j < |CheckedPositions(taxonomy, vars)| ==>
              CheckedPositions(taxonomy, vars)[j] < |taxonomy| &&
              Checked(taxonomy, vars)[j] == taxonomy[CheckedPositions(taxonomy, vars)[j]]
  {
    if taxonomy != [] {
      var n := |taxonomy| - 1;
      var front := taxonomy[..n];
      CheckedAtPositions(front, vars);
      forall i | 0 <= i < n ensures front[i] == taxonomy[i] { }
    }
  }

  /** The list a save writes: the checked names, then the sentinel unless it is checked. */
  function SavedTags(taxonomy: seq<string>, vars: map<string, bool>): seq<string> {
    var tags := Checked(taxonomy, vars);
    if Reviewed in tags then tags else tags + [Reviewed]
  }

  /**
   * The selection that loading an item leaves: its saved names that are
   * taxonomy names. Only `assigned_tags` is consulted.
   */
  function Restored(taxonomy: seq<string>, savedTags: Option<seq<string>>): (r: set<string>)
    ensures r <= Names(taxonomy)
    ensures savedTags.None? ==> r == {}
    ensures savedTags.Some? ==> r <= Names(savedTags.value)
    ensures savedTags.Some? ==> forall t :: t in savedTags.value && t in taxonomy ==> t in r
  {
    if savedTags.None? then {} else set t | t in savedTags.value && t in taxonomy
  }

  /** The selection that applying a suggestion list leaves: the suggested taxonomy names. */
  function Suggested(taxonomy: seq<string>, suggestions: seq<string>): (r: set<string>)
    ensures r <= Names(taxonomy) && r <= Names(suggestions)
    ensures forall t :: t in taxonomy && t in suggestions ==> t in r
  {
    set t | t in taxonomy && t in suggestions
  }

  lemma {:induction false} CheckedDistinct(taxonomy: seq<string>, vars: map<string, bool>)
    requires Distinct(taxonomy)
    ensures Distinct(Checked(taxonomy, vars))
  {
    if taxonomy != [] {
      var n := |taxonomy| - 1;
      var front := taxonomy[..n];
      assert Distinct(front);
      CheckedDistinct(front, vars);
      assert taxonomy[n] !in front;
      assert taxonomy[n] !in Checked(front, vars);
    }
  }

  lemma {:induction false} OccurrencesInDistinct(s: seq<string>, x: string)
    requires Distinct(s)
    ensures Occurrences(s, x) == if x in s then 1 else 0
  {
    if s != [] {
      assert Distinct(s[1..]);
      OccurrencesInDistinct(s[1..], x);
      assert s[0] !in s[1..];
    }
  }

  /**
   * A saved tag list starts with the checked names in key order, holds no
   * duplicates, holds `"reviewed"` exactly once (last, unless it was checked),
   * and holds exactly the checked taxonomy names besides it.
   */
  lemma SavedTagsReviewedOnce(taxonomy: seq<string>, vars: map<string, bool>)
    requires Distinct(taxonomy)
    ensures Checked(taxonomy, vars) <= SavedTags(taxonomy, vars)
    ensures Reviewed !in Checked(taxonomy, vars) ==>
              |SavedTags(taxonomy, vars)| == |Checked(taxonomy, vars)| + 1 &&
              SavedTags(taxonomy, vars)[|SavedTags(taxonomy, vars)| - 1] == Reviewed
    ensures Distinct(SavedTags(taxonomy, vars))
    ensures Occurrences(SavedTags(taxonomy, vars), Reviewed) == 1
    ensures forall x :: x in SavedTags(taxonomy, vars) <==>
              x == Reviewed || (x in taxonomy && x in vars && vars[x])
  {
    CheckedDistinct(taxonomy, vars);
    OccurrencesInDistinct(SavedTags(taxonomy, vars), Reviewed);
  }

  /**
   * Saving and then loading the same item restores the selection that was
   * saved, plus the sentinel when the sentinel is itself a taxonomy tag.
   */
  lemma SaveThenRestore(taxonomy: seq<string>, vars: map<string, bool>)
    requires vars.Keys == Names(taxonomy)
    ensures Restored(taxonomy, Some(SavedTags(taxonomy, vars)))
            == Selection(vars) + ({Reviewed} * Names(taxonomy))
  {
    var saved := SavedTags(taxonomy, vars);
    assert forall x :: x in saved <==> x == Reviewed || x in Checked(taxonomy, vars);
  }

  /** Names outside the taxonomy in a suggestion list are ignored. */
  lemma SuggestionsIgnoreUnknown(taxonomy: seq<string>, suggestions: seq<string>, unknown: string)
    requires unknown !in taxonomy
    ensures Suggested(taxonomy, suggestions + [unknown]) == Suggested(taxonomy, suggestions)
  {
  }

  /**
   * A non-empty answer made only of names outside the taxonomy selects
   * nothing: applying it clears every box.
   */
  lemma SuggestionsAllUnknownClear(taxonomy: seq<string>, suggestions: seq<string>)
    requires forall x :: x in suggestions ==> x !in taxonomy
    ensures Suggested(taxonomy, suggestions) == {}
  {
  }

  /** With tags A and B, the suggestion list [A, Q] selects A alone. */
  lemma SuggestionUnknownNameExample()
    ensures Suggested(["A", "B"], ["A", "Q"]) == {"A"}
  {
    assert "A" in Suggested(["A", "B"], ["A", "Q"]);
  }

  /** The `tag_vars` construction: one unchecked entry per row of the Tag column. */
  method BuildTagVars(rows: seq<string>) returns (names: seq<string>, vars: map<string, bool>)
    ensures names == Dedup(rows)
    ensures vars.Keys == Names(rows)
    ensures Selection(vars) == {}
  {
    names, vars := [], map[];
    for i := 0 to |rows|
      invariant names == Dedup(rows[..i])
      invariant vars.Keys == Names(rows[..i])
      invariant Selection(vars) == {}
    {
      assert rows[..i + 1][..i] == rows[..i];
      assert rows[..i + 1] == rows[..i] + [rows[i]];
      if rows[i] !in vars {
        names := names + [rows[i]];
      }
      vars := vars[rows[i] := false];
    }
    assert rows[..|rows|] == rows;
  }

  class Application {
    var items: seq<Item>
    var index: nat
    var tagVars: map<string, bool>
    var done: bool
    /** The `tag_vars` keys in insertion order, fixed at construction. */
    const taxonomy: seq<string>

    /** The fields agree, except that reaching the end may not have been noticed yet. */
    ghost predicate Consistent()
      reads this
    {
      Distinct(taxonomy) && tagVars.Keys == Names(taxonomy) &&
      index <= |items| && (done ==> index == |items|)
    }

    /** The session invariant: completed exactly when the cursor is past the last item. */
    ghost predicate Valid()
      reads this
    {
      Consistent() && (done <==> index == |items|)
    }

    /** The checked tags. */
    function Selected(): set<string>
      reads this
    {
      Selection(tagVars)
    }

    /**
     * Builds the check boxes from the Tag column, starts at the first item
     * and loads it (completing at once when there are no items).
     */
    constructor (loaded: seq<Item>, tagRows: seq<string>)
      ensures Valid()
      ensures items == loaded && index == 0 && taxonomy == Dedup(tagRows)
      ensures done <==> loaded == []
      ensures loaded == [] ==> Selected() == {}
      ensures loaded != [] ==> Selected() == Restored(taxonomy, loaded[0].assignedTags)
    {
      var names, vars := BuildTagVars(tagRows);
      items := loaded;
      taxonomy := names;
      tagVars := vars;
      index := 0;
      done := false;
      new;
      LoadItem();
    }

    /** Disables the four control buttons. */
    method ShowCompletionMessage()
      modifies this
      ensures done
      ensures items == old(items) && index == old(index) && tagVars == old(tagVars)
    {
      done := true;
    }

    /**
     * Completes when the cursor is past the end; otherwise clears every check
     * box and checks the item's saved tags that are taxonomy names.
     */
    method LoadItem()
      requires Consistent()
      modifies this
      ensures Valid()
      ensures items == old(items) && index == old(index)
      ensures old(index) == |items| ==> done && tagVars == old(tagVars)
      ensures old(index) < |items| ==>
                tagVars.Keys == old(tagVars).Keys &&
                Selected() == Restored(taxonomy, items[index].assignedTags)
    {
      if items == [] || index >= |items| {
        ShowCompletionMessage();
        return;
      }
      var item := items[index];
      var i := 0;
      while i < |taxonomy|
        invariant 0 <= i <= |taxonomy|
        invariant items == old(items) && index == old(index) && done == old(done)
        invariant tagVars.Keys == Names(taxonomy)
        invariant forall j :: 0 <= j < i ==> !tagVars[taxonomy[j]]
      {
        tagVars := tagVars[taxonomy[i] := false];
        i := i + 1;
      }
      assert forall t :: t in tagVars ==> !tagVars[t];
      if item.assignedTags.Some? {
        var tags := item.assignedTags.value;
        for k := 0 to |tags|
          invariant items == old(items) && index == old(index) && done == old(done)
          invariant tagVars.Keys == Names(taxonomy)
          invariant forall t :: t in tagVars ==> (tagVars[t] <==> t in tags[..k])
        {
          if tags[k] in tagVars {
            tagVars := tagVars[tags[k] := true];
          }
          assert tags[..k + 1] == tags[..k] + [tags[k]];
        }
        assert tags[..|tags|] == tags;
      }
    }

    /** Clicking one check box flips it; check boxes stay enabled on completion. */
    method Toggle(name: string)
      requires Valid() && name in tagVars
      modifies this
      ensures Valid()
      ensures items == old(items) && index == old(index) && done == old(done)
      ensures tagVars == old(tagVars)[name := !old(tagVars)[name]]
      ensures name in Selected() <==> name !in old(Selected())
    {
      tagVars := tagVars[name := !tagVars[name]];
    }

    /**
     * Applies a suggestion result: a non-empty list replaces the selection by
     * the suggested taxonomy names; a failure or an empty list changes nothing.
     */
    method GetSuggestions(suggestions: Option<seq<string>>)
      requires Valid()
      modifies this
      ensures Valid()
      ensures items == old(items) && index == old(index) && done == old(done)
      ensures tagVars.Keys == old(tagVars).Keys
      ensures old(index) == |items| || suggestions.None? || suggestions.value == [] ==>
                tagVars == old(tagVars)
      ensures old(index) < |items| && suggestions.Some? && suggestions.value != [] ==>
                Selected() == Suggested(taxonomy, suggestions.value)
    {
      if items == [] || index >= |items| {
        return;
      }
      if suggestions.Some? && suggestions.value != [] {
        var names := suggestions.value;
        for i := 0 to |taxonomy|
          invariant items == old(items) && index == old(index) && done == old(done)
          invariant tagVars.Keys == Names(taxonomy)
          invariant forall j :: 0 <= j < i ==> (tagVars[taxonomy[j]] <==> taxonomy[j] in names)
        {
          tagVars := tagVars[taxonomy[i] := taxonomy[i] in names];
        }
      }
    }

    /**
     * Writes the saved tag list into the current item and then saves the
     * whole list; `writeOk` is whether the file write succeeds. Nothing
     * happens when there is no current item.
     */
    method SaveCurrentTags(writeOk: bool) returns (outcome: SaveOutcome)
      requires Valid()
      modifies this
      ensures Valid()
      ensures index == old(index) && tagVars == old(tagVars) && done == old(done)
      ensures old(index) == |old(items)| ==> items == old(items) && outcome == NothingToSave
      ensures old(index) < |old(items)| ==>
                |items| == |old(items)| &&
                items[index] == old(items[index]).(assignedTags := Some(SavedTags(taxonomy, tagVars))) &&
                (forall j :: 0 <= j < |items| && j != index ==> items[j] == old(items[j])) &&
                outcome == (if writeOk then Written else WriteFailed)
    {
      if items == [] || index >= |items| {
        return NothingToSave;
      }
      var savedTags := Checked(taxonomy, tagVars);
      if Reviewed !in savedTags {
        savedTags := savedTags + [Reviewed];
      }
      items := items[index := items[index].(assignedTags := Some(savedTags))];
      outcome := if writeOk then Written else WriteFailed;
    }

    /** Moves the cursor forward by one and loads what is there. */
    method NextItem()
      requires Valid() && !done
      modifies this
      ensures Valid()
      ensures items == old(items) && index == old(index) + 1
      ensures index == |items| ==> done && tagVars == old(tagVars)
      ensures index < |items| ==> Selected() == Restored(taxonomy, items[index].assignedTags)
    {
      index := index + 1;
      LoadItem();
    }

    /** The Skip button: advances without touching any item. */
    method Skip()
      requires Valid() && !done
      modifies this
      ensures Valid()
      ensures items == old(items) && index == old(index) + 1
      ensures index == |items| ==> done && tagVars == old(tagVars)
      ensures index < |items| ==> Selected() == Restored(taxonomy, items[index].assignedTags)
    {
      NextItem();
    }

    /** The Save & Next button: saves, then advances whatever the write outcome. */
    method SaveAndNext(writeOk: bool) returns (outcome: SaveOutcome)
      requires Valid() && !done
      modifies this
      ensures Valid()
      ensures index == old(index) + 1 && |items| == |old(items)|
      ensures items[old(index)] ==
                old(items[index]).(assignedTags := Some(SavedTags(taxonomy, old(tagVars))))
      ensures forall j :: 0 <= j < |items| && j != old(index) ==> items[j] == old(items[j])
      ensures outcome == if writeOk then Written else WriteFailed
      ensures index == |items| ==> done && tagVars == old(tagVars)
      ensures index < |items| ==> Selected() == Restored(taxonomy, items[index].assignedTags)
    {
      outcome := SaveCurrentTags(writeOk);
      NextItem();
    }

    /** The Back button: moves the cursor back by one and reloads, unless at the first item. */
    method GoBack()
      requires Valid() && !done
      modifies this
      ensures Valid()
      ensures items == old(items) && !done
      ensures old(index) == 0 ==> index == 0 && tagVars == old(tagVars)
      ensures old(index) > 0 ==>
                index == old(index) - 1 &&
                Selected() == Restored(taxonomy, items[index].assignedTags)
    {
      if index > 0 {
        index := index - 1;
        LoadItem();
      }
    }

    /**
     * A click on one of the four control buttons, each wired to its handler.
     * A disabled button does nothing, so once completed the session never
     * changes again.
     */
    method Click(button: Button, suggestions: Option<seq<string>>, writeOk: bool)
      requires Valid()
      modifies this
      ensures Valid()
      ensures old(done) ==>
                done && items == old(items) && index == old(index) && tagVars == old(tagVars)
      ensures tagVars.Keys == old(tagVars).Keys
      ensures !old(done) && button == BackButton ==>
                items == old(items) && index == (if old(index) > 0 then old(index) - 1 else 0) &&
                (old(index) == 0 ==> tagVars == old(tagVars))
      ensures !old(done) && button == SuggestButton ==>
                items == old(items) && index == old(index) &&
                (suggestions.None? || suggestions.value == [] ==> tagVars == old(tagVars)) &&
                (suggestions.Some? && suggestions.value != [] ==>
                   Selected() == Suggested(taxonomy, suggestions.value))
      ensures !old(done) && button == SaveButton ==>
                index == old(index) + 1 && |items| == |old(items)| &&
                items[old(index)] ==
                  old(items[index]).(assignedTags := Some(SavedTags(taxonomy, old(tagVars)))) &&
                (forall j :: 0 <= j < |items| && j != old(index) ==> items[j] == old(items[j]))
      ensures !old(done) && button == SkipButton ==>
                items == old(items) && index == old(index) + 1
      ensures !old(done) && (button == SaveButton || button == SkipButton) && index == |items| ==>
                done && tagVars == old(tagVars)
      ensures !old(done) && index < |items| &&
              (button == SaveButton || button == SkipButton || (button == BackButton && old(index) > 0)) ==>
                Selected() == Restored(taxonomy, items[index].assignedTags)
    {
      if done {
        return;
      }
      match button
      case BackButton => GoBack();
      case SuggestButton => GetSuggestions(suggestions);
      case SaveButton => var _ := SaveAndNext(writeOk);
      case SkipButton => Skip();
    }

    /**
     * Save & Next followed by Back, away from the last item, comes back to
     * the same item with the selection that was saved, plus the sentinel
     * when the sentinel is a taxonomy tag.
     */
    method SaveNextThenBack(writeOk: bool)
      requires Valid() && !done && index + 1 < |items|
      modifies this
      ensures Valid()
      ensures index == old(index)
      ensures Selected() == old(Selected()) + ({Reviewed} * Names(taxonomy))
    {
      ghost var before := tagVars;
      var _ := SaveAndNext(writeOk);
      GoBack();
      SaveThenRestore(taxonomy, before);
    }
  }
}
