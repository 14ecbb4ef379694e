# Zotero tagger: review session and abstract extraction, in Dafny

This project models the two pieces of logic in the Zotero literature tagger.

- **`FetchAbstracts`** (`fetch_abstracts.dfy`) covers the fetch script. It first checks for placeholder credentials. It then keeps the library items whose `abstractNote` is present and non-empty. Each kept item becomes a `{key, title, abstract, tags}` record, with `""` and `[]` standing in for a missing title or tag list. The loop is `ExtractRecords`, proved against the specification function `Extracted`. Lemmas show three things about the output: it keeps the input order, it holds exactly the items that have an abstract, and every field is projected correctly.
- **`GuiTagger`** (`gui_tagger.dfy`) covers the tagging window's review session, as the class `Application`. Its state is:
  - the item list;
  - the cursor `index`;
  - `tagVars`, the check boxes as a map from tag name to checked state (a Dafny map has no order);
  - `done`, the completed state, in which the four control buttons are disabled;
  - the constant `taxonomy`, the tag names in the order they were inserted into `tag_vars`. This order decides the order of a saved tag list.

  `Valid()` is the session invariant. It says the cursor stays in `[0, |items|]`, `done` holds exactly when the cursor equals `|items|`, and the check-box keys are the taxonomy. Each button's handler is a method whose `ensures` gives the whole new state. Those postconditions use specification functions on values: `Restored` (what loading an item checks), `SavedTags` (the list a save writes) and `Suggested` (what applying suggestions checks). Lemmas about these functions give the session's promises:
  - `"reviewed"` occurs exactly once in every saved list;
  - a saved list follows the taxonomy order, with `"reviewed"` last unless it was checked;
  - loading an item after saving it restores the saved selection;
  - an unknown suggested name does not affect whether a taxonomy name is checked.

  A suggestion answer made only of unknown names is still non-empty, so it counts as a success. Applying it clears every box (`SuggestionsAllUnknownClear`). Only `None` or an empty list leaves the boxes as they were.

`Wrappers` (`wrappers.dfy`) holds the `Option` type. It stands for a JSON key that may be absent and for a suggestion request that may fail.

The external inputs become parameters:
- the library service's answer is `library: seq<LibraryItem>`;
- the loaded item file is `loaded: seq<Item>`;
- the taxonomy file's `Tag` column, in category-group order, is `tagRows`;
- the language-model answer is `Option<seq<string>>`, where `None` is any failure;
- the outcome of writing the tagged-items file is `writeOk: bool`.

Behaviour of the code that the model keeps:
- **Save & Next after a failed write.** When the write fails, the code reports the error, keeps the in-memory update and still advances (`scripts/gui_tagger.py:177-179`, `201-205`). `SaveAndNext` advances whatever `writeOk` is.
- **Toggling.** A check box exists only for a taxonomy name, so `Toggle` requires a key of `tagVars`.
- **Empty suggestion list.** An empty list is falsy in the code, so it counts as a failure and leaves the selection unchanged. It does not clear the selection.
- **Completion.** The completed state is not a field in the code. It is the disabled state of the four buttons, set in `show_completion_message`; it is modelled as `done`. `Click` models a button press: it does nothing while `done` holds. The handlers that move the cursor (`Skip`, `SaveAndNext`, `GoBack`) require `!done`, because Tk never calls a disabled button's command.

## Model

| member | source | states |
|---|---|---|
| `FetchAbstracts.FetchZoteroItems` | scripts/fetch_abstracts.py:21-46 | Returns `Unconfigured` (nothing fetched or saved) exactly when the library id is `YOUR_LIBRARY_ID` or the API key is `YOUR_API_KEY`; otherwise it saves exactly `Extracted` of the library's items |
| `FetchAbstracts.IsPlaceholder` | scripts/fetch_abstracts.py:22 | True when the library id is `YOUR_LIBRARY_ID` or the API key is `YOUR_API_KEY`. Its contract is stated by `FetchZoteroItems` |
| `FetchAbstracts.HasAbstract` | scripts/fetch_abstracts.py:35 | True when `abstractNote` is present and non-empty (Python truthiness of a string). Its contract is stated by `KeptPositions` |
| `FetchAbstracts.Project` | scripts/fetch_abstracts.py:36-41 | The record saved for one item, with `""` and `[]` for a missing title or tag list. Its contract is stated by `ExtractedFields` |
| `FetchAbstracts.Extracted` | scripts/fetch_abstracts.py:32-42 | The extracted records are never more than the input items, and every record's abstract is non-empty |
| `FetchAbstracts.ExtractRecords` | scripts/fetch_abstracts.py:32-42 | The append loop computes exactly `Extracted(items)` |
| `FetchAbstracts.KeptPositions` | scripts/fetch_abstracts.py:33-35 | The kept positions are strictly increasing and in range, and an item is kept if and only if its `abstractNote` is present and non-empty |
| `FetchAbstracts.ExtractedIsKeptProjection` | scripts/fetch_abstracts.py:32-42 | The j-th output record is the projection of the j-th kept input item, so the output keeps the input's relative order |
| `FetchAbstracts.ExtractedFields` | scripts/fetch_abstracts.py:35-41 | Each output record's key is the item's key. Its title is `data.title` or `""`. Its abstract is `data.abstractNote`. Its tags are `data.tags` or `[]` |
| `FetchAbstracts.ExtractedAppend` | scripts/fetch_abstracts.py:32-42 | Extraction of a concatenation is the concatenation of the extractions, so each item is judged on its own |
| `GuiTagger.Dedup` | scripts/gui_tagger.py:118-125 | The `tag_vars` key order has no duplicates and holds exactly the names of the Tag column |
| `GuiTagger.FirstPositionsOrdered` | scripts/gui_tagger.py:121-125 | The Tag-column positions kept by the key order are in range and strictly increasing |
| `GuiTagger.FirstPositionAt` | scripts/gui_tagger.py:121-125 | A row is kept exactly when its name has not occurred in an earlier row, because re-assigning a dict key keeps the key's first position |
| `GuiTagger.FirstPositionsExact` | scripts/gui_tagger.py:121-125 | The same, for every row at once |
| `GuiTagger.DedupAtFirstPositions` | scripts/gui_tagger.py:121-125 | The j-th key is the Tag-column row at the j-th first-occurrence position, so the key order is the first-occurrence order |
| `GuiTagger.BuildTagVars` | scripts/gui_tagger.py:116-125 | The construction loop yields the first-occurrence key order and one entry per Tag-column name, all unchecked |
| `GuiTagger.Checked` | scripts/gui_tagger.py:196 | A name is in the collected list if and only if it is a taxonomy key whose box is checked |
| `GuiTagger.CheckedPositionsExact` | scripts/gui_tagger.py:196 | The positions the collected list takes from the key order increase, and a key's position is taken exactly when its box is checked |
| `GuiTagger.CheckedAtPositions` | scripts/gui_tagger.py:196 | The j-th collected name is the key at the j-th checked position, so the list follows the `tag_vars` order |
| `GuiTagger.CheckedDistinct` | scripts/gui_tagger.py:196 | The collected list of checked names has no duplicates |
| `GuiTagger.SavedTags` | scripts/gui_tagger.py:196-198 | The list a save writes: the checked names, then `"reviewed"` unless it is checked. Its contract is stated by `SavedTagsReviewedOnce` |
| `GuiTagger.SavedTagsReviewedOnce` | scripts/gui_tagger.py:196-198 | A saved list starts with the checked names in key order. When `"reviewed"` was not checked, it is appended as the one extra, last element. The list has no duplicates and holds `"reviewed"` exactly once. It holds exactly the checked taxonomy names besides `"reviewed"` |
| `GuiTagger.Restored` | scripts/gui_tagger.py:142-149 | Loading checks exactly the saved names that are taxonomy names. An item without `assigned_tags` leaves nothing checked |
| `GuiTagger.SaveThenRestore` | scripts/gui_tagger.py:142-149 | Loading a just-saved list checks exactly the saved selection, plus `"reviewed"` only when `"reviewed"` is a taxonomy tag |
| `GuiTagger.Suggested` | scripts/gui_tagger.py:168-170 | Applying suggestions checks exactly the suggested names that are taxonomy names |
| `GuiTagger.SuggestionsIgnoreUnknown` | scripts/gui_tagger.py:169-170 | Adding a name outside the taxonomy to a suggestion list leaves the selection that list produces unchanged. Whether the answer counts as non-empty is decided earlier, at line 168 |
| `GuiTagger.SuggestionsAllUnknownClear` | scripts/gui_tagger.py:168-170 | An answer made only of names outside the taxonomy selects nothing, so applying a non-empty such answer clears every box |
| `GuiTagger.SuggestionUnknownNameExample` | scripts/gui_tagger.py:169-170 | With tags A and B, the suggestion list [A, Q] checks A alone |
| `GuiTagger.Application.constructor` | scripts/gui_tagger.py:37-43 | The session starts at index 0 with the deduplicated taxonomy. It is completed at once exactly when there are no items; otherwise the first item is loaded |
| `GuiTagger.Application.ShowCompletionMessage` | scripts/gui_tagger.py:240-245 | Sets the completed state and changes nothing else |
| `GuiTagger.Application.LoadItem` | scripts/gui_tagger.py:127-149 | At the end of the list it completes and leaves the boxes as they were. Otherwise the checked set becomes `Restored` of the item's `assigned_tags`, with the same keys. The invariant is re-established |
| `GuiTagger.Application.Toggle` | scripts/gui_tagger.py:122-125 | Flips exactly one check box and changes nothing else |
| `GuiTagger.Application.GetSuggestions` | scripts/gui_tagger.py:158-173 | With a current item and a non-empty suggestion list, the checked set becomes `Suggested`. With `None`, an empty list, or a completed session, nothing changes |
| `GuiTagger.Application.SaveCurrentTags` | scripts/gui_tagger.py:193-205 | Sets only `items[index].assigned_tags`, to `SavedTags`. All other items, the cursor and the boxes are unchanged. It does nothing when there is no current item. The outcome reports whether the write failed |
| `GuiTagger.Application.NextItem` | scripts/gui_tagger.py:184-186 | Increases the cursor by exactly one without changing any item, then loads or completes |
| `GuiTagger.Application.Skip` | scripts/gui_tagger.py:181-182 | Advances by exactly one and leaves every item unchanged |
| `GuiTagger.Application.SaveAndNext` | scripts/gui_tagger.py:177-179 | Saves the current item's tags and always advances by one, even when the write fails. Only the item that was current changes |
| `GuiTagger.Application.GoBack` | scripts/gui_tagger.py:188-191 | At index 0 nothing changes. Otherwise the cursor drops by one and that item's saved tags are reloaded. Items are never changed |
| `GuiTagger.Application.Click` | scripts/gui_tagger.py:85-95 | Each button runs its handler. Back moves the cursor back by one, floored at 0. Suggest keeps the items and the cursor and applies a non-empty answer. Save & Next saves only the current item's tags, then advances by one. Skip advances by one without changing any item. After a move, the new item's saved tags are loaded. When Save & Next or Skip reaches the end, the session completes and the boxes are left as they were. Every button keeps the invariant. In the completed state, a press changes nothing and the session stays completed |
| `GuiTagger.Application.SaveNextThenBack` | scripts/gui_tagger.py:177-191 | Save & Next then Back, from any item but the last, returns to the same item. The selection is the pre-save one, plus `"reviewed"` when it is a taxonomy tag |

## Left out

- The Tk widget tree is not modelled: `CollapsiblePane`, the layout, the title and abstract text boxes, the progress label and `update_progress`, the two-second status timer, and the message boxes. Only which names become check-box keys, and the disabled state of the four buttons, have logic.
- The language-model call (`get_gemini_suggestions`) is not modelled: reading its API key, building the prompt, the client call and parsing the response. Only its result is modelled, as `Option<seq<string>>`. A non-list `tags` value in the response is not modelled (for a string, Python's `in` would match substrings).
- Reading the item file and the taxonomy CSV is not modelled. A missing file is the empty input: no items, or no taxonomy rows. `pandas` grouping by category is also not modelled: the Tag column arrives already in group order.
- Writing `data/tagged_items.json` and `data/zotero_items.json` is not modelled. The tagged-items write is the `writeOk` input. The saved list of records is the fetch's `Saved` outcome.
- The credential reading and the library-service connection in the fetch script are not modelled. The fetched items are the `library` parameter, and the console messages are left out.
- A tag name that appears twice in the Tag column gets a second check box. In the code, the earlier box is then bound to a variable that `tag_vars` no longer holds. The model keeps one entry per name and does not model the orphaned box.
- Library tags are modelled as plain strings; they are copied and never inspected. `abstractNote` and `title` are modelled as strings; other JSON value types are not modelled.
- `scripts/tag_abstracts.py` only creates the window and the `Application`, so it is not part of this model.
