# MessageBag in Dafny

A model of `MessageBag`, a small in-memory container. It collects application messages (validation errors, notices) under caller-chosen labels called bags. The container keeps one ordered list of `{bag, message}` entries, oldest first. You can add an entry, ask whether a bag has entries, read a bag's messages or its first message, clear one bag, or clear everything.

The project has two modules:

- `Entries` (`entries.dfy`) holds the pure part. It defines the `Entry` value, the `Lookup` outcome of `first` (`Found(message)` or `NotFound`), and the label filter `Where`. `_filterBag` and `clear` use the same filter: `Filter` keeps the entries with the label (`===`) and `Without` keeps the entries without it (`!==`). `Positions` lists the indices whose entries pass the label test. It is computed by the same recursion as the filter, but its contract characterises it on its own terms: the indices are strictly increasing, and an index is listed exactly when its entry passes. `WhereAtPositions` then proves that the filter is the list sampled at those indices. The lemmas about adding and clearing are stated on sequences here.
- `MessageBags` (`message_bag.dfy`) holds the class `MessageBag<L, M>`. Its one field is `items: seq<Entry<L, M>>`, the source's `_items`. `Add`, `Clear` and `ClearAll` change that field, so they are methods with `modifies this`. Each one states the new list and what the queries now answer. `FilterBag`, `Has`, `Get` and `First` only read the list, so they are functions with `reads this`. Each is specified against the list itself.

`MessageBags` also holds a caller's view of the container: the two-bag setup of tests/MessageBag.spec.js:206-274, where two messages are added to each of two labels and then read back and cleared. `FillOneBag` and `FillSecondBag` perform the adds, and `TwoBagsScenario` reads both labels and a third, absent one, then clears, all through the contracts alone.

The labels' type `L` needs ordinary equality. `L` also excludes heap references (`!new`), so a postcondition can compare queries on any label before and after an update. The message type `M` is unconstrained.

## Model

| member | source | states |
|---|---|---|
| `MessageBags.MessageBag.constructor` | src/MessageBag.js:2-5 | A new container holds no entries, so every label has `Has` false, `Get` empty and `First` `NotFound`. |
| `MessageBags.MessageBag.Add` | src/MessageBag.js:7-9 | The list grows by one, with `{bag, message}` last and every earlier entry unchanged. Afterwards `bag` is present and `Get(bag)` is the old one plus `message` at its end. For every other label `Get` is unchanged. What `Has` and `First` answer follows from the contracts of `Get`, `Has` and `First`: both are unchanged for other labels, and `First(bag)` is kept when the bag already had entries and is `Found(message)` when it had none. |
| `MessageBags.MessageBag.FilterBag` | src/MessageBag.js:26-28 | Every result entry carries label `bag`. The result is exactly the list's entries at the positions whose label is `bag`, in list order. |
| `MessageBags.MessageBag.Has` | src/MessageBag.js:18-20 | True if and only if some entry of the list carries label `bag`. |
| `MessageBags.MessageBag.Get` | src/MessageBag.js:22-24 | The result has one message per entry of `FilterBag(bag)`, and the k-th is the message of the k-th entry labelled `bag`, in list order. It is empty exactly when `Has(bag)` is false. |
| `MessageBags.MessageBag.First` | src/MessageBag.js:11-16 | `Found` exactly when `Has(bag)`, and then the message is `Get(bag)[0]`, the message of the earliest entry labelled `bag`. Otherwise `NotFound`. |
| `MessageBags.MessageBag.Clear` | src/MessageBag.js:30-32 | The list becomes the entries without label `bag`, so `Has(bag)` is false afterwards. `Has` and `Get` are unchanged for every other label. The list is unchanged when `bag` had no entries. |
| `MessageBags.MessageBag.ClearAll` | src/MessageBag.js:34-36 | The list is empty, so every label has `Has` false, `Get` empty and `First` `NotFound`. |
| `MessageBags.FillOneBag` | tests/MessageBag.spec.js:208-209 | A new container after two adds under `bag1` answers `Get(bag1) == [a, b]` and `First(bag1) == Found(a)`, and every other label is still empty. |
| `MessageBags.FillSecondBag` | tests/MessageBag.spec.js:210-211 | Two adds under a label `bag2` that was empty give `Get(bag2) == [c, d]` and leave `Get` of every other label as it was. |
| `MessageBags.TwoBagsScenario` | tests/MessageBag.spec.js:214-274 | After the four adds, both labels are present, `Get` gives `[a, b]` and `[c, d]` and `First` gives `a` and `c`, while an absent third label has `Has` false, `Get` empty and `First` `NotFound`. Clearing `bag1` removes it and keeps `bag2` with `[c, d]`. Clearing `bag2` then leaves neither label present, and `First(bag2)` is `NotFound`. |
| `Entries.Where` | src/MessageBag.js:26-32 | The filter result is no longer than its input, and every entry in it passes the label test. |
| `Entries.Messages` | src/MessageBag.js:23 | The result has one message per entry, and the k-th message is the k-th entry's message. |
| `Entries.Positions` | src/MessageBag.js:26-32 | The listed positions are valid indices and strictly increasing, and a position is listed exactly when its entry passes the label test. |
| `Entries.WhereAtPositions` | src/MessageBag.js:26-32 | The filter result is the input sampled at the reference positions. By the contract of `Positions`, it holds every passing entry and no other entry, in the original relative order. |
| `Entries.WhereAppend` | src/MessageBag.js:7-9 | Appending one entry extends each filter by that entry exactly when it passes the test. |
| `Entries.FilterEmptyIff` | src/MessageBag.js:18-20 | A bag's filter is empty if and only if no entry carries the label. |
| `Entries.FirstIsEarliest` | src/MessageBag.js:11-16 | For a non-empty bag, the head of its filter is the entry at the earliest position carrying that label. |
| `Entries.AddFilters` | src/MessageBag.js:7-9 | Adding under `bag` appends the new entry to `bag`'s filter and leaves the filter of every other label equal. |
| `Entries.AddKeepsFirst` | src/MessageBag.js:7-16 | Adding any entry keeps the head of a bag that was already non-empty. |
| `Entries.ClearRemovesBag` | src/MessageBag.js:30-32 | After a clear of `bag`, no entry carries that label. |
| `Entries.ClearKeepsOthers` | src/MessageBag.js:30-32 | A clear of `bag` leaves the filter of every other label exactly as it was. |
| `Entries.ClearAbsentIsNoop` | src/MessageBag.js:30-32 | A clear of a label with no entries leaves the list unchanged. |
| `Entries.ClearIdempotent` | src/MessageBag.js:30-32 | Clearing a bag twice equals clearing it once. |
| `Entries.FilterSplits` | src/MessageBag.js:26-32 | The kept and the cleared entries together are the whole list as a multiset. No entry is lost or duplicated. |

## Left out

- Label equality: JavaScript's `===` does not equal `NaN` to itself, and it compares object labels by reference. The model uses ordinary value equality on a label type without heap references. Object labels compared by identity are therefore not modelled.
- Failure of `first`: the source throws a bare `Error`. The model returns `NotFound`, which keeps only the failure condition and drops the exception object and its stack.
- Copies of results: `get` and `_filterBag` return new arrays, but `filter` copies only shallowly. `_filterBag`'s result holds the very `{bag, message}` objects stored in `_items`, and `get` returns the stored message objects themselves. So a caller who mutates one of those objects changes the container's contents. The model's `Entry` values and messages are immutable, so this sharing cannot be expressed, and the model does not capture it.
- Packaging: the ES module export (src/MessageBag.js:39) and the class-field syntax are not modelled.
- MessageBags.TwoBagsScenario: does not replay the two further adds of tests/MessageBag.spec.js:246-264 or the `_items` lengths checked after each clear (lines 269 and 273). The `items` clause of the `Add` and `Clear` contracts states those lists directly, and carrying the whole list through the scenario's six updates costs more than the proof budget allows.
- Scan direction: `Entries.Where` is defined by recursion on the last entry, while `Array.prototype.filter` scans from the first. Both give the same result, and `WhereAtPositions` with the contract of `Positions` characterises it independently of how it is computed.
