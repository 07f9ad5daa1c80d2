# TokenAnnotator span store, in Dafny

A model of the span-editing logic of the `TokenAnnotator` React component of
react-text-annotate (`src/TokenAnnotator.tsx`). The component shows a token
sequence and keeps a host-owned collection of annotations ("spans"), each
covering the token interval `[start, end)` with some payload (the covered
tokens, a tag, ...). It never edits the collection in place: it hands a new
collection to the host's `onChange`.

- **Add path** (`handleMouseUp`): when the mouse is released over a selection,
  the handler reads the `data-i` token index of the anchor's and the focus's
  parent elements, swaps them when the selection runs backwards, makes the end
  exclusive (`end += 1`), passes `{start, end, tokens}` through `getSpan`
  (identity unless the caller supplied a hook), appends the result to a copy of
  the collection, sorts the copy in place by `(start, end)` and emits it; then
  it clears the native selection. An empty selection, or a missing `onChange`,
  does nothing; a selection whose endpoint is not inside a token clears the
  selection and emits nothing.
- **Remove path** (`handleSplitClick`): clicking a mark finds the first span
  with exactly that `start` and `end` (payload ignored) and emits the
  collection without it; when nothing matches, `onChange` is not called.

Modules:

- `Wrappers` (`wrappers.dfy`): `Option`.
- `Spans` (`spans.dfy`): `Span<P>`, the sort comparator `Compare`, `Sorted`,
  and `Filter` — the entries of one interval, in order, used to state
  stability.
- `SpanSort` (`sort.dfy`): `value.sort(comparator)`. The engine's sort is
  stable, so it is modelled as an insertion sort: `StableSort` on sequences
  and `SortInPlace`, the same algorithm on an `array`, proved equal to it. The
  lemmas show that the result is sorted, a permutation and stable, and that
  these three facts determine it (`StableSortCharacterized`), so any stable
  sort gives the same array.
- `SpanStore` (`store.dfy`): the add result `AddSpan`, `FindSplit`
  (`findIndex`), the remove result `RemoveSplit`, and the store properties:
  the round trip, sortedness kept by add and remove, first-match-only removal.
- `Annotator` (`annotator.dfy`): the DOM facts the handler observes as a
  `Selection` value, `TokenSlice` (`Array.prototype.slice`), `GetSpan`, and
  `HandleMouseUp`, an imperative method that resolves the interval and calls
  `AppendAndSort`. That method builds a fresh array, fills it with the
  collection plus the new span, and sorts it in place.

Three behaviours of the code are easy to miss:

- With no matching span, the remove path does not call `onChange` at all; it
  does not emit the unchanged collection (`RemoveSplit` returns `None`).
- Removal is not idempotent. With two spans on one interval, a second click
  removes the second one (`RemoveTwiceRemovesTwo`).
- The code accepts overlapping and duplicate spans and sorts them with the
  rest. Line 22 leaves the overlap policy open, and the model adds none.

## Model

| member | source | states |
|---|---|---|
| `Spans.Compare` | src/TokenAnnotator.tsx:78-90 | The result is -1, 0 or 1. It is 0 exactly when both start and end are equal. It is negative exactly when the first span comes first by start, then by end. |
| `Spans.CompareAntisymmetric` | src/TokenAnnotator.tsx:78-90 | Swapping the two spans flips the sign of the comparator. |
| `Spans.CompareTransitive` | src/TokenAnnotator.tsx:78-90 | "Not after" is transitive, and so is "strictly before": a total preorder on (start, end). |
| `Spans.CompareIgnoresPayload` | src/TokenAnnotator.tsx:78-90 | Spans with the same start and end compare the same, whatever their payload. |
| `Spans.Filter` | src/TokenAnnotator.tsx:78-90 | Models no source line. It is the device that specifies the sort's stability: the entries of one interval, in input order, no more of them than the input has, and all on that interval. |
| `SpanSort.StableSortSorted` | src/TokenAnnotator.tsx:78-90 | The sorted array is ascending by (start, end), whatever order the input had. |
| `SpanSort.StableSortMultiset` | src/TokenAnnotator.tsx:78-90 | The sort keeps the same length and permutes its input. |
| `SpanSort.StableSortFilter` | src/TokenAnnotator.tsx:78-90 | The sort is stable: entries with the same interval keep their relative order. |
| `SpanSort.StableSortOfSorted` | src/TokenAnnotator.tsx:78-90 | An input that is already sorted comes back unchanged. |
| `SpanSort.SortedFiltersDetermine` | src/TokenAnnotator.tsx:78-90 | Two sorted sequences that hold the same entries per interval, in the same order, are equal. |
| `SpanSort.StableSortCharacterized` | src/TokenAnnotator.tsx:78-90 | A sequence is the sort's result if and only if it is sorted and keeps every interval's entries in input order. |
| `SpanSort.InsertInPlace` | src/TokenAnnotator.tsx:78-90 | One pass of the in-place sort moves a[i] into the sorted prefix a[..i] behind every entry that is not after it. The rest of the array is untouched. |
| `SpanSort.SortInPlace` | src/TokenAnnotator.tsx:78 | Sorting the array in place leaves exactly the stable sort of its old contents. |
| `SpanStore.AddSpan` | src/TokenAnnotator.tsx:71-90 | The emitted collection has one more entry than `value`. It is sorted and is a permutation of `value` plus the new span. Per interval it holds `value`'s entries in order, with the new span last. |
| `SpanStore.AddIntoSorted` | src/TokenAnnotator.tsx:71-90 | Adding to a sorted `value` inserts the new span after every entry that is not after it and before every entry that is. All other entries keep their order and payload. |
| `SpanStore.FindSplit` | src/TokenAnnotator.tsx:98 | The result is -1 exactly when no entry matches (start, end). Otherwise it is the index of a match, and no earlier entry matches. |
| `SpanStore.RemoveAt` | src/TokenAnnotator.tsx:100-103 | Leaving out index i gives one entry fewer. Entries before i stay where they were; entries after i move down by one. |
| `SpanStore.RemoveSplit` | src/TokenAnnotator.tsx:96-105 | `onChange` is called exactly when some entry matches. In that case it gets `value` without its first matching entry. |
| `SpanStore.RemoveSplitFilters` | src/TokenAnnotator.tsx:98-103 | Removal drops the first entry on the clicked interval and keeps that interval's other entries in order. Entries on other intervals are untouched. The result is a permutation of `value` minus the removed entry. |
| `SpanStore.RemoveKeepsSorted` | src/TokenAnnotator.tsx:96-105 | Removing from a sorted collection leaves it sorted. |
| `SpanStore.FindSplitIgnoresPayload` | src/TokenAnnotator.tsx:98 | Matching looks only at start and end. Collections that agree on every entry's interval give the same index. |
| `SpanStore.AddThenRemove` | src/TokenAnnotator.tsx:71-103 | If no entry has x's interval, adding x and then clicking that interval emits `value` sorted. |
| `SpanStore.AddThenRemoveSorted` | src/TokenAnnotator.tsx:71-103 | Round trip: for a sorted `value` with no entry on x's interval, add then remove gives back exactly `value`. |
| `SpanStore.RemoveTwiceRemovesTwo` | src/TokenAnnotator.tsx:98-103 | With two entries on one interval, a second click still emits, and removes a second entry, so removal is not idempotent. |
| `SpanStore.ReplayKeepsSorted` | src/TokenAnnotator.tsx:71-105 | A host that adopts every emitted collection keeps it sorted through any run of adds and removes. A first add sorts even an unsorted collection. |
| `Annotator.TokenSlice` | src/TokenAnnotator.tsx:73 | `tokens.slice(start, end)`: the plain sub-sequence when 0 <= start <= end <= length, empty when 0 <= end <= start, never longer than `tokens`. |
| `Annotator.Candidate` | src/TokenAnnotator.tsx:73 | The object passed to `getSpan` has the resolved start and end, no tag, and the tokens `tokens[start:end]` when the interval is in range. |
| `Annotator.GetSpan` | src/TokenAnnotator.tsx:107-110 | With no hook supplied, the candidate is returned unchanged. |
| `Annotator.HandleMouseUp` | src/TokenAnnotator.tsx:47-94 | No `onChange` or an empty selection: nothing is emitted and the selection is kept. An endpoint without `data-i`: nothing is emitted and the selection is cleared. Otherwise the handler emits `AddSpan(value, getSpan(candidate))` for the resolved interval, then clears the selection. |
| `Annotator.AppendAndSort` | src/TokenAnnotator.tsx:71-90 | Copying the collection and the new span into a fresh array and sorting it in place yields exactly `AddSpan(value, span)`. |
| `SpanStore.RemoveAfterInsert` | src/TokenAnnotator.tsx:96-103 | After x is inserted into a collection with no entry on x's interval, clicking that interval emits the collection as it was before. |
| `Annotator.ResolvedIntervalCoversSelection` | src/TokenAnnotator.tsx:62-69 | When the backwards flag agrees with the endpoint order, the interval is non-empty. It starts at the smaller index and ends one past the larger. |
| `Annotator.CandidateCarriesSelectedTokens` | src/TokenAnnotator.tsx:62-73 | For endpoints on rendered tokens, the candidate carries the selected tokens, both endpoints included, and at least one token. |
| `Annotator.EmittedHoldsInterval` | src/TokenAnnotator.tsx:71-74 | With no hook, or one that keeps start and end, the emitted collection holds an entry on the selected interval. |

## Left out

- React plumbing is left out: the constructor's `createRef`, `componentDidMount` and `componentWillUnmount`, the `mouseup` listener, `defaultProps.renderMark`, `Token`, `Mark` and `render`'s JSX. None of it touches the collection.
- `render` pairs each marked split with `value[valueIndex++].tag` (lines 114-126). It depends on `splitTokensWithOffsets`, which lives in `./utils`, and `./utils` is not part of this model. The segmentation of the token sequence is left out for the same reason.
- `selectionIsEmpty` and `selectionIsBackwards` (also `./utils`) become the inputs `Selection.isEmpty` and `Selection.isBackwards`. How they are computed is not modelled.
- The DOM reads become inputs: `window.getSelection()`, `parentElement.hasAttribute` and `getAttribute('data-i')`. `selection.empty()` becomes the output flag `clearsSelection`. `parseInt` is taken to yield an integer; a `NaN` index is not modelled.
- The model takes the token indices as unbounded integers. A JavaScript number holds every integer below 2^53 exactly, so `end += 1` is exact for any index a page can render.
- `handleSplitClick` calls `onChange` without checking that it exists. The prop is declared required (line 19). The model gives the collection it is called with, not the `TypeError` a missing `onChange` would raise.
- `handleMouseUp` returns `false` at line 59. An event listener ignores that value, so it is not modelled.
- Engines whose `Array.prototype.sort` is not stable (before ECMAScript 2019) are not modelled. `StableSortCharacterized` shows that every stable sort gives the model's result.
- GetSpan: its contract covers only the default (identity) case. A caller's hook is an arbitrary function of the candidate, and the model gives its result without constraining it. `EmittedHoldsInterval` requires a hook that keeps start and end.
- No overlap policy is modelled (line 22 is an open question in the source). The `style` passthrough and the render-key strings carry no meaning for the collection.
