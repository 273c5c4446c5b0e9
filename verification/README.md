# Annotation navigator of the custom WebViewer UI

The viewer component in `src/App.js` lets a user step through the annotations of a document with
"Prev Annot" and "Next Annot" buttons, in an accessibility reading order: page by page, then top to
bottom, then left to right. This project models that navigator in Dafny and proves its properties.

- `reading_order.dfy`, module `ReadingOrder`: the annotation record (`Annot`: id, page number, y, x),
  the comparator `Cmp` handed to the array sort, and `Sort`, the stable sort by that comparator.
  `Sort` stands for `Array.prototype.sort`, which is stable. The comparator is pure, so it is a
  function. Lemmas state that it is the lexicographic order on (page, y, x) and that it is
  reflexive, antisymmetric, total and transitive. Further lemmas state that `Sort` returns a
  permutation of its input, puts every adjacent pair in order, is stable, and leaves an
  already-sorted list unchanged.
- `navigator.dfy`, module `Navigator`: the component's state as the class `AnnotationNavigator`.
  - `cache` is `sortedAnnotations`.
  - `cursor` is `selectedAnnotationIdx`; `None` stands for `null`.
  - The ghost field `log` records the commands sent to the engine: `DeselectAll` and
    `Select(target)`.
  - The methods are the `annotationsLoaded` listener, the guarded refresh, the
    `annotationSelected` listener, and the two button handlers.
  - The functions `NextIndex`, `PreviousIndex` and `FindIndex` give the index each handler
    computes. The lemmas about them state the wrap-around rules, range preservation, that the two
    buttons undo each other, and that Next cycles through the whole cache.

The code is modelled as written, including four places where it departs from the intended design:

- Indexing outside the list yields JavaScript's `undefined`. `At` returns `None` there, and the
  model logs `Select(None)`.
- On an empty cache the buttons are not guarded. With nothing selected, Next stores 0 and Prev
  stores -1, and both select `undefined` (`EmptyCacheMoves`). The intended design would make them
  do nothing.
- A `selected` event for an id the cache does not hold stores -1 (`findIndex`'s miss value), not
  null. From -1, Next recovers to 0. Prev instead moves to -2, selects `undefined`, and keeps
  moving further out on later presses (`MissedSelectionMoves`).
- A refresh can make the cache shorter without touching the cursor. A cursor left at or past the
  new end never wraps, because `idx + 1 === length` never holds again. Next moves it one place
  further out on every press and selects `undefined` each time (`StaleCursorNeverWraps`).

React applies a state update only after the handler that requested it has returned. So the
button handlers compute their target from the cache as it was before their own refresh.
`Previous` and `Next` model this. They take the cache snapshot first and then request the refresh.
`SelectPrevious` and `SelectNext` then compute and select the target on the snapshot. The
postconditions of `Previous` and `Next` give the new cache as the refreshed one.

The buttons are reachable only once a document has loaded. `documentViewer` is set when the
component mounts (src/App.js:71). `annotationManager` is set later, on `documentLoaded`
(src/App.js:84). So when the handlers get past their first line (src/App.js:189, 205), a document
viewer exists, and `Previous` and `Next` require the engine's list. The guard at
src/App.js:178-180 cannot fire from these two callers. `Refresh` still models it.

The engine's collaborators are parameters. `viewer` is the engine's annotation list, or `None` while
there is no document viewer. The engine's selection events are calls to `OnAnnotationSelected`.

## Model

| member | source | states |
|---|---|---|
| `ReadingOrder.Cmp` | src/App.js:20-39 | the result is -1, 0 or 1, and it is 0 exactly when page number, y and x all agree |
| `ReadingOrder.CmpIsLexicographic` | src/App.js:20-39 | -1 exactly when `a`'s (page, y, x) key comes lexicographically first, 1 exactly when `b`'s does, 0 exactly when the keys are equal; "lexicographically first" is the independent definition `LexLess` |
| `ReadingOrder.CmpReflexive` | src/App.js:20-39 | an annotation compares equal to itself |
| `ReadingOrder.CmpAntisymmetric` | src/App.js:20-39 | swapping the arguments negates the result |
| `ReadingOrder.CmpTotal` | src/App.js:20-39 | of two annotations at different positions, exactly one comes first |
| `ReadingOrder.CmpTransitive` | src/App.js:20-39 | "not after" and "strictly before" are transitive, so `Cmp` is a valid sort comparator |
| `ReadingOrder.SortedPairwise` | src/App.js:77 | in a list whose adjacent pairs are in order, every earlier annotation is not after every later one |
| `ReadingOrder.Insert` | src/App.js:77 | the insertion step of the stable sort adds exactly `x` to the multiset and ends with `x` or with the old last element |
| `ReadingOrder.InsertSorted` | src/App.js:77 | inserting into a sorted list keeps it sorted |
| `ReadingOrder.Sort` | src/App.js:77 | the sorted list is a permutation of the engine's list (same multiset, same length) |
| `ReadingOrder.SortSorted` | src/App.js:77 | after sorting, every adjacent pair satisfies `Cmp(cache[i], cache[i+1]) <= 0` |
| `ReadingOrder.SortOfSorted` | src/App.js:77 | sorting a list already in reading order returns it unchanged |
| `ReadingOrder.SortIdempotent` | src/App.js:77 | sorting twice is the same as sorting once |
| `ReadingOrder.InsertAtPlaceOf` | src/App.js:77 | the inserted annotation lands after every annotation already at its position |
| `ReadingOrder.SortStable` | src/App.js:77 | annotations at the same position keep their relative order from the engine's list |
| `ReadingOrder.InsertBeforeAll` | src/App.js:77 | an annotation that comes before every element is inserted at the front |
| `ReadingOrder.SortFront` | src/App.js:77 | appending an annotation that precedes all others puts it at the front of the sorted list |
| `ReadingOrder.SortReverses` | src/App.js:77 | a list in strictly reverse reading order comes out reversed |
| `ReadingOrder.SortExample` | src/App.js:20-39 | (p2,y5,x1), (p1,y10,x0), (p1,y5,x5), (p1,y5,x2) sort to (p1,y5,x2), (p1,y5,x5), (p1,y10,x0), (p2,y5,x1) |
| `Navigator.At` | src/App.js:197 | indexing inside the list gives the annotation at that index; outside it gives `undefined` |
| `Navigator.NextIndex` | src/App.js:207-217 | on a non-empty cache, a null cursor or one in `-1 .. len-1` moves to an index inside the cache |
| `Navigator.PreviousIndex` | src/App.js:191-201 | on a non-empty cache, a null cursor or one inside the cache moves to an index inside the cache |
| `Navigator.NextIsSuccessor` | src/App.js:207-217 | from a valid index, Next moves to `(i + 1) % len`, so the last index wraps to 0 |
| `Navigator.NullCursorEnds` | src/App.js:191-217 | with nothing selected on a non-empty cache, Next goes to index 0 and Prev to the last index |
| `Navigator.PreviousIsPredecessor` | src/App.js:191-201 | from a valid index, Prev moves to `(i - 1) % len`, so index 0 wraps to the last |
| `Navigator.PreviousUndoesNext` | src/App.js:188-218 | on an unchanged cache, Prev after Next restores a valid cursor |
| `Navigator.NextUndoesPrevious` | src/App.js:188-218 | on an unchanged cache, Next after Prev restores a valid cursor |
| `Navigator.AdvanceForward` | src/App.js:207-217 | pressing Next `k` times moves `k` places while the end is not passed |
| `Navigator.NextCycles` | src/App.js:207-217 | pressing Next once per annotation comes back to the starting index |
| `Navigator.NextReaches` | src/App.js:207-217 | every index is reached from any valid index within `len - 1` presses of Next |
| `Navigator.EmptyCacheMoves` | src/App.js:191-213 | on an empty cache with nothing selected, Next stores 0 and Prev stores -1, and both select `undefined` |
| `Navigator.MissedSelectionMoves` | src/App.js:191-217 | from the miss value -1, Next recovers to 0; Prev stores -2 and selects `undefined`, and from `-1-k` it stores `-2-k` |
| `Navigator.StaleCursorNeverWraps` | src/App.js:207-217 | a cursor at `len + k` moves to `len + k + 1` and selects `undefined`: Next never wraps it back |
| `Navigator.FindIndex` | src/App.js:102-105 | the result is the least index whose id matches, or -1 exactly when no annotation has that id |
| `Navigator.FindIndexOfDistinct` | src/App.js:102-105 | with unique ids, the echo of a selection made at index `i` resolves back to `i` |
| `Navigator.AnnotationNavigator.constructor` | src/App.js:54-55 | the cache starts empty and the cursor null |
| `Navigator.AnnotationNavigator.OnAnnotationsLoaded` | src/App.js:73-79 | the cache becomes the engine's list sorted (sorted, same multiset); the cursor and the commands are untouched |
| `Navigator.AnnotationNavigator.Refresh` | src/App.js:177-186 | without a document viewer nothing changes; otherwise the cache becomes `Sort` of the engine's list; the cursor is never touched |
| `Navigator.AnnotationNavigator.OnAnnotationSelected` | src/App.js:97-106 | `deselected` sets the cursor to null whatever it was; `selected` sets it to `FindIndex` of the first record's id in the current cache; any other action changes nothing |
| `Navigator.AnnotationNavigator.Previous` | src/App.js:188-202 | with the engine's list present, the cursor becomes `PreviousIndex` of the old cursor on the old cache; the commands sent are `DeselectAll` and then `Select` of the old cache at the new cursor; the cache becomes `Sort` of the engine's list |
| `Navigator.AnnotationNavigator.SelectPrevious` | src/App.js:190-201 | on the snapshot the handler read, the cursor becomes `PreviousIndex` and the one command sent selects the snapshot at the new cursor; the cache is untouched |
| `Navigator.AnnotationNavigator.Next` | src/App.js:204-218 | with the engine's list present, the cursor becomes `NextIndex` of the old cursor on the old cache; the commands sent are `DeselectAll` and then `Select` of the old cache at the new cursor; the cache becomes `Sort` of the engine's list |
| `Navigator.AnnotationNavigator.SelectNext` | src/App.js:206-217 | on the snapshot the handler read, the cursor becomes `NextIndex` and the one command sent selects the snapshot at the new cursor; the cache is untouched |

`Navigator.NavigationSession` is a client of the class. It shows what a caller can conclude from
the methods' contracts and the contract of `At`: Next from nothing selects index 0, the engine's echo confirms it, Prev wraps
to the last index, and a deselection clears the cursor.

## Left out

- Rendering, the toolbar, the edit modal and the rich-text editor (src/App.js:220-288): presentation only.
- Viewer creation, the worker path, document loading and tool-mode switching (src/App.js:60-71, 81-86,
  119-134): calls into the WebViewer `Core` library, whose code is not part of this model.
- Zoom (src/App.js:111-117): floating-point arithmetic on a value the engine owns.
- Redaction and content editing (src/App.js:136-166): asynchronous calls into the engine and an `alert`.
- `SearchContainer`: its source is not part of this model.
- Removing and re-adding the selection listener whenever the cache changes (src/App.js:94-109): a way
  to give the listener the current cache. The model's listener reads the `cache` field instead.
- The engine's own behaviour is not modelled. Its selections are only recorded in `log`, and its
  events are calls the environment makes. This includes the `deselected` event that
  `deselectAllAnnotations` may raise, and the `selected` echo that `selectAnnotation` may raise,
  during a button press. React applies the last of the cursor updates requested in one handler. If
  the engine raised the echo before the handler returned, then after the wrap-around branch the
  stored cursor would be the echo's `findIndex` value. `FindIndexOfDistinct` shows that this equals
  the handler's target when ids are unique.
- `Previous`, `Next`: pressing a button before the document has loaded throws, because
  `annotationManager` is still null (src/App.js:189, 205). The model does not define that case: both
  methods require the engine's list.
- `OnAnnotationSelected` requires a non-empty record list for a `selected` event. The listener reads
  `annot[0]` unguarded, so it relies on the engine for this.
- Annotation coordinates are JavaScript numbers. The model uses mathematical reals for x and y and
  integers for the page number. `NaN` coordinates, which would make the comparator inconsistent, are
  not modelled.
- `Array.prototype.sort` sorts the engine's array in place. Whether that reorders the engine's own
  list depends on whether `getAnnotationsList` returns a copy; the model sorts a copy. If the engine
  returned its live array, and the cache were that same array, the sort at src/App.js:184 would also
  reorder the "old" cache that src/App.js:190-217 reads. The snapshot that `Previous` and `Next`
  take would then not be the order the handler uses. The model's snapshot holds only under the
  copy assumption.
- `ReadingOrder.Sort`: the sort is specified as one particular stable algorithm, an insertion sort.
  The model does not prove that every stable sort with this comparator gives the same list.
