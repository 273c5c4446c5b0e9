/**
 * The annotation navigator of the viewer component: a cache of the engine's
 * annotations in reading order, and a cursor into that cache which follows the
 * engine's selection events and is moved by the Prev/Next buttons.
 *
 * The cursor is what the component keeps in `selectedAnnotationIdx`: null, or
 * whatever number was last stored, which need not be a valid index.
 */
module Navigator {
  import opened ReadingOrder

  datatype Option<T> = None | Some(value: T)

  /** A command the navigator sends to the annotation engine. */
  datatype Command = DeselectAll | Select(target: Option<Annot>)

  /** JavaScript indexing `s[i]`: the element, or `undefined` (None) outside the list. */
  function At(s: seq<Annot>, i: int): (r: Option<Annot>)
    ensures r.Some? <==> 0 <= i < |s|
    ensures 0 <= i < |s| ==> r == Some(s[i])
  {
    if 0 <= i < |s| then Some(s[i]) else None
  }

  /** The index the Next button moves to, given the cursor and the length of the cache. */
  function NextIndex(cursor: Option<int>, len: nat): (r: int)
    ensures len > 0 && (cursor.None? || -1 <= cursor.value < len) ==> 0 <= r < len
  {
    if cursor.None? || cursor.value + 1 == len then 0 else cursor.value + 1
  }

  /** The index the Prev button moves to, given the cursor and the length of the cache. */
  function PreviousIndex(cursor: Option<int>, len: nat): (r: int)
    ensures len > 0 && (cursor.None? || 0 <= cursor.value < len) ==> 0 <= r < len
  {
    if cursor.None? || cursor.value - 1 == -1 then len - 1 else cursor.value - 1
  }

  /** With nothing selected on a non-empty cache, Next goes to the first annotation and Prev to the last. */
  lemma NullCursorEnds(len: nat)
    requires len > 0
    ensures NextIndex(None, len) == 0
    ensures PreviousIndex(None, len) == len - 1
  {
  }

  /** On a valid index, Next is the successor modulo the length of the cache. */
  lemma NextIsSuccessor(i: int, len: nat)
    requires 0 <= i < len
    ensures NextIndex(Some(i), len) == (i + 1) % len
  {
  }

  /** On a valid index, Prev is the predecessor modulo the length of the cache. */
  lemma PreviousIsPredecessor(i: int, len: nat)
    requires 0 <= i < len
    ensures PreviousIndex(Some(i), len) == (i - 1) % len
  {
  }

  /**
   * `findIndex` by identity: the first position holding an annotation with the
   * given id, or -1 when there is none.
   */
  function FindIndex(s: seq<Annot>, id: string): (r: int)
    ensures -1 <= r < |s|
    ensures r == -1 <==> forall j :: 0 <= j < |s| ==> s[j].id != id
    ensures r >= 0 ==> s[r].id == id && forall j :: 0 <= j < r ==> s[j].id != id
  {
    if s == [] then -1
    else if s[0].id == id then 0
    else
      var k := FindIndex(s[1..], id);
      if k == -1 then -1 else k + 1
  }

  /** No two annotations of `s` share an id. */
  predicate DistinctIds(s: seq<Annot>)
  {
    forall i, j :: 0 <= i < j < |s| ==> s[i].id != s[j].id
  }

  /**
   * When ids are unique, looking up the id of the annotation at `i` gives `i`
   * back: the engine echoing a selection made by index confirms that index.
   */
  lemma {:induction false} FindIndexOfDistinct(s: seq<Annot>, i: int)
    requires DistinctIds(s)
    requires 0 <= i < |s|
    ensures FindIndex(s, s[i].id) == i
  {
  }

  /** Prev undoes Next on an unchanged cache. */
  lemma PreviousUndoesNext(i: int, len: nat)
    requires 0 <= i < len
    ensures PreviousIndex(Some(NextIndex(Some(i), len)), len) == i
  {
  }

  /** Next undoes Prev on an unchanged cache. */
  lemma NextUndoesPrevious(i: int, len: nat)
    requires 0 <= i < len
    ensures NextIndex(Some(PreviousIndex(Some(i), len)), len) == i
  {
  }

  /** The cursor after pressing Next `k` times, starting at `i`. */
  function Advance(i: int, len: nat, k: nat): int
  {
    if k == 0 then i else NextIndex(Some(Advance(i, len, k - 1)), len)
  }

  lemma {:induction false} AdvanceSplit(i: int, len: nat, a: nat, b: nat)
    ensures Advance(i, len, a + b) == Advance(Advance(i, len, a), len, b)
    decreases b
  {
    if b > 0 {
      AdvanceSplit(i, len, a, b - 1);
    }
  }

  /** Pressing Next steps forward one place at a time while the end is not reached. */
  lemma {:induction false} AdvanceForward(i: int, len: nat, k: nat)
    requires 0 <= i && i + k < len
    ensures Advance(i, len, k) == i + k
    decreases k
  {
    if k > 0 {
      AdvanceForward(i, len, k - 1);
    }
  }

  /** Pressing Next once per annotation comes back to where it started. */
  lemma NextCycles(i: int, len: nat)
    requires 0 <= i < len
    ensures Advance(i, len, len) == i
  {
    AdvanceForward(i, len, len - 1 - i);
    assert Advance(i, len, len - i) == 0;
    AdvanceSplit(i, len, len - i, i);
    if i > 0 {
      AdvanceForward(0, len, i);
    }
  }

  /** Every annotation is reached by pressing Next from any valid index, at most `len - 1` times. */
  lemma NextReaches(i: int, j: int, len: nat)
    requires 0 <= i < len && 0 <= j < len
    ensures Advance(i, len, if i <= j then j - i else len - i + j) == j
  {
    if i <= j {
      AdvanceForward(i, len, j - i);
    } else {
      AdvanceForward(i, len, len - 1 - i);
      AdvanceSplit(i, len, len - i, j);
      if j > 0 {
        AdvanceForward(0, len, j);
      }
    }
  }

  /**
   * On an empty cache with nothing selected, both buttons select `undefined`:
   * Next puts the cursor at 0, Prev at -1.
   */
  lemma EmptyCacheMoves(cursor: Option<int>)
    requires cursor.None?
    ensures NextIndex(cursor, 0) == 0 && At([], NextIndex(cursor, 0)).None?
    ensures PreviousIndex(cursor, 0) == -1 && At([], PreviousIndex(cursor, 0)).None?
  {
  }

  /**
   * After a selection the cache does not hold (cursor -1), Next recovers to
   * the first annotation but Prev moves to -2, selects `undefined`, and keeps
   * moving further out on every later press.
   */
  lemma MissedSelectionMoves(s: seq<Annot>, k: nat)
    requires |s| > 0
    ensures NextIndex(Some(-1), |s|) == 0 && At(s, 0) == Some(s[0])
    ensures PreviousIndex(Some(-1), |s|) == -2 && At(s, -2).None?
    ensures PreviousIndex(Some(-1 - k), |s|) == -2 - k
  {
  }

  /**
   * A cursor left at or past the end of the cache, after a refresh that made
   * the cache shorter, never wraps: Next moves it one further out on every
   * press and selects `undefined` each time.
   */
  lemma StaleCursorNeverWraps(s: seq<Annot>, k: nat)
    ensures NextIndex(Some(|s| + k), |s|) == |s| + k + 1
    ensures At(s, NextIndex(Some(|s| + k), |s|)).None?
  {
  }

  class AnnotationNavigator {
    /** The annotations in reading order, as of the last refresh. */
    var cache: seq<Annot>
    /** `selectedAnnotationIdx`: None for null. */
    var cursor: Option<int>
    /** The commands sent to the engine so far. */
    ghost var log: seq<Command>

    constructor ()
      ensures cache == [] && cursor == None && log == []
    {
      cache := [];
      cursor := None;
      log := [];
    }

    /** The `annotationsLoaded` listener: the engine's list, sorted, replaces the cache. */
    method OnAnnotationsLoaded(annotations: seq<Annot>)
      modifies this
      ensures cache == Sort(annotations)
      ensures Sorted(cache) && multiset(cache) == multiset(annotations)
      ensures cursor == old(cursor) && log == old(log)
    {
      cache := Sort(annotations);
      SortSorted(annotations);
    }

    /**
     * The refresh the buttons call: `viewer` is the engine's list, or None
     * while no document viewer exists, in which case nothing changes.
     */
    method Refresh(viewer: Option<seq<Annot>>)
      modifies this
      ensures viewer.None? ==> cache == old(cache)
      ensures viewer.Some? ==> cache == Sort(viewer.value)
      ensures cursor == old(cursor) && log == old(log)
    {
      if viewer.None? {
        return;
      }
      cache := Sort(viewer.value);
    }

    /** The `annotationSelected` listener; it reads the cache at the time of the event. */
    method OnAnnotationSelected(annotations: seq<Annot>, action: string)
      requires action == "selected" ==> |annotations| > 0
      modifies this
      ensures action == "deselected" ==> cursor == None
      ensures action == "selected" ==> cursor == Some(FindIndex(cache, annotations[0].id))
      ensures action != "deselected" && action != "selected" ==> cursor == old(cursor)
      ensures cache == old(cache) && log == old(log)
    {
      if action == "deselected" {
        cursor := None;
      }
      if action == "selected" {
        cursor := Some(FindIndex(cache, annotations[0].id));
      }
    }

    /**
     * The Prev button. It is reachable only once a document has loaded, so the
     * engine's list `viewer` is always present. The refresh it requests takes
     * effect only after the handler returns, so the target is computed on the
     * cache as it was.
     */
    method Previous(viewer: Option<seq<Annot>>)
      requires viewer.Some?
      modifies this
      ensures cursor == Some(PreviousIndex(old(cursor), |old(cache)|))
      ensures log == old(log) + [DeselectAll, Select(At(old(cache), cursor.value))]
      ensures cache == Sort(viewer.value)
    {
      log := log + [DeselectAll];
      var shown := cache;
      Refresh(viewer);
      SelectPrevious(shown);
    }

    /** The part of the Prev button after the refresh request, on the cache `shown` it read. */
    method SelectPrevious(shown: seq<Annot>)
      modifies this
      ensures cursor == Some(PreviousIndex(old(cursor), |shown|))
      ensures log == old(log) + [Select(At(shown, cursor.value))]
      ensures cache == old(cache)
    {
      if cursor.None? || cursor.value - 1 == -1 {
        var target := |shown| - 1;
        cursor := Some(target);
        log := log + [Select(At(shown, target))];
        return;
      }
      log := log + [Select(At(shown, cursor.value - 1))];
      cursor := Some(cursor.value - 1);
    }

    /** The Next button, with the same deferred refresh as Prev. */
    method Next(viewer: Option<seq<Annot>>)
      requires viewer.Some?
      modifies this
      ensures cursor == Some(NextIndex(old(cursor), |old(cache)|))
      ensures log == old(log) + [DeselectAll, Select(At(old(cache), cursor.value))]
      ensures cache == Sort(viewer.value)
    {
      log := log + [DeselectAll];
      var shown := cache;
      Refresh(viewer);
      SelectNext(shown);
    }

    /** The part of the Next button after the refresh request, on the cache `shown` it read. */
    method SelectNext(shown: seq<Annot>)
      modifies this
      ensures cursor == Some(NextIndex(old(cursor), |shown|))
      ensures log == old(log) + [Select(At(shown, cursor.value))]
      ensures cache == old(cache)
    {
      if cursor.None? || cursor.value + 1 == |shown| {
        var target := 0;
        cursor := Some(target);
        log := log + [Select(At(shown, target))];
        return;
      }
      log := log + [Select(At(shown, cursor.value + 1))];
      cursor := Some(cursor.value + 1);
    }
  }

  /**
   * A session on a three-annotation list with unique ids: Next from nothing
   * selects the first annotation, the engine's echo confirms it, Prev wraps
   * to the last, and Next comes back to the first.
   */
  method NavigationSession(annotations: seq<Annot>)
    requires |annotations| == 3
  {
    var nav := new AnnotationNavigator();
    nav.OnAnnotationsLoaded(annotations);
    var sorted := nav.cache;
    nav.Next(Some(annotations));
    assert nav.cursor == Some(0);
    assert nav.log == [DeselectAll, Select(Some(sorted[0]))];
    if DistinctIds(sorted) {
      FindIndexOfDistinct(sorted, 0);
      nav.OnAnnotationSelected([sorted[0]], "selected");
      assert nav.cursor == Some(0);
    }
    nav.Previous(Some(annotations));
    assert nav.cursor == Some(2);
    nav.Next(Some(annotations));
    assert nav.cursor == Some(0);
    nav.OnAnnotationSelected([], "deselected");
    assert nav.cursor == None;
    nav.Previous(Some(annotations));
    assert nav.cursor == Some(2);
  }
}
