/**
 * Properties of the setlist manager that relate several operations: the
 * cursor invariants the manager-level operations keep, the agreement of the
 * `CanGo` predicates with the steps they predict, and worked scenarios of
 * setlist removal, forward and backward crossing, and activation rollback.
 */
module ManagerProperties {
  import opened Common
  import opened Setlists
  import opened SetlistManager
  import PdfViewer

  // ---------------------------------------------------------------------------
  // The cursor invariant
  // ---------------------------------------------------------------------------

  /** While the cursor has its normal shape, being active is the same as having an active setlist. */
  lemma IsActiveIffActiveSetlist(m: Manager)
    requires CursorShape(m)
    ensures IsActive(m) <==> GetActiveSetlist(m).Some?
  {
  }

  lemma CreateKeepsCursor(m: Manager, name: string)
    requires CursorInBounds(m)
    ensures CursorInBounds(CreateSetlist(m, name).manager)
  {
    var r := CreateSetlist(m, name).manager;
    if IsActive(m) {
      assert r.setlists[m.activeSetlist] == m.setlists[m.activeSetlist];
    }
  }

  lemma RemoveKeepsCursor(m: Manager, index: nat)
    requires CursorInBounds(m)
    ensures CursorInBounds(RemoveSetlist(m, index).state)
  {
    var r := RemoveSetlist(m, index);
    if r.ok && IsActive(r.state) {
      if index < m.activeSetlist {
        assert r.state.setlists[r.state.activeSetlist] == m.setlists[m.activeSetlist];
      } else {
        assert r.state.setlists[r.state.activeSetlist] == m.setlists[m.activeSetlist];
      }
    }
  }

  /** Activation and jumping either restore the old cursor or set one that names an existing item. */
  lemma ActivateAndJumpKeepCursor(m: Manager, v: Viewer, s: nat, i: nat, outcome: LoadOutcome)
    requires CursorInBounds(m)
    ensures CursorInBounds(ActivateSetlist(m, v, s, outcome).manager)
    ensures CursorInBounds(JumpToItem(m, v, s, i, outcome).manager)
  {
  }

  lemma NextKeepsCursor(m: Manager, v: Viewer, outcome: LoadOutcome)
    requires CursorInBounds(m)
    ensures CursorInBounds(Next(m, v, outcome).manager)
  {
  }

  lemma PreviousKeepsCursor(m: Manager, v: Viewer, outcome: LoadOutcome)
    requires CursorInBounds(m)
    ensures CursorInBounds(Previous(m, v, outcome).manager)
  {
  }

  /** Editing a setlist through its pointer keeps the cursor's shape, though not its item bound. */
  lemma EditKeepsCursorShape(m: Manager, index: nat, s: Setlist)
    requires index < |m.setlists|
    requires CursorShape(m)
    ensures CursorShape(EditSetlist(m, index, s))
  {
  }

  /**
   * Removing the active item through the setlist pointer leaves the cursor
   * naming an item that no longer exists: the item bound is kept by the
   * manager's own operations only.
   */
  lemma ItemEditCanStrandCursor()
    ensures var a := SetlistItem("A", "a.pdf");
            var m := Manager([Setlist("S", [a])], 0, 0);
            var edited := EditSetlist(m, 0, RemoveItem(m.setlists[0], 0).state);
            CursorInBounds(m) && CursorShape(edited) && !CursorInBounds(edited)
  {
  }

  /** Removing a setlist other than the active one leaves the cursor on the same setlist. */
  lemma RemoveSetlistFollowsActive(m: Manager, index: nat)
    requires CursorShape(m)
    requires index < |m.setlists| && index != m.activeSetlist
    ensures GetActiveSetlist(RemoveSetlist(m, index).state) == GetActiveSetlist(m)
  {
    var r := RemoveSetlist(m, index).state;
    if IsActive(m) {
      if index < m.activeSetlist {
        assert r.setlists[r.activeSetlist] == m.setlists[m.activeSetlist];
      } else {
        assert r.setlists[r.activeSetlist] == m.setlists[m.activeSetlist];
      }
    }
  }

  /** Removing the setlist just created gives the manager back, cursor included. */
  lemma CreateThenRemove(m: Manager, name: string)
    requires CursorShape(m)
    ensures var c := CreateSetlist(m, name);
            RemoveSetlist(c.manager, c.index) == Reply(m, true)
  {
    var c := CreateSetlist(m, name);
    assert RemoveAt(c.manager.setlists, c.index) == m.setlists;
  }

  /** Activating a setlist is jumping to its first item. */
  lemma ActivateIsJumpToFirst(m: Manager, v: Viewer, index: nat, outcome: LoadOutcome)
    ensures ActivateSetlist(m, v, index, outcome) == JumpToItem(m, v, index, 0, outcome)
  {
  }

  // ---------------------------------------------------------------------------
  // The CanGo predicates against the steps
  // ---------------------------------------------------------------------------

  /**
   * `CanGoNext` predicts `Next`: a step that succeeds was predicted, a
   * predicted step succeeds whenever the file it may open loads, and an
   * unpredicted step fails without changing the manager or the viewer.
   */
  lemma NextAgreesWithCanGoNext(m: Manager, v: Viewer, outcome: LoadOutcome)
    requires CursorShape(m)
    ensures Next(m, v, outcome).ok ==> CanGoNext(m, v)
    ensures CanGoNext(m, v) && outcome.Opened? ==> Next(m, v, outcome).ok
    ensures !CanGoNext(m, v) ==> Next(m, v, outcome) == Nav(m, v, false)
  {
  }

  /**
   * `CanGoPrevious` predicts `Previous` in the same sense, as long as the
   * cursor names an existing item.
   */
  lemma PreviousAgreesWithCanGoPrevious(m: Manager, v: Viewer, outcome: LoadOutcome)
    requires CursorInBounds(m)
    ensures Previous(m, v, outcome).ok ==> CanGoPrevious(m, v)
    ensures CanGoPrevious(m, v) && outcome.Opened? ==> Previous(m, v, outcome).ok
    ensures !CanGoPrevious(m, v) ==> Previous(m, v, outcome) == Nav(m, v, false)
  {
  }

  /**
   * After items are removed through the setlist pointer, `CanGoPrevious`
   * can report a step that `Previous` then refuses even though the file
   * would load. Jumping to item 2 of [a, b, c] and then removing items 2
   * and 1 through the pointer leaves the cursor on item 2 of a one-item
   * setlist: item 1 counts as "previous" but does not exist.
   */
  lemma CanGoPreviousOverpromises()
    ensures var s := Setlist("S", [SetlistItem("a", "a.pdf"), SetlistItem("b", "b.pdf"), SetlistItem("c", "c.pdf")]);
            var jumped := JumpToItem(Manager([s], NoIndex, NoIndex), PdfViewer.Fresh(), 0, 2, PdfViewer.Opened(3));
            var trimmed := RemoveItem(RemoveItem(s, 2).state, 1).state;
            var m := EditSetlist(jumped.manager, 0, trimmed);
            && jumped.ok
            && CursorShape(m)
            && CanGoPrevious(m, jumped.viewer)
            && Previous(m, jumped.viewer, PdfViewer.Opened(3)) == Nav(m, jumped.viewer, false)
  {
    var s := Setlist("S", [SetlistItem("a", "a.pdf"), SetlistItem("b", "b.pdf"), SetlistItem("c", "c.pdf")]);
    var trimmed := RemoveItem(RemoveItem(s, 2).state, 1).state;
    assert |trimmed.items| == 1;
  }

  /** The prediction with the item bound that `Previous` applies when it opens the previous item. */
  predicate CanGoPreviousChecked(m: Manager, v: Viewer)
  {
    match GetActiveSetlist(m)
    case None => false
    case Some(setlist) => PageStepBack(v) || 0 <= m.activeItem - 1 < |setlist.items|
  }

  /** With the bound, the prediction agrees with `Previous` for every cursor of the normal shape. */
  lemma PreviousAgreesWithCanGoPreviousChecked(m: Manager, v: Viewer, outcome: LoadOutcome)
    requires CursorShape(m)
    ensures Previous(m, v, outcome).ok ==> CanGoPreviousChecked(m, v)
    ensures CanGoPreviousChecked(m, v) && outcome.Opened? ==> Previous(m, v, outcome).ok
    ensures !CanGoPreviousChecked(m, v) ==> Previous(m, v, outcome) == Nav(m, v, false)
  {
  }

  /** On a cursor that names an existing item, the checked prediction is the program's. */
  lemma CanGoPreviousCheckedMatches(m: Manager, v: Viewer)
    requires CursorInBounds(m)
    ensures CanGoPreviousChecked(m, v) == CanGoPrevious(m, v)
  {
  }

  /** Crossing forward from a last page onto an item whose file opens lands on its page 0. */
  lemma CrossForward(m: Manager, v: Viewer, pages: int)
    requires CursorInBounds(m) && IsActive(m) && !PdfViewer.CanGoNext(v)
    requires m.activeItem + 1 < |m.setlists[m.activeSetlist].items|
    ensures var r := Next(m, v, PdfViewer.Opened(pages));
            && r.ok && r.manager == m.(activeItem := m.activeItem + 1)
            && PdfViewer.IsLoaded(r.viewer) && r.viewer.currentPage == 0
  {
  }

  /** Crossing back from page 0 onto an item whose file opens with `pages > 0` lands on its last page. */
  lemma CrossBack(m: Manager, v: Viewer, pages: int)
    requires CursorInBounds(m) && IsActive(m) && v.currentPage == 0 && 0 < m.activeItem && 0 < pages
    ensures var r := Previous(m, v, PdfViewer.Opened(pages));
            && r.ok && r.manager == m.(activeItem := m.activeItem - 1)
            && r.viewer.currentPage == pages - 1 && r.viewer.pageCount == pages
  {
    assert !PageStepBack(v);
  }

  /**
   * Crossing forward from the last page of a document and then stepping
   * back returns to the same item and the same page, provided both files
   * load and the earlier one reports the same page count again.
   */
  lemma CrossForwardThenBack(m: Manager, v: Viewer, nextPages: int)
    requires CursorInBounds(m) && IsActive(m)
    requires PdfViewer.PageInRange(v) && !PdfViewer.CanGoNext(v)
    requires m.activeItem + 1 < |m.setlists[m.activeSetlist].items|
    ensures var forward := Next(m, v, PdfViewer.Opened(nextPages));
            var back := Previous(forward.manager, forward.viewer, PdfViewer.Opened(v.pageCount));
            && forward.ok && forward.manager.activeItem == m.activeItem + 1
            && back.ok && back.manager == m
            && back.viewer.currentPage == v.currentPage && back.viewer.pageCount == v.pageCount
  {
    var forward := Next(m, v, PdfViewer.Opened(nextPages));
    CrossForward(m, v, nextPages);
    CrossBack(forward.manager, forward.viewer, v.pageCount);
    assert forward.manager.(activeItem := m.activeItem) == m;
  }


  /** A fresh manager cannot move in either direction, whatever the viewer shows. */
  lemma FreshManagerCannotMove(v: Viewer, outcome: LoadOutcome)
    ensures !CanGoNext(Fresh(), v) && !CanGoPrevious(Fresh(), v)
    ensures Next(Fresh(), v, outcome) == Nav(Fresh(), v, false)
    ensures Previous(Fresh(), v, outcome) == Nav(Fresh(), v, false)
  {
  }

  // ---------------------------------------------------------------------------
  // Scenarios
  // ---------------------------------------------------------------------------

  /**
   * With setlists [S0, S1, S2] and S2 active, removing S0 moves the cursor
   * to 1, still on S2; removing the active setlist deactivates the cursor.
   */
  lemma RemoveSetlistScenario()
    ensures var s0 := Setlist("S0", []);
            var s1 := Setlist("S1", []);
            var s2 := Setlist("S2", [SetlistItem("x", "x.pdf")]);
            var m := Manager([s0, s1, s2], 2, 0);
            var r := RemoveSetlist(m, 0);
            && r.ok && r.state.activeSetlist == 1
            && GetActiveSetlist(r.state) == Some(s2)
            && RemoveSetlist(r.state, 1).state.activeSetlist == NoIndex
            && RemoveSetlist(r.state, 1).state.activeItem == NoIndex
  {
  }

  /**
   * Forward crossing: at item 0 of any two-item setlist, on the last page of
   * its document, `Next` opens item 1 under its file name; at item 1 of a
   * one-page document, `Next` fails and the cursor stays.
   */
  lemma ForwardCrossingScenario(a: SetlistItem, b: SetlistItem, v: Viewer)
    requires PdfViewer.PageInRange(v) && !PdfViewer.CanGoNext(v)
    ensures var m := Manager([Setlist("S", [a, b])], 0, 0);
            var first := Next(m, v, PdfViewer.Opened(1));
            var second := Next(first.manager, first.viewer, PdfViewer.Opened(1));
            && first.ok && first.manager.activeItem == 1
            && first.viewer.filename == PdfViewer.BaseName(b.fullPath) && first.viewer.currentPage == 0
            && !second.ok && second.manager == first.manager
  {
    var m := Manager([Setlist("S", [a, b])], 0, 0);
    CrossForward(m, v, 1);
    var first := Next(m, v, PdfViewer.Opened(1));
    assert first.viewer.pageCount == 1;
    assert !PageStepForward(first.viewer);
  }


  /**
   * Backward crossing: at item 1 on the first page of its document,
   * `Previous` opens item 0 and shows its last page.
   */
  lemma BackwardCrossingScenario()
    ensures var s := Setlist("S", [SetlistItem("a", "a.pdf"), SetlistItem("b", "b.pdf")]);
            var m := Manager([s], 0, 1);
            var v := PdfViewer.Viewer(true, 0, 4, "b.pdf");
            var r := Previous(m, v, PdfViewer.Opened(5));
            && r.ok && r.manager.activeItem == 0
            && r.viewer.pageCount == 5 && r.viewer.currentPage == 4
  {
  }

  /**
   * Activation rollback: while setlist 0 is active at item 1, a failed
   * attempt to activate setlist 1 leaves the cursor at (0, 1).
   */
  lemma ActivationRollbackScenario(v: Viewer)
    ensures var s0 := Setlist("S0", [SetlistItem("a", "a.pdf"), SetlistItem("b", "b.pdf")]);
            var s1 := Setlist("S1", [SetlistItem("c", "c.pdf")]);
            var m := Manager([s0, s1], 0, 1);
            var r := ActivateSetlist(m, v, 1, PdfViewer.LoadFailed);
            !r.ok && r.manager.activeSetlist == 0 && r.manager.activeItem == 1
  {
  }
}
