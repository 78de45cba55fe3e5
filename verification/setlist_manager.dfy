/**
 * The setlist manager: the collection of setlists and the navigation cursor
 * that reads one setlist as a single continuous document.
 *
 * The cursor is the pair (activeSetlist, activeItem), with -1 in both for
 * "inactive". It refers to a setlist and an item by position only, so every
 * use re-checks the setlist position against the collection.
 *
 * Operations that drive the viewer take the viewer's state and the outcome
 * its `Load` would report for the file it is asked to open; each operation
 * opens at most one file.
 */
module SetlistManager {
  import opened Common
  import opened Setlists
  import PdfViewer
  import Text

  type Viewer = PdfViewer.Viewer
  type LoadOutcome = PdfViewer.LoadOutcome

  /** The sentinel both cursor fields hold while no setlist is active. */
  const NoIndex: int := -1

  datatype Manager = Manager(setlists: seq<Setlist>, activeSetlist: int, activeItem: int)

  /** The manager and viewer after a navigation call, and the boolean it returns. */
  datatype Nav = Nav(manager: Manager, viewer: Viewer, ok: bool)

  /** The manager after `CreateSetlist`, and the index it returns. */
  datatype Created = Created(manager: Manager, index: nat)

  predicate IsActive(m: Manager)
  {
    m.activeSetlist >= 0
  }

  /**
   * The shape every manager-level operation keeps: either inactive in both
   * fields, or a setlist position inside the collection and a non-negative
   * item position.
   */
  predicate CursorShape(m: Manager)
  {
    || (m.activeSetlist == NoIndex && m.activeItem == NoIndex)
    || (0 <= m.activeSetlist < |m.setlists| && 0 <= m.activeItem)
  }

  /** The cursor also names an existing item of the active setlist. */
  predicate CursorInBounds(m: Manager)
  {
    && CursorShape(m)
    && (IsActive(m) ==> m.activeItem < |m.setlists[m.activeSetlist].items|)
  }

  predicate SameCursor(m: Manager, r: Manager)
  {
    r.activeSetlist == m.activeSetlist && r.activeItem == m.activeItem
  }

  /** A newly constructed manager: no setlists and an inactive cursor. */
  function Fresh(): (m: Manager)
    ensures m.setlists == [] && !IsActive(m) && m.activeItem == NoIndex
    ensures CursorInBounds(m)
  {
    Manager([], NoIndex, NoIndex)
  }

  function Deactivate(m: Manager): (r: Manager)
    ensures !IsActive(r) && r.activeItem == NoIndex && r.setlists == m.setlists
    ensures CursorInBounds(r)
  {
    m.(activeSetlist := NoIndex, activeItem := NoIndex)
  }

  // ---------------------------------------------------------------------------
  // The collection
  // ---------------------------------------------------------------------------

  /**
   * The name given to a setlist created without one when `count` setlists
   * exist: "Setlist " followed by the decimal spelling of count + 1.
   */
  function DefaultName(count: nat): (name: string)
    ensures |name| > 8 && name[..8] == "Setlist "
    ensures forall i :: 8 <= i < |name| ==> Text.IsDigit(name[i])
    ensures |name| > 9 ==> name[8] != '0'
    ensures Text.DecimalValue(name[8..]) == count + 1
  {
    Text.DecimalRoundTrip(count + 1);
    var name := "Setlist " + Text.Decimal(count + 1);
    assert name[8..] == Text.Decimal(count + 1);
    name
  }

  /** Default names given at different collection sizes never coincide. */
  lemma DefaultNamesDistinct(a: nat, b: nat)
    requires a != b
    ensures DefaultName(a) != DefaultName(b)
  {
  }

  /**
   * Appends an empty setlist and returns its position. An empty name is
   * replaced by the default one. Existing setlists and the cursor are not
   * touched.
   */
  function CreateSetlist(m: Manager, name: string): (r: Created)
    ensures r.index == |m.setlists|
    ensures |r.manager.setlists| == |m.setlists| + 1
    ensures r.manager.setlists[..r.index] == m.setlists
    ensures r.manager.setlists[r.index].items == []
    ensures name != "" ==> r.manager.setlists[r.index].name == name
    ensures name == "" ==> r.manager.setlists[r.index].name == DefaultName(|m.setlists|)
    ensures SameCursor(m, r.manager)
  {
    var finalName := if name == "" then DefaultName(|m.setlists|) else name;
    Created(m.(setlists := m.setlists + [NewSetlist(finalName)]), |m.setlists|)
  }

  /**
   * Removes the setlist at `index`. Removing the active setlist deactivates
   * the cursor; removing one before it moves the cursor down by one so that
   * it follows its setlist; removing one after it, or removing while
   * inactive, leaves the cursor alone.
   */
  function RemoveSetlist(m: Manager, index: nat): (r: Reply<Manager>)
    ensures r.ok <==> index < |m.setlists|
    ensures !r.ok ==> r.state == m
    ensures r.ok ==> && |r.state.setlists| == |m.setlists| - 1
                     && (forall j :: 0 <= j < index ==> r.state.setlists[j] == m.setlists[j])
                     && (forall j :: index <= j < |r.state.setlists| ==> r.state.setlists[j] == m.setlists[j + 1])
    ensures r.ok && index == m.activeSetlist ==> r.state.activeSetlist == NoIndex && r.state.activeItem == NoIndex
    ensures r.ok && index < m.activeSetlist ==>
              r.state.activeSetlist == m.activeSetlist - 1 && r.state.activeItem == m.activeItem
    ensures r.ok && index > m.activeSetlist ==> SameCursor(m, r.state)
  {
    if index >= |m.setlists| then Reply(m, false)
    else
      var adjusted :=
        if index == m.activeSetlist then Deactivate(m)
        else if index < m.activeSetlist then m.(activeSetlist := m.activeSetlist - 1)
        else m;
      Reply(adjusted.(setlists := RemoveAt(m.setlists, index)), true)
  }

  /** The setlist at `index`, or nothing (a null pointer) past the end. */
  function GetSetlist(m: Manager, index: nat): (r: Option<Setlist>)
    ensures r.Some? <==> index < |m.setlists|
    ensures r.Some? ==> r.value == m.setlists[index]
  {
    if index >= |m.setlists| then None else Some(m.setlists[index])
  }

  /**
   * A write through the pointer `GetSetlist(index)` hands out: the setlist
   * at `index` is replaced and the cursor is not consulted.
   */
  function EditSetlist(m: Manager, index: nat, s: Setlist): (r: Manager)
    requires index < |m.setlists|
    ensures |r.setlists| == |m.setlists| && r.setlists[index] == s
    ensures forall j :: 0 <= j < |m.setlists| && j != index ==> r.setlists[j] == m.setlists[j]
    ensures SameCursor(m, r)
  {
    m.(setlists := m.setlists[index := s])
  }

  /** The setlist the cursor names, checked only against the collection's size. */
  function GetActiveSetlist(m: Manager): (r: Option<Setlist>)
    ensures r.Some? <==> 0 <= m.activeSetlist < |m.setlists|
    ensures r.Some? ==> r.value == m.setlists[m.activeSetlist]
  {
    if m.activeSetlist < 0 || m.activeSetlist >= |m.setlists| then None
    else Some(m.setlists[m.activeSetlist])
  }

  // ---------------------------------------------------------------------------
  // Activation and navigation
  // ---------------------------------------------------------------------------

  /** Whether `LoadActiveItem(itemIndex)` gets as far as asking the viewer to open a file. */
  predicate CanLoad(m: Manager, itemIndex: int)
  {
    GetActiveSetlist(m).Some? && 0 <= itemIndex < |GetActiveSetlist(m).value.items|
  }

  /**
   * Opens item `itemIndex` of the active setlist in the viewer and, if the
   * viewer accepts it, makes it the active item. Without an active setlist
   * or with an item position outside it, nothing happens.
   */
  function LoadActiveItem(m: Manager, v: Viewer, itemIndex: int, outcome: LoadOutcome): (r: Nav)
    ensures r.ok <==> CanLoad(m, itemIndex) && outcome.Opened?
    ensures !CanLoad(m, itemIndex) ==> r == Nav(m, v, false)
    ensures CanLoad(m, itemIndex) ==>
              r.viewer == PdfViewer.Load(v, m.setlists[m.activeSetlist].items[itemIndex].fullPath, outcome).state
    ensures r.ok ==> r.manager == m.(activeItem := itemIndex)
    ensures !r.ok ==> r.manager == m
  {
    match GetActiveSetlist(m)
    case None => Nav(m, v, false)
    case Some(setlist) =>
      if itemIndex < 0 || itemIndex >= |setlist.items| then Nav(m, v, false)
      else
        var loaded := PdfViewer.Load(v, setlist.items[itemIndex].fullPath, outcome);
        if !loaded.ok then Nav(m, loaded.state, false)
        else Nav(m.(activeItem := itemIndex), loaded.state, true)
  }

  /**
   * Makes setlist `index` active at its first item. An unknown or empty
   * setlist is refused without touching anything; if the first item cannot
   * be opened, the cursor returns to exactly what it was before the call.
   */
  function ActivateSetlist(m: Manager, v: Viewer, index: nat, outcome: LoadOutcome): (r: Nav)
    ensures r.ok <==> index < |m.setlists| && |m.setlists[index].items| > 0 && outcome.Opened?
    ensures !r.ok ==> r.manager == m
    ensures r.ok ==> r.manager == Manager(m.setlists, index, 0)
    ensures !(index < |m.setlists| && |m.setlists[index].items| > 0) ==> r.viewer == v
    ensures index < |m.setlists| && |m.setlists[index].items| > 0 ==>
              r.viewer == PdfViewer.Load(v, m.setlists[index].items[0].fullPath, outcome).state
  {
    if index >= |m.setlists| then Nav(m, v, false)
    else if |m.setlists[index].items| == 0 then Nav(m, v, false)
    else
      var attempt := m.(activeSetlist := index, activeItem := 0);
      var loaded := LoadActiveItem(attempt, v, attempt.activeItem, outcome);
      if !loaded.ok then Nav(attempt.(activeSetlist := m.activeSetlist, activeItem := m.activeItem), loaded.viewer, false)
      else Nav(loaded.manager, loaded.viewer, true)
  }

  /**
   * Makes item `itemIndex` of setlist `setlistIndex` the cursor, with the
   * same validation and the same restore-on-failure as activation.
   */
  function JumpToItem(m: Manager, v: Viewer, setlistIndex: nat, itemIndex: nat, outcome: LoadOutcome): (r: Nav)
    ensures r.ok <==> setlistIndex < |m.setlists| && itemIndex < |m.setlists[setlistIndex].items| && outcome.Opened?
    ensures !r.ok ==> r.manager == m
    ensures r.ok ==> r.manager == Manager(m.setlists, setlistIndex, itemIndex)
    ensures !(setlistIndex < |m.setlists| && itemIndex < |m.setlists[setlistIndex].items|) ==> r.viewer == v
    ensures setlistIndex < |m.setlists| && itemIndex < |m.setlists[setlistIndex].items| ==>
              r.viewer == PdfViewer.Load(v, m.setlists[setlistIndex].items[itemIndex].fullPath, outcome).state
  {
    if setlistIndex >= |m.setlists| then Nav(m, v, false)
    else if itemIndex >= |m.setlists[setlistIndex].items| then Nav(m, v, false)
    else
      var attempt := m.(activeSetlist := setlistIndex, activeItem := itemIndex);
      var loaded := LoadActiveItem(attempt, v, attempt.activeItem, outcome);
      if !loaded.ok then Nav(attempt.(activeSetlist := m.activeSetlist, activeItem := m.activeItem), loaded.viewer, false)
      else Nav(loaded.manager, loaded.viewer, true)
  }

  /** The viewer can take the step forward itself, without changing document. */
  predicate PageStepForward(v: Viewer)
  {
    PdfViewer.IsLoaded(v) && PdfViewer.CanGoNext(v)
  }

  /** The viewer can take the step back itself, without changing document. */
  predicate PageStepBack(v: Viewer)
  {
    PdfViewer.IsLoaded(v) && PdfViewer.CanGoPrevious(v)
  }

  /**
   * One step forward through the active setlist: the next page of the open
   * document if there is one, otherwise the first page of the next item.
   */
  function Next(m: Manager, v: Viewer, outcome: LoadOutcome): (r: Nav)
    ensures GetActiveSetlist(m).None? ==> r == Nav(m, v, false)
    ensures GetActiveSetlist(m).Some? && PageStepForward(v) ==>
              r == Nav(m, v.(currentPage := v.currentPage + 1), true)
    ensures GetActiveSetlist(m).Some? && !PageStepForward(v) && m.activeItem + 1 < 0 ==>
              r == Nav(m, v, false)
    ensures GetActiveSetlist(m).Some? && !PageStepForward(v) && m.activeItem + 1 >= |m.setlists[m.activeSetlist].items| ==>
              r == Nav(m, v, false)
    ensures GetActiveSetlist(m).Some? && !PageStepForward(v) && 0 <= m.activeItem + 1 < |m.setlists[m.activeSetlist].items| ==>
              && (r.ok <==> outcome.Opened?)
              && r.viewer == PdfViewer.Load(v, m.setlists[m.activeSetlist].items[m.activeItem + 1].fullPath, outcome).state
              && (r.ok ==> r.manager == m.(activeItem := m.activeItem + 1))
              && (!r.ok ==> r.manager == m)
  {
    match GetActiveSetlist(m)
    case None => Nav(m, v, false)
    case Some(setlist) =>
      if PageStepForward(v) then Nav(m, PdfViewer.NextPage(v), true)
      else
        var nextItem := m.activeItem + 1;
        if nextItem < |setlist.items| then LoadActiveItem(m, v, nextItem, outcome)
        else Nav(m, v, false)
  }

  /**
   * One step back through the active setlist: the previous page of the open
   * document if there is one, otherwise the previous item, shown at its
   * last page.
   */
  function Previous(m: Manager, v: Viewer, outcome: LoadOutcome): (r: Nav)
    ensures GetActiveSetlist(m).None? ==> r == Nav(m, v, false)
    ensures GetActiveSetlist(m).Some? && PageStepBack(v) ==>
              r == Nav(m, v.(currentPage := v.currentPage - 1), true)
    ensures GetActiveSetlist(m).Some? && !PageStepBack(v) && m.activeItem - 1 < 0 ==>
              r == Nav(m, v, false)
    ensures GetActiveSetlist(m).Some? && !PageStepBack(v) && 0 <= m.activeItem - 1 < |m.setlists[m.activeSetlist].items| ==>
              && (r.ok <==> outcome.Opened?)
              && (r.ok ==> && r.manager == m.(activeItem := m.activeItem - 1)
                           && PdfViewer.IsLoaded(r.viewer)
                           && r.viewer.pageCount == outcome.pages
                           && r.viewer.filename == PdfViewer.BaseName(m.setlists[m.activeSetlist].items[m.activeItem - 1].fullPath)
                           && (outcome.pages > 0 ==> r.viewer.currentPage == outcome.pages - 1)
                           && (outcome.pages <= 0 ==> r.viewer.currentPage == 0))
              && (!r.ok ==> r.manager == m && r.viewer == PdfViewer.Close(v))
    ensures GetActiveSetlist(m).Some? && !PageStepBack(v) && m.activeItem - 1 >= |m.setlists[m.activeSetlist].items| ==>
              r == Nav(m, v, false)
  {
    match GetActiveSetlist(m)
    case None => Nav(m, v, false)
    case Some(setlist) =>
      if PageStepBack(v) then Nav(m, PdfViewer.PreviousPage(v), true)
      else
        var prevItem := m.activeItem - 1;
        if prevItem >= 0 then
          var loaded := LoadActiveItem(m, v, prevItem, outcome);
          if !loaded.ok then Nav(loaded.manager, loaded.viewer, false)
          else if loaded.viewer.pageCount > 0 then
            Nav(loaded.manager, PdfViewer.GoToPage(loaded.viewer, loaded.viewer.pageCount - 1), true)
          else Nav(loaded.manager, loaded.viewer, true)
        else Nav(m, v, false)
  }

  /** Whether `Next` would move, assuming the file it may open loads. */
  predicate CanGoNext(m: Manager, v: Viewer)
    ensures CanGoNext(m, v) ==> IsActive(m) && m.activeSetlist < |m.setlists|
  {
    match GetActiveSetlist(m)
    case None => false
    case Some(setlist) => PageStepForward(v) || m.activeItem + 1 < |setlist.items|
  }

  /** Whether `Previous` would move, assuming the file it may open loads. */
  predicate CanGoPrevious(m: Manager, v: Viewer)
    ensures CanGoPrevious(m, v) ==> IsActive(m) && m.activeSetlist < |m.setlists|
  {
    match GetActiveSetlist(m)
    case None => false
    case Some(setlist) => PageStepBack(v) || m.activeItem - 1 >= 0
  }
}
