/**
 * A setlist: a named, ordered list of PDF references read through as one
 * continuous document. Each edit returns the new setlist together with the
 * boolean the program returns; a rejected edit returns the setlist unchanged.
 */
module Setlists {
  import opened Common
  import PdfLibrary

  /** One entry of a setlist: a display name and the path of the PDF. */
  datatype SetlistItem = SetlistItem(name: string, fullPath: string)

  datatype Setlist = Setlist(name: string, items: seq<SetlistItem>)

  // ---------------------------------------------------------------------------
  // Sequence surgery
  // ---------------------------------------------------------------------------

  /** The sequence without its element at `i`; later elements move down by one. */
  function RemoveAt<T>(xs: seq<T>, i: nat): (r: seq<T>)
    requires i < |xs|
    ensures |r| == |xs| - 1
    ensures forall j :: 0 <= j < i ==> r[j] == xs[j]
    ensures forall j :: i <= j < |r| ==> r[j] == xs[j + 1]
  {
    xs[..i] + xs[i + 1..]
  }

  /** The sequence with `x` placed at `i`; elements from `i` on move up by one. */
  function InsertAt<T>(xs: seq<T>, i: nat, x: T): (r: seq<T>)
    requires i <= |xs|
    ensures |r| == |xs| + 1
    ensures r[i] == x
    ensures forall j :: 0 <= j < i ==> r[j] == xs[j]
    ensures forall j :: i < j < |r| ==> r[j] == xs[j - 1]
  {
    xs[..i] + [x] + xs[i..]
  }

  lemma RemoveAtMultiset<T>(xs: seq<T>, i: nat)
    requires i < |xs|
    ensures multiset(RemoveAt(xs, i)) + multiset{xs[i]} == multiset(xs)
  {
    assert xs == xs[..i] + [xs[i]] + xs[i + 1..];
  }

  lemma InsertAtMultiset<T>(xs: seq<T>, i: nat, x: T)
    requires i <= |xs|
    ensures multiset(InsertAt(xs, i, x)) == multiset(xs) + multiset{x}
  {
    assert xs == xs[..i] + xs[i..];
  }

  /** Removing what was just inserted gives the sequence back. */
  lemma RemoveInsert<T>(xs: seq<T>, i: nat, x: T)
    requires i <= |xs|
    ensures RemoveAt(InsertAt(xs, i, x), i) == xs
  {
  }

  /** Re-inserting an element where it was removed gives the sequence back. */
  lemma InsertRemove<T>(xs: seq<T>, i: nat)
    requires i < |xs|
    ensures InsertAt(RemoveAt(xs, i), i, xs[i]) == xs
  {
  }

  // ---------------------------------------------------------------------------
  // Setlist operations
  // ---------------------------------------------------------------------------

  /** The constructor: the given name and no items. */
  function NewSetlist(name: string): (s: Setlist)
    ensures s.name == name && ItemCount(s) == 0
  {
    Setlist(name, [])
  }

  function ItemCount(s: Setlist): nat
  {
    |s.items|
  }

  /** Renaming touches only the name. */
  function SetName(s: Setlist, name: string): (r: Setlist)
    ensures r.name == name && r.items == s.items
  {
    s.(name := name)
  }

  /**
   * Appends an item. An empty path is refused; otherwise the new item goes
   * at the end and every earlier item keeps its position.
   */
  function AddItem(s: Setlist, name: string, fullPath: string): (r: Reply<Setlist>)
    ensures r.ok <==> fullPath != ""
    ensures r.state.name == s.name
    ensures !r.ok ==> r.state == s
    ensures r.ok ==> && ItemCount(r.state) == ItemCount(s) + 1
                     && r.state.items[..ItemCount(s)] == s.items
                     && r.state.items[ItemCount(s)] == SetlistItem(name, fullPath)
  {
    if fullPath == "" then Reply(s, false)
    else Reply(s.(items := s.items + [SetlistItem(name, fullPath)]), true)
  }

  /** Adds a library entry under its file name and full path, by the same rule. */
  function AddEntry(s: Setlist, entry: PdfLibrary.PdfEntry): (r: Reply<Setlist>)
    ensures r.ok <==> entry.fullPath != ""
    ensures !r.ok ==> r.state == s
    ensures r.state.name == s.name
    ensures r.ok ==> && ItemCount(r.state) == ItemCount(s) + 1
                     && r.state.items[..ItemCount(s)] == s.items
                     && r.state.items[ItemCount(s)].name == entry.filename
                     && r.state.items[ItemCount(s)].fullPath == entry.fullPath
  {
    AddItem(s, entry.filename, entry.fullPath)
  }

  /** Deletes the item at `index`, closing the gap; an index past the end is refused. */
  function RemoveItem(s: Setlist, index: nat): (r: Reply<Setlist>)
    ensures r.ok <==> index < ItemCount(s)
    ensures !r.ok ==> r.state == s
    ensures r.state.name == s.name
    ensures r.ok ==> && ItemCount(r.state) == ItemCount(s) - 1
                     && (forall j :: 0 <= j < index ==> r.state.items[j] == s.items[j])
                     && (forall j :: index <= j < ItemCount(r.state) ==> r.state.items[j] == s.items[j + 1])
  {
    if index >= |s.items| then Reply(s, false)
    else Reply(s.(items := RemoveAt(s.items, index)), true)
  }

  /**
   * Moves the item at `fromIndex` so that it ends up at `toIndex`, the
   * target being counted after the removal. Either index out of range is
   * refused; equal indices succeed without change. The result is the same
   * items in a new order: the moved item sits at `toIndex`, and taking it
   * out again leaves the other items in their old relative order.
   */
  function MoveItem(s: Setlist, fromIndex: nat, toIndex: nat): (r: Reply<Setlist>)
    ensures r.ok <==> fromIndex < ItemCount(s) && toIndex < ItemCount(s)
    ensures !r.ok ==> r.state == s
    ensures r.state.name == s.name
    ensures r.ok ==> && ItemCount(r.state) == ItemCount(s)
                     && multiset(r.state.items) == multiset(s.items)
                     && r.state.items[toIndex] == s.items[fromIndex]
                     && RemoveAt(r.state.items, toIndex) == RemoveAt(s.items, fromIndex)
  {
    if fromIndex >= |s.items| || toIndex >= |s.items| then Reply(s, false)
    else if fromIndex == toIndex then
      InsertRemove(s.items, fromIndex);
      Reply(s, true)
    else
      var item := s.items[fromIndex];
      var rest := RemoveAt(s.items, fromIndex);
      var moved := InsertAt(rest, toIndex, item);
      RemoveAtMultiset(s.items, fromIndex);
      InsertAtMultiset(rest, toIndex, item);
      RemoveInsert(rest, toIndex, item);
      Reply(s.(items := moved), true)
  }

  /** Empties the setlist and keeps its name. */
  function Clear(s: Setlist): (r: Setlist)
    ensures r.name == s.name && ItemCount(r) == 0
  {
    s.(items := [])
  }

  /** Removing the item just appended gives the setlist back. */
  lemma AddThenRemove(s: Setlist, name: string, fullPath: string)
    requires fullPath != ""
    ensures RemoveItem(AddItem(s, name, fullPath).state, ItemCount(s)) == Reply(s, true)
  {
    var added := AddItem(s, name, fullPath).state;
    assert RemoveAt(added.items, ItemCount(s)) == s.items;
  }

  // ---------------------------------------------------------------------------
  // Properties of MoveItem
  // ---------------------------------------------------------------------------

  /** Moving an item onto its own position reports success and changes nothing. */
  lemma MoveItemSameIndex(s: Setlist, i: nat)
    requires i < ItemCount(s)
    ensures MoveItem(s, i, i) == Reply(s, true)
  {
  }

  /**
   * Where each item lands, for a forward move: items before `fromIndex` and
   * after `toIndex` stay, the ones in between shift one place towards the
   * front, and the moved item takes `toIndex`.
   */
  lemma {:induction false} MoveItemForward(s: Setlist, fromIndex: nat, toIndex: nat)
    requires fromIndex < toIndex < ItemCount(s)
    ensures var r := MoveItem(s, fromIndex, toIndex).state.items;
            && (forall j :: 0 <= j < fromIndex ==> r[j] == s.items[j])
            && (forall j :: fromIndex <= j < toIndex ==> r[j] == s.items[j + 1])
            && r[toIndex] == s.items[fromIndex]
            && (forall j :: toIndex < j < |r| ==> r[j] == s.items[j])
  {
    var rest := RemoveAt(s.items, fromIndex);
    assert MoveItem(s, fromIndex, toIndex).state.items == InsertAt(rest, toIndex, s.items[fromIndex]);
  }

  /**
   * Where each item lands, for a backward move: the items from `toIndex` up
   * to `fromIndex` shift one place towards the end.
   */
  lemma {:induction false} MoveItemBackward(s: Setlist, fromIndex: nat, toIndex: nat)
    requires toIndex < fromIndex < ItemCount(s)
    ensures var r := MoveItem(s, fromIndex, toIndex).state.items;
            && (forall j :: 0 <= j < toIndex ==> r[j] == s.items[j])
            && r[toIndex] == s.items[fromIndex]
            && (forall j :: toIndex < j <= fromIndex ==> r[j] == s.items[j - 1])
            && (forall j :: fromIndex < j < |r| ==> r[j] == s.items[j])
  {
    var rest := RemoveAt(s.items, fromIndex);
    assert MoveItem(s, fromIndex, toIndex).state.items == InsertAt(rest, toIndex, s.items[fromIndex]);
  }

  /** Moving an item back to where it came from restores the original order. */
  lemma {:induction false} MoveItemUndo(s: Setlist, fromIndex: nat, toIndex: nat)
    requires fromIndex < ItemCount(s) && toIndex < ItemCount(s)
    ensures MoveItem(MoveItem(s, fromIndex, toIndex).state, toIndex, fromIndex) == Reply(s, true)
  {
    var moved := MoveItem(s, fromIndex, toIndex).state;
    if fromIndex != toIndex {
      var rest := RemoveAt(s.items, fromIndex);
      assert moved.items == InsertAt(rest, toIndex, s.items[fromIndex]);
      RemoveInsert(rest, toIndex, s.items[fromIndex]);
      assert RemoveAt(moved.items, toIndex) == rest;
      InsertRemove(s.items, fromIndex);
    }
  }

  /** Moving the first of four items to position 2: [a, b, c, d] becomes [b, c, a, d]. */
  lemma MoveItemExample(name: string, a: SetlistItem, b: SetlistItem, c: SetlistItem, d: SetlistItem)
    ensures MoveItem(Setlist(name, [a, b, c, d]), 0, 2) == Reply(Setlist(name, [b, c, a, d]), true)
  {
    MoveItemDefinition(Setlist(name, [a, b, c, d]), 0, 2);
    MoveFirstToTwo(a, b, c, d);
  }

  lemma MoveFirstToTwo<T>(a: T, b: T, c: T, d: T)
    ensures InsertAt(RemoveAt([a, b, c, d], 0), 2, a) == [b, c, a, d]
  {
    assert RemoveAt([a, b, c, d], 0) == [b, c, d];
  }

  /** A move between distinct positions is a removal followed by an insertion. */
  lemma MoveItemDefinition(s: Setlist, fromIndex: nat, toIndex: nat)
    requires fromIndex < ItemCount(s) && toIndex < ItemCount(s) && fromIndex != toIndex
    ensures MoveItem(s, fromIndex, toIndex)
            == Reply(s.(items := InsertAt(RemoveAt(s.items, fromIndex), toIndex, s.items[fromIndex])), true)
  {
  }

}
