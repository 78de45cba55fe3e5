/**
 * The save format of the setlist collection, as text:
 *
 *   SETLISTS_V1
 *   SETLIST:<name>
 *   ITEM:<display name><TAB><full path>
 *   ...
 *   END
 *
 * Saving and loading are pure functions between a manager and the file's
 * text. Opening the file is not modelled: a file that cannot be opened is
 * an absent text.
 */
module Persistence {
  import opened Common
  import opened Setlists
  import opened SetlistManager
  import Text

  const Header: string := "SETLISTS_V1"
  const SetlistTag: string := "SETLIST:"
  const ItemTag: string := "ITEM:"
  const EndMarker: string := "END"

  // ---------------------------------------------------------------------------
  // Writing
  // ---------------------------------------------------------------------------

  function ItemLine(item: SetlistItem): string
  {
    ItemTag + item.name + "\t" + item.fullPath
  }

  function ItemLines(items: seq<SetlistItem>): (lines: seq<string>)
    ensures |lines| == |items|
  {
    if |items| == 0 then [] else [ItemLine(items[0])] + ItemLines(items[1..])
  }

  function SetlistLines(s: Setlist): seq<string>
  {
    [SetlistTag + s.name] + ItemLines(s.items)
  }

  function BodyLines(setlists: seq<Setlist>): seq<string>
  {
    if |setlists| == 0 then [] else SetlistLines(setlists[0]) + BodyLines(setlists[1..])
  }

  /** The lines of a save file: header, one block per setlist, end marker. The cursor is not saved. */
  function Serialize(setlists: seq<Setlist>): (lines: seq<string>)
    ensures |lines| >= 2 && lines[0] == Header && lines[|lines| - 1] == EndMarker
  {
    [Header] + BodyLines(setlists) + [EndMarker]
  }

  /** The text `SaveToFile` writes: each line followed by a newline. */
  function SaveToFile(m: Manager): (text: string)
    ensures Text.StartsWith(text, Header + "\n")
    ensures |text| > |EndMarker| && text[|text| - |EndMarker| - 1..] == EndMarker + "\n"
  {
    Text.JoinLinesFraming(Serialize(m.setlists));
    Text.JoinLines(Serialize(m.setlists))
  }

  // ---------------------------------------------------------------------------
  // Reading
  // ---------------------------------------------------------------------------

  /**
   * The effect of one body line on the setlists read so far. A "SETLIST:"
   * line opens a new setlist; an "ITEM:" line adds to the newest one, if
   * there is one and the line has a tab (an empty path is refused by
   * `AddItem`); any other line is ignored.
   */
  function ParseLine(acc: seq<Setlist>, line: string): (r: seq<Setlist>)
    ensures |r| == |acc| || |r| == |acc| + 1
    ensures |acc| > 0 ==> r[..|acc| - 1] == acc[..|acc| - 1]
    ensures forall i :: 0 <= i < |acc| ==> r[i].name == acc[i].name && acc[i].items <= r[i].items
    ensures Text.StartsWith(line, SetlistTag) ==>
              |r| == |acc| + 1 && r[..|acc|] == acc && r[|acc|] == Setlist(line[|SetlistTag|..], [])
    ensures !Text.StartsWith(line, SetlistTag) && !Text.StartsWith(line, ItemTag) ==> r == acc
  {
    if Text.StartsWith(line, SetlistTag) then
      acc + [NewSetlist(line[|SetlistTag|..])]
    else if Text.StartsWith(line, ItemTag) && |acc| > 0 then
      var rest := line[|ItemTag|..];
      var tab := Text.IndexOf(rest, '\t');
      if tab == |rest| then acc
      else
        var current := acc[|acc| - 1];
        acc[..|acc| - 1] + [AddItem(current, rest[..tab], rest[tab + 1..]).state]
    else acc
  }

  /** Reads body lines up to an "END" line or the end of the text. */
  function ParseLines(acc: seq<Setlist>, lines: seq<string>): (r: seq<Setlist>)
    ensures |r| >= |acc|
    ensures forall i :: 0 <= i < |acc| ==> r[i].name == acc[i].name && acc[i].items <= r[i].items
    ensures |lines| > 0 && lines[0] == EndMarker ==> r == acc
    decreases |lines|
  {
    if |lines| == 0 || lines[0] == EndMarker then acc
    else ParseLines(ParseLine(acc, lines[0]), lines[1..])
  }

  /**
   * Loads a save file. A missing file, an empty one, or one whose first
   * line is not the header, is refused with nothing changed; otherwise the
   * cursor is deactivated and the collection replaced by what the file holds.
   */
  function LoadFromFile(m: Manager, file: Option<string>): (r: Reply<Manager>)
    ensures r.ok <==> file.Some? && |Text.SplitLines(file.value)| > 0 && Text.SplitLines(file.value)[0] == Header
    ensures !r.ok ==> r.state == m
    ensures r.ok ==> r.state.activeSetlist == NoIndex && r.state.activeItem == NoIndex
    ensures r.ok ==> r.state.setlists == ParseLines([], Text.SplitLines(file.value)[1..])
  {
    match file
    case None => Reply(m, false)
    case Some(text) =>
      var lines := Text.SplitLines(text);
      if |lines| == 0 || lines[0] != Header then Reply(m, false)
      else Reply(Deactivate(m).(setlists := ParseLines([], lines[1..])), true)
  }

  // ---------------------------------------------------------------------------
  // Properties of reading
  // ---------------------------------------------------------------------------

  /** Reading stops at the first "END" line: whatever follows it is never read. */
  lemma {:induction false} ParseStopsAtEnd(acc: seq<Setlist>, lines: seq<string>, trailer: seq<string>)
    requires EndMarker !in lines
    ensures ParseLines(acc, lines + [EndMarker] + trailer) == ParseLines(acc, lines)
    decreases |lines|
  {
    if |lines| == 0 {
      assert (lines + [EndMarker] + trailer)[0] == EndMarker;
    } else {
      assert (lines + [EndMarker] + trailer)[1..] == lines[1..] + [EndMarker] + trailer;
      ParseStopsAtEnd(ParseLine(acc, lines[0]), lines[1..], trailer);
    }
  }

  /** An "ITEM:" line with no tab is skipped, as is any "ITEM:" line before the first setlist. */
  lemma MalformedItemLinesSkipped(acc: seq<Setlist>, rest: string)
    ensures '\t' !in rest ==> ParseLine(acc, ItemTag + rest) == acc
    ensures ParseLine([], ItemTag + rest) == []
  {
    var line := ItemTag + rest;
    assert line[..|ItemTag|] == ItemTag;
    assert !Text.StartsWith(line, SetlistTag) by {
      assert line[0] == 'I';
    }
    assert line[|ItemTag|..] == rest;
  }

  /** An unreadable first line refuses the whole file and leaves the manager as it was. */
  lemma BadHeaderRefused(m: Manager, first: string, rest: seq<string>)
    requires first != Header && '\n' !in first && Text.NoNewline(rest)
    ensures LoadFromFile(m, Some(Text.JoinLines([first] + rest))) == Reply(m, false)
  {
    Text.SplitJoinLines([first] + rest);
  }

  // ---------------------------------------------------------------------------
  // Round trip
  // ---------------------------------------------------------------------------

  /**
   * What the format can carry: names and paths without newlines, item
   * names without tabs (the first tab ends the name), and non-empty paths
   * (an empty path is refused when read back).
   */
  predicate Saveable(setlists: seq<Setlist>)
  {
    forall i :: 0 <= i < |setlists| ==> SaveableSetlist(setlists[i])
  }

  predicate SaveableSetlist(s: Setlist)
  {
    && '\n' !in s.name
    && forall k :: 0 <= k < |s.items| ==> SaveableItem(s.items[k])
  }

  predicate SaveableItem(item: SetlistItem)
  {
    '\n' !in item.name && '\t' !in item.name && '\n' !in item.fullPath && item.fullPath != ""
  }

  /** Reading a line that is not the end marker, then the rest. */
  lemma ParseLinesCons(acc: seq<Setlist>, line: string, tail: seq<string>)
    requires line != EndMarker
    ensures ParseLines(acc, [line] + tail) == ParseLines(ParseLine(acc, line), tail)
  {
    assert ([line] + tail)[1..] == tail;
  }

  lemma ItemLineParses(acc: seq<Setlist>, s: Setlist, item: SetlistItem)
    requires SaveableItem(item)
    ensures ItemLine(item) != EndMarker
    ensures ParseLine(acc + [s], ItemLine(item)) == acc + [s.(items := s.items + [item])]
  {
    var line := ItemLine(item);
    assert line[0] == 'I';
    assert !Text.StartsWith(line, SetlistTag) by {
      assert line[0] != SetlistTag[0];
    }
    assert line[..|ItemTag|] == ItemTag;
    var rest := line[|ItemTag|..];
    assert rest == item.name + "\t" + item.fullPath;
    Text.IndexOfAfterPrefix(item.name, '\t', item.fullPath);
    assert rest[..|item.name|] == item.name;
    assert rest[|item.name| + 1..] == item.fullPath;
    assert (acc + [s])[..|acc + [s]| - 1] == acc;
  }

  /** The item lines of a non-empty list: the first item's line, then the others'. */
  lemma ItemLinesCons(items: seq<SetlistItem>, rest: seq<string>)
    requires |items| > 0
    ensures ItemLines(items) + rest == [ItemLine(items[0])] + (ItemLines(items[1..]) + rest)
  {
    var head, others := [ItemLine(items[0])], ItemLines(items[1..]);
    assert ItemLines(items) == head + others;
    AppendAssociative(head, others, rest);
  }

  lemma AppendAssociative<T>(a: seq<T>, b: seq<T>, c: seq<T>)
    ensures (a + b) + c == a + (b + c)
  {
  }

  lemma {:induction false} ItemLinesParse(acc: seq<Setlist>, s: Setlist, items: seq<SetlistItem>, rest: seq<string>)
    requires forall k :: 0 <= k < |items| ==> SaveableItem(items[k])
    ensures ParseLines(acc + [s], ItemLines(items) + rest) == ParseLines(acc + [s.(items := s.items + items)], rest)
    decreases |items|
  {
    if |items| == 0 {
      assert ItemLines(items) + rest == rest;
      assert s.items + items == s.items;
    } else {
      var tail := ItemLines(items[1..]) + rest;
      var s' := s.(items := s.items + [items[0]]);
      calc {
        ParseLines(acc + [s], ItemLines(items) + rest);
        { ItemLinesCons(items, rest); }
        ParseLines(acc + [s], [ItemLine(items[0])] + tail);
        { ItemLineParses(acc, s, items[0]);
          ParseLinesCons(acc + [s], ItemLine(items[0]), tail); }
        ParseLines(acc + [s'], tail);
        { ItemLinesParse(acc, s', items[1..], rest); }
        ParseLines(acc + [s'.(items := s'.items + items[1..])], rest);
        { assert s'.items + items[1..] == s.items + items; }
        ParseLines(acc + [s.(items := s.items + items)], rest);
      }
    }
  }

  lemma SetlistLinesParse(acc: seq<Setlist>, s: Setlist, rest: seq<string>)
    requires SaveableSetlist(s)
    ensures ParseLines(acc, SetlistLines(s) + rest) == ParseLines(acc + [s], rest)
  {
    var line := SetlistTag + s.name;
    var lines := SetlistLines(s) + rest;
    assert lines[0] == line;
    assert lines[1..] == ItemLines(s.items) + rest;
    assert line != EndMarker by {
      assert line[0] == 'S';
    }
    assert line[..|SetlistTag|] == SetlistTag;
    assert line[|SetlistTag|..] == s.name;
    ItemLinesParse(acc, NewSetlist(s.name), s.items, rest);
    assert NewSetlist(s.name).(items := [] + s.items) == s;
  }

  lemma SaveableTail(setlists: seq<Setlist>)
    requires Saveable(setlists) && |setlists| > 0
    ensures Saveable(setlists[1..])
  {
    forall i | 0 <= i < |setlists| - 1
      ensures SaveableSetlist(setlists[1..][i])
    {
      assert setlists[1..][i] == setlists[i + 1];
    }
  }

  /** The body lines of a non-empty collection: the first setlist's block, then the others'. */
  lemma BodyLinesCons(setlists: seq<Setlist>, rest: seq<string>)
    requires |setlists| > 0
    ensures BodyLines(setlists) + rest == SetlistLines(setlists[0]) + (BodyLines(setlists[1..]) + rest)
  {
    AppendAssociative(SetlistLines(setlists[0]), BodyLines(setlists[1..]), rest);
  }

  lemma {:induction false} BodyLinesParse(acc: seq<Setlist>, setlists: seq<Setlist>, rest: seq<string>)
    requires Saveable(setlists)
    ensures ParseLines(acc, BodyLines(setlists) + rest) == ParseLines(acc + setlists, rest)
    decreases |setlists|
  {
    if |setlists| == 0 {
      assert BodyLines(setlists) + rest == rest;
      assert acc + setlists == acc;
    } else {
      var head, others := setlists[0], setlists[1..];
      var tail := BodyLines(others) + rest;
      assert SaveableSetlist(head);
      SaveableTail(setlists);
      calc {
        ParseLines(acc, BodyLines(setlists) + rest);
        { BodyLinesCons(setlists, rest); }
        ParseLines(acc, SetlistLines(head) + tail);
        { SetlistLinesParse(acc, head, tail); }
        ParseLines(acc + [head], tail);
        { BodyLinesParse(acc + [head], others, rest); }
        ParseLines(acc + [head] + others, rest);
        { assert acc + [head] + others == acc + setlists; }
        ParseLines(acc + setlists, rest);
      }
    }
  }


  lemma {:induction false} BodyLinesNoNewline(setlists: seq<Setlist>)
    requires Saveable(setlists)
    ensures Text.NoNewline(BodyLines(setlists))
  {
    if |setlists| > 0 {
      var s := setlists[0];
      BodyLinesNoNewline(setlists[1..]);
      ItemLinesNoNewline(s.items);
      assert '\n' !in SetlistTag + s.name;
    }
  }

  lemma {:induction false} ItemLinesNoNewline(items: seq<SetlistItem>)
    requires forall k :: 0 <= k < |items| ==> SaveableItem(items[k])
    ensures Text.NoNewline(ItemLines(items))
  {
    if |items| > 0 {
      ItemLinesNoNewline(items[1..]);
      assert '\n' !in ItemLine(items[0]);
    }
  }

  /** Reading the saved lines gives back every setlist name, item name and path, in order. */
  lemma ParseSerialized(setlists: seq<Setlist>)
    requires Saveable(setlists)
    ensures ParseLines([], Serialize(setlists)[1..]) == setlists
  {
    var lines := Serialize(setlists);
    assert lines[1..] == BodyLines(setlists) + [EndMarker];
    BodyLinesParse([], setlists, [EndMarker]);
    assert [] + setlists == setlists;
  }

  /**
   * Saving and loading back: the load succeeds, the collection is the one
   * saved, and the cursor is inactive whatever it was.
   */
  lemma SaveLoadRoundTrip(saved: Manager, current: Manager)
    requires Saveable(saved.setlists)
    ensures LoadFromFile(current, Some(SaveToFile(saved))) == Reply(Manager(saved.setlists, NoIndex, NoIndex), true)
  {
    var lines := Serialize(saved.setlists);
    BodyLinesNoNewline(saved.setlists);
    assert Text.NoNewline(lines) by {
      assert lines == [Header] + BodyLines(saved.setlists) + [EndMarker];
      forall k | 0 <= k < |lines|
        ensures '\n' !in lines[k]
      {
        if 0 < k < |lines| - 1 {
          assert lines[k] == BodyLines(saved.setlists)[k - 1];
        }
      }
    }
    Text.SplitJoinLines(lines);
    ParseSerialized(saved.setlists);
  }
}
