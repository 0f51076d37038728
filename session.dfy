/**
 * The editing session: the deck of active cards and the index of the card
 * shown in the editor, with the import, navigation, editing and export
 * operations that update them in place.
 */
module Sessions {
  import opened Wrappers
  import opened Cards
  import opened Decoder
  import opened Editing
  import opened Loading
  import opened Layout

  /** `Math.max(c - 1, 0)`: one card back, stopping at the first card. */
  function PreviousIndex(c: int): (r: int)
    ensures r >= 0
    ensures c >= 1 ==> r == c - 1
    ensures c <= 0 ==> r == 0
  {
    if c - 1 > 0 then c - 1 else 0
  }

  /** `Math.min(c + 1, len - 1)`: one card on, stopping at the last card. */
  function NextIndex(c: int, len: nat): (r: int)
    ensures r <= len - 1
    ensures c < len - 1 ==> r == c + 1
    ensures c >= len - 1 ==> r == len - 1
  {
    if c + 1 < len - 1 then c + 1 else len - 1
  }

  /** A sequence of navigation clicks: `true` for next, `false` for previous. */
  function Walk(c: int, len: nat, clicks: seq<bool>): int
    decreases clicks
  {
    if clicks == [] then c
    else Walk(if clicks[0] then NextIndex(c, len) else PreviousIndex(c), len, clicks[1..])
  }

  /** On a non-empty deck no sequence of clicks takes the index out of the deck. */
  lemma {:induction false} WalkStaysInDeck(c: int, len: nat, clicks: seq<bool>)
    requires 0 <= c < len
    ensures 0 <= Walk(c, len, clicks) < len
    decreases clicks
  {
    if clicks != [] {
      WalkStaysInDeck(if clicks[0] then NextIndex(c, len) else PreviousIndex(c), len, clicks[1..]);
    }
  }

  /** On an empty deck the index only ever alternates between -1 and 0. */
  lemma {:induction false} WalkOnEmptyDeck(c: int, clicks: seq<bool>)
    requires -1 <= c <= 0
    ensures -1 <= Walk(c, 0, clicks) <= 0
    ensures clicks != [] ==> Walk(c, 0, clicks) == if clicks[|clicks| - 1] then -1 else 0
    decreases clicks
  {
    if clicks != [] {
      var c' := if clicks[0] then NextIndex(c, 0) else PreviousIndex(c);
      WalkOnEmptyDeck(c', clicks[1..]);
      if |clicks| > 1 {
        assert clicks[1..][|clicks[1..]| - 1] == clicks[|clicks| - 1];
      }
    }
  }

  class Session {
    var deck: seq<Card>
    var cursor: int

    /**
     * The index stays on a card of a non-empty deck; on an empty deck it is
     * 0, or -1 after a click on "next".
     */
    ghost predicate Valid()
      reads this
    {
      if deck == [] then -1 <= cursor <= 0 else 0 <= cursor < |deck|
    }

    /** There is a card at the index. */
    predicate HasCurrent()
      reads this
    {
      0 <= cursor < |deck|
    }

    /**
     * The page start-up: when the preview surface is available the deck
     * holds one fresh card, otherwise it is empty.
     */
    constructor (previewAvailable: bool)
      ensures Valid()
      ensures deck == (if previewAvailable then [DefaultCard] else [])
      ensures cursor == 0
    {
      deck := if previewAvailable then [DefaultCard] else [];
      cursor := 0;
    }

    /** The value limits of the editor refresh, applied to the card at the index. */
    method RefreshLimits(parse: string -> Option<int>)
      requires Valid()
      modifies this
      ensures Valid()
      ensures cursor == old(cursor)
      ensures deck == if old(HasCurrent()) then old(deck)[cursor := Clamp(old(deck)[cursor], parse)]
                      else old(deck)
    {
      if HasCurrent() {
        deck := deck[cursor := Clamp(deck[cursor], parse)];
      }
    }

    /** The "previous card" button: move back, stopping at 0, then refresh. */
    method Previous(parse: string -> Option<int>)
      requires Valid()
      modifies this
      ensures Valid()
      ensures cursor == PreviousIndex(old(cursor))
      ensures old(cursor) == 0 ==> cursor == 0
      ensures deck == if 0 <= cursor < |old(deck)| then old(deck)[cursor := Clamp(old(deck)[cursor], parse)]
                      else old(deck)
    {
      cursor := PreviousIndex(cursor);
      RefreshLimits(parse);
    }

    /** The "next card" button: move on, stopping at the last card, then refresh. */
    method Next(parse: string -> Option<int>)
      requires Valid()
      modifies this
      ensures Valid()
      ensures cursor == NextIndex(old(cursor), |old(deck)|)
      ensures old(deck) != [] && old(cursor) == |old(deck)| - 1 ==> cursor == old(cursor)
      ensures old(deck) == [] ==> cursor == -1
      ensures deck == if 0 <= cursor < |old(deck)| then old(deck)[cursor := Clamp(old(deck)[cursor], parse)]
                      else old(deck)
    {
      cursor := NextIndex(cursor, |deck|);
      RefreshLimits(parse);
    }

    /** An input box of the editor: overwrite one field of the card at the index. */
    method Edit(f: Field, text: string)
      requires Valid()
      modifies this
      ensures Valid()
      ensures cursor == old(cursor)
      ensures deck == if old(HasCurrent()) then old(deck)[cursor := WithField(old(deck)[cursor], f, text)]
                      else old(deck)
    {
      if HasCurrent() {
        deck := deck[cursor := WithField(deck[cursor], f, text)];
      }
    }

    /** The type selector: set heading and type of the card at the index, then refresh. */
    method ChangeType(text: string, parse: string -> Option<int>)
      requires Valid()
      modifies this
      ensures Valid()
      ensures cursor == old(cursor)
      ensures deck == if old(HasCurrent())
                      then old(deck)[cursor := Clamp(WithOption(old(deck)[cursor], text), parse)]
                      else old(deck)
    {
      if HasCurrent() {
        deck := deck[cursor := WithOption(deck[cursor], text)];
        RefreshLimits(parse);
      }
    }

    /**
     * The completion callback of one csv or tsv file: decode its rows in
     * order and push each accepted card; unless an empty row stopped it,
     * reset the index to 0 and refresh.
     */
    method CompleteFile(rows: seq<seq<string>>, parse: string -> Option<int>)
      requires Valid() && cursor == 0
      modifies this
      ensures Valid() && cursor == 0
      ensures deck == ReadFile(old(deck), rows, parse)
    {
      ghost var before := deck;
      ghost var pushed: seq<Card> := [];
      var j := 0;
      var threw := false;
      while j < |rows| && !threw
        invariant 0 <= j <= |rows|
        invariant cursor == 0
        invariant deck == before + pushed
        invariant Scan(rows[..j]) == ScanResult(pushed, threw)
      {
        ScanPrefix(rows, j);
        match DecodeRow(rows[j]) {
          case Accepted(c) =>
            deck := deck + [c];
            pushed := pushed + [c];
          case Rejected(_) =>
          case Throws =>
            threw := true;
        }
        j := j + 1;
      }
      if threw {
        ScanStops(rows[..j], rows[j..]);
        assert rows[..j] + rows[j..] == rows;
      } else {
        assert rows[..j] == rows;
        cursor := 0;
        RefreshLimits(parse);
      }
    }

    /**
     * The file input: with a file list, empty the deck, then handle each file
     * in order. A csv or tsv file has its rows decoded and the accepted cards
     * pushed; any other file yields an error text.
     */
    method LoadFiles(files: Option<seq<SelectedFile>>, parse: string -> Option<int>)
      returns (errors: seq<string>)
      requires Valid()
      modifies this
      ensures Valid()
      ensures files.None? ==> deck == old(deck) && cursor == old(cursor) && errors == []
      ensures files.Some? ==>
                deck == LoadedDeck(files.value, parse) && cursor == 0 &&
                errors == LoadErrors(files.value)
    {
      errors := [];
      if files.None? {
        return;
      }
      var fs := files.value;
      cursor := 0;
      deck := [];
      for k := 0 to |fs|
        invariant Valid() && cursor == 0
        invariant deck == LoadedDeck(fs[..k], parse)
        invariant errors == LoadErrors(fs[..k])
      {
        var f := fs[k];
        LoadStep(fs, k, parse);
        var ext := FileExtension(f.name);
        if Tabular(ext) {
          CompleteFile(f.rows, parse);
        } else {
          errors := errors + [ErrorText(ext)];
        }
      }
      assert fs[..|fs|] == fs;
    }

    /**
     * The export button: when there is a card at the index, lay out every
     * card of the deck on the print pages, then refresh.
     */
    method Export(parse: string -> Option<int>) returns (doc: Option<Document>)
      requires Valid()
      modifies this
      ensures Valid()
      ensures cursor == old(cursor)
      ensures !old(HasCurrent()) ==> doc == None && deck == old(deck)
      ensures old(HasCurrent()) ==>
                doc.Some? &&
                |doc.value.placements| == |old(deck)| &&
                (forall i :: 0 <= i < |old(deck)| ==> doc.value.placements[i] == PlacementOf(i)) &&
                PageCount(doc.value) == (|old(deck)| + CardsPerPage - 1) / CardsPerPage &&
                deck == old(deck)[cursor := Clamp(old(deck)[cursor], parse)]
    {
      if !HasCurrent() {
        return None;
      }
      var d := Paginate(|deck|);
      PageCountIsCeiling(d, |deck|);
      doc := Some(d);
      RefreshLimits(parse);
    }
  }
}
