/**
 * The batch import: which selected files are read, the deck that reading
 * them produces, and the error texts shown for the others.
 */
module Loading {
  import opened Wrappers
  import opened Text
  import opened Cards
  import opened Decoder
  import opened Editing

  /** A selected file: its name and the rows the CSV tokeniser yields for it. */
  datatype SelectedFile = SelectedFile(name: string, rows: seq<seq<string>>)

  /** The lower-cased text after the last '.', or "" when the name has none. */
  function FileExtension(name: string): string
  {
    var parts := Split(name, '.');
    if |parts| > 1 then ToLower(parts[|parts| - 1]) else ""
  }

  lemma FileExtensionSpec(name: string)
    ensures '.' !in name ==> FileExtension(name) == ""
    ensures '.' in name ==>
              exists k :: 0 <= k < |name| && name[k] == '.' && '.' !in name[k + 1..] &&
                          FileExtension(name) == ToLower(name[k + 1..])
  {
    SplitMany(name, '.');
    if '.' in name {
      SplitLast(name, '.');
    }
  }

  /** Only these extensions lead to row processing. */
  predicate Tabular(ext: string)
  {
    ext == "csv" || ext == "tsv"
  }

  /** A name is read exactly when its text after the last '.' is csv or tsv in any case. */
  lemma TabularNames(name: string)
    ensures Tabular(FileExtension(name)) <==>
              exists k :: 0 <= k < |name| && name[k] == '.' && '.' !in name[k + 1..] &&
                          Tabular(ToLower(name[k + 1..]))
  {
    FileExtensionSpec(name);
    if '.' in name {
    }
  }

  /**
   * Spelled out: a name is read exactly when it ends in '.' followed by
   * "csv" or "tsv" in any mix of cases ("deck.CSV" and "deck.Tsv" are read,
   * "deck.csvx" and "deck" are not).
   */
  lemma TabularSpelling(name: string)
    ensures Tabular(FileExtension(name)) <==> EndsInTabular(name)
  {
    FileExtensionSpec(name);
    if '.' in name {
      var k :| 0 <= k < |name| && name[k] == '.' && '.' !in name[k + 1..] &&
               FileExtension(name) == ToLower(name[k + 1..]);
      var e := name[k + 1..];
      LowerCsvTsv(e);
      if EndsInTabular(name) {
        LastDotOfTabular(name, k);
      }
      if |e| == 3 {
        assert e[0] == name[|name| - 3] && e[1] == name[|name| - 2] && e[2] == name[|name| - 1];
      }
    }
  }

  /** The name ends in '.' and "csv" or "tsv", in any mix of cases. */
  predicate EndsInTabular(name: string)
  {
    |name| >= 4 && name[|name| - 4] == '.' && name[|name| - 3] in "cCtT" &&
    name[|name| - 2] in "sS" && name[|name| - 1] in "vV"
  }

  lemma LastDotOfTabular(name: string, k: int)
    requires EndsInTabular(name)
    requires 0 <= k < |name| && name[k] == '.' && '.' !in name[k + 1..]
    ensures k == |name| - 4
  {
  }

  /** The text of the error dialog for a file that is not read. */
  function ErrorText(ext: string): string
  {
    "StrataGen only supports .csv files.  Selected file is a '" + ext + "' file."
  }

  /** The first card after the editor refresh: its value clamped. */
  function ClampFirst(deck: seq<Card>, parse: string -> Option<int>): seq<Card>
  {
    if deck == [] then [] else deck[0 := Clamp(deck[0], parse)]
  }

  /**
   * The deck after the selected files have been handled in order, starting
   * from an empty deck. A read file appends the cards its rows yield; when
   * its callback completes, the editor refresh clamps the first card.
   */
  function LoadedDeck(files: seq<SelectedFile>, parse: string -> Option<int>): seq<Card>
  {
    if files == [] then []
    else
      var prev := LoadedDeck(files[..|files| - 1], parse);
      var f := files[|files| - 1];
      if Tabular(FileExtension(f.name)) then ReadFile(prev, f.rows, parse) else prev
  }

  /**
   * The deck after one file's completion callback: its cards pushed and,
   * unless a row threw, the first card clamped by the refresh.
   */
  function ReadFile(deck: seq<Card>, rows: seq<seq<string>>, parse: string -> Option<int>): seq<Card>
  {
    var s := Scan(rows);
    if s.threw then deck + s.cards else ClampFirst(deck + s.cards, parse)
  }

  /**
   * The texts written to the error dialog, one per file that is not read,
   * in order. Each write replaces the dialog's text, so the dialog is left
   * showing the last one (`LastErrorShown`).
   */
  function LoadErrors(files: seq<SelectedFile>): seq<string>
  {
    if files == [] then []
    else
      var f := files[|files| - 1];
      var ext := FileExtension(f.name);
      LoadErrors(files[..|files| - 1]) + (if Tabular(ext) then [] else [ErrorText(ext)])
  }

  /** Handling the selected files one file further. */
  lemma LoadStep(files: seq<SelectedFile>, k: nat, parse: string -> Option<int>)
    requires k < |files|
    ensures var ext := FileExtension(files[k].name);
            LoadedDeck(files[..k + 1], parse) ==
              (if Tabular(ext) then ReadFile(LoadedDeck(files[..k], parse), files[k].rows, parse)
               else LoadedDeck(files[..k], parse)) &&
            LoadErrors(files[..k + 1]) ==
              LoadErrors(files[..k]) + (if Tabular(ext) then [] else [ErrorText(ext)])
  {
    assert files[..k + 1][..k] == files[..k];
  }

  /** The cards the read files yield, concatenated in file order. */
  function AllCards(files: seq<SelectedFile>): seq<Card>
  {
    if files == [] then []
    else
      var f := files[|files| - 1];
      AllCards(files[..|files| - 1]) +
      (if Tabular(FileExtension(f.name)) then Scan(f.rows).cards else [])
  }

  /** The rows of the read files, concatenated in file order. */
  function TabularRows(files: seq<SelectedFile>): seq<seq<string>>
  {
    if files == [] then []
    else
      var f := files[|files| - 1];
      TabularRows(files[..|files| - 1]) +
      (if Tabular(FileExtension(f.name)) then f.rows else [])
  }

  /** Two decks that agree everywhere except, possibly, in the first card's value. */
  predicate SameButFirstValue(a: seq<Card>, b: seq<Card>)
  {
    |a| == |b| &&
    (forall i :: 1 <= i < |a| ==> a[i] == b[i]) &&
    (|a| > 0 ==> a[0].(value := b[0].value) == b[0])
  }

  /**
   * Loading appends: the loaded deck holds the cards of all read files in
   * order, with at most the first card's value changed by the refresh.
   */
  lemma {:induction false} LoadedDeckAppends(files: seq<SelectedFile>, parse: string -> Option<int>)
    ensures SameButFirstValue(LoadedDeck(files, parse), AllCards(files))
  {
    if files != [] {
      var init := files[..|files| - 1];
      var f := files[|files| - 1];
      LoadedDeckAppends(init, parse);
      if Tabular(FileExtension(f.name)) {
        var s := Scan(f.rows);
        SameButFirstValueAppend(LoadedDeck(init, parse), AllCards(init), s.cards);
        if !s.threw {
          ClampFirstKeeps(LoadedDeck(init, parse) + s.cards, AllCards(init) + s.cards, parse);
        }
      } else {
        assert AllCards(files) == AllCards(init) + [];
      }
    }
  }

  /**
   * The one card the refresh may change is the first loaded card, and it
   * is that card either as read or with its value clamped once.
   */
  lemma {:induction false} LoadedFirstCard(files: seq<SelectedFile>, parse: string -> Option<int>)
    requires ReadsLimits(parse)
    ensures |LoadedDeck(files, parse)| == |AllCards(files)|
    ensures |AllCards(files)| > 0 ==>
              LoadedDeck(files, parse)[0] == AllCards(files)[0] ||
              LoadedDeck(files, parse)[0] == Clamp(AllCards(files)[0], parse)
  {
    LoadedDeckAppends(files, parse);
    if files != [] {
      var init := files[..|files| - 1];
      var f := files[|files| - 1];
      LoadedFirstCard(init, parse);
      LoadedDeckAppends(init, parse);
      if Tabular(FileExtension(f.name)) {
        var prev := LoadedDeck(init, parse);
        var s := Scan(f.rows);
        FirstOfAppend(prev, AllCards(init), s.cards, parse);
        if !s.threw && |AllCards(files)| > 0 {
          ClampIdempotent(AllCards(files)[0], parse);
        }
      } else {
        assert AllCards(files) == AllCards(init) + [];
      }
    }
  }

  lemma FirstOfAppend(p: seq<Card>, a: seq<Card>, c: seq<Card>, parse: string -> Option<int>)
    requires |p| == |a|
    requires |a| > 0 ==> p[0] == a[0] || p[0] == Clamp(a[0], parse)
    ensures |a + c| > 0 ==> (p + c)[0] == (a + c)[0] || (p + c)[0] == Clamp((a + c)[0], parse)
  {
    if |a| > 0 {
      assert (p + c)[0] == p[0] && (a + c)[0] == a[0];
    } else if |c| > 0 {
      assert (p + c)[0] == c[0] && (a + c)[0] == c[0];
    }
  }

  lemma SameButFirstValueAppend(a: seq<Card>, b: seq<Card>, c: seq<Card>)
    requires SameButFirstValue(a, b)
    ensures SameButFirstValue(a + c, b + c)
  {
    forall i | 1 <= i < |a + c| ensures (a + c)[i] == (b + c)[i] {
      if i < |a| {
        assert (a + c)[i] == a[i] && (b + c)[i] == b[i];
      } else {
        assert (a + c)[i] == c[i - |a|] && (b + c)[i] == c[i - |b|];
      }
    }
    if |a| > 0 {
      assert (a + c)[0] == a[0] && (b + c)[0] == b[0];
    } else if |c| > 0 {
      assert (a + c)[0] == c[0] && (b + c)[0] == c[0];
    }
  }

  lemma ClampFirstKeeps(a: seq<Card>, b: seq<Card>, parse: string -> Option<int>)
    requires SameButFirstValue(a, b)
    ensures SameButFirstValue(ClampFirst(a, parse), b)
  {
    if a != [] {
      var c := Clamp(a[0], parse);
      assert c.(value := a[0].value) == a[0];
      assert ClampFirst(a, parse)[0] == c;
    }
  }

  /**
   * When no row is empty, the loaded cards are exactly the decoded rows of
   * the read files, taken together.
   */
  lemma {:induction false} AllCardsDecoded(files: seq<SelectedFile>)
    requires forall f, i :: f in files && 0 <= i < |f.rows| ==> f.rows[i] != []
    ensures AllCards(files) == Decoded(TabularRows(files))
  {
    if files != [] {
      var init := files[..|files| - 1];
      var f := files[|files| - 1];
      assert forall g :: g in init ==> g in files;
      AllCardsDecoded(init);
      if Tabular(FileExtension(f.name)) {
        assert f in files;
        ScanIsDecoded(f.rows);
        DecodedAppend(TabularRows(init), f.rows);
      } else {
        assert TabularRows(init) + [] == TabularRows(init);
        assert AllCards(init) + [] == AllCards(init);
      }
    }
  }

  /** The dialog is left showing the error text of the last file that is not read. */
  lemma {:induction false} LastErrorShown(files: seq<SelectedFile>, k: int)
    requires 0 <= k < |files| && !Tabular(FileExtension(files[k].name))
    requires forall j :: k < j < |files| ==> Tabular(FileExtension(files[j].name))
    ensures LoadErrors(files) != []
    ensures LoadErrors(files)[|LoadErrors(files)| - 1] == ErrorText(FileExtension(files[k].name))
  {
    var init := files[..|files| - 1];
    if k < |files| - 1 {
      assert init[k] == files[k];
      assert forall j :: k < j < |init| ==> init[j] == files[j];
      LastErrorShown(init, k);
      assert LoadErrors(files) == LoadErrors(init) + [];
    }
  }

  /** Files that are not read leave the deck alone and add one error text each. */
  lemma RejectedFileIgnored(files: seq<SelectedFile>, f: SelectedFile, parse: string -> Option<int>)
    requires !Tabular(FileExtension(f.name))
    ensures LoadedDeck(files + [f], parse) == LoadedDeck(files, parse)
    ensures LoadErrors(files + [f]) == LoadErrors(files) + [ErrorText(FileExtension(f.name))]
  {
    assert (files + [f])[..|files + [f]| - 1] == files;
  }
}
