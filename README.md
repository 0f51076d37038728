# StrataGen session core, modelled in Dafny

StrataGen turns rows of a CSV or TSV file into a deck of Warhammer-style
cards (Stratagems, Psychic Powers, Secondary Objectives, Prayers), lets the
user page through and edit the cards, and exports the deck as a PDF with
nine card images per page. This project models the session logic of
`src/app.ts`:

- the row decoder and the batch import of several selected files
  (`handleFileSelect`, `getFileExtension`);
- the deck and its cursor as a class `Sessions.Session`, with the
  navigation buttons, the field editors, the type selector and the value
  limits applied by the editor refresh (`updateCardUI`);
- the export: millimetre-to-pixel conversion of the card surfaces and the
  placement of card `i` on page `i / 9` in a 3 x 3 grid (`handleCreate`).

Modules: `Wrappers` (Option), `Text` (upper/lower case, split), `Cards`
(the card entity), `Decoder` (one row, one file), `Editing` (pure card
updates and value limits), `Loading` (the files of one selection),
`Layout` (units and pagination), `Sessions` (the session class).

Modelling choices:

- Cards are values (`Cards.Card`); the deck is a `seq<Card>` field that the
  session's methods reassign, and editing a card replaces the element at the
  cursor.
- `toUpperCase` is exact for every character whose upper-case form is made
  of ASCII characters only: a-z, dotless i, long s, sharp s ("SS") and the
  Latin ligatures U+FB00 to U+FB06 ("FF", "FI", "FL", "FFI", "FFL", "ST",
  "ST"). Every other character is kept; its real upper-case form contains a
  non-ASCII character, so keeping it cannot change whether field 0 equals
  one of the ASCII labels. `toLowerCase` is exact for A-Z and the Kelvin
  sign, the characters whose lower-case form is one ASCII letter.
- `parseInt` is a parameter `parse: string -> Option<int>`, `None` standing
  for NaN. Lemmas that need it to read "1", "2", "3", "12" as numbers say so
  (`Editing.ReadsLimits`).
- The papaparse completion callbacks run synchronously, in file order. A row
  with no field makes `fields[0].toUpperCase()` throw, which ends that
  file's callback: its remaining rows are not read and its cursor reset and
  refresh (lines 247-250) do not run.
- Every refresh (`updateCardUI`) clamps the value of the card at the cursor.
  So navigation, the type selector, the end of each file's import and the
  export can change that card's value, and the model says so.
- Export coordinates are integers in tenths of a millimetre (30, 635, 889);
  unit conversion uses exact `real` arithmetic.
- A fresh `Card` is assumed to be a Stratagem with empty texts (its
  defaults are set in `src/card.ts`, which is not part of this model).

Behaviours of the code that the model keeps as written:

- An import empties the deck once, before the file loop
  (`src/app.ts:195-196`), so the files selected together append to one
  another rather than each replacing the deck.
- On an empty deck "next" sets the index to `min(0 + 1, -1) = -1`
  (`src/app.ts:128-129`), outside `[0, size - 1]`.
- A row with no field at all throws at `fields[0].toUpperCase()` and stops
  the rest of its file; rejected rows with at least one field are skipped.
- The decoder checks only the type label and the number of fields: empty
  texts and a non-numeric value are accepted.
- The first card of the deck has its value clamped after each imported file,
  so the deck equals the decoded rows except, possibly, in that one value.

## Model

| member | source | states |
|---|---|---|
| Text.ToUpperIdempotent | src/app.ts:207-210 | upper-casing a label twice gives the same text as upper-casing it once |
| Text.LowerCsvTsv | src/app.ts:185 | a text lower-cases to "csv" (or "tsv") exactly when it is three characters spelling csv (tsv) in any mix of cases |
| Text.Split | src/app.ts:183 | `split('.')` always yields at least one piece |
| Text.SplitJoin | src/app.ts:183 | joining the pieces of `split('.')` with '.' gives back the file name |
| Text.SplitPiecesFree | src/app.ts:183 | no piece of the split contains '.' |
| Text.SplitMany | src/app.ts:183-184 | the split has more than one piece exactly when the name contains '.' |
| Text.SplitLast | src/app.ts:183-185 | when the name contains '.', the last piece is the text after the last '.' |
| Decoder.ClassifyIsLabel | src/app.ts:206-213 | field 0 selects type t exactly when its upper-case form equals t's label |
| Decoder.ClassifyIgnoresCase | src/app.ts:207-210 | a label and its upper-case form select the same type |
| Decoder.LabelClassifies | src/app.ts:207-210 | each of STRATAGEM, PSYCHIC POWER, SECONDARY OBJECTIVE, PRAYER selects its own type |
| Decoder.DecodeRowOutcomes | src/app.ts:204-244 | an empty row throws; an unknown label, fewer than 6 fields, or 6 fields for a type needing a seventh rejects the row with that reason; otherwise the row is accepted |
| Decoder.CanonicalRoundTrip | src/app.ts:215-242 | a card whose unused field is default is decoded back from its label and positional fields |
| Decoder.DecodeRowAccepts | src/app.ts:215-242 | a row decodes to card c exactly when field 0 names c's type, c leaves its unused field default, and fields 1-5 (and 6 for a cost or a timing) are c's title, heading, fluff, rule, source (and value or timing) |
| Decoder.ExtraFieldsIgnored | src/app.ts:228-242 | fields after the seventh never change the outcome |
| Decoder.DecodedAppend | src/app.ts:204-246 | the cards of concatenated rows are the concatenated cards |
| Decoder.SkippedRowInvisible | src/app.ts:211-219 | removing a rejected row leaves the cards of all other rows unchanged |
| Decoder.DecodedLength | src/app.ts:204-246 | a file yields at most one card per row |
| Decoder.DecodedCount | src/app.ts:204-246 | the decoded cards are exactly as many as the accepted rows |
| Decoder.ScanStops | src/app.ts:204-207 | after a row throws, later rows of that file add nothing |
| Decoder.ScanIsDecoded | src/app.ts:204-246 | without empty rows, a file's callback pushes exactly the accepted rows' cards in row order and does not throw |
| Editing.WithField | src/app.ts:66-120 | an editor sets its own field to the input text and leaves the type and every other field unchanged |
| Editing.WithFieldSame | src/app.ts:66-120 | writing back a field's current text changes nothing |
| Editing.TypeOfOption | src/app.ts:41-53 | an option text selects type t exactly when it equals t's option text, case-sensitively |
| Editing.WithOption | src/app.ts:33-53 | the heading becomes the option text; the type changes only on an exact match; nothing else changes |
| Editing.DecoderAcceptsOptionText | src/app.ts:41-51 | the decoder accepts each option text of the type selector |
| Editing.SelectorRejectsLabel | src/app.ts:41-51 | the type selector ignores the decoder's upper-case labels |
| Editing.Clamp | src/app.ts:316-334 | only the value can change; other types and unparsable values are untouched; a Stratagem value above 3 becomes "3", below 1 "1"; a Psychic Power value above 12 becomes "12", below 2 "2"; values in range are kept |
| Editing.ClampInRange | src/app.ts:316-328 | after clamping, a parsable value lies within 1..3 for a Stratagem and 2..12 for a Psychic Power |
| Editing.ClampIdempotent | src/app.ts:316-328 | clamping a clamped card changes nothing |
| Loading.FileExtensionSpec | src/app.ts:182-188 | the extension is "" without '.', otherwise the lower-cased text after the last '.' ("" for a trailing dot) |
| Loading.TabularNames | src/app.ts:182-188 | a file is read exactly when the text after its last '.' lower-cases to csv or tsv |
| Loading.TabularSpelling | src/app.ts:182-201 | a file is read exactly when its name ends in '.' and csv or tsv in any mix of cases ("deck.CSV", "deck.Tsv" are read; "deck.csvx", "deck" are not) |
| Loading.LoadedDeckAppends | src/app.ts:195-251 | the loaded deck is the cards of all read files concatenated in file order, except that the first card's value may be clamped |
| Loading.LoadedFirstCard | src/app.ts:247-250 | when parseInt reads the limits, the first loaded card is the first read card either as read or clamped once |
| Loading.AllCardsDecoded | src/app.ts:199-246 | without empty rows, the loaded cards are the decoded rows of the read files taken together |
| Loading.LastErrorShown | src/app.ts:253-256 | the error dialog is left showing the text of the last selected file that is not read, with its lower-cased extension |
| Loading.RejectedFileIgnored | src/app.ts:253-256 | a file with another extension leaves the deck alone and adds its error text |
| Layout.MmToInches | src/app.ts:134-136 | inches times 25.4 is the millimetre length |
| Layout.Ceil | src/app.ts:146 | `Math.ceil` gives the least integer not below its argument |
| Layout.Round | src/app.ts:156-157 | `Math.round` gives the nearest integer, halves rounded up |
| Layout.MarginPixels | src/app.ts:145-146 | the pixel margin is at least the requested millimetres times 300 / 25.4, and less than one pixel more |
| Layout.InchIsDpiPixels | src/app.ts:134-142 | 25.4 mm is 300 pixels |
| Layout.ExportSurfaceSize | src/app.ts:140-157 | with the export's 0 mm margin, each card surface is 744 x 1039 pixels |
| Layout.Paginate | src/app.ts:151-167 | n cards give n placements, card i at its page i / 9 and cell of PlacementOf(i), with (n - 1) / 9 pages added to the first |
| Layout.PageCountIsCeiling | src/app.ts:160-163 | the document paginating n > 0 cards has ceil(n / 9) pages |
| Layout.EveryPageUsed | src/app.ts:160-165 | every page of the document holds at least its first card, in the top-left cell |
| Layout.PlacementInMillimetres | src/app.ts:149-165 | a card's corner is 3 mm plus its column times 63.5 mm and its row times 88.9 mm |
| Layout.PlacementInsidePage | src/app.ts:148-165 | every card image lies inside the A4 page |
| Layout.PlacementsDisjoint | src/app.ts:165 | two different cards on the same page do not overlap |
| Layout.TenCardExample | src/app.ts:153-167 | the document paginating ten cards has two pages: the first nine cards fill page one row by row, three to a row (cards 1 and 3 at 66.5 mm across and 91.9 mm down), the tenth opens the second page in its top-left cell |
| Sessions.PreviousIndex | src/app.ts:122-123 | the index moves back by one and never below 0 |
| Sessions.NextIndex | src/app.ts:128-129 | the index moves on by one and never beyond the last card (-1 on an empty deck) |
| Sessions.WalkStaysInDeck | src/app.ts:122-132 | on a non-empty deck no sequence of clicks takes the index out of the deck |
| Sessions.WalkOnEmptyDeck | src/app.ts:122-132 | on an empty deck the index is -1 after "next" and 0 after "previous" |
| Sessions.Session.constructor | src/app.ts:367-376 | a new session holds one fresh card when the preview is available, else no card, with the index at 0 |
| Sessions.Session.RefreshLimits | src/app.ts:300-334 | the card at the index, if any, is clamped; nothing else changes |
| Sessions.Session.Previous | src/app.ts:122-126 | the index becomes max(index - 1, 0), at 0 it stays; then the card there is clamped |
| Sessions.Session.Next | src/app.ts:128-132 | the index becomes min(index + 1, size - 1), at the last card it stays, on an empty deck it becomes -1; then the card there is clamped |
| Sessions.Session.Edit | src/app.ts:66-120 | the card at the index, if any, gets the new text in one field; other cards and the index are unchanged |
| Sessions.Session.ChangeType | src/app.ts:33-57 | the card at the index, if any, takes the option text as heading and, on an exact match, as type, and is clamped |
| Sessions.Session.CompleteFile | src/app.ts:203-251 | one file's accepted cards are pushed after the deck; unless a row threw, the index is reset to 0 and the first card clamped |
| Sessions.Session.LoadFiles | src/app.ts:190-259 | with a file list, the deck becomes LoadedDeck of the files, the index 0 and the returned texts those written to the error dialog, one per unread file in order; without one nothing changes; the index stays valid |
| Sessions.Session.Export | src/app.ts:138-180 | with a card at the index, every card is placed at PlacementOf(i) on ceil(size / 9) pages and the current card is clamped; without one nothing happens |

## Left out

- Rendering a card (`Card.draw`, the canvas and `toDataURL`): it lives in `src/card.ts`, which is not part of this model, and produces pixels. The export records only where each image goes.
- The jsPDF document, the download link and the file name: the model records the added pages and the image placements instead.
- Floating-point rounding of `mm / 25.4 * 300` and of `3 + row * 88.9`: the model uses exact reals and tenths of a millimetre.
- CSV tokenisation by papaparse: rows are given as `seq<seq<string>>`. Its asynchronous callbacks are treated as running in file order, with no navigation in between.
- Sessions.Session.CompleteFile: requires the index to be 0, as it is when the callbacks run right after the deck is emptied; a click on "next" between the emptying and a callback that then throws is not modelled.
- Saving and loading a card through localStorage (`onSaveCard`, `onLoadCard`): a thin wrapper over a JSON serializer that is not part of this model.
- The background, opacity, saturation and style handlers: they have empty bodies.
- DOM updates, the error dialog, `updatePreview` and the console logs: presentation only. `LoadFiles` returns every text written to the error dialog, in order; the dialog keeps only the last (`Loading.LastErrorShown`).
- Case mappings whose result contains a non-ASCII character (upper-casing "é", lower-casing "İ"): such characters are kept as they are, which cannot change a label match or whether a file is read. The lower-cased extension shown in the error text keeps them too.
- `parseInt` itself: it is a parameter of the model.
