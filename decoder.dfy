/**
 * The row decoder of the CSV/TSV import: one tokenised row becomes a card or
 * is skipped, and the rows of one file become the cards appended to the deck.
 */
module Decoder {
  import opened Wrappers
  import opened Text
  import opened Cards

  /** The label in field 0 that selects each card type, after upper-casing. */
  function Label(t: CardType): string
  {
    match t
    case Stratagem => "STRATAGEM"
    case PsychicPower => "PSYCHIC POWER"
    case SecondaryObjective => "SECONDARY OBJECTIVE"
    case Prayer => "PRAYER"
  }

  /** The card type named by a row's first field, compared after upper-casing. */
  function Classify(name: string): Option<CardType>
  {
    var u := ToUpper(name);
    if u == "STRATAGEM" then Some(Stratagem)
    else if u == "PSYCHIC POWER" then Some(PsychicPower)
    else if u == "SECONDARY OBJECTIVE" then Some(SecondaryObjective)
    else if u == "PRAYER" then Some(Prayer)
    else None
  }

  /** A label selects type `t` exactly when its upper-case form is `t`'s label. */
  lemma ClassifyIsLabel(name: string, t: CardType)
    ensures Classify(name) == Some(t) <==> ToUpper(name) == Label(t)
  {
  }

  /** Classification ignores case: a label and its upper-case form select the same type. */
  lemma ClassifyIgnoresCase(name: string)
    ensures Classify(ToUpper(name)) == Classify(name)
  {
    ToUpperIdempotent(name);
  }

  /** Why a row produced no card. */
  datatype Rejection = UnknownType | TooFewFields | MissingTypeField

  /**
   * What one row does: it yields a card, is skipped, or (a row with no
   * field at all) raises an error when its first field is upper-cased.
   */
  datatype RowOutcome = Accepted(card: Card) | Rejected(reason: Rejection) | Throws

  /** Fields a row of type `t` needs: six, plus a seventh for a cost or a timing. */
  function MinFields(t: CardType): nat
  {
    if UsesValue(t) || UsesTiming(t) then 7 else 6
  }

  /** Decodes one tokenised row. */
  function DecodeRow(fields: seq<string>): RowOutcome
  {
    if fields == [] then Throws
    else match Classify(fields[0])
      case None => Rejected(UnknownType)
      case Some(t) =>
        if |fields| < 6 then Rejected(TooFewFields)
        else
          var card := DefaultCard.(cardType := t, title := fields[1], heading := fields[2],
                                   fluff := fields[3], rule := fields[4], source := fields[5]);
          if UsesValue(t) then
            if |fields| < 7 then Rejected(MissingTypeField) else Accepted(card.(value := fields[6]))
          else if UsesTiming(t) then
            if |fields| < 7 then Rejected(MissingTypeField) else Accepted(card.(timing := fields[6]))
          else Accepted(card)
  }

  /**
   * The outcome of a row: an empty row throws; an unknown label, fewer than
   * six fields, or six fields for a type that needs a seventh reject the row
   * for that reason; every other row is accepted.
   */
  lemma DecodeRowOutcomes(fields: seq<string>)
    ensures DecodeRow(fields).Throws? <==> fields == []
    ensures DecodeRow(fields) == Rejected(UnknownType) <==>
              fields != [] && Classify(fields[0]).None?
    ensures DecodeRow(fields) == Rejected(TooFewFields) <==>
              fields != [] && Classify(fields[0]).Some? && |fields| < 6
    ensures DecodeRow(fields) == Rejected(MissingTypeField) <==>
              fields != [] && Classify(fields[0]).Some? && |fields| == 6 &&
              Classify(fields[0]).value != Prayer
    ensures DecodeRow(fields).Accepted? <==>
              fields != [] && Classify(fields[0]).Some? &&
              |fields| >= MinFields(Classify(fields[0]).value)
  {
  }

  /** A card whose field that its type does not use is left at the default. */
  predicate Normal(c: Card)
  {
    (!UsesValue(c.cardType) ==> c.value == DefaultCard.value) &&
    (!UsesTiming(c.cardType) ==> c.timing == DefaultCard.timing)
  }

  /** The shortest row that decodes to `c`: its label and its positional fields. */
  function CanonicalRow(c: Card): seq<string>
  {
    [Label(c.cardType), c.title, c.heading, c.fluff, c.rule, c.source] +
    (if UsesValue(c.cardType) then [c.value]
     else if UsesTiming(c.cardType) then [c.timing]
     else [])
  }

  lemma LabelClassifies(t: CardType)
    ensures Classify(Label(t)) == Some(t)
  {
    var l := Label(t);
    assert ToUpper(l) == l by {
      UpperOfCapitals(l);
    }
  }

  /** Upper-casing the editor's mixed-case type names, one lemma per name. */
  lemma UpperStratagem() ensures ToUpper("Stratagem") == "STRATAGEM"
  {
    UpperWord("Stratagem", "STRATAGEM");
  }

  lemma UpperPsychicPower() ensures ToUpper("Psychic Power") == "PSYCHIC POWER"
  {
    UpperWord("Psychic Power", "PSYCHIC POWER");
  }

  lemma UpperSecondaryObjective() ensures ToUpper("Secondary Objective") == "SECONDARY OBJECTIVE"
  {
    UpperWord("Secondary Objective", "SECONDARY OBJECTIVE");
  }

  lemma UpperPrayer() ensures ToUpper("Prayer") == "PRAYER"
  {
    UpperWord("Prayer", "PRAYER");
  }

  lemma UpperWord(s: string, u: string)
    requires forall i :: 0 <= i < |s| ==> 'a' <= s[i] <= 'z' || 'A' <= s[i] <= 'Z' || s[i] == ' '
    requires |u| == |s|
    requires forall i :: 0 <= i < |s| ==> u[i] == if 'a' <= s[i] <= 'z' then (s[i] as int - 32) as char else s[i]
    ensures ToUpper(s) == u
  {
    ToUpperWord(s);
  }

  /** Upper-casing letters and spaces, character by character. */
  lemma {:induction false} ToUpperWord(s: string)
    requires forall i :: 0 <= i < |s| ==> 'a' <= s[i] <= 'z' || 'A' <= s[i] <= 'Z' || s[i] == ' '
    ensures |ToUpper(s)| == |s|
    ensures forall i :: 0 <= i < |s| ==>
              ToUpper(s)[i] == if 'a' <= s[i] <= 'z' then (s[i] as int - 32) as char else s[i]
  {
    if s != [] {
      ToUpperWord(s[1..]);
    }
  }

  /** Decoding the canonical row of a normal card gives back that card. */
  lemma CanonicalRoundTrip(c: Card)
    requires Normal(c)
    ensures DecodeRow(CanonicalRow(c)) == Accepted(c)
  {
    LabelClassifies(c.cardType);
  }

  /**
   * A row decodes to `c` exactly when its first field names `c`'s type,
   * `c` is normal, and the following fields are those of `c`'s canonical row.
   */
  lemma DecodeRowAccepts(fields: seq<string>, c: Card)
    ensures DecodeRow(fields) == Accepted(c) <==>
              fields != [] && Classify(fields[0]) == Some(c.cardType) && Normal(c) &&
              |fields| >= |CanonicalRow(c)| &&
              fields[1..|CanonicalRow(c)|] == CanonicalRow(c)[1..]
  {
    var n := |CanonicalRow(c)|;
    if DecodeRow(fields) == Accepted(c) {
      assert fields[1..n] == CanonicalRow(c)[1..] by {
        forall i | 1 <= i < n ensures fields[i] == CanonicalRow(c)[i] { }
      }
    }
    if fields != [] && Classify(fields[0]) == Some(c.cardType) && Normal(c) &&
       n <= |fields| && fields[1..n] == CanonicalRow(c)[1..] {
      forall i | 1 <= i < n ensures fields[i] == CanonicalRow(c)[i] {
        assert fields[1..n][i - 1] == CanonicalRow(c)[1..][i - 1];
      }
    }
  }

  /** Fields after the seventh never affect the outcome. */
  lemma ExtraFieldsIgnored(fields: seq<string>, extra: seq<string>)
    requires |fields| >= 7
    ensures DecodeRow(fields + extra) == DecodeRow(fields)
  {
    var g := fields + extra;
    assert g[0] == fields[0] && g[1] == fields[1] && g[2] == fields[2] && g[3] == fields[3];
    assert g[4] == fields[4] && g[5] == fields[5] && g[6] == fields[6];
  }

  /** The cards a row contributes to the deck: its card if accepted, else none. */
  function Emitted(row: seq<string>): seq<Card>
  {
    if DecodeRow(row).Accepted? then [DecodeRow(row).card] else []
  }

  /** Reference definition: the cards of the accepted rows, in row order. */
  function Decoded(rows: seq<seq<string>>): seq<Card>
  {
    if rows == [] then [] else Emitted(rows[0]) + Decoded(rows[1..])
  }

  /** Decoding a concatenation of rows concatenates the decoded cards. */
  lemma {:induction false} DecodedAppend(a: seq<seq<string>>, b: seq<seq<string>>)
    ensures Decoded(a + b) == Decoded(a) + Decoded(b)
  {
    if a != [] {
      assert (a + b)[0] == a[0];
      assert (a + b)[1..] == a[1..] + b;
      DecodedAppend(a[1..], b);
      calc {
        Decoded(a + b);
        Emitted(a[0]) + Decoded(a[1..] + b);
        Emitted(a[0]) + (Decoded(a[1..]) + Decoded(b));
        (Emitted(a[0]) + Decoded(a[1..])) + Decoded(b);
        Decoded(a) + Decoded(b);
      }
    } else {
      assert a + b == b;
    }
  }

  /** A skipped row does not disturb the cards of the rows around it. */
  lemma SkippedRowInvisible(before: seq<seq<string>>, row: seq<string>, after: seq<seq<string>>)
    requires !DecodeRow(row).Accepted?
    ensures Decoded(before + [row] + after) == Decoded(before + after)
  {
    assert Decoded([row]) == Emitted(row) + Decoded([]);
    DropEmpty(before, [row], after);
  }

  lemma DropEmpty(before: seq<seq<string>>, mid: seq<seq<string>>, after: seq<seq<string>>)
    requires Decoded(mid) == []
    ensures Decoded(before + mid + after) == Decoded(before + after)
  {
    DecodedAppend(before + mid, after);
    DecodedAppend(before, mid);
    DecodedAppend(before, after);
  }

  /** The decoded cards are at most as many as the rows. */
  lemma {:induction false} DecodedLength(rows: seq<seq<string>>)
    ensures |Decoded(rows)| <= |rows|
  {
    if rows != [] {
      DecodedLength(rows[1..]);
    }
  }

  /** The positions of the rows the decoder accepts. */
  function AcceptedRows(rows: seq<seq<string>>): set<int>
  {
    set i | 0 <= i < |rows| && DecodeRow(rows[i]).Accepted?
  }

  /** Exactly one card is decoded per accepted row. */
  lemma {:induction false} DecodedCount(rows: seq<seq<string>>)
    ensures |Decoded(rows)| == |AcceptedRows(rows)|
  {
    if rows != [] {
      var tail := AcceptedRows(rows[1..]);
      DecodedCount(rows[1..]);
      ShiftSize(tail);
      var shifted := Shift(tail);
      var head: set<int> := if DecodeRow(rows[0]).Accepted? then {0} else {};
      assert AcceptedRows(rows) == head + shifted by {
        forall i | i in AcceptedRows(rows) ensures i in head + shifted {
          if i > 0 {
            assert rows[1..][i - 1] == rows[i];
            assert i - 1 in tail;
          }
        }
        forall i | i in shifted ensures i in AcceptedRows(rows) {
          assert rows[1..][i - 1] == rows[i];
        }
      }
      assert head * shifted == {};
    }
  }

  /** Every element of a set of integers moved one up. */
  function Shift(s: set<int>): set<int>
  {
    set j | j in s :: j + 1
  }

  lemma EmptyOrElement(s: set<int>)
    ensures s == {} || exists x :: x in s
  {
    if forall x :: x !in s {
      assert s == {};
    }
  }

  lemma {:induction false} ShiftSize(s: set<int>)
    ensures |Shift(s)| == |s|
    decreases |s|
  {
    if s != {} {
      EmptyOrElement(s);
      var x :| x in s;
      ShiftSize(s - {x});
      assert Shift(s) == Shift(s - {x}) + {x + 1} by {
        forall j | j in Shift(s) ensures j in Shift(s - {x}) + {x + 1} {
          if j != x + 1 {
            assert j - 1 in s - {x};
          }
        }
      }
    }
  }

  /**
   * The state of one file's import callback after a prefix of its rows:
   * the cards pushed so far, and whether an error stopped the callback.
   */
  datatype ScanResult = ScanResult(cards: seq<Card>, threw: bool)

  /** One more row handled by the callback. */
  function ScanStep(prev: ScanResult, row: seq<string>): ScanResult
  {
    if prev.threw then prev
    else match DecodeRow(row)
      case Accepted(c) => ScanResult(prev.cards + [c], false)
      case Rejected(_) => prev
      case Throws => ScanResult(prev.cards, true)
  }

  function Scan(rows: seq<seq<string>>): ScanResult
  {
    if rows == [] then ScanResult([], false)
    else ScanStep(Scan(rows[..|rows| - 1]), rows[|rows| - 1])
  }

  /** Handling a prefix of the rows one row further. */
  lemma ScanPrefix(rows: seq<seq<string>>, j: nat)
    requires j < |rows|
    ensures Scan(rows[..j + 1]) == ScanStep(Scan(rows[..j]), rows[j])
  {
    assert rows[..j + 1][..j] == rows[..j];
  }

  /** Once the callback has stopped, later rows change nothing. */
  lemma {:induction false} ScanStops(a: seq<seq<string>>, b: seq<seq<string>>)
    requires Scan(a).threw
    ensures Scan(a + b) == Scan(a)
  {
    if b != [] {
      var b' := b[..|b| - 1];
      assert (a + b)[..|a + b| - 1] == a + b';
      ScanStops(a, b');
    } else {
      assert a + b == a;
    }
  }

  /** Without empty rows, a file's import pushes exactly the decoded cards. */
  lemma {:induction false} ScanIsDecoded(rows: seq<seq<string>>)
    requires forall i :: 0 <= i < |rows| ==> rows[i] != []
    ensures Scan(rows) == ScanResult(Decoded(rows), false)
  {
    if rows != [] {
      var init := rows[..|rows| - 1];
      var last := rows[|rows| - 1];
      ScanIsDecoded(init);
      DecodeRowOutcomes(last);
      assert rows == init + [last];
      DecodedAppend(init, [last]);
      assert Decoded([last]) == Emitted(last) + Decoded([]);
    }
  }
}
