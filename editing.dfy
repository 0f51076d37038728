/**
 * The editor's pure card updates: overwriting one text field, changing the
 * type from the type selector, and the value limits applied whenever the
 * editor panel is refreshed.
 */
module Editing {
  import opened Wrappers
  import opened Cards
  import Decoder

  /** The text fields an input box of the editor overwrites. */
  datatype Field = Heading | Title | Rule | Fluff | Value | Source | Timing

  function FieldOf(c: Card, f: Field): string
  {
    match f
    case Heading => c.heading
    case Title => c.title
    case Rule => c.rule
    case Fluff => c.fluff
    case Value => c.value
    case Source => c.source
    case Timing => c.timing
  }

  /** The card after its input box for `f` has been set to `text`. */
  function WithField(c: Card, f: Field, text: string): (r: Card)
    ensures r.cardType == c.cardType
    ensures forall g :: FieldOf(r, g) == if g == f then text else FieldOf(c, g)
  {
    match f
    case Heading => c.(heading := text)
    case Title => c.(title := text)
    case Rule => c.(rule := text)
    case Fluff => c.(fluff := text)
    case Value => c.(value := text)
    case Source => c.(source := text)
    case Timing => c.(timing := text)
  }

  /** Writing back a field's own text leaves the card as it was. */
  lemma WithFieldSame(c: Card, f: Field)
    ensures WithField(c, f, FieldOf(c, f)) == c
  {
  }

  /** The text of the type selector's option for each type. */
  function OptionText(t: CardType): string
  {
    match t
    case Stratagem => "Stratagem"
    case PsychicPower => "Psychic Power"
    case SecondaryObjective => "Secondary Objective"
    case Prayer => "Prayer"
  }

  /** The type an option text selects: an exact, case-sensitive match. */
  function TypeOfOption(text: string): (r: Option<CardType>)
    ensures forall t :: r == Some(t) <==> text == OptionText(t)
  {
    if text == "Stratagem" then Some(Stratagem)
    else if text == "Psychic Power" then Some(PsychicPower)
    else if text == "Secondary Objective" then Some(SecondaryObjective)
    else if text == "Prayer" then Some(Prayer)
    else None
  }

  /**
   * The card after the type selector shows `text`: the heading always
   * becomes `text`; the type changes only when `text` is an option text.
   */
  function WithOption(c: Card, text: string): (r: Card)
    ensures r.heading == text
    ensures TypeOfOption(text).Some? ==> r.cardType == TypeOfOption(text).value
    ensures TypeOfOption(text).None? ==> r.cardType == c.cardType
    ensures r.(heading := c.heading, cardType := c.cardType) == c
  {
    var typed := match TypeOfOption(text)
      case Some(t) => c.(cardType := t)
      case None => c;
    typed.(heading := text)
  }

  /**
   * The selector matches case-sensitively while the decoder upper-cases:
   * the decoder accepts each option text, but the selector does not accept
   * the decoder's upper-case label.
   */
  lemma DecoderAcceptsOptionText(t: CardType)
    ensures Decoder.Classify(OptionText(t)) == Some(t)
  {
    Decoder.ClassifyIsLabel(OptionText(t), t);
    match t
    case Stratagem => Decoder.UpperStratagem();
    case PsychicPower => Decoder.UpperPsychicPower();
    case SecondaryObjective => Decoder.UpperSecondaryObjective();
    case Prayer => Decoder.UpperPrayer();
  }

  /** The selector ignores the decoder's upper-case labels. */
  lemma SelectorRejectsLabel(t: CardType)
    ensures TypeOfOption(Decoder.Label(t)) == None
  {
    var l := Decoder.Label(t);
    assert l[1] != OptionText(t)[1];
  }

  /** The least and greatest value the editor allows for a type with a value. */
  function Low(t: CardType): int
  {
    if t == PsychicPower then 2 else 1
  }

  function High(t: CardType): int
  {
    if t == PsychicPower then 12 else 3
  }

  /** Replaces a parsed value above `hi` by `hiText` and one below `lo` by `loText`. */
  function Limit(c: Card, lo: int, hi: int, loText: string, hiText: string,
                 parse: string -> Option<int>): Card
  {
    var p := parse(c.value);
    if p.Some? && p.value > hi then c.(value := hiText)
    else if p.Some? && p.value < lo then c.(value := loText)
    else c
  }

  /**
   * The value limits of the editor refresh, with `parse` standing for
   * `parseInt`: a Stratagem's cost is held in 1..3, a Psychic Power's warp
   * charge in 2..12; a value that does not parse and the other types are
   * left alone.
   */
  function Clamp(c: Card, parse: string -> Option<int>): (r: Card)
    ensures r.(value := c.value) == c
    ensures !UsesValue(c.cardType) || parse(c.value).None? ==> r == c
    ensures UsesValue(c.cardType) && parse(c.value).Some? ==>
              var p := parse(c.value).value;
              if p > High(c.cardType) then r.value == (if c.cardType == Stratagem then "3" else "12")
              else if p < Low(c.cardType) then r.value == (if c.cardType == Stratagem then "1" else "2")
              else r == c
  {
    match c.cardType
    case Stratagem => Limit(c, 1, 3, "1", "3", parse)
    case PsychicPower => Limit(c, 2, 12, "2", "12", parse)
    case _ => c
  }

  /** `parse` reads the four limit texts as the numbers they spell, as `parseInt` does. */
  predicate ReadsLimits(parse: string -> Option<int>)
  {
    parse("1") == Some(1) && parse("2") == Some(2) &&
    parse("3") == Some(3) && parse("12") == Some(12)
  }

  /** After clamping, a value that parses lies within its type's limits. */
  lemma ClampInRange(c: Card, parse: string -> Option<int>)
    requires ReadsLimits(parse)
    requires UsesValue(c.cardType) && parse(c.value).Some?
    ensures parse(Clamp(c, parse).value).Some?
    ensures Low(c.cardType) <= parse(Clamp(c, parse).value).value <= High(c.cardType)
  {
  }

  /** Clamping a clamped card changes nothing more. */
  lemma ClampIdempotent(c: Card, parse: string -> Option<int>)
    requires ReadsLimits(parse)
    ensures Clamp(Clamp(c, parse), parse) == Clamp(c, parse)
  {
    if UsesValue(c.cardType) && parse(c.value).Some? {
      ClampInRange(c, parse);
    }
  }
}
