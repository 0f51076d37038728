/** The card entity of the session: one printable, typed card. */
module Cards {

  datatype CardType = Stratagem | PsychicPower | SecondaryObjective | Prayer

  /**
   * One card. `value` is the command-point cost of a Stratagem or the warp
   * charge of a Psychic Power; `timing` belongs to a Secondary Objective.
   * Both are kept as text.
   */
  datatype Card = Card(
    cardType: CardType,
    title: string,
    heading: string,
    fluff: string,
    rule: string,
    source: string,
    value: string,
    timing: string)

  /**
   * A freshly constructed card. Its defaults live in a file that is not
   * part of this model; the model takes a Stratagem with empty texts.
   */
  const DefaultCard := Card(Stratagem, "", "", "", "", "", "", "")

  /** Types whose row carries a cost in its seventh field. */
  predicate UsesValue(t: CardType)
  {
    t == Stratagem || t == PsychicPower
  }

  /** Types whose row carries a timing in its seventh field. */
  predicate UsesTiming(t: CardType)
  {
    t == SecondaryObjective
  }
}
