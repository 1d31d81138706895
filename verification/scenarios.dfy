/** A concrete grammar showing that a unit rule over a non-terminal is
    never applied: single-token spans are only looked up under the token
    itself, so `VP -> V` with `V -> barks` does not make `VP` derive
    `barks`. */
module Scenarios {
  import opened Grammar
  import opened Derivation

  /** `V -> barks` and then `VP -> V`. */
  const UnitChain: Pcfg := AddRule(AddRule(EmptyPcfg, Rule("V", ["barks"], -0.5)), Rule("VP", ["V"], 0.0))

  lemma UnitRuleNeverFires()
    ensures Generates(UnitChain, "V", ["barks"])
    ensures !Generates(UnitChain, "VP", ["barks"])
  {
    assert ["barks"] != ["V"] by { assert |"barks"| != |"V"|; }
    assert RulesFor(UnitChain, ["barks"]) == [Rule("V", ["barks"], -0.5)];
    assert HeadSet(UnitChain, ["barks"]) == {"V"};
    GeneratesUnit(UnitChain, "V", "barks");
    GeneratesUnit(UnitChain, "VP", "barks");
  }
}
