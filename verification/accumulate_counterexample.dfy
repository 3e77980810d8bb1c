/** The catalog's `accumulate`, as written, on the "EmNa" example. */
module AccumulateCounterexample {
  import opened Wrappers
  import opened Catalogs
  import opened CatalogScenario

  /** Counterexample: with two distinct names under one email, one of them
      seen twice, the range [1, 5] holds two distinct names but three
      observations; `accumulate` as written answers 2 where the documented
      sum is 3. */
  lemma AccumulateUndercounts(t: (string, string), n1: string, n2: string)
    requires n1 != n2
    ensures Count(Scenario(ScenarioLog(t.0, n1, n2)), "EmNa", t, 1, 5) == Ok(2)
    ensures AccumulateAsWritten(Scenario(ScenarioLog(t.0, n1, n2)), "EmNa", t, 1, 5) == Ok(2)
    ensures Accumulate(Scenario(ScenarioLog(t.0, n1, n2)), "EmNa", t, 1, 5) == Ok(3)
  {
    ScenarioPrefix(t.0, n1, n2);
    EmailNameReads(ScenarioLog(t.0, n1, n2), t, 1, 5);
  }
}
