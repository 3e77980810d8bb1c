/** A worked example of the catalog: the email-then-name sub-index "EmNa"
    that the program's entry point defines, over (email, name) pairs. */
module CatalogScenario {
  import opened Wrappers
  import opened KeySets
  import Trie
  import opened Catalogs

  function EmailName(p: (string, string)): seq<Option<string>> {
    [Some(p.0), Some(p.1)]
  }

  /** The observations of (a, n1) at 1 and 5 and (a, n2) at 1: one email, two
      names, one of them seen twice (e.g. "a" with "jon" and "arya"). */
  function ScenarioLog(a: string, n1: string, n2: string): (log: seq<(seq<Option<string>>, int)>)
    ensures Trie.PathsNonEmpty(log)
  {
    [(EmailName((a, n1)), 1), (EmailName((a, n1)), 5), (EmailName((a, n2)), 1)]
  }

  /** The catalog whose only sub-index, "EmNa", holds the observations of `log`. */
  function Scenario(log: seq<(seq<Option<string>>, int)>): Catalog<(string, string), string>
    requires Trie.PathsNonEmpty(log)
  {
    Catalog(map["EmNa" := NamedIndex(EmailName, Trie.Build(log))])
  }

  /** Defining "EmNa" in an empty catalog gives the scenario of the empty log. */
  lemma DefineIsEmptyScenario()
    ensures Define(Empty(), "EmNa", EmailName) == Ok(Scenario([]))
  {
  }

  /** Each `add` extends the scenario's log with its element's key path and
      position, so `Scenario(log)` holds what adding the logged elements in
      order to a freshly defined "EmNa" holds. */
  lemma AddToExtendsScenario(log: seq<(seq<Option<string>>, int)>, p: (string, string), pos: int)
    requires Trie.PathsNonEmpty(log)
    ensures Trie.PathsNonEmpty(log + [(EmailName(p), pos)])
    ensures AddTo(Scenario(log), "EmNa", p, pos).Ok?
    ensures AddTo(Scenario(log), "EmNa", p, pos).value.indices.Keys == {"EmNa"}
    ensures AddTo(Scenario(log), "EmNa", p, pos).value.indices["EmNa"].root
         == Scenario(log + [(EmailName(p), pos)]).indices["EmNa"].root
  {
    var log' := log + [(EmailName(p), pos)];
    assert log'[..|log'| - 1] == log;
  }

  /** Under the prefix a, in [1, 5]: two distinct names, three observations. */
  lemma ScenarioPrefix(a: string, n1: string, n2: string)
    requires n1 != n2
    ensures Trie.PrefixKeys(ScenarioLog(a, n1, n2), [Some(a)], 1, 5) == {Some(n1), Some(n2)}
    ensures |Trie.PrefixKeys(ScenarioLog(a, n1, n2), [Some(a)], 1, 5)| == 2
    ensures Trie.PrefixHits(ScenarioLog(a, n1, n2), [Some(a)], 1, 5) == 3
  {
    var log := ScenarioLog(a, n1, n2);
    var q := [Some(a)];
    var l2, l1, l0 := log[..2], log[..2][..1], log[..2][..1][..0];
    assert |l0| == 0;
    assert Trie.IsChildPath(l1[0].0, q);
    assert Trie.PrefixKeys(l1, q, 1, 5) == {Some(n1)} && Trie.PrefixHits(l1, q, 1, 5) == 1;
    assert Trie.IsChildPath(l2[1].0, q);
    assert Trie.PrefixKeys(l2, q, 1, 5) == {Some(n1)} && Trie.PrefixHits(l2, q, 1, 5) == 2;
    assert Trie.IsChildPath(log[2].0, q);
    assert Some(n1) != Some(n2);
  }

  /** On an "EmNa" sub-index built from a log, the prefix reads of an
      element are the log's counts under its email. */
  lemma EmailNameReads(log: seq<(seq<Option<string>>, int)>, t: (string, string), s: int, e: int)
    requires Trie.PathsNonEmpty(log)
    ensures Count(Scenario(log), "EmNa", t, s, e) == Ok(|Trie.PrefixKeys(log, [Some(t.0)], s, e)|)
    ensures AccumulateAsWritten(Scenario(log), "EmNa", t, s, e) == Ok(|Trie.PrefixKeys(log, [Some(t.0)], s, e)|)
    ensures Accumulate(Scenario(log), "EmNa", t, s, e) == Ok(Trie.PrefixHits(log, [Some(t.0)], s, e))
  {
    var c := Scenario(log);
    var ks := Drop(KeysOf(c, "EmNa", t));
    assert Count(c, "EmNa", t, s, e) == Ok(Trie.Count(Trie.Build(log), ks, s, e));
    assert Accumulate(c, "EmNa", t, s, e) == Ok(Trie.Accumulate(Trie.Build(log), ks, s, e));
    DropOfIsProperPrefix(EmailName(t));
    assert Window(ks) == [Some(t.0)];
    Trie.CountRefines(log, ks, s, e);
    Trie.AccumulateRefines(log, ks, s, e);
  }
}
