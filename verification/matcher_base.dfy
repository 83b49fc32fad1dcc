/** The abstract matcher every matcher extends: a name, a referential data
    source, the target data sources in the order they were added, and the
    keys to match on. It is generic in what a data source is. */
module MatcherBase {

  datatype Matcher<D> = Matcher(name: string, refSource: D, targets: seq<D>, matchingKeys: seq<string>)

  /** The constructor: no target and no key yet. */
  function New<D>(name: string, refSource: D): (m: Matcher<D>)
    ensures m.name == name && m.refSource == refSource
    ensures |m.targets| == 0 && |MatchingKeys(m)| == 0
  {
    Matcher(name, refSource, [], [])
  }

  /** The `matching_keys` property. */
  function MatchingKeys<D>(m: Matcher<D>): seq<string> {
    m.matchingKeys
  }

  /** The `matching_keys` setter. */
  function SetMatchingKeys<D>(m: Matcher<D>, keys: seq<string>): (r: Matcher<D>)
    ensures r.name == m.name && r.refSource == m.refSource && r.targets == m.targets
  {
    m.(matchingKeys := keys)
  }

  /** `add_target_data_sources`: appends one target. */
  function AddTarget<D>(m: Matcher<D>, target: D): (r: Matcher<D>)
    ensures |r.targets| == |m.targets| + 1 && r.targets[|m.targets|] == target
  {
    m.(targets := m.targets + [target])
  }

  /** Reading the keys returns what was last set. */
  lemma KeysRoundTrip<D>(m: Matcher<D>, keys: seq<string>)
    ensures MatchingKeys(SetMatchingKeys(m, keys)) == keys
    ensures SetMatchingKeys(m, MatchingKeys(m)) == m
  {
  }

  /** Adding a target keeps the earlier targets in their order and changes
      neither the keys, the name nor the referential source. */
  lemma AddTargetKeepsRest<D>(m: Matcher<D>, target: D)
    ensures var r := AddTarget(m, target);
            && r.targets[..|m.targets|] == m.targets
            && MatchingKeys(r) == MatchingKeys(m) && r.name == m.name && r.refSource == m.refSource
  {
  }

  /** The targets are the added ones, in the order they were added. */
  lemma {:induction false} AddTargetsInOrder<D>(m: Matcher<D>, ds: seq<D>)
    ensures AddAll(m, ds).targets == m.targets + ds
    decreases |ds|
  {
    if |ds| > 0 {
      AddTargetsInOrder(AddTarget(m, ds[0]), ds[1..]);
      assert m.targets + [ds[0]] + ds[1..] == m.targets + ds;
    }
  }

  /** Adds the data sources one after the other. */
  function AddAll<D>(m: Matcher<D>, ds: seq<D>): Matcher<D>
    decreases |ds|
  {
    if |ds| == 0 then m else AddAll(AddTarget(m, ds[0]), ds[1..])
  }
}
