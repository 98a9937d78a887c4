/** ResourceCache: built once per type, with racing builds settled by the first to install. */
module ResourceCache {
  import opened Basics

  // ---- Atomic calls ----------------------------------------------------------------------

  class Cache<V> {
    var resources: map<nat, V>

    constructor ()
      ensures resources == map[]
    {
      resources := map[];
    }

    /** The stored value if there is one; else the factory's, which is stored. */
    method Get(key: nat, factory: () -> V) returns (v: V)
      modifies this
      ensures v == if key in old(resources) then old(resources)[key] else factory()
      ensures resources == old(resources)[key := v]
    {
      if key in resources {
        return resources[key];
      }
      v := factory();
      resources := resources[key := v];
    }

    method Evict(key: nat)
      modifies this
      ensures resources == old(resources) - {key}
    {
      resources := resources - {key};
    }

    method Clear()
      modifies this
      ensures resources == map[]
    {
      resources := map[];
    }
  }

  // ---- Interleaved steps -----------------------------------------------------------------

  /** The cache, the values readers have built and not yet installed, and what get returned,
      in order. */
  datatype State<V> = State(resources: map<nat, V>, building: map<nat, (nat, V)>, returned: seq<(nat, V)>)

  /** get() either hits under the shared lock, or builds outside it and then installs; every
      build may yield another value. */
  datatype Step<V> =
    | Hit(key: nat)
    | Build(reader: nat, key: nat, value: V)
    | Install(reader: nat)
    | Evict(key: nat)
    | Clear

  function Next<V>(s: State<V>, step: Step<V>): State<V> {
    match step
    case Hit(key) => if key in s.resources then s.(returned := s.returned + [(key, s.resources[key])]) else s
    case Build(r, key, value) => if key in s.resources then s else s.(building := s.building[r := (key, value)])
    case Install(r) =>
      if r !in s.building then s
      else
        var (key, value) := s.building[r];
        var stored := if key in s.resources then s.resources[key] else value;
        State(s.resources[key := stored], s.building - {r}, s.returned + [(key, stored)])
    case Evict(key) => s.(resources := s.resources - {key})
    case Clear => s.(resources := map[])
  }

  function Run<V>(s: State<V>, steps: seq<Step<V>>): State<V> {
    if steps == [] then s else Next(Run(s, steps[..|steps| - 1]), steps[|steps| - 1])
  }

  predicate Drops<V>(step: Step<V>, key: nat) {
    step.Clear? || (step.Evict? && step.key == key)
  }

  /** What the first install of the key brought. */
  function FirstInstalled<V>(s: State<V>, steps: seq<Step<V>>, key: nat): Option<V> {
    if steps == [] then None
    else
      var before, last := steps[..|steps| - 1], steps[|steps| - 1];
      var earlier, building := FirstInstalled(s, before, key), Run(s, before).building;
      if earlier.None? && last.Install? && last.reader in building && building[last.reader].0 == key
      then Some(building[last.reader].1) else earlier
  }

  /** While a key is not dropped, every get of it returns one value: the one stored at the
      start, or else the first that was installed. */
  lemma {:induction false} OneValueBetweenClears<V>(s: State<V>, steps: seq<Step<V>>, key: nat)
    requires forall step | step in steps :: !Drops(step, key)
    ensures var t, one := Run(s, steps), if key in s.resources then Some(s.resources[key]) else FirstInstalled(s, steps, key);
      && s.returned <= t.returned
      && (key in t.resources <==> one.Some?)
      && (one.Some? ==> t.resources[key] == one.value)
      && (forall k | |s.returned| <= k < |t.returned| :: t.returned[k].0 == key ==> Some(t.returned[k].1) == one)
    decreases |steps|
  {
    if steps != [] {
      var n := |steps| - 1;
      assert steps[n] in steps && forall x | x in steps[..n] :: x in steps;
      OneValueBetweenClears(s, steps[..n], key);
    }
  }

  /** So any two results of the same key between two drops are equal. */
  lemma ResultsAgree<V>(s: State<V>, steps: seq<Step<V>>, i: nat, j: nat)
    requires |s.returned| <= i < |Run(s, steps).returned| && |s.returned| <= j < |Run(s, steps).returned|
    requires Run(s, steps).returned[i].0 == Run(s, steps).returned[j].0
    requires forall step | step in steps :: !Drops(step, Run(s, steps).returned[i].0)
    ensures Run(s, steps).returned[i].1 == Run(s, steps).returned[j].1
  {
    OneValueBetweenClears(s, steps, Run(s, steps).returned[i].0);
  }
}
