/**
 * The item-state catalog: a list of (name, runtime id) descriptors loaded
 * into two dictionaries, runtime id to name and name to runtime id. A later
 * descriptor with the same key overwrites an earlier one.
 */
module ItemStates {
  import opened LastWins

  /** One item descriptor, as read from the item-state list. */
  datatype ItemState = ItemState(name: string, runtimeId: int)

  function ById(states: seq<ItemState>): (pairs: seq<(int, string)>)
    ensures |pairs| == |states|
  {
    seq(|states|, i requires 0 <= i < |states| => (states[i].runtimeId, states[i].name))
  }

  function ByName(states: seq<ItemState>): (pairs: seq<(string, int)>)
    ensures |pairs| == |states|
  {
    seq(|states|, i requires 0 <= i < |states| => (states[i].name, states[i].runtimeId))
  }

  /** Descriptor i is the last one with runtime id `id`. */
  ghost predicate LastWithId(states: seq<ItemState>, id: int, i: int) {
    0 <= i < |states| && states[i].runtimeId == id &&
    forall j | i < j < |states| :: states[j].runtimeId != id
  }

  /** Descriptor i is the last one named `name`. */
  ghost predicate LastWithName(states: seq<ItemState>, name: string, i: int) {
    0 <= i < |states| && states[i].name == name &&
    forall j | i < j < |states| :: states[j].name != name
  }

  /** The dictionaries after `k` descriptors have been loaded. */
  ghost predicate LoadedUpTo(states: seq<ItemState>, k: nat, byId: map<int, string>, byName: map<string, int>) {
    k <= |states| && byId == Assign(ById(states)[..k]) && byName == Assign(ByName(states)[..k])
  }

  lemma LoadStep(states: seq<ItemState>, k: nat, byId: map<int, string>, byName: map<string, int>)
    requires k < |states| && LoadedUpTo(states, k, byId, byName)
    ensures LoadedUpTo(states, k + 1,
                       byId[states[k].runtimeId := states[k].name],
                       byName[states[k].name := states[k].runtimeId])
  {
    AssignPrefixStep(ById(states), k, byId, states[k].runtimeId, states[k].name);
    AssignPrefixStep(ByName(states), k, byName, states[k].name, states[k].runtimeId);
  }

  lemma LoadedAll(states: seq<ItemState>, byId: map<int, string>, byName: map<string, int>)
    requires LoadedUpTo(states, |states|, byId, byName)
    ensures byId == Assign(ById(states)) && byName == Assign(ByName(states))
  {
    assert ById(states)[..|states|] == ById(states);
    assert ByName(states)[..|states|] == ByName(states);
  }

  class ItemStateMap {
    var runtimeToState: map<int, string>
    var stateToRuntime: map<string, int>
    /** The descriptors the catalog was loaded from, in order. */
    ghost var states: seq<ItemState>

    ghost predicate Valid()
      reads this
    {
      runtimeToState == Assign(ById(states)) && stateToRuntime == Assign(ByName(states))
    }

    /** Loads every descriptor into both dictionaries, in order. */
    constructor (states: seq<ItemState>)
      ensures this.states == states
      ensures Valid()
    {
      var byId: map<int, string> := map[];
      var byName: map<string, int> := map[];
      var k := 0;
      while k < |states|
        invariant LoadedUpTo(states, k, byId, byName)
      {
        LoadStep(states, k, byId, byName);
        byId := byId[states[k].runtimeId := states[k].name];
        byName := byName[states[k].name := states[k].runtimeId];
        k := k + 1;
      }
      LoadedAll(states, byId, byName);
      runtimeToState := byId;
      stateToRuntime := byName;
      this.states := states;
    }

    /** The name of the last descriptor with this runtime id, or "" when there is none. */
    function GetRuntimeToState(runtimeId: int): (r: string)
      requires Valid()
      reads this
      ensures (forall i | 0 <= i < |states| :: states[i].runtimeId != runtimeId) ==> r == ""
      ensures forall i | LastWithId(states, runtimeId, i) :: r == states[i].name
    {
      AssignLastWins(ById(states), runtimeId);
      assert forall i | 0 <= i < |states| :: ById(states)[i] == (states[i].runtimeId, states[i].name);
      if runtimeId in runtimeToState then runtimeToState[runtimeId] else ""
    }

    /**
     * The runtime id of the last descriptor with this name, or 0 when there
     * is none (indistinguishable from a descriptor whose id is 0).
     */
    function GetStateToRuntime(name: string): (r: int)
      requires Valid()
      reads this
      ensures (forall i | 0 <= i < |states| :: states[i].name != name) ==> r == 0
      ensures forall i | LastWithName(states, name, i) :: r == states[i].runtimeId
    {
      AssignLastWins(ByName(states), name);
      assert forall i | 0 <= i < |states| :: ByName(states)[i] == (states[i].name, states[i].runtimeId);
      if name in stateToRuntime then stateToRuntime[name] else 0
    }
  }
}
