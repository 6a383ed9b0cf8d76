/**
 * The block-state catalog. Descriptors arrive as an ordered list of block
 * names; descriptor i gets runtime id i and a metadata ordinal that counts
 * how many equal names directly precede it. The catalog stores each state
 * as the text `"<name> <ordinal>"`, in a list indexed by runtime id and in a
 * dictionary from that text back to the runtime id.
 */
module BlockStates {
  import opened Wrappers
  import opened Text
  import opened LastWins

  /** The text under which a state is stored: the name, one space, the ordinal in decimal. */
  function StateKey(name: string, metadata: int): (key: string)
    ensures |key| > |name| && key[..|name|] == name && key[|name|] == ' '
    ensures ' ' !in key[|name| + 1..]
  {
    name + " " + IntToString(metadata)
  }

  lemma StateKeyInjective(a: string, m: int, b: string, n: int)
    requires StateKey(a, m) == StateKey(b, n)
    ensures a == b && m == n
  {
    LastSpaceUnique(a, IntToString(m), b, IntToString(n));
    IntToStringInjective(m, n);
  }

  /**
   * The metadata ordinal of descriptor i: 0 for the first descriptor and for
   * one whose name differs from its predecessor's, otherwise one more than
   * the predecessor's. It is the number of equal names directly before i.
   */
  function Ordinal(names: seq<string>, i: nat): (o: nat)
    requires i < |names|
    ensures o <= i
  {
    if i == 0 || names[i] != names[i - 1] then 0 else Ordinal(names, i - 1) + 1
  }

  /**
   * The ordinal counts the equal names directly before descriptor i: the
   * `o` descriptors before it share its name, and the one before those
   * (if any) has another name.
   */
  lemma {:induction false} OrdinalIsRunLength(names: seq<string>, i: nat)
    requires i < |names|
    ensures forall j | i - Ordinal(names, i) <= j <= i :: names[j] == names[i]
    ensures i - Ordinal(names, i) == 0 || names[i - Ordinal(names, i) - 1] != names[i]
  {
    if i > 0 && names[i] == names[i - 1] {
      OrdinalIsRunLength(names, i - 1);
    }
  }

  /** The stored key of every descriptor, in runtime-id order. */
  function Keys(names: seq<string>): (k: seq<string>)
    ensures |k| == |names|
  {
    seq(|names|, i requires 0 <= i < |names| => StateKey(names[i], Ordinal(names, i)))
  }

  /** The (key, runtime id) assignments the catalog makes into its dictionary, in order. */
  function Entries(names: seq<string>): (e: seq<(string, int)>)
    ensures |e| == |names|
  {
    seq(|names|, i requires 0 <= i < |names| => (StateKey(names[i], Ordinal(names, i)), i))
  }

  /** The dictionary assignments made under the key of (name, metadata) are those of descriptors with that state. */
  lemma EntriesMatching(names: seq<string>, name: string, metadata: int)
    ensures forall i | 0 <= i < |names| ::
              Entries(names)[i].1 == i &&
              (Entries(names)[i].0 == StateKey(name, metadata) <==> names[i] == name && Ordinal(names, i) == metadata)
  {
    forall i | 0 <= i < |names|
      ensures Entries(names)[i].0 == StateKey(name, metadata) <==> names[i] == name && Ordinal(names, i) == metadata
    {
      if Entries(names)[i].0 == StateKey(name, metadata) {
        StateKeyInjective(names[i], Ordinal(names, i), name, metadata);
      }
    }
  }

  /** `states` and `runtimes` hold what the catalog has stored for the first `k` descriptors. */
  ghost predicate BuiltUpTo(names: seq<string>, k: nat, states: seq<string>, runtimes: map<string, int>) {
    k <= |names| && states == Keys(names)[..k] && runtimes == Assign(Entries(names)[..k])
  }

  lemma KeysStep(names: seq<string>, k: nat, states: seq<string>, key: string)
    requires k < |names| && states == Keys(names)[..k]
    requires key == StateKey(names[k], Ordinal(names, k))
    ensures states + [key] == Keys(names)[..k + 1]
  {
    assert Keys(names)[k] == key;
  }

  lemma EntriesStep(names: seq<string>, k: nat, runtimes: map<string, int>, key: string)
    requires k < |names| && runtimes == Assign(Entries(names)[..k])
    requires key == StateKey(names[k], Ordinal(names, k))
    ensures runtimes[key := k] == Assign(Entries(names)[..k + 1])
  {
    AssignPrefixStep(Entries(names), k, runtimes, key, k);
  }

  lemma BuiltAll(names: seq<string>, states: seq<string>, runtimes: map<string, int>)
    requires BuiltUpTo(names, |names|, states, runtimes)
    ensures states == Keys(names) && runtimes == Assign(Entries(names))
  {
    assert Keys(names)[..|names|] == Keys(names);
    assert Entries(names)[..|names|] == Entries(names);
  }

  /** Equal names occupy one contiguous stretch of the descriptor list. */
  ghost predicate Contiguous(names: seq<string>) {
    forall i, j, k | 0 <= i < j < k < |names| && names[i] == names[k] :: names[j] == names[i]
  }

  ghost predicate SpaceFree(names: seq<string>) {
    forall i | 0 <= i < |names| :: ' ' !in names[i]
  }

  /** Within a contiguous stretch the ordinal counts up by one per descriptor. */
  lemma {:induction false} OrdinalAdvances(names: seq<string>, i: nat, j: nat)
    requires Contiguous(names)
    requires i < j < |names| && names[i] == names[j]
    ensures Ordinal(names, j) == Ordinal(names, i) + (j - i)
    decreases j
  {
    assert names[j - 1] == names[i];
    if j - 1 > i {
      OrdinalAdvances(names, i, j - 1);
    }
  }

  /**
   * Reads a stored key back as `get_runtime_to_state` does: split on every
   * space, take the first piece as the name and the second as the ordinal.
   */
  function ParseState(key: string): (r: Result<(string, int)>)
    ensures r.Ok? ==> ' ' !in r.value.0 && r.value.1 >= 0
  {
    var parts := Split(key);
    if |parts| < 2 then Err(MalformedState)
    else
      assert ' ' !in parts[0] by { SplitPiecesSpaceFree(key); }
      match ParseNat(parts[1])
      case None => Err(MalformedState)
      case Some(n) => Ok((parts[0], n))
  }

  lemma {:induction false} SplitPiecesSpaceFree(s: string)
    ensures forall k | 0 <= k < |Split(s)| :: ' ' !in Split(s)[k]
    decreases |s|
  {
    if s != [] {
      SplitPiecesSpaceFree(s[1..]);
    }
  }

  /** A key built from a space-free name reads back as that name and ordinal. */
  lemma ParseStateOfKey(name: string, metadata: nat)
    requires ' ' !in name
    ensures ParseState(StateKey(name, metadata)) == Ok((name, metadata))
  {
    var digits := NatToString(metadata);
    SplitAtFirstSpace(name, digits);
    ParseNatToString(metadata);
  }

  /** A name with a space breaks the read-back: "a b 0" splits into "a", "b", "0". */
  lemma ParseStateOfSpacedName()
    ensures ParseState(StateKey("a b", 0)) == Err(MalformedState)
  {
    assert StateKey("a b", 0) == "a" + " " + ("b" + " " + "0");
    SplitAtFirstSpace("a", "b" + " " + "0");
    SplitAtFirstSpace("b", "0");
  }

  /**
   * The loop's memory of the descriptor before `k`: its name (or "" before
   * the first) and one more than its ordinal (or 0 before the first).
   */
  ghost predicate CounterAfter(names: seq<string>, k: nat, oldName: string, counter: nat) {
    && k <= |names|
    && (k == 0 ==> counter == 0 && oldName == "")
    && (k > 0 ==> oldName == names[k - 1] && counter == Ordinal(names, k - 1) + 1)
  }

  /**
   * One turn of the construction loop: the ordinal counter restarts when the
   * name differs from the previous descriptor's, and descriptor `runtimeId`
   * is stored under the key of its name and ordinal.
   */
  method StoreState(names: seq<string>, runtimeId: nat, next: nat, states: seq<string>, runtimes: map<string, int>,
                    oldName: string, metadataCounter: nat)
    returns (states': seq<string>, runtimes': map<string, int>, oldName': string, metadataCounter': nat)
    requires runtimeId < |names| && next == runtimeId + 1
    requires BuiltUpTo(names, runtimeId, states, runtimes) && CounterAfter(names, runtimeId, oldName, metadataCounter)
    ensures BuiltUpTo(names, next, states', runtimes')
    ensures CounterAfter(names, next, oldName', metadataCounter')
  {
    var name := names[runtimeId];
    metadataCounter' := metadataCounter;
    if name != oldName {
      metadataCounter' := 0;
    }
    assert metadataCounter' == Ordinal(names, runtimeId);
    var key := StateKey(name, metadataCounter');
    KeysStep(names, runtimeId, states, key);
    EntriesStep(names, runtimeId, runtimes, key);
    states' := states + [key];
    runtimes' := runtimes[key := runtimeId];
    metadataCounter' := metadataCounter' + 1;
    oldName' := name;
  }

  /**
   * The construction loop of the block-state catalog: walks the descriptors
   * in order, resetting the ordinal counter whenever the name changes, and
   * appends each key to the list and assigns its runtime id in the dictionary.
   */
  method BuildTables(names: seq<string>) returns (states: seq<string>, runtimes: map<string, int>)
    ensures BuiltUpTo(names, |names|, states, runtimes)
  {
    states := [];
    runtimes := map[];
    var metadataCounter: nat := 0;
    var oldName: string := "";
    var runtimeId := 0;
    while runtimeId < |names|
      invariant 0 <= runtimeId <= |names|
      invariant BuiltUpTo(names, runtimeId, states, runtimes)
      invariant CounterAfter(names, runtimeId, oldName, metadataCounter)
    {
      var next := runtimeId + 1;
      states, runtimes, oldName, metadataCounter := StoreState(names, runtimeId, next, states, runtimes, oldName, metadataCounter);
      runtimeId := next;
    }
  }

  class BlockStateMap {
    /** Entry i is the stored key of runtime id i. */
    var runtimeToState: seq<string>
    /** Stored key to runtime id. */
    var stateToRuntime: map<string, int>
    /** The descriptor names the catalog was built from, in order. */
    ghost var names: seq<string>

    ghost predicate Valid()
      reads this
    {
      && runtimeToState == Keys(names)
      && stateToRuntime == Assign(Entries(names))
    }

    /** Builds the catalog from the names of the descriptors, in descriptor order. */
    constructor (names: seq<string>)
      ensures this.names == names
      ensures Valid()
    {
      var states, runtimes := BuildTables(names);
      BuiltAll(names, states, runtimes);
      runtimeToState := states;
      stateToRuntime := runtimes;
      this.names := names;
    }

    /**
     * The (name, ordinal) of a runtime id; ("", 0) past the end of the list.
     * A stored name with a space in it can make the read-back fail.
     */
    function GetRuntimeToState(runtimeId: nat): (r: Result<(string, int)>)
      requires Valid()
      reads this
      ensures runtimeId >= |names| ==> r == Ok(("", 0))
      ensures runtimeId < |names| && ' ' !in names[runtimeId] ==>
                r == Ok((names[runtimeId], Ordinal(names, runtimeId)))
    {
      if runtimeId < |runtimeToState| then
        var key := runtimeToState[runtimeId];
        assert ' ' !in names[runtimeId] ==> ParseState(key) == Ok((names[runtimeId], Ordinal(names, runtimeId))) by {
          if ' ' !in names[runtimeId] {
            ParseStateOfKey(names[runtimeId], Ordinal(names, runtimeId));
          }
        }
        ParseState(key)
      else
        Ok(("", 0))
    }

    /**
     * The runtime id stored for (name, metadata), or -1 when the catalog has
     * no such state. When several descriptors share the state, the last wins.
     */
    function GetStateToRuntime(name: string, metadata: int): (r: int)
      requires Valid()
      reads this
      ensures r == -1 <==> forall i | 0 <= i < |names| :: !(names[i] == name && Ordinal(names, i) == metadata)
      ensures r != -1 ==> 0 <= r < |names| && names[r] == name && Ordinal(names, r) == metadata
      ensures r != -1 ==> forall j | r < j < |names| :: !(names[j] == name && Ordinal(names, j) == metadata)
    {
      var key := StateKey(name, metadata);
      EntriesMatching(names, name, metadata);
      AssignLastWins(Entries(names), key);
      if key in stateToRuntime then stateToRuntime[key] else -1
    }
  }

  /**
   * With contiguous, space-free names the two lookups are inverse: the state
   * of runtime id i maps back to i.
   */
  lemma RuntimeStateRoundTrip(m: BlockStateMap, i: nat)
    requires m.Valid() && i < |m.names|
    requires Contiguous(m.names) && SpaceFree(m.names)
    ensures m.GetRuntimeToState(i) == Ok((m.names[i], Ordinal(m.names, i)))
    ensures m.GetStateToRuntime(m.names[i], Ordinal(m.names, i)) == i
  {
    var names := m.names;
    forall j | i < j < |names| ensures !(names[j] == names[i] && Ordinal(names, j) == Ordinal(names, i)) {
      if names[j] == names[i] {
        OrdinalAdvances(names, i, j);
      }
    }
  }
}
