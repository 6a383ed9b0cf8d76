/**
 * The generator's last stage: every decoded creative item becomes one output
 * record, joined with the two catalogs. The record always names the item
 * through the item-state catalog; it has a metadata value only when that is
 * nonzero, NBT only when the item carries one, and a block state only when
 * the network id is below 256, the range of items that are placeable blocks.
 */
module Assembly {
  import opened Wrappers
  import opened Wire
  import opened CreativeContent
  import opened CreativeContentEncoding
  import opened BlockStates
  import opened ItemStates

  /** Network ids below this one are blocks and get a block state. */
  const BlockIdLimit: int := 256

  /**
   * One output record. An absent key is None. `nbt` holds the bytes the NBT
   * writer produces for the item's tree; the record stores their base64 text.
   */
  datatype CreativeItem = CreativeItem(
    name: string,
    metadata: Option<nat>,
    nbt: Option<seq<byte>>,
    blockState: Option<(string, int)>)

  /**
   * What the record of an item needs: the decoder's invariants, and a
   * non-negative block runtime id wherever the block catalog is consulted.
   */
  predicate Assemblable<T>(item: Item<T>) {
    WellFormed(item) && (item.networkId < BlockIdLimit ==> item.blockRuntimeId >= 0)
  }

  /** The record the generator makes of one decoded item, or the failure of its block-state lookup. */
  function Assemble<T>(item: Item<T>, itemMap: ItemStateMap, blockMap: BlockStateMap, writeRoot: RootWriter<T>)
    : (r: Result<CreativeItem>)
    requires itemMap.Valid() && blockMap.Valid() && Assemblable(item)
    reads itemMap, blockMap
    // a block state exactly for blocks
    ensures r.Ok? ==> (r.value.blockState.Some? <==> item.networkId < BlockIdLimit)
  {
    var name := itemMap.GetRuntimeToState(item.networkId);
    var metadata := if item.metadata != 0 then Some(item.metadata) else None;
    var nbt := if item.withNbt then Some(writeRoot(item.nbt.value)) else None;
    if item.networkId < BlockIdLimit then
      var state :- blockMap.GetRuntimeToState(item.blockRuntimeId as nat);
      Ok(CreativeItem(name, metadata, nbt, Some(state)))
    else
      Ok(CreativeItem(name, metadata, nbt, None))
  }

  /** What each key of an item's record holds, in terms of the two catalogs' descriptors. */
  lemma AssembledRecord<T>(item: Item<T>, itemMap: ItemStateMap, blockMap: BlockStateMap, writeRoot: RootWriter<T>)
    requires itemMap.Valid() && blockMap.Valid() && Assemblable(item)
    // the name is that of the last item descriptor with the network id, or "" without one
    ensures var r := Assemble(item, itemMap, blockMap, writeRoot);
            r.Ok? && (forall i | 0 <= i < |itemMap.states| :: itemMap.states[i].runtimeId != item.networkId) ==>
              r.value.name == ""
    ensures var r := Assemble(item, itemMap, blockMap, writeRoot);
            r.Ok? ==> forall i | LastWithId(itemMap.states, item.networkId, i) :: r.value.name == itemMap.states[i].name
    // metadata only when nonzero, NBT only when present
    ensures var r := Assemble(item, itemMap, blockMap, writeRoot);
            r.Ok? ==> (r.value.metadata.Some? <==> item.metadata != 0)
    ensures var r := Assemble(item, itemMap, blockMap, writeRoot);
            r.Ok? && r.value.metadata.Some? ==> r.value.metadata.value == item.metadata
    ensures var r := Assemble(item, itemMap, blockMap, writeRoot);
            r.Ok? ==> (r.value.nbt.Some? <==> item.withNbt)
    ensures var r := Assemble(item, itemMap, blockMap, writeRoot);
            r.Ok? && item.withNbt ==> r.value.nbt == Some(writeRoot(item.nbt.value))
    // a block's state: the descriptor's name and ordinal, or ("", 0) past the catalog
    ensures var r := Assemble(item, itemMap, blockMap, writeRoot);
            r.Ok? && item.networkId < BlockIdLimit && item.blockRuntimeId >= |blockMap.names| ==>
              r.value.blockState == Some(("", 0))
    ensures var r := Assemble(item, itemMap, blockMap, writeRoot);
            r.Ok? && item.networkId < BlockIdLimit && item.blockRuntimeId < |blockMap.names| &&
            ' ' !in blockMap.names[item.blockRuntimeId] ==>
              r.value.blockState == Some((blockMap.names[item.blockRuntimeId], Ordinal(blockMap.names, item.blockRuntimeId)))
    // only a block whose descriptor name has a space in it can fail
    ensures var r := Assemble(item, itemMap, blockMap, writeRoot);
            r.Err? ==> item.networkId < BlockIdLimit && item.blockRuntimeId < |blockMap.names| &&
                       ' ' in blockMap.names[item.blockRuntimeId]
  {
  }

  /** Builds the record of one item key by key, as the loop body does. */
  method AssembleRecord<T>(item: Item<T>, itemMap: ItemStateMap, blockMap: BlockStateMap, writeRoot: RootWriter<T>)
    returns (r: Result<CreativeItem>)
    requires itemMap.Valid() && blockMap.Valid() && Assemblable(item)
    ensures r == Assemble(item, itemMap, blockMap, writeRoot)
  {
    var name := itemMap.GetRuntimeToState(item.networkId);
    var metadata: Option<nat> := None;
    if item.metadata != 0 {
      metadata := Some(item.metadata);
    }
    var nbt: Option<seq<byte>> := None;
    if item.withNbt {
      nbt := Some(writeRoot(item.nbt.value));
    }
    var blockState: Option<(string, int)> := None;
    if item.networkId < BlockIdLimit {
      var state := blockMap.GetRuntimeToState(item.blockRuntimeId as nat);
      if state.Err? {
        return Err(state.error);
      }
      blockState := Some(state.value);
    }
    r := Ok(CreativeItem(name, metadata, nbt, blockState));
  }

  /**
   * The assembly loop: one record per decoded item, in order; a failed
   * block-state lookup ends the run with that failure.
   */
  method AssembleCreativeItems<T>(items: seq<Item<T>>, itemMap: ItemStateMap, blockMap: BlockStateMap,
                                  writeRoot: RootWriter<T>) returns (r: Result<seq<CreativeItem>>)
    requires itemMap.Valid() && blockMap.Valid()
    requires forall k | 0 <= k < |items| :: Assemblable(items[k])
    ensures r.Ok? <==> forall k | 0 <= k < |items| :: Assemble(items[k], itemMap, blockMap, writeRoot).Ok?
    ensures r.Ok? ==> |r.value| == |items| &&
                      forall k | 0 <= k < |items| :: Assemble(items[k], itemMap, blockMap, writeRoot) == Ok(r.value[k])
    ensures r.Err? ==> exists k | 0 <= k < |items| ::
                         Assemble(items[k], itemMap, blockMap, writeRoot) == Err(r.error) &&
                         forall j | 0 <= j < k :: Assemble(items[j], itemMap, blockMap, writeRoot).Ok?
  {
    var records: seq<CreativeItem> := [];
    var i := 0;
    while i < |items|
      invariant i <= |items| && |records| == i
      invariant forall k | 0 <= k < i :: Assemble(items[k], itemMap, blockMap, writeRoot) == Ok(records[k])
    {
      var record := AssembleRecord(items[i], itemMap, blockMap, writeRoot);
      if record.Err? {
        return Err(record.error);
      }
      records := records + [record.value];
      i := i + 1;
    }
    r := Ok(records);
  }

  /**
   * With contiguous, space-free descriptor names, the block state a record
   * carries leads back, through the catalog's reverse lookup, to the item's
   * block runtime id.
   */
  lemma BlockStateLeadsBack<T>(item: Item<T>, itemMap: ItemStateMap, blockMap: BlockStateMap, writeRoot: RootWriter<T>)
    requires itemMap.Valid() && blockMap.Valid() && Assemblable(item)
    requires Contiguous(blockMap.names) && SpaceFree(blockMap.names)
    requires item.networkId < BlockIdLimit && item.blockRuntimeId < |blockMap.names|
    ensures Assemble(item, itemMap, blockMap, writeRoot).Ok?
    ensures var state := Assemble(item, itemMap, blockMap, writeRoot).value.blockState;
            state.Some? && blockMap.GetStateToRuntime(state.value.0, state.value.1) == item.blockRuntimeId
  {
    RuntimeStateRoundTrip(blockMap, item.blockRuntimeId as nat);
  }
}
