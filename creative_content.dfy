/**
 * Decoding of the creative-content packet: a packet id, an entry count, and
 * that many entries. An entry whose network id is 0 is an empty slot and
 * ends after its network id; every other entry carries a count, a metadata
 * value, a block runtime id and a length-prefixed auxiliary buffer, which
 * may open with the marker 0xFFFF followed by a version byte and an NBT root
 * tag. Whatever follows inside the auxiliary buffer is not read.
 */
module CreativeContent {
  import opened Wrappers
  import opened Wire

  /** One non-empty entry, as the decoder collects it. */
  datatype Item<T> = Item(
    networkId: int,
    count: nat,
    metadata: nat,
    blockRuntimeId: int,
    withNbt: bool,
    nbtVersion: nat,
    nbt: Option<T>)

  /**
   * The NBT codec's root-tag reader, applied to the auxiliary bytes after
   * the version byte: the tree and the number of bytes it used, or None when
   * no root tag can be read there. The codec itself is not part of this model.
   */
  type RootReader<T> = seq<byte> -> Option<(T, nat)>

  /** The little-endian 16-bit value that announces an NBT payload. */
  const NbtMarker: nat := 0xFFFF

  /** The auxiliary buffer opens with the two bytes 0xFF 0xFF. */
  predicate IsNbtMarked(aux: seq<byte>) {
    |aux| >= 2 && aux[0] == 0xFF && aux[1] == 0xFF
  }

  /** What an entry's auxiliary buffer contributes to the item. */
  datatype Aux<T> = Aux(withNbt: bool, nbtVersion: nat, nbt: Option<T>)

  /** The item invariants the decoder establishes. */
  predicate WellFormed<T>(item: Item<T>) {
    && item.networkId != 0
    && item.count < 0x1_0000
    && (item.withNbt <==> item.nbt.Some?)
    && (!item.withNbt ==> item.nbtVersion == 0)
  }

  function DecodeAux<T>(aux: seq<byte>, readRoot: RootReader<T>): (r: Result<Aux<T>>)
    ensures r.Ok? <==> |aux| >= 2 && (IsNbtMarked(aux) ==> |aux| >= 3 && readRoot(aux[3..]).Some?)
    ensures r.Ok? ==> (r.value.withNbt <==> IsNbtMarked(aux))
    ensures r.Ok? && r.value.withNbt ==>
              r.value.nbtVersion == aux[2] as nat && r.value.nbt == Some(readRoot(aux[3..]).value.0)
    ensures r.Ok? && !r.value.withNbt ==> r.value.nbtVersion == 0 && r.value.nbt == None
  {
    var marker :- ReadU16LE(aux, 0);
    if marker.got != NbtMarker then Ok(Aux(false, 0, None))
    else
      var version :- ReadByte(aux, marker.next);
      match readRoot(aux[version.next..])
      case None => Err(NbtUnreadable)
      case Some((tree, _)) => Ok(Aux(true, version.got, Some(tree)))
  }

  /** One entry starting at `pos`: the item (None for an empty slot) and the position after the entry. */
  function DecodeEntry<T>(data: seq<byte>, pos: nat, readRoot: RootReader<T>): (r: Result<Read<Option<Item<T>>>>)
    ensures r.Ok? ==> pos < r.value.next <= |data|
    ensures r.Ok? && r.value.got.Some? ==> WellFormed(r.value.got.value)
  {
    var legacyId :- ReadVarInt(data, pos);
    var networkId :- ReadSignedVarInt(data, legacyId.next);
    if networkId.got == 0 then Ok(Read(None, networkId.next))
    else
      var count :- ReadU16LE(data, networkId.next);
      var metadata :- ReadVarInt(data, count.next);
      var blockRuntimeId :- ReadSignedVarInt(data, metadata.next);
      var auxLen :- ReadVarInt(data, blockRuntimeId.next);
      var aux :- ReadBytes(data, auxLen.next, auxLen.got);
      var extra :- DecodeAux(aux.got, readRoot);
      Ok(Read(Some(Item(networkId.got, count.got, metadata.got, blockRuntimeId.got,
                        extra.withNbt, extra.nbtVersion, extra.nbt)), aux.next))
  }

  function OptionToSeq<T>(o: Option<T>): (s: seq<T>)
    ensures |s| <= 1
  {
    if o.Some? then [o.value] else []
  }

  /** Items in front of those of a decoded run of entries. */
  function Prepend<T>(items: seq<Item<T>>, r: Result<Read<seq<Item<T>>>>): (p: Result<Read<seq<Item<T>>>>)
    ensures p.Ok? <==> r.Ok?
    ensures p.Ok? ==> p.value.got == items + r.value.got && p.value.next == r.value.next
  {
    match r
    case Ok(rest) => Ok(Read(items + rest.got, rest.next))
    case Err(e) => Err(e)
  }

  /** `n` consecutive entries starting at `pos`: the items of the non-empty ones, in order. */
  function DecodeEntries<T>(data: seq<byte>, pos: nat, n: nat, readRoot: RootReader<T>): (r: Result<Read<seq<Item<T>>>>)
    ensures r.Ok? ==> pos <= r.value.next && |r.value.got| <= n
    ensures r.Ok? ==> forall k | 0 <= k < |r.value.got| :: WellFormed(r.value.got[k])
    decreases n
  {
    if n == 0 then Ok(Read([], pos))
    else
      var entry :- DecodeEntry(data, pos, readRoot);
      Prepend(OptionToSeq(entry.got), DecodeEntries(data, entry.next, n - 1, readRoot))
  }

  /** The whole packet: the packet id (discarded), the entry count, then the entries. */
  function DecodePacket<T>(data: seq<byte>, readRoot: RootReader<T>): (r: Result<seq<Item<T>>>)
    ensures r.Ok? ==> forall k | 0 <= k < |r.value| :: WellFormed(r.value[k])
  {
    var packetId :- ReadVarInt(data, 0);
    var count :- ReadVarInt(data, packetId.next);
    var items :- DecodeEntries(data, count.next, count.got, readRoot);
    Ok(items.got)
  }

  lemma PrependPrepend<T>(items: seq<Item<T>>, more: seq<Item<T>>, r: Result<Read<seq<Item<T>>>>)
    ensures Prepend(items, Prepend(more, r)) == Prepend(items + more, r)
  {
    if r.Ok? {
      assert items + (more + r.value.got) == items + more + r.value.got;
    }
  }

  lemma PrependNothing<T>(r: Result<Read<seq<Item<T>>>>)
    ensures Prepend([], r) == r
  {
    if r.Ok? {
      assert [] + r.value.got == r.value.got;
    }
  }

  /** The packet's items are those of the entries that follow the two header varints. */
  lemma PacketFromEntries<T>(data: seq<byte>, readRoot: RootReader<T>, count: nat, start: nat)
    requires ReadVarInt(data, 0).Ok?
    requires ReadVarInt(data, ReadVarInt(data, 0).value.next) == Ok(Read(count, start))
    ensures var entries := DecodeEntries(data, start, count, readRoot);
            DecodePacket(data, readRoot) == if entries.Ok? then Ok(entries.value.got) else Err(entries.error)
  {
  }

  /** A run of entries is its first entry and then the rest of the run. */
  lemma EntriesUnfold<T>(data: seq<byte>, pos: nat, n: nat, readRoot: RootReader<T>)
    requires n > 0
    ensures DecodeEntries(data, pos, n, readRoot) ==
            match DecodeEntry(data, pos, readRoot)
            case Ok(entry) => Prepend(OptionToSeq(entry.got), DecodeEntries(data, entry.next, n - 1, readRoot))
            case Err(e) => Err(e)
  {
  }

  /** Reading one more entry moves its item, if any, from the remaining entries to the collected ones. */
  lemma PrependEntry<T>(items: seq<Item<T>>, data: seq<byte>, pos: nat, n: nat, readRoot: RootReader<T>,
                        entry: Read<Option<Item<T>>>, more: seq<Item<T>>, next: nat, left: nat)
    requires n > 0 && DecodeEntry(data, pos, readRoot) == Ok(entry)
    requires more == items + OptionToSeq(entry.got)
    requires next == entry.next && left == n - 1
    ensures Prepend(items, DecodeEntries(data, pos, n, readRoot)) ==
            Prepend(more, DecodeEntries(data, next, left, readRoot))
  {
    EntriesUnfold(data, pos, n, readRoot);
    PrependPrepend(items, OptionToSeq(entry.got), DecodeEntries(data, next, left, readRoot));
  }

  /**
   * Reads an auxiliary buffer with a cursor of its own: the marker, and
   * after the 0xFFFF marker the version byte and the root tag.
   */
  method ReadAux<T>(aux: seq<byte>, readRoot: RootReader<T>) returns (r: Result<Aux<T>>)
    ensures r == DecodeAux(aux, readRoot)
  {
    var tempPos: nat := 0;
    var marker :- ReadU16LE(aux, tempPos);
    tempPos := marker.next;
    var withNbt := marker.got == NbtMarker;
    var nbt: Option<T> := None;
    var nbtVersion: nat := 0;
    if withNbt {
      var version :- ReadByte(aux, tempPos);
      nbtVersion := version.got;
      tempPos := version.next;
      var root := readRoot(aux[tempPos..]);
      if root.None? {
        return Err(NbtUnreadable);
      }
      nbt := Some(root.value.0);
      tempPos := tempPos + root.value.1;
    }
    r := Ok(Aux(withNbt, nbtVersion, nbt));
  }

  /**
   * Reads one entry at `pos`, field by field; the outer cursor moves past the
   * whole auxiliary buffer at once, whatever part of it the buffer's own
   * reading uses.
   */
  method ReadEntry<T>(data: seq<byte>, pos: nat, readRoot: RootReader<T>) returns (r: Result<Read<Option<Item<T>>>>)
    ensures r == DecodeEntry(data, pos, readRoot)
  {
    var cursor := pos;
    var legacyId :- ReadVarInt(data, cursor);
    cursor := legacyId.next;
    var networkId :- ReadSignedVarInt(data, cursor);
    cursor := networkId.next;
    if networkId.got == 0 {
      return Ok(Read(None, cursor));
    }
    var count :- ReadU16LE(data, cursor);
    cursor := count.next;
    var metadata :- ReadVarInt(data, cursor);
    cursor := metadata.next;
    var blockRuntimeId :- ReadSignedVarInt(data, cursor);
    cursor := blockRuntimeId.next;
    var auxLen :- ReadVarInt(data, cursor);
    cursor := auxLen.next;
    var aux :- ReadBytes(data, cursor, auxLen.got);
    cursor := aux.next;
    var extra :- ReadAux(aux.got, readRoot);
    r := Ok(Read(Some(Item(networkId.got, count.got, metadata.got, blockRuntimeId.got,
                           extra.withNbt, extra.nbtVersion, extra.nbt)), cursor));
  }

  /**
   * The decoder: skips the packet id, reads the entry count, then reads
   * that many entries, appending the item of every non-empty one; any failed
   * read aborts the decode.
   */
  method DecodeCreativeContentPacket<T>(data: seq<byte>, readRoot: RootReader<T>) returns (r: Result<seq<Item<T>>>)
    ensures r == DecodePacket(data, readRoot)
  {
    var pos: nat := 0;
    var packetId :- ReadVarInt(data, pos);
    pos := packetId.next;
    var entryCount :- ReadVarInt(data, pos);
    pos := entryCount.next;
    PacketFromEntries(data, readRoot, entryCount.got, pos);
    ghost var start := pos;
    ghost var entries := DecodeEntries(data, start, entryCount.got, readRoot);
    var items: seq<Item<T>> := [];
    var i := 0;
    ghost var remaining := entryCount.got;
    PrependNothing(entries);
    while i < entryCount.got
      invariant i <= entryCount.got && remaining == entryCount.got - i
      invariant entries == Prepend(items, DecodeEntries(data, pos, remaining, readRoot))
    {
      var entry := ReadEntry(data, pos, readRoot);
      if entry.Err? {
        return Err(entry.error);
      }
      ghost var collected := items;
      if entry.value.got.Some? {
        items := items + [entry.value.got.value];
      } else {
        assert items + OptionToSeq(entry.value.got) == items;
      }
      ghost var entryPos, entryRemaining := pos, remaining;
      pos := entry.value.next;
      i := i + 1;
      remaining := remaining - 1;
      PrependEntry(collected, data, entryPos, entryRemaining, readRoot, entry.value, items, pos, remaining);
    }
    assert items + [] == items;
    r := Ok(items);
  }
}
