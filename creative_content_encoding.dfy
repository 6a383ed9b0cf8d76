/**
 * The inverse of the creative-content decoder: an encoder for entries and
 * packets, stated over an NBT root-tag writer, and the round-trip lemmas that
 * the decoder reads every encoded packet back as the items of its non-empty
 * entries, whatever the auxiliary buffers carry after their NBT root.
 */
module CreativeContentEncoding {
  import opened Wrappers
  import opened Wire
  import opened CreativeContent

  /** The NBT codec's writer: the bytes of a root tag. */
  type RootWriter<!T> = T -> seq<byte>

  /** The codec reads back the tree its writer wrote, and how many bytes that took, whatever follows. */
  ghost predicate ReadsWritten<T(!new)>(readRoot: RootReader<T>, writeRoot: RootWriter<T>) {
    forall tree: T, rest: seq<byte> :: readRoot(writeRoot(tree) + rest) == Some((tree, |writeRoot(tree)|))
  }

  /** The content of an auxiliary buffer: a marker other than 0xFFFF and any bytes, or an NBT payload and any bytes after it. */
  datatype AuxPayload<T> =
    | Plain(marker: nat, rest: seq<byte>)
    | Nbt(version: nat, tree: T, trailing: seq<byte>)

  /** One packet entry: an empty slot, or a stack with its fields. */
  datatype Entry<T> =
    | EmptySlot(legacyId: nat)
    | Stack(legacyId: nat, networkId: int, count: nat, metadata: nat, blockRuntimeId: int, payload: AuxPayload<T>)

  predicate AuxEncodable<T>(a: AuxPayload<T>) {
    match a
    case Plain(marker, _) => marker < 0x1_0000 && marker != NbtMarker
    case Nbt(version, _, _) => version < 256
  }

  function EncodeAux<T>(a: AuxPayload<T>, writeRoot: RootWriter<T>): seq<byte>
    requires AuxEncodable(a)
  {
    match a
    case Plain(marker, rest) => EncodeU16LE(marker) + rest
    case Nbt(version, tree, trailing) => [0xFF, 0xFF, version as byte] + (writeRoot(tree) + trailing)
  }

  /** What the decoder is to make of an auxiliary buffer. */
  function ExpectedAux<T>(a: AuxPayload<T>): Aux<T> {
    match a
    case Plain(_, _) => Aux(false, 0, None)
    case Nbt(version, tree, _) => Aux(true, version, Some(tree))
  }

  lemma DecodeEncodedAux<T(!new)>(a: AuxPayload<T>, readRoot: RootReader<T>, writeRoot: RootWriter<T>)
    requires AuxEncodable(a) && ReadsWritten(readRoot, writeRoot)
    ensures DecodeAux(EncodeAux(a, writeRoot), readRoot) == Ok(ExpectedAux(a))
  {
    var aux := EncodeAux(a, writeRoot);
    match a
    case Plain(marker, rest) =>
      assert aux[..2] == EncodeU16LE(marker);
      ReadEncodedU16LE(aux, 0, marker);
    case Nbt(version, tree, trailing) =>
      assert aux[0] == 0xFF && aux[1] == 0xFF && aux[2] == version as byte;
      assert aux[3..] == writeRoot(tree) + trailing;
  }

  /** Every field fits its wire form: varints in five groups, the count in 16 bits. */
  predicate Encodable<T>(e: Entry<T>, writeRoot: RootWriter<T>) {
    && e.legacyId < Pow128(MaxVarIntGroups)
    && (e.Stack? ==>
          && e.networkId != 0
          && ZigZagEncode(e.networkId) < Pow128(MaxVarIntGroups)
          && e.count < 0x1_0000
          && e.metadata < Pow128(MaxVarIntGroups)
          && ZigZagEncode(e.blockRuntimeId) < Pow128(MaxVarIntGroups)
          && AuxEncodable(e.payload)
          && |EncodeAux(e.payload, writeRoot)| < Pow128(MaxVarIntGroups))
  }

  /** The tail of an encoded stack after its network id: the fields and the length-prefixed auxiliary buffer. */
  function EncodeStackBody<T>(count: nat, metadata: nat, blockRuntimeId: int, aux: seq<byte>): seq<byte>
    requires count < 0x1_0000
  {
    EncodeU16LE(count) + (EncodeVarInt(metadata) + (EncodeVarInt(ZigZagEncode(blockRuntimeId)) + (EncodeVarInt(|aux|) + aux)))
  }

  function EncodeEntry<T>(e: Entry<T>, writeRoot: RootWriter<T>): seq<byte>
    requires Encodable(e, writeRoot)
  {
    match e
    case EmptySlot(legacyId) => EncodeVarInt(legacyId) + EncodeVarInt(ZigZagEncode(0))
    case Stack(legacyId, networkId, count, metadata, blockRuntimeId, payload) =>
      EncodeVarInt(legacyId) + (EncodeVarInt(ZigZagEncode(networkId)) +
        EncodeStackBody<T>(count, metadata, blockRuntimeId, EncodeAux(payload, writeRoot)))
  }

  /** What the decoder is to make of an entry: nothing for an empty slot. */
  function ExpectedEntry<T>(e: Entry<T>): Option<Item<T>> {
    match e
    case EmptySlot(_) => None
    case Stack(_, networkId, count, metadata, blockRuntimeId, payload) =>
      var x := ExpectedAux(payload);
      Some(Item(networkId, count, metadata, blockRuntimeId, x.withNbt, x.nbtVersion, x.nbt))
  }

  /** The decoder's reads of a stack entry, each starting where the one before ended, give the entry's item. */
  lemma EntryFromReads<T>(data: seq<byte>, pos: nat, readRoot: RootReader<T>, e: Entry<T>, aux: seq<byte>,
                          p1: nat, p2: nat, p3: nat, p4: nat, p5: nat, p6: nat, end: nat)
    requires e.Stack? && e.networkId != 0
    requires ReadVarInt(data, pos) == Ok(Read(e.legacyId, p1))
    requires ReadSignedVarInt(data, p1) == Ok(Read(e.networkId, p2))
    requires ReadU16LE(data, p2) == Ok(Read(e.count, p3))
    requires ReadVarInt(data, p3) == Ok(Read(e.metadata, p4))
    requires ReadSignedVarInt(data, p4) == Ok(Read(e.blockRuntimeId, p5))
    requires ReadVarInt(data, p5) == Ok(Read(|aux|, p6))
    requires ReadBytes(data, p6, |aux|) == Ok(Read(aux, end))
    requires DecodeAux(aux, readRoot) == Ok(ExpectedAux(e.payload))
    ensures DecodeEntry(data, pos, readRoot) == Ok(Read(ExpectedEntry(e), end))
  {
  }

  /** A length-prefixed buffer reads back as its length, up to `p`, and then its bytes, up to `end`. */
  lemma BufferReads(data: seq<byte>, pos: nat, aux: seq<byte>, end: nat) returns (p: nat)
    requires |aux| < Pow128(MaxVarIntGroups) && Holds(data, pos, EncodeVarInt(|aux|) + aux)
    requires end == pos + |EncodeVarInt(|aux|) + aux|
    ensures ReadVarInt(data, pos) == Ok(Read(|aux|, p))
    ensures ReadBytes(data, p, |aux|) == Ok(Read(aux, end))
  {
    p := pos + |EncodeVarInt(|aux|)|;
    ReadVarIntBefore(data, pos, |aux|, aux, p);
    ReadHeldBytes(data, p, aux);
  }

  /** The block runtime id of a stack, then its auxiliary buffer. */
  lemma RuntimeReads(data: seq<byte>, pos: nat, blockRuntimeId: int, aux: seq<byte>, end: nat) returns (p5: nat, p6: nat)
    requires ZigZagEncode(blockRuntimeId) < Pow128(MaxVarIntGroups) && |aux| < Pow128(MaxVarIntGroups)
    requires Holds(data, pos, EncodeVarInt(ZigZagEncode(blockRuntimeId)) + (EncodeVarInt(|aux|) + aux))
    requires end == pos + |EncodeVarInt(ZigZagEncode(blockRuntimeId)) + (EncodeVarInt(|aux|) + aux)|
    ensures ReadSignedVarInt(data, pos) == Ok(Read(blockRuntimeId, p5))
    ensures ReadVarInt(data, p5) == Ok(Read(|aux|, p6))
    ensures ReadBytes(data, p6, |aux|) == Ok(Read(aux, end))
  {
    p5 := pos + |EncodeVarInt(ZigZagEncode(blockRuntimeId))|;
    ReadSignedVarIntBefore(data, pos, blockRuntimeId, EncodeVarInt(|aux|) + aux, p5);
    p6 := BufferReads(data, p5, aux, end);
  }

  /** The metadata of a stack and what follows it. */
  lemma MetadataReads(data: seq<byte>, pos: nat, metadata: nat, blockRuntimeId: int, aux: seq<byte>, end: nat)
    returns (p4: nat, p5: nat, p6: nat)
    requires metadata < Pow128(MaxVarIntGroups)
    requires ZigZagEncode(blockRuntimeId) < Pow128(MaxVarIntGroups) && |aux| < Pow128(MaxVarIntGroups)
    requires Holds(data, pos, EncodeVarInt(metadata) + (EncodeVarInt(ZigZagEncode(blockRuntimeId)) + (EncodeVarInt(|aux|) + aux)))
    requires end == pos + |EncodeVarInt(metadata) + (EncodeVarInt(ZigZagEncode(blockRuntimeId)) + (EncodeVarInt(|aux|) + aux))|
    ensures ReadVarInt(data, pos) == Ok(Read(metadata, p4))
    ensures ReadSignedVarInt(data, p4) == Ok(Read(blockRuntimeId, p5))
    ensures ReadVarInt(data, p5) == Ok(Read(|aux|, p6))
    ensures ReadBytes(data, p6, |aux|) == Ok(Read(aux, end))
  {
    p4 := pos + |EncodeVarInt(metadata)|;
    ReadVarIntBefore(data, pos, metadata, EncodeVarInt(ZigZagEncode(blockRuntimeId)) + (EncodeVarInt(|aux|) + aux), p4);
    p5, p6 := RuntimeReads(data, p4, blockRuntimeId, aux, end);
  }

  /** The fields of a stack after its network id. */
  lemma StackBodyReads<T>(data: seq<byte>, pos: nat, count: nat, metadata: nat, blockRuntimeId: int, aux: seq<byte>, end: nat)
    returns (p3: nat, p4: nat, p5: nat, p6: nat)
    requires count < 0x1_0000 && metadata < Pow128(MaxVarIntGroups)
    requires ZigZagEncode(blockRuntimeId) < Pow128(MaxVarIntGroups) && |aux| < Pow128(MaxVarIntGroups)
    requires Holds(data, pos, EncodeStackBody<T>(count, metadata, blockRuntimeId, aux))
    requires end == pos + |EncodeStackBody<T>(count, metadata, blockRuntimeId, aux)|
    ensures ReadU16LE(data, pos) == Ok(Read(count, p3))
    ensures ReadVarInt(data, p3) == Ok(Read(metadata, p4))
    ensures ReadSignedVarInt(data, p4) == Ok(Read(blockRuntimeId, p5))
    ensures ReadVarInt(data, p5) == Ok(Read(|aux|, p6))
    ensures ReadBytes(data, p6, |aux|) == Ok(Read(aux, end))
  {
    p3 := pos + 2;
    ReadU16LEBefore(data, pos, count, EncodeVarInt(metadata) + (EncodeVarInt(ZigZagEncode(blockRuntimeId)) + (EncodeVarInt(|aux|) + aux)), p3);
    p4, p5, p6 := MetadataReads(data, p3, metadata, blockRuntimeId, aux, end);
  }

  /** The reads the decoder makes of an encoded stack, field by field: `p1` to `p6` are where the fields after the first start. */
  lemma StackReads<T>(data: seq<byte>, pos: nat, e: Entry<T>, aux: seq<byte>, end: nat)
    returns (p1: nat, p2: nat, p3: nat, p4: nat, p5: nat, p6: nat)
    requires e.Stack? && e.legacyId < Pow128(MaxVarIntGroups) && ZigZagEncode(e.networkId) < Pow128(MaxVarIntGroups)
    requires e.count < 0x1_0000 && e.metadata < Pow128(MaxVarIntGroups)
    requires ZigZagEncode(e.blockRuntimeId) < Pow128(MaxVarIntGroups) && |aux| < Pow128(MaxVarIntGroups)
    requires Holds(data, pos, EncodeVarInt(e.legacyId) + (EncodeVarInt(ZigZagEncode(e.networkId)) +
                              EncodeStackBody<T>(e.count, e.metadata, e.blockRuntimeId, aux)))
    requires end == pos + |EncodeVarInt(e.legacyId) + (EncodeVarInt(ZigZagEncode(e.networkId)) +
                            EncodeStackBody<T>(e.count, e.metadata, e.blockRuntimeId, aux))|
    ensures ReadVarInt(data, pos) == Ok(Read(e.legacyId, p1))
    ensures ReadSignedVarInt(data, p1) == Ok(Read(e.networkId, p2))
    ensures ReadU16LE(data, p2) == Ok(Read(e.count, p3))
    ensures ReadVarInt(data, p3) == Ok(Read(e.metadata, p4))
    ensures ReadSignedVarInt(data, p4) == Ok(Read(e.blockRuntimeId, p5))
    ensures ReadVarInt(data, p5) == Ok(Read(|aux|, p6))
    ensures ReadBytes(data, p6, |aux|) == Ok(Read(aux, end))
  {
    var body := EncodeStackBody<T>(e.count, e.metadata, e.blockRuntimeId, aux);
    p1 := pos + |EncodeVarInt(e.legacyId)|;
    ReadVarIntBefore(data, pos, e.legacyId, EncodeVarInt(ZigZagEncode(e.networkId)) + body, p1);
    p2 := p1 + |EncodeVarInt(ZigZagEncode(e.networkId))|;
    ReadSignedVarIntBefore(data, p1, e.networkId, body, p2);
    p3, p4, p5, p6 := StackBodyReads<T>(data, p2, e.count, e.metadata, e.blockRuntimeId, aux, end);
  }

  /** A stack encoded around any auxiliary buffer that reads back as the payload's reads back as the stack's item. */
  lemma EncodedStackDecodes<T>(data: seq<byte>, pos: nat, e: Entry<T>, readRoot: RootReader<T>, aux: seq<byte>, end: nat)
    requires e.Stack? && e.networkId != 0
    requires e.legacyId < Pow128(MaxVarIntGroups) && ZigZagEncode(e.networkId) < Pow128(MaxVarIntGroups)
    requires e.count < 0x1_0000 && e.metadata < Pow128(MaxVarIntGroups)
    requires ZigZagEncode(e.blockRuntimeId) < Pow128(MaxVarIntGroups) && |aux| < Pow128(MaxVarIntGroups)
    requires Holds(data, pos, EncodeVarInt(e.legacyId) + (EncodeVarInt(ZigZagEncode(e.networkId)) +
                              EncodeStackBody<T>(e.count, e.metadata, e.blockRuntimeId, aux)))
    requires end == pos + |EncodeVarInt(e.legacyId) + (EncodeVarInt(ZigZagEncode(e.networkId)) +
                            EncodeStackBody<T>(e.count, e.metadata, e.blockRuntimeId, aux))|
    requires DecodeAux(aux, readRoot) == Ok(ExpectedAux(e.payload))
    ensures DecodeEntry(data, pos, readRoot) == Ok(Read(ExpectedEntry(e), end))
  {
    var p1, p2, p3, p4, p5, p6 := StackReads(data, pos, e, aux, end);
    EntryFromReads(data, pos, readRoot, e, aux, p1, p2, p3, p4, p5, p6, end);
  }

  /** An encoded stack reads back as its item, and the decoder moves past the whole encoding. */
  lemma DecodeEncodedStack<T(!new)>(data: seq<byte>, pos: nat, e: Entry<T>,
                                    readRoot: RootReader<T>, writeRoot: RootWriter<T>, next: nat)
    requires e.Stack? && Encodable(e, writeRoot) && ReadsWritten(readRoot, writeRoot)
    requires Holds(data, pos, EncodeEntry(e, writeRoot))
    requires next == pos + |EncodeEntry(e, writeRoot)|
    ensures DecodeEntry(data, pos, readRoot) == Ok(Read(ExpectedEntry(e), next))
  {
    var aux := EncodeAux(e.payload, writeRoot);
    DecodeEncodedAux(e.payload, readRoot, writeRoot);
    assert EncodeEntry(e, writeRoot) == EncodeVarInt(e.legacyId) + (EncodeVarInt(ZigZagEncode(e.networkId)) +
                                        EncodeStackBody<T>(e.count, e.metadata, e.blockRuntimeId, aux));
    EncodedStackDecodes(data, pos, e, readRoot, aux, next);
  }

  /** The decoder's reads of an empty slot: its legacy id, then the network id 0, and nothing more. */
  lemma EmptySlotFromReads<T>(data: seq<byte>, pos: nat, readRoot: RootReader<T>, legacyId: nat, p1: nat, end: nat)
    requires ReadVarInt(data, pos) == Ok(Read(legacyId, p1))
    requires ReadSignedVarInt(data, p1) == Ok(Read(0, end))
    ensures DecodeEntry(data, pos, readRoot) == Ok(Read(None, end))
  {
  }

  /** An encoded empty slot reads back as no item, and the decoder moves past its two varints. */
  lemma DecodeEncodedEmptySlot<T>(data: seq<byte>, pos: nat, e: Entry<T>, readRoot: RootReader<T>, writeRoot: RootWriter<T>,
                                  next: nat)
    requires e.EmptySlot? && Encodable(e, writeRoot)
    requires Holds(data, pos, EncodeEntry(e, writeRoot))
    requires next == pos + |EncodeEntry(e, writeRoot)|
    ensures DecodeEntry(data, pos, readRoot) == Ok(Read(ExpectedEntry(e), next))
  {
    var zero := EncodeVarInt(ZigZagEncode(0));
    assert EncodeEntry(e, writeRoot) == EncodeVarInt(e.legacyId) + (zero + []);
    var p1 := pos + |EncodeVarInt(e.legacyId)|;
    ReadVarIntBefore(data, pos, e.legacyId, zero + [], p1);
    ReadSignedVarIntBefore(data, p1, 0, [], next);
    EmptySlotFromReads(data, pos, readRoot, e.legacyId, p1, next);
  }

  /** Every encoded entry reads back as what the decoder is to make of it, and the decoder moves to `next`, just past it. */
  lemma DecodeEncodedEntry<T(!new)>(data: seq<byte>, pos: nat, e: Entry<T>,
                                    readRoot: RootReader<T>, writeRoot: RootWriter<T>, next: nat)
    requires Encodable(e, writeRoot) && ReadsWritten(readRoot, writeRoot)
    requires Holds(data, pos, EncodeEntry(e, writeRoot))
    requires next == pos + |EncodeEntry(e, writeRoot)|
    ensures DecodeEntry(data, pos, readRoot) == Ok(Read(ExpectedEntry(e), next))
  {
    if e.Stack? {
      DecodeEncodedStack(data, pos, e, readRoot, writeRoot, next);
    } else {
      DecodeEncodedEmptySlot(data, pos, e, readRoot, writeRoot, next);
    }
  }

  ghost predicate AllEncodable<T>(es: seq<Entry<T>>, writeRoot: RootWriter<T>) {
    forall k | 0 <= k < |es| :: Encodable(es[k], writeRoot)
  }

  /** The entries one after another. */
  function EncodeEntries<T>(es: seq<Entry<T>>, writeRoot: RootWriter<T>): seq<byte>
    requires AllEncodable(es, writeRoot)
    decreases |es|
  {
    if es == [] then [] else EncodeEntry(es[0], writeRoot) + EncodeEntries(es[1..], writeRoot)
  }

  /** The items the decoder is to collect from the entries: those of the stacks, in order. */
  function ExpectedItems<T>(es: seq<Entry<T>>): seq<Item<T>>
    decreases |es|
  {
    if es == [] then [] else OptionToSeq(ExpectedEntry(es[0])) + ExpectedItems(es[1..])
  }

  /** Decoding a run of entries is decoding the first and then the rest. */
  lemma EntriesFromFirst<T>(data: seq<byte>, pos: nat, n: nat, readRoot: RootReader<T>,
                            item: Option<Item<T>>, next: nat, items: seq<Item<T>>, all: seq<Item<T>>, end: nat)
    requires n >= 1
    requires DecodeEntry(data, pos, readRoot) == Ok(Read(item, next))
    requires DecodeEntries(data, next, n - 1, readRoot) == Ok(Read(items, end))
    requires all == OptionToSeq(item) + items
    ensures DecodeEntries(data, pos, n, readRoot) == Ok(Read(all, end))
  {
  }

  /** Encoded entries read back one after the other as the items of their stacks, and the decoder moves to `end`, just past them. */
  lemma {:induction false} DecodeEncodedEntries<T(!new)>(data: seq<byte>, pos: nat, es: seq<Entry<T>>,
                                                          readRoot: RootReader<T>, writeRoot: RootWriter<T>, end: nat)
    requires AllEncodable(es, writeRoot) && ReadsWritten(readRoot, writeRoot)
    requires Holds(data, pos, EncodeEntries(es, writeRoot))
    requires end == pos + |EncodeEntries(es, writeRoot)|
    ensures DecodeEntries(data, pos, |es|, readRoot) == Ok(Read(ExpectedItems(es), end))
    decreases |es|
  {
    if es != [] {
      var next := pos + |EncodeEntry(es[0], writeRoot)|;
      HoldsSplit(data, pos, EncodeEntry(es[0], writeRoot), EncodeEntries(es[1..], writeRoot), next);
      DecodeEncodedEntry(data, pos, es[0], readRoot, writeRoot, next);
      DecodeEncodedEntries(data, next, es[1..], readRoot, writeRoot, end);
      EntriesFromFirst(data, pos, |es|, readRoot, ExpectedEntry(es[0]), next, ExpectedItems(es[1..]), ExpectedItems(es), end);
    }
  }

  /** The packet: its id, the number of entries, then the entries. */
  function EncodePacket<T>(packetId: nat, es: seq<Entry<T>>, writeRoot: RootWriter<T>): seq<byte>
    requires packetId < Pow128(MaxVarIntGroups) && |es| < Pow128(MaxVarIntGroups)
    requires AllEncodable(es, writeRoot)
  {
    EncodeVarInt(packetId) + (EncodeVarInt(|es|) + EncodeEntries(es, writeRoot))
  }

  /**
   * The round trip of the whole packet: the decoder reads an encoded packet
   * back as the items of its stacks, in order, whatever bytes follow it.
   */
  lemma DecodeEncodedPacket<T(!new)>(packetId: nat, es: seq<Entry<T>>, trailing: seq<byte>,
                                     readRoot: RootReader<T>, writeRoot: RootWriter<T>)
    requires packetId < Pow128(MaxVarIntGroups) && |es| < Pow128(MaxVarIntGroups)
    requires AllEncodable(es, writeRoot) && ReadsWritten(readRoot, writeRoot)
    ensures DecodePacket(EncodePacket(packetId, es, writeRoot) + trailing, readRoot) == Ok(ExpectedItems(es))
  {
    var entries := EncodeEntries(es, writeRoot);
    var data := EncodePacket(packetId, es, writeRoot) + trailing;
    assert Holds(data, 0, EncodePacket(packetId, es, writeRoot) + trailing);
    HoldsConcat(data, 0, EncodePacket(packetId, es, writeRoot), trailing);
    var p1 := |EncodeVarInt(packetId)|;
    var p2 := p1 + |EncodeVarInt(|es|)|;
    ReadVarIntBefore(data, 0, packetId, EncodeVarInt(|es|) + entries, p1);
    ReadVarIntBefore(data, p1, |es|, entries, p2);
    DecodeEncodedEntries(data, p2, es, readRoot, writeRoot, p2 + |entries|);
    PacketFromEntries(data, readRoot, |es|, p2);
  }
}
