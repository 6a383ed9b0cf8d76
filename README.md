# Bedrock creative items generator, modelled in Dafny

The generator reads three inputs:

- the block-state catalog, an ordered list of block descriptors;
- the item-state catalog, a list of (name, runtime id) pairs;
- a captured creative-content packet.

It writes one JSON record per creative item. This project models the logic in between, in five parts:

- **Block-state catalog** (`BlockStates`). Descriptor i gets runtime id i and a metadata ordinal. The ordinal restarts at 0 whenever the name differs from the previous descriptor's. Each state is stored as the text `"<name> <ordinal>"`, both in a list indexed by runtime id and in a dictionary from that text back to the id. There are two lookups:
  - from a runtime id to (name, ordinal), which splits the stored text on spaces and returns the sentinel `("", 0)` past the end;
  - from (name, ordinal) to a runtime id, which returns the sentinel `-1` on a miss.
- **Item-state catalog** (`ItemStates`). Two dictionaries, filled in descriptor order, so the last descriptor with a key wins (`LastWins`). The lookups return `""` and `0` on a miss.
- **Packet decoder** (`Wire`, `CreativeContent`). A bounds-checked cursor over the packet's bytes reads:
  - a discarded packet id, then an entry count;
  - for each entry, a discarded varint and a ZigZag signed varint network id. An entry with network id 0 is an empty slot and ends there; it produces no item;
  - for any other entry: a little-endian 16-bit count, a varint metadata, a signed varint block runtime id, and a length-prefixed auxiliary buffer.

  Inside the auxiliary buffer, a leading 16-bit `0xFFFF` announces a version byte and an NBT root tag; the rest of the buffer is not read. Varints are the "Base 128 Varints" of the Protocol Buffers encoding guide, with at most five groups. The signed variant uses that guide's "ZigZag" mapping. The decoder exists twice: as functions (`DecodePacket`) and as the loop the generator runs (`DecodeCreativeContentPacket`), which is proved equal to them. An encoder (`CreativeContentEncoding`) is the decoder's partner: every encoded packet decodes back to the items of its non-empty entries.
- **Record assembly** (`Assembly`). One record per decoded item, in order:
  - `name` is always present;
  - `metadata` is present only when nonzero;
  - the NBT is present only when the item has one;
  - the block state is present only for network ids below 256.
- **Text helpers** (`Text`). Decimal formatting, Python's `str.split(" ")`, and the parse `int()` applies to the ordinal.

The NBT codec is a pair of function parameters:

- a reader, from bytes to a tree and the number of bytes it used;
- a writer, from a tree to bytes.

The round-trip lemmas assume only that the reader reads back what the writer wrote.

## Model

| member | source | states |
|---|---|---|
| Text.NatToString | creative_items_generator.py:18 | the decimal text of a non-negative number is a numeral, and it starts with '0' only for 0 |
| Text.IntToString | creative_items_generator.py:31 | the decimal text of any integer, a negative ordinal included, has no space in it |
| Text.ParseNat | creative_items_generator.py:26 | parsing the ordinal text succeeds exactly on non-empty all-digit strings |
| Text.DigitsValue | creative_items_generator.py:26 | the value `int()` gives a decimal numeral without leading zeros formats back to that very numeral, the converse of ParseNatToString |
| Text.ParseNatToString | creative_items_generator.py:18-26 | parsing the formatted ordinal gives back the ordinal |
| Text.Split | creative_items_generator.py:25 | splitting on spaces yields at least one piece, and a space-free string splits into itself alone |
| Text.SplitAtFirstSpace | creative_items_generator.py:25 | splitting `a + " " + b` with space-free `a` gives `a` followed by the pieces of `b` |
| BlockStates.StateKey | creative_items_generator.py:18-19 | the stored text of a state is its name, one space, and a tail with no space in it; with StateKeyInjective, different states never share a text |
| BlockStates.StateKeyInjective | creative_items_generator.py:18-19 | two (name, metadata) pairs with the same stored text are equal, so keys of different states never collide |
| BlockStates.Ordinal | creative_items_generator.py:12-21 | the ordinal of descriptor i is at most i |
| BlockStates.OrdinalIsRunLength | creative_items_generator.py:12-21 | the ordinal of descriptor i is the length of the run of equal names just before it: those descriptors share its name, and the one before them does not |
| BlockStates.OrdinalAdvances | creative_items_generator.py:16-20 | when equal names are contiguous, the ordinal rises by one per descriptor along a name's stretch |
| BlockStates.Keys | creative_items_generator.py:18 | the list of stored texts has exactly one entry per descriptor |
| BlockStates.Entries | creative_items_generator.py:19 | the dictionary assignments are one per descriptor |
| BlockStates.EntriesMatching | creative_items_generator.py:19 | the assignments made under the text of (name, metadata) are exactly those of descriptors with that name and ordinal, each with its own runtime id |
| BlockStates.StoreState | creative_items_generator.py:15-21 | one pass of the construction loop. It keeps the list and dictionary equal to what the first k descriptors give, and keeps the counter one more than the last descriptor's ordinal |
| BlockStates.BuildTables | creative_items_generator.py:12-21 | the construction loop leaves entry i of the list as the text of descriptor i, and the dictionary as the in-order assignment of every descriptor's text to its runtime id |
| BlockStates.BlockStateMap.constructor | creative_items_generator.py:9-21 | the catalog built from the descriptor names satisfies its invariant over exactly those names |
| BlockStates.ParseState | creative_items_generator.py:25-26 | a successful read-back gives a space-free name and a non-negative ordinal |
| BlockStates.ParseStateOfKey | creative_items_generator.py:18-26 | the stored text of a space-free name reads back as that name and ordinal |
| BlockStates.ParseStateOfSpacedName | creative_items_generator.py:25-26 | an example, not a property: the stored text of the name "a b" fails to read back |
| BlockStates.BlockStateMap.GetRuntimeToState | creative_items_generator.py:23-28 | returns ("", 0) for an id at or past the end, and (name, ordinal) of the descriptor for a space-free name |
| BlockStates.BlockStateMap.GetStateToRuntime | creative_items_generator.py:30-34 | returns -1 exactly when no descriptor has that name and ordinal; otherwise an id whose descriptor has them, with no later descriptor that does |
| BlockStates.RuntimeStateRoundTrip | creative_items_generator.py:18-34 | with contiguous, space-free names, the state of runtime id i maps back to i |
| LastWins.Assign | creative_items_generator.py:40-42 | the dictionary filled by assigning the pairs in order holds every key of every pair; AssignLastWins gives its keys and values exactly |
| LastWins.LastIndexOf | creative_items_generator.py:40-42 | the reference for "the last assignment wins": -1 exactly when no pair has the key, otherwise the position of the last pair that has it |
| LastWins.AssignLastWins | creative_items_generator.py:40-42 | a dictionary filled pair by pair has a key exactly when some pair has it, and holds the value of the last such pair |
| LastWins.AssignPrefixStep | creative_items_generator.py:41-42 | one more assignment gives the dictionary of one more pair |
| ItemStates.LoadStep | creative_items_generator.py:40-42 | one pass of the loading loop keeps both dictionaries equal to the in-order assignment of the descriptors loaded so far |
| ItemStates.ItemStateMap.constructor | creative_items_generator.py:37-42 | both dictionaries are the in-order assignments of the given descriptors |
| ItemStates.ItemStateMap.GetRuntimeToState | creative_items_generator.py:44-48 | "" when no descriptor has the runtime id; otherwise the name of the last descriptor that has it |
| ItemStates.ItemStateMap.GetStateToRuntime | creative_items_generator.py:50-54 | 0 when no descriptor has the name; otherwise the runtime id of the last descriptor that has it |
| Wire.ReadByte | creative_items_generator.py:85 | succeeds exactly when a byte remains; the value is the byte at the cursor, and the cursor moves by one |
| Wire.ReadU16LE | creative_items_generator.py:77 | succeeds exactly when two bytes remain; the value is below 65536, and the cursor moves by two |
| Wire.ReadBytes | creative_items_generator.py:80 | succeeds exactly when n bytes remain; gives those bytes, and the cursor moves by n |
| Wire.ReadGroups | creative_items_generator.py:73-78 | a varint read takes at least one byte and no more than its group budget, and its value fits the groups it used |
| Wire.ReadVarInt | creative_items_generator.py:71-80 | an unsigned varint takes one to five bytes, and its value is below 128^5 |
| Wire.ReadSignedVarInt | creative_items_generator.py:75-79 | a signed varint read takes at least one byte and stays within the buffer |
| Wire.ZigZagDecode | creative_items_generator.py:75 | even codes decode to the non-negative numbers and odd ones to the negative, and every code is twice its value, or minus twice it less one |
| Wire.ZigZagEncode | creative_items_generator.py:75 | the ZigZag code of any integer decodes back to it |
| Wire.ZigZagEncodeDecode | creative_items_generator.py:75 | every ZigZag code is the code of its decoding, so the mapping is a bijection |
| Wire.ReadEncodedU16LE | creative_items_generator.py:77 | the encoding of a 16-bit value reads back as that value, two bytes on |
| Wire.ReadEncodedGroups | creative_items_generator.py:73-78 | the shortest varint of a value within the group budget reads back as the value, just past its bytes |
| Wire.ReadEncodedVarInt | creative_items_generator.py:71-80 | an encoded unsigned varint reads back as its value, just past its bytes |
| Wire.ReadEncodedSignedVarInt | creative_items_generator.py:75-79 | an encoded signed varint reads back as its value, just past its bytes |
| Wire.ReadHeldBytes | creative_items_generator.py:80 | a run of bytes at the cursor reads back as itself |
| Wire.Int32FitsVarInt | creative_items_generator.py:75 | every signed 32-bit number has a ZigZag code below 2^32, which a five-group varint can hold |
| Wire.FiveContinuationsOverflow | creative_items_generator.py:71-80 | five bytes with the continuation bit set make the read fail with an overflow, and no sixth byte is read |
| CreativeContent.DecodeAux | creative_items_generator.py:80-88 | the auxiliary buffer reads exactly when it holds a marker and, if the marker is 0xFFFF, a version byte and a readable root tag. NBT is on exactly when the marker is 0xFFFF; the version and tree are then the byte and the tag after it; otherwise the version is 0 and there is no tree |
| CreativeContent.ReadAux | creative_items_generator.py:80-88 | reading the auxiliary buffer with its own cursor gives what DecodeAux describes |
| CreativeContent.DecodeEntry | creative_items_generator.py:74-98 | a decoded entry moves the cursor forward within the buffer, and every item it yields has a nonzero network id, a 16-bit count, and NBT exactly when a tree is present, with version 0 otherwise |
| CreativeContent.ReadEntry | creative_items_generator.py:74-98 | the field-by-field reading of one entry gives what DecodeEntry describes, and the cursor moves past the whole auxiliary buffer |
| CreativeContent.DecodeEntries | creative_items_generator.py:73-98 | n entries yield at most n items, each well formed, and the cursor never moves back |
| CreativeContent.DecodePacket | creative_items_generator.py:70-99 | every item a decoded packet yields is well formed |
| CreativeContent.PacketFromEntries | creative_items_generator.py:71-73 | a proof step of the round trip: the packet's result is that of the entries after the packet id and the count |
| CreativeContent.DecodeCreativeContentPacket | creative_items_generator.py:70-99 | the generator's decoding loop gives exactly the items (or failure) of DecodePacket: the items of the non-empty entries, in stream order |
| CreativeContentEncoding.DecodeEncodedAux | creative_items_generator.py:80-88 | an encoded auxiliary buffer reads back as its payload: no NBT for a marker other than 0xFFFF, otherwise its version and tree, whatever bytes follow the tree |
| CreativeContentEncoding.EntryFromReads | creative_items_generator.py:74-98 | a proof step of the round trip: seven chained reads of a stack entry give its item, ending after the auxiliary buffer |
| CreativeContentEncoding.EmptySlotFromReads | creative_items_generator.py:74-76 | a proof step of the round trip: an entry whose network id reads as 0 yields no item and ends after its two leading varints |
| CreativeContentEncoding.DecodeEncodedStack | creative_items_generator.py:76-98 | an encoded stack decodes to its item, and the cursor moves past the whole auxiliary buffer however much of it the NBT used |
| CreativeContentEncoding.DecodeEncodedEmptySlot | creative_items_generator.py:74-76 | an encoded empty slot yields no item and consumes only its two varints |
| CreativeContentEncoding.DecodeEncodedEntry | creative_items_generator.py:74-98 | every encoded entry decodes to what is expected of it, and the cursor ends just past it |
| CreativeContentEncoding.DecodeEncodedEntries | creative_items_generator.py:73-98 | encoded entries decode, one after the other, to the items of their stacks in order, and the cursor ends just past them |
| CreativeContentEncoding.DecodeEncodedPacket | creative_items_generator.py:70-99 | an encoded packet, followed by any bytes, decodes to the items of its non-empty entries in order, one item per entry with a nonzero network id |
| Assembly.Assemble | creative_items_generator.py:111-125 | the record made of one item has a block state exactly when its network id is below 256; AssembledRecord states every other key |
| Assembly.AssembledRecord | creative_items_generator.py:111-125 | the record's keys: name of the last item descriptor with the network id, or "" without one; metadata exactly when nonzero; NBT exactly when present, as the writer's bytes; a block's state is ("", 0) past the block catalog and the descriptor's name and ordinal for a space-free name. Only a block whose descriptor name has a space can fail |
| Assembly.AssembleRecord | creative_items_generator.py:111-127 | building one record key by key gives what Assemble describes |
| Assembly.AssembleCreativeItems | creative_items_generator.py:110-127 | the assembly loop succeeds exactly when every item's record can be made; it then gives one record per item, in order. Otherwise it fails with the first item's failure |
| Assembly.BlockStateLeadsBack | creative_items_generator.py:120-123 | with contiguous, space-free block names, the block state in a record maps back, through the reverse lookup, to the item's block runtime id |

## Left out

- File I/O and the module-level driver: reading `block_states.nbt`, `item_states.json` and `creative_content.pk`, and writing `creative_items.json` (creative_items_generator.py:56-68, 101-109, 129-131). Catalogs and packet bytes are inputs, and the records are the output.
- JSON parsing and dumping (creative_items_generator.py:66, 130). An item descriptor is the datatype `ItemState`, and a record is the datatype `CreativeItem`, with absent keys as `None`.
- Base64 (creative_items_generator.py:119). A record holds the bytes the NBT writer produces; the base64 text of those bytes is not modelled.
- The NBT codec (`compound_tag.read`, `read_root_tag`, `write_root_tag`, creative_items_generator.py:61, 87, 118). It is not part of this model, so it appears as a reader and a writer passed in as parameters. The block catalog is built from the list of descriptor names; taking the "name" child of each compound (creative_items_generator.py:15) is left to the codec.
- The `binary_stream` class is not part of this model. Each read past the end of the buffer is an `OutOfBounds` failure that aborts the decode. Varints are read as at most five 7-bit groups, and the value is not masked to 32 bits. More than five groups is a `VarIntOverflow` failure.
- The position the NBT reader reaches inside the auxiliary buffer (creative_items_generator.py:88) is tracked in `ReadAux` but affects nothing, as in the source. The can-place and can-break lists that may follow (the Todo at creative_items_generator.py:89) are not read.
- The diagnostic `print` for non-block items with a nonzero block runtime id (creative_items_generator.py:124-126). It is a side effect only.
- Bytes are a `newtype byte` over 0..255, not the `bv8` bit-vector type. Every operation on them is arithmetic.
- Negative block runtime ids: the block-catalog lookup takes a `nat`, and `Assembly.Assemblable` requires a block's runtime id to be non-negative. Python's negative list indexing (creative_items_generator.py:24-25) is not modelled.
- `int()` also accepts signs, underscores, surrounding whitespace and non-ASCII decimal digits such as `"٣"` (creative_items_generator.py:26). `Text.ParseNat` accepts plain digits only. Stored ordinals are always non-negative decimals, so this matters only for names containing spaces.
- BlockStates.BlockStateMap.GetRuntimeToState: where Python would raise on a stored name containing a space, the model returns `Err(MalformedState)`. Its contract says nothing about such names beyond `ParseStateOfSpacedName`, which exhibits one that fails, and `Assembly.AssembledRecord`, which says that only such names can fail.
- Empty slots: the decoder appends nothing for an entry with network id 0 (creative_items_generator.py:76), so the assembly never sees one. The model does the same.
- CreativeContentEncoding.DecodeEncodedPacket: the round-trip holds for entries whose fields fit their wire forms (`Encodable`), and for a codec whose reader reads back what its writer wrote (`ReadsWritten`).
