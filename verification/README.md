# Chowder, modelled and proved in Dafny

Chowder is a Minecraft 1.15 server written in C. This project models the parts
of it that are hardest to get right and proves what they are for:

- **Packet schemas.** `packet-auto-gen` turns a schema into a writer and a
  reader. `Schema` gives both emitted programs a meaning over bytes: structs,
  counted and bit-counted arrays, tagged unions, enums, conditional fields and
  length-prefixed sub-buffers, each field in the environment of those before
  it. `SchemaRoundTrip` proves that the reader inverts the writer. The reader
  never looks at conditions, so `SchemaSkips` says exactly which values survive;
  `SchemaWitnesses` shows by values that what it asks for is needed, and
  `SchemaConds` what conditions that hold, or none, amount to.
  `SchemaRefusals` says which values the writer refuses, and with which error.
  `SchemaCodec` holds the two emitted programs with their loops and indexes, the
  writer on a `Packet` that can overflow.
  `Protocol` applies all this to `update_light` and `chunk_data`, `PlayerInfo` to
  `player_info` and `JoinGame` to `join_game`; `PacketBytes` and `FieldBytes` write the
  packets and their fields out as bytes.
- **NBT.** `Nbt` specifies the printer, the parser and the length pass over
  trees and proves the round trip; `NbtCodec` holds their loops over buffers, and
  `NbtBytes` writes a document out as bytes.
- **Views and player counts.** `Views` is the state machine in which many
  connections share chunks; `Server` runs it over `World`, the two-level chunk
  index, with the nested loops of joining, updating and leaving. The player
  counts are exact in a run if and only if no connection crosses a chunk border
  twice between two updates, leaves with an update pending or is given up after an
  error. `Ticks` joins this with the connection loop, in which every connection is
  updated right after its own packets.
- **Chunk index.** `HashMap` is the open-addressing table with its resizes and
  tombstones, `Coords` the coordinate arithmetic and the printed region keys.
  `World` refines one flat map from chunk coordinates to chunks.
- **Block storage.** `Section` packs 4096 cells of 4 to 8 bits into 64-bit
  words; in `SectionNumber` they are the digits of one number. `ChunkPacket`
  counts blocks in them and fills light masks and section masks.
- **JSON.** `Json` is a parser over an unchanging text, `JsonParser` the one of
  the source, which unescapes strings inside the text it is still parsing;
  they agree on every text. `JsonSyntax` says which texts are accepted, by the
  grammar of RFC 8259 as trees that record white space and spelling, and `JsonErrors`
  what each error says of a text.
- **Packets.** `Packet` is the growing buffer with its VarInts, framing and
  header reader; `Transfer` says which runs of writes report success, which of their
  bytes are placed and which packets arrive; `Bytes` holds the VarInt itself.
- **Lists and block keys.** `LinkedList` is the list that ends in an empty node,
  with the tick loop that removes while walking; `BlockKeys` shows that block
  lookup does not depend on the order of properties.

Code that changes state step by step is modelled by classes and by methods with
loops, each proved against a function or a map; what is promised of it is proved
about that function. Readers are specified in suffix style: they take the
remaining input and return what is left of it. The hash function, `qsort` and
`atof` stay uninterpreted. The region files are a total function: a chunk that
is not loaded can be loaded.

Where code and intention part, the model follows the code. One member or more says
exactly when they agree, and others, after the semicolon, give inputs at which they
do not:

- an overwritten old chunk: `Views.MoveKeepsIff`, `Views.LeaveKeepsIff` and
  `Views.RunExactIff`; `Views.CrossingTwice`, `Views.LeavingWhilePending`;
- skipped fields: `SchemaSkips.SurvivesIffTransparent` and
  `PlayerInfo.PlayerInfoSurvivesIff`; `PlayerInfo.ServerPacketSurvivesIff`;
- a section mask that starts one section later than the section list:
  `ChunkPacket.SentMatchesMaskIff`; `ChunkPacket.SectionZeroShiftsTheList`;
- a 256-byte buffer: `BlockKeys.KeysAgreeIff`; `BlockKeys.LongKeyIsCut`;
- ids written in one byte: `Packet.IdReadBackIff`; `Packet.IdLost`;
- removals that leave no free slot: `HashMap.HashMap.AddWithoutResize`;
  `HashMap.AddRemoveAdd`;
- departures from RFC 8259: `JsonSyntax.StandardParsesIff`; the lemmas after it;
- an error added to a byte count: `Packet.StringResultTellsIff`; `Packet.StringLost`;
- bytes dropped without a report: `Transfer.AcceptedIff`; `Transfer.HalfLost` and
  `SchemaCodec.LoseArray`;
- a body moved before its buffer grows: `Transfer.PastBufferIff`;
  `Transfer.OneByteShort`;
- several crossings in one tick: `Ticks.TicksExactIff`; `Ticks.TwiceAcross`, and
  `Ticks.ThereAndBack` for three that do no harm;
- a connection given up after an error: `Views.DropBreaks`; `Views.GivenUp`.

## Model

| member | source | states |
|---|---|---|
| `Bytes.VarIntRoundTrip` | src/packet.c:43-57 | For every 32-bit value and every suffix, reading the written bytes gives back the value, the number of bytes (1 to 5, and no fewer would do) and the untouched suffix. |
| `Bytes.VarIntLength` | src/packet.c:344-358 | The encoding of a value takes at most n bytes if and only if the value needs at most n groups of seven bits. |
| `Bytes.VarIntPrefixFree` | src/packet.c:344-358 | No encoding is a prefix of the encoding of another value. |
| `Bytes.ReadVarIntConsumes` | src/packet.c:43-57 | A successful read of any input, padded encodings included, takes at most 5 bytes, at least as many as the minimal encoding of its result, and leaves exactly the rest. |
| `Bytes.VarIntGroup` | src/packet.c:344-358 | Byte k of an encoding holds the digit of weight 128^k, plus 128 when another byte follows. |
| `Bytes.ReadVarIntIsSum` | src/packet.c:43-57 | A read ends at the first byte below 128, one of the first five, and returns the sum of the seven-bit groups modulo 2^32. |
| `Bytes.ReadVarIntEnds` | src/packet.c:43-57 | It comes to an early end exactly on at most five bytes that all go on, and returns what they hold; it is too long exactly when the first five of more bytes go on. |
| `Bytes.BigEndianRoundTrip` | libs/nbt/nbt.c:106-131 | A word of any width is read back from its bytes; BigEndianDigit and FromBigEndianIsSum say in which order they are. |
| `Bytes.BigEndianDigit` | libs/nbt/nbt.c:415-434 | Byte i of a written word of w bytes is its digit of weight 256^(w-1-i): the most significant byte comes first. |
| `Bytes.FromBigEndianIsSum` | libs/nbt/nbt.c:106-131 | A word is read as the sum of its bytes, the first with the highest power of 256. |
| `Nbt.LengthPassAgrees` | libs/nbt/nbt.c:357-388 | For every tree the length pass computes the number of bytes the pack pass writes. |
| `Nbt.ItemsLengthAgrees` | libs/nbt/nbt.c:344-353 | For the elements of a list the length pass sums up the bytes the pack pass writes. |
| `Nbt.ChildrenLengthAgrees` | libs/nbt/nbt.c:390-403 | For the children of a compound and its end tag the length pass computes the bytes the pack pass writes. |
| `Nbt.ChildLengthAgrees` | libs/nbt/nbt.c:394-400 | For one named child the length pass computes the bytes the pack pass writes. |
| `Nbt.StringReadsBack` | libs/nbt/nbt.c:133-153 | A packed string is read back, a NULL string as NULL, and the bytes after it are left. |
| `Nbt.ArrayReadsBack` | libs/nbt/nbt.c:189-233 | A packed byte, int or long array is read back element by element. |
| `Nbt.DataRoundTrip` | libs/nbt/nbt.c:237-298 | For every tree in the domain and every non-empty rest, unpacking the packed payload gives the same tree and leaves the rest. |
| `Nbt.ItemsRoundTrip` | libs/nbt/nbt.c:157-187 | The packed elements of a list, all read with the tag of the list, give the same elements and leave the rest. |
| `Nbt.ChildrenRoundTrip` | libs/nbt/nbt.c:300-322 | The packed children of a compound are read back up to and including the end tag, and the rest is left. |
| `Nbt.ChildRoundTrip` | libs/nbt/nbt.c:306-315 | A packed child is read back: tag, name and payload. |
| `Nbt.RootRoundTrip` | libs/nbt/nbt.c:324-340 | Unpacking a packed root followed by any rest gives the same tree and stops at the rest; a root that is not a compound comes back as the only child of an unnamed compound. |
| `Nbt.CompoundRoundTrip` | libs/nbt/nbt.c:324-340 | The round trip of a compound root with or without a name. |
| `Nbt.PackRootAsCompound` | libs/nbt/nbt.c:569-601 | Both branches of the packer write a compound, the second one an unnamed compound with one child. |
| `Nbt.DomainIsMeasurable` | libs/nbt/nbt.c:357-403 | Every tree of the round-trip domain has the strings the length pass takes the length of. |
| `NbtCodec.MeasureData` | libs/nbt/nbt.c:357-388 | The length pass over a payload, loops included, computes the specified length. |
| `NbtCodec.MeasureChildren` | libs/nbt/nbt.c:390-403 | The loop over children sums their lengths and the end tag. |
| `NbtCodec.WriteString` | libs/nbt/nbt.c:450-468 | Appends length and characters of a string to what the buffer holds and says how many bytes that took. |
| `NbtCodec.WriteArray` | libs/nbt/nbt.c:470-513 | Appends an array of any element width, element by element. |
| `NbtCodec.WriteData` | libs/nbt/nbt.c:517-548 | Fills the buffer behind what it holds with exactly the packed payload and leaves what precedes it. |
| `NbtCodec.WriteList` | libs/nbt/nbt.c:482-495 | Fills the buffer with exactly the packed list: tag, count and elements. |
| `NbtCodec.WriteChildren` | libs/nbt/nbt.c:550-567 | Fills the buffer with exactly the packed children of a compound and the end tag. |
| `NbtCodec.WriteChild` | libs/nbt/nbt.c:556-560 | Fills the buffer with exactly one packed child. |
| `NbtCodec.Pack` | libs/nbt/nbt.c:569-601 | Allocates what the length pass says and fills it exactly with the packed root, for both kinds of root: no write leaves the buffer and the final assertion holds. The bytes themselves are those of NbtBytes.DocumentPacks. |
| `NbtCodec.PackCompound` | libs/nbt/nbt.c:573-580 | The branch for compound roots. |
| `NbtCodec.PackWrapped` | libs/nbt/nbt.c:581-597 | The branch that wraps any other root. |
| `NbtCodec.ReadString` | libs/nbt/nbt.c:133-153 | The index-based string reader computes the parse of the input from its index on. |
| `NbtCodec.ReadArray` | libs/nbt/nbt.c:189-233 | The index-based array reader, swapping each element, computes the parse of the input from its index on. |
| `NbtCodec.ReadData` | libs/nbt/nbt.c:237-298 | The index-based reader of a payload of any tag computes the parse of the input from its index on. |
| `NbtCodec.ReadList` | libs/nbt/nbt.c:157-187 | The loop that appends list elements one by one computes the parse of the list. |
| `NbtCodec.ReadChildren` | libs/nbt/nbt.c:300-322 | The loop that appends children up to the end tag computes the parse of the compound. |
| `NbtCodec.Unpack` | libs/nbt/nbt.c:324-340 | The imperative reader returns the specified tree and index. |
| `NbtCodec.PackThenUnpack` | libs/nbt/nbt.c:569-601 | Packing and then unpacking gives back the tree and reports exactly the packed length. |
| `NbtBytes.DocumentPacks` | libs/nbt/nbt.c:517-601 | A document with one node of each of the twelve kinds, byte by byte: tag, name length, name and data of each child, and the end tag. |
| `NbtBytes.DocumentReadsBack` | libs/nbt/nbt.c:237-340 | Those bytes are read as that document. |
| `NbtBytes.ChildrenJoined` | libs/nbt/nbt.c:550-567 | The children of any compound are packed one after the other, then comes the end tag. |
| `NbtBytes.WrappedBytes` | libs/nbt/nbt.c:581-597 | A root that is no compound is packed, byte by byte, as the only child of an unnamed compound. |
| `NbtBytes.HeightmapsPack` | src/server.c:233-242 | The height maps the server sends, 36 longs named MOTION_BLOCKING in an unnamed compound, byte by byte. |
| `Schema.CountBits` | utils/packet-auto-gen/gen.c:334-349 | The emitted bit-count loop computes the number of set bits of the 64-bit copy of the mask. |
| `Schema.CaseFrom` | utils/packet-auto-gen/gen.c:441-472 | The case the emitted switch takes has the tag as its value, and when none is taken no enumerator has it. |
| `SchemaRefusals.WrittenIffAdmitted` | utils/packet-auto-gen/gen.c:408-430 | For every type, environment and value, however strings are nested in structs, arrays, unions and typed byte arrays: the emitted writer writes the value if and only if each string it comes to has at most its maximum of characters and, in a string enum, is one of the constants. |
| `SchemaRefusals.RefusedIffFaulty` | utils/packet-auto-gen/gen.c:474-488 | It is refused with an error if and only if that is the fault of the first string in the order of writing that is not admitted: a foreign constant, or else one that is too long. |
| `SchemaRefusals.ElemsIffAdmitted` | utils/packet-auto-gen/gen.c:363-378 | An array is written if and only if each of its elements is. |
| `SchemaRefusals.ElemsIffFaulty` | utils/packet-auto-gen/gen.c:363-378 | The error of an array is that of its first refused element. |
| `SchemaRefusals.FieldsIffAdmitted` | utils/packet-auto-gen/gen.c:598-604 | A struct is written if and only if each of its fields whose condition holds is. |
| `SchemaRefusals.FieldsIffFaulty` | utils/packet-auto-gen/gen.c:598-604 | The error of a struct is that of its first refused field. |
| `SchemaRefusals.PlainConstants` | utils/packet-auto-gen/gen.c:441-472 | Enumerators without values are numbered from 0. |
| `SchemaRefusals.ConstantsAfter` | utils/packet-auto-gen/gen.c:441-472 | After one with a value they are numbered on from it. |
| `FieldBytes.PrimRanges` | utils/packet-auto-gen/gen.c:264-297 | The values of each kind of number, by the width and the sign of its C type. |
| `FieldBytes.PrimBytes` | src/packet.c:310-404 | The bytes of each kind of number, negative ones as two's complement. |
| `FieldBytes.StringLimit` | utils/packet-auto-gen/gen.c:708-724 | A written string is read if and only if it is no longer than the reader allows, and then with what follows it left. |
| `FieldBytes.SlotBytes` | src/packet.c:415-441 | The bytes of an empty slot and of 64 items without NBT. |
| `FieldBytes.SlotsReadBack` | utils/packet-auto-gen/gen.c:759-775 | They are read back, the second with an empty compound. |
| `FieldBytes.UuidBytes` | utils/packet-auto-gen/gen.c:501-506 | A UUID is the next 16 bytes, if there are as many. |
| `FieldBytes.NumbersAtEnd` | src/packet.c:101-140 | At the end of the packet a byte is 0 and a VarInt what its groups add up to; a wider number has no value. |
| `FieldBytes.SlotAtEnd` | utils/packet-auto-gen/gen.c:759-775 | A slot cut off keeps the zeros it was allocated with. |
| `SchemaRoundTrip.PrimReadsBack` | utils/packet-auto-gen/gen.c:264-297 | Every number of every primitive type, signed ones included, is read back from what was written. |
| `SchemaRoundTrip.StringReadsBack` | utils/packet-auto-gen/gen.c:708-724 | A string within its maximum is read back. |
| `SchemaRoundTrip.SlotReadsBack` | utils/packet-auto-gen/gen.c:759-775 | A slot is read back; one without NBT comes back with an empty compound. |
| `SchemaRoundTrip.TypeRoundTrip` | utils/packet-auto-gen/gen.c:777-840 | For every well-formed type, every environment of earlier fields, every conforming value whose skipped fields need no bytes and every suffix: the emitted reader applied to the bytes of the emitted writer returns the value left in the struct and stops at the suffix. |
| `SchemaRoundTrip.BranchRoundTrip` | utils/packet-auto-gen/gen.c:726-745 | The field a union tag selects is read back from what was written for it. |
| `SchemaRoundTrip.ElemsRoundTrip` | utils/packet-auto-gen/gen.c:625-644 | An array of any count, counted, fixed or bit-counted, is read back element by element. |
| `SchemaRoundTrip.FieldsRoundTrip` | utils/packet-auto-gen/gen.c:842-848 | The fields of a struct, each in the environment of those before it, are read back and the suffix is left. |
| `SchemaRoundTrip.FieldRoundTrip` | utils/packet-auto-gen/gen.c:533-596 | One field, written or skipped, is read back. |
| `SchemaRoundTrip.BufferRoundTrip` | utils/packet-auto-gen/gen.c:646-681 | A typed byte array and the rewritten length field before it are read back: the sub-reader sees exactly the bytes of the sub-buffer. |
| `SchemaRoundTrip.BodyRoundTrip` | utils/packet-auto-gen/gen.c:380-406 | What a sub-buffer holds is read back and fills it. |
| `SchemaRoundTrip.SkippedReadsNothing` | utils/packet-auto-gen/gen.c:777-840 | A value that takes no bytes is read as itself. |
| `SchemaSkips.SurvivesIffTransparent` | utils/packet-auto-gen/gen.c:535-540 | The reader ignores conditions and the writer honours them: for a schema without NBT and slots, no condition inside a typed byte array and no skipped typed byte array of negative length, a packet that something follows is read back if and only if every field the writer skipped needs no bytes. |
| `SchemaSkips.ReadConsumes` | utils/packet-auto-gen/gen.c:777-840 | Whatever the reader returns, either it has come to the end of the packet or it took at least the least number of bytes from which that value is read. |
| `SchemaSkips.WriteWithin` | utils/packet-auto-gen/gen.c:533-596 | Whatever the writer emits is no more than the least number of bytes from which the value it leaves is read, and strictly less exactly when a skipped field needs bytes. |
| `SchemaWitnesses.EndHidesASkip` | src/packet.c:101-112 | Nothing following, the "only if" fails: a byte is read as 0 at the end of the packet, so a value with a skipped zero byte survives. |
| `SchemaWitnesses.BufferHidesASkip` | utils/packet-auto-gen/gen.c:646-681 | With a condition inside a typed byte array it fails whatever follows, because the array has an end of its own. |
| `SchemaWitnesses.NegativeLengthHidesASkip` | utils/packet-auto-gen/gen.c:649-661 | With a skipped typed byte array of length -1 it fails, because the index goes back by one. |
| `SchemaWitnesses.NbtHidesASkip` | utils/packet-auto-gen/gen.c:535-540 | With NBT it fails, because the header of an unnamed root is read for the skipped bytes. |
| `SchemaConds.CondsHoldTransparent` | utils/packet-auto-gen/gen.c:535-540 | A value all of whose conditions hold, at any depth, is one nothing of which is skipped. |
| `SchemaCodec.Sink.Put` | src/packet.c:310-378 | One write into the packet being emitted: while all that was asked for fits, the packet holds exactly that, and a negative result means that something does not fit. |
| `SchemaCodec.Sink.PutUnchecked` | utils/packet-auto-gen/gen.c:395-405 | A plain byte array that does not fit is left out whole and no error returned. |
| `SchemaCodec.EmitType` | utils/packet-auto-gen/gen.c:533-596 | The emitted writer for a type on a packet of limited length: if what is asked for fits, it writes the specified bytes behind what is there and leaves the specified value, or returns the specified error, which SchemaRefusals.RefusedIffFaulty pins down; if not, more was asked for than fits. |
| `SchemaCodec.EmitElems` | utils/packet-auto-gen/gen.c:363-378 | The emitted loop over an array, element by element. |
| `SchemaCodec.EmitFields` | utils/packet-auto-gen/gen.c:598-604 | The fields of a struct one after the other, each seeing those before it. |
| `SchemaCodec.EmitField` | utils/packet-auto-gen/gen.c:533-596 | One field with its condition. |
| `SchemaCodec.EmitBuffer` | utils/packet-auto-gen/gen.c:380-394 | A typed byte array fills a packet of its own, whose length goes into the length field; an overflow of that packet is one of the outer packet. |
| `SchemaCodec.EmitPacket` | utils/packet-auto-gen/gen.c:606-620 | The emitted function for a packet: if id and fields fit, the packet holds exactly their bytes and success is reported; the packet is complete if and only if they fit, whatever is reported. |
| `SchemaCodec.LoseArray` | utils/packet-auto-gen/gen.c:395-405 | A packet with one byte array too long for it holds only its id. |
| `SchemaCodec.CheckConstant` | utils/packet-auto-gen/gen.c:408-430 | The emitted search through the constants of a string enum finds exactly those. |
| `SchemaCodec.CountNow` | utils/packet-auto-gen/gen.c:351-378 | The bound of an array loop, by the emitted bit-count loop where it is a mask. |
| `SchemaCodec.TakeType` | utils/packet-auto-gen/gen.c:777-840 | The emitted reader for a type, advancing its index, returns the specified value and stops where the specification does, also at the end of the packet, where bytes are 0 and strings empty. |
| `SchemaCodec.TakeElems` | utils/packet-auto-gen/gen.c:625-644 | The emitted loop over an array reads as many elements as counted and stops where the specification does. |
| `SchemaCodec.TakeFields` | utils/packet-auto-gen/gen.c:842-848 | Reads the fields of a struct one after the other, each in the environment of those before it, and stops where the specification does. |
| `SchemaCodec.TakeField` | utils/packet-auto-gen/gen.c:777-848 | One field, its condition not looked at, is read as specified. |
| `SchemaCodec.TakeBuffer` | utils/packet-auto-gen/gen.c:646-681 | A typed byte array is read from a packet of its own; the index then moves by the length field, back if that is negative. |
| `SchemaCodec.Source.TakePrim` | utils/packet-auto-gen/gen.c:683-695 | A primitive is taken from the index on; at the end of the packet a byte is 0 and a VarInt what could be read of it. |
| `SchemaCodec.Source.TakeSlot` | utils/packet-auto-gen/gen.c:759-775 | A slot, its NBT by the NBT reader. |
| `SchemaCodec.WriteThenRead` | utils/packet-auto-gen/gen.c:606-623 | What the one program wrote the other reads, for every packet that fits: success is reported, the value left in the struct comes back and every byte is used. |
| `Protocol.PlainRoundTrip` | utils/packet-auto-gen/gen.c:598-604 | For every schema without conditions, strings, unions, slots, NBT and typed buffers the writer never refuses a conforming value and the reader returns exactly it. |
| `Protocol.UpdateLightRoundTrip` | protocol/update_light.packet:3-16 | The light packet the server fills for any chunk is written without error and read back as it was; which field is what is said by PacketBytes.FillLight. |
| `Protocol.ChunkDataRoundTrip` | protocol/chunk_data.packet:3-19 | Every conforming chunk packet with full_chunk set, as the server sends it, is read back. |
| `Protocol.ChunkDataWellFormed` | protocol/chunk_data.packet:3-19 | The chunk packet is one of the schemas the round trip covers: its typed buffer follows its length field. |
| `PacketBytes.UpdateLightBytes` | protocol/update_light.packet:3-16 | The light packet of any chunk byte by byte: x, z, sky mask, block mask, empty sky mask and empty block mask as VarInts, then the sky arrays and the block arrays, each array with its length before it. |
| `PacketBytes.FillLight` | src/server.c:551-556 | For any coordinates and sections the filled packet is written without error, and of the fields that are read back 0 is x, 1 is z, 2 and 3 have a bit for exactly the sections with sky and block light, 4 and 5 for the others of the 18, and 6 and 7 hold the light of those sections in order. |
| `PacketBytes.ChunkDataBytes` | protocol/chunk_data.packet:3-19 | The chunk packet the server fills, byte by byte: x and z in four bytes each, full_chunk set, the mask, the height maps, 1024 biomes, the byte length of the sections, the sections and no block entities; what is left in the struct is the same with the length set. |
| `PacketBytes.SectionBytes` | protocol/chunk_data.packet:11-16 | A section byte by byte: block count, bits per block, the palette and the packed words, each with its length before it. |
| `PacketBytes.FilledChunkReadsBack` | src/server.c:561-566 | With numbers that fit and as many sections as the mask has bits it is read back field by field as it was filled, the length field set. |
| `JoinGame.Writes` | protocol/join_game.packet:3-23 | Any join_game packet with a declared level type is written, its fields in their order. |
| `JoinGame.Refuses` | utils/packet-auto-gen/test/string_enum.c:12-27 | Any other is refused for its level type. |
| `JoinGame.ReadsBack` | protocol/join_game.packet:3-23 | What was written is read back as it was. |
| `JoinGame.Dimensions` | protocol/join_game.packet:5-9 | The enumerators of the dimension are -1, 0 and 1. |
| `JoinGame.ServerJoin` | src/server.c:155-164 | The packet the server sends a player, with level type "default": its bytes one by one, and that they are read back. |
| `PlayerInfo.PlayerInfoSurvivesIff` | protocol/player_info.packet:3-36 | A conforming player_info packet that something follows is read back if and only if, where its action adds players, every property is signed, and no display name is left in a field the writer skips. |
| `PlayerInfo.ServerPacketSurvivesIff` | src/server.c:318-337 | The packet with which the server announces a player, for every uuid, name and property, its property unsigned, is written without error and read back if and only if nothing follows it and the signature, whose pointer is never set, happens to be empty. |
| `PlayerInfo.PropertyTransparentIff` | protocol/player_info.packet:17-22 | Nothing the reader needs bytes for is skipped in a property exactly when it is signed. |
| `PlayerInfo.AddTransparentIff` | protocol/player_info.packet:14-27 | Nothing the reader needs bytes for is skipped in an added player exactly when all its properties are signed and it has no display name. |
| `PlayerInfo.UnionTransparentIff` | protocol/player_info.packet:13-35 | The same for the union, according to the action, which stands outside the array the union is in. |
| `PlayerInfo.InfoShape` | protocol/player_info.packet:3-36 | The packet is well-formed and has neither NBT nor typed byte arrays, so that the equivalence applies to it. |
| `Section.PosInBounds` | libs/anvil/section.c:22-40 | No cell of any width from 4 to 8 touches a word at or beyond 64 * width, and it touches two words exactly when it does not fit in the first. |
| `Section.ReadBits` | libs/anvil/section.c:45-54 | Reading a cell reads its own bits of the bit string, also across two words. |
| `Section.WriteBits` | libs/anvil/section.c:56-65 | Writing a cell ORs the low bits of the value into its bits and changes no other bit of the section. |
| `Section.WriteThenRead` | libs/anvil/section.c:45-65 | After a write the cell reads old OR value, and every other cell reads as before. |
| `Section.WriteRefines` | libs/anvil/section.c:56-65 | A write to the packed words is the write to the plain array of 4096 cells. |
| `Section.FillReadsBack` | libs/anvil/section.c:45-65 | Filling a zeroed section with palette indices, each cell at most once and in any order, reads back exactly those indices, and zero elsewhere. |
| `Section.MaskedInt` | libs/anvil/section.c:6-13 | A palette index below 2^width passes the mask unchanged. |
| `SectionNumber.CellIsDigit` | libs/anvil/section.c:45-54 | The words of a section are one number, the first word the lowest; cell k is its digit of weight 2^(bits * k). |
| `SectionNumber.Neighbours` | libs/anvil/section.c:28 | The neighbour of a block to the east is in the next cell, the one to the south 16 cells on, the one above 256 cells on. |
| `SectionNumber.IndexInSection` | libs/anvil/section.c:24-26 | A block of the world is found by its place in its section. |
| `Section.Section.constructor` | libs/anvil/section.c:22-40 | A zeroed section of a width stands for 4096 zero cells. |
| `Section.Section.ReadBlockstateAt` | libs/anvil/section.c:45-54 | Returns the cell of the plain array at the index of the coordinates. |
| `Section.Section.WriteBlockstateAt` | libs/anvil/section.c:56-65 | Updates exactly that cell of the plain array. |
| `HashMap.FreeSlotExists` | libs/hashmap/hashmap.c:81-107 | A table without tombstones that is not completely full has an empty entry, wherever the load came from. |
| `HashMap.InsertStores` | libs/hashmap/hashmap.c:87-106 | Putting a new key into the first empty entry of its probe path keeps every path from a home slot to its slot free of empty entries. |
| `HashMap.RemoveStores` | libs/hashmap/hashmap.c:148-161 | Marking one key removed keeps the paths of all others. |
| `HashMap.AbsentKey` | libs/hashmap/hashmap.c:109-136 | A probe that meets an empty entry, or comes around, has shown the key absent. |
| `HashMap.HashMap.constructor` | libs/hashmap/hashmap.c:23-30 | An empty table of the given size stands for the empty map. |
| `HashMap.HashMap.Add` | libs/hashmap/hashmap.c:81-107 | For a key not yet present, including any resize first, the map gains exactly that pair and the assertions of the source hold. |
| `HashMap.HashMap.Resize` | libs/hashmap/hashmap.c:59-74 | Doubles the table and keeps the map; re-adding never resizes again. |
| `HashMap.HashMap.Probe` | libs/hashmap/hashmap.c:87-99 | On any table, tombstones and full ones included, the two probe loops end at an empty entry if and only if there is one; then it is the first of the probe path. |
| `HashMap.HashMap.AddWithoutResize` | libs/hashmap/hashmap.c:87-106 | For a key not yet present the assertions of the source hold if and only if the table has a free slot; then the map gains exactly that pair, otherwise nothing changes. |
| `HashMap.HashMap.GetIndex` | libs/hashmap/hashmap.c:109-136 | Finds the slot of a present key and returns the table length for an absent one, also on a completely full table. |
| `HashMap.HashMap.Get` | libs/hashmap/hashmap.c:138-146 | Returns what the plain map holds for every key. |
| `HashMap.HashMap.Remove` | libs/hashmap/hashmap.c:148-161 | Hides that key, returns its value and leaves every other lookup unchanged. |
| `HashMap.AddAllThenGet` | libs/hashmap/hashmap.c:81-146 | Over any sequence of adds with distinct keys, from any initial size of at least 1, a lookup returns what a plain map returns. |
| `HashMap.AddRemoveAdd` | libs/hashmap/hashmap.c:81-161 | A run that comes to a failing assertion: a table for one element, one key added and removed, another added. |
| `Coords.ScaleIsFloor` | libs/mc/mc.c:3-21 | The two branches of scale are one floor division, negative coordinates included. |
| `Coords.ChunkShift` | src/server.c:239-246 | The corners the join loop computes are the corners of the view around the spawn chunk. |
| `Coords.SlotDeterminesChunk` | libs/anvil/region.c:8-54 | The region and the mirrored slot of a chunk coordinate determine it. |
| `Coords.SlotMirrored` | libs/anvil/region.c:8-54 | Slots count up from the border of the region that is nearer to zero: n and -1-n have slot n mod 32. |
| `Coords.DigitsEnough` | src/world.c:92-111 | The buffer computed from digits always holds the printed number. |
| `Coords.DigitsAre` | src/world.c:92-103 | The loop counts the characters of the printed number, and one more for every multiple of ten but zero. |
| `Coords.CountDigits` | src/world.c:92-101 | The counting loop computes the specified number, for negative numbers with division toward zero. |
| `Coords.RegionStringInjective` | src/world.c:105-111 | Different regions have different keys. |
| `Coords.DecNatIsDecimal` | src/world.c:105-111 | A number is printed in decimal digits without a leading zero. |
| `Coords.RegionStringOf` | src/world.c:105-111 | The key of the region at -1 and 10 is "-1,10". |
| `World.IndexInjective` | src/world.c:165-176 | Two chunks with the same key and the same slot are the same chunk. |
| `World.World.constructor` | src/world.c:24-32 | A new world has no chunk loaded. |
| `World.World.RegionAt` | src/world.c:119-125 | Looks the region up under its printed coordinates. |
| `World.World.ChunkAt` | src/world.c:165-176 | Returns what the flat map holds for the global coordinates, negatives included. |
| `World.World.SetChunk` | libs/anvil/region.c:38-45 | Storing through the two levels changes the flat map at those coordinates and nowhere else. |
| `World.World.AddRegion` | src/world.c:113-117 | Adding a region changes no chunk. |
| `World.World.LoadChunk` | src/world.c:134-160 | One iteration of the load loop brings a missing chunk in with no players and leaves every other chunk. |
| `World.World.LoadChunks` | src/world.c:127-163 | Afterwards every chunk of the view is loaded, the ones that were missing with no players, and nothing else has changed. |
| `World.World.IncPlayers` | src/server.c:249-252 | Adds one to the count of a loaded chunk. |
| `World.World.DecPlayers` | src/world.c:178-196 | Takes one from the count and drops the chunk at zero. |
| `Views.JoinKeeps` | src/server.c:244-287 | A join keeps all player counts and client views exact. |
| `Views.UpdateKeeps` | src/server.c:544-598 | A view update over overlapping squares keeps all player counts and client views exact. |
| `Views.LeaveKeeps` | src/server.c:369-381 | Leaving by the view one is counted in keeps them exact. |
| `Views.MoveKeepsIff` | src/conn.c:130-143 | A move keeps them if and only if it is not a second crossing before the view was updated, because the recorded old chunk is overwritten. |
| `Views.LeaveKeepsIff` | src/server.c:369-381 | Leaving by the current position keeps them if and only if no request is pending. |
| `Views.DropBreaks` | src/main.c:125-129 | A connection removed after an error, without server_end_play, never leaves the counts exact. |
| `Views.StepKeepsIff` | src/server.c:369-600 | Any step keeps them if and only if it is in the domain. |
| `Views.RunKeepsPending` | src/server.c:488-491 | In every run at all a pending request means the current chunk differs from the recorded one, so the assertion never fails. |
| `Views.RunExactIff` | src/server.c:244-600 | For every run of join, move, update and leave steps by any number of connections: counts, loaded chunks and client views are exact after every step if and only if every step is in the domain. |
| `Views.CrossingTwice` | src/conn.c:130-143 | A run from the empty server that leaves the domain: one player joins and crosses two chunk borders before an update; the counts are wrong. |
| `Views.LeavingWhilePending` | src/server.c:369-381 | Another: one player joins, crosses a border and leaves; a chunk stays loaded for nobody. |
| `Views.GivenUp` | src/main.c:125-129 | A third: one player joins and its connection is given up; the chunk stays loaded for nobody. |
| `Views.ExactMeans` | src/server.c:244-600 | Then a chunk is loaded exactly when some counted view contains it, no chunk of a live view has been freed, and a client without a pending request holds exactly the chunks of its current view, each once. |
| `Views.ChunkIsInterval` | libs/mc/mc.c:3-21 | The chunk of a position: c > 0 has the positions from 16c up to 16c + 16, chunk 0 those between -1 and 16, and c < 0 those above 16c - 1 up to 16c + 15, because a double is converted to int toward zero. |
| `Views.MoveRequests` | src/conn.c:130-143 | A move makes a request, from the chunk it began in, if and only if it leaves the interval of that chunk on one axis; otherwise a request stays as it was. |
| `Views.AcrossZero` | src/conn.c:130-143 | From 0.5 to -0.5 makes no request, from 0.5 to -1 one from chunk 0. |
| `Views.ViewAround` | src/view.h:12-18 | The view of a player in a chunk is the square of the view distance around that chunk, borders included. |
| `Views.JoinSends` | src/server.c:239-287 | A join sends each chunk that is at most the view distance from the one of the spawn once and counts it once more, and no other. |
| `Server.SendJoinView` | src/server.c:239-287 | The join loop by rows counts and sends every loaded chunk of the view once. |
| `Server.SendNewChunks` | src/server.c:544-577 | The first update loop counts and sends exactly the chunks that came into view. |
| `Server.DropOldChunks` | src/server.c:584-597 | The second update loop releases exactly the chunks that left the view and sends exactly one unload packet for each of them. |
| `Server.JoinComplete` | src/server.c:197-287 | Loading and the join loop together are the join step. |
| `Server.UpdateComplete` | src/server.c:507-597 | Loading and both update loops together are the update step. |
| `Server.StepPerforms` | src/server.c:369-600 | Every step keeps the assertion, and keeps the counts exact just when it is in the domain. |
| `Server.Server.Join` | src/server.c:191-316 | The operation on world and connections is the join step of the state machine. |
| `Server.Server.Move` | src/actions/act_player_position.c:6-17 | The operation is the move step of the state machine: a request from chunk a, b is set exactly when the player leaves the intervals of a and b, and nothing else changes but the position; the world does not change. |
| `Server.Server.Update` | src/server.c:486-600 | For a connection with a pending request the operation is the update step of the state machine, its assertion proved, and it sends one unload packet for each chunk of the old view outside the new one and no others. |
| `Server.Server.Leave` | src/server.c:369-381 | The operation is the leave step of the state machine. |
| `Server.Server.Drop` | src/server.c:394-450 | Where server_play returns -1 the connection goes and the chunks keep their counts. |
| `Ticks.TurnKeepsIff` | src/main.c:122-136 | A connection handles its packets and is updated, or goes, right afterwards: the counts and what the clients hold are exact after that turn if and only if the chunk recorded as old is the one the turn began in, or, if the player leaves, it leaves from that chunk, and the connection does not fail. |
| `Ticks.TurnExactThroughoutIff` | src/main.c:122-136 | They are exact after every single move of the turn and at its end if and only if the connection crosses at most one chunk border, or none if it leaves, and does not fail. |
| `Ticks.FaithfulByCrossings` | src/main.c:122-136 | Of the turns with up to two crossings, those are exact at the end that cross at most once and stay, or do not cross and leave. |
| `Ticks.ThereAndBack` | src/conn.c:130-143 | Crossing a border there, back and there again is three crossings in a turn, after which the counts are exact all the same. |
| `Ticks.TwiceAcross` | src/conn.c:130-143 | Crossing two borders one after the other in a turn is not one of those that keep the counts. |
| `Ticks.TicksExactIff` | src/main.c:99-136 | In every run of ticks, with any number of connections accepted and playing, the counts are exact after every turn if and only if every turn is one of those that keep them. |
| `Ticks.Play` | src/main.c:124-135 | The moves, the update and the two ways out, performed on the server and its world, make up the turn. |
| `Ticks.Accept` | src/main.c:105-120 | Accepting a connection is the join step, and the list holds it as its last one. |
| `Ticks.Round` | src/main.c:123-135 | One round at a node of the list: the turn of its connection, and the removal at that node or the step to the next one. |
| `Ticks.Tick` | src/main.c:122-136 | Each connection of the list has its turn, once and in order, also where others before it are removed; afterwards the list holds exactly the connections that stay, each once, and these are the ones the server knows. |
| `ChunkPacket.CountBlocks` | src/server.c:83-92 | block_count is the number of the 4096 cells that do not hold air, although the loop goes through them with y and z exchanged. |
| `ChunkPacket.SwapTwice` | src/server.c:86-89 | The order of the loop is its own inverse, so it visits every cell once. |
| `ChunkPacket.CountedIsBlocks` | src/server.c:85-92 | Counting in that order counts the cells. |
| `ChunkPacket.AirIs` | src/server.c:48-52 | The cells counted are those whose palette entry is none of 0, 9129 and 9130. |
| `ChunkPacket.WriteLight` | src/server.c:106-144 | For sky and block light: mask bit i is set exactly when section i has light, mask and empty mask partition the 18 sections, there are as many arrays as set bits, and the array of a set bit is found by the number of set bits below it. |
| `ChunkPacket.MaskBits` | src/server.c:119-137 | The bits of a mask are the sections present and their number is the number of arrays. |
| `ChunkPacket.ArrayOfBit` | src/server.c:119-137 | The k-th array belongs to the k-th set bit. |
| `ChunkPacket.BitIsDigit` | src/server.c:119-137 | Bit i of a mask is its binary digit of weight 2^i. |
| `ChunkPacket.LowIsRest` | src/server.c:119-137 | The bits below i are the rest of the division by 2^i. |
| `ChunkPacket.OtherBitsPartition` | src/server.c:138-141 | Below 18, every bit is in exactly one of mask and empty mask; above, in none. |
| `ChunkPacket.ListSections` | src/server.c:57-103 | Bit i of the section mask says whether section i + 1 has blocks; the section list holds the sections with blocks in order, from section 0 on. |
| `ChunkPacket.SentMatchesMaskIff` | src/server.c:57-103 | The sections the emitted writer sends are the ones the mask announces if and only if section 0 has no blocks or no other section has any. |
| `ChunkPacket.SectionZeroShiftsTheList` | src/server.c:57-103 | With four bits per block in the sections 0 and 1, so that both are filled, the mask announces section 1 and section 0 is sent. |
| `Packet.ReadVarintGen` | src/packet.c:43-57 | The byte-by-byte loop computes the VarInt of its source, zero at the end of input and the error beyond five bytes. |
| `Packet.Signed32Is` | src/packet.c:137-140 | A VarInt is taken as the int of the same 32 bits. |
| `Packet.SizeTIs` | src/packet.c:64-99 | A length that is negative is taken as the size_t of the same 64 bits. |
| `Packet.PrefixLenIsVarInt` | src/packet.c:250-255 | The prefix length computed in advance is what the VarInt writer emits. |
| `Packet.FrameRoundTrip` | src/packet.c:64-76 | Reading the header of a frame recovers id, length and payload, for every payload and whatever follows. |
| `Packet.IdReadBackIff` | src/packet.c:235-242 | For every id of one byte, payload and rest of the stream: the payload comes back if and only if the id is below 128, and the id if and only if it is below 128 or the following bytes happen to continue its one byte with a group of value 1, padded or not. |
| `Packet.IdLost` | src/packet.c:235-242 | The id 128 with a payload of one zero byte is read as the id 0 with no payload. |
| `Packet.FramePrefixFree` | src/packet.c:245-267 | No frame is the beginning of another. |
| `Packet.GrownIsLeast` | src/packet.c:291-308 | The buffer grows by whole blocks and only as far as it must. |
| `Packet.NextBlock` | src/packet.c:291-308 | The first byte behind full blocks takes a whole block of 4096 more. |
| `Packet.MaxTakesThreeBytes` | src/packet.h:24 | The longest packet is the longest whose length takes three bytes. |
| `Packet.Packet.TryResize` | src/packet.c:291-308 | Refuses sizes above the maximum and changes nothing then; otherwise makes room and keeps the contents. |
| `Packet.Packet.WriteByte` | src/packet.c:310-321 | Puts one byte at the index and grows the packet by one, or refuses and changes nothing. |
| `Packet.Packet.WriteBytes` | src/packet.c:324-336 | All bytes or none. |
| `Packet.Packet.WriteVarint` | src/packet.c:344-358 | Puts the bytes of the VarInt, as many as fit; the count returned does not tell. |
| `Packet.Packet.WriteChars` | src/packet.c:366-372 | The loop puts the characters that fit and stops behind the first that does not, with its error in the byte count. |
| `Packet.Packet.WriteString` | src/packet.c:360-378 | Puts length and characters, as many as fit, and returns exactly the stated number; it is negative if and only if the string does not fit, is not empty, and is not one of three characters or more with only the last one left out. |
| `Packet.StringResultTellsIff` | src/packet.c:360-378 | The result tells whether the string was written whole if and only if the string is not an empty one without room for its length and not one of three characters or more that is one byte too long. |
| `Packet.StringLost` | src/packet.c:360-378 | Three inputs: on a full packet the empty string is lost and reported as one byte written; of three characters with room for two the last is lost and zero returned; one character without room is reported with the code of a long VarInt. |
| `Packet.Packet.MakePacket` | src/packet.c:235-242 | Starts a packet that holds its id. |
| `Packet.Packet.Finalize` | src/packet.c:245-267 | Turns a body into its frame; refuses one that is too long; where the prefix has no room in the buffer the source would write past its end, and the method says so; both change nothing, and neither does a second call. |
| `Packet.Packet.ReadHeader` | src/packet.c:64-99 | Recovers length, id and payload of the frame at the head of a stream and leaves the rest; says when it fails, and what it returns when the id cannot be read. |
| `Packet.Packet.ReadPayload` | src/packet.c:78-98 | Grows the buffer to the payload, or refuses, and reads what of it the stream holds. |
| `Packet.Packet.ReadByte` | src/packet.c:101-112 | Takes the next byte, or fails at the end without moving. |
| `Packet.Packet.ReadVarint` | src/packet.c:137-140 | Takes the VarInt at the head of what is left. |
| `Packet.Packet.ReadString` | src/packet.c:142-158 | Takes a string whose length is below the buffer length and within what is left; reports any other length of up to five bytes as too long; where the length ends with the packet the string is empty, without an error if what could be read of the length is zero; a length of more than five bytes is returned as it stands. |
| `Packet.OverlongLength` | src/packet.c:142-146 | Six bytes that stand for one: the reader returns one and no character. |
| `Transfer.Perform` | src/packet.c:310-378 | At the end of a packet every write of bytes, VarInts and strings that fits appends exactly its encoding to what the packet holds. |
| `Transfer.Attempt` | src/packet.c:310-378 | Any write at the end of a packet, whether it fits or not: its result and the bytes it places. |
| `Transfer.Fill` | src/packet.c:310-378 | A run of writes that stops at the first error reported appends exactly the bytes placed, and succeeds just when the run is accepted. |
| `Transfer.AllPlacedIff` | src/packet.c:310-378 | A run that fits is accepted and placed whole; what is placed of any run is all of it if and only if it fits. |
| `Transfer.AcceptedIff` | src/packet.c:310-378 | A run is accepted if and only if it fits, or the first write that does not fit is a VarInt, an empty string or a string with only its last byte left out, and after it come only writes that a full packet accepts: VarInts, empty strings and empty byte arrays. |
| `Transfer.HalfLost` | src/packet.c:344-358 | A VarInt of two bytes with room for one is accepted, and half of it placed. |
| `Transfer.PastBufferIff` | src/packet.c:257-264 | The body of a packet filled by writes is moved past the end of its buffer if and only if it fills its last block of 4096 bytes or leaves less room there than the prefix needs. |
| `Transfer.OneByteShort` | src/packet.c:257-264 | A body of 4095 bytes with its prefix of two, in one block. |
| `Transfer.Exchange` | src/packet.c:64-378 | A packet made, filled by any run of writes that fit, finalized and read from a stream in which anything may follow: id, payload and the rest of the stream come back, or it is refused, overruns its buffer or is too big for the reader. |
| `Transfer.ReceivedIff` | src/packet.c:64-308 | It arrives if and only if the payload has at most 511 blocks of 4096 bytes and the last block of the body leaves room for the prefix. |
| `JsonParser.JsonParse` | libs/json/json.c:356-372 | Parsing in place agrees with the pure parser on the original text: the same error at the same index, and otherwise the same tree, every string and key still reading as its unescaped contents when parsing ends. |
| `JsonParser.ParseString` | libs/json/json.c:53-86 | The write index never passes the read index, nothing before the string changes, the rest of the input is untouched, and the string reads as its unescaped contents. |
| `JsonParser.ParseMember` | libs/json/json.c:91-125 | A member, its name still readable after its value was parsed. |
| `JsonParser.SkipToNextValue` | libs/json/json.c:127-154 | The separator logic and its four errors. |
| `JsonParser.ParseObject` | libs/json/json.c:156-185 | An object, all members parsed before still readable after each further one. |
| `JsonParser.ParseArray` | libs/json/json.c:187-219 | An array, all items parsed before still readable after each further one. |
| `JsonParser.ParseNumber` | libs/json/json.c:221-284 | The extent and type of a number. |
| `JsonParser.ParseTruthy` | libs/json/json.c:292-320 | The three literals and what may follow them. |
| `JsonParser.ParseValue` | libs/json/json.c:322-349 | Dispatch on the first character. |
| `JsonParser.Stays` | libs/json/json.c:53-86 | Whatever is written outside the text a tree came from, the tree still means the same. |
| `JsonSyntax.ParsesIffWritten` | libs/json/json.c:322-372 | For every text and every value: the text parses to the value if and only if it is a text of it in the grammar of RFC 8259 without \u, with independent white space in every gap and any permitted spelling of every character, white space, digits and escapes being given by their code points, but with looser numbers and without white space around the root or in an empty object and DEL standing for itself. |
| `JsonSyntax.StandardParsesIff` | libs/json/json.c:322-372 | Every text of RFC 8259 without \u, line feeds and all other white space in its gaps included, parses to its value if there is no white space around the root or in an empty object and no DEL standing for itself, and otherwise is an error. |
| `JsonSyntax.ValueReads` | libs/json/json.c:322-349 | Wherever a text holds a tree of the grammar before a separator, it is read as the value of the tree up to its end, or is an error if the tree has one of the things the parser does not take. |
| `JsonSyntax.ValueWritten` | libs/json/json.c:322-349 | The converse: whatever is read as a value is the text of a tree of the grammar with that value. |
| `JsonSyntax.MembersRead` | libs/json/json.c:156-185 | The members of an object in any white space are read as their names and values; one that is not taken makes the object an error. |
| `JsonSyntax.ItemsRead` | libs/json/json.c:187-219 | The same for the items of an array. |
| `JsonSyntax.StringReads` | libs/json/json.c:53-86 | A string in any notation of section 7 of RFC 8259 without \u, each character as itself or escaped, is read as its contents, and is an error if a DEL stands for itself. |
| `JsonSyntax.NumberReads` | libs/json/json.c:221-284 | Any sign, digits, point, digits, exponent mark and digits, each but the start optional, is read to its end before a separator; at the end of the text it must end in a digit. |
| `JsonSyntax.NumberWritten` | libs/json/json.c:221-284 | The converse: whatever is read as a number has that form. |
| `JsonSyntax.StrictIsWritten` | libs/json/json.c:221-270 | The numbers of section 6 of RFC 8259 are among those the parser reads, also at the end of a text. |
| `JsonSyntax.DocPlain` | libs/json/json.c:356-372 | No text of the grammar holds the character that ends a C string. |
| `JsonSyntax.SpacedEmptyObject` | libs/json/json.c:165-170 | An empty object with white space inside is an error, at the closing brace. |
| `JsonSyntax.SpaceBeforeRoot` | libs/json/json.c:356-360 | A text that starts with white space is an error, at its start. |
| `JsonSyntax.SpaceAfterRoot` | libs/json/json.c:361-365 | White space after the root value is an error, at its start. |
| `JsonSyntax.DelRejected` | libs/json/json.c:68-70 | A string with a DEL standing for itself is an error, whatever surrounds it. |
| `JsonErrors.ErrorsDiagnose` | libs/json/json.c:53-372 | Every error names a fault the text has at that place: a string with a character it cannot hold, a string that goes on to the end, a comma before a closing bracket, the end of the text, a character where a comma, a colon or the end had to be, a letter that begins no literal, and the start of a number or of no value. |
| `JsonErrors.ScanStops` | libs/json/json.c:53-86 | A string without an end is characters of a string up to the end of the text or up to one that it cannot hold. |
| `JsonErrors.StringErrors` | libs/json/json.c:53-86 | A text for each error of strings. |
| `JsonErrors.ListErrors` | libs/json/json.c:122-154 | A text for each error between values and at the end, and a list with only a line feed in it, which is none. |
| `JsonErrors.ValueErrors` | libs/json/json.c:221-320 | A text for each error of values and names. |
| `LinkedList.Node.constructor` | libs/list/list.c:8-11 | A new list is empty. |
| `LinkedList.Node.Prepend` | libs/list/list.c:13-20 | The item comes first; the list keeps its address and the other nodes their place. |
| `LinkedList.Node.Append` | libs/list/list.c:22-34 | The item comes last and every node keeps its place. |
| `LinkedList.Node.Remove` | libs/list/list.c:36-43 | Takes the first item; the next node moves into this one. |
| `LinkedList.Node.RemoveAt` | libs/list/list.c:36-43 | At a node in the middle, takes that item out of the whole list. |
| `LinkedList.Tick` | src/main.c:121-137 | The connection loop handles every connection exactly once and in order, although it removes while walking, and what stays is the list of those kept. |
| `LinkedList.KeptAre` | src/main.c:121-137 | The connections kept are those that stay, each as often as before. |
| `LinkedList.SendMessages` | src/server.c:456-482 | Without errors a broadcast makes the specified deliveries, empties the queue and leaves the connections. |
| `LinkedList.DeliveryOf` | src/server.c:456-482 | Each queued message goes to each connection once, in queue order. |
| `BlockKeys.SortIsUnique` | libs/anvil/anvil.c:108-127 | Distinct names have one sorted order, however they were ordered before. |
| `BlockKeys.LessIff` | libs/anvil/anvil.c:100-106 | One name comes before another when it is smaller at the first place where they differ, or ends there. |
| `BlockKeys.KeyOfTwo` | libs/anvil/anvil.c:129-157 | The key of a block a with the properties c=d and b=e is a;b=e;c=d. |
| `BlockKeys.PaletteKey` | libs/anvil/anvil.c:129-157 | The concatenation loop builds the name followed by ";name=value" for each property. |
| `BlockKeys.TableKey` | src/blocks.c:82-112 | The bounded appends build the first 255 characters of the name followed by ";name=value" for each property. |
| `BlockKeys.KeysAgreeIff` | libs/anvil/anvil.c:129-157 | For distinct property names in any two orders, the palette and the block table build the same key if and only if it has fewer than 256 characters. |
| `BlockKeys.LongKeyIsCut` | src/blocks.c:82-112 | A key of 256 characters is stored by the block table without its last character. |
| `BlockKeys.KeyLength` | libs/anvil/anvil.c:78-98 | The length pass computes the length of the key. |
| `BlockKeys.BufferFits` | libs/anvil/anvil.c:129-132 | The length of the unsorted properties is that of the sorted key, so the buffer fits it. |

## Left out

- Nbt.DataRoundTrip: is about packed input only.
- NbtCodec.ReadString: stops when the body does not fit, where the C reader returns 2 and goes on.
- NbtCodec.ReadArray: stops on a length that does not fit, where the bound of the C reader wraps around.
- NbtCodec.ReadData: stops on malformed input, where the C reader can go on, and does not take a TAG_Byte that is the last byte.
- NbtCodec.ReadList: stops at an element that cannot be read, where the C reader drops the error.
- NbtCodec.ReadChildren: fails on a compound without an end, where the C reader returns one more than it was given.
- Nbt.ItemsRoundTrip: lists have at most 32767 elements, because the reader counts them in 16 bits.
- NbtCodec.Unpack: is the C reader on packed input only, and reads a value, not an array, since the C reader does not change its input.
- SchemaRoundTrip.TypeRoundTrip: chat text occurs only in skipped fields, because the emitted reader has no code for it; identifiers, VarLongs, angles and entity metadata are not modelled because the generator cannot emit them both ways.
- SchemaCodec.EmitType: of an emission that does not fit it says only that; what is then in the packet, and which errors are reported, is said write by write in `Transfer`.
- SchemaCodec.EmitElems: runs over the elements the value holds, which for a conforming value are as many as its length field or mask says.
- SchemaCodec.TakeType: returns None for what the emitted reader reports and also where it goes on with a value the model cannot give: a primitive wider than a byte, a UUID or a byte array cut off by the end of the packet is left unset by the C code, and of a string length of more than five bytes it takes what it has read.
- SchemaCodec.TakeElems: None for such an element, as in TakeType; the emitted loop goes on.
- SchemaCodec.TakeFields: None for such a field, as in TakeType; the emitted code goes on.
- SchemaCodec.TakeField: None for such a field, as in TakeType; the emitted code goes on.
- SchemaCodec.TakeBuffer: None when the length field moves the index out of the packet; the emitted code does not check.
- SchemaCodec.Source.TakePrim: None for a primitive wider than a byte that does not fit in what is left; the C code leaves the field as it was.
- SchemaCodec.Source.TakeSlot: None where the id of a slot takes more than five bytes or its NBT cannot be parsed, since the C code then goes on with what it happens to hold.
- SchemaSkips.SurvivesIffTransparent: at the end of the packet, where nothing follows, only the "if" holds in general (`SchemaRoundTrip.FieldsRoundTrip`); `SchemaWitnesses.EndHidesASkip` and `PlayerInfo.ServerPacketSurvivesIff` show that the "only if" does not. Of a packet taken off a stream the length still counts the id (`src/packet.c:64-99`), so there the reader may go on behind the payload and something always follows.
- Conditions are single flags; of a condition with an operator the parser takes the operator for the second operand (`utils/packet-auto-gen/parser.c:439`).
- PlayerInfo.PlayerInfoSurvivesIff: something must follow the packet, as for SchemaSkips.SurvivesIffTransparent.
- Protocol.ChunkDataRoundTrip: one way only, because the schema contains NBT.
- PacketBytes.FillLight: light arrays have 2048 bytes, as the region loader makes them.
- PacketBytes.ChunkDataBytes: writes the sections it is given, which are those the emitted loop sends when they are as many as the mask has bits.
- PacketBytes.FilledChunkReadsBack: numbers fit their C types, and there are as many sections as the mask has bits.
- Schema text, name lookup and the rewriting of length fields in `parser.c`: the model starts from resolved schemas in which a typed byte array follows its length field.
- Bytes.VarIntRoundTrip: the OR of seven-bit groups is written as a sum, the groups being disjoint.
- Section.Section.WriteBlockstateAt: a machine word is modelled by its 64 bits; widths of more than 8 bits are left out, because the mask of the source has one byte.
- HashMap.HashMap.Add: keys are distinct; after a removal the caller must need no resize and leave a free slot, because a resize would re-add freed keys.
- HashMap.HashMap.Resize: tables with tombstones, whose freed keys the source would re-add, are not covered.
- World.World.LoadChunks: of a chunk only the player count is kept, and loading never fails.
- Views.RunExactIff: sends and loads succeed; joining, updating and leaving are one step each.
- Server.Server.Join: encryption, login and the other packets of a join are not modelled.
- ChunkPacket.CountBlocks: palette indices are inside the palette, as the source takes for granted.
- Packet.Packet.Finalize: where the prefix has no room it stops; what the source overwrites behind its buffer is not modelled.
- Packet.Packet.ReadHeader: requires that a length which does not cover the id falls short of it by at least a block; for the others the size loop of the source never ends. Allocation never fails.
- Packet.Packet.ReadString: the sixth group of an overlong length is shifted by 35 bits, which C leaves undefined; in the model it contributes nothing.
- Packet.Packet.ReadByte: requires the packet length to be within the buffer; after a header it can exceed the payload by the length of the id, and the source then reads behind its buffer.
- Packet.Packet.ReadVarint: requires the same as ReadByte.
- JsonParser.JsonParse: the tree is a value and objects are lists of members in the order of the text; the list becomes the hash map of the source when keys are distinct. Numbers keep the text that `atof` is given.
- JsonSyntax.ParsesIffWritten: characters above 127, which the source hands to `iscntrl` as negative numbers, are taken for no control characters.
- JsonParser.ParseString: tests the flag of an invalid character before it reads on, where the source first reads one character past a final backslash.
- LinkedList.Tick: what a connection does in its turn is a function that says whether it stays; `Ticks.Tick` has the turns themselves.
- Ticks.Play: which packets a connection sends in a tick, and how its turn ends, are inputs; messages and keep-alive packets are not part of a turn.
- LinkedList.SendMessages: does not model errors while sending.
- BlockKeys.KeysAgreeIff: collation is that of the C locale, and property values are compared as byte strings.
- Sockets, polling, clocks, keep-alive, files, zlib, encryption, sessions, chat formatting, configuration and the command-line tools.
- Floating-point numbers: carried as bit patterns in packets and NBT, as real numbers for positions.
