# ORBit2: codec, message transport and dispatch

A Dafny model of the parts of ORBit2 in which a mistake is silent: what is
written to the wire and read back, what happens to messages between two
processes, how requests find their thread and their method, and how the IDL
compiler's tables fit together.

Verify the project with `dafny verify dfyconfig.toml`.

## The layers

- **Bytes** (`Cdr`): machine words in either byte order, aligned stream
  positions, the cursor of a receive buffer, strings and encapsulations
  (sections 15.3.1 and 15.3.3 of CORBA 3.0).
- **TypeCodes** (`TypeCodes`, `TypeCodeCodec`, `TypeCodeRoundTrip`,
  `TypeCodeEncoder`): graphs whose nodes carry their addresses, so sharing is
  visible. The wire format is a relation on positions with unconstrained
  padding; the imperative encoder establishes it, the decoder inverts it.
- **Values** (`Values`, `ValueRoundTrip`, `ValueEncoder`): marshalling driven
  by a TypeCode, with nested anys, unions and byte-order-marked wide strings.
- **Object references** (`Ior`, `IorRoundTrip`, `IorEncoder`, `HexIor`):
  profiles, components, key synchronisation and the text form (section 13.6.2
  of CORBA 3.0).
- **Both ends together** (`Transfer`, `Relay`): TypeCodes, values and
  references are encoded into a send buffer, and what writev gathers from it is
  decoded; and whatever a decoder accepts of arbitrary bytes can be encoded again.
- **The standard's tables** (`Standard`): kinds, sizes, message types and magic
  texts of CORBA 3.0, and where the per-kind tables of the code differ from them.
- **Send buffers** (`SendBuffer`, `OutStream`): iovecs over a flat memory with
  chunks that are recycled; positions, alignment and back-patching on top of
  them. All encoders run on these buffers.
- **Transport** (`Giop`, `GiopInput`, `Reassembly`, `FragmentRuns`, `Senders`,
  `Version11`, `LinkWrite`, `Wire`): the incremental reader, fragment sets and
  whole runs over them, what senders mean by their emissions, the output queue,
  and the statement that joins sender, queue and receiver (sections 15.4.1 and
  15.4.9 of CORBA 3.0).
- **Threads** (`ReplyTable`, `RequestPool`, `CommandQueue`): each method is one
  critical section, so what all methods keep holds in every interleaving.
- **IDL compiler** (`OpTrie`, `Inheritance`, `Dispatch`): the emitted switch
  as a syntax tree with an evaluator, the walk over ancestors, and the method
  numbers.
- **Native memory** (`NativeLayout`, `SequenceBuffer`): C layouts and growing
  buffers.

## Where the code does less than one would expect

These are results, each with the exact condition under which the promise holds;
the members named after them show runs and inputs on which it fails.

- **Shared TypeCodes on 64-bit targets.** `tc_dec` compares a `CORBA_long`
  with a difference that is not cut to 32 bits there, so an indirection out of
  the current encapsulation is never found and the program stops
  (`TypeCodeRoundTrip.RoundTrip`, `CommonStructIsNotLocal`).
- **Unions**: the search for an arm reads 16-bit discriminators as signed and
  one-octet ones as unsigned, so an arm whose label is an unsigned short from
  32768 on or a negative char is never selected (`Values.OwnArm`,
  `LargeLabelMissed`). TypeCodes of unions over 64-bit integers or wide
  characters can be sent, but values of such a union stop the program
  (`Standard.DiscriminatorsAgree`, `Relay.UnknownSwitchStops`).
- **Object references**: a 1.0 IIOP profile loses its components, and a
  complete key inside an IIOP or generic profile, once received, is never
  cleared (`IorRoundTrip.ProfileRestored`, `ReceivedKeyStaysBehind`). The SSL
  components' own byte-order octet is ignored, so in the other order than their
  profile's the port is read swapped (`Relay.OwnOrderIgnored`, `SslPortSwapped`).
- **Fragments**: a FRAGMENT that nothing opened starts a set of its own, and
  from then on every piece with id 0 runs into an assertion
  (`Reassembly.AssertionFails`, `OrphanFragment`). The limit on message size is
  checked for each piece, twice, of which the second check never fails
  (`GiopInput.SecondCheckNeverFails`), and never for the whole, whose collation
  overflows from 2^32 bytes on (`Reassembly.FitsExactly`).
  A GIOP 1.1 message opened while another one is open is taken for a piece of
  that (`Version11.OpeningIsSpliced`).
- **Replies**: `handle_reply` drops the list's lock before it takes the
  waiter's. If the waiter's connection dies in between and the waiter leaves,
  the buffer is stored into an entry that is gone
  (`ReplyTable.Table.Deliver`, `DeathDuringDelivery`).
- **Output**: a message whose first vector is empty is dropped and reported as
  written, and a fatal error after a partial write leaves the connection up
  with a message cut short; nothing else loses bytes
  (`LinkWrite.LinkConnection.Writev`, `EmptyVectorInFront`). A send buffer
  never produces such a vector (`Wire.BuffersNeverStall`). `write_queue_bytes`
  goes on counting the bytes of writes that blocked halfway
  (`LinkWrite.LinkConnection.FlushWriteQueue`).
- **Requests of one key** are started out of order exactly when a policy
  forbids the POA of an earlier one (`RequestPool.Pool.Take`,
  `OtherPoaOvertakes`).
- **Sequences of numbers** keep truncated values, which reappear on growth
  (`SequenceBuffers.Sequence.SetSize`, `StaleNumbers`).

## Where the model follows the code and not the documents

- Offsets of indirections are measured from behind the offset word, by both
  sides, and not from its beginning as section 15.3.5.1 of CORBA 3.0 has it
  (`OffsetWord` in `TypeCodeCodec`).
- Messages without a body are never demarshalled, so such a reply is looked up
  under id 0 (`ReceiveEmpty` in `GiopInput`).
- While a connection is being made, G_IO_OUT together with an input bit
  disconnects it (`IoHandler` in `LinkWrite`).

## Model

| member | source | states |
|---|---|---|
| Cdr.FetchStore | src/orb/orb-core/corba-typecode.c:275-312 | whatever the byte orders of sender and receiver, the receiver loads the word the sender stored |
| Cdr.StoreFetch | src/orb/orb-core/corba-typecode.c:275-312 | and the other way round: the word read from four octets is the one that, stored, gives those octets |
| Cdr.GetWordReads | src/orb/orb-core/corba-typecode.c:275-312 | an aligned, in-bounds read returns the word on the wire and leaves the cursor right behind it |
| Cdr.GetStringReads | src/orb/orb-core/corba-typecode.c:315-329 | reading a marshalled C string returns its characters and stops behind the terminator |
| Cdr.UseEncapsReads | src/orb/GIOP/giop-recv-buffer.c:425-465 | from any cursor, opening an encapsulation yields its contents, in the byte order that its own first octet names, and skips it in the outer buffer |
| TypeCodes.LabelRoundTrip | src/orb/orb-core/corba-typecode.c:149-194 | a union label that fits the discriminator survives the cast to it, the wire and the cast back |
| TypeCodes.EraseRelabel | src/orb/orb-core/corba-typecode.c:1160-1175 | giving the nodes of a graph other addresses does not change what the graph means |
| TypeCodes.SameMeaningEqual | src/orb/orb-core/corba-typecode.c:593-696 | graphs with the same meaning are equal under CORBA_TypeCode_equal; EquivComparesBare has both directions |
| TypeCodes.EquivComparesBare | src/orb/orb-core/corba-typecode.c:593-696 | CORBA_TypeCode_equal answers yes if and only if the two graphs are the same up to addresses, type names and member names other than enumerators; CORBA_TypeCode_equivalent if and only if they are so with the aliases taken off at every level |
| TypeCodeRoundTrip.OffsetHits | src/orb/orb-core/corba-typecode.c:1105-1118 | the decoder's comparison of a back offset hits exactly the node at the offset's target: always on 32-bit targets, on 64-bit ones only inside the current encapsulation |
| TypeCodeRoundTrip.FindIsLookup | src/orb/orb-core/corba-typecode.c:1105-1125 | the search for a shared node finds the node registered at the offset's target, or nothing when that is unreachable |
| TypeCodeRoundTrip.LimitIsSharp | src/orb/orb-core/corba-typecode.c:1105-1118 | the bound of 2^31 on 64-bit targets is the code's: a little further back, a target is missed even inside the encapsulation |
| TypeCodeRoundTrip.TcDecodes | src/orb/orb-core/corba-typecode.c:1079-1176 | induction step of the round trip: a node's bytes decode to its relabelled copy and the lists of known nodes stay in step |
| TypeCodeRoundTrip.BackDecodes | src/orb/orb-core/corba-typecode.c:1095-1128 | an indirection resolves to the very node it was written for, or the decoder aborts; which of the two is decided by reachability |
| TypeCodeRoundTrip.ComplexDecodes | src/orb/orb-core/corba-typecode.c:1140-1176 | an encapsulated node is rebuilt from its contents and registered under the index the encoder used |
| TypeCodeRoundTrip.ChoiceDecodes | src/orb/orb-core/corba-typecode.c:448-491 | a union TypeCode keeps discriminator, default index, labels, names and arms |
| TypeCodeRoundTrip.RecordDecodes | src/orb/orb-core/corba-typecode.c:423-446 | a struct or exception TypeCode keeps ids, names and members in order |
| TypeCodeRoundTrip.EnumerationDecodes | src/orb/orb-core/corba-typecode.c:493-512 | an enum TypeCode keeps its names in order |
| TypeCodeRoundTrip.EndInjective | src/orb/orb-core/corba-typecode.c:1200-1240 | different nodes are registered at different stream indexes |
| TypeCodeRoundTrip.RoundTrip | src/orb/orb-core/corba-typecode.c:1079-1278 | for every acyclic, arbitrarily shared TypeCode, in either byte order, the bytes decode to the same graph at other addresses, with the same sharing, consuming exactly the bytes written; on 64-bit targets if and only if every shared use lies in the encapsulation of its first use, otherwise the decoder aborts |
| TypeCodeRoundTrip.CommonStructIsNotLocal | src/orb/orb-core/corba-typecode.c:1105-1125 | struct { string s; sequence<string> t; } is a TypeCode that fails that condition |
| TypeCodeEncoder.TcFrame | src/orb/orb-core/corba-typecode.c:1200-1260 | bytes written elsewhere leave an encoded TypeCode as it is, so later appends and back-patches do no harm |
| TypeCodeEncoder.EncodeContext.Find | src/orb/orb-core/corba-typecode.c:1206-1228 | the search loop returns the index of the registered node, if the node is registered |
| TypeCodeEncoder.TcEnc | src/orb/orb-core/corba-typecode.c:1200-1260 | the recursive encoder appends to the send buffer exactly the wire form of the node, registers the nodes it first meets, and moves no reserved word |
| TypeCodeEncoder.BackEnc | src/orb/orb-core/corba-typecode.c:1206-1228 | a node met again is written as TK_RECURSIVE and the distance back to its first occurrence, modulo 2^32 |
| TypeCodeEncoder.ContentsEnc | src/orb/orb-core/corba-typecode.c:1240-1260 | the back-patched length word of an encapsulation is the number of bytes that follow it, and the contents are the node's |
| TypeCodeEncoder.ChoiceEnc | src/orb/orb-core/corba-typecode.c:149-194 | the union encoder appends header, discriminator, default index and every arm with its label |
| TypeCodeEncoder.ArmsEnc | src/orb/orb-core/corba-typecode.c:164-194 | default index, arm count and the arms follow the discriminator |
| TypeCodeEncoder.PartsEnc | src/orb/orb-core/corba-typecode.c:134-147 | the member loop appends every member in order |
| TypeCodeEncoder.Encode | src/orb/orb-core/corba-typecode.c:1263-1278 | ORBit_encode_CORBA_TypeCode appends the wire form that RoundTrip decodes |
| Values.ArmSelected | src/orb/orb-core/corba-any.c:349-378 | a discriminator selects the first arm, the default one aside, whose label it is read as, and if there is none the default arm or TC_null |
| Values.LabelIsSwitched | src/orb/orb-core/corba-any.c:291-326 | a discriminator that carries a label is read as that label if and only if it is not an unsigned short from 32768 on nor a negative char |
| Values.OwnArm | src/orb/orb-core/corba-any.c:349-378 | in a union with different labels, the label of an arm selects that very arm if and only if it is read as itself, and otherwise the default arm or TC_null |
| Values.LargeLabelMissed | src/orb/orb-core/corba-any.c:311-318 | the failing input: union switch (unsigned short) { case 32768: string; } with discriminator 32768 has no arm |
| ValueRoundTrip.TextDecodes | src/orb/orb-core/corba-any.c:594-608 | a marshalled string is read back and the cursor stops behind its terminator |
| ValueRoundTrip.TextReads | src/orb/orb-core/corba-any.c:594-608 | whatever length word a peer sends, a string is read up to its terminator and the cursor moves by the length word |
| ValueRoundTrip.MarkOrder | src/orb/orb-core/corba-any.c:609-655 | the byte-order mark tells either receiver the sender's byte order |
| ValueRoundTrip.WideDecodes | src/orb/orb-core/corba-any.c:609-655 | a wide string is read back unit by unit, whoever sent it |
| ValueRoundTrip.UnmarkedWide | src/orb/orb-core/corba-any.c:609-655 | a wide string without a byte-order mark is read as big-endian by either host |
| ValueRoundTrip.BulkDecodes | src/orb/orb-core/corba-any.c:675-685 | the block copy of octet-like elements yields the elements that were sent |
| ValueRoundTrip.ValueDecodes | src/orb/orb-core/corba-any.c:400-732 | induction step: decoding under an equal TypeCode yields the value and leaves the cursor at its end |
| ValueRoundTrip.TaggedDecodes | src/orb/orb-core/corba-any.c:349-378 | the discriminator on the wire selects for the receiver the arm that it selected for the sender, which arm ArmSelected says |
| ValueRoundTrip.EraseIsSame | src/orb/orb-core/corba-any.c:122-732 | what the round trips preserve is everything but the addresses of the TypeCodes inside a value |
| ValueRoundTrip.RoundTripValue | src/orb/orb-core/corba-any.c:122-289 | for every supported TypeCode, fitting value, start position and byte order, the marshalled value is demarshalled to itself with the cursor exactly behind it, if and only if the TypeCodes inside its anys decode |
| ValueEncoder.BulkIsElementwise | src/orb/orb-core/corba-any.c:240-251 | the bytes appended at once for octet-like elements are the wire form of the elements one by one |
| ValueEncoder.ValueFrame | src/orb/orb-core/corba-any.c:122-289 | a marshalled value is untouched by whatever is appended behind it |
| ValueEncoder.MarshalValue | src/orb/orb-core/corba-any.c:122-289 | ORBit_marshal_value appends exactly the wire form of the value |
| ValueEncoder.MarshalUnion | src/orb/orb-core/corba-any.c:195-217 | a union is its discriminator and then the arm that the discriminator selects in the sense of ArmSelected |
| ValueEncoder.MarshalItems | src/orb/orb-core/corba-any.c:232-269 | the element loop appends the wire form of all elements in order |
| ValueEncoder.MarshalFields | src/orb/orb-core/corba-any.c:178-194 | the member loop appends the wire form of all members in order |
| IorRoundTrip.KeyDecodes | src/orb/orb-core/iop-profiles.c:1023-1053 | an object key is read back |
| IorRoundTrip.CodeSetDecodes | src/orb/orb-core/iop-profiles.c:1164-1207 | a code set component is read back with its conversion lists |
| IorRoundTrip.ComponentDecodes | src/orb/orb-core/iop-profiles.c:1074-1263 | every kind of tagged component is read back from its encapsulation, known or not |
| IorRoundTrip.CompsDecode | src/orb/orb-core/iop-profiles.c:1266-1321 | a component list is read back in order |
| IorRoundTrip.ProfileDecodes | src/orb/orb-core/iop-profiles.c:1324-1673 | every kind of profile is read back as its received form |
| IorRoundTrip.RefDecodes | src/orb/orb-core/iop-profiles.c:1676-1732 | ORBit_demarshal_IOR of a marshalled reference restores type id and profile order, with the cursor behind the reference |
| IorRoundTrip.SyncObjKey | src/orb/orb-core/iop-profiles.c:115-197 | the loop over profiles finds the first key and clears every key it knows how to clear |
| IorRoundTrip.ProfileRestored | src/orb/orb-core/iop-profiles.c:115-197 | after the key synchronisation a profile is the sender's if and only if the sender had already received the complete keys inside an IIOP or generic profile, had none anywhere else, and a 1.0 IIOP profile has no components |
| IorRoundTrip.ReceivedKeyStaysBehind | src/orb/orb-core/iop-profiles.c:115-197 | a generic profile made here with a complete key changes on its first trip, since the sync leaves the received key, and never after |
| IorRoundTrip.KeyRestored | src/orb/orb-core/iop-profiles.c:115-197 | the synchronised key is the sender's as soon as one profile carries it |
| IorEncoder.KeyMarshal | src/orb/orb-core/iop-profiles.c:753-760 | a key is appended as length and octets |
| IorEncoder.ComponentMarshal | src/orb/orb-core/iop-profiles.c:763-842 | a component is appended behind its tag, encapsulated or not as its kind demands |
| IorEncoder.MarkedMarshal | src/orb/orb-core/iop-profiles.c:763-842 | an encapsulated component has its exact length patched in |
| IorEncoder.CompsMarshal | src/orb/orb-core/iop-profiles.c:845-898 | the component list is appended in order behind its count |
| IorEncoder.ProfileMarshal | src/orb/orb-core/iop-profiles.c:901-1016 | a profile is appended with its tag and the exact length of what follows |
| IorEncoder.LengthAndBody | src/orb/orb-core/iop-profiles.c:901-1016 | so has a profile |
| IorEncoder.RefMarshal | src/orb/orb-core/iop-profiles.c:981-1016 | the whole reference is appended in its wire form |
| HexIor.Print | src/orb/orb-core/corba-orb.c:527-553 | walking the buffer's iovecs through memory, the nested loops fill the text with the prefix, two lower-case hex digits for each byte of the contents, and a terminator |
| HexIor.Parse | src/orb/orb-core/corba-orb.c:608-627 | the text up to its last hex digit becomes octets, or nil when their number is odd |
| HexIor.DigitValues | src/orb/orb-core/corba-orb.c:542-547 | the sixteen digits printed are 0 to 9 and a to f, and either case of a digit is read as its value |
| HexIor.EitherCaseReads | src/orb/orb-core/corba-orb.c:608-627 | a text that spells octets in any mixture of upper and lower case digits is parsed to those octets |
| HexIor.OctetIsOr | src/orb/orb-core/corba-orb.c:608-627 | bit by bit, an octet is its high digit shifted by four or-ed with its low digit, a character that is no digit counting as all ones |
| HexIor.HexRoundTrip | src/orb/orb-core/corba-orb.c:527-627 | parsing printed octets returns them, whatever non-digits follow |
| HexIor.ObjectToString | src/orb/orb-core/corba-orb.c:515-557 | with header_size 0, the text is that of the byte-order octet and the reference marshalled behind it into the send buffer |
| HexIor.StringRoundTrip | src/orb/orb-core/corba-orb.c:515-640 | a stringified reference is read by a process of either byte order as the reference that marshalling restores |
| HexIor.NothingIsNoReference | src/orb/orb-core/corba-orb.c:608-640 | a text without a hex digit is no reference, not even nil |
| HexIor.TransferText | src/orb/orb-core/corba-orb.c:515-640 | a reference published as text is read back by the other process |
| Transfer.TransferTypeCode | src/orb/orb-core/corba-typecode.c:1079-1278 | marshalled into an iovec buffer behind any message opening, gathered, and decoded in a process of either byte order, a TypeCode arrives as the same graph up to its addresses and fully consumed, if and only if the shared nodes are reachable |
| Transfer.TransferValue | src/orb/orb-core/corba-any.c:122-732 | marshalled into an iovec buffer, gathered and demarshalled, a value arrives as itself, if and only if the TypeCodes inside its anys decode |
| Relay.AcceptedIsGraph | src/orb/orb-core/corba-typecode.c:1079-1278 | whatever bytes the TypeCode decoder accepts, the result is a well-formed graph whose addresses tell its nodes apart; on a 64-bit host no offset leads out of its encapsulation, so the graph is one that the decoder accepts again |
| Relay.AcceptedFits | src/orb/orb-core/corba-any.c:400-732 | whatever bytes ORBit_demarshal_value accepts for a type, the result is a value of that type as the marshaller supports it |
| Relay.BulkIsLoop | src/orb/orb-core/corba-any.c:675-711 | on any input, intact or not, the block copy of octet-like elements does what the element loop would do |
| Relay.UnknownDiscriminatorStops | src/orb/orb-core/corba-typecode.c:480-489 | the TypeCode decoder stops the program at a union whose discriminator is not one of the ten kinds it has a label format for |
| Relay.UnknownSwitchStops | src/orb/orb-core/corba-any.c:291-326 | the value decoder stops the program at every union over a 64-bit integer or a wide character; at any other union it does so if and only if it stops at the selected arm |
| Relay.AcceptedIsGood | src/orb/orb-core/iop-profiles.c:1676-1732 | whatever bytes ORBit_demarshal_IOR accepts, the result is a reference that can be marshalled, if and only if it is nil or has a profile |
| Relay.WithoutProfiles | src/orb/orb-core/iop-profiles.c:1676-1732 | a reference without profiles is nil if and only if its type id is empty |
| Relay.VersionsAccepted | src/orb/orb-core/iop-profiles.c:1440-1600 | IIOP and generic profiles are read for the versions 1.0 to 1.2 and for no others |
| Relay.OwnOrderIgnored | src/orb/orb-core/iop-profiles.c:1074-1147 | the SSL components are converted by the byte order of what encloses them, the code sets by their own |
| Relay.SslPortSwapped | src/orb/orb-core/iop-profiles.c:1074-1104 | an SSL component in the other byte order has flags and port read with their octets swapped |
| Transfer.RelayValue | src/orb/orb-core/corba-any.c:122-732 | a proxy loses nothing: what a process accepted from any bytes, marshalled again in its own byte order, is accepted with the same value by every process with pointers of the same width |
| Transfer.TransferReference | src/orb/orb-core/iop-profiles.c:752-1732 | every well-formed reference, marshalled, gathered, demarshalled and synchronised, arrives with each profile as it was if and only if that profile is restorable, and with the key if and only if some profile carries it |
| Transfer.OpenedIsFramed | src/orb/GIOP/giop-recv-buffer.c:1146-1194 | the message gathered is the framed form that the message reader takes off the stream |
| Standard.TablesAgree | src/orb/orb-core/corba-typecode.c:1040-1071 | the kinds without parameters and the sizes of values are those of the standard for every kind, but for long doubles |
| Standard.DiscriminatorsAgree | src/orb/orb-core/corba-typecode.c:164-194 | union labels have a format for exactly the discriminators of the standard, in its sizes; values are switched on for those of at most 32 bits that are no wide character, and for octets |
| Standard.BasicKindsNamed | src/idl/CORBA/CORBA_TypeCode.idl:10-24 | the kinds have the numbers of the standard; the three lemmas behind it have the other kinds |
| Standard.MessagesNamed | include/orbit/GIOP/giop-types.h:54-66 | so have the message types |
| Standard.HeaderOctets | src/orb/GIOP/giop-send-buffer.c:479-534 | a GIOP 1.2 request header, octet by octet, for either byte order |
| OutStreams.OutStream.AppendAligned | src/orb/GIOP/giop-send-buffer.c:405-430 | on the iovecs: pads to the boundary and appends the bytes; nothing before changes, and reserved words stay where they are |
| OutStreams.OutStream.Append | src/orb/GIOP/giop-send-buffer.c:346-353 | the message grows by the caller's bytes, copied or referenced |
| OutStreams.OutStream.Patch | src/orb/GIOP/giop-send-buffer.c:405-430 | a memcpy to a reserved word, through the address that was returned for it, changes those four bytes of the message only |
| OutStreams.OutStream.AppendString | src/orb/GIOP/giop-send-buffer.c:537-562 | appends the wire form of a C string |
| OutStreams.OutStream.MessageIsData | src/orb/GIOP/giop-send-buffer.c:479-534 | what writev gathers is the header with the final size and everything that was appended and patched |
| SendBuffers.AlignWraps | src/orb/GIOP/giop-send-buffer.c:365-386 | padding computed from the 32-bit wrapped size is the padding of the true length, for every boundary that divides 2^32 |
| SendBuffers.SendBuffer.Padding | src/orb/GIOP/giop-send-buffer.c:365-374 | the padding computed from the wrapped 32-bit size is the one the true length needs |
| SendBuffers.Space.SettleTail | src/orb/GIOP/giop-send-buffer.c:328-340 | bytes taken from the current chunk overlap nothing appended so far, and no later append can reach them |
| SendBuffers.Space.OneCellEach | src/orb/GIOP/giop-send-buffer.c:405-430 | a chunk byte occurs once in the contents, so a back-patch changes one place |
| SendBuffers.SendBuffer.HeaderThenBody | src/orb/GIOP/giop-send-buffer.c:479-534 | the gathered iovecs are the GIOP header, announcing the body length modulo 2^32, followed by the body; the body alone when the header was dropped |
| SendBuffers.SendBuffer.AppendReal | src/orb/GIOP/giop-send-buffer.c:245-274 | the gathered addresses grow by exactly the given range, in an iovec of its own unless they lie right behind the last one |
| SendBuffers.SendBuffer.GetNextIndirect | src/orb/GIOP/giop-send-buffer.c:289-325 | a chunk with room for any small piece, a recycled one if there is one, and no byte appended so far changes |
| SendBuffers.SendBuffer.AppendCopy | src/orb/GIOP/giop-send-buffer.c:328-342 | the contents grow by the copied bytes, which fit their chunk |
| SendBuffers.SendBuffer.Append | src/orb/GIOP/giop-send-buffer.c:346-353 | the contents grow by the caller's bytes; up to 32 are copied into the buffer's own chunks, so the caller may reuse its memory, and more are referenced in place |
| SendBuffers.SendBuffer.AlignTo | src/orb/GIOP/giop-send-buffer.c:365-386 | the contents are padded to the boundary and otherwise unchanged |
| SendBuffers.SendBuffer.AppendAligned | src/orb/GIOP/giop-send-buffer.c:405-430 | aligned append, returning the chunk address at which the bytes lie in the contents |
| SendBuffers.SendBuffer.Patch | src/orb/GIOP/giop-send-buffer.c:405-430 | writing to such an address changes exactly those bytes of the body |
| SendBuffers.MarkStays | src/orb/GIOP/giop-send-buffer.c:405-430 | appending moves no byte that a returned address names |
| SendBuffers.SendBuffer.AppendCounted | src/orb/orb-core/corba-typecode.c:1240-1260 | reserving a length word, appending and patching the word in later leaves length and contents behind each other: appends do not move the mark |
| SendBuffers.SendBuffer.SetType | src/orb/GIOP/giop-send-buffer.c:84-84 | filling in the message type leaves the body alone |
| SendBuffers.SendBuffer.AppendString | src/orb/GIOP/giop-send-buffer.c:537-562 | both paths append aligned length, characters and terminator |
| SendBuffers.SendBuffer.Unuse | src/orb/GIOP/giop-send-buffer.c:226-240 | the used chunks shrink to the standard size and stay disjoint, wherever realloc puts them |
| SendBuffers.SendBuffer.Reuse | src/orb/GIOP/giop-send-buffer.c:479-534 | a recycled buffer starts an empty message with the chunks it had |
| SendBuffers.SendBuffer.constructor | src/orb/GIOP/giop-send-buffer.c:504-534 | a new buffer holds the header of an empty message |
| SendBuffers.SendBuffer.DropHeader | src/orb/orb-core/corba-orb.c:515-522 | object_to_string's resets leave a buffer whose contents are what is appended next |
| GiopInput.PendingIsTail | src/orb/GIOP/giop-recv-buffer.c:1209-1290 | the bytes that wait for their message are the unconsumed tail of the stream |
| GiopInput.RunAppend | src/orb/GIOP/giop-recv-buffer.c:1209-1290 | reading on from where a stream stopped is reading the longer stream |
| GiopInput.ChunkingInvariance | src/orb/GIOP/giop-recv-buffer.c:1209-1359 | however a stream is split into reads, the same messages are dispatched, the same tail is kept and the connection fails at the same place |
| GiopInput.HeaderRoundTrip | src/orb/GIOP/giop-recv-buffer.c:1146-1194 | the receiver reads from a sender's header what the sender put there |
| GiopInput.HeaderReadsBack | src/orb/GIOP/giop-recv-buffer.c:1146-1194 | an accepted header is, octet by octet, the one made of the fields read from it, up to the flag bits that are ignored; type, version and size are in their ranges |
| GiopInput.SecondCheckNeverFails | src/orb/GIOP/giop-recv-buffer.c:1034-1040 | behind the header check, the size check of the reassembly changes no outcome |
| GiopInput.SentIsReceived | src/orb/GIOP/giop-recv-buffer.c:1209-1359 | a framed message in front of any other bytes is received as that message, and the rest is untouched |
| GiopInput.WholeMessage | src/orb/GIOP/giop-recv-buffer.c:1302-1359 | an unfragmented message is handed on exactly if its body can be decoded; the connection goes down for a damaged body, a request to close, a reply that nobody expects and an empty fragment, and for nothing else |
| GiopInput.NothingAfterClose | src/orb/GIOP/giop-recv-buffer.c:1327-1331 | behind a request to close the connection, whatever follows on the stream is not looked at |
| GiopInput.FragmentKey | src/orb/GIOP/giop-recv-buffer.c:1000-1012 | whatever the byte orders of sender and receiver, a FRAGMENT of GIOP 1.2 is found to have the id and the payload that its sender put there |
| GiopInput.GiopConnection.HandleInput | src/orb/GIOP/giop-recv-buffer.c:1209-1359 | with any sizes of reads, also none, the reader's state is what the consumed stream means; it reads on until a message is complete, nothing is left or the connection is lost, and it reports a loss if and only if the last read did |
| GiopInput.GiopConnection.Drain | src/orb/GIOP/giop-recv-buffer.c:1209-1359 | as long as the reads grant anything, every byte on the socket is handled, up to the point where the connection fails |
| GiopInput.GiopConnection.Take | src/orb/GIOP/giop-recv-buffer.c:1234-1294 | a short read changes nothing but the amount read |
| GiopInput.ConcatFrags | src/orb/GIOP/giop-recv-buffer.c:907-948 | collation stays inside its block and yields the head's bytes followed by the payloads in order of arrival |
| Reassembly.FitsExactly | src/orb/GIOP/giop-recv-buffer.c:907-948 | the collation block is large enough if and only if the message has fewer than 2^32 bytes |
| Reassembly.JoinHolds | src/orb/GIOP/giop-recv-buffer.c:1022-1031 | appending a piece keeps the total length on the head |
| Reassembly.Arrival | src/orb/GIOP/giop-recv-buffer.c:977-1053 | one arrival leaves every other message's pieces alone; a last piece yields the opened message with its own payloads in order and the head's cursor; errors occur exactly for a missing id, an unopened last fragment, or an oversized message |
| Reassembly.Interleaving | src/orb/GIOP/giop-recv-buffer.c:977-1053 | over every interleaving in which fragments continue opened messages, the list of sets is one accumulator for each message id; LogIsHandedOn adds the completed messages, AssertionFails the converse |
| Reassembly.TrackedOrHaunted | src/orb/GIOP/giop-recv-buffer.c:977-1053 | over every run of well-formed pieces, the sets track the messages if every FRAGMENT continued an opened one; from the first that does not, a set headed by a FRAGMENT is found under id 0 for good |
| Reassembly.AssertionFails | src/orb/GIOP/giop-recv-buffer.c:1022-1031 | the assertion on the head of a set fails for an arriving piece if and only if the piece has id 0 and some earlier FRAGMENT continued no opened message |
| Reassembly.OrphanFragment | src/orb/GIOP/giop-recv-buffer.c:1027-1027 | the shortest run that reaches the assertion |
| FragmentRuns.OneArrival | src/orb/GIOP/giop-recv-buffer.c:977-1053 | one message from the wire adds to the log nothing, itself, or the message it completes |
| FragmentRuns.LogIsHandedOn | src/orb/GIOP/giop-recv-buffer.c:977-1053 | over every run, with fragments of different messages interleaved at will, the messages handed on are the unfragmented ones and, at each last piece, that id's first piece with its own payloads in order |
| FragmentRuns.ChunksAreHandedOn | src/orb/GIOP/giop-recv-buffer.c:1209-1359 | the same of the byte stream, in whatever chunks it is read |
| Senders.AccountsAgree | src/orb/GIOP/giop-recv-buffer.c:977-1053 | the receiver's pieces of a message make up, octet by octet, what the senders' openings and fragments, given as ids and payloads, add up to |
| Senders.OneEmission | src/orb/GIOP/giop-recv-buffer.c:977-1053 | one emission hands on what it means: a whole message, nothing, or at a last fragment the opening with all payloads behind it |
| Senders.MeaningIsReceived | src/orb/GIOP/giop-recv-buffer.c:1209-1359 | end to end: from any interleaving of fragmented messages, in any byte orders and cut into any chunks, the receiver hands on exactly what the emissions mean, unless a message grows to 2^32 bytes |
| Version11.OpeningStarts | src/orb/GIOP/giop-recv-buffer.c:1014-1020 | a GIOP 1.1 message opened while no other one is open starts a set of its own |
| Version11.OpeningIsSpliced | src/orb/GIOP/giop-recv-buffer.c:1014-1031 | opened while others are open, it is taken for a piece of the newest of them |
| Version11.StaysOpen | src/orb/GIOP/giop-recv-buffer.c:1014-1044 | fragments of GIOP 1.1, which carry no id, are collected behind the open message |
| Version11.LastFragment | src/orb/GIOP/giop-recv-buffer.c:977-1053 | at its last fragment such a message is handled as if it had come in one piece, if and only if it is shorter than 2^32 bytes |
| ReplyTable.Table.HandleReply | src/orb/GIOP/giop-recv-buffer.c:1056-1117 | under the list lock: the first waiter with the reply's id and type is unlisted if it is on the reply's connection; otherwise the buffer is released once, and the connection is faulted unless nobody waits and it is a system exception |
| ReplyTable.Table.Deliver | src/orb/GIOP/giop-recv-buffer.c:1119-1137 | under the waiter's lock: the buffer reaches an entry that it answers if and only if the waiter has not returned since it was unlisted; otherwise memory is corrupted |
| ReplyTable.DeathDuringDelivery | src/orb/GIOP/giop-recv-buffer.c:1110-1124 | a run of five steps that gets there: the connection dies between the two locks |
| ReplyTable.Table.Find | src/orb/GIOP/giop-recv-buffer.c:1067-1077 | the search returns the first matching waiter |
| ReplyTable.Table.Zap | src/orb/GIOP/giop-recv-buffer.c:586-634 | no listed waiter names the dead connection any more, every removed one may stop waiting, and all others are untouched |
| ReplyTable.Table.Unregister | src/orb/GIOP/giop-recv-buffer.c:531-551 | a waiter that saw check_got, which WaitsExactly pins, is listed no more, and nothing else changes |
| ReplyTable.Table.WaitsExactly | src/orb/GIOP/giop-recv-buffer.c:688-695 | a listed waiter may stop waiting if and only if its connection is dead; one listed no more, without a reply on its way, may stop and has its buffer or has lost its connection |
| ReplyTable.Table.Return | src/orb/GIOP/giop-recv-buffer.c:698-752 | a waiter leaves with what its entry holds: a buffer that has its own request id, type and connection and that no other waiter ever got, or none, and that only if its connection died or was zapped; a delivery under way to it is lost |
| ReplyTable.Table.InvokeAsync | src/orb/GIOP/giop.c:610-639 | an asynchronous entry is called back and its buffer released once, or it is handed to the thread it belongs to |
| ReplyTable.Table.RunAsync | src/orb/GIOP/giop.c:753-795 | which calls back the last entry handed over and releases its buffer once |
| ReplyTable.Table.Setup | src/orb/GIOP/giop-recv-buffer.c:554-575 | a new waiter is listed with a connection and without a buffer |
| ReplyTable.Stored | src/orb/GIOP/giop-recv-buffer.c:1119-1137 | delivery keeps the account: every buffer is held by one entry it answers, taken, or released once |
| ReplyTable.ReleaseNew | src/orb/GIOP/giop-recv-buffer.c:1086-1116 | releasing an unwanted reply keeps the account |
| ReplyTable.Leave | src/orb/GIOP/giop-recv-buffer.c:698-752 | so does the departure of a waiter |
| LinkWrite.LinkConnection.WriteData | linc2/src/linc-connection.c:1011-1107 | bytes sent and bytes left over make up what was given, over any partial writes; system calls are repeated as long as they take something; the result is queued if and only if the last answer was a would-block on a nonblocking link, fatal if and only if it was an error, an end of file or any other would-block, and otherwise nothing is left over unless the first vector is empty |
| LinkWrite.LinkConnection.Consume | linc2/src/linc-connection.c:1089-1102 | dropping written bytes leaves exactly the rest and never an empty first vector |
| LinkWrite.LinkConnection.QueueFlattened | linc2/src/linc-connection.c:417-461 | what cannot be written joins the end of the queue, an empty queue's first entry arms G_IO_OUT, and the link goes down if and only if the queue is full then |
| LinkWrite.LinkConnection.Writev | linc2/src/linc-connection.c:1206-1279 | bytes sent followed by bytes queued are the accepted messages in order; from such a state a connection that stays up leaves it if and only if an error strikes after some byte was sent, or the write succeeds although the message starts with an empty vector. With an empty queue the result is the one that the last answer of the kernel calls for, otherwise the message is queued; only a full queue takes the link down |
| LinkWrite.EmptyVectorInFront | linc2/src/linc-connection.c:1020-1026 | the failing call: the byte 1 behind an empty vector is accepted, reported as written, and nowhere |
| LinkWrite.LinkConnection.FlushWriteQueue | linc2/src/linc-connection.c:1124-1168 | a non-empty queue gets one write attempt, whose outcome decides whether its first entry leaves, stays with its rest, or the link goes down; flushing keeps the stream, G_IO_OUT stays requested exactly as long as something is queued, and the bytes the count forgets to drop are exactly those of a write that then blocked |
| LinkWrite.LinkConnection.WriteFirst | linc2/src/linc-connection.c:1133-1160 | the first entry of the queue leaves it when it is out; when its write blocks, what is left of it stays first |
| LinkWrite.LinkConnection.ExecSetCondition | linc2/src/linc-connection.c:1171-1187 | a late command arms the watch again and breaks nothing |
| LinkWrite.LinkConnection.IoHandler | linc2/src/linc-connection.c:1453-1526 | a connection comes up if and only if G_IO_OUT comes alone and without a socket error; with a connected link it means a write attempt, and without an error only that attempt's answer, or a full queue behind it, takes the link down; every path keeps the stream and the arming |
| LinkWrite.LinkConnection.FlushWhenConnected | linc2/src/linc-connection.c:1499-1504 | the flush that follows, with the lock dropped before it, does so too, whatever other threads queued in between |
| LinkWrite.LinkConnection.RunIoThread | linc2/src/linc-connection.c:1124-1187 | polling as the watch asks for and executing pending commands, the I/O thread sends all that was accepted, if every system call takes something: no wakeup is lost |
| Wire.BufferIsFramed | src/orb/GIOP/giop-send-buffer.c:245-274 | what writev gathers from a send buffer is the framed message |
| Wire.BuffersNeverStall | linc2/src/linc-connection.c:1020-1020 | a send buffer's vectors are never the kind that write_data_T drops |
| Wire.StreamIsReceived | src/orb/GIOP/giop-recv-buffer.c:1209-1359 | a stream of framed messages is received as those messages in order |
| Wire.AcceptedIsDelivered | linc2/src/linc-connection.c:1206-1279 | once the output queue has drained, and however the bytes were cut on the way, the receiver has handled exactly the accepted messages in order |
| Wire.Deliver | linc2/src/linc-connection.c:1124-1279 | and it comes to that: if every system call takes something and every read gets something, all accepted messages are sent, received and handled in order, whatever the sizes are |
| RequestPool.PushConserves | src/orb/GIOP/giop.c:812-835 | a push adds its request to what waits, once |
| RequestPool.PopConserves | src/orb/GIOP/giop.c:753-795 | a start moves one request from waiting to started and loses none |
| RequestPool.StartIsInOrder | src/orb/GIOP/giop.c:753-795 | starting a waiting request keeps the start order of a key if and only if no earlier request of that key waits in front of it |
| RequestPool.PopInOrder | src/orb/GIOP/giop.c:753-795 | in the pool as a whole: every key stays in order if and only if it was and the start overtakes none of its requests |
| RequestPool.Pool.PushKey | src/orb/GIOP/giop.c:422-445 | a request joins the living record of its key, or a new one; a key has at most one living record |
| RequestPool.Pool.KeyAdd | src/orb/GIOP/giop.c:394-403 | a key bound by hand keeps all of it |
| RequestPool.Pool.Look | src/orb/GIOP/giop.c:696-720 | the unlocked search stays valid until the request is taken, since others only append |
| RequestPool.Pool.Take | src/orb/GIOP/giop.c:753-795 | at most one request is started, the one the search found; a key falls out of order if and only if the policy that chose it forbids the POA of an earlier waiting request of that key |
| RequestPool.Pool.Process | src/orb/GIOP/giop.c:722-795 | processing finds something to do if and only if giop_thread_queue_empty_T says that there is something |
| RequestPool.Pool.CheckDone | src/orb/GIOP/giop.c:491-523 | a record is freed exactly when nothing waits on it, and then no key leads to it |
| RequestPool.OtherPoaOvertakes | src/orb/GIOP/giop.c:696-720 | a run from the empty pool to such a start: key 7 is out of order at its end |
| CommandQueue.Loop.Exec | linc2/src/linc.c:71-162 | the pipe holds one byte exactly when the queue is non-empty; the callers that wait are those of SET_IO_THREAD and CNX_UNREF |
| CommandQueue.Loop.Dispatch | linc2/src/linc.c:101-107 | commands are dispatched once, in the order they were enqueued |
| CommandQueue.Loop.Finish | linc2/src/linc.c:108-114 | a synchronous command is marked while its caller is still waiting |
| CommandQueue.Loop.Leave | linc2/src/linc.c:152-158 | a synchronous caller leaves only after its command was dispatched |
| CommandQueue.Loop.RunIoThread | linc2/src/linc.c:82-162 | from every state the I/O thread dispatches all that was enqueued: no wakeup is lost |
| OpTrie.SortedAt | src/idl-compiler/orbit-idl-c-skels.c:48-52 | behind a common prefix, strcmp order is the order of the next characters |
| OpTrie.LeafMeans | src/idl-compiler/orbit-idl-c-skels.c:150-160 | comparing the tail suffices for a single name |
| OpTrie.Extend | src/idl-compiler/orbit-idl-c-skels.c:127-164 | one more case means one more group of names, and changes no earlier answer |
| OpTrie.PrintGroup | src/idl-compiler/orbit-idl-c-skels.c:145-160 | a group becomes a tail comparison or a nested switch with its lookup, or a name clash |
| OpTrie.PrintRelayers | src/idl-compiler/orbit-idl-c-skels.c:116-165 | for names behind a common prefix the emitted switch answers every string as the list does, has no label twice, and never reads past the terminator; it fails exactly on equal names |
| OpTrie.InsertSorted | src/idl-compiler/orbit-idl-c-skels.c:48-113 | insertion keeps the list sorted and adds the operation |
| OpTrie.PrintRelayer | src/idl-compiler/orbit-idl-c-skels.c:167-192 | the whole function answers every C string as the operation list does |
| Inheritance.Walk.Traverse | src/idl-compiler/orbit-idl-utils.c:363-384 | an unvisited interface and its unvisited ancestors are called back once each, ancestors first |
| Inheritance.Walk.TraverseFull | src/idl-compiler/orbit-idl-utils.c:386-414 | the calls are exactly the ancestors, each once, parents before children, with the interface itself last if and only if it is included |
| Dispatch.OutputStubs | src/idl-compiler/orbit-idl-c-stubs.c:110-156 | every stub gets its method's position in the body |
| Dispatch.BuildMethods | src/idl-compiler/orbit-idl-c-common.c:464-519 | the method table lists the methods in the same order |
| Dispatch.AddRelayer | src/idl-compiler/orbit-idl-c-skels.c:62-113 | every relayer gets the same number, whatever its place in the sorted list |
| Dispatch.ClashIsDuplicate | src/idl-compiler/orbit-idl-c-skels.c:145-149 | the list has a name twice exactly when two declarations of the family share it |
| Dispatch.LookupAnswers | src/idl-compiler/orbit-idl-c-skels.c:116-192 | looking a name up finds the declaration of that name and its method table entry |
| Dispatch.GetSkelSmall | src/idl-compiler/orbit-idl-c-skels.c:62-192 | a request's name reaches the method table entry of that name in the declaring interface, or nothing; diamonds cause no clash |
| NativeLayout.GatherIsAligned | src/orb/orb-core/corba-any.c:31-106 | every size is a multiple of the alignment |
| NativeLayout.AlignIsLeast | src/orb/orb-core/corba-typecode.c:332-390 | the alignment of a type is the least one that suits all its fields and the compiler's least one for structs |
| NativeLayout.LeavesOrdered | src/orb/orb-core/corba-any.c:181-193 | all fields of a value, through structs and arrays, are aligned, disjoint, in order and inside its size |
| NativeLayout.Walk | src/orb/orb-core/corba-any.c:794-954 | the walkers of marshal, demarshal and copy come by exactly those fields and advance by ORBit_gather_alloc_info |
| NativeLayout.FreeKids | src/orb/orb-core/allocators.c:22-124 | the freeing walker, aligning addresses instead of offsets, comes by the same fields and ends at the same address |
| NativeLayout.FreeingNeedsAlignment | src/orb/orb-core/allocators.c:59-70 | on memory that is not aligned it does not |
| SequenceBuffers.Sequence.Append | src/orb/orb-core/corba-any.c:1274-1306 | appends the element, growing to twice the size when full |
| SequenceBuffers.Sequence.SetSize | src/orb/orb-core/corba-any.c:1224-1271 | truncates, or extends by zeros; numbers dropped by an earlier truncation reappear |
| SequenceBuffers.Sequence.Remove | src/orb/orb-core/corba-any.c:1309-1335 | takes out one element and keeps the order of the others |
| SequenceBuffers.Sequence.Concat | src/orb/orb-core/corba-any.c:1338-1361 | appends another sequence's elements and leaves that sequence alone |
| SequenceBuffers.Sequence.AppendAll | src/orb/orb-core/corba-any.c:1274-1306 | n appends to an empty sequence move fewer than 2n elements |
| SequenceBuffers.StaleNumbers | src/orb/orb-core/corba-any.c:1241-1246 | a concrete case of reappearing numbers |
| SequenceBuffers.DemarshalItems | src/orb/orb-core/corba-any.c:687-711 | the doubling buffer always has room for the next element, and all elements arrive unless one is broken |

## Left out

- OutStreams.OutStream.constructor: the message opens with a piece of at most 32 bytes, as all GIOP headers do, so `OutStream` never appends nothing to a buffer without a chunk. The bytes a caller appends by reference are in memory that it does not change before the message is sent.
- Decoders and IOR demarshallers are functions on positions: pointers into the message, memory reclamation and half-filled results after an error are not modelled, malformed contents are one failure.
- TypeCodes: `tk_recursive` nodes, Principal, fixed and the value kinds; a nested decoder's failure is reported, where the code ignores some of them. Positions count from an 8-aligned message start and stay below 2^32, below 2^31 on 64-bit targets.
- Values: long double, object references and exceptions as values; a wide string of odd length loses its half unit; a string without a terminator inside the message is not followed past its end.
- SendBuffers.SendBuffer.AppendString: strings shorter than 2^32 - 5 bytes, where the 32-bit sum 4 + len does not wrap.
- SendBuffers.SendBuffer.Append: an empty first append to a buffer without a chunk is excluded, as the code stops on a null pointer there.
- The per-type request and reply header decoders are a parameter of `GiopInput` giving request id and cursor; so is the verdict on a reply, whose table is `ReplyTable`.
- GiopInput.ConcatFrags: requires that the collation fits, with the exact condition in Reassembly.FitsExactly; the overflowing case is the status Undefined.
- Reassembly.Interleaving: senders of GIOP 1.1, which share one set for each connection, are in the model of the code but not in this statement; `Version11` has theirs, with nothing in between.
- LinkWrite: what the system calls answer is a parameter, fixed in advance; TLS and Windows branches, blocking writes that re-enter the main loop, and what listeners of the blocking and the broken signal do while the lock is released for them.
- RequestPool: explicit key release, requests pushed to the main thread, timeouts and shutdown.
- ReplyTable: timeouts are a connection becoming dead; after a store into an entry that is gone nothing more is promised.
- FragmentRuns.LogIsHandedOn: runs whose senders keep to the protocol, without GIOP 1.1 pieces, and up to a collation that overflows; so too Senders.MeaningIsReceived.
- NativeLayout: unions, whose size computation aligns to the last rise in alignment rather than to the largest.
- SequenceBuffers.Sequence.Append: fewer than 2^31 elements, where doubling the size does not wrap; the code asserts that.
- IDL compiler: the emitted text outside the lookup switch, and identifiers with characters outside C strings.
- Sockets, resolvers, the object adapter, name service, dynamic anys and corbaloc text are not part of this model.
