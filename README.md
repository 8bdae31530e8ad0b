# avs_commons core in Dafny

This project models three parts of the avs_commons C library and proves properties of the model.

- **The CoAP message codec** of `coap/msg.h`. It covers:
  - the `avs_coap_msg_t` layout (a 32-bit length, the four-byte header and the content bytes);
  - the code byte, with its 3-bit class and 5-bit detail;
  - the header type and token-length fields;
  - the validator `avs_coap_msg_is_valid`;
  - the option iterator (`avs_coap_opt_begin`/`next`/`end`/`number`);
  - the payload accessors;
  - the message ID, the token and the (ID, token) identity.

  A reference encoder sits beside the decoder (`CoapOptions.EncodeOptions`, `CoapMsg.EncodeMsg`). Round-trip lemmas prove that validating and reading back an encoded message gives back what it was built from.
- **The intrusive singly linked list** of `list.h`.
  - A `List<T>` object holds the list variable (`head`) and, as ghost state, the sequence of nodes reachable from it.
  - A `Slot` stands for a `T **` pointer. It is either the list variable itself or the `next` field of an element.
  - Every macro is a method on those slots. Its contract states the new node sequence in terms of the old one.
- **The byte-order converters and `avs_rand_r`** of `utils/src/numbers.c`.
  - These use bit-vectors, with the build-time `AVS_COMMONS_BIG_ENDIAN` switch as a `ByteOrder` parameter.
  - The converters are proved to be involutions.
  - They are also proved to turn a host load of wire bytes into the network-order value.

Modules: `Common` (byte, `u16`, `u32`, `Option`, `Result`), `Numbers`, `CoapCode`, `CoapHeader`, `CoapOptions`, `CoapMsg` and `AvsList`.

## Model

| member | source | states |
|---|---|---|
| Numbers.ConvertBe16 | utils/src/numbers.c:30-45 | identity on big-endian builds; on little-endian builds, the value whose bytes are those of the argument reversed |
| Numbers.ConvertBe32 | utils/src/numbers.c:35-52 | identity on big-endian builds; the four bytes reversed on little-endian builds |
| Numbers.ConvertBe64 | utils/src/numbers.c:54-63 | identity on big-endian builds; the eight bytes reversed on little-endian builds (the eight shift-and-mask terms place byte i at byte 7 - i) |
| Numbers.Swap64 | utils/src/numbers.c:54-63 | the shift/mask expression of `avs_convert_be64` equals packing the reversed byte sequence |
| Numbers.Reversed | utils/src/numbers.c:43-63 | a sequence reversal: same length, element i is element n-1-i of the input |
| Numbers.Bytes16Pack16 | utils/src/numbers.c:43-45 | splitting a packed two-byte sequence gives the bytes back |
| Numbers.Bytes32Pack32 | utils/src/numbers.c:47-52 | splitting a packed four-byte sequence gives the bytes back |
| Numbers.Bytes64Pack64 | utils/src/numbers.c:54-63 | splitting a packed eight-byte sequence gives the bytes back |
| Numbers.ConvertBe16Involution | utils/src/numbers.c:30-45 | converting twice returns the original 16-bit value, on either byte order |
| Numbers.ConvertBe32Involution | utils/src/numbers.c:35-52 | converting twice returns the original 32-bit value, on either byte order |
| Numbers.ConvertBe64Involution | utils/src/numbers.c:39-63 | converting twice returns the original 64-bit value, on either byte order |
| Numbers.ConvertBe16ReadsNetworkOrder | utils/src/numbers.c:30-45 | on either byte order, converting what the host loads from two wire bytes gives what a big-endian host loads, the network-order value |
| Numbers.ConvertBe32ReadsNetworkOrder | utils/src/numbers.c:35-52 | the same for four wire bytes |
| Numbers.ConvertBe64ReadsNetworkOrder | utils/src/numbers.c:39-63 | the same for eight wire bytes |
| Numbers.NetworkOrder16Value | utils/src/numbers.c:30-45 | the network-order value of two bytes is `first * 256 + second` |
| Numbers.RandSeed.constructor | utils/src/numbers.c:25 | the seed variable starts at the given value |
| Numbers.RandR | utils/src/numbers.c:25-28 | the seed becomes `seed * 1103515245 + 12345` modulo 2^32, and the result is the new seed modulo `AVS_RAND_MAX + 1`, so at most `AVS_RAND_MAX` |
| Numbers.RandResult | utils/src/numbers.c:25-28 | the value `avs_rand_r` returns for a seed never exceeds `AVS_RAND_MAX` |
| Numbers.RandRIsDeterministic | utils/src/numbers.c:25-28 | two seeds with equal values give equal results and equal successor seeds, and the result is the one `RandResult` predicts |
| CoapCode.GetClass | coap/include_public/avsystem/commons/coap/msg.h:55-64 | the class of any code is below 8 |
| CoapCode.GetDetail | coap/include_public/avsystem/commons/coap/msg.h:55-64 | the detail of any code is below 32 |
| CoapCode.MakeCodeRoundTrip | coap/include_public/avsystem/commons/coap/msg.h:55-64 | `AVS_COAP_CODE(cls, detail)` with fields in range reads back as that class and detail, and equals `cls * 32 + detail` |
| CoapCode.CodeIsItsFields | coap/include_public/avsystem/commons/coap/msg.h:129-132 | every code byte is the packing of its own class and detail |
| CoapCode.WithClass | coap/include_public/avsystem/commons/coap/msg.h:129-132 | the stored byte has the new class (masked to 3 bits) and keeps the detail |
| CoapCode.WithDetail | coap/include_public/avsystem/commons/coap/msg.h:129-132 | the stored byte has the new detail (masked to 5 bits) and keeps the class |
| CoapCode.SetClass | coap/include_public/avsystem/commons/coap/msg.h:129-132 | `avs_coap_msg_code_set_class` changes only the addressed byte: new class, detail kept |
| CoapCode.SetDetail | coap/include_public/avsystem/commons/coap/msg.h:129-132 | `avs_coap_msg_code_set_detail` changes only the addressed byte: new detail, class kept |
| CoapCode.MakeCode | coap/include_public/avsystem/commons/coap/msg.h:60-64 | `AVS_COAP_CODE(cls, detail)` has class `cls` masked to 3 bits and detail `detail` masked to 5 bits |
| CoapCode.IsClientError | coap/include_public/avsystem/commons/coap/msg.h:139-141 | true exactly for class 4, the codes 128..159 |
| CoapCode.IsServerError | coap/include_public/avsystem/commons/coap/msg.h:147-149 | true exactly for class 5, the codes 160..191 |
| CoapCode.IsRequest | coap/include_public/avsystem/commons/coap/msg.h:156-159 | true exactly for class 0 with a non-zero detail, the codes 1..31; Empty is not a request |
| CoapCode.IsResponse | coap/include_public/avsystem/commons/coap/msg.h:162-164 | true exactly for a class above 0, the codes 32 and up |
| CoapCode.ClassifiersAgree | coap/include_public/avsystem/commons/coap/msg.h:139-164 | no code is both a request and a response; Empty is neither; every error class is a response; no code is both a client and a server error |
| CoapCode.CodeConstants | coap/include_public/avsystem/commons/coap/msg.h:72-103 | the code constants have their registered wire values (0x00, 0x01, 0x45, 0x84 and 0xA0 from RFC 7252, 0x5F for 2.31 Continue from RFC 7959) and are classified accordingly |
| CoapHeader.TypeCode | coap/include_public/avsystem/commons/coap/msg.h:41-50 | a message type number is below 4 |
| CoapHeader.TypeCodeBijective | coap/include_public/avsystem/commons/coap/msg.h:41-50 | the two-bit type field and the four message types correspond one to one |
| CoapHeader.HeaderBytes | coap/include_public/avsystem/commons/coap/msg.h:166-184 | the header occupies exactly four bytes: version/type/token-length, code, then the two message ID bytes |
| CoapHeader.HeaderOf | coap/include_public/avsystem/commons/coap/msg.h:166-184 | any four bytes read as a header lay out as those same bytes |
| CoapHeader.GetVersion | coap/include_public/avsystem/commons/coap/msg.h:166-170 | the version field is below 4 |
| CoapHeader.GetTokenLength | coap/include_public/avsystem/commons/coap/msg.h:203-204 | the raw token-length field is below 16 |
| CoapHeader.GetType | coap/include_public/avsystem/commons/coap/msg.h:191-197 | the type read from a header is the one whose number is bits 5-4 of the first byte |
| CoapHeader.WithType | coap/include_public/avsystem/commons/coap/msg.h:191-201 | the byte stored by `avs_coap_msg_header_set_type` has the new type in bits 5-4 and keeps the version bits and the token-length nibble |
| CoapHeader.WithTypeRoundTrip | coap/include_public/avsystem/commons/coap/msg.h:191-201 | after setting the type, the header reads back that type and keeps its version and token length |
| CoapHeader.SetType | coap/include_public/avsystem/commons/coap/msg.h:195-201 | `avs_coap_msg_header_set_type` changes only the first header byte; the type reads back, and version and token length are kept |
| CoapHeader.FirstByteFields | coap/include_public/avsystem/commons/coap/msg.h:166-204 | a first byte built from a version, type and token length reads back those three fields |
| CoapOptions.DeltaNibble | coap/include_public/avsystem/commons/coap/msg.h:317-324 | the delta nibble of an option header byte is below 16 |
| CoapOptions.LengthNibble | coap/include_public/avsystem/commons/coap/msg.h:317-324 | the length nibble of an option header byte is below 16 |
| CoapOptions.MarkerNibbles | coap/include_public/avsystem/commons/coap/msg.h:36 | both nibbles are 15 exactly when the byte is the payload marker 0xFF |
| CoapOptions.ReadExtended | coap/include_public/avsystem/commons/coap/msg.h:317-339 | nibbles 0-12 are literal; 13 and 14 read one or two extension bytes; the result is None exactly when those bytes run past the end; the value is at most 269 + 65535 |
| CoapOptions.ParseOption | coap/include_public/avsystem/commons/coap/msg.h:317-339 | a decoded option's value lies after its header byte and inside the buffer; a reserved nibble 15 is always MalformedOption |
| CoapOptions.OptionIsNotMarker | coap/include_public/avsystem/commons/coap/msg.h:326-333 | a byte that decodes as an option is never the payload marker |
| CoapOptions.ScanOptions | coap/include_public/avsystem/commons/coap/msg.h:317-333 | a successful walk is chained: each option starts where the previous one ended, decodes there, and carries the running number plus its delta; the walk ends at the end of the content or at a marker with payload after it |
| CoapOptions.ChainedStep | coap/include_public/avsystem/commons/coap/msg.h:317-324 | one iterator step: option i decodes at step i's offset, step i+1 starts where it ends, and its number becomes the previous number |
| CoapOptions.ChainedEnd | coap/include_public/avsystem/commons/coap/msg.h:326-333 | a step holds an option exactly when it is inside the content and not at the payload marker |
| CoapOptions.ChainedStart | coap/include_public/avsystem/commons/coap/msg.h:311-315 | the walk starts at the given offset with the given previous number |
| CoapOptions.ChainedOffsetsForward | coap/include_public/avsystem/commons/coap/msg.h:317-333 | every step's offset lies between the start and the end of the content |
| CoapOptions.NumbersNondecreasing | coap/include_public/avsystem/commons/coap/msg.h:317-339 | option numbers never decrease along the sequence, starting from the initial previous number |
| CoapOptions.OptionHeaderByteNibbles | coap/include_public/avsystem/commons/coap/msg.h:317-339 | an encoded option header byte reads back its two nibbles |
| CoapOptions.DecodedOptionsAt | coap/include_public/avsystem/commons/coap/msg.h:335-339 | the i-th decoded option is the i-th entry's number and value bytes |
| CoapOptions.ScanEncodedOptions | coap/include_public/avsystem/commons/coap/msg.h:317-339 | round trip: walking the encoding of ascending options gives back exactly those options in order, followed by the end of the content or a marker and a non-empty payload |
| CoapMsg.Body | coap/include_public/avsystem/commons/coap/msg.h:207-222 | the content covered by the length is `length - 4` bytes, and none when the length is below the header size |
| CoapMsg.Validate | coap/include_public/avsystem/commons/coap/msg.h:358-362 | success implies: a whole header, version 1, a token of at most 8 bytes inside the message, and a chained option walk to the end or to a marker followed by payload |
| CoapMsg.IsValid | coap/include_public/avsystem/commons/coap/msg.h:358-362 | a valid message has a whole version 1 header and a token of at most 8 bytes inside the message; a message `Validate` rejects is invalid |
| CoapMsg.MsgIsRequest | coap/include_public/avsystem/commons/coap/msg.h:263-265 | true exactly when the message code is one of 1..31 |
| CoapMsg.MsgIsResponse | coap/include_public/avsystem/commons/coap/msg.h:272-274 | true exactly when the message code is 32 or above; a response is never a request |
| CoapMsg.Options | coap/include_public/avsystem/commons/coap/msg.h:317-339 | a valid message has one decoded option per entry of its walk |
| CoapMsg.ValidOptionsWithinMessage | coap/include_public/avsystem/commons/coap/msg.h:317-362 | the options of a valid message lie between the end of the token and the end of the message, and their numbers never decrease |
| CoapMsg.OptionAt | coap/include_public/avsystem/commons/coap/msg.h:335-339 | option i of a valid message is its entry's number and the value bytes in the message |
| CoapMsg.PayloadLayout | coap/include_public/avsystem/commons/coap/msg.h:341-356 | the payload starts after the options and runs to the end of the message; it is non-empty exactly when a payload marker ends the options, and that marker is the byte just before it |
| CoapMsg.MsgPayload | coap/include_public/avsystem/commons/coap/msg.h:341-348 | iterating over all options and skipping the marker finds the payload start |
| CoapMsg.MsgPayloadLength | coap/include_public/avsystem/commons/coap/msg.h:350-356 | the length runs from the payload start to the end of the message |
| CoapMsg.WrapAdd | coap/include_public/avsystem/commons/coap/msg.h:240-244 | adding a delta to a `uint32_t` running number agrees, modulo 2^32, with adding it to the true number |
| CoapMsg.IteratorStep | coap/include_public/avsystem/commons/coap/msg.h:317-339 | at each step of a valid message, the option decodes; `prev + delta` is its number modulo 2^32; its value bytes are the option's value; the next step starts where it ends |
| CoapMsg.OptIterator.Begin | coap/include_public/avsystem/commons/coap/msg.h:311-315 | `avs_coap_opt_begin` positions at the first option, after the token, with previous number 0 |
| CoapMsg.OptIterator.End | coap/include_public/avsystem/commons/coap/msg.h:326-333 | true exactly when every option has been passed |
| CoapMsg.OptIterator.Number | coap/include_public/avsystem/commons/coap/msg.h:335-339 | the current option's number modulo 2^32, as a `uint32_t` |
| CoapMsg.OptIterator.Value | coap/include_public/avsystem/commons/coap/msg.h:317-339 | the current option's value bytes |
| CoapMsg.OptIterator.Next | coap/include_public/avsystem/commons/coap/msg.h:317-324 | `avs_coap_opt_next` moves to the next option and keeps the iterator consistent |
| CoapMsg.GetId | coap/include_public/avsystem/commons/coap/msg.h:252-256 | the ID returned is the one whose big-endian encoding is the two message ID bytes |
| CoapMsg.IdRoundTrip | coap/include_public/avsystem/commons/coap/msg.h:252-256 | storing an ID in the two wire bytes and reading it back gives the ID, and the reverse holds too |
| CoapMsg.GetToken | coap/include_public/avsystem/commons/coap/msg.h:276-282 | copies exactly the token (length at most 8) into the output buffer, leaves the rest of it unchanged, and returns the length |
| CoapMsg.IdentityOfMeaning | coap/include_public/avsystem/commons/coap/msg.h:288-295 | a message identity is well formed and carries the token; two messages have equal identities exactly when their IDs and tokens, length included, are equal |
| CoapMsg.GetIdentity | coap/include_public/avsystem/commons/coap/msg.h:288-295 | `avs_coap_msg_get_identity` gives the message's identity, with the token buffer zero-filled past the token |
| CoapMsg.TokenMatches | coap/include_public/avsystem/commons/coap/msg.h:297-309 | true exactly when the message token equals the identity's token, length included |
| CoapMsg.ScanEncodedContent | coap/include_public/avsystem/commons/coap/msg.h:317-348 | an encoded content scans back to its options, ending at a marker exactly when there is a payload |
| CoapMsg.EncodedHeader | coap/include_public/avsystem/commons/coap/msg.h:166-256 | an encoded message reads back its version 1, type, token length, code and ID |
| CoapMsg.EncodeMsgRoundTrip | coap/include_public/avsystem/commons/coap/msg.h:252-362 | every encoded message is valid and reads back its type, code, ID, token, options and payload |
| CoapMsg.ValidateAfterHeader | coap/include_public/avsystem/commons/coap/msg.h:358-362 | once the header and the token check out, validation is the option walk |
| CoapMsg.PayloadAfterOptions | coap/include_public/avsystem/commons/coap/msg.h:341-356 | a valid message whose options are followed by a marker and p (or by nothing) has payload p |
| CoapMsg.ExampleHeaderOnlyGet | coap/include_public/avsystem/commons/coap/msg.h:263-362 | the header-only message `40 01 00 01` is a valid confirmable GET request with ID 1, no options and an empty payload |
| CoapMsg.ExampleTokenTooLong | coap/include_public/avsystem/commons/coap/msg.h:358-362 | a token-length field of 9 makes the header malformed |
| CoapMsg.ExampleLoneMarker | coap/include_public/avsystem/commons/coap/msg.h:36 | a payload marker that is the last byte is rejected |
| CoapMsg.ExampleOptionOverrun | coap/include_public/avsystem/commons/coap/msg.h:358-362 | an option value that runs past the message length is a truncated buffer |
| CoapMsg.ExampleReservedNibble | coap/include_public/avsystem/commons/coap/msg.h:358-362 | a reserved length nibble is a malformed option |
| AvsList.Node.constructor | list/include_public/avsystem/commons/list.h:433-443 | a new element holds its value and a NULL next pointer |
| AvsList.ChainAfterInsert | list/include_public/avsystem/commons/list.h:445-468 | linking a fresh element between k-1 and k gives the chain with it inserted at k |
| AvsList.ChainAfterRemove | list/include_public/avsystem/commons/list.h:513-526 | linking element k-1 to element k+1 gives the chain without element k |
| AvsList.ChainAfterAppend | list/include_public/avsystem/commons/list.h:496-511 | pointing the last element at a disjoint chain gives the concatenation |
| AvsList.Merge | list/include_public/avsystem/commons/list.h:638-652 | merging keeps every element of both inputs (as a multiset), and the merge starts with the head of one of them |
| AvsList.MergeSort | list/include_public/avsystem/commons/list.h:638-652 | sorting keeps exactly the same elements |
| AvsList.MergeSorted | list/include_public/avsystem/commons/list.h:638-652 | under a comparator that orders every pair one way or the other, merging two sorted lists gives a sorted list |
| AvsList.MergeSortedLeft | list/include_public/avsystem/commons/list.h:638-652 | the case of `MergeSorted` where the left head goes first |
| AvsList.MergeSortedRight | list/include_public/avsystem/commons/list.h:638-652 | the case of `MergeSorted` where the right head goes first |
| AvsList.SortedCons | list/include_public/avsystem/commons/list.h:638-652 | an element no greater than the head of a sorted list may be put in front of it |
| AvsList.MergeSortSorted | list/include_public/avsystem/commons/list.h:638-652 | under such a comparator, the merge sort is sorted |
| AvsList.SortedByAll | list/include_public/avsystem/commons/list.h:272-290 | under a transitive comparator, a sorted list orders every earlier element no later than every later element |
| AvsList.DistinctPermutation | list/include_public/avsystem/commons/list.h:638-652 | a permutation of a list without repeated elements has none either |
| AvsList.KeptMeaning | list/include_public/avsystem/commons/list.h:553-594 | the survivors of the first n elements are exactly those among them that do not satisfy the predicate |
| AvsList.DeleteWhereDone | list/include_public/avsystem/commons/list.h:553-594 | the deletable walk ends, at a NULL slot, only after visiting every element |
| AvsList.List.constructor | list/include_public/avsystem/commons/list.h:129-137 | a NULL list variable is the empty list |
| AvsList.List.DerefAt | list/include_public/avsystem/commons/list.h:168-182 | slot k holds element k, and NULL after the last element |
| AvsList.List.Store | list/include_public/avsystem/commons/list.h:457-468 | the write `*slot = e` makes the slot hold `e` and leaves the element sequence, and every object other than the slot's owner, unchanged |
| AvsList.List.Insert | list/include_public/avsystem/commons/list.h:445-468 | `AVS_LIST_INSERT` puts the element at position k, the others in order; the slot now holds it and it points to the former occupant |
| AvsList.List.InsertNew | list/include_public/avsystem/commons/list.h:470-494 | on a successful allocation, inserts a fresh zero-valued element at position k; otherwise the list is unchanged |
| AvsList.List.Detach | list/include_public/avsystem/commons/list.h:513-526 | `AVS_LIST_DETACH` removes element k, returns it with a NULL next pointer, and leaves the slot holding the element that followed it |
| AvsList.List.Delete | list/include_public/avsystem/commons/list.h:528-536 | removes element k; the others keep their order |
| AvsList.List.Clear | list/include_public/avsystem/commons/list.h:596-625 | the list becomes empty and the list variable NULL |
| AvsList.List.EndSlot | list/include_public/avsystem/commons/list.h:221-256 | walking the list with `AVS_LIST_FOREACH_PTR` stops at the slot after the last element, which holds NULL |
| AvsList.List.Append | list/include_public/avsystem/commons/list.h:496-511 | `AVS_LIST_APPEND` makes the list the old one followed by the appended chain |
| AvsList.List.Nth | list/include_public/avsystem/commons/list.h:317-327 | element n, and NULL exactly when the list has at most n elements |
| AvsList.List.NthPtr | list/include_public/avsystem/commons/list.h:329-341 | the slot holding element n when there is one, otherwise none |
| AvsList.List.FindPtr | list/include_public/avsystem/commons/list.h:343-371 | finds a slot exactly when the element is in the list, and that slot holds it |
| AvsList.List.FindByValuePtr | list/include_public/avsystem/commons/list.h:373-406 | the slot of the first element the comparator calls equal to the value; none exactly when no element is |
| AvsList.List.Tail | list/include_public/avsystem/commons/list.h:408-417 | the last element, and NULL on the empty list |
| AvsList.List.Size | list/include_public/avsystem/commons/list.h:627-636 | the number of elements |
| AvsList.List.Collect | list/include_public/avsystem/commons/list.h:207-208 | walking the list visits exactly its elements in order |
| AvsList.List.Relink | list/include_public/avsystem/commons/list.h:638-652 | relinking a permutation of the elements makes it the list |
| AvsList.List.Sort | list/include_public/avsystem/commons/list.h:638-652 | `AVS_LIST_SORT` keeps the same elements, orders them by merge sort, and sorts them ascending whenever the comparator orders every pair one way or the other |
| AvsList.List.DeleteIf | list/include_public/avsystem/commons/list.h:553-594 | deletes the element at slot k exactly when the predicate holds for it, and otherwise leaves the list as it was |
| AvsList.List.DeletableTurn | list/include_public/avsystem/commons/list.h:538-594 | one turn of `AVS_LIST_DELETABLE_FOREACH_PTR`: the element reached through the slot is the next original element and is recorded as visited; the survivors grow by it unless it was deleted, and the slot and the helper move on consistently |
| AvsList.List.DeleteWhere | list/include_public/avsystem/commons/list.h:553-594 | the deletable walk visits every element once, in order, and leaves exactly the elements that fail the predicate, in their order |

## Left out

- `avs_coap_msg_code_to_string`, `AVS_COAP_CODE_STRING`, `avs_coap_msg_summary` and `avs_coap_msg_debug_print`: these are text formatting and logging.
- Several functions of `coap/msg.h` are only declared in the header: the code and type accessors, `avs_coap_msg_header_get_token_length`, `avs_coap_msg_get_id`, `avs_coap_msg_get_token`, the iterator functions, `avs_coap_msg_payload`, `_payload_length` and `avs_coap_msg_is_valid`.
  - Their bodies are not part of this model.
  - They are modelled from their doc comments, the bit masks the header defines, and the option format of sections 3 and 3.1 of RFC 7252.
- Bytes are integers 0..255. Masks and shifts on them are written as division, remainder and multiplication.
- CoapMsg.GetId: reads the two ID bytes as a big-endian number. It is not expressed through `avs_convert_be16`; `Numbers.NetworkOrder16Value` states the link separately.
- CoapMsg.OptIterator.Begin: requires a valid message. This is a restriction of the model: `avs_coap_opt_begin`, `_next`, `_end` and `_number` carry no such note in the header (only `avs_coap_msg_payload` and `_payload_length` are documented as unsafe on invalid messages), but the model states the iterator's behaviour only for messages that pass `avs_coap_msg_is_valid`.
- CoapMsg.Msg: the flexible array member is a byte sequence, and `Backed` says it is at least `length - 4` long.
  - `CoapMsg.IsValid` treats a message whose length exceeds its buffer as invalid. The C `avs_coap_msg_is_valid` cannot detect that case and would read past the buffer.
  - `Validate`, `Body`, `TokenReadable`/`GetToken` and the iterator require `Backed`.
- CoapMsg.GetToken: requires a token-length field of at most 8 and a token inside the message (`TokenReadable`). The model gives no behaviour for a field above 8 or for a token running past the length. It relies on callers validating first; `avs_coap_msg_get_token` is only declared, with the documented result bound `0 <= length <= 8`.
- Allocation and release:
  - `AVS_LIST_NEW_ELEMENT` and the configurable alloc and free hooks are not modelled.
  - AvsList.List.InsertNew: allocation failure is the `allocOk` parameter, and a new element's zero-filled data is the `zero` value.
  - Released elements simply leave the list; memory reuse is not modelled.
- AvsList.List.Sort: is modelled as collecting the elements, merge-sorting the sequence, and relinking. It is not the in-place splicing of the C merge sort. Its ascending guarantee is conditional on a comparator that orders every pair one way or the other. Stability is not stated.
- AvsList.List.NthPtr: returns none whenever there is no element n, including at n == size, where the final NULL slot exists. The header documents only "NULL if not found"; the body of `avs_list_nth_ptr__` is not part of this model.
- AvsList.List.FindByValuePtr: calls the comparator as `cmp(element, value)`, an argument order the body of `avs_list_find_by_value_ptr__` (not part of this model) does not show.
- AvsList.List.DeleteWhere: models `AVS_LIST_DELETABLE_FOREACH_PTR` only with the loop body "delete the element if the predicate holds". Arbitrary loop bodies, `break` and `AVS_LIST_DELETABLE_FOREACH_PTR_VALID` as a separate check are not modelled.
- AvsList.List.Clear: the optional cleanup block that `AVS_LIST_CLEAR` runs on each element before freeing it is not modelled.
- AvsList.List.Append and AvsList.List.Clear: take the list object as the `T **` list pointer, so they always work on the list head. Passing an interior slot is covered by Insert and Detach.
- Numbers.RandR: `AVS_RAND_MAX` is the parameter `randMax`, required to be below 0xFFFF_FFFF so that `AVS_RAND_MAX + 1` does not wrap. The conversion of the `unsigned` result to `int` is not modelled.
- Numbers.ConvertBe16: (and the 32 and 64 variants) the build-time byte order is the `ByteOrder` parameter rather than a compile-time switch.
- Concurrency, logging and the red-black tree, stream and mbedtls modules are outside the core.
