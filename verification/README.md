# RTL codec model

RTL is a self-describing binary format for Go values with one encoder and two decoders written
independently of each other: a recursive reader (readers.go) and an event decoder (events.go,
nestedhandlers.go, kindhandlers.go), a loop over an explicit stack of states. This project models the
format, the encoder and both decoders in Dafny and proves how they relate, for ints and uints of every
width, bools, strings, `*big.Int`, byte strings, arrays, slices, maps, structs and pointers.

## How it is put together

- `Numeric`, `Headers`, `Wire`: big-endian integers, the header table, and the items of the format with
  their bytes. `Skipping` and `Reader`: the recursive grammar of a skipped item and the byte reader whose
  `Skip` walks it with a stack of headers.
- `Values`, `Layout`: types and values, struct layout by order tags, and truncation by version.
- `Encoding` (`WireOf`: the item a value is written as) and `Writers` (the writer functions, which append
  its bytes).
- `Decoding` (`Dec`): decoding by recursion on the type, for both decoders at once. `Decoder.events` selects
  the places where they differ; `Decoder.popSkip` selects the skip as written or the repaired one.
- `Leftover`, `Stability`, `Schema`, `Passing`, `RoundTrip`, `Destinations`, `NormalForm`, `Nesting`, `Migration`,
  `Conversions`, `Compact`, `MapOrder`, `Typing`: what holds of `Dec` and `WireOf`. `Format`: the format at literal
  inputs.
- `Cursors`: decoding a container from the middle. `RecursiveReader`: the methods of readers.go, proved to do
  what `Dec` says.
- `Machine`: the event decoder's states, and what a stack of them stands for in the recursion. `Steps` and
  `HeaderEvents`: what each step does to that; `Effort`: why the steps come to an end. `Context`,
  `NestedHandlers`, `KindHandlers`, `EventDecoder`: the methods that take the steps. Every one keeps what the
  whole run ends with, so `Handle` refines the recursion on every byte sequence, well formed or not.
- `Codec`: the entry points. `Instances`: inputs at which the code falls short.

A frame of the recursion at nesting depth d is the state at index d of the stack. `Handle` ends because every
turn reads a byte or lessens the work of the stack: the elements its handlers still have to begin, and for a
string or a pointer a bound that follows the type.

## What the code does less than it is meant to do

Each of these is modelled as the code has it, and its exact condition is proved.

- valuereader.go:225 leaves the whole skip at the end of the first array. `Skipping.SkipExact`: it is right
  exactly when arrays nest in last position only. `popSkip` is the line repaired, proved beside it. Data of
  another struct type or array length is read in step exactly when everything passed over nests so:
  `Passing.StructDecodes`, `Migration.StructMigrates`, `Migration.ArrayMigrates`. Inputs:
  `Instances.SkipStopsEarly`, `Instances.FieldBehindSkip`.
- readers.go:369-370 and readers.go:239 leave surplus items unread, the event decoder skips them:
  `Passing.StructDecodes`, `Migration.StructMigrates`, `Migration.ArrayMigrates`. Inputs:
  `Instances.SurplusField`, `Instances.SurplusElement`.
- readers.go:58-59 with numeric.go:259-265: big integers strictly between -2^64 and -2^63 are changed by the
  recursive reader, and only those: `Numeric.SmallNegativeBig`, `NormalForm.SameRestored`. Input:
  `Instances.GapBigInt`.
- readers.go:446-473, kindhandlers.go:82-113 and numeric.go:259-265: a number that does not fit the kind it is read
  into is cut to the kind's width, and one below -2^63 loses its sign: `Conversions.IntoInt`,
  `Conversions.IntoUint`. Inputs: `Format.NarrowedUint`, `Format.NarrowedInt`, `Format.AboveInt64`, `Format.BelowInt64`.
- readers.go:196-200 reads a lone byte one level deeper, so a one-byte slice at depth 100 is written but not
  read (`Instances.DeepByte`); a byte array of length zero is written as Empty, which no array takes
  (`Instances.NoBytes`); valuereader.go:91-93 refuses lengths beyond int32 in the event decoder only
  (`Instances.LongString`). `Nesting.AcceptedExact`: nothing else the writer accepts is refused.
- types.go:481-491 accepts some equal order tags, and a struct laid out so writes more items than it announces:
  `Layout.LaidOut`, `Encoding.RepeatsWritten`. Input: `Layout.DuplicateTagsPass`.
- readers.go:314-316 keeps the entries of a map that is not nil. `MapOrder.DestinationExact`: what comes back
  depends on the destination exactly when a map in it has a key that is not in the data. Input:
  `Instances.OldKeyKept`.
- readers.go:239-244 keeps the elements of an array beyond the data: `Migration.ArrayMigrates`,
  `Migration.ByteArrayMigrates`. Input: `Instances.OldElementKept`.
- A pointer to something written as Zero comes back nil (`Instances.PointerToZero`); which values come back as
  they were is `NormalForm.SurvivesExact`. The nil can drop a struct version, so encoding what came back does not
  always write the same bytes: `NormalForm.ReencodedBytes` with `NormalForm.KeptAgain`. Input:
  `NormalForm.VersionLost`.

## Model

| member | source | states |
|---|---|---|
| Numeric.WriteUint | numeric.go:29-108 | fills the buffer from an offset with the shortest big-endian bytes of any uint64 and nothing else, or changes nothing and fails exactly when they do not fit |
| Numeric.BytesToUint | numeric.go:182-196 | is the number in the last n bytes, whatever precedes them, and never wraps |
| Numeric.ValueOfUintBytes | numeric.go:29-108 | the written bytes stand for the number |
| Numeric.UintBytesShortest | numeric.go:29-108 | no other byte sequence for the number is as short |
| Numeric.UintRestored | numeric.go:198-200 | every uint64 is read back from its bytes |
| Numeric.IntRestored | writers.go:201-209 | every int64, the least one included, is read back from the sign and magnitude the writer forms by wrapping negation |
| Numeric.SmallNegativeBig | readers.go:52-64 | what the recursive reader makes of a negative big integer of up to eight bytes: right exactly outside the gap strictly between -2^64 and -2^63 |
| Format.BigEndian | numeric.go:182-196 | bytes are big-endian: what stands before counts 256 times as much per byte behind it |
| Headers.MaskIsRemainder | types.go:45-51 | masking an eight-bit word with a wildcard or its complement takes or drops a remainder |
| Headers.LowBitsIsRemainder | types.go:49-51 | the low bits of the model are that remainder |
| Headers.TableShape | types.go:207-222 | masks and wildcards of every row are complements, and codes have no low bits |
| Headers.MatchIsParse | types.go:207-222 | a byte matches a row exactly when the row is the one its range names, so rows never overlap |
| Headers.ParseRTLHeader | valuereader.go:246-266 | the answer is the same for every order in which the table is walked, errors included |
| Headers.LengthHeaderParses | types.go:268-363 | a length header of any family and any length from 1 to 2^64-1 parses back to its family and length, with the fewest length bytes |
| Headers.StringBuf | types.go:268-284 | fills the buffer with the string header, or reports that it does not fit; nothing behind it changes |
| Headers.NumericBuf | types.go:299-325 | the same for number headers of either sign |
| Headers.ArrayBuf | types.go:347-363 | the same for array headers |
| Headers.MakeHeader | types.go:365-375 | the allocating form: nothing for a length that is not positive, the whole header otherwise |
| Format.HeaderBytes | types.go:268-363 | the header bytes of every family, at their shortest and longest one-byte lengths and the first long ones |
| Format.HeaderOfByte | types.go:207-222 | what each of the 256 bytes is as a header |
| Wire.ConcatLength | valuereader.go:134-137 | items take at least one byte each, so no announced count exceeds the bytes that follow |
| Wire.HeadReads | valuereader.go:129-139 | reading the head of any encoded item with anything behind it never trips the multi-length guard; only the event decoder's int32 bound can refuse it, and exactly when exceeded |
| Wire.CountGuard | valuereader.go:129-139 | a header is refused exactly when it is a long one that announces more than follows it |
| Wire.ItemUnique | types.go:207-222 | two encoded items that begin the same bytes are the same item |
| Wire.PrefixFree | types.go:207-222 | no encoding of an item is a proper prefix of another |
| Wire.ConcatUnique | types.go:207-222 | any concatenation of encodings splits back into the same items in only one way |
| Skipping.SkimItem | valuereader.go:178-244 | what a skip of any encoded item leaves unread, as written and with a pop in place of the break |
| Skipping.SkipExact | valuereader.go:220-244 | the skip as written consumes exactly one item if and only if its arrays nest in last position only; with a pop, always |
| Leftover.SkimLeaves | valuereader.go:220-244 | a skip leaves at least the items behind the first, and at least one item too many when it does not pass the first completely |
| Leftover.SkipManyExact | events.go:207-215 | n skips end behind n items if and only if every one of the items can be skipped |
| Leftover.DecLeaves | readers.go:539-693 | from n + 1 items or more, with anything behind them, a successful decode leaves n items or more and what is behind them, for every type, destination, decoder and skip: no decoder reads past its own item |
| Stability.SkimStable | valuereader.go:145-244 | a skip that succeeds is the same skip when more bytes follow |
| Stability.NoPrefixSkipped | valuereader.go:163-168 | no proper prefix of an encoded item is skipped: of any item with a pop, and as written of items whose arrays nest in last position only |
| Stability.CutSkipped | valuereader.go:220-244 | as written, a cut item is skipped only when what is missing is among what the skip would not have reached |
| Stability.DecStable | readers.go:539-693 | a decode that succeeds gives the same value when more bytes follow, for every type, destination, decoder and depth |
| Stability.NoPrefixDecoded | readers.go:539-556 | no decoder accepts a proper prefix of what was written, whatever the destination held |
| Reader.ValueReader.ReadByte | valuereader.go:99-113 | the next byte or an end of file |
| Reader.ValueReader.ReadHeader | valuereader.go:69-78 | the parsed next byte |
| Reader.ValueReader.ReadBytes | valuereader.go:268-286 | exactly that many bytes; asking for none, or for more than there are, is an error |
| Reader.ValueReader.ReadMultiLength | valuereader.go:129-139 | the length in the length bytes, refused when nothing is left or it exceeds what is left |
| Reader.ValueReader.ReadMultiLengthBytes | valuereader.go:304-316 | such a length and then as many bytes |
| Reader.ValueReader.ReadFullHeader | valuereader.go:80-97 | a header with its length, refused beyond int32 |
| Reader.ValueReader.SkipBytes | valuereader.go:145-169 | passes over exactly the bytes asked for, in blocks of 512, and counts what it passed |
| Reader.ValueReader.SkipTop | valuereader.go:220-242 | one turn of the loop leaves what the header stack stands for in the recursive grammar unchanged, and makes progress |
| Reader.ValueReader.Skip | valuereader.go:178-244 | the explicit header stack succeeds exactly when the recursive grammar does, ends where it ends, and answers the number of bytes consumed |
| Layout.StructFields | types.go:412-516 | lays out the fields by the filled-in tags, or fails exactly when a tag is negative or does not fit its position |
| Layout.OrdersPass | types.go:478-491 | with pairwise distinct tags the order check passes exactly when the least tag is at least the number of untagged fields |
| Layout.LayoutOrders | types.go:478-506 | what passes has orders at least the position and versions that never decrease, and strictly increasing orders exactly when no two tags are equal |
| Layout.OrdersAccepted | types.go:412-491 | the same in terms of the declared fields: with distinct tags the orders are accepted exactly when the least tag is at least the number of fields without one |
| Layout.LaidOut | types.go:412-516 | an accepted layout has each exported field that is not ignored once, with versions that never decrease, and the struct type it describes has strictly increasing orders if and only if no two declared tags are equal |
| Layout.TagsKept | types.go:478-506 | every field of the layout has its own declared tags; a missing order is the position, a missing version that of the field before; fields without an order tag come first as declared, the others by their tags |
| Layout.CollectedExact | types.go:437-467 | the declarations are refused before sorting exactly when a field that takes part has a negative tag |
| Layout.TagsAccepted | types.go:478-506 | sorted fields are accepted exactly when every order tag is at least its field's position and the version tags never decrease along the layout |
| Layout.DuplicateTagsPass | types.go:412-516 | two declared fields with the same tag are laid out with the same order |
| Layout.KeptExact | types.go:516-541 | the kept fields are exactly those whose version is at most the highest in use (at least the first field's), the first is kept, and every dropped field is zero |
| Layout.VersionedFields | types.go:518-541 | the walk from the last field down finds that prefix and announces one above its last order |
| Encoding.FieldItemsAt | writers.go:342-390 | a struct is written as exactly the announced number of items: each field at the position of its order, Zero elsewhere |
| Encoding.RepeatsWritten | writers.go:342-390 | with orders that never decrease, a struct writes one item more than it announces for every field that repeats an order; none if and only if the orders strictly increase |
| Encoding.WireValid | writers.go:33-99 | every value a Go program can hold is written as a well-formed item |
| Compact.OwnByte | writers.go:167-194 | each number below 128, of every kind, is its own single byte, and so is such a byte as a string or byte slice |
| Compact.Shortest | writers.go:167-194 | no valid item that decodes to the same int, uint, big integer, bool or string, in either decoder, is shorter than the one written |
| Format.NumberBytes | writers.go:167-194 | the bytes of some numbers |
| Format.MarkBytes | types.go:207-222 | the bytes of bools, nil, empty slices and empty strings |
| Format.TextBytes | writers.go:101-130 | the bytes of some strings |
| Writers.BytesWriter | writers.go:101-130 | appends the item of a byte string |
| Writers.SmallNumberWriter | writers.go:167-194 | appends the item of a sign and a 64-bit magnitude |
| Writers.IntWriter | writers.go:201-209 | appends the item of an int64 by its true magnitude, although the negation wraps |
| Writers.WriteHeaded | writers_priors.go:85-96 | appends a length header and its bytes |
| Writers.WriteBigInt | writers_priors.go:98-110 | appends the item of a big integer |
| Writers.ZerosPlacehold | writers.go:332-340 | appends that many Zero items |
| Writers.ArrayWriter0 | writers.go:231-266 | succeeds exactly when no element nests too deep, and appends the announced elements |
| Writers.MapWriter0 | writers.go:283-325 | the same for keys and values in alternation |
| Writers.StructWriter0 | writers.go:342-390 | the same for the kept fields of a struct, with Zero items in the holes, whatever its orders: the number announced is one above the last order kept |
| Writers.ValueWriter0 | writers.go:33-99 | succeeds exactly within the nesting limit, then appends the value's item and answers its length |
| Writers.Marshal | encode.go:25-33 | the bytes of the whole value, or the nesting error |
| Nesting.WritableIsDepth | writers.go:33-99 | a value is accepted at a depth exactly when the depth and the array depth of what would be written are at most 100 together |
| Format.NestingLimit | writers.go:33-36 | a hundred nested slices are written and read, a hundred and one are refused by the writer and the recursive reader but not by the event decoder |
| Format.LengthLimit | valuereader.go:91-93 | the event decoder reads strings of up to 2^31 - 1 bytes; the recursive reader has no such limit |
| Schema.ZeroDecodes | readers.go:577-579 | a Zero item decodes to the zero value in every type and every destination |
| Passing.StructDecodes | readers.go:349-392 | any valid items into any struct type with strictly increasing orders and any destination, for both decoders: the decoder ends behind what it should read if and only if every item it passes over can be skipped and every item of a field can be read; then each field holds its item's outcome, or zero where there is no item of its order |
| RoundTrip.RoundTrip | readers.go:539-693 | for every value of a well-formed type, at every depth, in every destination and before any bytes: decoding what was written succeeds if and only if the value is readable, and then gives the form it lands in (maps add to the entries of the destination, everything else is replaced) and leaves exactly the rest |
| RoundTrip.LandedFresh | readers.go:314-316 | in a destination whose maps have no entries, whatever else it held, that is the normal form |
| RoundTrip.MapFreeBack | readers.go:539-693 | for types without maps, what is read back does not depend on what the destination held |
| Destinations.SliceReused | readers.go:286-294 | reading a slice: each element is read into the old one at its index, those between length and capacity included, when they are enough, and otherwise each into a zero value |
| Destinations.ArrayReused | readers.go:235-251 | reading an array: each element is read into the old one |
| Destinations.StructReused | readers.go:357-389 | reading a struct: each written field is read into the old one, and the others are zeroed |
| Destinations.TargetReused | readers.go:675-691 | reading a pointer: what it pointed to is read into, or a new zero value for nil |
| Destinations.EntriesFresh | readers.go:320-332 | reading a map: each value is read into a new zero value and put into the old entries under its key |
| Destinations.ItemsIntoSlice | readers.go:589-611 | an array of any items into a slice of any type, bytes included: each item has its own outcome, and the slice fails exactly when one of them does |
| Destinations.ItemsIntoArray | readers.go:235-251 | the same into an array of as many elements |
| RoundTrip.BigBack | readers.go:394-414 | every big integer comes back, except through the recursive reader in the gap |
| Nesting.AcceptedExact | readers.go:196-204 | of what the writer accepts, the recursive reader reads back exactly the values that reach no byte array of length zero and no lone byte below 128 at the nesting limit; the event decoder exactly those that reach no byte array of length zero and have no length beyond int32 |
| Nesting.AcceptedReadable | readers.go:558-561 | what the writer accepts is readable: below the very limit for the recursive reader, with int32 lengths for the event decoder, in types without byte arrays of length zero |
| Nesting.BothDecode | events.go:451-493 | what each decoder makes of accepted data, by that condition, and that the values they give agree exactly when no big integer lies in the gap |
| NormalForm.DecodersAgree | events.go:361-449 | whatever both can read, they read alike exactly when no big integer lies in the gap |
| NormalForm.SameRestored | typehandlers.go:81-99 | the two normal forms of a value are equal exactly then |
| NormalForm.RestoredTwice | readers.go:662-693 | a second round trip changes nothing more |
| NormalForm.RestoredHolds | readers.go:539-693 | the normal form is again a value a Go program can hold |
| NormalForm.SurvivesExact | readers.go:662-693 | the normal form is the value itself if and only if no pointer in it leads to something written as Zero, no slice has spare capacity, and no big integer is in the recursive reader's gap |
| NormalForm.ValueBack | decode.go:25-63 | decoding what was written gives the value itself if and only if it can be read and meets that condition |
| NormalForm.ReencodedBytes | writers.go:342-390 | encoding the normal form writes the same bytes if and only if no written big integer is in the gap and, in every struct written, the top version is the first field's or that of a field that does not fade |
| NormalForm.FadesExact | readers.go:662-693 | a value comes back as zero exactly when it is zero, a pointer to something written as Zero, or an array or struct of nothing else |
| NormalForm.KeptAgain | types.go:518-541 | a struct keeps as many fields when written again exactly when its top version is the first field's or that of a field that does not fade |
| NormalForm.VersionLost | types.go:518-541 | a struct for which it does not: a pointer to false in a later version comes back nil and the version is dropped |
| Typing.DecTyped | readers.go:539-693 | whatever the bytes, what either decoder puts into a destination is a value of its type |
| Migration.StructMigrates | nestedhandlers.go:331-366 | data of one struct type into another, whatever the destination held: the decoder ends where it should if and only if the written fields it passes over can be skipped and the shared ones can be received; then each field gets what was written at its order, or zero where there is a hole or nothing any more |
| Migration.FieldReceived | readers.go:357-389 | the same of a single field |
| Migration.ArrayMigrates | readers.go:235-251 | data of one array length into another, for elements other than bytes: elements beyond the data keep their old values, but no data at all zeroes the array; the recursive reader leaves the surplus unread, and the event decoder ends behind it if and only if each surplus element can be skipped |
| Migration.ByteArrayMigrates | readers.go:172-204 | the same for byte arrays, which are written as one string: surplus bytes are dropped by both decoders, and no bytes at all are refused |
| Conversions.IntoInt | readers.go:446-461 | any item into a signed kind of any width: taken exactly when it is a number of at most eight bytes; the result is in range and differs from the number by a multiple of the kind's size, where a number below -2^63 counts as positive |
| Conversions.IntoUint | readers.go:463-473 | any item into an unsigned kind: the same; negative numbers are refused |
| Conversions.IntoBig | readers.go:394-414 | any item into a big integer: every number as it is, except short ones below -2^63 in the recursive reader; Zero is nil |
| Conversions.IntNarrowed | kindhandlers.go:82-91 | every int64, into a signed kind of any width |
| Conversions.UintNarrowed | kindhandlers.go:103-113 | every uint64, into an unsigned kind of any width |
| Conversions.LongForm | readers.go:446-473 | numbers of up to eight bytes under a long header are taken by the event decoder as under a short one and refused by the recursive reader, except into big integers |
| Conversions.IntoBool | readers.go:492-501 | any item into a bool: Zero and True only |
| Conversions.IntoString | readers.go:503-532 | any item into a string: a lone byte, Zero or a string, as its bytes |
| Conversions.Refuses | readers.go:558-646 | every item that a type has no reader for is refused, pointers included, by both decoders |
| Conversions.TextIntoSlice | readers.go:172-194 | a string into a slice of numbers: each byte is a number, one level deeper |
| Conversions.TextIntoArray | readers.go:172-194 | the same into an array: as many bytes as fit, the other elements as they were |
| MapOrder.OrderIrrelevant | writers.go:283-325 | two values that differ only in the order of map keys, at any level, decode to values that differ only so, in the same destination and with the same bytes left, or both are refused |
| MapOrder.MapMerges | readers.go:308-335 | the contents of a decoded map: the data over the old entries, and nothing at all for an empty map; they are those of the data if and only if the data is empty or has every old key |
| MapOrder.DestinationExact | readers.go:612-628 | a value read into any destination comes back as in a fresh one, up to the order of keys, if and only if every map in it that is added to had only keys of the data |
| RecursiveReader.ToInt | readers.go:446-461 | reads exactly the integer headers, through int64, into the width of the kind |
| RecursiveReader.ToUint | readers.go:463-473 | the same for unsigned kinds |
| RecursiveReader.ToBool | readers.go:492-501 | reads exactly Zero and True |
| RecursiveReader.ToText | readers.go:503-532 | reads single bytes, Zero and strings |
| RecursiveReader.ToBigInt | readers.go:396-414 | reads numbers of any length, short ones through 64 bits |
| RecursiveReader.StringToArray | readers.go:172-194 | the bytes of a string into consecutive elements |
| RecursiveReader.SingleByteToArray0 | readers.go:196-204 | a lone byte into the first element, one level deeper |
| RecursiveReader.ToArray0 | readers.go:235-251 | the loop over the elements refines the recursion |
| RecursiveReader.ToMap0 | readers.go:308-335 | the loop over keys and values refines the recursion |
| RecursiveReader.ToField | readers.go:362-381 | one turn of the struct cursor; with strictly increasing orders the data index never passes the next field's order |
| RecursiveReader.ToStruct0 | readers.go:349-392 | the loop over the items and the zeroing of what is left refine the recursion |
| RecursiveReader.ToPointers | readers.go:662-693 | nil for Zero, otherwise the value pointed to, made new for a nil pointer |
| RecursiveReader.ToArrays | readers.go:573-588 | which headers an array takes, and what each leads to |
| RecursiveReader.ToSlices | readers.go:589-611 | which headers a slice takes, and what each leads to, with the slice resized first |
| RecursiveReader.ToMaps | readers.go:612-628 | which headers a map takes |
| RecursiveReader.ToStructs | readers.go:648-660 | which headers a struct takes |
| RecursiveReader.ValueReader1 | readers.go:558-646 | the dispatch on the type refines the recursion, the nesting limit included |
| RecursiveReader.ValueReader0 | readers.go:539-556 | for every type, destination, byte sequence and depth: the outcome and the bytes left are those of the recursion on the type |
| Machine.ResumePush | events.go:171-185 | pushing an element leaves what the stack ends with unchanged, when the state's work is the element's and then the rest |
| Machine.ResumePop | events.go:151-169 | popping a finished state leaves what the stack ends with unchanged |
| Machine.PutSound | events.go:151-169 | a state stays sound when an element of it is finished |
| Context.HandleContext.PopState | events.go:151-169 | removes the top and hands its value to the state below; fails exactly on an empty stack |
| Context.HandleContext.PushState | events.go:171-185 | puts a state without handler on the stack |
| Context.HandleContext.ReplaceStack | events.go:187-193 | takes the top through a pointer; fails exactly on an empty stack or a state in handling |
| Context.HandleContext.NestedStack | events.go:195-205 | gives the top a handler; fails exactly on an empty stack or when it has one |
| Context.HandleContext.SkipReader | events.go:207-215 | skips that many items one after the other |
| Context.HandleContext.Settle | events.go:151-169 | setting the top's value and popping it keeps the run's ending and the invariant that every state below the top has a handler with an element begun; the empty-stack error cannot arise |
| Context.HandleContext.Nest | events.go:195-205 | giving the top a handler keeps both; the errors of a second handler cannot arise |
| Context.HandleContext.Through | events.go:74-81 | going through a pointer keeps both; the error of a state in handling cannot arise |
| Context.HandleContext.Begin | events.go:171-185 | advancing the handler on top and pushing its element keeps both |
| Steps.KeyBegunSound | nestedhandlers.go:90-95 | a key is begun only with both caches empty, at even indices |
| Steps.ValueBegunSound | nestedhandlers.go:96-105 | a value is begun only with the key's cache filled and its own empty, at odd indices |
| Steps.StructFails | nestedhandlers.go:343-346 | an item beyond the next field's order is an error of the recursion too, and impossible with strictly increasing orders |
| Steps.StructEnds | nestedhandlers.go:349-365 | at its end a struct's fields without items are zeroed and its items without fields skipped |
| NestedHandlers.MapStep | nestedhandlers.go:75-106 | every step keeps the run's ending and lessens the work; none of the four cache errors can arise |
| NestedHandlers.PutEntry | nestedhandlers.go:76-84 | behind a value both caches are filled; the entry goes in and they are emptied |
| NestedHandlers.SliceStep | nestedhandlers.go:156-163 | every step keeps the run's ending and lessens the work |
| NestedHandlers.ArrayStep | nestedhandlers.go:208-223 | the same, with the surplus items skipped after the pop; an error is an error of the recursion |
| NestedHandlers.BytesStep | nestedhandlers.go:275-282 | the same for the bytes of a string read one by one |
| NestedHandlers.StructStep | nestedhandlers.go:331-366 | the same for the struct cursor, whose data index never passes the next field's order when orders strictly increase |
| HeaderEvents.PointerBecomes | kindhandlers.go:294-304 | reading a header for a pointer is reading it for what it points to |
| HeaderEvents.CopyRuns | kindhandlers.go:196-200 | a string or single byte for bytes is copied in place |
| HeaderEvents.BytesBecomes | kindhandlers.go:201-207 | for other elements it is read byte by byte |
| HeaderEvents.Refused | events.go:248-265 | the headers a type with parts does not take are errors of the recursion too |
| KindHandlers.IntHandler | kindhandlers.go:74-91 | what each header does to an integer |
| KindHandlers.UintHandler | kindhandlers.go:93-113 | what each header does to an unsigned integer |
| KindHandlers.BoolHandler | kindhandlers.go:139-147 | what each header does to a bool |
| KindHandlers.StringHandler | kindhandlers.go:149-162 | what each header does to a string |
| KindHandlers.BigIntPtrHandler | typehandlers.go:81-99 | what each header does to a big integer; no number is too large |
| KindHandlers.PointerHandler | kindhandlers.go:275-336 | every header keeps the run's ending and lessens the work; replacing cannot fail |
| KindHandlers.ArrayHandler | kindhandlers.go:196-229 | the same for arrays; an error is an error of the recursion |
| KindHandlers.SliceHandler | kindhandlers.go:231-273 | the same for slices, resized first |
| KindHandlers.MapHandler | kindhandlers.go:164-181 | the same for maps, refused at an odd count |
| KindHandlers.StructHandler | kindhandlers.go:183-194 | the same for structs |
| Effort.NestedWeight | kindhandlers.go:196-244 | the work a header announces outweighs that of the nested handler made for it |
| Effort.DeliveredWeight | events.go:151-169 | a popped state's value adds no work to the state below |
| EventDecoder.ReadTop | events.go:383-409 | reading the header of a fresh state consumes bytes and keeps the run's ending |
| EventDecoder.Handle | events.go:361-449 | terminates on every byte sequence; on success the stack is empty and the value and the bytes left are what the stack stood for, and it fails only when that is an error |
| EventDecoder.Decode | events.go:451-493 | for every type, destination and byte sequence, the stack machine's outcome and the bytes it leaves are those of the recursion on the type |
| Codec.DecodeV1 | decode.go:36-63 | the recursive reader from a reader that can be read on from |
| Codec.DecodeV2 | decode.go:65-67 | the event decoder from such a reader |
| Codec.Unmarshal | decode.go:25-27 | the recursive reader, with the skip as written, from a buffer |
| Instances.SkipStopsEarly | valuereader.go:220-227 | skipping an array of an array and True leaves the True unread; with a pop nothing is left |
| Instances.FieldBehindSkip | readers.go:373-376 | with such an array for an unknown field, the next field of a struct is not read back by either decoder; with a pop it is |
| Format.NothingAnnounced | valuereader.go:80-97 | a long header that announces nothing is refused, except an array's with something behind it |
| Format.NoElements | readers.go:280-294 | an array of no items into a slice: nil stays nil, another slice is emptied |
| Format.NoEntriesThere | readers.go:308-316 | an array of no items into a map: its entries stay |
| Instances.SurplusField | readers.go:357-389 | the item of a field the target does not have is left unread by the recursive reader only |
| Instances.SurplusElement | readers.go:239-244 | the same for an element |
| Instances.OldElementKept | readers.go:239-244 | an element beyond the data keeps its old value in both decoders |
| Instances.OldKeyKept | readers.go:314-316 | an old key stays in a map that is read into, except when the data is an empty map |
| Instances.OldKeysKeptInside | readers.go:314-316 | the same of maps in a slice, its capacity included, in an array, in a struct and behind a pointer |
| Instances.NoBytes | readers.go:573-588 | a byte array of length zero is written and read back by neither decoder |
| Instances.LongString | valuereader.go:91-93 | a string of 2^31 bytes is read back by the recursive reader and refused by the event decoder |
| Instances.GapBigInt | readers.go:58-59 | -2^63 - 1 comes back from the recursive reader as -2^63 + 1 |
| Format.NarrowedUint | readers.go:117-125 | 300 into a uint8 is 44 |
| Format.NarrowedInt | readers.go:106-114 | -300 into an int8 is -44 |
| Format.AboveInt64 | numeric.go:259-265 | 2^63 into an int64 is -2^63 |
| Format.BelowInt64 | numeric.go:259-265 | -2^63 - 1 into an int64 is -2^63 + 1 |
| Format.CutString | valuereader.go:163-168 | a string of five bytes cut after two is neither skipped nor decoded |
| Instances.DeepByte | readers.go:196-200 | a one-byte slice at depth 100 is written, refused by the recursive reader and read by the event decoder |
| Instances.PointerToZero | readers.go:662-693 | a pointer to false comes back nil |
| Codec.StreamBack | decode.go:29-34 | values written one after the other are read back one after the other with one reader |

## Left out

- Reflection: `reflect.Type` and `reflect.Value` are the datatypes `Type` and `Value`; `CanSet`, invalid values, named conversions and named byte types are not modelled.
- Destinations are trees handed in and out by value. In the source they are written through; what a failed decode leaves behind in them, partial writes to a sink, sharing and cycles (of pointers, or of types) are not modelled.
- The event decoder's elements hold their own value while they are on the stack and hand it to the state below when popped, where the source writes through a reference into the parent; states and handlers are values of the stack, and the pools they are recycled through are left out.
- Maps with pointer or interface keys: Go compares such keys by identity, so every decoded key is new; `Comparable` admits only keys compared by content.
- The capacity a resized slice keeps beyond its new length is not recorded in the decoded value.
- A destination that is not a value of its type is treated as the zero value; a Go program cannot have one.
- Floats, `big.Rat`, `big.Float`, `time.Time`, `big.Int` other than `*big.Int`, and the types convertible to them.
- User-defined `Encoder` and `Decoder` implementations, custom type and kind handlers, and `interface{}` values and targets.
- Struct version headers: no writer emits them and no reader gives them a value; their bytes do parse, and both decoders refuse them in every modelled type.
- Readers of unknown length and read errors other than the end of the input: the reader is over a byte sequence whose length it knows.
- `DecodeBigInt`, `EncodeBigInt`, `StructCodec`, and the deprecated narrow readers of numeric.go.
- Tag texts and names of struct fields: the layout starts from the parsed `rtlorder` and `rtlversion` numbers, and a struct type lists its fields in layout order.
- Error texts and logging; every error is the same error. The limits of memory: lengths are those of Go ints.
- Layout.StructFields: the type-info cache and the panics' texts are left out; a panic is the answer None.
