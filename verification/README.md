# EtwEnumerator: a verified model

EtwEnumerator takes one event record (a flat property table and an undifferentiated payload) and turns it into
a sequence of items, into JSON, or into the text of the event's message. This project models the parts of that
code whose correctness spans several functions, and proves what they promise for every event, every payload and
every run. Code that updates fields and buffers is modelled by classes and methods with the same fields, loops
and branches; each is proved against a pure specification, and the promises are proved about the specification.

## How the project is laid out

| files | what they are about |
|---|---|
| `Basics`, `Schema`, `Values` | 16- and 32-bit arithmetic, the property table, and how one value lies in the payload |
| `Decoder`, `Conservation`, `Slices`, `WireFormat` | the recursive decoder that serves as reference, the proof that it reads every byte once, the bytes behind each value, and the format of each type, with what counts and lengths that refer to integers do |
| `Machine`, `Runs` | MoveNext as a step on immutable states, its invariant, and runs: they are the decoder's items, and they end |
| `Replay`, `SecondPass`, `Siblings` | second passes and jumps back, and exactly when they are harmless; the loops that go over whole items |
| `Enumerator` | the class with the original's fields, whose methods compute the state machine's steps |
| `GrowableBuffer`, `FormattedText` | the resizable array under all formatters, its cost, the retry loop of StartEvent, and the retry loop of formatted appends |
| `JsonText`, `JsonForm`, `Digits` | RFC 8259 (parser, printer, in-place escaper) and printed numbers |
| `JsonTree`, `JsonStructure`, `JsonItems`, `JsonPrinter`, `EventJson`, `EventMembers` | the JSON printer driven by the enumerator, the tree its text parses to, and what that tree says about the event |
| `Printf`, `Expansion`, `Messages`, `PropertyTable`, `Formatter`, `EventMessage` | printf specifications, the pure meaning of a message and what it gives for each kind of reference, the table of properties, the formatter on its scratch buffer, and an event's whole message |
| `EventText` | an event's text: its message, or its JSON when a message is missing |
| `Attributes`, `IPv6`, `IPv6Forms`, `ValueMaps` | attribute strings, IPv6 addresses, value maps and bit maps |

The main results are, in this order: `Runs.EnumerationIsDecoding` with `Enumerator.EtwEnumerator.MoveNext`;
`Formatter.FormatContext.AddFormatImpl` with `EventMessage.AddCurrentEvent`, `EventMessage.MessageIsInOrder`
and `EventText.FormatCurrentEvent`; `JsonItems.PrintedIsJson` with
`JsonPrinter.AddCurrentItemAsJsonAndMoveNext` and `EventJson.AddCurrentEventAsJson`; `SecondPass.SecondPassIsSame`
and `Replay.ReplayIsIdentical` with `PropertyTable.FormatTable.AddJson` and `PropertyTable.JumpPrints`; `Siblings.JumpIsWalk` with
`Enumerator.EtwEnumerator.MoveNextSibling`; `Conservation.PayloadConserved`; `WireFormat.CountDecides`, `EventMembers.MetaIsTheHeader`,
`Messages.AddedSpaceIsRemoved`, `ValueMaps.BitMapReads` and `IPv6Forms.DottedExactly`, which say what is decoded and
printed without the tables that decoding and printing use; and the round trips of JSON strings,
attribute strings, printf specifications and IPv6 addresses.

## What is taken for granted

- A property table is well formed (`Schema.WellFormed`): references and member ranges lie inside it, members of
  a struct come after the struct and after all top-level properties, and the payload is shorter than 64 KiB
  (its length is a USHORT). Nothing is assumed about the payload's contents.
- Replays and jumps are harmless when each reference names an earlier integer of the same or an enclosing group
  (`Replay.BackwardGroup`), a condition on the property table alone. Without it they may not be
  (`SecondPass.ForwardReferenceDoesNotReplay`); `SecondPass.SecondPassIsSame` and `SecondPass.JumpIsSame` give the
  exact conditions, for all events.
- `m_lastError` is success when a run starts. The path of StartArray for arrays of fixed-size elements
  (`EtwEnumerator.cpp:1190-1202`) relies on that, because it does not write the field.
- Leaf renderings (`AddValueWithMapName`), variables, and the callbacks are functions the model takes as
  parameters. The JSON results assume of renderings only that a "clean" string needs no escaping and that a
  literal is a JSON literal (`JsonTree.Sound`).
- Memory is a limit on the size of allocations and on the number of stack frames; every operation has its
  out-of-memory branch.

## What the code does, where that may surprise

- A value with a two- or four-byte count is accepted even when count plus prefix wraps around 16 bits; its
  cooked slice then reaches beyond its raw slice and beyond the payload. `Values.CookedInsideRaw` gives the exact
  condition, `Slices.WrappedCountEscapes` a payload of two bytes that is read as 65534 bytes.
- When GetParameterMessage does not find a message the whole format fails with that error. The header says the
  reference is left as it is (`EtwEnumerator.h:853-900`); the model follows the code.
- The header promises a name for the item when the name flag is set (`EtwEnumerator.h:1081-1084`); the code
  prints none for values and structs that are elements of an array, and neither does the model
  (`JsonItems.ElementHasNoName`, at the element of a one-element array).
- Looking up the empty attribute name also stops at segments that splitting leaves out
  (`Attributes.EmptyNameDiffers`); `Attributes.LookupIsFirst` says exactly when the two agree.
- When a bit-map name does not fit in memory, the text for "nothing matched" is still printed behind the names
  that did, and if that fits the call succeeds: `ValueMaps.MatchedButUnknown` is such a call,
  `ValueMaps.FormatBitMap` gives the exact condition. What fits is decided by a buffer that grows in steps of 100
  characters, so text may be refused although it is within the maximum (`FormattedText.SummitBelowMaximum`).
- An event without a name but with a FILE and no LINE attribute is named by the file directly followed by id and
  version; the file that was already appended is not taken back (`EventJson.FallbackOfPairs`).
- When the fallback name runs out of memory, part of it stays on the scratch buffer; every other failure of
  AddCurrentEventAsJson gives the scratch buffer back (`EventJson.Restored`).
- Jumping back to a property reads its integers again, so with forward references what a number in the message
  shows depends on the numbers before it. `Expansion.Expand` carries the integer table along for that reason.
- In the sub-states before the first and after the last item, and in the error state, the original leaves some
  item fields unspecified. `Enumerator.Observable` forgets exactly those.

## Model

| member | source | states |
|---|---|---|
| Values.NarrowLengthIsFirst | EtwEnumerator/src/EtwEnumerator.cpp:1344-1364 | the length of a narrow string is the position of its first nul byte, or the whole range when there is none |
| Values.WideLengthIsFirst | EtwEnumerator/src/EtwEnumerator.cpp:28-49 | unaligned_wcsnlen finds the first 16-bit nul unit: none before it, one at it unless the range ran out |
| Values.CookedInsideRaw | EtwEnumerator/src/EtwEnumerator.cpp:1501-1531 | an accepted value's cooked slice lies inside its raw slice if and only if count plus prefix fits in 16 bits, and if and only if it lies inside the payload at all |
| Values.WideValuesAreEven | EtwEnumerator/src/EtwEnumerator.cpp:1314-1463 | every value reported as a UTF-16 string has an even cooked size, also when twice its character length wraps |
| Values.TerminatedTextExtent | EtwEnumerator/src/EtwEnumerator.cpp:1314-1366 | a string without a length is always accepted; its cooked slice holds no nul unit and ends at a nul that is consumed but not exposed, or at the last whole unit of the payload |
| Values.SizedExtent | EtwEnumerator/src/EtwEnumerator.cpp:1380-1463 | raw equals prefix plus cooked for every shape with a prefix or an implied size; odd UTF-16 counts lose one cooked byte |
| Values.StatedLength | EtwEnumerator/src/EtwEnumerator.cpp:1314-1376 | a string or binary value with a stated length n has n bytes, or n 16-bit units if and only if n is below 0x8000 |
| Slices.GroupReads | EtwEnumerator/src/EtwEnumerator.cpp:351-540 | every value item of a decoding, elements of simple arrays included, is what StartValue reports for its property at its place, with some integer table |
| Slices.DecodedSlices | EtwEnumerator/src/EtwEnumerator.cpp:1215-1485 | for every value that a pass reports: its raw slice is inside the payload, and its cooked slice is inside the raw one exactly when its count did not wrap |
| Slices.WrappedCountEscapes | EtwEnumerator/src/EtwEnumerator.cpp:1501-1515 | the exception occurs: a two-byte payload is accepted as a counted string of 65534 bytes behind the payload, with a raw size of 0 |
| Slices.EncodedReads | EtwEnumerator/src/EtwEnumerator.cpp:1215-1485 | decoding an encoded value - of fixed or stated size, counted, or terminated - consumes the encoding and exposes exactly the value |
| WireFormat.TypeSizeReads | EtwEnumerator/src/EtwEnumerator.cpp:1243-1312 | a number, character, GUID or time of 1, 2, 4, 8 or 16 bytes, by type, exposes exactly its bytes |
| WireFormat.TerminatedReads | EtwEnumerator/src/EtwEnumerator.cpp:1314-1363 | narrow and UTF-16 text without a length ends in a nul character that is consumed and not exposed |
| WireFormat.StatedReads | EtwEnumerator/src/EtwEnumerator.cpp:1314-1374 | text and binary data with a length of their own or of another property have that many units; an IPv6 address without one has 16 bytes |
| WireFormat.PrefixedReads | EtwEnumerator/src/EtwEnumerator.cpp:1376-1403 | by type: the two bytes in front count the bytes of the value, low byte first or, for the reversed types, high byte first |
| WireFormat.OddPrefixedReads | EtwEnumerator/src/EtwEnumerator.cpp:1376-1387 | of an odd count UTF-16 text exposes one byte less and consumes all |
| WireFormat.HexDumpReads | EtwEnumerator/src/EtwEnumerator.cpp:1405-1417 | of the four bytes in front of a hex dump two count its bytes |
| WireFormat.RestReads | EtwEnumerator/src/EtwEnumerator.cpp:1419-1429 | text that takes the rest of the payload |
| WireFormat.SidReads | EtwEnumerator/src/EtwEnumerator.cpp:1437-1463 | a security identifier, with or without the user structure in front of it |
| WireFormat.NullReads | EtwEnumerator/src/EtwEnumerator.cpp:1431-1468 | a null has no bytes; a type is refused exactly when it is not known |
| WireFormat.IntegerIsRemembered | EtwEnumerator/src/EtwEnumerator.cpp:1243-1273 | for every 8-, 16- and 32-bit number that the payload holds, low byte first, reading it leaves exactly that number, or 0xffff above that, in its own entry of the integer table |
| WireFormat.OthersAreNotRemembered | EtwEnumerator/src/EtwEnumerator.cpp:1275-1468 | values of other types change no entry |
| WireFormat.ArrayListsCount | EtwEnumerator/src/EtwEnumerator.cpp:1080-1211 | an array lists its begin, as many values as its count says, in order, and its end |
| WireFormat.ScalarListsOne | EtwEnumerator/src/EtwEnumerator.cpp:1000-1010 | a property that is neither a struct nor an array lists one value |
| WireFormat.StructArrayListsCount | EtwEnumerator/src/EtwEnumerator.cpp:1017-1059 | an array of structs begins as many of them as its count says |
| WireFormat.StructListsMembers | EtwEnumerator/src/EtwEnumerator.cpp:1062-1077 | a struct lists the members that its property names between its begin and its end |
| WireFormat.FixedArrayIsThere | EtwEnumerator/src/EtwEnumerator.cpp:1190-1202 | an array of values of one size is decoded if and only if all its bytes are there |
| WireFormat.BeginShowsArray | EtwEnumerator/src/EtwEnumerator.cpp:1080-1211 | the begin item of an array shows the bytes of all elements if they have a size, and none otherwise |
| WireFormat.ElementIsAt | EtwEnumerator/src/EtwEnumerator.cpp:1487-1499 | the element with index j starts behind the j before it and shows its own bytes |
| WireFormat.NumberArrives | EtwEnumerator/src/EtwEnumerator.cpp:1243-1273 | whatever lies between, the number is still in the table when a later top-level property is reached |
| WireFormat.ReferredCount | EtwEnumerator/src/EtwEnumerator.cpp:1017-1026 | an array whose count refers to an integer lists exactly that number of values or structs |
| WireFormat.CountDecides | EtwEnumerator/src/EtwEnumerator.cpp:1017-1026 | so it does in a complete pass over any event |
| WireFormat.ReferredLength | EtwEnumerator/src/EtwEnumerator.cpp:1644-1670 | a string or binary value whose length refers to an integer has exactly that number of units, or is refused when they are not there |
| Conservation.ChainedSlices | EtwEnumerator/src/EtwEnumerator.cpp:705-716 | items that each start where the previous one ended move forward only, do not overlap, and their raw slices concatenate to the bytes they span |
| Conservation.GroupChained | EtwEnumerator/src/EtwEnumerator.cpp:377-418 | the items of any property range form such a chain from the cursor before them to the cursor after them, also when decoding stops early |
| Conservation.PayloadConserved | EtwEnumerator/src/EtwEnumerator.cpp:1471-1480 | raw slices of all values in order, followed by what remains, are exactly the payload; the cursor never moves back or past the end |
| Machine.EnterRefines | EtwEnumerator/src/EtwEnumerator.cpp:967-1055 | NextProperty produces exactly the next item the recursive decoder has left - the start of a property, the end of the enclosing struct, or the end of the event - and a valid state |
| Machine.PropertyRefines | EtwEnumerator/src/EtwEnumerator.cpp:994-1053 | starting a scalar, a struct or an array reaches the decoder's first item of that property or its error |
| Machine.NextRefines | EtwEnumerator/src/EtwEnumerator.cpp:351-540 | from every valid state one MoveNext reaches a valid state (flags, counts, element size and the remaining bytes of simple arrays agree with the sub-state) and consumes exactly one item of what the decoder still has to produce |
| Machine.SimpleRefines | EtwEnumerator/src/EtwEnumerator.cpp:384-408 | a simple array always has the bytes of its remaining elements left, so its elements need no check of their own |
| Machine.ComplexRefines | EtwEnumerator/src/EtwEnumerator.cpp:410-434 | moving through an array of variable-size elements follows the decoder element by element |
| Machine.StructsRefine | EtwEnumerator/src/EtwEnumerator.cpp:504-531 | after the end of a struct element comes the next element, the end of the array, or the next property, as the decoder says |
| Runs.StepsFollowRest | EtwEnumerator/src/EtwEnumerator.cpp:351-540 | from any valid state, k calls of MoveNext visit the first k items that are left; once they are used up the run stops with the decoder's cursor, table and outcome |
| Runs.EnumerationIsDecoding | EtwEnumerator/src/EtwEnumerator.cpp:333-540 | a run from the reset state visits the recursive decoder's items one by one, in order and with all their fields, and ends with its cursor, integer table and success or error |
| Runs.GroupIsBounded | EtwEnumerator/src/EtwEnumerator.cpp:974-993 | the number of items of a property range is bounded by a weight of the property table alone |
| Runs.PropertyIsBounded | EtwEnumerator/src/EtwEnumerator.cpp:994-1053 | the same for one property: at most 65535 elements per array, each with its members and two brackets |
| Runs.RunsTerminate | EtwEnumerator/src/EtwEnumerator.cpp:351-540 | every run has stopped after that many calls plus one, whatever the payload says |
| Replay.GroupReplays | EtwEnumerator/src/EtwEnumerator.cpp:333-349 | with backward references, decoding a property range with two tables that agree on what is known gives the same items, cursor and outcome, and tables that still agree |
| Replay.PropertyReplays | EtwEnumerator/src/EtwEnumerator.cpp:1008-1044 | the same for one property, which afterwards also agrees on the integer it defines |
| Replay.ReplayIsIdentical | EtwEnumerator/src/EtwEnumerator.cpp:333-349 | although Reset keeps the old integer table, a second pass lists identical items when every reference points to an earlier integer of the same or an enclosing group |
| SecondPass.SecondPassIsSame | EtwEnumerator/src/EtwEnumerator.cpp:333-349 | for every event and table: the pass after Reset lists the same items, cursor and outcome if and only if no length or count that the first pass took from an entry it had not yet written means another size by the end of that pass |
| SecondPass.GroupTwice | EtwEnumerator/src/EtwEnumerator.cpp:333-540 | two passes side by side agree on a property range and on what they leave in the table, or their items part inside it, exactly as that condition says |
| SecondPass.BackwardIsUndisturbed | EtwEnumerator/src/EtwEnumerator.cpp:333-349 | references to earlier integers of the same or an enclosing group are never disturbed |
| SecondPass.JumpIsSame | EtwEnumerator/src/EtwEnumerator_Format.cpp:1758-1764 | a jump back to a top-level property with the final table shows its items again if and only if none of the lengths and counts it used is another one by then |
| SecondPass.ForwardReferenceDoesNotReplay | EtwEnumerator/src/EtwEnumerator.cpp:333-349 | a real second pass that differs: a string whose length refers to the integer behind it |
| Replay.GroupWrites | EtwEnumerator/src/EtwEnumerator.cpp:1471-1480 | decoding a range of properties changes no table entry of another top-level property |
| Replay.GroupSplits | EtwEnumerator/src/EtwEnumerator.cpp:967-1055 | decoding a range is decoding its first part and then, from where that ended, its second part |
| Replay.SeekIsInOrder | EtwEnumerator/src/EtwEnumerator_Format.cpp:1758-1773 | jumping back to a top-level property after a complete pass gives the items it had when it was reached in order |
| Siblings.WalkGroup | EtwEnumerator/src/EtwEnumerator.cpp:543-592 | the loop that calls MoveNext until it is past the end of an item goes over exactly the decoder's items of the group |
| Siblings.WalkProperty | EtwEnumerator/src/EtwEnumerator.cpp:543-592 | for one property, at any depth: exactly its items, ending in front of the next property or at the error inside it |
| Siblings.WalkArray | EtwEnumerator/src/EtwEnumerator.cpp:543-592 | the same from the begin item of an array past its end item |
| Siblings.WalkStructs | EtwEnumerator/src/EtwEnumerator.cpp:543-592 | the same for the remaining elements of a struct property |
| Siblings.WalkOneStruct | EtwEnumerator/src/EtwEnumerator.cpp:543-592 | the same for one struct element between its brackets |
| Siblings.WalkSkipsProperty | EtwEnumerator/src/EtwEnumerator.cpp:543-592 | from a property's first item the loop stops where the enumerator stands after decoding the property |
| Siblings.JumpIsWalk | EtwEnumerator/src/EtwEnumerator.cpp:556-567 | the one-step jump over an array of fixed-size elements reaches the same state - cursor, table, position, item - as visiting every element |
| Siblings.NextShrinks | EtwEnumerator/src/EtwEnumerator.cpp:543-592 | every MoveNext leaves fewer items to come: the measure by which the loops end |
| Enumerator.EtwEnumerator.constructor | EtwEnumerator/src/EtwEnumerator.cpp:287-323 | a started event is in the reset state with every table entry 0xffff |
| Enumerator.PublicIsKind | EtwEnumerator/src/EtwEnumerator.cpp:967-1077 | the public state tells exactly which kind of item there is |
| Enumerator.EtwEnumerator.Reset | EtwEnumerator/src/EtwEnumerator.cpp:326-349 | from every state, after any error: back to the first property and the start of the payload; the integer table is kept |
| Enumerator.EtwEnumerator.CurrentPropertyLength | EtwEnumerator/src/EtwEnumerator.cpp:1644-1670 | the length from a reference, from the table, or none |
| Enumerator.EtwEnumerator.CountWideChars | EtwEnumerator/src/EtwEnumerator.cpp:28-49 | the loop computes the position of the first 16-bit nul unit |
| Enumerator.EtwEnumerator.MeasureCounted | EtwEnumerator/src/EtwEnumerator.cpp:1377-1402 | a value with a two-byte count in either byte order gets the extent, type and rounding that the value layout prescribes, or more bytes than are left |
| Enumerator.EtwEnumerator.MeasureValue | EtwEnumerator/src/EtwEnumerator.cpp:1215-1468 | the switch over all type codes finds the extent, cooked type and element size that the value layout prescribes, or more bytes than are left |
| Enumerator.EtwEnumerator.StartValue | EtwEnumerator/src/EtwEnumerator.cpp:1215-1485 | accepts the value and updates the integer table exactly as the decoder does, or fails with its error and leaves the cursor |
| Enumerator.EtwEnumerator.StartStruct | EtwEnumerator/src/EtwEnumerator.cpp:1062-1077 | a begin item with an empty slice at the cursor |
| Enumerator.EtwEnumerator.ClassifyElements | EtwEnumerator/src/EtwEnumerator.cpp:1096-1188 | StartArray's own switch, separate from StartValue's, gives every type the element size and cooked type of the value layout, so the two switches agree |
| Enumerator.EtwEnumerator.MeasureOther | EtwEnumerator/src/EtwEnumerator.cpp:1275-1468 | StartValue's own switch gives every type the same element size |
| Enumerator.EtwEnumerator.StartArray | EtwEnumerator/src/EtwEnumerator.cpp:1080-1211 | the whole array is checked against the payload before its begin item is shown |
| Enumerator.EtwEnumerator.StartValueSimple | EtwEnumerator/src/EtwEnumerator.cpp:1487-1499 | all eight assertions of the original are preconditions that every caller is proved to meet |
| Enumerator.EtwEnumerator.NextProperty | EtwEnumerator/src/EtwEnumerator.cpp:967-1059 | the new state is the one the state machine prescribes, on the fields as the original updates them |
| Enumerator.EtwEnumerator.MoveNext | EtwEnumerator/src/EtwEnumerator.cpp:351-540 | the fields after the call are the state machine's next state; running out of stack memory and calls without a current item are the only other outcomes |
| Enumerator.EtwEnumerator.JumpOverSimpleArray | EtwEnumerator/src/EtwEnumerator.cpp:556-567 | the shortcut of MoveNextSibling, with the cursor moved by count times element size |
| Enumerator.EtwEnumerator.MoveNextSibling | EtwEnumerator/src/EtwEnumerator.cpp:543-592 | ends in the same observable state as calling MoveNext past the matching end item, unless the stack cannot grow |
| GrowableBuffer.DoubledIsEnough | EtwEnumerator/src/EtwBuffer.inl:220-237 | doubling succeeds if and only if the request is within the maximum; the result is between the two, at least doubled, and less than twice the request unless one doubling was enough |
| GrowableBuffer.GrowthIsEnough | EtwEnumerator/src/EtwBuffer.inl:209-264 | the same for Grow, which starts at 8 when there is no capacity |
| GrowableBuffer.Buffer.constructor | EtwEnumerator/include/EtwEnumerator.h:40-125 | an empty buffer over its static storage |
| GrowableBuffer.Buffer.Grow | EtwEnumerator/src/EtwBuffer.inl:209-264 | fails exactly when the request exceeds the maximum or the heap; otherwise the new storage holds the request and, when asked, the old contents; no product overflows 32 bits |
| GrowableBuffer.Buffer.Clear | EtwEnumerator/src/EtwBuffer.inl:131-134 | the contents become the empty sequence |
| GrowableBuffer.Buffer.ResizeUnchecked | EtwEnumerator/src/EtwBuffer.inl:138-142 | the contents become a prefix, or room behind them is taken over as it is |
| GrowableBuffer.Buffer.PushBack | EtwEnumerator/src/EtwBuffer.inl:146-163 | appends one element or leaves the contents alone; a run of pushes keeps the recurrence for its capacity and cost |
| GrowableBuffer.Buffer.PopBack | EtwEnumerator/src/EtwBuffer.inl:167-171 | removes the last element |
| GrowableBuffer.Buffer.Reserve | EtwEnumerator/src/EtwBuffer.inl:175-183 | keeps the contents when asked to, and the storage when it is large enough |
| GrowableBuffer.Buffer.Resize | EtwEnumerator/src/EtwBuffer.inl:187-205 | sets the size; every prefix that existed before is still there when data is kept; a failure changes nothing |
| GrowableBuffer.PushesAreAmortized | EtwEnumerator/src/EtwBuffer.inl:146-163 | any run of push_back from an empty buffer moves fewer than twice as many elements as it stores |
| GrowableBuffer.CallsAreFew | EtwEnumerator/src/EtwBuffer.inl:220-237 | a 32-bit capacity doubles at most 31 times |
| GrowableBuffer.GetEventInformation | EtwEnumerator/src/EtwEnumerator.cpp:241-285 | the retry loop ends after at most 33 calls for every callback, and its status is the callback's last answer or lack of memory |
| JsonText.EscapeRoundTrips | EtwEnumerator/src/EtwEnumerator_Format.cpp:705-792 | reading an escaped string by section 7 of RFC 8259 gives back the string, whatever follows it |
| JsonText.EscapedIsClean | EtwEnumerator/src/EtwEnumerator_Format.cpp:705-792 | no control character is left in an escaped string, every quote in it follows an odd number of backslashes, and it ends outside an escape, so only the closing quote ends it |
| JsonText.EscapeAt | EtwEnumerator/src/EtwEnumerator_Format.cpp:728-782 | one character is replaced in place: the escape is inserted, what follows is shifted, and the moved storage is picked up again |
| JsonText.AppendStringAsJson | EtwEnumerator/src/EtwEnumerator_Format.cpp:705-792 | existing output is kept and the quoted escape of the input appended; otherwise out of memory |
| JsonText.PrintRoundTrips | EtwEnumerator/src/EtwEnumerator_Format.cpp:2993-3107 | printed JSON, with or without spaces, parses by sections 4 and 5 of RFC 8259 to the tree it was printed from |
| JsonText.ItemsRoundTrip | EtwEnumerator/src/EtwEnumerator_Format.cpp:3044-3069 | the elements of an array read back in order, with the commas the printer writes |
| JsonText.MembersRoundTrip | EtwEnumerator/src/EtwEnumerator_Format.cpp:3070-3094 | the members of an object read back in order, with their names |
| JsonForm.EscapesAreShort | EtwEnumerator/src/EtwEnumerator_Format.cpp:739-785 | only quotes, backslashes and control characters are escaped, in two characters when there is such an escape and else in six with capital digits |
| JsonForm.SpacesAreCounted | EtwEnumerator/src/EtwEnumerator_Format.cpp:3004-3021 | with spaces there is exactly one behind every comma and colon, and without there is none |
| Digits.RenderRoundTrips | EtwEnumerator/src/EtwEnumerator_Format.cpp:2726-2990 | printed decimal and hexadecimal numbers read back as the number |
| Digits.RenderDenotes | EtwEnumerator/src/EtwEnumerator_Format.cpp:2726-2990 | the digits have the wanted case and denote the number |
| Digits.NoLeadingZero | EtwEnumerator/src/EtwEnumerator_Format.cpp:2726-2990 | only zero is printed with a leading zero |
| JsonTree.EmitAppends | EtwEnumerator/src/EtwEnumerator_Format.cpp:3022-3102 | the printer's text depends on the past only through its comma and name flags |
| JsonStructure.GroupPrints | EtwEnumerator/src/EtwEnumerator_Format.cpp:3022-3102 | the text written over a group's items is its members with names and commas |
| JsonStructure.PropertyPrints | EtwEnumerator/src/EtwEnumerator_Format.cpp:3022-3102 | the text over one property's items is the property's name, if wanted, and the text of its tree |
| JsonStructure.OneStructPrints | EtwEnumerator/src/EtwEnumerator_Format.cpp:3070-3094 | a struct element prints as an object of its members |
| JsonStructure.StructsPrint | EtwEnumerator/src/EtwEnumerator_Format.cpp:3044-3094 | an array of structs prints as an array of objects, without element names |
| JsonStructure.ElementsPrint | EtwEnumerator/src/EtwEnumerator_Format.cpp:3029-3069 | an array of values prints as an array of their renderings |
| JsonStructure.EventIsJson | EtwEnumerator/src/EtwEnumerator_Format.cpp:2993-3107 | the text over all items of an event, in braces, is the text of the decoder's tree |
| JsonPrinter.AppendCurrentNameAsJson | EtwEnumerator/src/EtwEnumerator_Format.cpp:2677-2692 | the escaped name, a colon, and a space when wanted |
| JsonPrinter.AddCurrentValueAsJson | EtwEnumerator/src/EtwEnumerator_Format.cpp:3109-3163 | renders on the scratch buffer, copies or escapes from there, and gives the scratch space back on every path |
| JsonPrinter.AppendItemAndMoveNext | EtwEnumerator/src/EtwEnumerator_Format.cpp:3022-3102 | one turn of the loop: the item's text, the depth and comma state, and one MoveNext |
| JsonItems.ItemPrints | EtwEnumerator/src/EtwEnumerator_Format.cpp:3022-3102 | from any value, struct or array - top-level, member or element, with or without name and spaces - the text gone over is the text of that item's tree |
| JsonItems.PrintedIsJson | EtwEnumerator/include/EtwEnumerator.h:1075-1095 | that text is one JSON value, one member when a name is wanted, or the members of the event, and parses to exactly that |
| JsonPrinter.AddCurrentItemAsJsonAndMoveNext | EtwEnumerator/src/EtwEnumerator_Format.cpp:2993-3107 | on success one JSON value, one member or the event's members have been appended, parsing to the tree of the items gone over, and the enumerator is where MoveNextSibling ends; scratch is always as before and the old output is kept; it fails for lack of memory, for an item that cannot be rendered or, when every item before it can be, for an error in the payload |
| JsonItems.ElementIsReached | EtwEnumerator/include/EtwEnumerator.h:1081-1084 | two moves lead to the element of an array of one byte |
| JsonItems.ElementHasNoName | EtwEnumerator/src/EtwEnumerator_Format.cpp:3029-3043 | there the name flag makes no difference: no name is printed |
| JsonItems.WalkIsDecoding | EtwEnumerator/src/EtwEnumerator_Format.cpp:3004-3021 | printing from before the first item goes over exactly the decoded items |
| EventJson.DecimalIsLiteral | EtwEnumerator/src/EtwEnumerator_Format.cpp:2765-2813 | a decimal number is a number by section 6 of RFC 8259 |
| EventJson.MetaValuePrints | EtwEnumerator/src/EtwEnumerator_Format.cpp:2726-2990 | each metadata value is written as the text of its tree |
| EventJson.AppendMeta | EtwEnumerator/src/EtwEnumerator_Format.cpp:2726-2990 | a selected member that has a value is written with its comma and key; another one leaves the text and the comma state alone |
| EventJson.FallbackOfPairs | EtwEnumerator/src/EtwEnumerator_Format.cpp:2527-2563 | for every list of attributes: file and line, or id and version, which stand behind the file when only the line is missing |
| EventJson.AppendFallbackName | EtwEnumerator/src/EtwEnumerator_Format.cpp:2527-2563 | makes that name on the scratch buffer; when memory runs out, part of it may stay there |
| EventJson.AppendMetaEvent | EtwEnumerator/src/EtwEnumerator_Format.cpp:2746-2767 | the event's name or its fallback, escaped; scratch is given back, except when the fallback name fails |
| EventJson.EventTextPrints | EtwEnumerator/src/EtwEnumerator_Format.cpp:2695-2991 | members, comma and metadata put together are the text of one object |
| EventJson.EventTextParses | EtwEnumerator/src/EtwEnumerator_Format.cpp:2695-2991 | for every schema and selection of metadata the text parses to the decoder's members followed by the selected metadata |
| EventMembers.MetaIsTheHeader | EtwEnumerator/src/EtwEnumerator_Format.cpp:2726-2990 | for every header and selection, by literal names: the tree has the members of the properties and, if anything is selected, "meta" with exactly the selected facts there is something to say about - "pid" is the process, "tid" the thread, numbers read back, named numbers are their names - each once and in order |
| EventMembers.NumberedNameReads | EtwEnumerator/src/EtwEnumerator_Format.cpp:2555-2558 | the fallback name is the id, a v and the version |
| EventJson.AddCurrentEventAsJson | EtwEnumerator/src/EtwEnumerator_Format.cpp:2695-2991 | on success every value was rendered, the text has been appended and parses to the decoder's members and the selected metadata; scratch is as before on success, and on failure too unless the event's name is selected and missing, when something may be left on top of it; a failure is lack of memory, a failed rendering or the decoder's error |
| Printf.RecognizedIsGrammatical | EtwEnumerator/src/EtwEnumerator_Format.cpp:872-1154 | what is recognized is a prefix of the string and follows the grammar flags, width, precision, length, specifier |
| Printf.GrammaticalIsRecognized | EtwEnumerator/src/EtwEnumerator_Format.cpp:872-1154 | every specification of the grammar is recognized in full, whatever follows it |
| Printf.RecognizesTheGrammar | EtwEnumerator/src/EtwEnumerator_Format.cpp:872-1154 | the recognizer accepts a specification exactly when it follows the grammar and starts the string |
| Printf.CategoriesAre | EtwEnumerator/src/EtwEnumerator_Format.cpp:1080-1148 | the specifiers of each category |
| Printf.FlagsAndLengthsAre | EtwEnumerator/src/EtwEnumerator_Format.cpp:917-1078 | the flags and the lengths of the grammar |
| Printf.WidthHasFourDigits | EtwEnumerator/src/EtwEnumerator_Format.cpp:953-970 | a width of up to four digits is recognized, and with more digits nothing is |
| Printf.KeptIsExact | EtwEnumerator/src/EtwEnumerator_Format.cpp:911-1012 | what is kept: a percent sign, each flag once in the order of first appearance, and width and precision unless they are stars |
| Printf.StringFormatIs | EtwEnumerator/src/EtwEnumerator_Format.cpp:1240-1258 | values are printed as strings with the kept part; a precision remains for string specifications only |
| Printf.KeptIsShort | EtwEnumerator/src/EtwEnumerator_Format.cpp:1262-1264 | the copied prefix never exceeds the 15 characters reserved for it |
| Printf.ParsedPrintf.constructor | EtwEnumerator/src/EtwEnumerator_Format.cpp:872-1154 | after the jumps, Consumed, the copied prefix, the category and the specifier are those of the recognized specification |
| Printf.ParsedPrintf.CopyFlags | EtwEnumerator/src/EtwEnumerator_Format.cpp:917-965 | each flag is copied the first time it is seen, in order |
| Printf.ParsedPrintf.CopyDigits | EtwEnumerator/src/EtwEnumerator_Format.cpp:970-1060 | at most four digits are copied, and no read passes the terminating nul |
| Printf.ParsedPrintf.MakeStringFormat | EtwEnumerator/src/EtwEnumerator_Format.cpp:1240-1258 | the kept prefix, without a precision that means something else for the category, followed by "ls" |
| Printf.ParsedPrintf.IsPlainString | EtwEnumerator/src/EtwEnumerator_Format.cpp:1166-1172 | for every specification the object stands for: holds exactly when the category is string and MakeStringFormat would give just "%ls" |
| Expansion.NumbersAreRead | EtwEnumerator/src/EtwEnumerator_Format.cpp:1616-1672 | a percent sign and a printed number are the property with that number and the style that follows it, two percent signs the message with it |
| Expansion.StyleIsRead | EtwEnumerator/src/EtwEnumerator_Format.cpp:1673-1708 | any printf specification in exclamation marks behind the number is read as its style, "!S!" included |
| Expansion.VariableIsRead | EtwEnumerator/src/EtwEnumerator_Format.cpp:1566-1600 | %!NAME! is read as the variable for any non-empty run of capital letters; without the closing mark it stands for itself |
| Expansion.IndexReads | EtwEnumerator/src/EtwEnumerator_Format.cpp:1616-1630 | the digit loop reads any 32-bit number back from its decimal text |
| Expansion.IndexIsModulo | EtwEnumerator/src/EtwEnumerator_Format.cpp:1616-1630 | any run of digits, with zeros in front and of any length, is read as its number modulo 2^32 |
| Expansion.FinalSpaceRemains | EtwEnumerator/src/EtwEnumerator_Format.cpp:1545-1555 | when a message ends in a space, so does its expansion: both trailing-space assertions hold |
| Expansion.PlainMessage | EtwEnumerator/src/EtwEnumerator_Format.cpp:1530-1545 | a message without percent signs stands for itself at every recursion level |
| Expansion.SelfReferenceStops | EtwEnumerator/src/EtwEnumerator_Format.cpp:1741-1754 | a value that is a reference to itself expands to the recursion marker |
| Expansion.MessageExpandsAlike | EtwEnumerator/src/EtwEnumerator_Format.cpp:1497-1716 | if printing properties gives the same text for all integer tables that agree, and leaves tables that agree, then every message stands for the same text whichever of them it starts with |
| Messages.AddedSpaceIsRemoved | EtwEnumerator/src/EtwEnumerator_Format.cpp:1545-1555 | for every message and environment: a space put behind it changes nothing at the trim level, neither text nor table nor failure, and is a space behind the text at any other |
| Messages.OthersLoseNothing | EtwEnumerator/src/EtwEnumerator_Format.cpp:1545-1555 | a message that does not end in a space loses nothing |
| Messages.PercentsAreRead | EtwEnumerator/src/EtwEnumerator_Format.cpp:1587-1615 | percent signs that start no reference stand for themselves |
| Messages.ReferenceAlone | EtwEnumerator/src/EtwEnumerator_Format.cpp:1616-1713 | a message that is one reference, with any style, stands for that property in that style |
| Messages.MarkersName | EtwEnumerator/src/EtwEnumerator_Format.cpp:1731-1754 | the markers for numbers out of range and for recursion name the number |
| Messages.PlainValueStands | EtwEnumerator/src/EtwEnumerator_Format.cpp:2020-2088 | a value without percent signs stands for itself at every limit |
| Messages.PaddedValueStands | EtwEnumerator/src/EtwEnumerator_Format.cpp:1795-1811 | a property with a format of its own is printed with it |
| Messages.JsonStands | EtwEnumerator/src/EtwEnumerator_Format.cpp:1758-1793 | a struct or array stands for its JSON |
| Messages.JsonIsPrinted | EtwEnumerator/src/EtwEnumerator_Format.cpp:1775-1793 | with a style, that JSON is printed as a string |
| Messages.LimitStops | EtwEnumerator/src/EtwEnumerator_Format.cpp:2026-2070 | values that refer to each other are expanded exactly as often as the limit says |
| Messages.BareStringIsNotExpanded | EtwEnumerator/src/EtwEnumerator_Format.cpp:1673-1713 | %n!s! and its like give the value as it is |
| Messages.ConversionIsTried | EtwEnumerator/src/EtwEnumerator_Format.cpp:1812-2018 | any other specification is first tried on the value: what the conversion gives is the text, its failure fails the format, and only values it does not suit are printed as strings |
| Messages.StringIsPrinted | EtwEnumerator/src/EtwEnumerator_Format.cpp:2004-2018 | strings with flags, width or precision are printed with them |
| Messages.NulsBecomeSpaces | EtwEnumerator/src/EtwEnumerator_Format.cpp:1718-1729 | nul characters of string values are printed as spaces |
| Messages.MessageStands | EtwEnumerator/src/EtwEnumerator_Format.cpp:1632-1664 | a message in a message stands for its text without the line ends behind it, at every limit |
| Messages.MessageLimitStops | EtwEnumerator/src/EtwEnumerator_Format.cpp:1632-1664 | messages that refer to each other are expanded exactly as often as the limit says |
| Messages.MissingMessageFails | EtwEnumerator/src/EtwEnumerator_Format.cpp:1632-1640 | a missing message fails the format with its status |
| Messages.VariableStands | EtwEnumerator/src/EtwEnumerator_Format.cpp:1562-1585 | %!NAME! gives the variable |
| Formatter.ExpandChunk | EtwEnumerator/src/EtwEnumerator_Format.cpp:1530-1545 | a run of ordinary characters expands to itself in front of the rest |
| Formatter.ScanIndex | EtwEnumerator/src/EtwEnumerator_Format.cpp:1616-1630 | the digit loop, with its 32-bit wrap-around |
| Formatter.ScanStyle | EtwEnumerator/src/EtwEnumerator_Format.cpp:1673-1708 | nothing, !S!, or a printf specification that is closed by an exclamation mark, whose parsed object is handed on; otherwise nothing is consumed |
| Formatter.ScanDirective | EtwEnumerator/src/EtwEnumerator_Format.cpp:1557-1708 | reads from storage the directive that the specification reads from the string, without passing the nul |
| Formatter.FormatContext.constructor | EtwEnumerator/src/EtwEnumerator_Format.cpp:1281-1310 | no property is being expanded |
| Formatter.FormatContext.AddSimple | EtwEnumerator/src/EtwEnumerator_Format.cpp:2090-2123 | the rendered value with spaces for nul characters of escapable strings |
| Formatter.FormatContext.AddFormatted | EtwEnumerator/src/EtwEnumerator_Format.cpp:1812-2018 | the value through its printf format: converted directly, or rendered on scratch and printed as a string |
| Formatter.FormatContext.AddAsString | EtwEnumerator/src/EtwEnumerator_Format.cpp:2004-2018 | the string rendering through the string format; scratch is restored |
| Formatter.FormatContext.AddJson | EtwEnumerator/src/EtwEnumerator_Format.cpp:1758-1793 | moves the enumerator to the property and prints its JSON, read with the integers of that moment, directly or through scratch; the enumerator can be moved again afterwards |
| Formatter.FormatContext.PrintTop | EtwEnumerator/src/EtwEnumerator_Format.cpp:1781-1793 | terminates the string on top of scratch, prints it up to its first nul with the parsed object's string format, and takes it off |
| Formatter.FormatContext.AddMessage | EtwEnumerator/src/EtwEnumerator_Format.cpp:1632-1664 | the callback's text without trailing line ends, expanded again while the limit allows; a failing callback fails the format |
| Formatter.FormatContext.AddExpandedValue | EtwEnumerator/src/EtwEnumerator_Format.cpp:2026-2070 | a string value is cleaned of nuls and expanded like a message on top of scratch; other renderings are copied |
| Formatter.FormatContext.AddProperty | EtwEnumerator/src/EtwEnumerator_Format.cpp:1731-2088 | out-of-range and recursive numbers print their markers; otherwise the property's expansion, with its in-use flag set only meanwhile |
| Formatter.FormatContext.AddFormatImpl | EtwEnumerator/src/EtwEnumerator_Format.cpp:1497-1716 | for every event: on success exactly the pure expansion has been appended, the integer table is the one it prescribes, and all in-use flags and the whole scratch buffer are as before, although scratch may have moved under the message being read; a failure is the expansion's or lack of memory; it ends by (recursion limit, characters left) |
| Formatter.FormatContext.AddPieces | EtwEnumerator/src/EtwEnumerator_Format.cpp:1521-1713 | the loop: every prefix of the message has been expanded when it is reached, also after the storage being read has moved |
| Formatter.FormatContext.AddDirective | EtwEnumerator/src/EtwEnumerator_Format.cpp:1557-1708 | one directive: its expansion is appended and reading goes on behind it, or the failure is that of the whole message |
| Formatter.FormatContext.TrimFinalSpace | EtwEnumerator/src/EtwEnumerator_Format.cpp:1545-1555 | the assertions about the trailing space hold, and exactly the space that AddedSpaceIsRemoved speaks of is removed |
| Formatter.ReplaceNulWithSpace | EtwEnumerator/src/EtwEnumerator_Format.cpp:1718-1729 | only nul characters from the given position on change, to spaces |
| PropertyTable.PassesOne | EtwEnumerator/src/EtwEnumerator_Format.cpp:1446-1482 | moving past a property ends in front of the next one or with the outcome of the whole event |
| PropertyTable.DecodesAgain | EtwEnumerator/src/EtwEnumerator_Format.cpp:1758-1764 | with any table that agrees on the known integers, a property decodes to its first items and leaves such a table |
| PropertyTable.AimedWalks | EtwEnumerator/src/EtwEnumerator_Format.cpp:1758-1773 | jumping to a property shows the items of the first pass, and the enumerator can be aimed again afterwards |
| PropertyTable.FormatTable.Fill | EtwEnumerator/src/EtwEnumerator_Format.cpp:1420-1484 | on success every entry describes its property - cooked slice of a simple one, start of another - and the enumerator is after the last item with the integers of the whole event; a failure is the decoder's error or lack of memory for the table or the stack |
| PropertyTable.FormatTable.Seek | EtwEnumerator/src/EtwEnumerator_Format.cpp:1758-1764 | loads a property that is not simple, with whatever integers there are, or fails with the error that loading it gives |
| PropertyTable.EntersAndWalks | EtwEnumerator/src/EtwEnumerator_Format.cpp:1758-1773 | whatever the references are, printing from a property the enumerator was moved to ends in front of the next one or with an error |
| PropertyTable.JumpPrints | EtwEnumerator/src/EtwEnumerator_Format.cpp:1758-1773 | for every place and integer table, a jump prints the tree that the recursive decoder finds there with that table, or fails with its error, a failed rendering, or the error of loading the next property |
| PropertyTable.JumpIsInOrder | EtwEnumerator/src/EtwEnumerator_Format.cpp:1758-1773 | with backward references a jump prints the tree of the first pass, and leaves a table with which every later jump does so too |
| PropertyTable.FormatTable.AddJson | EtwEnumerator/src/EtwEnumerator_Format.cpp:1758-1773 | may be called for any property, in any order and for every event: the text, the new integer table or the failure is that of the jump, except for lack of memory |
| EventMessage.TableMeans | EtwEnumerator/src/EtwEnumerator_Format.cpp:1446-1482 | a filled table gives every number of the message its meaning: a simple property for its rendered value, any other for the JSON that a jump to its place prints |
| EventMessage.FormatWith | EtwEnumerator/src/EtwEnumerator_Format.cpp:1486-1489 | with such a table the message's expansion is appended |
| EventMessage.AddCurrentEvent | EtwEnumerator/src/EtwEnumerator_Format.cpp:1420-1489 | for every event, from the reset state: fails with the decoder's error when the payload is bad, and otherwise appends the message's expansion at the original's recursion limits, each number standing for its property where the recursive decoder has found it, read with the integers of the moment; a failure is the expansion's or lack of memory |
| EventMessage.MessageIsInOrder | EtwEnumerator/src/EtwEnumerator_Format.cpp:1420-1489 | with backward references, however often and in whatever order a message mentions its properties, it stands for the text with the trees that the decoder finds in order |
| EventText.GroupErrors | EtwEnumerator/src/EtwEnumerator.cpp:1080-1485 | decoding fails only with "invalid data" or "unsupported type", so its errors are never taken for a missing message |
| EventText.TreeIsSame | EtwEnumerator/src/EtwEnumerator.cpp:326-349 | with backward references the integers left from an earlier pass do not change the event's tree |
| EventText.FormatCurrentEvent | EtwEnumerator/src/EtwEnumerator_Format.cpp:3942-3990 | behind the prefix: the message's expansion; or, exactly when a parameter message is missing or there is no message, the JSON of the decoder's tree after a reset, with nothing left of the first attempt |
| Attributes.LookupIsFirst | EtwEnumerator/src/EtwEnumerator.cpp:1735-1793 | for every string and every name: searching finds the value of the first pair that splitting lists, if and only if the name is not empty or the first attribute without a name has a value |
| Attributes.EmptyNameDiffers | EtwEnumerator/src/EtwEnumerator.cpp:1765-1786 | the exception occurs: a concrete string where the search stops at a pair that splitting leaves out |
| Attributes.AttributeFits | EtwEnumerator/src/EtwEnumerator.cpp:812-844 | a pair with its nul terminators needs no more room than was read, plus one at the end of the string |
| Attributes.FieldReads | EtwEnumerator/src/EtwEnumerator.cpp:74-95 | a name or value written plain or quoted is read back, and nothing beyond its end character is touched |
| Attributes.PlainGoesOn | EtwEnumerator/src/EtwEnumerator.cpp:74-95 | unquoted text belongs to the field whatever follows it; in a value an equal sign is such text |
| Attributes.QuotedGoesOn | EtwEnumerator/src/EtwEnumerator.cpp:51-95 | so does quoted text anywhere in the field |
| Attributes.UnclosedReads | EtwEnumerator/src/EtwEnumerator.cpp:51-73 | a quoted text that is never closed goes to the end |
| Attributes.BareNameReads | EtwEnumerator/src/EtwEnumerator.cpp:823-829 | a name without an equal sign is an attribute without a value |
| Attributes.EmptySegment | EtwEnumerator/src/EtwEnumerator.cpp:812-844 | nothing between semicolons is no attribute |
| Attributes.WriteRoundTrips | EtwEnumerator/include/EtwEnumerator.h:668-680 | writing any list of pairs (none of them empty) with any choice of quoting and splitting the text gives back the list |
| Attributes.SkipQuotedRegion | EtwEnumerator/src/EtwEnumerator.cpp:51-73 | copies the text of a quoted region, with doubled quotes reduced to one, also when it is never closed |
| Attributes.SkipTo | EtwEnumerator/src/EtwEnumerator.cpp:74-95 | copies one unquoted field and stops behind its end character |
| Attributes.SplitOne | EtwEnumerator/src/EtwEnumerator.cpp:812-844 | one pair is stored as two nul-terminated strings; everything before and behind them stays as it was |
| Attributes.SplitAll | EtwEnumerator/src/EtwEnumerator.cpp:810-844 | all pairs are counted, the stored ones stay readable, and no character behind length + 1 is changed |
| Attributes.SplitEventAttributes | EtwEnumerator/src/EtwEnumerator.cpp:786-858 | the count is the number of pairs, success exactly when there is room for them, and the stored ones are the first pairs |
| Attributes.AppendEventAttribute | EtwEnumerator/src/EtwEnumerator.cpp:1735-1793 | appends the value found by the search, or reports not-found with the output unchanged exactly when there is none |
| IPv6.RunIsUnique | EtwEnumerator/src/EtwEnumerator_Format.cpp:531-555 | the leftmost longest run of at least two zeros is unique, for any number of groups |
| IPv6.FindZeros | EtwEnumerator/src/EtwEnumerator_Format.cpp:531-555 | the scan finds the leftmost longest run of at least two zero groups (sections 4.2.2 and 4.2.3 of RFC 5952), for any length, or none |
| IPv6.PrintsSome | EtwEnumerator/src/EtwEnumerator_Format.cpp:474-609 | every address has a text |
| IPv6.PrintsOnce | EtwEnumerator/src/EtwEnumerator_Format.cpp:474-609 | and only one |
| IPv6.SpecialRoundTrips | EtwEnumerator/src/EtwEnumerator_Format.cpp:499-525 | the texts of the zero, compatible, mapped and translated forms read back as the address |
| IPv6.GeneralRoundTrips | EtwEnumerator/src/EtwEnumerator_Format.cpp:527-600 | so do the general and the ISATAP form, wherever the run of zeros is |
| IPv6.PrintsRoundTrips | EtwEnumerator/src/EtwEnumerator_Format.cpp:474-609 | reading the text of any address by section 2.2 of RFC 4291 gives back its eight groups |
| IPv6Forms.DottedExactly | EtwEnumerator/src/EtwEnumerator_Format.cpp:499-600 | the text has a dotted end if and only if groups 0 to 3 are zero, group 6 is not and groups 4 and 5 are 0:0, 0:ffff or ffff:0, or the address is an ISATAP one |
| IPv6Forms.OneGroupLeft | EtwEnumerator/src/EtwEnumerator_Format.cpp:527-594 | with seven groups of zeros, as in the loopback address, the text is two colons and the last group |
| IPv6Forms.TextIsTidy | EtwEnumerator/src/EtwEnumerator_Format.cpp:474-609 | no capitals and no zeros in front of a number (sections 4.1 and 4.3 of RFC 5952) |
| IPv6.AppendHexPart | EtwEnumerator/src/EtwEnumerator_Format.cpp:557-594 | the groups before and after the run, with one double colon |
| IPv6.AppendIPv6 | EtwEnumerator/src/EtwEnumerator_Format.cpp:474-609 | fails only when 46 characters cannot be reserved; afterwards no ignored result can be a failure, the text has at most 45 characters and reads back as the address |
| FormattedText.ClimbTwice | EtwEnumerator/src/EtwEnumerator_Format.cpp:122-159 | the retries pass through the same capacities, whatever was appended on the way |
| FormattedText.FitsBelowSummit | EtwEnumerator/src/EtwEnumerator_Format.cpp:122-159 | a formatted text fits exactly when it does not end above the largest capacity that steps of 100 characters reach, and that capacity is the same afterwards |
| FormattedText.SummitIsHigh | EtwEnumerator/src/EtwEnumerator_Format.cpp:122-159 | if the heap does not run out, it is less than 100 characters below the maximum |
| FormattedText.AppendPrintf | EtwEnumerator/src/EtwEnumerator_Format.cpp:122-159 | the retry loop: appends the text or leaves the output alone, succeeds exactly as FitsBelowSummit says, and ends with the capacity given by the climb |
| ValueMaps.ListedExactly | EtwEnumerator/src/EtwEnumeratorCallbacks.cpp:282-292 | exactly the flags whose bits are all set are listed; a flag without bits only for the value zero |
| ValueMaps.BitsAreConserved | EtwEnumerator/src/EtwEnumeratorCallbacks.cpp:309-325 | the listed flags and the printed remainder make up the value and share no bit |
| ValueMaps.ListedIsDisjoint | EtwEnumerator/src/EtwEnumeratorCallbacks.cpp:321-325 | no listed flag has a bit of the remainder |
| ValueMaps.BitMapReads | EtwEnumerator/src/EtwEnumeratorCallbacks.cpp:275-331 | the printed text splits into a number that reads back as the value in the chosen base, the names of the listed flags, and an end; what the end says, read as a hexadecimal number, is exactly the bits of the value that no listed flag has, and it is missing exactly when there are none |
| ValueMaps.NameIsFirst | EtwEnumerator/src/EtwEnumeratorCallbacks.cpp:248-262 | the name of a value is that of the first entry for it |
| ValueMaps.NamedReads | EtwEnumerator/src/EtwEnumeratorCallbacks.cpp:229-273 | the text of a single value is the value and its name, or two question marks, in parentheses |
| ValueMaps.IndexIsSearch | EtwEnumerator/src/EtwEnumeratorCallbacks.cpp:232-245 | in an indexed map whose assertion holds, indexing finds what a search finds |
| ValueMaps.AppendFlags | EtwEnumerator/src/EtwEnumeratorCallbacks.cpp:280-307 | the loop writes the number and the listed names up to the first one that does not fit, and collects the union of their bits |
| ValueMaps.FitsOnce | EtwEnumerator/src/EtwEnumeratorCallbacks.cpp:280-307 | there is one place where the names stop fitting, and it is the end exactly when the whole list fits |
| ValueMaps.FormatBitMap | EtwEnumerator/src/EtwEnumeratorCallbacks.cpp:275-331 | what is written, and whether the call succeeds, for every amount of memory: the names up to the first that does not fit; if there is one, the text for "nothing matched" behind them, and success exactly when that fits; else the remainder or the bracket, likewise |
| ValueMaps.BitMapFits | EtwEnumerator/src/EtwEnumeratorCallbacks.cpp:275-331 | with room for 99 characters more than the whole text, all of it is written |
| ValueMaps.MatchedButUnknown | EtwEnumerator/src/EtwEnumeratorCallbacks.cpp:299-318 | this happens: a builder on which a known flag is printed as unknown and the call succeeds |
| ValueMaps.FindName | EtwEnumerator/src/EtwEnumeratorCallbacks.cpp:229-262 | the name of the first entry with the value |
| ValueMaps.FormatMapValue | EtwEnumerator/src/EtwEnumeratorCallbacks.cpp:217-337 | every kind of map: a named value is printed exactly when it fits, a set of flags as described above, and an unknown kind is reported as not found with the output unchanged |

## Left out

- JsonPrinter.AddCurrentItemAsJsonAndMoveNext: says why a call fails, but of what it has already written only that it stands behind the old output.
- Formatter.FormatContext.AddFormatImpl: says about the output after a failure only that the old output is kept; a failed rendering has one status, whatever its cause.
- GrowableBuffer.GetEventInformation: the callback's answer depends on the number of the call and on the capacity only, and the bytes it writes are not modelled.
- Characters: strings are sequences of characters without surrogate pairs, case folding or code pages.
- Leaf rendering: floats, timestamps, socket addresses, SIDs, result codes and the integer, character and float branches of printf conversion are functions given to the model.
- FormattedText.AppendPrintf: takes the finished text; an encoding error, on which the original retries until memory runs out, is not modelled.
- EventText.FormatCurrentEvent: starts behind the prefix, which the output already holds.
- The event prefix and its variables, GetEventInfo, GetItemInfo, event categories, timer resolution, pointer size and time zones: one-branch facts.
- StartEvent beyond its retry loop, and the checks of StartEventWithTraceEventInfo on the event header.
- Raw allocation, alignment and aliasing of memory: storage is a Dafny array, and stale pointers are array references that the frame conditions keep apart.
- The sample program, command line, trace handles, build files and Windows calls: input and output.
