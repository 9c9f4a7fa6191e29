# Telemetry and flashing of the vehicle gateway, modelled and proved

The repository is the firmware of an ESP32 gateway in a vehicle. This project models the parts of it that
carry protocols and buffers, and proves what they keep.

**Telemetry.** A poll task asks an STM32 for readings. The replies, `p<min>-<max>d<f0>,<f1>,...m<module>`, are
taken apart with `strtok`, stored into one array per module, printed as `|key:port:v1:v2|...` into the web buffer,
and that text is split once more and routed to nine endpoint strings by key. `Telemetry.SerialController` is
this file as a class over its real buffers; the other modules give each stage its meaning. Results:

- The tokens of `strtok` are exactly the maximal delimiter-free runs, whatever the previous `strtok` sequence left
  behind (`Strtok`, `Tokenizing`).
- A text is accepted by the header parser exactly when it has the shape of a reply (`Frames.ShapeParses`,
  `Frames.ParsesShape`), and the status of every text is known exactly (`Frames.StatusIff`); a reply built from readings stores exactly those readings (`Frames.ParseOfFrame`).
- From the reply to the web buffer, every port of the module in the announced range shows the value sent for it, for
  any number of readings, all their values and all earlier states, if and only if the range meets no port of the module, or starts at its first port
  and has at most two readings (liquid), five (analog), or as many as the array holds (the other modules). Longer
  replies can overflow the 150-byte payload copy or are stored past the array's end (`WebBuffer.DeliversIff`,
  `Frames.EveryReplyFitsIff`, `Frames.OverfullReply`).
- Splitting the web buffer gives back its records, and each endpoint string is the order-preserving filter of
  them by a partition of the keys (`WebBuffer.WebRoundTrip`, `Endpoints.EndpointIsFilter`,
  `Endpoints.PayloadConserved`).
- A registry's keys never outgrow the web buffer and the endpoint strings, whatever the slots hold, if and only if
  the longest record of each key leaves room for all of them (`BufferBounds.AlwaysFitsIff`).
- After a cycle, each slot holds what the last accepted reply of its module carried for it, each record is known
  exactly, and a record shows the cycle's own data if and only if the module's own wait was answered and an accepted
  reply of that module carried the port (`Freshness.SlotsOfReplies`, `Freshness.RecordsOfReplies`, `Freshness.FreshIff`).
- Over every interleaving of the poll and receive tasks, `PollProtocol.Inv` holds: what is queued, stored, flagged and
  published follows from the events so far, and each event has its reason in the events before it; `PollOrder.StepOfRun`
says which steps are possible then and what each does, and no cycle skips its flag test. From these follow, for
  every run, that each cycle has the effect of the sequential one which the method `PollCycle` computes
  (`PollResults.EveryCycleIsSequential`), when a wait times out, when a flag names the module stored, when a text is
  lost, when each is parsed at most once, and what the endpoint strings hold at any time
  (`PollResults.EndpointsOfRun`, `PollResults.PublishedData`).

**Flashing.** `FlashTasks.Link` is `stm_pro_mode.c` and `stm_flash.c` against a bootloader that takes one byte at a
time, after sections 3.1 to 3.8 of ST application note AN3155 (`Bootloader`). A run succeeds if and only if the file
fits the flash and the device can program every page. It then leaves the padded file in flash and erased bytes
elsewhere; the read-back shows the pages written; the addresses carry correctly and never overlap. A failing run leaves
the pages before the refused one and erased bytes behind them, for every file of a length, if and only if that length
exceeds the flash by at most four bytes, or five on a device with the extended erase command, or a page of the flash
cannot be programmed, or there is no flash. Longer files can erase everything, because the device takes the bytes of
the first page beyond the end for commands (`Overlong.OverlongKeepsIff`).

**Around them.** The CBC padding and the serial number (`Padding`), the HTTP response accumulator for one client and
for several at once (`HttpAccumulator`, `SharedAccumulator`), file upload and download (`FileServer`), and the key
registry (`Registry`).

Undefined behaviour of the telemetry code (a null `strtok` result that is used, an index outside an array, a text too
long for its buffer, a loop that never ends) is modelled as an outcome of its own. The contracts say exactly
when it happens and claim nothing about the state after it. The serial number is the one exception: its text is
modelled as a value, and `Padding.AcceptedAhsnOverflows` states that every accepted one overruns two buffers by one.

## Where the code differs from what it says

- `readTask` never compares what it reads with the file, although `stm_flash.h:18-28` says it does
  (`FlashTasks.Link.ReadTask` reports success whatever the flash holds). Verification does hold through
  `flashSTM`, but only because the device acknowledged every page.
- `vector_positions` has no case for port 4, so the digital input cannot be printed once it has answered
  (`Sensors.IndexSchemesAgree`, `WebBuffer.RecordDefined`).
- The gps flag is raised by any reply to the temperature request, even one that is rejected. Before the first
  accepted reply the timestamp is still null, so a key on port 18 then cannot be printed
  (`PollResults.GpsPrintableIff`, `Cycles.RejectedFirstReply`).
- The values of a reply are stored from slot 0 on, whatever port it announces first, so a reply for
  the second half of a module is shown under the wrong ports (`WebBuffer.MisalignedReply`).
- `parse_data` copies a reply of up to 1024 bytes into 150 (`Frames.LongReply` is one that overflows).
- A flag names the module stored only if the reply its wait took is of that module (`PollResults.FlagNamesModuleIff`;
  `PollResults.AnyModuleRaisesTheFlag` has runs in which it is not), and the digital input's flag is not among those
  that cause a rebuild (`PollResults.RebuiltIff`).
- All queued pointers point to one receive buffer, so texts can be lost and a later one parsed twice or three times,
  raising the flags of all three requests (`PollResults.LostIff`, `PollResults.ParsedOnceIff`,
  `PollResults.OneReplyAllFlags`).
- Four analog keys in one endpoint are too many for its 100 bytes, and the default registration has six
  (`BufferBounds.FourAnalogKeysOverflow`, `BufferBounds.DefaultKeysOverflow`).
- `writeTask` does not check the file's length, and a file five or six bytes too long can erase the pages just written
  (`Overlong.LosingFileLoses`).
- The login, telemetry, panic and alarm tasks share one offset into their response buffers, which keeps their responses
  whole only if each write finds it at the end of its own client's response (`SharedAccumulator.IntactIff`).
- A registry that cannot be opened reads as port 0 for every key, the first temperature's, where the sentinel values
  suggest that errors are told apart (`Registry.UnopenedLoadsAll`).
- The padding of `encrypt_any_length_string` is the standard one except for lengths of 15 modulo 16, where one
  octet of value 17 is written (`Padding.UnpadIff`).
- Comments speak of 132 keys; there are 133. A comment on `map_port` says that mapped ports stay clear of the keys;
  ports 107 to 239 do not (`Registry.MapPortRoundTrip`).

## Model

| member | source | states |
|---|---|---|
| DecimalText.AtoiOfDecText | main/serial_controller.h:550-562 | `atoi` of what `sprintf("%d")` printed is the number, over all 32-bit integers and whatever non-digit follows |
| DecimalText.DecTextCanonical | main/serial_controller.h:550-562 | printed numbers have no superfluous zeros, and a minus sign exactly for negative ones |
| DecimalText.DecTextUnique | main/serial_controller.h:550-562 | and are the only text of that form that reads as the number |
| DecimalText.ScannedNumber | main/serial_controller.h:867-877 | blanks, a sign, zeros and a number read as the number, whatever follows |
| DecimalText.ScannedNothing | main/serial_controller.h:867-877 | without a digit after blanks and sign, a text reads as zero |
| DecimalText.NumbersClamp | main/serial_controller.h:867-877 | `atoi` clamps to 32 bits signed, `strtoul` unsigned, and negative numbers wrap in the latter |
| DecimalText.StrtoulOfDecText | main/serial_controller.h:866-877 | `strtoul` reads back every printed 32-bit unsigned number |
| DecimalText.DecTextFitsScratch | main/serial_controller.h:545 | every 32-bit integer and its terminator fit the printer's 12-byte scratch buffer |
| Tokenizing.TokensAreMaximalRuns | main/serial_controller.h:342-364 | the tokens are exactly the maximal delimiter-free runs of the text, each once and in order |
| Tokenizing.TokenCount | main/serial_controller.h:886-901 | at most one token more than delimiters, equality if and only if no field is empty, and then the tokens are the fields |
| Tokenizing.JoinOfFields | main/serial_controller.h:886-892 | the fields are the text cut at every delimiter: joined again they are the text, and none holds a delimiter |
| Tokenizing.TokensFitLength | main/serial_controller.h:342-364 | n characters have at most (n+1)/2 tokens, so the 8-bit count cannot wrap below 510 characters |
| Tokenizing.TokensOfJoin | main/serial_controller.h:342-364 | joining non-empty delimiter-free texts and splitting again gives the texts, with one delimiter less than texts |
| Tokenizing.TokensOfFramed | main/serial_controller.h:389 | the same for texts between bars, `\|a\|b\|`, which consist of the texts and one bar more than texts, the first and last character among them |
| Strtok.Tokenizer.Start | main/serial_controller.h:349 | the first `strtok` call: finds the next run, overwrites at most the one delimiter behind it, and leaves the hidden pointer after it, whatever the pointer was before |
| Strtok.Tokenizer.Continue | main/serial_controller.h:356 | the calls with a null argument: the same from the hidden pointer on, on the same text |
| Strtok.Tokenizer.SplitSensors | main/serial_controller.h:342-364 | returns all tokens and their count, independent of earlier `strtok` state, and leaves the hidden pointer null |
| Sensors.IndexSchemesAgree | main/serial_controller.h:477-538 | `vector_positions(port)` equals `port - first port` and is inside the array for every port of every module except port 4 |
| Sensors.FamilyOfSlot | main/serial_controller.h:544-669 | every slot of every module's array is shown for one of that module's ports |
| Sensors.AllocatedShaped | main/serial_controller.h:694-824 | storing keeps every array's size and every slot's 32-bit values |
| Frames.ShapeParses | main/serial_controller.h:845-877 | every text of the reply's shape, with the delimiters `strtok` tolerates, parses to its four parts |
| Frames.ParsesShape | main/serial_controller.h:845-877 | every text that parses has that shape, and parses to the numbers of those parts |
| Frames.AcceptedFieldCount | main/serial_controller.h:886-901 | an accepted reply has at most one field per port, and exactly one if and only if no field is empty |
| Frames.ScalarAllocatesIff | main/serial_controller.h:694-796 | with the right comma count, storing a single-valued module is defined if and only if no field is empty, every port has a slot, and the last port is below 255 |
| Frames.TupleAllocatesIff | main/serial_controller.h:721-796 | for liquid, analog and GPS, storing is defined if and only if no field is empty, every field has its values, every port has a slot, and the last port is below 255 |
| Frames.AllocatesIffStorable | main/serial_controller.h:694-824 | for every module code, storing is defined exactly when `Storable` says so on the fields |
| Frames.StatusIff | main/serial_controller.h:831-908 | the status of every text: refused if and only if it is short and a letter is missing, or it has a header whose module is zero or whose comma count is wrong; undefined if and only if it is too long, or has the letters but no header, or the right count but fields that cannot be stored |
| Frames.ModuleTable | main/serial_controller.h:135-150 | which array each of the codes 1, 4, 6, 9, 11 and 12 stands for, and how many values a port of it has |
| Frames.WireForm | main/serial_controller.h:866-877 | two replies spelled out |
| Frames.EveryReplyFitsIff | main/serial_controller.h:831-835 | every reply of n readings from the module's first port fits the 150-byte payload copy if and only if n is at most two for liquid, five for analog, the array's size otherwise |
| Frames.LongReply | main/serial_controller.h:831-835 | above that number, the reply whose values all have eleven characters does not |
| Frames.OverfullReply | main/serial_controller.h:694-835 | a reply with more readings than the array holds overflows the copy or is stored past the array's end |
| Frames.ParseDataFrame | main/serial_controller.h:831-908 | acceptance depends on the text alone; the arrays keep their shape; a reply not accepted changes nothing |
| Frames.TupleRoundTrip | main/serial_controller.h:694-796 | printing a reading of several values and splitting it at `:` gives the values |
| Frames.FrameHeader | main/serial_controller.h:866-877 | the reply built from ports, module and readings parses to exactly these |
| Frames.ParseOfFrame | main/serial_controller.h:831-908 | such a reply overflows the payload copy or is accepted, and then its i-th reading lands in the i-th slot of its module's array and nothing else changes but the GPS constants |
| WebBuffer.RecordDefined | main/serial_controller.h:544-674 | a record can be printed if and only if it is not port 4 after its module answered, nor port 18 with a null timestamp |
| WebBuffer.SingleRecords | main/serial_controller.h:558-669 | the records of the temperature, fan and output ports, by array and index |
| WebBuffer.TupleRecords | main/serial_controller.h:577-640 | the records of the tank, inclination and analog ports, value by value |
| WebBuffer.OtherRecords | main/serial_controller.h:558-671 | the GPS record, the digital input's, and those of ports no module has |
| WebBuffer.RecordFits | main/serial_controller.h:390-392 | every printed record fits the 100-byte buffer it is later copied to |
| WebBuffer.WebRoundTrip | main/serial_controller.h:544-674 | splitting the web buffer at bars gives one record per loaded key, in order, and `atoi` of each record's first `:` token is its key |
| WebBuffer.ReplyShown | main/serial_controller.h:544-908 | after a reply below 150 characters with any announced range, the i-th port of the module shows the i-th reading, or the old slot where there is none |
| WebBuffer.EndToEnd | main/serial_controller.h:477-908 | with the range starting at the first port and the reply below 150 characters, each key on a port of the range shows exactly the values sent for the port |
| WebBuffer.MisalignedReply | main/serial_controller.h:694-796 | for every other start, inside or outside the module, and every port of the module in the range there are short replies for which that port shows something else |
| WebBuffer.DeliversIff | main/serial_controller.h:477-908 | for every start and every number of readings: ports show what was sent for them, for all readings, states and keys, if and only if the range meets no port of the module, or starts at its first port with at most the number of readings that always fit |
| WebBuffer.OtherPortsUnchanged | main/serial_controller.h:694-824 | a reply that fits changes no record but those of its own module's ports and of the GPS port |
| WebBuffer.ParseKeepsGpsKnown | main/serial_controller.h:816-823 | the GPS slot is either still unset or the constants, whatever is parsed |
| Endpoints.GroupsPartition | main/serial_controller.h:368-376 | the nine key tables list no key twice, neither within a table nor across tables |
| Endpoints.EndpointIsFilter | main/serial_controller.h:367-462 | each endpoint string splits into exactly the web buffer's records whose key is in its table, in the web buffer's order, for any web buffer text |
| Endpoints.SelectedPositions | main/serial_controller.h:391-462 | what an endpoint gets is a subsequence: the records at exactly the positions whose key is in its table, in order |
| Endpoints.PayloadConserved | main/serial_controller.h:367-462 | the nine strings together hold no more payload than the web buffer, and as much if and only if every record's key is in some table |
| Registry.Nvs.PreReadx | main/nvs_controller.h:203-218 | a stored decimal port reads as that port, a missing key as 255, a read error as 254, and anything as 0 when the storage cannot be opened |
| Registry.Nvs.PreWritex | main/nvs_controller.h:251-258 | an accepted write reads back as the value written, and no other key reads differently in any condition of the storage |
| Registry.Nvs.LoadKeys | main/serial_controller.h:1094-1117 | yields a strictly increasing list of exactly the keys whose port's low byte is neither 255 nor 254 |
| Registry.WriteThenRead | main/nvs_controller.h:203-258 | every 16-bit port reads back, other keys are unchanged, and the key is loaded if and only if the port's low byte is no sentinel |
| Registry.ReadPortMeans | main/nvs_controller.h:157-218 | what a key reads as in each condition of the storage |
| Registry.UnopenedLoadsAll | main/serial_controller.h:1094-1117 | a storage that cannot be opened makes every key one with a port; one with read errors, none |
| Registry.MapPortRoundTrip | main/nvs_controller.h:281-290 | mapping and unmapping are inverse; the mapped value avoids the keys exactly for ports up to 106 and from 240 |
| Telemetry.StoreScalars | main/serial_controller.h:694-720 | the store loop of the single-valued modules overwrites the first slots with the fields' values, and is defined exactly when `Fits` |
| Telemetry.StoreTuples | main/serial_controller.h:721-796 | the store loop of the liquid and analog modules, which splits each field at `:`; defined exactly when no field is short of values either |
| Telemetry.SkipInclination | main/serial_controller.h:798-811 | the inclination loop splits its fields and stores nothing |
| Telemetry.CountCommas | main/serial_controller.h:886-892 | the counting loop over the field text and its terminator counts the commas |
| Telemetry.ReadHeader | main/serial_controller.h:866-877 | the four `strtok` calls on the payload buffer find what `ParseHeader` says, and fail exactly when it does |
| Telemetry.SerialController.constructor | main/serial_controller.h:27-37 | the arrays at boot are separate, of their sizes, and zero; the web buffer is `\|` |
| Telemetry.SerialController.AllocateData | main/serial_controller.h:694-824 | stores the fields in the module's array only, then the GPS constants; defined exactly when `Allocates` |
| Telemetry.SerialController.ParseReply | main/serial_controller.h:831-908 | on the buffers and for replies of any length, the status and the arrays after it are those of `ParseData`, ESP_FAIL exactly for a missing letter or a wrong count, and every return has raised the event bit |
| Telemetry.SerialController.StoreReply | main/serial_controller.h:879-904 | the part after the header: ESP_FAIL if and only if the module is zero or the comma count wrong, ESP_OK if and only if neither and the fields can be stored |
| Telemetry.SerialController.PortPayload | main/serial_controller.h:557-669 | the branches by port give the payload, and fail exactly for unprintable ports |
| Telemetry.SerialController.AppendRecord | main/serial_controller.h:549-671 | one turn of the loop appends the record and a bar, exactly when both fit the 400 bytes |
| Telemetry.SerialController.WebBufferConstructor | main/serial_controller.h:544-674 | the buffer is the bar-framed records of the loaded keys, exactly when all are printable and fit 400 bytes |
| Telemetry.AppendMatches | main/serial_controller.h:396-401 | the inner loop appends a record and a bar once if its key is in the table, and nothing otherwise |
| Telemetry.SerialController.EndpointDiscriminator | main/serial_controller.h:367-474 | the nine strings are the filters of the web buffer's records, exactly when every record has a number and fits 100 bytes and every string does |
| Telemetry.SerialController.TakeReply | main/serial_controller.h:924-932 | a dequeued reply is parsed and its flag set from the status; no reply changes nothing |
| Telemetry.SerialController.PollReplies | main/serial_controller.h:919-979 | the three waits make of arrays and flags what `Cycle` says, and leave the event bit raised exactly when one of the last two took a reply |
| Telemetry.SerialController.PollCycle | main/serial_controller.h:919-1010 | one turn of the poll task: the web buffer and endpoints show this cycle's replies if a rebuild flag is set and are untouched otherwise; defined exactly when parsing, printing and the buffer sizes are |
| Cycles.CycleFlags | main/serial_controller.h:919-979 | each flag says whether its own wait's reply was accepted; gps, whether the temperature wait took any; no other flag is ever set |
| Cycles.RebuildsIff | main/serial_controller.h:1003 | a rebuild is due if and only if some flag other than the digital input's is raised |
| Cycles.CycleGps | main/serial_controller.h:919-979 | after any cycle, the GPS port can be printed if and only if the temperature wait took nothing or some reply was accepted, now or before |
| Cycles.RejectedFirstReply | main/serial_controller.h:924-932 | a cycle after boot in which it cannot, with the web buffer due |
| Cycles.CycleShowsAnalog | main/serial_controller.h:919-1010 | whatever the first two waits took, the analog reply overflows its copy or its values are what the due rebuild shows for each port of its range; up to five readings it never overflows |
| Cycles.RecordReachesEndpoint | main/serial_controller.h:367-674 | each printed record comes out of the one endpoint string its key belongs to; no other endpoint has a record with that key |
| Cycles.AnalogReachesEndpoint | main/serial_controller.h:367-1010 | so do the values of an analog reply that fits |
| Cycles.RecordsReadable | main/serial_controller.h:390-394 | the records the printer makes always fit the router's buffer and always have a number |
| BufferBounds.AlwaysFitsIff | main/serial_controller.h:544-674 | for given flags and keys, every rebuild is defined and fits whatever the slots hold, if and only if the longest records of the keys fit together, which is if and only if it does for the store of longest values |
| BufferBounds.TextsWithin | main/serial_controller.h:375-462 | no web buffer or endpoint string is longer than the longest records make it, and the store of longest values reaches that |
| BufferBounds.FourAnalogKeysOverflow | main/serial_controller.h:367-462 | four analog keys in one endpoint are too many for some values |
| BufferBounds.DefaultKeysOverflow | main/serial_controller.h:1042-1087 | the default registration is such a one |
| Freshness.AcceptedSlots | main/serial_controller.h:694-908 | any accepted reply writes its readings over the front of its own module's array and to no other |
| Freshness.StoredFields | main/serial_controller.h:694-908 | the readings of an accepted reply are the numbers of its fields, one field a port, and for liquid and analog the first values of each field |
| Freshness.StoresToIff | main/serial_controller.h:694-908 | an accepted reply changes something in a module's array, from some state, if and only if its text announces that module |
| Freshness.SlotsOfReplies | main/serial_controller.h:919-979 | after any replies, each slot holds what the last accepted reply of its module carried for it, or its old value |
| Freshness.FlagsOfReplies | main/serial_controller.h:919-979 | after any part of a cycle, the flags are those its replies so far give |
| Freshness.RecordsOfReplies | main/serial_controller.h:544-979 | every record of every module after a cycle, exactly: a dash unless the module's own wait was answered and accepted, otherwise that slot |
| Freshness.FreshIff | main/serial_controller.h:544-979 | a record is the same whatever the arrays held before the cycle, and shows a reading, if and only if the module's own wait was answered and accepted and some accepted reply of the module carries the port |
| PollProtocol.EveryRun | main/serial_controller.h:911-1038 | over every interleaving, also between taking a pointer, copying its text and parsing the copy: queue, buffer, arrays, flags, event bit and published strings are what the events so far say, and each event has its reason: a bit wait times out only if no parse completed since the bit was consumed and wakes only if one did, each copy is of the text received last, each rebuild has a rebuild flag and fits |
| PollOrder.EveryRunOrdered | main/serial_controller.h:911-1038 | in every run each step of the poll task is one that follows its last one |
| PollOrder.CyclesAreWhole | main/serial_controller.h:916-1014 | each cycle but the first begins directly after the one before was published or found not due, and after the third exchange nothing else comes before that |
| PollOrder.ThirdExchangeIsTested | main/serial_controller.h:970-1010 | the poll task is at the flag test if and only if its third exchange ended last, and can then do nothing else |
| PollOrder.StepOfRun | main/serial_controller.h:911-1038 | at the end of any run, which actions of either task are possible and what each of them does, by the events so far |
| PollResults.WaitTimesOutIff | main/serial_controller.h:921-934 | the second wait times out if and only if the temperature request got no reply, the first if and only if neither later request of the cycle before did |
| PollResults.RebuiltIff | main/serial_controller.h:1003-1010 | the web buffer is due if and only if the temperature wait took anything or the analog reply was accepted |
| PollResults.EveryCycleIsSequential | main/serial_controller.h:911-1038 | at the end of every cycle of every interleaving, arrays and flags are those of the sequential cycle over the replies its waits took |
| PollResults.FlagNamesModuleIff | main/serial_controller.h:919-979 | in every run, a wait's flag says that its reply was accepted, and it names the module stored if and only if the text of that reply announces the module asked for |
| PollResults.SlotsOfRun | main/serial_controller.h:911-1038 | in every run, each slot at the end of a cycle holds what the cycle's last accepted reply of its module carried for it, or what it held before the cycle |
| PollResults.RecordsOfRun | main/serial_controller.h:544-1038 | in every run, every record that is due, and exactly when it shows this cycle's data |
| PollResults.GpsPrintableIff | main/serial_controller.h:911-1010 | in every run, at the end of any cycle, the GPS port can be printed if and only if the temperature wait took nothing or some parse so far was accepted |
| PollResults.EndpointsOfRun | main/serial_controller.h:367-1038 | at any time in any run, the web buffer splits into the records of the last rebuild's cycle and each endpoint into those of its keys |
| PollResults.PublishedData | main/serial_controller.h:367-1038 | and for each key of that rebuild on any module's port, what the cycle's replies and the slot before it give is in the one endpoint string of the key |
| PollResults.ParsedOnceIff | main/serial_controller.h:1021-1038 | no text is parsed more than three times, and each at most once if and only if every pointer followed is the only one to its text no longer queued |
| PollResults.LostIff | main/serial_controller.h:1021-1038 | how often each text was parsed by the time the next one replaced it, exactly: the pointers out when it arrived and enqueued for it, less those still queued or held; an enqueued text is lost if and only if all of these are still out |
| PollResults.AnyModuleRaisesTheFlag | main/serial_controller.h:934-943 | for each numeric module a run in which its late reply raises the digital input's flag |
| PollResults.OneReplyTwoFlags | main/serial_controller.h:924-943 | a run in which one text is never parsed and the next, any accepted one, is parsed twice and raises two requests' flags |
| PollResults.OneReplyAllFlags | main/serial_controller.h:924-979 | a run in which two texts are overwritten and one reply raises the flags of all three requests |
| Flasher.IncrementLoadAddress | main/STM_FLASH_CONTROLLER/stm_pro_mode/stm_pro_mode.c:262-275 | the in-place carry is `NextAddress` |
| Flasher.NextAddressAdds | main/STM_FLASH_CONTROLLER/stm_pro_mode/stm_pro_mode.c:262-275 | which adds 256 to the big-endian address, modulo 2^32 |
| Flasher.AddressAfterAdds | main/STM_FLASH_CONTROLLER/stm_flash/stm_flash.c:16-28 | k applications add 256k modulo 2^32 and keep the low byte |
| Flasher.PagesDisjoint | main/STM_FLASH_CONTROLLER/stm_flash/stm_flash.c:16-28 | the pages of different block numbers below 2^24 do not overlap |
| Flasher.AddressFrameCancels | main/STM_FLASH_CONTROLLER/stm_pro_mode/stm_pro_mode.c:197-205 | every address frame XORs to zero and carries its address |
| Flasher.ChecksumCancels | main/STM_FLASH_CONTROLLER/stm_pro_mode/stm_pro_mode.c:287-298 | any bytes followed by their XOR do |
| Flasher.WriteAddressTaken | main/STM_FLASH_CONTROLLER/stm_pro_mode/stm_pro_mode.c:197-205 | the device accepts the frame after a write command exactly for addresses in its flash |
| Flasher.ReadAddressTaken | main/STM_FLASH_CONTROLLER/stm_pro_mode/stm_pro_mode.c:197-205 | and after a read command |
| Flasher.PageFrameTaken | main/STM_FLASH_CONTROLLER/stm_pro_mode/stm_pro_mode.c:287-298 | the streamed page programs the 256 bytes at the address and is acknowledged, or is refused and changes nothing |
| Flasher.PageUnexpected | main/STM_FLASH_CONTROLLER/stm_pro_mode/stm_pro_mode.c:277-321 | whatever the bytes of a page do as commands, the first answer to them is a refusal |
| Flasher.ReadLengthTaken | main/STM_FLASH_CONTROLLER/stm_pro_mode/stm_pro_mode.c:323-333 | the read request is answered by an acknowledgement and the 256 bytes |
| Flasher.ReadAnswered | main/STM_FLASH_CONTROLLER/stm_pro_mode/stm_pro_mode.c:323-333 | command, address and length together are answered by the page, or refused where the flash has none, with the device in step |
| FlashImage.ImageMeans | main/STM_FLASH_CONTROLLER/stm_flash/stm_flash.c:9-34 | the flash byte by byte after any number of pages: the file, then 0x00 (file under one page) or 0xff up to the last page's end, then erased bytes |
| FlashImage.GoodPagesIff | main/STM_FLASH_CONTROLLER/stm_flash/stm_flash.c:16-31 | all pages are written if and only if the file fits the flash and none of its pages is one the device fails to program |
| FlashImage.ProgramExtends | main/STM_FLASH_CONTROLLER/stm_flash/stm_flash.c:16-31 | programming the next page of an erased flash extends the image by that page |
| FlashImage.ProgramClears | main/STM_FLASH_CONTROLLER/stm_flash/stm_flash.c:16-31 | programming clears bits only, writes the data where the flash is erased, and nothing elsewhere (AN3155 section 3.6) |
| FlashTasks.ReadBlock | main/STM_FLASH_CONTROLLER/stm_flash/stm_flash.c:16 | `fread` into the reused block buffer makes it the k-th page of the padded file, and returns zero exactly at its end |
| FlashImage.ImagePage | main/STM_FLASH_CONTROLLER/stm_flash/stm_flash.c:37-66 | page k of the complete image is page k of the padded file |
| FlashTasks.Link.WaitForSerialData | main/STM_FLASH_CONTROLLER/stm_pro_mode/stm_pro_mode.c:245-260 | whatever the successive polls find, what the first of them to find enough bytes found, zero if none does before the timeout |
| FlashTasks.PaceDoesNotMatter | main/STM_FLASH_CONTROLLER/stm_pro_mode/stm_pro_mode.c:245-260 | an answer of no more bytes than are waited for gives the same result however slowly it arrives before the timeout |
| FlashTasks.Link.SendBytes | main/STM_FLASH_CONTROLLER/stm_pro_mode/stm_pro_mode.c:207-236 | 1 if and only if the expected number of bytes came and the first is an acknowledgement; all buffered bytes are then consumed |
| FlashTasks.Link.ResetSTM | main/STM_FLASH_CONTROLLER/stm_pro_mode/stm_pro_mode.c:79-89 | from any mode, the low pulse leaves the device in the bootloader or its application, as BOOT0 selects, with nothing else of it changed |
| FlashTasks.Link.EndConn | main/STM_FLASH_CONTROLLER/stm_pro_mode/stm_pro_mode.c:91-99 | the device runs its application; its flash is untouched |
| FlashTasks.Link.CmdErase | main/STM_FLASH_CONTROLLER/stm_pro_mode/stm_pro_mode.c:143-159 | erases the whole flash and returns 1 on a device with the command, otherwise 0 and no change |
| FlashTasks.Link.CmdExtErase | main/STM_FLASH_CONTROLLER/stm_pro_mode/stm_pro_mode.c:161-177 | the same for the extended command |
| FlashTasks.Link.SetupSTM | main/STM_FLASH_CONTROLLER/stm_pro_mode/stm_pro_mode.c:101-110 | from any mode and any leftover bytes, the device ends erased and in step, with either erase command |
| FlashTasks.Link.LoadAddress | main/STM_FLASH_CONTROLLER/stm_pro_mode/stm_pro_mode.c:197-205 | sends the address frame and reports the acknowledgement |
| FlashTasks.Link.StreamPage | main/STM_FLASH_CONTROLLER/stm_pro_mode/stm_pro_mode.c:287-298 | the running xor makes the streamed bytes the page's frame, which XORs to zero |
| FlashTasks.Link.FlashPage | main/STM_FLASH_CONTROLLER/stm_pro_mode/stm_pro_mode.c:277-321 | for any address: in the flash, the page is programmed and acknowledged, or refused with nothing changed, and the device is in step; elsewhere it always fails and the device has taken the bytes for commands |
| FlashTasks.Link.ReadPage | main/STM_FLASH_CONTROLLER/stm_pro_mode/stm_pro_mode.c:323-362 | for any address: the buffer is an acknowledgement and exactly the 256 bytes there; it fails exactly where the flash has no such page, and leaves the flash alone |
| FlashTasks.Link.WriteTask | main/STM_FLASH_CONTROLLER/stm_flash/stm_flash.c:5-35 | for a file of any length: succeeds if and only if it fits and the device can program every page; the flash is then the padded file and erased bytes, otherwise the pages before the refused one and erased bytes, for every file at most four bytes longer than the flash, or five with the extended erase command |
| Overlong.OverlongKeepsIff | main/STM_FLASH_CONTROLLER/stm_flash/stm_flash.c:5-35 | every file of a length leaves the pages before the first failing one and erased bytes behind, if and only if the length exceeds the flash by at most four bytes (five with the extended erase command), or some page cannot be programmed, or there is no flash |
| Overlong.ShortFileKept | main/STM_FLASH_CONTROLLER/stm_flash/stm_flash.c:5-35 | one direction, for every file of such a length whatever it contains |
| Overlong.LosingFileLoses | main/STM_FLASH_CONTROLLER/stm_flash/stm_flash.c:5-35 | the other: for every greater length, a file after which the whole flash is erased, on devices with either erase command |
| Overlong.HarmlessPage | main/STM_FLASH_CONTROLLER/stm_pro_mode/stm_pro_mode.c:277-298 | a page whose bytes are fill from the fifth or sixth on does nothing to the flash when it is taken for commands |
| Overlong.ErasingPageErases | main/STM_FLASH_CONTROLLER/stm_pro_mode/stm_pro_mode.c:277-298 | the shortest erase command and fill, taken for commands, erases the flash |
| FlashTasks.Link.ReadTask | main/STM_FLASH_CONTROLLER/stm_flash/stm_flash.c:37-66 | reads each page of the flash in turn and changes nothing in it; its verdict depends on the number of blocks alone |
| FlashTasks.Link.FlashSTM | main/STM_FLASH_CONTROLLER/stm_flash/stm_flash.c:68-99 | success means that the file fits, is in flash, and the read-back showed exactly the pages written; what a failure leaves, as for the write task; the device always ends in its application |
| Padding.PaddedLengthIsLeast | main/config_initial.h:39-46 | the padded length is the least multiple of 16 above the text's length |
| Padding.Pad | main/config_initial.h:48-57 | the buffer is the text and then the pad octet |
| Padding.UnpadIff | main/config_initial.h:39-57 | removing the padding of section 6.3 of RFC 5652 gives the text back if and only if its length is not 15 modulo 16; then one octet 17 is appended and nothing can be removed |
| Padding.RequestAhsn | main/config_initial.h:96-146 | for replies of any length: the serial number is accepted exactly when the four letters are there and the identifier between `d` and `m` has 16 characters, and is then one character too long for each of its buffers |
| Padding.AhsnOutcome | main/config_initial.h:96-132 | every reply's outcome by its parts: accepted if and only if it is short, has the four letters, and splits into parts with an identifier of 16 characters; undefined if and only if it is too long, or has the letters but no such parts |
| Padding.AhsnByParts | main/config_initial.h:112-142 | the accepted serial number by character: the prefix, the four octets of the address in lower-case hexadecimal, the identifier |
| Padding.HexTextReads | main/config_initial.h:127 | the printed octets read back two digits at a time |
| Padding.AcceptedAhsnOverflows | main/config_initial.h:112-133 | every accepted serial number overruns `mac_esp` and the allocated `ahsn` by its terminator |
| Padding.AcceptedAhsn | main/config_initial.h:119-152 | an accepted one has 33 characters, its padding can be removed, and its ciphertext in base64 with a terminator fills BASE64_OUTPUT_SIZE exactly |
| HttpAccumulator.Accumulator.Handle | main/http_client_controller.h:46-114 | one event: data goes behind what is there and nothing else changes, into the user's buffer or one of the announced length; finish and disconnect reset |
| HttpAccumulator.Accumulator.HandleAll | main/http_client_controller.h:46-114 | over any run of one client: the length is that of the response since the last reset, the buffer starts with exactly it, and no byte beyond the longest response is touched |
| HttpAccumulator.HighWaterReached | main/http_client_controller.h:46-114 | the bound beyond which nothing is touched is the length some response had |
| SharedAccumulator.HandleTurns | main/http_client_controller.h:46-114 | over any interleaving of clients with their own or shared buffers, the handler makes of the buffers and the length what `Contents` and `SharedLen` say |
| SharedAccumulator.IntactIff | main/http_client_controller.h:46-114 | every buffer starts with its own client's response at every moment, whatever the responses contain, if and only if each write finds the shared length at the end of its own client's response and at or behind any other in the same buffer |
| SharedAccumulator.TwoClientsCollide | main/http_client_controller.h:333-360 | two clients with one data event each already break that |
| FileServer.PathIsLongest | main/file_server_controller.h:138-150 | the path is the longest prefix of the URI without `?` or `#` (section 3.3 of RFC 3986) |
| FileServer.GetPathFromUri | main/file_server_controller.h:138-163 | the destination is base path and path; null if and only if they and a terminator do not fit, and then nothing is written |
| FileServer.Server.ReceiveBody | main/file_server_controller.h:297-345 | written and remaining always add up; succeeds if and only if the octets arrive, timeouts aside, and fit the storage; a failed body is removed and its space free again |
| FileServer.ArrivesStep | main/file_server_controller.h:303-319 | the octets arrive, arrival by arrival: timeouts are waited out, an error or an empty read ends the reception, octets count up to a scratch buffer at a time |
| FileServer.Server.Upload | main/file_server_controller.h:248-359 | succeeds exactly under the handler's conditions, stated on the URI: the path before the first `?` or `#` fits, does not end in a slash and names no file, the size is allowed, and the body arrives and fits; all or nothing |
| FileServer.Server.Download | main/file_server_controller.h:166-245 | which response each URI gets, stated on the path before its first `?` or `#`, and a file goes out in full scratch buffers and a rest, in order |
| FileServer.Server.UploadThenDownload | main/file_server_controller.h:166-359 | a stored body is downloaded octet for octet |

## Left out

- A slot of the sensor arrays is the sequence of its integer fields; the `id` fields of the C structs, which nothing reads, are not modelled.
- Telemetry.StoreGps: its contract leaves the stored GPS values open, because `allocate_data` overwrites them with constants in the same call, and their floating-point text is not modelled.
- The two single-precision GPS constants appear as the text `%f` prints for them; `%f` itself is not modelled.
- FlashTasks.Link.Await: on this link a device's answer is there at the first poll. `FlashTasks.PaceDoesNotMatter` covers answers no longer than what is waited for; not covered are bytes left over from before `SetupSTM` that are still arriving while it runs.
- FlashTasks.Link.FlashSTM: does not model the `fclose` of a null file pointer when the file cannot be opened.
- HttpAccumulator.Accumulator.HandleAll: requires responses that fit the user's buffer, as SharedAccumulator.IntactIff does; what longer ones overwrite is not modelled.
- PollProtocol.EveryRun: copying the receive buffer to the private payload is one step, so a receive that overwrites the buffer in the middle of that copy is not modelled, nor are real times: a wait may end at any step at which it can.
- Tokens are copies with a value, as `split_sensors` makes them; allocation failures, leaks and the heap are not modelled.
- Padding.RequestAhsn: the serial number is a value here, so what the code does after overrunning its buffers is not modelled, nor is the first, discarded reply.
- Registry names: the 133 NVS key names are modelled by their numbers 1 to 133; the limit NVS sets on their length is not.
- The nine endpoint strings are one sequence of buffers in the order of the key tables.
- Flash programming clears bits and erasing is global, as AN3155 has it; read and write protection are not modelled, and a device answers each byte at once.
- `fopen` failing on an existing file, the HTTP response texts, directory listings, delete and the content types.
- AES, base64 and cJSON internals, `main/json_controller.h`, `main/config_controller.h`, the dead code of `main/wifi_controller.h`, and the login flow.
- `main/local_http_server.h`: handlers of one lookup and one store each; they would only add easy members.
