# Verified models of U-Boot's monitor commands

This project models the parts of a U-Boot tree that hold real algorithms over bytes, lists and protocol
state, and proves what they promise. Hardware is abstract: memories and media are arrays or functions with
arbitrary faults, links are character sequences. `ulong` is 32 bits wide throughout, and arithmetic wraps
wherever the code's does.

- **Environment** (`EnvLayout`, `EnvRules`, `EnvLaws`, `EnvStore`): a packed byte array of `name=value` strings is
  edited in place. It is proved to refine an insertion-ordered map, call by call and over whole runs.
- **MTD partitions** (`MtdSize`, `MtdParts`, `MtdText`, `MtdGrammar`, `MtdTable`, `MtdLaws`, `MtdStore`): the parser
  accepts exactly a stated grammar and undoes the printer; range and erase-block validation is exact despite 32-bit
  arithmetic; a partition index keeps naming the same partition over every run.
- **Kermit** (`KermitWire`, `KermitAccept`, `KermitDelivery`, `KermitPeer`, `KermitReceiver`): a receiver that writes
  straight to memory and survives retransmission by checkpoint and rollback accepts exactly the right frames and
  delivers exactly the message, and the lines on which it does not are characterized. The packet format is that of
  section 6 of the Kermit Protocol Manual, sixth edition.
- **S-records** (`SRecordText`, `SRecordLoad`, `SRecordAccept`, `SRecordSerial`): saving a region and loading it at an
  offset reproduces it, and exactly the records with a right check are loaded. The format is Motorola's.
- **Memory test** (`MemTest`): the increment and invert passes decide health exactly, for arbitrary aliasing and
  stuck bits.
- **Flash, OneNAND, floppy, EEPROM** (`FlashRange`, `FlashLaws`, `OneNand`, `Floppy`, `Eeprom`): sector tiling across
  banks, bad-block skipping with state carried between calls, bounded retries, page-bounded transfers.
- **Log buffer** (`LogRing`): two ring layouts store one tagged stream.
- **Bedbug** (`BedbugFields`, `Bedbug`, `BedbugStep`, `BedbugNext`, `BedbugLaws`): PowerPC assembler, disassembler and
  single-stepper agree on instruction fields and branch targets.

`Common` and `Arith` hold definitions and division facts that several components share. Where the code updates
state in place, a class has the same fields and its methods are proved against specification functions; the
theorems are lemmas about those functions. `dafny verify dfyconfig.toml` checks everything.

Where the code does less than its comments or the obvious expectation, the model follows the code and a lemma
says exactly when the expectation holds:

- a full log ring shows nothing, although it holds everything (`LogRing.Log.Show`);
- a flash range whose end lies beyond its banks, or inside one that comes before them in the table, is covered only in
  part (`FlashLaws.EndsDecide`);
- deleting a partition that is tied in offset behind the current one moves the current number wrongly
  (`MtdTable.RemoveTracksIff`, `MtdTable.TiedDeletion`);
- a damaged Kermit header rolls back the frame before it, although that frame was acknowledged, and its payload is
  lost unless the next frame repeats it (`KermitDelivery.LossIff`, `KermitDelivery.DamagedHeaderLosesData`);
- the next address after a flash bank that ends at 0xFFFFFFFF is 0, so a later bank at 0 is selected as well
  (`FlashRange.TilesIff`, `FlashRange.WrapSelectsBottom`);
- an empty region saved as S-records is reported as two bytes when loaded (`SRecordLoad.SaveLoadRoundTrip`);
- an environment call that overflows has already deleted the old value (`EnvRules.ApplyRejected`);
- branch targets that are not word aligned or out of range are assembled into something else
  (`BedbugNext.UncondAgrees`, `BedbugNext.CondAgrees`).

## Model

| member | source | states |
|---|---|---|
| `EnvStore.Environment.DoSetenv` | imapx800-develop/common/cmd_nvedit.c:173-352 | the in-place edit refines `EnvRules.Apply` on the ordered list the bytes hold: same new list, same return code, still well formed; `env_id` grows by one unless the name has a `=` |
| `EnvRules.ApplyAccepted` | imapx800-develop/common/cmd_nvedit.c:188-351 | acceptance is exactly "not refused and the result fits"; other entries keep their order, the new one is last with its arguments joined by spaces, and lookups change for that name only |
| `EnvRules.ApplyRejected` | imapx800-develop/common/cmd_nvedit.c:188-336 | a refused call changes nothing; an overflowing one loses only the old value of its own name |
| `EnvRules.ApplyKeepsForm` | imapx800-develop/common/cmd_nvedit.c:173-352 | every call keeps distinct non-empty entries with a `=` and a double-NUL end inside the storage |
| `EnvRules.WriteOnce` | imapx800-develop/common/cmd_nvedit.c:205-230 | over any run of set, delete and overflowing calls on any names, a protected vendor variable keeps its value |
| `EnvRules.VendorWriteOnce` | imapx800-develop/common/cmd_nvedit.c:205-230 | in the stock configuration `serial#` and `ethaddr` can be set once |
| `EnvRules.UnprotectedCanChange` | imapx800-develop/common/cmd_nvedit.c:209-230 | the protection is exact: an unprotected value can be replaced by one call that fits |
| `EnvLaws.OrdinaryDelete` | imapx800-develop/common/cmd_nvedit.c:190-316 | deleting a variable that is none of the six special ones returns 0; it is gone and every other entry stays |
| `EnvLaws.OrdinarySet` | imapx800-develop/common/cmd_nvedit.c:317-348 | setting one returns 0 exactly when names, values and their separators fit byte for byte; the value is then the joined arguments, and gone otherwise |
| `EnvLaws.EqualsSign` | imapx800-develop/common/cmd_nvedit.c:184-188 | a name with a `=` is refused before anything else |
| `EnvLaws.SpecialUnset` | imapx800-develop/common/cmd_nvedit.c:190-204 | a special variable that is not there is set or deleted like any other |
| `EnvLaws.SpecialStored` | imapx800-develop/common/cmd_nvedit.c:205-292 | for each of `serial#`, `ethaddr`, the three consoles and `baudrate`: the exact condition on the inputs under which a stored value can be changed or deleted, and that nothing changes otherwise |
| `EnvLaws.RoomIs` | imapx800-develop/common/cmd_nvedit.c:324-336 | the image fits exactly when the code's sum of lengths does |
| `EnvLaws.JoinSplits` | imapx800-develop/common/cmd_nvedit.c:339-345 | cutting the stored value at its spaces gives the arguments back |
| `EnvLayout.ImageInjective` | imapx800-develop/common/cmd_nvedit.c:198-203 | one byte image is the image of at most one entry list |
| `EnvLayout.NoDoubleNul` | imapx800-develop/common/cmd_nvedit.c:320-321 | inside the entries no NUL is followed by a NUL, so the end scan stops at the end only |
| `EnvLayout.NamePartOfText` | imapx800-develop/common/cmd_nvedit.c:586-595 | the name of an entry is its text up to the first `=` |
| `EnvStore.Environment.Envmatch` | imapx800-develop/common/cmd_nvedit.c:586-595 | matches exactly when the names are equal, and returns the address of the value |
| `EnvStore.Environment.Search` | imapx800-develop/common/cmd_nvedit.c:195-203 | the scan finds the first entry of that name, with its start, its NUL and its value |
| `EnvStore.Environment.GetEnv` | imapx800-develop/common/cmd_nvedit.c:511-531 | `getenv` is map lookup: found exactly when the map has the name, and the C string there is the value |
| `EnvStore.Environment.DeleteEntry` | imapx800-develop/common/cmd_nvedit.c:294-309 | the overlapping shift removes exactly one entry and keeps the layout |
| `EnvStore.Environment.ShiftDown` | imapx800-develop/common/cmd_nvedit.c:301-307 | the shift loop moves the bytes up to the double NUL down by the gap |
| `EnvStore.Environment.CloseGap` | imapx800-develop/common/cmd_nvedit.c:294-308 | all three shapes of the delete (middle, last, only entry) close the gap with the right terminators |
| `EnvStore.Environment.FindEnd` | imapx800-develop/common/cmd_nvedit.c:320-323 | the end scan stops at the last byte of the packed entries |
| `EnvStore.Environment.EntrySize` | imapx800-develop/common/cmd_nvedit.c:328-332 | the computed length is the entry with both terminators |
| `EnvStore.Environment.WriteEntry` | imapx800-develop/common/cmd_nvedit.c:337-348 | the append loops write `name=arg1 arg2 ...` and its NUL |
| `EnvStore.Environment.AppendEntry` | imapx800-develop/common/cmd_nvedit.c:317-348 | appends exactly when the new image fits, otherwise writes nothing |
| `EnvStore.Environment.DeleteOld` | imapx800-develop/common/cmd_nvedit.c:195-309 | search, checks and delete together remove the name or refuse |
| `EnvStore.Environment.IsProtected` | imapx800-develop/common/cmd_nvedit.c:209-230 | the comparisons decide the vendor protection |
| `EnvStore.Environment.IsRefused` | imapx800-develop/common/cmd_nvedit.c:209-292 | the checks before a delete refuse for protection, console or baud rate |
| `EnvStore.Environment.EnvEnum` | imapx800-develop/api/api.c:516-557 | one step of the enumeration returns the entry after the given one |
| `EnvRules.WalkIsComplete` | imapx800-develop/api/api.c:516-557 | from NULL the enumeration yields every entry once, in storage order, then NULL |
| `EnvRules.NextAfterEntry` | imapx800-develop/api/api.c:530-552 | from an entry the next one follows, from the last one the end |
| `EnvLaws.EnumStandsStill` | imapx800-develop/api/api.c:526-556 | the enumeration returns the caller's own pointer exactly for a name that is not there |
| `MtdSize.SizeRoundTrip` | imapx800-develop/common/cmd_mtdparts.c:184-231 | parsing a printed size gives it back for every u32 and every continuation that ends a number |
| `MtdGrammar.NumRead` | imapx800-develop/common/cmd_mtdparts.c:184-205 | a number with hexadecimal, octal or decimal digits and any unit is read as its positional value in 32 bits |
| `MtdGrammar.NumLeads` | imapx800-develop/common/cmd_mtdparts.c:184-205 | whatever is read is such a number, and the rest is unread |
| `MtdGrammar.PrintedInLargestUnit` | imapx800-develop/common/cmd_mtdparts.c:217-231 | a size is printed in the largest unit that divides it |
| `MtdText.PartRoundTrip` | imapx800-develop/common/cmd_mtdparts.c:584-692 | a printed partition is parsed back with its size, offset (or its omission), name and flag |
| `MtdText.PartsRoundTrip` | imapx800-develop/common/cmd_mtdparts.c:868-899 | a printed partition list is parsed back, omitted offsets included |
| `MtdGrammar.DefRead` | imapx800-develop/common/cmd_mtdparts.c:584-692 | a partition written as size or `-`, offset, name and flag means exactly that; below 4096 bytes, or with another one after a fill-up size, it is refused |
| `MtdGrammar.DefLeads` | imapx800-develop/common/cmd_mtdparts.c:584-692 | every accepted partition text is one of these |
| `MtdGrammar.ListRead` | imapx800-develop/common/cmd_mtdparts.c:868-899 | a list is accepted with a certain result exactly when that places each partition where it says, or after the one before it, with its size or up to the end of the device, inside the device on block boundaries, a fill-up size only last |
| `MtdGrammar.ListLeads` | imapx800-develop/common/cmd_mtdparts.c:868-899 | every accepted list is such a list |
| `MtdGrammar.DashTakesTheRest` | imapx800-develop/common/cmd_mtdparts.c:597-660 | an accepted `-` gives a partition that ends where the device ends, and nothing but a semicolon or the end follows it |
| `MtdText.SortAllAscending` | imapx800-develop/common/cmd_mtdparts.c:937-945 | partitions in ascending order are sorted in unchanged |
| `MtdText.DeviceRoundTrip` | imapx800-develop/common/cmd_mtdparts.c:826-951 | a printed device is parsed back |
| `MtdLaws.DeviceRead` | imapx800-develop/common/cmd_mtdparts.c:826-951 | an accepted device text gives the first id of its name and a layout of its list, sorted |
| `MtdLaws.DeviceRefused` | imapx800-develop/common/cmd_mtdparts.c:826-951 | it is refused exactly when there is no such device: unknown name, no layout, or two partitions at offset 0 |
| `MtdLaws.DeviceLeads` | imapx800-develop/common/cmd_mtdparts.c:826-951 | every accepted text begins with a device text |
| `MtdText.DevicesRoundTrip` | imapx800-develop/common/cmd_mtdparts.c:1364-1411 | all printed devices are parsed back in order |
| `MtdText.TextRoundTrip` | imapx800-develop/common/cmd_mtdparts.c:1067-1184 | parsing what `generate_mtdparts` prints rebuilds the device list |
| `MtdText.RereadIdentity` | imapx800-develop/common/cmd_mtdparts.c:1118-1150 | the rebuilt list is the same one when all names were given, and differs in generated names only |
| `MtdParts.PartValidate` | imapx800-develop/common/cmd_mtdparts.c:398-425 | in 32-bit arithmetic, accepts exactly the partitions that lie in the device as integers on erase-block boundaries, `-` sizes resolved |
| `MtdParts.Aligned` | imapx800-develop/common/cmd_mtdparts.c:308-385 | uniform and multi-region geometries: accepts exactly when both ends are block boundaries |
| `MtdParts.FindBlockStart` | imapx800-develop/common/cmd_mtdparts.c:347-355 | the nested scan finds whether a block starts at an address |
| `MtdTable.SortAddIsInsert` | imapx800-develop/common/cmd_mtdparts.c:499-553 | the scan of `part_sort_add` is a sorted insertion, except that a second partition at offset 0 is refused |
| `MtdTable.InsertTracks` | imapx800-develop/common/cmd_mtdparts.c:518-547 | after an insertion the current number names the same partition |
| `MtdTable.RemoveTracksIff` | imapx800-develop/common/cmd_mtdparts.c:444-471 | after a deletion it does so exactly when the deleted one is not tied in offset behind the current one |
| `MtdTable.TiedDeletion` | imapx800-develop/common/cmd_mtdparts.c:444-471 | on a valid table such a deletion makes the number name the partition before the current one, and from number 0 it becomes 255, outside the list: the table stays valid exactly when the number is positive |
| `MtdTable.StepOk` | imapx800-develop/common/cmd_mtdparts.c:434-573 | every table operation keeps the invariant, and the current partition unless it deletes or replaces it or is such a tied deletion |
| `MtdTable.RunOk` | imapx800-develop/common/cmd_mtdparts.c:434-815 | over every run, tied deletions from a positive number included, the lists stay sorted, counted and inside their devices, and the current partition is tracked until a step hits it |
| `MtdLaws.PartAdded` | imapx800-develop/common/cmd_mtdparts.c:398-573 | a partition is added exactly when it lies in its device on block boundaries and is not a second one at offset 0; then exactly it is new |
| `MtdLaws.PartDeleted` | imapx800-develop/common/cmd_mtdparts.c:434-478 | exactly the deleted partition disappears, the last one with its device; a deleted current one leaves the first of its device current |
| `MtdLaws.DeviceDeleted` | imapx800-develop/common/cmd_mtdparts.c:747-769 | exactly the device disappears; if it was current, the first partition of the first device left becomes current, or none |
| `MtdLaws.DeviceAdded` | imapx800-develop/common/cmd_mtdparts.c:799-815 | the device goes to the end; the first one of all makes its first partition current |
| `MtdLaws.PartChosen` | imapx800-develop/common/cmd_mtdparts.c:1715-1741 | the chosen partition is current and nothing else changes |
| `MtdLaws.SortAllIff` | imapx800-develop/common/cmd_mtdparts.c:499-553 | sorting partitions in works exactly when at most one starts at offset 0, and keeps them all |
| `MtdTable.RankIsPosition` | imapx800-develop/common/cmd_mtdparts.c:238-271 | `mtddevnum` is the current partition's position in the concatenation of all lists |
| `MtdLaws.VariablesAre` | imapx800-develop/common/cmd_mtdparts.c:238-297 | the three variables are position, name and number of the current partition, or unset |
| `MtdTable.PartsParseOk` | imapx800-develop/common/cmd_mtdparts.c:878-899 | every parsed partition lies in its device on block boundaries, and the text bounds their number |
| `MtdTable.ParsedTableOk` | imapx800-develop/common/cmd_mtdparts.c:1364-1411 | any accepted text yields a table that satisfies the invariant |
| `MtdStore.Store.IndexPartitions` | imapx800-develop/common/cmd_mtdparts.c:238-271 | the counting loop sets the variables of the current partition |
| `MtdStore.Store.CurrentSave` | imapx800-develop/common/cmd_mtdparts.c:276-297 | sets the partition variable and the index variables |
| `MtdStore.Store.ScanPosition` | imapx800-develop/common/cmd_mtdparts.c:522-549 | the list scan finds the insertion point or the refusal |
| `MtdStore.Store.PartSortAdd` | imapx800-develop/common/cmd_mtdparts.c:499-553 | list, count and current number move together as specified |
| `MtdStore.Store.PartAdd` | imapx800-develop/common/cmd_mtdparts.c:562-573 | is the `AddPart` step and keeps the current partition |
| `MtdStore.Store.PartDel` | imapx800-develop/common/cmd_mtdparts.c:434-471 | is the `DelPart` step, tied or not, and keeps the current partition unless the step hits it |
| `MtdStore.Store.DeviceAdd` | imapx800-develop/common/cmd_mtdparts.c:799-815 | is the `AddDevice` step |
| `MtdStore.Store.DeviceDel` | imapx800-develop/common/cmd_mtdparts.c:747-769 | is the `DelDevice` step |
| `MtdStore.Store.ChangeCurrent` | imapx800-develop/common/cmd_mtdparts.c:1715-1741 | is the `ChangePart` step |
| `MtdStore.Store.ParsePartList` | imapx800-develop/common/cmd_mtdparts.c:868-909 | the parsing loop computes the specified list |
| `MtdStore.Store.SortParts` | imapx800-develop/common/cmd_mtdparts.c:937-945 | moves the temporary list into the device in order of offset |
| `MtdStore.Store.ParseDevice` | imapx800-develop/common/cmd_mtdparts.c:826-951 | computes the specified device or fails |
| `MtdStore.Store.LoadMtdparts` | imapx800-develop/common/cmd_mtdparts.c:1364-1411 | loads exactly the devices of an accepted text, and nothing from a rejected one |
| `MtdStore.Store.PrintPartList` | imapx800-develop/common/cmd_mtdparts.c:1102-1165 | the printing loop computes the specified text |
| `MtdStore.Store.GenerateMtdparts` | imapx800-develop/common/cmd_mtdparts.c:1067-1184 | prints exactly the text the round trip is about |
| `KermitWire.CodingRoundTrip` | imapx800-develop/common/cmd_load.c:576-584 | decoding the control-prefixed encoding of any byte string gives it back |
| `KermitWire.EncodedIsPrintable` | imapx800-develop/common/cmd_load.c:932-949 | an encoding never contains a character the receiver rejects |
| `KermitWire.PacketRoundTrip` | imapx800-develop/common/cmd_load.c:866-958 | a built packet passes every test of the receiver and carries its data |
| `KermitWire.LongPacketRoundTrip` | imapx800-develop/common/cmd_load.c:908-958 | so does a packet with the extended length header and its own check |
| `KermitAccept.AcceptedIff` | imapx800-develop/common/cmd_load.c:866-958 | a frame is accepted exactly when it is a printable header of either form with its data, as long as it says, with its own header check when extended, then the block check of all of it and a carriage return |
| `KermitAccept.OneBitDamageIsRefused` | imapx800-develop/common/cmd_load.c:918-958 | no frame with one damaged bit is accepted, wherever the bit is |
| `KermitAccept.CheckFolds` | imapx800-develop/common/cmd_load.c:586-594 | the check is the low six bits of the sum plus the two above them |
| `KermitAccept.OneBitShows` | imapx800-develop/common/cmd_load.c:953-955 | sums that differ by one bit have different checks |
| `KermitAccept.HeaderEvent` | imapx800-develop/common/cmd_load.c:868-881 | a damaged header is exactly a control character as length or number; any other frame carries the number that arrived |
| `KermitAccept.ControlEnds` | imapx800-develop/common/cmd_load.c:868-955 | reading a frame never goes past the first control character |
| `KermitAccept.ReceivedWasSent` | imapx800-develop/common/cmd_load.c:837-976 | every accepted frame of a reception stands on the line as a right frame, in order, and it ends with the first accepted break |
| `KermitAccept.SentIsReceived` | imapx800-develop/common/cmd_load.c:851-866 | every right frame is received, whatever stands before it |
| `KermitAccept.ControlCEnds` | imapx800-develop/common/cmd_load.c:851-861 | a control-C between frames ends the reception |
| `KermitDelivery.FoldDelivers` | imapx800-develop/common/cmd_load.c:882-899 | checkpoint and rollback leave the last payload of every run of equal sequence numbers |
| `KermitDelivery.DeliveryIsExact` | imapx800-develop/common/cmd_load.c:837-976 | whatever is repeated or rejected, the result is the unquoted concatenation of those payloads |
| `KermitDelivery.LossIff` | imapx800-develop/common/cmd_load.c:869-898 | damaged headers cost something exactly when one directly follows an accepted non-empty payload that the next frame does not repeat: otherwise the delivery is that of the frames alone, and it is never longer than that |
| `KermitDelivery.DeliveryOfFrames` | imapx800-develop/common/cmd_load.c:837-976 | while nothing is lost, memory and state are those of the last payloads of the maximal runs of frames with one number, damaged headers or not |
| `KermitDelivery.IntactHeaders` | imapx800-develop/common/cmd_load.c:882-888 | with intact headers nothing is lost |
| `KermitDelivery.DamagedHeaderLosesData` | imapx800-develop/common/cmd_load.c:869-898 | a character line on which it happens: with a damaged header between two accepted frames only the second is delivered |
| `KermitDelivery.RepliesAppend` | imapx800-develop/common/cmd_load.c:959-971 | one reply per frame, in order, with the parameters in force |
| `KermitDelivery.ReplyIsReadable` | imapx800-develop/common/cmd_load.c:604-629 | acknowledgements, refusals and parameter replies pass the receiver's own tests, for any offered payload |
| `KermitDelivery.TransferRoundTrip` | imapx800-develop/common/cmd_load.c:803-977 | a message split into frames anywhere is received as exactly that message |
| `KermitPeer.RunDelivers` | imapx800-develop/common/cmd_load.c:882-899 | what has one number contributes once: its payload if its last attempt is an accepted data frame, otherwise nothing |
| `KermitPeer.RetransmissionIsInvisible` | imapx800-develop/common/cmd_load.c:882-964 | however often frames are damaged, refused and repeated, the same is delivered as without any of it, as long as no damaged header opens a new frame |
| `KermitPeer.NoisyTransfer` | imapx800-develop/common/cmd_load.c:803-977 | so a message split anywhere is stored exactly in spite of them |
| `KermitPeer.AnswersAreRead` | imapx800-develop/common/cmd_load.c:959-971 | read by the same rules, the reply line holds one answer per frame in order: yes with its number to an accepted one, no to any other |
| `KermitPeer.AnswersAsAgreed` | imapx800-develop/common/cmd_load.c:567-629 | every answer has the padding and line end last asked for, the one to a parameter frame already the new ones |
| `KermitPeer.AnnouncedIsUsed` | imapx800-develop/common/cmd_load.c:722-770 | padding, line end and quote are those the sender announced, for payloads of any length, with the defaults for what is missing |
| `KermitPeer.BufferNeverShows` | imapx800-develop/common/cmd_load.c:727-730 | the twenty-byte parameter buffer never limits the reply |
| `KermitPeer.ReplyAnnounces` | imapx800-develop/common/cmd_load.c:733-791 | the reply has as many fields as offered, or thirteen, and announces the receiver's own parameters and long packets |
| `KermitReceiver.Receiver.KDataChar` | imapx800-develop/common/cmd_load.c:656-708 | one character moves memory and the escape state as specified |
| `KermitReceiver.Receiver.Checkpoint` | imapx800-develop/common/cmd_load.c:889-898 | a new number saves, a repeated one restores |
| `KermitReceiver.Receiver.PacketError` | imapx800-develop/common/cmd_load.c:959-964 | back to the checkpoint, and a negative acknowledgement is sent |
| `KermitReceiver.Receiver.Chk1` | imapx800-develop/common/cmd_load.c:586-594 | the block check of a NUL-terminated text |
| `KermitReceiver.Receiver.SendPacket` | imapx800-develop/common/cmd_load.c:567-602 | padding and text go out |
| `KermitReceiver.Receiver.FinishPacket` | imapx800-develop/common/cmd_load.c:604-629 | a packet is completed with its check and line end |
| `KermitReceiver.Receiver.HandleSendPacket` | imapx800-develop/common/cmd_load.c:716-800 | takes over the sender's parameters and answers with the agreed ones |
| `KermitReceiver.Receiver.ReadData` | imapx800-develop/common/cmd_load.c:932-958 | reads data, check and end as the grammar says, memory following |
| `KermitReceiver.Receiver.ReadExtended` | imapx800-develop/common/cmd_load.c:908-931 | the extended-length header |
| `KermitReceiver.Receiver.ReadFromType` | imapx800-develop/common/cmd_load.c:901-958 | from the packet type to the verdict |
| `KermitReceiver.Receiver.ReceiveFrame` | imapx800-develop/common/cmd_load.c:866-975 | one frame: state, memory and reply are those of its event |
| `KermitReceiver.Receiver.Turn` | imapx800-develop/common/cmd_load.c:837-975 | one turn of the main loop extends the run by one event |
| `KermitReceiver.Receiver.KRecv` | imapx800-develop/common/cmd_load.c:803-977 | every frame it accepts stood on the line with right checks; at exit memory from the start address to the returned size is exactly the delivered bytes, and the replies are those of the run; an interrupted transfer has answered its frames and holds what they delivered |
| `SRecordText.LineDecodes` | imapx800-develop/common/s_record.c:30-170 | a line built from type, address and data has the right length byte and checksum, and decodes to them |
| `SRecordText.DataLineDecodes` | imapx800-develop/common/cmd_load.c:356-375 | every data record `save_serial` builds decodes to its address and payload |
| `SRecordAccept.CompleteLine` | imapx800-develop/common/s_record.c:30-155 | a line with all its bytes decodes to what its type says if they sum to 255 modulo 256, and is a bad checksum otherwise |
| `SRecordAccept.IncompleteLine` | imapx800-develop/common/s_record.c:36-149 | every other line, with the reason: empty, no record, or no such type |
| `SRecordAccept.AcceptedIff` | imapx800-develop/common/s_record.c:30-155 | exactly the complete lines that sum to 255 are accepted |
| `SRecordAccept.WrongCheckIsRefused` | imapx800-develop/common/s_record.c:145-152 | for every type, address and data, every check byte but the one's complement of the rest is refused |
| `SRecordAccept.DamagedByteIsRefused` | imapx800-develop/common/s_record.c:136-152 | one wrong byte after the length is a bad checksum |
| `SRecordText.RecordFits` | imapx800-develop/common/cmd_load.c:336-372 | a data record fits the record buffer, exactly at the worst |
| `SRecordText.HexByteRoundTrip` | imapx800-develop/common/s_record.c:172-195 | two hexadecimal digits read back as their byte |
| `SRecordLoad.ChunksTile` | imapx800-develop/common/cmd_load.c:344-381 | the payloads tile the region once, in order |
| `SRecordLoad.ParseSaved` | imapx800-develop/common/cmd_load.c:332-385 | the saved text reads back as header, chunks and end record |
| `SRecordLoad.ReadPlainLine` | imapx800-develop/common/cmd_load.c:219-254 | a line of plain characters is read whole |
| `SRecordAccept.ReadRecordIs` | imapx800-develop/common/cmd_load.c:219-254 | a line ends at either line end, dropped, or at the buffer; NUL, control-C and silence give none |
| `SRecordLoad.StoredIsRegion` | imapx800-develop/common/cmd_load.c:169-188 | consecutive stores replace exactly one region |
| `SRecordAccept.RunOutcome` | imapx800-develop/common/cmd_load.c:156-216 | after a load each address holds the byte of the last record that covers it; an end record gives its entry point, an error aborts |
| `SRecordAccept.TextOutcome` | imapx800-develop/common/cmd_load.c:156-216 | over whole texts: a bad line aborts with memory as the lines before it left it, and nothing after it counts |
| `SRecordAccept.BoundsHold` | imapx800-develop/common/cmd_load.c:185-188 | the reported bounds enclose everything stored |
| `SRecordAccept.BoundsAreTight` | imapx800-develop/common/cmd_load.c:185-188 | and each is the place of some record |
| `SRecordLoad.SaveLoadRoundTrip` | imapx800-develop/common/cmd_load.c:144-216 | loading what was saved reproduces the region at the offset and nothing else, with entry point 0; the reported size is the length for non-empty regions and 2 for the empty one |
| `SRecordSerial.Monitor.SaveSerial` | imapx800-develop/common/cmd_load.c:332-385 | the byte loop sends exactly that text |
| `SRecordSerial.Monitor.Collect` | imapx800-develop/common/cmd_load.c:345-353 | one byte in hexadecimal and in the checksum |
| `SRecordSerial.Monitor.Dump` | imapx800-develop/common/cmd_load.c:354-375 | one record with its length, address, payload and checksum |
| `SRecordSerial.Monitor.ReadLine` | imapx800-develop/common/cmd_load.c:219-254 | the character loop reads one line, truncating at the buffer |
| `SRecordSerial.Monitor.LoadSerial` | imapx800-develop/common/cmd_load.c:144-216 | memory and report are those of the text's records |
| `MemTest.Memory.IncrementTest` | imapx800-develop/common/cmd_mem.c:844-885 | for any aliasing map and stuck bits, the three passes succeed exactly when no tested addresses share a cell and no reached bit is stuck |
| `MemTest.Memory.Iteration` | imapx800-develop/common/cmd_mem.c:786-885 | the whole iteration gives that exact verdict on its words |
| `MemTest.Memory.Fill` | imapx800-develop/common/cmd_mem.c:846-853 | the fill leaves in every reached cell the pattern of its last writer |
| `MemTest.Memory.CheckAndInvert` | imapx800-develop/common/cmd_mem.c:855-870 | passes on a healthy memory; passing means no aliasing and every pattern held |
| `MemTest.Memory.CheckInverted` | imapx800-develop/common/cmd_mem.c:872-885 | passes exactly when no reached bit is stuck |
| `MemTest.Memory.AddressLineTest` | imapx800-develop/common/cmd_mem.c:788-830 | for any wiring and stuck bits, passes exactly when every line reads as the pattern while any other test offset holds the anti-pattern |
| `MemTest.Memory.LineFaultsAreFound` | imapx800-develop/common/cmd_mem.c:758-772 | without stuck bits it passes exactly when the test offsets reach different cells, so stuck and shorted address lines are found |
| `MemTest.Memory.TestLine` | imapx800-develop/common/cmd_mem.c:799-829 | one test offset: marked, checked against all lines, and restored |
| `MemTest.Memory.CheckStep` | imapx800-develop/common/cmd_mem.c:857-870 | one checked and inverted word keeps the account of which cell holds what |
| `MemTest.Memory.CheckDone` | imapx800-develop/common/cmd_mem.c:857-870 | the finished pass rules out aliasing |
| `MemTest.HeldBothWays` | imapx800-develop/common/cmd_mem.c:860-885 | a cell that holds a word and its complement has no stuck bit |
| `FlashRange.PlanTiles` | imapx800-develop/common/cmd_flash.c:206-287 | on a straight range a successful selection covers a gap-free initial segment of the range and no byte outside it |
| `FlashRange.TilesIff` | imapx800-develop/common/cmd_flash.c:263-271 | it does so exactly on straight ranges: those that stop short of 0xFFFFFFFF or meet no bank at 0 after the bank at the top; otherwise address 0 is selected too |
| `FlashRange.WrapSelectsBottom` | imapx800-develop/common/cmd_flash.c:267 | two banks on which erasing the top one also plans the bottom one |
| `FlashRange.PlanIsLinear` | imapx800-develop/common/cmd_flash.c:206-287 | on a straight range the 32-bit next address makes the same plan as an unbounded one |
| `FlashRange.OkIsLinear` | imapx800-develop/common/cmd_flash.c:254-284 | over disjoint banks wrapping decides neither acceptance nor whether the plan is empty |
| `FlashRange.ChosenIff` | imapx800-develop/common/cmd_flash.c:206-287 | on a straight range a sector is chosen exactly when it lies inside that segment |
| `FlashRange.CountIsExact` | imapx800-develop/common/cmd_flash.c:206-287 | the count is the number of chosen sectors |
| `FlashRange.PlanIsExact` | imapx800-develop/common/cmd_flash.c:206-287 | over adjacent ascending banks a non-empty plan is made exactly when both ends are sector boundaries; on a straight range it then covers the whole range and nothing else |
| `FlashLaws.EndsDecide` | imapx800-develop/common/cmd_flash.c:233-271 | for any order of the banks: an accepted plan chooses something exactly when a sector starts at the first address, and covers the whole range exactly when one ends at the last |
| `FlashLaws.NoStartOk` | imapx800-develop/common/cmd_flash.c:272-282 | a range that starts with no sector passes, with nothing chosen, exactly when no sector ends with it and its first address is in no bank but as its last byte |
| `FlashLaws.StartOk` | imapx800-develop/common/cmd_flash.c:254-271 | a range that starts with a sector passes exactly when it ends with one of that bank, or goes beyond it and the other banks accept the rest |
| `FlashLaws.RefusalReason` | imapx800-develop/common/cmd_flash.c:254-282 | over disjoint banks a range is refused only for an end inside a bank or a start inside one |
| `FlashRange.ScanBank` | imapx800-develop/common/cmd_flash.c:233-253 | the sector loop finds the sector starting and the one ending at the range ends |
| `FlashRange.Conclude` | imapx800-develop/common/cmd_flash.c:254-284 | the tests after the loop decide as specified |
| `FlashRange.OneBank` | imapx800-develop/common/cmd_flash.c:222-284 | one turn of the bank loop |
| `FlashRange.FillSectRanges` | imapx800-develop/common/cmd_flash.c:206-287 | the loops record exactly the plan |
| `FlashRange.FlashSectErase` | imapx800-develop/common/cmd_flash.c:422-461 | hands exactly the planned sectors to the drivers, up to the first failing bank |
| `FlashRange.FlashSectProtect` | imapx800-develop/common/cmd_flash.c:647-698 | sets the flag of exactly the planned sectors, or of none |
| `FlashRange.SectRoundB` | imapx800-develop/common/cmd_flash.c:110-146 | moves an address to the end of its sector, failing exactly when no bank has it |
| `FlashRange.AddrSpec` | imapx800-develop/common/cmd_flash.c:166-204 | the length form ends on a sector end, or is refused when its end is outside the flash |
| `OneNand.PlacesAreNext` | imapx800-develop/common/cmd_onenand.c:131-157 | data goes to the next usable blocks, in order, none left out |
| `OneNand.PutIsExact` | imapx800-develop/common/cmd_onenand.c:131-157 | block i of the data is in the i-th usable block and nothing else changed |
| `OneNand.PutCompose` | imapx800-develop/common/cmd_onenand.c:131-157 | two placements in sequence are one placement |
| `OneNand.SplitWrite` | imapx800-develop/common/cmd_onenand.c:119-162 | two consecutive writes equal one, through the carried offsets |
| `OneNand.PiecesEqualOneWrite` | imapx800-develop/common/cmd_onenand.c:119-162 | any series of consecutive writes leaves exactly the state of one large write |
| `OneNand.ReadBack` | imapx800-develop/common/cmd_onenand.c:72-117 | a read returns what was written |
| `OneNand.SeriesReadBack` | imapx800-develop/common/cmd_onenand.c:72-162 | a series of writes is read back whole |
| `OneNand.Chip.BlockWrite` | imapx800-develop/common/cmd_onenand.c:119-162 | the method computes that write, carried offsets included, and ends |
| `OneNand.Chip.WriteLoop` | imapx800-develop/common/cmd_onenand.c:131-157 | the loop skips unusable blocks and accounts for them |
| `OneNand.Chip.MtdWrite` | imapx800-develop/common/cmd_onenand.c:147 | one block write, which stores nothing when it fails |
| `OneNand.Chip.BlockRead` | imapx800-develop/common/cmd_onenand.c:72-117 | reads the usable blocks in order, and ends |
| `Floppy.Mapping` | imapx800-develop/common/cmd_fdc.c:301-309 | the divisions give track, head and sector within the geometry |
| `Floppy.MappingInverts` | imapx800-develop/common/cmd_fdc.c:301-309 | the mapping inverts to the block number |
| `Floppy.SameSide` | imapx800-develop/common/cmd_fdc.c:508-511 | blocks on the rest of a side are its consecutive sectors |
| `Floppy.Drive.Transfer` | imapx800-develop/common/cmd_fdc.c:515-565 | one read command at the mapped place; a complete transfer holds the blocks |
| `Floppy.Drive.Seek` | imapx800-develop/common/cmd_fdc.c:431-438 | a seek that works puts the heads on the track of the current block |
| `Floppy.Drive.Retry` | imapx800-develop/common/cmd_fdc.c:534-562 | retries and recalibrations are counted and give up after the 25th error |
| `Floppy.Drive.ReadData` | imapx800-develop/common/cmd_fdc.c:478-594 | success means the blocks in order and at most 24 errors, no command crosses a side; failure means 25 errors or a fault of seek, recalibration or command |
| `LogRing.EveryLineIsTagged` | imapx800-develop/common/cmd_log.c:272-288 | from a line start on every stored line begins with a level tag |
| `LogRing.NothingElseChanges` | imapx800-develop/common/cmd_log.c:268-318 | removing the inserted tags gives the input back |
| `LogRing.LineByLine` | imapx800-develop/common/cmd_log.c:270-317 | complete lines are stored one by one, with a level 4 tag in front of those that bring none |
| `LogRing.PartOfLine` | imapx800-develop/common/cmd_log.c:272-288 | text without a line feed keeps the level of its line, or sets it from its tag or to 4 |
| `LogRing.EndOfLine` | imapx800-develop/common/cmd_log.c:307-316 | a line continued by another call gets no second tag, and what follows starts anew |
| `LogRing.TagIs` | imapx800-develop/common/cmd_log.c:275-279 | a tag is one of eight texts |
| `LogRing.RingHoldsStream` | imapx800-develop/common/cmd_log.c:262-319 | over any calls the ring holds the last characters of the tagged stream |
| `LogRing.PutIsLast` | imapx800-develop/common/cmd_log.c:291-306 | one stored character: the last characters of the old contents and it |
| `LogRing.PutGrows` | imapx800-develop/common/cmd_log.c:299-302 | a ring that is not full grows at its end |
| `LogRing.PutSlides` | imapx800-develop/common/cmd_log.c:299-304 | a full ring gives up its oldest character |
| `LogRing.EndStep` | imapx800-develop/common/cmd_log.c:292-295 | the start/end layout across wrapping of the unsigned counters |
| `LogRing.Log.PutV1` | imapx800-develop/common/cmd_log.c:298-306 | the start/size layout stores the specified contents |
| `LogRing.Log.PutV2` | imapx800-develop/common/cmd_log.c:291-297 | the start/end layout stores the same contents |
| `LogRing.Log.Put` | imapx800-develop/common/cmd_log.c:291-306 | both layouts hold the same contents after every character |
| `LogRing.Log.Emit` | imapx800-develop/common/cmd_log.c:290-313 | the inner loop stores up to the line feed or the end |
| `LogRing.Log.TagLine` | imapx800-develop/common/cmd_log.c:273-288 | the test and the in-place tag in front of the line |
| `LogRing.Log.PrintLine` | imapx800-develop/common/cmd_log.c:270-317 | one line is stored with its tag and the level set for the next |
| `LogRing.Log.Printk` | imapx800-develop/common/cmd_log.c:262-319 | a call appends its tagged text to the ring, whichever layout is in use |
| `LogRing.Log.Reset` | imapx800-develop/common/cmd_log.c:119-141 | empties the ring and keeps its layout |
| `LogRing.Log.Show` | imapx800-develop/common/cmd_log.c:213-227 | shows the ring, or nothing when it is full |
| `BedbugFields.ExtractInserted` | imapx800-develop/common/bedbug.c:390-394 | a field reads back what was put in, modulo its width |
| `BedbugFields.CombinedReadsBack` | imapx800-develop/common/bedbug.c:795-828 | with disjoint fields every written operand reads back |
| `BedbugFields.CombinedOutside` | imapx800-develop/common/bedbug.c:795-828 | bits no field touches stay clear |
| `BedbugFields.Distance24` | imapx800-develop/common/bedbug.c:865-879 | a distance survives the 24-bit branch field exactly when aligned and in range |
| `BedbugFields.Distance14` | imapx800-develop/common/bedbug.c:865-879 | the same for the 14-bit field |
| `Bedbug.Asmppc` | imapx800-develop/common/bedbug.c:753-841 | the operand loop computes the specified instruction or error |
| `Bedbug.OpcodeIsKept` | imapx800-develop/common/bedbug.c:795-828 | assembling keeps the opcode bits |
| `Bedbug.OperandReadsBack` | imapx800-develop/common/bedbug.c:373-400 | an assembled operand reads back modulo its width, a silent one as the opcode's bit |
| `Bedbug.GetOperandValue` | imapx800-develop/common/bedbug.c:373-400 | finds the field exactly when the opcode has it |
| `Bedbug.FindOpcode` | imapx800-develop/common/bedbug.c:417-440 | the binary search returns only matching entries, and the one the table is sorted around |
| `Bedbug.AssembledMatches` | imapx800-develop/common/bedbug.c:417-440 | an assembled instruction matches its own opcode entry |
| `Bedbug.AssembledIsFound` | imapx800-develop/common/bedbug.c:417-440 | in a table sorted by a pairwise condition the search finds every assembled instruction at its own entry |
| `Bedbug.OneOfThree` | imapx800-develop/common/bedbug.c:428-434 | an instruction matches an entry exactly when it sorts neither before nor after it |
| `BedbugLaws.AssembleIff` | imapx800-develop/common/bedbug.c:786-841 | an instruction assembles exactly when every written operand has an accepted text; otherwise the first that has not decides the error |
| `BedbugStep.PrintOperands` | imapx800-develop/common/bedbug.c:231-346 | the loop yields the specified operands: numbers with the hint they are formatted by, and text for the literal `cr2` |
| `BedbugStep.DisassemblesBack` | imapx800-develop/common/bedbug.c:244-275 | an assembled number is shown as written exactly when it fits its field |
| `BedbugStep.TargetBack` | imapx800-develop/common/bedbug.c:261-272 | a branch target is shown as written exactly when its distance fits |
| `BedbugNext.Conditions` | imapx800-develop/common/bedbug.c:1160-1214 | the nine cases of the switch are the meaning of the BO bits |
| `BedbugLaws.TakenTable` | imapx800-develop/common/bedbug.c:1160-1214 | a branch is taken as the table of BO values says, whatever the prediction bit |
| `BedbugLaws.CrBitFromTop` | imapx800-develop/common/bedbug.c:1165-1166 | BI counts condition bits from the most significant one |
| `BedbugNext.FindNextAddress` | imapx800-develop/common/bedbug.c:1053-1236 | finds the opcode entry and computes the specified next address from the masked program counter; fails without an entry |
| `BedbugNext.NextOfEntry` | imapx800-develop/common/bedbug.c:1092-1234 | the same once the entry is found |
| `BedbugNext.UncondAgrees` | imapx800-develop/common/bedbug.c:1112-1126 | assembler, disassembler and stepper agree on unconditional branches exactly when the distance fits |
| `BedbugNext.CondAgrees` | imapx800-develop/common/bedbug.c:1094-1110 | the same for conditional branches, taken or not |
| `BedbugLaws.RegisterAgrees` | imapx800-develop/common/bedbug.c:1128-1150 | an assembled `bclr` steps to the link register and `bcctr` to the counter when taken, past it otherwise; a linking one is stepped over |
| `BedbugLaws.OtherGoesOn` | imapx800-develop/common/bedbug.c:1154-1157 | any other instruction steps to the next word |
| `BedbugLaws.WordOfIs` | imapx800-develop/common/bedbug.c:1081 | the program counter is rounded down to a word |
| `Eeprom.AddressReachesCell` | imapx800-develop/common/cmd_eeprom.c:231-248 | the block number inserted into the chip address reaches the right cell for every offset |
| `Eeprom.OrIsSum` | imapx800-develop/common/cmd_eeprom.c:248 | inserting a number below the lowest set bit adds it |
| `Eeprom.ChunkFits` | imapx800-develop/common/cmd_eeprom.c:250-273 | every transfer is non-empty, at most the bus buffer and inside one page |
| `Eeprom.WrittenInPage` | imapx800-develop/common/cmd_eeprom.c:218-221 | inside a page the wrapping counter writes consecutive cells |
| `Eeprom.ReadInPage` | imapx800-develop/common/cmd_eeprom.c:132-136 | inside a block the wrapping counter reads consecutive cells |
| `Eeprom.Device.EepromWrite` | imapx800-develop/common/cmd_eeprom.c:201-375 | all transfers together are one linear update of the range |
| `Eeprom.Device.EepromRead` | imapx800-develop/common/cmd_eeprom.c:127-190 | all transfers together read the linear contents of the range |

## Left out

- Hardware register access, delays, watchdog, control-C polling and printed progress.
- Environment: the checksum, saving to flash, `getenv_r`, `printenv`, and the effects of console, baud rate, `bi_ip_addr` and `loadaddr`. The scan's bound test in `getenv` and `API_env_enum` is not modelled; it never triggers on a well-formed image.
- EnvStore.Environment.IsRefused: whether a console device or a baud rate is accepted is an input of the call, as it depends on device tables and hardware.
- Environment: name and value strings are C strings; a `baudrate` deletion with no second argument, which reads past the arguments, is decided by the same input as any other.
- MTD: `parse_mtdids`, `find_dev_and_part`, `delete_partition` and command parsing; the bound on the buffer of `generate_mtdparts` (an unbounded string is used); memory exhaustion. Generated partition names need not survive the round trip.
- Enabled: `MtdTable.Enabled`, which the operations require, limits a device to fewer than 256 partitions and excludes a deletion tied behind a current partition with number 0, where the code looks up the name of partition 255 (`MtdTable.TiedDeletion`).
- Kermit: the ymodem path. A character stream that ends inside a frame is a separate outcome, since the code would wait for more.
- SaveLoadRoundTrip: `SRecordLoad.SaveLoadRoundTrip` needs neither the region nor its shifted copy to wrap around the address space; the code's bounds mean nothing when they do.
- SRecordSerial.Monitor.SaveSerial: the region does not wrap around the address space, where the loop bound of the code means nothing.
- S-records: flash writes during a load (memory is RAM over the whole 32-bit space), console echo and hang-up, baud-rate changes. Input that ends without an end record counts as an abort, where the code would wait. A data record whose length byte is too small for its own address copies nothing, where the code's count goes negative.
- Memory test: the data-line test, whose result is only printed, and the quick test that is built when the alternative test is not configured.
- Flash: `abbrev_spec`, hardware sector protection, and the drivers. A bank without a flash id is taken to have no sectors.
- OneNand.Chip.BlockWrite: offsets and lengths are whole blocks; the code drops what a length has beyond its last whole block.
- OneNAND: out-of-band reads, erase and test commands. The set of unusable blocks is stable, a failed block write leaves the block unchanged, and enough usable blocks follow.
- Floppy: track and head numbers are not truncated to a byte, which needs fewer than 256 tracks. Results and status registers are reduced to which seeks, recalibrations, commands and transfers work.
- Log: console echo, `logbuff_init_ptrs` on an existing buffer, and the `con` counter. Lines fit the 1024-byte scratch buffer.
- Bedbug.Asmppc: takes the opcode entry and the operand words; splitting the text and looking up the mnemonic are not part of it.
- BedbugStep.PrintOperands: yields operands, not characters; separators, parentheses and number formats are not modelled, and the literal `cr2` is text without a number.
- Bedbug: the opcode and operand tables are parameters, except for the branch entries; splitting text into words, reading numbers, register names, symbol lookup and formatting. An operand has one hint, as in the tables. `htonl` is the identity, as on the big-endian processor the code is for.
- Eeprom.Device.EepromWrite: the bus works, so the return code is not modelled.
- Eeprom.Device.EepromRead: the bus works, so the return code is not modelled.
- EEPROM: the FRAM and X40430 variants, SPI, and write pages above 256 bytes, for which the code takes the page offset from the low address byte only.
