# Verification of the NSW configuration code

This project models the part of the ATLAS New Small Wheel configuration software that turns physical settings into the
bits of front-end chips, sends them, and recovers when the hardware goes away, and proves what that code promises.

* Words are natural numbers described bit by bit (`Bits`), streams of '0' and '1' are sequences of booleans, most
  significant bit first, and a property tree is a finite map from paths (or names) to numbers.
* Code that fills strings, maps or arrays step by step is a method or a class with the same loops, early exits and
  errors, proved against a function of its inputs; the laws are then proved about those functions. Exceptions are values
  of an error type.
* Hardware, the clock, the order in which unordered containers are walked and the interleaving of processes are
  arbitrary: parameters or steps the environment chooses.

`dafny verify dfyconfig.toml` checks everything. The files, from the bottom up:

| file | content |
|---|---|
| bits.dfy, utility.dfy | words, bit strings, bytes, 128-bit decimal text |
| i2c_master.dfy, i2c_config.dfy | layouts, full and partial bit strings, editing and decoding single registers |
| translation.dfy, config_converter.dfy, converter_laws.dfy | the four conversions between values and registers, and their laws |
| reference_merge.dfy, merged_registers.dfy | completing partial registers with a reference, and building bit strings from them |
| translation_paths.dfy, address_paths.dfy | the two ways from values to bits agree, on the whole layout and on one address |
| shipped_tables.dfy, art_table.dfy, epll_table.dfy | a check of written-out tables that implies all hypotheses; the ART and ePLL tables pass it |
| tds_flat.dfy, roc_overlap.dfy | where the TDS and some ROC values fall outside the laws |
| vmm_codec.dfy, vmm_stream.dfy, vmm_config.dfy | the 1728-bit VMM stream and its editable configuration |
| gbtx_config.dfy, gbtx_training.dfy, gbtx_board.dfy | GBTx images, phase training, the boards that hold them |
| gbtx_transport.dfy, gbtx_sender.dfy | blocks over I2C, readback, retries |
| fibre_alignment.dfy | the fibre alignment loop of the trigger processor |
| opc_retry.dfy, recovery_protocol.dfy, recovery_tasks.dfy, recovery_handlers.dfy | retry loops and the recovery protocol between controller and SCA service |

## What the proofs found

* Adding up disjoint parts of flat registers equals or-ing them exactly when every partial sum still fits an unsigned int
  (`FlatRegisterIsUnionIff`): always on 32-bit devices, not on the TDS. There a disabled channel 32 or above is forgotten
  as soon as another channel is visited, disabled or not; the register is right exactly when all disabled channels but
  the one visited last are below 32 (`ChannelsKeptIff`, `EarlierChannelLost`). The same condition governs the way back
  (`ValueRoundTripIff`).
* The ROC values `bc_offset` and `bc_rollover` survive the translation and back exactly when none of their bits 8 to 11 is
  set, `busyOffLimit` only as zero, because a value mask left at its default counts bits twice
  (`OverlappingRoundTripIff`).
* On 32-bit devices the parts need not be disjoint for that to be decided: unless the sum wraps, it is the union exactly
  when they are (`Accumulate32IsUnionIff`, `FlatRegister32`), and what comes back of a value is the sum of its parts,
  whatever its masks (`ValueIsSum32`).
* `eopEnable` and `nullEventEnable` of a sub-ROC share a bit of one register, which holds eight such values. Whichever of
  them are present, the flat register has the bits of those that are set exactly when no sub-ROC has both set; one that
  has spoils the bits of the next one too (`SharedBitIff`).
* Flat registers can be taken apart for values that were never configured: their sub-registers read as zero if another
  value of the register was configured, and are missing otherwise (`FlatToSubRegisters`).
* A register completed with its reference becomes the reference's bit string with exactly the configured bits
  overwritten, unless a bit from 32 on is set in it, configured or from the reference: then no bit string is built at
  all, which concerns the 128-bit registers of the TDS (`MergedRegisterBuilds`).
* A 128-bit binary string is read correctly exactly when it has at most 64 digits, or 128, or nothing but zeros in front
  (`BinaryString128RightIff`).
* A failing `setRegisterValue` changes the object in exactly one case: the address is in the layout but has no bit string,
  and the register, whose value is in range, does not start it; then an empty one appears
  (`FailingEditChangesSomething`).
* The three setters of a VMM configuration change the tree before they rebuild the stream, so a refused value leaves a
  tree without a stream; the stream is the tree's whenever the tree has one (`TreeAndStreamAgree`).
* Frames keep to the block size exactly when it is at least 3; below that a single frame carries everything, and the chip
  still stores it (`FramesFitIff`, `FramesStoreData`). A block size from -436 to -1 makes the readback empty, because
  the number of chunks wraps around to zero (`ChunksCover`).
* `sendGBTxConfig` can send six times, and reports a failure even if the sixth readback matches
  (`ReturnsIffEarlyMatch`).
* A recovery task ends when it sees the availability flag, and every operating command sets that flag before it knows
  anything; a disconnection handled after that launches nothing (`RecoveryCanBeLost`). A task is at work exactly as long
  as none of its looks found the flag set and its time was never up (`AtWorkIff`), and a disconnected sector has its task
  at work exactly when the controller was running at the first of the disconnections and that task was never disturbed
  (`DisconnectedAtWorkIff`).
* A problem while monitoring, or RECOVER_OPC, clears the flag and sends no message, and then nobody recovers the sector
  (`LossUnnoticed`). At rest the controller takes the server to be there although the flag is cleared exactly when the
  last write of the flag was such a silent one and the last announced one, if any, was a reconnection
  (`ClearedUnnoticedIff`). In runs without operating commands, time-outs and messages handled outside the running state,
  a sector at rest with its flag cleared has its newest task at work, unless that last write was silent
  (`RecoveryAssured`); without silent writes it always has (`ClearedFlagIsWatched`).
* Two tasks can run at once, never three (`TwoTasksHappen`, `AtMostTwoTasks`): a launch finds the previous task at work, and
  blocks the controller, exactly when that task was never disturbed (`LaunchFindsPreviousIff`, `TwoAtWorkIff`).

## Hypotheses on the translation tables

The laws hold for every table that satisfies named predicates: sub-register names unique (`UniqueNames`), register masks
of one register disjoint (`RegisterMasksDisjoint`), at most one unit of a value in a register (`OneUnitPerRegister`), value
masks disjoint and covering the value (`Partitioned`), register masks equal to the field's bits in the layout
(`MapAgrees`), masks not zero (`MasksOk`). Written-out tables that pass the row-by-row check `TableOk` satisfy all of them
(`TablesAgree`, `UnitsPartition`); the ART core tables and the tables of the ePLL phases do (`ArtTableOk`, `EpllTableOk`).

Outside are `bc_offset`, `bc_rollover` and `busyOffLimit`, which leave value masks at their defaults
(NSWConfiguration/ConfigTranslationMap.h:710-717 and 782-785), and `nullEventEnable`, which repeats the masks of `eopEnable`
(NSWConfiguration/ConfigTranslationMap.h:635-658). For these four `roc_overlap.dfy` says exactly which values are
translated right all the same.

## Model

| member | source | states |
|---|---|---|
| Utility.StringToByteVector | src/Utility.cpp:156-169 | the loop computes the byte-by-byte reading of a bit string, a last short group included |
| Utility.BitsSurviveBytes | src/Utility.cpp:156-231 | bits to bytes and back is the identity exactly when the number of bits is a multiple of eight |
| Utility.BytesSurviveBits | src/Utility.cpp:223-231 | every byte string comes back from its bits |
| Utility.BitOfByte | src/Utility.cpp:156-169 | byte k holds the digits from 8 k on, most significant first, those of a short last group at its low end |
| Utility.BitOfBits | src/Utility.cpp:223-231 | digit j of byte k is its bit 7 - j |
| Utility.GetValue | src/Utility.cpp:434-446 | the 128-bit parser throws on a non-digit and otherwise gives the number modulo 2^128 |
| Utility.PutValueIsDecimal | src/Utility.cpp:450-470 | splitting off digits above 64 bits prints the plain decimal numeral |
| Utility.StreamOutPrintsPutValue | src/Utility.cpp:473-480 | the recursive stream operator prints the same digits as the translator |
| Utility.ParsePrinted | src/Utility.cpp:434-471 | parsing what was printed returns every number below 2^128 without wrapping |
| Utility.PrintParsed | src/Utility.cpp:434-471 | printing what was parsed returns the text exactly for canonical numerals below 2^128 |
| I2cMaster.SizesAndPositions | src/I2cMasterConfig.cpp:31-51 | the running position gives the total size and the table of positions and sizes |
| I2cMaster.TablesLocate | src/I2cMasterConfig.cpp:41-50 | the tables hold exactly the named fields, each at the sum of the sizes before it |
| I2cMaster.BuildConfig | src/I2cMasterConfig.cpp:59-112 | every address without READONLY in its name, and no other, gets the concatenation of its fields; the errors for missing nodes and overflow |
| I2cMaster.BuildOneAddress | src/I2cMasterConfig.cpp:78-107 | the inner loop appends field by field and stops at the first error |
| I2cMaster.BuildPartialConfig | src/I2cMasterConfig.cpp:114-135 | every top-level node becomes the low bits of its number; addresses with READONLY in their name and unknown ones fail |
| I2cMaster.BuiltIffFieldsOk | src/I2cMasterConfig.cpp:80-98 | building succeeds exactly when every field is present and in range |
| I2cMaster.BuiltSlice | src/I2cMasterConfig.cpp:80-107 | the built string can be cut at the computed offsets, field by field |
| I2cMaster.BuiltAddress | src/I2cMasterConfig.cpp:59-112 | an address is built exactly when it has a node and every register is there and below 2^size; unused bits are zeros, registers stand most significant bit first |
| I2cMaster.AddressError | src/I2cMasterConfig.cpp:70-98 | otherwise the missing node, or the first field that does not fit, says why |
| I2cMaster.ReadOnlyAddressIgnored | src/I2cMasterConfig.cpp:61-66 | an address with READONLY in its name is in no full configuration, which is the same without it |
| I2cMaster.OtherAddressBuilt | src/I2cMasterConfig.cpp:61-108 | every other address of the layout is in the full configuration |
| I2cMaster.ReadOnlyAddressRefused | src/I2cMasterConfig.cpp:117-123 | a partial configuration with such an address is refused |
| I2cMaster.PartialAddress | src/I2cMasterConfig.cpp:114-135 | which nodes of a partial configuration are accepted, why not, and their bits |
| I2cConfig.CalculateSizesAndPositions | src/I2cMasterConfig.cpp:22-57 | the three tables of the codec for all addresses |
| I2cConfig.I2cMasterConfig.Create | src/I2cMasterConfig.cpp:59-135 | construction yields exactly the full or partial bit strings, or their error |
| I2cConfig.I2cMasterConfig.GetRegisterValue | src/I2cMasterConfig.cpp:149-168 | the number in the register's slice, with the three ways to fail |
| I2cConfig.I2cMasterConfig.SetRegisterValue | src/I2cMasterConfig.cpp:170-193 | the new bit strings and the error, including the entry that `operator[]` creates |
| I2cConfig.I2cMasterConfig.DecodeVector | src/I2cMasterConfig.cpp:195-221 | the printed value of every named field, or the refusal of a vector of wrong size |
| I2cConfig.SetOneField | src/I2cMasterConfig.cpp:170-193 | an edit changes the named field to exactly the new value and no other bit of the address |
| I2cConfig.EditsRefinePlainMap | src/I2cMasterConfig.cpp:149-193 | after any sequence of edits every field holds its last accepted write, unused bits and sizes are as they were |
| I2cConfig.GetAfterEdits | src/I2cMasterConfig.cpp:149-193 | reading after any sequence of edits returns the last accepted write |
| I2cConfig.FailingEditChangesSomething | src/I2cMasterConfig.cpp:184-192 | a failing edit changes the bit strings exactly when the address is known but has none and the value would fit a field behind the first |
| I2cConfig.DecodeRecoversConfig | src/I2cMasterConfig.cpp:59-221 | bytes of a built address decode to the numbers it was built from, when its size is a multiple of eight |
| I2cConfig.DecodedMeans | src/I2cMasterConfig.cpp:211-219 | a register of any vector of the right size is printed as the number its digits denote |
| I2cConfig.UnknownNames | src/I2cMasterConfig.cpp:149-183 | an unknown address or register is refused, reading and writing, and nothing changes |
| I2cConfig.ReadKnown | src/I2cMasterConfig.cpp:163-168 | reading a known register, with the bit string absent or too short as well |
| I2cConfig.WriteKnown | src/I2cMasterConfig.cpp:184-193 | writing a known register, with the bit string absent or too short as well |
| ConfigConverter.CheckPaths | src/ConfigConverter.cpp:68-75 | whether every path is in the translation map |
| ConfigConverter.ConvertValueToSubRegister | src/ConfigConverter.cpp:78-100 | the sub-register tree of all visited units, or the error |
| ConfigConverter.ConvertValueToFlatRegister | src/ConfigConverter.cpp:102-139 | the accumulated registers and their masks, or the error |
| ConfigConverter.ConvertSubRegisterToValue | src/ConfigConverter.cpp:141-177 | the accumulated values of all sub-registers, or the error |
| ConfigConverter.ConvertRegisterToSubRegister | src/ConfigConverter.cpp:238-283 | the requested sub-registers cut out of their registers, or the error |
| ConfigConverter.FoundFirst | src/ConfigConverter.cpp:145-156 | a sub-register belongs to the first unit of that name, in the order of the map |
| ConfigConverter.CollectedIff | src/ConfigConverter.cpp:249-259 | for a register, the first unit of every value that lies in it is collected, and no other |
| Translation.RegisterOfMeans | src/ConfigConverter.cpp:128 | the register's name is what stands before the first dot |
| Translation.AccumulateIsUnionIff | src/ConfigConverter.cpp:129 | adding disjoint parts gives their union exactly when every partial sum fits an unsigned int |
| Translation.PrefixesReadBackIff | src/ConfigConverter.cpp:129 | and that is so exactly when every part but the last fits an unsigned int itself |
| Translation.Accumulate32IsUnionIff | src/ConfigConverter.cpp:129 | on 32-bit words, any parts whose sum does not wrap add up to their union exactly when no two share a bit |
| ConverterLaws.FlatRegister32 | src/ConfigConverter.cpp:115-136 | a 32-bit register is the sum of its parts, for any units, and their union exactly when they are disjoint, unless it wraps |
| ConverterLaws.FlatRegisterIsUnionIff | src/ConfigConverter.cpp:115-136 | the same for every register of the flat form |
| ConverterLaws.Word32ReadsBack | src/ConfigConverter.cpp:129 | on 32-bit devices the condition always holds |
| ConverterLaws.FlatRegisterBits | src/ConfigConverter.cpp:109-129 | a bit of a flat register is set exactly when some unit of it sets it |
| ConverterLaws.FlatRegisterMeans | src/ConfigConverter.cpp:107-129 | a bit of a flat register is set exactly when it is the masked bit of some value, moved from the lowest masked bit of the value to the lowest masked bit of the register |
| ConverterLaws.SubRegisterBit | src/ConfigConverter.cpp:89-94 | a sub-register holds the masked bits of the value, from the lowest masked one on |
| ConverterLaws.FlatMaskBits | src/ConfigConverter.cpp:130-134 | the recorded mask is the union of the unit masks |
| ConverterLaws.FlatIsLossless | src/ConfigConverter.cpp:102-139 | masking a register and shifting back gives each unit's part |
| ConverterLaws.FlatToSubRegisters | src/ConfigConverter.cpp:102-283 | flat registers taken apart again for any list of values are the sub-registers of the direct conversion that these values own, and zeros for values that only share a configured register |
| ConverterLaws.UnknownIff | src/ConfigConverter.cpp:268-275 | an unknown value among those asked for is noticed exactly when no value before it has the sub-register |
| ConverterLaws.FlatFormOfMap | src/ConfigConverter.cpp:102-283 | on 32-bit devices the same follows from conditions on the map alone, for all values that fit |
| ConverterLaws.ValueRoundTripIff | src/ConfigConverter.cpp:78-177 | to sub-registers and back returns each value exactly when its partial sums can be read back |
| ConverterLaws.ValueRoundTrip32 | src/ConfigConverter.cpp:78-177 | on 32-bit devices the round trip is the identity, whatever the order of the walks |
| ConverterLaws.ValueIsSum32 | src/ConfigConverter.cpp:78-177 | on 32-bit devices, in any tree and order, what comes back of a value is the sum of the parts its units took, overlapping or not |
| ReferenceMerge.FullMaskIff | NSWConfiguration/ConfigConverter.h:288-302 | the shortcut is taken exactly for the mask 2^size - 1, an error is raised exactly for other masks with as many bits |
| ReferenceMerge.MergedBits | NSWConfiguration/ConfigConverter.h:296-308 | masked bits come from the configuration, all others from the reference |
| ReferenceMerge.MergeErrors | NSWConfiguration/ConfigConverter.h:284-308 | when completing a register fails, and that a full mask goes through without a reference |
| ReferenceMerge.FullMaskIgnoresReference | NSWConfiguration/ConfigConverter.h:296-303 | with a full mask the result does not depend on the reference |
| ReferenceMerge.ReadMissingRegisterParts | NSWConfiguration/ConfigConverter.h:277-311 | the loop over the masks overwrites exactly the partial registers, or stops with an error |
| ReferenceMerge.MergedRegister | NSWConfiguration/ConfigConverter.h:277-311 | in the merged register the configured parts can be read back and every other bit is the reference's |
| MergedRegisters.MergedRegisterBuilds | src/hw/TDS.cpp:132-146 | at any width the partial bit string is the reference's with the configured bits overwritten; none is built exactly when a configured bit, or a bit of the reference that is not configured, from 32 on is set; completing fails exactly for a mask of as many bits as the register that is not all of it |
| MergedRegisters.MergedFields | src/hw/ROC.cpp:168-185 | field by field, the bit string holds the configured part where there is one and the reference's bits elsewhere |
| ReferenceMerge.BinaryString128RightIff | src/ConfigConverter.cpp:327-341 | for which strings the 128-bit reader gives the number they denote |
| TranslationPaths.UnitPlaced | src/ConfigConverter.cpp:109-111 | a fitting part stands in the register exactly where the layout has its field |
| TranslationPaths.MasksApart | NSWConfiguration/ConfigTranslationMap.h:18-33 | units that agree with the layout never overlap |
| TranslationPaths.PathsCommute | src/I2cMasterConfig.cpp:59-135 | values through flat registers and buildPartialConfig give exactly the bits of values through sub-registers and buildConfig |
| AddressPaths.AddressCommutes | src/I2cMasterConfig.cpp:59-135 | one address is built from sub-registers exactly when the values cover its fields and fit, and then the flat path gives the same bits |
| AddressPaths.SubRegistersBuildIff | src/I2cMasterConfig.cpp:59-112 | the whole layout is built from sub-registers exactly when every writable address is covered |
| ShippedTables.TablesAgree | NSWConfiguration/ConfigTranslationMap.h:18-33 | a table that passes the check agrees with its layout and meets every condition the laws put on the map |
| ArtTable.ArtTableOk | NSWConfiguration/I2cRegisterMappings.h:987-1190 | the ART layout and the ART translation table pass the check, row by row |
| ArtTable.ArtTablesAgree | NSWConfiguration/ConfigTranslationMap.h:1132-1270 | the ART table meets every condition the laws put on the map |
| ArtTable.ArtPartitioned | NSWConfiguration/ConfigTranslationMap.h:1132-1270 | the units of every ART value share no bit and carry all its bits |
| ArtTable.ArtPathsCommute | NSWConfiguration/ConfigTranslationMap.h:1132-1270 | both ways of building the ART bit strings agree |
| ArtTable.ArtRoundTrip | NSWConfiguration/ConfigTranslationMap.h:1132-1270 | every ART value in range survives the translation to sub-registers and back |
| ArtTable.ArtFlatIsLossless | NSWConfiguration/ConfigTranslationMap.h:1132-1270 | flat ART registers taken apart again for any values are the sub-registers of the direct conversion |
| EpllTable.EpllTableOk | NSWConfiguration/ConfigTranslationMap.h:46-74 | the tables of the ePLL phases, with their highest bits split off, pass the check |
| EpllTable.EpllLaws | NSWConfiguration/I2cRegisterMappings.h:30-54 | both ways of building the ePLL bit strings agree, and phases in range survive the way to sub-registers and back |
| TdsFlat.ChannelsKeptIff | NSWConfiguration/ConfigTranslationMap.h:941-945 | for any list of channels, the flat register holds exactly the disabled ones if and only if all of them but the last visited are below 32 |
| TdsFlat.EarlierChannelLost | NSWConfiguration/ConfigTranslationMap.h:941-945 | a disabled channel from 32 on is lost with the next one, disabled or not |
| RocOverlap.OverlappingRoundTripIff | NSWConfiguration/ConfigTranslationMap.h:710-785 | in any tree and any order, exactly which 32-bit values of the three entries with default masks survive the translation and back |
| RocOverlap.SharedBitIff | NSWConfiguration/ConfigTranslationMap.h:635-658 | with any of the eight values of the register present, in any order, it has the bits of those that are set exactly when no sub-ROC has both of its values set |
| RocOverlap.SumOfParts | src/ConfigConverter.cpp:163-174 | the way back adds the parts of two units, whether they overlap or not |
| VmmCodec.BuildGlobalConfig | src/VMMCodec.cpp:46-85 | the loop over a global block gives the concatenated fields or the first error |
| VmmCodec.GlobalSlice | src/VMMCodec.cpp:46-73 | a built block holds every field at its offset |
| VmmCodec.BuildChannelRegisterMap | src/VMMCodec.cpp:119-158 | 64 values for every channel register, or the first error |
| VmmCodec.ChannelValuesIff | src/VMMCodec.cpp:131-155 | a channel register is accepted exactly when it is a number or an array of 64 numbers, all in range |
| VmmCodec.BuildChannels | src/VMMCodec.cpp:97-112 | the loops over channels and fields give the channel stream, channel 63 first |
| VmmCodec.ChannelSlice | src/VMMCodec.cpp:100-106 | the two nested reversals leave every field most significant bit first, the fields in opposite order |
| VmmCodec.StreamSlice | src/VMMCodec.cpp:97-112 | every channel's block stands at its computed place |
| VmmCodec.Global0Size | NSWConfiguration/VMMCodec.h:70-99 | the first global layout has 57 fields and 96 bits |
| VmmCodec.Global1Size | NSWConfiguration/VMMCodec.h:101-114 | the second global layout has 13 fields and 96 bits |
| VmmStream.Build | src/VMMCodec.cpp:115-117 | second global block, channels, first global block |
| VmmStream.BuiltIffEncodable | src/VMMCodec.cpp:46-158 | the stream is built exactly when every register of the tree is present and in range |
| VmmStream.StreamParts | NSWConfiguration/VMMCodec.h:38-41 | the stream always has 1728 bits, cut at 96 and 1632 |
| VmmStream.GlobalBitStands | src/VMMCodec.cpp:46-73 | every bit of both global blocks: zero if unused, otherwise that bit of the register, five of them least significant bit first |
| VmmStream.ChannelBitStands | src/VMMCodec.cpp:87-113 | every bit of every channel at 96 + 24 (63 - channel) + 24 - offset - size: zero if unused, otherwise that bit of the register |
| VmmStream.StreamError | src/VMMCodec.cpp:46-158 | the first register that is not right, in the order second global block, channels, first global block, and what it is reported as |
| VmmStream.GlobalReadsBack | src/VMMCodec.cpp:46-73 | every global register is read back from its block, reversed ones included |
| VmmStream.ChannelRegisterReadsBack | src/VMMCodec.cpp:87-113 | every channel register is read back at 96 + 24 (63 - channel) + 24 - offset - size |
| VmmStream.EqualStreamsIff | src/VMMCodec.cpp:115-117 | two accepted trees give the same stream exactly when they agree on every register |
| VmmConfiguration.VmmConfig.Create | src/VMMConfig.cpp:11-15 | construction builds the stream or throws its error |
| VmmConfiguration.VmmConfig.GetGlobalRegister | src/VMMConfig.cpp:21-29 | the number of a known register in the tree; if the tree has a stream, what every field of that name in the stream holds |
| VmmConfiguration.VmmConfig.GetChannelRegisterOneChannel | src/VMMConfig.cpp:31-44 | answers exactly for a known register and channel of a tree whose channel registers are all right, and then with what the stream holds for that channel |
| VmmConfiguration.VmmConfig.GetChannelRegisterAllChannels | src/VMMConfig.cpp:46-55 | answers exactly for a known register of a tree whose channel registers are all right, and then with what the stream holds for each of the 64 channels |
| VmmConfiguration.ReadsTheTree | src/VMMConfig.cpp:31-55 | both getters answer for the same registers, with the value the tree spreads over the channels |
| VmmConfiguration.ReadsTheStream | src/VMMConfig.cpp:31-55 | if the tree has a stream, what is read is what the stream holds at the channel's position |
| VmmConfiguration.Refusals | src/VMMConfig.cpp:21-95 | what the three getters and the setter of one channel refuse, in the order of their checks |
| VmmConfiguration.ReadAfterSetOne | src/VMMConfig.cpp:31-106 | reading after setting one channel gives the value there and the old answer for all others |
| VmmConfiguration.ReadAfterSetGlobal | src/VMMConfig.cpp:21-76 | reading after setting a global register gives the value there and the old answer for all others, even when the value was refused |
| VmmConfiguration.ReadAfterSetAll | src/VMMConfig.cpp:31-82 | reading after setting all channels gives the value |
| VmmConfiguration.VmmConfig.SetGlobalRegister | src/VMMConfig.cpp:61-76 | new tree, new stream and error, for unknown names and refused values too |
| VmmConfiguration.VmmConfig.SetChannelRegisterAllChannels | src/VMMConfig.cpp:78-82 | the same for the setter that does not check the name |
| VmmConfiguration.VmmConfig.SetChannelRegisterOneChannel | src/VMMConfig.cpp:84-106 | the same for one channel; the register becomes an array |
| VmmConfiguration.TreeAndStreamAgree | src/VMMConfig.cpp:61-106 | after any calls the stream is the tree's whenever the tree has one, and always after a call that returned normally |
| VmmConfiguration.SetOneChangesOneField | src/VMMConfig.cpp:84-106 | one channel's field takes the value and nothing else changes, from a number or an array; refused exactly when out of range |
| VmmConfiguration.SetAllChangesOneRegister | src/VMMConfig.cpp:78-82 | the register's 64 fields take the value and nothing else changes; refused exactly when out of range |
| VmmConfiguration.SetGlobalChangesOneRegister | src/VMMConfig.cpp:61-76 | the register's field takes the value and nothing else changes; refused exactly when out of range |
| GbtxBoard.Gbtx.SetRegister | src/GBTxConfig.cpp:23-43 | the shifted byte is or-ed in, or the two errors |
| GbtxBoard.Gbtx.Set | src/GBTxConfig.cpp:58-74 | all copies in turn; a failing copy leaves the earlier ones |
| GbtxBoard.Gbtx.Reset | src/GBTxConfig.cpp:45-55 | the registers are cleared, then the setting is written |
| GbtxBoard.Gbtx.SetConfigFromPTree | src/GBTxConfig.cpp:76-84 | all settings in turn, up to the first that fails |
| GbtxConfig.LoadsIff | src/GBTxConfig.cpp:23-84 | settings can be loaded exactly when each one is known, an int, and has copies inside the image |
| GbtxConfig.BitAfterSettings | src/GBTxConfig.cpp:23-84 | a bit is set exactly when it was set or some copy of some setting sets it |
| GbtxConfig.LoadingMeans | src/GBTxConfig.cpp:23-84 | settings load exactly if they are ints of known names with copies inside the image; a bit is then set exactly if it was or some copy has it in the low byte of a value, negative ones included |
| GbtxConfig.LoadError | src/GBTxConfig.cpp:23-84 | a load that fails stops at the first bad copy of the first bad setting, keeps what came before, and reports that copy |
| GbtxConfig.OrderDoesNotMatter | src/GBTxConfig.cpp:76-84 | neither order nor repetition of settings matters, for success and for the image |
| GbtxConfig.EveryCopyReadsBack | src/GBTxConfig.cpp:23-84 | with disjoint fields and fitting values every copy of every setting reads back its value |
| GbtxBoard.Gbtx.SetResetChannelsOn | src/GBTxConfig.cpp:207-233 | the eight resets in order, or the refusal of the type |
| GbtxBoard.Gbtx.SetResetChannelsOff | src/GBTxConfig.cpp:235-264 | the eight resets in order, different for mmg, or the refusal of the type |
| GbtxBoard.Gbtx.SetTrainingRegistersOn | src/GBTxConfig.cpp:271-313 | the mode first, then the seven groups unless the type is refused |
| GbtxBoard.Gbtx.SetTrainingRegistersOff | src/GBTxConfig.cpp:315-332 | the seven groups, or the refusal of the type |
| GbtxBoard.Gbtx.SetEcTrainingRegisters | src/GBTxConfig.cpp:266-269 | the EC setting is reset to on or off |
| GbtxBoard.GbtxContainer.Train | src/L1DDCConfig.cpp:138-144 | the calls for one GBTx, EC training only where asked for |
| GbtxBoard.L1ddcConfig.TrainGbtxs | src/L1DDCConfig.cpp:130-164 | every configured GBTx is trained up to the first of unknown type; others keep their image |
| GbtxBoard.BoardAfterCalls | src/L1DDCConfig.cpp:130-164 | after any run of calls on a board every configured GBTx before the first of unknown type holds what the run makes of its own image, every other its old one |
| GbtxBoard.TrainedMeans | src/L1DDCConfig.cpp:130-164 | a container is trained exactly if it is configured and no configured one up to it is refused |
| GbtxTraining.BytesAfterCall | NSWConfiguration/GBTxRegisterMap.h:13-29 | after one call the covered registers hold listed bytes and all others what they held |
| GbtxTraining.ResetMeans | src/GBTxConfig.cpp:45-55 | after a reset the setting's registers hold the low byte of the value where the copies put it and nothing else; when it fails |
| GbtxTraining.TrainedIff | src/GBTxConfig.cpp:207-332 | a GBTx is trained exactly if its type contains mmg, pfeb, sfeb or rim; otherwise its image is left alone |
| GbtxTraining.TrainingFrame | src/L1DDCConfig.cpp:130-164 | no run of calls changes any other register |
| GbtxTraining.BytesAfterCalls | src/L1DDCConfig.cpp:130-164 | once training was on, every covered byte is that of the last call, the mode byte that of the first |
| GbtxTraining.LastCallDecides | src/L1DDCConfig.cpp:130-164 | the image depends only on the uncovered registers and on the last call |
| GbtxTransport.SendI2cConfig | src/ConfigSender.cpp:276-304 | the frames are those of the cut into blocks, and the chip has stored them |
| GbtxTransport.FramesStoreData | src/ConfigSender.cpp:286-303 | for every block size the chip ends up with exactly the image |
| GbtxTransport.FramesFitIff | src/ConfigSender.cpp:286-303 | no frame exceeds the block size exactly when it is at least 3 |
| GbtxTransport.FramesAre | src/ConfigSender.cpp:286-303 | frame k holds the low and the high byte of its first register k (block size - 2) and the bytes from there on; all frames but the last have exactly the block size, and there are just enough |
| GbtxTransport.StoreMeans | app/demo_opc_client_class.cpp:64-73 | what the chip makes of a frame with a low and a high address byte |
| GbtxTransport.ReadI2cConfig | src/ConfigSender.cpp:306-337 | the chunks read back are the image, or nothing for a block size from -436 to -1 |
| GbtxTransport.ChunksCover | src/ConfigSender.cpp:317-324 | no length of a read underflows and the reads reach the end of the image |
| GbtxTransport.I2cDevice.WriteRaw | app/demo_opc_client_class.cpp:64-73 | the chip: address low byte, address high byte, then bytes for consecutive registers |
| GbtxSender.CompareReadback | src/ConfigSender.cpp:355-375 | true exactly for the right size and the same first 366 bytes, or all if there are fewer |
| GbtxSender.SendAndCompare | src/ConfigSender.cpp:339-378 | one attempt on a chip that keeps what it is told |
| GbtxSender.FirstAttemptSucceedsIff | src/ConfigSender.cpp:276-378 | sent and read back, the image returns byte for byte, exactly with the block sizes that can be read |
| GbtxSender.SendGbtxConfig | src/ConfigSender.cpp:380-421 | number of sends and error of the retry loop, for all three GBTx and for invalid ones |
| GbtxSender.ReturnsIffEarlyMatch | src/ConfigSender.cpp:402-415 | normal return exactly when one of the first five readbacks had the size and the first 366 bytes of the image; otherwise which of the two errors |
| GbtxSender.SendsAre | src/ConfigSender.cpp:402-415 | at most six sends, and fewer only because the last one ended the loop |
| FibreAlignment.ReadAlignment | src/ConfigSender.cpp:943-953 | the counters hold how often each fibre was aligned |
| FibreAlignment.SkippedFibers | src/ConfigSender.cpp:955-965 | a fibre is skipped exactly when no ART asks for it; a fibre number out of range throws |
| FibreAlignment.BuildReset | src/ConfigSender.cpp:994-1011 | bit q is set exactly when a requested fibre of quad q had a misaligned read, so adding equals or-ing |
| FibreAlignment.NoResetIff | src/ConfigSender.cpp:994-1018 | the reset word is zero exactly when every requested fibre was aligned in every read |
| FibreAlignment.ResetWordMeans | src/ConfigSender.cpp:994-1011 | bit q of a reset word is set exactly if q < 8 and one of the fibres 4 q to 4 q + 3 is asked for by an ART and misaligned in one of the hundred reads |
| FibreAlignment.CountMeans | src/ConfigSender.cpp:943-953 | a counter is the number of reads that had the fibre aligned |
| FibreAlignment.AlignArtGbtxMmtp | src/ConfigSender.cpp:914-1027 | success exactly when one of the first eleven rounds is steady; one reset per earlier round, at most eleven |
| OpcRetry.RecoverOpc | src/NSWSectorControllerRc.cpp:173-183 | the loop ends, returns the last look at the flag, and sends at most ceil(timeout / 5 s) commands |
| OpcRetry.RetryOpc | NSWConfiguration/NSWSectorControllerRc.h:95-123 | how often the operation is called and which issues are recorded |
| OpcRetry.RecoveryMeans | src/NSWSectorControllerRc.cpp:173-183 | commands go out exactly while the flag is not set and the time is not up; the result is one more look |
| OpcRetry.IssuesAre | NSWConfiguration/NSWSectorControllerRc.h:95-123 | all recorded issues in order, with the severity the settings give them |
| OpcRetry.SilentIff | NSWConfiguration/NSWSectorControllerRc.h:95-123 | nothing is recorded exactly when the check after the last call succeeded and all recoveries before it did |
| OpcRetry.LimitReportedIff | NSWConfiguration/NSWSectorControllerRc.h:104-112 | the retry limit is reported exactly when every check failed |
| RecoveryHandlers.ScaService.CheckErrorCounter | src/NSWSCAServiceRc.cpp:100-112 | the four judgements of a failed fraction and their effect: the flag is cleared exactly between the two thresholds, and it is fatal exactly above both |
| RecoveryHandlers.ScaService.NotifyScaUnavailable | src/NSWSCAServiceRc.cpp:93-99 | the flag is cleared; a message goes out only for the command that asks for one |
| RecoveryHandlers.ScaService.User | src/NSWSCAServiceRc.cpp:84-177 | a whole handler is a run of the protocol's steps; for every command, the flag and the messages afterwards and whether an exception escapes |
| RecoveryHandlers.HandlerRun | src/NSWSCAServiceRc.cpp:84-177 | what the run of a handler does to the flag and the messages, command by command |
| RecoveryHandlers.SectorController.User | src/NSWSectorControllerRc.cpp:125-163 | the controller's reaction to each command is that of the protocol |
| RecoveryProtocol.StepKeeps | src/NSWSectorControllerRc.cpp:125-183 | every step of every actor keeps the invariant |
| RecoveryProtocol.Reachable | src/NSWSCAServiceRc.cpp:84-177 | the invariant holds after every interleaving of steps |
| RecoveryProtocol.LaunchesAreSeparated | src/NSWSectorControllerRc.cpp:133-150 | between two launches the controller handled a reconnection, sent while the flag was set |
| RecoveryProtocol.MessagesTellTheFlag | src/NSWSCAServiceRc.cpp:93-145 | every message was sent with the flag just written accordingly; a prefix of the messages has been handled |
| RecoveryProtocol.LaunchIff | src/NSWSectorControllerRc.cpp:133-150 | exactly which disconnections launch a task |
| RecoveryProtocol.LaunchesBounded | src/NSWSectorControllerRc.cpp:133-150 | no more launches than disconnections, and than reconnections plus one |
| RecoveryProtocol.AtMostTwoTasks | src/NSWSectorControllerRc.cpp:139-146 | never three tasks; with two the controller is blocked |
| RecoveryProtocol.LookMeans | src/NSWSectorControllerRc.cpp:173-195 | what a look of a task makes of it; an absent flag counts as set |
| RecoveryProtocol.TwoTasksHappen | src/NSWSectorControllerRc.cpp:139-146 | a run with two tasks |
| RecoveryProtocol.RecoveryCanBeLost | src/NSWSCAServiceRc.cpp:113-134 | a run that ends disconnected, with no task, and no launch for the last disconnection |
| RecoveryTasks.AtWorkIff | src/NSWSectorControllerRc.cpp:173-183 | a task is at work exactly when since its launch no look of it found the flag set and its time was never up |
| RecoveryTasks.LaunchFindsPreviousIff | src/NSWSectorControllerRc.cpp:139-146 | a launch finds the previous task at work, and blocks the controller, exactly when that task was never disturbed |
| RecoveryTasks.TwoAtWorkIff | src/NSWSectorControllerRc.cpp:139-146 | two tasks are at work exactly when neither of the two newest was ever disturbed |
| RecoveryTasks.DisconnectedAtWorkIff | src/NSWSectorControllerRc.cpp:133-150 | while the server is taken to be gone, its task is at work exactly when the first disconnection was handled while running and the task was never disturbed |
| RecoveryTasks.ClearedUnnoticedIff | src/NSWSCAServiceRc.cpp:93-99 | at rest the flag is cleared and the controller takes the server to be there exactly when the last write of the flag was silent and the last announced one, if any, a reconnection |
| RecoveryTasks.LossUnnoticed | src/NSWSCAServiceRc.cpp:153-161 | a run of careful actions that ends at rest with the flag cleared and no task: monitoring clears the flag without a message |
| RecoveryTasks.WritesTell | src/NSWSCAServiceRc.cpp:84-177 | in every run the flag is that of its last write, and the messages are those of the announced writes, in order |
| RecoveryTasks.RecoveryAssured | src/NSWSCAServiceRc.cpp:84-161 | without operating commands, time-outs and handling outside the running state, a sector at rest whose last message was a disconnection, or whose flag is cleared by a write that was not silent, has its newest task at work |
| RecoveryTasks.ClearedFlagIsWatched | src/NSWSCAServiceRc.cpp:84-161 | in such runs without RECOVER_OPC and without problems while monitoring or reconnecting, every cleared flag at rest has its newest task at work |

## Left out

* The order in which the three operands of `+` in `buildConfig` of the VMM are evaluated is unspecified in C++; the model
  reports the error of the second global block first, then of the channels, then of the first global block.
* Numbers in a tree are natural numbers; text that is no number, negative text and duplicate keys of a tree are not part of
  this model.
* A path is one string; names with a dot that address nested nodes of a VMM or GBTx tree are taken as one key.
* The count of trailing zeros of zero is undefined. Masks of zero are excluded, and so is in the reference merge a mask of
  as many bits as the integer type has (`CountsZeros`): a register as wide as the type, all of it configured. The 128-bit
  count calls `__builtin_ctzll` on a lower half that may be zero (src/ConfigConverter.cpp:295-302) and expects 64; the
  model has what it expects.
* The rest of the ROC and TDS translation tables is not written out; it is covered by the laws as far as it satisfies
  the hypotheses named above.
* The compiled GBTx register map has 339 settings; only the 17 that training uses are written out, a GBTx is valid
  only if its map has them, and the readback law takes the widths of settings as given.
* `trainGbtxsOn` and `trainGbtxsOff` are one method with a flag, since their loops differ in nothing but the calls.
* The two-level loops over boards and their ARTs in the fibre alignment are one loop over all ARTs; sleeps, messages and
  exceptions of the register access itself are not part of this model.
* Loading a GBTx image from a file, phase readback and its printing, and the IC transfer itself: an attempt over IC is an
  arbitrary readback.
* In the recovery protocol a task's 24 hours and the sleeping time between two looks are an arbitrary decision of the
  environment; messages from service to controller arrive in the order they were sent; controller handlers run one at
  a time.
* The message "Cannot recover" that a finished task leaves in its future, monitoring publication and the state machine of
  the run control are not part of this model.
* OPC client, SCA addressing, JSON and OKS reading, command-line programs, logging.
