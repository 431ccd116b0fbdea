# Models of the IPA bridge, the PCIe enabler, the older interposer and the channel driver

This project models four programs of the repository in Dafny and proves properties of the models.

* **The IPA binary-interface bridge** sits between a daemon and the kernel and rewrites binary records
  between two struct layouts. `bytes.dfy` and `records.dfy` hold byte memory and the translation of one
  record; `widening.dfy` and `query.dfy` the widening of query answers inside one overlapping buffer and
  the scores that decide it; `rules.dfy` and `marshalling.dfy` the eight rule-add requests; `text.dfy`,
  `scanners.dfy` and `configuration.dfy` the hand-written scanners and the settings; `fdcache.dfy` and
  `hexdump.dfy` the cached state; `bridge.dfy` the interposed call in place; `dispatch.dfy` what it comes to,
  read off the request number in the literal offsets of the kernel's interface; `runs.dfy` whole runs.
* **The device-tree and page-table fixer** is in `devicetree.dfy` (property blobs, sibling lists) and
  `pmds.dfy` (descriptor repair by a bounded work item while other code interferes).
* **The older interposer** contributes `sanitiser.dfy` and `routes.dfy`.
* **The channel driver** is `channel.dfy`.

Conventions:

* `linux/msm_ipa.h` is not part of this model. The new struct layouts, header offsets and command numbers
  are parameters. A layout is valid when its fields lie inside the record and apart from each other, the
  IP type is at 0, the match attribute at 4 (12 in rules), and a property record is no smaller than the old
  one. The request type 0xCF and the name size 32 are stated in `notify_eth_wan.c` of the same repository.
* The kernel is any function from the sequence of all calls so far to a return value and the bytes it
  leaves in the memory it was given. Every statement about the bridge holds for all such kernels.
* The caller's memory is one byte array indexed by address. `Safe` says that the pointers of a call are
  good for what the bridge goes on to touch. Of a translated request that is its header and the rules it
  announces. Of a query it is nothing if the kernel refused it or its handler is switched off, the name
  field if the interface is not allowed, the prefix if the count is out of range, and otherwise as many
  new records as the answer announces. Calls on other devices need nothing.
* The rule count of every rule-add request is one byte, as in the kernel's interface; the bridge only
  looks at counts from 1 to 8.
* A run is any sequence of intercepted calls and of writes by the caller to its own memory, in any order.
* A C string is a Dafny string without NUL; a fixed character array is a string of its full length.
* Descriptor -1, the value the empty cache starts with, and a descriptor table that changes between calls
  are part of the model; the conditions under which the cache is right are stated both ways.
* The dump mask is modelled as the set of its bit numbers, which are shown to stay below 32.
* Where the transmit and receive versions of a loop or handler differ only in the fields they copy, one
  method stands for both and the field copies are separate methods. The eight rule-add functions are one
  method with a table of header sizes. The consecutive property calls of the tree fixer are one loop over a
  table in the same order.

Results that differ from what one might expect of the code:

* The interface-list test is list membership for every list exactly when the name is not empty. For the
  empty name it looks at the last piece only.
* The device cache answers wrongly exactly when the descriptor asked about last is reopened on a file of the
  other kind and asked about again. A rule request on such a file is rewritten.
* The environment block is cut at 4095 characters. A longer value under `IPA_ABI_BRIDGE_MODE` that begins with
  "translate" turns translation on when the cut falls right behind that word.
* `aqc_ioss_request_channel` returns 0 also when the ring request failed, so the all-or-nothing statement is
  about what is held. Its rollback and its release delete by address, so an older registration at one of the
  ring's addresses is lost with them. Only empty lists are safe whatever ring the driver answers with.
* The routing table is cut at 4095 characters as well. When the cut falls among the digits of the gateway, the
  digits before it are taken for the whole.
* A failed rule-add still overwrites handle and status of the caller's rules; a failed generate-equation
  request does not.
* `fail_closed` selects a log text and nothing else, so it does not appear in the model.

## Model

| member | source | states |
|---|---|---|
| Bytes.Rd32OfLittleEndian | final-working-files/ipa-final/ipacm_abi_bridge_v5.c:134-145 | reading back a word stored low byte first gives the word, for every 32-bit value |
| Bytes.WordValue | final-working-files/ipa-final/ipacm_abi_bridge_v5.c:134-137 | a word is the number its four bytes stand for, the low one first |
| Bytes.Store | final-working-files/ipa-final/ipacm_abi_bridge_v5.c:139-151 | the byte-by-byte store leaves the little-endian bytes of the value at the address and nothing else changes |
| Bytes.MemCopy | final-working-files/ipa-final/ipacm_abi_bridge_v5.c:128-132 | the copy loop replaces exactly the target range by the source range |
| Bytes.MemZero | final-working-files/ipa-final/ipacm_abi_bridge_v5.c:122-126 | the clearing loop zeroes exactly the range |
| Records.SourceOfSeg | final-working-files/ipa-final/ipacm_abi_bridge_v5.c:487-491 | with field copies to disjoint targets, every copied byte keeps its own single origin whatever the order of the copies |
| Records.ClearedIffUncovered | final-working-files/ipa-final/ipacm_abi_bridge_v5.c:485-491 | a byte of a translated record is zero-filled exactly when no field copy covers it |
| Records.FieldArrives | final-working-files/ipa-final/ipacm_abi_bridge_v5.c:486-491 | each copied field arrives whole at its new offset |
| Records.InverseRestores | final-working-files/ipa-final/ipacm_abi_bridge_v5.c:618-639 | copying back along the same offsets restores every byte the translation carried and clears all others |
| Records.CopySeg | final-working-files/ipa-final/ipacm_abi_bridge_v5.c:486-491 | one field copy advances the record under construction by one step of its plan and touches nothing outside the record |
| Widening.WidenStep | final-working-files/ipa-final/ipacm_abi_bridge_v5.c:480-491 | going from the last record down, the next old record is still intact when it is read although the new records overlap it |
| Widening.WidenedRecord | final-working-files/ipa-final/ipacm_abi_bridge_v5.c:471-515 | after the whole loop new record i is the translation of the original old record i, for every n |
| Widening.WidenFrame | final-working-files/ipa-final/ipacm_abi_bridge_v5.c:471-515 | bytes before the first record and past the last new record are untouched |
| Query.WideningIsExact | final-working-files/ipa-final/ipacm_abi_bridge_v5.c:471-515 | every byte of every new record is the named byte of the old record of the same index, or zero where no field is copied |
| Query.WidenedTxFields | final-working-files/ipa-final/ipacm_abi_bridge_v5.c:486-491 | named field by named field: each new transmit record holds the IP type, attribute prefix, both pipes, header name and L2 type of the old record of its index, from the old offsets 0, 4, 156, 160, 164 and 196 |
| Query.WidenedRxFields | final-working-files/ipa-final/ipacm_abi_bridge_v5.c:510-513 | the same for the receive record, from the old offsets 0, 4, 156 and 160 |
| Query.Translate | final-working-files/ipa-final/ipacm_abi_bridge_v5.c:471-515 | the in-place downward loop, transmit or receive, for every n and every valid layout leaves exactly the out-of-place widening |
| Query.BuildTx | final-working-files/ipa-final/ipacm_abi_bridge_v5.c:485-491 | the six copies of a transmit record build the record its plan describes |
| Query.BuildRx | final-working-files/ipa-final/ipacm_abi_bridge_v5.c:509-513 | the four copies of a receive record build the record its plan describes |
| Query.Printable | final-working-files/ipa-final/ipacm_abi_bridge_v5.c:390-401 | true exactly for a nonempty name of printable characters, cut at the first NUL or at 32 bytes |
| Query.PrintableMeans | final-working-files/ipa-final/ipacm_abi_bridge_v5.c:390-401 | a field is a printable name exactly if it starts with one or more characters from space to tilde and then ends or has a NUL |
| Query.VerdictsMean | final-working-files/ipa-final/ipacm_abi_bridge_v5.c:403-438 | the checks on a record byte by byte: IP type 0 or 1, a pipe from 1 to 1023, an alternative pipe up to 1023, an L2 type up to 4, and a printable header name at its place |
| Query.VerdictAt | final-working-files/ipa-final/ipacm_abi_bridge_v5.c:408-419 | the verdicts are those of record after record, each in its order |
| Query.TxScore | final-working-files/ipa-final/ipacm_abi_bridge_v5.c:403-421 | the loop counts the passed checks over all records, and answers 0 for a count out of range |
| Query.RxScore | final-working-files/ipa-final/ipacm_abi_bridge_v5.c:423-438 | the same for the three receive checks |
| Query.ThresholdMeaning | final-working-files/ipa-final/ipacm_abi_bridge_v5.c:551-562 | 4n is reached exactly when at most n of the 5n transmit checks fail, 3n exactly when every receive check passes |
| Query.VerdictsTransport | final-working-files/ipa-final/ipacm_abi_bridge_v5.c:403-438 | a widened record passes under the new layout exactly the checks the old record passed under the old layout |
| Query.ScoreTransport | final-working-files/ipa-final/ipacm_abi_bridge_v5.c:549-550 | after widening, the new-layout score equals the old-layout score of the original buffer |
| Query.PrefixSurvives | final-working-files/ipa-final/ipacm_abi_bridge_v5.c:480-491 | widening leaves the interface name and the record count alone |
| Query.HandlerIsIdempotent | final-working-files/ipa-final/ipacm_abi_bridge_v5.c:537-593 | for every buffer, configuration and interface, running a query handler twice leaves the same bytes as running it once |
| Query.CoincidingLayoutsNeverWiden | final-working-files/ipa-final/ipacm_abi_bridge_v5.c:554-562 | where old and new layout coincide the handlers never change the buffer |
| Query.HandlerMeaning | final-working-files/ipa-final/ipacm_abi_bridge_v5.c:537-593 | when an answer is widened: with the handler on, the interface allowed and the count from 1 to 16, memory changes if and only if the mode and the translate list say so, at most n of the 5n old-layout checks fail and more than n new-layout checks do (receive: none and at least one); then every new record holds the old fields from their literal offsets and nothing outside the new records changes |
| Bridges.Bridge.HandleQuery | final-working-files/ipa-final/ipacm_abi_bridge_v5.c:537-593 | either query handler, in place, leaves memory and dump record as the specified decision says, and memory as `HandlerMeaning` puts it in literal terms |
| Bridges.Bridge.HandleExt | final-working-files/ipa-final/ipacm_abi_bridge_v5.c:595-616 | the extended-query handler changes nothing but the dump record |
| Rules.RuleBytesPartition | final-working-files/ipa-final/ipacm_abi_bridge_v5.c:618-639 | every byte of a narrowed rule is a copy of exactly one byte of the new rule, no byte is used twice, and only bytes 160 to 163 are clear (plus the result area of the rule-add record) |
| Rules.NarrowedFields | final-working-files/ipa-final/ipacm_abi_bridge_v5.c:618-639 | named field by named field: the first 160 bytes, then four clear ones, then the priority word or the equation and index fields, then the rear flag |
| Rules.RewideningRestores | final-working-files/ipa-final/ipacm_abi_bridge_v5.c:618-639 | narrowing has a left inverse: re-widening with the same offsets restores every retained byte |
| Rules.NarrowRule | final-working-files/ipa-final/ipacm_abi_bridge_v5.c:618-639 | the clearing and copying of one rule-add record produces the planned record and nothing else |
| Marshalling.KernelSees | final-working-files/ipa-final/ipacm_abi_bridge_v5.c:661-670 | the kernel's buffer holds the header followed by the narrowed rules, each under its own index, in all eight variants |
| Marshalling.HeaderMeaning | final-working-files/ipa-final/ipacm_abi_bridge_v5.c:684-699 | the header is the caller's; only the pointer variants change it, in the bytes of the rule size and of the pointer |
| Marshalling.PointerMeaning | final-working-files/ipa-final/ipacm_abi_bridge_v5.c:694-699 | below 2^64, the pointer read back from the kernel's buffer is the address of the first narrowed rule, with room for all rules behind it inside the buffer, and the rule size reads as that of the old record |
| Bytes.ValueOfLittleEndian | final-working-files/ipa-final/ipacm_abi_bridge_v5.c:139-151 | reading back a number of any width stored low byte first gives the number |
| Marshalling.Marshal | final-working-files/ipa-final/ipacm_abi_bridge_v5.c:651-917 | the buffer the eight functions build is that request; every write stays inside it |
| Marshalling.WriteHeader | final-working-files/ipa-final/ipacm_abi_bridge_v5.c:684-699 | clearing the buffer and writing the header leaves the header followed by zeros |
| Marshalling.ReturnedFrame | final-working-files/ipa-final/ipacm_abi_bridge_v5.c:672-677 | copying back changes no byte of caller memory outside the handle and status words of the n rules |
| Marshalling.ReturnedWords | final-working-files/ipa-final/ipacm_abi_bridge_v5.c:672-677 | rule i receives handle and status of the kernel's record i |
| Marshalling.CopyBack | final-working-files/ipa-final/ipacm_abi_bridge_v5.c:672-677 | the copy-back loop is that update, for every n |
| Bridges.Bridge.TranslateAdd | final-working-files/ipa-final/ipacm_abi_bridge_v5.c:651-917 | one translated rule-add: one kernel call on the private buffer, results copied back, kernel's return value returned |
| Bridges.Bridge.TranslateEq | final-working-files/ipa-final/ipacm_abi_bridge_v5.c:919-932 | one generate-equation request: one kernel call, the equation copied back only on success |
| Bridges.Bridge.MaybeTranslate | final-working-files/ipa-final/ipacm_abi_bridge_v5.c:934-948 | handles exactly the requests it translates and leaves everything alone when it declines |
| Runs.AddStepMeaning | final-working-files/ipa-final/ipacm_abi_bridge_v5.c:651-917 | a translated rule-add shows the kernel only the narrowed request and changes caller memory only in result words, for every kernel |
| Runs.AddStepResults | final-working-files/ipa-final/ipacm_abi_bridge_v5.c:671-678 | each rule gets the handle and status of the same index, whatever value the kernel returned |
| Runs.EqStepView | final-working-files/ipa-final/ipacm_abi_bridge_v5.c:919-927 | byte by byte, the kernel sees the first four bytes and the common attribute of the caller's record, and zeros |
| Runs.EqStepMeaning | final-working-files/ipa-final/ipacm_abi_bridge_v5.c:919-932 | on failure the caller's record is untouched, on success exactly the equation bytes change to the kernel's |
| Bridges.Bridge.Ioctl | final-working-files/ipa-final/ipacm_abi_bridge_v5.c:1007-1041 | the interposed call, in place, is the specified step and returns the reply to its one kernel call |
| Dispatch.OthersPass | final-working-files/ipa-final/ipacm_abi_bridge_v5.c:1017-1023 | a request whose second byte is not 0xCF, or on a descriptor that is not answered to be the device, goes to the kernel as it is |
| Dispatch.UntranslatedPass | final-working-files/ipa-final/ipacm_abi_bridge_v5.c:934-948 | so does a command of the bridge's type without an argument or a part in a translation, a rule command with the switch off, and a query the kernel refuses |
| Dispatch.TxAnswer | final-working-files/ipa-final/ipacm_abi_bridge_v5.c:1024-1026 | the command in the low byte being the transmit query, a granted call has the memory effect of its handler and a dump of type 0 under the literal interface class |
| Dispatch.RxAnswer | final-working-files/ipa-final/ipacm_abi_bridge_v5.c:1024-1027 | the same for the receive query, with type 1 |
| Dispatch.ExtAnswer | final-working-files/ipa-final/ipacm_abi_bridge_v5.c:1024-1028 | the extended query changes no memory and dumps type 2, whatever the count |
| Dispatch.AddRequestHeader | final-working-files/ipa-final/ipacm_abi_bridge_v5.c:651-917 | a rule-add command with the switch on, a count from 1 to 8 and a pointer where one is needed makes one call with a private buffer: the caller's header in its literal size, the pointer forms with the rule size 180 or 372 and the address behind the header |
| Dispatch.AddRequestRule | final-working-files/ipa-final/ipacm_abi_bridge_v5.c:618-670 | behind that header rule i of the caller lies at i times 180 or 372, field by field at its literal offset |
| Dispatch.AddRequestResults | final-working-files/ipa-final/ipacm_abi_bridge_v5.c:671-677 | rule i of the caller gets bytes 172 to 175 of the kernel's record i as its handle and 176 to 179 as its status, for filters 364 to 367 and 368 to 371 |
| Dispatch.AddRequestFrame | final-working-files/ipa-final/ipacm_abi_bridge_v5.c:671-677 | no other byte of the caller's memory changes, nor the dump record |
| Dispatch.OtherAddsPass | final-working-files/ipa-final/ipacm_abi_bridge_v5.c:657-659 | a rule-add command with the count out of range or without a pointer is passed on |
| Dispatch.AddRequestExample | final-working-files/ipa-final/ipacm_abi_bridge_v5.c:651-660 | a concrete daemon and request to which the lemmas on rule-add commands apply |
| Dispatch.EquationRequest | final-working-files/ipa-final/ipacm_abi_bridge_v5.c:919-932 | a generate-equation command with the switch on: the 340 bytes the kernel sees, and bytes 156 to 339 of what it leaves as the caller's equation if it succeeds |
| Runs.OneCallEach | final-working-files/ipa-final/ipacm_abi_bridge_v5.c:1007-1041 | each intercepted call makes exactly one kernel call with the same descriptor and request |
| Runs.OneCallPerEvent | final-working-files/ipa-final/ipacm_abi_bridge_v5.c:1007-1041 | over any run of calls and caller writes the kernel sees one call per intercepted call, in order, and no other |
| Runs.TransparentStep | final-working-files/ipa-final/ipacm_abi_bridge_v5.c:1017-1040 | with both translations off, or another request type or another device, memory and kernel log are those of the direct call |
| Runs.TransparentRunIsDirect | final-working-files/ipa-final/ipacm_abi_bridge_v5.c:1007-1041 | over a whole run of such calls, with whatever the caller writes between them, the bridge is invisible, for a kernel that may depend on the whole history |
| Runs.ForeignRunIsDirect | final-working-files/ipa-final/ipacm_abi_bridge_v5.c:1007-1041 | a run whose calls are of another type or on descriptors that are not the device at that moment is the direct run, for changing tables too and with caller writes between them, and needs nothing of the callers' pointers |
| Runs.DeviceCallsTakenIff | final-working-files/ipa-final/ipacm_abi_bridge_v5.c:304-327 | over any run the calls handled are exactly those on the device, if and only if no descriptor changes its nature while it is the cached one and the cache does not start out wrong about the first |
| Runs.StableRunTakesDeviceCalls | final-working-files/ipa-final/ipacm_abi_bridge_v5.c:304-327 | on a table that never changes, from an honest cache, exactly the device's calls are handled |
| Runs.MistakenCallIsRewritten | final-working-files/ipa-final/ipacm_abi_bridge_v5.c:314-316 | otherwise a rule request on whatever file took over the cached descriptor is rewritten |
| Runs.ReopenedDescriptorIsRewritten | final-working-files/ipa-final/ipacm_abi_bridge_v5.c:314-316 | a concrete world and run of two calls in which that happens |
| Runs.InertUnlessAsked | final-working-files/ipa-final/ipacm_abi_bridge_v5.c:200-270 | from the environment block, cut to its buffer, to the end of the run: unless a translation is asked for in the kept part the bridge changes nothing |
| Runs.StepKeepsDumps | final-working-files/ipa-final/ipacm_abi_bridge_v5.c:440-469 | every call keeps the dump record faithful, grows the mask and forgets no dump |
| Runs.RunKeepsDumps | final-working-files/ipa-final/ipacm_abi_bridge_v5.c:440-469 | so does every run, whatever becomes of the descriptors and whatever the caller writes |
| Runs.EachKindDumpedOnce | final-working-files/ipa-final/ipacm_abi_bridge_v5.c:440-469 | over every run that starts with nothing dumped, each pair of query type and interface class is dumped at most once |
| HexDump.DumpStep | final-working-files/ipa-final/ipacm_abi_bridge_v5.c:449-460 | one decision dumps the kind exactly if it is enabled and not yet dumped, and blocks or frees no other kind |
| Scanners.CsvHas | final-working-files/ipa-final/ipacm_abi_bridge_v5.c:272-290 | the character loop terminates and answers the specified test for every list and every name, terminated or not |
| Scanners.MembershipExactlyForNames | final-working-files/ipa-final/ipacm_abi_bridge_v5.c:272-290 | for every list the test is membership of the name among the trimmed pieces (or `*`), exactly when the name is not empty |
| Scanners.PrintedList | final-working-files/ipa-final/ipacm_abi_bridge_v5.c:272-290 | in a comma-separated list of names with any spaces around them exactly those names are found; `*` alone stands for all |
| Scanners.EmptyNameMissesInnerBlank | final-working-files/ipa-final/ipacm_abi_bridge_v5.c:280-287 | a concrete list on which the empty name is a member and is not found |
| Scanners.ScanTurn | final-working-files/ipa-final/ipacm_abi_bridge_v5.c:278-288 | one turn of the loop tests the piece at the front and leaves the rest to do |
| Scanners.ScanEnv | final-working-files/ipa-final/ipacm_abi_bridge_v5.c:218-238 | the scan returns the value of the first entry that starts with the name (cut at 128) and `=`, cut to the buffer and terminated; otherwise 0 and an empty string |
| Scanners.Environment.Get | final-working-files/ipa-final/ipacm_abi_bridge_v5.c:200-239 | the block is read on first use only, cut to 4095 characters; later calls answer from the kept copy |
| Scanners.CutLookup | final-working-files/ipa-final/ipacm_abi_bridge_v5.c:200-239 | looking a name up in the first characters of any serialised environment (section 8.1 of POSIX.1-2017 Base Definitions) gives as much of the first value under it as lies there |
| Scanners.LookupOfSerialised | final-working-files/ipa-final/ipacm_abi_bridge_v5.c:218-238 | in a whole block that is the first value stored under the name, or nothing exactly when there is none |
| Configuration.Load | final-working-files/ipa-final/ipacm_abi_bridge_v5.c:200-270 | the settings are the specified function of the kept block |
| Configuration.ParseBoolEnv | final-working-files/ipa-final/ipacm_abi_bridge_v5.c:241-248 | a switch is on, off or at its default as its value says |
| Configuration.SwitchesIff | final-working-files/ipa-final/ipacm_abi_bridge_v5.c:200-270 | for a block of any length each translation is on exactly when the first value under its name, as far as it lies in the kept part, is one of its words |
| Configuration.FittingBlockAsks | final-working-files/ipa-final/ipacm_abi_bridge_v5.c:200-270 | for a block that fits its buffer that is the whole first value |
| Configuration.SettingsMean | final-working-files/ipa-final/ipacm_abi_bridge_v5.c:250-270 | for a block of any length each handler and the dumps are on unless their variable is 0, no, false or off, and the lists hold the value of their variable, cut to 255 characters, or eth0 and nothing |
| Configuration.OffByDefault | final-working-files/ipa-final/ipacm_abi_bridge_v5.c:200-270 | for a block of any length both translations are off unless the environment names a mode that begins with translate, or the rule switch |
| Configuration.CutModeTranslates | final-working-files/ipa-final/ipacm_abi_bridge_v5.c:207-210 | a concrete environment that asks for no translation by name and gets one, because the cut ends its mode early |
| Configuration.LoadedIsProper | final-working-files/ipa-final/ipacm_abi_bridge_v5.c:263-269 | whatever the environment holds, the loaded lists are proper C strings |
| FdCache.FdPath | final-working-files/ipa-final/ipacm_abi_bridge_v5.c:317-321 | the digit loops build the link path of any 32-bit descriptor inside 12 and 32 bytes |
| FdCache.Digits | final-working-files/ipa-final/ipacm_abi_bridge_v5.c:318-319 | the digits come out in reverse and are at most ten |
| FdCache.ParseOfDecimal | final-working-files/ipa-final/ipacm_abi_bridge_v5.c:318-320 | the rendered number parses back to itself |
| FdCache.PathMeans | final-working-files/ipa-final/ipacm_abi_bridge_v5.c:317-321 | three descriptors and their link paths, most significant digit first, the negative one as an unsigned number |
| FdCache.DeviceLink | final-working-files/ipa-final/ipacm_abi_bridge_v5.c:325 | a link is the device's exactly if it begins with /dev/ipa |
| FdCache.Descriptors.FdIsIpaDev | final-working-files/ipa-final/ipacm_abi_bridge_v5.c:304-327 | one query updates the one-entry cache as specified and answers from it |
| FdCache.HonestAnswers | final-working-files/ipa-final/ipacm_abi_bridge_v5.c:304-327 | from an honest cache every sequence of queries answers as fresh lookups would |
| FdCache.CacheAgreesIff | final-working-files/ipa-final/ipacm_abi_bridge_v5.c:311-316 | with a stable table the cache agrees with the uncached lookup on all query sequences exactly when descriptor -1 is not the device |
| FdCache.AgreesIff | final-working-files/ipa-final/ipacm_abi_bridge_v5.c:304-327 | over any sequence of queries and changing tables all answers are those of fresh lookups exactly when, among consecutive queries about one descriptor, it stays the device or stays something else, and the cache starts right about the first |
| FdCache.ReopenedDescriptorIsMistaken | final-working-files/ipa-final/ipacm_abi_bridge_v5.c:314-316 | a concrete descriptor, reopened on another file, that is still taken for the device |
| DeviceTree.CellsRoundTrip | final-working-files/pcie-enabler-sources/pcie_enabler_non_es_v1.c:112-138 | big-endian cell values read back as written |
| DeviceTree.StringListRoundTrip | final-working-files/pcie-enabler-sources/pcie_enabler_non_es_v1.c:140-168 | splitting the blob at its NULs gives back the list, as section 2.2.4 of the Devicetree Specification requires; its length is the sum of the lengths plus one each |
| DeviceTree.EncodeStringList | final-working-files/pcie-enabler-sources/pcie_enabler_non_es_v1.c:140-168 | the two-loop encoder fills a blob of exactly that size with that value and never writes outside it |
| DeviceTree.ChainIsAcyclic | final-working-files/pcie-enabler-sources/pcie_enabler_non_es_v1.c:250-255 | a sibling list that ends visits no node twice |
| DeviceTree.FindChildByName | final-working-files/pcie-enabler-sources/pcie_enabler_non_es_v1.c:262-273 | the walk returns the first child of that name, or null |
| DeviceTree.FirstNamedMeans | final-working-files/pcie-enabler-sources/pcie_enabler_non_es_v1.c:262-273 | what is found is the first child of that name, and null exactly when there is none |
| DeviceTree.PresentMeans | final-working-files/pcie-enabler-sources/pcie_enabler_non_es_v1.c:293-303 | the attempt is given up as done exactly when all three nodes are found under their names |
| DeviceTree.AttachNode | final-working-files/pcie-enabler-sources/pcie_enabler_non_es_v1.c:243-260 | the splice puts the node in front of its parent's children, keeps every other child list, and fails only without node or parent |
| DeviceTree.SetProperties | final-working-files/pcie-enabler-sources/pcie_enabler_non_es_v1.c:325-447 | a run of property requests answers with the first failure, succeeds exactly when all are granted, and then the node holds exactly those values |
| DeviceTree.RxMeans | final-working-files/pcie-enabler-sources/pcie_enabler_non_es_v1.c:325-370 | the receive node holds eleven properties, each read by name: handles 0x8125, name, flags, ring parameters |
| DeviceTree.TxMeans | final-working-files/pcie-enabler-sources/pcie_enabler_non_es_v1.c:371-411 | the transmit node holds ten, with handles 0x8126 |
| DeviceTree.DeviceMeans | final-working-files/pcie-enabler-sources/pcie_enabler_non_es_v1.c:412-447 | the device node holds eight: compatible and name strings, five zero cells, two PCI identifiers, instance 0, the two handles looked up each under its own name, and both channel handles |
| DeviceTree.PrepareNodes | final-working-files/pcie-enabler-sources/pcie_enabler_non_es_v1.c:309-447 | the three nodes are made with their parents, names, full names, handles and properties, or the first failure is answered |
| DeviceTree.BuildNodes | final-working-files/pcie-enabler-sources/pcie_enabler_non_es_v1.c:309-460 | either everything is granted and all three nodes are attached as they are to be, or no child list changes and the first failure is answered |
| DeviceTree.AttachRuntimeNodes | final-working-files/pcie-enabler-sources/pcie_enabler_non_es_v1.c:275-468 | all or nothing: -ENODEV without the dependencies, success without any change when the nodes are present, otherwise all three attached or an error and no child list changed; the root complex's status is set exactly when that request was granted |
| DeviceTree.SplicedLists | final-working-files/pcie-enabler-sources/pcie_enabler_non_es_v1.c:449-455 | existing children keep their order behind the new ones, in every list |
| DeviceTree.SplicedIsPresent | final-working-files/pcie-enabler-sources/pcie_enabler_non_es_v1.c:301-307 | after the splice every node is found again under its name |
| DeviceTree.AttachTwice | final-working-files/pcie-enabler-sources/pcie_enabler_non_es_v1.c:275-468 | a second attempt after a success attaches nothing and changes no property, whatever the kernel would answer |
| Pmds.FindDevice | final-working-files/pcie-enabler-sources/pcie_enabler_non_es_v1.c:470-491 | the bus walk finds the first device with the name suffix and takes one reference to it |
| Pmds.EndsWithMeans | final-working-files/pcie-enabler-sources/pcie_enabler_non_es_v1.c:470-483 | a device matches exactly if its name is something followed by the suffix |
| Pmds.ViewMeans | final-working-files/pcie-enabler-sources/pcie_enabler_non_es_v1.c:505-531 | the three descriptors are those of the first devices named by the literal suffixes, as far as they have a domain with tables |
| Pmds.FixOneSlave | final-working-files/pcie-enabler-sources/pcie_enabler_non_es_v1.c:493-565 | the slave gets the master's range exactly when both are there and the master is vmalloc-backed; the master is unchanged and every path gives back all references |
| Pmds.RunFixPass | final-working-files/pcie-enabler-sources/pcie_enabler_non_es_v1.c:567-576 | one pass repairs both slaves, also when they share tables, and reports whether anything changed |
| Pmds.PassConverges | final-working-files/pcie-enabler-sources/pcie_enabler_non_es_v1.c:567-576 | with everything present one pass makes all three agree and an immediate second pass changes nothing |
| Pmds.RecheckIsBounded | final-working-files/pcie-enabler-sources/pcie_enabler_non_es_v1.c:578-594 | over any run with interference the work function runs as often as the timer elapses but at most 15 times, is pending exactly while it may run again, and never after unload |
| Pmds.RepairedAfterEachTimer | final-working-files/pcie-enabler-sources/pcie_enabler_non_es_v1.c:578-586 | whatever was rewritten before, right after each run the slaves present agree with a sound master |
| Pmds.Rechecker.OnTimer | final-working-files/pcie-enabler-sources/pcie_enabler_non_es_v1.c:578-586 | the work function is the specified step: one repair pass, the counter, and rescheduling exactly below 15 |
| Pmds.Rechecker.constructor | final-working-files/pcie-enabler-sources/pcie_enabler_non_es_v1.c:588-594 | starting resets the counter and schedules the work once |
| Sanitiser.SanitizeQueryTxProps | final-working-files/intermediate-steps/ipa-ipacm-experiments/source-tools/ipacm_fix_preload_nolibc.c:553-592 | the in-place loop leaves the specified properties, touches no entry past the count, and the fix-up after it is unreachable |
| Sanitiser.SanitisedIsSane | final-working-files/intermediate-steps/ipa-ipacm-experiments/source-tools/ipacm_fix_preload_nolibc.c:553-575 | for the two interfaces: a pipe from 1 to 1023 stays, another becomes the first entry's sane one (not for rmnet_data0) or 35; an alternative pipe from 1024 on becomes 0; entry 0 is v4 and the others v6 |
| Sanitiser.OthersUntouched | final-working-files/intermediate-steps/ipa-ipacm-experiments/source-tools/ipacm_fix_preload_nolibc.c:304-314 | no other interface is touched, nor an answer of more than 16 entries |
| Sanitiser.SanitisedNames | final-working-files/intermediate-steps/ipa-ipacm-experiments/source-tools/ipacm_fix_preload_nolibc.c:576-583 | header names change for eth0 only: the first two are fixed, later ones are replaced when blank |
| Sanitiser.PickFallbackDst | final-working-files/intermediate-steps/ipa-ipacm-experiments/source-tools/ipacm_fix_preload_nolibc.c:512-525 | the fallback is always in range: the first entry's own destination when that is sane and the interface is not rmnet_data0, otherwise 35 |
| Sanitiser.SanitisingIsIdempotent | final-working-files/intermediate-steps/ipa-ipacm-experiments/source-tools/ipacm_fix_preload_nolibc.c:553-592 | a second clean-up changes nothing |
| Routes.ParseHex32Token | final-working-files/intermediate-steps/ipa-ipacm-experiments/source-tools/ipacm_fix_preload_nolibc.c:681-702 | skips blanks, then reads hexadecimal digits as far as the 64th character, keeping 32 bits, and never leaves the terminated buffer |
| Routes.BswapBytes | final-working-files/intermediate-steps/ipa-ipacm-experiments/source-tools/ipacm_fix_preload_nolibc.c:704-710 | the four bytes of a word come out in the other order |
| Routes.BswapTwice | final-working-files/intermediate-steps/ipa-ipacm-experiments/source-tools/ipacm_fix_preload_nolibc.c:704-710 | swapping the bytes twice is the identity |
| Routes.DigitsMean | final-working-files/intermediate-steps/ipa-ipacm-experiments/source-tools/ipacm_fix_preload_nolibc.c:690-697 | the digits are 0 to 9 and a to f in either case, and stand for 0 to 15 |
| Routes.ParseLineAt | final-working-files/intermediate-steps/ipa-ipacm-experiments/source-tools/ipacm_fix_preload_nolibc.c:745-761 | a line is parsed where it lies, without reading into the next line |
| Routes.FindDefaultGw | final-working-files/intermediate-steps/ipa-ipacm-experiments/source-tools/ipacm_fix_preload_nolibc.c:712-769 | for any file the answer is that of the first line after the header, in the 4095 characters read, that parses as a default route over the interface |
| Routes.TokenStops | final-working-files/intermediate-steps/ipa-ipacm-experiments/source-tools/ipacm_fix_preload_nolibc.c:690-694 | a token ends at the first character that is neither blank nor digit, so the rest of the buffer does not matter |
| Routes.FieldParses | final-working-files/intermediate-steps/ipa-ipacm-experiments/source-tools/ipacm_fix_preload_nolibc.c:681-702 | a field of one to eight digits behind spaces and tabs is read back whole |
| Routes.LongField | final-working-files/intermediate-steps/ipa-ipacm-experiments/source-tools/ipacm_fix_preload_nolibc.c:690-697 | of 64 and more digits the first 64 are read, and their low 32 bits kept |
| Routes.NameMeans | final-working-files/intermediate-steps/ipa-ipacm-experiments/source-tools/ipacm_fix_preload_nolibc.c:745-753 | an interface name is what precedes the first blank, cut to fifteen characters |
| Routes.CutRowParses | final-working-files/intermediate-steps/ipa-ipacm-experiments/source-tools/ipacm_fix_preload_nolibc.c:745-761 | a printed row cut off anywhere parses exactly when a digit of the gateway is left, and then with the digits left of it |
| Routes.CutTable | final-working-files/intermediate-steps/ipa-ipacm-experiments/source-tools/ipacm_fix_preload_nolibc.c:712-769 | from any printed table, however long, the parser returns the byte-swapped gateway of the first row with the interface and destination 0, as far as its digits lie in the characters read, and fails exactly when none do |
| Routes.TableAnswerRightIff | final-working-files/intermediate-steps/ipa-ipacm-experiments/source-tools/ipacm_fix_preload_nolibc.c:712-769 | that is what the table says exactly if there is no such row, or all eight gateway digits of the first are read, or the gateway is zero and one is |
| Routes.PrintedTable | final-working-files/intermediate-steps/ipa-ipacm-experiments/source-tools/ipacm_fix_preload_nolibc.c:712-769 | for a printed table that fits the buffer the answer is the four bytes of the first default route's gateway in the other order, or none exactly as the table says |
| Routes.RealTable | final-working-files/intermediate-steps/ipa-ipacm-experiments/source-tools/ipacm_fix_preload_nolibc.c:712-769 | the line of a default route as the system prints it, and its gateway |
| Routes.GatewayIsTruncated | final-working-files/intermediate-steps/ipa-ipacm-experiments/source-tools/ipacm_fix_preload_nolibc.c:723-727 | a concrete table whose one route is answered with half of its gateway |
| Channels.Channel.Request | final-working-files/source-build-context/data-eth-src/drivers/aqc_ioss/aqc_ioss.c:157-245 | on return either the ring, its descriptor memory and exactly its buffers are held, or nothing acquired is; a rollback restores the registrations exactly when no earlier one had an address of the ring; the return code is 0 also when the ring request failed |
| Channels.Channel.RegisterBuffers | final-working-files/source-build-context/data-eth-src/drivers/aqc_ioss/aqc_ioss.c:210-221 | registers buffer after buffer at vaddr + i * buf_size up to the first failure |
| Channels.BuffersMean | final-working-files/source-build-context/data-eth-src/drivers/aqc_ioss/aqc_ioss.c:210-214 | buffer i lies i buffer sizes behind the first, in either address space |
| Channels.Channel.DelBuffers | final-working-files/source-build-context/data-eth-src/drivers/aqc_ioss/aqc_ioss.c:229-234 | the deletion loop removes every registration at any buffer address of the ring and no other |
| Channels.DelMem | final-working-files/source-build-context/data-eth-src/drivers/ioss/include/linux/msm/ioss.h:511-524 | deleting removes all entries with the address and is a no-op if there is none |
| Channels.CleansedMeans | final-working-files/source-build-context/data-eth-src/drivers/aqc_ioss/aqc_ioss.c:228-271 | on rollback and release an entry stays, as often as it was there, exactly if its address is not one of the ring's |
| Channels.Undone | final-working-files/source-build-context/data-eth-src/drivers/aqc_ioss/aqc_ioss.c:228-235 | deleting all addresses undoes the registration of any number of the buffers |
| Channels.Channel.Release | final-working-files/source-build-context/data-eth-src/drivers/aqc_ioss/aqc_ioss.c:247-271 | gives back ring and bookkeeping and removes the ring's registrations |
| Channels.Channel.RequestThenRelease | final-working-files/source-build-context/data-eth-src/drivers/aqc_ioss/aqc_ioss.c:157-271 | nothing stays acquired; granted or rolled back, the registrations are as before exactly when no earlier one had an address of the ring, and a request that got no further leaves them alone |
| Channels.SafeForEveryRingIff | final-working-files/source-build-context/data-eth-src/drivers/aqc_ioss/aqc_ioss.c:228-271 | over all rings the driver may answer with, deletion by address spares the earlier registrations exactly when there are none |
| Channels.OlderRegistrationIsLost | final-working-files/source-build-context/data-eth-src/drivers/aqc_ioss/aqc_ioss.c:228-235 | a concrete ring and earlier registration that is lost |
| Channels.LoseOlder | final-working-files/source-build-context/data-eth-src/drivers/aqc_ioss/aqc_ioss.c:157-271 | a request and a release on that input lose it, whether the request succeeds or is rolled back |
| Channels.WithoutIsIdentityIff | final-working-files/source-build-context/data-eth-src/drivers/ioss/include/linux/msm/ioss.h:511-524 | deletion leaves a list as it is exactly when nothing in it has a deleted address |

## Left out

- System calls are abstract steps and all log output is omitted; of the raw dump only the decision and its mask remain. The reads the logging makes of the caller's records are not modelled.
- Typing of C integers: offsets and indices are unbounded, which is exact because every access is shown to lie in an array that models the address space. Hexadecimal accumulation and descriptor numbers are cut to 32 bits explicitly. A `long` return value is returned unchanged, as on the 32-bit target.
- Query.Translate: assumes a property record no smaller than the old one. The sizes are compile-time constants of a header that is not in the repository; with a smaller record the downward loop would overwrite records it still has to read.
- Locking, interrupt state and symbol lookup: each splice is one atomic step and the needed symbols are taken as resolved.
- Nodes prepared before a failed attempt are never freed, and the root complex keeps the status written before the failure; neither is claimed otherwise.
- Reference counts of device-tree nodes; those of the devices on the bus are modelled.
- Sanitiser.SanitizeQueryTxProps: does not model the notification sent for `rmnet_data0` after the loop, because it changes no property.
- The receive clean-up and the synthesised headers of the older interposer: single assignments that would add easy members.
- Event request, event enabling and filters of the channel driver: straight-line rollback without loops.
- Earlier copies of the bridge and of the enabler, probe programs, register tables and installers.
