# Verified models of the packet library's stateful and parsing cores

The Android firewall in this repository is a thin layer over the vendored PcapPlusPlus headers in
`app/src/main/cpp/include/pcapplusplus`. This project models the parts of those headers that keep state
or parse bytes, and proves what their documentation, and the standards they implement, promise.

- **LRU list** (`Recency.dfy`, `LruList.dfy`). The list is a chain of heap nodes plus a map from elements to
  nodes, updated in place, and refines a recency sequence. Over whole runs the sequence obeys stack inclusion,
  order of last use, an exact retention rule, and conservation.
- **IP reassembly** (`Fragments.dfy`, `Datagram.dfy`, `Reassembly.dfy`, `ReassemblyRuns.dfy`, `IPReassembly.dfy`).
  Every order of arrival, with any repetitions, gives back the datagram at the first moment nothing is missing
  (section 3.2 of RFC 791, section 4.5 of RFC 8200). What happens to one hash depends only on its own history.
  A datagram is always reassembled while fewer other hashes than the capacity come between one of its fragments
  and the next, and exactly when a record is dropped is proved from the LRU list's retention rule. The object with
  its mutable records and LRU list is proved to be that state machine, for any sequence of calls, in its state, its
  answers and its callbacks.
- **IPv6 extension headers** (`ExtensionChain.dfy`, `IPv6Layer.dfy`). Building a layer with addExtension and then
  following next-header bytes gives back exactly the added extensions (section 4 of RFC 8200).
- **Object pool** (`ObjectPool.dfy`, `PoolMachine.dfy`). A state machine over the steps of any number of threads,
  with `new` and `delete` outside the mutex: no object is lost, shared or deleted twice, every interleaving is
  equivalent to its calls done one after another, and the mutex is always freed again.
- **ASN.1** (`Asn1.dfy`, `BigInt.dfy`, `Positional.dfy`). Encoding and decoding of record trees (sections 8.1.2 and 8.1.3 of ITU-T
  X.690), the constructor that copies sub-records through both, and hexadecimal integers.
- **TLV records and option values** (`Tlv.dfy`, `IPv4Values.dfy`, `Alignment.dfy`). The shared reader over DHCP
  (section 2 of RFC 2132), IPv6, IPv4 and NFLOG records, the decoding loops with a one-byte cursor, and `align`.
- **Layer chain** (`LayerChain.dfy`). Typed searches in both directions over the doubly linked layers.

For every format there are also statements about the octets themselves, with the numbers of the standards written
out, so that encoders and decoders are right and not only inverse to each other.

`dafny verify dfyconfig.toml` checks everything.

Five promises turned out to hold only under a condition. Each condition is proved in both directions over all
inputs, with an input that fails it.

- The total length that the constructor of a constructed ASN.1 record computes is the encoded size if and only if
  the value is shorter than 256 octets (`TotalLengthIsExact`; `TotalLengthTooSmall` is about a value of 256).
- `canFit` is right about a hex string if and only if the string has no more digits than the type, or one of the
  surplus digits is not zero (`CanFitExactly`); "001" read as one octet is refused (`LeadingZerosRefused`). What is
  accepted is always read exactly (`ReadExactly`).
- The data size of an IPv4 option is its value size if and only if its length octet is at least 2
  (`IPv4DataSizeExact`). The reader hands out options with a length octet of 1 (`DataSizeWraps`), never of 0
  (`HandedOutDataSize`). The decoding loops then end if and only if one of the 64 words that the one-byte cursor
  cycles over is zero or lies behind the memory (`EndsExactly`; `NeverEnds` gives an option on which they do not).
- The decoding loops read past an option's value if and only if its length octet is below 2, or octets are left
  over behind its whole words and none of these words is zero (`ReadsPastTheValue`, over all options; `PastTheValue`
  gives one of each kind). A read behind the memory is an error in the model.
- Reassembly records are conserved if and only if the capacity is at least one or no fragment is a whole datagram
  (`RecordsAreConserved`); with a capacity of zero the record of such a fragment is dropped and completed
  (`DroppedAndCompleted`).

The code file of the reassembly class is not part of this repository. Its steps follow the documentation at the
head of the header, the status enumeration and the record layout. Where these leave a choice, the model decides as
follows. A record is created, or marked as used, before a fragment is looked at. A new record enters the map before
the list is asked what to drop, so a capacity of zero drops it at once. A fragment that lies behind the buffer, and a
second first fragment, are ignored with status FRAGMENT. A non-first fragment with offset zero is ignored as
malformed. The drain stops after the last fragment. A first fragment that is also the last completes its packet. The
offset counter wraps at 16 bits, as the field does.

## Model

| member | source | states |
|---|---|---|
| Recency.PutCharacterised | app/src/main/cpp/include/pcapplusplus/LRUList.h:34-77 | one put: the element is at the head, survivors keep their order, and the last element is lost exactly when a new one meets a full list; at maximum size zero the element itself |
| Recency.StackInclusion | app/src/main/cpp/include/pcapplusplus/LRUList.h:44-105 | on the same calls the smaller list is a prefix of the larger one |
| Recency.RecencyOrder | app/src/main/cpp/include/pcapplusplus/LRUList.h:18-22 | after any calls the list is ordered by last use, most recent first |
| Recency.ResidentsAreKnown | app/src/main/cpp/include/pcapplusplus/LRUList.h:18-22 | only elements put since their last erasure are in the list, and all of them when it cannot overflow |
| Recency.Retention | app/src/main/cpp/include/pcapplusplus/LRUList.h:44-105 | a key is resident exactly when it was put and not erased since, and at every moment since then fewer than max keys put after it were still known |
| Recency.RetentionByPuts | app/src/main/cpp/include/pcapplusplus/LRUList.h:44-77 | a put key stays while fewer than max distinct others are put after it, and without erasures exactly as long |
| Recency.Conservation | app/src/main/cpp/include/pcapplusplus/LRUList.h:44-105 | insertions equal residents plus evictions plus successful erasures |
| Recency.RunWellFormed | app/src/main/cpp/include/pcapplusplus/LRUList.h:44-105 | no duplicates and at most max elements in every reachable list |
| LruList.LruList.Put | app/src/main/cpp/include/pcapplusplus/LRUList.h:44-77 | the linked nodes and the map change as the recency sequence does; returns 1 and the dropped element exactly on overflow |
| LruList.LruList.EraseElement | app/src/main/cpp/include/pcapplusplus/LRUList.h:95-105 | deletes just the element, and nothing when it is absent |
| LruList.LruList.GetMRUElement | app/src/main/cpp/include/pcapplusplus/LRUList.h:81-84 | the head of the recency sequence |
| LruList.LruList.GetLRUElement | app/src/main/cpp/include/pcapplusplus/LRUList.h:88-91 | the tail of the recency sequence |
| LruList.LruList.GetSize | app/src/main/cpp/include/pcapplusplus/LRUList.h:114-117 | the map has one entry for each listed element |
| LruList.EntriesOf | app/src/main/cpp/include/pcapplusplus/LRUList.h:119-122 | with one map entry for each node, elements are distinct and are exactly the map's keys |
| Fragments.AcceptOnAnyRecord | app/src/main/cpp/include/pcapplusplus/IPReassembly.h:290-307 | on any record the buffer grows by exactly the payload in turn and those it releases, in order, the waiting fragments change by exactly these, and when each status is given |
| Fragments.DrainOnAnyRecord | app/src/main/cpp/include/pcapplusplus/IPReassembly.h:27-29 | on any record the drain appends the moved payloads in order, each in turn, splits the waiting fragments into moved and remaining ones, and stops only after the last fragment or where nothing waiting is next |
| Fragments.OffsetCounts | app/src/main/cpp/include/pcapplusplus/IPReassembly.h:433-476 | on any record the 16-bit offset counter goes up by the bytes the buffer gains, modulo 65536 |
| Datagram.DrainContinues | app/src/main/cpp/include/pcapplusplus/IPReassembly.h:22-29 | the drain moves exactly the run of waiting fragments that continues the buffer |
| Datagram.AcceptPartial | app/src/main/cpp/include/pcapplusplus/IPReassembly.h:22-29 | after any fragments the buffer is the datagram up to the current offset, and completion comes exactly when none is missing |
| Datagram.LastArrival | app/src/main/cpp/include/pcapplusplus/IPReassembly.h:21-29 | for every arrival sequence with repetitions, the exact status of its last arrival, and the datagram exactly when complete |
| Datagram.AnyOrder | app/src/main/cpp/include/pcapplusplus/IPReassembly.h:17-31 | for every order of arrival exactly the final fragment reports REASSEMBLED, with the datagram |
| Datagram.WaitingLiesBeyond | app/src/main/cpp/include/pcapplusplus/IPReassembly.h:27-29 | while nothing is repeated, every waiting fragment lies strictly beyond the current offset |
| Reassembly.AlwaysConsistent | app/src/main/cpp/include/pcapplusplus/IPReassembly.h:478-479 | in every reachable state map keys and list elements agree, within the capacity |
| Reassembly.AnswerByKind | app/src/main/cpp/include/pcapplusplus/IPReassembly.h:290-307 | for every state a packet that is not IP, or no fragment, comes back unchanged with just that status and nothing else happens, and a fragment returns a packet exactly on REASSEMBLED |
| Reassembly.KeysStay | app/src/main/cpp/include/pcapplusplus/IPReassembly.h:279-287 | a record keeps the key of the fragment that created it, and only a fragment of its hash creates one |
| Reassembly.KeysHash | app/src/main/cpp/include/pcapplusplus/IPReassembly.h:279-287 | in every reachable state the key kept for the clean callback has the hash of its record |
| Reassembly.CapacityDrop | app/src/main/cpp/include/pcapplusplus/IPReassembly.h:33-40 | for every capacity, exactly a new datagram at a full map drops one record, the least recently used, with one callback for its key, and no other record changes; at capacity zero it is the new one |
| Reassembly.RecordsAreConserved | app/src/main/cpp/include/pcapplusplus/IPReassembly.h:33-40 | records created equal live plus completed plus dropped plus removed ones if and only if the capacity is positive or no fragment is a whole datagram |
| Reassembly.DroppedAndCompleted | app/src/main/cpp/include/pcapplusplus/IPReassembly.h:33-40 | the fragment for which they do not, at capacity zero |
| ReassemblyRuns.Projection | app/src/main/cpp/include/pcapplusplus/IPReassembly.h:18-20 | after any interleaving the record of a hash is the one its own history alone produces |
| ReassemblyRuns.AnswerIsLocal | app/src/main/cpp/include/pcapplusplus/IPReassembly.h:18-20 | the answer to a fragment is the one its datagram would get on its own |
| ReassemblyRuns.ForgottenStartsAfresh | app/src/main/cpp/include/pcapplusplus/IPReassembly.h:35-38 | in every run, a hash whose record was dropped or removed has none, and its next fragment is answered as the first of a new one |
| ReassemblyRuns.ListIsRecencyRun | app/src/main/cpp/include/pcapplusplus/IPReassembly.h:478-478 | the engine's list is the LRU list after the calls it makes on it |
| ReassemblyRuns.DropsExactly | app/src/main/cpp/include/pcapplusplus/IPReassembly.h:33-40 | a fragment of another datagram drops the record of a hash exactly when with it the capacity is reached by hashes used later and still listed |
| ReassemblyRuns.AnsweredUnlessForgotten | app/src/main/cpp/include/pcapplusplus/IPReassembly.h:17-40 | as long as its record is not dropped or removed, each fragment of a datagram is answered as if it were alone, and the completing one with the datagram |
| ReassemblyRuns.ReassembledInTraffic | app/src/main/cpp/include/pcapplusplus/IPReassembly.h:17-40 | when fewer other hashes than the capacity come between one fragment and the next, the record is never dropped and the completing fragment is answered with the datagram |
| ReassemblyRuns.FewHashesAreClose | app/src/main/cpp/include/pcapplusplus/IPReassembly.h:33-40 | that is so when the traffic mentions no more hashes than the capacity |
| ReassemblyRuns.CurrentPacketInTraffic | app/src/main/cpp/include/pcapplusplus/IPReassembly.h:405-413 | while the record is not dropped or removed, the partial packet is exactly the datagram up to its first missing fragment, and none while the first fragment is missing |
| IPReassembly.FragmentData.MatchOutOfOrderFragments | app/src/main/cpp/include/pcapplusplus/IPReassembly.h:484-484 | the loop over the waiting list computes the drain |
| IPReassembly.Reassembler.AddNewFragment | app/src/main/cpp/include/pcapplusplus/IPReassembly.h:483-483 | adds the record and, beyond the capacity, deletes the least recently used one and calls back with its key |
| IPReassembly.Reassembler.ProcessPacket | app/src/main/cpp/include/pcapplusplus/IPReassembly.h:326-362 | state, answer and callbacks of the object are those of the state machine; NON_IP_PACKET and NON_FRAGMENT are answered exactly for such packets, which come back with nothing changed |
| IPReassembly.Reassembler.RemovePacket | app/src/main/cpp/include/pcapplusplus/IPReassembly.h:415-418 | forgets the record in map and list, without a callback |
| IPReassembly.Reassembler.GetCurrentPacket | app/src/main/cpp/include/pcapplusplus/IPReassembly.h:405-413 | what was gathered so far, and nothing changes |
| IPReassembly.Reassembler.GetCurrentCapacity | app/src/main/cpp/include/pcapplusplus/IPReassembly.h:426-430 | the number of live records, never above the maximum |
| IPReassembly.Replay | app/src/main/cpp/include/pcapplusplus/IPReassembly.h:309-321 | any calls on a new object get the answers, and leave it in the state and with the callbacks, of the run they spell out |
| ExtensionChain.ParserUndoesBuilder | app/src/main/cpp/include/pcapplusplus/IPv6Layer.h:212-241 | following next-header bytes finds the added extensions, then what the upper-layer number makes of the payload |
| ExtensionChain.ExactRecovery | app/src/main/cpp/include/pcapplusplus/IPv6Layer.h:212-241 | it finds exactly the added extensions if and only if the upper-layer protocol is no extension number or the payload cannot hold one |
| ExtensionChain.FoundOnTheWire | app/src/main/cpp/include/pcapplusplus/IPv6Extensions.h:23-43 | on any bytes each extension found lies behind the one before, is named by 0, 43, 44, 51 or 60 in the field in front of it, and has 4 (b + 2) octets for 51 and 8 (b + 1) for the others |
| ExtensionChain.StopsOnTheWire | app/src/main/cpp/include/pcapplusplus/IPv6Extensions.h:23-43 | the parser stops at the end of the last one, exactly where none of these numbers stands in front or two octets are not there |
| ExtensionChain.WrittenOnTheWire | app/src/main/cpp/include/pcapplusplus/IPv6Layer.h:212-241 | byte 6, or the first byte of the extension before, holds the number of each added extension, and the last one the upper-layer protocol |
| ExtensionChain.TileAt | app/src/main/cpp/include/pcapplusplus/IPv6Layer.h:174-177 | each extension lies behind the header and the lengths before it |
| ExtensionChain.BytesPreserved | app/src/main/cpp/include/pcapplusplus/IPv6Layer.h:212-241 | header bytes other than the next-header field, and everything behind the extensions, stay |
| ExtensionChain.ContentPreserved | app/src/main/cpp/include/pcapplusplus/IPv6Layer.h:221-231 | each extension's bytes are the ones added, but for its next-header field |
| ExtensionChain.CodeRoundTrip | app/src/main/cpp/include/pcapplusplus/IPv6Extensions.h:23-37 | the extension numbers are distinct |
| IPv6Layer.Layer.AddExtension | app/src/main/cpp/include/pcapplusplus/IPv6Layer.h:212-241 | bytes, object list and length all gain the extension, with its number and the upper-layer protocol in the two rewritten bytes; a failed extension changes nothing |
| IPv6Layer.Layer.GetExtensionLen | app/src/main/cpp/include/pcapplusplus/IPv6Extensions.h:40-43 | the length read from the packet is that of the added extension, for both length units |
| IPv6Layer.Layer.GetHeaderLen | app/src/main/cpp/include/pcapplusplus/IPv6Layer.h:174-177 | 40 plus the lengths of all extensions |
| IPv6Layer.Layer.GetExtensionOfType | app/src/main/cpp/include/pcapplusplus/IPv6Layer.h:203-210 | the first extension of the type, or null when there is none |
| IPv6Layer.BuildThenParse | app/src/main/cpp/include/pcapplusplus/IPv6Layer.h:212-241 | after any additions, some of which may fail, the parser recovers exactly the successful ones under the exact condition |
| ObjectPool.DynamicObjectPool.Construct | app/src/main/cpp/include/pcapplusplus/ObjectPool.h:34-42 | fails exactly when the initial size exceeds the maximum |
| ObjectPool.DynamicObjectPool.AcquireObjectRaw | app/src/main/cpp/include/pcapplusplus/ObjectPool.h:73-87 | the top of the stack, or a new object |
| ObjectPool.DynamicObjectPool.ReleaseObjectRaw | app/src/main/cpp/include/pcapplusplus/ObjectPool.h:106-120 | pooled exactly when the maximum is 2^64-1 or the stack is shorter than the maximum, deleted otherwise, within the maximum |
| ObjectPool.DynamicObjectPool.SetMaxSize | app/src/main/cpp/include/pcapplusplus/ObjectPool.h:137-148 | the loop keeps the bottom of the stack up to the new maximum and deletes each other object once |
| ObjectPool.DynamicObjectPool.Preallocate | app/src/main/cpp/include/pcapplusplus/ObjectPool.h:152-166 | fills up with new objects, or fails without change |
| ObjectPool.DynamicObjectPool.Clear | app/src/main/cpp/include/pcapplusplus/ObjectPool.h:169-177 | deletes every pooled object once |
| ObjectPool.FilledKeeps | app/src/main/cpp/include/pcapplusplus/ObjectPool.h:161-165 | preallocation keeps what is pooled and adds consecutive new objects up to the count |
| ObjectPool.EffectInNumbers | app/src/main/cpp/include/pcapplusplus/ObjectPool.h:73-177 | the effect of each kind of call as sizes and slices of the stack |
| PoolMachine.StepKeepsInv | app/src/main/cpp/include/pcapplusplus/ObjectPool.h:73-177 | every step of every thread keeps the pool invariant |
| PoolMachine.SafeWhenUnlocked | app/src/main/cpp/include/pcapplusplus/ObjectPool.h:73-177 | in every interleaving, whenever the mutex is free, pooled, held, in-transit and deleted objects are disjoint and all that were created, and a finite maximum is respected |
| PoolMachine.DeletesOnlyWhenFull | app/src/main/cpp/include/pcapplusplus/ObjectPool.h:106-120 | in every interleaving a release goes on to delete exactly when it found a finite pool at its maximum, which it leaves as it is, and pools the object otherwise |
| PoolMachine.NeverDeletedTwice | app/src/main/cpp/include/pcapplusplus/ObjectPool.h:106-148 | in every interleaving the sequence of delete calls has no repetition, and nothing deleted is held or pooled |
| PoolMachine.DeletesOnce | app/src/main/cpp/include/pcapplusplus/ObjectPool.h:106-148 | what a step deletes is appended to the deletions, was not deleted before, and is neither held nor in transit elsewhere |
| PoolMachine.HandsOutLive | app/src/main/cpp/include/pcapplusplus/ObjectPool.h:73-87 | what a step hands out was not held, is not deleted, pooled or in transit, and is held from then on |
| PoolMachine.HeldBetweenHandOutAndRelease | app/src/main/cpp/include/pcapplusplus/ObjectPool.h:73-120 | in every interleaving an object was handed out as often as released, and once more while it is held |
| PoolMachine.MutualExclusion | app/src/main/cpp/include/pcapplusplus/ObjectPool.h:75-75 | at most one thread is inside the mutex |
| PoolMachine.AtomicEffect | app/src/main/cpp/include/pcapplusplus/ObjectPool.h:73-177 | the pool as a thread leaves the mutex is its call's sequential effect on the pool as it took it, which the methods of the class are proved to have, and what it made is new |
| PoolMachine.Linearizable | app/src/main/cpp/include/pcapplusplus/ObjectPool.h:73-177 | every interleaving has the pool, the pooled objects handed out, the newly made pooled objects and the outstanding creations and deletions of its calls done one after another in the order in which they left the mutex |
| PoolMachine.OthersLeaveThePool | app/src/main/cpp/include/pcapplusplus/ObjectPool.h:180-182 | no other thread touches the pool meanwhile |
| PoolMachine.HolderProgresses | app/src/main/cpp/include/pcapplusplus/ObjectPool.h:137-177 | the holder can always go on, and gets nearer to freeing the mutex with each step |
| PoolMachine.NoDeadlock | app/src/main/cpp/include/pcapplusplus/ObjectPool.h:73-177 | while some thread is inside a call, some thread can go on |
| Asn1.RoundTrip | app/src/main/cpp/include/pcapplusplus/Asn1Codec.h:119-130 | decoding takes back exactly one encoded record tree, whatever follows |
| Asn1.PrefixFree | app/src/main/cpp/include/pcapplusplus/Asn1Codec.h:119-130 | no encoding begins another one |
| Asn1.EncodedOctets | app/src/main/cpp/include/pcapplusplus/Asn1Codec.h:119-130 | the first encoded octet in bits, the length octets most significant first and without leading zeros, and the value behind them |
| Asn1.DecodedOctets | app/src/main/cpp/include/pcapplusplus/Asn1Codec.h:119-130 | what any octets that decode say, in the same terms |
| Asn1.EncodeAllAppend | app/src/main/cpp/include/pcapplusplus/Asn1Codec.h:290-291 | the value of a constructed record is its sub-records one after another |
| Asn1.EncodableExactly | app/src/main/cpp/include/pcapplusplus/Asn1Codec.h:202-207 | a tree can be encoded exactly when its tags are legal and its size fits, and the size of its encoding |
| Asn1.LengthRoundTrip | app/src/main/cpp/include/pcapplusplus/Asn1Codec.h:203-207 | length octets decode to the length |
| Asn1.TotalLengthIsExact | app/src/main/cpp/include/pcapplusplus/Asn1Codec.h:311-312 | the two-case length formula gives the encoded size if and only if the value is shorter than 256 octets |
| Asn1.TotalLengthTooSmall | app/src/main/cpp/include/pcapplusplus/Asn1Codec.h:311-312 | a record with a value of 256 octets takes 260, and the formula gives 259 |
| Asn1.Asn1ConstructedRecord.constructor | app/src/main/cpp/include/pcapplusplus/Asn1Codec.h:296-313 | the copies are faithful, and what the two length fields hold |
| BigInt.RoundTrip | app/src/main/cpp/include/pcapplusplus/Asn1Codec.h:441-475 | printing and reading as a type returns the integer, or an error exactly when it does not fit |
| BigInt.CanFitExactly | app/src/main/cpp/include/pcapplusplus/Asn1Codec.h:456-459 | for every hex string canFit is right if and only if there are no surplus digits or one of them is not zero, and what it accepts always fits |
| BigInt.CanFitWithoutLeadingZeros | app/src/main/cpp/include/pcapplusplus/Asn1Codec.h:456-459 | without leading zeros the digit count decides whether the value fits |
| BigInt.ReadExactly | app/src/main/cpp/include/pcapplusplus/Asn1Codec.h:441-454 | every accepted hex string is read exactly, and which are accepted |
| BigInt.PrintedDigits | app/src/main/cpp/include/pcapplusplus/Asn1Codec.h:469-474 | each character printed is the ASCII digit of its power of 16, in lower case |
| BigInt.ReadDigits | app/src/main/cpp/include/pcapplusplus/Asn1Codec.h:441-454 | each character read gives the digit of its power of 16, in either case |
| BigInt.LeadingZerosRefused | app/src/main/cpp/include/pcapplusplus/Asn1Codec.h:456-459 | a value that fits is refused because of leading zeros |
| Tlv.WalkTiles | app/src/main/cpp/include/pcapplusplus/TLVData.h:238-289 | on arbitrary bytes the walk ends, stays inside, leaves no gap, and stops only where no record is left |
| Tlv.OptionsOnTheWire | app/src/main/cpp/include/pcapplusplus/DhcpLayer.h:450-490 | each walked DHCP, IPv6 or IPv4 option in octets: which types are single, what the length octet counts, the type and the value, and where the next one begins |
| Tlv.OptionsEnd | app/src/main/cpp/include/pcapplusplus/TLVData.h:238-289 | where the walk over options ends no option fits |
| Tlv.NflogOnTheWire | app/src/main/cpp/include/pcapplusplus/NflogLayer.h:94-99 | each walked NFLOG field in octets: length and type low octet first, and the padding to four |
| Tlv.NflogEnd | app/src/main/cpp/include/pcapplusplus/TLVData.h:238-289 | where the walk over NFLOG fields ends none fits |
| Tlv.RoundTrip | app/src/main/cpp/include/pcapplusplus/DhcpLayer.h:450-490 | walking serialised DHCP, IPv6 or IPv4 options gives back the list |
| Tlv.NeverEmpty | app/src/main/cpp/include/pcapplusplus/IPv6Extensions.h:192-226 | exactly which assignable records have size zero; no DHCP or IPv6 option does |
| Tlv.IPv4DataSizeExact | app/src/main/cpp/include/pcapplusplus/IPv4Layer.h:333-343 | the data size is that of the value if and only if the length octet is at least 2 |
| Tlv.HandedOutDataSize | app/src/main/cpp/include/pcapplusplus/IPv4Layer.h:333-343 | among the options the reader hands out it is wrong exactly for a length octet of 1 |
| Tlv.DataSizeWraps | app/src/main/cpp/include/pcapplusplus/IPv4Layer.h:333-343 | such an option and its data size |
| Tlv.NflogStaysAligned | app/src/main/cpp/include/pcapplusplus/NflogLayer.h:94-99 | every field of an NFLOG walk from an aligned offset is 4-aligned |
| Tlv.TLVRecordReader.GetTLVRecord | app/src/main/cpp/include/pcapplusplus/TLVData.h:297-312 | the first walked record of the type, or null when there is none |
| Tlv.TLVRecordReader.GetTLVRecordCount | app/src/main/cpp/include/pcapplusplus/TLVData.h:321-335 | the number of walked records, cached or counted |
| Tlv.TLVRecordReader.ChangeTLVRecordCount | app/src/main/cpp/include/pcapplusplus/TLVData.h:342-346 | told the true difference, the cache stays right |
| IPv4Values.GetValueAsIpList | app/src/main/cpp/include/pcapplusplus/IPv4Layer.h:217-243 | the words up to the first zero that the loop reads, each spelt by its four octets with the low one first, or the read behind the memory, whenever the loop ends |
| IPv4Values.UpToZeroIsLongest | app/src/main/cpp/include/pcapplusplus/IPv4Layer.h:234-235 | that is the longest prefix without a blank word, and the only one |
| IPv4Values.WordsListed | app/src/main/cpp/include/pcapplusplus/IPv4Layer.h:228-240 | whatever the length octet, the words read stand one behind the other, none is blank, and behind them is the end or four zero octets |
| IPv4Values.TimestampsListed | app/src/main/cpp/include/pcapplusplus/IPv4Layer.h:267-288 | the same for both lists of a timestamp, in turn for type 1 |
| IPv4Values.GetTimestampOptionValue | app/src/main/cpp/include/pcapplusplus/IPv4Layer.h:252-291 | the type, and the words that the loop reads dealt to the two lists, each spelt by its four octets |
| IPv4Values.TimestampsRebuild | app/src/main/cpp/include/pcapplusplus/IPv4Layer.h:270-288 | interleaving the two lists gives back the words, and their sizes differ by at most one |
| IPv4Values.LoopReadsValue | app/src/main/cpp/include/pcapplusplus/IPv4Layer.h:228-240 | for length octets from 2 on the cursor never wraps and the loop reads the whole words of the value up to the first zero, then at most one word that begins in left-over octets |
| IPv4Values.ReadsPastTheValue | app/src/main/cpp/include/pcapplusplus/IPv4Layer.h:217-291 | for every option, it reads past the value exactly when the length octet is below 2, or octets are left over and no word before them is zero |
| IPv4Values.PastTheValue | app/src/main/cpp/include/pcapplusplus/IPv4Layer.h:217-243 | two options the reader hands out past whose values it reads |
| IPv4Values.WholeWordsOnly | app/src/main/cpp/include/pcapplusplus/IPv4Layer.h:230-240 | a value of whole words is read to its end and never past it, wherever the memory ends |
| IPv4Values.NothingBehindMatters | app/src/main/cpp/include/pcapplusplus/IPv4Layer.h:230-240 | whenever the value alone is enough, what lies behind it makes no difference |
| IPv4Values.EndsExactly | app/src/main/cpp/include/pcapplusplus/IPv4Layer.h:226-240 | with the huge data size of a length octet below 2, the loop ends exactly when one of the 64 words in its cycle is zero or not in memory, and what it then returns |
| IPv4Values.NeverEnds | app/src/main/cpp/include/pcapplusplus/IPv4Layer.h:226-240 | an option the reader hands out on which the loop never ends |
| Alignment.LeastMultiple | app/src/main/cpp/include/pcapplusplus/GeneralUtils.h:49-56 | for every number, negative ones too, the least multiple of the alignment not below it |
| Alignment.OverflowsExactly | app/src/main/cpp/include/pcapplusplus/GeneralUtils.h:49-56 | on an int the addition overflows exactly when that multiple fits no int |
| Alignment.ClearLowBits | app/src/main/cpp/include/pcapplusplus/GeneralUtils.h:55-55 | bit by bit, masking clears the low bits and keeps the others |
| Alignment.Idempotent | app/src/main/cpp/include/pcapplusplus/GeneralUtils.h:49-56 | aligning twice is aligning once |
| Alignment.Monotone | app/src/main/cpp/include/pcapplusplus/GeneralUtils.h:49-56 | larger numbers align to no less |
| LayerChain.Layer.ConstructNextLayer | app/src/main/cpp/include/pcapplusplus/Layer.h:208-219 | links a new layer behind this one, or fails without change when one is there |
| LayerChain.Layer.TryConstructNextLayerWithFallback | app/src/main/cpp/include/pcapplusplus/Layer.h:234-243 | the layer type if its data is valid, else the fallback |
| LayerChain.Packet.GetNextLayerOfType | app/src/main/cpp/include/pcapplusplus/Packet.h:356-368 | the nearest later layer of the type, or null |
| LayerChain.Packet.GetPrevLayerOfType | app/src/main/cpp/include/pcapplusplus/Packet.h:370-382 | the nearest earlier layer of the type, or null |
| LayerChain.Packet.GetLayerOfType | app/src/main/cpp/include/pcapplusplus/Packet.h:339-354 | the first layer of the type, or in reverse the last |
| LayerChain.NextOfIsFirst | app/src/main/cpp/include/pcapplusplus/Packet.h:361-365 | the forward search skips no match |
| LayerChain.PrevOfIsLast | app/src/main/cpp/include/pcapplusplus/Packet.h:375-379 | the backward search skips no match |
| LayerChain.EnumerationsAgree | app/src/main/cpp/include/pcapplusplus/Packet.h:339-382 | repeated forward search enumerates exactly the matches, repeated backward search the same in reverse |
| LayerChain.CollectForward | app/src/main/cpp/include/pcapplusplus/Packet.h:339-368 | a caller iterating the packet's own forward searches gets exactly the matching layers in order |
| LayerChain.CollectBackward | app/src/main/cpp/include/pcapplusplus/Packet.h:339-382 | iterating the backward searches gives the same layers in reverse |

## Left out

- The application's own JNI and Kotlin code: string and array conversion, clocks and calls into library code that is not in the repository.
- Parsing of packets into IP headers and hash values: a fragment arrives with its key, first and last flags, offset and payload, and the hash is a parameter; two keys with the same hash share a record, as in the code.
- The bytes of a reassembled packet in front of its IP payload, and the header fields that completion rewrites.
- parseUntil parameters, the user cookie and the raw-packet overload of processPacket: passed through or only parsing.
- PoolMachine: memory exhaustion in `new` is not modelled, and the destructor is a call of clear.
- Asn1.Asn1ConstructedRecord.constructor: does not take sub-records with tag types from 31 on, because how these are encoded is not in the repository; the record itself may have any.
- Asn1: the encoding of tag types from 31 on, which need more than the one identifier octet, indefinite lengths, lazy decoding, and the value formats of the typed primitive records, whose encoders are not in the repository.
- BigInt: a string that is not hexadecimal and the empty default value.
- setValueString and getValueAsString of DHCP options: single copies into and out of a record.
- Insertion and removal of layers and extensions in finished packets, whose bodies are not in the repository.
- Ownership of memory, logging, string formatting, and the many protocol layers that are enumerations and declarations here.
