# Models of the network stack and the AX88796 driver

This project models the hardest parts of a VxWorks 5 network stack, which descends from 4.4BSD, and
of an Ethernet driver, and proves what they are for. `dafny verify dfyconfig.toml` checks it all.

Code that works by changing things step by step is written here as methods over arrays, linked
objects and classes, with the loops the source has; each is proved against a function that says what
it computes, and the theorems are about those functions and about whole runs.

- **Fragments.** `Reassembly` is the fragment list of one datagram as values; `FragmentQueue` proves
  the linked-list code of ipReAssemble against it; `IpInput` is the table of queues with its timer as
  values, and `IpQueues` the same with every queue on the heap;
  `IpOutput` cuts datagrams up and copies options; `RoundTrip` joins them end to end (sections 3.1
  and 3.2 of RFC 791).
- **Checksum.** `Checksum` is the portable in_cksum against sections 1 and 2 of RFC 1071.
- **DES.** `DesFips` is the cipher of FIPS 46-3 bit by bit, with the salt and iteration of crypt(3);
  `DesTables` its tables and those of crypt.c. `DesPermute`, `DesSchedule`, `DesInit`, `DesSpe`,
  `DesRound` and `DesCipher` are crypt.c from init_perm to encrypt; `DesInverse` shows that
  deciphering undoes enciphering. `DesKnown` works out a known answer, and `DesCriteria` shows what
  holds of the tables beyond their entries.
- **Sockets.** `PcbTable` is in_pcb.c on values and over runs; `InPcb` is its list and hash chains.
- **PPP.** `ChapSpec` and `ChapReplies` are CHAP (section 4.1 of RFC 1994) and the authentication
  phase over runs, `ChapHandshake` two units that talk to each other; `Chap` is chap.c and auth.c with
  their fields.
- **Driver.** `TxRing` is the transmit ring against the chip, `Crc` and `McastFilter` the CRC and the
  hash filter computed with it.
- **Small things.** `GatherCopy` is copyFromMbufs, `SourceRoute` loose source routing and the route
  back. `CTypes` holds the integer widths.

## Where the code does not do what it should

- `vxworks_test/netinet/ip_input.c:550` reads `ip_off`, a `short`, without the cast that the other
  comparisons have, although the change log at line 48 of the file tells of a fix for large offsets.
  A fragment placed before one that starts at 32768 or later is cut to nothing.
  `Reassembly.OkIffSafe` says exactly when, `Reassembly.SignExtensionLosesData` shows a datagram handed
  up without most of its data. The round trip is therefore stated with that guard, and without it for
  datagrams of at most 32768 bytes; `RoundTrip.EndToEndIff` shows that the guard is exact.
- `vxworks_test/netinet/ppp/auth.c:149-152` calls die() when the peer refuses to authenticate itself, and
  goes on if it returns. On a passive or silent unit it does, with LCP closed, and if nothing is demanded
  of either side IPCP is opened: `ChapSpec.RefusedPeerGetsIn`. `ChapSpec.NetworkIffNoBackdoor` shows that
  this is the only way to the network phase without authorization.
- After ChapProtocolReject the server is in its initial state but still knows its last challenge, and in
  that state ChapReceiveResponse does not refuse a Response. LCP is still open then if the server was not
  active: `ChapReplies.RejectionForgets` is such a run, and `ChapReplies.UniformIffAgreeing` shows that
  statuses contradict each other in no other way.
- `need_pages` in the driver is an unsigned char: `TxRing.NeedIsExact` says from which length on it is
  too small. A frame longer than 7936 bytes can jam an empty ring: `TxRing.JamsIff` says exactly when, and
  `TxRing.JamLasts` that only a reset ends it. No Ethernet frame is that long.
- `ax88796end.c:995-999` of the driver returns with all interrupts masked: `TxRing.MaskedUntilOffered`.
- `vxworks_test/netinet/ip_input.c:763` subtracts a size_t from the length of a source route option:
  `SourceRoute.EndsIff` and `SourceRoute.ShortOptionGoesBeyond` say what that does to an option shorter
  than an address.
- `vxworks_test/netinet/in_pcb.c:311-329` may leave a block that only one of the two searches finds:
  `PcbTable.UnaddressedDisagrees` is such a run. `PcbTable.LookupsAgreeIff` says exactly which connects and
  binds do that to a block with a port: those that leave it with a foreign port but no foreign address, or
  with a foreign address but no local one, because an interface has no address or there is no interface.
- `vxworks_test/netinet/in_pcb.c:320-325` looks for a block with the four numbers of a new connection before
  it binds an unbound one, and so with port 0. `PcbTable.ReuseClashes` is a run that leaves two connections
  with the same four numbers; `PcbTable.QuadsApartIff` says exactly which runs do.

## Assumptions

- The machine is little-endian where in_pcb.c swaps ports and tests addresses; `Checksum` takes the byte
  order as a parameter.
- `len` of in_cksum is at most 65535, the most that an IP datagram has; within it the C `int` is read as
  the unsigned pattern that REDUCE reads.
- `ip_len` is the unsigned 16-bit field of `target/h/netinet/ip.h:108` and `ip_off` the `short` of line 110;
  the data that `Reassembly.SignExtensionLosesData` loses would be lost with a `short` ip_len too.
- m_adj, m_cat, m_copy and the list macros do what their names say; m_adj stops at an empty buffer. An
  allocation that may fail is a parameter. Routing is a parameter too: an address for the outgoing
  interface or none.
- A socket's options and the interfaces may change at any time, except where a theorem says otherwise.
- LCP passes CHAP packets and Protocol-Rejects on only while it is open, as
  `vxworks_test/netinet/ppp/pppLib.c:1325-1329` does, and PAP reports success only then: upap.c is not part
  of this model. Timers are not tracked: any may go off at any time, which allows more than the code does,
  and IPCP or PAP may call die() at any time. A unit takes no events once die() has ended the process.
- The chip sends frames in order, raises an interrupt for each, and shows in CTEPR the end page of the
  last one sent, 0 before the first; a reset empties it.
- The I/O buffer of copyFromMbufs is aligned and has room for whole units; reading past an mbuf's data by
  less than a unit yields some bytes.

## Model

| member | source | states |
|---|---|---|
| `RoundTrip.EndToEnd` | vxworks_test/netinet/ip_output.c:349-428 | however the routes cut a datagram into fragments and fragments of fragments, whatever padding the frames add, and however these arrive, repeat, overlap and mix with other traffic, over any number of completions and as long as the guard of Reassembly.Safe holds and no queue times out: an arrival is answered exactly when it completes the coverage since the last answer, and the answer is the original datagram, header, options and payload |
| `RoundTrip.EndToEndIff` | vxworks_test/netinet/ip_input.c:547-554 | the guard is exact: after any guarded run the next fragment is answered with the original datagram if and only if it completes the coverage and the guard holds for it too |
| `RoundTrip.EndToEndUnguarded` | vxworks_test/netinet/ip_input.c:474-611 | the same with no guard for datagrams of at most 32768 data bytes, which the sign extension cannot reach |
| `RoundTrip.WholeArrives` | vxworks_test/netinet/ip_input.c:266-278 | a datagram that was not cut up is handed up at once, with its own header and payload and without the padding of its frame, and disturbs no queue |
| `RoundTrip.ReachedHeaders` | vxworks_test/netinet/ip_output.c:368-391 | however often it was cut, a fragment has the header of the datagram, with all its options if it begins the data and otherwise with exactly those to be copied |
| `RoundTrip.AllFragmentsComplete` | vxworks_test/netinet/ip_output.c:364-428 | the fragments of one transmission, each arriving once in any order, do cover the datagram |
| `RoundTrip.ReachedArePieces` | vxworks_test/netinet/ip_output.c:364-428 | whatever a sequence of MTUs leaves of an honest fragment is again an honest fragment of the same payload |
| `Reassembly.InsertKeeps` | vxworks_test/netinet/ip_input.c:509-559 | one arrival keeps the list whole, sorted and without overlaps, drops the new fragment only if it leaves the list untouched, and position by position the list then holds the new fragment's bytes below the cut and the old bytes elsewhere |
| `Reassembly.OkIffSafe` | vxworks_test/netinet/ip_input.c:547-554 | an arrival keeps the list well formed if and only if the fragment in front of which it is placed, if there is one, starts below 32768 |
| `Reassembly.SignExtensionLosesData` | vxworks_test/netinet/ip_input.c:548-556 | three fragments of a 40000-byte datagram, none longer than 16384 bytes, arrive last, middle, first, and are handed up as 40000 bytes without the middle 16384 |
| `Reassembly.CompleteIffHolds` | vxworks_test/netinet/ip_input.c:561-605 | the scan finds the list complete exactly when every byte of the payload is held, and the packet then built is one header followed by the payload |
| `Reassembly.RoundTrip` | vxworks_test/netinet/ip_input.c:474-611 | over any guarded run of arrivals for one datagram, through any number of completions, an output appears exactly when the coverage since the last one is complete, is the whole payload, and ends the queue |
| `Reassembly.AnswerHasHeader` | vxworks_test/netinet/ip_input.c:574-603 | if the fragments that begin the data all have one header, the datagram handed up is that header followed by the payload |
| `Reassembly.AnsweredIff` | vxworks_test/netinet/ip_input.c:547-611 | at the end of a guarded run the next arrival is answered with the payload if and only if it completes it and the guard holds once more |
| `Reassembly.UnguardedGuts` | vxworks_test/netinet/ip_input.c:547-554 | an arrival without the guard that starts before its successor leaves a fragment in the list that has lost its header and data but keeps a positive length |
| `Reassembly.SameStartAddsNothing` | vxworks_test/netinet/ip_input.c:547-572 | one that starts where its successor does is cut to no bytes and changes neither what the scan says nor the last fragment |
| `Reassembly.GatherRun` | vxworks_test/netinet/ip_input.c:509-559 | over every guarded run the queue holds exactly the bytes that have arrived since the last completion, whatever the order, duplicates and overlaps |
| `Reassembly.QueueRestarts` | vxworks_test/netinet/ip_input.c:593-594 | a datagram handed up leaves nothing behind: later arrivals meet a queue as if it were new |
| `Reassembly.LowOffsetsAreSafe` | vxworks_test/netinet/ip_input.c:536-554 | fragments that all start below 32768 never meet the missing cast |
| `FragmentQueue.Queue.InsertFragment` | vxworks_test/netinet/ip_input.c:509-559 | the loop over the m_nextpkt links leaves exactly the list of InsertKeeps, and drops the same fragments |
| `FragmentQueue.Queue.SwallowFrom` | vxworks_test/netinet/ip_input.c:535-546 | unlinking through pPtrMbuf removes exactly the leading fragments that the new one covers to their end |
| `FragmentQueue.Queue.PlaceAt` | vxworks_test/netinet/ip_input.c:533-558 | the new mbuf is linked in with its tail cut as the code cuts it, the uncast offset included |
| `FragmentQueue.Queue.CheckReAssembly` | vxworks_test/netinet/ip_input.c:561-572 | the scan of the linked list answers Complete and the total length |
| `FragmentQueue.Queue.Concatenate` | vxworks_test/netinet/ip_input.c:574-603 | the first mbuf ends up holding its header and every fragment's data in order |
| `FragmentQueue.ReAssemble` | vxworks_test/netinet/ip_input.c:474-611 | the whole routine on the heap refines Arrive: same queue left, same datagram returned, and with no memory for a header only the fragment is lost |
| `IpQueues.Table.Ipintr` | vxworks_test/netinet/ip_input.c:407-446 | the reassembly part of ipintr on a table of heap queues that share no mbuf: which queue a packet joins, what is handed up and that no queue holds it any more, the table left, and that a fragment is lost when its queue header cannot be allocated; what the fragments keep of longer frames is fixed by IpintrAfter |
| `IpQueues.Table.AddTo` | vxworks_test/netinet/ip_input.c:474-611 | ipReAssemble on one queue of the table leaves the fragments of every other queue alone |
| `IpQueues.Table.IpintrAfter` | vxworks_test/netinet/ip_input.c:407-446 | the heap code on a host that has been through any events: a fragment that carries its part of a payload in front of any padding is, under the guard, answered exactly when it completes the payload anew, and with that payload |
| `IpQueues.Table.SlowTimoAfter` | vxworks_test/netinet/ip_input.c:653-674 | a timer tick takes a host that has been through some events to one that has been through one more |
| `IpQueues.Table.SlowTimo` | vxworks_test/netinet/ip_input.c:653-674 | each queue loses a tick, exactly those that reach 0 are freed, and the others stay as they are |
| `IpInput.StepIsolated` | vxworks_test/netinet/ip_input.c:412-420 | one event does to the queue of every datagram what it does to that queue alone, and there is never a second queue for a datagram nor an empty one |
| `IpInput.RunIsolated` | vxworks_test/netinet/ip_input.c:407-446 | over every run interleaved datagrams never mix |
| `IpInput.AloneIsQueue` | vxworks_test/netinet/ip_input.c:474-501 | a queue that is not kept waiting for its lifetime holds what its arrivals make of it and has exactly the ticks left that it has not waited, a lifetime of 0 counting as 256 |
| `IpInput.LiveRoundTrip` | vxworks_test/netinet/ip_input.c:407-446 | amid any other traffic, lost queue headers and timer ticks that let no queue expire, a packet whose bytes from its header to ip_len are the part of a payload at its offset is answered with the payload exactly when it completes it anew, whatever follows those bytes, under the same guard |
| `IpInput.CarriedIsPiece` | vxworks_test/netinet/ip_input.c:266-278 | of a packet longer than ip_len, the first ip_len bytes are what ipReAssemble gets |
| `IpInput.ExpiresAtLifetime` | vxworks_test/netinet/ip_input.c:653-674 | a queue that has waited one tick less than its lifetime is gone after the next |
| `IpInput.ReservedFlagEndsQueue` | vxworks_test/netinet/ip_input.c:407-446 | a packet with the reserved flag that is no fragment is handed up, and frees the queue of its key and no other |
| `IpOutput.OutputPartitions` | vxworks_test/netinet/ip_output.c:357-428 | what ip_output sends is the datagram itself or a partition of it: contiguous from the original offset, each part within the MTU, all but the last a multiple of 8 bytes and as long as the MTU allows, MF clear only on the last and only if it was clear before; each has the header of the datagram, the first with all its options, the others with the copied ones and the no-operations, filled up to a multiple of 4 |
| `IpOutput.SentUnlessTooBig` | vxworks_test/netinet/ip_output.c:348-364 | a datagram is refused if and only if it is longer than the MTU and has DF set or an MTU without room for its header and 8 bytes; every other is sent |
| `IpOutput.KeptAgain` | vxworks_test/netinet/ip_output.c:509-541 | options kept of kept options are those kept of the original: cutting a fragment again loses none |
| `IpOutput.OffsetIsExact` | vxworks_test/netinet/ip_output.c:384-391 | a fragment's offset field tells its place if and only if that place is below 65536, and then the flags survive the arithmetic on the packed field |
| `IpOutput.BuildPiece` | vxworks_test/netinet/ip_output.c:368-405 | one round of the loop builds the fragment of OutputPartitions with its options, field and data, shortening the last |
| `IpOutput.BuildPieces` | vxworks_test/netinet/ip_output.c:359-412 | the loop allocates and builds all later fragments, and fails exactly when headers run out or a copy fails |
| `IpOutput.Send` | vxworks_test/netinet/ip_output.c:348-428 | the answer for every MTU, DF flag, number of free headers and number of copies that succeed |
| `IpOutput.CopiesExactly` | vxworks_test/netinet/ip_output.c:509-541 | of any list of options, those with a length byte of 1 included, ip_optcopy keeps exactly the copied ones and the no-operations, in order |
| `IpOutput.EveryBlockIsEncoded` | vxworks_test/netinet/ip_output.c:519-534 | every options block that ip_dooptions lets through is such a list followed by nothing or an end-of-options byte |
| `IpOutput.OptCopy` | vxworks_test/netinet/ip_output.c:509-541 | the copying loop computes the kept options, padded with end-of-options to a multiple of 4 |
| `IpOutput.CopyFits` | vxworks_test/netinet/ip_output.c:538-540 | the copy is no longer than the original options and can itself be copied again |
| `Checksum.InCksum` | vxworks_test/netinet/in_cksum.c:63-163 | for every chain, empty and one-byte buffers and buffers at odd addresses included, the unrolled, byte-swapping sum is the complement of the ones' complement sum of RFC 1071, the accumulator staying below 2^32 |
| `Checksum.SumBuffer` | vxworks_test/netinet/in_cksum.c:83-150 | one buffer, whatever its address and whatever byte the one before left pending, adds its bytes to the sum |
| `Checksum.AddSixteens` | vxworks_test/netinet/in_cksum.c:120-127 | the sixteen-word unrolled loop adds the same words |
| `Checksum.SumShifted` | vxworks_test/netinet/in_cksum.c:108-149 | a buffer at the wrong parity is summed with its bytes swapped and shifted back |
| `Checksum.StoredChecksumVerifies` | vxworks_test/netinet/in_cksum.c:161-162 | a checksum stored in its zeroed field at an even offset makes the checksum 0 |
| `Checksum.OnlyTheChecksumVerifies` | vxworks_test/netinet/in_cksum.c:161-162 | no other value of the field does, except that 0 and 0xffff stand for each other |
| `Checksum.ByteOrderIndependent` | vxworks_test/netinet/in_cksum.c:154-162 | on a machine of the other byte order the result is the same two bytes |
| `DesPermute.InitPerm` | vxworks_test/netinet/ppp/crypt.c:850-870 | the table built from any transformation vector has in entry [i][j] exactly the output bits whose source is a set bit of j in chunk i |
| `DesPermute.Permute` | vxworks_test/netinet/ppp/crypt.c:297-316 | lookup by nibbles with any such table puts input bit p[k]-1, or 0 where p[k] is 0, at output bit k |
| `DesSchedule.Pc1RotStarts` | vxworks_test/netinet/ppp/crypt.c:720-742 | PC1ROT applied to a key gives the halves of round 1 of FIPS 46-3, packed with the bits that PC2 drops |
| `DesSchedule.Pc2RotContinues` | vxworks_test/netinet/ppp/crypt.c:747-766 | PC2ROT applied to any packed halves rotates them, the dropped bits coming along |
| `DesSchedule.DropLowOfPack` | vxworks_test/netinet/ppp/crypt.c:565-571 | masking the low bits leaves the subkey that PC2 chooses |
| `DesSchedule.Pc1RotVector` | vxworks_test/netinet/ppp/crypt.c:723-738 | the vector computed for PC1ROT is bit reversal, PC1, rotation and PC2 in one |
| `DesSchedule.Pc2RotVector` | vxworks_test/netinet/ppp/crypt.c:748-766 | the vector computed for PC2ROT inverts PC2, rotates and applies PC2 again |
| `DesInit.IeVector` | vxworks_test/netinet/ppp/crypt.c:768-787 | the vector computed for IE3264 is the initial permutation and the expansion in one |
| `DesInit.IeEnters` | vxworks_test/netinet/ppp/crypt.c:611-624 | the even and odd input bits, permuted by IE3264, are the two halves of FIPS 46-3 after its initial permutation, expanded |
| `DesInit.CfVector` | vxworks_test/netinet/ppp/crypt.c:789-806 | the vector computed for CF6464 inverts the compression followed by IP |
| `DesInit.CfLeaves` | vxworks_test/netinet/ppp/crypt.c:683-688 | compression and CF6464 give the final permutation of the halves that the expanded words hold |
| `DesSpe.BuildSpe` | vxworks_test/netinet/ppp/crypt.c:808-839 | every SPE entry holds, in the expanded order, the bits that its S box sets after P |
| `DesRound.SaltedBits` | vxworks_test/netinet/ppp/crypt.c:658-661 | masking and exclusive or with salt and subkey equals the salted swap and the key addition on 48 bits |
| `DesRound.DoXor` | vxworks_test/netinet/ppp/crypt.c:655-656 | one table lookup adds exactly one box's bits |
| `DesRound.Crunch` | vxworks_test/netinet/ppp/crypt.c:658-675 | eight lookups leave the expansion of l xor f(r, k), f being the cipher function of FIPS 46-3 with the salt |
| `DesCipher.Crypt.InitDes` | vxworks_test/netinet/ppp/crypt.c:705-840 | all tables are filled from zero so that each represents its vector |
| `DesCipher.Crypt.DesSetKey` | vxworks_test/netinet/ppp/crypt.c:550-573 | KS holds the sixteen subkeys of FIPS 46-3 for the key, whether or not the tables were ready |
| `DesCipher.Crypt.SixteenRounds` | vxworks_test/netinet/ppp/crypt.c:643-678 | eight times two CRUNCHes are the sixteen rounds, walking the subkeys forwards or backwards |
| `DesCipher.Crypt.Iterations` | vxworks_test/netinet/ppp/crypt.c:626-683 | the loop over the iterations, in either direction, with the halves exchanged after each |
| `DesCipher.Crypt.DesCipher` | vxworks_test/netinet/ppp/crypt.c:584-698 | the result is num_iter iterations of salted DES on the block, with the schedule reversed if num_iter is negative; of a salt of either sign its low 24 bits count |
| `DesCipher.Crypt.SetKey` | vxworks_test/netinet/ppp/crypt.c:875-889 | setkey packs the chars, first bit highest, and fills KS for that key |
| `DesCipher.Crypt.Encrypt` | vxworks_test/netinet/ppp/crypt.c:895-922 | encrypt leaves in place the block enciphered or deciphered |
| `DesCipher.XorSwap` | vxworks_test/netinet/ppp/crypt.c:680-682 | three exclusive ors exchange the halves |
| `DesCipher.EncryptRestores` | vxworks_test/netinet/ppp/crypt.c:895-922 | encrypt with the flag one way and then the other restores every block under every key |
| `DesInverse.CipherUndoes` | vxworks_test/netinet/ppp/crypt.c:626-641 | -n iterations undo n, for every block, subkeys, salt and n of either sign |
| `DesInverse.RoundsUndo` | vxworks_test/netinet/ppp/crypt.c:643-682 | sixteen rounds with the reversed schedule take sixteen rounds back |
| `DesKnown.KnownAnswer` | vxworks_test/netinet/ppp/crypt.c:584-698 | one iteration with the key 133457799BBCDFF1 takes the block 0123456789ABCDEF to 85E813540F0AB405, the answer known for them |
| `DesCriteria.RowsArePermutations` | vxworks_test/netinet/ppp/crypt.c:375-416 | every row of every S box has each of the numbers 0 to 15 once |
| `DesCriteria.OneBitInTwoBitsOut` | vxworks_test/netinet/ppp/crypt.c:375-416 | whatever the 48 bits, changing one changes at least two of the four bits that its S box gives, and no others |
| `DesCriteria.SaltExchanges` | vxworks_test/netinet/ppp/crypt.c:658-661 | a salt of one bit exchanges two of the 48 bits and leaves the others, one of all 24 exchanges the halves |
| `DesCriteria.EveryKeyBitIsUsed` | vxworks_test/netinet/ppp/crypt.c:346-356 | PC1 takes every bit of the key but the eight parity bits exactly once |
| `DesCriteria.HalvesReturn` | vxworks_test/netinet/ppp/crypt.c:358-361 | the sixteen rotations bring both halves of the key back to where PC1 put them |
| `PcbTable.LookupsAgreeIff` | vxworks_test/netinet/in_pcb.c:519-630 | over every run of sockets that neither share ports nor listen, the hashed and the scored search agree throughout on whether a datagram for a port finds a pcb if and only if every connect that succeeds has a target and a local address or leaves its block without a port, and no bind gives a port to a block without them |
| `PcbTable.AgreeingIffSound` | vxworks_test/netinet/in_pcb.c:519-630 | where bindings are distinct, they agree on all datagrams for a port if and only if every block with a port has no foreign port when unconnected and a local address when connected |
| `PcbTable.LookupsAgree` | vxworks_test/netinet/in_pcb.c:519-630 | with any sockets, after a run that meets that condition they both find a pcb or neither does, and with the same number of wildcards; after a run of addressed connects also for port 0 |
| `PcbTable.StepPortedIff` | vxworks_test/netinet/in_pcb.c:99-366 | an event keeps every block with a port so if and only if it is no unaddressed connect of a block with a port and no bind of such a block |
| `PcbTable.UnaddressedDisagrees` | vxworks_test/netinet/in_pcb.c:203-330 | a run of three events from an empty table: a socket is bound, the interfaces go, it is connected to the wildcard address, and only the scored search finds it |
| `PcbTable.SamePcb` | vxworks_test/netinet/in_pcb.c:519-630 | on that condition, if no socket shares ports or listens, they find the very same pcb |
| `PcbTable.Best` | vxworks_test/netinet/in_pcb.c:533-566 | the scored search returns a match with the fewest wildcards, or none if there is none |
| `PcbTable.BindingsAreDistinct` | vxworks_test/netinet/in_pcb.c:99-174 | if no socket sets SO_REUSEADDR or SO_REUSEPORT and none listens, two bound pcbs with one port have different local addresses, neither a wildcard, in every reachable state |
| `PcbTable.ConnectKeepsDistinct` | vxworks_test/netinet/in_pcb.c:305-333 | filling in a local address at connect keeps that |
| `PcbTable.ConnectSoundIff` | vxworks_test/netinet/in_pcb.c:305-333 | a successful connect keeps unconnected blocks without a foreign port and connected ones with a local address if and only if its target is not the wildcard and the block has a local address or is given one that is not |
| `PcbTable.RunSoundIff` | vxworks_test/netinet/in_pcb.c:320-345 | all blocks, with or without a port, are so in every state along a run if and only if every connect that succeeds meets that condition |
| `PcbTable.EphemeralIffFree` | vxworks_test/netinet/in_pcb.c:162-170 | the port loop ends within one cycle of the range, from any lastport, exactly when some port of the range is free, and otherwise never ends |
| `PcbTable.FindPort` | vxworks_test/netinet/in_pcb.c:162-170 | the port it ends with is in the range and free |
| `PcbTable.ChosenPort` | vxworks_test/netinet/in_pcb.c:162-170 | a port that bind chooses is, read in network order, the new lastport, within 1024 to 5000 |
| `PcbTable.BindsIff` | vxworks_test/netinet/in_pcb.c:99-160 | which binds to a port succeed: a plain socket's if and only if no pcb has the port at an address that could be the same; that of a socket with SO_REUSEADDR, or listening on a connection protocol, if no unconnected pcb has just that binding; and any with SO_REUSEPORT, or SO_REUSEADDR for a multicast address, if all others on the port asked likewise |
| `PcbTable.BoundWasBindable` | vxworks_test/netinet/in_pcb.c:99-160 | a bind that succeeds was of a pcb not bound before, with an interface up, to no name or to one of the right size whose address is local, multicast or none, and gave it that address and port |
| `PcbTable.BindingStays` | vxworks_test/netinet/in_pcb.c:77-366 | no event changes a port or local address that a pcb has, and only a connect or disconnect of that pcb its foreign side |
| `PcbTable.SharersAsked` | vxworks_test/netinet/in_pcb.c:99-160 | over every run of allocations and binds, of sockets of any kind, two pcbs with one address and port both asked to share it |
| `PcbTable.InUseIff` | vxworks_test/netinet/in_pcb.c:316-323 | when the earlier checks pass, connect answers EADDRINUSE if and only if some pcb has the four numbers asked for |
| `PcbTable.ConnectIsAlone` | vxworks_test/netinet/in_pcb.c:316-329 | after a successful connect of a pcb that was bound, no other has its four numbers |
| `PcbTable.QuadsApartIff` | vxworks_test/netinet/in_pcb.c:305-333 | over every run from an empty table connected pcbs have different quadruples throughout if and only if no connect binds its pcb, and no bind a connected pcb, to a port with which another has the quadruple |
| `PcbTable.PlainQuadsApart` | vxworks_test/netinet/in_pcb.c:305-333 | so they do if no socket sets SO_REUSEADDR or SO_REUSEPORT and none listens |
| `PcbTable.ReuseClashes` | vxworks_test/netinet/in_pcb.c:320-329 | a run of five events in which they do not: connect looks the quadruple up with port 0 and only then binds, and a socket with SO_REUSEADDR is given the port of a connection to the same place |
| `PcbTable.AnswersItsPeer` | vxworks_test/netinet/in_pcb.c:203-221 | a connected pcb takes datagrams from the address asked for alone, or from the first interface's own or broadcast address where 0.0.0.0 or 255.255.255.255 was asked for |
| `PcbTable.AnswersAnyone` | vxworks_test/netinet/in_pcb.c:335-366 | after a disconnect a pcb whose socket is held keeps its binding and takes datagrams from anywhere; another is gone from the table and nothing else is |
| `InPcb.PcbInfo.Lookup` | vxworks_test/netinet/in_pcb.c:519-568 | the loop over the list computes the scored search |
| `InPcb.PcbInfo.LookupHash` | vxworks_test/netinet/in_pcb.c:573-630 | the two chain searches find a block of the best grade, and moving it to the head keeps every block on its own chain exactly once |
| `InPcb.PcbInfo.Rehash` | vxworks_test/netinet/in_pcb.c:647-662 | a block whose addresses changed is moved to the chain they hash to |
| `InPcb.PcbInfo.Alloc` | vxworks_test/netinet/in_pcb.c:77-97 | a new block is in front of the list and on its chain |
| `InPcb.PcbInfo.FindPort` | vxworks_test/netinet/in_pcb.c:162-170 | the do-while loop with its lookups terminates and leaves lastport and lport as specified |
| `InPcb.PcbInfo.Bind` | vxworks_test/netinet/in_pcb.c:99-174 | every outcome of in_pcbbind, errors included, and the state left |
| `InPcb.PcbInfo.Connect` | vxworks_test/netinet/in_pcb.c:305-333 | every outcome of in_pcbconnect, with the implicit bind and its ignored error, and the state left, with or without interfaces |
| `InPcb.PcbInfo.Disconnect` | vxworks_test/netinet/in_pcb.c:335-345 | the block loses its foreign side, and is detached if nothing refers to its socket |
| `InPcb.PcbInfo.Detach` | vxworks_test/netinet/in_pcb.c:347-366 | the block leaves the list and its chain and everything else stays |
| `ChapSpec.NetworkIffNoBackdoor` | vxworks_test/netinet/ppp/auth.c:129-268 | in every run, at every moment: the phase is NETWORK if and only if LCP is open, everything that link_established demanded has since been shown (a peer that was to use CHAP has answered a challenge drawn since then with the right digest) and the peer has not refused what it had to do, and ipcp_open is called by the event that brings that about and never without it; all that if and only if LCP never comes up with a refusing peer, nothing demanded, on a unit whose die() returns |
| `ChapSpec.AuthorizedEnters` | vxworks_test/netinet/ppp/auth.c:195-268 | in every run whatsoever, whenever that is so the phase is NETWORK, and the event that made it so opened IPCP |
| `ChapSpec.StepIsDue` | vxworks_test/netinet/ppp/auth.c:195-268 | every event keeps the invariant behind that: what is pending is what was demanded and not yet shown, and a peer that has yet to show itself by CHAP has its first challenge outstanding |
| `ChapSpec.RefusedPeerGetsIn` | vxworks_test/netinet/ppp/auth.c:137-176 | such a run: auth_required, neither CHAP nor PAP negotiated, a passive unit; die() closes LCP and returns, and link_established enters NETWORK and opens IPCP |
| `ChapSpec.StepKeepsGuarded` | vxworks_test/netinet/ppp/auth.c:195-268 | every event keeps the invariant behind that, whatever the interleaving of retransmissions, rechallenges, our own authentication and link drops |
| `ChapReplies.UniformIffAgreeing` | vxworks_test/netinet/ppp/chap.c:419-534 | over every run, all statuses between two drawings of a challenge carry one code if and only if no Response to a challenge already answered comes, after a Protocol-Reject taken with LCP still open, with a digest that earns the other answer; and at most max_transmits challenges are sent between two drawings |
| `ChapReplies.Unanswered` | vxworks_test/netinet/ppp/chap.c:134-155 | left unanswered, a challenge is sent again at each timeout until it was sent max_transmits times; then the peer is failed once, LCP is closed, both sides are in their initial states, nothing more is sent, and the process ends unless it waits for another connection |
| `ChapReplies.RejectionForgets` | vxworks_test/netinet/ppp/chap.c:252-265 | a run of six events from the start: success, LCP down, up again with nothing demanded, a Protocol-Reject, and a wrong Response to the old challenge that is answered with Failure |
| `ChapHandshake.Handshake` | vxworks_test/netinet/ppp/chap.c:334-571 | between two units of this code, the challenge of the one, the Response of the other and the Status that answers it: both enter the network phase and open IPCP if the digests made with their secrets agree, and otherwise the one sends Failure and closes LCP |
| `ChapHandshake.ChallengeIsAnswered` | vxworks_test/netinet/ppp/chap.c:334-413 | any challenge is answered under its own id with the digest of that id, the sender's secret and its value, the same again at each timeout, and a Success then ends our side |
| `ChapHandshake.ResponseIsJudged` | vxworks_test/netinet/ppp/chap.c:419-534 | a Response under another id is ignored; the first one to the challenge outstanding is accepted if and only if its value is the digest of what the authenticator holds, and otherwise answered with Failure and LCP closed |
| `ChapHandshake.AnsweredAgain` | vxworks_test/netinet/ppp/chap.c:449-453 | a repeated Response gets Success again and nothing else happens |
| `ChapHandshake.ValueIsRead` | vxworks_test/netinet/ppp/chap.c:609-640 | a Challenge or Response as it is laid out is read back, with its value and name, whatever follows it in the frame |
| `ChapHandshake.UpChallenges` | vxworks_test/netinet/ppp/chap.c:107-128 | as LCP comes up, a unit that is to authenticate its peer draws a challenge under the next id and sends it |
| `ChapHandshake.UpListens` | vxworks_test/netinet/ppp/chap.c:77-100 | and one that is to authenticate itself waits for one |
| `ChapHandshake.UnaskedIsSilent` | vxworks_test/netinet/ppp/chap.c:203-220 | a unit asked for CHAP on neither side ignores every CHAP packet |
| `ChapHandshake.RechallengeAsks` | vxworks_test/netinet/ppp/chap.c:178-193 | an authenticated peer is sent a new challenge under the next id, and the phase stays |
| `Chap.Ppp.ChapAuthPeer` | vxworks_test/netinet/ppp/chap.c:107-128 | the server starts, or waits for the lower layer |
| `Chap.Ppp.ChapChallengeTimeout` | vxworks_test/netinet/ppp/chap.c:134-155 | the challenge is sent again, or the peer is failed and LCP closed |
| `Chap.Ppp.ChapRechallenge` | vxworks_test/netinet/ppp/chap.c:178-193 | an authenticated peer is challenged anew |
| `Chap.Ppp.ChapLowerUp` | vxworks_test/netinet/ppp/chap.c:202-220 | pending requests start when the lower layer comes up |
| `Chap.Ppp.ChapLowerDown` | vxworks_test/netinet/ppp/chap.c:228-246 | both sides return to their initial states |
| `Chap.Ppp.ChapProtocolReject` | vxworks_test/netinet/ppp/chap.c:252-265 | an active server fails the peer, which closes LCP, then both sides return to their initial states |
| `Chap.Ppp.ChapInput` | vxworks_test/netinet/ppp/chap.c:271-328 | malformed headers are dropped and each code goes to its routine with the bytes the length field counts |
| `Chap.Ppp.ChapReceiveChallenge` | vxworks_test/netinet/ppp/chap.c:334-413 | a challenge is answered with the digest of its id, the secret and its value |
| `Chap.Ppp.ChapReceiveResponse` | vxworks_test/netinet/ppp/chap.c:419-534 | repeated responses get the status of the first; a first one is accepted exactly when its digest matches, and otherwise LCP is closed |
| `Chap.Ppp.ChapReceiveSuccess` | vxworks_test/netinet/ppp/chap.c:539-571 | a Success counts only while a response of ours is unanswered |
| `Chap.Ppp.AuthSuccess` | vxworks_test/netinet/ppp/auth.c:195-268 | the bit is cleared and the network phase entered exactly when none is left |
| `Chap.Ppp.LinkEstablished` | vxworks_test/netinet/ppp/auth.c:129-177 | every combination of negotiated protocols, with the bits demanded, and a refusal that ends the process or closes LCP and goes on |
| `Chap.Ppp.Die` | vxworks_test/netinet/ppp/pppLib.c:953-970 | LCP is closed if it is open, and the process ends unless the unit waits for another connection |
| `Chap.Ppp.LcpDown` | vxworks_test/netinet/ppp/lcp.c:1338-1353 | both sides of CHAP return to their initial states and the phase is TERMINATE |
| `Chap.Ppp.Handle` | vxworks_test/netinet/ppp/chap.c:58-571 | a link change, packet, timer or PAP outcome takes the unit one step of the runs above |
| `Chap.Session.Handle` | vxworks_test/netinet/ppp/chap.c:58-571 | whatever has reached the unit since ChapInit: if it is authorized it is in the network phase, and in the network phase it is authorized unless LCP once came up through the back door; its statuses agree exactly if no Response contradicted one, and no challenge was sent too often |
| `TxRing.RingIsSafe` | AX88796B_VxWorks_driver_for_Tornado 2.1.1_MIPS/ax88796end.c:990-1076 | after any run from a reset, however the chip's sending interleaves, tx_curr_page is in the ring, at least one page is free, free_pages is exact, CTEPR just before tx_curr_page means an empty queue, and no two queued frames share a page |
| `TxRing.TakenIff` | AX88796B_VxWorks_driver_for_Tornado 2.1.1_MIPS/ax88796end.c:975-1081 | after any run from a reset, which frames are taken: unless the command queue is full, exactly those that leave a page free beside what is queued, but none while tx_full is set and all was sent; what is taken goes behind the queue at tx_curr_page |
| `TxRing.FreeIsExact` | AX88796B_VxWorks_driver_for_Tornado 2.1.1_MIPS/ax88796end.c:1006-1035 | free_pages is the ring less the pages queued, except that it is 0 when all was sent and tx_full is set |
| `TxRing.EqualityMeansEmpty` | AX88796B_VxWorks_driver_for_Tornado 2.1.1_MIPS/ax88796end.c:1025-1035 | CTEPR equal to tx_curr_page - 1 always means that nothing is queued |
| `TxRing.TransmitKeeps` | AX88796B_VxWorks_driver_for_Tornado 2.1.1_MIPS/ax88796end.c:975-1081 | a transmission of at most 65280 bytes keeps the ring in order even if the chip sends frames after CTEPR was read |
| `TxRing.NeedIsExact` | AX88796B_VxWorks_driver_for_Tornado 2.1.1_MIPS/ax88796end.c:990-991 | the pages reserved are the pages filled if and only if the frame has at most 65280 bytes |
| `TxRing.RefusedUntilSent` | AX88796B_VxWorks_driver_for_Tornado 2.1.1_MIPS/ax88796end.c:1036-1044 | with frames of at most 7936 bytes, over any run with any resets, a frame is refused only while another is queued or an interrupt pends, and is taken once the chip has sent what was queued and the interrupt is handled |
| `TxRing.MaskedUntilOffered` | AX88796B_VxWorks_driver_for_Tornado 2.1.1_MIPS/ax88796end.c:988-1001 | after a return for a full command queue EN0_IMR stays 0, and no interrupt clears tx_full until the next frame is offered, the device is started, or a reset |
| `TxRing.JamsIff` | AX88796B_VxWorks_driver_for_Tornado 2.1.1_MIPS/ax88796end.c:1025-1044 | a frame offered to an empty ring with tx_full clear jams it if and only if it needs more than TX_PAGES pages, which up to 65280 bytes means more than 7936, and CTEPR is tx_curr_page - 1 |
| `TxRing.JamLasts` | AX88796B_VxWorks_driver_for_Tornado 2.1.1_MIPS/ax88796end.c:1025-1044 | then every frame is refused until a reset |
| `TxRing.JamIsReached` | AX88796B_VxWorks_driver_for_Tornado 2.1.1_MIPS/ax88796end.c:1025-1044 | four events from a reset with tx_full clear that jam the ring |
| `TxRing.Driver.StartTransmit` | AX88796B_VxWorks_driver_for_Tornado 2.1.1_MIPS/ax88796end.c:975-1081 | return code, queue, interrupt mask and pageInfo for every length, command-queue bit and number of frames that the chip sends meanwhile |
| `TxRing.Driver.Reset` | AX88796B_VxWorks_driver_for_Tornado 2.1.1_MIPS/ax88796end.c:908-919 | tx_curr_page and tx_prev_ctepr are set back and interrupts let through, tx_full is left |
| `TxRing.Driver.SetMask` | AX88796B_VxWorks_driver_for_Tornado 2.1.1_MIPS/ax88796end.c:1660-1660 | ax88796Start lets interrupts through, and the stop at line 1227 holds them back |
| `TxRing.Driver.HandleInterrupt` | AX88796B_VxWorks_driver_for_Tornado 2.1.1_MIPS/ax88796end.c:1725-1774 | a transmit interrupt that is not masked clears tx_full |
| `Crc.TableIsDivision` | AX88796B_VxWorks_driver_for_Tornado 2.1.1_MIPS/ax88796end.c:288-353 | all 256 entries of CrcTable are the division of their index by eight places |
| `Crc.StepIsBits` | AX88796B_VxWorks_driver_for_Tornado 2.1.1_MIPS/ax88796end.c:1357-1360 | one table step is the bit-by-bit division of one byte |
| `Crc.CalCrc` | AX88796B_VxWorks_driver_for_Tornado 2.1.1_MIPS/ax88796end.c:1353-1370 | axend_cal_CRC, with the driver's own table, is the reflected CRC-32, bit by bit, of every byte string, complemented if flag asks |
| `Crc.CrcLoop` | AX88796B_VxWorks_driver_for_Tornado 2.1.1_MIPS/ax88796end.c:1355-1360 | the loop computes that remainder with any table that is right, as CrcTable is |
| `Crc.DetectsByte` | AX88796B_VxWorks_driver_for_Tornado 2.1.1_MIPS/ax88796end.c:1353-1370 | two messages that differ in one byte have different CRCs |
| `Crc.CheckValue` | AX88796B_VxWorks_driver_for_Tornado 2.1.1_MIPS/ax88796end.c:1353-1370 | of the nine digits 123456789 it is CBF43926, the check value of CRC-32 |
| `McastFilter.AddrFilterSet` | AX88796B_VxWorks_driver_for_Tornado 2.1.1_MIPS/ax88796end.c:2467-2496 | bit n of the packed filter is set exactly when n is 63 or the low six bits of the CRC of some listed address make the number n |
| `McastFilter.HashTable` | AX88796B_VxWorks_driver_for_Tornado 2.1.1_MIPS/ax88796end.c:2467-2487 | the four words hold bit 63 and one bit for each listed address |
| `GatherCopy.CopyFromMbufs` | vxworks_test/netinet/if_subr.c:582-659 | for every chain and width the buffer ends up holding the plain concatenation and its length is returned; nothing is written beyond the last unit |
| `GatherCopy.CopyUnitwise` | vxworks_test/netinet/if_subr.c:611-644 | the branches for widths 2 and 4 together |
| `GatherCopy.CopyMbuf` | vxworks_test/netinet/if_subr.c:613-628 | one mbuf more, even one shorter than what the pending unit lacks, when adjLen is negative |
| `GatherCopy.FillUnit` | vxworks_test/netinet/if_subr.c:636-643 | the pending unit is read back, filled up and stored at its aligned place |
| `GatherCopy.CopyUnits` | vxworks_test/netinet/if_subr.c:625-627 | only whole units at aligned places are stored |
| `SourceRoute.RouteIsFollowed` | vxworks_test/netinet/ip_input.c:739-795 | whatever hosts a datagram meets, it arrives at the addresses of its loose source route in order; if the route ends it was at all of them, and its option then holds the addresses recorded |
| `SourceRoute.EndsIff` | vxworks_test/netinet/ip_input.c:762-769 | a route ends at a host of its destination when the pointer leaves no room for an address, if and only if the option has at least four bytes, since the unsigned difference wraps below that |
| `SourceRoute.StaysInside` | vxworks_test/netinet/ip_input.c:762-792 | an option of at least four bytes is the only thing that a hop reads or writes |
| `SourceRoute.ShortOptionGoesBeyond` | vxworks_test/netinet/ip_input.c:762-792 | with a shorter one, when a hop moves on, it takes the next address from the bytes behind the option and records its own there |
| `SourceRoute.ShortOptionAdvances` | vxworks_test/netinet/ip_input.c:762-792 | a three-byte option with which it does |
| `SourceRoute.HopFollows` | vxworks_test/netinet/ip_input.c:764-795 | a hop that owns the destination moves on to the next address, records its own and advances the pointer by 4; another passes the datagram on; the last ends the route |
| `SourceRoute.Header.Lsrr` | vxworks_test/netinet/ip_input.c:739-795 | the destination, the recorded address and the pointer are updated in place as at one hop of the route, for an option of any length, and nothing otherwise |
| `SourceRoute.SavedRoute.SaveRte` | vxworks_test/netinet/ip_input.c:920-937 | any option that fits, loose or strict, wherever its pointer stands, is kept with the source, so that ip_srcroute will reply to it; one that does not fit changes nothing |
| `SourceRoute.SavedRoute.SrcRoute` | vxworks_test/netinet/ip_input.c:944-1006 | the route back from what is saved, or none without an mbuf; a second call makes the same one |
| `SourceRoute.ReplyIsBackRoute` | vxworks_test/netinet/ip_input.c:944-1006 | from a loose route's option that is the last address recorded first, then the others in reverse, then the source |
| `SourceRoute.ReplyIsOptionIff` | vxworks_test/netinet/ip_input.c:944-1006 | there is a reply exactly when a whole address was saved, and its length byte is right exactly when nothing but whole addresses were |
| `SourceRoute.ReplyReverses` | vxworks_test/netinet/ip_output.c:457-503 | a reply with that route inserted visits the recorded addresses in reverse and ends at the original source |
| `SourceRoute.OutAndBack` | vxworks_test/netinet/ip_input.c:739-1006 | out along any source route and back: the reply made of the option as it arrived retraces what the hops recorded |

## Left out

- IpQueues.Table.Ipintr: an unfragmented datagram keeps its DF bit in ip_off, which the fields handed up here do not show.
- FragmentQueue.Queue.Concatenate: an mbuf that the sign extension made shorter than its header contributes nothing, where its m_data and m_len would step outside it; without the sign extension there is none.
- Reassembly.Data: an mbuf that the sign extension made shorter than its header contributes nothing, where m_data and m_len would step outside it.
- IpOutput.OptCopy: takes options whose length bytes lie within them, as ip_dooptions lets through; the clipping of longer ones is in the method but cannot happen then.
- IpOutput.Send: the header checksum of each fragment and errors of if_output; the fixed header bytes are carried as they are, and the fields that change stand beside them.
- IpInput: version, header checksum, filter hook, multicast and forwarding in ipintr; ip_drain.
- DesPermute.Permute: the build with large tables; the byte order of words inside a block, since every mask and shift stays within bytes and the model names bits.
- DesInit.IeVector: nothing is said of the rows of IE3264 for the upper four bytes, which are never looked up.
- DesCriteria.OneBitInTwoBitsOut: this and the rows are two of the criteria published for the boxes; the others are not stated.
- crypt itself, with its encoding of key, setting and result: a loop around what is proved.
- PcbTable.ConnectError: T/TCP's use of in_pcbladdr, multicast options and the cached route, which only choose the local address.
- in_pcbnotify, in_losing and in_rtchange.
- InPcb.Hash: `& mask` is the remainder by the number of chains, a power of two.
- ChapHandshake.ValueIsRead: the layout is that of a function; the pointer arithmetic that fills outpacket_buf is not modelled.
- Chap: MD5 is any function of id, secret and challenge with 16 bytes; secrets are any function of the name; message texts and logging.
- Exactly one rechallenge timer: it does not hold, since ChapRechallenge arms another and success arms one more.
- TxRing: the 0x80 bit for a full command queue is a parameter; block output, the receive ring, MDIO, DMA and interrupts other than transmit.
- SourceRoute.Header.Lsrr: the loop over several options, strict source routes, record route and timestamps; bytes further behind the option than those given, for which the answer is Outside.
- GatherCopy.CopyFromMbufs: freeing the chain, and that panic does not return.
- ip_mroute.c, ARP, IGMP, in_addmulti, the socket layer, TCP and UDP, and the demonstration programs.
