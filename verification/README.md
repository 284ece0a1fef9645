# Data channel of ovpn-dco, modelled and proved in Dafny

ovpn-dco is the OpenVPN data channel inside the Linux kernel. This project models the state machines that
decide whether a packet is taken, under which key, by which peer and how often, and proves what they keep over
every run.

| file | what it holds |
|---|---|
| `Words.dfy` | machine words and the wrapping `jiffies` comparison |
| `ReplaySpec.dfy`, `ReplayWindow.dfy` | the replay check as a set of accepted IDs, and the 2048-bit circular bitmap that implements it in place |
| `ReplayRuns.dfy`, `ReplayTheorems.dfy` | whole runs of the check, judged by the log of accepted packets alone |
| `Proto.dfy`, `Aead.dfy`, `Tunnel.dfy` | packet header, nonce and packet layout, one key slot, and two slots facing each other |
| `KeySlots.dfy`, `KeySlotTheorems.dfy`, `KeyLookups.dfy`, `KeyGrace.dfy` | primary and secondary key under a mutex, RCU and reference counts, one step per pointer load or store; what each change does, what lookups find, what a kill hits and when a slot is destroyed |
| `RingWork.dfy` | packet rings, work items and the peer references handed between them |
| `TcpFraming.dfy`, `TcpSender.dfy` | length-prefixed packets over a byte stream, under any short reads and short writes |
| `Subsequences.dfy`, `RxKeys.dfy`, `RxRuns.dfy`, `RxPipeline.dfy` | a received packet from the socket to the tun device, while keys come and go: runs as values, and the peer that refines them |
| `PeerTable.dfy`, `UdpReceive.dfy` | the peer registry of a multi-peer device, and which peer a UDP packet belongs to |

Conventions. `jiffies` is a wrapping 64-bit word; runs carry unbounded ticks, and theorems that speak of elapsed
time ask that a run be shorter than half the range of the word (`Clocked`) and the timeout too; `timeout` stands
for `30 * HZ` with any `HZ`. The cipher is a pair of functions `seal` and `open` whose only law is `SameKey`: what
one seals the other opens. The clock, the answers of sockets, allocation failures, the reverse-path check and the
success of netlink messages are parameters. Concurrency is modelled by steps: a run is any sequence of steps that
threads are ready to take. A grace period is over when every reader that was inside when the callback was queued
has left; a work item has one pending bit, cleared before its function starts, and does not run beside itself. In
the registry every operation is one step, because additions and deletions hold one lock.

Properties that turned out to fail for some inputs are stated with the exact condition under which they hold:

- A header reads back only when opcode, key ID and peer ID fit their fields (`HeaderReadsBack`). Key IDs are not
  bounded where they come in (drivers/net/ovpn-dco/netlink.c:247).
- The length prefix of a TCP packet has 16 bits: packets come back only when none is empty or longer than 65535
  bytes (`FramingRoundTrip`).
- When no buffer can be allocated for a TCP packet its prefix is forgotten and its data is read as prefixes
  (`LosePrefix`). What is delivered is the parse of the stream exactly as long as that never happened
  (`ParseOfConsumed`), and otherwise the parse of the stream without the lost prefixes; `LostPrefixMisparses` has a
  packet that comes out as another.
- A swap leaves lookups by key ID alone exactly when the two slots have different key IDs (`SwapKeepsLookups`).
- A lookup can miss an installed key. In every run, while a key is installed alone under its ID, a lookup finds it if
  and only if one of its loads found the pointer it reads naming that key (`FoundExactlyIfLoaded`), and it does
  if no swap is half-done when the lookup begins and none stores while it runs (`FoundWithoutSwap`). A swap defeats this
  in two ways: by coming between the two loads, and the old secondary key is missed (`OvertakenLookupMisses`); or by
  standing between its two stores while the whole lookup runs, and the old primary key is missed
  (`LookupInsideSwapMisses`), which is invisible there unless the secondary has its ID (`SwapHidesOldPrimary`). The
  comment at drivers/net/ovpn-dco/crypto.c:134-137 speaks of the old secondary only.
- The kill that follows the last packet ID is meant for the key that ran out of IDs. It hits that key
  exactly when the primary still names it, and so if no pointer was stored since the key was looked up
  (`KillDropsKeyInUse`); after a swap it drops the other key, or faults if there
  is none, and the exhausted key stays installed (`KillHitsAnotherKey`).
- Killing the primary faults exactly when there is none (`KillFaultsWithoutPrimary`).
- The TCP receive path ignores whether it got its peer reference. References stay in order exactly as long as that never
  happens without one being there (`NoPacketStranded`); `BlindHoldStrands` is a run in which it does and a packet is left
  in the ring of a peer under release. A reference that path leaks keeps the peer for ever (`LeakIsForever`).
- A packet can be credited a second time when a key is installed again, because every slot starts with a fresh window and
  nothing keeps a key from being installed twice. Bytes can be credited under one key and again under another if and
  only if both keys accept them (`TwiceExactly`, with the run in `InstalledAgain`); never twice under one
  installation (`NoCreditTwice`), and not at all if no two installed keys accept a packet in common (`BytesOnce`).
- The same holds of nonces: section 3.1 of RFC 5116 asks for different ones under one key, and the code sees to it within
  one slot (`NoncesNeverRepeat`). Two slots that have been used share an IV if and only if their nonce tails are equal
  (`SlotsShareIvs`), so a key must not be installed twice with one tail.
- After any number of floats a peer is linked for its last address exactly when that hashes to the bucket of the address
  it was added with (`FloatDoesNotRelink`); a lookup by that address finds a peer that is linked and bound to it, which
  may be another one.

Two comments disagree with the code, and the model follows the code: `ovpn_recv` returns 0 and never a positive
value for packets that go to user space (drivers/net/ovpn-dco/udp.c:107-109), and peers without a binding are those
connected via TCP, not UDP (drivers/net/ovpn-dco/peer.c:705).

## Model

| member | source | states |
|---|---|---|
| Words.TimeAfterEqIsOrder | drivers/net/ovpn-dco/pktid.c:38 | the wrapping comparison of `jiffies` is the order of real time for ticks less than half a word apart |
| ReplayWindow.ReplayIndexWalksTheRing | drivers/net/ovpn-dco/pktid.h:62 | adding, and adding an unsigned `-delta`, under the mask are the steps forwards and backwards on a ring of 2048 positions |
| ReplayWindow.SetBit | drivers/net/ovpn-dco/pktid.c:75 | setting a bit of one byte sets that bit of the whole row and no other |
| ReplayWindow.ClearBit | drivers/net/ovpn-dco/pktid.c:82 | clearing a bit of one byte clears that bit of the whole row and no other |
| ReplayWindow.TestBit | drivers/net/ovpn-dco/pktid.c:101-104 | the masked byte tells that bit of the row |
| ReplayWindow.MarkAndClear | drivers/net/ovpn-dco/pktid.c:75-83 | one new mark at the base, blanks for the skipped IDs, everything else as before, stale bits included |
| ReplayWindow.SlideMirrors | drivers/net/ovpn-dco/pktid.c:67-90 | after such a slide the first `min(id, 2048)` positions again tell exactly which IDs were accepted |
| ReplayWindow.MarkMirrors | drivers/net/ovpn-dco/pktid.c:97-106 | marking a late ID keeps the row in agreement with the accepted IDs |
| ReplayWindow.PktidRecv.constructor | drivers/net/ovpn-dco/pktid.c:21-25 | a zeroed window has accepted nothing |
| ReplayWindow.PktidRecv.AdvanceByOne | drivers/net/ovpn-dco/pktid.c:60-66 | the next ID in sequence joins the accepted set; extent and bitmap stay in agreement with it |
| ReplayWindow.PktidRecv.AdvanceWithin | drivers/net/ovpn-dco/pktid.c:69-83 | the same for a jump inside the window |
| ReplayWindow.PktidRecv.AdvanceBeyond | drivers/net/ovpn-dco/pktid.c:84-90 | the same for a jump past the window |
| ReplayWindow.PktidRecv.Advance | drivers/net/ovpn-dco/pktid.c:60-90 | every ID above the highest one joins the accepted set |
| ReplayWindow.PktidRecv.Backtrack | drivers/net/ovpn-dco/pktid.c:91-113 | a late ID is taken if and only if it is less than 2048 behind, above the floor and not accepted before; a refusal leaves the bitmap alone |
| ReplayWindow.PktidRecv.Receive | drivers/net/ovpn-dco/pktid.c:32-117 | the in-place bitmap answers and moves as the set-level receiver does, whatever stale bits it holds; a refusal changes neither base, extent nor history |
| ReplayRuns.FloorIsSilence | drivers/net/ovpn-dco/pktid.c:37-39 | an ID is at or below the floor in force exactly when it, or a higher one of its epoch, came before a silence of `timeout` ticks between accepted packets |
| ReplayRuns.StepHolds | drivers/net/ovpn-dco/pktid.c:32-117 | every call keeps the receiver in agreement with the log of accepted packets |
| ReplayRuns.RunHolds | drivers/net/ovpn-dco/pktid.c:32-117 | after every run the receiver's stamp, highest ID, accepted IDs, deadline and floor are those the log dictates |
| ReplayRuns.VerdictsAreExact | drivers/net/ovpn-dco/pktid.c:29-117 | over every run each packet is accepted exactly when the log rule allows it: real ID, no later stamp seen, and new epoch, highest ID, or recent, unseen and not silenced |
| ReplayTheorems.DriveWindow | drivers/net/ovpn-dco/pktid.c:32-117 | the bitmap driven through any run gives exactly the verdicts of that rule |
| ReplayTheorems.AcceptedIsRemembered | drivers/net/ovpn-dco/pktid.c:91-116 | an accepted pair of stamp and ID is remembered after every continuation of the run |
| ReplayTheorems.NoReplay | drivers/net/ovpn-dco/pktid.c:29-117 | no pair of stamp and ID is accepted twice, whatever the clock does |
| ReplayTheorems.RejectedAreInvisible | drivers/net/ovpn-dco/pktid.c:37-116 | removing any refused packets from a run changes no verdict of the others |
| ReplayTheorems.FirstCopyDecides | drivers/net/ovpn-dco/pktid.c:91-113 | within window and timeout the log rule accepts a packet exactly when no earlier one carried its ID |
| ReplayTheorems.ExactlyOnce | drivers/net/ovpn-dco/pktid.h:38-41 | under any reordering and duplication within window and timeout a packet is accepted if and only if it is the first copy |
| Proto.Be16 | drivers/net/ovpn-dco/tcp.h:29 | two bytes in network order from which the number is read back |
| Proto.Be32 | drivers/net/ovpn-dco/pktid.h:108 | four bytes in network order from which the number is read back |
| Proto.Be32Bytes | drivers/net/ovpn-dco/pktid.h:108 | the most significant byte comes first |
| Proto.Be32IsOnto | drivers/net/ovpn-dco/crypto_aead.c:186-208 | every four bytes are the network order of the number read from them |
| Proto.HeaderReadsBack | drivers/net/ovpn-dco/proto.h:48-99 | opcode, key ID and peer ID read back as composed if and only if each fits its field |
| Proto.HeaderBytes | drivers/net/ovpn-dco/proto.h:94-99 | the composed header byte by byte: opcode in the upper five bits and key ID in the lower three of the first, then the three bytes of the peer ID, most significant first |
| Proto.HeaderFromBytes | drivers/net/ovpn-dco/proto.h:48-92 | what is read from the first four bytes of any packet, byte by byte |
| Aead.IvIsInjective | drivers/net/ovpn-dco/pktid.h:103-111 | different packet IDs give different IVs |
| Aead.IvLayout | drivers/net/ovpn-dco/pktid.h:103-111 | twelve bytes: the packet ID, most significant byte first, then the tail |
| Aead.AssociatedDataTells | drivers/net/ovpn-dco/crypto_aead.c:94-105 | two packets have the same authenticated header if and only if packet ID, key ID and peer ID agree, as far as the fields of the header go |
| Aead.WireLayout | drivers/net/ovpn-dco/crypto_aead.c:66-113 | the packet place by place: header and packet ID, which are also the associated data and the head of the IV, then the tag the cipher gave last, then the ciphertext |
| Aead.EncapsulationRoundTrip | drivers/net/ovpn-dco/crypto_aead.c:66-113 | for every payload the packet is 24 bytes longer, opens to the payload under the same key, shows its packet ID and opcode, and shows key ID and peer ID exactly when they fit |
| Aead.PktidXmit.constructor | drivers/net/ovpn-dco/pktid.c:15-19 | the first ID is 1 |
| Aead.PktidXmit.Next | drivers/net/ovpn-dco/pktid.h:87-101 | hands out the counter and moves it by one, until all 32-bit IDs are gone, and nothing after that |
| Aead.KeySlot.constructor | drivers/net/ovpn-dco/crypto_aead.c:340-349 | a new slot has used no ID and accepted none |
| Aead.KeySlot.Encrypt | drivers/net/ovpn-dco/crypto_aead.c:29-123 | the packet built by pushing tag, ID and header is the specified layout; every call that gets past preparing the request uses up an ID for good, even if the cipher then fails, until they are gone; and every failure is told apart |
| Aead.KeySlot.Decrypt | drivers/net/ovpn-dco/crypto_aead.c:125-218 | only an authentic packet reaches the window and only a fresh one yields its payload; short packets and failures before the cipher leave the window untouched |
| Tunnel.IdsAreConsecutive | drivers/net/ovpn-dco/pktid.h:87-101 | over any calls, failed ones included, the IDs that reach the cipher are 1, 2, 3 and so on without a gap |
| Tunnel.AttemptsUseIds | drivers/net/ovpn-dco/crypto_aead.c:84-92 | the counter is one more than the number of calls that got past preparing the request, up to 2^32 |
| Tunnel.AttemptsUseIvs | drivers/net/ovpn-dco/crypto_aead.c:84-116 | each such call, failed in the cipher or not, runs the cipher with the IV of its own number, until all are gone |
| Tunnel.NoncesNeverRepeat | drivers/net/ovpn-dco/crypto_aead.c:84-92 | no two runs of the cipher under one slot share an IV, and there are fewer than 2^32; section 3.1 of RFC 5116 asks this of a key |
| Tunnel.SlotsShareIvs | drivers/net/ovpn-dco/crypto_aead.c:340-347 | two slots have used one and the same IV if and only if both were used and their nonce tails are equal |
| Tunnel.ExhaustionIsFinal | drivers/net/ovpn-dco/pktid.h:92-96 | once the IDs are gone every later call that gets that far fails with ERANGE and the cipher is not run again |
| Tunnel.DriveSlot | drivers/net/ovpn-dco/crypto_aead.c:29-123 | the same from the making of the slot on |
| Tunnel.FirstDeliveryIsFirstCopy | drivers/net/ovpn-dco/pktid.h:87-101 | packets of different calls carry different IDs whatever failed in between, so a delivery is the first of its packet exactly when it is the first with its ID |
| Tunnel.DecryptFollowsWindow | drivers/net/ovpn-dco/crypto_aead.c:199-213 | for a packet of the other end, decryption succeeds with its payload exactly when the window accepts its ID |
| Tunnel.EncryptAll | drivers/net/ovpn-dco/crypto_aead.c:29-123 | a slot that has used no ID gives, over any calls with any failures among them, the specified result for each and uses exactly the specified IVs |
| Tunnel.WindowDecides | drivers/net/ovpn-dco/crypto_aead.c:206-210 | with the constant stamp 0 the window takes first copies and refuses all others as invalid |
| Tunnel.ForeignIsRefused | drivers/net/ovpn-dco/crypto_aead.c:138-204 | bytes that do not open are refused, with the error of their length, and leave the window alone |
| Tunnel.Transfer | drivers/net/ovpn-dco/crypto_aead.c:29-218 | sender and receiver composed: whatever calls fail, whatever is reordered or repeated within window and timeout, and whatever foreign bytes come in between, the first copy of each packet yields its payload and everything else is refused |
| KeySlots.NamedAreAlive | drivers/net/ovpn-dco/crypto.c:134-155 | whoever is named by a pointer, held, or owned by the mutex holder is not retired, in the middle of a swap too |
| KeySlots.StepKeepsInv | drivers/net/ovpn-dco/crypto.c:17-155 | install, delete, swap, kill, lookup, put and deferred destruction, each load and store a step, keep counts equal to owners and readers shielded |
| KeySlots.RunKeepsInv | drivers/net/ovpn-dco/crypto.h:68-133 | so does every interleaving from the empty state |
| KeySlotTheorems.NoUseAfterFree | drivers/net/ovpn-dco/crypto.c:17-31 | in every reachable state, whatever thread moves next, the slots it touches exist and are not destroyed, and no put finds a count of zero |
| KeySlotTheorems.CountsMatchOwners | drivers/net/ovpn-dco/crypto.c:36-155 | with the mutex free a slot's count is the pointers naming it plus the references handed out; a named slot has a count of at least one at all times |
| KeySlotTheorems.ZeroIsFinal | drivers/net/ovpn-dco/crypto.h:68-71 | a slot whose count reached zero stays at zero, is never named and never handed out again |
| KeySlotTheorems.DestroyedOnce | drivers/net/ovpn-dco/crypto.c:17-31 | no slot is destroyed twice in any run |
| KeySlotTheorems.LookupIsRight | drivers/net/ovpn-dco/crypto.h:81-126 | a finished lookup returns nothing or a slot with the key ID asked for, in the middle of any change; with no store meanwhile it returns exactly the visible slot |
| KeySlotTheorems.SwapKeepsLookups | drivers/net/ovpn-dco/crypto.c:138-155 | a swap exchanges the two places, so that the old secondary is the encryption key, and keeps every lookup by key ID if and only if the slots do not share an ID |
| KeySlotTheorems.InstallPrimary | drivers/net/ovpn-dco/crypto.c:78-98 | from every state with the mutex free a primary can be installed: it is then the key to encrypt with and the one found under its ID, the secondary stays and is found under any other ID it has, and what the primary named loses one reference |
| KeySlotTheorems.InstallSecondary | drivers/net/ovpn-dco/crypto.c:78-98 | the same of a secondary: it is found under its ID unless the primary has that, the primary stays, and what the secondary named loses one reference |
| KeySlotTheorems.InstallNowhere | drivers/net/ovpn-dco/crypto.c:91-101 | with no such place nothing is installed, every lookup stays, and the new key is given up |
| KeySlotTheorems.DeleteEmptiesItsPlace | drivers/net/ovpn-dco/crypto.c:104-132 | a delete empties its place and no other and leaves the deleter with the reference that place had |
| KeySlotTheorems.KillEmptiesPrimary | drivers/net/ovpn-dco/crypto.c:55-64 | a kill, where there is a primary, empties that place and no other and puts its reference |
| KeySlotTheorems.RekeyKeepsBothKeys | drivers/net/ovpn-dco/crypto.c:69-155 | install, swap, delete: the new key decrypts from its installation and encrypts from the first store of the swap; the old one decrypts until the delete, except between the two stores of the swap, where it is invisible |
| KeyLookups.FoundExactlyIfLoaded | drivers/net/ovpn-dco/crypto.h:81-112 | in every run, a lookup of a key that is installed all the while (set aside by a swap included) and alone under its ID returns it if and only if the primary named it at the load of the primary or the secondary at the load of the secondary, and nothing otherwise |
| KeyLookups.RunKeepsApart | drivers/net/ovpn-dco/crypto.c:36-155 | in every run the two pointers never name one slot outside a swap, and never the slot a swap has set aside |
| KeyLookups.FoundWithoutSwap | drivers/net/ovpn-dco/crypto.h:81-112 | in every run such a lookup finds the key if no swap is half-done when it begins and none stores while it runs |
| KeyLookups.SwapHidesOldPrimary | drivers/net/ovpn-dco/crypto.c:144-148 | in every reachable state between the stores of a swap the old primary key is invisible if and only if the secondary is absent or has another ID |
| KeyLookups.OvertakenLookupMisses | drivers/net/ovpn-dco/crypto.c:134-148 | from every state with two key IDs there is a run in which a swap overtakes a lookup, which misses the old secondary though it is visible before and after |
| KeyLookups.LookupInsideSwapMisses | drivers/net/ovpn-dco/crypto.c:144-148 | from every state there is a run in which a lookup wholly between the stores of a swap, with no store beside it, misses the old primary, unless the secondary has its ID |
| KeyLookups.KillDropsKeyInUse | drivers/net/ovpn-dco/ovpn.c:339-346 | in every run a kill drops the very key that a lookup of the primary returned if and only if the primary still names it, and so it does if no pointer was stored since that lookup began |
| KeyLookups.KillHitsAnotherKey | drivers/net/ovpn-dco/ovpn.c:339-346 | from every reachable state with a primary and the mutex free there is a run in which a swap after the lookup makes the kill drop the other key, or fault, and never the one in use, which stays installed |
| KeyLookups.KillFaultsWithoutPrimary | drivers/net/ovpn-dco/crypto.c:55-64 | a kill faults if and only if there is no primary, as after a delete |
| KeyGrace.LookupIsExact | drivers/net/ovpn-dco/crypto.h:81-126 | in every run a lookup, by ID or of the primary, with no store among the actions beside it returns exactly what was visible when it began and is when it ends |
| KeyGrace.HandedOutIsHeld | drivers/net/ovpn-dco/crypto.h:68-71 | in every run who found a slot gets it, with one more reference out, exactly if its count was not zero yet, and otherwise gets nothing |
| KeyGrace.DestroyedAfterGrace | drivers/net/ovpn-dco/crypto.c:17-31 | in every run a retired slot can be destroyed exactly when every reader that was inside when it was retired has left |
| RingWork.StepKeepsInv | drivers/net/ovpn-dco/ovpn.c:177-441 | a step of producers or workers keeps references equal to their owners, rings attended and in order if and only if it is not an unchecked hold that finds no reference |
| RingWork.RunIsTold | drivers/net/ovpn-dco/ovpn.c:177-441 | in every run the actions alone tell the state: packets leave each ring in the order of the `Produce` actions, one per `Consume`; and counts of holds, of work queued and started and of references elsewhere are those of the actions |
| RingWork.NoPacketStranded | drivers/net/ovpn-dco/ovpn.c:177-441 | in every interleaving a waiting packet has a producer about to queue the work, a pending item or a worker in its loop, and what left a ring followed by what waits in it is what was produced, in order; references are exactly those owned, and no put finds zero, if and only if no hold so far was taken for granted without being there |
| RingWork.UdpLooks | drivers/net/ovpn-dco/udp.c:40-117 | over UDP that never happens, and nothing is leaked |
| RingWork.DeadPeerIsStill | drivers/net/ovpn-dco/peer.c:197-207 | then a peer without references has both rings empty, everything processed, and no thread able to act on it, but for a TCP receiver that takes references without looking |
| RingWork.WorkersStop | drivers/net/ovpn-dco/ovpn.c:296-413 | without new packets the workers take a bounded number of steps under every scheduler |
| RingWork.StoppedMeansDone | drivers/net/ovpn-dco/ovpn.c:177-441 | when they have stopped, every packet ever queued was processed and they kept no reference |
| RingWork.BlindHoldStrands | drivers/net/ovpn-dco/tcp.c:213-215 | a run over TCP, from the making of the peer, that ends without references and with a packet in the ring |
| RingWork.LeakIsForever | drivers/net/ovpn-dco/tcp.c:213-218 | once the TCP receive path has leaked a reference the count never reaches zero again |
| TcpFraming.DeframedAppend | drivers/net/ovpn-dco/tcp.c:158-227 | parsing what arrived so far and going on from the unfinished tail is parsing it all at once |
| TcpFraming.DeframedFirst | drivers/net/ovpn-dco/tcp.h:25-31 | the first packet is recovered from the front of any stream exactly when its length fits the prefix and is not zero |
| TcpFraming.FramingRoundTrip | drivers/net/ovpn-dco/tcp.h:19-31 | a list of packets is recovered from its stream if and only if every length is between 1 and 65535 |
| TcpFraming.PrefixOfStream | drivers/net/ovpn-dco/tcp.c:158-227 | any stretch that has arrived gives the first packets sent and nothing else |
| TcpFraming.ZeroLengthIsFinal | drivers/net/ovpn-dco/tcp.c:181-185 | after a zero length nothing more is ever parsed |
| TcpFraming.DeframedWithoutTail | drivers/net/ovpn-dco/tcp.c:187-189 | dropping the unfinished end leaves the packets before it |
| TcpFraming.NoByteUnaccounted | drivers/net/ovpn-dco/tcp.c:158-227 | packets, their prefixes and the tail account for every byte |
| TcpFraming.CutAtEnd | drivers/net/ovpn-dco/tcp.c:187-189 | losing a prefix takes exactly its two bytes out of what is parsed, where whole packets end |
| TcpFraming.TcpReceiver.ParseOfConsumed | drivers/net/ovpn-dco/tcp.c:187-189 | what was delivered, with the unfinished packet in the fields, is the parse of the bytes consumed if and only if no allocation failed |
| TcpFraming.TcpReceiver.PrepareSkb | drivers/net/ovpn-dco/tcp.c:178-190 | a complete prefix starts a packet, ends the stream when zero, or is cut out of what is parsed for want of memory |
| TcpFraming.TcpReceiver.ReadPrefix | drivers/net/ovpn-dco/tcp.c:167-190 | however the prefix arrives, the fields go on encoding the unfinished packet; fails exactly on length zero |
| TcpFraming.TcpReceiver.ReadData | drivers/net/ovpn-dco/tcp.c:191-224 | the same for packet data; a full packet is delivered once and the fields start over |
| TcpFraming.TcpReceiver.RxOne | drivers/net/ovpn-dco/tcp.c:158-227 | one read of any size keeps deliveries equal to the parse of the stream without the lost prefixes, and loses one exactly when it completes an announcement without memory |
| TcpFraming.TcpReceiver.RxWork | drivers/net/ovpn-dco/tcp.c:229-245 | under every schedule of short reads the bytes taken are parsed; it stops only when the socket is dry or a zero length came, and then delivers nothing more |
| TcpSender.Transmitter.SendSkb | drivers/net/ovpn-dco/tcp.h:25-31 | a packet is queued whole with its length, or dropped whole exactly when the ring is full |
| TcpSender.Transmitter.SendOne | drivers/net/ovpn-dco/tcp.c:99-129 | whatever part of the head the socket takes, bytes sent plus bytes waiting stay the stream of all packets queued |
| TcpSender.Transmitter.TxWork | drivers/net/ovpn-dco/tcp.c:131-156 | the same over every schedule of short writes; the peer is deleted only on a real error, always if packets are left after one, and without one every taking answer makes progress |
| TcpSender.EndToEnd | drivers/net/ovpn-dco/tcp.c:99-245 | delivered packets are a prefix of those queued, and all of them once everything is sent and read |
| TcpSender.LosePrefix | drivers/net/ovpn-dco/tcp.c:187-189 | for every packet and every schedule of reads: without memory for it, the receiver delivers the parse of its data as if that were a stream |
| TcpSender.LostPrefixMisparses | drivers/net/ovpn-dco/tcp.c:187-189 | a concrete packet of which another one comes out that way |
| Subsequences.PlacedOneMore | drivers/net/ovpn-dco/ovpn.c:252-292 | putting one more packet in any one of the three places keeps every packet in exactly one place and the order of those going on |
| RxKeys.Lookup | drivers/net/ovpn-dco/crypto.h:81-112 | what both loads of a lookup give with no store between them: a key with the ID asked for, from one of the two places, and none exactly when neither has it |
| RxKeys.LoadsAreLookup | drivers/net/ovpn-dco/crypto.h:89-112 | the two loads with no store between them and every hold granted are the lookup, and a hold refused gives no key |
| RxKeys.SwapExchanges | drivers/net/ovpn-dco/crypto.c:138-155 | a swap exchanges the places and changes no key; every packet finds the key it found before if and only if the two do not share an ID, and between the stores finds the old secondary or nothing |
| RxKeys.InstallTakesPlace | drivers/net/ovpn-dco/crypto.c:69-102 | a key comes into its place, as a new generation with a window that has seen nothing, every other key and the other place stay, and which key each ID then finds |
| RxKeys.DeleteEmptiesPlace | drivers/net/ovpn-dco/crypto.c:104-132 | a delete empties its place and no other, changes no key, and which key each ID then finds |
| RxKeys.OutcomeIsExact | drivers/net/ovpn-dco/ovpn.c:218-236 | a packet yields its payload if and only if it reaches the cipher, is authentic under the key looked up and is taken by that key's window |
| RxKeys.GoodStaysGood | drivers/net/ovpn-dco/crypto_aead.c:206-210 | no later packet makes a window forget one it has taken |
| RxKeys.PassingIsNew | drivers/net/ovpn-dco/ovpn.c:227-236 | a packet that passes differs in key or packet ID from all credited before |
| RxKeys.PassingIsGood | drivers/net/ovpn-dco/ovpn.c:227-236 | from then on its window refuses it |
| RxKeys.CreditsOutliveKeys | drivers/net/ovpn-dco/crypto.c:69-155 | installing, deleting and swapping keys leave every credit good under the installation it was given for, which refuses its packet ID for ever |
| RxKeys.CreditsGrow | drivers/net/ovpn-dco/ovpn.c:238-247 | crediting a packet that passes keeps every credit authentic and no packet ID credited twice under one installation of a key |
| RxKeys.PassingEarns | drivers/net/ovpn-dco/ovpn.c:277-284 | deliveries stay matched, one to one and in order, with credits, and the payload of a packet that passes matches its own |
| RxRuns.FinishKeeps | drivers/net/ovpn-dco/ovpn.c:206-293 | finishing a packet, under any key its lookup may have given, keeps all credits sound and deliveries matched with them, its own payload included |
| RxRuns.KeepaliveIsNoIp | drivers/net/ovpn-dco/ovpn.c:26-50 | a keepalive message is never taken for an IP packet |
| RxRuns.ChangeKeeps | drivers/net/ovpn-dco/crypto.c:69-155 | so does every key change |
| RxRuns.NoCreditTwice | drivers/net/ovpn-dco/ovpn.c:206-293 | over every mix of arrivals, loads, decryptions, polls and key changes, changes between the loads of a lookup and its decryption included: credits are for authentic packets only, never twice for one packet ID under one installation of a key, and what is delivered matches credits one to one and in order |
| RxRuns.TwiceMeansTwoKeys | drivers/net/ovpn-dco/crypto_aead.c:345-347 | in every run, bytes that are credited twice are so under two installations, and both keys accept them |
| RxRuns.BytesOnce | drivers/net/ovpn-dco/crypto_aead.c:345-347 | so no bytes are credited twice if no two installed keys accept a packet in common |
| RxRuns.TwiceExactly | drivers/net/ovpn-dco/crypto_aead.c:345-347 | bytes are credited under one key and then under another in some run if and only if both keys accept them |
| RxRuns.InstalledAgain | drivers/net/ovpn-dco/netlink.c:245-268 | the run: a key, a packet, a key again (the same one, if you like), the same packet, and two credits for it |
| RxPipeline.RxPeer.InstallKey | drivers/net/ovpn-dco/crypto.c:69-102 | a new key of its own generation takes its place and no other, a primary is found under its ID from then on, no other key changes, and no credit is lost |
| RxPipeline.RxPeer.DeleteKey | drivers/net/ovpn-dco/crypto.c:104-132 | the place is emptied and no other, no key changes, and no credit is lost |
| RxPipeline.RxPeer.SwapStore | drivers/net/ovpn-dco/crypto.c:138-155 | after the first store of a swap both places hold the old secondary, after the second they are exchanged, and no key changes |
| RxPipeline.RxPeer.Take | drivers/net/ovpn-dco/ovpn.c:296-302 | the oldest packet leaves the ring, with the primary if that has the key ID it names |
| RxPipeline.RxPeer.Look | drivers/net/ovpn-dco/crypto.h:97-107 | otherwise it gets the secondary, as it is by then, if that has the ID |
| RxPipeline.RxPeer.Recv | drivers/net/ovpn-dco/ovpn.c:177-204 | data packets join the ring in order while there is room; everything else goes to user space or back to the caller |
| RxPipeline.RxPeer.Decrypt | drivers/net/ovpn-dco/ovpn.c:218-236 | of all keys only the one looked up can change, only its window, only for an authentic packet, and then as the window's rule says; the packet passes if and only if that window takes it, with the payload the cipher gave |
| RxPipeline.RxPeer.Dispatch | drivers/net/ovpn-dco/ovpn.c:249-292 | a payload is queued exactly when it has room for an IP header that says version 4 or 6, is allowed, and there is room; a keepalive is consumed and the rest freed, each exactly once |
| RxPipeline.RxPeer.Settle | drivers/net/ovpn-dco/ovpn.c:232-292 | timer, learned address, statistics and the queue to the tun device change exactly for a packet that passes |
| RxPipeline.RxPeer.Finish | drivers/net/ovpn-dco/ovpn.c:206-293 | the packet in hand is finished under whatever keys there are by then: exactly one that is authentic and fresh under the key its lookup gave earns a credit, and it ends in exactly one place |
| RxPipeline.RxPeer.DecryptOne | drivers/net/ovpn-dco/ovpn.c:206-293 | the same for one turn of the worker with nothing in between |
| RxPipeline.RxPeer.DecryptWork | drivers/net/ovpn-dco/ovpn.c:295-316 | a worker left alone processes the whole ring in order, and windows, credits and queue are as the packets one by one make them |
| RxPipeline.RxPeer.Step | drivers/net/ovpn-dco/ovpn.c:177-316 | whatever happens next shows in the peer as specified and keeps it accounted for, in order and sound |
| RxPipeline.AnyRun | drivers/net/ovpn-dco/ovpn.c:127-316 | every run of a new peer: the state is the specified one, the timer was reset once per credit, credits are sound, deliveries match credits one to one and come in order of arrival, and nothing is lost once nothing waits |
| RxPipeline.RxPeer.NapiPoll | drivers/net/ovpn-dco/ovpn.c:127-150 | delivers the oldest `min(budget, queued)` packets and keeps the rest |
| RxPipeline.RxPeer.DeliveredInOrder | drivers/net/ovpn-dco/ovpn.c:127-316 | what the tun device got is a subsequence of what arrived |
| RxPipeline.RxPeer.NothingLost | drivers/net/ovpn-dco/ovpn.c:206-316 | once the rings are empty, freed, consumed and delivered packets are together exactly those that arrived |
| PeerTable.LinkIndexes | drivers/net/ovpn-dco/peer.c:729-735 | linking a peer in a bucket keeps the buckets an exact index |
| PeerTable.UnlinkIndexes | drivers/net/ovpn-dco/peer.c:789-794 | unlinking it does, too |
| PeerTable.InsertedSound | drivers/net/ovpn-dco/peer.c:694-751 | an addition keeps buckets, map of IDs, counts and the ledger of table references in agreement, for any hash functions |
| PeerTable.RemovedSound | drivers/net/ovpn-dco/peer.c:789-798 | so does a removal |
| PeerTable.BucketFinds | drivers/net/ovpn-dco/peer.c:632-645 | the bucket of an ID holds the peer the map has for it and no other with that ID, and all peers in it are alive |
| PeerTable.HoldThenPut | drivers/net/ovpn-dco/peer.h:120-128 | a put undoes a hold |
| PeerTable.Registry.constructor | drivers/net/ovpn-dco/ovpn.c:66 | an empty registry knows no peer and owes no reference |
| PeerTable.Registry.New | drivers/net/ovpn-dco/peer.c:255-274 | a new peer has its ID, is bound to its address if it has one, is listed nowhere, and its creator holds the one reference; every other peer is as it was |
| PeerTable.NewPeerIsFound | drivers/net/ovpn-dco/peer.c:683-754 | a peer made with an address and added under a free ID is what a lookup of that ID gives and is linked for that address |
| PeerTable.Registry.Hold | drivers/net/ovpn-dco/peer.h:120-123 | one more reference is out exactly if there was one, and every other peer is as it was |
| PeerTable.Registry.Put | drivers/net/ovpn-dco/peer.h:125-128 | a reference handed out can be put without the count going below zero, and every other peer is as it was |
| PeerTable.Registry.LookupId | drivers/net/ovpn-dco/peer.c:623-649 | walking the bucket is looking up the map; the peer found is held |
| PeerTable.Registry.Add | drivers/net/ovpn-dco/peer.c:683-754 | a peer is added exactly when its ID is free, is then listed under it and linked for its address, and the table takes over the caller's reference without the count changing; otherwise nothing changes |
| PeerTable.Registry.Unhash | drivers/net/ovpn-dco/peer.c:789-798 | the peer leaves all buckets, its ID is free, the table's reference is dropped, and every other peer is as it was |
| PeerTable.Registry.Del | drivers/net/ovpn-dco/peer.c:800-820 | succeeds exactly while the table has this very peer; otherwise nothing changes |
| PeerTable.Registry.DelFromMany | drivers/net/ovpn-dco/peer.c:800-820 | of any number of deletions of one peer exactly one succeeds if it was there, and the reference is dropped once |
| PeerTable.Registry.FreeAll | drivers/net/ovpn-dco/peer.c:869-879 | the table ends empty, has dropped every reference it ever took, and counts are what others hold |
| PeerTable.Registry.Float | drivers/net/ovpn-dco/peer.c:144-188 | a packet from another acceptable address moves the binding and nothing else |
| PeerTable.Registry.LookupTranspAddr | drivers/net/ovpn-dco/peer.c:564-608 | a peer found is bound to the source address; one is found exactly when one is linked under it, and missed only if every listed peer bound to it has floated there from an address of another bucket |
| PeerTable.LinkedWhereAdded | drivers/net/ovpn-dco/peer.c:703-732 | in every state a listed peer is linked for its present address if and only if that falls in the bucket of the one it was added with |
| PeerTable.FloatDoesNotRelink | drivers/net/ovpn-dco/peer.c:144-188 | so it stays through any number of floats |
| PeerTable.AllFreed | drivers/net/ovpn-dco/peer.c:869-879 | empty buckets mean an empty table, with every reference it took dropped |
| UdpReceive.FindNamed | drivers/net/ovpn-dco/udp.c:68-79 | only the peer with the named ID is held and moved |
| UdpReceive.FindPeer | drivers/net/ovpn-dco/udp.c:62-97 | a packet is attributed by the ID it names, or else by its source, and to nobody else |
| UdpReceive.AttributedByHeader | drivers/net/ovpn-dco/udp.c:62-97 | which of the two, and which ID, as the first four bytes of the packet decide |
| UdpReceive.UndefinedGoesByAddress | drivers/net/ovpn-dco/udp.c:65-84 | a data packet whose peer ID is all ones is treated, as to peer and binding, like any packet that is not data |
| UdpReceive.EncapRecv | drivers/net/ovpn-dco/udp.c:40-117 | exactly one reference is handed over with a packet that is taken and none is kept otherwise; only packets that are not data and fit no peer go to user space; bindings of other peers never move |

## Left out

- VPN-address lookup and reverse-path filtering: they depend on kernel routing; `allowed` stands for their answer.
- Point-to-point mode: one pointer instead of tables, easier than the multi-peer registry.
- Netlink parsing, policies and notifications: attribute plumbing; its calls appear as steps of the environment.
- UDP output, route caches, socket attach and detach: calls into the kernel's network stack.
- Contents of the transmit pipeline (segmentation, `ovpn_encrypt_one`, the list handling of `ovpn_encrypt_work`): only its ring, work item and references are modelled.
- Cipher internals, scatterlists, packet fragments, checksums and GSO: `seal` and `open` stand for the cipher, as in section 2.8 of RFC 7539.
- Deletion reason and order of notifications: the reason is written after the reference is put.
- Emptiness of the ring to the tun device when a peer is freed, and `napi_complete_done`: they depend on NAPI semantics outside the repository.
- Reordering of memory accesses: steps are sequentially consistent.
- `jiffies` of 32-bit kernels: only the 64-bit word is modelled.
- Debug messages that read key IDs, and statistics other than received bytes of a peer.
- `ovpn_crypto_state_release`: in `KeySlots` it is two deletes and two puts; that no other thread is left is not used.
- KeySlots.StepKeepsInv: models `crypto.c` as steps over values, not as a class, because its operations interleave with readers.
- PeerTable.Registry.LookupId: the registry keeps buckets and peer fields in one value instead of linked nodes, so pointers between list nodes are not modelled, nor lookups that run beside a change.
- RxPipeline.RxPeer.Finish: keeps each key's window as a value (the in-place window is `ReplayWindow.PktidRecv`), does not free retired keys (`KeySlots` does), and takes the learned address for peers that have a binding.
- RxPipeline.RxPeer.DecryptWork: is the worker left alone; arrivals and key changes beside it are in `AnyRun`.
- TcpSender.Transmitter.SendSkb: a ring takes packets until it holds 1024; the kernel's `ptr_ring` frees consumed places in batches, so it can refuse a little earlier.
- TcpSender.EndToEnd: asks that the receiver never ran out of memory, as `ParseOfConsumed` shows it must.
- Tunnel.Transfer: packets that leave the window or come after a silence are covered by `VerdictsAreExact`, not by this method.
- Tests, scripts, build files, `timer.h`, `addr.h` and device setup: no logic of their own here.
