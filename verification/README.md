# RTL8852AU driver: bridge database, command handshake and soft-AP bookkeeping

A Dafny model of three parts of the rtl8852au Linux driver, with proofs.

**NAT2.5 bridge** (`core/rtw_br_ext.c`). A chained hash table with back-pointers, ageing and use
counts maps network addresses to client MACs; around it sit in-place edits of packets.
`Nat25Db` is the database on values, `Nat25Table` the linked entries on the heap, `Nat25Map` what
a run means, `Nat25Shortcut` the one-entry cache that the transmit path keeps in front of it. `Pppoe` and `Packets` hold the PPPoE relay tag (RFC 2516, appendix A) and the packet
buffer, `BridgeFrames` the frame handler with its 802.1Q shift, `DhcpChecksum` the broadcast-flag
rewrite (section 3 of RFC 1624).

**Command handshake** (`core/rtw_cmd.c`). `CmdHandshake` is an interleaving model of any number of
submitters, whose completion context lies on their own stack, and the executor.

**Soft AP** (`core/rtw_ap.c`). `Tim` and `Beacon` are the TIM element and the editing of the beacon's
elements; `StaCounters` (values, runs) and `ApStations` (the object that is updated in place) the
station flags, counters and derived beacon fields (a word is the set of its one bits, so that masks
are unions and differences); `ApReadings` how frames of stations and bits of the
beacon are read, `ApPromises` what the beacon promises and which steps break it; `KeepAlive` expiry
with the active check built in, `KeepAliveBa` as the default build has it; `AclPool` the access list;
`BmcDrain` the held-back group frames. `ByteSeqs` and `Lists` are shared helpers.

Each object is a class whose methods are proved equal to a step function on values; the claims about
all runs, states and inputs are lemmas about those functions.

## What the proofs say about the code

Properties that hold of the code only under a condition are proved as "if and only if", with a
concrete failing case beside them:

- `_rtw_memcmp` returns true on equal bytes (`os_dep/osdep_service_linux.c:58-65`). `core/rtw_ap.c`
  uses it that way, `core/rtw_br_ext.c` negates it as if it were `memcmp`. `Env.equalIsZero` covers
  both readings: the table is a map under the one the database code expects; as linked, each bucket
  only ever holds one address and a client is found after its insert only if another address held
  its bucket (`InsertThenLookupExactly`).
- The shortcut in front of the database is searched by address alone, compared by MAC alone, and loses
  only its pointer when a search fails (`core/rtw_xmit.c:5834-5852`); sweeps and cleanups compare the
  pointer only. So it can name another client than the database does: after an ARP announcement by
  another client (`TakenOver`), after an IP frame of another client, which is cached without an
  INSERT (`TakenOverSilently`), or after the pair lost its entry (`OrphanReached`). It agrees over a
  run exactly if every step is safe in the sense of `Nat25Shortcut.Safe` (`SyncedExactlyWhenSafe`),
  and a client is reached exactly unless the shortcut answers with another MAC (`ClientReached`).
- `__nat25_add_pppoe_tag` takes the length from the tag in host order although it was stored in network order:
  a discovery frame is tagged exactly on a big-endian host (`InsertedExactly`, `LittleEndianRefuses`). A refusal after
  the client's own relay tag was cut out leaves it out (`Packets.Skb.InsertRelay`). The tags are moved
  by what the length field says: the move leaves the buffer exactly when that counts more bytes past
  the packet than there is room for (`InsideExactly`, `LongTagWritesPast`).
- The DHCP rewrite adds the new flags to the checksum without removing the old ones: it stays valid
  exactly if the old flags word was zero, and becomes the reserved value zero exactly if the old
  checksum equals the new flags.
- The handshake is safe in every interleaving exactly if neither side ignores an interrupted mutex
  wait, every executor path takes the mutex, no command exceeds the buffer, and nobody waits for a
  command that `core/rtw_phl_cmd.c` handles and frees while enqueueing it. The interruptible
  lock's result is ignored, `ap_free_cmdobj` completes without the mutex, and `rtw_enqueue_cmd`
  returns the filter's success for an oversized command it has already freed. `core/rtw_cmd.c:411`
  has its range test inverted, so every in-range command is freed by the executor itself; that is
  what the model does.
- `rtw_set_tim_ie` returns a `u8`: the count is right exactly for windows below 251 octets; at 251 the
  remainder of the beacon is copied over the TIM, which vanishes (`FullWindowVanishes`,
  `TimOverRuns`). With only the AID 0 bit in octet 0 the window starts too early (`GroupBitWidens`).
- `rtw_add_bcn_ie` does nothing where its place is taken by an empty element or there is none
  (`HiddenSsidBlocks`). The first TIM insertion assumes a third element with one octet of data; exactly
  then it falls on an element boundary (`BoundaryExactly`, `CountrySplit`).
- `num_sta_no_ht` is zeroed after a scan without touching the stations, and a station whose
  authentication expires is freed without its flags being taken back: counters equal stations
  exactly on runs that avoid both (`ConservedExactlyWhenCareful`). Once leaked, a count never
  comes back; a reset count can go to -1, which keeps mixed mode on. A station that re-authenticates
  while associated keeps its flags, so its expiry in the authentication list leaks them all.
- The comment above `rtw_ht_operation_update` counts stations without greenfield as non-HT; the code
  does not, and the model follows the code.
- A leave refreshes the HT Operation word but does not resend the beacon for it
  (`LeaveOnAirExactly`, `LeaveNotOnAir`); the Barker_Preamble_Mode bit is only written together with
  the NonERP bits (`BarkerExactly`, `BarkerStale`); and the channel width is only revised when the
  operation mode changes or a coexistence frame brings news, so the AP stays at 20 MHz after the
  client that asked for it left (`LeaveWidthExactly`, `LeaveStaysNarrow`). A start of the BSS writes
  the mode for legacy neighbours whatever the counters say (`core/rtw_ap.c:1556-1560`). For all of these
  `ApPromises.Kept` lists, event by event and on the state before, what keeps the promise, and
  `KeptExactly` says that over a run it holds throughout exactly when every step is of that kind.
- The watchdog's comment speaks of ten calls between two updates of the mode; the counter goes on from
  two, so that after the first there are nine (`QuietPeriod`).
- The expiry check of the default build subtracts 50 from the table's budget in unsigned arithmetic
  (`core/rtw_ap.c:526`). `os_dep/linux/ioctl_cfg80211.c:5219` sets the budget to 3 in P2P mode: every
  aggregating station is then cut short at every check, traffic or not, and dropped at the second unless
  it answers the ADDBA request (`LiveDropped`); stations that are heard are spared exactly without HT or
  from a budget of 50 on (`SparesExactly`).

## Model

| member | source | states |
|---|---|---|
| Nat25Db.KeysAreInjective | core/rtw_br_ext.c:160-220 | IPv4 addresses and PPPoE (concentrator, session) pairs have distinct keys, and the families never meet |
| Nat25Db.Ipv6Apart | core/rtw_br_ext.c:206-214 | so have IPv6 addresses, apart from the others |
| Nat25Db.HashSpreads | core/rtw_br_ext.c:323-372 | changing one byte of an IPv4 address, or of a session number, moves it to another bucket exactly when the byte's low four bits change |
| Nat25Db.Hash | core/rtw_br_ext.c:323-372 | the bucket is below 16 for every key |
| Nat25Db.ExpiryIsAge | core/rtw_br_ext.c:140-157 | the wrapped tick comparison says expired exactly when the age limit is reached, while stamp and clock are within half the range |
| Nat25Db.FindIndex | core/rtw_br_ext.c:406-419 | the walk stops at the first entry the comparison accepts and passes none |
| Nat25Table.Bucket.Link | core/rtw_br_ext.c:375-388 | puts the entry at the head of the chain; all back-pointers stay exact |
| Nat25Table.Bucket.Unlink | core/rtw_br_ext.c:391-404 | takes exactly one entry out of its chain; the others keep order and exact back-pointers |
| Nat25Table.Bucket.Insert | core/rtw_br_ext.c:479-514 | chain contents change as the value-level insert says |
| Nat25Table.Bucket.Lookup | core/rtw_br_ext.c:406-473 | answers and counts as the value-level lookup says |
| Nat25Table.Bucket.Sweep | core/rtw_br_ext.c:640-714 | the in-place walk that unlinks while going leaves exactly the swept chain, and the shortcut never dangles |
| Nat25Table.Bucket.Clean | core/rtw_br_ext.c:609-625 | empties the chain and clears a shortcut into it |
| Nat25Table.Table.constructor | core/rtw_br_ext.c:604-630 | an empty, valid table without shortcut |
| Nat25Table.Table.Insert | core/rtw_br_ext.c:479-514 | keeps chains acyclic, disjoint, hashed right; contents step as Insert |
| Nat25Table.Table.Lookup | core/rtw_br_ext.c:406-473 | the same for a lookup, with the answer |
| Nat25Table.Table.Remember | core/rtw_xmit.c:5834-5852 | all branches: another client's frame points the shortcut at its address if linked and leaves the pair otherwise; the same client's refreshes its entry, or clears the pair without one; the result says whether INSERT is skipped |
| Nat25Table.Table.Expire | core/rtw_br_ext.c:633-718 | all sixteen buckets are swept; the shortcut stays as it was, or is cleared because its own entry was removed |
| Nat25Table.Table.Cleanup | core/rtw_br_ext.c:604-630 | the table is empty; the pair is cleared if it had an entry and stays otherwise |
| Nat25Map.DenotesOnce | core/rtw_br_ext.c:375-514 | a table denotes exactly one map |
| Nat25Map.StepRefines | core/rtw_br_ext.c:406-718 | every operation on the table is the operation on the map |
| Nat25Map.RunRefines | core/rtw_br_ext.c:406-718 | over every run the table is the map from key to (MAC, time, uses), keys unique, uses at least one |
| Nat25Map.AskRefines | core/rtw_br_ext.c:406-473 | a lookup answers what the map says |
| Nat25Map.InsertThenLookup | core/rtw_br_ext.c:406-514 | until ageing, lookups give the MAC inserted last, whatever else happens in between |
| Nat25Map.TouchThenLookup | core/rtw_xmit.c:5838-5846 | a refresh restarts the age: the client is found until the limit counted from it |
| Nat25Map.InsertedGoes | core/rtw_br_ext.c:479-514 | a new entry has one use and an old one keeps its uses: so many sweeps remove it once aged |
| Nat25Map.NothingLinked | core/rtw_br_ext.c:499-625 | an insert without memory changes nothing, and a cleanup leaves nothing |
| Nat25Map.FreshStays | core/rtw_br_ext.c:641-714 | no sweep removes an unexpired entry; each lookup adds one use |
| Nat25Map.ExpiredGoes | core/rtw_br_ext.c:641-714 | an expired entry with k uses, not re-inserted, goes at exactly the k-th sweep |
| Nat25Map.ExpiredGoesFromTable | core/rtw_br_ext.c:641-714 | the same seen through lookups on the table |
| Nat25Map.InvertedRun | os_dep/osdep_service_linux.c:58-65 | with the linked comparison every bucket holds copies of one address, over every run |
| Nat25Map.InvertedAsk | os_dep/osdep_service_linux.c:58-65 | a linked address is never found; an unlinked one finds the bucket's other client |
| Nat25Map.InsertThenLookupExactly | core/rtw_br_ext.c:414 | when a lookup right after the insert succeeds, under either comparison |
| Nat25Map.InvertedCounterexample | core/rtw_br_ext.c:490 | one client, one insert, one lookup: not found |
| Nat25Shortcut.StepSyncedExactly | core/rtw_xmit.c:5834-5852 | one step keeps the cached pair in agreement with the database exactly when it is safe |
| Nat25Shortcut.SyncedExactlyWhenSafe | core/rtw_xmit.c:5834-5852 | over every run of inserts, lookups, client IP frames, sweeps and cleanups, the pair agrees throughout if and only if every step is safe |
| Nat25Shortcut.GroundedOverRuns | core/rtw_xmit.c:5834-5852 | over every run, safe or not, the cached pointer never points at an entry that is gone or of another address |
| Nat25Shortcut.SourceMeans | core/rtw_xmit.c:5834-5852 | what a client's IP frame does to the pair and the database, in each case |
| Nat25Shortcut.TakenOver | core/rtw_xmit.c:5834-5852 | a cached address announced by another client: the database has the new one, the pair the old |
| Nat25Shortcut.TakenOverSilently | core/rtw_xmit.c:5836-5843 | a cached address used by another client's IP frame: the pair has the new one, the database keeps the old |
| Nat25Shortcut.OrphanStays | core/rtw_br_ext.c:702-706 | a pair without its entry outlives every run of sweeps, cleanups, inserts and lookups |
| Nat25Shortcut.OrphanReached | core/rtw_xmit.c:5836-5837 | a second, unknown client orphans the first one's pair, which still answers from an emptied database |
| Nat25Shortcut.Note | core/rtw_xmit.c:5834-5852 | the transmit path's part on the table itself |
| Nat25Shortcut.SendOut | core/rtw_xmit.c:5834-5852 | with the INSERT that follows, the table and its shortcut step as the site does |
| Nat25Shortcut.InsertInto | core/rtw_br_ext.c:479-514 | so does an INSERT |
| Nat25Shortcut.LookUp | core/rtw_br_ext.c:406-473 | so does a LOOKUP, with its answer |
| Nat25Shortcut.AgeOut | core/rtw_br_ext.c:633-718 | so does a sweep: the pair is cleared exactly when its address is removed |
| Nat25Shortcut.EmptyOut | core/rtw_br_ext.c:604-630 | so does a cleanup |
| Pppoe.FindFirst | core/rtw_br_ext.c:82-98 | the walk finds the first tag of its type in a well-formed frame |
| Pppoe.FindNone | core/rtw_br_ext.c:82-98 | and none where there is none |
| Pppoe.StripRestores | core/rtw_br_ext.c:973-1013 | LOOKUP gives the frame the client's MAC and its own tags, in order, with an exact length field |
| Pppoe.StripRefusesExactly | core/rtw_br_ext.c:985-1000 | an answer with a relay tag is refused if and only if the tag is shorter than eight bytes or lacks the driver's mark |
| Pppoe.StripRefusesNone | core/rtw_br_ext.c:980-984 | an answer without one is refused |
| Pppoe.PrefixedKeeps | core/rtw_br_ext.c:96-117 | for any frame: the tag in front, the length counting it, no byte of the packet's tag area lost |
| Pppoe.TagOnTheWire | core/rtw_br_ext.c:928-934 | the bytes of the driver's tag |
| Pppoe.CopyLenExact | core/rtw_br_ext.c:100-117 | the copied length is the tag's size exactly on a big-endian host; otherwise it exceeds the buffer |
| Pppoe.InsertedExactly | core/rtw_br_ext.c:902-937 | when a frame with a relay tag of any length gets the driver's tag; on a big-endian host a well-formed frame never leaves the buffer |
| Pppoe.InsertedExactlyWithout | core/rtw_br_ext.c:902-937 | the same for a frame without one |
| Pppoe.LittleEndianRefuses | core/rtw_br_ext.c:105-109 | on a little-endian host a frame is refused exactly for want of 2052 bytes, and otherwise the copy leaves the tag's buffer |
| Pppoe.LittleEndianRefusesMore | core/rtw_br_ext.c:105-109 | the same for a frame that carries a relay tag, with 256 bytes more for each of its bytes |
| Pppoe.InsideExactly | core/rtw_br_ext.c:111-113 | for any frame without a relay tag, when moving the tags writes past the buffer |
| Pppoe.LongTagWritesPast | core/rtw_br_ext.c:111-113 | a frame whose only tag claims 65535 bytes does |
| Pppoe.RelayRoundTrip | core/rtw_br_ext.c:902-1013 | tag, echo among other tags, strip: client MAC, the client's relay tag and all other tags are back |
| Pppoe.RelayRoundTripWithout | core/rtw_br_ext.c:902-1013 | the same for a client without a relay tag, who gets none |
| Packets.TagRoundTrip | core/rtw_br_ext.c:1206-1256 | an 802.1Q tag stands behind the addresses, and taking it out restores the frame |
| Packets.Skb.PullAndMerge | core/rtw_br_ext.c:119-138 | bytes cut out of the packet, or a refusal that changes nothing |
| Packets.Skb.FindTag | core/rtw_br_ext.c:82-98 | the in-place walk computes the specified one |
| Packets.Skb.AddTag | core/rtw_br_ext.c:100-117 | for any length field: the tag in front of what the packet has of the tags and the field raised, a refusal for lack of room, or a stop where the move would leave the buffer |
| Packets.Skb.OpenRelay | core/rtw_br_ext.c:909-925 | takes the client's relay tag out in place |
| Packets.Skb.InsertRelay | core/rtw_br_ext.c:902-937 | the PADI/PADR arm in place, refusals included |
| Packets.Skb.StripRelay | core/rtw_br_ext.c:973-1013 | the PADO/PADS arm in place, refusals included |
| Packets.Skb.StripVlan | core/rtw_br_ext.c:1182-1188 | the overlapping two-byte shifts and the pull remove exactly the tag |
| Packets.Skb.RestoreVlan | core/rtw_br_ext.c:1218-1224 | the push and the shifts put it back |
| BridgeFrames.TaggingCommutes | core/rtw_br_ext.c:1178-1224 | for every unicast frame, handling commutes with the 802.1Q tag |
| BridgeFrames.DoLookup | core/rtw_br_ext.c:766-1035 | LOOKUP in place equals the specified rewriting, and steps the database |
| BridgeFrames.DoHandleFrame | core/rtw_br_ext.c:1158-1233 | the whole handler in place equals the specified one, and a singly tagged frame comes out as the frame inside would under the same tag |
| BridgeFrames.ClientReached | core/rtw_br_ext.c:1197-1206 | after a client's IP, ARP or session frame, frames for its address get its MAC until ageing, if and only if the shortcut does not answer with another |
| BridgeFrames.ReachedWhenSynced | core/rtw_br_ext.c:1197-1206 | where the cached pair agrees with the database, shortcut and database give the same client |
| BridgeFrames.ReachedOnSafeRuns | core/rtw_br_ext.c:1197-1206 | so on every safe run from an empty bridge an IP frame for a client that has not aged gets its MAC |
| BridgeFrames.TakenOverNotReached | core/rtw_br_ext.c:1197-1200 | and after a take-over it goes to the old client |
| BridgeFrames.IpAnswered | core/rtw_br_ext.c:787-817 | where an IP frame goes: to the cached client, the map's client, where it was going if that one aged, and for an unknown address to all if it ends in 255 or to the bridge |
| BridgeFrames.ArpAnswered | core/rtw_br_ext.c:862-881 | an ARP frame names the map's client outside and inside, or keeps its destination and names that |
| BridgeFrames.SessionAnswered | core/rtw_br_ext.c:1021-1030 | a session frame goes to its client, is left alone, or is refused without a session |
| BridgeFrames.Ipv6Answered | core/rtw_br_ext.c:1078-1135 | an IPv6 frame by its destination; one without payload is refused |
| BridgeFrames.DiscoveryAnswered | core/rtw_br_ext.c:972-1020 | offers and confirmations, with relay tags and without |
| BridgeFrames.OthersUntouched | core/rtw_br_ext.c:1043-1145 | group frames and unknown protocols are left alone, the latter refused but for three types |
| BridgeFrames.MalformedRefused | core/rtw_br_ext.c:765-835 | overlong IP headers, ARP for other protocols and other discovery codes are refused |
| BridgeFrames.IpFramesMeet | core/rtw_br_ext.c:777-806 | two IP frames meet exactly when destination is source |
| BridgeFrames.ArpFramesMeet | core/rtw_br_ext.c:840-876 | an ARP or IP frame meets the ARP frame of a sender exactly when it asks for the sender's address |
| BridgeFrames.SessionFramesMeet | core/rtw_br_ext.c:951-1028 | session frames meet exactly for one concentrator and one nonzero session |
| BridgeFrames.NothingAnnounced | core/rtw_br_ext.c:767-783 | when an IP frame announces nothing |
| DhcpChecksum.FoldCarry | core/rtw_br_ext.c:1316-1317 | the carry loop ends and keeps the residue modulo 65535 |
| DhcpChecksum.SetBroadcast | core/rtw_br_ext.c:1307-1319 | the flag is set and the checksum patched in place, nothing else changes |
| DhcpChecksum.OnlyTheFlag | core/rtw_br_ext.c:1313 | the flag is or-ed into the flags word; no other word changes but the checksum |
| DhcpChecksum.ValidExactlyWhenFlagsZero | core/rtw_br_ext.c:1307-1319 | for any packet length, validity is kept if and only if the old flags were zero |
| DhcpChecksum.ZeroExactlyWhenEqual | core/rtw_br_ext.c:1314-1318 | when the patched checksum is the reserved zero |
| DhcpChecksum.ZeroChecksumReached | core/rtw_br_ext.c:1314-1318 | a valid packet whose checksum becomes the reserved zero |
| DhcpChecksum.AbsentChecksumAppears | core/rtw_br_ext.c:1314-1318 | a packet without checksum gets one, but for one flags value |
| DhcpChecksum.ByteOrderIrrelevant | core/rtw_br_ext.c:1314-1318 | validity does not depend on the host's byte order |
| DhcpChecksum.NonzeroFlagsCounterexample | core/rtw_br_ext.c:1307-1319 | a valid packet made invalid |
| CmdHandshake.StepKeepsInv | core/rtw_cmd.c:343-419 | every step of either side keeps the invariant |
| CmdHandshake.InvHolds | core/rtw_cmd.c:223-419 | so does every run |
| CmdHandshake.SafeExactlyWhenCareful | core/rtw_cmd.c:388-419 | no dead context, freed object or double free in any interleaving, if and only if the locks hold, no command is oversized and nobody waits for one handled inline |
| CmdHandshake.SubmitterUnlockedFails | core/rtw_cmd.c:725-731 | an interrupted submitter writes a freed object |
| CmdHandshake.ExecutorUnlockedFails | core/rtw_ap.c:5914-5930 | an executor without the mutex writes a stack frame that is gone |
| CmdHandshake.OversizeFails | core/rtw_cmd.c:223-256 | a submitter touches an oversized command that enqueueing freed |
| CmdHandshake.InlineWaitFails | core/rtw_phl_cmd.c:204-214 | so does a submitter that waits for a command handled and freed while enqueueing |
| CmdHandshake.FinishedCommand | core/rtw_cmd.c:327-419 | object and parameter buffer freed exactly once, inline commands included; a submitter that heeds the outcome reports success only for a successful handler |
| CmdHandshake.SuccessExactly | core/rtw_cmd.c:5743-5752 | over every careful run a submitter that waits and reads the outcome reports success if and only if its handler ran successfully and was completed before it gave up |
| CmdHandshake.RunExactly | core/rtw_cmd.c:223-419 | a handler is started once if its command was accepted and never otherwise; a submitter that reads no outcome reports exactly whether it was taken |
| CmdHandshake.WakesExactly | core/rtw_cmd.c:343-419 | no lost wake-up: a waiting submitter can go on without its timeout exactly when the executor is past completing |
| CmdHandshake.SomeStepPossible | core/rtw_cmd.c:5743-5752 | no deadlock: while a command is unfinished, a step other than the arrival of a new command is possible |
| CmdHandshake.StepLowersRank | core/rtw_cmd.c:223-419 | every such step brings its own command nearer to its end and leaves the others alone |
| CmdHandshake.RunsEnd | core/rtw_cmd.c:223-419 | no livelock: in every system a run without new commands has at most sixteen steps per command |
| CmdHandshake.HaltsExactlyWhenThrough | core/rtw_cmd.c:327-419 | a careful run comes to a halt exactly where every submitter has returned and everything was freed once |
| CmdHandshake.CanComplete | core/rtw_cmd.c:327-419 | and can be brought there from every reachable state |
| Tim.Window | core/rtw_ap.c:48-85 | the two scans find the window |
| Tim.SetTimIe | core/rtw_ap.c:48-85 | the element is written in place and the count returned modulo 256 |
| Tim.TimRoundTrip | core/rtw_ap.c:48-85 | a receiver reads back every AID bit of every bitmap, the id, the length, the DTIM count and the DTIM period |
| Tim.ReturnedCountExact | core/rtw_ap.c:48-85 | when the returned count is the bytes written |
| Tim.FullWindowWraps | core/rtw_ap.c:84 | stations in the first and last octet: 256 bytes written, zero returned |
| Tim.WindowCovers | core/rtw_ap.c:55-71 | no station's bit lies outside |
| Tim.WindowMinimal | core/rtw_ap.c:55-71 | the window is minimal up to even alignment, but for AID 0 alone |
| Tim.GroupBitWidens | core/rtw_ap.c:55-62 | group traffic and one far station: a window two octets too wide |
| Beacon.AddedSorted | core/rtw_ap.c:167-233 | adding keeps ids sorted |
| Beacon.AddedKeepsOthers | core/rtw_ap.c:167-233 | the list of all elements with another id, repeated ids included, is unchanged and in order |
| Beacon.RemovedKeepsOthers | core/rtw_ap.c:235-270 | the same for removal |
| Beacon.AddedIsSeen | core/rtw_ap.c:167-233 | when the new element is found, and that nothing changes otherwise |
| Beacon.HiddenSsidBlocks | core/rtw_ap.c:167-233 | rates cannot be added behind an empty SSID |
| Beacon.AddThenRemove | core/rtw_ap.c:167-270 | removing an added new element restores the area |
| Beacon.AddedBetween | core/rtw_ap.c:167-233 | the add place by place: replaced, put in between, or nothing |
| Beacon.RemovedBetween | core/rtw_ap.c:235-270 | the first element of its id goes if not empty; later ones stay |
| Beacon.RemovedNone | core/rtw_ap.c:235-270 | where there is none nothing is removed |
| Beacon.Bss.GetIe | core/rtw_ieee80211.c:330-354 | finds the first element of an id |
| Beacon.Bss.AddIe | core/rtw_ap.c:167-233 | the in-place edit is the list edit, with exact length |
| Beacon.Bss.RemoveIe | core/rtw_ap.c:235-270 | the same for removal |
| Beacon.Bss.UpdateTim | core/rtw_ap.c:87-165 | the TIM replaced or inserted in place, everything else unchanged; a TIM of 256 bytes is overwritten by what follows |
| Beacon.BoundaryExactly | core/rtw_ap.c:116-136 | when the computed place of the first TIM is an element boundary |
| Beacon.CountrySplit | core/rtw_ap.c:116-136 | with a Country element third it is not |
| Beacon.TimOverRuns | core/rtw_ap.c:87-165 | after every run of updates: one TIM, decoding to the last bitmap as a DTIM, the rest in order, if the last window is below 251 octets; the other elements alone if it is 251 |
| Beacon.TimReplaces | core/rtw_ap.c:87-165 | wherever a beacon has its TIM, the update takes that place |
| Beacon.FullWindowVanishes | core/rtw_ap.c:152-161 | such an update, with AID 2007 set, leaves no TIM |
| StaCounters.StepDrift | core/rtw_ap.c:3242-3710 | each counter follows its stations in every event, but for the two leaks, by exactly their amount |
| StaCounters.LeaveClears | core/rtw_ap.c:3657-3704 | a leave clears all flags of its station and no other's |
| StaCounters.ConservedExactlyWhenCareful | core/rtw_ap.c:3242-3710 | over every run, counters equal stations throughout if and only if the two leaking steps are taken only when harmless |
| StaCounters.LeaksOnlyGrow | core/rtw_ap.c:3657-3704 | over every run no counter but num_sta_no_ht falls behind, leaks stay, and the warning at leave is unreachable |
| StaCounters.AuthExpiryLeaks | core/rtw_ap.c:475-481 | a client intolerant before association and expired is counted for good |
| StaCounters.ScanLeavesNegative | core/rtw_ap.c:1448 | the reset drives the counter to -1 and keeps mixed mode on with nobody marked |
| StaCounters.NonErpOverRuns | core/rtw_ap.c:2929-2961 | over every run the NonERP bits, in the buffer and as handed over, are on exactly while the count is positive |
| StaCounters.ProtectionMeansClients | core/rtw_ap.c:3495-3519 | on careful runs protection is announced exactly while some client is associated whose latest association said non-ERP |
| StaCounters.BarkerExactly | core/rtw_ap.c:2953-2956 | when a join keeps the Barker bit right |
| StaCounters.BarkerStale | core/rtw_ap.c:3464-3475 | a long-preamble station joins an ERP network and the bit stays off |
| StaCounters.HtModeOverRuns | core/rtw_ap.c:3343-3412 | from the last join or leave on, the operation mode is what counters and neighbours call for |
| StaCounters.HtModeOfStations | core/rtw_ap.c:3331-3405 | on conserved counters the mode speaks of the stations themselves |
| StaCounters.UpdateTwice | core/rtw_ap.c:3343-3412 | a second update in a row changes nothing |
| StaCounters.HtFieldOverRuns | core/rtw_ap.c:3044-3045 | refreshing only on a positive return keeps the beacon's word equal to ht_op_mode, with HT on or without a start of the BSS |
| StaCounters.StartFollows | core/rtw_ap.c:1556-1560 | and a start parts them exactly with HT off, a legacy neighbour and another mode before |
| StaCounters.LeaveOnAirExactly | core/rtw_ap.c:3706-3720 | the beacon handed over keeps up with a leave exactly unless the mode wanted without the station differs and nothing else has it resent |
| StaCounters.LeaveShiftsExactly | core/rtw_ap.c:3343-3412 | on conserved counters and an up-to-date mode, a leave changes the mode exactly when the station is the last one the mode shows |
| StaCounters.LastLeaveOnAir | core/rtw_ap.c:3706-3720 | the condition for the beacon on the air, read off the counters before the leave |
| StaCounters.LeaveNotOnAir | core/rtw_ap.c:3706-3720 | the last station without greenfield leaves and the beacon on the air does not follow |
| StaCounters.RefreshDecidesWidth | core/rtw_ap.c:3003-3042 | on channels up to 14 with 40 MHz configured, a refresh goes to 20 MHz exactly while something asks for it, and shows it |
| StaCounters.PublishWidthExactly | core/rtw_ap.c:3612-3616 | a join or leave keeps the width right exactly when it changes the mode wanted or leaves the demand for 20 MHz as it was |
| StaCounters.LeaveWidthExactly | core/rtw_ap.c:3698-3709 | after a leave it is wrong exactly when the station was the last to ask for 20 MHz and the mode does not change; on conserved counters, when it was not the last one the mode shows |
| StaCounters.CoexKeepsWidth | core/rtw_ap.c:3262-3296 | a coexistence frame always does |
| StaCounters.LeaveStaysNarrow | core/rtw_ap.c:3698-3709 | the only intolerant client leaves and the AP stays at 20 MHz |
| ApPromises.BarkerStep | core/rtw_ap.c:2929-2961 | the steps that keep the Barker bit right: all but joins and leaves at which the long-preamble count crosses and the non-ERP count does not |
| ApPromises.ModeStep | core/rtw_ap.c:3343-3412 | the steps that keep the operation mode right: not the news of a legacy neighbour, its forgetting, a reset count, or a start, where they make a difference |
| ApPromises.AirStep | core/rtw_ap.c:3706-3720 | the steps after which the beacon on the air shows the buffer's HT Operation: all but some leaves |
| ApPromises.WidthStep | core/rtw_ap.c:2969-3050 | the steps that keep the width right, for every event |
| ApPromises.KeptExactly | core/rtw_ap.c:3242-3730 | over every run each of the four holds throughout if and only if every step is one that keeps it |
| ApReadings.CoexMeans | core/rtw_ap.c:3258-3296 | a coexistence frame is read as its sender built it: intolerance marks and counts the station, a width request and a channel report are noted, news goes on the air, and nothing else changes |
| ApReadings.OthersIgnored | core/rtw_ap.c:3249-3290 | other elements and strangers say nothing |
| ApReadings.FlagsOverRuns | core/rtw_ap.c:3445-3704 | over every run each flag of each station is set exactly when what it said last makes it so |
| ApReadings.JoinSends | core/rtw_ap.c:3464-3636 | the joins that hand the beacon over, and that the others leave the air as it is |
| ApReadings.LeaveSends | core/rtw_ap.c:3641-3730 | the same for leaves |
| ApReadings.QuietPeriod | core/rtw_cmd.c:2759-2792 | without legacy networks the mode is brought up to date at the call at which the counter stands at ten, and every ninth from then on |
| ApReadings.LegacyTakenUp | core/rtw_cmd.c:2777-2790 | a legacy network is taken up at once and forgotten |
| ApReadings.ModeBits | core/rtw_ap.c:3331-3405 | the two bits of the mode as a station reads them, on conserved counters |
| ApReadings.BitsOverRuns | core/rtw_ap.c:2929-3050 | over every run the other bits of ERP octet, HT information and mode word stay, and up to channel 14 the width bits show the state both ways |
| ApReadings.WidthMovesExactly | core/rtw_ap.c:3003-3042 | when a refresh goes down to 20 MHz, comes back to 40, and what it then writes, on any channel |
| ApReadings.UntouchedOverRuns | core/rtw_ap.c:2929-3050 | what stays untouched before the start, with ERP off, with HT off, and above channel 14 |
| ApReadings.JoinWithoutHt | core/rtw_ap.c:3527-3616 | a join on an AP without HT leaves the mode alone |
| ApReadings.IntolerantNeverNegative | core/rtw_ap.c:3698-3704 | whatever the counters say, the guarded one never falls below zero |
| ApReadings.LeaveWarnsExactly | core/rtw_ap.c:3698-3704 | which leave raises the warning |
| ApStations.Ap.constructor | core/rtw_ap.c:4062-4092 | the reset state is conserved |
| ApStations.Ap.NewMode | core/rtw_ap.c:3359-3411 | the masks applied branch by branch give the wanted word; the count is zero exactly when nothing changes |
| ApStations.Ap.HtOperationUpdate | core/rtw_ap.c:3343-3412 | the same in place; with HT off nothing is done; afterwards nothing is left to change |
| ApStations.Ap.UpdateErp | core/rtw_ap.c:2929-2961 | the two masks on the ERP octet, other bits kept |
| ApStations.Ap.UpdateHt | core/rtw_ap.c:2969-3050 | the width bits, sw_to_20mhz and the operation mode word in place |
| ApStations.Ap.Join | core/rtw_ap.c:3445-3636 | flags, counters, beacon and transmission step as a join |
| ApStations.Ap.Leave | core/rtw_ap.c:3641-3730 | the same for a leave, and the returned flag |
| ApStations.Ap.Coex | core/rtw_ap.c:3242-3300 | the same for a BSS coexistence frame, unknown senders included |
| ApStations.Ap.Authenticate | core/rtw_mlme_ext.c:2471-2489 | a new record has no flag set |
| ApStations.Ap.Release | core/rtw_ap.c:475-481 | a record goes, counters untouched |
| ApStations.Ap.ScanDone | core/rtw_ap.c:1425-1449 | the end of a scan |
| ApStations.Ap.LegacyBeacon | core/rtw_mlme_ext.c:2064-2071 | a legacy neighbour is noted |
| ApStations.Ap.Start | core/rtw_ap.c:1552-1587 | the mode written at a start, the element refreshed and the beacon sent |
| ApStations.Ap.Tick | core/rtw_cmd.c:2743-2794 | the periodic update for legacy neighbours, with its guards and its counter of ten |
| KeepAlive.TriesBounded | core/rtw_ap.c:690-705 | between checks the try count is at most three |
| KeepAlive.ExpiresExactly | core/rtw_ap.c:511-720 | a silent station with budget e and failing probes is there after n checks exactly when n < e + 3, however it sleeps |
| KeepAlive.Restored | core/rtw_ap.c:511-700 | traffic or an answered probe restores the full budget |
| KeepAlive.RestoredThenExpires | core/rtw_ap.c:511-720 | after traffic, whatever came before, it lasts exactly budget + 3 silent checks |
| KeepAlive.DroppedOnlyAfterFour | core/rtw_ap.c:690-720 | over every run a deleted station was silent and unanswered in the last four checks |
| KeepAlive.WifiSpecKeeps | core/rtw_ap.c:544-547 | the certification setting never drops |
| KeepAlive.OthersKept | core/rtw_ap.c:684-686 | a record that is no longer associated is not dropped by the check |
| KeepAlive.AuthLastsExactly | core/rtw_ap.c:456-481 | a station that only authenticated is on the list after n checks exactly when n is below its count, and is freed with it |
| KeepAlive.PassiveExpiry | core/rtw_ap.c:602-626 | without probing, the exact check that drops a silent station, however it sleeps: at the end of its budget, or of a second one if it slept unmarked then |
| KeepAlive.Table.AgeAuth | core/rtw_ap.c:447-472 | the authentication list is counted down once each, the due ones listed without overrun |
| KeepAlive.Table.Flush | core/rtw_ap.c:475-481 | the listed ones are freed |
| KeepAlive.Table.ExpireAuth | core/rtw_ap.c:438-481 | exactly the stations with one check left are flushed |
| KeepAlive.Table.AgeAll | core/rtw_ap.c:496-626 | the ageing loop ages each listed station once and never overruns its list |
| KeepAlive.Table.ProbeOne | core/rtw_ap.c:684-710 | one round of the check loop |
| KeepAlive.Table.ProbeAll | core/rtw_ap.c:671-722 | the check loop judges each listed station and unlinks exactly the dropped ones |
| KeepAlive.Table.FreeAll | core/rtw_ap.c:724-741 | the delete loop frees exactly the noted ones |
| KeepAlive.Table.ExpireAsoc | core/rtw_ap.c:483-741 | the association list's share |
| KeepAlive.Table.ExpireCheck | core/rtw_ap.c:403-755 | the authentication list is counted down and flushed, and the three loops over the association list are one independent check per station; survivors and freed ones keep their order |
| KeepAliveBa.TriesBounded | core/rtw_ap.c:557-594 | over every run at most four requests are counted |
| KeepAliveBa.WifiSpecKeeps | core/rtw_ap.c:544-547 | the certification setting never drops, nor is a record dropped that is no longer associated |
| KeepAliveBa.FrameMeans | core/rtw_recv.c:1564-1568 | which frames answer a pending request |
| KeepAliveBa.AnswerMeans | core/rtw_mlme_ext.c:4128-4155 | what an ADDBA response settles |
| KeepAliveBa.AnsweredExpiresExactly | core/rtw_mlme_ext.c:4149-4155 | after an answer the station has its full budget, and lasts as if never asked |
| KeepAliveBa.TornDownExactly | core/rtw_ap.c:530-537 | the exact check that tears a quiet station's agreements down, all of them and those asked for: the third from a full budget |
| KeepAliveBa.HeardRestoresExactly | core/rtw_ap.c:511-537 | traffic restores the budget exactly unless the station aggregates and the budget is below 50 |
| KeepAliveBa.DroppedOnlyAfterGrace | core/rtw_ap.c:511-626 | over every run, a dropped station was not heard at the last fifty checks, or, without HT, at as many as the budget |
| KeepAliveBa.LiveDropped | core/rtw_ap.c:526-529 | with a smaller budget an aggregating station that keeps sending is dropped at the second check |
| KeepAliveBa.SparesExactly | core/rtw_ap.c:526-529 | a station heard before the check is never dropped if and only if wifi_spec is set, it has no HT, or the budget is at least 50 |
| KeepAliveBa.AwakeExpiresExactly | core/rtw_ap.c:511-626 | the exact check that drops a silent, waking station: first spent budget, plus one per request whose timer ran out in time, at most four |
| KeepAliveBa.SilentMeansGone | core/rtw_ap.c:511-626 | asleep or awake, aggregating or not, a silent station is gone within its budget, eight checks and a second budget, if no request is pending at a check |
| KeepAliveBa.SleeperExpiresExactly | core/rtw_ap.c:575-612 | a station that always sleeps reaches that bound |
| KeepAliveBa.NeverGone | core/rtw_ap.c:565-612 | a sleeping station with a request pending at every check is never dropped |
| KeepAliveBa.Station.Age | core/rtw_ap.c:511-518 | the budget restored or counted down in place |
| KeepAliveBa.Station.Watch | core/rtw_ap.c:521-537 | the two thresholds in unsigned arithmetic |
| KeepAliveBa.Station.Ask | core/rtw_ap.c:564-594 | the ADDBA request |
| KeepAliveBa.Station.Judge | core/rtw_ap.c:541-626 | what becomes of a station whose budget is spent |
| KeepAliveBa.Station.CheckExpiry | core/rtw_ap.c:507-722 | one check of one station |
| KeepAliveBa.Station.Vouch | core/rtw_recv.c:1564-1568 | a PS-Poll takes the mark back and restores the budget |
| KeepAliveBa.Station.TakeAnswer | core/rtw_mlme_ext.c:4128-4155 | an ADDBA response does, and settles its agreement |
| AclPool.RunRefinesSet | core/rtw_ap.c:2436-2555 | over every run the list is a set of at most sixteen addresses |
| AclPool.OrderKept | core/rtw_ap.c:2436-2555 | additions go to the end, removals close up, the seventeenth is refused |
| AclPool.Pool.constructor | core/rtw_ap.c:2342-2370 | an empty pool, disabled |
| AclPool.Pool.Search | core/rtw_ap.c:2459-2471 | finds an address exactly when it is listed |
| AclPool.Pool.FindFree | core/rtw_ap.c:2479-2484 | below sixteen entries a free node always exists |
| AclPool.Pool.AddSta | core/rtw_ap.c:2436-2505 | adds at the tail; fails exactly when absent and full |
| AclPool.Pool.RemoveSta | core/rtw_ap.c:2507-2555 | removes one address, or all for the broadcast address |
| AclPool.Pool.ClearAll | core/rtw_ap.c:2372-2406 | empties the pool; the count is zero, so its warning is silent |
| BmcDrain.FifoOverRuns | core/rtw_ap.c:2805-2845 | over every run of arrivals, drains and wake-ups nothing is lost, doubled or overtaken, and the length is exact |
| BmcDrain.BatchesAnnounce | core/rtw_ap.c:2819-2850 | over every run, what each event releases, with More Data exactly where another frame of the batch follows |
| BmcDrain.DrainedExactly | core/rtw_ap.c:2805-2865 | k frames are out after n drains exactly when 6n >= k; the TIM bit goes off one drain later, and the one that holds frames back with it |
| BmcDrain.Buffer.Hold | core/rtw_xmit.c:8301-8341 | a group frame is held back while anyone dozes, with both bitmap bits set |
| BmcDrain.Buffer.DrainSome | core/rtw_ap.c:2784-2870 | the loop releases the first min(6, length) frames, More Data on all but the last, all on the high queue, as its filter allows under wifi_spec (core/rtw_xmit.c:8211-8212) |
| BmcDrain.Buffer.WakeAll | core/rtw_xmit.c:8626-8669 | when nobody dozes any more everything goes out in order, marked the same way |

## Left out

- Nat25Table.Table.Insert: allocation success is an argument; the 32-bit wrap of use counts is not modelled.
- Nat25Map.InsertThenLookup: with the comparison the database code expects, and an age limit below a quarter of the clock's range; the linked comparison is in InsertThenLookupExactly.
- Nat25Table.Table.constructor: the bucket array is sixteen bucket objects, each with a head cell.
- Nat25Shortcut.SendOut: the frame is a well-formed IP frame, and the comparison the one the database code expects.
- BridgeFrames.DoLookup: packets hold the fields the handler reads without checking; reading past a shorter packet is not modelled.
- BridgeFrames.DoHandleFrame: the same.
- BridgeFrames.ClientReached: with bridging on; the frame is not tagged (TaggingCommutes covers tags).
- Packets.Skb.InsertRelay: it stops before an access outside the packet's buffer or the tag's.
- Packets.Skb.StripRelay: a packet that ends inside the first twelve bytes of the tag is left unchanged; the code (`core/rtw_br_ext.c:996-1004`) has by then copied bytes past its end over the destination, and only then refuses.
- Pppoe.InsideExactly: for frames without a relay tag; what happens to the others is Packets.Skb.InsertRelay.
- DhcpChecksum.SetBroadcast: the tests that recognise a DHCP request (UDP, the two ports, the cookie) are not modelled.
- Beacon.Bss.AddIe: the buffer has room for the new element and backup allocation succeeds; the area is a sequence of whole elements.
- Beacon.Bss.UpdateTim: a TIM is there or the area starts with SSID, rates and a one-octet third element; the buffer has room.
- ApStations.Ap.UpdateErp: the element is given; finding it is Beacon.Bss.GetIe.
- ApStations.Ap.Coex: octets past the end of a short frame are read as zero, and the rate adaptation of the station is not modelled.
- ApStations.Ap.Join: station records are kept in a map field; olbc and olbc_ht, always written together, are one field.
- KeepAlive.Restored: the table's expire_to is positive and wifi_spec is not 1.
- KeepAlive.Table.ExpireCheck: probe results are an argument; the clearing of overlong sleep queues is not modelled. The active check is built with CONFIG_XMIT_ACK, which include/autoconf.h:106 leaves out; the check of the default build is KeepAliveBa, for one station.
- KeepAliveBa.Station.CheckExpiry: the frames it sends and the TIM bit it sets are not modelled; the driver's waking of a station with a long queue is an event.
- BmcDrain.Buffer.Hold: the lines are built without BMC_ON_HIQ, which include/drv_conf.h:173 defines for AP mode; the beacon update on arrival is Beacon.Bss.UpdateTim.
- AclPool.Pool.AddSta: one pool; the range check of the period argument is not modelled.
- CmdHandshake.FinishedCommand: the extra buffer inside a CMD_SET_DRV_EXTRA parameter is not modelled.
- The INSERT side of ARP rewrites the sender's hardware address; only its database effect is modelled.
- The INSERT arm for IPv6 with its neighbour-discovery rewriting (LOOKUP is modelled), the IPX and AppleTalk arms, and the CHECK method.
- num_sta_no_ht is also raised by the station-mode scan of `core/rtw_mlme_ext.c` under wifi_spec; that use is not part of this model.
- Mesh mode, token-based transmission, WDS and auto-AP options.
- Locks other than the handshake's mutex, allocators, logging, proc handlers, channel decisions and radar handling.
