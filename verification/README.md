# Model of a game server master list and its clients

The repository holds a master server (dpmaster, in C) for a modified game, the patched game client and the patched
dedicated server. Game servers announce themselves to the master with heartbeats and prove their address by echoing a
challenge; clients ask the master for a list, ping the servers and show them in a sorted browser. This project models
the code on that path, and proves what each part keeps, and where the parts agree with each other and where they do not.

## Parts

- `HashChains`, `SlotList`, `Iteration`, `Registries`: the server list. A server is a slot index. The two hash tables
  and the links threaded through the slots are arrays of a class that its methods write cell by cell; the C `prev_ptr`
  is the datatype `Cell`. `SlotList` and `Iteration` see the slots without the links. A ghost rank orders each chain.
- `AddressMaps`, `Games`: the address mappings and the game policy, lists kept sorted in place.
- `Infostrings`, `CText`: the info string writer of the game server, editing a character buffer, and the readers of
  the client and the master.
- `Protocol`, `Messages`, `Requests`: the challenge protocol as a state machine with a log of what happened, and the
  class `Master` whose methods are steps of it. A run is any sequence of steps, so its theorems are about every history;
  a course is what the main loop does with a sequence of packets, replies included. `GameServers`: the answer of the
  game server. `Courses`: what a course means in terms of the texts and addresses of its packets.
- `Datagrams`, `ServersResponse`: the packet buffer that splits a reply, and the parser of the client.
- `DisplayList`: the sorted browser list. `Base64`, `MapRotations`, `CleanNames`: smaller parts of the two game
  patches.

Time is a parameter that does not decrease; `rand ()` and the verdict of the API key server are inputs; `sendto`
appends to `outbox`. Addresses are byte sequences, read as integers the way a little-endian host does.

## Where the code falls short of its intent

Each of these is modelled as the code has it, with the exact condition.

- `Sv_GetByAddr` marks the new slot used only after its scan for the next free one. If the scan frees the slot just
  behind the new one and that was the last used, `last_used_slot` ends one below the new server. `Registry.GetByAddr`
  says from the state before the call exactly when this happens, and `CornerTrace` reaches it by such calls. Iteration
  then needs a precondition of its own (`Registry.GetFirst`). Where it fails, a list request that gets as far as
  `Sv_GetFirst` divides by zero: `Master.HandleMessage` says for which packets, `Master.Serve` for which runs, and
  `FatalTrace` gives five packets that do it. What is said about lists that are not exact (`SlotList.Mended`,
  `Registry.Restored`, `Registry.Lowered` and what uses them) is about builds with NDEBUG; in others the assertions at
  servers.c:179 and servers.c:795 end the program when such a list loses a server above `last_used_slot`, or is full.
- The game server of this repository is not listed by this master: its answers carry no API key, which the master
  demands (`GameServers.AnswerRemovesServer`, `KeylessIsNeverListed`). Nor is its protocol number, 142, the one that the
  client asks for, 5389 (`Courses.ClientAsksForOthers`).
- Declared address mappings have an effect only where loopback addresses are not allowed (`Courses.LeadsTo`).
- An iteration that starts where nothing later is live returns nothing, even if earlier slots are live
  (`Iteration.IterationIsComplete`, both directions, and `IterationMissesServer`).
- The client drops the last entry of every datagram but the last, and stops at an entry at 69.79.84.x, which reads like
  the end mark (`ServersResponse.ReplyIsRead`, `ReplyLosses`).
- `UI_InsertServerIntoDisplayList` writes at the new count, so 512 displayed servers do not fit
  (`DisplayList.ServerBrowser.BuildServerDisplayList` and `RoomIsLeft` say exactly when that happens, `CrowdOverflows`
  gives an input).
- The test `ch >= 128` in `ClientCleanName` never fires, because `char` is signed; such characters are kept.
- `SV_MapRotate_f` steps on from a null token if the list has no map, and `base64_decode` looks in front of an empty
  text; both are preconditions.
- `decoding_table` is never cleared: entries that are no letter hold what the heap held. `Base64` takes them as input.

## Model

| member | source | states |
|---|---|---|
| `HashChains.UnlinkKeepsLinks` | IRANREV MW2[1.0.182] DPMASTER/servers.c:152-157 | Taking a slot out of its chain through the cell that its back link names leaves every other used slot in the chain of its own bucket, with right links, and the chains without cycles; the head, a middle slot and the last one are all covered. |
| `HashChains.PushKeepsLinks` | IRANREV MW2[1.0.182] DPMASTER/servers.c:130-142 | A slot pushed in front of the chain of its own bucket is linked there, and all other slots stay linked where they were. |
| `HashChains.RecordChange` | IRANREV MW2[1.0.182] DPMASTER/servers.c:830-845 | Writing fields of a server other than its links cannot damage the index as long as the address of a linked slot stays. |
| `HashChains.ChainsAreExact` | IRANREV MW2[1.0.182] DPMASTER/servers.c:130-157 | Following a table entry meets, once each, exactly the used slots whose address and family hash to it, and the back link of each of them names the cell in front of it. |
| `HashChains.ChainLengthsSum` | IRANREV MW2[1.0.182] DPMASTER/servers.c:130-157 | Each linked slot is in exactly one chain of the two tables: all chain lengths together make the number of linked slots. |
| `Registries.Registry.IndexIsExact` | IRANREV MW2[1.0.182] DPMASTER/servers.c:130-204 | In every valid state the chain lengths of both tables add up to nb_servers. |
| `Registries.Registry.RemoveFromHashTable` | IRANREV MW2[1.0.182] DPMASTER/servers.c:152-157 | The chain cells after the call are those of the unlinking that the lemmas are about. |
| `Registries.Registry.AddToHashTable` | IRANREV MW2[1.0.182] DPMASTER/servers.c:130-142 | The chain cells after the call are those of the push that the lemmas are about. |
| `Registries.Registry.MoveToFront` | IRANREV MW2[1.0.182] DPMASTER/servers.c:382-386 | Unlinking the hit and pushing it again keeps the index exact and changes no record. |
| `Addresses.SamePublicSameBucket` | IRANREV MW2[1.0.182] DPMASTER/servers.c:79-120 | Without hashed ports equal public addresses (an IPv4 address, the upper half of an IPv6 one) always share a bucket, which is what makes the quota count complete. |
| `Addresses.SameAddress` | IRANREV MW2[1.0.182] DPMASTER/servers.c:274-334 | The two comparison functions decide equality of addresses and of their public parts, IPv6 scope and port included. |
| `Registries.Registry.constructor` | IRANREV MW2[1.0.182] DPMASTER/servers.c:679-719 | The list starts valid and empty, with exact counters. |
| `Registries.Registry.Remove` | IRANREV MW2[1.0.182] DPMASTER/servers.c:167-204 | Exactly this slot becomes unused; the counters move to the new least free and greatest used slot, and both iteration positions are pulled down with the latter. The hypothesis of the assertions is kept. |
| `SlotList.RemoveKeepsConsistent` | IRANREV MW2[1.0.182] DPMASTER/servers.c:167-204 | The counter updates of a removal give the number of used slots, the least free slot and a used top slot again, and the top stays the greatest used slot if it was. |
| `SlotList.AssertionsHold` | IRANREV MW2[1.0.182] DPMASTER/servers.c:792-811 | Between operations, with an exact last_used_slot: every used slot is at most that slot, a full list has no free slot and its last slot is used, a list that is not full has a free one. The methods assert this where the source does. |
| `SlotList.RemovalAssertionsHold` | IRANREV MW2[1.0.182] DPMASTER/servers.c:178-203 | The assertions of a removal: the slot is not above last_used_slot before it, and last_used_slot is at least the new count less one. They need only that the count is right and no used slot is above last_used_slot, which holds in the middle of an addition too. |
| `Registries.Registry.Uncount` | IRANREV MW2[1.0.182] DPMASTER/servers.c:176-203 | The counter and iteration updates of a removal, with the assertions at the places where the source has them. |
| `Registries.Registry.IsActive` | IRANREV MW2[1.0.182] DPMASTER/servers.c:244-264 | The answer is yes exactly for a used slot whose time is not over; an expired slot is freed with the counters following as in a removal, and otherwise nothing changes. |
| `Registries.Registry.Check` | IRANREV MW2[1.0.182] DPMASTER/servers.c:244-264 | Between operations the expiry test keeps the whole invariant: exact index, counters, unique addresses, quota. |
| `Registries.Registry.CheckTimeouts` | IRANREV MW2[1.0.182] DPMASTER/servers.c:405-411 | After the sweep every expired slot up to the former last used one is free and all others are as they were, although removals shorten the range during the loop. |
| `SlotList.PurgeIsInvisible` | IRANREV MW2[1.0.182] DPMASTER/servers.c:244-264 | Lazy expiry is invisible: whatever expired slots are freed, the set of live records is the same now and at any later time. |
| `SlotList.PurgeKeepsQuota` | IRANREV MW2[1.0.182] DPMASTER/servers.c:748-755 | Expiry cannot make any lookup count more servers than max_per_address. |
| `Registries.Registry.QuotaHolds` | IRANREV MW2[1.0.182] DPMASTER/servers.c:748-755 | With hash_ports false and max_per_address m > 0, no valid state has more than m used slots sharing an IPv4 address or the upper half of an IPv6 one. In both modes no lookup counts more than m, which is also the assertion in front of the test. |
| `Registries.Registry.GetByAddrInternal` | IRANREV MW2[1.0.182] DPMASTER/servers.c:344-395 | The walk of one chain is a search of the whole list: it returns a live slot with the address, or no used slot has it; a miss counts exactly the used slots of the public address in the bucket, and it has freed exactly the expired slots of that bucket; it stays right while it frees slots and moves the hit to the front. |
| `SlotList.WalkAdvances` | IRANREV MW2[1.0.182] DPMASTER/servers.c:364-394 | The next link leads to the one used slot of the bucket that follows: behind it are the slots behind the current one and this one. |
| `SlotList.SearchContinues` | IRANREV MW2[1.0.182] DPMASTER/servers.c:364-394 | Testing and perhaps freeing the current slot extends the claim about the slots behind the walk by one slot. |
| `SlotList.HitIsHolder` | IRANREV MW2[1.0.182] DPMASTER/servers.c:729-745 | A slot that the lookup finds is the only one that held the address before it. |
| `SlotList.MissIsUnknown` | IRANREV MW2[1.0.182] DPMASTER/servers.c:729-755 | When the lookup misses, no live slot held the address before, and its count is the number of live servers of the public address. |
| `Registries.Registry.NextFree` | IRANREV MW2[1.0.182] DPMASTER/servers.c:816-828 | The scan stops at the first slot behind the new one that is not live, frees it if it has expired, and makes it the least free slot; there is none if it runs to the end. The assertions of a removal hold in it. |
| `Registries.Registry.Allocate` | IRANREV MW2[1.0.182] DPMASTER/servers.c:808-857 | A new server takes the least free slot, and beside it only what the scan stops at is freed, if it has expired. From an exact last_used_slot it stays exact if and only if the slot behind the new one is not both the last used and expired; otherwise it ends one below the new server, and the used slots are exactly those up to the new one. From any other list it is exact afterwards if and only if the new slot is above all used ones, or the scan frees the only one that would still be above it. |
| `SlotList.AllocateMends` | IRANREV MW2[1.0.182] DPMASTER/servers.c:808-847 | For every valid list, exact or not: the condition under which an addition leaves last_used_slot exact. |
| `SlotList.RemovalMends` | IRANREV MW2[1.0.182] DPMASTER/servers.c:191-196 | For every valid list, exact or not: a removal leaves last_used_slot exact if and only if it was, or the removed slot was the only one above it. |
| `SlotList.AllocateKeepsConsistent` | IRANREV MW2[1.0.182] DPMASTER/servers.c:808-847 | The counters after filling a slot and scanning, for every position of the scan's end, with the exact condition for last_used_slot. |
| `SlotList.AllocateKeepsQuota` | IRANREV MW2[1.0.182] DPMASTER/servers.c:748-755 | A server added while its lookup counts less than the limit keeps every count within the limit. |
| `SlotList.NoCornerInRoom` | IRANREV MW2[1.0.182] DPMASTER/servers.c:792-828 | A list that is full is swept before the addition, and nothing expired is left then for the scan to stop at: of the swept list the corner condition says just what it says of the list before. |
| `Registries.CornerTrace` | IRANREV MW2[1.0.182] DPMASTER/servers.c:729-858 | Calls of Sv_GetByAddr alone reach that case: two servers register one second apart and do not answer, the first is looked up when only its time is over, and a third one of the other family registers when the time of the second is over too. One server is registered then and last_used_slot is -1, so that the next Sv_GetFirst would divide by zero. |
| `Registries.Registry.GetByAddr` | IRANREV MW2[1.0.182] DPMASTER/servers.c:729-858 | A known address returns its slot. An unknown one is added or refused, and it is refused, with an exact last_used_slot, if and only if the quota is reached, the address is a loopback address that is not allowed, or every slot is live. From any valid list, exact or not, the refusal and the slots afterwards are given exactly: the chain of the address without what had expired, a sweep if that was full, the new server in the least free slot. From an exact list last_used_slot stays exact if and only if not (the address is added, and in the list that the walk leaves the least free slot has the last used one, expired, right behind it); from any other list the condition under which an addition makes it exact again is given too. All conditions are on the state before the call. |
| `Registries.Registry.Insert` | IRANREV MW2[1.0.182] DPMASTER/servers.c:792-858 | The addition fails if and only if all slots are live, given an exact last_used_slot; otherwise the slots and the exactness of last_used_slot afterwards are given by the list before. |
| `Registries.Registry.MakeRoom` | IRANREV MW2[1.0.182] DPMASTER/servers.c:792-806 | The list counts as full only if no slot is free after the sweep, and then every slot was live. |
| `SlotList.AddedIsVisible` | IRANREV MW2[1.0.182] DPMASTER/servers.c:729-858 | A successful addition adds exactly one live record, under an address that had none. |
| `Registries.Registry.Drop` | IRANREV MW2[1.0.182] DPMASTER/servers.c:167-204 | A removal that a message handler asks for keeps the list valid. last_used_slot is exact afterwards if and only if it was, or the removed server was the only one above it. |
| `Registries.Registry.SetRecord` | IRANREV MW2[1.0.182] DPMASTER/messages.c:782-807 | The field writes of the message handlers keep the list valid. |
| `Registries.Registry.GetFirst` | IRANREV MW2[1.0.182] DPMASTER/servers.c:868-888 | What it and the later calls return is fixed at once: the live slots from the random start up, then those below it, but nothing at all if none is live from the start on. It needs a last used slot, which an exact one guarantees. |
| `Registries.Registry.GetNext` | IRANREV MW2[1.0.182] DPMASTER/servers.c:898-911 | It returns the head of what is pending and leaves the rest pending, or NULL when nothing is; it terminates and never divides by zero while its own expiry tests shrink the range. |
| `Iteration.Step` | IRANREV MW2[1.0.182] DPMASTER/servers.c:898-911 | One step of the loop takes at most the head from what is pending, and only if it returns it, with removal clamping both positions. |
| `Iteration.FirstStep` | IRANREV MW2[1.0.182] DPMASTER/servers.c:868-888 | The first test of an iteration turns what is expected from the start into what is pending. |
| `Iteration.DistanceDrops` | IRANREV MW2[1.0.182] DPMASTER/servers.c:903-908 | Every step brings the position nearer to the stop position, also when a removal moves both. |
| `Iteration.IterationIsComplete` | IRANREV MW2[1.0.182] DPMASTER/servers.c:868-911 | No slot is returned twice and only live ones are; all live slots are returned if and only if one is live from the start on or none is live below the start. |
| `Iteration.ReturnedExactly` | IRANREV MW2[1.0.182] DPMASTER/servers.c:868-911 | In any list a slot is returned if and only if it is live, not above last_used_slot, and some slot is live from the start on. |
| `Iteration.IterationMissesServer` | IRANREV MW2[1.0.182] DPMASTER/servers.c:191-196 | A live server in slot 0 is missed when the iteration starts on an expired last slot 1. |
| `AddressMaps.AddressMapList.FindPlace` | IRANREV MW2[1.0.182] DPMASTER/servers.c:494-522 | The place found separates the smaller from the greater source addresses, and a taken address is noticed. |
| `AddressMaps.AddressMapList.Insert` | IRANREV MW2[1.0.182] DPMASTER/servers.c:494-537 | The list gains exactly the new mapping and stays strictly sorted by address and port, or it is refused if and only if the source address is taken. |
| `AddressMaps.AddressMapList.Get` | IRANREV MW2[1.0.182] DPMASTER/servers.c:547-577 | In spite of its early exit the lookup is the unordered one: the exact mapping, else the one for port 0 of the address, else none. |
| `AddressMaps.AddressMapList.BuildSorted` | IRANREV MW2[1.0.182] DPMASTER/servers.c:1059-1072 | Insertion of all mappings succeeds if and only if their sources differ, and the list is a sorted permutation of them. |
| `AddressMaps.AddressMapList.Resolve` | IRANREV MW2[1.0.182] DPMASTER/servers.c:587-612 | All mappings are accepted if and only if each name resolves, no source is 0.0.0.0, no target is an IPv6 address, 0.0.0.0 or 127.x.x.x, and the sources differ. |
| `AddressMaps.RawIsFaithful` | IRANREV MW2[1.0.182] DPMASTER/servers.c:494-577 | The raw fields that mappings are compared by tell addresses and ports apart exactly as the addresses do. |
| `Games.GamePolicy.Find` | IRANREV MW2[1.0.182] DPMASTER/games.c:46-78 | The binary search finds exactly the listed names, or the place that keeps the list sorted. |
| `Games.GamePolicy.DeclarePolicy` | IRANREV MW2[1.0.182] DPMASTER/games.c:90-133 | A declaration is applied as a whole, or, exactly if it is unknown or conflicts with the policy in force, it changes nothing; the list stays strictly sorted. |
| `Games.GamePolicy.IsAccepted` | IRANREV MW2[1.0.182] DPMASTER/games.c:143-146 | A game is accepted if and only if it is listed under "accept", or not listed under "reject". |
| `Games.AcceptanceMeaning` | IRANREV MW2[1.0.182] DPMASTER/games.c:90-146 | After any sequence of declarations: if the first one that lists a game says "accept", a game is accepted if and only if some "accept" declaration lists it; if it says "reject", if and only if no "reject" declaration does; if none lists a game, every game, unless the last policy that was named is "accept". Before any declaration every game is accepted. |
| `Games.RulesMeaning` | IRANREV MW2[1.0.182] DPMASTER/games.c:90-133 | After any declarations the listed names are those of the declarations that agree with the first one that listed a game. |
| `Infostrings.RemoveKey` | IRANREV MW2[1.0.182] Dedicated Server/branches/steam_api/PatchMW2Status.cpp:30-74 | The buffer holds the text without its first pair for the key, and is untouched for a key with a backslash. |
| `Infostrings.SetValueForKey` | IRANREV MW2[1.0.182] Dedicated Server/branches/steam_api/PatchMW2Status.cpp:83-94 | The pair is put in front of the text without the old pair; an empty value only removes. |
| `Infostrings.WithoutRendered` | IRANREV MW2[1.0.182] Dedicated Server/branches/steam_api/PatchMW2Status.cpp:30-74 | Cutting a pair out of the text is dropping it from the list of pairs, for every position of the pair. |
| `Infostrings.ValueForKey` | IRANREV MW2[1.0.182] Client/11228-1/steam_api/patch_mw2_serverlist.cpp:1377-1425 | The client reads the value of the first pair whose key is the same up to case, nothing from an oversize text. |
| `Infostrings.SearchInfostring` | IRANREV MW2[1.0.182] DPMASTER/messages.c:108-191 | The master reads the value of the first pair with exactly this key; overlong keys read as empty, an overlong value is not found. |
| `Infostrings.ParseRendered` | IRANREV MW2[1.0.182] DPMASTER/messages.c:108-191 | Parsing the rendered pairs gives back the pairs. |
| `Infostrings.TextIsRendered` | IRANREV MW2[1.0.182] Dedicated Server/branches/steam_api/PatchMW2Status.cpp:83-94 | After any calls of the writer the text is exactly the rendering of the pairs in force. |
| `Infostrings.PairsAreLatest` | IRANREV MW2[1.0.182] Dedicated Server/branches/steam_api/PatchMW2Status.cpp:83-94 | The pairs in force have distinct keys and hold for each key the value of the last call for it. |
| `Infostrings.InfostringIsAMap` | IRANREV MW2[1.0.182] Dedicated Server/branches/steam_api/PatchMW2Status.cpp:83-94 | After any sequence of writes both readers return for every key the last value set for it, none after an empty one, and other keys are untouched; the reader that ignores case needs that no other key differs in case alone, the exact one that the key fits its buffer. |
| `Messages.Master.BuildChallenge` | IRANREV MW2[1.0.182] DPMASTER/messages.c:201-223 | A challenge has 8 to 11 printable characters and none of the five that are excluded. |
| `Messages.Master.SendGetInfo` | IRANREV MW2[1.0.182] DPMASTER/messages.c:233-258 | A valid challenge is sent again, any other one is replaced, dated and sent; heartbeats move no timeout. |
| `Messages.Master.HandleHeartbeat` | IRANREV MW2[1.0.182] DPMASTER/messages.c:830-849 | The call is a heartbeat step of the protocol, in which a new challenge has 8 to 11 allowed characters. From any list, the sender is not asked if and only if it is unknown and the addition is refused, and then it is not added and only expired servers of its chain go; otherwise it is registered afterwards, an unknown one in the first free slot of the list given by the state before, and asked with the challenge kept for it. With an exact last_used_slot the refusal is the one of Sv_GetByAddr, and last_used_slot stays exact if and only if its corner is not met; when it is met it ends one below the greatest used slot. |
| `Messages.Master.ReadInfos` | IRANREV MW2[1.0.182] DPMASTER/messages.c:713-780 | The checks succeed if and only if the message meets all conditions, and yield the values it carries. |
| `Messages.Master.SaveInfos` | IRANREV MW2[1.0.182] DPMASTER/messages.c:782-807 | The record after the field writes is the one the protocol step describes: empty without players, full when they are as many as the places, occupied otherwise. |
| `Messages.Master.HandleInfoResponse` | IRANREV MW2[1.0.182] DPMASTER/messages.c:617-811 | Ignored, removed or accepted exactly as judged from challenge, protocol number, version, key and contents; an accepted one updates this record and then only expiry happens. |
| `Messages.Master.InfoResponse` | IRANREV MW2[1.0.182] DPMASTER/messages.c:852-866 | The call is an infoResponse step of the protocol; an unknown sender changes nothing but that its chain loses what had expired. last_used_slot stays exact, and in any list it ends as the greatest used slot up to where it was. |
| `Messages.Master.HandleMessage` | IRANREV MW2[1.0.182] DPMASTER/messages.c:823-881 | The program ends with a division by zero if and only if the packet is a list request that can be read, about an accepted game, while a server is registered and last_used_slot is -1. Any other packet is one protocol step of the kind its text says; a heartbeat is answered with a question or refused, a list request with the packing of the matching servers, anything else with nothing; and it says where last_used_slot is left, from exact and other lists. |
| `Messages.Master.Receive` | IRANREV MW2[1.0.182] DPMASTER/messages.c:823-881 | The same for one turn of the main loop, from before the clock is read; with an exact last_used_slot no packet ends the program. |
| `Messages.Master.Serve` | IRANREV MW2[1.0.182] DPMASTER/messages.c:823-881 | Over any sequence of packets: from the moment of the call to the moment of the return each packet is handled in turn, as stated for one, up to the first that divides by zero, and all of them if none does. From an exact list, and as long as no heartbeat meets the corner, that is all of them and the list ends exact. |
| `Messages.Master.CourseStaysExact` | IRANREV MW2[1.0.182] DPMASTER/messages.c:823-881 | An exact list is exact before and after every packet of a course if and only if no heartbeat of it meets the corner, and then no packet whatever would divide by zero. |
| `Messages.Master.CourseIsRun` | IRANREV MW2[1.0.182] DPMASTER/messages.c:823-881 | What the main loop does with any packets is a run of the protocol machine, the clock being read before each packet, so that all theorems about runs hold of it. |
| `Messages.Master.SentPacketsAreJustified` | IRANREV MW2[1.0.182] DPMASTER/messages.c:823-881 | At each step of a course, each packet that is sent then, also one that repeats an earlier one, goes to the sender of the packet that caused it. A question to a game server carries a challenge of 8 to 11 allowed characters that was generated for its current registration at most two seconds ago; a part of a list answers a request for it, and every entry of that answer belongs to a live server whose proof is in the log. |
| `Messages.Master.SentStays` | IRANREV MW2[1.0.182] DPMASTER/messages.c:823-881 | Packets are only appended to what has been sent, so that these steps account for all of it. |
| `Messages.Master.ChallengesOfCourse` | IRANREV MW2[1.0.182] Dedicated Server/branches/steam_api/PatchMW2Status.cpp:214 | At any point of a course, every challenge that is kept and valid has 8 to 11 allowed characters, and survives the echo through the info string of a game server. |
| `Messages.Master.AcceptedServerIsListed` | IRANREV MW2[1.0.182] DPMASTER/messages.c:428-571 | Over a course: for fifteen minutes, or until it answers again, an accepted server is in the datagrams sent for any request that its answer matches, if and only if some slot is live from the random start on (given an exact last_used_slot; in any other list it is if its slot is not above that one too). If none is, the answer is empty. |
| `Courses.AnswerIsDecided` | IRANREV MW2[1.0.182] DPMASTER/messages.c:617-811 | A known server's infoResponse, by its text: without the valid challenge or a protocol number it is ignored; without version and valid key the server is no longer known; if it tells players, places, an accepted game and a proper game type the record says what it tells, empty, full or occupied by its numbers, for 900 seconds; otherwise it is ignored. |
| `Courses.AnsweringServerIsShown` | IRANREV MW2[1.0.182] DPMASTER/messages.c:428-549 | Over a course, for 900 seconds after such an answer or until the next one, the server is in the answer to a request if and only if the iteration comes to it and the two texts fit: protocol number, game and game type are equal, "empty" is a word of the request if the server said it has no players, "full" if all its places are taken, and the IP version is wanted. It is there once, by the address and port it sends from, or, where loopback addresses are not allowed, the one declared for it, with its own port if that has none. |
| `Courses.ListedServerIsSent` | IRANREV MW2[1.0.182] DPMASTER/messages.c:483-571 | Each entry of an answer is in a datagram sent to the client: a backslash, the four bytes of the address and the port with its high byte first, or a slash and the sixteen bytes of an IPv6 address in place of these. |
| `Courses.ListedServerIsRead` | IRANREV MW2[1.0.182] Client/11228-1/steam_api/patch_mw2_serverlist.cpp:983-1042 | From packet k / 196 of the answer to a plain request the client reads address and port of server k, the port in network order, if and only if no server in front of it there but the first, nor itself, is at 69.79.84.x, and it is not the last of a datagram that another one follows. |
| `Courses.CourseAdmits` | IRANREV MW2[1.0.182] DPMASTER/servers.c:757-781 | At any point of a course every server has the mapping that is declared for its address, if loopback addresses are not allowed and none otherwise; and if they are not allowed, none is at 127.x.x.x without a mapping or at ::1. |
| `Courses.NewcomerIsRefused` | IRANREV MW2[1.0.182] DPMASTER/servers.c:748-806 | A heartbeat of an unknown address, with an exact last_used_slot and without hashed ports, is not answered if and only if as many live servers as allowed share its public address, or it is a loopback address that is not allowed (an IPv4 one without a declared mapping), or every slot is live. |
| `Courses.CommandIsWish` | IRANREV MW2[1.0.182] Client/11228-1/steam_api/patch_mw2_serverlist.cpp:545-553 | The request that the client writes for any game, protocol number and keywords is read by the master as it is meant. |
| `Courses.ClientAsksForOthers` | IRANREV MW2[1.0.182] Client/11228-1/steam_api/patch_mw2_serverlist.cpp:1730 | The refresh of this client asks for protocol 5389 and this game server says 142: what it says never fits that request. |
| `Messages.FatalTrace` | IRANREV MW2[1.0.182] DPMASTER/messages.c:823-881 | A run of the main loop with five packets, from an empty list: the first four, three heartbeats and an infoResponse, are handled, and the fifth, a list request, divides by zero. |
| `Messages.Master.PlainRequestIsServed` | IRANREV MW2[1.0.182] DPMASTER/messages.c:868-873 | Every plain request of a course that can be read, about an accepted game, is answered: about n servers n / 196 + 1 datagrams are appended to what has been sent, from each of which the client recovers what is stated. |
| `Messages.Master.Tick` | IRANREV MW2[1.0.182] DPMASTER/messages.c:823-829 | Time only moves forward between packets, and the invariant survives it. |
| `Protocol.NextKeepsInv` | IRANREV MW2[1.0.182] DPMASTER/messages.c:617-866 | Every protocol step keeps, for each used slot, a justification in the history of messages, and addresses unique. |
| `Protocol.ChallengeIsExplained` | IRANREV MW2[1.0.182] DPMASTER/messages.c:238-245 | A fresh challenge belongs to the current registration of the record. |
| `Protocol.NewcomerIsExplained` | IRANREV MW2[1.0.182] DPMASTER/servers.c:830-845 | A reused slot carries no challenge over: the newcomer has only the challenge generated for its own registration. |
| `Protocol.AcceptedIsExplained` | IRANREV MW2[1.0.182] DPMASTER/messages.c:625-811 | An accepted answer proves that the challenge generated for this registration came back in time. |
| `Protocol.RunIsSafe` | IRANREV MW2[1.0.182] DPMASTER/messages.c:617-811 | Whole-run safety: a server that may be listed answered, after its current registration, from its own address and within two seconds the challenge generated for it, naming an accepted, non-empty, space-free game; timeouts reach at most two seconds ahead before that and fifteen minutes after it. |
| `Protocol.StepKeepsServer` | IRANREV MW2[1.0.182] DPMASTER/messages.c:617-866 | No step but an answer of the server itself, and the end of its time, takes a server off the list or changes more of it than its challenge. |
| `Protocol.AcceptedServerStays` | IRANREV MW2[1.0.182] DPMASTER/messages.c:806-807 | Over whole runs an accepted server stays on the list, as its answer described it, for fifteen minutes or until it answers again, whatever others send. |
| `Messages.ListedServersAreProven` | IRANREV MW2[1.0.182] DPMASTER/messages.c:428-571 | Every entry of a reply belongs to a live server with such a proof. |
| `Messages.ChallengeSurvivesEcho` | IRANREV MW2[1.0.182] Dedicated Server/branches/steam_api/PatchMW2Status.cpp:214 | A challenge set by a game server under "challenge" in its info string is recognised as echoed, whatever other keys are set. |
| `GameServers.AnswerRemovesServer` | IRANREV MW2[1.0.182] Dedicated Server/branches/steam_api/PatchMW2Status.cpp:202-260 | Whatever the host's values, as long as none holds a backslash, the answer that this repository's game server gives to the challenge it was sent takes it off the list of this master, because it has no API key. |
| `GameServers.KeylessIsNeverListed` | IRANREV MW2[1.0.182] DPMASTER/messages.c:672-711 | In no run is a server of an address listed, for any request, if its answers carry no API key. |
| `Messages.Master.ReadOptions` | IRANREV MW2[1.0.182] DPMASTER/messages.c:361-418 | Flags are set if and only if they are named; a plain request is about IPv4 servers whatever it says, an extended one about the versions it names, or both if it names none; the last option that asks for a game type counts. |
| `Requests.OptionsMeaning` | IRANREV MW2[1.0.182] DPMASTER/messages.c:361-411 | The same for the options added to any filter, in any order and with repetitions. |
| `Requests.LastTypeCounts` | IRANREV MW2[1.0.182] DPMASTER/messages.c:367-402 | Of the words that name a game type the last one counts, by the number of its name or by its own text up to 31 characters. |
| `Requests.ListedExactly` | IRANREV MW2[1.0.182] DPMASTER/messages.c:469-481 | An entry is in the list if and only if a listed slot meets all conditions of the request and has that entry. |
| `Messages.Master.ListServers` | IRANREV MW2[1.0.182] DPMASTER/messages.c:428-608 | The datagrams are the packing of the matching servers in iteration order. |
| `Messages.Master.HandleGetServers` | IRANREV MW2[1.0.182] DPMASTER/messages.c:268-608 | Nothing is sent for a request that cannot be read or a game that is not accepted. Any other one divides by zero if and only if a server is registered and last_used_slot is -1, or else the reply about exactly the matching live servers goes to the client. |
| `Datagrams.PacketWriter.Add` | IRANREV MW2[1.0.182] DPMASTER/messages.c:483-570 | An entry goes into the current datagram or, if it does not fit, into a new one behind the same header. |
| `Datagrams.PacketWriter.Finish` | IRANREV MW2[1.0.182] DPMASTER/messages.c:573-608 | The end mark completes the reply, in a datagram of its own if need be. |
| `Datagrams.ReplyIsPacked` | IRANREV MW2[1.0.182] DPMASTER/messages.c:419-608 | At most 1400 bytes each, header first, no entry split, all entries in order, the end mark only in the last one, and no datagram sent early. |
| `Datagrams.ReplyCount` | IRANREV MW2[1.0.182] DPMASTER/messages.c:419-608 | A list of n IPv4 entries takes exactly n / 196 + 1 datagrams, full but the last. |
| `Requests.OnlyIPv4` | IRANREV MW2[1.0.182] DPMASTER/messages.c:469-481 | A request that does not want IPv6 servers lists none. |
| `ServersResponse.ParseResponse` | IRANREV MW2[1.0.182] Client/11228-1/steam_api/patch_mw2_serverlist.cpp:983-1042 | The loop reads the addresses of the recursive description, cut at 256. |
| `ServersResponse.ParsedEntries` | IRANREV MW2[1.0.182] Client/11228-1/steam_api/patch_mw2_serverlist.cpp:991-1042 | From any entry of a datagram on the parser reads what the entries say it will, through the token search and the end mark test. |
| `ServersResponse.DatagramIsRead` | IRANREV MW2[1.0.182] Client/11228-1/steam_api/patch_mw2_serverlist.cpp:991-1042 | What is read from one datagram does not depend on the bytes behind it in the buffer. |
| `ServersResponse.ReplyIsRead` | IRANREV MW2[1.0.182] Client/11228-1/steam_api/patch_mw2_serverlist.cpp:983-1042 | Of the last datagram the client recovers the whole list if and only if no entry behind the first is at 69.79.84.x; of any other one it recovers the entries up to such a one and never the last; 256 is never reached. |
| `ServersResponse.ReplyLosses` | IRANREV MW2[1.0.182] Client/11228-1/steam_api/patch_mw2_serverlist.cpp:999-1001 | Over a whole reply about n servers, none at 69.79.84.x, exactly n / 196 are lost, one for each continuation datagram. |
| `Messages.PlainAnswerArrives` | IRANREV MW2[1.0.182] Client/11228-1/steam_api/patch_mw2_serverlist.cpp:983-1042 | For the answer of the master to any plain request the hypothesis of the two results above holds: its datagrams are n / 196 + 1, and the client recovers from each of them its share of the matching servers, up to the stated losses. |
| `Messages.PlainAnswerLosses` | IRANREV MW2[1.0.182] Client/11228-1/steam_api/patch_mw2_serverlist.cpp:999-1001 | The same for the number of servers lost over the whole answer. |
| `DisplayList.ComparisonIsOrder` | IRANREV MW2[1.0.182] Client/11228-1/steam_api/patch_mw2_serverlist.cpp:1182-1261 | For every sort key and direction the comparison is a total preorder with results -1, 0 and 1. |
| `DisplayList.OrderMeaning` | IRANREV MW2[1.0.182] Client/11228-1/steam_api/patch_mw2_serverlist.cpp:1182-1261 | A list is in order if and only if its column rises (falls if sortDir is set): ping, players and the hardcore bit as numbers; host, map, game, modification and version as texts, which are equal but for case, or a prefix, or smaller at the first difference. |
| `DisplayList.GameColumn` | IRANREV MW2[1.0.182] Client/11228-1/steam_api/patch_mw2_serverlist.cpp:1130-1180 | The game column holds the folder of a modification without its first five characters, and the name of the game type where there is none. |
| `DisplayList.ServerBrowser.InsertIntoDisplayList` | IRANREV MW2[1.0.182] Client/11228-1/steam_api/patch_mw2_serverlist.cpp:1461-1474 | The number is put at the position and the rest moves up; a position out of range changes nothing, on a full list too. Only the indices from the position to the new count are stored to, and these must be in range. |
| `DisplayList.ServerBrowser.FindPosition` | IRANREV MW2[1.0.182] Client/11228-1/steam_api/patch_mw2_serverlist.cpp:1501-1532 | The search terminates in bounds, and in a sorted list its position has nothing greater in front and nothing smaller behind. |
| `DisplayList.ServerBrowser.BinaryServerInsertion` | IRANREV MW2[1.0.182] Client/11228-1/steam_api/patch_mw2_serverlist.cpp:1501-1532 | The server is in the list and a sorted list stays sorted. |
| `DisplayList.ServerBrowser.ShowServer` | IRANREV MW2[1.0.182] Client/11228-1/steam_api/patch_mw2_serverlist.cpp:1581-1637 | A waiting server is displayed and marked not visible; another one changes nothing. |
| `DisplayList.ServerBrowser.BuildServerDisplayList` | IRANREV MW2[1.0.182] Client/11228-1/steam_api/patch_mw2_serverlist.cpp:1540-1645 | The array overflows if and only if the servers kept and those that wait are 512 together, and then at the turn of the last one that waits, with 511 in the list, by a store to index 512 whatever its position. Otherwise the list afterwards holds exactly the servers it kept and those that waited, none twice, sorted if it was; exactly those shown lose their visible flag and add their players; while the master has not answered the list is empty. |
| `DisplayList.ServerBrowser.StartServerRefresh` | IRANREV MW2[1.0.182] Client/11228-1/steam_api/patch_mw2_serverlist.cpp:1684-1724 | All pings are forgotten and nothing else of a server but its flag changes; a full refresh also empties the list and makes every server visible, a partial one keeps it. A list in order stays in order, under the ping key too. |
| `DisplayList.ServerBrowser.ServersSort` | IRANREV MW2[1.0.182] Client/11228-1/steam_api/patch_mw2_serverlist.cpp:1829-1838 | The list is permuted so that the chosen column rises from the first server to the last, or falls if sortDir is set, unless the key is in force already and no sort is forced; it stays valid. |
| `DisplayList.ServerBrowser.MarkServerVisible` | IRANREV MW2[1.0.182] Client/11228-1/steam_api/patch_mw2_serverlist.cpp:1267-1285 | The flag of the numbered server is set or cleared, that of all servers for -1, and nothing for any other number; no other field changes. |
| `DisplayList.RoomIsLeft` | IRANREV MW2[1.0.182] Client/11228-1/steam_api/patch_mw2_serverlist.cpp:1461-1474 | The number of servers kept and waiting is at most 512, and it is 512 if and only if each of the table entries is displayed or about to be. |
| `DisplayList.CrowdOverflows` | IRANREV MW2[1.0.182] Client/11228-1/steam_api/patch_mw2_serverlist.cpp:1461-1474 | With an empty list, a table of 512 servers that all wait overflows the array, and one of fewer does not; an insertion stores within the array if and only if it finds fewer than 511 servers, and to index 512 at most if it finds 511. |
| `Base64.Codec.BuildDecodingTable` | IRANREV MW2[1.0.182] Client/11228-1/steam_api/base64.cpp:93-101 | Each letter decodes to its number; other entries keep what the heap held. |
| `Base64.Codec.Encode` | IRANREV MW2[1.0.182] Client/11228-1/steam_api/base64.cpp:19-48 | The buffer is filled with the encoding of the data, letters first and padding over them. |
| `Base64.Codec.Decode` | IRANREV MW2[1.0.182] Client/11228-1/steam_api/base64.cpp:51-86 | No result exactly if the length is no multiple of four; otherwise the octets of the text, as many as the padding leaves. |
| `Base64.EncodedLength` | IRANREV MW2[1.0.182] Client/11228-1/steam_api/base64.cpp:24 | The encoded length is 4 * ((n + 2) / 3). |
| `Base64.PaddingIsWritten` | IRANREV MW2[1.0.182] Client/11228-1/steam_api/base64.cpp:44-45 | Zero, two or one "=" overwrite the letters of the zeros behind the data, by the remainder of the length. |
| `Base64.RoundTrip` | IRANREV MW2[1.0.182] Client/11228-1/steam_api/base64.cpp:19-86 | Decoding the encoding of any non-empty data gives the data back, whatever unset table entries hold. |
| `Base64.EncodedIsCanonical` | IRANREV MW2[1.0.182] Client/11228-1/steam_api/base64.cpp:19-48 | Every encoding is a canonical text. |
| `Base64.GroupIsNumber` | IRANREV MW2[1.0.182] Client/11228-1/steam_api/base64.cpp:19-48 | Each group of three octets, completed with zeros, and its four letters are the same 24 bit number, with "=" for the letters of the completion alone. |
| `Base64.ReencodingIsExact` | IRANREV MW2[1.0.182] Client/11228-1/steam_api/base64.cpp:51-86 | Encoding what was decoded gives the text back if and only if it is canonical: whole groups of letters, padded only at the end, no dropped bits set. |
| `MapRotations.Rotation.MapRotate` | IRANREV MW2[1.0.182] Dedicated Server/branches/steam_api/PatchMW2Dedicated.cpp:919-1010 | The call is the step that the theorems on repeated calls are about: it carries out the list up to its first map and keeps what is behind it as the current list, refilled when it is empty; the last map is run if the rotation is empty or the new map is not on. |
| `MapRotations.Rotation.CarryOut` | IRANREV MW2[1.0.182] Dedicated Server/branches/steam_api/PatchMW2Dedicated.cpp:946-999 | The token loop applies exactly the directives in front of the first map, in order, then runs that map. |
| `MapRotations.TurnOfEntry` | IRANREV MW2[1.0.182] Dedicated Server/branches/steam_api/PatchMW2Dedicated.cpp:946-999 | From the start of an entry inside any text the tokens read are those of this entry. |
| `MapRotations.RotationIsPeriodic` | IRANREV MW2[1.0.182] Dedicated Server/branches/steam_api/PatchMW2Dedicated.cpp:919-1010 | For a single-spaced list of N entries that fits the buffers, call q * N + r finds a list it can run, carries out entry r and leaves the list in front of entry r + 1, empty after the last. |
| `MapRotations.CycleIsComplete` | IRANREV MW2[1.0.182] Dedicated Server/branches/steam_api/PatchMW2Dedicated.cpp:919-1010 | In the first n calls of every cycle the game types that are set are the values of the "gametype" directives of n entries, in order and once each, the folders those of the "fs_game" directives, with none for two quotes, and the maps those of the entries; the last action runs map n - 1, so that each action stands in front of the map of its entry. |
| `MapRotations.CycleIsInOrder` | IRANREV MW2[1.0.182] Dedicated Server/branches/steam_api/PatchMW2Dedicated.cpp:946-999 | One for one, in the order of the list, the actions of a cycle are what its effective pairs say. |
| `CleanNames.CleanName` | IRANREV MW2[1.0.182] Client/11228-1/steam_api/steam_api.cpp:665-746 | The buffer holds the cleaned name; nothing is written behind outSize characters. |
| `CleanNames.CopyName` | IRANREV MW2[1.0.182] Client/11228-1/steam_api/steam_api.cpp:675-740 | The loop writes the scanned name and its NUL within the size. |
| `CleanNames.CleanedIsTidy` | IRANREV MW2[1.0.182] Client/11228-1/steam_api/steam_api.cpp:665-746 | For outSize of 15 or more the result fits with its NUL, does not start with a space, has no caret without a following character and at most three consecutive counted spaces. |
| `CleanNames.TidyIsUnchanged` | IRANREV MW2[1.0.182] Client/11228-1/steam_api/steam_api.cpp:665-746 | Exactly the tidy names are left as they are. |
| `CleanNames.CleaningIsIdempotent` | IRANREV MW2[1.0.182] Client/11228-1/steam_api/steam_api.cpp:665-746 | Cleaning a cleaned name changes nothing. |
| `CleanNames.CleaningKeepsMarks` | IRANREV MW2[1.0.182] Client/11228-1/steam_api/steam_api.cpp:665-746 | Besides spaces only the end of a name is lost, and nothing if it fits and shows two characters. |

## Left out

- The HTTP check of the API key (messages.c:671-711): the verdict is the input `keyValid`.
- Sockets, the select loop, name resolution, logging, the info file and the command line: a resolved mapping or None is
  the input of `Resolve`, and `Sv_WriteInfo` is only its expiry loop.
- `sin6_flowinfo` and address lengths, which nothing in the list reads.
- Allocation failures of hash tables, server array, game names and buffers; a table that is not allocated because the
  master does not listen on that family.
- `strtol` and `atoi` overflow and the truncation to 32 bits: numbers are unbounded.
- `Sv_AddAddressMapping`, the parsing of a mapping: `Resolve` takes the declared mappings in order.
- The game id in a heartbeat (messages.c:833-838), which is only logged.
- Infostrings.SetValueForKey: the room needed for the result is a precondition, for the caller's buffer and for the
  equally long local one; there is no truncation by `_snprintf`. Keys and values are assumed to fit the local fields.
- Infostrings.SearchInfostring and Infostrings.ValueForKey take the text as a value, because they only read it; the two
  alternating static result buffers of the client are not modelled.
- ServersResponse.ParseResponse: what happens to the parsed addresses afterwards (lines 1044 to 1076) is left out.
- The fields `refreshActive` and `refreshtime` and the console command of a full refresh.
- Ping timing (`CL_GetPing`, `LAN_UpdateVisiblePings`, `UI_DoServerRefresh`): pings are fields that others set.
- DisplayList.ServerBrowser.ServersSort: `qsort` is the method `SortIndices`, of which only the contract is used; the
  order of equal servers is open.
- The tables of translated map and game type names are parameters and never yield NULL; players are counted from the
  field instead of through an info string that was made from it.
- Engine commands: the `map` command and the convar `mapname` are an action log and an input.
- MapRotations.Rotation.MapRotate: the messages for the console are left out.
- Base64.Codec.Decode: characters of 128 or more, which index in front of the table, are excluded by its precondition.
- What the game server asks its engine for (`HandleGetInfoOOB` takes it from the parameter `Host`), the other messages
  it sends (`HandleGetStatusOOB`), hooks, memory patches, Steam stubs, validation and user interface code.
