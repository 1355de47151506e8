# SharpMC level tick engine and chat packet, modelled in Dafny

This project models two pieces of the SharpMC game server.

1. The world tick state machine of `Level`. It covers the day clock, the
   weather countdown, the block-tick queue and its drain, the save counter,
   and the integer chunk addressing (`>> 4` plus the positive modulo `Mod`).
   It also covers the six-neighbour physics fan-out after a block write and
   the roster operations: lookup, removal, the join handshake and chat
   fan-out. One `GameTick` is the composition day → weather → drain → save
   counter, as one atomic step on an immutable `Level` record.
2. The chat packet `ChatMessage`. The inbound `Read` turns a received message
   into `"<" + username + "> " + escape(message)`. The escape removes line
   breaks, then doubles backslashes, then turns `"` into `''`. The outbound
   `Write` frame is the send id 0x02, the JSON object `{ "text": "…" }`, and
   a 0 byte.

Collaborators the level only calls are parameters:

- Chunk storage is a function from a column and an in-column position to a block.
- "Is this block air" is a predicate parameter.
- A block's tick callback is reduced to the `ScheduleBlockTick` requests it makes.
- The snapshot order of the concurrent tick map is a parameter that must enumerate its keys.
- `Random.Next(lo, hi)` is `lo + draw % (hi - lo)` for an arbitrary `draw`. That covers exactly [lo, hi).
- `RemoveLineBreaks` is an extension method that is not part of this model. `Read` takes it as a parameter `strip`. The properties assume only that it deletes characters (`OnlyDeletes`). `ChatMessage.RemoveLineBreaks` is one such function: it drops CR and LF.

Outbound packets are recorded as `Delivery(recipient, packet)` values, not written to connections.

Where the intended design and the code disagree, the model follows the code:

- The clock climbs to 24000 and wraps to 0 on the tick after that (Level.cs:269-277). A day is 24001 ticks, not 24000, and 24000 is a reachable clock value (`World.DayCycle`).
- Chunks are saved when the counter is 3000 at tick start, which happens once every 3001 ticks (`World.SaveCycle`).
- The ticks-per-second estimate is `(1000 - lastMs) / 50` with truncating division, not `1000 / elapsed` (`World.CalculateTps`).
- An entry due after 24000, which `ScheduleBlockTick` produces near the end of a day, is never ticked and stays queued (`World.LateEntryStays`).
- A due entry is removed after its callback runs. So its own re-schedule is lost, and so is one made by a callback that ran before it in the same drain (`TickQueue.DrainRemovesDue`).

Module layout: `Wrappers` (Option), `Seqs` (subsequences), `CSharpInt` (C#'s
truncating `/` and `%`, arithmetic `>> 4`), `Addressing`, `Blocks`, `Players`
(player, entity, packet and delivery values), `Roster`, `TickQueue`, `World`,
`ChatMessage`.

## Model

| member | source | states |
|---|---|---|
| CSharpInt.TruncRem | src/SharpMC.Core/Worlds/Level.cs:167 | C#'s `%` for a positive divisor: the remainder is what the truncated quotient leaves, `TruncDiv(a, b) * b + r == a`; it lies strictly between -b and b and has the sign of the dividend |
| CSharpInt.TruncDiv | src/SharpMC.Core/Worlds/Level.cs:295-296 | C#'s `/`: the quotient is rounded toward zero, from below for a non-negative dividend and from above for a negative one |
| CSharpInt.ShiftRight4 | src/SharpMC.Core/Worlds/Level.cs:172 | `v >> 4` is the floor of v / 16: r*16 <= v < r*16 + 16, for negative v too |
| Addressing.Mod | src/SharpMC.Core/Worlds/Level.cs:165-168 | `((v % 16) + 16) % 16` with truncating `%` always lies in [0, 16) |
| Addressing.ModCongruent | src/SharpMC.Core/Worlds/Level.cs:165-168 | `Mod(v)` differs from v by a multiple of 16 |
| Addressing.ShiftModSplit | src/SharpMC.Core/Worlds/Level.cs:172-176 | for every integer v, `(v >> 4) * 16 + Mod(v) == v` |
| Addressing.ChunkOf | src/SharpMC.Core/Worlds/Level.cs:172 | the column of a position is the 16-wide column containing its x and z |
| Addressing.LocalOf | src/SharpMC.Core/Worlds/Level.cs:175-179 | the in-column position has x and z in [0, 16) and keeps y |
| Addressing.SplitRoundTrip | src/SharpMC.Core/Worlds/Level.cs:172-179 | splitting a position into column and in-column position and joining them gives the position back |
| Addressing.JoinRoundTrip | src/SharpMC.Core/Worlds/Level.cs:196-199 | joining a column with an in-column position and splitting again gives both back |
| Addressing.SplitUnique | src/SharpMC.Core/Worlds/Level.cs:172-179 | the only in-column cell whose world position is a given position is the one the position splits into |
| Addressing.SplitInjective | src/SharpMC.Core/Worlds/Level.cs:196-199 | two positions share column and cell exactly when they are equal |
| Blocks.GetBlock | src/SharpMC.Core/Worlds/Level.cs:170-186 | a read at a position returns the block stored in the unique column cell whose world position it is |
| Blocks.SetBlock | src/SharpMC.Core/Worlds/Level.cs:194-207 | after a write the written position reads the new block and every other position reads what it read before; the dirty column contains the position; physics runs around the position against the new storage only when asked; the change is announced exactly when asked |
| Blocks.Neighbours | src/SharpMC.Core/Worlds/Level.cs:209-217 | six face neighbours, visited x-1, x+1, y-1, y+1, z-1, z+1 |
| Blocks.NeighboursExact | src/SharpMC.Core/Worlds/Level.cs:209-217 | the visited positions are exactly the face neighbours, without repeats and without the position itself |
| Blocks.DoPhysics | src/SharpMC.Core/Worlds/Level.cs:219-224 | a neighbour's physics callback runs at most once, and exactly when its block is not air |
| Blocks.PhysicsOver | src/SharpMC.Core/Worlds/Level.cs:219-224 | a physics callback runs once per visit of a position whose block is not air and never for an air block, in visiting order: each position fires as many times as it is visited when its block is not air |
| Blocks.ApplyPhysics | src/SharpMC.Core/Worlds/Level.cs:209-224 | the callbacks run for exactly the non-air face neighbours, in visiting order, never for the position itself, at most six |
| Roster.GetPlayer | src/SharpMC.Core/Worlds/Level.cs:86-93 | returns the first roster member with the entity id, and none exactly when no member has it |
| Roster.Remove | src/SharpMC.Core/Worlds/Level.cs:82 | `List.Remove` takes out one occurrence when there is one and leaves the list alone otherwise |
| Roster.RemoveCutsFirst | src/SharpMC.Core/Worlds/Level.cs:82 | the occurrence removed is the first one; the rest keep their order |
| Roster.RemovePlayer | src/SharpMC.Core/Worlds/Level.cs:78-84 | removing a player drops exactly one copy of it, namely its first occurrence, keeps the others in order, and is a no-op for an absent player |
| Roster.AddEntity | src/SharpMC.Core/Worlds/Level.cs:231-234 | the entity is appended after the existing ones |
| Roster.RemoveEntity | src/SharpMC.Core/Worlds/Level.cs:236-239 | a contained entity loses exactly one copy, its first occurrence, with the entities before and after it kept in order; an absent one leaves the list unchanged |
| Roster.AddThenRemove | src/SharpMC.Core/Worlds/Level.cs:78-97 | appending a new member and removing it restores the roster |
| Roster.LookupAfterJoinAndLeave | src/SharpMC.Core/Worlds/Level.cs:78-97 | with unique entity ids a joined player is found by its id, and is not found after it is removed |
| Roster.ExistingPlayers | src/SharpMC.Core/Worlds/Level.cs:129-147 | every other member and the newcomer are spawned to each other and the newcomer gets the member's tab entry; the newcomer is never spawned to itself; every delivery is either the tab entry or spawn of another member sent to the newcomer, or the newcomer's spawn sent to another member; each spawn of a member sent to the newcomer directly follows that member's tab entry; the tab entries reach the newcomer in roster order; three deliveries per roster entry that is not the newcomer |
| Roster.AddPlayer | src/SharpMC.Core/Worlds/Level.cs:95-108 | the player is appended; every member, the newcomer included, first gets the newcomer's tab entry in roster order; after that come exactly three handshake deliveries per earlier roster entry other than the newcomer, each of them the tab entry or spawn of another member sent to the newcomer or the newcomer's spawn sent to another member; the newcomer gets every other member's tab entry, in roster order, and spawn, each spawn directly after the matching tab entry, and they get its spawn |
| Roster.BroadcastChat | src/SharpMC.Core/Worlds/Level.cs:110-116 | one chat packet to every member, in roster order |
| Roster.BroadcastChatFrom | src/SharpMC.Core/Worlds/Level.cs:117-127 | the recipients are exactly the members other than the sender, in roster order, one packet per roster entry that is not the sender |
| Roster.ChatFromOutsider | src/SharpMC.Core/Worlds/Level.cs:110-127 | when the sender is not on the roster, the two broadcasts send the same packets |
| TickQueue.Schedule | src/SharpMC.Core/Worlds/Level.cs:226-229 | the position becomes due at now + tickRate, replacing any earlier entry; every other entry is unchanged |
| TickQueue.ScheduleLastWins | src/SharpMC.Core/Worlds/Level.cs:226-229 | two schedules for one position leave only the later one |
| TickQueue.DrainFrom | src/SharpMC.Core/Worlds/Level.cs:361-369 | the drain loop ticks exactly the snapshot entries that are due, in snapshot order |
| TickQueue.DrainLeavesUntouched | src/SharpMC.Core/Worlds/Level.cs:361-369 | a position the drain neither ticks nor has scheduled keeps its entry and due time, or stays absent |
| TickQueue.DrainRemovesDue | src/SharpMC.Core/Worlds/Level.cs:363-367 | a due position is gone after the drain unless a callback that runs after its own schedules it again |
| TickQueue.Drain | src/SharpMC.Core/Worlds/Level.cs:361-369 | each entry due by the snapshot is ticked exactly once; a due entry that no callback schedules is removed; entries not yet due keep their due time unless a callback reschedules them; nothing appears that no callback scheduled |
| TickQueue.QuietDrain | src/SharpMC.Core/Worlds/Level.cs:361-369 | when callbacks schedule nothing, the drain leaves exactly the entries not yet due |
| TickQueue.SelfRescheduleDropped | src/SharpMC.Core/Worlds/Level.cs:365-367 | a due position that re-schedules itself from its own callback is still removed |
| World.RandomNext | src/SharpMC.Core/Worlds/Level.cs:326 | `Random.Next(lo, hi)` lies in the half-open range [lo, hi) |
| World.RandomNextCovers | src/SharpMC.Core/Worlds/Level.cs:343 | every value of [lo, hi) is a possible draw |
| World.Init | src/SharpMC.Core/Worlds/Level.cs:42-53 | a new level is valid, starts at clock 1200 on day 1 with the save counter at 0, is dry, has empty rosters and queue, and its first rain is due in [24000, 96000) ticks |
| World.DayTick | src/SharpMC.Core/Worlds/Level.cs:267-286 | below 24000 the clock climbs by one on the same day, otherwise it wraps to 0 and the day increases by one; a clock in [0, 24000] stays there; nothing else changes; every player gets the new time and day |
| World.DaysClimb | src/SharpMC.Core/Worlds/Level.cs:269-272 | k ticks below the wrap point add k to the clock on the same day |
| World.DayCycle | src/SharpMC.Core/Worlds/Level.cs:267-277 | from any clock value in [0, 24000], 24001 ticks return the clock to that value one day later; from 0, the clock is not back at 0 before then |
| World.WeatherTick | src/SharpMC.Core/Worlds/Level.cs:313-349 | the raining flag flips exactly when the countdown is 0; rain starting lasts [12000, 36000) ticks and dry weather starting lasts [24000, 96000); otherwise the countdown drops by one and nothing is sent; a non-negative countdown stays non-negative; each flip is announced to every player |
| World.SaveStep | src/SharpMC.Core/Worlds/Level.cs:381-396 | a save happens exactly when the counter is 3000, which then restarts at 0; otherwise it counts up; the counter stays in [0, 3000] |
| World.SaveRunClimb | src/SharpMC.Core/Worlds/Level.cs:393-396 | below 3000 the counter climbs without saving |
| World.SaveCycle | src/SharpMC.Core/Worlds/Level.cs:381-396 | from any counter value in [0, 3000], 3001 ticks make exactly one save and return the counter to its value |
| World.LateEntryStays | src/SharpMC.Core/Worlds/Level.cs:353-369 | an entry due after 24000 is never ticked, since the clock never passes 24000; it keeps its due time unless a tick callback reschedules it, and the level stays valid, so the same holds on every later tick |
| World.CalculateTps | src/SharpMC.Core/Worlds/Level.cs:291-311 | the estimate is `(1000 - lastMs) / 50` rounded toward zero, and at most 20 for a non-negative tick duration |
| World.TpsTruncates | src/SharpMC.Core/Worlds/Level.cs:295-296 | a tick between 1001 and 1049 ms reports 0, not -1 |
| World.GameTick | src/SharpMC.Core/Worlds/Level.cs:353-398 | a valid level stays valid; the rosters are unchanged; below 24000 the clock climbs by one on the same day, otherwise it wraps to 0 on the next day; the rain flag flips exactly when the countdown was 0, with the new countdown in the new weather's range, and otherwise the countdown drops by one; the ticked positions are exactly the queue entries due by the advanced clock, each once; a due entry that no tick callback schedules leaves the queue; an entry not yet due keeps its due time and no entry appears unless a tick callback scheduled it; a save happens exactly when the counter was 3000, which then restarts at 0, otherwise it counts up; every player first gets the new time and day, followed by the weather change to every player when the weather flipped and by nothing otherwise |
| ChatMessage.New | SharpMC-Rewrite/Networking/Packages/ChatMessage.cs:9-19 | both constructors read under id 0x01 and send under id 0x02 |
| ChatMessage.ReplaceChar | SharpMC-Rewrite/Networking/Packages/ChatMessage.cs:25 | a one-character `Replace` maps a one-character text to the replacement or to itself, which with `ReplaceConcat` fixes it on every text; it leaves a text without the character unchanged, leaves none of it behind when the replacement does not contain it, and keeps every other character that the replacement does not bring in present exactly when it was present |
| ChatMessage.Escape | SharpMC-Rewrite/Networking/Packages/ChatMessage.cs:25 | the escape leaves no double quote, leaves a text without backslashes and double quotes unchanged, and keeps every character other than backslash, double quote and apostrophe present exactly when it was present |
| ChatMessage.EscapeIsPerCharacter | SharpMC-Rewrite/Networking/Packages/ChatMessage.cs:25 | the two replaces in a row equal escaping each character on its own: `\` to `\\`, `"` to `''`, everything else kept, in order |
| ChatMessage.EscapeLength | SharpMC-Rewrite/Networking/Packages/ChatMessage.cs:25 | the escaped length is the input length plus the number of backslashes plus the number of double quotes |
| ChatMessage.EscapeCounts | SharpMC-Rewrite/Networking/Packages/ChatMessage.cs:25 | backslashes double, double quotes vanish, apostrophes gain two per double quote, every other character keeps its count |
| ChatMessage.EscapeRemovesQuotes | SharpMC-Rewrite/Networking/Packages/ChatMessage.cs:25 | no double quote survives the escape |
| ChatMessage.EscapeIdentity | SharpMC-Rewrite/Networking/Packages/ChatMessage.cs:25 | a text with no backslash and no double quote is unchanged by the escape |
| ChatMessage.EscapeDecodes | SharpMC-Rewrite/Networking/Packages/ChatMessage.cs:25 | a text without control characters escapes to a well-formed JSON string body that decodes to the text with each `"` shown as `''` |
| ChatMessage.RemoveLineBreaks | SharpMC-Rewrite/Networking/Packages/ChatMessage.cs:25 | dropping CR and LF only deletes characters and leaves no line break |
| ChatMessage.Read | SharpMC-Rewrite/Networking/Packages/ChatMessage.cs:21-26 | the packet keeps the raw message; the broadcast text is `<`, the username verbatim and `> `, followed by the line-break-stripped message with each backslash doubled and each double quote turned into `''`, character by character; its message part holds no double quote; when line-break removal only deletes, the text is at most 3 + the username + twice the message long |
| ChatMessage.EscapeGrowth | SharpMC-Rewrite/Networking/Packages/ChatMessage.cs:25 | when line-break removal only deletes, the escaped message is at most twice the received length |
| ChatMessage.ReadDecodes | SharpMC-Rewrite/Networking/Packages/ChatMessage.cs:24-25 | with a username that needs no escaping and a line-break-stripped message without control characters, the broadcast text decodes as a JSON string body to `<username> ` plus the stripped message with `"` shown as `''` |
| ChatMessage.UsernameNotEscaped | SharpMC-Rewrite/Networking/Packages/ChatMessage.cs:24 | only the message is escaped: for any username holding a double quote and no backslash, the quote reaches the broadcast text and the text is not a well-formed JSON string body, whatever the message |
| ChatMessage.Payload | SharpMC-Rewrite/Networking/Packages/ChatMessage.cs:31 | the chat object parses back to the message and is the message plus the fixed head and tail in length |
| ChatMessage.PayloadRoundTrip | SharpMC-Rewrite/Networking/Packages/ChatMessage.cs:31 | stripping the fixed `{ "text": "` head and `" }` tail recovers the message exactly, and only a payload of that shape parses to it |
| ChatMessage.Write | SharpMC-Rewrite/Networking/Packages/ChatMessage.cs:28-34 | the frame is the send id as a varint, then the JSON object holding the message verbatim, then the byte 0 |

## Left out

- Timer, task and lock plumbing (Level.cs:249-265, 279-280): each operation is one atomic step. The snapshot taken with `ToArray` before iterating is the input sequence itself.
- Per-player and per-entity `OnTick` calls in `GameTick` (Level.cs:371-379): these are calls into player and entity classes that are not part of this model. The model assumes that they, and the block tick callbacks (Level.cs:365), do not add or remove players or entities.
- World.GameTick: every block, player and entity callback is assumed to return normally. `GameTick` (Level.cs:353-403) catches nothing, and a block's `OnTick` runs (Level.cs:365) before its `TryRemove` (Level.cs:367). If one throws, that entry stays queued, the later due entries are not ticked, and the player and entity ticks (Level.cs:371-379) and the save step (Level.cs:381-396) are skipped. If the callback throws again, every later tick whose clock is at or past that entry's due time stops at the same point, and the save counter does not move on those ticks. The promises "each due entry ticked exactly once" and "a save exactly when the counter was 3000" hold only without such a throw.
- Blocks.SetBlock: a physics callback (Level.cs:223) is assumed to return normally. A throwing one skips the remaining neighbours and the `BlockChange` broadcast (Level.cs:206).
- World.GameTick: its promise that the player and entity rosters are unchanged rests on the assumption that no callback adds or removes players or entities. A callback that calls `AddEntity`, `RemoveEntity`, `RemovePlayer` or `AddPlayer` would break it. Its queue promises count only the block tick callbacks' `ScheduleBlockTick` requests; they also assume that `Player.OnTick` and `Entity.OnTick` (Level.cs:371-379) make no `ScheduleBlockTick` call.
- Stopwatch timing, console logging, `GC.Collect` and the extra collection at counter 750 (Level.cs:355, 384-391, 398-402): wall-clock time and runtime hints. Only the save counter and the fact that a save happened are kept. `SaveChunks` is the chunk provider's I/O.
- Wire encoding through the packet buffer (varint and string bytes, flushing), the float value 1.0 of the weather packet, the gamemode and UUID fields of tab entries, and `BroadcastEquipment`: these are classes outside this model or floating point. Packets are recorded deliveries.
- `Vector3` double coordinates and the double parameter of `Mod`: coordinates are integers. For integer values the C# double `%` equals the truncating integer remainder the model uses.
- 32-bit integer ranges: coordinates, `CurrentWorldTime + tickRate` and `Day++` are unbounded integers. Wrap-around at 2^31 is not modelled.
- What block tick and physics callbacks do to blocks, including recursive physics propagation: these are block behaviours. A tick callback is reduced to the schedule requests it makes. Block writes during a drain are not fed back into later lookups.
- `GetSpawnPoint`, `SaveChunks`, `GetOnlinePlayers`, `GetWorldTime`, and the dimension, name, difficulty, gamemode and level-type fields: these are accessors or calls into the world provider.
- `BroadcastPlayerRemoval` (Level.cs:149-158): a tab-list broadcast about a leaving player, outside the modelled roster operations. It does not change the roster.
- World.Valid: `SetWorldTime` (Level.cs:412-415) and the public setters of `CurrentWorldTime`, `Timetorain` and `Raining` (Level.cs:61, 66-67) write modelled fields without a range check. A negative clock or countdown breaks `Valid`; `Timetorain = -1` stops the weather for good. `World.GameTick`'s `Valid(l) ==> Valid(r.level)` and the "every later tick" reading of `World.LateEntryStays` assume that nothing but `GameTick` writes these fields after construction.
- The TPS colour code and the two chat lines sent to the asking player in `CalculateTps`: these are display output.
- The water bucket item and the health-update packet: thin wrappers over inventory, world and buffer APIs outside this model.
- ChatMessage.DecodeJsonString: it does not decode `\u` escapes, which the escape never produces.
- TickQueue.Drain: it states that a due entry no callback schedules is removed, that untouched entries keep their due time, and that nothing unrequested appears. For an entry a callback schedules it states neither whether it remains nor its due time: whether it remains depends on whether the request ran after the entry's own removal (`TickQueue.DrainRemovesDue`). When it remains, its due time is the last request's `now + tickRate`, as `TickQueue.Schedule` states for one request.
- Strings: C# strings are sequences of UTF-16 code units, while the model's strings are sequences of Unicode scalar values. A character outside the Basic Multilingual Plane is one character here and two in C#, which changes lengths but not which characters are escaped.
- Roster.ExistingPlayers: the source compares each member's connection with the caller's connection (`i.Wrapper != caller`) and spawns `caller.Player` (Level.cs:133, 143). The model compares players and spawns the newcomer, so it assumes that the caller's connection belongs to exactly the newcomer.
- Roster.AddPlayer: the equipment sync sent to each existing member is not recorded.
