# Verification of the data structures and protocols of the messaging server

The server keeps one goroutine pair per connection, a registry of connections and rooms, a heap of timers, and a
stack of hand-written buffers and wire formats. This project models those parts in Dafny, in the form the code has
them (classes with fields that methods update, arrays changed in place, loops), and proves what they promise.

| file | models |
|---|---|
| `Heap.dfy`, `Timer.dfy` | the timer: an indexed binary heap with back-pointers, its free list and its wake-up signal |
| `Ring.dfy` | the power-of-two ring with wrapping 64-bit counters |
| `Dispatch.dfy` | one connection's reader loop, dispatcher loop and the pushes of other goroutines, as atomic steps |
| `Room.dfy`, `Bucket.dfy` | rooms as intrusive doubly-linked lists and the bucket's three maps, one call at a time |
| `Interleaving.dfy` | the lock sections of the bucket and its rooms, in any order |
| `Streams.dfy`, `Reader.dfy`, `Writer.dfy` | underlying readers and writers as scripts of replies, and the buffered reader and writer |
| `Request.dfy` | lines, header lines and the request of the opening handshake |
| `Frame.dfy` | frames, masking and message reassembly of RFC 6455 |
| `Endian.dfy`, `Proto.dfy`, `Packet.dfy` | big-endian numbers and the length-prefixed packet |
| `Batching.dfy` | the growing byte buffer and the batching loop of a room in the job service |
| `Pool.dfy` | the buffer pool that cuts arenas into slices |
| `IntList.dfy` | integer lists as text |
| `Basics.dfy`, `Bits.dfy` | shared types, and what bitwise operations mean arithmetically |

How the models are built:

- A goroutine interleaving is a state machine: a state, an action type, `Enabled`, `Apply`, and `Run` over sequences of
  states. Invariants are proved for every step and then for every state of every run.
- An object has a ghost abstract value (`Timer.View`, `Reader.ahead`, `Writer.taken`, `Room.members`, `Bucket.assign`)
  that every method keeps in step with the real fields, and each method states what it does to that value.
- An underlying reader is a script of chunks, each with an optional error; an underlying writer is a script of full and
  short replies. All theorems hold for every script, hence for every chunking.
- `Reader.ahead` is everything not yet given to the caller, and `Reader.reliable` the part of it that comes before the
  next error, where the hundredth empty read in a row counts as an error; `Reader.trouble` is that error.
- Beside the invariants over all runs there are theorems on what an operation achieves when it runs alone: a request is
  answered, a push delivered, a connection in the room it asked for. The functions that specify the formats have their
  own laws, byte by byte or in both directions.

What does not hold of the code as it stands, and what holds instead:

- `Room.Del` reads `drop` again after it has released the lock (internal/comet/room.go:68-70). Two leavers can then
  both unregister, and the slower one removes a successor room that has members: `RereadLosesRoom`. The second look is
  a step of its own in the model, and it keeps the rooms consistent exactly if it finds the flag as the leaver's own
  lock section left it: `RereadKeepsInv`.
- The callers of `ChangeRoom` carry on after a failed join. If `Channel.Room` still points at the room just left, the
  connection's next move clears the head of a list that it is not in: `IgnoreLosesMember`. Carrying on keeps the rooms
  consistent exactly if there is no such stale pointer, as for a connection that was in no room: `IgnoreKeepsInv`.
- Together: the rooms are consistent in all states of a run exactly if every second look and every ignored failure
  in it meets its condition, `ConsistentExactlyIfGuarded`. The theorems about runs assume no more than that.
- `ChangeRoom` of a sole member into its own room fails and leaves a stale pointer. `ChangeRoom` states that it fails
  in exactly this case.
- `Bucket.Del` counts down the address of whichever connection the key now belongs to. `Del` states that the counters
  stay accurate exactly if there is such a connection and its address is the same, and `LateDelMiscounts` is a case in
  which they do not. As long as no live key is put again they stay accurate: `Put`, `Del` and `ChangeRoom` keep
  `Accurate`, and `Sole`, which makes the condition true.
- A close by another goroutine can end the dispatcher first; the reader's own close then blocks for ever on a full
  queue of any capacity: `ForeignCloseCanBlock`. Blocked sends are always served exactly if no other goroutine may
  close: `ServedExactlyWithoutForeignClose`.
- Packet bodies of 2^31-16 to 2^31-1 bytes overflow the length field, pass the size limit and wrap back to the right
  length on the way in. `PacketRoundTrip` says for exactly which lengths a packet is read back, and
  `OversizedIsRefused` shows the first that is not.
- An OpRaw body that goes straight to the sink may be cut short without an error, because `WriteRaw` does not compare
  the count that the sink returns. `WriteTCP` says exactly when it is sent whole.
- The opcode of a fragmented message is lost if all fragments before the last are empty. `MessageReassembled` gives the
  exact condition, and `EmptyFragmentLosesOpcode` the shortest case.
- `JoinInt32s` cuts off one byte whatever the separator is. `SeparatorsThatReadBack` says for exactly which separators
  every list is read back.
- The comment on the writer's `Peek` (pkg/bufio/bufio.go:431) says that it does not advance the write position. The
  code advances it, and the model follows the code.

## Model

| member | source | states |
|---|---|---|
| Heaps.RootIsLeast | pkg/time/timer.go:271-273 | in a heap by parent slots the root is the minimum |
| Heaps.UpStep | pkg/time/timer.go:242-250 | one exchange of up moves the only possible disorder to the parent slot |
| Heaps.UpDone | pkg/time/timer.go:242-250 | where up stops, the whole is a heap |
| Heaps.DownStep | pkg/time/timer.go:253-269 | one exchange of down with the lesser child moves the disorder to that child and puts everything above in order |
| Heaps.DownDone | pkg/time/timer.go:253-269 | where down stops, only the slot it started from may still be below its parent, which up repairs |
| Heaps.SwappedOut | pkg/time/timer.go:156-160 | exchanging a slot with the last leaves one slot out of order among the others |
| Timers.Timer.Swap | pkg/time/timer.go:275-279 | exchanges two entries and their recorded slots; every entry still knows its slot |
| Timers.Timer.Up | pkg/time/timer.go:242-250 | makes a heap again, keeps the entries, and tells when the entry reaches the root |
| Timers.Timer.Down | pkg/time/timer.go:253-269 | sinks an entry within the first n slots, keeps the entries and touches nothing behind |
| Timers.Timer.Insert | pkg/time/timer.go:114-137 | the entry joins the plan; the signal moves exactly if it is due before all others |
| Timers.Timer.RemoveAt | pkg/time/timer.go:156-163 | indexed removal removes exactly one entry, from any slot, and leaves an indexed heap |
| Timers.Timer.Remove | pkg/time/timer.go:140-171 | on the plan, plain removal of the given entry; nothing changes if it is not pending |
| Timers.RootVersusAll | pkg/time/timer.go:123-136 | comparing with the root decides whether a deadline is before all pending ones |
| Timers.Timer.Grow | pkg/time/timer.go:62-75 | chains num new, distinct nodes |
| Timers.Timer.Get | pkg/time/timer.go:78-85 | hands out a node that is not on the free list: its first, or one of a new block |
| Timers.Timer.Put | pkg/time/timer.go:88-92 | puts a node back in front, without its callback |
| Timers.Timer.Add | pkg/time/timer.go:95-103 | hands out a node not outstanding and schedules it, a step of the plan; heap, index, free list and signal stay right |
| Timers.Timer.Del | pkg/time/timer.go:106-111 | cancels the entry if pending and gives the node back, a step of the plan |
| Timers.Timer.Set | pkg/time/timer.go:174-180 | cancels and schedules anew, whether or not the entry was pending, a step of the plan |
| Timers.OperationsWake | pkg/time/timer.go:114-180 | no operation on the plan lets the signal come after a pending deadline, although removal never re-arms |
| Timers.Timer.ExpireStep | pkg/time/timer.go:191-239 | one turn, a step of the plan, fires a due entry than which none is due earlier, or rests with the signal armed at the earliest deadline |
| Timers.Timer.Expire | pkg/time/timer.go:191-239 | fires exactly the due entries, in the order of their deadlines, with their callbacks, and terminates |
| Timers.FireMore | pkg/time/timer.go:191-239 | firing an earliest due entry next keeps the order over everything fired and still pending |
| Timers.AllFired | pkg/time/timer.go:191-239 | when nothing due is left, exactly the due entries have been fired |
| Timers.NeverLate | pkg/time/timer.go:95-239 | in every run of every interleaving the signal comes no later than any pending deadline while the firing goroutine waits |
| Timers.PendingWasScheduled | pkg/time/timer.go:95-180 | whatever is pending was scheduled with that deadline and callback and not touched since |
| Timers.FiringsWereScheduled | pkg/time/timer.go:191-239 | every firing answers one scheduling: the latest, due, not cancelled and not fired before |
| Rings.KeepTop | internal/comet/ring.go:33-35 | clearing lowest bits ends at the top bit |
| Rings.RoundUp | internal/comet/ring.go:30-42 | clearing lowest bits and doubling yields the smallest power of two that is not smaller |
| Bits.ClearLowest | internal/comet/ring.go:32-37 | the test num & (num - 1) == 0 holds exactly of powers of two, and clearing keeps the top bit |
| Rings.RingState.Head | internal/comet/ring.go:45-52 | Get offers the oldest unread message; storing into its slot changes no other |
| Rings.RingState.Popped | internal/comet/ring.go:55-64 | GetAdv removes the head of the queue, across the wrap of the counter |
| Rings.RingState.Tail | internal/comet/ring.go:67-74 | the slot that Set offers is never one of the unread |
| Rings.RingState.Pushed | internal/comet/ring.go:77-86 | SetAdv appends what was stored, across the wrap of the counter |
| Rings.RingState.SlotsDiffer | internal/comet/ring.go:45-52 | masked positions of unread messages never collide |
| Rings.Ring.constructor | internal/comet/ring.go:19-42 | an empty ring with the smallest power-of-two capacity, for every size up to 2^63 |
| Rings.Ring.Get | internal/comet/ring.go:45-52 | refuses exactly on an empty queue, else offers its head |
| Rings.Ring.GetAdv | internal/comet/ring.go:55-64 | dequeues |
| Rings.Ring.Set | internal/comet/ring.go:67-74 | refuses exactly on a full queue, else offers a free slot |
| Rings.Ring.SetAdv | internal/comet/ring.go:77-86 | enqueues what the slot holds |
| Dispatch.StepKeepsInv | internal/comet/server_tcp.go:191-354 | every atomic step of reader, dispatcher, pusher or closer keeps the protocol's invariant |
| Dispatch.RunKeepsInv | internal/comet/server_tcp.go:191-354 | hence it holds in every state of every run |
| Dispatch.NoLostWakeup | internal/comet/server_tcp.go:191-354 | a waiting dispatcher with a non-empty ring has a ready signal queued or about to be sent |
| Dispatch.OutputInOrder | internal/comet/server_tcp.go:270-354 | replies are written and flushed in request order and pushes in acceptance order, none twice, none skipped |
| Dispatch.QuietMeansAnswered | internal/comet/server_tcp.go:270-354 | once all is quiet, everything published and accepted has been written and flushed |
| Dispatch.RequestIsPublished | internal/comet/server_tcp.go:191-236 | the reader's turn puts the handled request into the ring and signals |
| Dispatch.RequestIsWritten | internal/comet/server_tcp.go:291-338 | the dispatcher writes the one reply there is, drops its body, frees its slot, flushes, and waits again |
| Dispatch.RequestIsAnswered | internal/comet/server_tcp.go:191-341 | a request that comes alone is answered on the connection, and all is quiet again |
| Dispatch.PushIsDelivered | internal/comet/server_tcp.go:317-338 | a message pushed to a waiting dispatcher reaches the connection |
| Dispatch.PushNeedsRoom | internal/comet/channel.go:69-78 | a push is accepted exactly if the queue has room |
| Dispatch.TeardownEnds | internal/comet/server_tcp.go:191-250 | a reader that fails to read or finds the ring full ends both goroutines |
| Dispatch.FailureStops | internal/comet/server_tcp.go:299-338 | every write and every flush can fail, after which nothing more is written |
| Dispatch.FailureOnlyDrains | internal/comet/server_tcp.go:343-354 | a failed dispatcher discards signals until the final one |
| Dispatch.BlockedSendIsServed | internal/comet/channel.go:87-96 | a blocked send has a receiver that can act, and only finitely often before it receives, exactly if the dispatcher has not exited; if only the own teardown closes, it has not |
| Dispatch.ForeignCloseCanBlock | internal/comet/channel.go:93-96 | for every capacity a run in which another goroutine's close leaves the reader blocked with the dispatcher gone |
| Dispatch.ServedExactlyWithoutForeignClose | internal/comet/channel.go:87-96 | for every capacity, blocked sends are served in all runs exactly if no other goroutine may close |
| Dispatch.ExitedNeverReceives | internal/comet/server_tcp.go:270-354 | nothing that happens later makes an exited dispatcher receive again |
| Rooms.Channel.Push | internal/comet/channel.go:69-78 | puts the message behind the others exactly if there is room, and reports whether there was none |
| Rooms.Room.Put | internal/comet/room.go:31-49 | links in front exactly if the room is not dropped; the list stays doubly linked and acyclic |
| Rooms.Room.Unlink | internal/comet/room.go:54-64 | the neighbours bypass the removed channel and no other pointer changes; for a channel in no list the head is cleared |
| Rooms.Room.Del | internal/comet/room.go:52-71 | the list is the old one without the channel, and the room is dropped exactly if it is now empty; for a channel in no list the head is cleared and a member counted out |
| Rooms.Room.Push | internal/comet/room.go:74-81 | every member with room gets the message once, behind the others; nobody else gets anything |
| Rooms.Room.Close | internal/comet/room.go:84-91 | sends the final signal once to each member |
| Rooms.WithoutAt | internal/comet/room.go:52-71 | leaving out a channel is leaving out its position |
| Buckets.Bucket.Put | internal/comet/bucket.go:106-137 | the connection becomes live, in its room, under its key; a previous one under the key gets the final signal; the counters stay accurate; exactly when live connections stay the only ones under their keys |
| Buckets.Bucket.ChangeRoom | internal/comet/bucket.go:70-103 | moves the connection, unless it is the sole member asking for its own room, exactly when it fails; the state after a failure; the counters as accurate as before |
| Buckets.Bucket.Del | internal/comet/bucket.go:140-163 | a late end of a replaced connection evicts nobody; rooms match the live connections; exactly when the counters stay accurate, and that they do while no live key is put twice |
| Buckets.Bucket.DelRoom | internal/comet/bucket.go:196-201 | unregisters the room and closes its members |
| Buckets.Bucket.Join | internal/comet/bucket.go:118-134 | finds or creates the room and puts the connection in front of its list |
| Buckets.Bucket.Detach | internal/comet/bucket.go:77-95 | leaves the old room, which is unregistered exactly if that empties it |
| Buckets.Bucket.Unregister | internal/comet/bucket.go:144-156 | deletes the key only for its own connection, and counts down the key's present owner |
| Buckets.OneLessCounted | internal/comet/bucket.go:149-155 | counting down at an address is right exactly if it is the leaving connection's |
| Buckets.UncountedDiffers | internal/comet/bucket.go:144-156 | not counting down a leaving connection is never right |
| Buckets.OneMoreCounted | internal/comet/bucket.go:129 | counting up a new connection's address keeps the counters accurate |
| Buckets.OneMorePerKey | internal/comet/bucket.go:113-117 | putting a connection leaves every live one under its key exactly if the key was free |
| Buckets.LateDelMiscounts | internal/comet/bucket.go:140-163 | a late end of a connection replaced from another address leaves the counters wrong |
| Interleaving.RereadKeepsInv | internal/comet/room.go:68-70 | the second look at the flag keeps the rooms consistent exactly if it finds what the lock section decided |
| Interleaving.IgnoreKeepsInv | internal/comet/bucket.go:93-100 | carrying on after a failed join keeps the rooms consistent exactly if no stale room pointer is left |
| Interleaving.StepKeepsInv | internal/comet/bucket.go:70-163 | a step keeps lists, counters, flags and registration consistent exactly if it is harmless in this sense, as all lock sections are |
| Interleaving.RunKeepsInv | internal/comet/bucket.go:70-163 | hence they are consistent in every state that a run reaches by harmless steps |
| Interleaving.ConsistentExactlyIfGuarded | internal/comet/bucket.go:70-163 | a run keeps them consistent throughout exactly if all its steps are harmless |
| Interleaving.MembersAreReachable | internal/comet/bucket.go:70-163 | a room with a member is the one registered under its ID, is not dropped, and counts its members right |
| Interleaving.DroppedHasOneDelRoom | internal/comet/bucket.go:196-201 | a dropped room is registered exactly while one removal of it is pending |
| Interleaving.DroppedStaysEmpty | internal/comet/room.go:31-71 | a dropped room stays dropped and empty for ever |
| Interleaving.PutAlone | internal/comet/bucket.go:106-137 | a new connection ends up a member of the room registered under the ID it gave, new or not |
| Interleaving.JoinAlone | internal/comet/bucket.go:86-100 | a connection in no room ends up a member of the room registered under the ID it asks for |
| Interleaving.MoveAlone | internal/comet/bucket.go:86-100 | a connection in a room ends up in the room it asks for and in no other, and is refused exactly if it is the only member of that room |
| Interleaving.LeaveAlone | internal/comet/bucket.go:77-85 | leaving, or ending, takes the connection out of its room, which is dropped and unregistered exactly if that empties it |
| Interleaving.CloseAlone | internal/comet/bucket.go:140-163 | the end of a connection in no room |
| Interleaving.RereadLosesRoom | internal/comet/room.go:68-70 | a run that loses a room with a member, if the flag is read again after unlocking |
| Interleaving.IgnoreLosesMember | internal/comet/bucket.go:93-100 | a run that loses a member, if a failed join is ignored |
| Streams.ReadConserves | pkg/bufio/bufio.go:77-105 | one underlying read splits the bytes to come into those delivered and the rest |
| Streams.ReadKeepsClean | pkg/bufio/bufio.go:77-105 | and moves what comes before the next error accordingly, empty reads counted |
| Streams.HundredEmptyReads | pkg/bufio/bufio.go:88-104 | a byte behind empty reads is reached exactly if there are fewer than a hundred of them |
| Readers.Reader.Fill | pkg/bufio/bufio.go:77-105 | on a buffer with space, adds bytes or sets the error that is due, and loses no byte |
| Readers.Reader.ReadErr | pkg/bufio/bufio.go:108-112 | reports the error once |
| Readers.Reader.Peek | pkg/bufio/bufio.go:115-136 | the next n bytes, or those before the error and the very error that is due, with nothing consumed |
| Readers.Reader.Pop | pkg/bufio/bufio.go:139-146 | succeeds exactly if n fits the buffer and n bytes come before the next error; a failed pop consumes nothing |
| Readers.Reader.Discard | pkg/bufio/bufio.go:149-178 | skips exactly n bytes, or all bytes up to the error that it reports |
| Readers.Reader.Read | pkg/bufio/bufio.go:183-213 | returns the next bytes: what is buffered, or one read, past the buffer for a slice as large |
| Readers.Reader.ReadByte | pkg/bufio/bufio.go:219-232 | the next byte, exactly if there is one before the next error, and otherwise that error |
| Readers.Reader.ReadSlice | pkg/bufio/bufio.go:235-264 | through the first delimiter, or a full buffer without it, or all bytes up to the error |
| Readers.Reader.ReadLine | pkg/bufio/bufio.go:267-302 | a line without its ending or a piece of one, with a carriage return at the end of a full buffer pushed back |
| Requests.ReadLine | pkg/websocket/request.go:44-62 | for every chunking: the bytes before the first line feed minus one carriage return, and consumes exactly through the line feed |
| Requests.LineMeaning | pkg/websocket/request.go:44-62 | a line ends at byte 10 and loses one byte 13 before it; without byte 10 there is no line |
| Requests.ReadPiece | pkg/websocket/request.go:44-62 | each turn gets nearer to the line feed and keeps what is collected a front of the line |
| Requests.Trim | pkg/websocket/request.go:111-121 | removes exactly the blanks at both ends |
| Requests.TrimLeftExactly | pkg/websocket/request.go:111-115 | drops exactly the bytes 32 and 9 in front |
| Requests.HeaderEndsExactly | pkg/websocket/request.go:77-81 | the header ends exactly at a line of blanks and tabs |
| Requests.FieldExactly | pkg/websocket/request.go:82-92 | a header line is split at its first colon, and refused exactly if it has none or begins with it |
| Requests.RequestLineExactly | pkg/websocket/request.go:100-108 | a request line is split at its first two blanks, and refused exactly if it has not got two |
| Requests.BadLineReported | pkg/websocket/request.go:77-86 | a line without a key makes the request malformed, after any good lines |
| Requests.BadRequestLineReported | pkg/websocket/request.go:100-105 | so does a request line with less than two blanks |
| Requests.PrintedBytes | pkg/websocket/request.go:21-96 | the text that is read back, in bytes |
| Requests.ReadMIMEHeader | pkg/websocket/request.go:65-96 | reads the header that the stream starts with, field by field, and stands behind its empty line |
| Requests.ReadRequest | pkg/websocket/request.go:21-41 | for every chunking reads what the stream means as a request, or reports the malformed line |
| Requests.RequestLineRoundTrip | pkg/websocket/request.go:100-108 | a request line with space-free method and target parses back |
| Requests.FieldRoundTrip | pkg/websocket/request.go:77-94 | a printed header line parses back to its key and value |
| Requests.RequestRoundTrip | pkg/websocket/request.go:21-96 | a printed request parses back to the same fields in order and leaves what follows |
| Requests.ReadPrinted | pkg/websocket/request.go:21-96 | and so it does through the buffered reader, for every chunking |
| Writers.Writer.Flush | pkg/bufio/bufio.go:352-376 | what the sink has and what is buffered stay the bytes taken, also after a partial write; calls the sink once, succeeds exactly if that takes everything without an error, and keeps the error it gave |
| Writers.Writer.Overflow | pkg/bufio/bufio.go:385-400 | a turn of Write takes a front of the rest, shrinks replies, rest or buffer, and reports an error of the sink |
| Writers.Writer.Write | pkg/bufio/bufio.go:385-411 | reports exactly the bytes it has taken; terminates; the first error of the sink is the last reply consumed, is returned and kept, and nothing reaches the sink after it |
| Writers.Writer.WriteRaw | pkg/bufio/bufio.go:414-429 | the same, past an empty buffer; how much of the bytes one reply takes |
| Writers.Writer.Peek | pkg/bufio/bufio.go:432-448 | reserves k bytes behind everything taken so far, flushing if needed; returns the error of a failed flush |
| Writers.Writer.WriteString | pkg/bufio/bufio.go:451-471 | reports exactly the bytes it has taken, and errors as Write does |
| Frames.MaskBytes | pkg/websocket/conn.go:254-260 | masks in place from a position of the key and returns the position to go on from |
| Frames.MaskedBits | pkg/websocket/conn.go:254-260 | exactly those bits of byte i are flipped that are set in byte (pos + i) mod 4 of the key |
| Frames.MaskTwice | pkg/websocket/conn.go:254-260 | masking is an involution |
| Frames.MaskInPieces | pkg/websocket/conn.go:254-260 | masking two pieces through the returned position is masking the whole |
| Frames.ReadFrame | pkg/websocket/conn.go:178-246 | reads the frame that the stream starts with, or reports reserved bits or a stream that is cut, for every chunking |
| Frames.WriteHeader | pkg/websocket/conn.go:74-108 | sends the header in the shortest of three length encodings, even if a reservation forces a flush |
| Frames.WriteMessage | pkg/websocket/conn.go:65-71 | sends header and payload, and succeeds on a sink that takes everything |
| Frames.LengthLayout | pkg/websocket/conn.go:87-106 | the three length encodings, most significant byte first |
| Frames.FrameLayout | pkg/websocket/conn.go:74-108 | final bit, opcode, mask bit, length, key and payload are where section 5.2 of RFC 6455 has them |
| Frames.BigDigit | pkg/websocket/conn.go:94-105 | byte i of a k-byte number is its digit of weight 256^(k-1-i) |
| Frames.ReservedBits | pkg/websocket/conn.go:194-196 | a frame is refused exactly if one of the three reserved bits is set |
| Frames.HugeLengthIsEmpty | pkg/websocket/conn.go:214-238 | a length of 2^63 or more is negative as an int64, and the payload is taken to be empty |
| Frames.HeaderRoundTrip | pkg/websocket/conn.go:178-226 | all three length encodings and the mask bit are read back |
| Frames.FrameRoundTrip | pkg/websocket/conn.go:178-246 | a frame, masked or not, is read back exactly if its payload fits the reader's buffer |
| Frames.MessageIsFrame | pkg/websocket/conn.go:65-108 | what WriteMessage sends is a final frame of that opcode |
| Frames.ReadMessage | pkg/websocket/conn.go:127-175 | on the bytes of any frames: returns what these frames make, leaves the rest, and has written the answers to the pings; if they complete nothing and no frame follows, the error of the stream |
| Frames.FirstFrame | pkg/websocket/conn.go:139-168 | what a call does with its first frame, for each opcode |
| Frames.PongOnTheWire | pkg/websocket/conn.go:154-158 | the bytes of the answer to a ping |
| Frames.FramesReassembled | pkg/websocket/conn.go:127-175 | data frames of any opcodes up to a final one are put together among pings and pongs; which opcode is reported |
| Frames.MessageReassembled | pkg/websocket/conn.go:127-175 | for a well-formed fragmented message, exactly when its opcode is reported |
| Frames.EmptyFragmentLosesOpcode | pkg/websocket/conn.go:139-154 | an empty first fragment before one with data is reported with opcode 0 |
| Frames.ReadsAtMost102 | pkg/websocket/conn.go:127-175 | one call reads at most 102 frames, and exactly 102 when it gives up; exactly the pings among them are answered |
| Endian.Int16RoundTrip | pkg/endian/binary/endian.go:17-24 | 16-bit numbers decode from their encoding, negatives included |
| Endian.Int32RoundTrip | pkg/endian/binary/endian.go:27-38 | 32-bit numbers likewise |
| Endian.Int16Layout | pkg/endian/binary/endian.go:20-24 | the most significant byte first, in two's complement |
| Endian.Int32Layout | pkg/endian/binary/endian.go:32-38 | the most significant byte first, in two's complement |
| Endian.Int16Onto | pkg/endian/binary/endian.go:17-24 | every two bytes are the encoding of the number they decode to |
| Endian.Int32Onto | pkg/endian/binary/endian.go:27-38 | every four bytes are the encoding of the number they decode to |
| Endian.StoreInt16 | pkg/endian/binary/endian.go:20-24 | the in-place encoder writes these two bytes and no others |
| Endian.StoreInt32 | pkg/endian/binary/endian.go:32-38 | the in-place encoder writes these four bytes and no others |
| Packets.ReadTCP | api/protocol/protocol.go:64-100 | decodes the packet that the stream starts with, for every chunking; where it stands after each error |
| Packets.WriteTCP | api/protocol/protocol.go:103-126 | sends the packet, or an OpRaw body as it is; never more than that, and without an error exactly that unless a direct raw write is cut short |
| Packets.WriteTCPHeart | api/protocol/protocol.go:129-146 | sends a packet whose body is the number online, or nothing |
| Packets.HeaderRoundTrip | api/protocol/protocol.go:64-84 | all header fields are read back, the version cut to 16 bits |
| Packets.PacketRoundTrip | api/protocol/protocol.go:64-126 | a packet is read back, with what follows it untouched, exactly for the body lengths listed |
| Packets.PacketLayout | api/protocol/protocol.go:49-62 | where the fields of a packet are; operation 9 is sent as it is |
| Packets.RefusedExactly | api/protocol/protocol.go:86-100 | which headers are refused, with which error, and when the body is there |
| Packets.DecodedWasEncoded | api/protocol/protocol.go:64-100 | what is decoded, with a pack length of at least 16, is the encoding of the result |
| Packets.OversizedIsRefused | api/protocol/protocol.go:86-88 | one byte above the body limit the packet is refused, whatever the size of the buffer |
| Packets.StreamRoundTrip | api/protocol/protocol.go:64-126 | packets written one after the other are read back one after the other |
| Packets.ItemsAreStream | api/protocol/protocol.go:103-146 | messages, heartbeats and raw bodies of whole packets, mixed, form one packet stream |
| Packets.ItemsRoundTrip | api/protocol/protocol.go:64-146 | and the peer reads back exactly the packets meant, in order |
| Packets.ReadMany | api/protocol/protocol.go:64-100 | repeated reads through the buffered reader yield that sequence |
| Packets.WriteAll | api/protocol/protocol.go:103-146 | the writes and a flush put exactly these bytes on the sink, or return the first error of the sink |
| ByteBuffers.ByteWriter.Grow | pkg/bytes/writer.go:50-62 | makes room and keeps the contents; an array once left is not written again |
| ByteBuffers.ByteWriter.Write | pkg/bytes/writer.go:44-47 | appends, growing if needed |
| ByteBuffers.ByteWriter.WriteProto | api/protocol/protocol.go:49-62 | appends the encoding, also when the body moves the array after the header was filled in |
| Batching.PushProc | internal/job/room.go:60-107 | broadcasts exactly the batches that the events form, whose slices stay intact, and exits exactly at a close or at a ready marker with nothing open |
| Batching.BatchesConserve | internal/job/room.go:60-107 | batches and open messages are the dequeued messages in order; no batch is empty or above max(2, batch) |
| Batching.BatchEndsExactly | internal/job/room.go:75-104 | what one more event makes of the open batch: it goes on, or ends full, late or at the ready marker |
| Batching.FlattenBatches | internal/job/room.go:95-98 | the broadcasts together are the encodings of the messages |
| Batching.BroadcastsDecode | internal/job/room.go:60-107 | decoding the broadcasts recovers the dequeued messages, all but those of the open batch |
| Batching.Room.Push | internal/job/room.go:45-57 | queues the message exactly if there is room |
| Pools.Pool.constructor | pkg/bytes/buffer.go:32-37 | the first arena, cut into num free buffers |
| Pools.Pool.Grow | pkg/bytes/buffer.go:40-60 | cuts a new arena into consecutive buffers, all free and chained |
| Pools.CutIsDisjoint | pkg/bytes/buffer.go:53-59 | consecutive slices of an arena do not overlap |
| Pools.CutCovers | pkg/bytes/buffer.go:53-59 | every byte of an arena belongs to exactly one buffer |
| Pools.Pool.Get | pkg/bytes/buffer.go:63-72 | hands out a buffer not outstanding, whose bytes overlap with no other buffer, across growth |
| Pools.Pool.Put | pkg/bytes/buffer.go:74-79 | puts an outstanding buffer back in front of the free list, which stays acyclic |
| IntLists.JoinInts | pkg/strings/strings.go:18-36 | prints the list as specified |
| IntLists.SplitInts | pkg/strings/strings.go:39-53 | parses the pieces, and fails exactly if one fails |
| IntLists.FormatParses | pkg/strings/strings.go:46 | a printed number parses back, extremes included |
| IntLists.FormatExactly | pkg/strings/strings.go:27 | a sign exactly for negative numbers, and no leading zeros |
| IntLists.ValueExactly | pkg/strings/strings.go:46 | a number is read from digits alone, at least one |
| IntLists.ParseIntExactly | pkg/strings/strings.go:46 | with or without a sign, and only within the range of the type |
| IntLists.Ranges | pkg/strings/strings.go:46-85 | the ranges of the two types |
| IntLists.PiecesExactly | pkg/strings/strings.go:43 | the pieces make up the text again and none contains the separator |
| IntLists.ParseAllExactly | pkg/strings/strings.go:45-51 | a list is read exactly if each of its pieces is |
| IntLists.PiecesOfJoin | pkg/strings/strings.go:18-43 | splitting a printed list yields its printed numbers |
| IntLists.Int32sRoundTrip | pkg/strings/strings.go:18-53 | every int32 list survives printing with commas and parsing |
| IntLists.Int64sRoundTrip | pkg/strings/strings.go:56-92 | every int64 list likewise |
| IntLists.SeparatorsThatReadBack | pkg/strings/strings.go:27-33 | all lists are read back exactly if the separator is one byte that is no sign and no digit |

## Left out

Parts of the system:

- gRPC, etcd, Kafka, Redis, gin, TLS, sockets, logging, whitelist and configuration: calls into code that is not here.
- internal/comet/server_websocket.go: the same dispatch protocol as server_tcp.go.
- `ReadWebsocket`, `WriteWebsocket` and `WriteWebsocketHeart`: the same packet inside one frame.
- `Channel.Watch`, `UnWatch`, `NeedPush`, `Bucket.Broadcast`, `Rooms`, `IPCount` and the counting queries: single-body members.
- `Operate`, the heartbeat and authentication in server_tcp.go: in `Dispatch` they are part of the step that reads a request.
- `http.Header` canonicalisation, `Host` and the handshake reply: the header is the sequence of its fields in order.
- Reset and default-size constructors of the buffered reader and writer, and the getters `Available` and `Buffered`.

Idealisations:

- Clock and memory: each operation reads the clock once, and single accesses to the ring counters and flags are atomic.
- A line that is not ended before the next read error: what `readLine` returns for it is not stated, except that it is all bytes up to there when it reports success.
- Buffers of the line reader below two bytes, where a pushed-back carriage return fills the buffer again.
- An underlying reader that returns a negative count, at which the code panics, and an underlying writer that for ever takes nothing without an error.
- Slices that alias the reader's buffer are values taken when they are returned.
- A buffer of the pool can be re-sliced up to the end of its arena, as Go slices keep their capacity; the model's buffers keep their bounds.
- `Channel.Close` waits for space in the code; in `Rooms` the waiting senders stand behind the buffered signals in one queue, and `Dispatch` models the wait itself.
- The signal queue has a capacity of at least one; pools, timers and rings have a size of at least one.
- A handle is released once: `Del` and `Put` are not called for a node or buffer that is not outstanding.
- The batching timer's durations: an event says whether the time was up, and the ready marker arrives at any time. Messages still queued when the loop exits are not part of the model.
- Which of two parse errors `strconv.ParseInt` reports, and strings as anything but bytes.

Weaker contracts:

- Timers.Timer.Expire: one clock reading serves the whole activation and no other operation comes between its turns; `Timers.Timer.ExpireStep` has neither restriction.
- Requests.ReadLine: for a line that is not ended before a read error, whether the error or the bytes so far are returned depends on the chunking, and only the bytes are described.
- Requests.ReadMIMEHeader: claims nothing about its result when a line of the header is not ended.
- Requests.ReadRequest: claims nothing about its result when a line of the request is not ended.
- Frames.ReadMessage: claims nothing if the frames given complete no message and yet another frame follows them, or about the result besides the error after an answer that could not be written.
- Rooms.Room.Del: a channel that is linked in another room's list is not part of the model.
