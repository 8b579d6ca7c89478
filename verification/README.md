# Verification of the aesdchar driver and the aesdsocket server

This project models two cooperating programs and proves what they compute.

* **The aesdchar driver** is a byte-stream device. Writes assemble arbitrary chunks into
  newline-terminated lines in a growing buffer and push each finished line into a ring of fixed
  capacity; the ring hands back the pointer of the line it displaces. Reads, seeks and the
  `AESDCHAR_IOCSEEKTO` ioctl show the ring as one flat, seekable file.
* **The aesdsocket server** cuts each client's byte stream into lines, sends data lines to the device
  and seek lines to the ioctl, and reads the device back one byte at a time, sending a line at each
  newline. Its main loop keeps client threads on a singly linked list and reaps the finished ones.

Main results, each over all inputs or all runs:

* `DriverRuns.WriteThenRead`: however a stream is split into writes and however it is read back, the
  file is the newest `capacity` complete lines of the stream.
* `Driver.Device.Write` and `DriverRuns.RunToUnload`: under every combination of failing calls a write
  does what `WriteOutcome` computes from its bytes and the failures, and over any run that ends in
  module unload every block is freed exactly once, except `DriverMachine.Losses` many: one for each
  write whose `krealloc` failed over a live line buffer. `Losses` is computed from the capacity, the
  failures and the operations alone; `FailedWideningLoses` is a run for which it is 1.
* `Connections.Connection.Handle`: for every chunking, the commands issued are those of the lines of the
  stream, and exit, device, position and sends are the pure machine's (`Server.dfy`) whatever
  allocations, sends, reopens and device calls fail. `ServerModel.RunMeans` says what that machine does
  over a device without failures: the client is sent the front of what `Framing.RunBatches` prescribes
  and the device is left with the front of its lines, complete whenever the client ends the
  connection. `StoredUnderFailures` and `SentUnderFailures` say what is left of this under any failures.
  `ServeHangs` says exactly when a connection hangs, `HungRun` is one that does.
* `Framing.BatchesAreLines` and `ChunkingKeepsHistory`: neither the commands nor the stored lines depend
  on the chunking. The sends do: `OneRoundFits` says that any stream with at most one chunk that holds a
  newline fares as it would unchunked, and `EchoOfOneRound` that for data lines no other does.
* `EndToEnd.ServeAndInspect` and `ServeUnderFailures`: the server over the driver, from a client's chunks
  to what the device then holds.
* `Interleaving.AnyInterleaving`: for any number of clients and any interleaving, the device holds
  whole lines, and each client's writes are, in order, a prefix of its data lines. `AllReachExactly`
  says for which schedules all of a client's writes reach the device, `SafeLinesOnDevice` that under
  them its lines there are such a prefix; `StrayRun` is a schedule in which one is lost between another
  thread's unlocked close and reopen. `PairedDelivers` is the liveness side: when each thread reopens
  right after closing, every line gets to the device.
* `Reaping.Registry.Reap` and `AcceptLoop.Serve`: on the heap-linked list, where a freed node holds
  arbitrary values and may not be freed again, a pass removes exactly the nodes that are complete when
  visited; over a whole run the connections are closed in the order a pure machine gives, a finished
  client at the next pass, and every client is joined exactly once and its record freed exactly once.

How the model is built:

* The kernel heap (`Kernel.dfy`) is a map from allocation identities to block contents. Identities are
  never reused, so a second free of a block, a use after free or a store outside a block is a
  precondition violation. Which fallible calls fail is a script of outcomes read from the front
  (`Faults.dfy`); an exhausted script means success. The device has one for its allocations, user copies,
  interruptible locks and for being opened, the server one for its allocations and one for its sends.
  All theorems quantify over the scripts.
* The imperative classes are proved against pure functions of bytes and scripts (`WriteOutcome.dfy`,
  `Machine.dfy`, `Server.dfy`, `Accept.dfy`); what these mean is then proved about the functions.
* The ring's capacity is a parameter from 1 to 255, since the indices are 8 bits wide
  (`aesd-char-driver/aesd-circular-buffer.h:44-48`); the driver's value is 10.
* Each `aesd_*` operation is one step, because the driver holds its mutex for the whole operation. A
  thread that sets `complete` while the main loop walks the list is a schedule of finishing threads,
  one set for each visit and for the time between passes.
* The recognition of a seek line is a parameter `parse`, a function from a line to an optional seek.

## Model

| member | source | states |
|---|---|---|
| Text.LinesTail | aesd-char-driver/main.c:187-230 | Cutting a stream into complete lines and a tail loses no byte; the lines end at their only newline and the tail has none |
| Text.SplitUnique | aesd-char-driver/main.c:187-230 | That cut is the only one into lines and a newline-free rest |
| Text.LinesAppend | aesd-char-driver/main.c:187-230 | Only the unterminated tail of what came before affects how later bytes are cut |
| Positions.AtUnique | aesd-char-driver/aesd-circular-buffer.c:66-98 | A file position names at most one (line, offset) pair |
| Positions.AtExists | aesd-char-driver/aesd-circular-buffer.c:29-57 | A position names a pair if and only if it is below the total size |
| Positions.FlattenAt | aesd-char-driver/aesd-circular-buffer.c:19-28 | The byte range at a pair's position in the concatenated file is that range of that line |
| Positions.EvictionShift | aesd-char-driver/aesd-circular-buffer.c:112-123 | Dropping the oldest size and adding one moves each surviving pair (e+1, o) to (e, o) and its position down by exactly the dropped size, both ways |
| Ring.OldestIsOutOffs | aesd-char-driver/aesd-circular-buffer.c:112-116 | In a full ring the slot at out_offs is the oldest entry and char_size covers it, so the subtraction cannot underflow |
| Ring.AddStep | aesd-char-driver/aesd-circular-buffer.c:107-127 | One addition keeps the reachability invariant (indices in range, full means in = out, not full means out = 0 and the upper slots still zero, char_size is the live total), keeps the newest N entries, and never clears full |
| Ring.CircularBuffer.constructor | aesd-char-driver/aesd-circular-buffer.c:132-135 | The zeroed ring satisfies the invariant and holds nothing |
| Ring.CircularBuffer.MoreEntries | aesd-char-driver/aesd-circular-buffer.c:40-41 | The guard shared by both lookups is true exactly for the live entries, so both loops end within the live count |
| Ring.CircularBuffer.FindEntryOffsetForFpos | aesd-char-driver/aesd-circular-buffer.c:29-57 | Returns the slot and offset that hold a position, and nothing exactly when the position is at or past char_size |
| Ring.CircularBuffer.FindFposForEntryOffset | aesd-char-driver/aesd-circular-buffer.c:66-98 | Returns the position of an offset in a live entry, and -1 exactly when the entry is not live or the offset is past its end |
| Ring.CircularBuffer.AddEntry | aesd-char-driver/aesd-circular-buffer.c:107-127 | The ring then holds the newest N of the old entries and the new one, and hands back the oldest pointer exactly when it was full |
| Ring.FposThenEntry | aesd-char-driver/aesd-circular-buffer.c:29-98 | A (line, offset) pair taken to a position is looked up to slot (out_offs + e) mod N at the same offset |
| Ring.EntryThenFpos | aesd-char-driver/aesd-circular-buffer.c:29-98 | A position looked up to a slot and offset maps back to the same position |
| FlatFile.EvictionShiftsFile | aesd-char-driver/aesd-circular-buffer.c:107-127 | Adding to a full ring drops the oldest line from the front of the file, appends the new one, and shifts every surviving position by the oldest size |
| FlatFile.PieceIsNext | aesd-char-driver/main.c:73-98 | A read returns the next bytes of the file, at most count, and none exactly at the end |
| FlatFile.ReadsReconstruct | aesd-char-driver/main.c:73-98 | Successive reads with any positive counts return consecutive stretches; one is empty exactly when the end is reached; there are at most as many non-empty ones as bytes |
| FlatFile.ReadToEnd | aesd-char-driver/main.c:73-98 | Reads up to the first empty one concatenate to the file from the start position |
| Seek64.SeekTest | aesd-char-driver/main.c:112-134 | The wrapped sum and single unsigned comparison accept exactly the sums in 0..char_size and those that wrap into it from below |
| Seek64.SeekTestExact | aesd-char-driver/main.c:112-134 | The test agrees with the mathematical range check if and only if the sum does not wrap, which a non-negative position guarantees |
| LineAssembly.AbsorbAppend | aesd-char-driver/main.c:187-230 | Writing s then t is writing s + t |
| LineAssembly.AbsorbIsLines | aesd-char-driver/main.c:187-230 | Byte-by-byte assembly computes the complete lines and the tail of the stream |
| LineAssembly.CallsAbsorbStream | aesd-char-driver/main.c:144-234 | For any split of a stream into calls the completed lines are those of the whole stream and the pending bytes are its tail |
| WriteOutcome.NoFailuresNoStop | aesd-char-driver/main.c:144-234 | When no foreign call fails a write stores all its bytes |
| WriteOutcome.StoppedIsPrefix | aesd-char-driver/main.c:187-233 | However a write ends, the lines it completes are those of a prefix of its bytes |
| WriteOutcome.EndBlames | aesd-char-driver/main.c:144-234 | A write stores all its bytes if and only if none of the calls it makes fails, and it makes none after one that does |
| Ownership.OwnsCommit | aesd-char-driver/main.c:199-217 | Pushing a line's copy and freeing what it displaces keeps the account: live blocks are the ring's, the line buffer and lost ones, each held once |
| Ownership.NotYetSwept | aesd-char-driver/main.c:346-350 | A sized slot the sweep has not reached holds a live block the sweep has not freed |
| Ownership.SweptAll | aesd-char-driver/main.c:346-350 | The sweep over all slots frees exactly the live entries' blocks |
| KernelCalls.Kernel.KMalloc | aesd-char-driver/main.c:179-199 | A fresh block of the asked size with unspecified contents, or NULL and no change |
| KernelCalls.Kernel.KRealloc | aesd-char-driver/main.c:170 | A fresh block with the common prefix, the old one freed; on failure NULL and the old block still live |
| KernelCalls.Kernel.KFree | aesd-char-driver/main.c:213-217 | Frees a live block, once; NULL is ignored |
| Driver.Device.constructor | aesd-char-driver/main.c:318 | The zeroed device satisfies the driver invariant with nothing stored, pending or lost |
| Driver.Device.WidenLine | aesd-char-driver/main.c:168-176 | On success the buffer has room for the whole call and the pending bytes are kept; on failure line_buf is NULL and the old block is lost |
| Driver.Device.StartLine | aesd-char-driver/main.c:177-228 | A fresh line buffer has room for all bytes still to come |
| Driver.Device.GrowLine | aesd-char-driver/main.c:167-185 | After either allocation line_len + count fits the line buffer |
| Driver.Device.StoreByte | aesd-char-driver/main.c:189 | The store is inside the allocation and the pending bytes grow by one |
| Driver.Device.CopyLine | aesd-char-driver/main.c:198-208 | The entry's block holds exactly the pending bytes |
| Driver.Device.PushEntry | aesd-char-driver/main.c:210-213 | The line joins the history, the ring holds the newest N of it, and the displaced block is freed |
| Driver.Device.CommitLine | aesd-char-driver/main.c:196-218 | A finished line moves whole to the ring and nothing is pending, or the device is unchanged when the entry allocation fails |
| Driver.Device.WriteByte | aesd-char-driver/main.c:188-229 | Which call fails decides how the round ends, said outright: a byte stored, a line completed, -EFAULT with a zero byte pending, or -ENOMEM with the whole line pending or completed. line_len plus the bytes still to come fit the line buffer before and after, also across the reallocation after a newline |
| Driver.Device.WriteBytes | aesd-char-driver/main.c:187-233 | The loop absorbs the whole call and returns its length, or ends where the first failing call stops it, with that call's error and that round's remains pending |
| Driver.Device.Write | aesd-char-driver/main.c:144-234 | aesd_write under every combination of failures: the count of all bytes is returned if and only if none of the calls made fails, otherwise the error of the one that did, -ERESTART exactly for the lock; lines, pending bytes and whether the buffer is held follow; the invariant always holds; the old buffer is lost exactly when krealloc fails over it |
| Driver.Device.FindPiece | aesd-char-driver/main.c:73-93 | The lookup and slice yield the bytes of the line that holds the position, never past that line, and nothing exactly at or past the end |
| FlatFile.ReadBlames | aesd-char-driver/main.c:50-99 | A read ends well if and only if none of its calls fails, and makes none after one that does |
| Driver.Device.Read | aesd-char-driver/main.c:50-99 | aesd_read from any position, past the end too: with no failing call it returns the next piece of the line there, nothing from the end on, and advances by its length; -ERESTART exactly for the lock, -EFAULT exactly for the copy, with the position unchanged; a zero count returns 0 |
| Driver.Device.SeekTarget | aesd-char-driver/main.c:112-134 | From a non-negative position the 64-bit test accepts exactly the targets in 0..size, and computes the mathematical target |
| Driver.Device.Llseek | aesd-char-driver/main.c:101-142 | aesd_llseek for each whence outright: the new position for targets inside the file, -EINVAL otherwise, the position then unchanged; positions stay non-negative |
| Driver.Device.LineFpos | aesd-char-driver/main.c:262-267 | The ioctl lookup in terms of the stored lines |
| Driver.Device.Ioctl | aesd-char-driver/main.c:236-279 | Moves to the addressed byte and returns 0 exactly when that byte is stored and no call fails; -EINVAL for a byte not stored and for foreign magic, -ENOTTY for an unknown command, -EFAULT and -ERESTART for the first and the second call failing; every refusal leaves the position alone |
| Driver.Device.SweepEntries | aesd-char-driver/main.c:346-350 | After the sweep only the line buffer and lost blocks are live |
| Driver.Device.Cleanup | aesd-char-driver/main.c:334-354 | After unload exactly the lost blocks are live |
| DriverRuns.WriteCalls | aesd-char-driver/main.c:144-234 | Any sequence of successful writes does to the device what the whole stream would, and the counts returned add up to its length |
| DriverRuns.ReadBack | aesd-char-driver/main.c:50-99 | Reading with any positive counts until 0 is a sequence of consecutive reads of which only the last is empty; together they are the file from the position on |
| DriverRuns.WriteThenRead | aesd-char-driver/main.c:50-234 | Any split into writes, any read counts: all bytes are reported written and the file read is the newest N complete lines of the stream |
| DriverRuns.PerformWrite | aesd-char-driver/main.c:144-234 | A write under any failures takes the device where the pure machine goes, and loses a block exactly when the machine takes the failing-krealloc branch over a held buffer |
| DriverRuns.PerformOther | aesd-char-driver/main.c:50-279 | A read, seek or ioctl under any failures takes position and script where the pure machine goes |
| DriverRuns.RunToUnload | aesd-char-driver/main.c:50-354 | Over any run with any failures, as many blocks are live after unload as the machine counts writes whose krealloc fails over a held buffer, a number computed from the capacity, the failing calls and the operations; when it is 0 the stored lines are the machine's |
| DriverMachine.NoFailuresNoLoss | aesd-char-driver/main.c:144-234 | With no failing call that number is 0 |
| DriverMachine.FailedWideningLoses | aesd-char-driver/main.c:168-175 | A run whose number is 1: a byte is written, then a write whose krealloc fails |
| Vectors.DivergesExactly | server/vector.c:29-42 | The growth loop is endless if and only if the capacity is 0, something is to be stored and no allocation to come returns NULL |
| Vectors.GrowBlames | server/vector.c:29-42 | Growth that ends well made no failing allocation, and growth that does not stops at the first |
| Vectors.Vector.Init | server/vector.c:11-22 | An empty vector of the base capacity, or no buffer exactly when the allocation fails |
| Vectors.Vector.Double | server/vector.c:31-42 | Twice the capacity, the same contents, the copied bytes accounted for |
| Vectors.Vector.Append | server/vector.c:29-48 | Under every combination of failures: outcome, contents, capacity and remaining script are those of the growth loop, with the data joined at the end on success and the contents unchanged otherwise |
| Vectors.Vector.CarryOver | server/vector.c:53-56 | The in-place compaction leaves exactly the unused suffix |
| Vectors.Vector.Find | server/vector.c:63-71 | The first occurrence from the offset on, or none |
| Vectors.Vector.LineAt | server/aesdsocket.c:212-230 | The temporary NUL leaves the contents as they were and is inside the allocation unless the newline is the last byte of a full vector |
| Vectors.NoFailuresQueue | server/vector.c:29-56 | With no failing allocation a sequence of appends and carry-overs does to the contents what it does to a byte queue |
| Vectors.UseAll | server/vector.c:29-56 | A sequence of appends and carry-overs, whichever allocations fail, leaves contents and capacity as the pure model says |
| Vectors.AnyUse | server/vector.c:11-56 | Over any such sequence all reallocation copies together stay below the capacity less the base size, and the capacity is a doubling of the base size less than twice the greatest length asked for, or the base size |
| Framing.BatchesAreLines | server/aesdsocket.c:169-252 | However the stream is chunked, the rounds together handle exactly its lines, in order |
| Framing.BatchesHistory | server/aesdsocket.c:205-242 | The device ends up with the data lines of all rounds, in order |
| Framing.ChunkingKeepsHistory | server/aesdsocket.c:169-252 | Two chunkings of one stream leave the device with the same lines |
| Framing.SeekEcho | server/aesdsocket.c:277-315 | The file from byte o of line e on, cut at newlines, is the rest of that line and then the later lines whole |
| Framing.SeekRound | server/aesdsocket.c:216-318 | A round that is one successful seek sends the rest of the addressed line and every later line |
| Framing.LastSeekDecides | server/aesdsocket.c:205-315 | In a round of any commands the last seek decides where the read-back of the final file starts: where its byte lay when it came, or, refused, where the position was |
| Framing.RefusedSeekRound | server/aesdsocket.c:219-318 | A refused seek after any round sends nothing and moves nothing, since that round left the position at or past the end and a seek round does not reopen |
| Framing.PlainRound | server/aesdsocket.c:262-315 | A round without a seek sends every stored line, whole and in order |
| Framing.SendsAtLeast | server/aesdsocket.c:168-318 | Rounds of data lines send at least one line more, for each round after the first, than the newest N lines of the final history |
| Framing.OneRoundFits | server/aesdsocket.c:168-318 | Any stream with at most one chunk that holds a newline, seek lines included, sends and leaves what it would in one chunk |
| Framing.EchoOfOneRound | server/aesdsocket.c:168-318 | For a stream of data lines the sends are those of the stream in one chunk if and only if at most one chunk holds a newline |
| Framing.EchoDependsOnChunking | server/aesdsocket.c:168-318 | A witness: two lines in two chunks are echoed as three sends, in one chunk as two |
| ServerModel.ReceiveIsBatch | server/aesdsocket.c:169-203 | Whatever allocations fail, a receive loop that ends with a newline holds exactly the next round's lines and carry-over; one that ends with the stream had no round left |
| ServerModel.HandledStores | server/aesdsocket.c:205-242 | Whatever device calls fail, the drain loop completes first data lines of those drained, and all of them when it runs through |
| ServerModel.HandledPerforms | server/aesdsocket.c:205-242 | With no failing device call the drain loop performs the commands of the lines, one for one |
| ServerModel.EchoSends | server/aesdsocket.c:277-318 | Whatever fails, the read-back loop sends first lines of the rest of the file cut at newlines; when it reads to the end without an exit it has sent them all and holds back exactly what follows the last newline |
| ServerModel.TurnIsRound | server/aesdsocket.c:169-318 | Over a device without failures a turn of the outer loop that goes on is exactly one round of the specification; one that exits has sent the front of it and performed all the round's commands or none |
| ServerModel.RunMeans | server/aesdsocket.c:168-324 | Over such a device, whatever allocations and sends fail, a connection sends the front of what its rounds prescribe and leaves the front of their lines; ended by the client it is complete, ended by the signal it is complete up to the rounds polled; with nothing failing there is no other end |
| ServerModel.StoredUnderFailures | server/aesdsocket.c:168-324 | Under any failures, of device calls and reopens too, the device gains first data lines of the stream, whole and in order, and all of them when the client ends the connection |
| ServerModel.SentUnderFailures | server/aesdsocket.c:168-324 | Under any failures each message sent is the end of a line the device held before or of a data line of the stream |
| ServerModel.HandledBlames | server/aesdsocket.c:210-241 | A drained data line goes on if and only if there is a descriptor and none of the calls of its write fails; a seek line always goes on |
| ServerModel.EchoBlames | server/aesdsocket.c:277-315 | The read-back exits at the first allocation or send that fails and only there, and stops short of the end only at a failing read |
| ServerModel.TurnBlames | server/aesdsocket.c:169-318 | A turn exits for want of memory at the first failing allocation it looks at and only there, that of the compaction not being looked at; likewise for a send; and for the device exactly when the drain loop stops |
| ServerModel.RunBlames | server/aesdsocket.c:168-324 | A connection ends with a failed send if and only if a send fails, and that one is its last |
| ServerModel.StuckExactly | server/aesdsocket.c:174-192 | The receive loop gets stuck if and only if the vector has capacity 0, a chunk comes and no allocation to come fails |
| ServerModel.HungExactly | server/aesdsocket.c:168-252 | Between rounds: a connection hangs if and only if in some round the unchecked second initialisation fails, a later chunk arrives and no allocation after that fails, or this is so at the start |
| ServerModel.ServeHangs | server/aesdsocket.c:162-252 | The same for a connection from its first allocation on |
| ServerModel.HungRun | server/aesdsocket.c:244-252 | A run that hangs: a newline, then another byte, with the second allocation failing |
| ServerModel.NulByteInside | server/aesdsocket.c:212-213 | The temporary NUL stays inside a buffer for every line of a round if and only if its bytes do not both fill it and end in a newline |
| ServerModel.FullVectorRun | server/aesdsocket.c:212-213 | A family of chunks for which they do |
| Connections.NewestSuffices | server/aesdsocket.c:174 | Searching only the newest bytes finds a newline if and only if the whole buffer has one |
| Connections.Connection.ReceiveOnce | server/aesdsocket.c:174-198 | One receive keeps what the loop comes to, loses no byte, and by searching the newest bytes knows whether the buffer has a newline |
| Connections.Connection.ReceiveBatch | server/aesdsocket.c:169-203 | The loop does what the pure receive loop does under every combination of failures, and leaves with no byte received exactly when the peer closed |
| Connections.Connection.HandleLine | server/aesdsocket.c:210-241 | A seek line goes to the ioctl and never to the file; any other line is written whole or ends the loop; device and script are the pure step's under any failure |
| Connections.DrainNext | server/aesdsocket.c:207-241 | Handling one line keeps: drained lines followed by the unread bytes are what was received, and the trace is their commands |
| Connections.DrainFront | server/aesdsocket.c:207-241 | The lines handled so far are the first lines of the buffer |
| Connections.DrainEnd | server/aesdsocket.c:207-242 | When no newline is left the round has handled all lines of the buffer and leaves its tail |
| Connections.Connection.DrainOne | server/aesdsocket.c:207-241 | One round of the drain loop takes the device where the pure step goes and reports whether its temporary NUL was inside the buffer |
| Connections.Connection.DrainLines | server/aesdsocket.c:205-242 | Takes the buffered lines to the device, in order, as the pure loop does under any failure; leaves the undrained tail; every temporary NUL was inside the buffer if and only if its bytes do not both fill it and end in a newline |
| Connections.Connection.Compact | server/aesdsocket.c:244-252 | The buffer then holds exactly the undrained bytes; when there are none and the second initialisation fails it has no storage |
| Connections.Connection.SendLine | server/aesdsocket.c:295-311 | A failed send exits with nothing sent, a failed initialisation exits after the line is sent, otherwise the vector is empty again |
| Connections.Connection.EchoOne | server/aesdsocket.c:279-313 | Under any failure a round takes the loop where the pure read-back step goes; the end of the file or a failed read ends it without an exit |
| Connections.Connection.ReadBackLoop | server/aesdsocket.c:278-315 | The loop does what the pure read-back does under any failure, and the position moves by the bytes read |
| Connections.Connection.Reopen | server/aesdsocket.c:262-265 | Close and open: position 0, and a descriptor exactly when the open does not fail |
| Connections.Connection.EchoFile | server/aesdsocket.c:277-315 | Without a descriptor nothing is read or sent; with one the read-back is the pure one |
| Connections.Connection.EchoRound | server/aesdsocket.c:254-318 | Reopens unless a seek came, and echoes from there, with every exit of the read-back |
| Connections.Connection.AnswerRound | server/aesdsocket.c:244-318 | Compaction, reopen and read-back do what the pure answer does under any failure |
| Connections.Connection.WorkRound | server/aesdsocket.c:205-318 | Drain and answer of a round under any failure, including the exit after a failed write |
| Connections.Connection.HandleRound | server/aesdsocket.c:169-318 | One turn of the outer loop does one turn of the pure machine under any failure; on every exit the commands are those of the first lines received |
| Connections.Connection.HandleRounds | server/aesdsocket.c:168-319 | The outer loop does what the pure machine does under any failure, signal included |
| Connections.Connection.HandleStream | server/aesdsocket.c:162-319 | So does the connection from its first allocation on |
| Connections.Connection.Handle | server/aesdsocket.c:142-324 | Every exit closes both vectors and sets complete; the commands issued are those of the stream's first lines, and of all its lines when the client ends it; a failed first allocation ends it with nothing received or sent; exit, device, position and sends are the pure machine's whatever allocations, sends, reopens and device calls fail |
| EndToEnd.ServeClient | server/aesdsocket.c:142-324 | One client over any device that holds the line under way, from its chunks to exit, sends and what the device holds, under any failures |
| EndToEnd.ServeAndInspect | server/aesdsocket.c:142-324 | Over a fresh device without failures, whatever allocations and sends fail, a later open reads the newest of the client's first data lines and the client was sent the front of its echo; both are complete when the client's close ends the connection, which with nothing failing it does |
| EndToEnd.ServeUnderFailures | server/aesdsocket.c:142-324 | Under any failures at all a fresh device is left with first data lines of the client, all of them when its close ends the connection, and each message sent is the end of a data line |
| Interleaving.DrainClient | server/aesdsocket.c:205-242 | Draining a line keeps a client's account: its writes are its drained data lines |
| Interleaving.RunKeepsOk | server/aesdsocket.c:168-265 | Over every schedule, closes and reopens included, the device has seen only whole lines, one per write that reached it, and every client's account holds |
| Interleaving.AnyInterleaving | server/aesdsocket.c:168-265 | Over every such schedule each client's writes are, in order, a prefix of its data lines, and all of them once its buffer has no newline; the device holds the writes that reached it and nothing half written |
| Interleaving.AllReachExactly | server/aesdsocket.c:233-264 | All writes of a client reach the device if and only if the schedule has no step that writes one of its data lines while the shared descriptor names a socket; otherwise fewer do |
| Interleaving.SafeLinesOnDevice | server/aesdsocket.c:168-265 | Under such a schedule the client's lines on the device are, in order, a prefix of its data lines, and all of them once its buffer has no newline |
| Interleaving.LiveExactly | server/aesdsocket.c:168-265 | A connected client's thread runs if and only if it has not been stopped and has not written a data line while the shared descriptor named nothing |
| Interleaving.PairedDelivers | server/aesdsocket.c:168-265 | If each thread reopens the device right after closing it and nobody stops, every client stays live, and once it has drained its buffer its lines on the device are all data lines of its stream |
| Interleaving.StepsTake | server/aesdsocket.c:168-198 | Whoever connects is there, and a live client without a newline in its buffer receives the chunk |
| Interleaving.StrayRun | server/aesdsocket.c:233-264 | A schedule that is not safe: two successful writes of one client, of which only the second is on the device |
| Interleaving.StoredLineHasOneWriter | server/aesdsocket.c:233-240 | Every stored line is one whole data line of one client |
| Reaping.Registry.InsertHead | server/queue.h:267-270 | The new node is first and the chain is intact |
| Reaping.Registry.Remove | server/queue.h:274-297 | Exactly the given node leaves the chain, the others keep their order, and only listed nodes are touched |
| Reaping.Registry.Accept | server/aesdsocket.c:527-541 | The new record joins the list and the count stays the list's length; when its allocation fails main does not get past the store through it |
| Reaping.Registry.Finish | server/aesdsocket.c:110-115 | Threads of listed clients may set complete, and nothing else |
| Reaping.Registry.Join | server/aesdsocket.c:546 | Only a thread that has set complete is joined, and none twice |
| Reaping.Registry.Free | server/aesdsocket.c:550 | No record is freed twice, and nothing is known of one afterwards |
| Reaping.Registry.Release | server/aesdsocket.c:545-552 | A complete node is joined, unlinked, freed and counted off, each once |
| Reaping.Registry.Visit | server/aesdsocket.c:544-553 | One visit moves on to the node that followed, even when the visited one is freed, without reading the freed one |
| Reaping.Registry.Reap | server/aesdsocket.c:544-553 | A pass visits each node once, in order, keeps exactly those that are not complete at their visit, closes exactly the others, in that order, and reads no freed node |
| Reaping.KeptExactly | server/aesdsocket.c:544-553 | A node survives if and only if it was not complete before the pass and had not finished by its visit |
| Reaping.KeptInOrder | server/aesdsocket.c:544-553 | Survivors keep the list's order |
| Reaping.GoneExactly | server/aesdsocket.c:544-553 | The nodes closed are exactly the listed ones that do not survive |
| Reaping.GoneInOrder | server/aesdsocket.c:544-553 | They are closed in list order |
| Reaping.QuietReapIsFilter | server/aesdsocket.c:544-553 | If no thread finishes during it, a pass is a filter on the complete flag |
| AcceptLoop.OnePass | server/aesdsocket.c:544-553 | A pass over the registry leaves and closes exactly the ids the pure machine says |
| AcceptLoop.AcceptAndReap | server/aesdsocket.c:503-558 | One turn: the new record heads the list, then one pass; the ids left and closed are the machine's |
| AcceptLoop.AllAccounted | server/aesdsocket.c:503-558 | After k turns exactly the clients accepted are on the list or closed |
| AcceptLoop.FinishedAreClosed | server/aesdsocket.c:503-558 | A client that has finished before the newest pass is closed and off the list |
| AcceptLoop.EndingEmpties | server/aesdsocket.c:566-577 | If all clients on the list finish, the exit loop ends with an empty list and all of them closed |
| AcceptLoop.ReapAll | server/aesdsocket.c:566-577 | The exit loop ends with no connection left and closes the ids the machine says, in order |
| AcceptLoop.InOrderRun | server/aesdsocket.c:544-553 | Two clients that finish in their own passes are closed in the order they came |
| AcceptLoop.LateRun | server/aesdsocket.c:544-553 | One that finishes after its visit stays for the next pass |
| AcceptLoop.TogetherRun | server/aesdsocket.c:544-553 | Two that finish together are closed newest first |
| AcceptLoop.Serve | server/aesdsocket.c:503-577 | The ids closed, in order, are the machine's; every client that finished before the newest pass has been joined and freed, also when an allocation then fails; each is joined and freed at most once, and if every thread finishes in the end and every record is allocated, each exactly once |

## Left out

- Driver.Device.WidenLine: after a failed krealloc the next write starts from a buffer whose first line_len bytes are unspecified; their number is exact from then on, their values are not promised.
- Address reuse: allocation identities are never reused, so "freed once" speaks of allocations, not addresses.
- NULL buffer and position pointers passed to read and write (`aesd-char-driver/main.c:58-61`, `aesd-char-driver/main.c:151-154`): the arguments here are values.
- Width of sizes: `size_t` sums and `int` lengths are unbounded here, except in `aesd_llseek`, whose 64-bit arithmetic is modelled with the file size below 2^63.
- Driver.Device.Read: takes a non-negative position, which every operation keeps; a negative one would be converted to a huge offset.
- Module and device registration, `_IOC` encoding (the three outcomes of the command test are a datatype), printk, open and release.
- Sockets, fork, daemon mode, syslog and address formatting; a `send` or a socket's `write` to the device that succeeds is taken to be complete, and the EAGAIN retries are not modelled.
- The sscanf pattern: `parse` may be any function of the line.
- Vectors.Vector.LineAt: when the temporary NUL would fall outside the allocation (`server/aesdsocket.c:212-213`: the newline is the last byte of a full vector, `at + 1 == len == cap`) the store is left out and only reported, so what it would overwrite is not modelled.
- Connections.Connection.Handle: on a device that has lost the buffer of a line under way, only the commands issued, the bytes received and the clean-up are promised, since the bytes of that line are unspecified.
- Connections.Connection.Handle: the echo is stated for one client at a time; the shared descriptor is closed, reopened and moved by ioctl without the file mutex (`server/aesdsocket.c:219`, `server/aesdsocket.c:262-265`), so no isolation of echoes between clients is claimed.
- Framing.EchoOfOneRound: the only-if half is stated for streams of data lines; with seek lines a second round may send nothing, as `RefusedSeekRound` shows, so that the sends can agree over several rounds.
- Interleaving.AnyInterleaving: device failures that leave part of a line pending are not steps of the transition system, so lines merged after one are not covered; a write that fails there is one on a closed descriptor, and its client stops.
- Interleaving.AnyInterleaving: the close and open of the shared descriptor by the accept loop, when no client is left or a first one comes, are not steps; the descriptor names the device unless a client thread is between its close and its reopen.
- Vectors.Vector.Append: the loop that never ends is the outcome `Diverges`, found by looking ahead in the script.
- memcpy with overlapping ranges in `vector_carryover`: modelled as the ascending copy it intends.
- Reaping.Registry.Accept: the store through a NULL record (`server/aesdsocket.c:528-529`) is modelled as the end of main, not as what the store does.
- AcceptLoop.Serve: the end of the exit loop is proved for schedules in which every client thread finishes; a thread that never finishes keeps that loop busy for ever.
- The unguarded exit paths of main before the accept loop, the timestamp writer used without the char device, and the other list and queue macros of queue.h.
