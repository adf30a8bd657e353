# libhv: a verified model of its runtime core

The server of this repository runs on libhv, a C/C++ event library. These files model the parts of libhv whose
correctness is not visible from one function alone, and prove what each part is for. `dafny verify dfyconfig.toml`
checks everything.

| files | what they model |
|---|---|
| `RbTheory` `RbTree` `RbInsert` `RbErase` `RbWalk` `Rudp` | the intrusive red-black tree with its pointers, and the peer table of the reliable UDP code built on it |
| `HeapOrder` `Heap` `TimerHeap` | the pointer heap addressed by the bits of its size, and the two timer heaps |
| `LoopTheory` `Loop` | the event loop: timers, idles, pending lists by priority, delayed deletion, callbacks that change the loop |
| `Posting` | events and functors posted from other threads through the event fd, in every interleaving |
| `MultipartSpec` `MultipartParser` `MultipartChunks` `MultipartBoundary` `MultipartForm` `MultipartRoundTrip` | the multipart parser and the forms written and read with it |
| `Varint` `Framing` `Stall` `Unpack` | cutting packages out of a TCP stream in the read buffer |
| `Queue` `WritePath` | the write queue, partial writes and the deferred close |
| `VLBuf` `RingBuf` | the byte buffers with two ends and with wrap-around |
| `Url` `Query` `QueryFields` `Calendar` | percent-encoding, query strings, calendar arithmetic |

How to read them. Code that changes memory is a class or a method here, with the fields of the original. The tree and
the heap are real linked nodes; a ghost field `mem` holds the value of all links, `Mirrored` says that the two agree,
and predicates over `mem` (`At`, `Wired`) say that the links form the tree that the contract speaks of. A place in
the tree is a zipper: the subtree and the path above it. The loop carries its whole state as a ghost value `s`, which
every method ties to the functions of `LoopTheory`. What the kernel, a clock or a callback does is a parameter, and
every theorem holds for all of its values; a callback is a script of operations on the loop.

## Findings

Properties the code does not have, each with the condition under which it does.

- **rudp_get loses the order of its table.** The search compares all bytes of the address union, but a new entry keeps
  only those of its family. After the call the address is found, in a valid table, if and only if it was there before or
  its bytes beyond that length are zero (`Rudp.Table.Get`); a second call for the same address then always puts a
  second entry with an equal key in the tree (`Rudp.GetTwice`, at real widths `Rudp.GetTwiceBreaks`).
- **htimer_reset on a linked timer.** It clears `pending` but leaves the timer in its list. The timer loses the call it
  was due exactly when it was linked and callable (`LoopTheory.ResetLosesCallback`). If it is deleted then, the list
  holds freed memory exactly when it was linked (`LoopTheory.ResetThenDelete`); a program reaches that
  from a fresh loop with one timer (`Loop.ResetAndDelete`). Resetting a timer in its own callback without deleting it
  is harmless (`LoopTheory.ResetInOwnCallback`).
- **A failed write to the event fd strands functors.** The wakeup is lost and the functor stays behind; all functors run
  if and only if no write failed (`Posting.AllRun`).
- **Posts of different kinds may overtake each other.** What was sent runs in the order in which it was sent if and only if
  the functors that were sent are the first ones queued, in the same order: no poster overtook another between the two
  queues, and none failed to write meanwhile. Then each thread's posts of both kinds run in its own order (`Posting.SentOrderIff`); otherwise they may not
  (`Posting.CrossingOrder`).
- **Header lines without a colon depend on the cuts.** Parsing in several calls agrees with one call for all cuts exactly
  when every header line that is not blank has its colon (`MultipartChunks.CutsDoNotMatterIff`).
- **Some boundaries are overlooked.** The lookbehind has no failure function; every delimiter is noticed exactly when
  CR LF boundary, wherever it overlaps itself, goes on with the same byte from both places
  (`MultipartBoundary.NoticesIff`). A boundary without CR is always safe
  (`MultipartBoundary.NoCrIsSafe`).
- **A package of no bytes never ends.** The loop of the unpacker delivers it and stands where it stood, any number of
  times (`Unpack.Io.Spin`). No stream does this to a setting if and only if its length field cannot hold the one value
  that adds up to nothing, -(body_offset + length_adjustment) modulo 2^32; with a varint some stream always does
  (`Stalls.NeverEndlessIff`). The theorems on length fields ask that the stream does not.
- **A header may fill the whole buffer.** A buffer of some length can be full of an unfinished header exactly when the
  length field is a varint, the header fits, and ten bytes of varint may not (`Unpack.StuffedIff`). If twice that length is
  over the limit, the io closes whatever length the varint would have given (`Unpack.Io.Receive`, `Unpack.HeaderFills`).
- **A refused write may have been sent in part.** A write that is over the limit is refused only after the kernel was
  offered it. Some answer of the kernel tears it exactly when nothing waits and it is two bytes or more above the room
  (`WritePath.TearsIff`); the next write then follows the torn bytes (`WritePath.TornWrite`).
- **An empty write on an empty queue closes the connection**, because the kernel's zero reads as a disconnect. As long as
  the kernel reports no error and takes something of what it is offered, no other write is taken for a disconnect
  (`WritePath.EmptyFailsIff`, `WritePath.EmptyWrite`).
- **A second close timer.** A close that waits for nio_write waits again exactly when another thread wrote between the end of
  nio_write and its hio_close and nothing has failed; this, and nothing else, leaves a close timer behind that the io no
  longer knows (`WritePath.Io.CloseWaiting`, `WritePath.Io.Step`). There are as many such timers as such waits, less those
  that fired (`WritePath.Io.Settled`), and one can outlive the io (`WritePath.StrayTimer`).
- **A ring buffer with nothing in it may refuse a block that fits**, because its ends stay where they met
  (`RingBufs.EmptyYetFull`); `RingBufs.RingBuf.Alloc` says exactly when it refuses.
- **Query fields with several '=', or without a key.** In any query string the value of a field with a key is its text
  behind the last '=' and as many bytes more as stand between its first and last '=' (other '=' not counted) and in values
  without a key since the last field with one (a field without '=' takes only those, from where the last value began); the
  string is read past its end exactly when a field takes more than there
  is, the final NUL included (`QueryFields.ReadsFields`). If no value lacks its key, this is so exactly when in some field
  with a key more bytes stand between the first and the last '=' than follow the field (`QueryFields.OverrunIff`); with at
  most one '=' in every field each value is its own text (`QueryFields.ParsePlain`). In "=v&k=w" it takes more than one byte
  of v (`Query.KeylessCarries`).
- **Characters kept by escape.** Decoding gives every string back exactly when neither '%' nor '+' is kept
  (`Url.KeepIff`); escapeURL keeps '+'.

## Model

| member | source | states |
|---|---|---|
| RbTree.RotateLeftHere | Server/contrib/libhv/base/rbtree.c:25-43 | at any place of a well-linked tree, the rotation re-hangs exactly the three subtrees and keeps everything above and all colours |
| RbTree.RotateRightHere | Server/contrib/libhv/base/rbtree.c:45-63 | the mirror image |
| RbInsert.LinkNode | Server/contrib/libhv/base/rbtree.h:138-145 | a node hung at an empty place becomes a red leaf there, with all other links as they were |
| RbInsert.InsertColor | Server/contrib/libhv/base/rbtree.c:65-128 | from a tree whose only fault may be one red node under a red parent, the loop ends in a tree that keeps every red-black rule and has the same in-order sequence, in the same memory |
| RbErase.EraseColor | Server/contrib/libhv/base/rbtree.c:130-220 | from a tree in which one place is one black short, the loop ends in a red-black tree with the same in-order sequence, both mirrors included |
| RbErase.ReplaceAt | Server/contrib/libhv/base/rbtree.c:230-262 | copying the links of a node with two children to its successor and repairing the three neighbours puts the successor in its place |
| RbErase.EraseInner | Server/contrib/libhv/base/rbtree.c:230-268 | erasing a node with two children splices out its successor, puts it in the node's place, and leaves a red-black tree with exactly the other nodes in their order |
| RbErase.Erase | Server/contrib/libhv/base/rbtree.c:222-294 | erasing any node of a red-black tree leaves a red-black tree, well linked up and down, with exactly the other nodes in their order |
| RbWalk.First | Server/contrib/libhv/base/rbtree.c:299-309 | the first node in order, or null for an empty tree |
| RbWalk.Last | Server/contrib/libhv/base/rbtree.c:311-321 | the last node in order, or null for an empty tree |
| RbWalk.Next | Server/contrib/libhv/base/rbtree.c:323-344 | the node that follows in order, or null after the last one |
| RbWalk.Prev | Server/contrib/libhv/base/rbtree.c:346-363 | the node that precedes in order, or null before the first one |
| RbWalk.InOrder | Server/contrib/libhv/base/rbtree.c:299-344 | rb_first and rb_next until null visit every node once, in order |
| Rudp.Table.constructor | Server/contrib/libhv/event/rudp.c:14-18 | the table is the empty map |
| Rudp.Table.Descend | Server/contrib/libhv/event/rudp.c:38-50 | the search ends at the entry with the key, or at the empty place between all smaller and all greater keys |
| Rudp.Table.Search | Server/contrib/libhv/event/rudp.c:59-77 | the lookup of a finite map over the address bytes |
| Rudp.Table.Insert | Server/contrib/libhv/event/rudp.c:32-57 | adds the entry to the map unless its key is taken, in which case nothing changes; the tree stays red-black and sorted |
| Rudp.Table.Remove | Server/contrib/libhv/event/rudp.c:79-89 | takes the key out of the map and returns its entry, or null and no change |
| Rudp.Table.Get | Server/contrib/libhv/event/rudp.c:91-125 | a present address is returned; a new one keeps the table sorted exactly when no key straddles it, and is then found under its address exactly when its bytes beyond the stored length are zero |
| Rudp.StoredStraddles | Server/contrib/libhv/event/rudp.c:102-117 | an entry stored under less than its address stands in the way of that address |
| Rudp.GetTwice | Server/contrib/libhv/event/rudp.c:91-125 | two calls for one such address make two entries with the same key and an unsorted table |
| Rudp.GetTwiceBreaks | Server/contrib/libhv/event/rudp.c:91-125 | the same from an empty table, with 28-byte addresses of which 16 are stored |
| Rudp.Table.Cleanup | Server/contrib/libhv/event/rudp.c:20-30 | erasing the root until none is left frees every entry exactly once |
| Heap.Heap.LastParent | Server/contrib/libhv/base/heap.h:77-97 | the bits of the count lead from the root to the parent of the last slot, for every count |
| Heap.Heap.Swap | Server/contrib/libhv/base/heap.h:45-74 | exchanging a node with its parent, siblings and children repaired, exchanges the two in level order and nothing else |
| Heap.Heap.Insert | Server/contrib/libhv/base/heap.h:76-107 | adds the node: the tree stays complete, its links consistent, its order a heap for any strict weak comparison, its node set the old one plus the node |
| Heap.Heap.Remove | Server/contrib/libhv/base/heap.h:109-166 | takes any member out with the same promises; the node comes out unlinked; an empty heap is left alone |
| Heap.Heap.Dequeue | Server/contrib/libhv/base/heap.h:168-170 | takes the root out |
| HeapOrder.RootIsMin | Server/contrib/libhv/base/heap.h:76-107 | in a heap no entry is smaller than the root, ties included |
| HeapOrder.SiftUpStep | Server/contrib/libhv/base/heap.h:101-106 | exchanging a node that is smaller than its parent moves the one fault of the order up |
| HeapOrder.SiftDownStep | Server/contrib/libhv/base/heap.h:151-161 | exchanging a node with its smaller child moves the one fault of the order down |
| TimerHeap.Timers.Add | Server/contrib/libhv/event/hloop.c:608-626 | the heap is a map from timers to deadlines, and this adds one |
| TimerHeap.Timers.Del | Server/contrib/libhv/event/hloop.c:677-686 | and this takes one out |
| TimerHeap.Timers.First | Server/contrib/libhv/event/hloop.c:60-64 | the root has a least deadline, and there is none exactly when the map is empty |
| Loop.HLoop.constructor | Server/contrib/libhv/event/hloop.c:311-351 | a fresh loop satisfies the invariant of the loop |
| Loop.HLoop.ProcessHeap | Server/contrib/libhv/event/hloop.c:55-91 | every timer due on entry comes due once and no other does; what is left in the heap is later than now; each timer moves to its first deadline after now a whole number of periods on, or leaves with its last repeat; the loop ends |
| LoopTheory.RoundMoves | Server/contrib/libhv/event/hloop.c:66-89 | where each timer of the heap is after such a round, for every set of timers and every clock |
| LoopTheory.LaterIsLeast | Server/contrib/libhv/event/hloop.c:74-79 | the deadline found by adding periods is the least congruent one after now |
| Loop.HLoop.ProcessTimers | Server/contrib/libhv/event/hloop.c:93-98 | both heaps in turn, each by its own clock |
| Loop.HLoop.ProcessIdles | Server/contrib/libhv/event/hloop.c:34-53 | every idle comes due once, in list order, and the last repeat unlinks it |
| Loop.HLoop.ProcessPendings | Server/contrib/libhv/event/hloop.c:109-137 | walks the lists from the highest priority; the callbacks that run are exactly the foreseen ones, whatever they do to the loop; nothing stays pending and the invariant holds again |
| LoopTheory.RoundKeeps | Server/contrib/libhv/event/hloop.c:109-137 | for every valid loop and every behaviour of its callbacks the walk over its lists leaves a valid loop with nothing pending, and the log grows by the foreseen calls |
| LoopTheory.DueOnce | Server/contrib/libhv/event/hloop.c:117-130 | in one round an event is called at most once, and only if it was linked and callable |
| LoopTheory.DueUnlessDeleted | Server/contrib/libhv/event/hloop.c:117-130 | a linked event is called if and only if it is callable and no callback that ran before its turn deleted it |
| LoopTheory.CallsDescend | Server/contrib/libhv/event/hloop.c:115-116 | when each list holds events of its own priority, the calls of a round descend in priority |
| LoopTheory.GatheredLeveled | Server/contrib/libhv/event/hevent.h:257-266 | which is so after timers and idles came due in a loop where nothing was pending |
| LoopTheory.GatheredPending | Server/contrib/libhv/event/hloop.c:168-190 | then exactly the due timers are pending, or every idle if no timer was due, for every turn from a loop where nothing was pending |
| LoopTheory.LastDueFirst | Server/contrib/libhv/event/hevent.h:257-266 | within one priority the event that came due last runs first |
| Loop.HLoop.ProcessEvents | Server/contrib/libhv/event/hloop.c:140-190 | one turn: exactly the due events and no other come due, callbacks run in descending priority, the state afterwards is the walk over what was gathered, and nothing is pending |
| LoopTheory.DeleteKeeps | Server/contrib/libhv/event/hloop.c:602-606 | deleting an idle or a timer keeps the invariant: freed only when no list links it, never twice, counters and heaps exact |
| LoopTheory.ApplyAllKeeps | Server/contrib/libhv/event/hloop.c:583-692 | so does any sequence of adding, deleting, resetting a timer that is not pending, and changing priorities, in a callback or outside |
| LoopTheory.VisitKeeps | Server/contrib/libhv/event/hloop.c:118-129 | and one visit of the walk with its callback, after which just that event is no longer pending |
| LoopTheory.DeletedNeverRuns | Server/contrib/libhv/event/hloop.c:117-130 | a walk never calls an event that was deleted before |
| LoopTheory.RunsAtMost | Server/contrib/libhv/event/hloop.c:66-80 | an event was called no more often than its finite quota: its repeat, which a reset grants anew on top of the times it was due |
| Loop.HLoop.Run | Server/contrib/libhv/event/hloop.c:432-478 | any number of turns with any callbacks keeps the invariant, never calls an event deleted before, and never calls an event more often than its finite quota |
| LoopTheory.ResetKeeps | Server/contrib/libhv/event/hloop.c:628-652 | resetting a timer that is not pending keeps the invariant and renews its repeat |
| LoopTheory.ResetLosesCallback | Server/contrib/libhv/event/hloop.c:628-652 | a reset timer is passed over in the walk; it would have been called exactly when it was linked and callable |
| LoopTheory.ResetThenDelete | Server/contrib/libhv/event/hloop.c:628-692 | deleting alone never frees a linked event; after a reset it does exactly when the timer was linked |
| LoopTheory.ResetInOwnCallback | Server/contrib/libhv/event/hloop.c:117-129 | a timer reset in its own callback is sound again after the visit |
| Loop.ResetAndDelete | Server/contrib/libhv/event/hloop.c:628-692 | a run from a fresh loop in which a list ends up holding a freed timer |
| Posting.StepKeeps | Server/contrib/libhv/event/hloop.c:202-231 | every step of any thread keeps the invariant that ties the event fd's counter, the two queues and the posters together |
| Posting.NeverEmpty | Server/contrib/libhv/evpp/EventLoop.h:204-225 | the reader's loop never finds custom_events empty, and onCustomEvent never takes the front of an empty queue |
| Posting.Awake | Server/contrib/libhv/event/hloop.c:273-309 | in every reachable state with an event waiting and no poster at work, the reader was woken or will be |
| Posting.RunsInOrder | Server/contrib/libhv/event/hloop.c:202-231 | what has run is a beginning of what was posted: the functors in the order of customEvents, the direct events in the order of custom_events, and each thread's posts in its own order |
| Posting.AllRun | Server/contrib/libhv/evpp/EventLoop.h:176-225 | once all is quiet every direct event has run exactly once and in order, as have all functors but the last ones, as many as writes failed |
| Posting.SentOrderIff | Server/contrib/libhv/evpp/EventLoop.h:176-189 | in every reachable state what has run is what was sent, in that order, if and only if no poster overtook another between the two queues; then each thread's mixed posts run in its own order; when all is quiet everything sent has run |
| Posting.CanRest | Server/contrib/libhv/event/hloop.c:202-231 | from every reachable state some schedule without a new post or a failed write brings all threads and the reader to rest |
| Posting.CrossingOrder | Server/contrib/libhv/evpp/EventLoop.h:176-202 | a run in which a thread's direct event runs before the functor it posted earlier |
| MultipartParser.Parser.constructor | Server/contrib/libhv/http/multipart_parser.c:80-99 | the parser starts in the state that expects the first boundary |
| MultipartParser.Parser.Execute | Server/contrib/libhv/http/multipart_parser.c:113-308 | one call consumes as many bytes as the byte-wise specification accepts and hands over exactly its output, although data is held back in a fixed lookbehind and marks do not outlive the call; indices stay inside the lookbehind |
| MultipartChunks.AnyCalls | Server/contrib/libhv/http/multipart_parser.c:113-308 | for header lines with colons any number of calls hands over the same bytes and notifications as one |
| MultipartChunks.CutsDoNotMatterIff | Server/contrib/libhv/http/multipart_parser.c:150-176 | and this holds for all cuts of an accepted body only if the header lines have colons |
| MultipartBoundary.PartDataExact | Server/contrib/libhv/http/multipart_parser.c:218-264 | the part data before on_part_data_end is exactly what precedes the first CR LF boundary; without one there is no end |
| MultipartBoundary.PartExact | Server/contrib/libhv/http/multipart_parser.c:218-264 | the same from the start of a part: the end of the headers, the data, the end of the part |
| MultipartBoundary.NoCrIsSafe | Server/contrib/libhv/http/multipart_parser.c:218-264 | a boundary without CR needs no failure function |
| MultipartBoundary.NoticesIff | Server/contrib/libhv/http/multipart_parser.c:218-264 | every delimiter in every input is noticed if and only if the delimiter is safe to restart |
| MultipartForm.SplitString | Server/contrib/libhv/cpputil/hstring.cpp:89-112 | the pieces between the delimiters of a C string |
| MultipartForm.DumpMultipart | Server/contrib/libhv/http/http_content.cpp:70-108 | the text of a form, with the contents of files read and kept |
| MultipartForm.ParseMultipart | Server/contrib/libhv/http/http_content.cpp:214-234 | the map that the callbacks make of what the parser reports, or -1 when it refuses the text |
| MultipartRoundTrip.BodyFeeds | Server/contrib/libhv/http/multipart_parser.c:113-308 | the parser accepts every printed form and reports it part by part, name, header and content |
| MultipartRoundTrip.RoundTrip | Server/contrib/libhv/http/http_content.cpp:121-234 | parsing a printed form into a map gives that map overlaid with the form |
| MultipartRoundTrip.DumpThenParse | Server/contrib/libhv/http/http_content.cpp:70-234 | dump_multipart, then parse_multipart, returns the form |
| Varint.EncodeVarint | Server/contrib/libhv/base/hmath.h:28-39 | seven bits a byte, low end first, for every non-negative value |
| Varint.DecodeVarint | Server/contrib/libhv/base/hmath.h:42-66 | the value and its size, 0 for too few bytes, -1 after ten bytes |
| Varint.DecodeEncoded | Server/contrib/libhv/base/hmath.h:28-66 | decoding inverts encoding with any bytes behind |
| Varint.PrefixIncomplete | Server/contrib/libhv/base/hmath.h:46-50 | every strict beginning of an encoding reads as incomplete |
| Varint.DecodeStable | Server/contrib/libhv/base/hmath.h:42-66 | what was decoded does not change when more bytes arrive |
| Framing.Conserves | Server/contrib/libhv/event/unpack.c:22-174 | the packages and what is left over make up the stream |
| Framing.AnyChunks | Server/contrib/libhv/event/unpack.c:22-174 | in all three modes every way of cutting the stream gives the same packages and the same end |
| Framing.Stays | Server/contrib/libhv/event/unpack.c:122-150 | a refused or endless stream stays so whatever follows |
| Framing.DelimiterFrames | Server/contrib/libhv/event/unpack.c:52-104 | a package by delimiter ends with the only delimiter in it, and what is left over holds none |
| Framing.PackedFrames | Server/contrib/libhv/event/unpack.c:22-174 | packages sent one after the other come out as they were sent |
| Framing.BigEndianPacked | Server/contrib/libhv/event/unpack.c:114-121 | a body behind a big-endian length is such a package |
| Framing.VarintPacked | Server/contrib/libhv/event/unpack.c:126-141 | so is a body behind a varint length |
| Stalls.NeverEndless | Server/contrib/libhv/event/unpack.c:117-156 | with a length field that cannot hold the zeroing value no stream holds a package of no bytes |
| Stalls.StallingStalls | Server/contrib/libhv/event/unpack.c:117-156 | with any other a header of no bytes can be written down, in all three codings |
| Stalls.NeverEndlessIff | Server/contrib/libhv/event/unpack.c:117-156 | so no stream makes the loop endless if and only if the field cannot hold that value |
| Unpack.Io.constructor | Server/contrib/libhv/event/hevent.c:830-861 | a fresh empty buffer, of the fixed length or of 8192 bytes or the limit if that is less |
| Unpack.Io.Round | Server/contrib/libhv/event/unpack.c:117-153 | one round of the loop: it delivers a whole package, waits for more bytes, or refuses a varint |
| Unpack.Io.Spin | Server/contrib/libhv/event/unpack.c:117-153 | on a package of no bytes any number of rounds leaves position and remaining bytes as they were |
| Unpack.Io.Alloc | Server/contrib/libhv/event/hevent.c:694-709 | the buffer gets another size and keeps its bytes, or the io closes over the limit |
| Unpack.Io.UnpackFixed | Server/contrib/libhv/event/unpack.c:22-50 | cuts in place exactly the packages of the stream and moves what is left over to the front |
| Unpack.Io.UnpackDelimiter | Server/contrib/libhv/event/unpack.c:52-104 | the same by delimiter, though it searches only from a delimiter's length before the new bytes; closes exactly when a package fills the whole limit |
| Unpack.Io.UnpackLength | Server/contrib/libhv/event/unpack.c:106-174 | the same by length field; closes exactly for a bad varint or a package announced above the limit; grows the buffer for the next package |
| Unpack.Io.Receive | Server/contrib/libhv/event/hevent.c:328-400 | a read and its unpacking: the packages delivered and the bytes kept are those of the bytes before with the new ones behind; there is room again unless it closes, and exactly when it closes |
| Unpack.Io.ReceiveAll | Server/contrib/libhv/event/unpack.c:7-20 | any number of reads of any sizes delivers the packages of the stream in all three modes, and never closes when the packages fit |
| Unpack.FitNext | Server/contrib/libhv/event/unpack.c:156-171 | why it does not: every prefix of a stream within the limit announces no package above it and leaves room in the buffer |
| Unpack.StuffedIff | Server/contrib/libhv/event/hevent.c:378-383 | when an unfinished header can fill a buffer |
| Unpack.HeaderFills | Server/contrib/libhv/event/hevent.c:378-383 | for every such setting and limit a stream that closes the io before any package |
| Queues.Queue.PushBack | Server/contrib/libhv/base/queue.h:83-93 | appends to the sequence through doubling and moving to the front, which overwrite nothing live |
| Queues.Queue.PopFront | Server/contrib/libhv/base/queue.h:94-98 | takes the first element off the sequence |
| Queues.Queue.PopBack | Server/contrib/libhv/base/queue.h:100-103 | takes the last element off the sequence |
| Queues.Queue.Resize | Server/contrib/libhv/base/queue.h:73-77 | an array of any other size holds the same sequence if and only if the window still lies inside it |
| WritePath.DrainConserves | Server/contrib/libhv/event/nio.c:352-406 | what nio_write sends followed by what it leaves is what waited, for every pattern of partial writes, EAGAIN and errors |
| WritePath.DrainsAllIff | Server/contrib/libhv/event/nio.c:356-398 | it empties the queue if and only if the kernel takes every buffer whole |
| WritePath.TearsIff | Server/contrib/libhv/event/nio.c:498-527 | when a refused write may have been sent in part |
| WritePath.Io.Write | Server/contrib/libhv/event/nio.c:483-565 | the result, the bytes sent and queued, the error and the close request of a write, for every state and every answer of the kernel |
| WritePath.Io.Drain | Server/contrib/libhv/event/nio.c:352-406 | the loop over the queue, updated in place, sends and leaves what the specification says, and conservation holds again |
| WritePath.Io.CloseNow | Server/contrib/libhv/event/nio.c:567-605 | defers exactly when bytes wait, nothing failed and no close waits; otherwise closes and drops what waits |
| WritePath.Io.HandleEvents | Server/contrib/libhv/event/nio.c:408-438 | a close that waits happens if and only if the kernel takes everything or the stream breaks, and in the first case everything was sent |
| WritePath.Io.Run | Server/contrib/libhv/event/nio.c:352-605 | in any run of locked sections of any threads the bytes sent, waiting and dropped are the accepted ones in order, write_bufsize is what waits and within the limit, waiting bytes have write interest, and without an error and with at most one request the io closes only after everything accepted was sent; stray timers are counted |
| WritePath.Io.Timeout | Server/contrib/libhv/event/nio.c:23-34 | the close timeout closes at once and drops what waits |
| WritePath.TornWrite | Server/contrib/libhv/event/nio.c:498-527 | two writes, the first refused, after which the peer has a byte that no accepted write brought |
| WritePath.EmptyFailsIff | Server/contrib/libhv/event/nio.c:498-514 | which writes are taken for a disconnect when the kernel reports no error |
| WritePath.EmptyWrite | Server/contrib/libhv/event/nio.c:512-514 | on every open stream with nothing waiting an empty write ends the connection, though nothing failed |
| WritePath.Io.CloseWaiting | Server/contrib/libhv/event/nio.c:356-365 | the close at the end of nio_write happens exactly when the queue is still empty or something failed, and adds a second timer exactly otherwise |
| WritePath.Io.Step | Server/contrib/libhv/event/nio.c:352-605 | one step of any thread keeps the invariant, and only such a second wait leaves a timer behind |
| WritePath.Io.Settled | Server/contrib/libhv/event/nio.c:352-605 | what the invariant means: conservation, the counter, write interest, the patient close, and as many stray timers as second waits that have not fired |
| WritePath.StrayTimer | Server/contrib/libhv/event/nio.c:356-365 | a crossing write leaves a close timer behind that points to a closed io |
| VLBufs.VLBuf.PushFront | Server/contrib/libhv/base/hbuf.h:128-143 | bytes go before the sequence, through growth and a move to the end |
| VLBufs.VLBuf.PushBack | Server/contrib/libhv/base/hbuf.h:145-157 | bytes go behind the sequence, through growth and a move to the front |
| VLBufs.VLBuf.PopFront | Server/contrib/libhv/base/hbuf.h:159-168 | the first bytes come off, or none when there are too few |
| VLBufs.VLBuf.PopBack | Server/contrib/libhv/base/hbuf.h:170-177 | the last bytes come off, or none when there are too few |
| RingBufs.LaidSound | Server/contrib/libhv/base/hbuf.h:204-254 | the layout kept by the fields implies that all blocks in use lie inside the buffer, no two overlap, and the ends meet when nothing is in use |
| RingBufs.RingBuf.Alloc | Server/contrib/libhv/base/hbuf.h:210-234 | a new block apart from all blocks in use, or NULL exactly when neither piece of free room is long enough |
| RingBufs.RingBuf.Free | Server/contrib/libhv/base/hbuf.h:235-245 | freeing in order of allocation skips the gap exactly where allocating skipped it, and keeps the layout |
| RingBufs.EmptyYetFull | Server/contrib/libhv/base/hbuf.h:210-224 | an empty ring of ten bytes that refuses six |
| Url.Escape | Server/contrib/libhv/cpputil/hurl.cpp:50-67 | the encoding of each byte in turn, up to a NUL |
| Url.Unescape | Server/contrib/libhv/cpputil/hurl.cpp:69-89 | the decoding, with '+' for a space |
| Url.UnescapeEscaped | Server/contrib/libhv/cpputil/hurl.cpp:50-89 | decoding gives back what was encoded |
| Url.KeepIff | Server/contrib/libhv/cpputil/hurl.cpp:50-89 | for which kept characters it does so on all strings |
| Url.EscapedClean | Server/contrib/libhv/cpputil/hurl.cpp:50-67 | encoded text holds unreserved characters and '%' only |
| Query.Dump | Server/contrib/libhv/http/http_content.cpp:9-20 | the encoded fields with '=' and '&' between |
| Query.Parse | Server/contrib/libhv/http/http_content.cpp:22-62 | the parameters that the pass over the characters commits, and whether it read past the end |
| Query.RunJoined | Server/contrib/libhv/http/http_content.cpp:36-59 | what was dumped is read as its pairs in order, without reading past the end |
| Query.DumpThenParse | Server/contrib/libhv/http/http_content.cpp:9-62 | a map without empty keys is read back from its query string, in whatever order it was written |
| Query.KeylessCarries | Server/contrib/libhv/http/http_content.cpp:36-59 | when the bytes of a value without a key make the next value run past the end |
| QueryFields.PassField | Server/contrib/libhv/http/http_content.cpp:36-52 | what the pass over any field leaves in the variables, with any number of '=' |
| QueryFields.ReadsFields | Server/contrib/libhv/http/http_content.cpp:22-62 | for every string: the parameters that its fields give, and when it is read past the end |
| QueryFields.OverrunIff | Server/contrib/libhv/http/http_content.cpp:22-62 | for every string in which no value lacks its key: it is overrun if and only if some field has more bytes between its first and last '=' than follow it |
| QueryFields.OneEqual | Server/contrib/libhv/http/http_content.cpp:36-59 | a field with at most one '=' is not overrun and gives its own key and value |
| QueryFields.ParsePlain | Server/contrib/libhv/http/http_content.cpp:22-62 | with at most one '=' in each field parse_query_params reads what the query means |
| Calendar.NextMonth | Server/contrib/libhv/base/htime.c:102-108 | the day numbers of the Gregorian calendar run on from the last of a month to the first of the next, leap years and year ends included |
| Calendar.Unique | Server/contrib/libhv/base/htime.c:102-108 | no two dates have the same day number |
| Calendar.DateTime.Future | Server/contrib/libhv/base/htime.c:128-146 | a valid date whose number is greater by the days |
| Calendar.DateTime.Past | Server/contrib/libhv/base/htime.c:110-126 | a valid date whose number is less by the days |
| Calendar.ThereAndBack | Server/contrib/libhv/base/htime.c:110-146 | each takes back what the other did |

## Left out

- Sockets, pollers, SSL, DNS, logging, signals, KCP and WebSocket: foreign code or plain calls. I/O events do not occur in the model of the loop.
- Locks in rudp.c and nio.c: each locked section is one step; the unlocked test of `closed` in hio_write belongs to the step.
- Machine words: 64-bit times, ids and sizes do not wrap, and memory does not run out. The 32-bit lengths of packages do wrap in the model, as in the code.
- Memory returned by realloc and calloc is cleared in the code; new array elements are arbitrary here, and nothing reads them.
- Loop.HLoop.ProcessPendings: the links `pending_next` and the list of idles are sequences of ids, so aliasing of list nodes is not modelled; an event with its memory is an entry of a map, and freeing takes it out.
- Loop.HLoop.ProcessEvents: I/O events, and the early return of a loop that was stopped.
- Loop.HLoop.Run: a run is any number of turns; status and flags, which say when it ends, are left out. Callbacks do not run the loop again, and change it by the operations of `Op` only; a reset of a pending timer is not one of them and has its own lemmas.
- Loop.HLoop.ProcessHeap: the next time of a cron timer is any time after now.
- LoopTheory.RunsAtMost: a repeat of 0 is not bounded; the counter wraps in the code.
- RbTree.RotateRightHere: the model looks at the left link of the parent first, the code at the right one; a node is never both.
- Rudp.Table.Descend: one method stands for the three search loops, which differ in the link they remember.
- Heap.Heap.Insert: a heap without a comparison function is not modelled.
- MultipartParser.Parser.Execute: callbacks all return 0 and none is missing, as in http_content.cpp.
- MultipartForm.ParseMultipart: the callbacks run after the parser instead of during it; they do not look at the parser.
- MultipartForm.DumpMultipart: what a file holds is a parameter, and so is whether it can be read.
- MultipartRoundTrip.RoundTrip: names are not empty and at most 246 bytes, filenames at most 242 and without '/', neither holds ';', '=', CR or NUL, and no content holds CR LF boundary; the longer ones would be cut by the format buffer, the others read back differently.
- Unpack.Io.Receive: hio_read_until_length, hio_read_until_delim and reading once are not modelled; callbacks do not touch the io.
- Unpack.Io.UnpackLength: streams with a package of no bytes are excluded, since the loop does not end on them; `Stalls.NeverEndlessIff` says for which settings there are none.
- WritePath.Io.Write: callbacks do not write to or close the same io; the limit does not change; lengths fit an int.
- WritePath.Io.Run: an io that was closed is not opened again under the same descriptor.
- RingBufs.RingBuf.Alloc: a buffer of no bytes, for which even a block of no bytes is NULL in the code, gives a block at 0.
- VLBufs.VLBuf.PushBack: a buffer that borrows foreign memory is not modelled.
- Query.Parse: a value read past the end of the string sets a flag and commits nothing; what the code would read there is unknown.
- Calendar.DateTime.Future: the time of day and time zones.
- The HTTP parser, JSON, INI files, thread and object pools, the client and the server's own request handlers.
