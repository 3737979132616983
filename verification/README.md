# shroudBNC: verified models of its algorithms

shroudBNC is an IRC bouncer written in C++ with a bundled copy of the c-ares resolver and a
PHP interface. This project models the parts of it that compute rather than talk to the
network, each in the form the source has (classes with fields, loops over buffers and
pointers), and proves what those parts are for.

| files | part of the program |
|---|---|
| `DnsName`, `DnsExpand`, `DnsQuery`, `DnsRoundTrip`, `DnsCompressed`, `DnsSpelling` | compressed domain names: the two-pass decoder, the two-pass encoder, the round trip, and what names and questions are byte by byte (sections 2.3.4, 3.1, 4.1.1, 4.1.2 and 4.1.4 of RFC 1035) |
| `LinkedList`, `Timers` | the list with deferred deletion and its cursors; timers, their callbacks and the cached time of the next call |
| `Queues`, `FloodControl`, `FloodProtocol`, `FloodProgress`, `FloodLimits` | the send queues, the flood control in front of them, the byte window they keep with the server, that everything gets out, and what breaks the window |
| `Hashtable`, `HashtableKeys` | the chained hash table, its rehash, its iteration with a resume cache, and which keys are the same |
| `FifoBuffer`, `Framing`, `FramingLaw` | the receive buffer and the cutting of its bytes into lines (section 2.3 of RFC 1459) |
| `Tokens`, `Rejoin`, `Words` | the tokenizer of an IRC line, its in-place inverse, and which words it gives back (section 2.3.1 of RFC 1459) |
| `ISupport`, `Nicks` | the server's PREFIX and CHANMODES values and the prefixes of a nick |
| `Channels`, `ChannelModes`, `ChannelLaw`, `ChannelNicks`, `ChannelText`, `ChannelRoundTrip` | the channel mode parser and printer, and their round trip through a 324 reply (section 3.2.3 of RFC 2812) |
| `Itype`, `ItypePeer` | the printer and parser of nested lists in `php/itype.php`, against itself and against the Tcl side |
| `Basics` | bytes and options |

How to read the model: a C buffer is an `array`, a list or a vector that an object mutates is a
`seq` field or a chain of nodes, `int` and `size_t` are unbounded except for the `unsigned long`
of the hash. Where an argument needs history (what was submitted to a queue, what a timer
function was called for) a ghost field keeps it. Each method is proved against a function of its
input, and the lemmas say what that function means: most of them against a description that
shares no definition with it, such as the bytes of a message, the lines of a stream, the changes
of a mode line or the values that the other side writes.

What the proofs found, beside what holds:

- `ares_expand_name` reports an encoded length of 1 for a pointer that leads straight to the
  root, although the pointer takes two bytes (`DnsExpand.EnclenExact`).
- The counting pass of `ares_mkquery` is one byte short exactly for names that end in an escaped
  period, and the write of the question then runs one byte past the buffer
  (`DnsQuery.CountAgainstWire`, `DnsQuery.MkQuery`, `DnsQuery.OverrunName`).
- Over every run the main loop never sleeps past a timer that `Call` would destroy or reschedule
  (`Timers.Pool.Run`). The other two shapes, a timer with an interval but no function and no
  repetition and one that repeats with interval 0, stay due after a pass while `GetNextCall`
  answers a later time (`Timers.Oversleep`), until some timer is destroyed and the bound is
  recomputed.
- What the server has not read yet fits in 1024 bytes, whatever is submitted from a set of lines,
  if and only if no line of the set is longer than 1006 bytes or draws a 421
  (`FloodLimits.WindowExactly`).
- The walk of `ArgCount` over a tokenized line of any length stays inside the buffer if and only
  if the text leaves two bytes of it, or the last character but one was cut
  (`Rejoin.WalksExactly`); every full line without spaces overruns it. `ArgRejoinArray` also
  stores before the buffer for a line that begins with a space and an argument with a space
  (`Rejoin.TokenizeThenRejoin`). Where it stays inside, it restores the line unless a later
  argument contains a space (`Rejoin.RejoinRestores`).
- Printing channel modes, sending them as a 324 reply and reading that back is exact if and only
  if no mode that lacks its parameter stands before one that has it, the reply has at most 511
  bytes and 32 words, and no parameter is empty or, before the 32nd word, begins with a colon
  (`ChannelRoundTrip.ModesRoundTrip`). The printer alone loses a character when a piece ends just
  where its buffer does (`ChannelText.AppendIsWhole`).
- The itype round trip fails exactly for strings with a carriage return, a line feed, or a
  backslash followed by a bracket or another backslash (`Itype.RoundTrip`).

## Model

| member | source | states |
|---|---|---|
| DnsName.StepsUnique | third-party/c-ares/ares_expand_name.c:136-182 | the walk over labels and pointers ends after one number of steps only |
| DnsName.EndingWalkIsShort | third-party/c-ares/ares_expand_name.c:145-176 | a walk that reaches a zero byte takes fewer steps than the message has bytes (pigeonhole over the positions visited), so a counter of pointers that passes the message length has found a loop |
| DnsName.Pigeonhole | third-party/c-ares/ares_expand_name.c:145-176 | distinct positions inside a message are at most as many as its bytes |
| DnsName.LabelsNonEmpty | third-party/c-ares/ares_expand_name.c:163-175 | the walk meets no empty label |
| DnsName.DottedIsTextAndPeriod | third-party/c-ares/ares_expand_name.c:178-181 | the text with a period after every label is the joined text and one period more: the `n - 1` of the return |
| DnsExpand.ReachesBad | third-party/c-ares/ares_expand_name.c:145-176 | a walk that leaves the message, or goes on for as many steps as it has bytes, is no name |
| DnsExpand.NameStep | third-party/c-ares/ares_expand_name.c:145-176 | one turn of the checking loop goes where the walk goes, counts the escaped label, and fails exactly where the walk leaves the message |
| DnsExpand.NameLength | third-party/c-ares/ares_expand_name.c:136-182 | for every message and start: the exact length of the expanded text if the walk ends, and -1 if and only if it leaves the message or never ends |
| DnsExpand.WriteLabel | third-party/c-ares/ares_expand_name.c:107-119 | the unchecked copy of a label writes its escaped octets and a period and leaves what stands before |
| DnsExpand.AtPointer | third-party/c-ares/ares_expand_name.c:98-106 | in a name that was checked, the second walk finds both pointer bytes and the target inside the message |
| DnsExpand.AtLabel | third-party/c-ares/ares_expand_name.c:107-119 | in a name that was checked, the second walk reads its label inside the message and has room for it |
| DnsExpand.ExpandInto | third-party/c-ares/ares_expand_name.c:95-128 | the unchecked second walk terminates, fills the buffer exactly with the escaped labels, and counts the bytes up to the first pointer or zero |
| DnsExpand.ExpandName | third-party/c-ares/ares_expand_name.c:65-131 | success if and only if a name is there; then the escaped labels joined by periods and a NUL, in a buffer of exactly that size |
| DnsExpand.EnclenExact | third-party/c-ares/ares_expand_name.c:85-92 | the reported length is the encoded one except for a pointer chain to the root |
| DnsExpand.EnclenOfRootPointer | third-party/c-ares/ares_expand_name.c:85-92 | such a message exists |
| DnsCompressed.NameUnfolds | third-party/c-ares/ares_expand_name.c:145-176 | a name is a zero byte, two pointer bytes with a name at the offset they spell, or a label with a name behind it |
| DnsCompressed.LabelsUnfold | third-party/c-ares/ares_expand_name.c:95-122 | the labels of each of the three, and the bytes it takes where it stands |
| DnsCompressed.CompressedName | third-party/c-ares/ares_expand_name.c:136-182 | labels followed by the two bytes of a pointer to any offset below 0x4000, at which further labels are encoded, are the name of all these labels |
| DnsCompressed.ExpandCompressed | third-party/c-ares/ares_expand_name.c:65-131 | what expanding such a name returns |
| DnsQuery.CountIsWire | third-party/c-ares/ares_mkquery.c:101-113 | from any label boundary on, the bytes counted are those of the encoding, less one for a name that ends in an escaped period |
| DnsQuery.CountAgainstWire | third-party/c-ares/ares_mkquery.c:101-113 | the bytes reserved for a well-formed name against its encoding: equal but for "." (one more) and for names that end in an escaped period (one less) |
| DnsQuery.WriteTurn | third-party/c-ares/ares_mkquery.c:158-184 | one label with its length byte, refused exactly if empty or longer than 63 |
| DnsQuery.WriteName | third-party/c-ares/ares_mkquery.c:150-188 | the writing pass fails exactly for malformed names and otherwise appends the encoding |
| DnsQuery.WriteQuestion | third-party/c-ares/ares_mkquery.c:190-192 | the four bytes after the name, and when the last of them has no room |
| DnsQuery.MkQuery | third-party/c-ares/ares_mkquery.c:88-195 | success if and only if the name is well formed and counted as at most 255 bytes; then header, canonical encoding and question; one byte past the buffer if and only if the name ends in an escaped period |
| DnsCompressed.QueryReadsBack | third-party/c-ares/ares_mkquery.c:137-192 | a reader finds the identifier, the recursion flag, one question, no records, the encoding, then the type and then the class |
| DnsQuery.OverrunName | third-party/c-ares/ares_mkquery.c:101-130 | one such name is accepted: the letter a and an escaped period |
| DnsRoundTrip.WireIsName | third-party/c-ares/ares_expand_name.c:136-182 | wherever the encoding of labels of fewer than 192 bytes stands in a message, the walk finds those labels and its length |
| DnsRoundTrip.ParsedLabelsValid | third-party/c-ares/ares_mkquery.c:155-185 | labels that the encoder accepts are non-empty and at most 63 bytes |
| DnsRoundTrip.QueryExpands | third-party/c-ares/ares_mkquery.c:99-188 | whatever name was encoded, expanding at offset 12 gives its labels and the length of the encoding |
| DnsRoundTrip.OctetsOfEscape | third-party/c-ares/ares_mkquery.c:163-179 | an escaped label reads back as the label |
| DnsRoundTrip.TextParses | third-party/c-ares/ares_mkquery.c:155-185 | the text of every list of valid labels parses to that list |
| DnsSpelling.NameReads | third-party/c-ares/ares_mkquery.c:155-185 | for every spelling of a name, any octet escaped or not as it may be, with and without a final period: its words if none is empty or longer than 63, and refusal otherwise |
| DnsSpelling.TextIsSpelling | third-party/c-ares/ares_expand_name.c:107-119 | the text of a name spells its labels with a backslash before periods and backslashes and nothing else |
| DnsRoundTrip.ClosedText | third-party/c-ares/ares_mkquery.c:101-113 | the text ends in an escaped period exactly when the last label ends in a period |
| DnsRoundTrip.NameAgainstWire | third-party/c-ares/ares_mkquery.c:101-130 | the 255 byte test accepts exactly the encodings of at most 255 bytes, and one of 256 if the last label ends in a period |
| DnsRoundTrip.CodecRoundTrip | third-party/c-ares/ares_mkquery.c:99-188 | for every list of valid labels: accepted exactly within the limit, and expanding the encoding gives the text and the length back |
| DnsRoundTrip.TextIsNormalForm | third-party/c-ares/ares_expand_name.c:95-128 | expanding and encoding again keeps the labels |
| DnsRoundTrip.QueryWithinLimits | third-party/c-ares/ares_mkquery.c:119-185 | labels of at most 63 bytes, names of at most 255 unless they end in an escaped period |
| DnsRoundTrip.EncodeThenExpand | third-party/c-ares/ares_mkquery.c:88-195 | the two C functions one after the other return the text and the length of the encoding |
| LinkedList.WithoutTwice | src/List.h:145-174 | removing an element later is removing it now |
| LinkedList.List.Insert | src/List.h:89-114 | appends a fresh element, keeps the doubly linked list well formed, under any number of locks |
| LinkedList.List.Unlink | src/List.h:156-172 | takes one element out of the chain, frees it and no other, and relinks its neighbours |
| LinkedList.List.Remove | src/List.h:145-174 | under a lock the element only becomes invalid and is not freed; otherwise it leaves the chain |
| LinkedList.List.Lock | src/List.h:209-211 | nothing but the count changes |
| LinkedList.List.Unlock | src/List.h:218-238 | the valid elements stay the same, and the last unlock leaves precisely them, in order |
| LinkedList.List.Sweep | src/List.h:223-237 | one pass over a chain that is being cut leaves exactly the valid elements |
| LinkedList.Cursor.constructor | src/List.h:260-270 | a lock is taken and the cursor stands at the first valid element |
| LinkedList.Cursor.Proceed | src/List.h:313-323 | the cursor moves to the first element after its own that is valid now |
| LinkedList.Cursor.Remove | src/List.h:304-306 | the element under the cursor becomes invalid and stays linked |
| LinkedList.Cursor.Destroy | src/List.h:277-279 | the cursor's lock is given back, with the sweep if it was the last |
| Timers.Pool.GetNextCall | src/Timer.cpp:113-119 | between passes, no sound timer is due before the time returned |
| Timers.Pool.Reschedule | src/Timer.cpp:146-152 | sets the time and lowers the cached bound where needed |
| Timers.Pool.Create | src/Timer.cpp:35-48 | a new timer joins the list and is covered by the cached bound |
| Timers.Pool.RescheduleTimers | src/Timer.cpp:172-184 | the bound becomes a true lower bound of all live timers, found through a cursor while others may be live |
| Timers.Pool.Destroy | src/Timer.cpp:55-59 | the timer is destroyed, its element freed or only marked under a lock, and the bound is right again |
| Timers.Pool.Invoke | src/Timer.cpp:97-97 | a function is only ever called for a timer that is not destroyed; whatever it does to other timers, those covered stay covered |
| Timers.Pool.Call | src/Timer.cpp:77-106 | a called timer ends destroyed exactly if it has neither function nor interval, does not repeat, or its function says so; a repeating one is next due one interval from now, any other keeps its time; what is left is covered by the bound or of one of the two shapes that the bound ignores |
| Timers.Pool.Visit | src/Timer.cpp:163-168 | one turn of the pass extends the covered part of the list by one timer |
| Timers.Pool.Pass | src/Timer.cpp:160-169 | the loop over the list, with callbacks that create, destroy and reschedule timers, covers every timer, those created meanwhile included |
| Timers.Pool.Survivors | src/List.h:223-237 | what the last unlock leaves of the list are the timers not destroyed, all of them covered |
| Timers.Pool.CallTimers | src/Timer.cpp:160-170 | never oversleep after a pass, whatever the callbacks do, and no destroyed timer is called; with callbacks that touch no timer, exactly the due timers are called, in order, and none is left due; if none ends, the bound is past now and unsound timers keep their times |
| Timers.Pool.PassElapsed | src/Timer.cpp:160-170 | after a pass whose functions touch no timer, timer by timer: those not due are as they were, those due are gone or have exactly their next time |
| Timers.Pool.DueHas | src/Timer.cpp:163-165 | the functions called are those of the timers that were due and have one |
| Timers.Pool.DueOrder | src/Timer.cpp:163-165 | in the order of the list |
| Timers.Pool.Step | src/Core.cpp:421-437 | each event of the main loop keeps it safe to sleep until the next call, and calls no timer that was destroyed |
| Timers.Pool.Run | src/Core.cpp:421-437 | so does every run of such events |
| Timers.Oversleep | src/Timer.cpp:77-119 | for every shape that is not sound: created, due, and after the pass still in the list while the next call is later than its time |
| Queues.SwapRemovedMultiset | src/Vector.h:130-146 | moving the last element into the gap loses exactly the element removed |
| Queues.Vector.Insert | src/Vector.h:97-121 | appends |
| Queues.Vector.Remove | src/Vector.h:130-146 | the last element takes the place of the removed one |
| Queues.LeastIsOldest | src/Queue.cpp:55-60 | the item of least priority is the oldest, however the array was reordered |
| Queues.AgedPermutation | src/Queue.cpp:100-102 | ageing keeps the array a permutation of the queue |
| Queues.Enqueued | src/Queue.cpp:80-105 | ageing and inserting at the end of the array is appending to the queue |
| Queues.Dequeued | src/Queue.cpp:50-71 | swap-removal of the item of least priority is taking the head of the queue |
| Queues.Queue.PeekItem | src/Queue.cpp:27-43 | the head of the queue, the same that DequeueItem returns |
| Queues.Queue.DequeueItem | src/Queue.cpp:50-71 | first in, first out |
| Queues.Queue.QueueItem | src/Queue.cpp:80-105 | appends, or refuses when 500 lines wait |
| Queues.Queue.Clear | src/Queue.cpp:136-142 | empties the queue |
| FloodControl.Control.AttachInputQueue | src/FloodControl.cpp:41-48 | the queue is served from then on with its priority |
| FloodControl.Control.FindNext | src/FloodControl.cpp:65-70 | the scan finds a non-empty queue of least priority value, the first attached among equals, or none |
| FloodControl.Control.DequeueItem | src/FloodControl.cpp:57-101 | the line taken, the byte count and the plug, as the protocol step `Taken` has them; peeking changes nothing |
| FloodProgress.NextGoesOut | src/FloodControl.cpp:65-100 | for every queue that is next while no answer is awaited: its first line goes out, or the check if a window of 1024 bytes that was begun has no room for both |
| FloodProgress.NothingGoesOut | src/FloodControl.cpp:61-74 | nothing goes out only while an answer is awaited or no queue is next |
| FloodProgress.TotalReplaced | src/FloodControl.cpp:121-129 | the number of lines waiting changes by the lines of one queue |
| FloodControl.Control.Unplug | src/FloodControl.cpp:156-159 | the window starts anew |
| FloodControl.Control.GetRealLength | src/FloodControl.cpp:121-129 | the number of lines in all queues |
| FloodControl.Control.GetQueueSize | src/FloodControl.cpp:109-114 | whether a line could be sent now |
| FloodProtocol.SentConserved | src/FloodControl.cpp:57-101 | a send step loses and duplicates no line, and each queue's output is a prefix of its input |
| FloodProtocol.SentWindow | src/FloodControl.cpp:88-98 | a send step keeps the bytes since the last answer within 1024 |
| FloodProtocol.HeardInv | src/IRCConnection.cpp:765-768 | taking a 421 for the answer to the check keeps the invariant |
| FloodProtocol.StepInv | src/IRCConnection.cpp:992-1004 | the invariant is kept by submitting, sending, serving and hearing |
| FloodProtocol.RunInv | src/FloodControl.cpp:57-101 | and so by every run |
| FloodProtocol.WindowHolds | src/FloodControl.cpp:57-101 | in every run with lines of at most 1006 bytes that draw no 421: at most one check unanswered, at most 1024 bytes since the last answer, every queue delivered in order |
| FloodProtocol.PriorityOrder | src/FloodControl.cpp:65-70 | a line leaves a queue only while all of higher priority are empty |
| FloodProgress.Drain | src/FloodControl.cpp:57-101 | from every reachable state, sending, serving and hearing empty all queues after some steps, and all that was submitted is delivered |
| FloodProgress.EverythingGetsOut | src/FloodControl.cpp:57-101 | every run of tame lines can be continued until each queue's lines have all gone out in order |
| FloodLimits.FillUp | src/FloodControl.cpp:88-98 | from every open state, submitting and sending one line over and over ends with the check, and with how many bytes under way |
| FloodLimits.LongLineBreaksWindow | src/FloodControl.cpp:88-98 | for every line of more than 1006 bytes a run from the start that submits nothing else puts more than 1024 bytes under way |
| FloodLimits.UnknownLineBreaksWindow | src/IRCConnection.cpp:765-768 | so it is for every line that draws a 421, of any length: its answer passes for the answer to the check |
| FloodLimits.WindowExactly | src/FloodControl.cpp:57-101 | over all runs that submit lines of a set, what the server has not read fits in 1024 bytes if and only if no line of the set is longer than 1006 bytes or draws a 421 |
| Hashtable.Hash | src/Hashtable.h:77-90 | the hash of a key depends on its folded form alone, in 64-bit arithmetic with signed characters |
| HashtableKeys.HashIsPolynomial | src/Hashtable.h:77-90 | the hash is 5381 in front of the characters as digits to the base 33, modulo 2 to the 64 |
| HashtableKeys.FoldMeans | src/Hashtable.h:288-288 | two keys are the same if and only if they have one length and differ at most, without case sensitivity, in the case of letters |
| Hashtable.AppendBucket | src/Hashtable.h:233-258 | an absent key appended to its bucket is found there, all others as before |
| Hashtable.RemoveBucket | src/Hashtable.h:317-349 | filling the gap with the last entry removes exactly the one key |
| Hashtable.HoldsAt | src/Hashtable.h:275-295 | a key is in the table exactly when its own bucket has it |
| Hashtable.MovedStep | src/Hashtable.h:126-139 | during a rehash every next entry is new to the table being filled |
| Hashtable.Table.constructor | src/Hashtable.h:151-164 | an empty table of 32 buckets |
| Hashtable.Table.Get | src/Hashtable.h:275-295 | the value the map has for the folded key |
| Hashtable.Table.GetLength | src/Hashtable.h:360-362 | the cached length is the size of the map |
| Hashtable.Table.Remove | src/Hashtable.h:306-353 | the map without the key; its value is destroyed unless told otherwise |
| HashtableKeys.GetAfterRemove | src/Hashtable.h:275-353 | after removing, nothing is found under exactly the keys alike |
| Hashtable.Table.Add | src/Hashtable.h:212-265 | the map with the key, through any depth of rehashing; only a replaced value is destroyed; no bucket is left with more than three keys unless memory runs out; terminates under a bound on allocatable buckets |
| HashtableKeys.GetAfterAdd | src/Hashtable.h:212-295 | after adding, the value is found under exactly the keys alike, and every other key finds what it found before |
| Hashtable.Table.Rehash | src/Hashtable.h:105-142 | the map stays and no value is destroyed, nested rehash and failed malloc included; afterwards no bucket has more than three keys unless memory runs out |
| Hashtable.Table.Clear | src/Hashtable.h:183-202 | the map becomes empty and each value is destroyed once |
| Hashtable.Table.Iterate | src/Hashtable.h:382-425 | with any cache, also one that the table has outgrown, which entry in bucket order is returned and what is cached; with a cache that fits, the entry of that index, whatever table the cache belongs to |
| Hashtable.ListingFaithful | src/Hashtable.h:382-425 | counting up from 0 meets every key of the map exactly once |
| FifoBuffer.CeilIsCapacity | src/FIFOBuffer.cpp:54-61 | the rounding of the source is one block more than the size fills |
| FifoBuffer.Buffer.ResizeBuffer | src/FIFOBuffer.cpp:53-74 | room for more than the new size, the old bytes kept, the same buffer while the block count stays |
| FifoBuffer.Buffer.Optimize | src/FIFOBuffer.cpp:81-110 | compaction keeps the contents, leaves what was read only while it is less than a fifth, and frees an empty buffer |
| FifoBuffer.Buffer.Peek | src/FIFOBuffer.cpp:127-133 | all bytes not read yet |
| FifoBuffer.Buffer.Read | src/FIFOBuffer.cpp:142-156 | returns and removes the first min(n, size) bytes; all compaction of a run moves at most 8 bytes for each byte read |
| FifoBuffer.Buffer.Write | src/FIFOBuffer.cpp:166-181 | appends, every copy within the buffer |
| FifoBuffer.Buffer.WriteUnformattedLine | src/FIFOBuffer.cpp:190-206 | appends the line and CR LF |
| FifoBuffer.Buffer.Flush | src/FIFOBuffer.cpp:213-215 | empties the buffer |
| Framing.LinesAppend | src/Connection.cpp:406-436 | the lines complete so far come first, the rest and what follows give the others |
| Framing.CutAnywhere | src/Connection.cpp:406-436 | framing does not depend on where the stream is cut |
| Framing.AtCr | src/Connection.cpp:415-432 | ending a line at the CR before an LF, and an empty line at the LF, is stripping one CR |
| Framing.Scan | src/Connection.cpp:410-433 | the loop hands over the lines of the queue: cut at LF, one CR stripped, empty ones dropped, and stops after the last LF |
| Framing.Connection.ProcessBuffer | src/Connection.cpp:406-436 | those lines are parsed and leave the queue |
| Framing.Connection.Receive | src/Connection.cpp:406-436 | over every sequence of chunks, the lines are those of the whole stream and the queue holds what follows its last LF |
| FramingLaw.StreamDelivers | src/Connection.cpp:406-436 | every stream of lines with LF or CR LF behind each and a rest without LF delivers their texts up to a zero byte, in order and without the empty ones, and leaves the rest |
| FramingLaw.TextsWithoutZero | src/Connection.cpp:422-427 | without zero bytes these are the lines that are not empty |
| FramingLaw.ReceiveAll | src/Connection.cpp:406-436 | in whatever chunks the stream arrives, exactly those lines are parsed and the rest is kept |
| Tokens.ScanIsGood | src/utility.cpp:255-278 | every cut is a space before a character that is neither a space nor the end; fewer than 32 of them; at most a final space falls off |
| Tokens.TokenIs | src/utility.cpp:245-283 | the C string at each token's offset is the part of the line from there to the next cut |
| Tokens.Separator | src/utility.cpp:256-276 | between two tokens stands a space, or a space and the colon |
| Tokens.Lossless | src/utility.cpp:245-283 | at most 32 tokens at increasing offsets that rejoin to the line, less at most one final space |
| Rejoin.ArgTokenize2 | src/utility.cpp:245-283 | the loop yields the buffer, offsets and count that the cuts stand for, for lines of any length |
| Rejoin.ArgCount | src/utility.cpp:113-128 | the number of strings up to an empty one if the walk reads inside the buffer only, and none otherwise |
| Rejoin.CountIs | src/utility.cpp:113-128 | counting from a token of a tokenized line finds it and those after it |
| Rejoin.OpenOverruns | src/utility.cpp:120-127 | without two NULs at the end or side by side before, the walk from every place leaves the buffer |
| Rejoin.WalksExactly | src/utility.cpp:113-128 | for every line, of any length: the walk over its tokens reads inside the buffer if and only if the text leaves two bytes of it or the last character but one was cut |
| Rejoin.FullLineOverruns | src/utility.cpp:113-128 | every line of 511 bytes or more without a space overruns it |
| Rejoin.OverrunExists | src/utility.cpp:113-128 | one of 511 bytes |
| Rejoin.ArgRejoinArray | src/utility.cpp:162-179 | the buffer after the loop, step by step in place, and whether every read and store was inside it |
| Rejoin.StepMeans | src/utility.cpp:169-178 | one turn of the loop, character by character |
| Rejoin.StepFills | src/utility.cpp:169-178 | one step turns the cut before a simple argument back into what the line had there |
| Rejoin.StepSpoils | src/utility.cpp:172-174 | at an argument with a space and no colon before it, a colon comes where the line has a space, and stays |
| Rejoin.RejoinRestores | src/utility.cpp:162-179 | the rest of the line from an argument on is restored if and only if every later argument but the one after the colon is free of spaces |
| Rejoin.SingleSpacesAreSimple | src/utility.cpp:162-179 | that is so for lines with fewer than 32 arguments and no doubled spaces before the trailing one |
| Rejoin.Rejoinable | src/utility.cpp:162-179 | for every line of at most 511 bytes: what the rejoin relies on, when the walk stays inside, and when the first step stores before the buffer |
| Rejoin.StoreBeforeExists | src/utility.cpp:172-174 | a line for which it does |
| Rejoin.TokenizeThenRejoin | src/utility.cpp:162-179 | the two functions in sequence on every line of at most 511 bytes: inside the buffer if and only if the text leaves two bytes of it and the first step does not store before it; then the rest of the line is restored if and only if the later arguments are simple |
| Words.ScanWords | src/utility.cpp:255-278 | scanning words with single spaces between them: no more cuts than spaces, and all of them if and only if the words are readable |
| Words.WordsAreArgs | src/utility.cpp:245-283 | the tokenizer gives back the words a line was made of if and only if it has at most 511 bytes and 32 words, and no word after the first is empty or, before the 32nd, begins with a colon |
| Words.ArgBehind | src/utility.cpp:245-283 | a word behind a heading comes back as it is, cut off by the buffer, or with the spaces of empty words after it |
| Words.ArgsAgree | src/utility.cpp:245-283 | the tokenizer looks at the first 512 characters only |
| ISupport.IsNickMode | src/IRCConnection.cpp:1116-1128 | whether the mode stands before the closing parenthesis |
| ISupport.PrefixForChanMode | src/IRCConnection.cpp:1137-1159 | the symbol at the mode's place, or NUL |
| ISupport.GetHighestUserFlag | src/IRCConnection.cpp:1604-1627 | the first symbol that is among the flags |
| ISupport.HighestIsBest | src/IRCConnection.cpp:1616-1624 | no known flag ranks before it |
| ISupport.PrefixMeans | src/IRCConnection.cpp:1116-1159 | in a well-formed PREFIX the nick modes are those in the parentheses, each with the symbol at its place |
| ISupport.RequiresParameter | src/IRCConnection.cpp:1049-1067 | the class the scan of CHANMODES finds |
| ISupport.ClassMeans | src/IRCConnection.cpp:1049-1067 | with four lists: 3, 2, 1 or 0 by the first list that names the mode |
| Nicks.SortPrefixes | src/Nick.cpp:145-170 | in place: a permutation in the server's order, whatever characters were there |
| Nicks.Nick.HasPrefix | src/Nick.cpp:132-138 | strchr, with its answer for NUL |
| Nicks.Nick.AddPrefix | src/Nick.cpp:179-200 | unchanged if present, else one more character and in order |
| Nicks.Nick.RemovePrefix | src/Nick.cpp:209-237 | the string without that character |
| Nicks.OrderedIsShown | src/Nick.cpp:145-170 | order and content leave one string only: the symbols of the modes held, in the server's order |
| Nicks.AddedIsShown | src/Nick.cpp:179-200 | adding a symbol in order gives the prefixes of the modes held and this one |
| Nicks.WithoutIsShown | src/Nick.cpp:209-237 | removing a symbol gives the prefixes of the other modes held |
| Nicks.ShownHas | src/Nick.cpp:145-237 | the prefixes are exactly the symbols of the modes held |
| Nicks.ShownMeans | src/Nick.cpp:145-170 | they are free of repeats, in the server's order, and begin with what GetHighestUserFlag finds |
| Nicks.Nick.ChangeModes | src/Channel.cpp:184-197 | over every run of mode changes the prefixes are those of the modes held at its end |
| ChannelNicks.ModeLine | src/Channel.cpp:163-281 | after a mode line every nick of the channel shows the modes it held with the changes the line makes to it, names compared without case |
| ChannelNicks.LowerMeans | src/Hashtable.h:288-288 | two names are one nick if they differ at most in the case of letters |
| Channels.Channel.ParseModeChange | src/Channel.cpp:163-281 | the slots and the calls on nicks are those of the parser function, for every mode string and argument list |
| ChannelLaw.LineMeans | src/Channel.cpp:163-281 | for every list of changes, each with a parameter exactly if its class and sign take one, and however the signs are written: the parser does these changes with these parameters, and makes these calls on nicks, in order |
| ChannelLaw.ModeLineMeans | src/Channel.cpp:163-281 | from the start of a mode line |
| Channels.Channel.Reload | src/IRCConnection.cpp:564-570 | a 324 reply parses into an empty channel |
| Channels.Channel.GetChannelModes | src/Channel.cpp:95-151 | the text in the growing buffer, with what strmcat cuts off |
| ChannelModes.PutView | src/Channel.cpp:246-267 | setting a mode in its slot or a new one is updating the map |
| ChannelModes.DropView | src/Channel.cpp:268-274 | clearing a slot is removing the mode from the map |
| ChannelModes.ParseRefines | src/Channel.cpp:163-281 | at most one slot per mode, and the whole run does to the map what the mode string says |
| ChannelModes.EnoughIsExact | src/Channel.cpp:263-267 | a mode has a parameter exactly when its class needs one, if parameters do not run out |
| ChannelModes.SetIsExact | src/Channel.cpp:263-267 | when nothing is taken away, exactly then |
| ChannelModes.StaysExact | src/Channel.cpp:163-281 | for every mode string: exactly when no mode is left that was last set after the parameters had run out |
| ChannelModes.ParameterCanBeMissing | src/Channel.cpp:263-267 | a mode set when parameters ran out is kept without one |
| ChannelText.AppendIsWhole | src/Channel.cpp:126-148 | nothing is cut off if and only if no piece ends where the buffer does |
| ChannelText.FittingIsRoomy | src/Channel.cpp:106-148 | texts that fit the buffer as first allocated are whole |
| ChannelText.AppendBegins | src/Channel.cpp:126-148 | what is cut off lies past the first 1023 characters |
| ChannelRoundTrip.LineReads | src/Channel.cpp:95-151 | the arguments of the 324 reply are those of the uncut text, whatever the printer cut off |
| ChannelRoundTrip.Replay | src/Channel.cpp:163-281 | reading printed letters fills new slots in order and hands the parameters out to the modes that ask for one |
| ChannelRoundTrip.FilledIsKept | src/Channel.cpp:163-281 | for every argument list no longer than the parameters printed: the slots end where they came from if and only if the arguments are the parameters and no mode that lacks its parameter stands before one that has it |
| ChannelRoundTrip.SpacesSpoil | src/Channel.cpp:163-281 | a modes word with spaces after it sets a mode that was not there |
| ChannelRoundTrip.CutSpoils | src/Channel.cpp:163-281 | a modes word cut short leaves a mode out |
| ChannelRoundTrip.ModesRoundTrip | src/Channel.cpp:95-281 | print, send as a 324 reply through the tokenizer, clear and parse: the modes that are no lists are restored if and only if no mode that lacks its parameter stands before one that has it and the words of the reply are readable and fit 511 bytes |
| ChannelRoundTrip.MisalignedChannel | src/Channel.cpp:163-281 | two mode lines after which one stands before |
| ChannelRoundTrip.UsualServer | src/IRCConnection.cpp:1049-1128 | with usual server values they are such lines |
| ChannelRoundTrip.ExactIsAligned | src/Channel.cpp:95-281 | none does whenever every mode has the parameter its class needs |
| ChannelRoundTrip.ParseKeepsWorded | src/Channel.cpp:163-281 | mode lines made of words leave words in the slots |
| Itype.ReplaceAllShortens | php/itype.php:228-231 | several shortening replacements in sequence change a string exactly when one of them finds something in it |
| Itype.EscapeOne | php/itype.php:56-59 | what the nine replacements in sequence make of each character: line breaks are escaped twice |
| Itype.StringBody | php/itype.php:67-209 | the parser undoes the escaping of a string, breaks excepted |
| Itype.ListElement | php/itype.php:67-209 | inside a list, what was printed for an element passes through as it stands |
| Itype.ParsePrinted | php/itype.php:67-209 | parsing consumes exactly the item printed, whatever follows, and finds its shape at every depth |
| Itype.StringSurvives | php/itype.php:228-231 | a string comes back if and only if it has no carriage return, line feed, or backslash before a bracket or backslash |
| Itype.RoundTrip | php/itype.php:45-234 | print, parse and flatten restores a nested list if and only if all strings in it are such |
| Itype.ItypeParse | php/itype.php:67-209 | the character loop computes the parser function |
| Itype.ItypeParseList | php/itype.php:187-203 | the inner loop computes the items of a list |
| ItypePeer.EscapedArrives | php/itype.php:77-168 | what an escaped character becomes: n and r are line breaks, every other is itself; a list keeps the backslash |
| ItypePeer.PeerItem | bnctcl/scripts/itype.tcl:177-245 | every item the Tcl side writes, strings of any characters and exceptions at any depth, parses to itself and uses up exactly its text |
| ItypePeer.FlatKeeps | php/itype.php:228-231 | flattening leaves a string alone if and only if it has no line break and no backslash before a bracket or backslash |
| ItypePeer.PeerRoundTrip | php/itype.php:67-234 | a value from the Tcl side comes out as it went in if and only if all its strings are such |
| ItypePeer.BreaksComeOut | php/itype.php:228-231 | a line break comes out as a backslash and a letter |

## Left out

- Sockets, polling, SSL, the DNS transport, files, logging, ident, the Tcl binding, module loading and command dispatch: input and output.
- Failing malloc, realloc and strdup, except in `Rehash`, where a bound on the bucket count stands for it and makes `Add` terminate.
- `CQueue::QueueItemNext`: its priorities tie with older items, so neither order nor front insertion holds of it.
- `CList::Remove(Type)` and `CList::Clear`: no part of the cursor protocol.
- Timers.Pool.Invoke: does not model callbacks that destroy their own timer or call `CallTimers` again; the list of replies of one pass is finite, so a callback that always adds a due timer is cut short; the lazy creation of `g_Timers` and the `ThisCall` and cookie arguments are left out.
- Timers.Pool.GetNextCall: promises nothing for the two shapes that are not sound; `Timers.Oversleep` shows each of them overslept.
- DnsQuery.MkQuery: header flags other than recursion desired are zero; a store past the buffer is reported, not carried out.
- Domain names are byte sequences; the NUL that ends the C string cannot occur in a name to encode, and one inside an expanded label is kept.
- FloodControl: `Clear`, `Enable` and `Disable`; the protocol is the one with control enabled.
- FloodProtocol.WindowHolds: the server is modelled as reading in order and answering 421 to unknown lines alone.
- Framing.Connection.Receive: lines are C strings, so bytes after a NUL are dropped with the line they are in.
- Rejoin.ArgRejoinArray: a walk that leaves the buffer and a store before it are reported, not carried out.
- Nicks.Nick.ChangeModes: requires a PREFIX with as many distinct modes as symbols; `SetPrefixes`, and the missing sort of a nick without a connection, are left out.
- Channels.Channel.ParseModeChange: calls to modules, the ban list and the keyring have no effect on modes; the calls on nicks it reports are carried out in `ChannelNicks.ModeLine`.
- Channels.Channel.GetChannelModes: the cached text is not modelled; the text is that of the slots at the time.
- ChannelRoundTrip.ModesRoundTrip: takes modes and parameters without spaces, which is what a tokenized line has but for its last argument.
- The built-in CHANMODES value with two commas, under which unlisted modes are of class 1: `ISupport.ClassMeans` takes four lists, `ISupport.RequiresParameter` any value.
- Itype: an exception item keeps its text; the split into code and message is left out.
- User mode strings, traffic counters, configuration and the address sorting of c-ares: easy or textbook.
