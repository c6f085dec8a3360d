# Verified models of gyeeta's common library

This project models the parts of gyeeta's `common/` library in which cursors, aliasing, carries, framing and
normalisation make the code easy to get wrong, and proves what that code is for. Each module is one component.
Loops are `method`s with invariants, objects that change in place are classes, and every such method is proved
against a specification function or predicate about which the laws are then proved as lemmas.

| module | component |
|---|---|
| `ScatterWrite` | vectored writes that survive partial transfers, interrupts and EAGAIN, and the connection that resumes them |
| `HashTable` | the chained hash table whose bucket heads live inside the array |
| `SlotList` | the growable slot array with its stack of free indices |
| `Framing`, `FrameBuilder` | message headers, the validators that walk and terminate variable-sized elements, and the builders |
| `ConnList` | the per-host connection list with its cache of the last connection of each client type |
| `DnsResponse`, `DnsRoundTrip` | the DNS response parser, and encoded responses read back by it |
| `FilterGroups` | filters normalised to an OR of AND groups of interned criteria |
| `CgroupTree` | the cgroup directory table with parent and top-parent links |
| `Base64` | the encoder and decoder with line wrapping |
| `Calendar` | moving a broken-down time to another UTC offset |
| `AtomicOper` | the compare-and-swap retry loop under any interleaving |
| `FlushBuffer` | the append that flushes through a callback when the buffer is full |
| `Bytes`, `Options` | bytes and where they stand in a buffer, and missing results, shared by the others |

How the environment appears:

- A system call answers from a script of outcomes that the caller of the model chooses freely: so many bytes,
  interrupted, try later, or failed. An exhausted script fails. Statements hold for every script.
- Memory that writes go through is one byte array, and an I/O vector is a base and a length in it.
- Allocation answers are parameters, overflow callbacks are arbitrary functions of the call number, and connections
  expire at arbitrary moments between any two checks.
- Threads are a state machine whose steps interleave freely.
- Widths matter where the code depends on them: 32-bit header arithmetic, 16-bit name offsets, 64-bit counters,
  8-bit shifts of the decoder and C's truncating division are written out.

Where the code and its comments disagree the code is followed. In `walk_conn_list` the verdict documented to delete and
stop does not stop the walk. `clear_closed_conns_locked` drops at most one connection a call.

Seven properties hold only under a condition; the exact condition is proved, with an input or a family of inputs on which
the property fails:

| property | exact condition | failing input |
|---|---|---|
| keeping the base of a partially written buffer preserves the pending bytes | `ScatterWrite.ShiftConservesIff` | `ScatterWrite.ClobberedByShift` |
| an operation on a hash table does what it is meant to do | `HashTable.LosesIff` | `HashTable.MinusOneLost` |
| a returned slot leaves the slot list in order | `SlotList.DataList.DeleteElement` | `SlotList.PushTwice` |
| the verdict that asks to delete and stop stops the walk | `ConnList.DeleteBreakStopsIff` | `ConnList.DeleteBreakGoesOn` |
| a header the sender is told is built is accepted by the receiver | `Framing.HeaderAcceptedIff` | `Framing.WrappedSize` |
| a well-formed DNS response is parsed with success | `DnsRoundTrip.RoundTrip` | `DnsRoundTrip.RefusedResponse` |
| a date-time moved to another offset is valid and the same instant | `Calendar.ShiftedSameInstant` | `Calendar.TwentySixHoursFails` |

## Model

| member | source | states |
|---|---|---|
| `ScatterWrite.Writev` | common/gy_common_inc.h:6038-6141 | For every script of system-call outcomes the bytes put on the wire are a prefix of the gathered message as long as the result says; when the call defers, the pending count is the rest and the vectors handed back gather to exactly the bytes not yet sent, with kept bases unmoved; when it completes nothing pending is reported; too many vectors are refused with nothing sent. Where kept buffers break the condition of `ShiftConservesIff` the same holds with another text of the message's length in its place. Whether a call completes, defers or fails, and after how many bytes, is what the script decides (`FateOf`) |
| `ScatterWrite.WritevLoop` | common/gy_common_inc.h:6068-6138 | The send loop: whatever stops it, sent bytes and remaining vectors make up the message; it stops with the outcome and after the bytes that the script decides |
| `ScatterWrite.FateIs` | common/gy_common_inc.h:6068-6138 | A call that goes on after short writes completes exactly when the script takes enough bytes before an answer stops it; otherwise all of those are sent, and it defers exactly when it can and that answer is to try later |
| `ScatterWrite.FateCapacity` | common/gy_common_inc.h:6068-6138 | Deferring loses nothing of what the script can take, and a call that can defer fails only when the script has taken all it can |
| `ScatterWrite.SkipWritten` | common/gy_common_inc.h:6078-6080 | The cursor loop never passes the last vector, and skipping the written bytes from the old cursor is skipping the rest of them from the new one |
| `ScatterWrite.Advance` | common/gy_common_inc.h:6078-6113 | After a partial write the vectors from the cursor on still denote exactly the unsent part |
| `ScatterWrite.AdvanceStep` | common/gy_common_inc.h:6078-6113 | One partial write: the bytes sent so far stay, and the rest is conserved whenever the kept buffers spare the later ones |
| `ScatterWrite.MoveDown` | common/gy_common_inc.h:6092-6095 | The overlapping move leaves memory with the unwritten rest at the base and every other byte in place |
| `ScatterWrite.ShiftConservesIff` | common/gy_common_inc.h:6089-6099 | Keeping a base in place preserves the pending bytes for all memory contents and partial writes if and only if the buffer's bytes but the last are disjoint from every later buffer |
| `ScatterWrite.ClobberedByShift` | common/gy_common_inc.h:6092-6095 | For every overlap outside that condition there is a memory whose pending bytes are corrupted |
| `ScatterWrite.AdvanceConserves` | common/gy_common_inc.h:6087-6113 | Shortening the vector at the cursor, with or without moving its bytes, keeps the unsent part |
| `ScatterWrite.IovecBytes` | common/gy_common_inc.h:6057-6059 | The length loop gives the length of the gathered message |
| `ScatterWrite.HandBack` | common/gy_common_inc.h:6124-6132 | The vectors before the cursor come back empty and the others unchanged |
| `ScatterWrite.LeftDenotes` | common/gy_common_inc.h:6124-6132 | Those vectors gather to exactly the unsent part of the message |
| `ScatterWrite.Pwritev` | common/gy_common_inc.h:6151-6230 | For every script, byte i of the message is stored at offset plus i for a prefix of the message and no other file byte changes; a deferred call hands back the rest, its size and its offset; a completed or failed call leaves what is handed back untouched; the script decides which, and after how many bytes |
| `ScatterWrite.PwritevLoop` | common/gy_common_inc.h:6181-6227 | The loop keeps the file offset in step with the bytes stored, and stops with the outcome and after the bytes that the script decides |
| `ScatterWrite.FileWriter.Resume` | common/gy_common_inc.h:6151-6230 | Over any number of calls resumed from the pending vectors and offset, byte i of the message is stored at the first offset plus i for all bytes sent so far and no other file byte changes; at the end the whole message is stored; a call fails exactly when the script makes it fail |
| `ScatterWrite.FileWriter.Finish` | common/gy_common_inc.h:6151-6230 | Resumed to the end, the whole message is stored exactly when the script takes that many bytes before it fails, however often it asks to try later, and otherwise just the bytes it takes |
| `ScatterWrite.ResumeStep` | common/gy_common_inc.h:6206-6222 | One resumed call continues the write where the last one stopped |
| `ScatterWrite.OverlayAt` | common/gy_common_inc.h:6151-6230 | Writing at an offset changes exactly the bytes there |
| `ScatterWrite.OverlayCompose` | common/gy_common_inc.h:6181-6227 | Consecutive partial writes at advancing offsets are one write |
| `ScatterWrite.Sender.SendDataIovec` | common/gy_epoll_conntrack.h:1188-1237 | Over any number of resumed calls, whether or not a short write stops the call, the bytes on the wire followed by the scheduled ones are the message; blocked exactly when bytes remain; closed exactly on failure, with a prefix sent; the script decides which |
| `ScatterWrite.Sender.Finish` | common/gy_epoll_conntrack.h:1188-1237 | Served to the end, the whole message gets out exactly when the script takes that many bytes before it fails, and otherwise the connection is closed with just those bytes sent |
| `ScatterWrite.RestPending` | common/gy_epoll_conntrack.h:1213-1222 | Rescheduling what a deferred call handed back conserves the message |
| `HashTable.RunRefinesBag` | common/gy_datalist_proto.cc:245-450 | Every sequence of add, update, remove and clear is a history of the multiset machine in which an operation touches at most one binding of its key, and search stays exact throughout |
| `HashTable.RunIsMap` | common/gy_datalist_proto.cc:245-450 | When keys are added only while unbound, the table is the map the same operations build |
| `HashTable.AddedAllFinds` | common/gy_datalist_proto.cc:324-376 | Which of several bindings of one key a search finds: a head with the key stays the one found; behind another head it is the one added last; in a bucket that was empty, the one added first |
| `HashTable.PerformAllIsRun` | common/gy_datalist_proto.cc:245-450 | Over any number of operations without negative values, what the array does is what the operations are meant to do |
| `HashTable.PerformedIsApply` | common/gy_datalist_proto.cc:245-450 | So it is for each operation |
| `HashTable.LosesIff` | common/gy_datalist_proto.cc:245-450 | For any values an operation does to the array what it is meant to do, and keeps every binding it should, if and only if it is not one of these calls, told from the table before it: -1 added to an empty bucket, -1 assigned to a head, a head removed in front of -1, or a clear with a negative head |
| `HashTable.Hashtbl.TableShown` | common/gy_datalist_proto.cc:245-450 | The table a linked structure stands for always meets what `LosesIff` asks for |
| `HashTable.RunWithoutLoss` | common/gy_datalist_proto.cc:245-450 | A run without such a call is what it is meant to be, whatever the values |
| `HashTable.SettledKeepsIff` | common/gy_datalist_proto.cc:324-450 | The bindings survive a change of a bucket exactly when it does not leave the value -1 at the head |
| `HashTable.MinusOneLost` | common/gy_datalist_proto.cc:324-352 | The value -1 added to an empty bucket leaves no trace |
| `HashTable.FindIffBound` | common/gy_datalist_proto.cc:354-376 | Looking only at the key's own bucket finds a binding exactly when the table has one |
| `HashTable.MapLookup` | common/gy_datalist_proto.cc:354-376 | In a table that is a map, search gives the map's value |
| `HashTable.AddedContents` | common/gy_datalist_proto.cc:324-352 | Adding adds one binding and keeps the hashing invariant |
| `HashTable.UpdatedContents` | common/gy_datalist_proto.cc:383-405 | Updating replaces exactly the binding a search finds, or nothing |
| `HashTable.RemovedContents` | common/gy_datalist_proto.cc:407-450 | Removing deletes exactly the binding a search finds, or nothing |
| `HashTable.FlatContents` | common/gy_datalist_proto.cc:452-486 | The bindings in table order are the table's bindings, each as often as it is there |
| `HashTable.ChainAdd` | common/gy_datalist_proto.cc:324-352 | In place, for any value: a new binding becomes the head's contents if the bucket shows as empty and a node behind the head otherwise |
| `HashTable.ChainAssign` | common/gy_datalist_proto.cc:383-405 | In place, for any value: the node found gets it; the value -1 at the head makes the bucket show as empty |
| `HashTable.ChainRemoveHead` | common/gy_datalist_proto.cc:420-436 | In place: an in-array head takes over its successor's contents, which removes exactly the first binding |
| `HashTable.ChainUnlink` | common/gy_datalist_proto.cc:437-442 | In place: a node behind the head is linked out and the rest of the chain stays |
| `HashTable.Hashtbl.Search` | common/gy_datalist_proto.cc:354-376 | Found exactly when the key is bound, with the value of its first binding |
| `HashTable.Hashtbl.Add` | common/gy_datalist_proto.cc:324-352 | For every value, negative ones included, the linked structure stays well formed and stands for the table with the binding added, except that a head with the value -1 counts as an empty bucket |
| `HashTable.Hashtbl.Update` | common/gy_datalist_proto.cc:383-405 | The same for update; the result says whether the key was bound |
| `HashTable.Hashtbl.Remove` | common/gy_datalist_proto.cc:407-450 | The same for remove, in both the head and the chain case |
| `HashTable.Hashtbl.Clear` | common/gy_datalist_proto.cc:245-270 | Every bucket becomes empty, except those whose head has a negative value, which are passed over |
| `HashTable.Hashtbl.Iterate` | common/gy_datalist_proto.cc:452-486 | Without removal, iteration shows every binding of the buckets whose head is not negative exactly once in table order, or stops right at the first one the callback refuses |
| `SlotList.DataList.Init` | common/gy_datalist_proto.cc:18-75 | Succeeds exactly on acceptable sizes and memory, and then every slot is free; a growth step that is not negative gives a list in order |
| `SlotList.DataList.PushNew` | common/gy_datalist_proto.cc:70-73 | The new indices always fit the free array and go on top of it in order |
| `SlotList.DataList.ResizeList` | common/gy_datalist_proto.cc:196-214 | Growth is refused exactly past the maximum or without memory; otherwise slots in use keep their contents; without memory the storage is given up |
| `SlotList.DataList.AddElement` | common/gy_datalist_proto.cc:103-118 | Hands out a slot nobody holds, padded with zeros, leaving every other slot in use as it is; fails exactly for a dead or full list, a null buffer or an element too long |
| `SlotList.DataList.DeleteElement` | common/gy_datalist_proto.cc:137-167 | Puts the given index on the free stack, growing it when full; the list stays in order exactly when the slot was not free already; an index outside the list changes nothing; the slot is zeroed exactly when asked for, and no other slot changes |
| `SlotList.PushTwice` | common/gy_datalist_proto.cc:137-167 | A slot returned twice is on the free stack twice, so that the list is out of order |
| `SlotList.DataList.ResetList` | common/gy_datalist_proto.cc:180-193 | Frees every slot, or refuses exactly when the list has outgrown the free array; every slot is zeroed |
| `SlotList.NeverTwice` | common/gy_datalist_proto.cc:103-167 | Between two moments at which the same index is handed out it has been released or the list emptied |
| `SlotList.StillLive` | common/gy_datalist_proto.cc:103-167 | A slot that is not released keeps what was stored in it, as long as there is storage |
| `SlotList.Drive` | common/gy_datalist_proto.cc:103-193 | Any run of a list through stores, releases and resets, with any allocator answers: the list stays in order; a store is served exactly when the element fits and a slot is free or growth is allowed and memory there is, a release exactly unless the free array cannot grow, a reset exactly when the list has not outgrown the free array; the slots in use and the free ones are always all the slots; and the run is a history of the kind `NeverTwice` and `StillLive` speak of |
| `SlotList.RefusedOnlyWhenFull` | common/gy_datalist_proto.cc:103-118 | With memory to be had, an element that fits is refused only when every slot is in use and no more may be added |
| `SlotList.LiveSize` | common/gy_datalist_proto.cc:103-167 | The slots in use and the free ones are all the slots |
| `SlotList.PopLive` | common/gy_datalist_proto.cc:103-118 | Taking the top of the free stack keeps it distinct and exactly complementary to the slots in use |
| `SlotList.PushLive` | common/gy_datalist_proto.cc:137-167 | So does putting a slot in use on it |
| `SlotList.GrowLive` | common/gy_datalist_proto.cc:70-73 | So does growth |
| `Framing.ValidateElems` | common/gy_comm_proto.cc:619-664 | Accepts exactly when the stated number of elements tiles the message, and leaves the buffer with the strings of the elements passed terminated |
| `Framing.ValidateShrinking` | common/gy_comm_proto.cc:594-617 | The validator that shrinks a copy of the header accepts exactly the messages the remaining-length validator accepts and leaves the same buffer |
| `Framing.ValidateOne` | common/gy_comm_proto.cc:555-592 | One element is accepted exactly when it fits what the shrunken header still allows |
| `Framing.WalkTiles` | common/gy_comm_proto.cc:636-661 | Walked elements are 8-aligned, inside the message, and each ends where the next begins |
| `Framing.TermAllAt` | common/gy_comm_proto.cc:619-664 | Validation zeroes exactly the last bytes of the strings of the walked elements and nothing else |
| `Framing.WalkEndOwner` | common/gy_comm_proto.cc:688-729 | Every such byte lies in its own element, off its length fields and padding count |
| `Framing.RevalidateSame` | common/gy_comm_proto.cc:619-664 | A second validation takes the same steps and leaves the buffer unchanged |
| `Framing.Terminate` | common/gy_comm_proto.cc:650-656 | The terminator writes of one element, each length re-read from the changing buffer |
| `Framing.ListElemSize` | common/gy_comm_proto.cc:779-795 | On an accepted list the unguarded size walk stays inside the message and gives the validated total |
| `Framing.HeaderAcceptedIff` | common/gy_comm_proto.h:369-405 | Over all 32-bit sizes, exactly which requests give a header that the receiver accepts; its actual length is then the requested one |
| `Framing.AcceptedIsBuilt` | common/gy_comm_proto.cc:10-57 | For any header received under a magic that is not a node's: it is accepted if and only if a sender under that magic builds it for a message below 16 MB with room for the struct of its type |
| `Framing.AcceptedFromNode` | common/gy_comm_proto.cc:10-57 | Under a node's magic: accepted if and only if it is what a node builds for an aligned size, but for a padding of up to 7 bytes that leaves room for the struct of its type |
| `Framing.OneMagic` | common/gy_comm_proto.cc:10-17 | No header is accepted under two different magics |
| `Framing.RefusedHeader` | common/gy_comm_proto.h:369-398 | A header that the sender is refused stays as it was but for its magic, and no receiver accepts it |
| `Framing.WrappedSize` | common/gy_comm_proto.h:369-398 | The last seven 32-bit sizes are aligned to 0: the sender is told yes, and no receiver accepts |
| `Framing.AlignUp8` | common/gy_common_inc.h:567-572 | The smallest multiple of 8 that is not less |
| `FrameBuilder.MakeOk` | common/gy_comm_proto.h:1335-1348 | What an element constructor builds has counts that describe its parts and fewer than 8 bytes of padding |
| `FrameBuilder.AggrTaskLayout` | common/gy_comm_proto.h:1290-1310 | The field positions of an aggregated-task element meet what the framing theorems ask of a layout |
| `Framing.AggrTaskSize` | common/gy_comm_proto.h:1290-1357 | The lengths and the size of an aggregated-task element, from its bytes by number |
| `FrameBuilder.ReadsBuilt` | common/gy_comm_proto.h:1335-1357 | Stepping by the element sizes over elements laid out one after the other reads the same elements |
| `FrameBuilder.ValidatedReads` | common/gy_comm_proto.cc:619-664 | After validation the receiver reads the same elements with only their strings terminated, for any accepted message |
| `FrameBuilder.EventHeaderBuilt` | common/gy_comm_proto.h:369-405 | The header of an event message below 16 MB is accepted and gives back the unpadded size |
| `FrameBuilder.RoundTrip` | common/gy_comm_proto.cc:10-57 | Build, validate, walk is the identity: the header and the element validator accept, within the element limit, and the same elements are read |
| `FrameBuilder.BuildRoundTrip` | common/gy_comm_proto.cc:10-57 | The same from the fields and parts given to the element constructors to the elements the receiver reads |
| `ConnList.HostConnFlist.AddConn` | common/gy_host_conn_flist.h:80-100 | The new connection is first in the list and cached for its type, the rest of the list and the other cache entries stay; a full list first loses one closed connection, with the cache changed as the clean-up does, or refuses and changes nothing |
| `ConnList.HostConnFlist.DelConn` | common/gy_host_conn_flist.h:103-135 | Removes exactly the first connection with this pointer and empties exactly its own cache entry; without such a connection nothing changes |
| `ConnList.HostConnFlist.IsCliTypeAvail` | common/gy_host_conn_flist.h:137-159 | Available exactly when some listed connection of the type is live, for connections added with a pointer; the other cache entries stay; a yes leaves a live connection cached for the type, the one that was cached if it is live and else the first open one of the list, and a no changes nothing |
| `ConnList.HostConnFlist.LastIfAvail` | common/gy_host_conn_flist.h:137-195 | Over both calls: after a yes, with no check due and the connection found still live, the last connection of the type is just that one |
| `ConnList.HostConnFlist.GetLastConn` | common/gy_host_conn_flist.h:161-195 | The connection the cache entry of the type leads to if it is live, which is listed and of the type; a live cached connection is always returned; the list and the cache change by one clean-up at most, and not at all when the entry is live and no check is due; a closed entry and a due check each make for a clean-up, and a closed entry loses a connection |
| `ConnList.HostConnFlist.WalkConnList` | common/gy_host_conn_flist.h:202-243 | Visits in order, drops exactly the nodes the callback asks to drop, and empties exactly their cache entries |
| `ConnList.HostConnFlist.ClearClosed` | common/gy_host_conn_flist.h:281-332 | Drops the first closed connection it meets, at most one, and points its type at the most recently added one left |
| `ConnList.HostConnFlist.Clean` | common/gy_host_conn_flist.h:281-332 | The clean-up drops nothing exactly when the list stays as it is, and cache entries of open connections stay |
| `ConnList.HostConnFlist.Refill` | common/gy_host_conn_flist.h:313-328 | Empty cache entries get the most recently added node of their type |
| `ConnList.DeleteBreakGoesOn` | common/gy_host_conn_flist.h:220-236 | Two connections and a callback that asks to delete and stop: both are visited and dropped |
| `ConnList.DeleteBreakStopsIff` | common/gy_host_conn_flist.h:220-236 | The walk visits as many connections as the verdicts are documented to make it visit exactly when none asks to delete and stop before the last connection, and then keeps the ones it should |
| `DnsRoundTrip.RoundTrip` | common/gy_dns_mapping.cc:208-440 | Parsing an encoded single-question response records exactly the A and AAAA addresses of its first 16 answers in order, pointer-named ones under the dotted question name and label-named ones under their own, each up to its first zero byte; it succeeds if and only if 15 bytes follow the start of the last answer or there are more than 16 |
| `DnsRoundTrip.RoundTripNames` | common/gy_dns_mapping.cc:208-440 | For names without zero bytes each address is recorded under the whole dotted name of its owner |
| `DnsRoundTrip.Learn` | common/gy_dns_mapping.cc:208-497 | In the table: after such a response each of its addresses maps to the dotted name of its owner, the last one for that address, and all others keep their names |
| `DnsRoundTrip.OneAddress` | common/gy_dns_mapping.cc:208-440 | The bytes of a response with one address, one by one, and the entry it gives, for any name and address |
| `DnsRoundTrip.DataBytes` | common/gy_dns_mapping.cc:363-431 | The bytes of an answer after its owner, with the numbers of the three types |
| `DnsRoundTrip.ThreeLabels` | common/gy_dns_mapping.cc:262-283 | A name of three labels on the wire and dotted |
| `DnsRoundTrip.RefusedResponse` | common/gy_dns_mapping.cc:295-303 | A well-formed response with one short alias as its only answer is refused |
| `DnsRoundTrip.ReadsName` | common/gy_dns_mapping.cc:262-283 | A name of labels on the wire is read as the dotted name |
| `DnsRoundTrip.ReadsAnswer` | common/gy_dns_mapping.cc:295-431 | An encoded answer gives its address under its owner's name, and the position after it |
| `DnsRoundTrip.AnswersRead` | common/gy_dns_mapping.cc:295-432 | Every address of the answers is recorded even when the last answer is refused |
| `DnsResponse.DnsMapping.ParseDnsResponse` | common/gy_dns_mapping.cc:208-440 | For any byte string at all, the result and the table after it are what the grammar of responses says, entries recorded before a malformed answer included |
| `DnsResponse.RefusedUnread` | common/gy_dns_mapping.cc:208-250 | Messages under 32 bytes, queries, errors, messages with no question or more than 8, and those without answers are refused with nothing recorded |
| `DnsResponse.SixteenAnswers` | common/gy_dns_mapping.cc:208-250 | All others are read up to their sixteenth answer |
| `DnsResponse.DnsMapping.ParseAnswers` | common/gy_dns_mapping.cc:295-432 | The answer loop follows the grammar of answers and records each address as it is read |
| `DnsResponse.DnsMapping.AddDnsEntry` | common/gy_dns_mapping.cc:442-497 | The address gets the name up to its first zero byte, whether it was known or not, and no other address changes |
| `DnsResponse.CStringIs` | common/gy_dns_mapping.cc:442-480 | What is stored of a name: all that stands before its first zero byte, and the whole name if it has none |
| `DnsResponse.RecordLearns` | common/gy_dns_mapping.cc:442-497 | After any entries each address has the name of the last entry for it, and addresses without one have what they had |
| `DnsResponse.SameEntryV4` | common/gy_common_inc.h:10629-10636 | Two IPv4 addresses share an entry exactly when they are the same |
| `DnsResponse.SameEntryV4V6` | common/gy_common_inc.h:11040-11103 | An IPv4 and an IPv6 address share one exactly when the second carries the first as a 6to4, mapped or NAT64 address, or both are all zeros |
| `DnsResponse.SameEntryV6` | common/gy_common_inc.h:11040-11103 | Two IPv6 addresses share one exactly when they are the same or carry the same IPv4 address that is not zero |
| `DnsResponse.ParseAnswer` | common/gy_dns_mapping.cc:295-431 | One answer: what to record, if anything, and where the next one starts |
| `DnsResponse.ParseLabels` | common/gy_dns_mapping.cc:262-283 | The label loop fills the bounded buffer with the labels of the grammar |
| `DnsResponse.BufferIs` | common/gy_dns_mapping.cc:262-283 | What the bounded buffer holds is the first 255 bytes of the labels with a dot after each |
| `DnsResponse.ParseQuestions` | common/gy_dns_mapping.cc:253-290 | The question loop keeps every question's name and position |
| `DnsResponse.ParseOwner` | common/gy_dns_mapping.cc:304-361 | A pointer finds the question saved at its offset, or the only question there is |
| `DnsResponse.StopStays` | common/gy_dns_mapping.cc:295-432 | Nothing is recorded after a malformed answer |
| `FilterGroups.BoolParse.Parse` | common/gy_boolparse.cc:24-150 | For criteria in braces: succeeds exactly when no criterion is too short and either all have one hash or the groups, the criteria in all and the largest group are within their limits; then, for every truth assignment, some group has all its criteria true exactly when the filter seen through the interning is true, the single-criterion shortcut included; the counters are the sum and maximum of the group sizes, and with several groups one counter is the number of groups of several criteria and the other the number of those of one; too short a criterion and too many groups are the reason for failure exactly when they are |
| `FilterGroups.AcceptedIs` | common/gy_boolparse.cc:57-120 | The limits in numbers: 5 characters, 64 groups, 64 criteria in a group and 256 in all |
| `FilterGroups.BoolParse.ParseBare` | common/gy_boolparse.cc:195-229 | A text without braces is one criterion of any length, refused exactly when it joins several by a word AND or OR outside quotes |
| `FilterGroups.ScanBare` | common/gy_boolparse.cc:200-224 | The scanning loop finds such a word exactly when there is one where it looks |
| `FilterGroups.JoinsBareIff` | common/gy_boolparse.cc:200-224 | Without quotes it looks everywhere but at the first character and the last four |
| `FilterGroups.JoinAtIs` | common/gy_boolparse.cc:207-220 | The joining words letter by letter: AND or OR in any case, between blanks or tabs |
| `FilterGroups.BoolParse.ParseGroups` | common/gy_boolparse.cc:57-150 | Succeeds exactly when the number of groups, the criteria in all and the largest group are within their limits |
| `FilterGroups.BoolParse.StoreGroup` | common/gy_boolparse.cc:90-142 | One group is counted, as one of several criteria or as one of one, and stored, or refused exactly when it breaks a limit |
| `FilterGroups.BoolParse.GetGroupCriteria` | common/gy_boolparse.cc:388-415 | Gives back exactly the criteria of an existing group that fits |
| `FilterGroups.MeansExactly` | common/gy_boolparse.cc:279-287 | Without hash collisions between different criteria the groups mean the filter itself |
| `FilterGroups.DnfMeans` | common/gy_boolparse.cc:73-79 | Distribution into groups preserves meaning for every assignment |
| `FilterGroups.GroupsMean` | common/gy_boolparse.cc:73-142 | The stored groups of numbers, read back as texts, mean the filter |
| `FilterGroups.Intern` | common/gy_boolparse.cc:269-287 | Criteria are numbered in reading order, two of them share a number exactly when they share a hash, and a number stands for the first criterion with its hash |
| `FilterGroups.OneFirst` | common/gy_boolparse.cc:42-51 | There is only one number exactly when all criteria have the same hash |
| `FilterGroups.OneCriterion` | common/gy_boolparse.cc:42-51 | A filter without two different criteria means the one it has |
| `CgroupTree.Tree.GetCgFromDir` | common/gy_cgroup_stat.h:1005-1157 | For any path with creation, each component the reader finds has an object afterwards, every new object was made for one of them under the object of the component before, with the first one as its top, no object is replaced, and the last one is returned; on a normalised path these are exactly the missing directories of the path, every object is linked to its parent's object and its depth-1 ancestor's, and objects at depth 1 are marked as tops; without creation nothing changes; without hierarchy only the directory itself is added under the root |
| `CgroupTree.Tree.Walk` | common/gy_cgroup_stat.h:1076-1156 | The walk deals with every component the reader finds, and ends at the object of the last one |
| `CgroupTree.Tree.Descend` | common/gy_cgroup_stat.h:1110-1155 | One component: the object is found, or made with the links of the walk |
| `CgroupTree.AllAbove` | common/gy_cgroup_stat.h:1005-1157 | In a linked table every prefix of a directory in the table is in the table |
| `CgroupTree.WalkMore` | common/gy_cgroup_stat.h:1110-1155 | A component dealt with adds at most its own object and moves the walk on to the next component |
| `CgroupTree.ThreadLinked` | common/gy_cgroup_stat.h:1076-1156 | A walk along a normalised path keeps all links right and adds exactly the missing directories of the path |
| `CgroupTree.EndsAreCuts` | common/gy_common_inc.h:7907-7966 | On a normalised path the components the reader finds are the directories of the path, each once and in order |
| `CgroupTree.StrRdBuf.GetNextWord` | common/gy_common_inc.h:7907-7966 | The word after leading spaces up to the first slash without a backslash before it, and the position behind that slash |
| `CgroupTree.NormalWord` | common/gy_common_inc.h:7907-7966 | On a normalised path that word ends at the next slash and is not empty |
| `Base64.RoundTrip` | common/gy_base64.h:27-152 | Decoding the encoder's output gives back the source bytes, with and without line wrapping, in all padding cases |
| `Base64.Encode` | common/gy_base64.h:27-80 | Refuses exactly when the buffer is smaller than the size asked for, changing nothing; otherwise writes the encoding and its terminator inside the buffer and nothing behind them |
| `Base64.WriteAll` | common/gy_base64.h:45-79 | The loop over groups of three bytes, the last group and the line end write the encoding and its terminator |
| `Base64.Decode` | common/gy_base64.h:82-152 | Malformed and too-small inputs are reported exactly when they are; otherwise the decoded bytes are written and counted; bytes behind the decoded blocks stay, too small a buffer stays as it is, and malformed or empty input only gets a terminator |
| `Base64.BuildTable` | common/gy_base64.h:87-93 | The table has the value of every digit, 0 for the padding character and the invalid mark for every other character |
| `Base64.TablesInverse` | common/gy_base64.h:87-93 | That table and the encoding table are inverse |
| `Base64.Alphabet` | common/gy_base64.h:10-10 | The 64 digits, character by character |
| `Base64.QuadNumber` | common/gy_base64.h:45-49 | Four digits stand for the same 24-bit number as the three bytes |
| `Base64.TailNumber` | common/gy_base64.h:60-71 | So do the digits of the last one or two bytes, with the padding characters that belong there |
| `Base64.BlockNumber` | common/gy_base64.h:134-138 | Three decoded bytes are the number that their four characters stand for |
| `Base64.CountClean` | common/gy_base64.h:95-100 | The first loop counts the characters that matter |
| `Base64.DecodeLoop` | common/gy_base64.h:124-141 | The second loop decodes every block of the characters that matter |
| `Base64.CleanRest` | common/gy_base64.h:45-75 | Line ends do not matter to the decoder |
| `Base64.EndsLine` | common/gy_base64.h:73-75 | What is written ends with a line end, unless there is nothing to write |
| `Base64.EncodeLenTight` | common/gy_base64.h:12-25 | The size asked for is always enough, terminator included, and exactly the lengths for which it is used up |
| `Calendar.ShiftedSameInstant` | common/gy_common_inc.h:3535-3610 | For a valid date-time the result is valid and denotes the same instant if and only if the offsets differ by whole minutes and the time of day moves by at most one day |
| `Calendar.ShiftedValid` | common/gy_common_inc.h:3535-3610 | For a valid date-time the result is valid exactly when the time of day moves by at most one day |
| `Calendar.ShiftedInstant` | common/gy_common_inc.h:3535-3610 | The result denotes the same instant exactly when the offsets differ by whole minutes |
| `Calendar.UnderADayShiftable` | common/gy_common_inc.h:3535-3610 | Every whole-minute difference under 24 hours meets that condition |
| `Calendar.TwentySixHoursFails` | common/gy_common_inc.h:3535-3610 | Late on New Year's Day of any year a valid date-time is taken off the clock by a 26-hour difference |
| `Calendar.GetTmAtTzOffset` | common/gy_common_inc.h:3535-3610 | For any field values, the carries of minutes, hours, day, month and year, field by field, are a move by at most one calendar day |
| `Calendar.NextDayOk` | common/gy_common_inc.h:3580-3609 | The forward carry gives the next calendar day, with weekday and day of the year, across months, years and leap days |
| `Calendar.PrevDayOk` | common/gy_common_inc.h:3580-3609 | The backward carry gives the previous calendar day |
| `Calendar.MonthsMakeYear` | common/gy_common_inc.h:3516-3533 | The month table adds up to the length of the year |
| `Calendar.MonthTable` | common/gy_common_inc.h:3525-3532 | The month table, column by column |
| `Calendar.MonthStarts` | common/gy_common_inc.h:3525-3532 | The days before each month, as numbers |
| `Calendar.YearStarts` | common/gy_common_inc.h:3516-3519 | The days before any year in closed form, which fixes the leap-year rule |
| `Calendar.DayNumberIs` | common/gy_common_inc.h:3516-3533 | The day count that instants are measured by, in numbers, for any date |
| `Calendar.InstantIs` | common/gy_common_inc.h:3535-3610 | Hours, minutes, seconds, days and offsets move the instant by the seconds they stand for |
| `Calendar.WeekdayIs` | common/gy_common_inc.h:3562-3577 | Day 0 was a Thursday, and weekdays come round every seven days |
| `AtomicOper.Linearizable` | common/gy_common_inc.h:1080-1093 | After any interleaving the value is the operations applied in the order of their swaps, each call counts at most once, and each finished call returned the value just before its own update |
| `AtomicOper.StepLinear` | common/gy_common_inc.h:1080-1093 | Every step of every thread keeps that |
| `AtomicOper.CanFinish` | common/gy_common_inc.h:1080-1093 | After any interleaving a call that is not finished can finish in at most three steps of its own, taking effect on the value there is and returning it |
| `AtomicOper.NeverNegative` | common/gy_common_inc.h:1094-1108 | Checked decrements mixed with additions leave the counter at the fold of monus and plus over the calls in the order of their effects, never below zero nor above what has been added, while that stays in the signed range |
| `AtomicOper.OnlyAdded` | common/gy_common_inc.h:1094-1108 | Without decrements that fold is the start and all that has been added |
| `AtomicOper.SubCheckedIsMonus` | common/gy_common_inc.h:1094-1108 | The decrement takes off what it can and stops at zero |
| `FlushBuffer.StrWrBuf.AppendCb` | common/gy_common_inc.h:8607-8658 | For any answers of the callback: it is called with what the buffer holds exactly when the input does not fit behind that with room to spare, and then with an input that fills the buffer, flagged as cut off exactly when it is longer; the call succeeds exactly when every answer is yes; what has been accepted followed by the buffer is everything taken, in order; the input (the first part of one longer than the buffer) is taken unless the first offer is refused; the buffer stays terminated, and a call that succeeds never leaves it full |
| `FlushBuffer.StrWrBuf.AppendAll` | common/gy_common_inc.h:8607-8658 | A sequence of calls gets through exactly when every answer is yes, and has then taken every input in order; otherwise it stops at the refused one |
| `FlushBuffer.StreamAll` | common/gy_common_inc.h:8607-8658 | With a callback that always accepts, over any number of appends that fit the buffer nothing is lost, repeated or reordered and the buffer is never left full |
| `FlushBuffer.StrWrBuf.FlushAll` | common/gy_common_inc.h:8612-8634 | A flush offers the contents once and empties the buffer exactly when the callback says yes |

## Left out

- Sockets, netlink, eBPF, cloud metadata, ELF reading, e-mail and TLS wrappers, child processes: I/O and foreign calls with little logic of their own.
- Memory reclamation, RCU tables, mutexes and shared-pointer counts: tables are maps, lists are sequences, and locked sections are single calls.
- `validate_fields` methods, alert field checks and fixed-size `validate` methods: lists of independent comparisons.
- `TASK_MINI_ADD` with several events, whose stride includes the two headers, and `get_max_elem_size` limits that do not match their validators.
- `NEW_LISTENER` and its relatives are one symbolic layout of length fields, padding count and fixed strings; the clamping of an over-long command line in the constructor is not modelled.
- The refusals of filters over 8 KB (common/gy_boolparse.cc:28) and of expressions of numbers that overflow their 1024-byte buffer (common/gy_boolparse.cc:53): filters are trees, whose texts have no length here.
- The character scanner of filter texts with braces: a filter is the tree its text denotes. The normal-form library is modelled as textbook distribution, and the order of the numbers within a group is left open.
- Hash-table element counters, iteration that removes nodes, and replacing the hash function of a table in use.
- `DataList` with its default maximum, a second public `Init`, growth by a negative step, and overflow of index times element size.
- Time stamps of connects and disconnects in the connection list.
- DNS over TCP framing, expiry of DNS entries, and owner names that mix labels and a pointer in the round trip; reads past the end of a message, which only precede a refusal, see a zero byte.
- Overflow of 64-bit totals of vector lengths, and of the `int` line counter of the base64 encoder.
- `appendfmtcb`, small-string buffers, HTML decoding and counter differences, whose obvious laws the code does not meet: an exact fill behind earlier text is dropped, the inline and heap fields share storage while they are copied, `&amp;` is decoded before the other entities so that decoding does not undo encoding, and a wrapped difference is one short.
- ScatterWrite.Writev: where kept buffers overlap later ones against the condition of `ScatterWrite.ShiftConservesIff` it states how many bytes are sent and pending, and that those sent stay sent, but not which bytes are pending, because the move overwrites them.
- FilterGroups.BoolParse.ParseBare: takes the text as the constructor passes it on, trimmed and not empty.
