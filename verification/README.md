# graftcp: model and proofs

graftcp runs a program under ptrace, rewrites the destination of every TCP `connect` to a local proxy, and tells that
proxy, `graftcp-local`, over a FIFO where the connection was meant to go. The modules here model its code and prove
what the code is for.

**The hash table** (`uthash.h`). `Handles`, `Chains` and `UtHash` are the table as it is: items with a handle that is on
two doubly linked lists at once, a bucket array with counts and multipliers, in-place insertion, deletion, search and
doubling. The variable users call the head and the table record it leads to are one object, `HashTable`. Its ghost field
`order` is the list of items in insertion order and `chains` the list of chains; `Valid` says that both are threaded
without a cycle in both directions, that every item is on the chain of its bucket, that the counts are exact, that
`tail` is the last item, that every bucket has room under a cap, and that the ghost field `history`, the expansions
since the table was made, accounts for the number of buckets and for whether it may expand. Every operation starts and
ends in `Valid` and states the new `order`, for any hash function, with equal keys allowed as in the code. `ChainBound`
is the arithmetic behind the multipliers. `UtHashSort` is the in-place mergesort, proved against the sequence sort of
`MergeSort`; `UtHashWalk` has the integrity check, which is proved to complain about exactly the tables whose backward
links or counts are wrong, and the iteration that tolerates deletion; `Bloom` is the table with its filter compiled in.

**The tracer** (`main.c`, `util.c`). `Tracer` gives one turn of the loop as a function of the two tables, the stop and
the stopped process's registers and memory; `TracerLoop` is the loop with its handlers and tables that change, proved to
compute that function. `Kernel` is the environment, with what it is assumed to do: the system call stops of a process
alternate, a SIGTRAP without an event comes from a system call only, no group stop is taken for one, no pid comes back,
no `socket` returns a number that its process has open as a TCP socket or the magic number 7777777, and requests that
end the tracer end the run. Its set of open sockets keeps those that a process had open when it died. A run is any legal
list of stops, so any interleaving of processes. The key of a socket entry is a parameter. `Tracking` proves when the
socket table is exact, in terms of the lookups, and `Clashes` in terms of the calls that the processes make; `Keys`
looks at the two keys there are, `Lookups` tells from the calls which keys the table holds, `Announcing` proves what is
rewritten and announced, and `Redirects` which `connect` calls are redirected. The tables are sequences, oldest entry
first; which of several entries with one key a lookup shows depends on the bucket chain, so every stop carries a number
`pick` that chooses, and the theorems hold for all choices. `Memory` has the word-wise transfers, `Addresses` the socket
addresses that they read and write, and `StringSet` the black and white lists.

**The proxy's side** (`graftcp-local`). `Lines` has the line format, its printer and its parser; `Inode` the way from
the two addresses of a connection to an inode; `Pairing` the steps of FIFO, reader, store tasks, shared map and
connection handlers, where an announced address is text of one line that is not empty and a connection belongs to at
most one announced `connect`; `Discipline` what holds of their interleavings under a discipline of the processes, and
`Misdials` what can happen without it; `Tries` counts the tries of the handlers; `PidAddrMap` is the map itself and one
handler's search in it. `Text`, `Words`, `Seqs` and `Options` are the small vocabulary of the others.

## What is false of the code

- The design wants the key `(fd << 31) + pid` in 64 bits. The code shifts a 32-bit `int` at main.c:100, main.c:149 and
  main.c:182, and the table hashes and compares only `sizeof(int)` bytes of the key (util.c:21, util.c:33). With shifts
  that wrap around and little-endian bytes, what is left is the pid and the parity of the number
  (`Keys.WrittenKeyIsParity`). A process that opens TCP socket 3 and then a datagram socket 4 ends up with an entry for
  4 and none for 3 (`Keys.WrittenKeyLosesSocket`), so that its `connect` on 4 is redirected and the one on 3 is not
  (`Redirects.WrittenKeyRedirectsWrong`). The table follows the open TCP sockets exactly, whatever the bucket chains
  choose, if and only if no process closes a number while it holds another of that parity, closes one that it holds while
  an unfinished or failed call of its own left an entry of that parity, ends a `socket` while it holds an odd number, or
  ends one that made no TCP socket while such a call left an odd entry (`Redirects.WrittenKeyTracksIffParity`). In every
  run, clear or not, a `connect` is redirected if and only if the calls of its process leave an entry of its parity: a
  call for a socket of an odd inet type leaves an odd one, its end turns an odd one into one of the parity of its result,
  and a `close` takes one of the parity of its number away. So a `connect` is redirected rightly exactly when its number
  is an open TCP socket if and only if such an entry is left (`Redirects.WrittenRedirectsRightlyIff`, and
  `Redirects.RedirectsRightlyIff` for every key); as long as the calls are clear that is when its number is an open TCP
  socket or nothing else of the process has its parity (`Redirects.ClearRedirectsRightlyIff`). For both keys every rewrite is announced and belongs to a `connect` of a process that
  asked for a socket of an inet domain with an odd type (`Announcing.RewritesAreConnects`); that its number is such a
  socket's holds under these conditions only.
- The test at main.c:87 takes every odd type for SOCK_STREAM: raw sockets, of type 3, and sequenced ones, of type 5, are
  tracked too. It agrees with being a TCP socket except for those (`Kernel.NotedIffTcp`), and with the key that the design
  wants tracking is exact if and only if nobody makes one (`Tracking.ExactTracking`).
- Entries of dead processes stay: the table shows the open TCP sockets of the processes that live, and of all of them if
  and only if none died with one open (`Tracking.QuietTableIsExact`).
- `putdata` rounds up to whole words (util.c:187-191): a transfer stays within its length if and only if that is a
  multiple of 8 (`Memory.ExactIffWholeWords`). A `sockaddr_in` does, a `sockaddr_in6` of 28 bytes overwrites the four
  bytes after it (`Memory.AddressOfSixSpills`).
- The substring tests of `getInode` are equalities within one family only (`Inode.ContainsIsEquality`,
  `Inode.ContainsAcrossFamilies`); for text that is no address they compare ports only (`Inode.UnparsedMatchesPort`).
- A connection is dialed to its own destination when its process announces only after its last announcement was claimed
  and deleted, and no other announcing process holds its inode while its handler looks (`Discipline.DialsOwnDestination`);
  who holds it before or afterwards is of no account. That discipline is exact: a step keeps to it if and only if,
  however the run goes on within it, every connection is dialed to its own destination (`Misdials.DisciplineIffOwnDials`).
  Whenever a process announces too early, a connection of it can be dialed to an announcement of another connection
  (`Misdials.TooEarlyMisdials`), and whenever an inode comes to have another announcing process as its holder while
  the handler of its connection looks, the connection can be dialed to a destination of that process
  (`Misdials.SecondHolderMisdials`), as with two threads of one program (`Misdials.SharedInodeMisdials`).
- The comments at proc_sync_map.go:9-10 and proc_mutex_map.go:17-18 in `graftcp-local` show the map keyed by address;
  the code, and the model with it, keys it by process.

`splitAddrIPv6` would slice out of range for an address such as `[]:]` (`Lines.SplitSixOutOfRange`), but it is given
addresses that end in a port only, for which it does not.

## Model

| member | source | states |
|---|---|---|
| Words.MaskIsMod | uthash.h:207-210 | masking a hash value with a power of two less one is its remainder |
| Words.ToBktIsMod | uthash.h:207-210 | the bucket of an item is the remainder of its hash value by the number of buckets |
| Words.ToBktSplits | uthash.h:700 | doubling the buckets sends bucket b to b or b plus the old number of buckets, and nowhere else |
| Words.ShiftAndMaskIsCeiling | uthash.h:691-693 | the shift and the mask compute the quotient rounded up |
| Words.CeilingIsLeast | uthash.h:664-677 | the rounded-up quotient is the least number of parcels that hold all items |
| ChainBound.CapsBoundItems | uthash.h:632-635 | under the caps no table holds more than 19 items a bucket and no chain more than ten times one more than its multiplier |
| ChainBound.OneMore | uthash.h:625-636 | an addition below the threshold keeps the caps, and at the threshold the table holds at most one item more than 19 a bucket |
| ChainBound.IdealInRange | uthash.h:691-693 | the ideal chain length of an expansion that such an addition triggers is between 1 and 10, so the division by it is defined |
| ChainBound.CapCost | uthash.h:702-706 | the cap that a bucket gets from its new multiplier costs at most 9 ideal lengths and ten times its count |
| ChainBound.ExpandRestoresCaps | uthash.h:680-726 | the multipliers that an expansion leaves admit caps of at most 19 a bucket again |
| Handles.PushLinked | uthash.h:628-631 | putting an item before the head of a doubly linked list gives the list with that item in front |
| Handles.AppendLinked | uthash.h:193-195 | hanging an item behind the tail gives the list with that item at the end |
| Handles.RemoveLinked | uthash.h:241-251 | joining the neighbours of an item, wherever it is, gives the list without it, threaded both ways |
| Handles.LookupFinds | uthash.h:611-622 | a scan of a chain stops at the first place with that key, no place before it having it, and at none only if no item of the chain has it |
| Handles.FrontFound | uthash.h:611-631 | an item that was put in front of its chain is what a search for its key finds |
| Chains.PushThreaded | uthash.h:625-631 | pushing an item on its chain keeps all chains threaded and counted |
| Chains.RemoveThreaded | uthash.h:639-649 | taking an item off its chain, at head, middle or tail, keeps all chains threaded and counted |
| Chains.MovedItems | uthash.h:697-713 | an old chain's items on a new chain are exactly those whose hash value belongs there, without repetition |
| Chains.MovedReversed | uthash.h:697-713 | the items that an old chain gives to a new one come out in the reverse order |
| Chains.MoveOne | uthash.h:699-711 | moving one item updates count, multiplier and the number of nonideal items to those of the longer chain |
| Chains.MoveChain | uthash.h:697-713 | walking an old chain while relinking it moves every item of it to the front of its new chain |
| Chains.Redistribute | uthash.h:694-714 | the nested loops turn the chains into those of twice as many buckets, with the multipliers and the number of nonideal items an expansion owes, and lose no item |
| Chains.DoubledMoves | uthash.h:695-714 | the items of old bucket b are exactly those of the new buckets b and b plus the old number |
| Chains.DoubledCovers | uthash.h:695-714 | after an expansion every item is on the chain of its new bucket |
| Chains.HoldsOneMore | uthash.h:625-631 | the buckets hold exactly the items they held and the new one |
| Chains.HoldsOneLess | uthash.h:639-649 | the buckets hold exactly the items they held without the deleted one |
| UtHash.HashTable.MakeTable | uthash.h:150-167 | a new table has 32 empty chains and room in all of them, may expand, and has all figures of an expansion at zero |
| UtHash.HashTable.Expand | uthash.h:680-726 | an expansion keeps the items, doubles the buckets, sets the ideal length to the rounded-up quotient, the multipliers to count by ideal length where that is exceeded, the nonideal items to the sum of the excesses, and inhibits further expansion after two ineffective ones |
| UtHash.HashTable.AddToBkt | uthash.h:625-636 | an expansion happens exactly when the count reaches ten times one more than the multiplier and expansion is not inhibited; it doubles the chains with the new item in front of its own, with ideal length between 1 and 10, multipliers, nonideal items and inhibition as owed; without one the item is put in front of its chain and none of these fields changes; all buckets have room afterwards |
| UtHash.HashTable.Enlist | uthash.h:182-200 | the new item is the last of the insertion-order list and counted, with the hash value of its key |
| UtHash.HashTable.Add | uthash.h:182-205 | an addition appends the item to the insertion order and keeps the table valid; the first one makes a table that may expand, any other one goes in front of the chain of its bucket or expands exactly as that count asks for; nothing else touches the expansion fields |
| UtHash.HashTable.Find | uthash.h:103-114 | a search returns an item with that key exactly when the table has one: the one at a place of its chain before which no item has the key |
| UtHash.HashTable.Unlist | uthash.h:236-251 | an item is taken off the insertion-order list, with head and tail moved on where they were that item |
| UtHash.HashTable.DelInBkt | uthash.h:639-649 | an item is taken off its chain and its bucket's count goes down |
| UtHash.HashTable.Delete | uthash.h:224-257 | a deletion takes exactly that item out of the insertion order and out of its chain, leaves the expansion fields alone and keeps the table valid; deleting the only item leaves no table |
| UtHash.RoomAfterExpand | uthash.h:680-726 | the expansion that one addition too many triggers leaves room in every bucket |
| UtHash.GrowthFigures | uthash.h:699-708 | the multiplier of a bucket is its count by the ideal length where the count exceeds that and 0 elsewhere, and the nonideal items are the sum of what the chains have beyond it |
| UtHash.GrewMore | uthash.h:719-724 | one more expansion keeps the account of all expansions since the table was made: their number, the figures of the last, and inhibition exactly after two ineffective ones in a row |
| UtHashWalk.InhibitedAfterTwo | uthash.h:680-726 | every table has 32 buckets doubled by each of its expansions, and is inhibited exactly when its last two expansions each left more than half of the items nonideal, as no two in a row before did |
| MergeSort.MergeSorted | uthash.h:759-803 | merging two sorted runs gives a sorted run |
| MergeSort.MergeStable | uthash.h:774-791 | merging keeps the order of equivalent elements, those of the left run first |
| MergeSort.PassSorts | uthash.h:747-805 | a pass over sorted runs of one width leaves sorted runs of twice the width |
| MergeSort.BottomUpContents | uthash.h:742-815 | the sort neither loses nor invents elements |
| MergeSort.SortsStably | uthash.h:742-815 | for every total preorder the result is sorted, a permutation, and keeps the order of equivalent elements |
| MergeSort.StableArrangementUnique | uthash.h:733-818 | there is only one sorted arrangement that keeps the order of equivalent elements |
| UtHashSort.EmitLeft | uthash.h:792-802 | appending the head of the left run to the new list keeps new list, left run and rest threaded |
| UtHashSort.EmitRight | uthash.h:792-802 | the same for the head of the right run |
| UtHashSort.CutRun | uthash.h:749-757 | the left run is counted out, to its width or to the end of the list |
| UtHashSort.MergeRun | uthash.h:758-803 | the loop appends exactly the merge of the two runs to the new list |
| UtHashSort.Pass | uthash.h:743-808 | a pass relinks the list into its merged runs and counts the merges |
| UtHashSort.SortList | uthash.h:739-815 | the passes relink the list into its bottom-up sort, both ways, with the right first and last item |
| UtHashSort.Sort | uthash.h:733-818 | the table's insertion order becomes its stable sorted permutation, threaded both ways from the minimum to the tail, and every bucket chain stays as it was |
| UtHashWalk.ChainsBounded | uthash.h:899-911 | while expansion is not inhibited a valid table holds at most 19 items a bucket and no chain outgrows its multiplier |
| UtHashWalk.Fsck | uthash.h:287-337 | the check complains about exactly the tables with a wrong backward link or a wrong count, in buckets or in the insertion-order list |
| UtHashWalk.AllRight | uthash.h:287-337 | that is: every backward link names the item before, every bucket counts its chain, and the table counts both the items on the chains and those on the list |
| UtHashWalk.ValidPasses | uthash.h:287-337 | every valid table, so every reachable one, passes the check |
| UtHashWalk.IterDelete | uthash.h:886-888 | the iteration visits every original item once and in order while the body deletes any of them, and leaves exactly the others in order |
| UtHashWalk.KeptIs | uthash.h:886-888 | the items left are those that the body did not delete, as often as they were there |
| Bloom.BitInRange | uthash.h:116-140 | every bit index lies within the filter's bytes |
| Bloom.BitSetKeeps | uthash.h:133-134 | setting a bit makes its own test succeed and leaves every other test as it is |
| Bloom.BloomTable.Add | uthash.h:202 | an addition leaves the filter without a false negative: it sets the bit of its hash value, the remainder by the number of bits, and no other; the first one starts from an empty filter |
| Bloom.BloomTable.Delete | uthash.h:224-257 | so does a deletion |
| Bloom.BloomTable.Find | uthash.h:103-114 | the search through the filter returns what the search without it returns |
| Bloom.BloomTable.Absent | uthash.h:109 | a clear bit means that no item has the key |
| Memory.WriteThenRead | util.c:144-192 | reading back what was written gives it where words are mapped and 0xFF elsewhere |
| Memory.RoundTrip | util.c:144-192 | where all words are mapped, reading back gives exactly the bytes written |
| Memory.OutsideUnchanged | util.c:169-192 | nothing outside the rounded-up words of the transfer changes |
| Memory.WrittenIs | util.c:169-192 | every byte of memory after a transfer: those of its words that are mapped get the bytes written, a last partial word is filled up from the word before it, and all others stay |
| Memory.ExactIffWholeWords | util.c:187-191 | a transfer touches nothing beyond its length if and only if that is a multiple of 8 |
| Memory.AddressOfSixSpills | util.c:187-191 | writing a 28-byte address overwrites the four bytes after it with bytes of the address |
| Memory.Tracee.GetData | util.c:144-167 | the word loop reads the bytes at the address |
| Memory.Tracee.PutData | util.c:169-192 | the word loop writes the bytes and, in a last partial word, what the word buffer still holds |
| Text.ValueOfDec | main.c:137 | the decimal form of a number reads back as that number |
| Text.DecIsOnly | main.c:137 | it is the only text of digits that does and has no leading zero |
| Text.DecLeads | main.c:137 | it has no leading zero |
| Lines.SplitLengths | graftcp-local/local.go:243-256 | the pieces of a line and its separators make up the line, so the parser's slice is in range |
| Lines.ParseShaped | graftcp-local/local.go:241-260 | of any line the last two pieces are port and process and all before them is the address, which is put into brackets if it has a colon |
| Lines.ParseNothing | graftcp-local/local.go:244-247 | a line with fewer than two separators is dropped |
| Lines.ReadLineIs | graftcp-local/local.go:236 | a line ends at its line feed or where the stream does, and a carriage return before the line feed is dropped |
| Lines.ParsePrinted | graftcp-local/local.go:241-260 | one printed line, IPv4 or IPv6, is parsed back to its process and its address in dialing form |
| Lines.UpdateProcessAddrInfo | graftcp-local/local.go:233-263 | the reader's loop starts the store tasks of the lines, in order |
| Lines.PrintedStreamParses | main.c:134-138 | any list of announcements, printed one after the other, is parsed back to exactly its store tasks |
| Lines.TaskDetermines | graftcp-local/local.go:248-261 | different announcements never ask for one and the same store task |
| Lines.SplitJoined | graftcp-local/util.go:98-122 | the address parsers recover address and port, each in its own family |
| Lines.SplitFourIs | graftcp-local/util.go:98-110 | the IPv4 parser wants exactly one separator and takes an empty address for 127.0.0.1 |
| Lines.SplitSixIs | graftcp-local/util.go:113-122 | the IPv6 parser refuses exactly what does not start with an opening bracket or has no closing one with a colon behind it; it cuts at the last closing bracket and drops the character after it |
| Lines.SplitSixOutOfRange | graftcp-local/util.go:113-122 | the IPv6 parser slices out of range exactly when the address starts with an opening bracket, has a closing one with a colon behind it, and ends in a closing one, as `[]:]` does; no address put together from a host and a port is one |
| Inode.ValueOfFixed | graftcp-local/util.go:57 | the hexadecimal digits of a number that fits read as that number |
| Inode.KernelHexReads | graftcp-local/util.go:21-26 | a word in the kernel's form is eight digits that read as its little-endian value |
| Inode.KernelHexByWord | graftcp-local/util.go:27-41 | a longer address is its words one by one |
| Inode.Ip2HexIsKernelHex | graftcp-local/util.go:14-42 | the form that the code builds is the kernel's: of four bytes one word, of sixteen bytes with the prefix of an IPv4 address the word of the last four, of any other sixteen bytes all four words |
| Inode.KernelHexInjective | graftcp-local/util.go:21-42 | two addresses of one family never share that form |
| Inode.HexPortOfDec | graftcp-local/util.go:52-58 | a port in range becomes four hexadecimal digits that read as it |
| Inode.AtoiIs | graftcp-local/util.go:53-56 | a port is read with an optional sign if it is digits that fit into 64 bits, and refused otherwise |
| Inode.HexPortOfNegative | graftcp-local/util.go:57 | a negative port keeps its sign before three digits |
| Inode.ContainsIsEquality | graftcp-local/util.go:148-149 | within one family the substring test is equality of address and port |
| Inode.ContainsAcrossFamilies | graftcp-local/util.go:148-149 | an IPv4 endpoint is found in an IPv6 row if and only if the last four bytes and the port agree |
| Inode.UnparsedMatchesPort | graftcp-local/util.go:44-50 | text that is no address leaves a test for the port alone |
| Inode.GetInode | graftcp-local/util.go:137-153 | the search returns the inode of the first row below the header that has ten fields and contains both endpoints, or nothing |
| Inode.FirstMatchIsFirstInode | graftcp-local/util.go:142-153 | over a well-formed table that is the first row with exactly the two endpoints |
| Inode.InodeOfConnection | graftcp-local/util.go:61-95 | the addresses of a connection, as text, lead to the inode of the first row with exactly these endpoints: for IPv4 addresses too, which are parsed to sixteen bytes with a prefix |
| Inode.InodeOrError | graftcp-local/util.go:61-95 | exactly when the search fails, when it panics, and when it answers |
| StringSet.ComputeHash | string-set.c:24-33 | the loop computes the hash of the string, wrapping around after every operation |
| StringSet.HashIsPolynomial | string-set.c:24-33 | the hash of n characters is 5381 times 33 to the n plus the sum of the characters, each times 33 to the number of those behind it, modulo 2^64; the bucket is its remainder by 509 |
| StringSet.HoldsMore | string-set.c:66-75 | a new member in front of its chain adds exactly its string |
| StringSet.HoldsLess | string-set.c:88-97 | leading a link past a member takes out exactly its string, wherever the member is in its chain |
| StringSet.StrSet.constructor | string-set.c:35-51 | a new set is empty |
| StringSet.StrSet.Search | string-set.c:61-65 | the walk finds the member with that string exactly when the set has it |
| StringSet.StrSet.IsMember | string-set.c:107-120 | membership is membership in the mathematical set |
| StringSet.StrSet.Put | string-set.c:53-78 | insertion adds the string, once |
| StringSet.StrSet.Remove | string-set.c:80-99 | removal takes the string out and returns it, or nothing if it was not there |
| StringSet.StrSet.Length | string-set.c:101-105 | the length is the cardinality of the set |
| StringSet.IsIgnore | main.c:67-78 | a destination is ignored exactly when it is black, or there is a white list and it is not on it |
| Addresses.InetRead | main.c:112-117 | a `sockaddr_in` in memory is read as the IPv4 destination and port it was built from |
| Addresses.Inet6Read | main.c:118-122 | a `sockaddr_in6` in memory is read as the IPv6 destination and port it was built from |
| TracerLoop.Tracing.FindProcInfo | util.c:49-55 | the lookup finds the entry of the pid or reports that there is none |
| TracerLoop.Tracing.FindSocketInfo | util.c:29-35 | the lookup finds the chosen entry with the key or reports that there is none |
| TracerLoop.Tracing.SocketPreHandle | main.c:80-95 | a call for a socket of an inet domain with an odd type leaves one provisional entry, any other call nothing |
| TracerLoop.Tracing.ConnectPreHandle | main.c:97-144 | a `connect` on a known socket to a destination that is not ignored has its address rewritten and its destination announced; any other one changes nothing |
| TracerLoop.Tracing.ClosePreHandle | main.c:146-163 | the entry found for the number is taken out |
| TracerLoop.Tracing.SocketExitingHandle | main.c:173-184 | the entry found under the provisional key gets the number and its key, as the newest entry |
| Tracer.DestinationIs | main.c:109-124 | the destination, byte by byte: family, port with its high byte first, address of the one or the other form |
| Tracer.ConnectIs | main.c:97-144 | what one `connect` changes, spelled out: only that of a socket with an entry to a destination of one of the two families that is not ignored is overwritten with the proxy of its family and announced |
| TracerLoop.Tracing.TraceSyscallEntering | main.c:225-244 | the entry stop records the number, runs the handler and marks the process |
| TracerLoop.Tracing.TraceSyscallExiting | main.c:246-272 | the exit stop runs the handler and unmarks the process, and ends the tracer where the result cannot be read |
| TracerLoop.Tracing.TakeStop | main.c:290-346 | one turn of the loop computes the new tables, the new memory and whether the process runs on |
| TracerLoop.Tracing.DoTrace | main.c:280-349 | the loop leaves the tables of the run over the stops it handled, all of them unless a request failed |
| Kernel.StepFollows | main.c:225-349 | one stop keeps the process table in step with the kernel |
| Kernel.TableFollowsKernel | main.c:225-349 | in every run every process has exactly one entry, whose flag is the kernel's in-call state |
| Kernel.ExitSeesEntry | main.c:225-272 | at every exit stop the recorded number is that of the process's last entry stop, the last system call stop it made |
| Tracer.StopKinds | main.c:305-335 | an event and SIGSTOP only resume the process, a signal whose information can be had is delivered, and any other stop counts as the entry or the exit of a system call |
| Kernel.StopOutcome | main.c:246-346 | after any run: the tracer ends with the errno of setting the options at the first stop of the first process, with that of reading the result of `socket` but with 0 where the process is gone, and with -1 where a process that is there can not be resumed; otherwise a stopped process runs on unless it is at the exit of `exit` or `exit_group`, and is given a signal exactly at the stop that announces it |
| Kernel.NotedIffTcp | main.c:86-91 | the tracer's test notes every TCP socket, and it agrees with being one except for the other odd types of an inet domain, such as the raw type 3 |
| Kernel.StopEffect | main.c:274-345 | in a run a stop does what the call that the kernel knows the process to be in asks for |
| Tracking.CloseExact | main.c:146-163 | a `close` leaves an exact table exact if and only if it finds no entry, one with the number it closes, or one of a `socket` that is under way or failed while the number it closes has no entry |
| Tracking.SocketExact | main.c:173-184 | the end of `socket` leaves an exact table exact if and only if it finds nothing and made no TCP socket, or finds an entry without a number and, if it succeeded, made a TCP socket |
| Tracking.StepExact | main.c:80-184 | from a table that shows the open TCP sockets exactly, a stop leads to such a table if and only if its lookup finds an entry that is meant, with any key that tells processes apart |
| Tracking.ExactIffFinds | main.c:80-184 | a run is exact after every stop if and only if all its lookups find entries that are meant |
| Tracking.StepPending | main.c:80-95 | a stop keeps the provisional entries those of the processes in a call for a socket that the tracer notes, one each |
| Tracking.ExactTracking | main.c:80-184 | with a key that tells sockets apart a run is exact after every stop if and only if no process makes a socket of another odd type than a TCP socket's; and the provisional entries are those of the processes in a call for a socket that the tracer notes, one each |
| Tracking.QuietTableIsExact | main.c:80-184 | in such a run, when no process is in the middle of a `close`, the entries with a number are exactly the open TCP sockets of the processes that live; and of all processes, if and only if none died with one open |
| Keys.WrittenKeyIsParity | main.c:182 | the key as computed and compared is the pid plus the parity of the number, and the provisional one is its case for the magic number |
| Keys.IntendedKeyInjective | main.c:93 | the 64-bit key tells sockets apart |
| Keys.WrittenKeyDetermines | main.c:100 | the key as written tells processes apart, and sockets of one process only by parity |
| Keys.IntendedKeyTracks | main.c:93 | with the 64-bit key a run is exact after every stop if and only if no process makes a socket of another odd type |
| Keys.WrittenKeyLosesSocket | main.c:173-184 | a concrete run in which the key as written loses an open TCP socket |
| Clashes.StepClear | main.c:146-184 | a call that is clear finds an entry that is meant, whichever the bucket chain shows, and leaves the entries without a number that the calls account for |
| Clashes.ClashLoses | main.c:146-184 | where a call is not clear some bucket chain shows its lookup an entry that is not meant |
| Clashes.ExactForAllPicks | main.c:80-184 | with any key that tells processes apart a run is exact after every stop, whatever the bucket chains choose, if and only if all its calls are clear: no `close` while the process holds another number of that key, or of a held number while a call left an entry without a number under that key; no end of a `socket` while the process holds a number of the provisional key, or of one that made no TCP socket while a call left an entry under it |
| Redirects.WrittenKeyTracksIffParity | main.c:149 | for the key as written that condition is about parities alone, the provisional key being odd |
| Redirects.InjectiveClear | main.c:93 | for a key that tells sockets apart calls are clear exactly when no process makes a socket of another odd type |
| Announcing.LogStep | main.c:97-144 | a stop rewrites memory and announces together or changes neither |
| Announcing.FifoIsRewrites | main.c:129-142 | the FIFO holds the destinations of the rewrites whose line could be written, in order |
| Announcing.EntriesOddInet | main.c:83-95 | every socket entry records an inet domain and an odd type |
| Announcing.EntriesAsked | main.c:80-95 | every socket entry belongs to a process that issued `socket` with an odd type and an inet domain |
| Announcing.RewritesAreConnects | main.c:97-144 | the rewrites are, one to one and in order, the redirected `connect` entries of the run: the destination was read before the rewrite and is not ignored, and the process had asked for a socket of an inet domain with an odd type before |
| Announcing.RewrittenNamesProxy | main.c:129-132 | where the words are mapped, the process then connects to the proxy, at the proxy's address of the family that it asked for |
| Lookups.TableKeys | main.c:80-184 | in every run, with any key and any choice of the bucket chains, the keys in the table, with their multiplicity, are those that the calls account for: a call for a socket of an inet domain with an odd type adds the provisional key, a `close` takes one of the key of its number away, and the end of a `socket` turns a provisional key, if there is one, into that of its result |
| Redirects.RedirectsIffKeyed | main.c:97-127 | so in every run a `connect` to a destination that is not left alone is redirected exactly when the calls so far leave the key of its number, and any other one is not redirected |
| Redirects.RedirectsRightlyIff | main.c:97-127 | in every run, with any key, a `connect` is redirected exactly when its own socket is an open TCP socket, if and only if the calls so far leave its key exactly when it is one |
| Redirects.WrittenRedirectsRightlyIff | main.c:97-127 | for the key as written both are about parities: the `connect` is redirected if and only if the calls so far leave the parity of its number, and rightly so if and only if they do exactly when that number is an open TCP socket |
| Redirects.KeyedIffShown | main.c:97-127 | with any key that tells processes apart, in a run whose calls are clear, a key is left exactly when an open TCP socket of the process, or a call that left an entry without a number, has it |
| Redirects.RedirectsIffShown | main.c:97-127 | so in a run whose calls are clear, that is when such a `connect` is redirected; the statement for all runs is RedirectsIffKeyed |
| Redirects.ClearRedirectsRightlyIff | main.c:97-127 | in a run whose calls are clear it is redirected exactly when its own socket is an open TCP socket, if and only if that socket is one or nothing else of the process has its key; the statement for all runs is RedirectsRightlyIff |
| Redirects.RedirectsExactly | main.c:97-127 | with a key that tells sockets apart, and no socket of another odd type, a `connect` is redirected exactly when its socket is an open TCP socket of the process, or its number is the negative result of a failed call |
| Redirects.WrittenKeyRedirectsWrong | main.c:100 | with the key as written, after TCP socket 3 and datagram socket 4, a `connect` on 4 is redirected and one on 3 is not |
| Announcing.FifoParses | main.c:134-142 | whatever was written in a run, the reader starts exactly the store tasks of the delivered rewrites |
| PidAddrMap.PidAddr.LoadPidAddr | graftcp-local/proc_mutex_map.go:27-36 | a load returns the address of the last store for the process that no deletion followed, and nothing exactly when there is none in all calls so far |
| PidAddrMap.StandsAfter | graftcp-local/proc_mutex_map.go:19-43 | what stands for a process changes with a store or a deletion of that process only, and then to that store or to nothing |
| PidAddrMap.PidAddr.RangePidAddr | graftcp-local/proc_mutex_map.go:47-55 | the range visits entries at most once and stops early only at one the callback refuses |
| PidAddrMap.PidAddr.GetPidByAddr | graftcp-local/local.go:165-183 | with nothing else running, the first of three tries at which an entry's process holds the inode yields that entry and deletes it; none does only if there is none |
| Pairing.ParseTraced | graftcp-local/local.go:235-262 | the reader turns the first line in the FIFO into the store task of its announcement |
| Pairing.AlwaysTraced | graftcp-local/local.go:159-262 | over every interleaving everything in FIFO, store tasks, map and handlers traces back to an announcement, what a handler claimed was held by its process, and it tries at most three times |
| Tries.FailedIffTried | graftcp-local/local.go:159-184 | over every interleaving a handler has failed if and only if the inode of its connection was not found or it searched three times in vain; while it looks it is at the try that its retries make it |
| Tries.AfterRetries | graftcp-local/local.go:166-178 | a handler that finds nothing can search a second and a third time, and then has failed |
| Tries.OthersPassedOver | graftcp-local/local.go:166-173 | an entry of a process that does not hold the inode is passed over, and nothing changes by it |
| Tries.NoInodeFails | graftcp-local/local.go:160-164 | a connection whose inode can not be looked up fails before its first search |
| Tries.LateEntryDials | graftcp-local/local.go:166-205 | what is stored after one or two searches in vain, with its process holding the inode, can still be found, deleted and dialed |
| Pairing.DialedWasAnnounced | graftcp-local/local.go:191-205 | over every interleaving what is dialed was announced before by a process seen to hold the connection's inode |
| Discipline.StepPlaced | graftcp-local/local.go:159-262 | an announcement is in one place at a time and never comes back once it was deleted |
| Discipline.FinishedGone | graftcp-local/local.go:179-181 | an announcement that was claimed and deleted is nowhere on its way any more |
| Discipline.AlwaysOrderly | graftcp-local/local.go:159-262 | under the discipline, which asks of holders only while a handler looks, every announcement is on its way or finished, only the last ones of their processes are on their way, handlers claim nothing but their own, and what they claimed is still in the map |
| Discipline.DialsOwnDestination | graftcp-local/local.go:185-205 | under the discipline, over every interleaving, a connection that is dialed is dialed to the destination its own `connect` asked for; another holder of its inode counts only while its handler looks and the other one holds it |
| Misdials.TooEarlyMisdials | graftcp-local/proc_sync_map.go:11-13 | in every state reached within the discipline, an announcement made before the last one of its process was claimed and deleted can lead to its connection being dialed to an earlier announcement, even if all keep to the discipline afterwards |
| Misdials.SecondHolderMisdials | graftcp-local/local.go:165-183 | in every state reached within the discipline, a step that gives an inode another announcing process as holder while its handler looks can lead to the connection being dialed to a destination of that process, even if from there on no step does so again and all announce in turn; whether that process has its entry in the map, on its way, or has to announce again |
| Misdials.DisciplineIffOwnDials | graftcp-local/local.go:159-223 | a step keeps to the discipline, in both its halves, if and only if, however the run goes on within it, every connection that is dialed is dialed to what its own `connect` announced |
| Misdials.InTurnIffOwnDials | graftcp-local/local.go:159-223 | for an announcement that gives no inode a second holder: it comes in turn if and only if all that is dialed later, within the discipline, is dialed to what its own `connect` announced |
| Misdials.OtherHolderMisdials | graftcp-local/local.go:166-173 | in any run, disciplined or not, once a process whose entry is in the map comes to hold the inode of a connection whose handler looks, the connection can be dialed to just that entry; the exact condition is that of DisciplineIffOwnDials |
| Misdials.SharedInodeMisdials | graftcp-local/local.go:166-173 | a run in which every process announces once and in turn, and a connection is dialed to the destination of another process that comes to hold its inode |
| Misdials.OverwrittenMisdials | graftcp-local/proc_sync_map.go:11-13 | for any two announcements of one process, a run in which the first one's connection is dialed to the second one's destination |

## Left out

- HASH_SELECT: it does not advance the destination's tail and nothing calls it.
- HASH_REPLACE, HASH_CLEAR and the other convenience macros: compositions of the modelled operations.
- Hash functions and unaligned reads: the hash is an arbitrary function of the key; keys are values, so a key's pointer and length are not apart.
- Unsigned 32-bit overflow of item counts, bucket counts and run widths, allocation failure, and the freeing of memory: counts are unbounded and memory is not reused.
- The address arithmetic between a handle and its element, elements' other fields, and the emission of keys.
- The comparison function is a pure function of the items, and the tests for null of a run pointer that cannot be null are not repeated.
- Failed register requests other than the reading of a result, which the code asserts away; failed memory requests read as -1 and write nothing. Runs end where a request ends the tracer.
- TracerLoop.Tracing.FindSocketInfo: the tables are sequences and not instances of the modelled hash table; its search promises an item with the key, and the choice among several is left open, as the order of a chain depends on the expansions there were; what is redirected does not depend on it, nor do the failing runs of the key as written.
- The `conn_ti` times and the wait of `close_pre_handle`, which change no table, and the register write of `clone_pre_handle`, which keeps new processes traced.
- Tracking.ExactTracking: descriptors that a process gets by `fork`, `dup` or sharing a table with another thread, or loses other than by `close`, are outside the assumptions, as in the code, which watches `socket` and `close` by pid.
- Kernel.TableFollowsKernel: the entries of dead processes are never freed in the code, and a pid that comes back would inherit one; the kernel here does not reuse pids.
- Short writes to the FIFO and the 4096 bytes of the reader's buffer: a line is written and read whole or not at all.
- Which process holds which inode changes by any steps of the environment within the discipline, and reading /proc for one process is one step.
- The protocol argument of `socket`: a socket counts as a TCP socket by its domain and its type.
- Inode.GetInodeByAddrs: `net.ParseIP` and the text of /proc/net/tcp, split into fields, are parameters, as `inet_ntoa` and `inet_ntop` are for the tracer.
- Digits of a port beyond 64 bits, which the parser of the library refuses in ways not modelled beyond a failure.
- The data transfer between the two connections, the choice of the dialer, configuration, the HTTP proxy, service control, `main`, `init`, and the loading of the two address files.
- str_set_free: it only frees memory.
