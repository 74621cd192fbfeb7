# Verified models of the network-programming labs and the UNP sources

This project models the algorithms and protocols at the heart of the repository in Dafny and proves
what they promise, for all inputs and all runs. Where a promise is not kept, the model follows the code,
a lemma gives an input that shows it, and another says exactly when the promise does hold.

`dafny verify dfyconfig.toml` checks everything.

| modules | what they model |
|---|---|
| `TransferText`, `TransferServer`, `TransferClient`, `TransferTables`, `TransferProtocol`, `TransferTheorems` | np-lab6: reliable transfer of files over UDP. Text format, the server's tables, the client's bookkeeping, and a transition system of both with a network that loses, duplicates, reorders and shortens datagrams. |
| `InetText`, `InetGrammar`, `InetRfc`, `InetPrinter`, `InetCanonical`, `InetCode` | unpv13e/libfree: inet_pton and inet_ntop for IPv4 and IPv6. The exact grammar accepted, the meaning of every accepted text, the grammar of the RFC beside it, the printer, the text it prints from the bytes alone, and the loops over arrays. |
| `WorkQueue` | serv08, pthread08: connections handed to worker threads through a ring with a mutex and a condition variable, one statement per step. |
| `SigioRing` | dgecho01: a ring filled by a signal handler and emptied by the main loop it interrupts. |
| `Prefork` | serv05, child05: descriptors passed to a pool of child processes. |
| `MazeMap`, `MazeRecord`, `RobotWalk`, `RobotSearch`, `RobotRun` | np-lab3/3-4.py: depth-first search with a robot that sees only a window of the maze, and the map that grows under it. |
| `MazeBfs` | np-lab3/3-3.py: breadth-first search. |
| `Queens` | np-lab7/solve.cpp: n queens with presets, in the integer widths of the source. |
| `CopySpec`, `CopyLoop` | strclinonb: the non-blocking copy loop with its two buffers. |
| `AddrInfoSpec`, `AddrInfoList` | ga_port, ga_clone, ga_serv: a linked list that grows while it is walked. |
| `InternetChecksum`, `UdpWrite` | in_cksum and udp_write. |
| `Rtt` | rtt.c and dg_send_recv: the round-trip estimators and a request with retransmission. |
| `ReadLine` | the buffered and the byte-at-a-time readline. |
| `ChatFilter` | filter_message of the chat server. |
| `SetFacts`, `SeqFacts`, `Numbers`, `Decimal`, `Wrappers`, `Unp` | facts, types and limits that the models share. |

Loops that update variables are methods with invariants, objects that change are classes, and each method
is proved against a specification function or a stated property; the theorems are about those functions.
Protocols are transition systems with one step per statement or per message, and their theorems hold in
every state of every run. Proofs by induction are written out: lemmas over structured values carry
`{:induction false}`, so nothing rests on the automatic induction hypothesis.

## Where code and promise differ

- np-lab6/client.cpp: the client is to exit when the server says "terminate", but it only listens after
  sending, and sends only what is not acknowledged. It can exit if and only if some fragment is still
  unacknowledged and the server expects no more files than there are (`ClientCanExitIff`), and every
  transfer can end up hanging (`EveryTransferCanHang`).
- inet_pton.c:131: texts outside the RFC are accepted, in exactly four ways (`AcceptsBeyondRfcIff`, with a
  text for each of them).
- inet_pton.c:134: a "::" in a full address is not ignored but wipes out what follows it
  (`GapInFullAddressIgnoredIff`, `GapLosesTheTail`).
- inet_ntop.c:101: the test forgets the terminator, so a text exactly as long as the size writes one byte
  too many (`InetNtop4`, `OneByteTooMany`).
- np-lab3/3-4.py:127: when no exit is reachable, the last dead end takes `q[-1]` of an empty list, unless
  the start has no open neighbour (`RobotRun.FindPath`, `WalledOffExample`).
- np-lab7/solve.cpp: presets are not compared with each other (`FoundIsValidIff`, `AttackingPresetsExample`).
- strclinonb.c:69-76: the return on end of file drops what is in either buffer (`ReturnIsCompleteIff`,
  `LostAnswerExample`, `UnsentInputExample`).
- dgecho01.c:86: the overflow exit can come with only seven datagrams unsent (`OverflowMeansFull`,
  `OverflowWithSevenExample`).
- dg_send_recv.c:86-88: an alarm between the last read and alarm(0) throws the reply away
  (`DiscardedReplyExample`).
- lib/readline.c:48 and server/readline.c:17-26: the value returned is one more than the number of bytes
  stored when the room ran out, in the second also at an end of file after data (`ValueIsCountIff`,
  `RoomRanOutExample`, `EndOfFileExample`).
- hw2_chat_server.cpp:83-87: text before a keyword that starts a word is dropped (`MasksInPlaceIff`,
  `DroppedTextExample`).

## Model

| member | source | states |
|---|---|---|
| TransferText.ParseMessage | np-lab6/server.cpp:63-74 | For every sendable packet, the server reads the text that client.cpp:142 builds back as the same six fields (round trip of the wire format). |
| TransferText.ParseShortened | np-lab6/server.cpp:63-74 | Whatever tail of the payload is cut off, the header still reads as sent, the payload is a prefix, and its length fits the size field if and only if nothing was cut. |
| TransferText.AckReadsAsSent | np-lab6/client.cpp:30-41 | Any prefix of an ACK that the client takes for an ACK names the same file and fragment as the ACK that was sent, and none is taken for "terminate". |
| TransferText.TerminateIsNoAck | np-lab6/client.cpp:30-41 | No prefix of "-1 -1 terminate" reads as an ACK. |
| TransferText.ParseTerminate | np-lab6/client.cpp:35-39 | The whole terminate text is recognised. |
| TransferText.MessageExample | np-lab6/client.cpp:142-142 | The very text of one data datagram: five fields with a blank behind each, the mark, the payload. |
| TransferText.ReplyExample | np-lab6/server.cpp:195-228 | The very texts of an acknowledgement and of the end. |
| TransferClient.ReadFragments | np-lab6/client.cpp:107-132 | The reading loop yields exactly the fragments of the file: one for a file under 1000 bytes, else full blocks and the rest. |
| TransferClient.FragmentsConcat | np-lab6/client.cpp:107-132 | For every file content, the fragments joined in order are the content, and there is at least one. |
| TransferClient.FragmentAt | np-lab6/client.cpp:108-132 | Fragment i is the i-th thousand of bytes of the file, only the last may be shorter, and there are as many as the size needs, but one for an empty file. |
| TransferClient.Client.Skips | np-lab6/client.cpp:141-141 | The test inserts the key with 0 when it is absent and skips exactly the acknowledged fragments. |
| TransferClient.Client.Hear | np-lab6/client.cpp:151-166 | The bookkeeping after recvfrom: the new ACKed table, send_failed and term_flag as a function of the old ones and the text received. |
| TransferServer.Server.constructor | np-lab6/server.cpp:142-158 | The tables before the first datagram. |
| TransferServer.Server.MergePackets | np-lab6/server.cpp:53-61 | Returns the joined fragments, clears the list and lowers the count of open files by one. |
| TransferServer.Server.DecomposePacket | np-lab6/server.cpp:76-114 | The table updates of decompose, with the early exits for a finished file and for a full window. |
| TransferServer.Server.RecordFragment | np-lab6/server.cpp:202-226 | Records the offset and, on the last one, writes the file and closes it. |
| TransferServer.Server.Receive | np-lab6/server.cpp:167-227 | One pass of the receive loop: the new tables and the replies are those of Handle and Replies, which HandleInv and RepliesExactly characterise. |
| TransferTables.HandleInv | np-lab6/server.cpp:165-227 | Every datagram that a shortened client packet can be keeps the table invariant: each file is untouched, open with exact recorded fragments, or written exactly; records only grow by the fragment handled. |
| TransferTables.RepliesExactly | np-lab6/server.cpp:79-200 | Exactly when a datagram is answered: the file is unfinished, open or within the limit of 300, and the fragment is recorded already or came whole; then there are five acknowledgements that name it, otherwise none. So a fragment sent again is acknowledged again. |
| TransferProtocol.DeliveredParses | np-lab6/server.cpp:63-77 | Every datagram that can arrive parses and is within the tables, so the preconditions of Receive hold in every reachable state. |
| TransferProtocol.NextInv | np-lab6/server.cpp:165-233 | Every step of client, server and a network that loses, duplicates, reorders and shortens keeps the global invariant. |
| TransferProtocol.RunInv | np-lab6/server.cpp:165-233 | The invariant holds in every state of every run. |
| TransferTheorems.TransferIsSafe | np-lab6/server.cpp:165-233 | In every state of every run the store holds only exact copies of client files, no file is written twice, and once "terminate" is sent or the client has exited every file is stored. |
| TransferTheorems.AllWritten | np-lab6/server.cpp:206-211 | When the loop counter reaches file_num, every file is written with its exact content. |
| TransferTheorems.AcknowledgedIsHeld | np-lab6/client.cpp:139-166 | In every state of every run an acknowledged fragment is recorded with its exact bytes or its file is written; f_count is the number of open files and at most 301; send_failed is empty. |
| TransferTheorems.SomethingWanted | np-lab6/server.cpp:86-101 | While a file is unwritten, some fragment is unrecorded, still sent by the client and accepted by the server: the window of open files never deadlocks. |
| TransferTheorems.WantedIsRecorded | np-lab6/server.cpp:102-105 | The arrival of such a fragment is accepted and lowers the number of unrecorded fragments by exactly one. |
| TransferTheorems.ResentIsAcknowledged | np-lab6/server.cpp:194-200 | When a recorded fragment of an unwritten file arrives whole once more, because its acknowledgements were lost, it is acknowledged again. |
| TransferTheorems.MissingNeverGrows | np-lab6/server.cpp:165-227 | No step of any kind raises the number of unrecorded fragments. |
| TransferTheorems.CanFinish | np-lab6/client.cpp:72-176 | From every reachable scanning state a run leads to a state with every file stored completely. |
| TransferTheorems.ClientCanExitIff | np-lab6/client.cpp:72-161 | For every configuration: a reachable client can still reach its exit if and only if the server expects no more files than there are and some fragment is not yet acknowledged (or it has exited). |
| TransferTheorems.HungForever | np-lab6/client.cpp:141-161 | Once all fragments are acknowledged, in every continuation the client sends nothing, its bookkeeping never changes and it never exits. |
| TransferTheorems.EveryTransferCanHang | np-lab6/client.cpp:141-161 | For every set of files some run leads the client into that state. |
| TransferTheorems.HangExample | np-lab6/client.cpp:141-161 | A concrete one-file transfer that hangs. |
| InetCode.InetPton4 | unpv13e/libfree/inet_pton.c:95-124 | The loop over array and pointers computes Pton4, whose accepted texts and values Pton4Exact characterises. |
| InetText.Pton4Exact | unpv13e/libfree/inet_pton.c:86-125 | For every text: 1 is returned if and only if it is four dot-separated digit strings with values up to 255, and the bytes are those values. |
| InetText.Pton4Bytes | unpv13e/libfree/inet_pton.c:86-125 | Every accepted quad gives four bytes below 256. |
| InetCode.ShiftTail | unpv13e/libfree/inet_pton.c:210-217 | The in-place shift leaves the bytes before "::", zeros, and the bytes after it, and zeros instead of the tail when nothing has to move. |
| InetCode.InetPton6 | unpv13e/libfree/inet_pton.c:152-223 | The loop over tmp, tp and colonp computes Pton6, whose accepted texts and values Pton6Exact characterises. |
| InetGrammar.Pton6Reads | unpv13e/libfree/inet_pton.c:152-223 | For every structured address text: accepted if and only if its groups fit sixteen bytes, with the value given by structure. |
| InetGrammar.Pton6Exact | unpv13e/libfree/inet_pton.c:152-223 | For every text and bytes: inet_pton6 accepts with these bytes if and only if the text is that of a well-formed, fitting address with this value. |
| InetRfc.RfcFormsAccepted | unpv13e/libfree/inet_pton.c:127-139 | Every text of section 2.2 of RFC 1884, defined on its own (groups of 1 to 4 hex digits, octets of 1 to 3 digits, eight pieces or a gap for at least one), is accepted with the bytes it stands for. |
| InetRfc.AddressUnique | unpv13e/libfree/inet_pton.c:152-223 | The grammar accepted is unambiguous: two well-formed addresses with the same text are the same. |
| InetRfc.HexDigitsAre | unpv13e/libfree/inet_pton.c:165-169 | The hexadecimal digits are those of the two alphabets, each with its place as its value. |
| InetRfc.BytesExample | unpv13e/libfree/inet_pton.c:152-223 | The sixteen bytes of "::aB01": high byte first, the group at the end. |
| InetRfc.AcceptsBeyondRfcIff | unpv13e/libfree/inet_pton.c:127-131 | For every text: an RFC text is accepted, and a text is accepted without being one if and only if it has a dangling colon, a "::" in a full address, a group of more than four digits or an octet of more than three. |
| InetRfc.DanglingExample | unpv13e/libfree/inet_pton.c:175-190 | "::1:" is accepted and is no RFC text. |
| InetRfc.FullWithGapExample | unpv13e/libfree/inet_pton.c:175-182 | "1:2:3:4::5:6:7:8" is accepted and is no RFC text. |
| InetRfc.LongGroupExample | unpv13e/libfree/inet_pton.c:167-174 | "::00001" is accepted and is no RFC text. |
| InetRfc.LongOctetExample | unpv13e/libfree/inet_pton.c:101-111 | "::0001.2.3.4" is accepted and is no RFC text. |
| InetRfc.GapInFullAddressIgnoredIff | unpv13e/libfree/inet_pton.c:132-134 | The documented "ignored" holds of a "::" in a full address if and only if all bytes after it are zero. |
| InetRfc.GapLosesTheTail | unpv13e/libfree/inet_pton.c:213-216 | 1:2:3:4::5:6:7:8 is accepted and loses its last four groups. |
| InetCode.InetNtop4 | unpv13e/libfree/inet_ntop.c:97-106 | The dotted text, or failure exactly when its length exceeds the size; the bytes that strcpy stores fit the size if and only if the text is not exactly that long. |
| InetCode.OneByteTooMany | unpv13e/libfree/inet_ntop.c:101-105 | 0.0.0.0 into seven bytes: success, and eight bytes are written. |
| InetPrinter.QuadRoundTrip | unpv13e/libfree/inet_ntop.c:97-106 | For every four bytes, inet_pton4 reads the dotted text back as them, and it has at most 15 characters. |
| InetCode.LoadWords | unpv13e/libfree/inet_ntop.c:138-140 | The words are the big-endian pairs of the bytes. |
| InetCode.FindBest | unpv13e/libfree/inet_ntop.c:141-162 | The scan finds the leftmost longest run of at least two zero words, or none exactly when there is none (sections 4.2.2 and 4.2.3 of RFC 5952). |
| InetPrinter.BestIsUnique | unpv13e/libfree/inet_ntop.c:141-162 | There is only one such run. |
| InetCode.FormatWords | unpv13e/libfree/inet_ntop.c:167-193 | The formatting loop writes exactly TextFrom, which TextIsCanonical gives in terms of the bytes. |
| InetPrinter.TextFits | unpv13e/libfree/inet_ntop.c:128-193 | For every address and run the text and its terminator fit the 46 bytes of tmp. |
| InetPrinter.PrintedText | unpv13e/libfree/inet_ntop.c:164-192 | For every run the loop writes the text of an address of the grammar, which links the printer to the parser; what that text is in terms of the bytes says TextIsCanonical. |
| InetPrinter.PrintedValue | unpv13e/libfree/inet_ntop.c:128-193 | That address stands for the original sixteen bytes. |
| InetPrinter.RoundTrip | unpv13e/libfree/inet_ntop.c:115-193 | For every sixteen bytes, inet_pton6 of the text printed returns 1 and the same sixteen bytes. |
| InetCanonical.TextIsCanonical | unpv13e/libfree/inet_ntop.c:164-192 | The printed text from the bytes alone: "::" for the leftmost longest run of two or more zero words, every other word in plain hexadecimal with a colon between neighbours, and "::" or "::ffff:" with four decimal octets when the first six words are zero and the seventh is not, or the first five are zero and the sixth is 0xffff. |
| InetCanonical.DotIffEmbedded | unpv13e/libfree/inet_ntop.c:179-187 | A dot is printed if and only if the address is of one of these two kinds, and no upper-case letter ever. |
| InetCanonical.HexPlain | unpv13e/libfree/inet_ntop.c:188-188 | A word is written in lower case and without leading zeros; with its value this leaves one text. |
| InetCanonical.NumeralPlain | unpv13e/libfree/inet_ntop.c:97-100 | An octet is written without leading zeros. |
| InetCanonical.PrintedIsRfc | unpv13e/libfree/inet_ntop.c:164-192 | Every printed text is one of the RFC. |
| InetCode.InetNtop6 | unpv13e/libfree/inet_ntop.c:113-204 | For every address and size: the canonical text when it fits with its terminator, failure otherwise; 46 bytes always suffice. |
| InetCode.PrintThenParse | unpv13e/libfree/inet_ntop.c:115-200 | The two imperative functions in sequence are the identity on every address. |
| WorkQueue.NextInv | unpv13e/server/serv08.c:35-47 | Every statement of acceptor and workers, and every spurious wakeup, keeps the invariant. |
| WorkQueue.RunInv | unpv13e/server/pthread08.c:20-32 | The invariant holds in every state of every interleaving of one acceptor and n workers. |
| WorkQueue.TakenInOrder | unpv13e/server/pthread08.c:20-27 | The k-th take is of the k-th accepted connection; taken, queued and pending ones make up all accepted ones; an idle worker has counted exactly its takes. |
| WorkQueue.ServesWhatItTook | unpv13e/server/pthread08.c:24-31 | In every interleaving a worker serves the very connection that it took last. |
| WorkQueue.LiveSlotUntouched | unpv13e/server/serv08.c:39-42 | Storing a connection leaves the queue as it was: the slot written is none of the live ones. |
| WorkQueue.NoLostWakeup | unpv13e/server/pthread08.c:22-23 | While a worker sleeps and the mutex is free, the queue is no longer than the number of woken workers that have not looked again. |
| WorkQueue.NeverAllAsleep | unpv13e/server/pthread08.c:22-23 | A queued connection never finds all workers asleep. |
| WorkQueue.QuitsExactlyWhenFull | unpv13e/server/serv08.c:43-44 | The err_quit branch is taken exactly when the put made the ring hold all 32 connections. |
| SigioRing.RunInv | unpv13e/sigio/dgecho01.c:43-108 | The invariant holds in every state of every interleaving of main loop and signal handler, from the moment the handler is installed. |
| SigioRing.EchoedInOrder | unpv13e/sigio/dgecho01.c:56-73 | Datagrams are echoed in order of receipt, at most eight behind; iput is (iget + nqueue) mod QSIZE up to the shift between ++iget and nqueue--. |
| SigioRing.EchoedInFull | unpv13e/sigio/dgecho01.c:63-64 | Every datagram is echoed with the length it was received with. |
| SigioRing.SlotBeingSentIsSafe | unpv13e/sigio/dgecho01.c:64-65 | The slot being sent holds the oldest unsent datagram and is never the one the handler fills. |
| SigioRing.HistogramIsExact | unpv13e/sigio/dgecho01.c:85-107 | cntread is never indexed out of bounds, its last element stays 0, and it accounts for every datagram received. |
| SigioRing.NeverSleepsOnWork | unpv13e/sigio/dgecho01.c:58-59 | The main loop suspends only when everything received has been echoed. |
| SigioRing.OverflowMeansFull | unpv13e/sigio/dgecho01.c:86-87 | At the overflow exit exactly eight datagrams are unsent, or seven if the handler interrupted between the send and nqueue--. |
| SigioRing.OverflowWithSevenExample | unpv13e/sigio/dgecho01.c:64-87 | A run that ends in the overflow exit with only seven datagrams unsent. |
| Prefork.NextInv | unpv13e/server/serv05.c:43-81 | Every step of the parent and of a child keeps the invariant. |
| Prefork.RunInv | unpv13e/server/serv05.c:43-81 | The invariant holds in every state of every run of parent and n children. |
| Prefork.NavailIsExact | unpv13e/server/serv05.c:45-76 | navail is always the number of children with status 0. |
| Prefork.BusyIffOneOf | unpv13e/server/child05.c:40-50 | A child has status 1 if and only if exactly one of these holds: descriptor in its pipe, connection being served, ready byte in flight. |
| Prefork.NoSecondConnection | unpv13e/server/serv05.c:54-64 | The child given a connection is the first available one, and it is waiting with empty pipes both ways. |
| Prefork.NeverNoAvailable | unpv13e/server/serv05.c:58-59 | err_quit("no available children") is unreachable. |
| Prefork.ReadNeverWaits | unpv13e/server/serv05.c:71-79 | A pipe that the scan reads has its byte and belongs to a busy child; the scan always leaves by its break. |
| Prefork.ServedByItsOwner | unpv13e/server/child05.c:40-50 | Connection k is with child i, served or in hand, if and only if it was passed to i; child_count counts them. |
| Prefork.ServedOnceInOrder | unpv13e/server/child05.c:40-50 | No child serves a connection twice or out of order. |
| Prefork.NeverStuck | unpv13e/server/serv05.c:45-47 | With at least one child: when the parent stops listening, some child can move or has a byte waiting for it. |
| Prefork.StepsRunOut | unpv13e/server/serv05.c:43-81 | Each child step and each byte read uses up one of the remaining steps, and only a new connection adds three. |
| Prefork.NoneRemainingIff | unpv13e/server/serv05.c:75-76 | No steps remain if and only if all children are available. |
| RobotSearch.MazeServer.Send | np-lab3/3-4.py:128-133 | The environment: legal moves carry the robot along and are answered with the window around it. |
| RobotSearch.GetReversePath | np-lab3/3-4.py:42-54 | Returns the undoing moves of the part of the path beyond the parent of the next entry. |
| RobotWalk.UndoReturns | np-lab3/3-4.py:42-54 | For every legal walk, its undoing moves are a legal walk back to where it began. |
| RobotWalk.UndoSuffix | np-lab3/3-4.py:42-54 | Undoing a suffix leads along legal moves to the cell of the remaining prefix. |
| RobotSearch.Popped | np-lab3/3-4.py:92-98 | At every pop the robot stands one move before the popped cell: the popped path without its last move is where it is. |
| RobotSearch.Expand | np-lab3/3-4.py:101-120 | The four tests push every unvisited open neighbour and nothing else, in the order W, S, A, D, keep the chain of path prefixes, and report a dead end exactly when nothing was pushed. |
| RobotSearch.ShiftVisit | np-lab3/3-4.py:175-176 | Every visited coordinate moves one column to the right. |
| RobotSearch.ShiftStack | np-lab3/3-4.py:177-178 | Every stack coordinate moves one column to the right, paths unchanged. |
| RobotSearch.FollowsInv | np-lab3/3-4.py:175-178 | Shifting stack and visited list together with the map keeps the whole search invariant. |
| MazeMap.StripLine | np-lab3/3-4.py:65-79 | Removing the blanks of a window line leaves exactly the maze cells of that line, and a blank at either end tells that the window reaches past that edge. |
| MazeRecord.RecordRow | np-lab3/3-4.py:136-145 | The row of the window is spliced into the row of the map at the clipped columns. |
| MazeRecord.RowMapInv | np-lab3/3-4.py:135-158 | After a vertical move the map is right everywhere it is filled and shows the new window entirely. |
| MazeRecord.RecordLeft | np-lab3/3-4.py:160-195 | The three cases of a move to the left: column overwritten at the edge, prepended, or overwritten inside. |
| MazeRecord.RecordRight | np-lab3/3-4.py:197-227 | The three cases of a move to the right. |
| MazeRecord.ColumnMapInv | np-lab3/3-4.py:160-227 | After a horizontal move, in every growth case, the map is right at a common column offset and shows the new window entirely. |
| RobotRun.RecordMove | np-lab3/3-4.py:135-227 | Every recorded move keeps the map invariant for all positions visited, and stack and visited list follow the offset. |
| RobotRun.ParseFirst | np-lab3/3-4.py:61-83 | The first window becomes a map that shows it, with the position of the robot. |
| RobotRun.Turn | np-lab3/3-4.py:92-133 | One round of the loop keeps the whole invariant and finds the exit, goes on, or fails at the index of an empty stack. |
| RobotRun.FindPath | np-lab3/3-4.py:85-233 | The robot enters an exit if and only if one is reachable; the loop ends without one if and only if the start is isolated; otherwise q[-1] of an empty list is the outcome. Every move sent is legal. |
| RobotWalk.WalledOffExample | np-lab3/3-4.py:126-129 | A valid maze with an open neighbour of the start and an exit that cannot be reached: the search takes q[-1] of an empty list. |
| MazeBfs.FindPath | np-lab3/3-3.py:92-118 | For every walled maze the very path returned: a legal walk to an exit, none is shorter, and of those as long it is the first in the order of the keys W, S, A, D; the empty path when no exit is reachable; no cell is enqueued twice. |
| MazeBfs.WalkBound | np-lab3/3-3.py:99-117 | Every legal walk is as long as the distance now explored, or ends in a settled cell whose assigned distance it does not undercut. |
| MazeBfs.FirstExitIsNearest | np-lab3/3-3.py:103-105 | When an exit is popped at distance d, no legal walk to an exit is shorter. |
| MazeBfs.NewIsFirst | np-lab3/3-3.py:106-117 | A cell is discovered along the first, in the order of the keys, of all walks of that length to it. |
| RobotWalk.BeforeIff | np-lab3/3-3.py:106-117 | The order of walks is that of a dictionary: the first key that differs decides. |
| RobotWalk.MovesAre | np-lab3/3-3.py:106-117 | The keys W, S, A, D move up, down, left and right. |
| Queens.Conflicts | np-lab7/solve.cpp:50-58 | The loop over the queens, in uint8_t arithmetic, reports a conflict exactly when some queen attacks the square. |
| Queens.AttacksAlongLines | np-lab7/solve.cpp:52-54 | The test is an attack along a row or one of the two diagonals. |
| Queens.Solver.PushSquares | np-lab7/solve.cpp:30-41 | target gains the squares of the board in row order. |
| Queens.Solver.TryColumn | np-lab7/solve.cpp:47-68 | For the first free column: the first solution if one exists, target unchanged otherwise. |
| Queens.Solver.Solve | np-lab7/solve.cpp:17-72 | True exactly when the board can be filled so that no placed queen is attacked; target then gains the first such placement, columns compared from the left. |
| Queens.OneSquarePerRow | np-lab7/solve.cpp:30-41 | On a non-attacking placement the squares are exactly one per row, in row order. |
| Queens.SolveBoard | np-lab7/solve.cpp:17-72 | For non-attacking presets: true if and only if they extend to a full non-attacking placement, and target is one square per row of the first such extension. |
| Queens.SolvesIffNonAttacking | np-lab7/solve.cpp:47-67 | For non-attacking presets the solutions are exactly the non-attacking extensions. |
| Queens.FoundIsValidIff | np-lab7/solve.cpp:28-45 | A placement found is free of attacks if and only if the presets were. |
| Queens.AttackingPresetsExample | np-lab7/solve.cpp:28-45 | Two presets in one row: true is returned with attacking queens. |
| CopyLoop.StrCli.FromStdin | unpv13e/nonblock/strclinonb.c:42-62 | Reading stdin, only with room for data: the bytes land behind the pending ones, end of file sends FIN at once if nothing is pending. |
| CopyLoop.StrCli.FromSock | unpv13e/nonblock/strclinonb.c:64-86 | Reading the socket: data, would-block, error, and end of file that returns or quits. |
| CopyLoop.StrCli.ToStdout | unpv13e/nonblock/strclinonb.c:89-103 | Writing stdout drains the buffer and rewinds it when empty. |
| CopyLoop.StrCli.ToSock | unpv13e/nonblock/strclinonb.c:105-122 | Writing the socket drains the buffer; the write that empties it after end of file sends FIN. |
| CopyLoop.StrCli.OneRound | unpv13e/nonblock/strclinonb.c:27-123 | One round of the loop on arrays and pointers is the transition Turn. |
| CopyLoop.StrCli.Copy | unpv13e/nonblock/strclinonb.c:22-123 | The loop for any number of rounds computes Run, of which the properties below are proved. |
| CopySpec.TurnInv | unpv13e/nonblock/strclinonb.c:27-123 | Every round keeps the invariant, whatever select reports and however the four calls end. |
| CopySpec.CopyIsSafe | unpv13e/nonblock/strclinonb.c:22-123 | In every run: bytes sent and pending are the bytes read from stdin, likewise towards stdout; the wire is the data and then at most one FIN, there exactly when stdin has ended and all is flushed; select always has a descriptor to wait for. |
| CopySpec.PassesThrough | unpv13e/nonblock/strclinonb.c:42-122 | With empty buffers, a round in which both sides bring data and both outputs take it passes everything on at once, without waiting for select to report the outputs. |
| CopySpec.SmoothRunIsPipe | unpv13e/nonblock/strclinonb.c:27-123 | Over any number of such rounds the loop is a pipe both ways: what comes out is what went in, however it is cut. |
| CopySpec.OnlyFailuresQuit | unpv13e/nonblock/strclinonb.c:42-122 | Calls that would block change nothing; any of the four that fails ends the program with nothing else changed. |
| CopySpec.NothingAfterFin | unpv13e/nonblock/strclinonb.c:51-53 | After FIN nothing is sent and stdin is not read, in every continuation. |
| CopySpec.FinComesOut | unpv13e/nonblock/strclinonb.c:115-120 | Once stdin has ended, as many rounds as bytes are pending, each taking at least one, bring out the FIN with everything sent. |
| CopySpec.ReturnIsCompleteIff | unpv13e/nonblock/strclinonb.c:69-76 | On a normal return stdout has everything received if and only if the fr buffer was empty when the round began, and the server has everything and FIN if and only if the to buffer was. |
| CopySpec.LostAnswerExample | unpv13e/nonblock/strclinonb.c:69-76 | A run that returns normally with a byte of the server never printed. |
| CopySpec.UnsentInputExample | unpv13e/nonblock/strclinonb.c:69-76 | A run that returns normally with a byte of stdin never sent and no FIN. |
| CopySpec.EagerLosesNothing | unpv13e/nonblock/strclinonb.c:89-103 | If stdout always takes all it is given, no run loses received data. |
| AddrInfoList.GaClone | unpv13e/libgai/ga_clone.c:9-30 | A new node right behind the original with the same values, AI_CLONE off and address storage of its own. |
| AddrInfoList.GaPort | unpv13e/libgai/ga_port.c:31-65 | For every list without shared storage: the loop terminates although it inserts while walking, the list is then Port of the old one (which PortAt spells out), storage is still unshared, only the list and new objects changed, and nfound is exact. |
| AddrInfoSpec.PortAt | unpv13e/libgai/ga_port.c:37-63 | One call on any list, entry by entry and field by field: which entries are left alone, which take the type and port, where a clone stands and what it holds. |
| AddrInfoSpec.CallsMakeGroups | unpv13e/libgai/ga_port.c:31-65 | Calls for distinct nonzero types on fresh originals replace every original by its group. |
| AddrInfoSpec.OnePerAddressAndType | unpv13e/libgai/ga_port.c:8-27 | k originals and m types give exactly k*m entries: for every address and type one, at the stated place, with the family, protocol and host of the address and the type and port of the call; addresses in their order. |
| AddrInfoSpec.StreamThenDatagram | unpv13e/libgai/ga_port.c:11-16 | Two addresses, STREAM then DGRAM: the four entries in the documented order, all six fields. |
| AddrInfoList.GaServ | unpv13e/libgai/ga_serv.c:16-57 | The calls for a number or a name under any hint, the resulting list, and the error code exactly when nothing was found. |
| AddrInfoSpec.ServWithoutHint | unpv13e/libgai/ga_serv.c:16-57 | Without a type in the hints, on fresh originals: success if and only if there is an address and the service is known, and the list is then the groups of the wanted calls. |
| AddrInfoSpec.ServEntries | unpv13e/libgai/ga_serv.c:16-48 | Without a type in the hints, the entries of every address: a number gives a STREAM and a DATAGRAM entry with that port, a name the TCP port to STREAM and the UDP port to DATAGRAM, as far as they are known. |
| AddrInfoSpec.ServWithHint | unpv13e/libgai/ga_serv.c:16-57 | With a type in the hints, on entries that carry it: each entry gets the number, or the TCP port for STREAM or the UDP port for DATAGRAM, and it succeeds if there is an address; otherwise nothing changes and it fails. |
| AddrInfoSpec.ErrorLeavesList | unpv13e/libgai/ga_serv.c:50-55 | If nothing was found, a list of IP addresses is unchanged. |
| InternetChecksum.InCksum | unpv13e/libfree/in_cksum.c:6-31 | For every length the folded, wrapped sum; up to 131074 bytes the complement of the one's-complement sum of section 1 of RFC 1071. |
| InternetChecksum.AccumulatorBound | unpv13e/libfree/in_cksum.c:11-25 | All buffers of a length fit the 32-bit accumulator if and only if the length is at most 131074 bytes (65537 words). |
| InternetChecksum.TwoFolds | unpv13e/libfree/in_cksum.c:27-29 | Two folds of any 32-bit sum, truncated to 16 bits, give its one's-complement value. |
| InternetChecksum.OnesSumIsCanon | unpv13e/libfree/in_cksum.c:16-25 | Adding with end-around carry word by word equals adding plainly and reducing at the end. |
| InternetChecksum.RecheckIff | unpv13e/udpcksum/udpwrite.c:51-52 | A word stored in the checksum field makes the recheck 0 if and only if it agrees with the checksum modulo 0xffff and not everything is zero. |
| InternetChecksum.StoredChecksumAccepted | unpv13e/udpcksum/udpwrite.c:51-52 | Both the checksum and 0xffff in place of 0 make the recheck return 0, for every buffer and even offset. |
| InternetChecksum.OneWordErrorNoticed | unpv13e/libfree/in_cksum.c:3-32 | Changing one word of an accepted buffer is noticed unless it turns 0x0000 into 0xffff or back. |
| InternetChecksum.NumericalExample | unpv13e/libfree/in_cksum.c:16-31 | The numerical example of section 3 of RFC 1071, on machines of either byte order. |
| InternetChecksum.ByteOrderIndependent | unpv13e/libfree/in_cksum.c:16-31 | Machines of either byte order compute the same two bytes of memory, for even and odd lengths (section 2 of RFC 1071). |
| UdpWrite.FillHeader | unpv13e/udpcksum/udpwrite.c:37-48 | The header fields up to the checksum, in place, data untouched. |
| UdpWrite.Fill | unpv13e/udpcksum/udpwrite.c:37-70 | The whole datagram handed to sendto, field by field at its offset, data and the rest of the buffer untouched. |
| UdpWrite.DatagramFields | unpv13e/udpcksum/udpwrite.c:37-70 | The datagram by offsets: version and length, total length high byte first, TTL 64, protocol 17, addresses, source port at 20, destination port at 22, UDP length, checksum at 26, data from 28. |
| UdpWrite.DatagramAccepted | unpv13e/udpcksum/udpwrite.c:49-56 | A receiver of either byte order computes 0 over the datagram sent by either; the field is 0 exactly when zerosum is set. |
| Rtt.RttInfo.Init | unpv13e/lib/rtt.c:23-35 | Start estimates and a first timeout of 3 seconds. |
| Rtt.RttInfo.Stop | unpv13e/lib/rtt.c:80-102 | The estimators after a sample; the timeout is srtt + 4 * rttvar, moved to the nearest point of [2, 60]. |
| Rtt.RttInfo.Timeout | unpv13e/lib/rtt.c:111-119 | Doubles the timeout and gives up after the third retransmission. |
| Rtt.EstimatesBounded | unpv13e/lib/rtt.c:93-101 | Over all samples in [0, m], srtt stays in [0, m] and rttvar in [0, max(m, 0.75)]. |
| Rtt.ConstantSamples | unpv13e/lib/rtt.c:93-99 | Under k equal samples the error of srtt is (7/8)^k of the first, and rttvar has the closed form that follows it. |
| Rtt.TimeoutOfConstantSamples | unpv13e/lib/rtt.c:10-20 | The timeout after k equal samples m in closed form: m plus the decayed error plus four times the deviation, clamped to [2, 60]. |
| Rtt.TimeoutCoversRoundTrip | unpv13e/lib/rtt.c:10-20 | Whatever the samples, the timeout is at least the smoothed round-trip time, as far as 60 seconds, and equal to it only without deviation. |
| Rtt.SlowPeerExample | unpv13e/rtt/dg_send_recv.c:26-92 | After a first reply of 4000 ms, a call without answer sets its alarms to 7, 14, 27 and 54 seconds and gives up. |
| Rtt.Client.SendRecv | unpv13e/rtt/dg_send_recv.c:26-92 | Every call sends one to four times, its alarms double from the first and lie in [2, 480]; it ends with the first reply bearing its number that stops the timer, unless a fourth alarm comes before; an echoing peer's reply is the one to this request. |
| Rtt.Session | unpv13e/rtt/dg_send_recv.c:26-92 | For every sequence of calls and events: after every call the estimates are those of the samples since the last failure, srtt and rttvar lie within these samples, the alarms start from the timeout of the estimates carried over, and each reply of an echoing peer is the one to its own request. |
| Rtt.DiscardedReplyExample | unpv13e/rtt/dg_send_recv.c:81-88 | A fourth alarm after the reply was read and before alarm(0): the call gives up. |
| Rtt.EndIsUnique | unpv13e/rtt/dg_send_recv.c:68-86 | The events alone decide how and when a request ends. |
| ReadLine.Buffered.MyRead | unpv13e/lib/readline.c:8-26 | Hands out the next byte of buffer and stream, however read splits it. |
| ReadLine.Buffered.Readline | unpv13e/lib/readline.c:28-49 | Stores the next line and a null byte and leaves the rest unread; the value returned is BufferedValue. |
| ReadLine.ValueIsCountIff | unpv13e/lib/readline.c:40-48 | The value is the number of bytes stored if and only if the room did not run out and, for the plain version, the stream did not end after some data. |
| ReadLine.RoomRanOutExample | unpv13e/lib/readline.c:35-48 | Reading "ab" into two bytes stores one and both versions return 2. |
| ReadLine.EndOfFileExample | unpv13e/server/readline.c:16-25 | Reading "a" into three bytes stores one; the plain version returns 2. |
| ReadLine.NewlineExample | unpv13e/lib/readline.c:35-48 | A line that ends in time is stored with its newline, the rest stays unread, and both versions return its length. |
| ReadLine.Buffered.ReadlineBuf | unpv13e/lib/readline.c:51-57 | The buffered bytes, which with the stream are all that is unread. |
| ReadLine.PlainReadline | unpv13e/server/readline.c:4-26 | The byte-at-a-time version stores the same line; the value returned is PlainValue. |
| ReadLine.BufferedLines | unpv13e/lib/readline.c:28-49 | Any number of calls store the lines of the stream, for every split. |
| ReadLine.PlainLines | unpv13e/server/readline.c:4-26 | So do as many calls of the plain version: the same strings. |
| ReadLine.NothingLost | unpv13e/lib/readline.c:8-57 | Stored strings followed by what is unread are always the stream. |
| ReadLine.LineShape | unpv13e/lib/readline.c:35-45 | A newline only ends a line, and a line shorter than its room ends with one or with the stream. |
| ChatFilter.FilterMessage | hw2/110550158_hw2/hw2_chat_server.cpp:73-96 | The nested loops compute Filter, of which the properties below are proved. |
| ChatFilter.FindKeyword | hw2/110550158_hw2/hw2_chat_server.cpp:79-90 | The inner loop finds the first keyword of the list that stands at i, or later at the start of a word. |
| ChatFilter.RoundIs | hw2/110550158_hw2/hw2_chat_server.cpp:77-93 | One round at any place: the first keyword of the list that stands there, or whose next place follows no letter, becomes as many stars, and the scan goes on behind it. |
| ChatFilter.SameLetter | hw2/110550158_hw2/hw2_chat_server.cpp:75-83 | Two characters agree if they are equal or the two cases of one letter. |
| ChatFilter.OutputIsClean | hw2/110550158_hw2/hw2_chat_server.cpp:73-96 | For every message and list of maskable keywords the output holds no keyword in any letter case. |
| ChatFilter.NeverLonger | hw2/110550158_hw2/hw2_chat_server.cpp:73-96 | The output is never longer than the message. |
| ChatFilter.UnchangedIff | hw2/110550158_hw2/hw2_chat_server.cpp:73-96 | A message passes unchanged if and only if it holds no keyword. |
| ChatFilter.Idempotent | hw2/110550158_hw2/hw2_chat_server.cpp:73-96 | Filtering again changes nothing. |
| ChatFilter.MasksInPlaceIff | hw2/110550158_hw2/hw2_chat_server.cpp:83-87 | The output is the message with its keywords masked in place if and only if, wherever the scan looks, no keyword earlier in the list than the one standing there starts a word further on; otherwise, and only then, it is shorter than the message. |
| ChatFilter.DroppedTextExample | hw2/110550158_hw2/hw2_chat_server.cpp:83-87 | A message of which the text before a keyword is dropped. |
| ChatFilter.InsideWordExample | hw2/110550158_hw2/hw2_chat_server.cpp:83-87 | "xHi!" with the keyword "hi" becomes "x**!": any case, inside a word, and nothing dropped. |
| ChatFilter.ServerKeywords | hw2/110550158_hw2/hw2_chat_server.cpp:42-48 | The server's own keywords are maskable. |

## Left out

- Sockets, select, signals, threads, files, directories and memory allocation are steps or parameters of the environment; their failures, other than those named in the table, are not modelled.
- File names with white space or '>' in np-lab6, and payloads changed at the same length: the format cannot tell them apart, so `ValidConfig` and the network exclude them. Two files of one name are excluded too.
- The order in which the client's directory is read: it is the same on every pass. A file that cannot be opened ends the client and is not modelled.
- TransferServer.Server.Receive: requires a datagram that parses and is within the tables, because the source has undefined behaviour otherwise; `DeliveredParses` shows that the network delivers no other.
- Queens.Solver.Solve: requires a board that the source's uint8_t and int8_t can carry (up to 255 columns, free ones up to index 127), because beyond that `at(idx)` and the casts fail. The order of the unordered_map is left open.
- RobotRun.FindPath: the failing `q[-1]` is an outcome instead of an exception. The half-widths of the view are at least 2 and the maze has a border of walls. Printing is left out.
- In the transition systems each step is one statement or one message; weaker memory orders, a child or thread that dies, and clients that reset a connection before accept are left out.
- AddrInfoList.GaPort: a failing allocation (the result -1), ai_canonname and flags other than AI_CLONE are not modelled; the address is a host and a port.
- AddrInfoList.GaServ: the numeric value of the service string and the answers of getservbyname are parameters.
- UdpWrite.Fill: the offsets of struct udpiphdr are written out (28 bytes, checksum at 26), with the Linux order of ip_len; the headers that define it are not part of this model.
- Rtt.Client.SendRecv: floating-point rounding (reals are used), the wrap-around of the 32-bit sequence number and time stamp, and the clock itself are not modelled; the age of a time stamp is a parameter.
- ReadLine.Buffered.Readline: errors of read and its interruption are not modelled.
- ChatFilter.FilterMessage: requires keywords that are not empty and hold no '*', as the server's are; letters are those of ASCII.
- inet_pton and inet_ntop: the dispatch on the address family and the errno values.
- The rooms, sessions and commands of the chat server: they share globals without a lock and use references after an erase, so their intended invariants do not hold.
- The other labs and the rest of the UNP sources (wrappers, options, error printing, multicast, SCTP, PF_KEY, routing sockets, packet capture): thin calls into the system, or dependent on declarations that are not part of this model.
