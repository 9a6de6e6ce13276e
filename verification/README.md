# Verified model of the Embecosm debug server

The Embecosm debug server sits between a debugger, which speaks the GDB Remote Serial Protocol, and
a target with one or more cores. This project models three linked parts of it in Dafny and proves
what holds of them for every input and over every run.

* **The link layer.** `Framing`, `Receiver`, `Origins`, `Sender`, `Link`, `Pushback`,
  `PacketBuilder` and `Connection`: escaping and checksums, `putPkt` retransmitting until it is
  acknowledged, `getPkt` finding packets in a hostile byte stream, and the pushback character and
  pending break shared with `haveBreak`. `Connection.AbstractConnection` and
  `PacketBuilder.RspPacketBuilder` are classes whose fields are those of the source; each method is
  proved equal to a function of the stream, and the theorems are about those functions.
* **Run control.** `Cores`, `Scheduler` and `GdbServers` hold the code: the core states, the choice
  of the next stop event, system calls, kills and the thread list. `GdbServers.GdbServer` is a class
  again, proved against the functions of `Scheduler`. `Conservation`, `Progress`, `Runs`,
  `Bookkeeping`, `Drain`, `VContMeaning`, `Requests` and `Threads` prove what holds over every run
  and what each packet does.
* **Codecs.** `Hex`, `Ptids`, `Split`, `VCont`, `Xfer`, `Registers` and `Memory`.

## How the outside world appears

* The transport is the sequence of bytes the client has sent, the bytes written so far, and the
  number of bytes the client will still take (`credit`). A read at the end of the sequence fails; a
  write with no credit left fails, and keeps failing.
* Whether a non-blocking read finds a character is a parameter of `HaveBreak`.
* All the target and the break poll can answer while one packet is handled is one value `Env`:
  whether a break is waiting, whether `halt` and `resume` succeed, the results of successive `wait`
  calls (each TIMEOUT with the break poll and timeout test that follow it), and the system call a
  core makes. If the list of `wait` results runs out the status is `Waiting`: the server is still
  in its loop.
* Fatal errors and failed assertions end a run with a status that names them. They are outcomes,
  not preconditions, wherever the client or the target can cause them.
* `trace` records what the client and the target have seen, in order.

## Where the code and its description differ

The model follows the code. Each difference has a theorem that says exactly when it shows.

* `getPkt` does not empty its buffer when it starts on a new frame. After a rejected frame the
  rejected bytes come back in front of the accepted ones, or make the next transmission overrun the
  buffer (`Receiver.WrittenLoopIsRightIff`, `Receiver.RepeatedFrameComesTwice`), and after an
  overrun no packet is ever accepted again (`Receiver.OverlongFrameIsFatal`). The variant that
  empties the buffer is the same function with `eraseAtStart` set.
* `killCoreNum` counts a core off every time it is killed, while the header says the counter is the
  number of live cores (`Bookkeeping.LiveCoreAccounting`); so `rspVKill` closes the connection at
  the right moment exactly under the condition of `Bookkeeping.ClosesWithLastCoreIff`
  (`Bookkeeping.DoubleKillClosesEarly` is a run on which it does not).
* `mHandlingSyscall` stays up after a system call is reported as a trap
  (`Bookkeeping.TrapLeavesFlagUpIff`).
* The header says a core that exits stays alive when `mKillCoreOnExit` is false (lib/server/GdbServer.h:170-177);
  the exit call kills it all the same (`Threads.ExitKillsWhateverTheSetting`).
* `rspVCont` may change cores before it refuses a packet (`VContMeaning.RefusedVContEffect`).
* A hex field of a process identifier is meant to be positive; `decodeField` also lets through
  zeros and numbers from 2^31 up (`Ptids.HexFieldIsPositiveIff`).
* A `qXfer` request as long as a packet loses its data (`Xfer.TransferYieldsFileIff`).

## Model

| member | source | states |
|---|---|---|
| Receiver.LinkRoundTrip | lib/server/AbstractConnection.cpp:48-148 | after any `$`-free noise, the frame written for any payload whose escaped form is shorter than the buffer is read back whole, exactly noise and frame are consumed, one `+` is sent in ack mode, and unescaping gives the payload |
| Receiver.NoAckTakesAnyDigits | lib/server/AbstractConnection.cpp:115-121 | with acknowledgements off the check digits are read but not compared, and nothing is answered |
| Receiver.DigitsFail | lib/server/AbstractConnection.cpp:94-136 | after the `#`: a stream that ends before both digits, a digit that is none, or an acknowledgement that cannot be sent, each with its outcome and what has been read |
| Receiver.CutShort | lib/server/AbstractConnection.cpp:57-75 | a stream that ends before a `$` or within a body is a failed connection and nothing is answered |
| Receiver.ReceiveAfterRejections | lib/server/AbstractConnection.cpp:52-147 | any number of transmissions with wrong checksums, each with noise and abandoned pieces, then a right one: one `-` for each wrong one, one `+`, everything up to there consumed, for the loop as written and as intended |
| Receiver.WrittenLoopIsRightIff | lib/server/AbstractConnection.cpp:49-83 | for transmissions that each fit the buffer, the loop as written does what was intended if and only if each also fits behind the bytes that rejected ones left, and the accepted one contained an embedded `$` or nothing was left over; if one does not fit, it and everything after it are lost; if all fit, the stale bytes come first |
| Receiver.RepeatedFrameComesTwice | lib/server/AbstractConnection.cpp:49-83 | when only the check digits of the first copy were damaged and the frame is repeated, the payload comes back twice over, or nothing ever comes back if two copies do not fit; so it is right exactly for the empty payload |
| Origins.AcceptedWasFramed | lib/server/AbstractConnection.cpp:94-143 | whatever the stream, an accepted payload ends with the body of a frame on the wire whose checksum matches (and is that body, as intended), and the replies are one `-` per rejection and a final `+` |
| Receiver.FullBufferSwallowsStream | lib/server/AbstractConnection.cpp:69-146 | with the buffer full the loop as written never accepts and never answers, for any stream |
| Receiver.OverlongFrameIsFatal | lib/server/AbstractConnection.cpp:69-146 | a body as long as the buffer or longer makes the loop as written lose that frame and everything after it, so the bound of the round trip is exact |
| Receiver.IntendedSurvivesOverrun | lib/server/AbstractConnection.cpp:66-82 | with the buffer emptied at each start, an overlong frame costs only itself |
| Sender.DeliveredOnFirstPlus | lib/server/AbstractConnection.cpp:165-222 | if the k-th answer is the first `+`, exactly k identical frames are written, exactly those answers consumed, and the pending flag records whether a break came among them |
| Sender.DeliveryWasAcknowledged | lib/server/AbstractConnection.cpp:208-222 | conversely, every success with acknowledgements on comes from such answers |
| Sender.DeliveredIff | lib/server/AbstractConnection.cpp:165-222 | with or without acknowledgements, a success if and only if the client's bytes begin with answers whose first `+` is the last and it takes that many copies (one copy and nothing read without acknowledgements); any such split into answers gives all that was written, read and flagged |
| Sender.UndeliveredForms | lib/server/AbstractConnection.cpp:165-222 | what is written, read and flagged when no answer is `+` and the stream ends, two breaks come in a row, a single break ends the stream, or the client stops taking bytes within a copy |
| Sender.UndeliveredIs | lib/server/AbstractConnection.cpp:165-222 | every stream on which putPkt does not succeed is of one of those forms |
| Link.DeliveredPayloadArrives | lib/server/AbstractConnection.cpp:48-229 | however often a frame had to be repeated, a fresh receiver takes the first copy, gets the payload that was sent and leaves the other copies |
| Link.ExactlyOnceIff | lib/server/AbstractConnection.cpp:48-229 | the closed loop, with a channel that may damage copies and answers but forges none: every copy is answered once, the payload is taken at least once, and exactly once if and only if no `+` was spoilt, which is to say that the last copy was the only undamaged one |
| Pushback.RunConserves | lib/server/AbstractConnection.cpp:214-300 | under every interleaving of getRspChar, haveBreak, getPkt and putPkt the raw input is, in order, what was handed out and the breaks taken, then at most one buffered character and the unread rest; every break taken or flagged is reported once or pending |
| Pushback.PollMeaning | lib/server/AbstractConnection.cpp:279-300 | haveBreak answers true if and only if a break is pending or a ready read finds one with nothing held; that byte is consumed, any other byte found is held, and otherwise nothing is read |
| Connection.AbstractConnection.GetPkt | lib/server/AbstractConnection.cpp:48-148 | the loop terminates and does what the stream parser says: outcome, bytes left, acknowledgements written |
| Connection.AbstractConnection.PutPkt | lib/server/AbstractConnection.cpp:161-229 | the loop terminates and writes, reads and flags what the transmission function says, also when the client stops taking bytes midway |
| Connection.AbstractConnection.GetRspChar | lib/server/AbstractConnection.cpp:251-268 | hands out the buffered character or the next raw one |
| Connection.AbstractConnection.HaveBreak | lib/server/AbstractConnection.cpp:279-300 | at most one raw character is read; a break is answered once, anything else is kept for the next reader |
| Framing.UnescapeEscape | lib/server/AbstractConnection.cpp:176-193 | the escaped form of any payload is well escaped and unescapes to it |
| Framing.EscapedBodyIsClean | lib/server/AbstractConnection.cpp:180-187 | no raw `$`, `#` or `*` is left in an escaped body |
| Framing.EscapedForms | lib/server/AbstractConnection.cpp:180-187 | what each byte becomes on the wire: `$`, `#`, `*` and `}` become `}` and 4, 3, 10 and 93, every other byte is itself |
| Framing.UnescapedForms | lib/server/Utils.cpp:168-176 | after `}` comes the byte with the binary digit worth 32 changed, whatever byte follows; any other byte is itself |
| Framing.ChecksumIsSum | lib/server/AbstractConnection.cpp:81-183 | the checksum is the sum of the bytes as they stand on the wire, modulo 256 |
| Framing.KnownFrames | lib/server/AbstractConnection.cpp:161-206 | `$OK#9a` and a frame with an escape, `$}]#da`, character by character |
| Bytes.FlipBit5Flips | lib/server/AbstractConnection.cpp:182 | XOR with 0x20 changes the binary digit worth 32 and no other |
| Bytes.HexAlphabet | lib/server/Utils.cpp:35-50 | the sixteen digits: lowercase when written, either case when read |
| Framing.RspUnescape | lib/server/Utils.cpp:164-182 | unescaping in place yields the unescaped bytes at the front, their number, and leaves the rest of the buffer alone |
| PacketBuilder.RspPacketBuilder.AppendChar | lib/server/RspPacket.cpp:192-201 | a character is added if there is room and ignored otherwise, and the buffer beyond stays zero |
| PacketBuilder.RspPacketBuilder.AddData | lib/server/RspPacket.cpp:210-218 | a block is added whole or not at all |
| PacketBuilder.RspPacketBuilder.Erase | lib/server/RspPacket.h:123-126 | the contents are empty and the buffer is zero |
| Conservation.StopsAreConserved | lib/server/GdbServer.cpp:297-469 | at every point of every run, for each core, the stops recorded since the last reset are the stops reported, in the same order, followed by the one pending if there is one |
| Conservation.HandleKeeps | lib/server/GdbServer.cpp:482-710 | every packet, with whatever answers, keeps the invariant: an unreported stop is a real one, and recorded equals reported plus pending |
| Conservation.NextStopHasEvent | lib/server/GdbServer.cpp:383-419 | a stop is found exactly when some running core has an unreported one |
| Progress.NextStopEventIsFirstInLine | lib/server/GdbServer.cpp:383-419 | the lowest-numbered system call is chosen first, else the lowest-numbered other stop |
| Progress.PendingStopIsReportedFirst | lib/server/GdbServer.cpp:301-311 | with no break and a stop pending, the packet reports the one first in line, makes that core current, takes exactly it out of line and does not resume |
| Progress.DoCoreActionsOutcome | lib/server/GdbServer.cpp:297-374 | it is fatal exactly when an answer breaks the target's contract, "already had a stop event pending" never fires, otherwise one packet is sent that tells how the current core stopped or, if the target was halted, SIGINT for a break and SIGXCPU for a timeout no break came with, and the target is resumed only if nothing was pending |
| Progress.BreakComesFirst | lib/server/GdbServer.cpp:301-307 | a break waiting on entry is told as SIGINT before any pending stop, without a resume and without a change to any core |
| Progress.FatalErrorsAreTrue | lib/server/GdbServer.cpp:301-373 | each fatal error is raised only for the answer it complains about |
| Progress.RecordFromTakes | lib/server/GdbServer.cpp:359-370 | every running core, and no other, takes its own result, and nothing is sent or reported by it |
| Progress.SyscallRequestAdds | lib/server/GdbServer.cpp:145-252 | every system call is answered by one packet, chosen by support and call number, without moving the current core or any pending stop |
| Progress.InterruptedWait | lib/server/GdbServer.cpp:326-345 | a break or timeout while the target runs is told once, as SIGINT or SIGXCPU, and changes no core |
| Runs.OnePacketPerResume | lib/server/GdbServer.cpp:1496-1551 | every completed vCont, c, C, s, S or F sends exactly one packet: it tells how the current core stopped, and the stop of exactly that core is marked reported, or that a break or timeout halted the target; without run control it is an error, or SIGINT for a ctrl-C; it is fatal exactly when it gets as far as doCoreActions and an answer breaks the contract |
| Runs.ContractMeansNoFatalError | lib/server/GdbServer.cpp:347-373 | if the target keeps the contract of its interface, no fatal error is reachable, whatever the client sends |
| Drain.PendingStopsDrainInOrder | lib/server/GdbServer.cpp:301-320 | when target and client keep their contracts, the next resuming packets all complete and report the pending stops one per packet, system calls first and otherwise by core number, and the target is not resumed before the last is out |
| Drain.RunsAreOrderly | lib/server/GdbServer.cpp:297-374 | every run from a fresh server on which both keep their contracts leads to a state from which pending stops drain like that, with every pending stop one the server can report and the syscall flag telling the truth, and ends in no fatal error and no system-call assertion |
| Drain.NextHeadsDrainOrder | lib/server/GdbServer.cpp:389-418 | the stop chosen is always the head of that order |
| Bookkeeping.LiveCoreAccounting | lib/server/GdbServer.cpp:1784-1808 | at every point of every run the counter is cores minus kills since the reset modulo 2^32, a core is live exactly when no kill names it, and the counter is right exactly when repeated kills are a multiple of 2^32 |
| Bookkeeping.ClosesWithLastCoreIff | lib/server/GdbServer.cpp:1558-1582 | vKill closes the connection exactly at the kill that makes their number since the reset the number of cores modulo 2^32, whichever cores were named, and then leaves the server only if so configured; whether that is the death of the last live core has an exact condition: with fewer kills than cores so far, that this one does not make up the number, or names a live core after no repeats |
| Bookkeeping.DoubleKillClosesEarly | lib/server/GdbServer.cpp:1800-1804 | killing the same core twice closes the connection while another is alive |
| Requests.KillAnswered | lib/server/GdbServer.cpp:1558-1582 | vKill of process i + 1 kills exactly core i, counts it off, answers with one OK, and then closes if the counter is zero |
| Requests.KillRefused | lib/server/GdbServer.cpp:1563-1573 | any other text kills nothing: an error, or the failed assertion on more than eight digits |
| Requests.ResetRestores | lib/server/GdbServer.cpp:1161-1173 | a successful monitor reset makes every core alive, not to run and with nothing to tell, sets the counter to the number of cores and answers OK; a new connection does the same without an answer; all else stays |
| Bookkeeping.HandlingMeansOutstandingOrStuck | lib/server/GdbServer.cpp:145-293 | at every point of every run the flag is up exactly when a request is unanswered or a call was trapped since the last F reply |
| Bookkeeping.TrapLeavesFlagUpIff | lib/server/GdbServer.cpp:148-161 | a system call leaves the flag equal to "request outstanding" exactly when the target supports calls and the number is in the table; otherwise the next call fails the assertion |
| Bookkeeping.OneRequestAtATime | lib/server/GdbServer.cpp:145-293 | with a client that answers each request before resuming and only handled calls, neither assertion can fail and the flag is up exactly when a request is unanswered |
| Requests.FileReplyAnswered | lib/server/GdbServer.cpp:257-293 | an F reply is taken over, a valid result other than -1 is written for the current core, a ctrl-C is told as SIGINT without resuming, and otherwise run control goes on |
| Requests.ResultGoesToCaller | lib/server/GdbServer.cpp:262-268 | the result of a forwarded call is written for the core that made it |
| Requests.SyscallAsksOnce | lib/server/GdbServer.cpp:148-155 | the target is asked whether it supports system calls at the first call and never again |
| Requests.RunMovesOn | lib/server/GdbServer.cpp:482-710 | on every run what client and target have seen is never taken back, and what the target said of its support stays |
| Requests.CallAnswered | lib/server/GdbServer.cpp:145-252 | what is told and done for each call number, with and without support: nine calls are forwarded, exit is told before its core is killed, anything else is a trap; a call while another is in progress fails the assertion |
| VContMeaning.AcceptedVector | lib/server/GdbServer.cpp:1504-1550 | the vector handed to the target has one entry per core, what the actions ask of process j + 1 or none for a dead core; the stored resume types are that vector and nothing else of a core changes; accepted exactly when all letters are known |
| VContMeaning.RefusedVContEffect | lib/server/GdbServer.cpp:1523-1536 | a refused packet has changed exactly the cores before the first unknown letter; nothing changed exactly when each already had its new type |
| VContMeaning.RefusalCanLeaveATrace | lib/server/GdbServer.cpp:1523-1536 | a packet answered with an error can leave a core marked as running |
| VContMeaning.ClientRequestsReachCores | lib/server/VContActions.cpp:28-106 | from the client's requests to the cores: each live core does what the leftmost request naming it says, and nothing otherwise |
| VContMeaning.LegacyReachesCores | lib/server/GdbServer.cpp:537-549 | after c, C, s or S every live core continues or steps as the letter says and a dead one does nothing; a packet too long to follow `vCont;` is lost and then no core is to run |
| VContMeaning.BadRequestChangesNothing | lib/server/GdbServer.cpp:1506-1509 | one token with an identifier that is refused or names process 0 makes the whole packet an error with no core changed, whatever good requests surround it; too many digits fail the assertion |
| VCont.VContRoundTrip | lib/server/VContActions.cpp:28-60 | any list of well-formed requests survives being written, split and decoded, in order |
| VCont.CoreActionIsLeftmost | lib/server/VContActions.cpp:96-106 | the letter is that of the leftmost action for ALL or this process, and 0 exactly when there is none |
| VCont.ParsedActionsAreGood | lib/server/VContActions.cpp:35-59 | a parsed action has text, no NUL in it and never process 0 |
| VCont.BadTokenSpoilsPacket | lib/server/VContActions.cpp:35-59 | parsing ends at the first bad token, whatever comes before and after it |
| VCont.ParseStopsAtNul | lib/server/VContActions.cpp:31-33 | a NUL ends the packet for the parser |
| VCont.VContActions.ParsePayload | lib/server/VContActions.cpp:28-60 | the loop accepts exactly what the parser accepts and stores its actions |
| VCont.VContActions.GetCoreAction | lib/server/VContActions.cpp:96-106 | the loop finds the letter of the leftmost applicable action |
| GdbServers.GdbServer.GetNextStopEvent | lib/server/GdbServer.cpp:383-419 | one pass finds the lowest system call, else the lowest other stop, else none |
| GdbServers.GdbServer.ProcessStopEvents | lib/server/GdbServer.cpp:425-469 | reports one stop if there is one and changes nothing otherwise |
| GdbServers.GdbServer.RspDoCoreActions | lib/server/GdbServer.cpp:297-374 | the new state and status are those of the run-control function, for every list of answers |
| GdbServers.GdbServer.RecordResults | lib/server/GdbServer.cpp:359-370 | the loop over the cores records the results of the running ones |
| GdbServers.GdbServer.RspSyscallRequest | lib/server/GdbServer.cpp:145-252 | flag, cached support, packet and kill for each kind of call |
| GdbServers.GdbServer.RspSyscallReply | lib/server/GdbServer.cpp:257-293 | flag, written result, ctrl-C and continuation |
| GdbServers.GdbServer.RspVCont | lib/server/GdbServer.cpp:1496-1551 | the loop over the cores applies the parsed actions, prepares and runs, or refuses |
| GdbServers.GdbServer.RspVKill | lib/server/GdbServer.cpp:1558-1582 | kill, answer, close and exit |
| GdbServers.GdbServer.RspWriteNextThreadInfo | lib/server/GdbServer.cpp:941-966 | the loop skips dead cores when exits kill and sends one identifier or the end marker |
| GdbServers.GdbServer.RspSelectThread | lib/server/GdbServer.cpp:590-604 | decode, make specific, select; a decoded identifier stays even if refused after |
| GdbServers.GdbServer.RspClientRequest | lib/server/GdbServer.cpp:482-710 | dispatch of the packets that matter to run control |
| Cores.CoreManager.KillCoreNum | lib/server/GdbServer.cpp:1800-1808 | marks the core dead and counts it off, wrapping at zero; an unknown core changes nothing |
| Cores.CoreManager.Reset | lib/server/GdbServer.cpp:1784-1792 | all cores are fresh and counted live |
| Threads.ListingIsComplete | lib/server/GdbServer.cpp:988-1001 | qfThreadInfo and enough qsThreadInfo list every core (live ones only if exits kill), then `l`, and no identifier comes twice |
| Threads.ListedIncreases | lib/server/GdbServer.cpp:947-951 | each core is listed once, in increasing order |
| Threads.ListedThreadSelectsItsCore | lib/server/GdbServer.cpp:595-600 | sending a listed identifier back with Hg selects exactly its core |
| Requests.HgSelects | lib/server/GdbServer.cpp:590-604 | Hg with any identifier in any of its three formats: which core is selected, what is remembered, and when it is refused |
| Threads.ExitKillsWhateverTheSetting | lib/server/GdbServer.cpp:201-221 | an exit call leaves its core dead, counted off and never resumed whatever mKillCoreOnExit says; that setting only decides whether it is still listed |
| Ptids.PtidRoundTrip | lib/server/Ptid.cpp:167-301 | decoding the encoding of any identifier gives it back, except ALL with ALL or ANY, which is refused |
| Ptids.ShortForms | lib/server/Ptid.cpp:175-197 | a bare tid keeps the pid there was, a bare pid means all its threads, with the same combinations refused |
| Ptids.DecodeAcceptsIff | lib/server/Ptid.cpp:167-216 | p, pid, dot and tid are accepted exactly when both fields are numbers and not ALL with ALL or ANY, and as those numbers |
| Ptids.FieldIsInvalidIff | lib/server/Ptid.cpp:233-242 | which fields are no number, and which fail the assertion on eight digits |
| Ptids.HexFieldIsPositiveIff | lib/server/Ptid.cpp:233-242 | a hex field is the positive number it spells exactly when that is between 1 and 2^31 - 1 |
| Ptids.DecodedIsValid | lib/server/Ptid.cpp:206-215 | a decoded identifier is never invalid in a field that came from the text and never the refused combination |
| Ptids.Ptid.DecodeText | lib/server/Ptid.cpp:167-216 | the object changes only if the text is accepted, to what it spells |
| Ptids.Ptid.EncodeText | lib/server/Ptid.cpp:251-268 | the buffer holds the encoding and a terminator, or failure is reported for an identifier below ALL |
| Ptids.Ptid.CrystalizeWith | lib/server/Ptid.cpp:72-124 | ANY becomes the default; ALL and invalid identifiers are refused and nothing changes |
| Hex.ValueOfDigits | lib/server/Utils.cpp:101-135 | the digits of a number have its value and no leading zero |
| Hex.Val2Hex | lib/server/Utils.cpp:101-123 | writing back to front and reversing in place gives the shortest digits, most significant first, and a terminator |
| Hex.Hex2Val | lib/server/Utils.cpp:125-135 | the loop computes the value of the digits |
| Hex.RegVal2Hex | lib/server/Utils.cpp:52-77 | both byte orders fill the buffer with the digits of the low bytes |
| Hex.Hex2RegVal | lib/server/Utils.cpp:79-99 | both byte orders compute the value of the digits |
| Hex.RegRoundTrip | lib/server/Utils.cpp:52-99 | a value that fits the register comes back unchanged, in either byte order |
| Hex.RegDigitsRoundTrip | lib/server/Utils.cpp:52-99 | lowercase register digits come back unchanged, in either byte order |
| Hex.RegHexPairs | lib/server/Utils.cpp:52-77 | which byte of the value each pair of digits spells, in either byte order |
| Split.SplitString | lib/server/Utils.cpp:184-201 | the loop yields the maximal delimiter-free runs |
| Split.TokensLoseNothing | lib/server/Utils.cpp:184-201 | tokens are non-empty, free of the delimiter, and together everything but delimiters |
| Split.TokensOfJoin | lib/server/Utils.cpp:184-201 | splitting undoes joining for non-empty tokens |
| Split.TokensSeparate | lib/server/Utils.cpp:184-201 | a delimiter always separates: the tokens on its two sides are found independently |
| Split.SplitView | lib/server/Utils.cpp:203-218 | the loop yields the pieces between single delimiters |
| Split.PiecesOfJoin | lib/server/Utils.cpp:203-218 | splitting undoes joining unless the last piece is empty |
| Split.PiecesClosed | lib/server/Utils.cpp:203-218 | one delimiter at the end closes the last piece and starts no other |
| Xfer.TransferYieldsFileIff | lib/server/GdbServer.cpp:1051-1091 | asking from 0 and moving on by what arrives ends and yields the file exactly when the request length is positive and below the packet size, or one request and one packet hold the whole file |
| Xfer.RequestRoundTrip | lib/server/GdbServer.cpp:1052-1080 | the server reads out of a request exactly the name, offset and length the client put in |
| Xfer.RefusedIff | lib/server/GdbServer.cpp:1051-1080 | a request is refused exactly when it has not five pieces, does not end in two hex numbers, or names an unknown file |
| Xfer.FromHexIs | include/embdebug/ByteView.h:75-90 | fails exactly on a non-digit and else gives the value modulo 2^64 |
| Xfer.ChunkShape | lib/server/GdbServer.cpp:1081-1090 | `l` exactly when the rest of the file fits the request, and the data is dropped when it does not fit the packet |
| Xfer.RspReadFeature | lib/server/GdbServer.cpp:1051-1091 | the branch answers as the parsed request says, with every error case |
| Xfer.ViewFromHex | include/embdebug/ByteView.h:75-90 | the loop computes the value modulo 2^64 or fails on the first non-digit |
| Registers.ReadThenWrite | lib/server/GdbServer.cpp:734-772 | sending the `g` reply back as `G` leaves every register unchanged, whenever the reply fits |
| Registers.WriteThenRead | lib/server/GdbServer.cpp:734-772 | after a `G` of any hex digits, sending what `g` answers back changes nothing, and `g` answers with the very same digits if they were lowercase |
| Registers.ReplyIsCompleteIff | lib/server/GdbServer.cpp:737-749 | the reply holds all registers exactly when they fit the packet |
| Registers.RspReadAllRegs | lib/server/GdbServer.cpp:734-750 | the loop collects what fits, register by register |
| Registers.RspWriteAllRegs | lib/server/GdbServer.cpp:756-772 | the loop stores the value of each register's digits |
| Memory.MemoryPacketsAgree | lib/server/GdbServer.cpp:784-867 | `M` with digits and `X` with any escaped form of the same bytes leave the same memory, changed in exactly that range, and `m` answers with the digits, cut to the packet |
| Memory.BytesSurviveMemory | lib/server/GdbServer.cpp:784-867 | whatever bytes a client wants in memory, `M` with their digits and `X` with their escaped form put them there, and `m` answers with the digits of as many as the packet holds |
| Memory.BadWriteStops | lib/server/GdbServer.cpp:842-867 | a wrong number of digits writes nothing; at the first pair that is not hex the assertion fails with exactly the bytes before it written |
| Memory.MismatchedBytes | lib/server/GdbServer.cpp:1631-1652 | an `X` with more or fewer bytes than announced writes the smaller number |
| Memory.ReadNeverOverflows | lib/server/GdbServer.cpp:799-804 | no `m` reply fills the packet, a read is cut exactly when its digits would and then to as many bytes as do not, and a range outside memory brings nothing |
| Memory.RspReadMem | lib/server/GdbServer.cpp:784-817 | the loop appends two digits per byte and none is dropped |
| Memory.RspWriteMem | lib/server/GdbServer.cpp:842-867 | the loop writes each byte, nothing if the digits do not match the length, and only the bytes before the first character that is no hex digit, where the assertion fails |
| Memory.RspWriteMemBin | lib/server/GdbServer.cpp:1631-1652 | unescape in place, then write the shorter of what was asked and supplied |

## Left out

- Sockets, standard input and output, command line, tracing and log messages: replaced by the stream, credit and trace described above.
- The server and the link layer are not joined in one object: the server ignores whether `putPkt` succeeded, so its packets go into `trace`, and its break polls are answers of `Env`. In particular the break that `rspSyscallReply` discards after a ctrl-C is an ordinary `HaveBreak` on the link side.
- A write side that fails and later recovers: once the client takes no more bytes it takes none again.
- Text of stop, exit and file-I/O packets, and the reading of system-call arguments: only which packet is sent, for which core, and in what order. A target that claims system-call support is taken to name at least three argument locations.
- The text of the F reply, and of addresses and lengths in memory packets: taken as already parsed. Doubling a length is taken not to wrap.
- Wall-clock and cycle timeouts: the timeout test is an answer of `Env`.
- `monitor` commands other than reset and kill-core-on-exit, `Z`, `z`, `R`, `i`, `I`, `?`, non-stop mode and `effectsMultipleCores`: stubs, text or unused.
- A payload that fills the whole packet buffer is not followed by a terminator in the source; reading past it is not modelled. A packet size below six, which would lose the `vCont;` put in front of `c` and `s`, is not treated specially.
- Framing.RspUnescape: a lone `}` at the end of the data is excluded, since the source then reads the byte after the data.
- Hex.Hex2Val: more than eight digits or a non-digit fail the source's assertion and are excluded here; callers that can meet them report the failed assertion.
- Link.ExactlyOnceIff: a copy or an answer that vanishes altogether is not covered, as there is no timeout to follow it; as written, what is taken after a damaged copy is the payload with stale bytes in front; that case is Receiver.WrittenLoopIsRightIff.
- Registers.RspWriteAllRegs: too few digits or non-digits fail the source's assertion and are excluded.
- Memory.RspWriteMemBin: data ending in a lone `}` are excluded, as for Framing.RspUnescape.
- GdbServers.GdbServer.RspClientRequest: it takes a packet that has been told apart already; the switch on its first bytes, and the packets that do not concern run control, are not modelled there.
- Memory.MemoryPacketsAgree: for a range that does not lie inside memory the outcome depends on the target, and byte-by-byte and block writes may differ.
- Core states: `Cores.CoreState` is a value in a sequence, as the source keeps core states by value in a vector; references to an element are not modelled.
- Ownership, copying and moving of `RspPacket`: payloads are sequences.
