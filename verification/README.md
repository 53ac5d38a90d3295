# A verified model of the RTSP media server

The server streams H.264 and AAC files to any number of RTSP clients. This project models the way
of a frame from the file to the client, and the protocol between the threads that carry it, and
proves what that machinery is for.

* `Ring`, `RingProgress`, `Queue`: the broadcast ring with one producer and many consumers. Every
  section under the mutex is one event; condition variables are wait sets. A ghost record of the
  produced history gives the modular cursors their meaning.
* `Lifecycle`, `MediaTracks`: a track's start, producer loop, unregister and stop as a state
  machine whose producer steps interleave with everything, the sections of a running stop included.
* `AnnexB`, `Adts`, `FileReaders`: cutting the two file formats into frames.
* `Rtp`, `RtpStream`, `RtpSending`: packets byte by byte (RFC 3550, section 5.1), single NAL unit
  and FU-A packets (RFC 6184, sections 5.6 and 5.8), the AAC-hbr AU header (RFC 3640, sections
  3.2.1 and 3.3.6), and receivers written from those sections as the specification.
* `Races`, `Stranding`: what a registration during a stop leads to, and a teardown that never ends.
* `SessionHandlers`, `EndToEnd`: the sender thread of a session, and the composition of all the
  above into one theorem per medium.
* `Rtcp`, `RtcpPeers`: the report table, the sender report (RFC 3550, section 6.4.1) and its NTP
  time stamp.
* `Rtsp`, `RtspMessages`: parsing and printing RTSP messages.
* `Registries`, `Servers`: sessions, registrations, running producers, sender threads and
  connection ownership over request histories.
* `PortPools`: the pool of server port pairs.

Objects whose methods update fields are classes; each method is proved against a step function on
values, and the lemmas about those functions state what whole runs guarantee.

Where the code falls short of what one would expect of it, the exact condition is proved: which
frames the splitter cuts that the sender cannot take, when a unit comes back, when an AAC frame
fits the sender's buffer and comes back, when a method name survives printing, when a sender report
is well formed, when a request breaks the tables, ends the process or orphans a session, when an
unregister strands a sleeper (`Ring.StepWake`, and module `Stranding` for what follows), and when a
registration during a stop costs frames or mixes two runs of the producer (module `Races`). In two
places the code does not do what its own words say, and the model follows the code: the count of
packets sent counts frames (RtpRtcpHandler.cpp:153, 184), and the wait for all consumers is skipped
in exit mode (CircularQueue.h:42-43).

## Model

| member | source | states |
|---|---|---|
| `Ring.RingRefinesHistory` | CircularQueue.h:19-83 | From an empty queue of any capacity, after any sequence of queue events (exit mode, spurious wake-ups and implicit registration included): a consumer's items come from strictly increasing positions of the produced history, it has lost a whole number of capacities, its backlog is below the capacity, both modular cursors are the history positions mod the capacity, and every unread item is still in its slot; without exit mode its items are exactly `history[since..since + count]` |
| `Ring.StepLinked` | CircularQueue.h:19-83 | Every event keeps the link between modular cursors and history, lapping events included |
| `Ring.SlotMeaning` | CircularQueue.h:40-43 | A consumer holds the slot after the write cursor if and only if it is capacity - 1 behind, and the write slot if and only if it has read everything; the backlog computed from the cursors is the true one |
| `Ring.ConsumeMeaning` | CircularQueue.h:54-73 | In exit mode a consumer is given the default value whatever is left; otherwise it waits exactly when it has read the whole history, and else is given the item at its own position of the history |
| `Ring.BlockedMeaning` | CircularQueue.h:42-45 | produce waits if and only if exit mode is off and some consumer is exactly capacity - 1 items behind |
| `Ring.OnlyProduceMoves` | CircularQueue.h:40-45 | Until somebody produces, no run of events moves the write cursor: the slot a woken producer, the queue's only one, looks at again is the one computed before the wait |
| `Ring.LapExactly` | CircularQueue.h:43-48 | A produce costs a consumer items if and only if exit mode is on and that consumer is capacity - 1 behind; it then costs exactly one capacity |
| `Ring.StepWake` | CircularQueue.h:19-83 | One step keeps every sleeper justified (its wait condition still holds) if and only if it is not one of the named unregister or re-register steps that notify nobody |
| `Ring.WhoIsWoken` | CircularQueue.h:19-73 | Who is notified by what: producers by a read and by either change of mode, consumers by a write and by exit mode, nobody by anything else; and only whoever is told to wait joins a wait set |
| `Ring.ImplicitJoinLinked` | CircularQueue.h:57-58 | Consuming under an unknown id registers it at the start of the current lap, and the link to the history survives |
| `RingProgress.RunWake` | CircularQueue.h:19-83 | Over whole runs without such steps no wake-up is lost |
| `RingProgress.SleepingProducerHasReader` | CircularQueue.h:43-45 | With capacity at least 2, a sleeping producer waits for a consumer that is awake and has exactly capacity - 1 items to read |
| `RingProgress.UnregisterCanStrand` | CircularQueue.h:80-83 | A concrete run in which unregistering the slowest consumer leaves the producer and the only other consumer asleep although the producer's slot is free, in the state `StuckForever` speaks of |
| `RingProgress.StuckForever` | CircularQueue.h:37-83 | From a state in which the producer sleeps and nobody has anything to read, no run of registrations, unregistrations and reads by other threads ever wakes anybody |
| `RingProgress.ReadDrops` | CircularQueue.h:66-70 | A successful consume lowers the sum of all backlogs by one |
| `RingProgress.WriteAdds` | CircularQueue.h:47-48 | An unlapped produce raises the sum of backlogs by the number of consumers |
| `RingProgress.TotalBound` | CircularQueue.h:91-98 | The sum of backlogs is at most (capacity - 1) times the number of consumers |
| `RingProgress.ReadsUnblock` | CircularQueue.h:43-45 | Reads alone lower the sum by exactly their number, and if the producer is still blocked after n of them then n + capacity - 1 is at most the sum they started from: more reads than that always unblock it |
| `Queue.CircularQueue.constructor` | CircularQueue.h:16-17 | An empty queue of the given capacity, all slots default |
| `Queue.CircularQueue.SetExit` | CircularQueue.h:19-24 | Exit mode on and both wait sets emptied: exactly the ring's SetExit event |
| `Queue.CircularQueue.SetRun` | CircularQueue.h:31-35 | Exit mode off, only the producers' wait set emptied: exactly the SetRun event |
| `Queue.CircularQueue.Produce` | CircularQueue.h:37-52 | New state and answer are exactly those of the Produce event |
| `Queue.CircularQueue.Consume` | CircularQueue.h:54-73 | New state and answer are exactly those of the Consume event, the implicit insertion of cursor 0 included |
| `Queue.CircularQueue.RegisterConsumer` | CircularQueue.h:75-78 | Exactly the Register event: the cursor is the write cursor, nobody is notified |
| `Queue.CircularQueue.UnregisterConsumer` | CircularQueue.h:80-83 | Exactly the Unregister event: the cursor is erased, nobody is notified |
| `Queue.CircularQueue.IsPositionInUse` | CircularQueue.h:91-98 | True if and only if some registered cursor is at the position |
| `Queue.CircularQueue.NoConsumer` | CircularQueue.h:85-88 | True if and only if no id is registered |
| `Lifecycle.StepInv` | MediaSourceHandler.cpp:108-161 | Every enabled move of any thread keeps the track invariant: active exactly while a producer thread exists (outside a stop), at most one frame written after a stop has cleared the flag, exit mode with a live producer only inside the join, during a stop room in the ring for all that may still be written, no consumer ever lapped, file cursor and history agree |
| `Lifecycle.TrackKeepsSessions` | MediaSourceHandler.cpp:108-161 | In every reachable state, for every interleaving: no thread was replaced unjoined, a stop has let at most one more frame through, the history since the last start is a prefix of the file's frames, and every registered session has been given consecutive frames of the file from the first produced after it registered, is less than a ring behind and finds its unread frames in the ring |
| `Lifecycle.ProduceSpares` | MediaSourceHandler.cpp:116-119 | The exit-mode branch of produce never reaches a registered consumer's slot in a track |
| `Lifecycle.EndIsAnswered` | MediaSourceHandler.cpp:108-121 | Once its producer has ended, a track answers every session that asks with no frame and nobody is left asleep; and while nobody stopped it, what it produced since its start is the whole file |
| `Lifecycle.ProducerProgress` | MediaSourceHandler.cpp:108-121 | The producer of an active track plays the file to its end: each of its steps either finds the ring full with some session capacity - 1 behind, or lowers by one the number of steps left (three for each frame, and three to find the end and leave) |
| `Lifecycle.JoinTerminates` | MediaSourceHandler.cpp:153-160 | While stop waits in join, whatever else happens, the producer is never blocked while it lives and takes at most four more steps, after which the join can return |
| `Lifecycle.GivenRun` | MediaSourceHandler.cpp:123-138 | Every session has been given exactly the history from its registration on, which is consecutive frames of the file; one registered during a stop gets the last frames of the run that was ending, then the file from its beginning |
| `Lifecycle.StepPrompt` | MediaSourceHandler.cpp:123-161 | Every session stays registered since the last start through every move but a tardy registration: one during a stop while the producer may still write |
| `Lifecycle.RunPrompt` | MediaSourceHandler.cpp:108-161 | Over whole runs without such a registration every session is registered since the last start: all it is ever given are frames of the producer's present run |
| `Races.TardyFallsBehind` | MediaSourceHandler.cpp:123-161 | After every tardy registration the protocol allows, from any state, the run can go on so that the session is still registered from before the next start: the exclusion is exact |
| `Races.TardyGetsLateFrame` | MediaSourceHandler.cpp:108-161 | A reachable state, built move by move from a new track, in which such a session has been given the last frame of the stopped run and then frame 0 |
| `Races.RegistrationLaps` | MediaSourceHandler.cpp:127-161 | For every capacity and every state of a track between the no-consumer check of a stop and the clearing of is_active_: a registration there can be followed by moves that cost somebody frames if and only if the producer has at least a whole ring of frames left to write, and then the session loses one ring of them |
| `Races.RegisterDuringStopLaps` | MediaSourceHandler.cpp:127-161 | Such states are reached, for every capacity and every file with that many frames |
| `Stranding.TeardownStrands` | MediaSourceHandler.cpp:127-138 | A reachable state of a track in which, after the slower of two sessions has left, the producer and the sender thread of the other sleep |
| `MediaTracks.MediaTrack.constructor` | MediaSourceHandler.cpp:9-11 | A fresh inactive track over an empty queue satisfies the invariant |
| `MediaTracks.MediaTrack.RegisterSession` | MediaSourceHandler.cpp:123-125 | Exactly the RegisterSession move; the invariant is kept |
| `MediaTracks.MediaTrack.GetNextFrame` | MediaSourceHandler.cpp:136-138 | Exactly the GetFrame move, and the answer of the queue |
| `MediaTracks.MediaTrack.Start` | MediaSourceHandler.cpp:140-151 | Exactly the Start move: nothing if active, else exit mode lifted, file reopened if closed, a new producer |
| `MediaTracks.MediaTrack.RunProducer` | MediaSourceHandler.cpp:108-121 | One step of the producer loop is exactly the ProducerStep move; the invariant is kept |
| `MediaTracks.MediaTrack.UnregisterSession` | MediaSourceHandler.cpp:127-128 | Exactly the first section of unregister_session |
| `MediaTracks.MediaTrack.Stop` | MediaSourceHandler.cpp:129-161 | Each later section of unregister_session and stop is exactly the StopStep move |
| `AnnexB.SplitsUnits` | MediaSourceHandler.cpp:27-58 | Over a file of clean units that fit the window, repeated reading yields in order the units that start while at least MAX_FRAME_SIZE bytes remain, then one more, never the last unit, then -1 (the reader does not seek back once the end was hit) |
| `AnnexB.ReadPartition` | MediaSourceHandler.cpp:27-58 | For any file: a frame returned before the end is the stretch right before the new cursor, preceded only by whole windows without a second start code, has no start code after its third byte and is followed by one |
| `AnnexB.UnreadableFrames` | MediaSourceHandler.cpp:35-50 | Of all frames the splitter can return from any file, the sender reads past the end of exactly three: 00 00 00, 00 00 01 and 00 00 00 01 |
| `AnnexB.ReadableFile` | MediaSourceHandler.cpp:27-58 | The sender can take all frames of a file if and only if the splitter cuts none of these three from it |
| `AnnexB.StubsOccur` | MediaSourceHandler.cpp:27-58 | Three files from which they are cut |
| `Adts.AnnouncesMeans` | MediaSourceHandler.cpp:188-194 | Of all 7-byte strings the reader takes for headers exactly those laid out as ISO/IEC 13818-7 says, and finds in them exactly the length they carry: 12 sync bits, a 13-bit length over the last 2 bits of byte 3, byte 4 and the first 3 bits of byte 5, anything elsewhere |
| `Adts.ReadsExactly` | MediaSourceHandler.cpp:181-198 | One read on any file: it returns a frame and leaves a rest if and only if the file is a header announcing that frame, the frame, and the rest |
| `Adts.NoSyncRefused` | MediaSourceHandler.cpp:188-191 | A file that does not begin with twelve one bits is refused |
| `Adts.HeaderExample` | MediaSourceHandler.cpp:194 | FF F1 50 80 2E 7F FC announces a frame of 364 bytes |
| `FileReaders.H264Reader.Scan` | MediaSourceHandler.cpp:35-55 | The scanning loop finds the first start code at or after byte 3 of the window |
| `FileReaders.H264Reader.ReadNextFrame` | MediaSourceHandler.cpp:27-58 | The loop over the file cursor leaves in the buffer exactly the frame of the specification, with its size and cursor, or answers -1 at the end |
| `Adts.SplitsFrames` | MediaSourceHandler.cpp:181-198 | Reading a file of ADTS frames yields exactly these frames, then whatever the rest of the file holds |
| `Adts.AnnouncedLengths` | MediaSourceHandler.cpp:194 | A 7-byte ADTS header can announce a frame length if and only if length + 7 is below 8192 |
| `Adts.AdtsToRtp` | MediaSourceHandler.cpp:181-198 | File to client: the packets of an ADTS file's frames all fit the sender's buffer and are received as exactly those frames, if and only if no frame has more than 1018 bytes; no length an ADTS header can announce is truncated by the 13-bit AU size |
| `Adts.LegalButTooLong` | MediaSourceHandler.cpp:181-198 | For every length from 1019 to 8184 there is a legal ADTS file with one frame of that length, for which the sender's buffer has no room |
| `FileReaders.AacReader.ReadNextFrame` | MediaSourceHandler.cpp:181-198 | The method does exactly one read of the specification, short reads, bad sync words and lengths below the header size included |
| `Rtp.FrameRoundTrip` | RtpRtcpHandler.cpp:92-186 | An RFC 6184 receiver gets a frame's NAL unit back from the packets send_h264 makes, and follows the sequence numbers, if and only if the unit fits what those packets can carry: F bit 0 when fragmented, type 1 to 23 when sent alone |
| `Rtp.StreamRoundTrip` | RtpRtcpHandler.cpp:92-186 | For any list of frames with start codes, the receiver returns exactly the list of NAL units and holds nothing back if and only if each unit is one the packets can carry |
| `Rtp.ReceiveFragments` | RtpRtcpHandler.cpp:107-151 | From any point inside a fragmented unit, the remaining FU-A packets complete it exactly, up to its F bit |
| `Rtp.FragmentsWellFormed` | RtpRtcpHandler.cpp:93-153 | A unit too long for one packet becomes ceil((size - 1) / 1010) fragments, at least two; S only on the first, E and marker only on the last, R and F never; one timestamp; consecutive sequence numbers; each the right slice; none above 1024 bytes |
| `Rtp.FramedMeans` | RtpRtcpHandler.cpp:95-104 | A frame has a unit if and only if it is a start code of 3 or 4 bytes with something behind it, and the unit is what is behind it |
| `Rtp.RefusedFrame` | RtpRtcpHandler.cpp:101-104 | Any other frame sends nothing and changes nothing |
| `Rtp.ClockLaw` | RtpRtcpHandler.cpp:152-184 | Which frames move the clock: all with a unit except parameter sets of type 7 or 8 of at most 1012 bytes, by the increment mod 2^32; the sequence number moves by the packets sent |
| `Rtp.WireExample` | RtpRtcpHandler.cpp:117-206 | A single-unit packet, an AAC packet and the two FU-A bytes, byte by byte |
| `RtpStream.AacRoundTrip` | RtpRtcpHandler.cpp:188-220 | On the wire format alone, an RFC 3640 receiver reads an AAC frame back from its packet if and only if its length is below 8192 |
| `RtpStream.AacDelivery` | RtpRtcpHandler.cpp:188-220 | The packet fits the buffer it is assembled in and the receiver gets the frame back from it if and only if the frame has at most 1018 bytes |
| `RtpStream.HeaderLaw` | RtpRtcpHandler.cpp:92-235 | Over any mixture of frames the sender can take, wire sequence numbers are consecutive mod 2^16 and every packet carries increment times the number of earlier timed frames, mod 2^32, where single-packet SPS and PPS do not count |
| `RtpStream.StateIs` | RtpRtcpHandler.cpp:127-218 | The sender's counters after any such mixture: sequence number up by the packets sent, timestamp by the timed frames |
| `RtpSending.RtpSender.constructor` | RtpRtcpHandler.cpp:11-20 | A sender starts at sequence number 0, time 0 and empty counters |
| `RtpSending.RtpSender.SendFragments` | RtpRtcpHandler.cpp:107-151 | The fragmentation loop puts exactly the specified fragments on the wire through the packet buffer |
| `RtpSending.RtpSender.SendH264` | RtpRtcpHandler.cpp:92-186 | Wire, sequence number, timestamp and packet count after any frame: nothing for a missing start code, one packet, or fragments; the packet count rises by one per accepted frame |
| `RtpSending.RtpSender.SendAac` | RtpRtcpHandler.cpp:188-220 | Wire, sequence number, timestamp and count after an AAC frame of at most 1018 bytes, the most the packet buffer has room for |
| `RtpSending.RtpSender.SendRtpPacket` | RtpRtcpHandler.cpp:222-235 | As above for either medium; the octet count takes in start codes and refused frames |
| `Rtcp.AcceptsExactly` | RtpRtcpHandler.cpp:238-256 | A packet is taken for a receiver report if and only if its version is 2, its type 201, and it was received as far as its length field says |
| `Rtcp.RefusedReport` | RtpRtcpHandler.cpp:246-256 | Every other packet leaves the report table alone |
| `Rtcp.ReportsFillTable` | RtpRtcpHandler.cpp:237-277 | After any sequence of well-formed receiver reports the table holds the last block of every source and nothing else |
| `RtcpPeers.RtcpPeer.ParseRtcpPacket` | RtpRtcpHandler.cpp:237-277 | Accepts exactly version-2 receiver reports that were received whole, and stores their blocks; anything else leaves the table alone |
| `Rtcp.SenderReportRoundTrip` | RtpRtcpHandler.cpp:343-356 | The sender report parses back to exactly its fields and blocks if and only if there are at most 31 blocks; it fits the 4096-byte buffer if and only if there are at most 169, and then its length field gives its size |
| `Rtcp.ReportExample` | RtpRtcpHandler.cpp:318-347 | The fixed part of a sender report, word by word |
| `Rtcp.TableGrows` | RtpRtcpHandler.cpp:262-274 | For every n up to 2^32 there are n well-formed receiver reports after which the table has n entries |
| `Rtcp.SourcesBreakReport` | RtpRtcpHandler.cpp:262-356 | So the failing cases of the sender report are reached: after those reports, whatever order the table is walked in, the report reads back if and only if n is at most 31 and fits the buffer if and only if n is at most 169 |
| `RtcpPeers.RtcpPeer.BuildSenderReport` | RtpRtcpHandler.cpp:343-355 | The buffer holds the report with every block of the table in it, once |
| `Rtcp.NtpExact` | RtpRtcpHandler.cpp:327-337 | For every microsecond below a second the fraction never carries into the seconds, seconds are right mod 2^32, microseconds are recovered exactly by rounding up, and the fraction is strictly increasing |
| `Rtsp.RequestRoundTrip` | RtspMessage.cpp:67-137 | A printable request, printed with any body and any header order, is parsed back to the same URI, protocol and headers, and to the same method if and only if printing knows that method |
| `Rtsp.ParsedIsPrintable` | RtspMessage.cpp:67-111 | Whatever parse made of a text with a three-word request line is in printable form, even if an exception cut it short |
| `Rtsp.ParsePrintParse` | RtspMessage.cpp:67-137 | Parsing, printing and parsing again changes neither URI, protocol nor headers, and printing again gives the same text |
| `Rtsp.ResponseRoundTrip` | RtspMessage.cpp:113-137 | Every response is read by a client of section 7 of RFC 2326: for any status, protocol without spaces, one-line headers in any order and any body, it gives back protocol, decimal code, reason phrase, header map and body |
| `Rtsp.Reasons` | RtspMessage.cpp:43-51 | 100 is Continue, 200 OK, 201 Created, and every other code Unknown |
| `Rtsp.NumberTextReads` | RtspMessage.cpp:118 | The text of a number is its decimal digits |
| `Rtsp.NumberExamples` | RtspMessage.cpp:118 | The texts of 0, 200 and 4096 |
| `Rtsp.HeadersAreRead` | RtspMessage.cpp:83-108 | Any list of legal header lines is read into the map in which the last line of a name wins, whatever body follows |
| `Rtsp.CSeqIsRead` | RtspMessage.cpp:102-105 | A CSeq line with the decimal text of n sets the sequence number to n, or minus n to 2^32 - n, is no header, and throws if an int cannot hold it |
| `Rtsp.BadCSeqThrows` | RtspMessage.cpp:104 | A CSeq line whose value does not begin with a number throws |
| `Rtsp.StoiReads` | RtspMessage.cpp:104 | std::stoi on digits, with or without a sign and whatever but a digit follows: their number if an int can hold it, an exception otherwise |
| `Rtsp.EmptyValueThrows` | RtspMessage.cpp:92-100 | A header line without a value, with or without a colon, throws and leaves what was read before it |
| `Rtsp.LastLineWins` | RtspMessage.cpp:106 | Of the header lines with one name the last gives the value; a name without a line keeps its old one |
| `Rtsp.LineEndsAlike` | RtspMessage.cpp:85 | A header line may end in CR LF or in LF alone |
| `Rtsp.ShortRequestLine` | RtspMessage.cpp:77-80 | A request line of one word or two leaves the missing fields as they were |
| `Rtsp.NoDataIsNoLine` | RtspMessage.cpp:72-74 | parse answers false if and only if there is no text at all |
| `Rtsp.MethodRoundTrip` | RtspMessage.cpp:19-64 | A method survives printing and parsing if and only if it is not one of the five that only parse_method knows |
| `Rtsp.MethodsAreStandard` | RtspMessage.cpp:19-40 | Each of the eleven method words of section 10 of RFC 2326 means its method, and every other word is no method |
| `RtspMessages.RtspMessage.constructor` | RtspMessage.cpp:11-17 | The fields of a fresh message |
| `RtspMessages.RtspMessage.Parse` | RtspMessage.cpp:67-111 | The line loop leaves exactly the message of the specification, also when it ends in an exception or on empty input |
| `RtspMessages.RtspMessage.CreateResponse` | RtspMessage.cpp:113-137 | The text is the printed message for some order of its headers |
| `Registries.StepAgrees` | SessionManager.cpp:8-38 | The server survives a request and its tables stay in agreement (registered ids of a track are exactly the live sessions holding it, running producers have a consumer, sender threads belong to live handlers of running tracks) if and only if the request neither replaces a handler by one of another stream's track nor sets up a track that is being played, which destroys an unjoined thread |
| `Registries.StepSound` | SessionManager.cpp:8-38 | Through any request at all, every handler's session stays registered with its track and every sender thread's track keeps running |
| `Registries.TeardownEnds` | SessionManager.cpp:29-38 | After a teardown the session is gone with its threads and registrations, a track left without consumers has stopped, and every other session is as before |
| `Registries.CloseEnds` | ConnectionHandler.cpp:21-27 | The close of a connection ends the session it owned in the same way, drops the ownership, and does nothing else |
| `Registries.PlayStarts` | Session.cpp:46-66 | After a PLAY every track of the session runs and each of its handlers has a sender thread; nothing else has changed, and nothing at all for an unknown session |
| `Registries.SetupJoins` | ConnectionHandler.cpp:217-242 | After a SETUP of a known track its session, new or not, has a handler for it under its name and is registered; an unknown track changes only the ownership; the connection owns the session exactly if the request named none |
| `Registries.StepOwned` | SessionManager.cpp:29-38 | Every live session stays owned by a connection through a request if and only if the request orphans none: a second session generated on one connection, or a SETUP naming a session that neither exists nor is owned |
| `Registries.RegistryAgrees` | SessionManager.cpp:8-38 | Over whole histories without such requests the server survives and the tables agree, so a track without consumers has no running producer; once all connections have closed nothing is left registered, running or unjoined, unless a request orphaned a session |
| `Registries.EachCanHappen` | SessionManager.cpp:8-38 | Histories from the empty server that lead up to each of the bad requests |
| `Servers.Server.TerminateSession` | SessionManager.cpp:29-38 | Joins the session's sender threads, erases it and, handler by handler, its registrations, stopping every track it leaves without consumers |
| `Servers.Server.HandleSetup` | ConnectionHandler.cpp:193-252 | The tables after SETUP: id from the header or generated and then owned, session created if new, track registered and handler stored, unknown track changing nothing but the ownership |
| `Servers.Server.HandlePlay` | ConnectionHandler.cpp:254-281 | The tables after PLAY: every track of the session running, every handler with a sender thread, an unknown session changing nothing; handlers that are playing are left alone |
| `Servers.Server.HandleTeardown` | ConnectionHandler.cpp:304-323 | The tables after TEARDOWN |
| `Servers.Server.CloseConnection` | ConnectionHandler.cpp:21-27 | The tables after a connection has gone: its own session is terminated |
| `Servers.Server.UnregisterSession` | Session.cpp:15-19 | Leaving a track; the last one to leave stops it |
| `Servers.Server.AddMediaTrack` | Session.cpp:32-44 | The session is registered with the track and the new handler takes the place of an old one of the same name, thread and all |
| `SessionHandlers.SessionHandler.constructor` | Session.cpp:32-44 | A session joins a track with a fresh sender: it has been given nothing and has sent nothing |
| `SessionHandlers.SessionHandler.SenderTurn` | Session.cpp:54-72 | One turn of the sender loop waits, ends for want of a frame, as it always does once the producer has ended, or sends the next one; the wire then holds exactly the packets of the frames the session was given, in order |
| `SessionHandlers.OthersLeaveAlone` | Session.cpp:54-72 | No move of another thread, producer or session, touches what a session was given or where it joined |
| `SessionHandlers.StaysValid` | Session.cpp:54-72 | Hence the packets on the wire stay exactly those of the frames given, and the handler valid, through every step another thread makes on the track |
| `Stranding.StrandedForever` | Session.cpp:88-101 | Such a track stays so over every legal run of the other threads: the sender thread never returns from get_next_frame, so the join in Session::stop never does |
| `EndToEnd.H264EndToEnd` | Session.cpp:54-72 | For every reachable state of an H.264 track and every registered session, under any interleaving of producer and sessions: from the packets of the first k frames its sender was given, the client rebuilds exactly k consecutive NAL units of the file, beginning with the first produced after it registered (for one registered during a stop, the last units of the ending run before unit 0), if and only if the packets can carry each of them |
| `EndToEnd.ClientHasUnits` | Session.cpp:54-72 | The same for the running sender thread: at every turn the client has rebuilt from what is on the wire one unit for each frame given, if and only if each can be carried |
| `EndToEnd.UnitsCanBeSent` | Session.cpp:54-72 | The sender can take every frame of a file made of clean units |
| `EndToEnd.AacEndToEnd` | Session.cpp:54-72 | For an AAC track over an ADTS file: the packets of the first k frames given fit the sender's buffer and the client recovers from them k consecutive frames of the file, if and only if none of them has more than 1018 bytes |
| `EndToEnd.ClientHasFrames` | Session.cpp:54-72 | The same for the running sender thread of an AAC session, whose frames all fit |
| `EndToEnd.FramesCanBeSent` | Session.cpp:54-72 | The sender can take every frame of an ADTS file if and only if none has more than 1018 bytes |
| `PortPools.StepWhole` | PortPool.h:21-38 | Every pair stays in exactly one place, free or handed out, through a call if and only if the call does not release a pair that is not out |
| `PortPools.PairsStayApart` | PortPool.h:14-38 | After any history that releases only what is out, pairs handed out share no port, and the next allocation gives a pair nobody holds, or -1 exactly when all are out |
| `PortPools.FirstInFirstOut` | PortPool.h:14-38 | A fresh pool hands out its pairs from the lowest port up, and a pair given back comes after all that were free |
| `PortPools.PortPool.constructor` | PortPool.h:14-18 | The loop fills the pool with all pairs from the first to the last port |
| `PortPools.PortPool.AllocatePortPair` | PortPool.h:21-32 | Takes the front of the queue, or answers -1 when it is empty |
| `PortPools.PortPool.ReleasePortPair` | PortPool.h:35-38 | Appends whatever is released |

## Left out

- RtspMessages.RtspMessage.CreateResponse: does not fix the order of the headers (the source walks a sorted map); any order is allowed, and the round trips hold for every order.
- RtcpPeers.RtcpPeer.BuildSenderReport: does not fix the order of the blocks, which in the source is that of a map; the table is required to fit the buffer, as nothing in the source checks it (`Rtcp.SenderReportRoundTrip` says when it does).
- RtcpPeers.RtcpPeer.ParseRtcpPacket: does not model the header fields copied into the output argument, nor the receive loop and BYE.
- RtpSending.RtpSender.SendH264: frames behind whose end the source would read are excluded; `AnnexB.UnreadableFrames` shows which they are.
- RtpSending.RtpSender.SendAac: frames above 1018 bytes, for which the source would write past the packet buffer, are excluded.
- RtpSending.RtpSender.SendRtpPacket: excludes the same frames of either medium.
- RtpStream.HeaderLaw: states nothing about frames the sender cannot take, as what the source then sends depends on memory behind the frame.
- RtpStream.StateIs: restricted like `RtpStream.HeaderLaw`.
- SessionHandlers.SessionHandler.constructor: requires a file whose frames the sender can take; `AnnexB.ReadableFile`, `EndToEnd.UnitsCanBeSent` and `EndToEnd.FramesCanBeSent` say which files these are.
- Lifecycle.StepInv: start and unregister_session are atomic towards each other, as the source does not lock its flags; between the no-consumer check of a stop and the clearing of is_active_, a session registers only if the producer has less than a ring of frames left, which is exactly when it cannot lose any (`Races.RegistrationLaps`).
- Lifecycle.TrackKeepsSessions: reachability has the limits named for `Lifecycle.StepInv`.
- MediaTracks.MediaTrack.RegisterSession: not with a ring of frames left to write between the no-consumer check of a stop and the clearing of is_active_.
- MediaTracks.MediaTrack.GetNextFrame: only for a registered id, as a session's sender threads are joined before it unregisters; what the queue does with an unknown id is `Ring.ImplicitJoinLinked`.
- MediaTracks.MediaTrack.Start: not while another thread is inside unregister_session.
- MediaTracks.MediaTrack.UnregisterSession: not while another one is under way.
- FileReaders.H264Reader.ReadNextFrame: the file is a byte sequence with a cursor and an end flag; open failures are left out.
- FileReaders.AacReader.ReadNextFrame: a read of negative length counts as a failed read; headers with a CRC are cut like all others, at 7 bytes, as the code does.
- Rtp.StreamRoundTrip: the network neither loses nor reorders packets; the signed 32-bit overflow of the sequence counter after 2^31 packets is not modelled.
- Rtcp.NtpExact: the clock is a parameter, in seconds since 1970 and microseconds.
- Servers.Server.HandleSetup: URL and Transport regular expressions, ports and responses are left out, socket creation succeeds, and the generated session id is a parameter.
- Servers.Server.HandlePlay: of the sender threads only their existence is modelled (what they do is `SessionHandlers`), and not the response.
- Sockets, address conversion and the random SSRC: sending appends to a ghost list of packets.
- Pacing by sleep_for, and real time altogether.
- PAUSE and a PLAY after it: Session::start then replaces a thread that may still be joinable (Session.cpp:54).
- The join of a session's own sender thread in Session::stop, and the read of the report table's size outside its mutex (RtpRtcpHandler.cpp:355).
- OPTIONS, DESCRIBE and the text of responses; CSeq, which is never printed (RtspMessage.cpp:113-137).
- ThreadPool, RtspServer, Logger, MediaSourceManager, main and the empty classes: plumbing without properties of this kind.
