# ChatV core, modelled in Dafny

ChatV is a peer-to-peer chat system in Java. A directory server (`ServerCore`) keeps the
roster of online peers: their names, addresses and ports. Clients register with the
server, refresh the roster with periodic keep-alives, and say goodbye with a STOP
keep-alive. They then talk to each other directly: chat text, edits and files.

Every message is a string of `<TAG>…</TAG>` pairs. `Encode` builds these strings and
`Decode` recognises and takes them apart. A group-chat window adds a view over messages
stored in a database: polling, typing indicators, edits, reactions and membership.

The project has one Dafny module per core Java file (`Tags`, `Encode`, `Decode`, `Peers`,
`DataFiles`, `Server`, `Client`, `ChatRoom`, `MainFrame`, `StartClient`, `RegisterFrame`,
`GroupChat`), two helpers, and five modules of lemmas:
- `Wrappers`: `Option`.
- `JavaText`: `indexOf`, `trim`, `Integer.parseInt` over ASCII digits and `Integer.toString`,
  `String.split`, the few `replaceAll` patterns used, UTF-16 code units, and 32-bit wrap-around.
- `DecodeRoundTrips` and `PayloadFacts`: decoding what `Encode` builds, and the payload getters
  on the strings they accept.
- `DecodeFacts`: the shapes the decoders recognise.
- `RosterRoundTrip`: the server's roster text read back by `Decode.getAllUser`.
- `ChatRoomFacts`: the branches and effects of `ChatRoom.run`.

How the files are modelled:
- **Stateful objects are classes.** `Peer`, `DataFile`, `ServerCore`, `ChatRoom`, `Client`,
  the friends list model and `GroupChatFrame` are classes whose methods are proved against
  specification functions. Loops keep their loops.
- **Pure code is functions.** The codec, the lookups and the validators are functions.
  Lemmas carry the round trips and invariants.
- **The environment is a parameter.** Database answers, socket replies, name lookups
  (`InetAddress.getByName`), clock and random draws all become parameters (oracles).

## Model

| member | source | states |
|---|---|---|
| Tags.SessionTagsPaired | src/tags/Tags.java:23-39 | Every session, name, port and accept open tag has as its closing partner the same tag with `/` after `<`. |
| Tags.KeepAliveTagsPaired | src/tags/Tags.java:31-53 | The keep-alive, status, peer and IP tags pair the same way. |
| Tags.ChatTagsPaired | src/tags/Tags.java:42-104 | The chat request, chat message, edit, OLD and NEW tags pair the same way. |
| Tags.FileTagsPaired | src/tags/Tags.java:56-63 | The file request, acknowledgement and file data tags pair the same way. |
| Tags.FileRequestTagLengths | src/tags/Tags.java:56-57 | The file request open tag is 10 characters long and its close tag 11. |
| Tags.ChunkCountCeiling | src/tags/Tags.java:20 | MAX_MSG_SIZE / 1024 is 1000, the largest number of 1 KiB blocks a transfer may have. |
| Tags.StatusWordsDistinct | src/tags/Tags.java:91-92 | RUNNING and STOP differ, and neither holds `<` or `>`. |
| Tags.FileDataTerminatorDistinct | src/tags/Tags.java:61-64 | The transfer terminator differs from the begin and end markers. |
| Tags.DistinctTags | src/tags/Tags.java:23-104 | No well-formed tag starts with another one, so the tags cannot be confused by position. |
| Encode.SendMessage | src/tags/Encode.java:61-73 | The result is the message, unchanged, between `<CHAT_MSG>` and `</CHAT_MSG>`. |
| Encode.FindDelimitedRun | src/tags/Encode.java:65-70 | The matcher's next run either ends just after a maximal `[^<>]` stretch or does not exist. |
| Encode.SendFile | src/tags/Encode.java:102-104 | A file request is 21 characters longer than the name, and characters 10 to length-11 are exactly the name. |
| Encode.KeepAliveStatusOnly | src/tags/Encode.java:37-42 | The refresh and exit messages are the same keep-alive layout with RUNNING and STOP as status, so they differ. (Also lines 112-117 of the same file.) |
| Encode.RegisterHasNoTags | src/tags/Encode.java:51-53 | The REGISTER line starts with `REGISTER|` and holds no angle bracket when its fields hold none. |
| Decode.ExtractContent | src/tags/Decode.java:307-317 | A missing tag gives ""; a non-empty result is framed by the tags in the source and holds no close tag; the one exception path is an Option. |
| Decode.ExtractNeverThrows | src/tags/Decode.java:307-317 | For tag pairs whose open tag cannot hide a close tag, extraction never throws. |
| Decode.ExtractFirst | src/tags/Decode.java:307-317 | Extraction returns the text between the first open tag and the first close tag after it. |
| Decode.TagPairsSafe | src/tags/Decode.java:307-317 | Every tag pair the decoders extract with satisfies the no-throw condition. |
| Decode.GetBetweenTags | src/tags/Decode.java:283-287 | For a well-formed element name, the lookup always returns a value. |
| PayloadFacts.GetBetweenTagsOfElement | src/tags/Decode.java:283-287 | In a text whose first open and close tags of `n` frame `t`, the lookup returns exactly `t`. |
| Decode.GetUser | src/tags/Decode.java:73-95 | A result exists only for a registration-shaped message, and then it has exactly two fields. |
| Decode.GetMessage | src/tags/Decode.java:180-185 | A text comes back if and only if the whole string is a chat message. |
| Decode.GetEditPayload | src/tags/Decode.java:187-189 | A payload comes back if and only if the string has the edit shape. (Also lines 215-222 of the same file.) |
| Decode.GetDeletePayload | src/tags/Decode.java:191-193 | A payload comes back if and only if the string has the delete shape; the delete tags are parameters. (Also lines 224-230 of the same file.) |
| Decode.GetTypingPayload | src/tags/Decode.java:195-197 | A payload comes back if and only if the string has the typing shape, ON or OFF. (Also lines 232-238 of the same file.) |
| Decode.GetReactionPayload | src/tags/Decode.java:199-201 | A payload comes back if and only if the string has the reaction shape: any target, then an emoji without `<>`. (Also lines 240-247 of the same file.) |
| PayloadFacts.GetDeleteOfDeleteText | src/tags/Decode.java:224-230 | On a delete message for id text `t`, the getter returns `t` exactly when `t` holds no line terminator, and fails otherwise. (Also lines 191-193 of the same file.) |
| PayloadFacts.TypingPayloadOf | src/tags/Decode.java:232-238 | The typing getter returns ON for the ON message, OFF for the OFF message, and fails on every other string. (Also lines 195-197 of the same file.) |
| PayloadFacts.GetReactionOfReactionText | src/tags/Decode.java:240-247 | On a reaction message for target `t` and emoji `e`, the getter returns that target and emoji exactly when `t` holds no line terminator and `e` is non-empty. (Also lines 199-201 of the same file.) |
| Decode.GetNameRequestChat | src/tags/Decode.java:255-264 | A name comes back if and only if the string is a chat request. |
| Decode.SanitizeIp | src/tags/Decode.java:326-332 | The cleaned address has no blank at either end. |
| Decode.RemoveNamed | src/tags/Decode.java:168 | removeIf keeps exactly the peers with other names and never grows the list. |
| Decode.UpdatePeerOnline | src/tags/Decode.java:153-172 | The roster changes only for a STOP keep-alive, and then it only loses peers. |
| Decode.MatchEndAt | src/tags/Decode.java:73-95 | The greedy field match ends at the longest possible span, or fails. |
| Decode.FindFrom | src/tags/Decode.java:73-95 | `find` returns the first position with a match, or -1 when there is none. |
| Decode.EntryFrom | src/tags/Decode.java:113-142 | The roster scan finds the first PEER entry at or after the position. |
| Decode.GetAllUser | src/tags/Decode.java:103-144 | The while-find loop builds exactly the roster that the reference decoder gives. |
| Decode.FindPeersStep | src/tags/Decode.java:113-142 | One loop iteration consumes the first entry and puts its peer first. |
| DecodeRoundTrips.GetMessageOfChatText | src/tags/Decode.java:180-185 | Decoding an encoded chat message returns the message if and only if it holds no line terminator and no close tag; a line terminator gives null. |
| DecodeRoundTrips.GetEditOfSendEdit | src/tags/Decode.java:215-222 | An encoded edit decodes to its old and new texts, and to null when either holds a line terminator. |
| DecodeRoundTrips.GetUserOfCreateAccount | src/tags/Decode.java:73-95 | A registration decodes to [name, port] when the port is all digits and both fields are single-line, and to null otherwise. |
| DecodeRoundTrips.CreateAccountShape | src/tags/Encode.java:25-29 | The registration matches the create-account pattern if and only if both fields are single-line. |
| DecodeRoundTrips.GetNameOfSendRequestChat | src/tags/Decode.java:255-264 | A chat request decodes to its name when the name has no `<>`, and to null otherwise. |
| DecodeRoundTrips.ExitRemovesPeer | src/tags/Decode.java:153-172 | An exit message removes every peer with that name; an empty or bracketed name changes nothing. |
| DecodeRoundTrips.RunningKeepsPeers | src/tags/Decode.java:153-172 | A RUNNING keep-alive leaves the roster as it is. |
| DecodeRoundTrips.RemoveNamedAbsent | src/tags/Decode.java:168 | Removing a name nobody has leaves the list unchanged. |
| DecodeRoundTrips.RemoveNamedConcat | src/tags/Decode.java:168 | Removal works piecewise over a concatenation, so the order of the kept peers is preserved. |
| DecodeRoundTrips.RemoveNamedIdempotent | src/tags/Decode.java:168 | Removing the same name twice is removing it once. |
| DecodeRoundTrips.CheckFileOfSendFile | src/tags/Decode.java:272-274 | A file request passes the file check if and only if the name is single-line. |
| DecodeRoundTrips.FileChecksExclusive | src/tags/Decode.java:60-64 | No string is both a file request and a file acknowledgement. (Also lines 272-274, 295-297 of the same file.) |
| DecodeRoundTrips.SanitizeSlashedAddress | src/tags/Decode.java:326-332 | Leading slashes are dropped, and a trimmed address after them comes back unchanged. |
| RosterRoundTrip.AllUsersOfRosterText | src/tags/Decode.java:103-144 | Decoding the server's roster text gives the same peers in order: names and ports kept, hosts sanitised. |
| RosterRoundTrip.ReceivedKeepsNamesAndPorts | src/tags/Decode.java:131-139 | The i-th decoded peer has the i-th name and port and the cleaned host. |
| RosterRoundTrip.AllUsersOfDeny | src/tags/Decode.java:103-111 | SESSION_DENY decodes to null. |
| RosterRoundTrip.AllUsersOfEmptyRoster | src/tags/Decode.java:103-144 | An empty roster envelope decodes to the empty list. |
| Peers.Peer.constructor | src/data/Peer.java:9-11 | A new peer has name "", host "" and port 0. |
| Peers.Peer.SetPeer | src/data/Peer.java:20-24 | setPeer sets all three fields. |
| Peers.Peer.SetName | src/data/Peer.java:31-33 | setName changes only the name. |
| Peers.Peer.SetHost | src/data/Peer.java:40-42 | setHost changes only the host. |
| Peers.Peer.SetPort | src/data/Peer.java:49-51 | setPort changes only the port. |
| Peers.SetPeerThenGet | src/data/Peer.java:20-24 | After setPeer, the getters return what was set. (Also lines 58-78 of the same file.) |
| Peers.Peer.Equals | src/data/Peer.java:86-94 | equals holds if and only if the other peer is non-null with the same name, host and port. |
| Peers.Peer.HashCode | src/data/Peer.java:97-99 | The hash is a 32-bit integer of the three fields, each string hashed over its UTF-16 code units. |
| Peers.AstralCharHash | src/data/Peer.java:97-99 | A character above U+FFFF hashes as its two surrogates: the one-character string U+1F600 hashes to 1772899, as in Java. |
| Peers.EqualsReflexive | src/data/Peer.java:86-94 | Every peer equals itself. |
| Peers.EqualPeersHashAlike | src/data/Peer.java:86-99 | Equal peers have equal hash codes. |
| DataFiles.DataFile.Default | src/data/DataFile.java:21-23 | The default buffer is MAX_MSG_SIZE (1024000) bytes. |
| DataFiles.DataFile.OfSize | src/data/DataFile.java:30-32 | The sized constructor allocates exactly that many bytes. |
| DataFiles.DataFile.GetData | src/data/DataFile.java:39-41 | getData returns the current buffer. |
| DataFiles.DataFile.SetData | src/data/DataFile.java:48-50 | setData replaces the buffer. |
| DataFiles.DataFile.GetSize | src/data/DataFile.java:57-59 | getSize is the buffer length, or 0 for a null buffer. |
| Server.ServerCore.constructor | src/server/ServerCore.java:30-35 | A new server has an empty roster and both flags cleared. |
| Server.ServerCore.SendSessionAccept | src/server/ServerCore.java:38-57 | The index loop builds the roster text: one PEER entry per peer, in roster order, inside SESSION_ACCEPT. |
| Server.EmptyRosterText | src/server/ServerCore.java:38-57 | An empty roster gives `<SESSION_ACCEPT></SESSION_ACCEPT>`. |
| Server.EntriesTextSnoc | src/server/ServerCore.java:42-54 | Appending a peer appends its entry to the text. |
| Server.ServerCore.IsExsistName | src/server/ServerCore.java:113-123 | The loop answers true if and only if some roster peer has the name. |
| Server.ServerCore.SaveNewPeer | src/server/ServerCore.java:91-111 | With the store's consent, exactly one peer is appended and nothing else changes. |
| Server.ServerCore.WaitForConnection | src/server/ServerCore.java:67-89 | One connection changes the roster and the exit flag as the decision function gives. |
| Server.ServerCore.Handle | src/server/ServerCore.java:67-89 | One connection: the new state and reply (roster, deny, nothing, or a crash) are the reference step, and the written text is that reply's. (Also lines 128-154 of the same file.) |
| Server.ServerCore.Run | src/server/ServerCore.java:128-154 | The accept loop serves the connections in order until one fails. |
| Server.ServerCore.StopServer | src/server/ServerCore.java:60-64 | stopserver sets isStop and touches nothing else. |
| Server.RegisterAppends | src/server/ServerCore.java:74-76 | Registering an unseen name appends (name, remote address, port) at the end, and the roster is sent. (Also lines 106-110 of the same file.) |
| Server.RegisterDuplicateDenied | src/server/ServerCore.java:74-77 | Registering a taken name leaves the roster as it was and the reply is SESSION_DENY. (Also lines 143-148 of the same file.) |
| Server.RegisterFails | src/server/ServerCore.java:74-76 | An unparsable port or a store failure ends the server thread. (Also lines 150-153 of the same file.) |
| Server.ExitServed | src/server/ServerCore.java:79-88 | A STOP for a known name removes it and writes nothing; for an unknown name the roster is sent. (Also lines 133-139 of the same file.) |
| Server.RunningServed | src/server/ServerCore.java:87-88 | A RUNNING keep-alive gets the full roster. (Also lines 136-139 of the same file.) |
| Server.UnrecognizedServed | src/server/ServerCore.java:87-88 | Unrecognised text gets the full roster. (Also lines 136-139 of the same file.) |
| Server.ServeClearsExit | src/server/ServerCore.java:79-86 | Serving a connection leaves isExit cleared for the next one. (Also lines 133-135 of the same file.) |
| Server.KeepAliveTurnPeers | src/server/ServerCore.java:79-83 | For a non-registration message, the roster changes only through updatePeerOnline. |
| Server.RegistrationTurnPeers | src/server/ServerCore.java:74-77 | For a registration, the roster grows by the new peer exactly when the name is free, the port parses and the store agrees. |
| Server.RemoveNamedShrinks | src/server/ServerCore.java:80-83 | The roster shrinks if and only if the name was in it. |
| Server.ServeAllKeepsDistinct | src/server/ServerCore.java:74-83 | Roster names stay pairwise distinct across any sequence of connections. |
| ChatRoom.BlockCount | src/client/ChatFrame.java:591-595 | The block count is the ceiling of the size over 1024. |
| ChatRoom.BlockCountZero | src/client/ChatFrame.java:591-595 | The block count is 0 exactly for an empty file. |
| ChatRoom.JavaBlockCountExact | src/client/ChatFrame.java:591-593 | With the two `(int)` casts, sizeOfData equals the rounded-up kilobyte count for every length up to 2^41 - 1024 bytes. |
| ChatRoom.JavaBlockCountWraps | src/client/ChatFrame.java:591-593 | At 2^41 bytes the cast kilobyte count is Integer.MIN_VALUE, although the true count is over the 1000-block ceiling. |
| ChatRoom.LastBlockInRange | src/client/ChatFrame.java:632-635 | The last buffer has the size minus the full blocks, between 1 and 1024 bytes. |
| ChatRoom.TooLargeSendsNoBlock | src/client/ChatFrame.java:605-613 | Above 1000 blocks, only the terminator is sent. |
| ChatRoom.CompleteTransfer | src/client/ChatFrame.java:600-656 | A file of 1 to 1000 blocks sends each block at its size, then the terminator. |
| ChatRoom.ProgressBounded | src/client/ChatFrame.java:636 | Progress stays within 0..100, never decreases, and ends at 100 on completion. |
| ChatRoom.CloseOnlyAtEnd | src/client/ChatFrame.java:637-655 | The terminator is sent exactly when the transfer ends or is refused, and only as the last packet. |
| ChatRoom.EmptyFileNeverCloses | src/client/ChatFrame.java:632-637 | An empty file sends one full buffer and never the terminator. |
| ChatRoom.IntendedTransferCloses | src/client/ChatFrame.java:600-656 | The corrected transfer always ends with the terminator and agrees with the source on every non-empty file. |
| ChatRoom.ChatRoom.constructor | src/client/ChatFrame.java:430-435 | A new room has every flag and counter cleared and nothing sent or shown. |
| ChatRoom.ChatRoom.SendMessage | src/client/ChatFrame.java:690-705 | sendMessage sends the text and clears isReceiveFile; the sender state is kept. |
| ChatRoom.ChatRoom.Cleanup | src/client/ChatFrame.java:578-583 | The catch deletes the partial file only if it exists and the transfer had not finished. |
| ChatRoom.ChatRoom.ReadVoice | src/client/ChatFrame.java:454-491 | The roster scan sets the voice target as the piece-by-piece scan gives, and reports a throw: a bad port, or a host the name service rejects. |
| ChatRoom.ChatRoom.Receive | src/client/ChatFrame.java:438-585 | One unit read: a failure runs the catch, a DataFile counts one block, a String runs the chain. |
| ChatRoom.ChatRoom.ReceiveText | src/client/ChatFrame.java:454-568 | Strings are tested in source order: roster, close, file request, acknowledgement, begin, end, message. |
| ChatRoom.ChatRoom.OnAccept | src/client/ChatFrame.java:454-491 | SESSION_ACCEPT sets the voice target from the roster scan, and runs the catch block when a step of the scan threw. |
| ChatRoom.ChatRoom.OnFileRequest | src/client/ChatFrame.java:512-526 | The request creates `dir/name`, remembers the name and answers with the acknowledgement. |
| ChatRoom.ChatRoom.OnDataBegin | src/client/ChatFrame.java:544-548 | Begin opens `dir + name` and clears finishReceive. |
| ChatRoom.ChatRoom.OnDataClose | src/client/ChatFrame.java:551-562 | End closes the file, sets finishReceive, reports the file and resets the block counter. |
| ChatRoom.ChatRoom.Run | src/client/ChatFrame.java:438-585 | The loop runs the units in order until CHAT_CLOSE stops it. |
| ChatRoom.ChatRoom.GetData | src/client/ChatFrame.java:588-598 | getData records the size, sets the block count to its ceiling and resets the sent counter. |
| ChatRoom.ChatRoom.SendNextBlock | src/client/ChatFrame.java:627-640 | One iteration sends the next block at its size, and the terminator after the last. |
| ChatRoom.ChatRoom.SendBlocks | src/client/ChatFrame.java:620-655 | The do-while sends every block, then the terminator, with the progress sequence. |
| ChatRoom.ChatRoom.SendFile | src/client/ChatFrame.java:600-656 | sendFile sends exactly the packets and progress of the reference transfer: refused, complete, stuck, or failing on an empty file. |
| ChatRoomFacts.RequestBranch | src/client/ChatFrame.java:512-516 | A file request for a single-line name takes the file branch with that name. |
| ChatRoomFacts.UndottedRequestIsMessage | src/client/ChatFrame.java:512 | A file request whose name has a line break falls through to the message branch. (Also lines 565-568 of the same file.) |
| ChatRoomFacts.AckBranchTaken | src/client/ChatFrame.java:529 | The room's own acknowledgement takes the acknowledgement branch. |
| ChatRoomFacts.ControlBranches | src/client/ChatFrame.java:496-562 | CHAT_CLOSE, FILE_DATA_BEGIN and FILE_DATA_CLOSE take their own branches. |
| ChatRoomFacts.RosterBranch | src/client/ChatFrame.java:454 | Any roster the server sends takes the roster branch. |
| ChatRoomFacts.ChatTextShown | src/client/ChatFrame.java:565-568 | A chat message is shown as decoded, and as itself when it is single-line. |
| ChatRoomFacts.FileRequestEffect | src/client/ChatFrame.java:512-526 | A file request adds `dir/name`, records the name, sends the acknowledgement, and changes nothing else. |
| ChatRoomFacts.AckEffect | src/client/ChatFrame.java:529-541 | The acknowledgement sends FILE_DATA_BEGIN and clears both flags. |
| ChatRoomFacts.CloseStops | src/client/ChatFrame.java:496-509 | CHAT_CLOSE echoes the close, stops the loop and leaves the rest unread. |
| ChatRoomFacts.BlocksCounted | src/client/ChatFrame.java:572-576 | Each block bumps sizeReceive by one while the file is open. |
| ChatRoomFacts.WholeFileReceived | src/client/ChatFrame.java:544-562 | Begin, k blocks, end: the file is closed and reported with k blocks, and finishReceive is set. (Also lines 572-576 of the same file.) |
| ChatRoomFacts.FinishedFileKept | src/client/ChatFrame.java:578-583 | After a finished transfer, a failure leaves the file alone. |
| ChatRoomFacts.PartialFileDeleted | src/client/ChatFrame.java:578-583 | A failure in mid-transfer deletes `dir + name`. |
| ChatRoomFacts.RequestPathDiffers | src/client/ChatFrame.java:517 | The path created on request is never the path written. (Also line 547 of the same file.) |
| ChatRoomFacts.AbortLeavesRequestFile | src/client/ChatFrame.java:517 | After request, begin and failure, the requested `dir/name` is still there. (Also lines 547, 579 of the same file.) |
| ChatRoomFacts.IntendedAbortLeavesNothing | src/client/ChatFrame.java:517 | With the request creating `dir + name`, an aborted transfer leaves no file behind. (Also lines 547, 579 of the same file.) |
| ChatRoomFacts.LastPeerWins | src/client/ChatFrame.java:462-483 | The voice target is the last well-formed peer piece. |
| ChatRoomFacts.ScanHostHasNoSlash | src/client/ChatFrame.java:462-483 | Every `/` is stripped from the voice host. |
| ChatRoomFacts.FailedPieceKeepsTarget | src/client/ChatFrame.java:462-483 | A peer piece whose port does not parse or whose host does not resolve stops the scan: the target found so far stays, and later pieces are ignored. |
| Client.FriendsDistinct | src/client/Client.java:152-160 | The rebuilt friends list holds no duplicates. |
| Client.FriendsMembers | src/client/Client.java:152-160 | A name is a friend if and only if some roster peer has it and it is not the user's own. |
| Client.SelfNeverListed | src/client/Client.java:155-157 | The user's own name is never a friend. |
| Client.FriendsInRosterOrder | src/client/Client.java:152-160 | On a roster with distinct names, the friends are the other names in roster order. |
| Client.RefreshAllRoster | src/client/Client.java:86 | Each parsed reply replaces the roster wholesale; after any run, the roster is the last parsed one and the friends list matches it. (Also lines 99-106 of the same file.) |
| Client.RefreshAllSent | src/client/Client.java:76 | The server receives one RUNNING keep-alive per exchange that connected. (Also lines 99-106 of the same file.) |
| Client.Client.constructor | src/client/Client.java:38-60 | The client starts running, with the decoded roster and the friends list built from it. |
| Client.Client.UpdateFriendList | src/client/Client.java:152-160 | The reset and the loop leave exactly the friends derived from the roster. |
| Client.Client.SendRequest | src/client/Client.java:68-93 | One refresh changes the state as the reference refresh does. |
| Client.Client.RequestLoop | src/client/Client.java:96-108 | While running, the thread applies every exchange in turn, surviving failures. |
| Client.Client.StartChat | src/client/Client.java:111-130 | A chat opens if and only if the reply is not CHAT_DENY, and the request always names the user. |
| Client.Client.Exit | src/client/Client.java:133-149 | exit stops the refresh loop and sends the STOP keep-alive when the server is reachable. |
| Client.Open | src/client/Client.java:38-60 | A client exists if and only if the reply decodes without an exception. |
| Client.ExitStopsRefreshing | src/client/Client.java:96-108 | After exit, later exchanges send nothing and the roster stays. (Also lines 133-149 of the same file.) |
| MainFrame.FriendList.Add | src/client/MainFrame.java:255-257 | updateFriendMainFrame adds the name only when absent, so the list holds no duplicates. |
| MainFrame.FriendList.Reset | src/client/MainFrame.java:259-261 | resetList empties the list. |
| MainFrame.AddedKeepsDistinct | src/client/MainFrame.java:255-257 | Adding keeps the list distinct and holds exactly the old names plus the new one. |
| MainFrame.AddedIdempotent | src/client/MainFrame.java:255-257 | Adding a name twice is adding it once. |
| MainFrame.FirstIndex | src/client/MainFrame.java:222-224 | The lookup index is the first peer with the name, or the end. |
| MainFrame.FirstNamedSpec | src/client/MainFrame.java:222-224 | The lookup fails if and only if nobody has the name, and otherwise returns the earliest match. |
| MainFrame.ConnectChat | src/client/MainFrame.java:215-236 | Self-chat is refused before any lookup; an unknown name dials nobody; a known one dials the first match. |
| MainFrame.UpdateVoiceInfo | src/client/MainFrame.java:164-193 | The endpoint changes only to the first match's host and port + 1, when its host resolves. |
| MainFrame.FirstMatchSetsVoice | src/client/MainFrame.java:164-193 | Whatever the endpoint was, the first peer with the name sets it to its host and port + 1 when the host resolves, and leaves it as it was when not. |
| MainFrame.VoicePortIsNext | src/client/MainFrame.java:171-183 | Whatever the endpoint was, a resolving first match on an ordinary port sets the voice port exactly one above the chat port. |
| StartClient.Dialog | src/client/StartClientFrame.java:18-22 | Every failure shows its dialog text and a login shows none. (Also lines 187-189 of the same file.) |
| StartClient.Connect | src/client/StartClientFrame.java:152-191 | NAME_FAILED exactly for a bad name or empty address; SESSION_DENY shows NAME_EXIST; a main window opens exactly for a reply that parses, on a port in [10000, 10999]. |
| StartClient.RegistrationSent | src/client/StartClientFrame.java:160-165 | The message sent is the registration of the trimmed name and chosen port, and the server reads back both. |
| RegisterFrame.ValidUsernameIsCappedLoginName | src/client/RegisterFrame.java:21 | The registration pattern is the login pattern capped at 20 characters. (Also line 227 of the same file.) |
| RegisterFrame.ReadForm | src/client/RegisterFrame.java:216-220 | Username, full name and email are trimmed; the password and its confirmation are not. |
| RegisterFrame.Submit | src/client/RegisterFrame.java:222-252 | The first failing guard decides, in source order; register is called only when every guard passes. |
| RegisterFrame.Action | src/client/RegisterFrame.java:208-214 | The back button returns to login before any field is read. |
| RegisterFrame.PasswordNotTrimmed | src/client/RegisterFrame.java:216-230 | A password with a leading blank does not match its trimmed confirmation. |
| GroupChat.NewMessagesMember | src/client/GroupChatFrame.java:309-313 | Polling shows a message if and only if it is stored, newer than the last id, and not one's own. |
| GroupChat.MaxIdSpec | src/client/GroupChatFrame.java:328-330 | The new last id is at least the old one, bounds every shown id, and is one of them or the old value. |
| GroupChat.NoNewMessages | src/client/GroupChatFrame.java:309-313 | With nothing new from others, a poll shows nothing. |
| GroupChat.PollAgainShowsNothing | src/client/GroupChatFrame.java:303-336 | Polling the same store twice shows nothing the second time. |
| GroupChat.TypingDisplay | src/client/GroupChatFrame.java:559-578 | The line is visible if and only if someone types; 1 or 2 typers are named; 3 or more are counted. |
| GroupChat.TypingDisplayOfSet | src/client/GroupChatFrame.java:559-578 | Stated on the set: hidden and "", "u is typing...", "a and b are typing..." or "k users are typing...". |
| GroupChat.StripEditedSuffix | src/client/GroupChatFrame.java:678-689 | null gives ""; otherwise the result is the tag-free text, less at most one " (edited)", with no tag left. |
| GroupChat.EditDisplay | src/client/GroupChatFrame.java:608-622 | An edit is accepted if and only if the trimmed text is non-empty and differs from the stripped label; the label becomes the text + " (edited)". |
| GroupChat.EditRoundTrip | src/client/GroupChatFrame.java:608-630 | Stripping an edited label gives back the trimmed edit. (Also lines 678-689 of the same file.) |
| GroupChat.EditAgainIgnored | src/client/GroupChatFrame.java:616-618 | Submitting the same edit again is ignored. |
| GroupChat.Bump | src/client/GroupChatFrame.java:741-742 | The chosen emoji's count goes up by one (Java int) and the others stay. |
| GroupChat.WithStrip | src/client/GroupChatFrame.java:719-730 | The strip exists afterwards; an existing strip changes nothing; other labels are untouched. |
| GroupChat.WithStripIdempotent | src/client/GroupChatFrame.java:719-730 | ensureReactionStrip is idempotent. |
| GroupChat.ReactionAddsOne | src/client/GroupChatFrame.java:732-744 | A reaction adds exactly one to that emoji of that label and changes no other count. |
| GroupChat.RemoveFirstDistinct | src/client/GroupChatFrame.java:704-717 | Removing a label keeps the list distinct and drops exactly that label. |
| GroupChat.AvailableMember | src/client/GroupChatFrame.java:821-826 | A user is offered if and only if they are not already a member. |
| GroupChat.AvailableUsers | src/client/GroupChatFrame.java:821-826 | The filter loop keeps the non-members in their original order. |
| GroupChat.RemovalRefusal | src/client/GroupChatFrame.java:943-968 | Removal goes ahead only for the creator, with a selection that is not the creator. |
| GroupChat.RemovalNeverTargetsCreator | src/client/GroupChatFrame.java:943-968 | A removal that passes the guards never targets the creator. |
| GroupChat.GroupChatFrame.constructor | src/client/GroupChatFrame.java:53-59 | A new frame starts with the creator read from the store, no messages, labels, tracking entries, typers or members, the label counter and last id at 0; the history is then loaded by `LoadGroupHistory`. |
| GroupChat.GroupChatFrame.EnsureReactionStrip | src/client/GroupChatFrame.java:719-730 | The reaction state becomes the strip-ensured state. |
| GroupChat.GroupChatFrame.ApplyReaction | src/client/GroupChatFrame.java:732-744 | The reaction state becomes the reacted state. |
| GroupChat.GroupChatFrame.TrackMessageLabel | src/client/GroupChatFrame.java:582-586 | The label is recorded with its id and sender. |
| GroupChat.GroupChatFrame.AddBubble | src/client/GroupChatFrame.java:442-487 | A bubble adds a fresh label with its text, id, sender and reaction strip; only one's own is editable. |
| GroupChat.GroupChatFrame.ShowAll | src/client/GroupChatFrame.java:234-258 | The loop shows every message in order as one new bubble each, as `PlacedAll` gives, and the last id becomes the maximum. |
| GroupChat.GroupChatFrame.CheckForNewMessages | src/client/GroupChatFrame.java:303-336 | A poll shows exactly the new messages from others, one bubble each and none editable, and advances the last id. |
| GroupChat.GroupChatFrame.LoadGroupHistory | src/client/GroupChatFrame.java:234-258 | The history shows every stored message as a bubble, the user's own ones editable, and sets the last id to their maximum. |
| GroupChat.PlacedAllLabels | src/client/GroupChatFrame.java:234-258 | Showing n messages appends the next n labels, in order. |
| GroupChat.BubblesTracked | src/client/GroupChatFrame.java:234-258 | The k-th new label carries the k-th message's id, sender and text; it is editable exactly in the history for the user's own message; older labels keep their values. |
| GroupChat.GroupChatFrame.UpdateTypingDisplay | src/client/GroupChatFrame.java:559-578 | The typing line becomes the one the typers give. |
| GroupChat.GroupChatFrame.NotifyUserTyping | src/client/GroupChatFrame.java:543-546 | The user joins the typers and the line is redrawn. |
| GroupChat.GroupChatFrame.NotifyUserStoppedTyping | src/client/GroupChatFrame.java:551-554 | The user leaves the typers and the line is redrawn. |
| GroupChat.GroupChatFrame.EditMessage | src/client/GroupChatFrame.java:608-630 | An accepted edit relabels the bubble, and a stored message is updated. |
| GroupChat.GroupChatFrame.RemoveBubbleForLabel | src/client/GroupChatFrame.java:704-717 | The label leaves every tracking map and the list. |
| GroupChat.GroupChatFrame.DeleteLocalMessage | src/client/GroupChatFrame.java:691-702 | The label leaves the list and every tracking map, and since it is removed before its id is read, the store never sees a delete. |
| GroupChat.GroupChatFrame.DeleteLocalMessageIntended | src/client/GroupChatFrame.java:691-702 | The label leaves the list and every tracking map, and with the id read first a stored message is deleted from the store. |
| GroupChat.DeleteOfStoredMessageIsLost | src/client/GroupChatFrame.java:691-702 | Deleting one's own stored message 7 leaves the store untouched. |
| GroupChat.DeleteOfStoredMessageIntended | src/client/GroupChatFrame.java:691-702 | With the corrected order, the same delete reaches the store as message 7. |
| GroupChat.GroupChatFrame.NotifyMemberJoined | src/client/GroupChatFrame.java:386-393 | A member is added once. |
| GroupChat.GroupChatFrame.RemoveSelectedMember | src/client/GroupChatFrame.java:941-1003 | Guards, then confirmation, then the store call; the member leaves only on success. |
| GroupChat.GroupChatFrame.DeleteGroup | src/client/GroupChatFrame.java:1008-1044 | Only the creator may delete; after confirmation the store is called, and the frame closes only on success. |

## Left out

- Sockets, object streams and threads. Each exchange is a parameter: a reply string, a failed read, or a refused connection. Loops that run in threads (the server's accept loop, the client's refresh thread, `ChatRoom.run`) are sequential loops over the given inputs.
- Thread.sleep, the Swing timers and `synchronized` have no counterpart; they concern timing, not state.
- The `continueSendFile` busy-wait in `sendFile` is not modelled as waiting. A transfer that would wait for ever is an end state, `Stalled`.
- The database (GroupDAO, UserDAO, MessageDAO, DBUtil) is an oracle. Its answers are boolean parameters, and its writes are records of `StoreCall`s. `UserDAO.updateUserStatus` in `Client.exit` is not modelled.
- Swing UI is not modelled: layout, bubbles, colours, dialogs, system messages and scrolling. The model keeps only what the window shows as data: the message sequence, label texts, the typing line and reaction counts.
- `updateReactionUI` and `getEmojiImage` are not modelled; they concern rendering.
- The copy-to-clipboard action of the message menu (GroupChatFrame.java:657-668) is not modelled; it concerns the clipboard, not state.
- Timestamps and the clock in `addMessageBubbleWithTime` are not modelled; they are display only.
- `InetAddress.getByName` is an oracle. In `ChatRoom` and `MainFrame` it is a function `resolves` from host to success, so a rejected host takes the catch path. In the login window it is the boolean `resolves` for the one server address. Socket opening is the boolean `connects`.
- JavaText.ParseInt: accepts ASCII digits only. Java's `Integer.parseInt` also accepts the other Unicode decimal digits, such as full-width `１`, which the model rejects as a NumberFormatException.
- StartClient.Connect: the server port is read with the ASCII-only `ParseInt`, so a port written in other Unicode decimal digits fails here but would be accepted by Java.
- ChatRoom.ChatRoom.ReadVoice: the peer port is read with the ASCII-only `ParseInt`, so a port written in other Unicode decimal digits ends the scan here but not in Java.
- File existence, file creation and file writes are modelled only as a set of path strings. Byte contents are not modelled: the block sizes are counted, but the bytes are not, since `read`'s result is ignored in the source.
- `showSaveFile` and `stopChat` are not modelled; they concern dialogs and socket closing.
- `readFileServer` in the login window is not modelled; it reads a file of saved servers.
- `loadGroupCreator` and `loadGroupMembers` are not modelled; they are database reads. Their results are the constructor's `creator` parameter and the `members` field.
- The draw `rd.nextInt(1000)` in the login window is the parameter `draw`.
- The iteration order of the typing set is the parameter `order`, which must list the set.
- MainFrame's construction of the Client is left out; main_frame.dfy keeps the list model and the lookups.
- Client.Client.constructor: receives the roster already decoded (`Client.Open` decodes it), and the list refresh it starts on a thread is run at once.
- Decode.UpdatePeerOnline: the in-place `removeIf` on the caller's list is modelled on values, so the server takes the result as its new roster. Aliasing between the two lists is not represented.
- ChatRoom.ChatRoom.ReadVoice: stated against the piece-by-piece scan of the `split` result. Piece shape is stated only through `LastPeerWins` and `ScanHostHasNoSlash`, not for arbitrary text.
- Server.ServerCore.SaveNewPeer: the SQL insert is the `dbOk` oracle; only the append to the roster is modelled.
- The undefined delete, typing and reaction tag constants are parameters (`ExtensionTags`); no literal value is assumed.
- PayloadFacts.GetDeleteOfDeleteText: stated for tag names that differ from each other and do not start with `/`, and for an id text without `<` or `>`. The getter's own if-and-only-if contract holds for any names and texts.
- PayloadFacts.TypingPayloadOf: stated for the same kind of tag names.
- PayloadFacts.GetReactionOfReactionText: stated for the same kind of tag names, and for a target and emoji without `<` or `>`.
- PayloadFacts.GetBetweenTagsOfElement: stated for a content without `<` or `>`, and a prefix that holds neither tag of the name.
- ChatRoom.ChatRoom.GetData: the block count is the unbounded rounded-up kilobyte count, not the `(int)`-cast one. The two agree up to 2^41 - 1024 bytes (`JavaBlockCountExact`). From 2^41 bytes on, Java's count can wrap to zero or below (`JavaBlockCountWraps`), and those lengths are not modelled. `sizeFile` is the unbounded length too. Its cast wraps from 2^31 bytes on, but those files are refused before the length is used.
- ChatRoom.ChatRoom.SendFile: a file of 2^41 bytes or more is refused as `TooLarge`. In Java the wrapped count can slip past the 1000-block refusal and send a block, and that path is not modelled.
- Voice and video threads and `VoiceInfo` playback are not modelled; they concern devices and UDP.

## Findings

| source | as written | input that shows it | evidently intended | confidence | as-written member | corrected member |
|---|---|---|---|---|---|---|
| src/client/ChatFrame.java:632-637 | An empty file has 0 blocks, but one buffer is still sent, and then the progress `1 * 100 / 0` throws. FILE_DATA_CLOSE is never sent, and continueSendFile stays false. | sendFile on a file of 0 bytes | An empty file sends only the terminator. The receiver then closes an empty file. | not executed; follows from the integer arithmetic as written | ChatRoom.EmptyFileNeverCloses | ChatRoom.IntendedTransferCloses |
| src/client/ChatFrame.java:517, 547, 579 | The file request creates `URL_DIR + "/" + name`, but the transfer writes and cleans up `URL_DIR + name`. An aborted transfer leaves the requested file behind. | FILE_REQ for "a.txt", FILE_DATA_BEGIN, then a failed read | The request and the cleanup use one path, so an aborted transfer leaves nothing. | not executed; the two path expressions differ by the separator | ChatRoomFacts.AbortLeavesRequestFile | ChatRoomFacts.IntendedAbortLeavesNothing |
| src/client/GroupChatFrame.java:691-702 | deleteLocalMessage removes the label from every map before it reads the label's id. The id is then always -1, so the database delete is never called. | delete one's own message with stored id 7 | The message is deleted from the database as well. | not executed; the order of the two calls decides it | GroupChat.DeleteOfStoredMessageIsLost | GroupChat.GroupChatFrame.DeleteLocalMessageIntended |
