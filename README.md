# Chime call-audio transport, modelled in Dafny

This project models the call-audio transport engine of the Pidgin/libpurple Chime plugin
(`chime-call-audio.c`). One audio session (`ChimeCallAudio`) exchanges packets with the
call server. Each packet has a 4-byte `{type, len}` header in network byte order and one of
three kinds of payload:

- **authentication**: the handshake that starts the real-time sender and moves the session
  to the audio state;
- **real-time**: one outbound AudioMessage rewritten and sent every 100 ms, carrying a
  16-bit sequence number, the sample time and the echoed server clock; and inbound level
  reports about participants;
- **data**: a reliable channel with a selective-acknowledgement engine (a cursor, a 64-bit
  mask, and a deferred flush that may be scheduled) and a reassembler. The reassembler turns
  fragments into complete messages, kept in a table sorted by message id with a cutoff that
  guards against replays. Complete StreamMessages fill the map from stream ids to
  participant ids.

Modules, in dependency order:

- `Wrappers` (wrappers.dfy): Option, Result and the `byte` type.
- `Framing` (framing.dfy): the header checks and the dispatch decision.
- `Protocol` (protocol.dfy): the decoded protobuf records, the effects the session has on
  its collaborators, and `Host`, which holds the clocks, the decoders and the call object's
  answers for one callback.
- `Acks` (acks.dfy): the acknowledgement state as a value (`Walk`, `AckOnData`, `Flush`) and
  its meaning as a set of acknowledged sequence numbers (`AckedIn`, `AckCovers`).
- `Reassembly` (reassembly.dfy): fragment lists, `insert_frag`, the pending-message table,
  `find_msgbuf` and pruning.
- `RealTime` (realtime.dfy): the outbound sender as a function over runs of sends.
- `Profiles` (profiles.dfy): level reports and the stream-id roster.
- `Session` (call_audio.dfy): the class `CallAudio`, whose fields are the session's fields
  and whose methods are the C functions. Each method is proved against the functions
  above.

Every call the session makes into the transport, the GLib main loop or the call object is
appended, in order, to the field `effects`, with two exceptions. The answer of
`chime_call_get_connection` is a field of `Host`. `chime_call_audio_set_state` is a write of
the field `state`.

The model follows the code, including where the code does something a reader of the
protocol might not expect:

- An authorization sends a real-time packet and arms the timer even when the session is
  muted (`chime-call-audio.c:131-137` never tests the flag).
- `has_echo_time` stays set, with the old echo time, on every send while the offset is
  known. The echo *value* is written only once (`RealTime.SendAllEchoesOnce`).
- Packets 1, 2 and 4 in one burst leave the cursor at 5, so the flush acks 4 with mask
  `0b110` (`Acks.BurstOneTwoFour`).
- A data packet at or behind the cursor does not leave the acknowledgement state alone. The
  cursor becomes `seq + 1` and the mask is shifted once, so every recorded bit now stands for
  a different sequence number (`Acks.AckOnDataBackwards`). After the burst 1, 2, 4, a
  duplicate 4 makes the state acknowledge 3 and 0, never received, and no longer 2
  (`Acks.DuplicateAfterBurst`). A late 3 makes the next flush acknowledge 3, 2, 0 and -1 but
  neither 4 nor 1 (`Acks.LateAfterBurst`).
- `audio->muted` is never assigned. `reopen` compares against it but never stores the new
  value, and it removes the timers without clearing the handles. After a reopen, a second
  authorization therefore does not re-arm the sender (`Session.CallAudio.Reopen`,
  `Session.CallAudio.ReceiveAuth`).

## Model

| member | source | states |
|---|---|---|
| Framing.Demux | chime-call-audio.c:352-365 | an accepted packet yields its kind and exactly the bytes after the 4-byte header |
| Framing.DemuxEncode | chime-call-audio.c:352-372 | every packet whose big-endian header carries a known tag and the packet's own length is accepted, with that kind and payload |
| Framing.DemuxOnlyEncodings | chime-call-audio.c:352-372 | conversely, every accepted packet is exactly the header for its kind and length followed by its payload |
| Framing.DemuxRejects | chime-call-audio.c:354-359 | packets under 4 bytes, packets whose header length differs from their length, packets with an unknown tag, and packets of 64 KiB or more are refused |
| Acks.ShiftInBit | chime-call-audio.c:302-308 | one shift moves every mask bit up by one and puts the pending flag in bit 0 |
| Acks.ShiftDropsOldest | chime-call-audio.c:301-308 | one step of the walk keeps the acknowledged set except for the one number 65 behind the old cursor |
| Acks.Walk | chime-call-audio.c:294-310 | the walk from the cursor to `s`, one shift per step, stopping with a flush at a set top bit; its meaning is stated by Acks.WalkKeepsHistory |
| Acks.Advance | chime-call-audio.c:295-309 | the shifting loop stops at `s` or at a set top bit, whichever comes first, and leaves the remainder of the walk unchanged |
| Acks.WalkKeepsHistory | chime-call-audio.c:294-310 | the walk either reaches `s` with the acknowledged set intact, or sends exactly one ack that covers the whole set, with its top bit set, and leaves mask and pending clear; the second happens exactly when some acknowledged number lies more than 65 behind `s` |
| Acks.AckOnData | chime-call-audio.c:292-316 | the walk when an ack is owed or the mask is non-zero, then cursor `s + 1`, one more shift and a scheduled flush; its meaning is stated by Acks.AckOnDataKeepsHistory and Acks.AckOnDataBackwards |
| Acks.AckOnDataKeepsHistory | chime-call-audio.c:292-316 | for a packet at or beyond the cursor: the cursor becomes `s + 1`, `s` is acknowledged, nothing unseen is acknowledged, nothing within 64 of `s` is lost, and at most one ack is forced out, covering the whole old set |
| Acks.AckOnDataBackwards | chime-call-audio.c:294-295 | a packet at or behind the cursor sends nothing, still moves the cursor to `s + 1` and shifts the mask once; an owed ack is then recorded as `s - 1` |
| Acks.Flush | chime-call-audio.c:196-203 | do_send_ack's packet, with the mask only when non-zero, and the state with the mask cleared; its meaning is stated by Acks.FlushCarriesHistory |
| Acks.FlushCarriesHistory | chime-call-audio.c:196-203 | a scheduled flush sends `ack = data_next_seq - 1`, sends a mask exactly when the mask is non-zero, and acknowledges exactly the state's acknowledged set |
| Acks.BurstOneTwoFour | chime-call-audio.c:292-316 | packets 1, 2, 4 on a fresh state force no ack, leave cursor 5 and mask 0b110, and the flush acks 4 with that mask, leaving 3 unacknowledged |
| Acks.DuplicateAfterBurst | chime-call-audio.c:292-316 | after the burst 1, 2, 4, a duplicate 4 keeps cursor 5, sends nothing, and shifts the mask to 0b1101: 4, 3, 1 and 0 are acknowledged and 2 is not |
| Acks.LateAfterBurst | chime-call-audio.c:292-316 | after the burst 1, 2, 4, a late 3 moves the cursor back to 4 with mask 0b1101; the flush acks 3 with that mask, covering 3, 2, 0 and -1 but neither 4 nor 1 |
| Reassembly.InsertFrag | chime-call-audio.c:216-251 | the fragment list stays sorted and merged and gains exactly the bytes [start, end); the buffer and id are unchanged; the result is true iff the first fragment is [0, len); the list stays within the buffer |
| Reassembly.MergeAt | chime-call-audio.c:223-237 | growing an overlapping or touching fragment and absorbing the ones it reaches gives a merged list with the old bytes plus [start, end) |
| Reassembly.AbsorbTouching | chime-call-audio.c:228-235 | the absorbing loop (next fragment re-read every round, larger end kept) yields a merged list covering exactly the same bytes |
| Reassembly.CompleteIffAllCovered | chime-call-audio.c:249-250 | in a merged, in-bounds list, the completion test holds exactly when every byte of the buffer has been received |
| Reassembly.NewMessageBuf | chime-call-audio.c:170-174 | a new entry has the given id and length, a zero-filled buffer of that length and no fragments |
| Reassembly.Memcpy | chime-call-audio.c:330 | the bytes at [offset, offset + n) are the fragment's and every other byte is unchanged |
| Reassembly.IsStreamFrame | chime-call-audio.c:333-334 | the stream-frame test on a complete buffer; its meaning is stated by Reassembly.IsStreamFrameIsHeader |
| Reassembly.IsStreamFrameIsHeader | chime-call-audio.c:333-334 | a complete buffer passes the test exactly when it starts with the 4-byte header a sender builds for a stream message of the buffer's length |
| Reassembly.CountBelowSorted | chime-call-audio.c:161-169 | in a sorted table, the position where the list walk stops is the number of entries with smaller ids |
| Reassembly.WithEntry | chime-call-audio.c:156-178 | the table after find_msgbuf, at most one entry longer; its meaning is stated by Reassembly.WithEntryFinds, Reassembly.WithEntryInserts and Reassembly.WithEntryPending |
| Reassembly.WithEntryFinds | chime-call-audio.c:161-164 | when an entry for the id is pending, find_msgbuf leaves the table unchanged and returns that entry |
| Reassembly.WithEntryInserts | chime-call-audio.c:165-176 | otherwise it inserts one new empty entry at its sorted place; the table stays sorted and every other entry keeps its order and contents |
| Reassembly.WithEntryPending | chime-call-audio.c:156-178 | find_msgbuf keeps the table sorted, well formed and at or above the cutoff, and the entry for the id is at the returned position |
| Reassembly.PruneBelow | chime-call-audio.c:339-347 | pruning leaves a suffix of the table; what it keeps is stated by Reassembly.PruneBelowDropsOld |
| Reassembly.PruneBelowDropsOld | chime-call-audio.c:338-347 | pruning a sorted table keeps it sorted, leaves no entry below the cutoff, and keeps exactly the entries at or above it |
| Reassembly.PruneAfterSeven | chime-call-audio.c:339-347 | with ids 5, 6, 7 pending and cutoff 8, which FinishMessage sets when stream message 7 completes, the table is pruned empty, entry 5 included; at cutoff 6 only 6 and 7 remain |
| Reassembly.InsertFragAsWritten | chime-call-audio.c:216-251 | insert_frag exactly as written, with a use-after-free as its own outcome; what it does wrong is stated by Reassembly.AsWrittenForgetsBytes and Reassembly.AsWrittenReadsFreedNode |
| Reassembly.AsWrittenForgetsBytes | chime-call-audio.c:228-235 | as written, inserting [1,10) into [0,2),[3,4) of a 10-byte message leaves [0,4): bytes 4..9 are lost and completion is missed |
| Reassembly.AsWrittenReadsFreedNode | chime-call-audio.c:230-235 | as written, absorbing a fragment that has a successor reads the freed node |
| RealTime.SendOnce | chime-call-audio.c:95-117 | one rewrite of the outbound message; it keeps the offset and a 16-bit sequence number, and its runs are described by RealTime.SendAll and the SendAll lemmas |
| RealTime.SendAll | chime-call-audio.c:95-117 | a run of n sends keeps the clock offset, advances the sample time by 320 n, and leaves an empty audio frame with no frames lost, stamped with the wall clock |
| RealTime.SendAllCounts | chime-call-audio.c:95-117 | after n sends the sequence number has advanced by n modulo 65536 and the sample time by 320 n; each packet is an empty audio frame, with no frames lost, stamped with the wall clock |
| RealTime.SendAllEchoesOnce | chime-call-audio.c:98-106 | with a known offset, every send stamps server time `offset + now`; the echo time is that of the first send after the offset was learnt, and no further echo is owed |
| RealTime.SendAllWithoutOffset | chime-call-audio.c:98-108 | while the offset is unknown, no echo time is sent, the server time is untouched and an owed echo stays owed |
| Profiles.Level | chime-call-audio.c:71-77 | the level is -128 when the entry is muted, otherwise minus the volume; an entry with neither is skipped |
| Profiles.MutedLevelIsDistinct | chime-call-audio.c:71-75 | for volumes 0..127 the muted level is taken by muted entries only |
| Profiles.StatsFor | chime-call-audio.c:63-83 | a report exists iff the entry has a stream id that the roster knows and a level; it names the roster's participant, and the signal strength defaults to -1 |
| Profiles.StatsUpdates | chime-call-audio.c:62-85 | the reports of a message's entries, in order, at most one per entry; stated exactly by Profiles.StatsUpdatesReports |
| Profiles.StatsUpdatesReports | chime-call-audio.c:62-85 | the reports of a message are exactly the reports of its entries, and each names a participant in the roster |
| Profiles.UpsertAll | chime-call-audio.c:265-272 | the roster after the entries are inserted in order; its meaning is stated by Profiles.UpsertAllLastWins, Profiles.UpsertAllKeepsOthers and Profiles.UpsertAllGrows |
| Profiles.UpsertAllLastWins | chime-call-audio.c:265-272 | a stream id maps to the profile of its last usable entry |
| Profiles.UpsertAllKeepsOthers | chime-call-audio.c:265-272 | a stream id without a usable entry keeps its old mapping, or stays absent |
| Profiles.UpsertAllGrows | chime-call-audio.c:265-272 | no stream id is ever removed from the roster |
| Session.AfterStreamMsg | chime-call-audio.c:254-278 | the roster an incoming StreamMessage leaves: unchanged when undecodable or without a connection, otherwise UpsertAll of its entries; Session.CallAudio.ReceiveStreamMsg is proved against it |
| Session.CallAudio.Open | chime-call-audio.c:504-515 | a new session is connecting, has the given 16-bit sequence number and sample time, no offset, an empty ack state, table and roster, a false mute flag, and asks the transport to connect |
| Session.CallAudio.SendRtPacket | chime-call-audio.c:93-122 | the sender state moves as SendOnce says, and the rewritten message is sent |
| Session.CallAudio.ReceiveAuth | chime-call-audio.c:124-142 | an undecodable message is refused; anything other than "authorized" changes nothing; an authorization sends one packet, arms the timer only if it is not armed, and enters the audio or muted state |
| Session.CallAudio.ReceiveRt | chime-call-audio.c:37-91 | a server time sets offset `server_time - now` and asks for an echo; every reportable entry is reported, in order; one "participants changed" follows iff some report changed something |
| Session.CallAudio.ReportLevels | chime-call-audio.c:60-85 | the loop emits exactly StatsUpdates' reports, in order, and returns whether any of them changed something |
| Session.CallAudio.ReceiveStreamMsg | chime-call-audio.c:254-278 | it is refused when undecodable or when the call has no connection, leaving the roster unchanged; otherwise the roster becomes UpsertAll of the entries |
| Session.CallAudio.DoSendAck | chime-call-audio.c:191-207 | sends Flush's ack and leaves Flush's state, with the mask cleared and nothing else changed |
| Session.CallAudio.IdleSendAck | chime-call-audio.c:208-214 | the scheduled flush sends the ack and clears the schedule |
| Session.CallAudio.AckArrival | chime-call-audio.c:289-316 | the ack state becomes AckOnData's; the acks it forces are sent, in order; a flush is scheduled only if none is outstanding |
| Session.CallAudio.WalkAcks | chime-call-audio.c:292-310 | when an ack is owed or the mask is non-zero, the fields move as Walk says and its ack is sent; otherwise nothing moves |
| Session.CallAudio.FindMsgbuf | chime-call-audio.c:156-178 | the table becomes WithEntry's, the returned position holds the entry for the id, and the session invariant is kept |
| Session.CallAudio.PruneMessages | chime-call-audio.c:338-347 | the table becomes PruneBelow at the cutoff and stays sorted, well formed and at or above the cutoff |
| Session.CallAudio.StoreFragment | chime-call-audio.c:330-331 | the fragment's bytes are copied into the entry; its range is added, keeping the list merged; the result tells whether every byte has arrived |
| Session.CallAudio.FinishMessage | chime-call-audio.c:332-347 | a complete stream frame goes to the stream handler and moves the cutoff past its id; then the table is pruned at the cutoff |
| Session.CallAudio.Accept | chime-call-audio.c:330-347 | a fragment that fits its entry is handled as Accepted states |
| Session.CallAudio.Deliver | chime-call-audio.c:319-349 | old ids are accepted and ignored; a length mismatch or a fragment past the end is refused, with the table as find_msgbuf left it and no bytes changed; otherwise the fragment is stored, and completion updates cutoff, roster and table as Delivered says |
| Session.CallAudio.ReceiveData | chime-call-audio.c:279-350 | an undecodable message, or one missing seq, msg_id or msg_len, is refused before any ack update; otherwise the ack state moves as AckOnData says and the fragment is handled as Delivered says |
| Session.CallAudio.ReceiveFrame | chime-call-audio.c:364-371 | an accepted frame goes to the handler for its kind: the session ends as that handler promises for the payload (RtDone, AuthDone or DataDone, the postconditions of ReceiveRt, ReceiveAuth and ReceiveData), and every field that handler does not write, the reassembly cutoff included, is unchanged |
| Session.CallAudio.ReceivePacket | chime-call-audio.c:352-374 | a packet the framer refuses is refused and changes nothing; an accepted one is dispatched as FrameDone states for the frame Demux returns |
| Session.CallAudio.Close | chime-call-audio.c:376-399 | armed timers are cancelled, the roster and all pending messages are dropped, the transport disconnects and the state becomes hangup |
| Session.CallAudio.Reopen | chime-call-audio.c:518-529 | with a different mute setting it cancels the armed timers, reconnects and goes back to connecting; the timer handles and the mute flag stay as they were; with the same setting nothing happens |

## Left out

- The `AUDIO_HACKS` GStreamer pipelines (lines 50-57, 386-393, 401-502) are left out: they are audio device and codec I/O.
- The protobuf codecs (`*__unpack`, `*__free_unpacked`) are not modelled. The decoders are functions in `Host`, and a decoded message is a record with `Option` fields.
- Each GLib timer (`g_timeout_add`, `g_idle_add`, `g_source_remove`) is a boolean field plus an effect. The one-shot `g_signal_handlers_disconnect_matched` in close is a disconnect of callbacks and is left out.
- `g_get_monotonic_time`, `g_get_real_time` and `g_random_int` are parameters: `Host` carries the clocks for one callback, and `Open` takes the random initial values.
- The transport, `chime_call_participant_audio_stats`, `chime_call_emit_participants` and `chime_call_get_connection` are treated as collaborators. The first three are effects in `effects`. Whether a stats update changed something, and whether there is a connection, are answers in `Host`.
- `chime_call_audio_set_state` is a write of the `state` field. Its own behaviour is not part of this model.
- Memory ownership is not modelled: `free_msgbuf`, `g_free` and the table's linked lists become removal from sequences. Close does not free the session, so the model does not forbid calls after close.
- Integer widths are unbounded. Only the 16-bit wrap of the outbound sequence number is modelled. The sample time, the `gint32` message ids, lengths and offsets, and the 64-bit clock offset have no overflow in the model.
- The sample time starts from any integer. `g_random_int` gives a 32-bit value that the model does not restrict.
- The `chime_debug` logging calls are left out: they only write diagnostics.
- messages.c and prpl/rooms.c are not part of this model.
- The inbound audio payload of an RTMessage is decoded but only fed to GStreamer, which is not part of this model.

## Findings

| source | as written | input that shows it | evidently intended | confidence | as-written member | corrected member |
|---|---|---|---|---|---|---|
| chime-call-audio.c:228-235 | the absorbing loop reads the next fragment once, before the loop; after it frees that fragment, the loop test reads the freed node; and the grown fragment takes the absorbed one's end even when that end is smaller | a 10-byte message holding [0,2) and [3,4) receives [1,10): the list becomes [0,4), bytes 4..9 are forgotten and completion is missed; with [5,6) also present, the freed node is read | re-read the next fragment on every round and keep the larger end, so that the merged list covers the old bytes plus [start, end) (the comments at lines 221, 224 and 227) | high; derived by proof, not executed | Reassembly.AsWrittenForgetsBytes | Reassembly.InsertFrag |
