/**
  The audio session of a call (chime-call-audio.c, ChimeCallAudio): its state machine, the
  real-time sender and receiver, the auth handshake, the data channel's acknowledgement
  engine and message reassembler, and the packet dispatcher.

  A session is a class whose fields are the fields of ChimeCallAudio the core reads and
  writes.  Timer handles (`send_rt_source`, `data_ack_source`) are booleans: armed or not.
  Everything the session asks of its collaborators (the transport, the GLib main loop, the
  call's participant list) is appended to `effects`, in order.
*/
module Session {
  import opened Wrappers
  import opened Framing
  import opened Protocol
  import opened Acks
  import opened Reassembly
  import opened RealTime
  import opened Profiles

  /** AUDIO_STATE_*: the states chime_call_audio_set_state is asked to enter. */
  datatype AudioState = Connecting | AudioOn | MutedOn | Hangup

  /** The acks sent, as transport effects. */
  function AckSends(acks: seq<DataAck>): (es: seq<Effect>)
    ensures |es| == |acks| && forall i :: 0 <= i < |acks| ==> es[i] == SendAck(acks[i])
  {
    if acks == [] then [] else [SendAck(acks[0])] + AckSends(acks[1..])
  }

  /** The participant stats reports, as calls to the call object, in order. */
  function StatsReports(us: seq<StatsUpdate>): (es: seq<Effect>)
  {
    if us == [] then [] else StatsReports(us[..|us| - 1]) + [ParticipantStats(us[|us| - 1])]
  }

  /** Some report changed what the call shows, so one "participants changed" goes out. */
  predicate AnyChanged(us: seq<StatsUpdate>, host: Host)
  {
    us != [] && (AnyChanged(us[..|us| - 1], host) || host.statsChanged(us[|us| - 1]))
  }

  lemma ReportStep(us: seq<StatsUpdate>, u: StatsUpdate, host: Host)
    ensures StatsReports(us + [u]) == StatsReports(us) + [ParticipantStats(u)]
    ensures AnyChanged(us + [u], host) == (AnyChanged(us, host) || host.statsChanged(u))
  {
    assert (us + [u])[..|us|] == us;
  }

  /** The roster after audio_receive_stream_msg on `payload` (lines 254-278): unchanged when
      the payload does not decode or the call has no connection. */
  function AfterStreamMsg(roster: map<nat, string>, payload: seq<byte>, host: Host): (r: map<nat, string>)
  {
    match host.unpackStream(payload)
      case None => roster
      case Some(msg) => if host.hasConnection then UpsertAll(roster, msg.streams) else roster
  }

  /** A fragment stored into pending message `m`: its bytes copied in at `offset`, and its
      range added to the fragment list, which stays merged. */
  ghost predicate Stored(m: MessageBuf, offset: nat, data: seq<byte>, e: MessageBuf)
  {
    && offset + |data| <= |m.buf|
    && e.msgId == m.msgId && e.len == m.len && e.buf == Memcpy(m.buf, offset, data)
    && Merged(e.frags) && e.frags != []
    && (forall x :: Covers(e.frags, x) <==> Covers(m.frags, x) || offset <= x < offset + |data|)
  }

  /** Every byte of the message has been received. */
  ghost predicate Complete(e: MessageBuf)
  {
    forall x :: 0 <= x < e.len ==> Covers(e.frags, x)
  }

  /** The reassembly half of audio_receive_data_msg (lines 321-349) for a fragment of
      message `id` declared `len` bytes long, from table t0, cutoff c0 and roster r0 to
      t1, c1 and r1, answering `ok`; `entry` is the updated pending message. */
  ghost predicate Delivered(t0: seq<MessageBuf>, c0: int, r0: map<nat, string>,
                            id: int, len: nat, offset: nat, data: seq<byte>, host: Host,
                            ok: bool, t1: seq<MessageBuf>, c1: int, r1: map<nat, string>, entry: MessageBuf)
  {
    if id < c0 then
      // an old message: accepted and ignored
      ok && t1 == t0 && c1 == c0 && r1 == r0
    else
      var t := WithEntry(t0, id, len);
      var n := CountBelow(t0, id);
      && n < |t|
      && if t[n].len != len || offset + |data| > t[n].len then
           // a length that disagrees with the pending entry, or a fragment past its end:
           // rejected, with the entry that find_msgbuf may have created left in place
           !ok && t1 == t && c1 == c0 && r1 == r0
         else
           ok && Accepted(t, n, c0, r0, offset, data, host, t1, c1, r1, entry)
  }

  /** Lines 331-347 for a fragment that fits pending entry `n` of table t: it is stored, and
      once the message is complete a stream frame moves the cutoff past its id and updates
      the roster, and the table is pruned below the cutoff. */
  ghost predicate Accepted(t: seq<MessageBuf>, n: nat, c0: int, r0: map<nat, string>,
                           offset: nat, data: seq<byte>, host: Host,
                           t1: seq<MessageBuf>, c1: int, r1: map<nat, string>, entry: MessageBuf)
    requires n < |t|
  {
    && Stored(t[n], offset, data, entry) && |entry.buf| == entry.len
    && if Complete(entry) then
         && c1 == (if IsStreamFrame(entry) then entry.msgId + 1 else c0)
         && r1 == (if IsStreamFrame(entry) then AfterStreamMsg(r0, entry.buf[HEADER_SIZE..], host) else r0)
         && t1 == PruneBelow(t[n := entry], c1)
       else
         t1 == t[n := entry] && c1 == c0 && r1 == r0
  }

  class CallAudio {
    var state: AudioState
    /** Never assigned after g_new0: always false. */
    var muted: bool
    var lastServerTimeOffset: int
    var echoServerTime: bool
    var audioMsg: AudioMessage
    var sendRtSource: bool
    var dataAckSource: bool
    /** Stream id to participant profile id. */
    var profiles: map<nat, string>
    var dataNextSeq: int
    var dataAckMask: bv64
    var dataNextLogicalMsg: int
    /** The pending messages, in list order. */
    var dataMessages: seq<MessageBuf>
    var effects: seq<Effect>

    /** The session's invariant: the outbound sequence number is 16-bit; the pending table is
        sorted by id, holds only well-formed entries at or above the cutoff; and the ack mask
        is only non-zero while an ack flush is scheduled. */
    ghost predicate Valid()
      reads this
    {
      SeqValid() && TableValid() && AckValid()
    }

    ghost predicate SeqValid()
      reads this`audioMsg
    {
      0 <= audioMsg.seqNum < SEQ_MODULUS
    }

    ghost predicate TableValid()
      reads this`dataMessages, this`dataNextLogicalMsg
    {
      Pending(dataMessages, dataNextLogicalMsg)
    }

    ghost predicate AckValid()
      reads this`dataAckSource, this`dataAckMask
    {
      !dataAckSource ==> dataAckMask == 0
    }

    /** The acknowledgement state as the Acks module sees it. */
    function AckView(): (st: AckState)
      reads this
    {
      AckState(dataNextSeq, dataAckMask, dataAckSource)
    }

    /** The real-time sender's state as the RealTime module sees it. */
    function SenderView(): (s: Sender)
      reads this
    {
      Sender(audioMsg, lastServerTimeOffset, echoServerTime)
    }

    /** chime_call_audio_open (lines 504-515): a zeroed session with a random 16-bit sequence
        number and sample time (here parameters), which asks the transport to connect.  The
        `muted` argument goes to the transport only; the session's own flag stays false. */
    constructor Open(muted: bool, initialSeq: nat, initialSampleTime: int)
      requires initialSeq < SEQ_MODULUS
      ensures Valid() && state == Connecting && !this.muted
      ensures audioMsg == AudioMessage(initialSeq, initialSampleTime, None, None, None, None, None)
      ensures lastServerTimeOffset == 0 && !echoServerTime && !sendRtSource
      ensures AckView() == AckState(0, 0, false) && dataNextLogicalMsg == 0
      ensures profiles == map[] && dataMessages == [] && effects == [Connect(muted)]
    {
      state := Connecting;
      this.muted := false;
      lastServerTimeOffset := 0;
      echoServerTime := false;
      audioMsg := AudioMessage(initialSeq, initialSampleTime, None, None, None, None, None);
      sendRtSource := false;
      dataAckSource := false;
      profiles := map[];
      dataNextSeq := 0;
      dataAckMask := 0;
      dataNextLogicalMsg := 0;
      dataMessages := [];
      effects := [Connect(muted)];
    }

    /** do_send_rt_packet (lines 93-122), the 100 ms timer callback: rewrite the outbound
        message as SendOnce says and send it. */
    method SendRtPacket(now: int, realNow: int)
      requires Valid()
      modifies this`audioMsg, this`echoServerTime, this`effects
      ensures Valid()
      ensures SenderView() == SendOnce(old(SenderView()), now, realNow)
      ensures effects == old(effects) + [SendRt(audioMsg)]
    {
      var m := audioMsg;
      m := m.(seqNum := (m.seqNum + 1) % SEQ_MODULUS);
      m := m.(sampleTime := m.sampleTime + SAMPLES_PER_PACKET);
      if lastServerTimeOffset != 0 {
        var t := lastServerTimeOffset + now;
        if echoServerTime {
          m := m.(echoTime := Some(t));
          echoServerTime := false;
        }
        m := m.(serverTime := Some(t));
      } else {
        m := m.(echoTime := None);
      }
      m := m.(totalFramesLost := Some(0));
      m := m.(ntpTime := Some(realNow));
      m := m.(audioLen := Some(0));
      audioMsg := m;
      effects := effects + [SendRt(audioMsg)];
    }

    /** audio_receive_auth_msg (lines 124-142): an undecodable message is refused; one that
        does not say "authorized" changes nothing; an authorization sends one packet, arms the
        sender timer unless it is armed already, and enters the audio state. */
    twostate predicate AuthDone(payload: seq<byte>, host: Host, ok: bool)
      reads this
    {
      && (ok <==> host.unpackAuth(payload).Some?)
      && (!(ok && host.unpackAuth(payload).value.authorized == Some(true)) ==>
            audioMsg == old(audioMsg) && echoServerTime == old(echoServerTime) && effects == old(effects)
            && sendRtSource == old(sendRtSource) && state == old(state))
      && (ok && host.unpackAuth(payload).value.authorized == Some(true) ==>
            && SenderView() == SendOnce(old(SenderView()), host.monotonicNow, host.realNow)
            && effects == old(effects) + [SendRt(audioMsg)] + (if old(sendRtSource) then [] else [ArmRtTimer])
            && sendRtSource
            && state == (if muted then MutedOn else AudioOn))
    }

    method ReceiveAuth(payload: seq<byte>, host: Host) returns (ok: bool)
      requires Valid()
      modifies this`audioMsg, this`echoServerTime, this`effects, this`sendRtSource, this`state
      ensures Valid()
      ensures AuthDone(payload, host, ok)
    {
      var r := host.unpackAuth(payload);
      if r.None? {
        return false;
      }
      if r.value.authorized == Some(true) {
        SendRtPacket(host.monotonicNow, host.realNow);
        if !sendRtSource {
          sendRtSource := true;
          effects := effects + [ArmRtTimer];
        }
        state := if muted then MutedOn else AudioOn;
      }
      return true;
    }

    /** audio_receive_rt_msg (lines 37-91): a server time records the clock offset and asks
        for an echo; every reportable level entry is reported, in order, and one
        "participants changed" follows if any report changed something. */
    twostate predicate RtDone(payload: seq<byte>, host: Host, ok: bool)
      reads this
    {
      && (ok <==> host.unpackRt(payload).Some?)
      && (!ok ==> lastServerTimeOffset == old(lastServerTimeOffset) && echoServerTime == old(echoServerTime) && effects == old(effects))
      && (ok ==>
            var msg := host.unpackRt(payload).value;
            var us := StatsUpdates(profiles, msg.profiles);
            && (if msg.audio.Some? && msg.audio.value.serverTime.Some?
                then lastServerTimeOffset == msg.audio.value.serverTime.value - host.monotonicNow && echoServerTime
                else lastServerTimeOffset == old(lastServerTimeOffset) && echoServerTime == old(echoServerTime))
            && effects == old(effects) + StatsReports(us) + (if AnyChanged(us, host) then [ParticipantsChanged] else []))
    }

    method ReceiveRt(payload: seq<byte>, host: Host) returns (ok: bool)
      requires Valid()
      modifies this`lastServerTimeOffset, this`echoServerTime, this`effects
      ensures Valid()
      ensures RtDone(payload, host, ok)
    {
      var r := host.unpackRt(payload);
      if r.None? {
        return false;
      }
      var msg := r.value;
      var now := host.monotonicNow;
      if msg.audio.Some? && msg.audio.value.serverTime.Some? {
        lastServerTimeOffset := msg.audio.value.serverTime.value - now;
        echoServerTime := true;
      }
      var sendSig := ReportLevels(msg.profiles, host);
      if sendSig {
        effects := effects + [ParticipantsChanged];
      }
      return true;
    }

    /** The level loop of lines 64-86: report every profile entry that StatsFor accepts, in
        order, and tell whether any report changed what the call shows. */
    method ReportLevels(ps: seq<ProfileIn>, host: Host) returns (sendSig: bool)
      modifies this`effects
      ensures effects == old(effects) + StatsReports(StatsUpdates(profiles, ps))
      ensures sendSig == AnyChanged(StatsUpdates(profiles, ps), host)
    {
      sendSig := false;
      var i := 0;
      while i < |ps|
        invariant 0 <= i <= |ps|
        invariant effects == old(effects) + StatsReports(StatsUpdates(profiles, ps[..i]))
        invariant sendSig == AnyChanged(StatsUpdates(profiles, ps[..i]), host)
      {
        ghost var us := StatsUpdates(profiles, ps[..i]);
        StatsUpdatesStep(profiles, ps, i);
        var report := StatsFor(profiles, ps[i]);
        if report.Some? {
          var u := report.value;
          ReportStep(us, u, host);
          assert StatsUpdates(profiles, ps[..i + 1]) == us + [u];
          effects := effects + [ParticipantStats(u)];
          assert effects == old(effects) + (StatsReports(us) + [ParticipantStats(u)]);
          if host.statsChanged(u) {
            sendSig := true;
          }
        } else {
          assert StatsUpdates(profiles, ps[..i + 1]) == us;
        }
        i := i + 1;
      }
      assert ps[..i] == ps;
    }

    /** audio_receive_stream_msg (lines 254-278): refused when undecodable or when the call
        has no connection; otherwise every usable entry is upserted into the roster, in order. */
    method ReceiveStreamMsg(payload: seq<byte>, host: Host) returns (ok: bool)
      modifies this`profiles
      ensures ok <==> host.unpackStream(payload).Some? && host.hasConnection
      ensures profiles == AfterStreamMsg(old(profiles), payload, host)
    {
      var r := host.unpackStream(payload);
      if r.None? || !host.hasConnection {
        return false;
      }
      var streams := r.value.streams;
      var i := 0;
      while i < |streams|
        invariant 0 <= i <= |streams|
        invariant profiles == UpsertAll(old(profiles), streams[..i])
      {
        assert streams[..i + 1][..i] == streams[..i];
        var s := streams[i];
        if s.profileId.Some? && s.streamId.Some? {
          profiles := profiles[s.streamId.value := s.profileId.value];
        }
        i := i + 1;
      }
      assert streams[..i] == streams;
      return true;
    }

    /** do_send_ack (lines 191-207): send the cumulative ack and, when non-zero, the mask, then
        clear the mask. */
    method DoSendAck()
      modifies this`dataAckMask, this`effects
      ensures AckView() == Flush(old(AckView())).1
      ensures effects == old(effects) + [SendAck(Flush(old(AckView())).0)]
    {
      var ackMask: Option<bv64> := None;
      if dataAckMask != 0 {
        ackMask := Some(dataAckMask);
        dataAckMask := 0;
      }
      effects := effects + [SendAck(DataAck(dataNextSeq - 1, ackMask))];
    }

    /** idle_send_ack (lines 208-214), the scheduled flush: send the ack and clear the
        schedule.  By FlushCarriesHistory the ack acknowledges exactly the acknowledged set. */
    method IdleSendAck()
      requires Valid() && dataAckSource
      modifies this`dataAckMask, this`effects, this`dataAckSource
      ensures Valid()
      ensures AckView() == Flush(old(AckView())).1.(pending := false)
      ensures effects == old(effects) + [SendAck(Flush(old(AckView())).0)]
    {
      DoSendAck();
      dataAckSource := false;
    }

    /** The acknowledgement half of audio_receive_data_msg (lines 289-316) for a packet with
        sequence number `s`: the walk and forced flush, the new cursor `s + 1` (even when `s`
        went backwards) and mask, and a flush scheduled unless one is outstanding. */
    method AckArrival(s: int)
      requires Valid()
      modifies this`dataNextSeq, this`dataAckMask, this`dataAckSource, this`effects
      ensures Valid()
      ensures AckView() == AckOnData(old(AckView()), s).0
      ensures effects == old(effects) + AckSends(AckOnData(old(AckView()), s).1)
                         + (if old(dataAckSource) then [] else [ScheduleAckFlush])
    {
      var pending := WalkAcks(s);
      dataNextSeq := s + 1;
      dataAckMask := ShiftIn(dataAckMask, pending);
      if !dataAckSource {
        dataAckSource := true;
        effects := effects + [ScheduleAckFlush];
      }
    }

    /** The walk of lines 292-310: when an ack is owed, advance the cursor towards `s`,
        shifting the mask, until `s` is reached or the top bit is set; in that case flush
        first.  Returns the walk's local `pending`. */
    method WalkAcks(s: int) returns (pending: bool)
      modifies this`dataNextSeq, this`dataAckMask, this`effects
      ensures var w := if old(dataAckSource) || old(dataAckMask) != 0 then Walk(old(AckView()), s) else (old(AckView()), []);
              AckState(dataNextSeq, dataAckMask, pending) == w.0 && effects == old(effects) + AckSends(w.1)
    {
      pending := dataAckSource;
      if pending || dataAckMask != 0 {
        ghost var w := Walk(AckView(), s);
        var st := Advance(AckView(), s);
        dataNextSeq, dataAckMask, pending := st.nextSeq, st.mask, st.pending;
        if s > st.nextSeq {
          WalkStops(st, s);
          DoSendAck();
          pending := false;
          assert AckSends(w.1) == [SendAck(w.1[0])];
        }
      }
    }

    /** find_msgbuf (lines 156-178): the position of the entry for `msgId`, created empty with
        length `msgLen` at its sorted place when none is pending. */
    method FindMsgbuf(msgId: int, msgLen: nat) returns (idx: nat)
      requires Valid() && msgId >= dataNextLogicalMsg
      modifies this`dataMessages
      ensures Valid()
      ensures dataMessages == WithEntry(old(dataMessages), msgId, msgLen)
      ensures idx == CountBelow(old(dataMessages), msgId)
      ensures idx < |dataMessages| && dataMessages[idx].msgId == msgId
    {
      WithEntryPending(dataMessages, msgId, msgLen, dataNextLogicalMsg);
      var i := 0;
      while i < |dataMessages|
        modifies {}
        invariant 0 <= i <= |dataMessages|
        invariant forall k :: 0 <= k < i ==> dataMessages[k].msgId < msgId
      {
        if dataMessages[i].msgId == msgId {
          CountBelowSorted(dataMessages, msgId, i);
          return i;
        } else if dataMessages[i].msgId > msgId {
          break;
        }
        i := i + 1;
      }
      CountBelowSorted(dataMessages, msgId, i);
      dataMessages := dataMessages[..i] + [NewMessageBuf(msgId, msgLen)] + dataMessages[i..];
      return i;
    }

    /** The pruning loop of lines 339-347: drop leading entries below the cutoff. */
    method PruneMessages()
      requires SortedById(dataMessages) && forall k :: 0 <= k < |dataMessages| ==> WellFormed(dataMessages[k])
      modifies this`dataMessages
      ensures dataMessages == PruneBelow(old(dataMessages), dataNextLogicalMsg)
      ensures Pending(dataMessages, dataNextLogicalMsg)
    {
      ghost var j := 0;
      while |dataMessages| > 0 && dataMessages[0].msgId < dataNextLogicalMsg
        invariant 0 <= j <= |old(dataMessages)| && dataMessages == old(dataMessages)[j..]
        invariant forall k :: 0 <= k < j ==> old(dataMessages)[k].msgId < dataNextLogicalMsg
        decreases |dataMessages|
      {
        dataMessages := dataMessages[1..];
        j := j + 1;
      }
      CountBelowSorted(old(dataMessages), dataNextLogicalMsg, j);
      PruneBelowDropsOld(old(dataMessages), dataNextLogicalMsg);
    }

    /** The reassembly half of audio_receive_data_msg (lines 319-349), as Delivered states. */
    method Deliver(msgId: int, msgLen: nat, offset: nat, data: seq<byte>, host: Host)
      returns (ok: bool, ghost entry: MessageBuf)
      requires Valid()
      modifies this`dataMessages, this`dataNextLogicalMsg, this`profiles
      ensures Valid()
      ensures Delivered(old(dataMessages), old(dataNextLogicalMsg), old(profiles), msgId, msgLen, offset, data, host,
                        ok, dataMessages, dataNextLogicalMsg, profiles, entry)
    {
      entry := NewMessageBuf(msgId, msgLen);
      if msgId < dataNextLogicalMsg {
        return true, entry;
      }
      ghost var t0 := dataMessages;
      var idx := FindMsgbuf(msgId, msgLen);
      var m := dataMessages[idx];
      if msgLen != m.len {
        return false, entry;
      }
      if offset + |data| > m.len {
        return false, entry;
      }
      entry := Accept(idx, offset, data, host);
      return true, entry;
    }

    /** Lines 331-347, for a fragment that fits pending entry `idx`, as Accepted states. */
    method Accept(idx: nat, offset: nat, data: seq<byte>, host: Host) returns (entry: MessageBuf)
      requires Valid() && idx < |dataMessages| && offset + |data| <= dataMessages[idx].len
      modifies this`dataMessages, this`dataNextLogicalMsg, this`profiles
      ensures Valid()
      ensures Accepted(old(dataMessages), idx, old(dataNextLogicalMsg), old(profiles), offset, data, host,
                       dataMessages, dataNextLogicalMsg, profiles, entry)
    {
      var complete;
      entry, complete := StoreFragment(idx, offset, data);
      if complete {
        FinishMessage(entry, host);
      }
    }

    /** Lines 331-334: copy the fragment into pending message `idx` and record its range;
        `complete` tells whether the whole message has now arrived. */
    method StoreFragment(idx: nat, offset: nat, data: seq<byte>) returns (m: MessageBuf, complete: bool)
      requires TableValid() && idx < |dataMessages| && offset + |data| <= dataMessages[idx].len
      modifies this`dataMessages
      ensures TableValid()
      ensures Stored(old(dataMessages[idx]), offset, data, m) && |m.buf| == m.len
      ensures dataMessages == old(dataMessages)[idx := m]
      ensures complete <==> Complete(m)
    {
      m := dataMessages[idx];
      m, complete := InsertFrag(m.(buf := Memcpy(m.buf, offset, data)), offset, offset + |data|);
      CompleteIffAllCovered(m.frags, m.len);
      dataMessages := dataMessages[idx := m];
    }

    /** Lines 336-347, for a message that is complete: a stream frame is handed to the stream
        handler and moves the cutoff past its id; then entries below the cutoff are freed. */
    method FinishMessage(m: MessageBuf, host: Host)
      requires TableValid() && |m.buf| == m.len && m.msgId >= dataNextLogicalMsg
      modifies this`dataMessages, this`dataNextLogicalMsg, this`profiles
      ensures TableValid()
      ensures dataNextLogicalMsg == if IsStreamFrame(m) then m.msgId + 1 else old(dataNextLogicalMsg)
      ensures profiles == if IsStreamFrame(m) then AfterStreamMsg(old(profiles), m.buf[HEADER_SIZE..], host) else old(profiles)
      ensures dataMessages == PruneBelow(old(dataMessages), dataNextLogicalMsg)
    {
      if IsStreamFrame(m) {
        var _ := ReceiveStreamMsg(m.buf[HEADER_SIZE..], host);
        dataNextLogicalMsg := m.msgId + 1;
      }
      PruneMessages();
    }

    /** audio_receive_data_msg (lines 279-350): an undecodable message, or one without a
        sequence number, message id or length, is refused before anything changes; otherwise
        the acknowledgement state moves as AckOnData says, and the fragment is handled as
        Delivered says. */
    twostate predicate DataDone(payload: seq<byte>, host: Host, ok: bool)
      reads this
    {
      var r := host.unpackData(payload);
      && (!(r.Some? && r.value.seqNum.Some? && r.value.msgId.Some? && r.value.msgLen.Some?) ==>
            !ok && AckView() == old(AckView()) && effects == old(effects) && dataMessages == old(dataMessages)
            && dataNextLogicalMsg == old(dataNextLogicalMsg) && profiles == old(profiles))
      && (r.Some? && r.value.seqNum.Some? && r.value.msgId.Some? && r.value.msgLen.Some? ==>
            var msg := r.value;
            && AckView() == AckOnData(old(AckView()), msg.seqNum.value).0
            && effects == old(effects) + AckSends(AckOnData(old(AckView()), msg.seqNum.value).1)
                          + (if old(dataAckSource) then [] else [ScheduleAckFlush])
            && exists entry :: Delivered(old(dataMessages), old(dataNextLogicalMsg), old(profiles),
                                         msg.msgId.value, msg.msgLen.value, msg.offset, msg.data, host,
                                         ok, dataMessages, dataNextLogicalMsg, profiles, entry))
    }

    method ReceiveData(payload: seq<byte>, host: Host) returns (ok: bool)
      requires Valid()
      modifies this`dataNextSeq, this`dataAckMask, this`dataAckSource, this`effects,
               this`dataMessages, this`dataNextLogicalMsg, this`profiles
      ensures Valid()
      ensures DataDone(payload, host, ok)
    {
      var r := host.unpackData(payload);
      if r.None? {
        return false;
      }
      var msg := r.value;
      if msg.seqNum.None? || msg.msgId.None? || msg.msgLen.None? {
        return false;
      }
      AckArrival(msg.seqNum.value);
      ghost var entry;
      ok, entry := Deliver(msg.msgId.value, msg.msgLen.value, msg.offset, msg.data, host);
    }

    /** The dispatch of audio_receive_packet (lines 364-371) for an accepted frame: the
        session ends as the handler for the frame's kind promises for its payload, and only
        the fields that handler writes may change. */
    twostate predicate FrameDone(f: Frame, host: Host, ok: bool)
      reads this
    {
      && (f.kind == Rt ==>
            RtDone(f.payload, host, ok)
            && AckView() == old(AckView()) && dataMessages == old(dataMessages) && audioMsg == old(audioMsg)
            && state == old(state) && sendRtSource == old(sendRtSource) && profiles == old(profiles)
            && dataNextLogicalMsg == old(dataNextLogicalMsg))
      && (f.kind == Auth ==>
            AuthDone(f.payload, host, ok)
            && AckView() == old(AckView()) && dataMessages == old(dataMessages) && profiles == old(profiles)
            && lastServerTimeOffset == old(lastServerTimeOffset) && dataNextLogicalMsg == old(dataNextLogicalMsg))
      && (f.kind == Data ==>
            DataDone(f.payload, host, ok)
            && audioMsg == old(audioMsg) && state == old(state) && sendRtSource == old(sendRtSource)
            && lastServerTimeOffset == old(lastServerTimeOffset) && echoServerTime == old(echoServerTime))
    }

    method ReceiveFrame(f: Frame, host: Host) returns (ok: bool)
      requires Valid()
      modifies this`audioMsg, this`echoServerTime, this`effects, this`sendRtSource, this`state,
               this`lastServerTimeOffset, this`profiles, this`dataNextSeq, this`dataAckMask,
               this`dataAckSource, this`dataMessages, this`dataNextLogicalMsg
      ensures Valid()
      ensures FrameDone(f, host, ok)
    {
      match f.kind
      case Rt =>
        ok := ReceiveRt(f.payload, host);
      case Auth =>
        ok := ReceiveAuth(f.payload, host);
      case Data =>
        ok := ReceiveData(f.payload, host);
    }

    /** audio_receive_packet (lines 352-374): a packet the framer rejects is refused and
        changes nothing; otherwise its frame is dispatched as FrameDone says. */
    method ReceivePacket(pkt: seq<byte>, host: Host) returns (ok: bool)
      requires Valid()
      modifies this`audioMsg, this`echoServerTime, this`effects, this`sendRtSource, this`state,
               this`lastServerTimeOffset, this`profiles, this`dataNextSeq, this`dataAckMask,
               this`dataAckSource, this`dataMessages, this`dataNextLogicalMsg
      ensures Valid()
      ensures Demux(pkt).Err? ==> !ok && unchanged(this)
      ensures Demux(pkt).Ok? ==> FrameDone(Demux(pkt).value, host, ok)
    {
      var r := Demux(pkt);
      if r.Err? {
        return false;
      }
      ok := ReceiveFrame(r.value, host);
    }

    /** chime_call_audio_close (lines 376-399): cancel the armed ack flush and sender timer,
        drop the roster and every pending message, disconnect, and hang up.  Freeing the
        session itself is not modelled. */
    method Close(hangup: bool)
      modifies this`effects, this`profiles, this`dataMessages, this`state
      ensures effects == old(effects) + (if dataAckSource then [RemoveAckFlush] else [])
                         + (if sendRtSource then [RemoveRtTimer] else []) + [Disconnect(hangup)]
      ensures profiles == map[] && dataMessages == [] && state == Hangup
    {
      if dataAckSource {
        effects := effects + [RemoveAckFlush];
      }
      if sendRtSource {
        effects := effects + [RemoveRtTimer];
      }
      profiles := map[];
      dataMessages := [];
      effects := effects + [Disconnect(hangup)];
      state := Hangup;
    }

    /** chime_call_audio_reopen (lines 518-529): with a mute setting other than the session's
        flag, cancel the armed timers, reconnect and go back to connecting.  As written, the
        timer flags stay set and the flag is not updated. */
    method Reopen(muted: bool)
      requires Valid()
      modifies this`effects, this`state
      ensures Valid()
      ensures muted == this.muted ==> effects == old(effects) && state == old(state)
      ensures muted != this.muted ==>
                && effects == old(effects) + (if sendRtSource then [RemoveRtTimer] else [])
                              + (if dataAckSource then [RemoveAckFlush] else []) + [Disconnect(true), Connect(muted)]
                && state == Connecting
      ensures sendRtSource == old(sendRtSource) && dataAckSource == old(dataAckSource) && this.muted == old(this.muted)
    {
      if muted != this.muted {
        if sendRtSource {
          effects := effects + [RemoveRtTimer];
        }
        if dataAckSource {
          effects := effects + [RemoveAckFlush];
        }
        effects := effects + [Disconnect(true), Connect(muted)];
        state := Connecting;
      }
    }
  }
}
