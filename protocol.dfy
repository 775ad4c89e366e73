/**
  The decoded protobuf messages the call-audio core consumes and produces, and the calls
  it makes into its collaborators (transport, timers, the call's participant list).

  Decoding and encoding are done by generated protobuf code that is not part of this
  model: a decoded message is a record whose optional fields (`has_x` plus `x` in the
  generated C) are `Option`s, and the decoders are functions the caller supplies.
*/
module Protocol {
  import opened Wrappers

  /** AuthMessage: only `authorized` is read. */
  datatype AuthMessage = AuthMessage(authorized: Option<bool>)

  /** The `audio` sub-message of an inbound RTMessage. */
  datatype AudioIn = AudioIn(serverTime: Option<int>, audio: Option<seq<byte>>)

  /** One entry of RTMessage.profiles: a participant's level report. */
  datatype ProfileIn = ProfileIn(
    streamId: Option<nat>,
    muted: Option<bool>,
    volume: Option<int>,
    signalStrength: Option<int>)

  datatype RtMessage = RtMessage(audio: Option<AudioIn>, profiles: seq<ProfileIn>)

  /** A DataMessage as received: one fragment of a logical message, with its packet sequence number.
      `offset` and `data` default to 0 and empty when absent, as in the generated decoder. */
  datatype DataMessage = DataMessage(
    seqNum: Option<int>,
    msgId: Option<int>,
    msgLen: Option<nat>,
    offset: nat,
    data: seq<byte>)

  /** One entry of StreamMessage.streams: which participant speaks on a numeric stream id. */
  datatype StreamIn = StreamIn(profileId: Option<string>, streamId: Option<nat>)

  datatype StreamMessage = StreamMessage(streams: seq<StreamIn>)

  /** The session's outbound AudioMessage (`audio->audio_msg`), kept between sends.  An
      optional field (`has_x` and `x` in the generated C) is an Option: a value the encoder
      would not send is not kept.  `has_seq` and `has_sample_time` are set once when the
      session opens and never cleared, so those two are plain numbers; of the audio payload
      only its length is kept. */
  datatype AudioMessage = AudioMessage(
    seqNum: int,
    sampleTime: int,
    serverTime: Option<int>,
    echoTime: Option<int>,
    totalFramesLost: Option<int>,
    ntpTime: Option<int>,
    audioLen: Option<nat>)

  /** The DataMessage that do_send_ack builds: a cumulative ack and, when non-zero, the selective mask. */
  datatype DataAck = DataAck(ack: int, ackMask: Option<bv64>)

  /** A participant level report handed to chime_call_participant_audio_stats. */
  datatype StatsUpdate = StatsUpdate(profileId: string, level: int, signalStrength: int)

  /** Everything the core asks of its collaborators, in the order it asks. */
  datatype Effect =
    | SendRt(msg: AudioMessage)          // chime_call_transport_send_packet(XRP_RT_MESSAGE)
    | SendAck(ack: DataAck)              // chime_call_transport_send_packet(XRP_DATA_MESSAGE)
    | Connect(muted: bool)               // chime_call_transport_connect
    | Disconnect(hangup: bool)           // chime_call_transport_disconnect
    | ArmRtTimer                         // g_timeout_add(100, do_send_rt_packet)
    | ScheduleAckFlush                   // g_idle_add(idle_send_ack)
    | RemoveRtTimer                      // g_source_remove(send_rt_source)
    | RemoveAckFlush                     // g_source_remove(data_ack_source)
    | ParticipantStats(update: StatsUpdate)
    | ParticipantsChanged                // chime_call_emit_participants

  /** The environment of one callback: the clocks as read during it, the decoders, and the
      answers of the call object (whether a participant's stats changed, whether the call
      still has a connection). */
  datatype Host = Host(
    monotonicNow: int,
    realNow: int,
    hasConnection: bool,
    statsChanged: StatsUpdate -> bool,
    unpackAuth: seq<byte> -> Option<AuthMessage>,
    unpackRt: seq<byte> -> Option<RtMessage>,
    unpackData: seq<byte> -> Option<DataMessage>,
    unpackStream: seq<byte> -> Option<StreamMessage>)
}
