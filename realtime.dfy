/**
  The real-time sender (chime-call-audio.c, do_send_rt_packet): the session keeps one
  outbound AudioMessage and rewrites it before each send.  The sequence number counts modulo
  2^16, the sample time advances by one 20 ms Opus frame at 16 kHz (320 samples), and once the
  server has told us its clock, every packet carries the server time and the first one after
  each report echoes it back.
*/
module RealTime {
  import opened Wrappers
  import opened Protocol

  const SEQ_MODULUS := 0x1_0000
  const SAMPLES_PER_PACKET := 320

  /** The sender's state between sends: the message, the clock offset learnt from the
      server (`last_server_time_offset`, 0 while unknown) and whether it still owes an echo. */
  datatype Sender = Sender(msg: AudioMessage, offset: int, echo: bool)

  /** One run of do_send_rt_packet at monotonic time `now` and wall-clock time `realNow`. */
  function SendOnce(s: Sender, now: int, realNow: int): (r: Sender)
    ensures r.offset == s.offset && 0 <= r.msg.seqNum < SEQ_MODULUS
  {
    var m := s.msg.(seqNum := (s.msg.seqNum + 1) % SEQ_MODULUS,
                    sampleTime := s.msg.sampleTime + SAMPLES_PER_PACKET);
    var t := s.offset + now;
    var m := if s.offset != 0 then
               (if s.echo then m.(echoTime := Some(t)) else m).(serverTime := Some(t))
             else m.(echoTime := None);
    Sender(m.(totalFramesLost := Some(0), ntpTime := Some(realNow), audioLen := Some(0)),
           s.offset, s.echo && s.offset == 0)
  }

  /** Sends at the monotonic times `nows` (the wall clock of the last one is `realNow`). */
  function SendAll(s: Sender, nows: seq<int>, realNow: int): (r: Sender)
    ensures r.offset == s.offset
    ensures r.msg.sampleTime == s.msg.sampleTime + SAMPLES_PER_PACKET * |nows|
    ensures nows != [] ==> r.msg.audioLen == Some(0) && r.msg.totalFramesLost == Some(0) && r.msg.ntpTime == Some(realNow)
    decreases |nows|
  {
    if nows == [] then s else SendOnce(SendAll(s, nows[..|nows| - 1], realNow), nows[|nows| - 1], realNow)
  }

  /** After n sends the sequence number has advanced by n modulo 2^16 and the sample time by
      320 n, and every packet is an empty audio frame with no frames lost. */
  lemma {:induction false} SendAllCounts(s: Sender, nows: seq<int>, realNow: int)
    requires 0 <= s.msg.seqNum < SEQ_MODULUS
    ensures var r := SendAll(s, nows, realNow);
            && r.msg.seqNum == (s.msg.seqNum + |nows|) % SEQ_MODULUS
            && r.msg.sampleTime == s.msg.sampleTime + SAMPLES_PER_PACKET * |nows|
            && (nows != [] ==> r.msg.audioLen == Some(0) && r.msg.totalFramesLost == Some(0) && r.msg.ntpTime == Some(realNow))
    decreases |nows|
  {
    if nows != [] {
      var p := nows[..|nows| - 1];
      SendAllCounts(s, p, realNow);
      var q := SendAll(s, p, realNow);
      assert (q.msg.seqNum + 1) % SEQ_MODULUS == (s.msg.seqNum + |nows|) % SEQ_MODULUS by {
        ModSucc(s.msg.seqNum + |p|);
      }
    }
  }

  lemma ModSucc(a: int)
    ensures (a % SEQ_MODULUS + 1) % SEQ_MODULUS == (a + 1) % SEQ_MODULUS
  {
  }

  /** With a known (non-zero) offset, every send stamps the server time `offset + now`; the
      echo goes out, with the time of the first send, on that first send only; and the echo
      fields are not cleared afterwards, so later packets repeat the same echo time. */
  lemma {:induction false} SendAllEchoesOnce(s: Sender, nows: seq<int>, realNow: int)
    requires s.offset != 0 && nows != []
    ensures var r := SendAll(s, nows, realNow);
            && r.msg.serverTime == Some(s.offset + nows[|nows| - 1])
            && !r.echo
            && (s.echo ==> r.msg.echoTime == Some(s.offset + nows[0]))
            && (!s.echo ==> r.msg.echoTime == s.msg.echoTime)
    decreases |nows|
  {
    var p := nows[..|nows| - 1];
    if p != [] {
      SendAllEchoesOnce(s, p, realNow);
      assert p[0] == nows[0];
    } else {
      assert SendAll(s, p, realNow) == s;
    }
  }

  /** While the offset is unknown no server or echo time is sent and an owed echo stays owed. */
  lemma {:induction false} SendAllWithoutOffset(s: Sender, nows: seq<int>, realNow: int)
    requires s.offset == 0 && nows != []
    ensures var r := SendAll(s, nows, realNow);
            && r.msg.echoTime.None? && r.echo == s.echo && r.msg.serverTime == s.msg.serverTime
    decreases |nows|
  {
    var p := nows[..|nows| - 1];
    if p != [] {
      SendAllWithoutOffset(s, p, realNow);
    } else {
      assert SendAll(s, p, realNow) == s;
    }
  }
}
