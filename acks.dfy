/**
  The selective-acknowledgement state of the data channel (chime-call-audio.c,
  audio_receive_data_msg lines 289-316, do_send_ack, idle_send_ack).

  The state is the cursor `data_next_seq`, the 64-bit `data_ack_mask` and whether an ack
  flush is scheduled (`data_ack_source`).  Read as a set of acknowledged sequence numbers
  (AckedIn): `nextSeq - 1` when a flush is scheduled (the packet that set the cursor still
  owes its ack), and `nextSeq - 2 - k` for every set bit k of the mask.
*/
module Acks {
  import opened Wrappers
  import opened Protocol

  const TOP_BIT: bv64 := 0x8000_0000_0000_0000

  /** `pending` is `data_ack_source != 0`; inside the walk it is the local `pending` of the C code. */
  datatype AckState = AckState(nextSeq: int, mask: bv64, pending: bool)

  /** Bit k of a mask, k counted from the low end. */
  predicate Bit(m: bv64, k: nat)
    requires k < 64
  {
    (m >> (k as bv8)) & 1 == 1
  }

  /** `mask <<= 1; if (pending) mask |= 1;` */
  function ShiftIn(m: bv64, p: bool): (r: bv64)
  {
    if p then (m << 1) | 1 else m << 1
  }

  lemma SuccAsByte(k: nat)
    requires k < 63
    ensures (k + 1) as bv8 == (k as bv8) + 1
  {
    var b := k as bv8;
    assert b as int == k;
    assert (b + 1) as int == k + 1;
  }

  lemma ShiftInBit(m: bv64, p: bool, k: nat)
    requires k < 64
    ensures Bit(ShiftIn(m, p), k) == if k == 0 then p else Bit(m, k - 1)
  {
    assert k as bv8 < 64;
    if k > 0 {
      SuccAsByte(k - 1);
      var b := (k - 1) as bv8;
      assert b < 63;
      assert ((m << 1) >> (b + 1)) & 1 == (m >> b) & 1;
      assert (((m << 1) | 1) >> (b + 1)) & 1 == (m >> b) & 1;
    }
  }

  lemma TopIsBit63(m: bv64)
    ensures Bit(m, 63) == (m & TOP_BIT != 0)
  {
    assert (63 as nat) as bv8 == 63;
  }

  /** The sequence numbers the state acknowledges. */
  ghost predicate AckedIn(st: AckState, x: int)
  {
    || (st.pending && x == st.nextSeq - 1)
    || (st.nextSeq - 65 <= x <= st.nextSeq - 2 && Bit(st.mask, st.nextSeq - 2 - x))
  }

  /** The sequence numbers an ack packet acknowledges: `ack` itself, and `ack - 1 - k` for every bit k of the mask. */
  ghost predicate AckCovers(a: DataAck, x: int)
  {
    || x == a.ack
    || (a.ackMask.Some? && a.ack - 64 <= x <= a.ack - 1 && Bit(a.ackMask.value, a.ack - 1 - x))
  }

  /** do_send_ack: the packet it sends, and the state it leaves (mask cleared, nothing else). */
  function Flush(st: AckState): (r: (DataAck, AckState))
  {
    (DataAck(st.nextSeq - 1, if st.mask != 0 then Some(st.mask) else None), st.(mask := 0))
  }

  /** The walk of lines 294-310, from the cursor up to the new sequence number `s`. */
  function Walk(st: AckState, s: int): (r: (AckState, seq<DataAck>))
    decreases s - st.nextSeq
  {
    if s <= st.nextSeq then (st, [])
    else if st.mask & TOP_BIT != 0 then (Flush(st).1.(pending := false), [Flush(st).0])
    else Walk(AckState(st.nextSeq + 1, ShiftIn(st.mask, st.pending), false), s)
  }

  /** One round of the walk that neither stops nor flushes. */
  lemma WalkStep(st: AckState, s: int)
    requires st.nextSeq < s && st.mask & TOP_BIT == 0
    ensures Walk(st, s) == Walk(AckState(st.nextSeq + 1, ShiftIn(st.mask, st.pending), false), s)
  {
  }

  /** The walk that meets a full mask flushes it and stops there. */
  lemma WalkStops(st: AckState, s: int)
    requires st.nextSeq < s && st.mask & TOP_BIT != 0
    ensures Walk(st, s) == (Flush(st).1.(pending := false), [Flush(st).0])
  {
  }

  /** The shifting part of the walk, as a loop: moves the cursor up to `s` or to the first
      full mask, whichever comes first, and leaves the rest of the walk unchanged. */
  method Advance(st: AckState, s: int) returns (r: AckState)
    ensures Walk(r, s) == Walk(st, s)
    ensures s <= r.nextSeq || r.mask & TOP_BIT != 0
    ensures st.nextSeq <= r.nextSeq
  {
    r := st;
    while s > r.nextSeq && r.mask & TOP_BIT == 0
      invariant Walk(r, s) == Walk(st, s)
      invariant st.nextSeq <= r.nextSeq
      decreases s - r.nextSeq
    {
      WalkStep(r, s);
      r := AckState(r.nextSeq + 1, ShiftIn(r.mask, r.pending), false);
    }
  }

  /** The whole acknowledgement update for a data packet with sequence number `s` (lines 292-316):
      the new state and the acks sent on the way. */
  function AckOnData(st: AckState, s: int): (r: (AckState, seq<DataAck>))
  {
    var w := if st.pending || st.mask != 0 then Walk(st, s) else (st, []);
    (AckState(s + 1, ShiftIn(w.0.mask, w.0.pending), true), w.1)
  }

  /** One shift of the window drops exactly the number 65 behind the old cursor. */
  lemma ShiftDropsOldest(st: AckState)
    ensures var st2 := AckState(st.nextSeq + 1, ShiftIn(st.mask, st.pending), false);
            forall x :: AckedIn(st2, x) <==> AckedIn(st, x) && x != st.nextSeq - 65
  {
    var n := st.nextSeq;
    var st2 := AckState(n + 1, ShiftIn(st.mask, st.pending), false);
    forall x
      ensures AckedIn(st2, x) <==> AckedIn(st, x) && x != n - 65
    {
      if n - 64 <= x <= n - 1 {
        ShiftInBit(st.mask, st.pending, n - 1 - x);
      } else if x == n - 65 {
        TopIsBit63(st.mask);
      }
    }
  }

  /** The walk loses nothing: either it reaches `s` with the acknowledged set unchanged, or
      it stops at a set top bit with one ack that carries the whole set. */
  lemma {:induction false} WalkKeepsHistory(st: AckState, s: int)
    requires st.nextSeq <= s
    ensures var (w, sent) := Walk(st, s);
            && |sent| <= 1
            && (sent == [] ==> w.nextSeq == s && forall x :: AckedIn(w, x) <==> AckedIn(st, x))
            && (sent != [] ==> w.mask == 0 && !w.pending)
            && (sent != [] ==> sent[0].ackMask.Some? && sent[0].ackMask.value & TOP_BIT != 0)
            && (sent != [] ==> forall x :: AckedIn(st, x) ==> AckCovers(sent[0], x))
            && (sent == [] <==> forall x :: AckedIn(st, x) ==> s - 65 <= x)
    decreases s - st.nextSeq
  {
    var n := st.nextSeq;
    if s == n {
    } else if st.mask & TOP_BIT != 0 {
      TopIsBit63(st.mask);
      assert AckedIn(st, n - 65);
      var a := Flush(st).0;
      forall x | AckedIn(st, x)
        ensures AckCovers(a, x)
      {
      }
    } else {
      var st2 := AckState(n + 1, ShiftIn(st.mask, st.pending), false);
      TopIsBit63(st.mask);
      ShiftDropsOldest(st);
      WalkKeepsHistory(st2, s);
      assert Walk(st, s) == Walk(st2, s);
    }
  }

  /** What a data packet with sequence number `s` at or beyond the cursor does to the acknowledged set. */
  lemma AckOnDataKeepsHistory(st: AckState, s: int)
    requires st.nextSeq <= s
    ensures var (st2, sent) := AckOnData(st, s);
            && st2.nextSeq == s + 1 && st2.pending && |sent| <= 1
            // the new packet is acknowledged, and nothing that was not acknowledged before
            && AckedIn(st2, s)
            && (forall x :: AckedIn(st2, x) ==> x == s || AckedIn(st, x))
            // nothing acknowledged is dropped unless it lies more than 64 behind `s`
            && (forall x :: AckedIn(st, x) && s - 64 <= x ==> AckedIn(st2, x) || (sent != [] && AckCovers(sent[0], x)))
            // an ack is forced out exactly when the walk would shift a set bit out of the mask
            && (sent == [] <==> forall x :: AckedIn(st, x) ==> s - 65 <= x)
            && (sent != [] ==> forall x :: AckedIn(st, x) ==> AckCovers(sent[0], x))
  {
    var (st2, sent) := AckOnData(st, s);
    if st.pending || st.mask != 0 {
      WalkKeepsHistory(st, s);
      var w := Walk(st, s).0;
      if sent == [] {
        ShiftDropsOldest(w);
        assert forall x :: AckedIn(st2, x) <==> x == s || AckedIn(AckState(w.nextSeq + 1, ShiftIn(w.mask, w.pending), false), x);
      }
    }
  }

  /** A packet at or behind the cursor (a replay, or one that went backwards) walks nothing and
      sends nothing, yet still moves the cursor to `s + 1` and shifts the mask once, so the
      bits now stand for numbers relative to the new cursor: the ack owed for `nextSeq - 1`
      is recorded as one for `s - 1`, and every bit of the old mask is moved by the same
      distance.  DuplicateAfterBurst and LateAfterBurst show what that acknowledges. */
  lemma AckOnDataBackwards(st: AckState, s: int)
    requires s <= st.nextSeq
    ensures AckOnData(st, s) == (AckState(s + 1, ShiftIn(st.mask, st.pending), true), [])
    ensures s < st.nextSeq - 1 && st.pending ==> AckedIn(AckOnData(st, s).0, s - 1)
  {
    var st2 := AckOnData(st, s).0;
    if s < st.nextSeq - 1 && st.pending {
      ShiftInBit(st.mask, true, 0);
      assert Bit(st2.mask, 0);
    }
  }

  /** An idle flush (a flush is scheduled, so `pending`) acknowledges exactly the state's set. */
  lemma FlushCarriesHistory(st: AckState)
    requires st.pending
    ensures Flush(st).0.ack == st.nextSeq - 1
    ensures forall x :: AckCovers(Flush(st).0, x) <==> AckedIn(st, x)
    ensures Flush(st).0.ackMask.None? <==> st.mask == 0
  {
  }

  /** Packets 1, 2 and 4 in one burst on a fresh state: cursor 5 and mask 0b110, so that
      seq 3 (bit 0, `5 - 2 - 0`) is the one missing; the flush then acks 4 with that mask. */
  lemma BurstOneTwoFour()
    ensures var (s1, a1) := AckOnData(AckState(0, 0, false), 1);
            var (s2, a2) := AckOnData(s1, 2);
            var (s3, a3) := AckOnData(s2, 4);
            && a1 == [] && a2 == [] && a3 == []
            && s3 == AckState(5, 6, true)
            && Flush(s3).0 == DataAck(4, Some(6))
            && AckedIn(s3, 4) && AckedIn(s3, 2) && AckedIn(s3, 1) && !AckedIn(s3, 3)
  {
    var s3 := AckState(5, 6, true);
    assert Bit(6, 1) && Bit(6, 2) && !Bit(6, 0);
  }

  /** The burst 1, 2, 4 followed by a duplicate of 4: the cursor stays at 5 but the mask is
      shifted, so that 3 and 0, never received, are now acknowledged and 2, received, is not. */
  lemma DuplicateAfterBurst()
    ensures var s3 := AckState(5, 6, true);
            var (s4, a4) := AckOnData(s3, 4);
            && a4 == []
            && s4 == AckState(5, 13, true)
            && AckedIn(s4, 4) && AckedIn(s4, 3) && AckedIn(s4, 1) && AckedIn(s4, 0)
            && !AckedIn(s4, 2)
  {
    assert Bit(13, 0) && !Bit(13, 1) && Bit(13, 2) && Bit(13, 3);
  }

  /** The burst 1, 2, 4 followed by the late 3: the cursor moves back to 4 and the flush that
      follows acknowledges 3, 2, 0 and -1 but neither 4 nor 1, both of which were received. */
  lemma LateAfterBurst()
    ensures var s3 := AckState(5, 6, true);
            var (s4, a4) := AckOnData(s3, 3);
            && a4 == []
            && s4 == AckState(4, 13, true)
            && Flush(s4).0 == DataAck(3, Some(13))
            && AckCovers(Flush(s4).0, 3) && AckCovers(Flush(s4).0, 2)
            && AckCovers(Flush(s4).0, 0) && AckCovers(Flush(s4).0, -1)
            && !AckCovers(Flush(s4).0, 4) && !AckCovers(Flush(s4).0, 1)
  {
    assert Bit(13, 0) && !Bit(13, 1) && Bit(13, 2) && Bit(13, 3);
  }
}
