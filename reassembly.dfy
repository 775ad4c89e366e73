/**
  Reassembly of fragmented data-channel messages (chime-call-audio.c: struct message_frag,
  struct message_buf, insert_frag, and the buffer checks of audio_receive_data_msg).

  A pending message owns a zero-filled buffer of its declared length and a list of the
  byte ranges received so far.  The list is kept sorted and merged: every range ends
  strictly before the next one starts, so no two ranges overlap or touch.
*/
module Reassembly {
  import opened Wrappers
  import opened Framing

  /** struct message_frag: the half-open byte range [start, end). */
  datatype Frag = Frag(start: int, end: int)

  /** struct message_buf.  The fragment list is a sequence in list order. */
  datatype MessageBuf = MessageBuf(msgId: int, len: nat, buf: seq<byte>, frags: seq<Frag>)

  /** Sorted by start, each a range, each ending strictly before the next starts. */
  ghost predicate Merged(fs: seq<Frag>)
  {
    && (forall i :: 0 <= i < |fs| ==> fs[i].start <= fs[i].end)
    && (forall i, j :: 0 <= i < j < |fs| ==> fs[i].end < fs[j].start)
  }

  /** Every fragment lies inside a buffer of `len` bytes. */
  ghost predicate InBounds(fs: seq<Frag>, len: int)
  {
    forall i :: 0 <= i < |fs| ==> 0 <= fs[i].start && fs[i].end <= len
  }

  /** Byte `x` has been received. */
  ghost predicate Covers(fs: seq<Frag>, x: int)
  {
    exists i :: 0 <= i < |fs| && fs[i].start <= x < fs[i].end
  }

  ghost predicate WellFormed(m: MessageBuf)
  {
    |m.buf| == m.len && Merged(m.frags) && InBounds(m.frags, m.len)
  }

  lemma CoversSplit(fs: seq<Frag>, i: int, x: int)
    requires 0 <= i <= |fs|
    ensures Covers(fs, x) <==> Covers(fs[..i], x) || Covers(fs[i..], x)
  {
    if Covers(fs, x) {
      var k :| 0 <= k < |fs| && fs[k].start <= x < fs[k].end;
      if k < i { assert fs[..i][k] == fs[k]; } else { assert fs[i..][k - i] == fs[k]; }
    }
    if Covers(fs[..i], x) {
      var k :| 0 <= k < i && fs[..i][k].start <= x < fs[..i][k].end;
      assert fs[k] == fs[..i][k];
    }
    if Covers(fs[i..], x) {
      var k :| 0 <= k < |fs| - i && fs[i..][k].start <= x < fs[i..][k].end;
      assert fs[i + k] == fs[i..][k];
    }
  }

  lemma CoversAround(fs: seq<Frag>, i: int, x: int)
    requires 0 <= i < |fs|
    ensures Covers(fs, x) <==> Covers(fs[..i], x) || fs[i].start <= x < fs[i].end || Covers(fs[i + 1..], x)
  {
    CoversSplit(fs, i, x);
    CoversSplit(fs[i..], 1, x);
    assert fs[i..][1..] == fs[i + 1..];
    assert fs[i..][..1] == [fs[i]];
  }

  function Max(a: int, b: int): (m: int) { if a < b then b else a }

  /** Replacing a fragment by one covering it and [s, e), which it overlaps or touches,
      adds exactly [s, e). */
  lemma GrowCovers(fs: seq<Frag>, i: int, s: int, e: int, f: Frag)
    requires 0 <= i < |fs| && s <= e && fs[i].start <= fs[i].end
    requires s <= fs[i].end && fs[i].start <= e
    requires f.start == (if s < fs[i].start then s else fs[i].start) && f.end == Max(e, fs[i].end)
    ensures forall x :: Covers(fs[i := f], x) <==> Covers(fs, x) || s <= x < e
  {
    forall x
      ensures Covers(fs[i := f], x) <==> Covers(fs, x) || s <= x < e
    {
      CoversAround(fs[i := f], i, x);
      CoversAround(fs, i, x);
      assert fs[i := f][..i] == fs[..i] && fs[i := f][i + 1..] == fs[i + 1..];
    }
  }

  /** fs with fs[i..j] replaced by the one fragment f. */
  function Splice(fs: seq<Frag>, i: int, j: int, f: Frag): (r: seq<Frag>)
    requires 0 <= i <= j <= |fs|
    ensures |r| == i + 1 + |fs| - j && r[i] == f
    ensures forall k :: 0 <= k < i ==> r[k] == fs[k]
    ensures forall k :: i < k < |r| ==> r[k] == fs[k - i - 1 + j]
  {
    fs[..i] + [f] + fs[j..]
  }

  /** Growing the spliced fragment over fs[j], which starts inside it or right after it,
      and dropping fs[j] loses no byte. */
  lemma AbsorbCovers(fs: seq<Frag>, i: int, j: int, f: Frag)
    requires 0 <= i < j < |fs|
    requires f.start <= fs[j].start <= f.end
    ensures forall x :: Covers(Splice(fs, i, j + 1, f.(end := Max(f.end, fs[j].end))), x) <==> Covers(Splice(fs, i, j, f), x)
  {
    var g := Splice(fs, i, j, f);
    var h := Splice(fs, i, j + 1, f.(end := Max(f.end, fs[j].end)));
    forall x
      ensures Covers(h, x) <==> Covers(g, x)
    {
      CoversAround(g, i, x);
      CoversAround(h, i, x);
      CoversAround(g[i + 1..], 0, x);
      assert h[..i] == g[..i];
      assert h[i + 1..] == g[i + 1..][1..];
      assert g[i + 1..][..0] == [];
      assert g[i + 1] == fs[j];
    }
  }

  lemma InsertCovers(fs: seq<Frag>, i: int, f: Frag)
    requires 0 <= i <= |fs|
    ensures forall x :: Covers(Splice(fs, i, i, f), x) <==> Covers(fs, x) || f.start <= x < f.end
  {
    var g := Splice(fs, i, i, f);
    forall x
      ensures Covers(g, x) <==> Covers(fs, x) || f.start <= x < f.end
    {
      CoversAround(g, i, x);
      CoversSplit(fs, i, x);
      assert g[..i] == fs[..i] && g[i + 1..] == fs[i..];
    }
  }

  /** Replacing orig[i..j] by one fragment that starts after everything before it and ends
      before everything after it keeps the list merged, and in bounds when it is. */
  lemma MergedSplice(orig: seq<Frag>, i: int, j: int, f: Frag, len: int)
    requires Merged(orig) && 0 <= i <= j <= |orig|
    requires f.start <= f.end
    requires forall k :: 0 <= k < i ==> orig[k].end < f.start
    requires j < |orig| ==> f.end < orig[j].start
    ensures Merged(Splice(orig, i, j, f))
    ensures InBounds(orig, len) && 0 <= f.start && f.end <= len ==> InBounds(Splice(orig, i, j, f), len)
  {
    var g := Splice(orig, i, j, f);
    forall a, b | 0 <= a < b < |g|
      ensures g[a].end < g[b].start
    {
      if b > i && a < i {
        assert orig[a].end < f.start <= f.end < orig[j].start <= orig[b - i - 1 + j].start;
      } else if b > i && a == i {
        assert j == b - i - 1 + j || orig[j].start <= orig[j].end < orig[b - i - 1 + j].start;
      }
    }
  }

  /** Every byte received in one list is received in the other. */
  ghost predicate SameBytes(a: seq<Frag>, b: seq<Frag>)
  {
    forall x :: Covers(a, x) <==> Covers(b, x)
  }

  /** The merge branch of insert_frag (lines 223-237): grow fs[i] to cover [start, end),
      then absorb the following fragments it now reaches. */
  method MergeAt(fs: seq<Frag>, i: int, start: int, end: int, ghost len: int) returns (r: seq<Frag>)
    requires Merged(fs) && 0 <= i < |fs| && start <= end
    requires forall k :: 0 <= k < i ==> fs[k].end < start
    requires start <= fs[i].end && fs[i].start <= end
    ensures Merged(r) && r != []
    ensures forall x :: Covers(r, x) <==> Covers(fs, x) || start <= x < end
    ensures InBounds(fs, len) && 0 <= start && end <= len ==> InBounds(r, len)
  {
    var g := fs;
    if start < g[i].start {
      g := g[i := g[i].(start := start)];
    }
    if end > g[i].end {
      g := g[i := g[i].(end := end)];
    }
    GrowCovers(fs, i, start, end, g[i]);
    assert g == fs[i := g[i]] == Splice(fs, i, i + 1, g[i]);
    r := AbsorbTouching(fs, g, i, len);
  }

  /** The absorbing loop of lines 230-235, re-reading the next fragment on every round and
      keeping the larger end: g is fs with fs[i] grown; the result drops every following
      fragment the grown one reaches and stretches it over them. */
  method AbsorbTouching(ghost fs: seq<Frag>, g0: seq<Frag>, i: int, ghost len: int) returns (g: seq<Frag>)
    requires Merged(fs) && 0 <= i < |fs| && i < |g0| && g0 == Splice(fs, i, i + 1, g0[i])
    requires g0[i].start <= fs[i].start && g0[i].start <= g0[i].end && g0[i].end >= fs[i].end
    requires forall k :: 0 <= k < i ==> fs[k].end < g0[i].start
    ensures Merged(g) && g != [] && SameBytes(g, g0)
    ensures InBounds(fs, len) && 0 <= g0[i].start && g0[i].end <= len ==> InBounds(g, len)
  {
    g := g0;
    ghost var j := i + 1;
    ghost var bounded := InBounds(fs, len) && 0 <= g0[i].start && g0[i].end <= len;
    while i + 1 < |g| && g[i + 1].start <= g[i].end
      invariant i < j <= |fs| && i < |g| && g == Splice(fs, i, j, g[i])
      invariant g[i].start == g0[i].start && g[i].start <= g[i].end && g[i].end >= fs[j - 1].end
      invariant bounded ==> g[i].end <= len
      invariant SameBytes(g, g0)
      decreases |g|
    {
      assert fs[i].start <= fs[i].end < fs[j].start;
      AbsorbCovers(fs, i, j, g[i]);
      ghost var h := Splice(fs, i, j + 1, g[i].(end := Max(g[i].end, fs[j].end)));
      g := Splice(g, i, i + 2, g[i].(end := Max(g[i].end, g[i + 1].end)));
      assert g == h;
      j := j + 1;
    }
    assert j < |fs| ==> fs[j - 1].end < fs[j].start;
    MergedSplice(fs, i, j, g[i], len);
  }

  /** insert_frag with the merge its comments describe (lines 221, 224, 227): the list stays
      sorted and merged, it gains exactly the bytes [start, end), and the result says whether
      the first fragment is now the whole buffer.  Unlike lines 230-235 as written (see
      InsertFragAsWritten), the absorbing loop re-reads the next fragment on every round and
      keeps the larger end. */
  method InsertFrag(m: MessageBuf, start: int, end: int) returns (r: MessageBuf, complete: bool)
    requires Merged(m.frags) && start <= end
    ensures r == m.(frags := r.frags)
    ensures Merged(r.frags) && r.frags != []
    ensures forall x :: Covers(r.frags, x) <==> Covers(m.frags, x) || start <= x < end
    ensures complete <==> r.frags[0] == Frag(0, m.len)
    ensures InBounds(m.frags, m.len) && 0 <= start && end <= m.len ==> InBounds(r.frags, m.len)
  {
    var fs := m.frags;
    var i := 0;
    while i < |fs|
      invariant 0 <= i <= |fs| && fs == m.frags
      invariant forall k :: 0 <= k < i ==> fs[k].end < start
    {
      if end < fs[i].start {
        // insert before fs[i]
        break;
      } else if start <= fs[i].end {
        // overlapping or touching fs[i]: merge
        fs := MergeAt(fs, i, start, end, m.len);
        r := m.(frags := fs);
        complete := fs[0].start == 0 && fs[0].end == m.len;
        return;
      } else {
        // the new fragment lies after fs[i]
        i := i + 1;
      }
    }
    InsertCovers(fs, i, Frag(start, end));
    MergedSplice(fs, i, i, Frag(start, end), m.len);
    fs := Splice(fs, i, i, Frag(start, end));
    r := m.(frags := fs);
    complete := fs[0].start == 0 && fs[0].end == m.len;
  }

  /** In a merged list the byte right after the first fragment is not received. */
  lemma FirstEndUncovered(fs: seq<Frag>)
    requires Merged(fs) && fs != []
    ensures !Covers(fs, fs[0].end)
  {
  }

  /** With a merged, in-bounds list, the completion test of insert_frag (first fragment is
      [0, len)) holds exactly when every byte of the buffer has been received. */
  lemma CompleteIffAllCovered(fs: seq<Frag>, len: nat)
    requires Merged(fs) && InBounds(fs, len) && fs != []
    ensures fs[0] == Frag(0, len) <==> forall x :: 0 <= x < len ==> Covers(fs, x)
  {
    FirstEndUncovered(fs);
    if forall x :: 0 <= x < len ==> Covers(fs, x) {
      if len > 0 {
        assert Covers(fs, 0);
        var k :| 0 <= k < |fs| && fs[k].start <= 0 < fs[k].end;
        assert k == 0;
      }
    } else {
      var x :| 0 <= x < len && !Covers(fs, x);
      assert !(fs[0].start <= x < fs[0].end);
    }
  }

  /** find_msgbuf's new entry: the declared length, a zero-filled buffer, no fragments. */
  function NewMessageBuf(msgId: int, msgLen: nat): (m: MessageBuf)
    ensures WellFormed(m) && m.msgId == msgId && m.len == msgLen && m.frags == []
    ensures forall i :: 0 <= i < |m.buf| ==> m.buf[i] == 0
  {
    MessageBuf(msgId, msgLen, seq(msgLen, _ => 0 as byte), [])
  }

  /** memcpy(buf + offset, data, |data|). */
  function Memcpy(buf: seq<byte>, offset: nat, data: seq<byte>): (r: seq<byte>)
    requires offset + |data| <= |buf|
    ensures |r| == |buf|
    ensures forall i :: 0 <= i < |r| ==> r[i] == if offset <= i < offset + |data| then data[i - offset] else buf[i]
  {
    buf[..offset] + data + buf[offset + |data|..]
  }

  /** The check of lines 333-334 on a reassembled buffer: longer than an xrp header, whose
      length field equals the message length and whose type is XRP_STREAM_MESSAGE. */
  predicate IsStreamFrame(m: MessageBuf)
    requires |m.buf| == m.len
  {
    m.len > HEADER_SIZE && Be16(m.buf[2], m.buf[3]) == m.len && Be16(m.buf[0], m.buf[1]) == XRP_STREAM_MESSAGE
  }

  /** A buffer passes the stream-frame check exactly when it starts with the xrp header a
      sender builds for a stream message of its own length, followed by a payload. */
  lemma IsStreamFrameIsHeader(m: MessageBuf)
    requires |m.buf| == m.len
    ensures IsStreamFrame(m) <==>
              && HEADER_SIZE < m.len < 0x1_0000
              && m.buf[..HEADER_SIZE] == Be16Bytes(XRP_STREAM_MESSAGE) + Be16Bytes(m.len)
  {
    if m.len > HEADER_SIZE {
      Be16BytesOfBe16(m.buf[0], m.buf[1]);
      Be16BytesOfBe16(m.buf[2], m.buf[3]);
      assert m.buf[..HEADER_SIZE] == [m.buf[0], m.buf[1]] + [m.buf[2], m.buf[3]];
    }
  }

  /** The pending-message table is sorted by ascending message id, without duplicates. */
  ghost predicate SortedById(t: seq<MessageBuf>)
  {
    forall a, b :: 0 <= a < b < |t| ==> t[a].msgId < t[b].msgId
  }

  /** The number of entries with an id below `msgId`: in a sorted table, where an entry for
      `msgId` is, or where a new one goes. */
  function CountBelow(t: seq<MessageBuf>, msgId: int): (n: nat)
    ensures n <= |t|
  {
    if t == [] then 0 else (if t[0].msgId < msgId then 1 else 0) + CountBelow(t[1..], msgId)
  }

  lemma {:induction false} CountBelowSorted(t: seq<MessageBuf>, msgId: int, n: nat)
    requires SortedById(t) && n <= |t|
    requires forall k :: 0 <= k < n ==> t[k].msgId < msgId
    requires n < |t| ==> t[n].msgId >= msgId
    ensures CountBelow(t, msgId) == n
  {
    if t != [] {
      if n > 0 {
        CountBelowSorted(t[1..], msgId, n - 1);
      } else {
        assert forall k :: 0 <= k < |t| ==> t[k].msgId >= msgId;
        CountNoneBelow(t[1..], msgId);
      }
    }
  }

  lemma {:induction false} CountNoneBelow(t: seq<MessageBuf>, msgId: int)
    requires forall k :: 0 <= k < |t| ==> t[k].msgId >= msgId
    ensures CountBelow(t, msgId) == 0
  {
    if t != [] {
      CountNoneBelow(t[1..], msgId);
    }
  }

  /** In a sorted table the entries below position CountBelow are exactly those with smaller ids. */
  lemma {:induction false} CountBelowSplits(t: seq<MessageBuf>, msgId: int)
    requires SortedById(t)
    ensures forall k :: 0 <= k < CountBelow(t, msgId) ==> t[k].msgId < msgId
    ensures forall k :: CountBelow(t, msgId) <= k < |t| ==> t[k].msgId >= msgId
  {
    if t != [] {
      CountBelowSplits(t[1..], msgId);
      if t[0].msgId >= msgId {
        CountNoneBelow(t[1..], msgId);
      }
      forall k | 1 <= k < |t|
        ensures t[k] == t[1..][k - 1]
      {
      }
    }
  }

  /** An entry for `msgId` is pending. */
  predicate HasEntry(t: seq<MessageBuf>, msgId: int)
  {
    exists k :: 0 <= k < |t| && t[k].msgId == msgId
  }

  /** The table after find_msgbuf (lines 156-178): unchanged when an entry for `msgId` is
      pending, otherwise with a new empty entry at the place that keeps it sorted. */
  function WithEntry(t: seq<MessageBuf>, msgId: int, msgLen: nat): (r: seq<MessageBuf>)
    ensures |t| <= |r| <= |t| + 1
  {
    var n := CountBelow(t, msgId);
    if n < |t| && t[n].msgId == msgId then t
    else t[..n] + [NewMessageBuf(msgId, msgLen)] + t[n..]
  }

  /** find_msgbuf returns the pending entry when there is one, at position CountBelow. */
  lemma WithEntryFinds(t: seq<MessageBuf>, msgId: int, msgLen: nat)
    requires SortedById(t) && HasEntry(t, msgId)
    ensures WithEntry(t, msgId, msgLen) == t
    ensures CountBelow(t, msgId) < |t| && t[CountBelow(t, msgId)].msgId == msgId
  {
    CountBelowSplits(t, msgId);
    var n := CountBelow(t, msgId);
    var k :| 0 <= k < |t| && t[k].msgId == msgId;
  }

  /** Otherwise it inserts exactly one entry, new and empty, at position CountBelow, keeping
      the table sorted and every other entry as it was. */
  lemma WithEntryInserts(t: seq<MessageBuf>, msgId: int, msgLen: nat)
    requires SortedById(t) && !HasEntry(t, msgId)
    ensures var n := CountBelow(t, msgId);
            var r := WithEntry(t, msgId, msgLen);
            && |r| == |t| + 1 && r[n] == NewMessageBuf(msgId, msgLen) && SortedById(r)
            && (forall k :: 0 <= k < n ==> r[k] == t[k])
            && (forall k :: n <= k < |t| ==> r[k + 1] == t[k])
  {
    CountBelowSplits(t, msgId);
    var n := CountBelow(t, msgId);
    var r := t[..n] + [NewMessageBuf(msgId, msgLen)] + t[n..];
    assert WithEntry(t, msgId, msgLen) == r;
    assert forall k :: 0 <= k < n ==> r[k] == t[k];
    assert forall k :: n <= k < |t| ==> r[k + 1] == t[k];
    forall a, b | 0 <= a < b < |r|
      ensures r[a].msgId < r[b].msgId
    {
      if b < n {
        assert r[a] == t[a] && r[b] == t[b];
      } else if b == n {
        assert r[a] == t[a];
      } else if a < n {
        assert r[a] == t[a] && r[b] == t[b - 1];
      } else if a == n {
        assert r[b] == t[b - 1];
        assert t[b - 1].msgId != msgId;
      } else {
        assert r[a] == t[a - 1] && r[b] == t[b - 1];
      }
    }
  }

  /** The pending-message table with cutoff `cutoff`: sorted, and every entry well formed
      and not below the cutoff. */
  ghost predicate Pending(t: seq<MessageBuf>, cutoff: int)
  {
    SortedById(t) && forall k :: 0 <= k < |t| ==> WellFormed(t[k]) && t[k].msgId >= cutoff
  }

  /** find_msgbuf keeps the table pending and leaves the entry for `msgId` at CountBelow. */
  lemma WithEntryPending(t: seq<MessageBuf>, msgId: int, msgLen: nat, cutoff: int)
    requires Pending(t, cutoff) && msgId >= cutoff
    ensures Pending(WithEntry(t, msgId, msgLen), cutoff)
    ensures CountBelow(t, msgId) < |WithEntry(t, msgId, msgLen)|
    ensures WithEntry(t, msgId, msgLen)[CountBelow(t, msgId)].msgId == msgId
  {
    if HasEntry(t, msgId) {
      WithEntryFinds(t, msgId, msgLen);
    } else {
      WithEntryInserts(t, msgId, msgLen);
      var r := WithEntry(t, msgId, msgLen);
      var n := CountBelow(t, msgId);
      forall k | 0 <= k < |r|
        ensures WellFormed(r[k]) && r[k].msgId >= cutoff
      {
        if k > n {
          assert r[k] == t[k - 1];
        }
      }
    }
  }

  /** The table after the pruning loop of lines 339-347: the leading entries below the cutoff go. */
  function PruneBelow(t: seq<MessageBuf>, cutoff: int): (r: seq<MessageBuf>)
    ensures |r| <= |t| && r == t[|t| - |r|..]
  {
    t[CountBelow(t, cutoff)..]
  }

  /** In a sorted table, pruning removes exactly the entries below the cutoff. */
  lemma PruneBelowDropsOld(t: seq<MessageBuf>, cutoff: int)
    requires SortedById(t)
    ensures SortedById(PruneBelow(t, cutoff))
    ensures forall k :: 0 <= k < |PruneBelow(t, cutoff)| ==> PruneBelow(t, cutoff)[k].msgId >= cutoff
    ensures forall m :: m in t ==> (m in PruneBelow(t, cutoff) <==> m.msgId >= cutoff)
  {
    CountBelowSplits(t, cutoff);
    var n := CountBelow(t, cutoff);
    forall m | m in t
      ensures m in PruneBelow(t, cutoff) <==> m.msgId >= cutoff
    {
      var k :| 0 <= k < |t| && t[k] == m;
      if m in PruneBelow(t, cutoff) {
        var k2 :| n <= k2 < |t| && t[k2] == m;
      }
    }
  }

  /** Messages 5, 6 and 7 pending, pruned at cutoff 8 (the cutoff FinishMessage sets when
      stream message 7 completes): the whole table goes, 5 included. */
  lemma PruneAfterSeven(b5: MessageBuf, b6: MessageBuf, b7: MessageBuf)
    requires b5.msgId == 5 && b6.msgId == 6 && b7.msgId == 7
    ensures PruneBelow([b5, b6, b7], 7 + 1) == []
    ensures PruneBelow([b5, b6, b7], 6) == [b6, b7]
  {
    CountBelowSorted([b5, b6, b7], 8, 3);
    CountBelowSorted([b5, b6, b7], 6, 1);
  }

  /** The merge of insert_frag exactly as written at lines 228-235: `nf` is read once, so
      after absorbing one fragment the loop condition reads the freed node whenever another
      fragment follows; and the grown fragment takes the absorbed one's end even when that
      end is smaller. */
  datatype AsWritten = Defined(frags: seq<Frag>, complete: bool) | UseAfterFree

  function InsertFragAsWritten(m: MessageBuf, start: int, end: int): (r: AsWritten)
  {
    var i := CountEndingBefore(m.frags, start);
    var fs := m.frags;
    if i < |fs| && end >= fs[i].start then
      var f := fs[i].(start := if start < fs[i].start then start else fs[i].start);
      if end > f.end then
        var f := f.(end := end);
        if i + 1 < |fs| && fs[i + 1].start <= f.end then
          if i + 2 < |fs| then UseAfterFree
          else
            var r := fs[..i] + [f.(end := fs[i + 1].end)];
            Defined(r, r[0].start == 0 && r[0].end == m.len)
        else
          var r := fs[i := f];
          Defined(r, r[0].start == 0 && r[0].end == m.len)
      else
        var r := fs[i := f];
        Defined(r, r[0].start == 0 && r[0].end == m.len)
    else
      var r := fs[..i] + [Frag(start, end)] + fs[i..];
      Defined(r, r[0].start == 0 && r[0].end == m.len)
  }

  /** The number of leading fragments that end before `start` (the walk of lines 219-241). */
  function CountEndingBefore(fs: seq<Frag>, start: int): (n: nat)
    ensures n <= |fs|
    ensures forall k :: 0 <= k < n ==> fs[k].end < start
    ensures n < |fs| ==> start <= fs[n].end
  {
    if fs == [] || start <= fs[0].end then 0 else 1 + CountEndingBefore(fs[1..], start)
  }

  /** As written, a 10-byte message holding [0,2) and [3,4) that receives bytes [1,10) ends
      up with the single fragment [0,4): bytes 4..9 are forgotten and completion is missed. */
  lemma AsWrittenForgetsBytes()
    ensures var m := MessageBuf(1, 10, seq(10, _ => 0 as byte), [Frag(0, 2), Frag(3, 4)]);
            && InsertFragAsWritten(m, 1, 10) == Defined([Frag(0, 4)], false)
            && Merged(m.frags) && !Covers([Frag(0, 4)], 5)
  {
    assert !Covers([Frag(0, 4)], 5);
  }

  /** As written, absorbing one fragment when another follows reads freed memory. */
  lemma AsWrittenReadsFreedNode()
    ensures var m := MessageBuf(1, 10, seq(10, _ => 0 as byte), [Frag(0, 2), Frag(3, 4), Frag(5, 6)]);
            && Merged(m.frags)
            && InsertFragAsWritten(m, 1, 10) == UseAfterFree
  {
  }
}
