/**
  The participant roster of an audio session (chime-call-audio.c): the map from numeric
  stream ids to participant profile ids that StreamMessages fill in
  (audio_receive_stream_msg), and the level reports of RTMessages resolved through it
  (audio_receive_rt_msg).
*/
module Profiles {
  import opened Wrappers
  import opened Protocol

  /** The level reported for one entry: -128 for a muted participant, otherwise the negated
      volume; an entry with neither is skipped (lines 71-77). */
  function Level(p: ProfileIn): (v: Option<int>)
    ensures p.muted == Some(true) ==> v == Some(-128)
    ensures p.muted != Some(true) && p.volume.Some? ==> v == Some(-p.volume.value)
    ensures v.None? <==> p.muted != Some(true) && p.volume.None?
  {
    if p.muted == Some(true) then Some(-128)
    else if p.volume.Some? then Some(-p.volume.value)
    else None
  }

  /** Volumes in 0..127 (a range this model assumes; the decoder does not bound them) give
      levels that never collide with the muted level. */
  lemma MutedLevelIsDistinct(p: ProfileIn)
    requires p.volume.Some? && 0 <= p.volume.value <= 127
    ensures Level(p) == Some(-128) <==> p.muted == Some(true)
    ensures p.muted != Some(true) ==> -127 <= Level(p).value <= 0
  {
  }

  /** The stats report one profile entry produces, if any (lines 63-83): it needs a stream
      id, a stream id known to the roster and a level; signal strength defaults to -1. */
  function StatsFor(roster: map<nat, string>, p: ProfileIn): (u: Option<StatsUpdate>)
    ensures u.Some? <==> p.streamId.Some? && p.streamId.value in roster && Level(p).Some?
    ensures u.Some? ==> u.value.profileId == roster[p.streamId.value] && u.value.level == Level(p).value
                        && u.value.signalStrength == (if p.signalStrength.Some? then p.signalStrength.value else -1)
  {
    if p.streamId.None? || p.streamId.value !in roster then None
    else match Level(p)
      case None => None
      case Some(vol) =>
        Some(StatsUpdate(roster[p.streamId.value], vol, if p.signalStrength.Some? then p.signalStrength.value else -1))
  }

  /** The reports of a list of entries, in order. */
  function StatsUpdates(roster: map<nat, string>, ps: seq<ProfileIn>): (us: seq<StatsUpdate>)
    ensures |us| <= |ps|
    decreases |ps|
  {
    if ps == [] then []
    else
      var us := StatsUpdates(roster, ps[..|ps| - 1]);
      match StatsFor(roster, ps[|ps| - 1])
        case None => us
        case Some(u) => us + [u]
  }

  /** One more entry adds its report, if any. */
  lemma StatsUpdatesStep(roster: map<nat, string>, ps: seq<ProfileIn>, i: int)
    requires 0 <= i < |ps|
    ensures StatsUpdates(roster, ps[..i + 1])
            == StatsUpdates(roster, ps[..i]) + (if StatsFor(roster, ps[i]).Some? then [StatsFor(roster, ps[i]).value] else [])
  {
    assert ps[..i + 1][..i] == ps[..i];
  }

  /** Exactly the reportable entries are reported, each naming a participant of the roster. */
  lemma {:induction false} StatsUpdatesReports(roster: map<nat, string>, ps: seq<ProfileIn>)
    ensures |StatsUpdates(roster, ps)| <= |ps|
    ensures forall u :: u in StatsUpdates(roster, ps) <==> exists i :: 0 <= i < |ps| && StatsFor(roster, ps[i]) == Some(u)
    ensures forall u :: u in StatsUpdates(roster, ps) ==> u.profileId in roster.Values
    decreases |ps|
  {
    if ps != [] {
      var p := ps[..|ps| - 1];
      StatsUpdatesReports(roster, p);
      forall u
        ensures u in StatsUpdates(roster, ps) <==> exists i :: 0 <= i < |ps| && StatsFor(roster, ps[i]) == Some(u)
      {
        if exists i :: 0 <= i < |ps| && StatsFor(roster, ps[i]) == Some(u) {
          var i :| 0 <= i < |ps| && StatsFor(roster, ps[i]) == Some(u);
          if i < |p| { assert p[i] == ps[i]; }
        }
        if u in StatsUpdates(roster, p) {
          var i :| 0 <= i < |p| && StatsFor(roster, p[i]) == Some(u);
          assert ps[i] == p[i];
        }
      }
      forall u | u in StatsUpdates(roster, ps)
        ensures u.profileId in roster.Values
      {
        var i :| 0 <= i < |ps| && StatsFor(roster, ps[i]) == Some(u);
        assert roster[ps[i].streamId.value] in roster.Values;
      }
    }
  }

  /** An entry of a StreamMessage that the upsert uses: it has both a profile id and a stream id. */
  predicate Usable(s: StreamIn)
  {
    s.profileId.Some? && s.streamId.Some?
  }

  /** One step of the loop of lines 265-272: a usable entry inserts or replaces its stream id. */
  function Upsert(roster: map<nat, string>, s: StreamIn): (r: map<nat, string>)
  {
    if Usable(s) then roster[s.streamId.value := s.profileId.value] else roster
  }

  /** The roster after applying a StreamMessage's entries in order. */
  function UpsertAll(roster: map<nat, string>, ss: seq<StreamIn>): (r: map<nat, string>)
    decreases |ss|
  {
    if ss == [] then roster else Upsert(UpsertAll(roster, ss[..|ss| - 1]), ss[|ss| - 1])
  }

  /** Last writer wins: a stream id takes the profile of its last usable entry. */
  lemma {:induction false} UpsertAllLastWins(roster: map<nat, string>, ss: seq<StreamIn>, i: int)
    requires 0 <= i < |ss| && Usable(ss[i])
    requires forall j :: i < j < |ss| && Usable(ss[j]) ==> ss[j].streamId != ss[i].streamId
    ensures ss[i].streamId.value in UpsertAll(roster, ss)
    ensures UpsertAll(roster, ss)[ss[i].streamId.value] == ss[i].profileId.value
    decreases |ss|
  {
    var p := ss[..|ss| - 1];
    if i < |p| {
      assert p[i] == ss[i];
      forall j | i < j < |p| && Usable(p[j])
        ensures p[j].streamId != p[i].streamId
      {
        assert p[j] == ss[j];
      }
      UpsertAllLastWins(roster, p, i);
    }
  }

  /** A stream id without a usable entry keeps what it had; no id is ever removed. */
  lemma {:induction false} UpsertAllKeepsOthers(roster: map<nat, string>, ss: seq<StreamIn>, k: nat)
    requires forall i :: 0 <= i < |ss| && Usable(ss[i]) ==> ss[i].streamId.value != k
    ensures k in UpsertAll(roster, ss) <==> k in roster
    ensures k in roster ==> UpsertAll(roster, ss)[k] == roster[k]
    decreases |ss|
  {
    if ss != [] {
      var p := ss[..|ss| - 1];
      forall i | 0 <= i < |p| && Usable(p[i])
        ensures p[i].streamId.value != k
      {
        assert p[i] == ss[i];
      }
      UpsertAllKeepsOthers(roster, p, k);
    }
  }

  lemma {:induction false} UpsertAllGrows(roster: map<nat, string>, ss: seq<StreamIn>)
    ensures roster.Keys <= UpsertAll(roster, ss).Keys
    decreases |ss|
  {
    if ss != [] {
      UpsertAllGrows(roster, ss[..|ss| - 1]);
    }
  }
}
