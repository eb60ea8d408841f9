/** The map-based packet handler of `ComProcessData`: per-address maps
    that record the last packet time, the serial number a wrench reported,
    the packets awaiting an answer, the joint records received and the
    joint count a wrench announced. */
module LegacyCom {
  import opened Bytes
  import opened Messages
  import W = RustWrc
  import L = WrcLayout
  import Queries

  /** The handler's maps as a value. */
  datatype Data = Data(
    lastHeartBeat: map<u32, nat>,
    macToSerial: map<u32, u128>,
    serialToMac: map<u128, u32>,
    macToSeqidList: map<u32, seq<(u16, L.PacketType)>>,
    macToJoints: map<u32, seq<W.InlineJoint>>,
    macToJointNum: map<u32, u16>)

  /** This handler's serial query, written with literal flag bytes. */
  function QuerySerial(mac: u32): W.Packet
  {
    W.Packet(0, mac, 25, 1, W.GetInfo(1))
  }

  /** The literal bytes spell the same packet the registry builds from
      fields: a server GetInfo packet asking for the serial number only. */
  lemma QuerySerialSame(mac: u32)
    ensures QuerySerial(mac) == Queries.QuerySerial(mac)
    ensures L.Direction(QuerySerial(mac).flag) == L.FROM_SERVER && L.VariableLen(QuerySerial(mac).flag) == 0
    ensures L.Type(QuerySerial(mac).flag) as nat == L.Code(L.GetInfo)
  {
    L.OnlyFlag();
  }

  predicate HasId(js: seq<W.InlineJoint>, id: u16)
  {
    exists k :: 0 <= k < |js| && js[k].jointId == id
  }

  predicate DistinctJointIds(js: seq<W.InlineJoint>)
  {
    forall i, j :: 0 <= i < j < |js| ==> js[i].jointId != js[j].jointId
  }

  /** The dedup loop: each received record is appended unless a stored
      one, including one appended earlier in the same packet, has its id. */
  function Merge(target: seq<W.InlineJoint>, recs: seq<W.InlineJoint>): (m: seq<W.InlineJoint>)
    ensures |target| <= |m| <= |target| + |recs|
  {
    if recs == [] then target
    else
      var m := Merge(target, recs[..|recs| - 1]);
      if HasId(m, recs[|recs| - 1].jointId) then m else m + [recs[|recs| - 1]]
  }

  /** The stored records stay, in order, ahead of the new ones, and every
      new one is a received record. */
  lemma {:induction false} MergeExtends(target: seq<W.InlineJoint>, recs: seq<W.InlineJoint>)
    ensures Merge(target, recs)[..|target|] == target
    ensures forall k :: |target| <= k < |Merge(target, recs)| ==> Merge(target, recs)[k] in recs
    decreases |recs|
  {
    if recs != [] {
      var front := recs[..|recs| - 1];
      MergeExtends(target, front);
      forall k | |target| <= k < |Merge(target, recs)|
        ensures Merge(target, recs)[k] in recs
      {
        if k < |Merge(target, front)| {
          assert Merge(target, recs)[k] == Merge(target, front)[k];
          assert Merge(target, front)[k] in front;
        }
      }
    }
  }

  /** Afterwards an id is stored exactly when it was stored before or was
      received. */
  lemma {:induction false} MergeIds(target: seq<W.InlineJoint>, recs: seq<W.InlineJoint>, id: u16)
    ensures HasId(Merge(target, recs), id) <==> HasId(target, id) || HasId(recs, id)
    decreases |recs|
  {
    if recs != [] {
      var front := recs[..|recs| - 1];
      var last := recs[|recs| - 1];
      var m := Merge(target, front);
      MergeIds(target, front, id);
      MergeIds(target, front, last.jointId);
      if HasId(front, id) {
        var k :| 0 <= k < |front| && front[k].jointId == id;
        assert recs[k] == front[k];
      }
      if HasId(m, id) {
        var k :| 0 <= k < |m| && m[k].jointId == id;
        assert Merge(target, recs)[k] == m[k];
      }
      if !HasId(m, last.jointId) {
        assert Merge(target, recs)[|m|] == last;
      }
    }
  }

  /** No id is stored twice once the stored ones are distinct. */
  lemma {:induction false} MergeDistinct(target: seq<W.InlineJoint>, recs: seq<W.InlineJoint>)
    requires DistinctJointIds(target)
    ensures DistinctJointIds(Merge(target, recs))
    decreases |recs|
  {
    if recs != [] {
      var front := recs[..|recs| - 1];
      var last := recs[|recs| - 1];
      var m := Merge(target, front);
      MergeDistinct(target, front);
      if !HasId(m, last.jointId) {
        var n := m + [last];
        forall i, j | 0 <= i < j < |n|
          ensures n[i].jointId != n[j].jointId
        {
          if j == |m| {
            assert n[i] == m[i];
          }
        }
      }
    }
  }

  /** process_com_message: every packet refreshes its sender's heartbeat;
      a serial report binds address and serial both ways and stops there;
      a packet from an address with no serial gets a serial query, and a
      GetInfo entry with sequence id 0 joins that address's awaited
      packets; otherwise a joint count is recorded and joint records are
      merged into the address's list. Other payloads change nothing else. */
  function ComStep(d: Data, p: ComPacket, now: nat): (Data, seq<W.Packet>)
  {
    var mac := p.mac;
    var t := d.(lastHeartBeat := d.lastHeartBeat[mac := now]);
    if p.payload.Fixed? && p.payload.payload.InfoSerial? then
      var serial := U128Le(p.payload.payload.serial);
      (t.(macToSerial := t.macToSerial[mac := serial], serialToMac := t.serialToMac[serial := mac]), [])
    else if mac !in t.macToSerial then
      var list := if mac in t.macToSeqidList then t.macToSeqidList[mac] else [];
      (t.(macToSeqidList := t.macToSeqidList[mac := list + [(0, L.GetInfo)]]), [QuerySerial(mac)])
    else if p.payload.Fixed? && p.payload.payload.InfoGeneric? then
      (t.(macToJointNum := t.macToJointNum[mac := p.payload.payload.jointCount]), [])
    else if p.payload.InlineJoints? || p.payload.payload.InlineJointData? then
      var target := if mac in t.macToJoints then t.macToJoints[mac] else [];
      (t.(macToJoints := t.macToJoints[mac := Merge(target, Records(p.payload))]), [])
    else (t, [])
  }

  /** Every address's stored records have distinct ids. */
  predicate Deduplicated(d: Data)
  {
    forall mac :: mac in d.macToJoints ==> DistinctJointIds(d.macToJoints[mac])
  }

  /** The records stored for `mac`, or none. */
  function Stored(d: Data, mac: u32): seq<W.InlineJoint>
  {
    if mac in d.macToJoints then d.macToJoints[mac] else []
  }

  /** The packet reaches the merge loop. */
  predicate Merges(d: Data, p: ComPacket)
  {
    p.mac in d.macToSerial && (p.payload.InlineJoints? || p.payload.payload.InlineJointData?)
  }

  /** Only a packet from an address with a serial that carries joint
      records touches the record lists, and only its sender's. */
  lemma ComStepJoints(d: Data, p: ComPacket, now: nat)
    ensures ComStep(d, p, now).0.macToJoints ==
      if Merges(d, p) then d.macToJoints[p.mac := Merge(Stored(d, p.mac), Records(p.payload))] else d.macToJoints
  {
  }

  /** The handler keeps every address's records free of repeated ids,
      keeps what was stored for the sender ahead of anything new, and
      leaves every other address's records alone. */
  lemma ComStepDeduplicated(d: Data, p: ComPacket, now: nat)
    requires Deduplicated(d)
    ensures var e := ComStep(d, p, now).0;
      && Deduplicated(e)
      && (forall mac :: mac in d.macToJoints && mac != p.mac ==> mac in e.macToJoints && e.macToJoints[mac] == d.macToJoints[mac])
      && (p.mac in d.macToJoints ==>
            (p.mac in e.macToJoints && e.macToJoints[p.mac][..|d.macToJoints[p.mac]|] == d.macToJoints[p.mac]))
  {
    ComStepJoints(d, p, now);
    if Merges(d, p) {
      MergeDistinct(Stored(d, p.mac), Records(p.payload));
      MergeExtends(Stored(d, p.mac), Records(p.payload));
    }
  }

  /** What each kind of packet does besides the heartbeat. */
  lemma ComStepEffect(d: Data, p: ComPacket, now: nat)
    ensures var (e, com) := ComStep(d, p, now);
      var report := p.payload.Fixed? && p.payload.payload.InfoSerial?;
      && e.lastHeartBeat == d.lastHeartBeat[p.mac := now]
      && (report ==>
            var serial := U128Le(p.payload.payload.serial);
            && e == d.(lastHeartBeat := e.lastHeartBeat,
                       macToSerial := d.macToSerial[p.mac := serial],
                       serialToMac := d.serialToMac[serial := p.mac])
            && com == [])
      && (!report && p.mac !in d.macToSerial ==>
            && com == [QuerySerial(p.mac)]
            && e == d.(lastHeartBeat := e.lastHeartBeat, macToSeqidList := e.macToSeqidList)
            && p.mac in e.macToSeqidList
            && e.macToSeqidList[p.mac] ==
                 (if p.mac in d.macToSeqidList then d.macToSeqidList[p.mac] else []) + [(0, L.GetInfo)])
      && (!report && p.mac in d.macToSerial ==>
            && com == []
            && e.macToSerial == d.macToSerial && e.serialToMac == d.serialToMac
            && e.macToSeqidList == d.macToSeqidList)
      && (!report && p.mac in d.macToSerial && p.payload.Fixed? && p.payload.payload.InfoGeneric? ==>
            e == d.(lastHeartBeat := e.lastHeartBeat,
                    macToJointNum := d.macToJointNum[p.mac := p.payload.payload.jointCount]))
      && (p.mac in d.macToSerial && Records(p.payload) != [] ==>
            forall id :: HasId(e.macToJoints[p.mac], id) <==>
              HasId(if p.mac in d.macToJoints then d.macToJoints[p.mac] else [], id) || HasId(Records(p.payload), id))
  {
    var mac := p.mac;
    if mac in d.macToSerial && Records(p.payload) != [] {
      var target := if mac in d.macToJoints then d.macToJoints[mac] else [];
      forall id | true
        ensures HasId(ComStep(d, p, now).0.macToJoints[mac], id) <==> HasId(target, id) || HasId(Records(p.payload), id)
      {
        MergeIds(target, Records(p.payload), id);
      }
    }
  }

  /** `ComProcessData`, updated in place by process_com_message. */
  class ComProcessData {
    var lastHeartBeat: map<u32, nat>
    var macToSerial: map<u32, u128>
    var serialToMac: map<u128, u32>
    var macToSeqidList: map<u32, seq<(u16, L.PacketType)>>
    var macToJoints: map<u32, seq<W.InlineJoint>>
    var macToJointNum: map<u32, u16>

    function Model(): Data
      reads this
    {
      Data(lastHeartBeat, macToSerial, serialToMac, macToSeqidList, macToJoints, macToJointNum)
    }

    constructor ()
      ensures Model() == Data(map[], map[], map[], map[], map[], map[])
      ensures Deduplicated(Model())
    {
      lastHeartBeat, macToSerial, serialToMac := map[], map[], map[];
      macToSeqidList, macToJoints, macToJointNum := map[], map[], map[];
    }

    /** `target.iter().any(|x| x.joint_id == id)`. */
    static method AnyWithId(target: seq<W.InlineJoint>, id: u16) returns (b: bool)
      ensures b <==> HasId(target, id)
    {
      b := false;
      var k := 0;
      while k < |target|
        invariant 0 <= k <= |target|
        invariant !b ==> forall j :: 0 <= j < k ==> target[j].jointId != id
        invariant b ==> HasId(target, id)
      {
        if target[k].jointId == id {
          b := true;
        }
        k := k + 1;
      }
    }

    /** The dedup loop over a packet's records. */
    static method MergeRecords(target: seq<W.InlineJoint>, recs: seq<W.InlineJoint>) returns (out: seq<W.InlineJoint>)
      ensures out == Merge(target, recs)
    {
      out := target;
      var i := 0;
      while i < |recs|
        invariant 0 <= i <= |recs|
        invariant out == Merge(target, recs[..i])
      {
        assert recs[..i + 1][..i] == recs[..i];
        var seen := AnyWithId(out, recs[i].jointId);
        if !seen {
          out := out + [recs[i]];
        }
        i := i + 1;
      }
      assert recs[..i] == recs;
    }

    /** process_com_message at time `now`; returns the packets sent. */
    method ProcessComMessage(p: ComPacket, now: nat) returns (com: seq<W.Packet>)
      modifies this
      ensures (Model(), com) == ComStep(old(Model()), p, now)
    {
      com := [];
      lastHeartBeat := lastHeartBeat[p.mac := now];
      if p.payload.Fixed? && p.payload.payload.InfoSerial? {
        var serial := U128Le(p.payload.payload.serial);
        macToSerial := macToSerial[p.mac := serial];
        serialToMac := serialToMac[serial := p.mac];
        return;
      }
      if p.mac !in macToSerial {
        com := [QuerySerial(p.mac)];
        var list := if p.mac in macToSeqidList then macToSeqidList[p.mac] else [];
        macToSeqidList := macToSeqidList[p.mac := list + [(0, L.GetInfo)]];
        return;
      }
      if p.payload.Fixed? && p.payload.payload.InfoGeneric? {
        macToJointNum := macToJointNum[p.mac := p.payload.payload.jointCount];
      } else if p.payload.InlineJoints? || p.payload.payload.InlineJointData? {
        var target := if p.mac in macToJoints then macToJoints[p.mac] else [];
        var merged := MergeRecords(target, Records(p.payload));
        macToJoints := macToJoints[p.mac := merged];
      }
    }
  }
}
