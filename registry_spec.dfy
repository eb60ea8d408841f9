/** The registry of wrenches as a value: the wrench states in registration
    order, the map from serial number to position, the map from radio
    address to position, and the binding requests queued from Redis. A
    wrench is registered the first time it reports its serial number;
    every later packet reaches it through its address. */
module RegistrySpec {
  import opened Bytes
  import opened Messages
  import opened WrenchSpec
  import W = RustWrc
  import Queries
  import RustText
  import opened Wrappers

  datatype Registry = Registry(
    wrenches: seq<WrenchState>,
    serialMap: map<u128, nat>,
    macMap: map<u32, nat>,
    pending: seq<WrenchInfo>)

  /** The new registry and what one step sends to the wrenches and to Redis. */
  datatype Out = Out(next: Registry, com: seq<W.Packet>, redis: seq<ResponseAction>)

  /** The registry's invariant: the serial map is a bijection between the
      registered serials and the positions of the wrench list, serial 0 is
      never registered, every address points at a wrench, and every wrench
      is consistent. */
  predicate Indexed(r: Registry)
  {
    && 0 !in r.serialMap
    && (forall s :: s in r.serialMap ==> r.serialMap[s] < |r.wrenches| && r.wrenches[r.serialMap[s]].serial == s)
    && (forall i :: 0 <= i < |r.wrenches| ==> r.wrenches[i].serial in r.serialMap && r.serialMap[r.wrenches[i].serial] == i)
    && (forall m :: m in r.macMap ==> r.macMap[m] < |r.wrenches|)
    && (forall i :: 0 <= i < |r.wrenches| ==> Consistent(r.wrenches[i]))
  }

  /** The empty registry the daemon starts with. */
  function Empty(): (r: Registry)
    ensures Indexed(r) && r.wrenches == [] && r.pending == []
  {
    Registry([], map[], map[], [])
  }

  /** The wrench at position i replaced by w. */
  function Put(r: Registry, i: nat, w: WrenchState): (q: Registry)
    requires i < |r.wrenches|
    ensures |q.wrenches| == |r.wrenches| && q.wrenches[i] == w
    ensures forall j :: 0 <= j < |r.wrenches| && j != i ==> q.wrenches[j] == r.wrenches[j]
    ensures q.serialMap == r.serialMap && q.macMap == r.macMap && q.pending == r.pending
  {
    r.(wrenches := r.wrenches[i := w])
  }

  /** Replacing a wrench by a consistent state of the same serial keeps the
      invariant. */
  lemma PutIndexed(r: Registry, i: nat, w: WrenchState)
    requires Indexed(r) && i < |r.wrenches|
    requires w.serial == r.wrenches[i].serial && Consistent(w)
    ensures Indexed(Put(r, i, w))
  {
    var q := Put(r, i, w);
    forall s | s in q.serialMap
      ensures q.serialMap[s] < |q.wrenches| && q.wrenches[q.serialMap[s]].serial == s
    {
      assert r.wrenches[r.serialMap[s]].serial == s;
    }
    forall j | 0 <= j < |q.wrenches|
      ensures q.wrenches[j].serial in q.serialMap && q.serialMap[q.wrenches[j].serial] == j
    {
      assert q.wrenches[j].serial == r.wrenches[j].serial;
    }
  }

  /** Under the invariant, distinct positions hold distinct serials. */
  lemma SerialsDistinct(r: Registry, i: nat, j: nat)
    requires Indexed(r) && i < |r.wrenches| && j < |r.wrenches| && i != j
    ensures r.wrenches[i].serial != r.wrenches[j].serial
  {
    assert r.serialMap[r.wrenches[i].serial] == i;
    assert r.serialMap[r.wrenches[j].serial] == j;
  }

  // ---------------------------------------------------------------------
  // Packets from the serial side (process_com_message)

  /** verify_mac_serial's test: the address is bound to a position that
      holds a wrench whose serial maps back to the same position. */
  predicate MacMatches(r: Registry, mac: u32)
  {
    && mac in r.macMap
    && r.macMap[mac] < |r.wrenches|
    && r.wrenches[r.macMap[mac]].serial in r.serialMap
    && r.serialMap[r.wrenches[r.macMap[mac]].serial] == r.macMap[mac]
  }

  /** The invariant makes verify_mac_serial's serial cross-check redundant:
      a packet is credited to a wrench exactly when its address was ever
      bound, so a packet from an address a wrench has since left still
      reaches that wrench until another wrench reports its serial from
      there. */
  lemma MacMatchesBound(r: Registry, mac: u32)
    requires Indexed(r)
    ensures MacMatches(r, mac) <==> mac in r.macMap
  {
    if mac in r.macMap {
      var i := r.macMap[mac];
      assert r.wrenches[i].serial in r.serialMap && r.serialMap[r.wrenches[i].serial] == i;
    }
  }

  /** verify_mac_serial when it succeeds: the matched wrench takes the
      packet. */
  function VerifyStep(r: Registry, p: ComPacket, now: nat, wall: int): (o: Out)
    requires MacMatches(r, p.mac)
    ensures o.com == [] && |o.next.wrenches| == |r.wrenches|
  {
    var i := r.macMap[p.mac];
    var u := ComUpdateStep(r.wrenches[i], p.payload, now, wall);
    Out(Put(r, i, u.next), [], u.redis)
  }

  /** The serial number a serial report carries, little-endian. */
  function ReportedSerial(p: ComPacket): u128
    requires p.payload.Fixed? && p.payload.payload.InfoSerial?
  {
    U128Le(p.payload.payload.serial)
  }

  /** A new wrench at the next position, bound to its serial and address. */
  function Register(r: Registry, mac: u32, serial: u128, now: nat): (q: Registry)
    ensures |q.wrenches| == |r.wrenches| + 1 && q.wrenches[..|r.wrenches|] == r.wrenches
    ensures q.wrenches[|r.wrenches|] == New(mac, serial, now)
    ensures q.serialMap == r.serialMap[serial := |r.wrenches|] && q.macMap == r.macMap[mac := |r.wrenches|]
    ensures q.pending == r.pending
  {
    var i := |r.wrenches|;
    Registry(r.wrenches + [New(mac, serial, now)], r.serialMap[serial := i], r.macMap[mac := i], r.pending)
  }

  lemma RegisterIndexed(r: Registry, mac: u32, serial: u128, now: nat)
    requires Indexed(r) && serial != 0 && serial !in r.serialMap
    ensures Indexed(Register(r, mac, serial, now))
  {
    var q := Register(r, mac, serial, now);
    forall j | 0 <= j < |q.wrenches|
      ensures q.wrenches[j].serial in q.serialMap && q.serialMap[q.wrenches[j].serial] == j
    {
      if j < |r.wrenches| {
        assert q.wrenches[j] == r.wrenches[j];
      }
    }
  }

  /** process_com_message. A serial report registers an unknown serial at
      the next position and binds the address to it, or moves a known
      wrench to the reporting address; both then ask for the battery
      state. A report of serial 0 is ignored. Any other packet goes to the
      wrench bound to its address, or, when none matches, the sender is
      asked for its serial number. */
  function ComMessageStep(r: Registry, p: ComPacket, now: nat, wall: int): Out
    requires Indexed(r)
  {
    if p.payload.Fixed? && p.payload.payload.InfoSerial? then
      var serial := ReportedSerial(p);
      if serial == 0 then Out(r, [], [])
      else if serial !in r.serialMap then
        Out(Register(r, p.mac, serial, now), [Queries.QueryEnergy(p.mac)], [])
      else
        var i := r.serialMap[serial];
        var u := MacReconnectStep(r.wrenches[i], p.mac, now);
        Out(Put(r, i, u.next).(macMap := r.macMap[p.mac := i]), u.com + [Queries.QueryEnergy(p.mac)], u.redis)
    else if MacMatches(r, p.mac) then VerifyStep(r, p, now, wall)
    else Out(r, [Queries.QuerySerial(p.mac)], [])
  }

  lemma MacReconnectSerial(s: WrenchState, mac: u32, now: nat)
    ensures MacReconnectStep(s, mac, now).next.serial == s.serial
  {
  }

  /** A wrench that moves to a new address keeps the invariant. */
  lemma ReconnectIndexed(r: Registry, i: nat, mac: u32, now: nat)
    requires Indexed(r) && i < |r.wrenches|
    ensures Indexed(Put(r, i, MacReconnectStep(r.wrenches[i], mac, now).next).(macMap := r.macMap[mac := i]))
  {
    MacReconnectEffect(r.wrenches[i], mac, now);
    MacReconnectSerial(r.wrenches[i], mac, now);
    PutIndexed(r, i, MacReconnectStep(r.wrenches[i], mac, now).next);
  }

  /** A packet credited to a wrench keeps the invariant. */
  lemma UpdateIndexed(r: Registry, p: ComPacket, now: nat, wall: int)
    requires Indexed(r) && MacMatches(r, p.mac)
    ensures Indexed(VerifyStep(r, p, now, wall).next)
  {
    var i := r.macMap[p.mac];
    ComUpdateEffect(r.wrenches[i], p.payload, now, wall);
    PutIndexed(r, i, ComUpdateStep(r.wrenches[i], p.payload, now, wall).next);
  }

  /** Every packet from the serial side keeps the invariant. */
  lemma ComMessageIndexed(r: Registry, p: ComPacket, now: nat, wall: int)
    requires Indexed(r)
    ensures Indexed(ComMessageStep(r, p, now, wall).next)
  {
    if p.payload.Fixed? && p.payload.payload.InfoSerial? {
      var serial := ReportedSerial(p);
      if serial != 0 && serial in r.serialMap {
        ReconnectIndexed(r, r.serialMap[serial], p.mac, now);
      } else if serial != 0 {
        RegisterIndexed(r, p.mac, serial, now);
      }
    } else if MacMatches(r, p.mac) {
      UpdateIndexed(r, p, now, wall);
    }
  }

  /** A serial report: serial 0 changes nothing; an unknown serial gets
      the next position, both maps point there, and the new wrench is asked
      for its battery state; a known serial keeps its position, its
      wrench moves to the reporting address, that address now points at
      it, no other wrench changes, and the battery query goes last. */
  lemma ComReportEffect(r: Registry, p: ComPacket, now: nat, wall: int)
    requires Indexed(r) && p.payload.Fixed? && p.payload.payload.InfoSerial?
    ensures var o := ComMessageStep(r, p, now, wall);
      var serial := ReportedSerial(p);
      && o.next.pending == r.pending
      && (serial == 0 ==> o == Out(r, [], []))
      && (serial != 0 && serial !in r.serialMap ==>
            && |o.next.wrenches| == |r.wrenches| + 1
            && o.next.wrenches[..|r.wrenches|] == r.wrenches
            && o.next.wrenches[|r.wrenches|] == New(p.mac, serial, now)
            && o.next.serialMap == r.serialMap[serial := |r.wrenches|]
            && o.next.macMap == r.macMap[p.mac := |r.wrenches|]
            && o.com == [Queries.QueryEnergy(p.mac)] && o.redis == [])
      && (serial in r.serialMap ==>
            var i := r.serialMap[serial];
            && |o.next.wrenches| == |r.wrenches| && o.next.serialMap == r.serialMap
            && o.next.macMap == r.macMap[p.mac := i]
            && o.next.wrenches[i] == MacReconnectStep(r.wrenches[i], p.mac, now).next
            && o.next.wrenches[i].mac == p.mac && o.next.wrenches[i].lastRecv == now
            && (forall j :: 0 <= j < |r.wrenches| && j != i ==> o.next.wrenches[j] == r.wrenches[j])
            && |o.com| > 0 && o.com[|o.com| - 1] == Queries.QueryEnergy(p.mac))
  {
    var serial := ReportedSerial(p);
    if serial in r.serialMap {
      MacReconnectEffect(r.wrenches[r.serialMap[serial]], p.mac, now);
    }
  }

  /** Any other packet: from a bound address it updates that wrench alone
      and sends nothing to the wrenches; from an unbound one it changes
      nothing and asks the sender for its serial number. */
  lemma ComPacketEffect(r: Registry, p: ComPacket, now: nat, wall: int)
    requires Indexed(r) && !(p.payload.Fixed? && p.payload.payload.InfoSerial?)
    ensures var o := ComMessageStep(r, p, now, wall);
      && o.next.serialMap == r.serialMap && o.next.macMap == r.macMap && o.next.pending == r.pending
      && |o.next.wrenches| == |r.wrenches|
      && (p.mac in r.macMap ==>
            var i := r.macMap[p.mac];
            && o.com == []
            && o.next.wrenches[i] == ComUpdateStep(r.wrenches[i], p.payload, now, wall).next
            && o.next.wrenches[i].lastRecv == now
            && o.redis == ComUpdateStep(r.wrenches[i], p.payload, now, wall).redis
            && (forall j :: 0 <= j < |r.wrenches| && j != i ==> o.next.wrenches[j] == r.wrenches[j]))
      && (p.mac !in r.macMap ==> o == Out(r, [Queries.QuerySerial(p.mac)], []))
  {
    MacMatchesBound(r, p.mac);
    if MacMatches(r, p.mac) {
      ComUpdateEffect(r.wrenches[r.macMap[p.mac]], p.payload, now, wall);
    }
  }

  // ---------------------------------------------------------------------
  // Messages from Redis (process_message_from_redis)

  /** `u128::from_str_radix(text, 16).unwrap_or(0)`. */
  function ParseSerial(text: string): (s: u128)
    ensures RustText.ParseHexU128(text).Some? ==> s == RustText.ParseHexU128(text).value
    ensures RustText.ParseHexU128(text).None? ==> s == 0
  {
    var v := RustText.ParseHexU128(text);
    if v.Some? then v.value as u128 else 0
  }

  /** The wrench a task request names. */
  function SerialOf(t: TaskRequest): u128
  {
    ParseSerial(t.wrenchSerial)
  }

  /** A serial that maps to a wrench position. */
  predicate Known(serialMap: map<u128, nat>, n: nat, s: u128)
  {
    s in serialMap && serialMap[s] < n
  }

  /** The position of the first request whose wrench is not registered, or
      the length of the list when every wrench is. */
  function FirstUnknown(serialMap: map<u128, nat>, n: nat, ts: seq<TaskRequest>): (i: nat)
    ensures i <= |ts|
    ensures forall j :: 0 <= j < i ==> Known(serialMap, n, SerialOf(ts[j]))
    ensures i < |ts| ==> !Known(serialMap, n, SerialOf(ts[i]))
  {
    if ts == [] then 0
    else if !Known(serialMap, n, SerialOf(ts[0])) then 0
    else 1 + FirstUnknown(serialMap, n, ts[1..])
  }

  /** FirstUnknown is the first position whose wrench is unknown. */
  lemma {:induction false} FirstUnknownIs(serialMap: map<u128, nat>, n: nat, ts: seq<TaskRequest>, i: nat)
    requires i <= |ts|
    requires forall j :: 0 <= j < i ==> Known(serialMap, n, SerialOf(ts[j]))
    requires i < |ts| ==> !Known(serialMap, n, SerialOf(ts[i]))
    ensures FirstUnknown(serialMap, n, ts) == i
    decreases i
  {
    if i > 0 {
      assert Known(serialMap, n, SerialOf(ts[0]));
      assert forall j :: 0 <= j < i - 1 ==> ts[1..][j] == ts[j + 1];
      FirstUnknownIs(serialMap, n, ts[1..], i - 1);
    }
  }

  /** The scan for an unknown wrench, one request further. */
  lemma FirstUnknownNext(serialMap: map<u128, nat>, n: nat, ts: seq<TaskRequest>, i: nat)
    requires i < |ts| && FirstUnknown(serialMap, n, ts[..i]) == i
    ensures Known(serialMap, n, SerialOf(ts[i])) ==> FirstUnknown(serialMap, n, ts[..i + 1]) == i + 1
    ensures !Known(serialMap, n, SerialOf(ts[i])) ==> FirstUnknown(serialMap, n, ts) == i
  {
    assert forall j :: 0 <= j < i ==> ts[..i][j] == ts[j] == ts[..i + 1][j];
    if Known(serialMap, n, SerialOf(ts[i])) {
      FirstUnknownIs(serialMap, n, ts[..i + 1], i + 1);
    } else {
      FirstUnknownIs(serialMap, n, ts, i);
    }
  }

  predicate NoDup(ss: seq<u128>)
  {
    forall i, j :: 0 <= i < j < |ss| ==> ss[i] != ss[j]
  }

  /** The requests for serial s, in list order. */
  function Group(ts: seq<TaskRequest>, s: u128): (g: seq<TaskRequest>)
    ensures |g| <= |ts|
  {
    if ts == [] then []
    else
      var g := Group(ts[..|ts| - 1], s);
      assert ts == ts[..|ts| - 1] + [ts[|ts| - 1]];
      if SerialOf(ts[|ts| - 1]) == s then g + [ts[|ts| - 1]] else g
  }

  /** The serials the requests name, each once, in order of first mention. */
  function Serials(ts: seq<TaskRequest>): (ss: seq<u128>)
    ensures NoDup(ss) && |ss| <= |ts|
  {
    if ts == [] then []
    else
      var ss := Serials(ts[..|ts| - 1]);
      assert ts == ts[..|ts| - 1] + [ts[|ts| - 1]];
      if SerialOf(ts[|ts| - 1]) in ss then ss else ss + [SerialOf(ts[|ts| - 1])]
  }

  /** A group holds exactly the requests for its serial. */
  lemma {:induction false} GroupMembers(ts: seq<TaskRequest>, s: u128)
    ensures forall t :: t in Group(ts, s) <==> t in ts && SerialOf(t) == s
    decreases |ts|
  {
    if ts != [] {
      assert ts == ts[..|ts| - 1] + [ts[|ts| - 1]];
      GroupMembers(ts[..|ts| - 1], s);
    }
  }

  /** The serial list holds exactly the serials some request names. */
  lemma {:induction false} SerialsMembers(ts: seq<TaskRequest>)
    ensures forall s :: s in Serials(ts) <==> exists j :: 0 <= j < |ts| && SerialOf(ts[j]) == s
    decreases |ts|
  {
    if ts != [] {
      var front := ts[..|ts| - 1];
      SerialsMembers(front);
      assert forall j :: 0 <= j < |front| ==> front[j] == ts[j];
      forall s | exists j :: 0 <= j < |ts| && SerialOf(ts[j]) == s
        ensures s in Serials(ts)
      {
        var j :| 0 <= j < |ts| && SerialOf(ts[j]) == s;
        if j < |front| {
          assert SerialOf(front[j]) == s;
        }
      }
    }
  }

  /** A serial no request names has an empty group. */
  lemma {:induction false} GroupEmpty(ts: seq<TaskRequest>, s: u128)
    requires s !in Serials(ts)
    ensures Group(ts, s) == []
    decreases |ts|
  {
    if ts != [] {
      GroupEmpty(ts[..|ts| - 1], s);
    }
  }

  /** The task-list handler's grouping of requests by serial, one request
      at a time: a request joins its serial's entry, which is created empty
      the first time. */
  function GroupMap(ts: seq<TaskRequest>): map<u128, seq<TaskRequest>>
  {
    if ts == [] then map[]
    else
      var m := GroupMap(ts[..|ts| - 1]);
      var s := SerialOf(ts[|ts| - 1]);
      if s in m then m[s := m[s] + [ts[|ts| - 1]]] else m[s := [ts[|ts| - 1]]]
  }

  /** The grouping has one entry per serial named, holding that serial's
      group. */
  lemma {:induction false} GroupMapIs(ts: seq<TaskRequest>)
    ensures forall s :: s in GroupMap(ts) <==> s in Serials(ts)
    ensures forall s :: s in GroupMap(ts) ==> GroupMap(ts)[s] == Group(ts, s)
    decreases |ts|
  {
    if ts != [] {
      var front := ts[..|ts| - 1];
      GroupMapIs(front);
      var s := SerialOf(ts[|ts| - 1]);
      if s !in GroupMap(front) {
        GroupEmpty(front, s);
      }
    }
  }

  /** The grouping, read at each serial of the order: it holds that serial's group. */
  lemma GroupMapAt(ts: seq<TaskRequest>)
    ensures forall k :: 0 <= k < |Serials(ts)| ==>
      Serials(ts)[k] in GroupMap(ts) && GroupMap(ts)[Serials(ts)[k]] == Group(ts, Serials(ts)[k])
  {
    GroupMapIs(ts);
    forall k | 0 <= k < |Serials(ts)|
      ensures Serials(ts)[k] in GroupMap(ts)
    {
      assert Serials(ts)[k] in Serials(ts);
    }
  }

  /** One more request extends its serial's group and, when its serial
      is new, the serial list. */
  lemma PrefixStep(ts: seq<TaskRequest>, i: nat)
    requires i < |ts|
    ensures forall s :: Group(ts[..i + 1], s) == Group(ts[..i], s) + (if SerialOf(ts[i]) == s then [ts[i]] else [])
    ensures Serials(ts[..i + 1]) ==
      if SerialOf(ts[i]) in Serials(ts[..i]) then Serials(ts[..i]) else Serials(ts[..i]) + [SerialOf(ts[i])]
  {
    assert ts[..i + 1][..i] == ts[..i];
  }

  /** One more request of the list: it joins its serial's entry, and a
      serial not seen before goes to the end of the order. */
  lemma GroupMapNext(ts: seq<TaskRequest>, i: nat)
    requires i < |ts|
    ensures var m := GroupMap(ts[..i]);
      var s := SerialOf(ts[i]);
      && GroupMap(ts[..i + 1]) == (if s in m then m[s := m[s] + [ts[i]]] else m[s := [ts[i]]])
      && Serials(ts[..i + 1]) == (if s in m then Serials(ts[..i]) else Serials(ts[..i]) + [s])
  {
    assert ts[..i + 1][..i] == ts[..i];
    GroupMapIs(ts[..i]);
    PrefixStep(ts, i);
  }

  /** Every request parses. */
  predicate AllParse(ts: seq<TaskRequest>)
  {
    forall i :: 0 <= i < |ts| ==> Tasks.ParseTask(ts[i]).Some?
  }

  /** When every request names a registered wrench, so does every serial
      the list mentions. */
  lemma SerialsKnown(r: Registry, ts: seq<TaskRequest>)
    requires FirstUnknown(r.serialMap, |r.wrenches|, ts) == |ts|
    ensures forall k :: 0 <= k < |Serials(ts)| ==> Known(r.serialMap, |r.wrenches|, Serials(ts)[k])
  {
    SerialsMembers(ts);
    forall k | 0 <= k < |Serials(ts)|
      ensures Known(r.serialMap, |r.wrenches|, Serials(ts)[k])
    {
      assert Serials(ts)[k] in Serials(ts);
      var j :| 0 <= j < |ts| && SerialOf(ts[j]) == Serials(ts)[k];
    }
  }

  /** Every serial the list mentions has at least one request. */
  lemma SerialsGrouped(ts: seq<TaskRequest>)
    ensures forall k :: 0 <= k < |Serials(ts)| ==> Group(ts, Serials(ts)[k]) != []
  {
    SerialsMembers(ts);
    forall k | 0 <= k < |Serials(ts)|
      ensures Group(ts, Serials(ts)[k]) != []
    {
      assert Serials(ts)[k] in Serials(ts);
      var j :| 0 <= j < |ts| && SerialOf(ts[j]) == Serials(ts)[k];
      GroupMembers(ts, Serials(ts)[k]);
      assert ts[j] in Group(ts, Serials(ts)[k]);
    }
  }

  /** The dispatch loop: each serial in `order` gets its group of requests
      through redis_update, in that order. The handler only dispatches
      registered serials; an unregistered one would be skipped here. */
  function Dispatch(r: Registry, msgId: string, ts: seq<TaskRequest>, order: seq<u128>, wall: int): (o: Out)
    ensures |o.next.wrenches| == |r.wrenches|
    ensures o.next.serialMap == r.serialMap && o.next.macMap == r.macMap && o.next.pending == r.pending
  {
    if order == [] then Out(r, [], [])
    else
      var o := Dispatch(r, msgId, ts, order[..|order| - 1], wall);
      var s := order[|order| - 1];
      if !Known(r.serialMap, |r.wrenches|, s) then o
      else
        var i := r.serialMap[s];
        var u := RedisUpdateStep(o.next.wrenches[i], SendTask(msgId, Group(ts, s)), wall);
        Out(Put(o.next, i, u.next), o.com + u.com, o.redis + u.redis)
  }

  /** The last serial of the order, when registered, gets its group. */
  lemma DispatchLast(r: Registry, msgId: string, ts: seq<TaskRequest>, order: seq<u128>, wall: int)
    requires order != [] && Known(r.serialMap, |r.wrenches|, order[|order| - 1])
    ensures var o := Dispatch(r, msgId, ts, order[..|order| - 1], wall);
      var i := r.serialMap[order[|order| - 1]];
      var u := RedisUpdateStep(o.next.wrenches[i], SendTask(msgId, Group(ts, order[|order| - 1])), wall);
      Dispatch(r, msgId, ts, order, wall) == Out(Put(o.next, i, u.next), o.com + u.com, o.redis + u.redis)
  {
  }

  /** One more serial of the order: its wrench gets its group. */
  lemma DispatchNext(r: Registry, msgId: string, ts: seq<TaskRequest>, order: seq<u128>, k: nat, wall: int)
    requires k < |order| && Known(r.serialMap, |r.wrenches|, order[k])
    ensures var o := Dispatch(r, msgId, ts, order[..k], wall);
      var i := r.serialMap[order[k]];
      var u := RedisUpdateStep(o.next.wrenches[i], SendTask(msgId, Group(ts, order[k])), wall);
      Dispatch(r, msgId, ts, order[..k + 1], wall) == Out(Put(o.next, i, u.next), o.com + u.com, o.redis + u.redis)
  {
    assert order[..k + 1][..k] == order[..k];
  }

  /** check_connect: the reply carries whether the serial is registered
      and its wrench is not disconnected. */
  function ConnectReply(r: Registry, info: ConnectInfo): ResponseAction
  {
    var s := info.wrenchSerial;
    ConnectStatus(info.(status := Known(r.serialMap, |r.wrenches|, s) && r.wrenches[r.serialMap[s]].status != Disconnected))
  }

  /** The failure reply a task list gets when a request names a wrench
      that is not registered: it names the first such wrench. */
  function Refusal(serialMap: map<u128, nat>, n: nat, msgId: string, ts: seq<TaskRequest>): Option<ResponseAction>
  {
    var k := FirstUnknown(serialMap, n, ts);
    if k < |ts| then Some(TaskStatus(TaskInfo(msgId, SerialOf(ts[k]), false))) else None
  }

  /** A task list: refused as a whole, with its failure reply, when any
      request names an unregistered wrench; otherwise dispatched by serial
      in order of first mention. */
  function SendTaskStep(r: Registry, msgId: string, ts: seq<TaskRequest>, wall: int): Out
  {
    match Refusal(r.serialMap, |r.wrenches|, msgId, ts)
    case Some(failure) => Out(r, [], [failure])
    case None => Dispatch(r, msgId, ts, Serials(ts), wall)
  }

  /** process_message_from_redis. A binding request is queued. A
      connection check is answered. A task list is refused as a whole, with
      one failure reply naming the first unregistered wrench, when any
      request names one; otherwise each named wrench gets its own requests.
      A cancellation goes to the wrench it names, if registered. */
  function RedisStep(r: Registry, a: RequiredAction, wall: int): Out
  {
    match a
    case BindWrench(target) => Out(r.(pending := r.pending + [target]), [], [])
    case CheckConnect(info) => Out(r, [], [ConnectReply(r, info)])
    case SendTask(msgId, ts) => SendTaskStep(r, msgId, ts, wall)
    case TaskCancel(text, taskId) =>
      var s := ParseSerial(text);
      if Known(r.serialMap, |r.wrenches|, s) then
        var u := RedisUpdateStep(r.wrenches[r.serialMap[s]], a, wall);
        Out(Put(r, r.serialMap[s], u.next), u.com, u.redis)
      else Out(r, [], [])
  }

  lemma RedisUpdateSerial(s: WrenchState, a: RequiredAction, wall: int)
    requires Consistent(s)
    ensures RedisUpdateStep(s, a, wall).next.serial == s.serial
  {
    match a
    case SendTask(msgId, tasks) => AppendTaskEffect(s, msgId, tasks, wall);
    case TaskCancel(_, taskId) => CancelEffect(s, taskId);
    case _ =>
  }

  /** The dispatch loop keeps the invariant. */
  lemma {:induction false} DispatchIndexed(r: Registry, msgId: string, ts: seq<TaskRequest>, order: seq<u128>, wall: int)
    requires Indexed(r)
    requires forall k :: 0 <= k < |order| ==> Known(r.serialMap, |r.wrenches|, order[k])
    ensures Indexed(Dispatch(r, msgId, ts, order, wall).next)
    decreases |order|
  {
    if order != [] {
      var o := Dispatch(r, msgId, ts, order[..|order| - 1], wall);
      DispatchIndexed(r, msgId, ts, order[..|order| - 1], wall);
      var i := r.serialMap[order[|order| - 1]];
      var a := SendTask(msgId, Group(ts, order[|order| - 1]));
      RedisUpdateConsistent(o.next.wrenches[i], a, wall);
      RedisUpdateSerial(o.next.wrenches[i], a, wall);
      PutIndexed(o.next, i, RedisUpdateStep(o.next.wrenches[i], a, wall).next);
    }
  }

  /** Every message from Redis keeps the invariant. */
  lemma RedisIndexed(r: Registry, a: RequiredAction, wall: int)
    requires Indexed(r)
    ensures Indexed(RedisStep(r, a, wall).next)
  {
    match a
    case SendTask(msgId, ts) =>
      if FirstUnknown(r.serialMap, |r.wrenches|, ts) == |ts| {
        SerialsKnown(r, ts);
        DispatchIndexed(r, msgId, ts, Serials(ts), wall);
      }
    case TaskCancel(text, taskId) =>
      var s := ParseSerial(text);
      if Known(r.serialMap, |r.wrenches|, s) {
        RedisUpdateConsistent(r.wrenches[r.serialMap[s]], a, wall);
        RedisUpdateSerial(r.wrenches[r.serialMap[s]], a, wall);
        PutIndexed(r, r.serialMap[s], RedisUpdateStep(r.wrenches[r.serialMap[s]], a, wall).next);
      }
    case _ =>
  }

  lemma NoDupLast(order: seq<u128>)
    requires NoDup(order) && order != []
    ensures NoDup(order[..|order| - 1]) && order[|order| - 1] !in order[..|order| - 1]
  {
    assert forall k :: 0 <= k < |order| - 1 ==> order[..|order| - 1][k] == order[k];
  }

  /** append_task's reply, as the dispatch loop sees it: one status naming
      the wrench, successful exactly when every request parses, and at most
      a clear packet. */
  lemma SendTaskReply(w: WrenchState, msgId: string, g: seq<TaskRequest>, wall: int)
    requires Consistent(w) && g != []
    ensures RedisUpdateStep(w, SendTask(msgId, g), wall).redis == [TaskStatus(TaskInfo(msgId, w.serial, AllParse(g)))]
    ensures forall p :: p in RedisUpdateStep(w, SendTask(msgId, g), wall).com ==> p.payload == W.ClearJointData
  {
    AppendTaskEffect(w, msgId, g, wall);
  }

  /** The dispatch loop hands each named wrench its own requests through
      append_task, and leaves every other wrench as it was. */
  lemma {:induction false} DispatchWrenches(r: Registry, msgId: string, ts: seq<TaskRequest>, order: seq<u128>, wall: int)
    requires Indexed(r) && NoDup(order)
    requires forall k :: 0 <= k < |order| ==> Known(r.serialMap, |r.wrenches|, order[k])
    ensures var o := Dispatch(r, msgId, ts, order, wall);
      forall i :: 0 <= i < |r.wrenches| ==>
        o.next.wrenches[i] ==
          if r.wrenches[i].serial in order
          then AppendTaskStep(r.wrenches[i], msgId, Group(ts, r.wrenches[i].serial), wall).next
          else r.wrenches[i]
    decreases |order|
  {
    if order != [] {
      var front := order[..|order| - 1];
      var s := order[|order| - 1];
      assert order == front + [s];
      assert Known(r.serialMap, |r.wrenches|, s);
      var o := Dispatch(r, msgId, ts, front, wall);
      DispatchWrenches(r, msgId, ts, front, wall);
      var i := r.serialMap[s];
      NoDupLast(order);
      assert o.next.wrenches[i] == r.wrenches[i];
      var whole := Dispatch(r, msgId, ts, order, wall);
      DispatchLast(r, msgId, ts, order, wall);
      assert whole.next == Put(o.next, i, RedisUpdateStep(r.wrenches[i], SendTask(msgId, Group(ts, s)), wall).next);
      forall j | 0 <= j < |r.wrenches|
        ensures whole.next.wrenches[j] ==
          if r.wrenches[j].serial in order
          then AppendTaskStep(r.wrenches[j], msgId, Group(ts, r.wrenches[j].serial), wall).next
          else r.wrenches[j]
      {
        if j != i {
          SerialsDistinct(r, i, j);
          assert (r.wrenches[j].serial in order) == (r.wrenches[j].serial in front);
        }
      }
    }
  }

  /** The replies the dispatch loop owes: one status per serial, in
      order, successful exactly when every request for it parses. */
  function Replies(msgId: string, ts: seq<TaskRequest>, order: seq<u128>): (rs: seq<ResponseAction>)
    ensures |rs| == |order|
  {
    if order == [] then []
    else Replies(msgId, ts, order[..|order| - 1]) + [TaskStatus(TaskInfo(msgId, order[|order| - 1], AllParse(Group(ts, order[|order| - 1]))))]
  }

  /** The k-th reply names the k-th serial and says whether all of its
      requests parse. */
  lemma {:induction false} RepliesAt(msgId: string, ts: seq<TaskRequest>, order: seq<u128>)
    ensures forall k :: 0 <= k < |order| ==>
      Replies(msgId, ts, order)[k] == TaskStatus(TaskInfo(msgId, order[k], AllParse(Group(ts, order[k]))))
    decreases |order|
  {
    if order != [] {
      var front := order[..|order| - 1];
      RepliesAt(msgId, ts, front);
      forall k | 0 <= k < |order|
        ensures Replies(msgId, ts, order)[k] == TaskStatus(TaskInfo(msgId, order[k], AllParse(Group(ts, order[k]))))
      {
        if k < |front| {
          assert Replies(msgId, ts, order)[k] == Replies(msgId, ts, front)[k] && front[k] == order[k];
        }
      }
    }
  }

  /** The dispatch loop sends exactly the replies it owes, and every packet
      it sends clears a wrench's stored results. */
  lemma {:induction false} DispatchReplies(r: Registry, msgId: string, ts: seq<TaskRequest>, order: seq<u128>, wall: int)
    requires Indexed(r)
    requires forall k :: 0 <= k < |order| ==> Known(r.serialMap, |r.wrenches|, order[k]) && Group(ts, order[k]) != []
    ensures Dispatch(r, msgId, ts, order, wall).redis == Replies(msgId, ts, order)
    ensures forall p :: p in Dispatch(r, msgId, ts, order, wall).com ==> p.payload == W.ClearJointData
    decreases |order|
  {
    if order != [] {
      var front := order[..|order| - 1];
      var s := order[|order| - 1];
      assert Known(r.serialMap, |r.wrenches|, s) && Group(ts, s) != [];
      assert forall k :: 0 <= k < |front| ==> front[k] == order[k];
      var o := Dispatch(r, msgId, ts, front, wall);
      DispatchReplies(r, msgId, ts, front, wall);
      DispatchIndexed(r, msgId, ts, front, wall);
      var w := o.next.wrenches[r.serialMap[s]];
      assert w.serial == s;
      var u := RedisUpdateStep(w, SendTask(msgId, Group(ts, s)), wall);
      SendTaskReply(w, msgId, Group(ts, s), wall);
      var whole := Dispatch(r, msgId, ts, order, wall);
      assert whole.redis == o.redis + u.redis;
      assert whole.com == o.com + u.com;
    }
  }

  /** A request list is refused when one of its requests names a wrench
      that is not registered. */
  predicate Refused(r: Registry, ts: seq<TaskRequest>)
  {
    exists j :: 0 <= j < |ts| && !Known(r.serialMap, |r.wrenches|, SerialOf(ts[j]))
  }

  /** A serial that does not parse is read as 0, which no wrench has, so
      its list is refused. */
  lemma UnparsedRefused(r: Registry, ts: seq<TaskRequest>)
    requires Indexed(r)
    ensures (exists j :: 0 <= j < |ts| && RustText.ParseHexU128(ts[j].wrenchSerial).None?) ==> Refused(r, ts)
  {
    if exists j :: 0 <= j < |ts| && RustText.ParseHexU128(ts[j].wrenchSerial).None? {
      var j :| 0 <= j < |ts| && RustText.ParseHexU128(ts[j].wrenchSerial).None?;
      assert SerialOf(ts[j]) == 0;
    }
  }

  /** A task list is refused exactly when a request names an unregistered
      wrench, and the reply names the first such wrench as failed. */
  lemma RefusalIs(r: Registry, msgId: string, ts: seq<TaskRequest>)
    ensures var f := Refusal(r.serialMap, |r.wrenches|, msgId, ts);
      && (f.Some? <==> Refused(r, ts))
      && (f.Some? ==>
            && FirstUnknown(r.serialMap, |r.wrenches|, ts) < |ts|
            && var s := SerialOf(ts[FirstUnknown(r.serialMap, |r.wrenches|, ts)]);
            && !Known(r.serialMap, |r.wrenches|, s)
            && f.value == TaskStatus(TaskInfo(msgId, s, false)))
  {
    if Refused(r, ts) {
      var j :| 0 <= j < |ts| && !Known(r.serialMap, |r.wrenches|, SerialOf(ts[j]));
      assert FirstUnknown(r.serialMap, |r.wrenches|, ts) <= j;
    }
  }

  /** A refused task list changes nothing and sends its failure reply. */
  lemma SendTaskRefused(r: Registry, msgId: string, ts: seq<TaskRequest>, wall: int)
    requires Refused(r, ts)
    ensures RedisStep(r, SendTask(msgId, ts), wall) == Out(r, [], [Refusal(r.serialMap, |r.wrenches|, msgId, ts).value])
  {
    RefusalIs(r, msgId, ts);
    assert RedisStep(r, SendTask(msgId, ts), wall) == SendTaskStep(r, msgId, ts, wall);
  }

  /** An empty task list gets no reply and changes nothing. */
  lemma SendTaskEmpty(r: Registry, msgId: string, wall: int)
    ensures RedisStep(r, SendTask(msgId, []), wall) == Out(r, [], [])
  {
    assert Serials([]) == [];
    assert RedisStep(r, SendTask(msgId, []), wall) == SendTaskStep(r, msgId, [], wall);
  }

  /** An accepted task list: each named wrench appends its own requests,
      no other wrench changes, the maps stay, there is one reply per named
      wrench in order of first mention, and every packet sent clears a
      wrench's stored results. An empty list therefore gets no reply. */
  lemma SendTaskAccepted(r: Registry, msgId: string, ts: seq<TaskRequest>, wall: int)
    requires Indexed(r)
    requires forall j :: 0 <= j < |ts| ==> Known(r.serialMap, |r.wrenches|, SerialOf(ts[j]))
    ensures var o := RedisStep(r, SendTask(msgId, ts), wall);
      && Indexed(o.next)
      && o.next.serialMap == r.serialMap && o.next.macMap == r.macMap && o.next.pending == r.pending
      && |o.next.wrenches| == |r.wrenches|
      && (forall i :: 0 <= i < |r.wrenches| ==>
            o.next.wrenches[i] ==
              if r.wrenches[i].serial in Serials(ts)
              then AppendTaskStep(r.wrenches[i], msgId, Group(ts, r.wrenches[i].serial), wall).next
              else r.wrenches[i])
      && o.redis == Replies(msgId, ts, Serials(ts))
      && (forall p :: p in o.com ==> p.payload == W.ClearJointData)
  {
    var ss := Serials(ts);
    SerialsKnown(r, ts);
    SerialsGrouped(ts);
    assert FirstUnknown(r.serialMap, |r.wrenches|, ts) == |ts|;
    assert Refusal(r.serialMap, |r.wrenches|, msgId, ts) == None;
    assert RedisStep(r, SendTask(msgId, ts), wall) == SendTaskStep(r, msgId, ts, wall) == Dispatch(r, msgId, ts, ss, wall);
    DispatchIndexed(r, msgId, ts, ss, wall);
    DispatchWrenches(r, msgId, ts, ss, wall);
    DispatchReplies(r, msgId, ts, ss, wall);
  }

  /** A cancellation reaches only the wrench whose serial it names, and
      only when that serial is registered. */
  lemma CancelRouted(r: Registry, text: string, taskId: string, wall: int)
    requires Indexed(r)
    ensures var o := RedisStep(r, TaskCancel(text, taskId), wall);
      var s := ParseSerial(text);
      && o.next.serialMap == r.serialMap && o.next.macMap == r.macMap && o.next.pending == r.pending
      && (!Known(r.serialMap, |r.wrenches|, s) ==> o == Out(r, [], []))
      && (Known(r.serialMap, |r.wrenches|, s) ==>
            var i := r.serialMap[s];
            && o.next.wrenches[i] == CancelStep(r.wrenches[i], taskId).next
            && o.com == CancelStep(r.wrenches[i], taskId).com && o.redis == []
            && (forall j :: 0 <= j < |r.wrenches| && j != i ==> o.next.wrenches[j] == r.wrenches[j]))
  {
    var s := ParseSerial(text);
    if Known(r.serialMap, |r.wrenches|, s) {
      CancelEffect(r.wrenches[r.serialMap[s]], taskId);
    }
  }

  /** The connection check answers true exactly when some registered wrench
      has the asked serial and is not disconnected, and echoes the rest of
      the request. */
  lemma ConnectReplyStatus(r: Registry, info: ConnectInfo)
    requires Indexed(r)
    ensures RedisStep(r, CheckConnect(info), 0) == Out(r, [], [ConnectReply(r, info)])
    ensures ConnectReply(r, info).connect.msgId == info.msgId
    ensures ConnectReply(r, info).connect.wrenchSerial == info.wrenchSerial
    ensures ConnectReply(r, info).connect.status <==>
      exists i :: 0 <= i < |r.wrenches| && r.wrenches[i].serial == info.wrenchSerial
                  && r.wrenches[i].status != Disconnected
  {
    if exists i :: 0 <= i < |r.wrenches| && r.wrenches[i].serial == info.wrenchSerial
                  && r.wrenches[i].status != Disconnected {
      var i :| 0 <= i < |r.wrenches| && r.wrenches[i].serial == info.wrenchSerial
               && r.wrenches[i].status != Disconnected;
      assert r.serialMap[r.wrenches[i].serial] == i;
    }
  }

  /** A binding request is queued behind the earlier ones and nothing else
      changes. */
  lemma BindQueued(r: Registry, target: WrenchInfo, wall: int)
    ensures RedisStep(r, BindWrench(target), wall) == Out(r.(pending := r.pending + [target]), [], [])
  {
  }
}
