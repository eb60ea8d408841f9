/** `ComProcess`: the registry the serial-side and Redis-side handlers
    share, updated in place. Each wrench is a `WrenchContext` object; the
    registry's methods perform the matching step of `RegistrySpec` on the
    fields and on the wrench objects, and keep `Valid()`, the registry's
    invariant. */
module Registry {
  import opened Bytes
  import opened Messages
  import opened WrenchSpec
  import opened RegistrySpec
  import opened Wrench
  import Queries

  class ComProcess {
    var wrenches: seq<WrenchContext>
    var serialMap: map<u128, nat>
    var macMap: map<u32, nat>
    var connectionPending: seq<WrenchInfo>

    /** The wrench objects' states, position by position. */
    function Models(): (ms: seq<WrenchState>)
      reads this, wrenches
      ensures |ms| == |wrenches|
      ensures forall i :: 0 <= i < |wrenches| ==> ms[i] == wrenches[i].Model()
    {
      seq(|wrenches|, i requires 0 <= i < |wrenches| reads this, wrenches => wrenches[i].Model())
    }

    /** The fields as a value. */
    function State(): Registry
      reads this, wrenches
    {
      Registry(Models(), serialMap, macMap, connectionPending)
    }

    predicate Valid()
      reads this, wrenches
    {
      Indexed(State())
    }

    /** Distinct positions hold distinct objects, since they hold distinct
        serials; so updating one wrench leaves the others alone. */
    lemma Distinct()
      requires Valid()
      ensures forall i, j :: 0 <= i < |wrenches| && 0 <= j < |wrenches| && i != j ==> wrenches[i] != wrenches[j]
    {
      forall i, j | 0 <= i < |wrenches| && 0 <= j < |wrenches| && i != j
        ensures wrenches[i] != wrenches[j]
      {
        SerialsDistinct(State(), i, j);
      }
    }

    constructor ()
      ensures Valid() && State() == Empty()
    {
      wrenches := [];
      serialMap := map[];
      macMap := map[];
      connectionPending := [];
    }

    /** verify_mac_serial: when the sender's address is bound to a wrench
        whose serial maps back to it, that wrench takes the packet. */
    method VerifyMacSerial(p: ComPacket, now: nat, wall: int) returns (ok: bool, redis: seq<ResponseAction>)
      requires Valid()
      modifies wrenches
      ensures Valid()
      ensures ok == MacMatches(old(State()), p.mac)
      ensures ok ==> Out(State(), [], redis) == VerifyStep(old(State()), p, now, wall)
      ensures !ok ==> State() == old(State()) && redis == []
    {
      ok, redis := false, [];
      if p.mac in macMap && macMap[p.mac] < |wrenches| {
        var idx := macMap[p.mac];
        var w := wrenches[idx];
        if w.serial in serialMap && serialMap[w.serial] == idx {
          Distinct();
          UpdateIndexed(State(), p, now, wall);
          ghost var before := State();
          redis := w.ComUpdate(p.payload, now, wall);
          ok := true;
          assert Models() == before.wrenches[idx := w.Model()];
        }
      }
    }

    /** A serial report from an unknown wrench: it is appended and bound
        to its serial and to the reporting address. */
    method Register(mac: u32, serial: u128, now: nat)
      requires Valid() && serial != 0 && serial !in serialMap
      modifies this
      ensures Valid()
      ensures State() == RegistrySpec.Register(old(State()), mac, serial, now)
    {
      var idx := |wrenches|;
      serialMap := serialMap[serial := idx];
      macMap := macMap[mac := idx];
      var w := new WrenchContext(mac, serial, now);
      wrenches := wrenches + [w];
      assert Models() == old(State()).wrenches + [w.Model()];
      RegisterIndexed(old(State()), mac, serial, now);
    }

    /** A serial report from a known wrench at position idx: it moves to
        the reporting address. */
    method Reconnect(idx: nat, mac: u32, now: nat) returns (com: seq<W.Packet>, redis: seq<ResponseAction>)
      requires Valid() && idx < |wrenches|
      modifies this, wrenches
      ensures Valid()
      ensures var u := MacReconnectStep(old(State()).wrenches[idx], mac, now);
        && State() == Put(old(State()), idx, u.next).(macMap := old(macMap)[mac := idx])
        && com == u.com && redis == u.redis
    {
      Distinct();
      ReconnectIndexed(State(), idx, mac, now);
      var w := wrenches[idx];
      com, redis := w.MacReconnect(mac, now);
      macMap := macMap[mac := idx];
      assert Models() == old(State()).wrenches[idx := w.Model()];
    }

    /** process_com_message. */
    method ProcessComMessage(p: ComPacket, now: nat, wall: int) returns (com: seq<W.Packet>, redis: seq<ResponseAction>)
      requires Valid()
      modifies this, wrenches
      ensures Valid()
      ensures Out(State(), com, redis) == ComMessageStep(old(State()), p, now, wall)
    {
      com, redis := [], [];
      if p.payload.Fixed? && p.payload.payload.InfoSerial? {
        var serial := U128Le(p.payload.payload.serial);
        if serial == 0 {
          return;
        }
        if serial !in serialMap {
          Register(p.mac, serial, now);
          com := [Queries.QueryEnergy(p.mac)];
        } else {
          var c, r := Reconnect(serialMap[serial], p.mac, now);
          com, redis := c + [Queries.QueryEnergy(p.mac)], r;
        }
      } else {
        var ok, r := VerifyMacSerial(p, now, wall);
        if ok {
          redis := r;
        } else {
          com := [Queries.QuerySerial(p.mac)];
        }
      }
    }

    /** check_connect. */
    method CheckConnect(info: ConnectInfo) returns (reply: ResponseAction)
      ensures reply == ConnectReply(State(), info)
    {
      var status := false;
      var s := info.wrenchSerial;
      if s in serialMap && serialMap[s] < |wrenches| {
        if wrenches[serialMap[s]].status != Disconnected {
          status := true;
        }
      }
      reply := ConnectStatus(info.(status := status));
    }

    /** The first loop of the task-list handler: it stops at the first
        request that names an unregistered wrench, and otherwise groups the
        requests by serial. */
    method CollectTasks(ts: seq<TaskRequest>) returns (first: nat, order: seq<u128>, groups: map<u128, seq<TaskRequest>>)
      ensures first == FirstUnknown(serialMap, |wrenches|, ts)
      ensures first == |ts| ==> order == Serials(ts) && groups == GroupMap(ts)
    {
      order, groups := [], map[];
      var i := 0;
      while i < |ts|
        invariant 0 <= i <= |ts|
        invariant FirstUnknown(serialMap, |wrenches|, ts[..i]) == i
        invariant order == Serials(ts[..i]) && groups == GroupMap(ts[..i])
      {
        var s := SerialOf(ts[i]);
        FirstUnknownNext(serialMap, |wrenches|, ts, i);
        if !Known(serialMap, |wrenches|, s) {
          return i, order, groups;
        }
        GroupMapNext(ts, i);
        if s in groups {
          groups := groups[s := groups[s] + [ts[i]]];
        } else {
          groups := groups[s := [ts[i]]];
          order := order + [s];
        }
        i := i + 1;
      }
      assert ts[..i] == ts;
      first := i;
    }

    /** redis_update on the wrench at position idx. */
    method Forward(idx: nat, a: RequiredAction, wall: int) returns (com: seq<W.Packet>, redis: seq<ResponseAction>)
      requires Valid() && idx < |wrenches|
      modifies wrenches
      ensures Valid()
      ensures var u := RedisUpdateStep(old(State()).wrenches[idx], a, wall);
        State() == Put(old(State()), idx, u.next) && com == u.com && redis == u.redis
    {
      Distinct();
      var w := wrenches[idx];
      RedisUpdateConsistent(w.Model(), a, wall);
      RedisUpdateSerial(w.Model(), a, wall);
      PutIndexed(State(), idx, RedisUpdateStep(w.Model(), a, wall).next);
      com, redis := w.RedisUpdate(a, wall);
      assert Models() == old(State()).wrenches[idx := w.Model()];
    }

    /** The second loop of the task-list handler: each grouped serial's
        wrench gets its requests through redis_update. */
    method DispatchTasks(msgId: string, ts: seq<TaskRequest>, order: seq<u128>,
                         groups: map<u128, seq<TaskRequest>>, wall: int)
      returns (com: seq<W.Packet>, redis: seq<ResponseAction>)
      requires Valid()
      requires forall k :: 0 <= k < |order| ==> Known(serialMap, |wrenches|, order[k])
      requires forall k :: 0 <= k < |order| ==> order[k] in groups && groups[order[k]] == Group(ts, order[k])
      modifies wrenches
      ensures Valid()
      ensures Out(State(), com, redis) == Dispatch(old(State()), msgId, ts, order, wall)
    {
      ghost var st := State();
      com, redis := [], [];
      var k := 0;
      while k < |order|
        invariant 0 <= k <= |order|
        invariant Valid()
        invariant Out(State(), com, redis) == Dispatch(st, msgId, ts, order[..k], wall)
      {
        var s := order[k];
        assert Known(serialMap, |wrenches|, s);
        ghost var o := Dispatch(st, msgId, ts, order[..k], wall);
        assert o.next == State();
        DispatchNext(st, msgId, ts, order, k, wall);
        var c, r := Forward(serialMap[s], SendTask(msgId, groups[s]), wall);
        com, redis := com + c, redis + r;
        k := k + 1;
      }
      assert order[..k] == order;
    }

    /** A task list from Redis. */
    method SendTasks(msgId: string, ts: seq<TaskRequest>, wall: int)
      returns (com: seq<W.Packet>, redis: seq<ResponseAction>)
      requires Valid()
      modifies wrenches
      ensures Valid()
      ensures Out(State(), com, redis) == RedisStep(old(State()), SendTask(msgId, ts), wall)
    {
      var first, order, groups := CollectTasks(ts);
      if first < |ts| {
        com, redis := [], [TaskStatus(TaskInfo(msgId, ParseSerial(ts[first].wrenchSerial), false))];
      } else {
        SerialsKnown(State(), ts);
        GroupMapAt(ts);
        com, redis := DispatchTasks(msgId, ts, order, groups, wall);
      }
    }

    /** A cancellation from Redis. */
    method CancelTask(text: string, taskId: string, wall: int)
      returns (com: seq<W.Packet>, redis: seq<ResponseAction>)
      requires Valid()
      modifies wrenches
      ensures Valid()
      ensures Out(State(), com, redis) == RedisStep(old(State()), TaskCancel(text, taskId), wall)
    {
      com, redis := [], [];
      var s := ParseSerial(text);
      if s in serialMap && serialMap[s] < |wrenches| {
        com, redis := Forward(serialMap[s], TaskCancel(text, taskId), wall);
      }
    }

    /** process_message_from_redis. */
    method ProcessMessageFromRedis(a: RequiredAction, wall: int)
      returns (com: seq<W.Packet>, redis: seq<ResponseAction>)
      requires Valid()
      modifies this, wrenches
      ensures Valid()
      ensures Out(State(), com, redis) == RedisStep(old(State()), a, wall)
    {
      match a
      case BindWrench(target) =>
        connectionPending := connectionPending + [target];
        com, redis := [], [];
      case CheckConnect(info) =>
        var reply := CheckConnect(info);
        com, redis := [], [reply];
      case SendTask(msgId, ts) =>
        com, redis := SendTasks(msgId, ts, wall);
      case TaskCancel(text, taskId) =>
        com, redis := CancelTask(text, taskId, wall);
    }
  }
}
