/** `WrenchContext`: one wrench's state, updated in place. Each method
    performs the matching step of `WrenchSpec` on the fields and returns what
    it sends: packets for the wrench (`com`) and messages for Redis
    (`redis`). Each method preserves `Valid()`, the consistency invariant. */
module Wrench {
  import opened Bytes
  import opened Wrappers
  import opened Messages
  import opened Tasks
  import opened WrenchSpec
  import W = RustWrc
  import JointSort
  import Queries
  import Scale

  class WrenchContext {
    var mac: u32
    const serial: u128
    var connectId: string
    var voltage: Option<u16>
    var onlineTime: u64
    var lastRecv: nat
    var lastSend: nat
    var lastSendId: u16
    var lastReport: nat
    var totalJoints: u16
    var status: WrenchStatus
    var currentTask: Option<WrenchTask>
    var pendingTask: seq<WrenchTask>
    var finishedTask: seq<WrenchTask>

    /** The fields as a value. */
    function Model(): WrenchState
      reads this
    {
      WrenchState(mac, serial, connectId, voltage, onlineTime, lastRecv, lastSend, lastSendId,
                  lastReport, totalJoints, status, currentTask, pendingTask, finishedTask)
    }

    predicate Valid()
      reads this
    {
      Consistent(Model())
    }

    /** `WrenchContext::new` at monotonic time `now`. */
    constructor (mac: u32, serial: u128, now: nat)
      ensures Valid() && Model() == New(mac, serial, now)
    {
      this.mac := mac;
      this.serial := serial;
      connectId := "";
      voltage := None;
      onlineTime := 0;
      lastRecv, lastSend, lastReport := now, now, now;
      lastSendId := 0;
      totalJoints := 0;
      status := Connected;
      currentTask := None;
      pendingTask := [];
      finishedTask := [];
    }

    /** com_update: one packet from this wrench at time `now`. */
    method ComUpdate(p: Incoming, now: nat, wall: int) returns (redis: seq<ResponseAction>)
      requires Valid()
      modifies this
      ensures Valid()
      ensures Model() == ComUpdateStep(old(Model()), p, now, wall).next
      ensures redis == ComUpdateStep(old(Model()), p, now, wall).redis
    {
      ComUpdateEffect(Model(), p, now, wall);
      onlineTime := SaturatingAddU64(onlineTime, Elapsed(lastRecv, now) / 1000);
      lastRecv := now;
      redis := [];
      if p.Fixed? && p.payload.InfoEnergy? {
        voltage := Some(p.payload.batteryVoltageMv);
      } else if p.InlineJoints? || p.payload.InlineJointData? {
        redis := ProcessInlineJointData(Records(p), wall);
      }
    }

    /** Whether a finished task holds a result with joint id `id`. */
    method SeenInFinished(id: int) returns (b: bool)
      ensures b <==> SeenIn(finishedTask, id)
    {
      var i := 0;
      while i < |finishedTask|
        invariant 0 <= i <= |finishedTask|
        invariant forall k, j :: 0 <= k < i && j in finishedTask[k].jointsRecv ==> j.jointId != id
      {
        var js := finishedTask[i].jointsRecv;
        var n := 0;
        while n < |js|
          invariant 0 <= n <= |js|
          invariant forall m :: 0 <= m < n ==> js[m].jointId != id
        {
          if js[n].jointId == id {
            assert js[n] in finishedTask[i].jointsRecv;
            return true;
          }
          n := n + 1;
        }
        i := i + 1;
      }
      return false;
    }

    /** One record of process_inline_joint_data's loop, against the current
        task `task`, the joint count `total` and the set of stored ids. */
    method AbsorbRecord(a: Intake, jointsSet: set<int>, r: W.InlineJoint, wall: int)
      returns (b: Intake, jointsSet': set<int>)
      requires jointsSet == Ids(a.task.jointsRecv)
      ensures b == AbsorbOne(serial, finishedTask, a, r, wall)
      ensures jointsSet' == Ids(b.task.jointsRecv)
    {
      b, jointsSet' := a, jointsSet;
      if r.taskId != a.task.wrenchTaskId {
        var seen := SeenInFinished(r.jointId);
        if !seen {
          b := a.(totalJoints := WrapAddU16(a.totalJoints, 1));
        }
      } else if r.jointId as int !in jointsSet {
        var d := ToJointData(r);
        var sent := a.sent + [TaskFinished(Report(serial, a.task, r, wall))];
        var task := a.task.(lastReport := wall, jointsRecv := a.task.jointsRecv + [d]);
        IdsSnoc(a.task.jointsRecv, d);
        jointsSet' := jointsSet + {r.jointId as int};
        b := Intake(task, WrapAddU16(a.totalJoints, 1), sent);
      }
    }

    /** process_inline_joint_data: the records, sorted by joint id, one at a
        time, while the wrench is working. */
    method ProcessInlineJointData(rs: seq<W.InlineJoint>, wall: int) returns (redis: seq<ResponseAction>)
      requires Valid()
      modifies this
      ensures Valid()
      ensures Model() == InlineStep(old(Model()), rs, wall).next
      ensures redis == InlineStep(old(Model()), rs, wall).redis
    {
      InlineEffect(Model(), rs, wall);
      redis := [];
      if status != Working {
        return;
      }
      var acc := Intake(currentTask.value, totalJoints, []);
      ghost var start := acc;
      var sorted := JointSort.SortById(rs);
      var jointsSet := Ids(acc.task.jointsRecv);
      var i := 0;
      while i < |sorted|
        invariant 0 <= i <= |sorted|
        invariant acc == Absorb(serial, finishedTask, start, sorted[.. i], wall)
        invariant jointsSet == Ids(acc.task.jointsRecv)
        invariant unchanged(this)
      {
        assert sorted[.. i + 1][.. i] == sorted[.. i];
        acc, jointsSet := AbsorbRecord(acc, jointsSet, sorted[i], wall);
        i := i + 1;
      }
      assert sorted[.. |sorted|] == sorted;
      currentTask := Some(acc.task);
      totalJoints := acc.totalJoints;
      redis := acc.sent;
    }

    /** clear_task: tells the wrench to drop its stored results. */
    method ClearTask() returns (com: seq<W.Packet>)
      requires Valid()
      modifies this
      ensures Valid()
      ensures Model() == ClearTaskStep(old(Model())).next
      ensures com == ClearTaskStep(old(Model())).com
    {
      ClearTaskConsistent(Model());
      com := [ClearPacket(mac)];
      lastSendId := 0;
      totalJoints := 0;
      if status == Working && currentTask.Some? {
        var js := currentTask.value.jointsRecv;
        ghost var js0 := js;
        var i := 0;
        while i < |js|
          invariant 0 <= i <= |js| == |js0|
          invariant forall k :: 0 <= k < i ==> js[k] == js0[k].(jointId := -1)
          invariant forall k :: i <= k < |js| ==> js[k] == js0[k]
        {
          js := js[i := js[i].(jointId := -1)];
          i := i + 1;
        }
        assert js == Invalidated(js0);
        currentTask := Some(currentTask.value.(jointsRecv := js));
      }
    }

    /** send_task: the current task's SetJoint packet, if there is a task. */
    method SendTask() returns (com: seq<W.Packet>)
      ensures com == SendTaskStep(Model()).com
      ensures currentTask.Some? <==> |com| == 1
    {
      com := [];
      if currentTask.Some? {
        com := [TaskPacket(mac, lastSendId, currentTask.value)];
      }
    }

    /** The four torque fields of a request, each through scale_up. */
    static method ParseTorques(t: TaskRequest) returns (r: Option<(i32, i32, i32, i32)>)
      ensures r == TorquesOf(t)
    {
      var torque := Scale.ScaleUp(t.torque, 3);
      var angleStart := Scale.ScaleUp(t.torqueAngleStart, 1);
      var upper := Scale.ScaleUp(t.torqueDeviationUp, 3);
      var lower := Scale.ScaleUp(t.torqueDeviationDown, 3);
      if torque.None? || angleStart.None? || upper.None? || lower.None? {
        return None;
      }
      return Some((torque.value, angleStart.value, upper.value, lower.value));
    }

    /** The three angle fields of a request, each through scale_up and cut
        to 16 bits. */
    static method ParseAngles(t: TaskRequest) returns (r: Option<(i16, i16, i16)>)
      ensures r == AnglesOf(t)
    {
      var angle := Scale.ScaleUp(t.angle, 1);
      var upper := Scale.ScaleUp(t.angleDeviationUp, 1);
      var lower := Scale.ScaleUp(t.angleDeviationDown, 1);
      if angle.None? || upper.None? || lower.None? {
        return None;
      }
      return Some((WrapI16(angle.value), WrapI16(upper.value), WrapI16(lower.value)));
    }

    /** One request of append_task's loop: its joint task, or None when a
        field does not parse. */
    static method ParseRequest(t: TaskRequest) returns (r: Option<JointTask>)
      ensures r == ParseTask(t)
    {
      var q := ParseTorques(t);
      var a := ParseAngles(t);
      var c := CountsOf(t);
      if q.None? || a.None? || c.None? {
        return None;
      }
      return Some(JointTask(q.value.0, q.value.1, q.value.2, q.value.3, a.value.0, a.value.1, a.value.2,
                            c.value.0, c.value.4, c.value.1, c.value.2, c.value.3));
    }

    /** append_task's loop: the tasks that parse, numbered on from `last`. */
    static method CollectTasks(tasks: seq<TaskRequest>, last: u16, msgId: string, wall: int)
      returns (needPush: seq<WrenchTask>, lastTaskId: u16)
      ensures (needPush, lastTaskId) == Build(tasks, ParseTask, last, msgId, wall)
    {
      needPush, lastTaskId := [], last;
      var i := 0;
      while i < |tasks|
        invariant 0 <= i <= |tasks|
        invariant (needPush, lastTaskId) == Build(tasks[.. i], ParseTask, last, msgId, wall)
      {
        var t := tasks[i];
        assert tasks[.. i + 1][.. i] == tasks[.. i];
        var jt := ParseRequest(t);
        if jt.Some? {
          lastTaskId := WrapAddU16(lastTaskId, 1);
          needPush := needPush + [WrenchTask(lastTaskId, t.taskId, t.taskDetailId, msgId, wall, jt.value, [])];
        }
        i := i + 1;
      }
      assert tasks[.. |tasks|] == tasks;
    }

    /** append_task. */
    method AppendTask(msgId: string, tasks: seq<TaskRequest>, wall: int)
      returns (com: seq<W.Packet>, redis: seq<ResponseAction>)
      requires Valid()
      modifies this
      ensures Valid()
      ensures Model() == AppendTaskStep(old(Model()), msgId, tasks, wall).next
      ensures com == AppendTaskStep(old(Model()), msgId, tasks, wall).com
      ensures redis == AppendTaskStep(old(Model()), msgId, tasks, wall).redis
    {
      AppendTaskEffect(Model(), msgId, tasks, wall);
      com := [];
      if |tasks| == 0 {
        redis := [TaskStatus(TaskInfo(msgId, serial, false))];
        return;
      }
      if status != Working && |finishedTask| == 0 {
        com := ClearTask();
      }
      var last := LastTaskId(finishedTask, currentTask, pendingTask);
      var needPush, _ := CollectTasks(tasks, last, msgId, wall);
      var ok := |needPush| == |tasks|;
      if ok {
        pendingTask := pendingTask + needPush;
      }
      redis := [TaskStatus(TaskInfo(msgId, serial, ok))];
    }

    /** retain_task: drops every queued task of that Redis task id. */
    method RetainTask(taskId: string)
      requires Valid()
      modifies this
      ensures Valid()
      ensures Model() == old(Model()).(pendingTask := Retain(old(pendingTask), taskId))
    {
      pendingTask := Retain(pendingTask, taskId);
    }

    /** redis_update. */
    method RedisUpdate(a: RequiredAction, wall: int) returns (com: seq<W.Packet>, redis: seq<ResponseAction>)
      requires Valid()
      modifies this
      ensures Valid()
      ensures Model() == RedisUpdateStep(old(Model()), a, wall).next
      ensures com == RedisUpdateStep(old(Model()), a, wall).com
      ensures redis == RedisUpdateStep(old(Model()), a, wall).redis
    {
      RedisUpdateConsistent(Model(), a, wall);
      com, redis := [], [];
      match a
      case CheckConnect(info) =>
        redis := [ConnectStatus(info.(status := status != Disconnected))];
      case SendTask(msgId, tasks) =>
        com, redis := AppendTask(msgId, tasks, wall);
      case TaskCancel(_, taskId) =>
        if currentTask.Some? && currentTask.value.redisTaskId == taskId {
          com := ClearTask();
          currentTask := None;
          status := Connected;
        }
        RetainTask(taskId);
      case BindWrench(_) =>
    }

    /** The timeout phase of interval_update. */
    method TimeoutCheck(now: nat, com0: seq<W.Packet>, redis0: seq<ResponseAction>)
      returns (com: seq<W.Packet>, redis: seq<ResponseAction>)
      modifies this
      ensures Step(Model(), com, redis) == TimeoutPhase(Step(old(Model()), com0, redis0), now)
    {
      com, redis := com0, redis0;
      if Elapsed(lastRecv, now) > TIMEOUT_MS {
        status := Disconnected;
        redis := redis + [ConnectionTimeout(serial)];
      }
    }

    /** The report phase of interval_update. */
    method ReportCheck(now: nat, com0: seq<W.Packet>, redis0: seq<ResponseAction>)
      returns (com: seq<W.Packet>, redis: seq<ResponseAction>)
      modifies this
      ensures Step(Model(), com, redis) == ReportPhase(Step(old(Model()), com0, redis0), now)
    {
      com, redis := com0, redis0;
      if Elapsed(lastReport, now) > REPORT_MS {
        lastReport := now;
        com := com + [Queries.QueryEnergy(mac)];
        var v := if voltage.Some? then voltage.value else 0;
        redis := redis + [BasicStatus(BasicInfo(serial, v, totalJoints, onlineTime))];
      }
    }

    /** The poll phase of interval_update. */
    method PollCheck(now: nat, com0: seq<W.Packet>, redis0: seq<ResponseAction>)
      returns (com: seq<W.Packet>, redis: seq<ResponseAction>)
      modifies this
      ensures Step(Model(), com, redis) == PollPhase(Step(old(Model()), com0, redis0), now)
    {
      com, redis := com0, redis0;
      if Elapsed(lastSend, now) > POLL_MS {
        lastSend := now;
        com := com + [PollPacket(mac, lastSendId, totalJoints)];
        lastSendId := SaturatingAddU16(lastSendId, 1);
      }
    }

    /** The finish phase of interval_update. */
    method FinishCheck(com0: seq<W.Packet>, redis0: seq<ResponseAction>)
      returns (com: seq<W.Packet>, redis: seq<ResponseAction>)
      modifies this
      ensures Step(Model(), com, redis) == FinishPhase(Step(old(Model()), com0, redis0))
    {
      com, redis := com0, redis0;
      if currentTask.Some? && Complete(currentTask.value) {
        finishedTask := finishedTask + [currentTask.value];
        currentTask := None;
        status := Connected;
      }
    }

    /** The start phase of interval_update. */
    method StartCheck(com0: seq<W.Packet>, redis0: seq<ResponseAction>)
      returns (com: seq<W.Packet>, redis: seq<ResponseAction>)
      modifies this
      ensures Step(Model(), com, redis) == StartPhase(Step(old(Model()), com0, redis0))
    {
      com, redis := com0, redis0;
      if status == Connected && |pendingTask| > 0 {
        currentTask := Some(pendingTask[0]);
        pendingTask := pendingTask[1..];
        status := Working;
        var sent := SendTask();
        com := com + sent;
      }
    }

    /** interval_update at monotonic time `now`. */
    method IntervalUpdate(now: nat) returns (com: seq<W.Packet>, redis: seq<ResponseAction>)
      requires Valid()
      modifies this
      ensures Valid()
      ensures Model() == IntervalStep(old(Model()), now).next
      ensures com == IntervalStep(old(Model()), now).com
      ensures redis == IntervalStep(old(Model()), now).redis
    {
      IntervalKeeps(Model(), now);
      com, redis := [], [];
      if status == Disconnected {
        if Elapsed(lastRecv, now) < RECONNECT_MS {
          status := if currentTask.Some? then Working else Connected;
          redis := [ConnectStatus(ConnectInfo("0", serial, true))];
        }
        return;
      }
      com, redis := TimeoutCheck(now, com, redis);
      com, redis := ReportCheck(now, com, redis);
      com, redis := PollCheck(now, com, redis);
      com, redis := FinishCheck(com, redis);
      com, redis := StartCheck(com, redis);
    }

    /** mac_reconnect: the wrench is heard from at address `mac`. */
    method MacReconnect(mac: u32, now: nat) returns (com: seq<W.Packet>, redis: seq<ResponseAction>)
      requires Valid()
      modifies this
      ensures Valid()
      ensures Model() == MacReconnectStep(old(Model()), mac, now).next
      ensures com == MacReconnectStep(old(Model()), mac, now).com
      ensures redis == MacReconnectStep(old(Model()), mac, now).redis
    {
      MacReconnectEffect(Model(), mac, now);
      this.mac := mac;
      lastRecv := now;
      com, redis := [], [];
      if status == Disconnected {
        if currentTask.Some? {
          status := Working;
          com := ClearTask();
          var sent := SendTask();
          com := com + sent;
        } else {
          status := Connected;
        }
        redis := [ConnectStatus(ConnectInfo("0", serial, true))];
      }
    }
  }
}
