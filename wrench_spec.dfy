/** The state of one wrench context as a value, and what each of its
    operations does to it: the new state, the packets sent to the wrench
    and the messages sent to Redis. The `WrenchContext` class performs these
    steps in place. Times: monotonic instants are milliseconds (`now`), the
    wall clock is `wall`; both are inputs. */
module WrenchSpec {
  import opened Bytes
  import opened Wrappers
  import opened Messages
  import opened Tasks
  import W = RustWrc
  import L = WrcLayout
  import Queries
  import JointSort

  datatype WrenchStatus = Connected | Working | Disconnected

  datatype WrenchState = WrenchState(
    mac: u32, serial: u128, connectId: string, voltage: Option<u16>, onlineTime: u64,
    lastRecv: nat, lastSend: nat, lastSendId: u16, lastReport: nat, totalJoints: u16,
    status: WrenchStatus, currentTask: Option<WrenchTask>, pendingTask: seq<WrenchTask>,
    finishedTask: seq<WrenchTask>)

  /** A new state, the packets sent to the wrench and the messages sent to Redis. */
  datatype Step = Step(next: WrenchState, com: seq<W.Packet>, redis: seq<ResponseAction>)

  /** `Instant::elapsed`, which is never negative. */
  function Elapsed(since: nat, now: nat): nat
  {
    if now >= since then now - since else 0
  }

  /** Two stored results share an id only when both were cleared to -1. */
  predicate DistinctIds(js: seq<JointData>)
  {
    forall i, j :: 0 <= i < j < |js| && js[i].jointId == js[j].jointId ==> js[i].jointId == -1
  }

  /** The invariant every operation keeps: a working wrench has a current
      task, a connected one has none, the current task's live results have
      distinct ids, and queued tasks have no results yet. */
  predicate Consistent(s: WrenchState)
  {
    && (s.status == Working ==> s.currentTask.Some?)
    && (s.status == Connected ==> s.currentTask.None?)
    && (s.currentTask.Some? ==> DistinctIds(s.currentTask.value.jointsRecv))
    && (forall i :: 0 <= i < |s.pendingTask| ==> s.pendingTask[i].jointsRecv == [])
  }

  /** `WrenchContext::new`. */
  function New(mac: u32, serial: u128, now: nat): (s: WrenchState)
    ensures Consistent(s) && s.status == Connected && s.currentTask.None?
    ensures s.pendingTask == [] && s.finishedTask == [] && s.lastSendId == 0 && s.totalJoints == 0
  {
    WrenchState(mac, serial, "", None, 0, now, now, 0, now, 0, Connected, None, [], [])
  }

  // ---------------------------------------------------------------------
  // Packets

  /** The ClearJointData packet: sequence id 0, no payload bytes. */
  function ClearPacket(mac: u32): W.Packet
  {
    W.Packet(0, mac, Queries.ServerFlag(10), 0, W.ClearJointData)
  }

  /** The clear packet carries flag 41 (server, type 10) and declares no
      payload bytes, so it encodes to a bare header, which the packet
      parser would reject as too short. */
  lemma ClearPacketShape(mac: u32)
    ensures var p := ClearPacket(mac);
      && p.flag == 41 && L.Type(p.flag) as nat == L.Code(L.ClearJointData)
      && L.Direction(p.flag) == L.FROM_SERVER && p.sequenceId == 0 && p.payloadLen == 0
      && |W.Encoding(p)| == W.HEADER_SIZE && W.Parse(W.Encoding(p)) == Err(W.TooShort)
  {
    Queries.ServerFlagValues();
    W.PayloadlessTooShort(ClearPacket(mac));
  }

  /** The joint flag of a SetJoint payload: mode, method and unit. */
  function TaskFlag(jt: JointTask): byte
  {
    L.WithJointUnit(L.WithJointMethod(L.WithJointMode(0, jt.controlMode as byte), jt.workMode as byte), jt.unit as byte)
  }

  /** The SetJoint packet that hands task t to the wrench. The repeat field
      carries the bolt count cut to 16 bits. */
  function TaskPacket(mac: u32, lastSendId: u16, t: WrenchTask): W.Packet
  {
    var jt := t.jointsTask;
    W.Packet(SaturatingAddU16(lastSendId, 1), mac, Queries.ServerFlag(7), 33,
      W.SetJoint(W.SetJointData(jt.torque, jt.torqueAngleStart, jt.torqueUpperTol, jt.torqueLowerTol,
                                jt.angle, jt.angleUpperTol, jt.angleLowerTol, -1, -1,
                                jt.boltNum % 0x1_0000, t.wrenchTaskId, TaskFlag(jt))))
  }

  /** The task packet names the task by its wrench task id, carries its
      setpoints, leaves fdt and fda at -1, and reads back unchanged through
      the packet parser. */
  lemma TaskPacketShape(mac: u32, lastSendId: u16, t: WrenchTask)
    ensures var p := TaskPacket(mac, lastSendId, t);
      && p.flag == 29 && L.Type(p.flag) as nat == L.Code(L.SetJoint) && p.payloadLen == 33
      && p.payload.SetJoint? && p.payload.setJoint.taskId == t.wrenchTaskId
      && p.payload.setJoint.torqueSetpoint == t.jointsTask.torque
      && p.payload.setJoint.angle == t.jointsTask.angle
      && p.payload.setJoint.fdt == -1 && p.payload.setJoint.fda == -1
      && p.payload.setJoint.taskRepeatTimes == t.jointsTask.boltNum % 0x1_0000
      && L.JointMode(p.payload.setJoint.jointFlag) == (t.jointsTask.controlMode as byte) & 3
      && L.JointMethod(p.payload.setJoint.jointFlag) == (t.jointsTask.workMode as byte) & 3
      && L.JointUnit(p.payload.setJoint.jointFlag) == (t.jointsTask.unit as byte) & 3
      && (lastSendId < U16_MAX ==> p.sequenceId == lastSendId + 1)
      && W.Parse(W.Encoding(p)) == Ok(p)
  {
    Queries.ServerFlagValues();
    W.ParseEncoding(TaskPacket(mac, lastSendId, t));
  }

  /** The GetJointData poll: one record, from index `start` on. */
  function PollPacket(mac: u32, lastSendId: u16, start: u16): W.Packet
  {
    W.Packet(SaturatingAddU16(lastSendId, 1), mac, Queries.ServerFlag(9), 3, W.GetJointData(start, 1))
  }

  lemma PollPacketShape(mac: u32, lastSendId: u16, start: u16)
    ensures var p := PollPacket(mac, lastSendId, start);
      && p.flag == 37 && L.Type(p.flag) as nat == L.Code(L.GetJointData) && p.payloadLen == 3
      && p.payload == W.GetJointData(start, 1)
      && (lastSendId < U16_MAX ==> p.sequenceId == lastSendId + 1)
      && (lastSendId == U16_MAX ==> p.sequenceId == U16_MAX)
      && W.Parse(W.Encoding(p)) == Ok(p)
  {
    Queries.ServerFlagValues();
    W.ParseEncoding(PollPacket(mac, lastSendId, start));
  }

  // ---------------------------------------------------------------------
  // clear_task and send_task

  /** Every result with its id set to -1, the rest kept. */
  function Invalidated(js: seq<JointData>): (r: seq<JointData>)
    ensures |r| == |js|
    ensures forall i :: 0 <= i < |js| ==> r[i] == js[i].(jointId := -1)
  {
    if |js| == 0 then [] else Invalidated(js[.. |js| - 1]) + [js[|js| - 1].(jointId := -1)]
  }

  function ClearTaskStep(s: WrenchState): (r: Step)
  {
    var current :=
      if s.status == Working && s.currentTask.Some?
      then Some(s.currentTask.value.(jointsRecv := Invalidated(s.currentTask.value.jointsRecv)))
      else s.currentTask;
    Step(s.(lastSendId := 0, totalJoints := 0, currentTask := current), [ClearPacket(s.mac)], [])
  }

  /** clear_task zeroes the send id and the joint count; when working it
      sets every current result's id to -1 and keeps the results otherwise;
      nothing else changes; it sends the clear packet. */
  lemma ClearTaskEffect(s: WrenchState)
    ensures var r := ClearTaskStep(s);
      && r.next.lastSendId == 0 && r.next.totalJoints == 0
      && r.com == [ClearPacket(s.mac)] && r.redis == []
      && r.next.currentTask.Some? == s.currentTask.Some?
      && (s.status == Working && s.currentTask.Some? ==>
            && |r.next.currentTask.value.jointsRecv| == |s.currentTask.value.jointsRecv|
            && (forall i :: 0 <= i < |r.next.currentTask.value.jointsRecv| ==>
                  r.next.currentTask.value.jointsRecv[i].jointId == -1)
            && r.next.currentTask.value.(jointsRecv := []) == s.currentTask.value.(jointsRecv := []))
      && (s.status != Working ==> r.next.currentTask == s.currentTask)
      && r.next.(lastSendId := s.lastSendId, totalJoints := s.totalJoints, currentTask := s.currentTask) == s
  {
  }

  lemma ClearTaskConsistent(s: WrenchState)
    requires Consistent(s)
    ensures Consistent(ClearTaskStep(s).next)
  {
  }

  function SendTaskStep(s: WrenchState): Step
  {
    Step(s, if s.currentTask.Some? then [TaskPacket(s.mac, s.lastSendId, s.currentTask.value)] else [], [])
  }

  // ---------------------------------------------------------------------
  // process_inline_joint_data

  function ToJointData(r: W.InlineJoint): JointData
  {
    JointData(r.jointId, r.unixTime, r.flag, r.torque, r.angle)
  }

  /** The ids of some results. */
  function Ids(js: seq<JointData>): set<int>
  {
    set j | j in js :: j.jointId
  }

  /** Whether a finished task holds a result with this id. */
  predicate SeenIn(finished: seq<WrenchTask>, id: int)
  {
    exists f, j :: f in finished && j in f.jointsRecv && j.jointId == id
  }

  /** The intake state of the joint loop: the current task, the joint count
      and the messages sent so far. */
  datatype Intake = Intake(task: WrenchTask, totalJoints: u16, sent: seq<ResponseAction>)

  /** The report on one newly stored result: its pass flag, and how many of
      the earlier results passed. */
  function Report(serial: u128, task: WrenchTask, r: W.InlineJoint, wall: int): FinishedInfo
  {
    var p := ParamOf(task.jointsTask);
    FinishedInfo(task.msgId, serial, task.redisTaskId, task.redisTaskDetailId,
                 PassedCount(p, task.jointsRecv), r.torque, r.angle, AssertOk(p, ToJointData(r)),
                 task.lastReport, wall)
  }

  /** One record of the loop. A record of another task counts once towards
      the joint count unless a finished task already holds its joint id; a
      record of the current task with a new joint id is reported, stored
      and counted; a repeated joint id is ignored. Counting wraps at 2^16. */
  function AbsorbOne(serial: u128, finished: seq<WrenchTask>, a: Intake, r: W.InlineJoint, wall: int): Intake
  {
    if r.taskId != a.task.wrenchTaskId then
      if SeenIn(finished, r.jointId) then a else a.(totalJoints := WrapAddU16(a.totalJoints, 1))
    else if r.jointId in Ids(a.task.jointsRecv) then a
    else
      Intake(a.task.(lastReport := wall, jointsRecv := a.task.jointsRecv + [ToJointData(r)]),
             WrapAddU16(a.totalJoints, 1),
             a.sent + [TaskFinished(Report(serial, a.task, r, wall))])
  }

  /** The loop over the records, in order. */
  function Absorb(serial: u128, finished: seq<WrenchTask>, a: Intake, rs: seq<W.InlineJoint>, wall: int): Intake
  {
    if |rs| == 0 then a
    else AbsorbOne(serial, finished, Absorb(serial, finished, a, rs[.. |rs| - 1], wall), rs[|rs| - 1], wall)
  }

  /** The new results of a task, past those it had. */
  predicate Extends(old_: WrenchTask, new_: WrenchTask)
  {
    && new_.(lastReport := old_.lastReport, jointsRecv := old_.jointsRecv) == old_
    && |old_.jointsRecv| <= |new_.jointsRecv|
    && new_.jointsRecv[.. |old_.jointsRecv|] == old_.jointsRecv
  }

  /** The loop only appends results, one report each, and never touches
      the task's identity or setpoints. */
  lemma {:induction false} AbsorbAppends(serial: u128, finished: seq<WrenchTask>, a: Intake, rs: seq<W.InlineJoint>, wall: int)
    ensures var b := Absorb(serial, finished, a, rs, wall);
      && Extends(a.task, b.task)
      && |b.sent| - |a.sent| == |b.task.jointsRecv| - |a.task.jointsRecv|
      && |a.sent| <= |b.sent| && b.sent[.. |a.sent|] == a.sent
  {
    if |rs| > 0 {
      AbsorbAppends(serial, finished, a, rs[.. |rs| - 1], wall);
      var m := Absorb(serial, finished, a, rs[.. |rs| - 1], wall);
      var b := AbsorbOne(serial, finished, m, rs[|rs| - 1], wall);
      assert b.task.jointsRecv[.. |m.task.jointsRecv|] == m.task.jointsRecv;
      assert b.task.jointsRecv[.. |a.task.jointsRecv|] == m.task.jointsRecv[.. |a.task.jointsRecv|];
      assert b.sent[.. |a.sent|] == m.sent[.. |a.sent|];
    }
  }

  /** Storing a result with an id not yet present keeps the live ids distinct. */
  lemma DistinctAppend(js: seq<JointData>, d: JointData)
    requires DistinctIds(js) && d.jointId !in Ids(js)
    ensures DistinctIds(js + [d])
  {
    assert forall i :: 0 <= i < |js| ==> js[i].jointId in Ids(js);
  }

  /** The joint ids of the records that belong to task `taskId`. */
  function RecordIds(rs: seq<W.InlineJoint>, taskId: u16): set<int>
  {
    set r | r in rs && r.taskId == taskId :: r.jointId as int
  }

  lemma RecordIdsSnoc(rs: seq<W.InlineJoint>, taskId: u16)
    requires |rs| > 0
    ensures var x := rs[|rs| - 1];
      RecordIds(rs, taskId) == RecordIds(rs[.. |rs| - 1], taskId) + (if x.taskId == taskId then {x.jointId as int} else {})
  {
    assert rs == rs[.. |rs| - 1] + [rs[|rs| - 1]];
  }

  lemma RecordIdsSame(rs: seq<W.InlineJoint>, qs: seq<W.InlineJoint>, taskId: u16)
    requires forall x :: x in rs <==> x in qs
    ensures RecordIds(rs, taskId) == RecordIds(qs, taskId)
  {
  }

  lemma IdsSnoc(js: seq<JointData>, d: JointData)
    ensures Ids(js + [d]) == Ids(js) + {d.jointId as int}
  {
  }

  /** The loop keeps the live ids distinct. */
  lemma {:induction false} AbsorbDistinct(serial: u128, finished: seq<WrenchTask>, a: Intake, rs: seq<W.InlineJoint>, wall: int)
    requires DistinctIds(a.task.jointsRecv)
    ensures DistinctIds(Absorb(serial, finished, a, rs, wall).task.jointsRecv)
  {
    if |rs| > 0 {
      var x := rs[|rs| - 1];
      AbsorbDistinct(serial, finished, a, rs[.. |rs| - 1], wall);
      var m := Absorb(serial, finished, a, rs[.. |rs| - 1], wall);
      if x.taskId == m.task.wrenchTaskId && x.jointId !in Ids(m.task.jointsRecv) {
        DistinctAppend(m.task.jointsRecv, ToJointData(x));
      }
    }
  }

  /** The ids the loop ends with are the ids it started with plus those of
      the current task's records. */
  lemma {:induction false} AbsorbIds(serial: u128, finished: seq<WrenchTask>, a: Intake, rs: seq<W.InlineJoint>, wall: int)
    ensures Ids(Absorb(serial, finished, a, rs, wall).task.jointsRecv)
      == Ids(a.task.jointsRecv) + RecordIds(rs, a.task.wrenchTaskId)
  {
    if |rs| > 0 {
      var init := rs[.. |rs| - 1];
      var x := rs[|rs| - 1];
      AbsorbIds(serial, finished, a, init, wall);
      AbsorbAppends(serial, finished, a, init, wall);
      var m := Absorb(serial, finished, a, init, wall);
      if x.taskId == m.task.wrenchTaskId && x.jointId !in Ids(m.task.jointsRecv) {
        IdsSnoc(m.task.jointsRecv, ToJointData(x));
      }
      RecordIdsSnoc(rs, a.task.wrenchTaskId);
    }
  }

  /** Every stored result comes from a record of the current task. */
  lemma {:induction false} AbsorbOrigin(serial: u128, finished: seq<WrenchTask>, a: Intake, rs: seq<W.InlineJoint>, wall: int)
    ensures var b := Absorb(serial, finished, a, rs, wall);
      forall i :: |a.task.jointsRecv| <= i < |b.task.jointsRecv| ==>
        exists r :: r in rs && r.taskId == a.task.wrenchTaskId && b.task.jointsRecv[i] == ToJointData(r)
  {
    if |rs| > 0 {
      var init := rs[.. |rs| - 1];
      AbsorbOrigin(serial, finished, a, init, wall);
      AbsorbAppends(serial, finished, a, init, wall);
      var m := Absorb(serial, finished, a, init, wall);
      var b := AbsorbOne(serial, finished, m, rs[|rs| - 1], wall);
      assert b.task.jointsRecv[.. |m.task.jointsRecv|] == m.task.jointsRecv;
      forall i | |a.task.jointsRecv| <= i < |b.task.jointsRecv|
        ensures exists r :: r in rs && r.taskId == a.task.wrenchTaskId && b.task.jointsRecv[i] == ToJointData(r)
      {
        if i < |m.task.jointsRecv| {
          assert b.task.jointsRecv[i] == m.task.jointsRecv[i];
          var r :| r in init && r.taskId == a.task.wrenchTaskId && m.task.jointsRecv[i] == ToJointData(r);
          assert r in rs;
        } else {
          assert rs[|rs| - 1] in rs;
        }
      }
    }
  }

  /** process_inline_joint_data: only while working, over the records
      sorted by joint id. */
  function InlineStep(s: WrenchState, rs: seq<W.InlineJoint>, wall: int): Step
  {
    if s.status == Working && s.currentTask.Some? then
      var b := Absorb(s.serial, s.finishedTask, Intake(s.currentTask.value, s.totalJoints, []),
                      JointSort.SortById(rs), wall);
      Step(s.(currentTask := Some(b.task), totalJoints := b.totalJoints), [], b.sent)
    else Step(s, [], [])
  }

  /** Records are ignored unless the wrench is working; while it works only
      the current task's results and the joint count change, the live ids
      stay distinct and gain exactly the ids of the current task's records,
      and each stored result is reported once. */
  lemma InlineEffect(s: WrenchState, rs: seq<W.InlineJoint>, wall: int)
    requires Consistent(s)
    ensures var r := InlineStep(s, rs, wall);
      && Consistent(r.next) && r.com == []
      && (s.status != Working ==> r.next == s && r.redis == [])
      && (s.status == Working ==>
            var t := s.currentTask.value;
            var u := r.next.currentTask.value;
            && r.next.(currentTask := s.currentTask, totalJoints := s.totalJoints) == s
            && Extends(t, u)
            && |r.redis| == |u.jointsRecv| - |t.jointsRecv|
            && Ids(u.jointsRecv) == Ids(t.jointsRecv) + RecordIds(rs, t.wrenchTaskId))
  {
    if s.status == Working {
      var sorted := JointSort.SortById(rs);
      var a := Intake(s.currentTask.value, s.totalJoints, []);
      AbsorbAppends(s.serial, s.finishedTask, a, sorted, wall);
      AbsorbIds(s.serial, s.finishedTask, a, sorted, wall);
      AbsorbDistinct(s.serial, s.finishedTask, a, sorted, wall);
      assert forall x :: x in sorted <==> x in rs by {
        assert multiset(sorted) == multiset(rs);
        forall x ensures x in sorted <==> x in rs {
          assert x in sorted <==> x in multiset(sorted);
        }
      }
      RecordIdsSame(sorted, rs, a.task.wrenchTaskId);
    }
  }

  /** Message m is the report on the n-th result of task t: it names the
      task, carries the result's readings and pass flag, counts the results
      before it that passed, and ends at wall-clock time `wall`. */
  predicate Reported(m: ResponseAction, serial: u128, t: WrenchTask, n: nat, wall: int)
  {
    var p := ParamOf(t.jointsTask);
    && n < |t.jointsRecv| && m.TaskFinished?
    && m.finished.msgId == t.msgId && m.finished.wrenchSerial == serial
    && m.finished.taskId == t.redisTaskId && m.finished.taskDetailId == t.redisTaskDetailId
    && m.finished.torque == t.jointsRecv[n].torque && m.finished.angle == t.jointsRecv[n].angle
    && m.finished.status == AssertOk(p, t.jointsRecv[n])
    && m.finished.taskSubId == PassedCount(p, t.jointsRecv[.. n])
    && m.finished.endDate == wall
  }

  lemma ReportedExtends(m: ResponseAction, serial: u128, t: WrenchTask, u: WrenchTask, n: nat, wall: int)
    requires Reported(m, serial, t, n, wall) && Extends(t, u)
    ensures Reported(m, serial, u, n, wall)
  {
    assert u.jointsRecv[.. n] == u.jointsRecv[.. |t.jointsRecv|][.. n];
    assert u.jointsRecv[n] == u.jointsRecv[.. |t.jointsRecv|][n];
  }

  /** The k-th report the loop sends is the report on the k-th result it stores. */
  lemma {:induction false} AbsorbReports(serial: u128, finished: seq<WrenchTask>, a: Intake, rs: seq<W.InlineJoint>, wall: int)
    ensures var b := Absorb(serial, finished, a, rs, wall);
      forall j :: |a.sent| <= j < |b.sent| ==>
        Reported(b.sent[j], serial, b.task, |a.task.jointsRecv| + (j - |a.sent|), wall)
  {
    if |rs| > 0 {
      var init := rs[.. |rs| - 1];
      var x := rs[|rs| - 1];
      AbsorbReports(serial, finished, a, init, wall);
      AbsorbAppends(serial, finished, a, init, wall);
      var m := Absorb(serial, finished, a, init, wall);
      var b := AbsorbOne(serial, finished, m, x, wall);
      if x.taskId == m.task.wrenchTaskId && x.jointId !in Ids(m.task.jointsRecv) {
        assert Extends(m.task, b.task);
        forall j | |a.sent| <= j < |b.sent|
          ensures Reported(b.sent[j], serial, b.task, |a.task.jointsRecv| + (j - |a.sent|), wall)
        {
          if j < |m.sent| {
            assert b.sent[j] == m.sent[j];
            ReportedExtends(m.sent[j], serial, m.task, b.task, |a.task.jointsRecv| + (j - |a.sent|), wall);
          } else {
            assert b.task.jointsRecv[.. |m.task.jointsRecv|] == m.task.jointsRecv;
          }
        }
      }
    }
  }

  /** Each report of a working wrench is the report on one stored result,
      in the order they are stored. */
  lemma InlineReports(s: WrenchState, rs: seq<W.InlineJoint>, wall: int)
    requires s.status == Working && s.currentTask.Some?
    ensures var r := InlineStep(s, rs, wall);
      forall k :: 0 <= k < |r.redis| ==>
        Reported(r.redis[k], s.serial, r.next.currentTask.value, |s.currentTask.value.jointsRecv| + k, wall)
  {
    var a := Intake(s.currentTask.value, s.totalJoints, []);
    var b := Absorb(s.serial, s.finishedTask, a, JointSort.SortById(rs), wall);
    AbsorbReports(s.serial, s.finishedTask, a, JointSort.SortById(rs), wall);
    assert InlineStep(s, rs, wall).redis == b.sent;
    forall k | 0 <= k < |b.sent|
      ensures Reported(b.sent[k], s.serial, b.task, |s.currentTask.value.jointsRecv| + k, wall)
    {
      assert |a.sent| <= k < |b.sent|;
      assert b == Absorb(s.serial, s.finishedTask, a, JointSort.SortById(rs), wall);
      assert forall j :: |a.sent| <= j < |b.sent| ==>
        Reported(b.sent[j], s.serial, b.task, |a.task.jointsRecv| + (j - |a.sent|), wall);
    }
  }

  // ---------------------------------------------------------------------
  // com_update

  /** com_update: the whole seconds since the previous packet are added to
      the online time, saturating; an energy report sets the voltage; joint
      records go through process_inline_joint_data. */
  function ComUpdateStep(s: WrenchState, p: Incoming, now: nat, wall: int): Step
  {
    var t := s.(onlineTime := SaturatingAddU64(s.onlineTime, Elapsed(s.lastRecv, now) / 1000), lastRecv := now);
    if p.Fixed? && p.payload.InfoEnergy? then Step(t.(voltage := Some(p.payload.batteryVoltageMv)), [], [])
    else if p.InlineJoints? || p.payload.InlineJointData? then InlineStep(t, Records(p), wall)
    else Step(t, [], [])
  }

  lemma ComUpdateEffect(s: WrenchState, p: Incoming, now: nat, wall: int)
    requires Consistent(s)
    ensures var r := ComUpdateStep(s, p, now, wall);
      && Consistent(r.next) && r.com == [] && r.next.lastRecv == now
      && r.next.onlineTime as int == (if s.onlineTime + Elapsed(s.lastRecv, now) / 1000 > U64_MAX then U64_MAX
                                      else s.onlineTime + Elapsed(s.lastRecv, now) / 1000)
      && (r.next.voltage != s.voltage ==> p.Fixed? && p.payload.InfoEnergy?)
      && (p.Fixed? && p.payload.InfoEnergy? ==> r.next.voltage == Some(p.payload.batteryVoltageMv) && r.redis == [])
      && (Records(p) == [] ==> r.redis == [] && r.next.currentTask == s.currentTask && r.next.totalJoints == s.totalJoints)
      && r.next.(onlineTime := s.onlineTime, lastRecv := s.lastRecv, voltage := s.voltage,
                 currentTask := s.currentTask, totalJoints := s.totalJoints) == s
  {
    var t := s.(onlineTime := SaturatingAddU64(s.onlineTime, Elapsed(s.lastRecv, now) / 1000), lastRecv := now);
    if !(p.Fixed? && p.payload.InfoEnergy?) && (p.InlineJoints? || p.payload.InlineJointData?) {
      InlineEffect(t, Records(p), wall);
      if Records(p) == [] {
        assert JointSort.SortById([]) == [];
      }
    }
  }

  // ---------------------------------------------------------------------
  // append_task and redis_update

  /** The clear that append_task sends first to a wrench that is not
      working and has finished nothing. */
  function AppendPrep(s: WrenchState): Step
  {
    if s.status != Working && |s.finishedTask| == 0 then ClearTaskStep(s) else Step(s, [], [])
  }

  /** The tasks a non-empty request list would queue, and whether all of its
      requests parse. */
  function Queued(t: WrenchState, msgId: string, tasks: seq<TaskRequest>, wall: int): (seq<WrenchTask>, bool)
  {
    var b := Build(tasks, ParseTask, LastTaskId(t.finishedTask, t.currentTask, t.pendingTask), msgId, wall);
    (b.0, |b.0| == |tasks|)
  }

  /** append_task: an empty list is refused. Otherwise, a wrench that is not
      working and has finished nothing is cleared first; then the requests
      are numbered on from the last task number, and queued only if every
      one of them parses. The status reply says whether they were queued. */
  function AppendTaskStep(s: WrenchState, msgId: string, tasks: seq<TaskRequest>, wall: int): Step
  {
    if |tasks| == 0 then Step(s, [], [TaskStatus(TaskInfo(msgId, s.serial, false))])
    else
      var c := AppendPrep(s);
      var q := Queued(c.next, msgId, tasks, wall);
      Step(if q.1 then c.next.(pendingTask := c.next.pendingTask + q.0) else c.next, c.com,
           [TaskStatus(TaskInfo(msgId, s.serial, q.1))])
  }

  lemma AppendPrepFacts(s: WrenchState)
    requires Consistent(s)
    ensures var c := AppendPrep(s);
      && Consistent(c.next) && c.redis == []
      && c.next.(lastSendId := s.lastSendId, totalJoints := s.totalJoints, currentTask := s.currentTask) == s
      && c.next.currentTask.Some? == s.currentTask.Some?
      && (c.next.currentTask.Some? ==> c.next.currentTask.value.wrenchTaskId == s.currentTask.value.wrenchTaskId)
      && LastTaskId(c.next.finishedTask, c.next.currentTask, c.next.pendingTask)
         == LastTaskId(s.finishedTask, s.currentTask, s.pendingTask)
      && (s.status != Working && s.finishedTask == [] ==> c.com == [ClearPacket(s.mac)])
      && (!(s.status != Working && s.finishedTask == []) ==> c.com == [])
  {
    ClearTaskConsistent(s);
  }

  /** append_task keeps the invariant and changes nothing but the queue and
      what the clear resets; it replies with whether the tasks were queued,
      which is exactly when the list is non-empty and every request parses. */
  lemma AppendTaskEffect(s: WrenchState, msgId: string, tasks: seq<TaskRequest>, wall: int)
    requires Consistent(s)
    ensures var r := AppendTaskStep(s, msgId, tasks, wall);
      var ok := |tasks| > 0 && forall i :: 0 <= i < |tasks| ==> ParseTask(tasks[i]).Some?;
      && Consistent(r.next)
      && r.redis == [TaskStatus(TaskInfo(msgId, s.serial, ok))]
      && r.next.(pendingTask := s.pendingTask, lastSendId := s.lastSendId, totalJoints := s.totalJoints,
                 currentTask := s.currentTask) == s
      && r.next.currentTask.Some? == s.currentTask.Some?
      && (r.com != [] ==> r.com == [ClearPacket(s.mac)])
      && (r.com == [ClearPacket(s.mac)] <==> |tasks| > 0 && s.status != Working && s.finishedTask == [])
      && (!ok ==> r.next.pendingTask == s.pendingTask)
  {
    if |tasks| > 0 {
      var c := AppendPrep(s);
      AppendPrepFacts(s);
      BuildAll(tasks, ParseTask, LastTaskId(c.next.finishedTask, c.next.currentTask, c.next.pendingTask), msgId, wall);
      BuildNumbers(tasks, ParseTask, LastTaskId(c.next.finishedTask, c.next.currentTask, c.next.pendingTask), msgId, wall);
    }
  }

  /** When every request parses, the queue gains one task per request, in
      order, after the tasks already queued: the tasks Build makes from the
      requests, numbered on from the last task number. Build's own lemmas
      give their fields: the request's ids and parsed setpoints, no results,
      and consecutive numbers wrapping at 2^16. */
  lemma AppendTaskQueued(s: WrenchState, msgId: string, tasks: seq<TaskRequest>, wall: int)
    requires Consistent(s)
    requires |tasks| > 0 && forall i :: 0 <= i < |tasks| ==> ParseTask(tasks[i]).Some?
    ensures var r := AppendTaskStep(s, msgId, tasks, wall);
      var b := Build(tasks, ParseTask, LastTaskId(s.finishedTask, s.currentTask, s.pendingTask), msgId, wall);
      && |b.0| == |tasks|
      && r.next.pendingTask == s.pendingTask + b.0
      && r.redis == [TaskStatus(TaskInfo(msgId, s.serial, true))]
  {
    AppendPrepFacts(s);
    BuildAll(tasks, ParseTask, LastTaskId(s.finishedTask, s.currentTask, s.pendingTask), msgId, wall);
  }

  /** The cancellation of task `taskId`: a current task of that id is
      cleared and dropped, and every queued task of that id is removed. */
  function CancelStep(s: WrenchState, taskId: string): Step
  {
    var c :=
      if s.currentTask.Some? && s.currentTask.value.redisTaskId == taskId then
        var k := ClearTaskStep(s);
        Step(k.next.(currentTask := None, status := Connected), k.com, [])
      else Step(s, [], []);
    Step(c.next.(pendingTask := Retain(c.next.pendingTask, taskId)), c.com, [])
  }

  /** redis_update: a connection check is answered with whether the wrench
      is connected; a task list goes to append_task; a cancellation goes to
      CancelStep; a binding request is not handled here. */
  function RedisUpdateStep(s: WrenchState, a: RequiredAction, wall: int): Step
  {
    match a
    case CheckConnect(info) => Step(s, [], [ConnectStatus(info.(status := s.status != Disconnected))])
    case SendTask(msgId, tasks) => AppendTaskStep(s, msgId, tasks, wall)
    case TaskCancel(_, taskId) => CancelStep(s, taskId)
    case BindWrench(_) => Step(s, [], [])
  }

  /** After a cancellation no current or queued task has that id; the
      other queued tasks stay, in order; a cancelled current task leaves
      the wrench connected and idle, after a clear packet. */
  lemma CancelEffect(s: WrenchState, taskId: string)
    requires Consistent(s)
    ensures var r := CancelStep(s, taskId);
      var hit := s.currentTask.Some? && s.currentTask.value.redisTaskId == taskId;
      && Consistent(r.next) && r.redis == []
      && (forall t :: t in r.next.pendingTask <==> t in s.pendingTask && t.redisTaskId != taskId)
      && r.next.pendingTask == Retain(s.pendingTask, taskId)
      && (r.next.currentTask.Some? ==> r.next.currentTask.value.redisTaskId != taskId)
      && (hit ==> r.next.currentTask.None? && r.next.status == Connected && r.com == [ClearPacket(s.mac)]
                  && r.next.lastSendId == 0 && r.next.totalJoints == 0)
      && (!hit ==> r.com == [] && r.next == s.(pendingTask := Retain(s.pendingTask, taskId)))
      && r.next.finishedTask == s.finishedTask
  {
  }

  lemma RedisUpdateConsistent(s: WrenchState, a: RequiredAction, wall: int)
    requires Consistent(s)
    ensures Consistent(RedisUpdateStep(s, a, wall).next)
    ensures a.CheckConnect? ==>
      RedisUpdateStep(s, a, wall) ==
        Step(s, [], [ConnectStatus(ConnectInfo(a.info.msgId, a.info.wrenchSerial, s.status != Disconnected))])
  {
    match a
    case SendTask(msgId, tasks) => AppendTaskEffect(s, msgId, tasks, wall);
    case TaskCancel(_, taskId) => CancelEffect(s, taskId);
    case _ =>
  }

  // ---------------------------------------------------------------------
  // interval_update

  const RECONNECT_MS: nat := 5000
  const TIMEOUT_MS: nat := 20000
  const REPORT_MS: nat := 120000
  const POLL_MS: nat := 5000

  /** Whether a task's passed results reach its bolt count. */
  predicate Complete(t: WrenchTask)
  {
    PassedCount(ParamOf(t.jointsTask), t.jointsRecv) == t.jointsTask.boltNum
  }

  /** A wrench silent for more than 20 s is marked disconnected. */
  function TimeoutPhase(a: Step, now: nat): Step
  {
    var s := a.next;
    if Elapsed(s.lastRecv, now) > TIMEOUT_MS
    then Step(s.(status := Disconnected), a.com, a.redis + [ConnectionTimeout(s.serial)])
    else a
  }

  /** Every 120 s: an energy query to the wrench and a status report to Redis. */
  function ReportPhase(a: Step, now: nat): Step
  {
    var s := a.next;
    if Elapsed(s.lastReport, now) > REPORT_MS then
      var v := if s.voltage.Some? then s.voltage.value else 0;
      Step(s.(lastReport := now), a.com + [Queries.QueryEnergy(s.mac)],
           a.redis + [BasicStatus(BasicInfo(s.serial, v, s.totalJoints, s.onlineTime))])
    else a
  }

  /** Every 5 s: a poll for the next joint result. */
  function PollPhase(a: Step, now: nat): Step
  {
    var s := a.next;
    if Elapsed(s.lastSend, now) > POLL_MS
    then Step(s.(lastSend := now, lastSendId := SaturatingAddU16(s.lastSendId, 1)),
              a.com + [PollPacket(s.mac, s.lastSendId, s.totalJoints)], a.redis)
    else a
  }

  /** A complete current task moves to the finished list. */
  function FinishPhase(a: Step): Step
  {
    var s := a.next;
    if s.currentTask.Some? && Complete(s.currentTask.value)
    then Step(s.(finishedTask := s.finishedTask + [s.currentTask.value], currentTask := None, status := Connected),
              a.com, a.redis)
    else a
  }

  /** A connected wrench starts the first queued task and is sent it. */
  function StartPhase(a: Step): Step
  {
    var s := a.next;
    if s.status == Connected && |s.pendingTask| > 0 then
      var t := s.(currentTask := Some(s.pendingTask[0]), pendingTask := s.pendingTask[1..], status := Working);
      Step(t, a.com + SendTaskStep(t).com, a.redis)
    else a
  }

  /** interval_update. A disconnected wrench heard from in the last 5 s is
      connected again (working if it has a task) and nothing else happens;
      otherwise the timeout, report, poll, finish and start phases run in
      this order. */
  function IntervalStep(s: WrenchState, now: nat): Step
  {
    if s.status == Disconnected then
      if Elapsed(s.lastRecv, now) < RECONNECT_MS
      then Step(s.(status := if s.currentTask.Some? then Working else Connected), [],
                [ConnectStatus(ConnectInfo("0", s.serial, true))])
      else Step(s, [], [])
    else StartPhase(FinishPhase(PollPhase(ReportPhase(TimeoutPhase(Step(s, [], []), now), now), now)))
  }

  /** All tasks of a wrench, in order: finished, current, queued. */
  function AllTasks(s: WrenchState): seq<WrenchTask>
  {
    s.finishedTask + (if s.currentTask.Some? then [s.currentTask.value] else []) + s.pendingTask
  }

  lemma TimeoutFacts(a: Step, now: nat)
    ensures var b := TimeoutPhase(a, now);
      && b.com == a.com && b.next == a.next.(status := b.next.status)
      && (Elapsed(a.next.lastRecv, now) > TIMEOUT_MS ==>
            b.next.status == Disconnected && b.redis == a.redis + [ConnectionTimeout(a.next.serial)])
      && (Elapsed(a.next.lastRecv, now) <= TIMEOUT_MS ==> b == a)
  {
  }

  lemma ReportFacts(a: Step, now: nat)
    ensures var b := ReportPhase(a, now);
      var s := a.next;
      && b.next == s.(lastReport := b.next.lastReport)
      && (Elapsed(s.lastReport, now) > REPORT_MS ==>
            && b.next.lastReport == now && b.com == a.com + [Queries.QueryEnergy(s.mac)]
            && b.redis == a.redis + [BasicStatus(BasicInfo(s.serial, if s.voltage.Some? then s.voltage.value else 0,
                                                           s.totalJoints, s.onlineTime))])
      && (Elapsed(s.lastReport, now) <= REPORT_MS ==> b == a)
  {
  }

  lemma PollFacts(a: Step, now: nat)
    ensures var b := PollPhase(a, now);
      var s := a.next;
      && b.redis == a.redis
      && b.next == s.(lastSend := b.next.lastSend, lastSendId := b.next.lastSendId)
      && (Elapsed(s.lastSend, now) > POLL_MS ==>
            && b.next.lastSend == now && b.next.lastSendId == SaturatingAddU16(s.lastSendId, 1)
            && b.com == a.com + [PollPacket(s.mac, s.lastSendId, s.totalJoints)])
      && (Elapsed(s.lastSend, now) <= POLL_MS ==> b == a)
  {
  }

  lemma FinishFacts(a: Step)
    requires Consistent(a.next)
    ensures var b := FinishPhase(a);
      var s := a.next;
      && b.com == a.com && b.redis == a.redis && Consistent(b.next) && AllTasks(b.next) == AllTasks(s)
      && b.next.(finishedTask := s.finishedTask, currentTask := s.currentTask, status := s.status) == s
      && (s.currentTask.Some? && Complete(s.currentTask.value) ==>
            && b.next.finishedTask == s.finishedTask + [s.currentTask.value]
            && b.next.currentTask.None? && b.next.status == Connected)
      && (!(s.currentTask.Some? && Complete(s.currentTask.value)) ==> b == a)
  {
  }

  lemma StartFacts(a: Step)
    requires Consistent(a.next)
    ensures var b := StartPhase(a);
      var s := a.next;
      && b.redis == a.redis && Consistent(b.next) && AllTasks(b.next) == AllTasks(s)
      && b.next.(currentTask := s.currentTask, pendingTask := s.pendingTask, status := s.status) == s
      && b.next.finishedTask == s.finishedTask
      && (s.status == Connected && |s.pendingTask| > 0 ==>
            && b.next.currentTask == Some(s.pendingTask[0]) && b.next.pendingTask == s.pendingTask[1..]
            && b.next.status == Working
            && b.com == a.com + [TaskPacket(s.mac, s.lastSendId, s.pendingTask[0])])
      && (!(s.status == Connected && |s.pendingTask| > 0) ==> b == a)
  {
    var s := a.next;
    if s.status == Connected && |s.pendingTask| > 0 {
      assert s.pendingTask == [s.pendingTask[0]] + s.pendingTask[1..];
    }
  }

  /** The first three phases change no task and leave the status alone
      unless they time the wrench out. */
  lemma EarlyPhases(s: WrenchState, now: nat)
    requires Consistent(s)
    ensures var p := PollPhase(ReportPhase(TimeoutPhase(Step(s, [], []), now), now), now);
      && Consistent(p.next) && AllTasks(p.next) == AllTasks(s)
      && p.next.(status := s.status, lastReport := s.lastReport, lastSend := s.lastSend,
                 lastSendId := s.lastSendId) == s
  {
    var t := TimeoutPhase(Step(s, [], []), now);
    TimeoutFacts(Step(s, [], []), now);
    ReportFacts(t, now);
    PollFacts(ReportPhase(t, now), now);
  }

  /** interval_update keeps the invariant, and only moves tasks along
      finished, current, queued: no task is lost, added or reordered. */
  lemma IntervalKeeps(s: WrenchState, now: nat)
    requires Consistent(s)
    ensures var r := IntervalStep(s, now);
      && Consistent(r.next) && AllTasks(r.next) == AllTasks(s)
      && r.next.(status := s.status, currentTask := s.currentTask, pendingTask := s.pendingTask,
                 finishedTask := s.finishedTask, lastReport := s.lastReport, lastSend := s.lastSend,
                 lastSendId := s.lastSendId) == s
  {
    if s.status != Disconnected {
      var p := PollPhase(ReportPhase(TimeoutPhase(Step(s, [], []), now), now), now);
      EarlyPhases(s, now);
      FinishFacts(p);
      StartFacts(FinishPhase(p));
    }
  }

  /** A disconnected wrench changes only its status: it is reconnected if
      it was heard from in the last 5 s, and Redis is told. */
  lemma IntervalDisconnected(s: WrenchState, now: nat)
    requires s.status == Disconnected
    ensures var r := IntervalStep(s, now);
      && r.com == []
      && (Elapsed(s.lastRecv, now) < RECONNECT_MS ==>
            && r.next == s.(status := if s.currentTask.Some? then Working else Connected)
            && r.redis == [ConnectStatus(ConnectInfo("0", s.serial, true))])
      && (Elapsed(s.lastRecv, now) >= RECONNECT_MS ==> r.next == s && r.redis == [])
  {
  }

  /** A connected or working wrench: a timeout is reported and marks it
      disconnected unless its current task completes in the same tick. */
  lemma IntervalTimeout(s: WrenchState, now: nat)
    requires Consistent(s) && s.status != Disconnected
    ensures var r := IntervalStep(s, now);
      var timeout := Elapsed(s.lastRecv, now) > TIMEOUT_MS;
      var done := s.currentTask.Some? && Complete(s.currentTask.value);
      && (ConnectionTimeout(s.serial) in r.redis <==> timeout)
      && (timeout && !done ==> r.next.status == Disconnected && r.next.currentTask == s.currentTask)
      && (r.next.status == Disconnected ==> timeout)
      && (done ==> r.next.finishedTask == s.finishedTask + [s.currentTask.value])
      && (!done ==> r.next.finishedTask == s.finishedTask)
  {
    var t := TimeoutPhase(Step(s, [], []), now);
    var rp := ReportPhase(t, now);
    var p := PollPhase(rp, now);
    var f := FinishPhase(p);
    TimeoutFacts(Step(s, [], []), now);
    ReportFacts(t, now);
    PollFacts(rp, now);
    EarlyPhases(s, now);
    FinishFacts(p);
    StartFacts(f);
  }

  /** The report and the poll go out when due and bump their clocks; the
      poll asks for the result at index totalJoints. */
  lemma IntervalReportPoll(s: WrenchState, now: nat)
    requires Consistent(s) && s.status != Disconnected
    ensures var r := IntervalStep(s, now);
      var report := Elapsed(s.lastReport, now) > REPORT_MS;
      var poll := Elapsed(s.lastSend, now) > POLL_MS;
      && (report ==>
            && r.next.lastReport == now && Queries.QueryEnergy(s.mac) in r.com
            && BasicStatus(BasicInfo(s.serial, if s.voltage.Some? then s.voltage.value else 0,
                                     s.totalJoints, s.onlineTime)) in r.redis)
      && (!report ==> r.next.lastReport == s.lastReport)
      && (poll ==> r.next.lastSend == now && r.next.lastSendId == SaturatingAddU16(s.lastSendId, 1)
                   && PollPacket(s.mac, s.lastSendId, s.totalJoints) in r.com)
      && (!poll ==> r.next.lastSend == s.lastSend && r.next.lastSendId == s.lastSendId)
  {
    var t := TimeoutPhase(Step(s, [], []), now);
    var rp := ReportPhase(t, now);
    var p := PollPhase(rp, now);
    var f := FinishPhase(p);
    TimeoutFacts(Step(s, [], []), now);
    ReportFacts(t, now);
    PollFacts(rp, now);
    EarlyPhases(s, now);
    FinishFacts(p);
    StartFacts(f);
    if Elapsed(s.lastReport, now) > REPORT_MS {
      assert Queries.QueryEnergy(s.mac) in rp.com;
      assert Queries.QueryEnergy(s.mac) in p.com;
    }
    if Elapsed(s.lastSend, now) > POLL_MS {
      assert PollPacket(s.mac, s.lastSendId, s.totalJoints) in p.com;
    }
  }

  /** With no task in progress at the end of the tick, the first queued
      task becomes current and the wrench is sent it: the last packet of
      the tick hands that task over. */
  lemma IntervalStarts(s: WrenchState, now: nat)
    requires Consistent(s) && s.status != Disconnected && |s.pendingTask| > 0
    requires s.currentTask.None? || Complete(s.currentTask.value)
    requires Elapsed(s.lastRecv, now) <= TIMEOUT_MS
    ensures var r := IntervalStep(s, now);
      && r.next.status == Working && r.next.currentTask == Some(s.pendingTask[0])
      && r.next.pendingTask == s.pendingTask[1..]
      && |r.com| > 0 && r.com[|r.com| - 1] == TaskPacket(s.mac, r.next.lastSendId, s.pendingTask[0])
  {
  }

  // ---------------------------------------------------------------------
  // mac_reconnect

  /** mac_reconnect: the wrench is heard from at a (possibly new) address.
      A disconnected wrench with a task resumes it: it is cleared and sent
      the task again; one without is connected; either way Redis is told. */
  function MacReconnectStep(s: WrenchState, mac: u32, now: nat): Step
  {
    var t := s.(mac := mac, lastRecv := now);
    if t.status != Disconnected then Step(t, [], [])
    else if t.currentTask.Some? then
      var c := ClearTaskStep(t.(status := Working));
      Step(c.next, c.com + SendTaskStep(c.next).com, [ConnectStatus(ConnectInfo("0", s.serial, true))])
    else Step(t.(status := Connected), [], [ConnectStatus(ConnectInfo("0", s.serial, true))])
  }

  /** A resumed task restarts at sequence number 1 with its old results
      cleared; the wrench at the new address gets the clear packet and then
      the task packet. */
  lemma MacReconnectEffect(s: WrenchState, mac: u32, now: nat)
    requires Consistent(s)
    ensures var r := MacReconnectStep(s, mac, now);
      && Consistent(r.next) && r.next.mac == mac && r.next.lastRecv == now
      && (s.status != Disconnected ==> r.next == s.(mac := mac, lastRecv := now) && r.com == [] && r.redis == [])
      && (s.status == Disconnected ==> r.redis == [ConnectStatus(ConnectInfo("0", s.serial, true))])
      && (s.status == Disconnected && s.currentTask.None? ==>
            && r.next == s.(mac := mac, lastRecv := now, status := Connected)
            && r.com == [])
      && (s.status == Disconnected && s.currentTask.Some? ==>
            && r.next.status == Working && r.next.lastSendId == 0 && r.next.totalJoints == 0
            && r.next.currentTask.Some?
            && r.next.currentTask.value.wrenchTaskId == s.currentTask.value.wrenchTaskId
            && (forall j :: j in r.next.currentTask.value.jointsRecv ==> j.jointId == -1)
            && |r.com| == 2 && r.com[0] == ClearPacket(mac)
            && r.com[1] == TaskPacket(mac, 0, r.next.currentTask.value)
            && r.com[1].sequenceId == 1)
  {
    if s.status == Disconnected && s.currentTask.Some? {
      ClearTaskEffect(s.(mac := mac, lastRecv := now, status := Working));
    }
  }
}
