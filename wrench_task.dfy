/** The task side of a wrench: the joint task a wrench is told to perform,
    the joint results it reports, the pass/fail check of one result
    (`assert_ok`), the parsing of a task that arrives as text, and the
    numbering and cancelling of queued tasks. */
module Tasks {
  import opened Bytes
  import opened Wrappers
  import opened Messages
  import RustText
  import Scale

  datatype JointTask = JointTask(
    torque: i32, torqueAngleStart: i32, torqueUpperTol: i32, torqueLowerTol: i32,
    angle: i16, angleUpperTol: i16, angleLowerTol: i16,
    taskRepeatTimes: u16, boltNum: u32, controlMode: u8, workMode: u8, unit: u8)

  /** One stored joint result; a cleared result has joint id -1. */
  datatype JointData = JointData(jointId: i32, unixTime: u32, flag: byte, torque: i32, angle: i16)

  /** A task as the wrench context keeps it; lastReport is a wall-clock time. */
  datatype WrenchTask = WrenchTask(
    wrenchTaskId: u16, redisTaskId: string, redisTaskDetailId: string, msgId: string,
    lastReport: int, jointsTask: JointTask, jointsRecv: seq<JointData>)

  // ---------------------------------------------------------------------
  // assert_ok

  datatype AssertOkParam = AssertOkParam(
    torque: i32, torqueLowerTol: i32, torqueUpperTol: i32,
    angle: i16, angleLowerTol: i16, angleUpperTol: i16, controlMode: u8)

  function ParamOf(t: JointTask): (p: AssertOkParam)
    ensures p.torque == t.torque && p.angle == t.angle && p.controlMode == t.controlMode
    ensures p.torqueLowerTol == t.torqueLowerTol && p.torqueUpperTol == t.torqueUpperTol
    ensures p.angleLowerTol == t.angleLowerTol && p.angleUpperTol == t.angleUpperTol
  {
    AssertOkParam(t.torque, t.torqueLowerTol, t.torqueUpperTol,
                  t.angle, t.angleLowerTol, t.angleUpperTol, t.controlMode)
  }

  /** The inclusive torque range, its ends computed with saturating i32 arithmetic. */
  predicate TorqueInRange(p: AssertOkParam, x: int)
  {
    SaturatingSubI32(p.torque, p.torqueLowerTol) <= x <= SaturatingAddI32(p.torque, p.torqueUpperTol)
  }

  /** The inclusive angle range, its ends computed with saturating i16 arithmetic. */
  predicate AngleInRange(p: AssertOkParam, x: int)
  {
    SaturatingSubI16(p.angle, p.angleLowerTol) <= x <= SaturatingAddI16(p.angle, p.angleUpperTol)
  }

  /** Control mode 0 checks the torque, mode 1 the angle, any other both. */
  predicate AssertOk(p: AssertOkParam, d: JointData)
  {
    match p.controlMode
    case 0 => TorqueInRange(p, d.torque)
    case 1 => AngleInRange(p, d.angle)
    case _ => TorqueInRange(p, d.torque) && AngleInRange(p, d.angle)
  }

  /** Whenever neither end of a range is pushed past the far end of its
      type, the saturating ranges accept exactly the readings within the
      tolerances of the setpoint: saturation never rejects a reading. */
  lemma AssertOkWithin(p: AssertOkParam, d: JointData)
    requires p.torque - p.torqueLowerTol <= I32_MAX && p.torque + p.torqueUpperTol >= I32_MIN
    requires p.angle - p.angleLowerTol <= I16_MAX && p.angle + p.angleUpperTol >= I16_MIN
    ensures AssertOk(p, d) <==>
      && (p.controlMode != 1 ==> p.torque - p.torqueLowerTol <= d.torque <= p.torque + p.torqueUpperTol)
      && (p.controlMode != 0 ==> p.angle - p.angleLowerTol <= d.angle <= p.angle + p.angleUpperTol)
  {
  }

  /** With non-negative tolerances a reading exactly at the setpoints passes,
      in every control mode. */
  lemma SetpointPasses(p: AssertOkParam, d: JointData)
    requires p.torqueLowerTol >= 0 && p.torqueUpperTol >= 0
    requires p.angleLowerTol >= 0 && p.angleUpperTol >= 0
    requires d.torque == p.torque && d.angle == p.angle
    ensures AssertOk(p, d)
  {
  }

  /** Mode 0 ignores the angle, mode 1 ignores the torque, and any other
      mode passes exactly when both mode 0 and mode 1 would. */
  lemma AssertOkModes(p: AssertOkParam, d: JointData, torque: i32, angle: i16)
    ensures p.controlMode == 0 ==> AssertOk(p, d) == AssertOk(p, d.(angle := angle))
    ensures p.controlMode == 1 ==> AssertOk(p, d) == AssertOk(p, d.(torque := torque))
    ensures p.controlMode >= 2 ==>
      AssertOk(p, d) == (AssertOk(p.(controlMode := 0), d) && AssertOk(p.(controlMode := 1), d))
  {
  }

  /** The number of results that pass (`filter(assert_ok).count()`). */
  function PassedCount(p: AssertOkParam, js: seq<JointData>): (n: nat)
    ensures n <= |js|
  {
    if |js| == 0 then 0
    else PassedCount(p, js[.. |js| - 1]) + (if AssertOk(p, js[|js| - 1]) then 1 else 0)
  }

  /** Appending one result adds one to the count exactly when it passes. */
  lemma PassedCountAppend(p: AssertOkParam, js: seq<JointData>, d: JointData)
    ensures PassedCount(p, js + [d]) == PassedCount(p, js) + (if AssertOk(p, d) then 1 else 0)
  {
    assert (js + [d])[.. |js|] == js;
  }

  /** The count is the number of positions whose result passes. */
  lemma {:induction false} PassedCountAll(p: AssertOkParam, js: seq<JointData>)
    ensures PassedCount(p, js) == |js| <==> forall i :: 0 <= i < |js| ==> AssertOk(p, js[i])
  {
    if |js| > 0 {
      var init := js[.. |js| - 1];
      PassedCountAll(p, init);
      assert forall i :: 0 <= i < |init| ==> init[i] == js[i];
    }
  }

  // ---------------------------------------------------------------------
  // Parsing a task request

  /** The torque setpoint, the torque at which angle counting starts and the
      two torque tolerances, each with three decimal places but the angle
      start, which has one. */
  function TorquesOf(t: TaskRequest): (r: Option<(i32, i32, i32, i32)>)
  {
    var torque := Scale.ScaleUpValue(t.torque, 3);
    var angleStart := Scale.ScaleUpValue(t.torqueAngleStart, 1);
    var upper := Scale.ScaleUpValue(t.torqueDeviationUp, 3);
    var lower := Scale.ScaleUpValue(t.torqueDeviationDown, 3);
    if torque.None? || angleStart.None? || upper.None? || lower.None? then None
    else Some((torque.value, angleStart.value, upper.value, lower.value))
  }

  /** The angle setpoint and its two tolerances, with one decimal place, each
      cut to 16 bits (`as i16`). */
  function AnglesOf(t: TaskRequest): (r: Option<(i16, i16, i16)>)
  {
    var angle := Scale.ScaleUpValue(t.angle, 1);
    var upper := Scale.ScaleUpValue(t.angleDeviationUp, 1);
    var lower := Scale.ScaleUpValue(t.angleDeviationDown, 1);
    if angle.None? || upper.None? || lower.None? then None
    else Some((WrapI16(angle.value), WrapI16(upper.value), WrapI16(lower.value)))
  }

  function ParseU8(s: string): Option<u8>
  {
    var r := RustText.ParseUnsigned(s, RustText.U8_MAX);
    if r.None? then None else Some(r.value)
  }

  function ParseU16(s: string): Option<u16>
  {
    var r := RustText.ParseUnsigned(s, RustText.U16_MAX);
    if r.None? then None else Some(r.value)
  }

  function ParseU32(s: string): Option<u32>
  {
    var r := RustText.ParseUnsigned(s, RustText.U32_MAX);
    if r.None? then None else Some(r.value)
  }

  /** The repeat count (u16), the control mode, work mode and unit (u8) and
      the bolt count (u32), as plain decimal numbers. */
  function CountsOf(t: TaskRequest): (r: Option<(u16, u8, u8, u8, u32)>)
  {
    var repeat := ParseU16(t.repeatCount);
    var controlMode := ParseU8(t.controlMode);
    var workMode := ParseU8(t.workMode);
    var unit := ParseU8(t.unit);
    var boltNum := ParseU32(t.boltNum);
    if repeat.None? || controlMode.None? || workMode.None? || unit.None? || boltNum.None? then None
    else Some((repeat.value, controlMode.value, workMode.value, unit.value, boltNum.value))
  }

  /** The joint task a request describes, or None when any of its fields
      fails to parse. */
  function ParseTask(t: TaskRequest): (r: Option<JointTask>)
  {
    var q := TorquesOf(t);
    var a := AnglesOf(t);
    var c := CountsOf(t);
    if q.None? || a.None? || c.None? then None
    else
      Some(JointTask(q.value.0, q.value.1, q.value.2, q.value.3, a.value.0, a.value.1, a.value.2,
                     c.value.0, c.value.4, c.value.1, c.value.2, c.value.3))
  }

  /** The four torque fields parse exactly when each scales, and keep the
      scaled values. */
  lemma TorquesOfFields(t: TaskRequest)
    ensures TorquesOf(t).Some? <==>
      && Scale.ScaleUpValue(t.torque, 3).Some?
      && Scale.ScaleUpValue(t.torqueAngleStart, 1).Some?
      && Scale.ScaleUpValue(t.torqueDeviationUp, 3).Some?
      && Scale.ScaleUpValue(t.torqueDeviationDown, 3).Some?
    ensures TorquesOf(t).Some? ==>
      TorquesOf(t).value == (Scale.ScaleUpValue(t.torque, 3).value, Scale.ScaleUpValue(t.torqueAngleStart, 1).value,
                             Scale.ScaleUpValue(t.torqueDeviationUp, 3).value, Scale.ScaleUpValue(t.torqueDeviationDown, 3).value)
  {
  }

  /** The three angle fields parse exactly when each scales, and keep the
      low 16 bits of the scaled values. */
  lemma AnglesOfFields(t: TaskRequest)
    ensures AnglesOf(t).Some? <==>
      && Scale.ScaleUpValue(t.angle, 1).Some?
      && Scale.ScaleUpValue(t.angleDeviationUp, 1).Some?
      && Scale.ScaleUpValue(t.angleDeviationDown, 1).Some?
    ensures AnglesOf(t).Some? ==>
      AnglesOf(t).value == (WrapI16(Scale.ScaleUpValue(t.angle, 1).value),
                            WrapI16(Scale.ScaleUpValue(t.angleDeviationUp, 1).value),
                            WrapI16(Scale.ScaleUpValue(t.angleDeviationDown, 1).value))
  {
  }

  /** The counts parse exactly when each is a decimal number within its type. */
  lemma CountsOfFields(t: TaskRequest)
    ensures CountsOf(t).Some? <==>
      && RustText.ParseUnsigned(t.repeatCount, RustText.U16_MAX).Some?
      && RustText.ParseUnsigned(t.controlMode, RustText.U8_MAX).Some?
      && RustText.ParseUnsigned(t.workMode, RustText.U8_MAX).Some?
      && RustText.ParseUnsigned(t.unit, RustText.U8_MAX).Some?
      && RustText.ParseUnsigned(t.boltNum, RustText.U32_MAX).Some?
    ensures CountsOf(t).Some? ==>
      && CountsOf(t).value.0 == RustText.ParseUnsigned(t.repeatCount, RustText.U16_MAX).value
      && CountsOf(t).value.1 == RustText.ParseUnsigned(t.controlMode, RustText.U8_MAX).value
      && CountsOf(t).value.4 == RustText.ParseUnsigned(t.boltNum, RustText.U32_MAX).value
  {
  }

  /** The tasks `append_task` collects from `tasks`, given the parser of one
      request: the requests that parse, in order, numbered on from `last`
      with wrapping u16 increments, each with no results yet; and the last
      number given out. */
  function Build(tasks: seq<TaskRequest>, parse: TaskRequest -> Option<JointTask>, last: u16,
                 msgId: string, wall: int): (r: (seq<WrenchTask>, u16))
    ensures |r.0| <= |tasks|
  {
    if |tasks| == 0 then ([], last)
    else
      var prev := Build(tasks[.. |tasks| - 1], parse, last, msgId, wall);
      var t := tasks[|tasks| - 1];
      var jt := parse(t);
      if jt.None? then prev
      else
        var id := WrapAddU16(prev.1, 1);
        (prev.0 + [WrenchTask(id, t.taskId, t.taskDetailId, msgId, wall, jt.value, [])], id)
  }

  /** The numbers are consecutive after `last`, modulo 2^16; every built
      task is fresh (no results) and carries the message id. */
  lemma {:induction false} BuildNumbers(tasks: seq<TaskRequest>, parse: TaskRequest -> Option<JointTask>,
                                        last: u16, msgId: string, wall: int)
    ensures var r := Build(tasks, parse, last, msgId, wall);
      && r.1 == (last + |r.0|) % 0x1_0000
      && (forall i :: 0 <= i < |r.0| ==> r.0[i].wrenchTaskId == (last + i + 1) % 0x1_0000)
      && (forall i :: 0 <= i < |r.0| ==> r.0[i].jointsRecv == [] && r.0[i].msgId == msgId)
  {
    if |tasks| > 0 {
      BuildNumbers(tasks[.. |tasks| - 1], parse, last, msgId, wall);
      var prev := Build(tasks[.. |tasks| - 1], parse, last, msgId, wall);
      WrapSucc(last + |prev.0|);
    }
  }

  lemma WrapSucc(x: nat)
    ensures WrapAddU16((x % 0x1_0000) as u16, 1) == (x + 1) % 0x1_0000
  {
  }

  /** Every request is kept exactly when every request parses; then the
      i-th built task is the i-th request's. */
  lemma {:induction false} BuildAll(tasks: seq<TaskRequest>, parse: TaskRequest -> Option<JointTask>,
                                    last: u16, msgId: string, wall: int)
    ensures var r := Build(tasks, parse, last, msgId, wall);
      |r.0| == |tasks| <==> forall i :: 0 <= i < |tasks| ==> parse(tasks[i]).Some?
    ensures var r := Build(tasks, parse, last, msgId, wall);
      |r.0| == |tasks| ==>
        forall i :: 0 <= i < |tasks| ==>
          && r.0[i].redisTaskId == tasks[i].taskId
          && r.0[i].redisTaskDetailId == tasks[i].taskDetailId
          && r.0[i].jointsTask == parse(tasks[i]).value
  {
    if |tasks| > 0 {
      var init := tasks[.. |tasks| - 1];
      BuildAll(init, parse, last, msgId, wall);
      assert forall i :: 0 <= i < |init| ==> init[i] == tasks[i];
    }
  }

  /** A request list with a request that does not parse builds fewer tasks. */
  lemma BuildDrops(tasks: seq<TaskRequest>, parse: TaskRequest -> Option<JointTask>,
                   last: u16, msgId: string, wall: int, i: nat)
    requires i < |tasks| && parse(tasks[i]).None?
    ensures |Build(tasks, parse, last, msgId, wall).0| < |tasks|
  {
    BuildAll(tasks, parse, last, msgId, wall);
  }

  // ---------------------------------------------------------------------
  // Numbering and cancelling

  function Max(a: u16, b: u16): u16
  {
    if a < b then b else a
  }

  /** The number `append_task` counts on from: the largest of the last
      finished task's, the current task's and the last pending task's
      numbers, each 0 when absent. */
  function LastTaskId(finished: seq<WrenchTask>, current: Option<WrenchTask>, pending: seq<WrenchTask>): (n: u16)
    ensures |finished| > 0 ==> n >= finished[|finished| - 1].wrenchTaskId
    ensures current.Some? ==> n >= current.value.wrenchTaskId
    ensures |pending| > 0 ==> n >= pending[|pending| - 1].wrenchTaskId
    ensures n == 0 || (|finished| > 0 && n == finished[|finished| - 1].wrenchTaskId)
      || (current.Some? && n == current.value.wrenchTaskId)
      || (|pending| > 0 && n == pending[|pending| - 1].wrenchTaskId)
  {
    var a := if |finished| > 0 then finished[|finished| - 1].wrenchTaskId else 0;
    var b := if current.Some? then current.value.wrenchTaskId else 0;
    var c := if |pending| > 0 then pending[|pending| - 1].wrenchTaskId else 0;
    Max(Max(Max(0, a), b), c)
  }

  /** `retain(|x| x.redis_task_id != task_id)`: the tasks with any other
      Redis task id, in their order. */
  function Retain(ts: seq<WrenchTask>, taskId: string): (r: seq<WrenchTask>)
    ensures |r| <= |ts|
    ensures forall t :: t in r <==> t in ts && t.redisTaskId != taskId
  {
    if |ts| == 0 then []
    else
      var rest := Retain(ts[.. |ts| - 1], taskId);
      assert ts == ts[.. |ts| - 1] + [ts[|ts| - 1]];
      if ts[|ts| - 1].redisTaskId != taskId then rest + [ts[|ts| - 1]] else rest
  }

  /** Retaining works piecewise, so the kept tasks keep their order. */
  lemma {:induction false} RetainConcat(a: seq<WrenchTask>, b: seq<WrenchTask>, taskId: string)
    ensures Retain(a + b, taskId) == Retain(a, taskId) + Retain(b, taskId)
  {
    if |b| == 0 {
      assert a + b == a;
    } else {
      var init := b[.. |b| - 1];
      RetainConcat(a, init, taskId);
      assert (a + b)[.. |a + b| - 1] == a + init;
    }
  }

  /** A list with no task of that id is kept whole. */
  lemma {:induction false} RetainNone(ts: seq<WrenchTask>, taskId: string)
    requires forall i :: 0 <= i < |ts| ==> ts[i].redisTaskId != taskId
    ensures Retain(ts, taskId) == ts
  {
    if |ts| > 0 {
      RetainNone(ts[.. |ts| - 1], taskId);
    }
  }
}
