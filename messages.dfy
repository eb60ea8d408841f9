/** The messages the wrench state machine exchanges with the Redis side
    (`RequiredAction` in, `ResponseAction` out) and the packets it receives
    from the serial side. `RequiredAction` and `ResponseAction` are not part
    of this model's source files; their variants and fields are the ones the
    state machine constructs and matches on. */
module Messages {
  import opened Bytes
  import W = RustWrc

  datatype ConnectInfo = ConnectInfo(msgId: string, wrenchSerial: u128, status: bool)

  datatype TaskInfo = TaskInfo(msgId: string, wrenchSerial: u128, status: bool)

  datatype BasicInfo = BasicInfo(wrenchSerial: u128, voltage: u32, storage: u32, useTime: u64)

  /** One joint result. torque and angle are the raw readings that the
      source renders with three and one decimal places; taskSubId is the
      passed-joint count the source renders as text. */
  datatype FinishedInfo = FinishedInfo(
    msgId: string, wrenchSerial: u128, taskId: string, taskDetailId: string,
    taskSubId: nat, torque: i32, angle: i16, status: bool, startDate: int, endDate: int)

  datatype ResponseAction =
    | ConnectStatus(connect: ConnectInfo)
    | TaskStatus(task: TaskInfo)
    | TaskFinished(finished: FinishedInfo)
    | BasicStatus(basic: BasicInfo)
    | ConnectionTimeout(serial: u128)

  /** A task as it arrives from Redis: every field is text. */
  datatype TaskRequest = TaskRequest(
    taskId: string, taskDetailId: string, wrenchSerial: string,
    controlMode: string, workMode: string, boltNum: string, repeatCount: string,
    torque: string, torqueDeviationUp: string, torqueDeviationDown: string,
    torqueAngleStart: string, angle: string, angleDeviationUp: string,
    angleDeviationDown: string, unit: string)

  /** The binding request the registry queues; its content is not inspected. */
  datatype WrenchInfo = WrenchInfo(content: string)

  datatype RequiredAction =
    | BindWrench(target: WrenchInfo)
    | CheckConnect(info: ConnectInfo)
    | SendTask(msgId: string, tasks: seq<TaskRequest>)
    | TaskCancel(wrenchSerial: string, taskId: string)

  /** The payload of a received packet. The state machine reads an
      `InlineJointData` payload as a list of records; a packet that holds
      one record is the list of that record. */
  datatype Incoming =
    | Fixed(payload: W.Payload)
    | InlineJoints(records: seq<W.InlineJoint>)

  /** The joint records a received payload carries. */
  function Records(p: Incoming): (rs: seq<W.InlineJoint>)
    ensures p.InlineJoints? ==> rs == p.records
    ensures p.Fixed? && p.payload.InlineJointData? ==> rs == [p.payload.joint]
    ensures p.Fixed? && !p.payload.InlineJointData? ==> rs == []
  {
    match p
    case InlineJoints(rs) => rs
    case Fixed(q) => if q.InlineJointData? then [q.joint] else []
  }

  datatype ComPacket = ComPacket(mac: u32, payload: Incoming)
}
