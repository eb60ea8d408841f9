/** The GetInfo queries the server sends a wrench: `query_serial` asks for
    its serial number and `query_energy` for its battery state. Both are
    server-to-wrench packets of type GetInfo with a one-byte payload in
    which exactly one request bit is set. */
module Queries {
  import opened Bytes
  import opened Wrappers
  import W = RustWrc
  import L = WrcLayout

  /** The flag byte of a server packet of type t, built from a zero flag:
      direction 1, variable_len 0. */
  function ServerFlag(t: byte): (f: byte)
    ensures L.Direction(f) == L.FROM_SERVER && L.VariableLen(f) == 0 && L.Type(f) == t & 0x3F
  {
    assert L.VariableLen(0) == 0 && L.Type(0) == 0;
    L.WithType(L.WithDirection(0, 1), t)
  }

  /** The flag bytes the daemon's packet types give. */
  lemma ServerFlagValues()
    ensures ServerFlag(6) == 25 && ServerFlag(7) == 29 && ServerFlag(9) == 37 && ServerFlag(10) == 41
  {
  }

  function GetInfoPacket(mac: u32, bit: nat): (p: W.Packet)
    requires bit < 8
    ensures p.sequenceId == 0 && p.mac == mac && p.payloadLen == 1
    ensures L.Direction(p.flag) == L.FROM_SERVER && L.VariableLen(p.flag) == 0
    ensures L.Type(p.flag) as nat == L.Code(L.GetInfo) == L.Code(W.TypeOf(p.payload))
  {
    W.Packet(0, mac, ServerFlag(6), 1, W.GetInfo(L.WithFlag(0, bit)))
  }

  /** query_serial: a GetInfo packet asking for the serial number only. */
  function QuerySerial(mac: u32): (p: W.Packet)
    ensures p.sequenceId == 0 && p.mac == mac && p.payloadLen == 1 && p.flag == 25
    ensures L.Direction(p.flag) == L.FROM_SERVER && L.VariableLen(p.flag) == 0
    ensures L.Type(p.flag) as nat == L.Code(L.GetInfo) && p.payload.GetInfo?
    ensures forall i :: 0 <= i < 8 ==> (L.FlagSet(p.payload.infoFlag, i) <==> i == L.INFO_SERIAL_BIT)
  {
    L.OnlyFlag();
    ServerFlagValues();
    GetInfoPacket(mac, L.INFO_SERIAL_BIT)
  }

  /** query_energy: a GetInfo packet asking for the battery state only. */
  function QueryEnergy(mac: u32): (p: W.Packet)
    ensures p.sequenceId == 0 && p.mac == mac && p.payloadLen == 1 && p.flag == 25
    ensures L.Direction(p.flag) == L.FROM_SERVER && L.VariableLen(p.flag) == 0
    ensures L.Type(p.flag) as nat == L.Code(L.GetInfo) && p.payload.GetInfo?
    ensures forall i :: 0 <= i < 8 ==> (L.FlagSet(p.payload.infoFlag, i) <==> i == L.INFO_ENERGY_BIT)
  {
    L.OnlyFlag();
    ServerFlagValues();
    GetInfoPacket(mac, L.INFO_ENERGY_BIT)
  }

  /** Both queries read back unchanged through the packet parser, so they
      are well-formed packets of their declared type and length. */
  lemma QueriesOnWire(mac: u32)
    ensures W.Parse(W.Encoding(QuerySerial(mac))) == Ok(QuerySerial(mac))
    ensures W.Parse(W.Encoding(QueryEnergy(mac))) == Ok(QueryEnergy(mac))
  {
    W.ParseEncoding(QuerySerial(mac));
    W.ParseEncoding(QueryEnergy(mac));
  }
}
