/** One call of `read_battery_voltage` with the UART cut away: the frame it
    writes and what it makes of the bytes `uart.read(7)` hands back. */
module Exchange {
  import opened Bytes
  import opened Options
  import Crc16
  import Request
  import Response

  datatype Attempt = Attempt(sent: seq<int>, reading: Option<nat>)

  /** `received` is the value of `uart.read(7)`: None when nothing arrived.
      The frame written is the read of register 0x0101, count 1, with its CRC
      trailer; a reading exists exactly when at least five bytes came back,
      and it is bytes 3 and 4 big-endian. */
  function ReadBatteryVoltage(slaveAddr: int, received: Option<seq<int>>): (x: Attempt)
    requires IsByte(slaveAddr)
    requires received.Some? ==> IsBytes(received.value)
    ensures |x.sent| == 8 && x.sent[..6] == [slaveAddr, 0x03, 0x01, 0x01, 0x00, 0x01]
    ensures x.sent[6] + x.sent[7] * 0x100 == Crc16.Crc(x.sent[..6])
    ensures x.reading.Some? <==> received.Some? && |received.value| >= 5
    ensures x.reading.Some? ==> x.reading.value == received.value[3] * 0x100 + received.value[4]
  {
    Attempt(Request.BuildRequest(slaveAddr), Response.DecodeResponse(received))
  }

  /** Polling a slave that answers with its register value yields that value,
      and the one frame written is a read of register 0x0101 of that slave. */
  lemma PollAnsweringSlave(slaveAddr: int, value: nat)
    requires IsByte(slaveAddr) && IsWord(value)
    ensures ReadBatteryVoltage(slaveAddr, Some(Response.Reply(slaveAddr, value))).reading == Some(value)
    ensures Request.ParseRequest(ReadBatteryVoltage(slaveAddr, Some(Response.Reply(slaveAddr, value))).sent)
            == Some(Request.RegisterRequest(slaveAddr, 0x03, 0x0101, 1))
  {
    var reply := Response.Reply(slaveAddr, value);
    assert reply[..7] == reply;
    Response.DecodeReply(slaveAddr, value, 7);
    Request.BuildRequestParses(slaveAddr);
  }

  /** A silent slave, or one whose answer is under five bytes, yields no
      reading; the request is sent all the same. */
  lemma PollSilentSlave(slaveAddr: int, received: Option<seq<int>>)
    requires IsByte(slaveAddr)
    requires received.Some? ==> IsBytes(received.value)
    requires received.None? || |received.value| < 5
    ensures ReadBatteryVoltage(slaveAddr, received).reading == None
    ensures ReadBatteryVoltage(slaveAddr, received).sent == Request.BuildRequest(slaveAddr)
  {
  }
}
