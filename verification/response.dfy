/** Decoding the slave's answer to a one-register read. The decoder trusts
    the byte offsets: it checks only that at least five bytes arrived, and
    reads the register value big-endian from bytes 3 and 4. It does not check
    the echoed address, the function code, the byte count or the CRC.
 */
module Response {
  import opened Bytes
  import opened Crc16
  import opened Options
  import Request

  /** Python truthiness of what `uart.read` returned: `None` and the empty
      byte string are both false. */
  predicate Received(response: Option<seq<int>>) {
    response.Some? && |response.value| != 0
  }

  /** The raw register value `read_battery_voltage` scales, in tenths of a
      volt, or None when the guard `response and len(response) >= 5` fails.
      Bytes 3 and 4 are combined as `(high_byte << 8) | low_byte`. */
  function DecodeResponse(response: Option<seq<int>>): (raw: Option<nat>)
    requires response.Some? ==> IsBytes(response.value)
    ensures raw.Some? <==> response.Some? && |response.value| >= 5
    ensures raw.Some? ==> IsWord(raw.value)
    ensures raw.Some? ==> raw.value == response.value[3] * 0x100 + response.value[4]
  {
    if Received(response) && |response.value| >= 5 then
      var high, low := response.value[3], response.value[4];
      JoinValue(high, low);
      Some(Join(high, low))
    else
      None
  }

  /** The decoded value depends on bytes 3 and 4 alone: two responses that
      agree there decode alike, whatever their address, function code, byte
      count or CRC bytes. */
  lemma DecodeIgnoresFraming(a: seq<int>, b: seq<int>)
    requires IsBytes(a) && IsBytes(b)
    requires |a| >= 5 && |b| >= 5
    requires a[3] == b[3] && a[4] == b[4]
    ensures DecodeResponse(Some(a)) == DecodeResponse(Some(b)) != None
  {
  }

  /** The seven bytes a slave sends back for one holding register: address
      echo, function code, byte count 2, the value big-endian, and the CRC of
      those five bytes low byte first. */
  function Reply(slave: nat, value: nat): (reply: seq<int>)
    requires IsByte(slave) && IsWord(value)
    ensures |reply| == 7 && IsBytes(reply)
    ensures reply[5] + reply[6] * 0x100 == Crc(reply[..5])
  {
    SplitJoin(value);
    var body := [slave, Request.FunctionCode, 2, HighByte(value), LowByte(value)];
    var crc := Crc(body);
    SplitJoin(crc);
    assert (body + [LowByte(crc), HighByte(crc)])[..5] == body;
    body + [LowByte(crc), HighByte(crc)]
  }

  /** Decoding the slave's reply gives back the register value, also when
      the read returned only the first five or six of its seven bytes. */
  lemma DecodeReply(slave: nat, value: nat, n: nat)
    requires IsByte(slave) && IsWord(value)
    requires 5 <= n <= 7
    ensures DecodeResponse(Some(Reply(slave, value)[..n])) == Some(value)
  {
    SplitJoin(value);
  }
}
