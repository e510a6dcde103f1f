/** The Modbus RTU "Read Holding Registers" request that `read_battery_voltage`
    sends: function code 0x03 (section 6.3 of the MODBUS Application Protocol
    Specification V1.1b3), the register address and count big-endian, and the
    CRC-16/MODBUS of those six bytes appended low byte first.
 */
module Request {
  import opened Bytes
  import opened Crc16
  import opened Options
  import CrcValues

  /** Read Holding Registers. */
  const FunctionCode: nat := 0x03
  /** The battery voltage register of the slave. */
  const RegisterAddress: nat := 0x0101
  /** One register is read. */
  const RegisterCount: nat := 1
  /** The slave `main` polls. */
  const SlaveAddress: nat := 1

  datatype RegisterRequest = RegisterRequest(slave: nat, functionCode: nat, address: nat, count: nat)

  /** The fields fit their wire widths: one byte each for slave and function,
      one 16-bit word each for address and count. */
  predicate Valid(r: RegisterRequest) {
    IsByte(r.slave) && IsByte(r.functionCode) && IsWord(r.address) && IsWord(r.count)
  }

  /** The request the program sends to `slaveAddr`. */
  function BatteryVoltageRequest(slaveAddr: nat): RegisterRequest {
    RegisterRequest(slaveAddr, FunctionCode, RegisterAddress, RegisterCount)
  }

  /** The six bytes before the CRC: slave, function, then address and count
      each as `(v >> 8) & 0xFF` followed by `v & 0xFF`. */
  function Body(r: RegisterRequest): seq<int> {
    [r.slave, r.functionCode, HighByte(r.address), LowByte(r.address), HighByte(r.count), LowByte(r.count)]
  }

  /** The eight-byte RTU frame: the body, then `crc & 0xFF` and
      `(crc >> 8) & 0xFF` of the CRC computed over the body alone. */
  function Frame(r: RegisterRequest): (frame: seq<int>)
    requires Valid(r)
    ensures |frame| == 8 && IsBytes(frame)
    ensures frame[0] == r.slave && frame[1] == r.functionCode
    ensures frame[2] * 0x100 + frame[3] == r.address
    ensures frame[4] * 0x100 + frame[5] == r.count
    ensures frame[6] + frame[7] * 0x100 == Crc(frame[..6])
  {
    SplitJoin(r.address);
    SplitJoin(r.count);
    var body := Body(r);
    var crc := Crc(body);
    SplitJoin(crc);
    assert (body + [LowByte(crc), HighByte(crc)])[..6] == body;
    body + [LowByte(crc), HighByte(crc)]
  }

  /** The frame `read_battery_voltage(uart, slaveAddr)` writes to the UART.
      Register 0x0101 and count 1 split into the bytes 0x01 0x01 and
      0x00 0x01. */
  function BuildRequest(slaveAddr: int): (frame: seq<int>)
    requires IsByte(slaveAddr)
    ensures |frame| == 8 && IsBytes(frame)
    ensures frame[..6] == [slaveAddr, 0x03, 0x01, 0x01, 0x00, 0x01]
    ensures frame[6] + frame[7] * 0x100 == Crc(frame[..6])
  {
    ShrByte(RegisterAddress);
    ShrByte(RegisterCount);
    Frame(BatteryVoltageRequest(slaveAddr))
  }

  /** The inverse of Frame, as a slave reads a request: eight bytes whose
      trailer, low byte first, is the CRC of the first six. */
  function ParseRequest(frame: seq<int>): (r: Option<RegisterRequest>)
    requires IsBytes(frame)
    ensures r.Some? ==> Valid(r.value)
  {
    if |frame| == 8 && Join(frame[7], frame[6]) == Crc(frame[..6]) then
      JoinValue(frame[2], frame[3]);
      JoinValue(frame[4], frame[5]);
      Some(RegisterRequest(frame[0], frame[1], Join(frame[2], frame[3]), Join(frame[4], frame[5])))
    else
      None
  }

  /** Every valid request survives framing: parsing its frame gives it back. */
  lemma ParseFrame(r: RegisterRequest)
    requires Valid(r)
    ensures ParseRequest(Frame(r)) == Some(r)
  {
    var f := Frame(r);
    JoinValue(f[7], f[6]);
    JoinValue(f[2], f[3]);
    JoinValue(f[4], f[5]);
  }

  /** Every frame that parses is exactly the frame of what it parses to. */
  lemma FrameParse(frame: seq<int>)
    requires IsBytes(frame) && ParseRequest(frame).Some?
    ensures Frame(ParseRequest(frame).value) == frame
  {
    var r := ParseRequest(frame).value;
    JoinSplit(frame[2], frame[3]);
    JoinSplit(frame[4], frame[5]);
    assert Body(r) == frame[..6];
    JoinSplit(frame[7], frame[6]);
    assert Frame(r) == Body(r) + [frame[6], frame[7]];
    assert frame == frame[..6] + [frame[6], frame[7]];
  }

  /** The frame sent to `slaveAddr` carries a read of one holding register at
      0x0101 addressed to that slave, and nothing else. */
  lemma BuildRequestParses(slaveAddr: int)
    requires IsByte(slaveAddr)
    ensures ParseRequest(BuildRequest(slaveAddr))
            == Some(RegisterRequest(slaveAddr, 0x03, 0x0101, 1))
  {
    ParseFrame(BatteryVoltageRequest(slaveAddr));
  }

  /** The exact frame `main` makes `read_battery_voltage` write when it polls
      its slave: `01 03 01 01 00 01 D4 36`. */
  lemma SlaveOneFrame()
    ensures BuildRequest(SlaveAddress) == [0x01, 0x03, 0x01, 0x01, 0x00, 0x01, 0xD4, 0x36]
  {
    var frame := BuildRequest(SlaveAddress);
    assert frame[..6] == [1, 3, 1, 1, 0, 1];
    CrcValues.SlaveOneBodyCrc();
    assert frame[6] + frame[7] * 0x100 == 0x36D4;
    assert frame[6] == 0xD4 && frame[7] == 0x36;
    assert frame == frame[..6] + [frame[6], frame[7]];
  }
}
