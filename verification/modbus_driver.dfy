/** Byte-level helpers of the Modbus-RTU slave (modbus_driver.h): the CRC-16 of
    the serial line, the check of an 8-byte Read Holding Registers request, and
    the builder of the reply. Each helper is a method written the way the
    firmware writes it (loops over arrays), proved against a specification
    function; the properties of those functions are the lemmas below them. */
module ModbusDriver {

  /** An unsigned 8-bit value (uint8_t). */
  type byte = x: int | 0 <= x < 0x100

  /** An unsigned 16-bit value (uint16_t). */
  type uint16 = x: int | 0 <= x < 0x1_0000

  /** Address of this slave on the bus. */
  const DEVICE_ID: byte := 0x01
  /** Capacity of the receive and of the transmit buffer. */
  const BUFFER_SIZE: nat := 100
  /** Length of a Read Holding Registers request. */
  const PACKET_SIZE: nat := 8
  /** Function code of Read Holding Registers. */
  const READ_COMMAND: byte := 0x03
  /** Function code the firmware declares but never answers. */
  const WRITE_COMMAND: byte := 0x04

  /** The slave's holding registers, at addresses 0 to 9. */
  const Registers: seq<uint16> :=
    [0x1122, 0x3344, 0x5566, 0x7788, 0x9900, 0xAABB, 0x1234, 0x4565, 0x5548, 0x9969]

  // ---------------------------------------------------------------------------
  // 16-bit words and their bytes

  /** The low byte of a word, as the cast `(uint8_t) w` gives it. */
  function Lo(w: uint16): byte { w % 0x100 }

  /** The high byte of a word, as `(uint8_t) (w >> 8)` gives it. */
  function Hi(w: uint16): byte { w / 0x100 }

  /** The word `(hi << 8) | lo`. */
  function Word(hi: byte, lo: byte): (w: uint16)
    ensures Hi(w) == hi && Lo(w) == lo
  {
    hi * 0x100 + lo
  }

  /** Splitting a word into its bytes loses nothing. */
  lemma WordOfBytes(w: uint16)
    ensures Word(Hi(w), Lo(w)) == w
  {
  }

  // ---------------------------------------------------------------------------
  // The CRC-16 of Modbus over serial line (reflected polynomial 0xA001)

  const CRC_INIT: uint16 := 0xFFFF
  const CRC_POLY: uint16 := 0xA001

  function Pow2(n: nat): (p: nat)
    ensures p >= 1
  {
    if n == 0 then 1 else 2 * Pow2(n - 1)
  }

  /** The exclusive or of the low `n` bits of `a` and `b`, bit by bit from the
      least significant. */
  function XorBits(a: nat, b: nat, n: nat): (r: nat)
    ensures r < Pow2(n)
  {
    if n == 0 then 0
    else 2 * XorBits(a / 2, b / 2, n - 1) + (a % 2 + b % 2) % 2
  }

  /** The C operator `^` on two 16-bit values. */
  function Xor16(a: uint16, b: uint16): uint16
  {
    assert Pow2(2) == 4 && Pow2(4) == 16 && Pow2(6) == 64 && Pow2(8) == 256;
    assert Pow2(10) == 1024 && Pow2(12) == 4096 && Pow2(14) == 16384;
    assert Pow2(16) == 0x1_0000;
    XorBits(a, b, 16)
  }

  /** Bit `i` of `a`, counting from the least significant bit. */
  function Bit(a: nat, i: nat): (d: nat)
    ensures d < 2
  {
    if i == 0 then a % 2 else Bit(a / 2, i - 1)
  }

  lemma {:induction false} ZeroHasNoBits(i: nat)
    ensures Bit(0, i) == 0
  {
    if i > 0 {
      ZeroHasNoBits(i - 1);
    }
  }

  /** XorBits is the bitwise exclusive or: each of the low `n` bits of the
      result is the sum of the operands' bits modulo 2, and every higher bit is 0. */
  lemma {:induction false} XorBitsBit(a: nat, b: nat, n: nat, i: nat)
    ensures Bit(XorBits(a, b, n), i) == if i < n then (Bit(a, i) + Bit(b, i)) % 2 else 0
    decreases n
  {
    if n == 0 {
      ZeroHasNoBits(i);
    } else if i > 0 {
      assert XorBits(a, b, n) / 2 == XorBits(a / 2, b / 2, n - 1);
      XorBitsBit(a / 2, b / 2, n - 1, i - 1);
    }
  }

  /** One bit of the CRC: shift right, and fold in the polynomial when the bit
      shifted out was 1. */
  function Round(crc: uint16): uint16
  {
    if crc % 2 != 0 then Xor16(crc / 2, CRC_POLY) else crc / 2
  }

  /** `k` rounds applied one after another. */
  function Rounds(crc: uint16, k: nat): uint16
  {
    if k == 0 then crc else Round(Rounds(crc, k - 1))
  }

  /** One byte of the CRC: XOR it into the low byte, then eight rounds. */
  function Absorb(crc: uint16, b: byte): uint16
  {
    Rounds(Xor16(crc, b), 8)
  }

  /** The CRC register after absorbing `s`, starting from `crc`: a left fold of Absorb. */
  function CrcFrom(crc: uint16, s: seq<byte>): uint16
    decreases |s|
  {
    if s == [] then crc else CrcFrom(Absorb(crc, s[0]), s[1..])
  }

  /** The CRC of a byte sequence, as MODBUS_GetCheckSum returns it. */
  function Crc(s: seq<byte>): uint16
  {
    CrcFrom(CRC_INIT, s)
  }

  /** The CRC of no bytes is the initial register. */
  lemma CrcEmpty()
    ensures Crc([]) == 0xFFFF
  {
  }

  /** The fold can be split anywhere: the CRC of `a + b` is `b` folded from the CRC of `a`. */
  lemma {:induction false} CrcFromAppend(crc: uint16, a: seq<byte>, b: seq<byte>)
    ensures CrcFrom(crc, a + b) == CrcFrom(CrcFrom(crc, a), b)
    decreases |a|
  {
    if a == [] {
      assert a + b == b;
    } else {
      assert (a + b)[0] == a[0];
      assert (a + b)[1..] == a[1..] + b;
      CrcFromAppend(Absorb(crc, a[0]), a[1..], b);
    }
  }

  /** Appending one byte absorbs it into the register so far. */
  lemma CrcFromSnoc(crc: uint16, s: seq<byte>, b: byte)
    ensures CrcFrom(crc, s + [b]) == Absorb(CrcFrom(crc, s), b)
  {
    CrcFromAppend(crc, s, [b]);
    assert [b][1..] == [];
  }

  /** MODBUS_GetCheckSum: the CRC of `buf[0..len)`; a negative length reads no byte. */
  method GetCheckSum(buf: array<byte>, len: int) returns (r: uint16)
    requires len <= buf.Length
    ensures r == Crc(buf[..if len < 0 then 0 else len])
  {
    var crc: uint16 := CRC_INIT;
    var pos := 0;
    while pos < len
      invariant 0 <= pos <= buf.Length
      invariant len >= 0 ==> pos <= len
      invariant len < 0 ==> pos == 0
      invariant crc == CrcFrom(CRC_INIT, buf[..pos])
    {
      ghost var before := crc;
      crc := Xor16(crc, buf[pos]);
      ghost var mixed := crc;
      var i := 8;
      while i != 0
        invariant 0 <= i <= 8
        invariant crc == Rounds(mixed, 8 - i)
      {
        if crc % 2 != 0 {
          crc := crc / 2;
          crc := Xor16(crc, CRC_POLY);
        } else {
          crc := crc / 2;
        }
        i := i - 1;
      }
      assert crc == Absorb(before, buf[pos]);
      CrcFromSnoc(CRC_INIT, buf[..pos], buf[pos]);
      assert buf[..pos + 1] == buf[..pos] + [buf[pos]];
      pos := pos + 1;
    }
    r := crc;
  }

  // ---------------------------------------------------------------------------
  // Sealed frames: a body followed by its CRC, low byte first

  /** A frame whose last two bytes are the CRC of the bytes before them, low byte first. */
  predicate Sealed(f: seq<byte>)
  {
    |f| >= 2 && Word(f[|f| - 1], f[|f| - 2]) == Crc(f[..|f| - 2])
  }

  /** The frame made of `body` and its CRC, low byte then high byte. */
  function Seal(body: seq<byte>): (f: seq<byte>)
    ensures Sealed(f)
    ensures |f| == |body| + 2 && f[..|body|] == body
  {
    var crc := Crc(body);
    WordOfBytes(crc);
    assert (body + [Lo(crc), Hi(crc)])[..|body|] == body;
    body + [Lo(crc), Hi(crc)]
  }

  /** Every sealed frame is the seal of its own body. */
  lemma SealedIsSeal(f: seq<byte>)
    requires Sealed(f)
    ensures Seal(f[..|f| - 2]) == f
  {
    var body := f[..|f| - 2];
    var crc := Crc(body);
    WordOfBytes(crc);
    assert f == body + [f[|f| - 2], f[|f| - 1]];
  }

  /** Changing either CRC byte, in any bit, breaks the seal. */
  lemma ChangedCrcBreaksSeal(f: seq<byte>, j: nat, v: byte)
    requires Sealed(f)
    requires |f| - 2 <= j < |f| && v != f[j]
    ensures !Sealed(f[j := v])
  {
    var g := f[j := v];
    assert g[..|g| - 2] == f[..|f| - 2];
    if j == |f| - 1 {
      assert Hi(Word(g[|g| - 1], g[|g| - 2])) != Hi(Word(f[|f| - 1], f[|f| - 2]));
    } else {
      assert Lo(Word(g[|g| - 1], g[|g| - 2])) != Lo(Word(f[|f| - 1], f[|f| - 2]));
    }
  }

  // ---------------------------------------------------------------------------
  // The request check (MODBUS_VerifyChecksum)

  /** The decision MODBUS_VerifyChecksum makes on the 8-byte candidate at `i`:
      the word stored low byte first at `i+6` equals the CRC of `rx[i..i+6)`. */
  predicate ChecksumOk(rx: seq<byte>, i: nat)
    requires i + PACKET_SIZE <= |rx|
  {
    Word(rx[i + 7], rx[i + 6]) == Crc(rx[i..i + 6])
  }

  /** The check accepts exactly the sealed 8-byte candidates, whatever surrounds them. */
  lemma ChecksumOkIsSealed(rx: seq<byte>, i: nat)
    requires i + PACKET_SIZE <= |rx|
    ensures ChecksumOk(rx, i) <==> Sealed(rx[i..i + PACKET_SIZE])
  {
    var f := rx[i..i + PACKET_SIZE];
    assert f[..6] == rx[i..i + 6];
    assert f[7] == rx[i + 7] && f[6] == rx[i + 6];
  }

  /** Round trip: a request body followed by its CRC passes the check. */
  lemma SealedRequestPasses(body: seq<byte>)
    requires |body| == 6
    ensures ChecksumOk(Seal(body), 0)
  {
    ChecksumOkIsSealed(Seal(body), 0);
    assert Seal(body)[0..PACKET_SIZE] == Seal(body);
  }

  /** A request whose CRC field has been altered in any bit fails the check. */
  lemma CorruptedRequestFails(rx: seq<byte>, i: nat, j: nat, v: byte)
    requires i + PACKET_SIZE <= |rx| && ChecksumOk(rx, i)
    requires 6 <= j < 8 && v != rx[i + j]
    ensures !ChecksumOk(rx[i + j := v], i)
  {
    var rx' := rx[i + j := v];
    ChecksumOkIsSealed(rx, i);
    ChecksumOkIsSealed(rx', i);
    var f := rx[i..i + PACKET_SIZE];
    assert rx'[i..i + PACKET_SIZE] == f[j := v];
    ChangedCrcBreaksSeal(f, j, v);
  }

  /** MODBUS_VerifyChecksum: copies the six data bytes of the candidate at
      `checkIndex` into a local packet and compares their CRC with the word
      stored after them, low byte first. */
  method VerifyChecksum(checkIndex: nat, rx: array<byte>) returns (ok: bool)
    requires checkIndex + PACKET_SIZE <= rx.Length
    ensures ok <==> ChecksumOk(rx[..], checkIndex)
  {
    var master: int := rx[checkIndex + 7];
    master := master * 0x100;
    // the low byte of `master` is zero here, so the source's OR is an addition
    master := master + rx[checkIndex + 6];
    var packet := new byte[6];
    var count, index := checkIndex, 0;
    while count < checkIndex + 6
      invariant checkIndex <= count <= checkIndex + 6
      invariant index == count - checkIndex
      invariant packet[..index] == rx[checkIndex..count]
    {
      packet[index] := rx[count];
      count, index := count + 1, index + 1;
    }
    var crc := GetCheckSum(packet, 6);
    assert packet[..6] == rx[..][checkIndex..checkIndex + 6];
    ok := master == crc;
  }

  // ---------------------------------------------------------------------------
  // The reply to Read Holding Registers (MODBUS_PrepareResponse). The register
  // table is a parameter: the slave's own table is `Registers`.

  /** First register asked for, from bytes 2 (high) and 3 (low) of the request. */
  function RequestStart(req: seq<byte>): nat
    requires |req| >= 6
  {
    req[2] as int * 256 + req[3]
  }

  /** Number of registers asked for, from bytes 4 (high) and 5 (low) of the request. */
  function RequestCount(req: seq<byte>): nat
    requires |req| >= 6
  {
    req[4] as int * 256 + req[5]
  }

  /** Reading `n` registers from `start` stays inside `regs`: the register
      loop runs `n` times, so a count of 0 reads nothing whatever the start. */
  predicate Readable(regs: seq<uint16>, start: nat, n: nat)
  {
    n == 0 || start + n <= |regs|
  }

  /** The request reads only registers that exist in `regs`; the firmware does not check this. */
  predicate InRange(req: seq<byte>, regs: seq<uint16>)
    requires |req| >= 6
  {
    Readable(regs, RequestStart(req), RequestCount(req))
  }

  /** The byte-count field: the count truncated to 8 bits, doubled, truncated again. */
  function ByteCount(count: nat): byte
  {
    (count % 256 * 2) % 256
  }

  /** Registers `start .. start+n` of `regs`, each as high byte then low byte. */
  function RegisterBytes(regs: seq<uint16>, start: nat, n: nat): seq<byte>
    requires Readable(regs, start, n)
  {
    if n == 0 then []
    else RegisterBytes(regs, start, n - 1) + [Hi(regs[start + n - 1]), Lo(regs[start + n - 1])]
  }

  /** The `k`-th register value carried by a reply, read big-endian from bytes `3+2k` and `4+2k`. */
  function DataWord(reply: seq<byte>, k: nat): uint16
    requires 5 + 2 * k <= |reply|
  {
    Word(reply[3 + 2 * k], reply[4 + 2 * k])
  }

  /** The reply to the request header `req`: its device id and function code,
      the byte count, the registers asked for, and the CRC of all that. */
  function Response(req: seq<byte>, regs: seq<uint16>): seq<byte>
    requires |req| >= 6 && InRange(req, regs)
  {
    Seal([req[0], req[1], ByteCount(RequestCount(req))]
         + RegisterBytes(regs, RequestStart(req), RequestCount(req)))
  }

  lemma {:induction false} RegisterBytesLength(regs: seq<uint16>, start: nat, n: nat)
    requires Readable(regs, start, n)
    ensures |RegisterBytes(regs, start, n)| == 2 * n
  {
    if n > 0 {
      RegisterBytesLength(regs, start, n - 1);
    }
  }

  /** Register `start+k` sits at bytes `2k` and `2k+1` of RegisterBytes(regs, start, n). */
  lemma {:induction false} RegisterBytesAt(regs: seq<uint16>, start: nat, n: nat, k: nat)
    requires start + n <= |regs| && k < n
    ensures |RegisterBytes(regs, start, n)| == 2 * n
    ensures RegisterBytes(regs, start, n)[2 * k] == Hi(regs[start + k])
    ensures RegisterBytes(regs, start, n)[2 * k + 1] == Lo(regs[start + k])
  {
    RegisterBytesLength(regs, start, n);
    if k < n - 1 {
      RegisterBytesAt(regs, start, n - 1, k);
    } else {
      RegisterBytesLength(regs, start, n - 1);
    }
  }

  /** The reply's layout: length 2n+5, the request's id and function code, the
      byte count, register `start+k` big-endian in data word `k`, and a CRC
      that the request check would accept. */
  lemma ResponseLayout(req: seq<byte>, regs: seq<uint16>)
    requires |req| >= 6 && InRange(req, regs)
    ensures |Response(req, regs)| == 2 * RequestCount(req) + 5
    ensures Response(req, regs)[0] == req[0] && Response(req, regs)[1] == req[1]
    ensures Response(req, regs)[2] == ByteCount(RequestCount(req))
    ensures forall k :: 0 <= k < RequestCount(req) ==>
              DataWord(Response(req, regs), k) == regs[RequestStart(req) + k]
    ensures Sealed(Response(req, regs))
  {
    var start, n := RequestStart(req), RequestCount(req);
    var body := [req[0], req[1], ByteCount(n)] + RegisterBytes(regs, start, n);
    RegisterBytesLength(regs, start, n);
    assert Response(req, regs)[..|body|] == body;
    assert body[0] == req[0] && body[1] == req[1] && body[2] == ByteCount(n);
    forall k | 0 <= k < n
      ensures DataWord(Response(req, regs), k) == regs[start + k]
    {
      ResponseDataWord(req, regs, body, k);
    }
  }

  lemma ResponseDataWord(req: seq<byte>, regs: seq<uint16>, body: seq<byte>, k: nat)
    requires |req| >= 6 && InRange(req, regs) && k < RequestCount(req)
    requires body == [req[0], req[1], ByteCount(RequestCount(req))]
                     + RegisterBytes(regs, RequestStart(req), RequestCount(req))
    ensures 5 + 2 * k <= |Response(req, regs)|
    ensures DataWord(Response(req, regs), k) == regs[RequestStart(req) + k]
  {
    var start, n := RequestStart(req), RequestCount(req);
    var data := RegisterBytes(regs, start, n);
    var w := regs[start + k];
    var r := Response(req, regs);
    RegisterBytesAt(regs, start, n, k);
    assert r[..|body|] == body;
    var i := 3 + 2 * k;
    assert body[i] == data[2 * k] == Hi(w);
    assert body[i + 1] == data[2 * k + 1] == Lo(w);
    assert r[i] == r[..|body|][i];
    assert r[i + 1] == r[..|body|][i + 1];
    WordOfBytes(w);
  }

  /** The register loop of MODBUS_PrepareResponse: writes registers
      `start .. start+length` of `regs`, high byte first, from `tx[3]` on, and
      returns the index just past them. */
  method PutRegisters(tx: array<byte>, regs: seq<uint16>, start: nat, length: nat) returns (t: nat)
    requires Readable(regs, start, length) && 3 + 2 * length <= tx.Length
    modifies tx
    ensures t == 3 + 2 * length
    ensures tx[3..t] == RegisterBytes(regs, start, length)
    ensures tx[..3] == old(tx[..3])
    ensures forall i :: t <= i < tx.Length ==> tx[i] == old(tx[i])
  {
    t := 3;
    var count := start;
    while count < length + start
      invariant start <= count <= start + length
      invariant t == 3 + 2 * (count - start)
      invariant tx[3..t] == RegisterBytes(regs, start, count - start)
      invariant tx[..3] == old(tx[..3])
      invariant forall i :: t <= i < tx.Length ==> tx[i] == old(tx[i])
    {
      ghost var before := tx[3..t];
      tx[t] := Hi(regs[count]);
      t := t + 1;
      tx[t] := Lo(regs[count]);
      t := t + 1;
      assert tx[3..t] == before + [Hi(regs[count]), Lo(regs[count])];
      count := count + 1;
    }
  }

  /** MODBUS_PrepareResponse: writes the reply to the request at `checkIndex`
      into `tx` and returns its length; nothing past the reply is touched. */
  method PrepareResponse(checkIndex: nat, rx: array<byte>, tx: array<byte>, regs: seq<uint16>)
    returns (len: nat)
    requires rx != tx
    requires checkIndex + 6 <= rx.Length
    requires InRange(rx[checkIndex..checkIndex + 6], regs)
    requires 2 * RequestCount(rx[checkIndex..checkIndex + 6]) + 5 <= tx.Length
    modifies tx
    ensures len == 2 * RequestCount(rx[checkIndex..checkIndex + 6]) + 5
    ensures tx[..len] == Response(rx[checkIndex..checkIndex + 6], regs)
    ensures forall i :: len <= i < tx.Length ==> tx[i] == old(tx[i])
  {
    ghost var req := rx[checkIndex..checkIndex + 6];
    tx[0] := rx[checkIndex];
    tx[1] := rx[checkIndex + 1];
    var start := rx[checkIndex + 2] as int * 256 + rx[checkIndex + 3];
    var length := rx[checkIndex + 4] as int * 256 + rx[checkIndex + 5];
    assert start == RequestStart(req) && length == RequestCount(req);
    tx[2] := ByteCount(length);
    ghost var header := tx[..3];
    assert header == [req[0], req[1], ByteCount(length)];
    var t := PutRegisters(tx, regs, start, length);
    ghost var body := tx[..t];
    assert body == header + RegisterBytes(regs, start, length) by {
      assert body == body[..3] + body[3..];
    }
    var crc := GetCheckSum(tx, t);
    tx[t] := Lo(crc);
    t := t + 1;
    tx[t] := Hi(crc);
    t := t + 1;
    assert tx[..t] == body + [Lo(crc), Hi(crc)];
    len := t;
  }

  /** Reading three registers from address 2: the data bytes are 55 66 77 88 99 00
      and the reply is 11 bytes long. */
  lemma ReadThreeRegistersExample()
    ensures |Response([0x01, 0x03, 0x00, 0x02, 0x00, 0x03], Registers)| == 11
    ensures Response([0x01, 0x03, 0x00, 0x02, 0x00, 0x03], Registers)[..9]
            == [0x01, 0x03, 0x06, 0x55, 0x66, 0x77, 0x88, 0x99, 0x00]
  {
    var req: seq<byte> := [0x01, 0x03, 0x00, 0x02, 0x00, 0x03];
    assert RequestStart(req) == 2 && RequestCount(req) == 3;
    assert RegisterBytes(Registers, 2, 1) == [0x55, 0x66];
    assert RegisterBytes(Registers, 2, 2) == [0x55, 0x66, 0x77, 0x88];
    assert RegisterBytes(Registers, 2, 3) == [0x55, 0x66, 0x77, 0x88, 0x99, 0x00];
    var body := [req[0], req[1], ByteCount(3)] + RegisterBytes(Registers, 2, 3);
    assert ByteCount(3) == 6;
    assert body == [0x01, 0x03, 0x06, 0x55, 0x66, 0x77, 0x88, 0x99, 0x00];
    assert Response(req, Registers)[..9] == body;
  }

  /** A request for no registers is answered whatever its start address: the
      register loop runs zero times, and the reply is the id, the function
      code, a byte count of 0 and the CRC of those three bytes. */
  lemma ZeroCountReply(req: seq<byte>, regs: seq<uint16>)
    requires |req| >= 6 && RequestCount(req) == 0
    ensures InRange(req, regs)
    ensures Response(req, regs) == Seal([req[0], req[1], 0])
    ensures |Response(req, regs)| == 5
  {
    assert RegisterBytes(regs, RequestStart(req), 0) == [];
    assert [req[0], req[1], ByteCount(0)] + [] == [req[0], req[1], 0];
  }
}
