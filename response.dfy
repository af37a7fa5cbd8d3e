/**
 * Decoding of a slave's reply, as the master does once bytes have arrived in
 * its 16-byte receive buffer: check the CRC, then read the register value
 * (functions 3 and 4) or acknowledge a write (function 16).
 *
 * The result is a 32-bit signed integer that carries either a value or one
 * of two error codes: INT32_MIN (no reply, or a function the master does not
 * decode) and INT32_MIN + 1 (CRC mismatch).
 */
module Response {
  import Crc
  import Frame

  const Int32Min: int := -0x8000_0000

  /** Returned when no reply came, or when its function code is not decoded. */
  const NoValue: int := Int32Min

  /** Returned when the reply's trailer is not the CRC of its body. */
  const CrcError: int := Int32Min + 1

  /** Size of the receive buffer, which starts out zeroed. */
  const BufferSize: nat := 16

  /** The receive buffer after `bytes` were read into it. */
  function Fill(bytes: seq<bv8>): (bff: seq<bv8>)
    requires |bytes| <= BufferSize
    ensures |bff| == BufferSize && bff[..|bytes|] == bytes
    ensures forall i :: |bytes| <= i < BufferSize ==> bff[i] == 0
  {
    bytes + seq(BufferSize - |bytes|, _ => 0)
  }

  /** The check the master performs on the `lgt` bytes it read: CRC low byte, then high byte. */
  predicate CrcMatches(bff: seq<bv8>, lgt: nat)
    requires 2 <= lgt <= |bff|
  {
    var crc := Crc.Bitwise(bff[..lgt - 2]);
    Frame.Low(crc) == bff[lgt - 2] && Frame.High(crc) == bff[lgt - 1]
  }

  /** The check accepts exactly the sealed frames. */
  lemma CrcMatchesIffSealed(bff: seq<bv8>, lgt: nat)
    requires 2 <= lgt <= |bff|
    ensures CrcMatches(bff, lgt) <==> Frame.Sealed(bff[..lgt])
  {
    var f := bff[..lgt];
    assert f[..lgt - 2] == bff[..lgt - 2];
    assert f[lgt - 2..] == [bff[lgt - 2], bff[lgt - 1]];
  }

  /** Big-endian value of a byte string. */
  function BigEndian(s: seq<bv8>): nat
    decreases |s|
  {
    if s == [] then 0 else BigEndian(s[..|s| - 1]) * 0x100 + s[|s| - 1] as int
  }

  function Pow256(k: nat): (p: nat)
    ensures p >= 1
    decreases k
  {
    if k == 0 then 1 else 0x100 * Pow256(k - 1)
  }

  /** A big-endian value of `k` bytes is below 256^k. */
  lemma {:induction false} BigEndianBound(s: seq<bv8>)
    ensures BigEndian(s) < Pow256(|s|)
    decreases |s|
  {
    if s != [] {
      BigEndianBound(s[..|s| - 1]);
    }
  }

  /** The two data bytes of a value spell it modulo 2^16. */
  lemma BigEndianPair(value: int)
    ensures BigEndian([Frame.ValueHigh(value), Frame.ValueLow(value)]) == value % 0x1_0000
  {
    var s := [Frame.ValueHigh(value), Frame.ValueLow(value)];
    assert s[..1][..0] == [];
    assert s[..1] == [Frame.ValueHigh(value)];
    assert BigEndian(s[..1]) == Frame.ValueHigh(value) as int;
    assert BigEndian(s) == Frame.ValueHigh(value) as int * 0x100 + Frame.ValueLow(value) as int;
    Frame.ValueBytes(value);
  }

  /**
   * The master only handles replies whose data fits its 32-bit result: when
   * it would read register data, the byte count is at most 3 (its own notes
   * promise two bytes).
   */
  predicate Decodable(bff: seq<bv8>, lgt: nat)
    requires 2 <= lgt <= |bff| && |bff| == BufferSize
  {
    CrcMatches(bff, lgt) && (bff[1] == Frame.ReadHolding || bff[1] == Frame.ReadInput) ==> bff[2] <= 3
  }

  /** The result of decoding the first `lgt` bytes of the receive buffer. */
  function Decode(bff: seq<bv8>, lgt: nat): int
    requires 2 <= lgt <= |bff| && |bff| == BufferSize && Decodable(bff, lgt)
  {
    if !CrcMatches(bff, lgt) then CrcError
    else if bff[1] == Frame.ReadHolding || bff[1] == Frame.ReadInput then BigEndian(bff[3..3 + bff[2] as int])
    else if bff[1] == Frame.WriteMultiple then 1
    else NoValue
  }

  /** Decoding reports a CRC error exactly for unsealed input, and NoValue exactly for an unknown function. */
  lemma DecodeErrors(bff: seq<bv8>, lgt: nat)
    requires 2 <= lgt <= |bff| && |bff| == BufferSize && Decodable(bff, lgt)
    ensures Decode(bff, lgt) == CrcError <==> !Frame.Sealed(bff[..lgt])
    ensures Decode(bff, lgt) == NoValue <==> Frame.Sealed(bff[..lgt]) && bff[1] !in {Frame.ReadHolding, Frame.ReadInput, Frame.WriteMultiple}
    ensures Decode(bff, lgt) != CrcError && Decode(bff, lgt) != NoValue ==> 0 <= Decode(bff, lgt) < 0x100_0000
  {
    CrcMatchesIffSealed(bff, lgt);
    if CrcMatches(bff, lgt) && (bff[1] == Frame.ReadHolding || bff[1] == Frame.ReadInput) {
      var s := bff[3..3 + bff[2] as int];
      BigEndianBound(s);
      assert Pow256(|s|) <= 0x100_0000 by {
        assert Pow256(0) == 1 && Pow256(1) == 0x100 && Pow256(2) == 0x1_0000 && Pow256(3) == 0x100_0000;
      }
    }
  }

  /** A slave's reply to a one-register read decodes to the register's 16-bit value. */
  lemma DecodeReadResponse(id: bv8, code: bv8, register: int)
    requires code == Frame.ReadHolding || code == Frame.ReadInput
    ensures var bff := Fill(Frame.ReadResponse(id, code, register));
      Decodable(bff, 7) && Decode(bff, 7) == register % 0x1_0000
  {
    var body: seq<bv8> := [id, code, 2, Frame.ValueHigh(register), Frame.ValueLow(register)];
    var r := Frame.ReadResponse(id, code, register);
    Frame.SealedIff([], body);
    var bff := Fill(r);
    assert bff[..7] == r;
    CrcMatchesIffSealed(bff, 7);
    assert bff[3..5] == [Frame.ValueHigh(register), Frame.ValueLow(register)];
    BigEndianPair(register);
  }

  /** A slave's reply to a one-register write decodes to 1. */
  lemma DecodeWriteResponse(id: bv8, address: bv16)
    ensures var bff := Fill(Frame.WriteResponse(id, address));
      Decodable(bff, 8) && Decode(bff, 8) == 1
  {
    var body: seq<bv8> := [id, Frame.WriteMultiple, Frame.High(address), Frame.Low(address), 0, 1];
    var r := Frame.WriteResponse(id, address);
    Frame.SealedIff([], body);
    var bff := Fill(r);
    assert bff[..8] == r;
    CrcMatchesIffSealed(bff, 8);
  }

  /** A reply with one byte changed in transit decodes to a CRC error. */
  lemma CorruptedReplyIsCrcError(f: seq<bv8>, g: seq<bv8>, k: nat)
    requires 2 <= |f| <= BufferSize && Frame.Sealed(f)
    requires |g| == |f| && k < |f| && g[k] != f[k]
    requires forall i :: 0 <= i < |f| && i != k ==> g[i] == f[i]
    ensures Decodable(Fill(g), |g|) && Decode(Fill(g), |g|) == CrcError
  {
    Frame.SingleByteChangeBreaksSeal(f, g, k);
    CrcMatchesIffSealed(Fill(g), |g|);
  }

  /** The reply 01 03 02 00 64 B9 AF decodes to 100. */
  lemma ReplyVector()
    ensures Frame.ReadResponse(1, 3, 100) == [0x01, 0x03, 0x02, 0x00, 0x64, 0xB9, 0xAF]
    ensures Decode(Fill([0x01, 0x03, 0x02, 0x00, 0x64, 0xB9, 0xAF]), 7) == 100
  {
    Crc.ReadResponseVector();
    Frame.ByteOfValue(100);
    assert Frame.ValueHigh(100) == 0 && Frame.ValueLow(100) == 0x64;
    DecodeReadResponse(1, 3, 100);
  }

  /** The sum the master forms from the data bytes: each byte shifted into place. */
  method Assemble(bff: array<bv8>) returns (value: int)
    requires bff.Length == BufferSize && bff[2] <= 3
    ensures value == BigEndian(bff[3..3 + bff[2] as int])
  {
    var size := bff[2] as int;
    value := 0;
    var j := 0;
    while j < size
      invariant 0 <= j <= size
      invariant value == BigEndian(bff[3..3 + j]) * Pow256(size - j)
    {
      assert bff[3..3 + j + 1] == bff[3..3 + j] + [bff[3 + j]];
      AppendShifted(bff[3..3 + j], bff[3 + j], size - 1 - j);
      value := value + bff[3 + j] as int * Pow256(size - 1 - j);
      j := j + 1;
    }
  }

  /** Adding a byte below a shifted prefix is appending it to the prefix. */
  lemma AppendShifted(p: seq<bv8>, b: bv8, k: nat)
    ensures BigEndian(p) * Pow256(k + 1) + b as int * Pow256(k) == BigEndian(p + [b]) * Pow256(k)
  {
    assert (p + [b])[..|p|] == p;
    var a, q := BigEndian(p), Pow256(k);
    assert BigEndian(p + [b]) == a * 0x100 + b as int;
    assert Pow256(k + 1) == 0x100 * q;
    Distribute(a, b as int, q);
  }

  lemma Distribute(a: int, b: int, q: int)
    ensures a * (0x100 * q) + b * q == (a * 0x100 + b) * q
  {
    assert a * (0x100 * q) == (a * 0x100) * q;
  }

  /** The decoding step of the master's read, on the receive buffer itself. */
  method DecodeBuffer(bff: array<bv8>, lgt: nat) returns (value: int)
    requires bff.Length == BufferSize && 2 <= lgt <= BufferSize && Decodable(bff[..], lgt)
    ensures value == Decode(bff[..], lgt)
  {
    var crc := Crc.Compute(bff, lgt - 2);
    var last := lgt - 1;
    if Frame.Low(crc) == bff[last - 1] && Frame.High(crc) == bff[last] {
      value := NoValue;
      if bff[1] == Frame.ReadHolding || bff[1] == Frame.ReadInput {
        value := Assemble(bff);
        assert bff[3..3 + bff[2] as int] == bff[..][3..3 + bff[2] as int];
      } else if bff[1] == Frame.WriteMultiple {
        value := 1;
      }
    } else {
      value := CrcError;
    }
  }
}
