/**
 * RTU frames: a slave id, a function code, a payload and the CRC-16 trailer,
 * low byte first. The master sends two kinds of request, both for a single
 * 16-bit register: a read (function 3 or 4) and a write (function 16, "write
 * multiple registers", with quantity 1 and byte count 2).
 */
module Frame {
  import Crc

  /** Function codes the master sends or decodes. */
  const ReadHolding: bv8 := 3
  const ReadInput: bv8 := 4
  const WriteMultiple: bv8 := 16

  /** Most significant byte of a 16-bit word. */
  function High(w: bv16): bv8
  {
    (w >> 8) as bv8
  }

  /** Least significant byte of a 16-bit word. */
  function Low(w: bv16): bv8
  {
    (w & 0xFF) as bv8
  }

  /** The word spelled by a big-endian byte pair. */
  function Word(hi: bv8, lo: bv8): bv16
  {
    (hi as bv16 << 8) | lo as bv16
  }

  lemma WordRoundTrip(w: bv16, hi: bv8, lo: bv8)
    ensures Word(High(w), Low(w)) == w
    ensures High(Word(hi, lo)) == hi && Low(Word(hi, lo)) == lo
  {
  }

  /** The CRC bytes of `body`, as they follow it on the wire. */
  function Trailer(body: seq<bv8>): (t: seq<bv8>)
    ensures |t| == 2
  {
    var crc := Crc.Bitwise(body);
    [Low(crc), High(crc)]
  }

  /** `frame` ends in the CRC of everything before the last two bytes. */
  predicate Sealed(frame: seq<bv8>)
  {
    |frame| >= 2 && frame[|frame| - 2..] == Trailer(frame[..|frame| - 2])
  }

  /** `body` followed by its CRC. */
  function Seal(body: seq<bv8>): seq<bv8>
  {
    body + Trailer(body)
  }

  /** A sealed frame is exactly its body with the trailer appended, and sealing always yields one. */
  lemma SealedIff(frame: seq<bv8>, body: seq<bv8>)
    ensures Sealed(frame) <==> |frame| >= 2 && frame == Seal(frame[..|frame| - 2])
    ensures Sealed(Seal(body)) && |Seal(body)| == |body| + 2 && Seal(body)[..|body|] == body
  {
    if |frame| >= 2 {
      assert frame == frame[..|frame| - 2] + frame[|frame| - 2..];
    }
    assert Seal(body)[..|body|] == body;
    assert Seal(body)[|body|..] == Trailer(body);
  }

  /** The trailer bytes, read back as a word, are the CRC of the body. */
  lemma TrailerIsCrc(body: seq<bv8>)
    ensures Word(Trailer(body)[1], Trailer(body)[0]) == Crc.Bitwise(body)
  {
    WordRoundTrip(Crc.Bitwise(body), 0, 0);
  }

  /** Read request: id, function, start address (big-endian), quantity 1 (big-endian), CRC. */
  function ReadRequest(id: bv8, code: bv8, address: bv16): seq<bv8>
  {
    Seal([id, code, High(address), Low(address), 0, 1])
  }

  /** The byte whose numeric value is `x`, counted up from zero. */
  function ByteOf(x: int): bv8
    requires 0 <= x < 0x100
    decreases x
  {
    if x == 0 then 0 else ByteOf(x - 1) + 1
  }

  lemma {:induction false} ByteOfValue(x: int)
    requires 0 <= x < 0x100
    ensures ByteOf(x) as int == x
    decreases x
  {
    if x != 0 {
      ByteOfValue(x - 1);
    }
  }

  /**
   * The two bytes of a 32-bit signed value that go on the wire: `value >> 8`
   * (an arithmetic shift, so a floor division) and `value & 0xFF`, each
   * stored in an unsigned byte, which keeps it modulo 256.
   */
  function HighValue(value: int): int
  {
    (value / 0x100) % 0x100
  }

  function ValueHigh(value: int): bv8
  {
    ByteOf(HighValue(value))
  }

  function ValueLow(value: int): bv8
  {
    ByteOf(value % 0x100)
  }

  /** The value modulo 2^16 splits into the two byte values. */
  lemma LowHalf(value: int)
    ensures value % 0x1_0000 == HighValue(value) * 0x100 + value % 0x100
  {
    var q, r := value / 0x100, value % 0x100;
    assert value == 0x1_0000 * (q / 0x100) + (0x100 * (q % 0x100) + r);
    DivModUnique(value, q / 0x100, 0x100 * (q % 0x100) + r);
  }

  lemma DivModUnique(x: int, d: int, m: int)
    requires x == 0x1_0000 * d + m && 0 <= m < 0x1_0000
    ensures x % 0x1_0000 == m
  {
  }

  /** Together the two bytes spell the value modulo 2^16, its two's-complement low half. */
  lemma ValueBytes(value: int)
    ensures ValueHigh(value) as int * 0x100 + ValueLow(value) as int == value % 0x1_0000
  {
    LowHalf(value);
    ByteOfValue(HighValue(value));
    ByteOfValue(value % 0x100);
  }

  /** Two values give the same pair of data bytes exactly when they agree in their low 16 bits. */
  lemma ValueBytesAgree(v: int, u: int)
    ensures (ValueHigh(v) == ValueHigh(u) && ValueLow(v) == ValueLow(u)) <==> v % 0x1_0000 == u % 0x1_0000
  {
    LowHalf(v);
    LowHalf(u);
    if v % 0x1_0000 == u % 0x1_0000 {
      PairUnique(HighValue(v), v % 0x100, HighValue(u), u % 0x100);
    }
    if ValueHigh(v) == ValueHigh(u) && ValueLow(v) == ValueLow(u) {
      ByteOfValue(HighValue(v));
      ByteOfValue(HighValue(u));
      ByteOfValue(v % 0x100);
      ByteOfValue(u % 0x100);
    }
  }

  /** A base-256 digit pair is determined by the number it spells. */
  lemma PairUnique(a: int, b: int, c: int, d: int)
    requires 0 <= b < 0x100 && 0 <= d < 0x100
    requires a * 0x100 + b == c * 0x100 + d
    ensures a == c && b == d
  {
  }

  /** Write request carrying the data bytes `hi`, `lo`: id, 16, address, quantity 1, byte count 2, data, CRC. */
  function WriteFrame(id: bv8, address: bv16, hi: bv8, lo: bv8): seq<bv8>
  {
    Seal([id, WriteMultiple, High(address), Low(address), 0, 1, 2, hi, lo])
  }

  /** The write request for a 32-bit signed `value`. */
  function WriteRequest(id: bv8, address: bv16, value: int): seq<bv8>
  {
    WriteFrame(id, address, ValueHigh(value), ValueLow(value))
  }

  /** Each field of a read request is where a slave will look for it. */
  lemma ReadRequestLayout(id: bv8, code: bv8, address: bv16)
    ensures var r := ReadRequest(id, code, address);
      |r| == 8 && r[0] == id && r[1] == code && Word(r[2], r[3]) == address
      && r[4] == 0 && r[5] == 1 && Sealed(r)
      && Word(r[7], r[6]) == Crc.Bitwise(r[..6])
  {
    var body: seq<bv8> := [id, code, High(address), Low(address), 0, 1];
    SealedIff([], body);
    TrailerIsCrc(body);
    WordRoundTrip(address, 0, 0);
  }

  /** Each field of a write frame is where a slave will look for it. */
  lemma WriteFrameLayout(id: bv8, address: bv16, hi: bv8, lo: bv8)
    ensures var w := WriteFrame(id, address, hi, lo);
      |w| == 11 && w[0] == id && w[1] == WriteMultiple && Word(w[2], w[3]) == address
      && w[4] == 0 && w[5] == 1 && w[6] == 2 && w[7] == hi && w[8] == lo
      && Sealed(w) && Word(w[10], w[9]) == Crc.Bitwise(w[..9])
  {
    var body: seq<bv8> := [id, WriteMultiple, High(address), Low(address), 0, 1, 2, hi, lo];
    SealedIff([], body);
    TrailerIsCrc(body);
    WordRoundTrip(address, 0, 0);
  }

  /** The data bytes of a write request spell the value modulo 2^16. */
  lemma WriteRequestLayout(id: bv8, address: bv16, value: int)
    ensures var w := WriteRequest(id, address, value);
      |w| == 11 && w[7] as int * 0x100 + w[8] as int == value % 0x1_0000
  {
    WriteFrameLayout(id, address, ValueHigh(value), ValueLow(value));
    ValueBytes(value);
  }

  /** A write frame determines its data bytes. */
  lemma WriteFrameInjective(id: bv8, address: bv16, hi: bv8, lo: bv8, hi': bv8, lo': bv8)
    ensures WriteFrame(id, address, hi, lo) == WriteFrame(id, address, hi', lo') <==> hi == hi' && lo == lo'
  {
    WriteFrameLayout(id, address, hi, lo);
    WriteFrameLayout(id, address, hi', lo');
  }

  /** Two write requests are the same frame exactly when the values agree in their low 16 bits. */
  lemma WriteKeepsLowHalf(id: bv8, address: bv16, v: int, u: int)
    ensures WriteRequest(id, address, v) == WriteRequest(id, address, u) <==> v % 0x1_0000 == u % 0x1_0000
  {
    WriteFrameInjective(id, address, ValueHigh(v), ValueLow(v), ValueHigh(u), ValueLow(u));
    ValueBytesAgree(v, u);
  }

  /** Writes the CRC of the first `n` bytes of `pck` into its last two bytes, low byte first. */
  method AppendCrc(pck: array<bv8>, n: nat)
    requires pck.Length == n + 2
    modifies pck
    ensures pck[..] == Seal(old(pck[..n]))
  {
    ghost var body := pck[..n];
    var crc := Crc.Compute(pck, n);
    pck[n] := Low(crc);
    pck[n + 1] := High(crc);
    assert pck[..] == body + [Low(crc), High(crc)];
  }

  /** Fills the eight bytes of a read request in place, as the driver does before sending. */
  method BuildReadRequest(id: bv8, code: bv8, address: bv16) returns (pck: array<bv8>)
    ensures pck.Length == 8 && pck[..] == ReadRequest(id, code, address)
  {
    pck := new bv8[8](_ => 0);
    pck[0] := id;
    pck[1] := code;
    pck[2] := High(address);
    pck[3] := Low(address);
    pck[4] := 0;
    pck[5] := 1;
    assert pck[..6] == [id, code, High(address), Low(address), 0, 1];
    AppendCrc(pck, 6);
  }

  /** Fills the eleven bytes of a write request with data bytes `hi`, `lo`, in place. */
  method BuildWriteRequest(id: bv8, address: bv16, hi: bv8, lo: bv8) returns (pck: array<bv8>)
    ensures pck.Length == 11 && pck[..] == WriteFrame(id, address, hi, lo)
  {
    pck := new bv8[11](_ => 0);
    pck[0] := id;
    pck[1] := WriteMultiple;
    pck[2] := High(address);
    pck[3] := Low(address);
    pck[4] := 0;
    pck[5] := 1;
    pck[6] := 2;
    pck[7] := hi;
    pck[8] := lo;
    assert pck[..9] == [id, WriteMultiple, High(address), Low(address), 0, 1, 2, hi, lo];
    AppendCrc(pck, 9);
  }

  /** The answer of a slave to a one-register read: id, function, byte count 2, the register's 16 bits, CRC. */
  function ReadResponse(id: bv8, code: bv8, register: int): seq<bv8>
  {
    Seal([id, code, 2, ValueHigh(register), ValueLow(register)])
  }

  /** The answer of a slave to a one-register write: the request's first six bytes, CRC. */
  function WriteResponse(id: bv8, address: bv16): seq<bv8>
  {
    Seal([id, WriteMultiple, High(address), Low(address), 0, 1])
  }

  /** Any change of a single byte of a sealed frame breaks its seal. */
  lemma SingleByteChangeBreaksSeal(f: seq<bv8>, g: seq<bv8>, k: nat)
    requires Sealed(f) && |g| == |f| && k < |f| && g[k] != f[k]
    requires forall i :: 0 <= i < |f| && i != k ==> g[i] == f[i]
    ensures !Sealed(g)
  {
    var n := |f| - 2;
    if k < n {
      BodyChangeBreaksSeal(f, g, k);
    } else {
      assert g[..n] == f[..n];
      assert g[n..][k - n] != f[n..][k - n];
    }
  }

  /** A change inside the body changes the CRC the trailer must carry, and the trailer stayed. */
  lemma BodyChangeBreaksSeal(f: seq<bv8>, g: seq<bv8>, k: nat)
    requires Sealed(f) && |g| == |f| && k < |f| - 2 && g[k] != f[k]
    requires forall i :: 0 <= i < |f| && i != k ==> g[i] == f[i]
    ensures !Sealed(g)
  {
    var n := |f| - 2;
    Crc.SingleByteChangeDetected(f[..n], g[..n], k);
    TrailerIsCrc(f[..n]);
    TrailerIsCrc(g[..n]);
    assert g[n..] == f[n..];
  }
}
