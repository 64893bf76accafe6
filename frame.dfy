/**
 * Framing shared by every T-Smart exchange: a frame is a fixed-size byte string
 * whose last byte is the XOR of all earlier bytes, XORed with 0x55. Multi-byte
 * fields are little-endian.
 */
module Frame {

  /** The constant folded into every checksum. */
  const ChecksumKey: bv8 := 0x55

  /** The `H` and `L` fields of the struct formats: unsigned 16 and 32 bits. */
  type U16 = bv16
  type U32 = bv32

  /** XOR of all bytes, accumulated from the first byte to the last. */
  function Xor(s: seq<bv8>): bv8
  {
    if s == [] then 0 else Xor(s[..|s| - 1]) ^ s[|s| - 1]
  }

  /** Replacing one byte changes the XOR by exactly the difference of the two bytes. */
  lemma {:induction false} XorUpdate(s: seq<bv8>, k: nat, v: bv8)
    requires k < |s|
    ensures Xor(s[k := v]) == Xor(s) ^ s[k] ^ v
  {
    var n := |s|;
    var t := s[k := v];
    if k == n - 1 {
      assert t[..n - 1] == s[..n - 1];
    } else {
      assert t[..n - 1] == s[..n - 1][k := v];
      XorUpdate(s[..n - 1], k, v);
    }
  }

  /** The trailer a frame with this body must carry. */
  function Checksum(body: seq<bv8>): bv8
  {
    Xor(body) ^ ChecksumKey
  }

  /** The last byte equals the XOR of all preceding bytes, XORed with 0x55. */
  predicate ChecksumHolds(frame: seq<bv8>)
  {
    |frame| > 0 && frame[|frame| - 1] == Checksum(frame[..|frame| - 1])
  }

  /** The frame with its last byte overwritten by the checksum of the others. */
  function WithChecksum(frame: seq<bv8>): (r: seq<bv8>)
    requires |frame| > 0
    ensures |r| == |frame|
    ensures r[..|r| - 1] == frame[..|frame| - 1]
    ensures ChecksumHolds(r)
  {
    frame[..|frame| - 1] + [Checksum(frame[..|frame| - 1])]
  }

  /** A frame whose checksum already holds is left as it is by checksum preparation. */
  lemma WithChecksumKeepsValidFrame(frame: seq<bv8>)
    requires ChecksumHolds(frame)
    ensures WithChecksum(frame) == frame
  {
    var n := |frame|;
    assert frame == frame[..n - 1] + [frame[n - 1]];
  }

  /**
   * The checksum detects every single-byte corruption: changing any one byte of a
   * frame whose checksum holds (the trailer included) makes the check fail.
   */
  lemma ChecksumDetectsSingleByteChange(frame: seq<bv8>, k: nat, v: bv8)
    requires ChecksumHolds(frame)
    requires k < |frame| && v != frame[k]
    ensures !ChecksumHolds(frame[k := v])
  {
    var n := |frame|;
    var g := frame[k := v];
    if k == n - 1 {
      assert g[..n - 1] == frame[..n - 1];
    } else {
      assert g[..n - 1] == frame[..n - 1][k := v];
      XorUpdate(frame[..n - 1], k, v);
    }
  }

  /** The broadcast discovery request, written out with its checksum already in place. */
  const DiscoveryRequest: seq<bv8> := [0x01, 0x00, 0x00, 0x01 ^ 0x55]

  /** The status request; its last byte is a placeholder that checksum preparation fills in. */
  const StatusRequest: seq<bv8> := [0xF1, 0x00, 0x00, 0x00]

  /** The hard-coded discovery request already obeys the checksum rule. */
  lemma DiscoveryRequestChecksummed()
    ensures DiscoveryRequest[3] == 0x54
    ensures ChecksumHolds(DiscoveryRequest)
    ensures WithChecksum(DiscoveryRequest) == DiscoveryRequest
  {
    var body := DiscoveryRequest[..3];
    assert body == [0x01, 0x00, 0x00];
    assert body[..2] == [0x01, 0x00];
    assert body[..2][..1] == [0x01];
    assert body[..2][..1][..0] == [];
    assert Xor(body[..2][..1]) == 0x01;
    assert Xor(body[..2]) == 0x01;
    assert Xor(body) == 0x01;
    WithChecksumKeepsValidFrame(DiscoveryRequest);
  }

  /** The accumulator loop over a received frame: XOR of all bytes. */
  method XorOf(s: seq<bv8>) returns (t: bv8)
    ensures t == Xor(s)
  {
    t := 0;
    for i := 0 to |s|
      invariant t == Xor(s[..i])
    {
      assert s[..i + 1][..i] == s[..i];
      t := t ^ s[i];
    }
    assert s[..|s|] == s;
  }

  /**
   * Checksum preparation of an outgoing request, done in place on the buffer:
   * the last byte becomes the checksum of the others, which stay as they were.
   */
  method PrepareChecksum(buffer: array<bv8>)
    requires buffer.Length > 0
    modifies buffer
    ensures buffer[..] == WithChecksum(old(buffer[..]))
  {
    var n := buffer.Length;
    var t: bv8 := 0;
    for i := 0 to n - 1
      invariant t == Xor(buffer[..i])
    {
      assert buffer[..i + 1][..i] == buffer[..i];
      t := t ^ buffer[i];
    }
    ghost var body := buffer[..n - 1];
    buffer[n - 1] := t ^ ChecksumKey;
    assert buffer[..n - 1] == body;
    assert buffer[..] == body + [t ^ ChecksumKey];
  }

  // ---- little-endian integers (the `=` byte order of struct, taken as little-endian) ----

  /** The low and high byte of a 16-bit value. */
  function Lo(v: U16): bv8
  {
    (v & 0xFF) as bv8
  }

  function Hi(v: U16): bv8
  {
    (v >> 8) as bv8
  }

  /** The 16-bit value whose low byte comes first. */
  function Word(lo: bv8, hi: bv8): U16
  {
    ((hi as U16) << 8) | (lo as U16)
  }

  /** The low and high half of a 32-bit value. */
  function Low16(v: U32): U16
  {
    (v & 0xFFFF) as U16
  }

  function High16(v: U32): U16
  {
    (v >> 16) as U16
  }

  /** The 32-bit value whose low half comes first. */
  function Long(lo: U16, hi: U16): U32
  {
    ((hi as U32) << 16) | (lo as U32)
  }

  /** The 16-bit field at offset `i`. */
  function U16At(s: seq<bv8>, i: nat): U16
    requires i + 2 <= |s|
  {
    Word(s[i], s[i + 1])
  }

  /** The 32-bit field at offset `i`. */
  function U32At(s: seq<bv8>, i: nat): U32
    requires i + 4 <= |s|
  {
    Long(U16At(s, i), U16At(s, i + 2))
  }

  /** Splitting a 16-bit value into its bytes and joining them again are inverse. */
  lemma WordBytes(v: U16, lo: bv8, hi: bv8)
    ensures Word(Lo(v), Hi(v)) == v
    ensures Lo(Word(lo, hi)) == lo && Hi(Word(lo, hi)) == hi
  {
  }

  /** Splitting a 32-bit value into its halves and joining them again are inverse. */
  lemma LongHalves(v: U32, lo: U16, hi: U16)
    ensures Long(Low16(v), High16(v)) == v
    ensures Low16(Long(lo, hi)) == lo && High16(Long(lo, hi)) == hi
  {
  }

  // ---- validation of a received frame ----

  /** Why a received frame is set aside, in the order the receive loops test it. */
  datatype Verdict = SelfEcho | WrongSize | ErrorResponse | UnexpectedType | ChecksumFailed | Valid

  /**
   * The receive-side guards for a reply to a request with opcode `opcode`: size,
   * error byte, opcode echo, checksum. The sub-command comparisons compare each byte
   * with itself, so they never fire and bytes 1 and 2 are not checked at all.
   */
  function Classify(data: seq<bv8>, opcode: bv8, size: nat): (v: Verdict)
    requires size >= 3
    ensures v != SelfEcho
    ensures v == Valid <==> |data| == size && data[0] != 0 && data[0] == opcode && ChecksumHolds(data)
    ensures v == WrongSize <==> |data| != size
    ensures v == ErrorResponse <==> |data| == size && data[0] == 0
    ensures v == UnexpectedType <==> |data| == size && data[0] != 0 && data[0] != opcode
    ensures v == ChecksumFailed <==> |data| == size && data[0] != 0 && data[0] == opcode && !ChecksumHolds(data)
  {
    if |data| != size then WrongSize
    else if data[0] == 0 then ErrorResponse
    else if data[0] != opcode || data[1] != data[1] || data[2] != data[2] then UnexpectedType
    else if Checksum(data[..|data| - 1]) != data[|data| - 1] then ChecksumFailed
    else Valid
  }
}
