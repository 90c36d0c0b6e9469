/** Machine-level value types and the byte-stream reader shared by the decoders. */
module Common {

  datatype Option<+T> = None | Some(value: T)

  /** An unsigned 8-bit sample (CARD8). */
  type Byte = x: int | 0 <= x < 0x100
  /** An unsigned 16-bit word (CARD16). */
  type U16 = x: int | 0 <= x < 0x1_0000
  /** An unsigned 32-bit word (CARD32, unsigned int). */
  type U32 = x: int | 0 <= x < 0x1_0000_0000

  /** Byte `i` of `s`; a read outside `s` (memory the C code never filled) gives 0. */
  function ByteAt(s: seq<Byte>, i: int): (b: Byte)
    ensures 0 <= i < |s| ==> b == s[i]
  {
    if 0 <= i < |s| then s[i] else 0
  }

  function Pow2(k: nat): (p: nat)
    ensures p >= 1
  {
    if k == 0 then 1 else 2 * Pow2(k - 1)
  }

  /** Bit `k` (0 = least significant) of `b`. */
  predicate BitSet(b: nat, k: nat)
  {
    (b / Pow2(k)) % 2 == 1
  }

  /** Little-endian 16-bit word at offset `i`. */
  function Le16(s: seq<Byte>, i: nat): U16
    requires i + 2 <= |s|
  {
    s[i] as int + 0x100 * s[i + 1] as int
  }

  /** Little-endian 32-bit word at offset `i`. */
  function Le32(s: seq<Byte>, i: nat): U32
    requires i + 4 <= |s|
  {
    s[i] as int + 0x100 * s[i + 1] as int + 0x1_0000 * s[i + 2] as int + 0x100_0000 * s[i + 3] as int
  }

  /** The signed value of a 32-bit word read as two's complement (`(long)` on a 32-bit host). */
  function Signed32(u: U32): (v: int)
    ensures (v < 0) == (u >= 0x8000_0000)
    ensures -0x8000_0000 <= v < 0x8000_0000
  {
    if u < 0x8000_0000 then u else u - 0x1_0000_0000
  }

  /**
   * A FILE opened for binary reading: its bytes and the current position.
   * `fread` returns what is left up to the requested count; `fseek` may move past the end.
   */
  datatype Stream = Stream(data: seq<Byte>, pos: nat)
  {
    /** fread(buf, 1, n, fp): the bytes obtained and the stream afterwards. */
    function Read(n: nat): (r: (seq<Byte>, Stream))
      ensures |r.0| <= n
      ensures r.1.data == data
      ensures r.1.pos == pos + |r.0|
      ensures pos + n <= |data| ==> r.0 == data[pos..pos + n]
      ensures |r.0| < n ==> r.1.pos >= |data|
      ensures n > 0 && |r.0| == n ==> pos + n <= |data|
    {
      if pos >= |data| then ([], this)
      else if pos + n <= |data| then (data[pos..pos + n], Stream(data, pos + n))
      else (data[pos..], Stream(data, |data|))
    }

    /** fseek(fp, p, SEEK_SET). */
    function Seek(p: nat): (r: Stream)
      ensures r.data == data && r.pos == p
    {
      Stream(data, p)
    }
  }

  /** Reads `count` little-endian 32-bit words; the number of whole words obtained (bmp_read32). */
  function ReadWords32(s: Stream, count: nat): (r: (seq<U32>, Stream))
    ensures |r.0| <= count
    ensures r.1.data == s.data
    ensures s.pos + 4 * count <= |s.data| ==> |r.0| == count && r.1.pos == s.pos + 4 * count
    ensures count > 0 && |r.0| == count ==> s.pos + 4 * count <= |s.data|
  {
    var (bytes, s') := s.Read(4 * count);
    (seq(|bytes| / 4, (k: int) requires 0 <= k < |bytes| / 4 => Le32(bytes, 4 * k)), s')
  }

  /** Reads `count` little-endian 16-bit words; the number of whole words obtained (bmp_read16). */
  function ReadWords16(s: Stream, count: nat): (r: (seq<U16>, Stream))
    ensures |r.0| <= count
    ensures r.1.data == s.data
    ensures s.pos + 2 * count <= |s.data| ==> |r.0| == count && r.1.pos == s.pos + 2 * count
    ensures count > 0 && |r.0| == count ==> s.pos + 2 * count <= |s.data|
  {
    var (bytes, s') := s.Read(2 * count);
    (seq(|bytes| / 2, (k: int) requires 0 <= k < |bytes| / 2 => Le16(bytes, 2 * k)), s')
  }

  lemma MulMono(a: nat, b: nat, k: nat)
    requires a <= b
    ensures a * k <= b * k
  {
  }

  lemma MulSucc(a: nat, k: nat)
    ensures (a + 1) * k == a * k + k
  {
  }
}
