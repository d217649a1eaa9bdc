/**
  Byte-level vocabulary of the DNS wire format used by the question reader:
  the label descriptor byte of section 4.1.4 of RFC 1035, the 14-bit
  compression pointer offset, big-endian 16-bit fields and ASCII case folding.
 */
module Wire {

  /** An unsigned 8-bit value, as Rust's `u8`. */
  type byte = x: int | 0 <= x < 0x100

  /** An unsigned 16-bit value, as Rust's `u16`. */
  type u16 = x: int | 0 <= x < 0x1_0000

  /** The two tag bits of a descriptor byte, `len >> 6`, read off by range. */
  function Tag(b: byte): (t: nat)
    ensures t < 4
  {
    if b >= 0xC0 then 3 else if b >= 0x80 then 2 else if b >= 0x40 then 1 else 0
  }

  /** `is_pointer`: a descriptor byte is a compression pointer iff its tag bits are `11`. */
  predicate IsPointer(b: byte)
  {
    Tag(b) == 3
  }

  /** `mask_len`: the six bits below the tag, whatever the tag bits are. */
  function MaskLen(b: byte): (n: nat)
    ensures n <= 63
  {
    b - 64 * Tag(b)
  }

  /**
    Section 4.1.4 of RFC 1035 in numbers: the tag is `len >> 6`, the length
    is `len & 0b0011_1111`, and the pointers are exactly the bytes from 0xC0 up.
   */
  lemma DescriptorClassification(b: byte)
    ensures Tag(b) == b / 64
    ensures MaskLen(b) == b % 64
    ensures IsPointer(b) <==> b >= 0xC0
  {
  }

  /** The absolute offset a pointer `hi lo` refers to: `(mask_len(hi) << 8) + lo`. */
  function Target(hi: byte, lo: byte): (t: nat)
    ensures t < 0x4000
  {
    MaskLen(hi) * 256 + lo
  }

  /** The pointer offset is the 14 bits that follow the `11` tag of the two pointer bytes. */
  lemma TargetIsLow14Bits(hi: byte, lo: byte)
    ensures Target(hi, lo) == BigEndian16(hi, lo) % 0x4000
    ensures IsPointer(hi) ==> Target(hi, lo) == BigEndian16(hi, lo) - 0xC000
  {
    DescriptorClassification(hi);
    var q, r := hi / 64, hi % 64;
    assert hi * 256 + lo == q * 0x4000 + (r * 256 + lo);
    assert 0 <= r * 256 + lo < 0x4000;
  }

  /** `u16::from_be_bytes([b0, b1])`. */
  function BigEndian16(b0: byte, b1: byte): (v: u16)
    ensures v / 256 == b0 && v % 256 == b1
  {
    b0 * 256 + b1
  }

  /** `u16::to_be_bytes(v)`: the two wire bytes of a 16-bit field, high byte first. */
  function U16Bytes(v: u16): (bs: seq<byte>)
    ensures |bs| == 2
  {
    [v / 256, v % 256]
  }

  lemma BigEndianRoundTrip(v: u16)
    ensures BigEndian16(U16Bytes(v)[0], U16Bytes(v)[1]) == v
  {
  }

  lemma BigEndianBytesRoundTrip(b0: byte, b1: byte)
    ensures U16Bytes(BigEndian16(b0, b1)) == [b0, b1]
  {
  }

  /** `u8::to_ascii_lowercase`. */
  function ToLower(c: byte): (l: byte)
    ensures !(0x41 <= l <= 0x5A)
    ensures l == c || (0x41 <= c <= 0x5A && l == c + 0x20)
  {
    if 0x41 <= c <= 0x5A then c + 0x20 else c
  }

  /** The ASCII code of `.`, the label separator of the dotted text form. */
  const Dot: byte := 0x2E

  /** `<[u8]>::eq_ignore_ascii_case`: equal lengths and equal bytes after folding to lower case. */
  predicate EqIgnoreCase(a: seq<byte>, b: seq<byte>)
  {
    |a| == |b| && forall k :: 0 <= k < |a| ==> ToLower(a[k]) == ToLower(b[k])
  }

  /** Folding never makes another byte match `.`: the separator must be written literally. */
  lemma DotFoldsOnlyFromDot(c: byte)
    ensures ToLower(c) == ToLower(Dot) <==> c == Dot
  {
  }

  /** Case-insensitive comparison splits along a concatenation of its left operand. */
  lemma EqIgnoreCaseSplit(a: seq<byte>, c: seq<byte>, b: seq<byte>)
    ensures EqIgnoreCase(a + c, b) <==> |a| <= |b| && EqIgnoreCase(a, b[..|a|]) && EqIgnoreCase(c, b[|a|..])
  {
    if EqIgnoreCase(a + c, b) {
      forall k | 0 <= k < |c|
        ensures ToLower(c[k]) == ToLower(b[|a|..][k])
      {
        assert (a + c)[|a| + k] == c[k];
      }
      forall k | 0 <= k < |a|
        ensures ToLower(a[k]) == ToLower(b[..|a|][k])
      {
        assert (a + c)[k] == a[k];
      }
    }
    if |a| <= |b| && EqIgnoreCase(a, b[..|a|]) && EqIgnoreCase(c, b[|a|..]) {
      forall k | 0 <= k < |a + c|
        ensures ToLower((a + c)[k]) == ToLower(b[k])
      {
        if k < |a| {
          assert b[..|a|][k] == b[k];
        } else {
          assert b[|a|..][k - |a|] == b[k];
        }
      }
    }
  }
}
