/** Fixed-width big-endian numbers: `to_be_bytes`, `put_u32` and their inverses. */
module BigEndian {
  import opened Basics

  /** 256 to the power of width. */
  function Range(width: nat): nat {
    if width == 0 then 1 else 256 * Range(width - 1)
  }

  /** The low `width` bytes of n. */
  function ToBytes(n: nat, width: nat): (bytes: Bytes)
    ensures |bytes| == width
  {
    if width == 0 then [] else ToBytes(n / 256, width - 1) + [n % 256]
  }

  function FromBytes(bytes: Bytes): nat {
    if bytes == [] then 0 else 256 * FromBytes(bytes[..|bytes| - 1]) + bytes[|bytes| - 1]
  }

  lemma {:induction false} FromTo(n: nat, width: nat)
    requires n < Range(width)
    ensures FromBytes(ToBytes(n, width)) == n
    decreases width
  {
    if width > 0 {
      FromTo(n / 256, width - 1);
      var bytes := ToBytes(n, width);
      assert bytes[..|bytes| - 1] == ToBytes(n / 256, width - 1);
    }
  }

  lemma {:induction false} ToFrom(bytes: Bytes)
    ensures ToBytes(FromBytes(bytes), |bytes|) == bytes && FromBytes(bytes) < Range(|bytes|)
    decreases |bytes|
  {
    if bytes != [] {
      var front, last := bytes[..|bytes| - 1], bytes[|bytes| - 1];
      ToFrom(front);
      var n := FromBytes(bytes);
      assert n / 256 == FromBytes(front) && n % 256 == last;
      assert bytes == front + [last];
    }
  }

  lemma Widths()
    ensures Range(2) == 0x1_0000 && Range(4) == 0x1_0000_0000
  {
    assert Range(2) == 256 * (256 * Range(0));
    assert Range(4) == 256 * (256 * Range(2));
  }

  function ReadU16(bytes: Bytes): u16
    requires |bytes| == 2
  {
    Widths();
    ToFrom(bytes);
    FromBytes(bytes)
  }

  function ReadU32(bytes: Bytes): u32
    requires |bytes| == 4
  {
    Widths();
    ToFrom(bytes);
    FromBytes(bytes)
  }

  /** The most significant byte comes first. */
  lemma MostSignificantFirst(a: byte, b: byte, c: byte, d: byte)
    ensures ReadU16([a, b]) == 256 * a + b
    ensures ReadU32([a, b, c, d]) == 0x1_00_0000 * a + 0x1_0000 * b + 256 * c + d
  {
    assert [a, b][..1] == [a] && [a][..0] == [];
    assert [a, b, c, d][..3] == [a, b, c] && [a, b, c][..2] == [a, b];
    assert FromBytes([a]) == a;
    assert FromBytes([a, b]) == 256 * a + b;
    assert FromBytes([a, b, c]) == 256 * FromBytes([a, b]) + c;
  }
}
