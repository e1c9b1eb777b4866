/** int_to_rgb of core/extract_font_color.py (copies in pipeline.py,
    ocr_my_pdf.py, fill_missing_rows.py and detect_bbox.py): a PyMuPDF colour
    integer unpacked into `[r, g, b, a]`. Python integers are unbounded; a
    negative value is first masked to its low 32 bits, which is Dafny's
    Euclidean `% 2^32`, and shifting a non-negative value right by n bits is
    division by 2^n. */
module FontColor {

  const Two32 := 0x1_0000_0000

  /** The 8 bits of `v` starting at bit 24, 16, 8 or 0 (`(v >> n) & 0xFF`). */
  function Byte3(v: nat): int { (v / 0x100_0000) % 0x100 }
  function Byte2(v: nat): int { (v / 0x1_0000) % 0x100 }
  function Byte1(v: nat): int { (v / 0x100) % 0x100 }
  function Byte0(v: nat): int { v % 0x100 }

  /** int_to_rgb. Four components, each in 0..255, and an alpha that is
      never 0. */
  function IntToRgb(colorInt: int): (rgba: seq<int>)
    ensures |rgba| == 4
    ensures forall k :: 0 <= k < 4 ==> 0 <= rgba[k] <= 255
    ensures rgba[3] != 0
  {
    var v: nat := if colorInt < 0 then colorInt % Two32 else colorInt;
    var a := Byte3(v);
    var r := Byte2(v);
    var g := Byte1(v);
    var b := Byte0(v);
    [r, g, b, if a == 0 then 255 else a]
  }

  /** Euclidean division is unique. */
  lemma DivUnique(a: int, d: int, q: int, m: int)
    requires d > 0 && 0 <= m < d && a == q * d + m
    ensures a / d == q && a % d == m
  {
    var q', m' := a / d, a % d;
    assert a == q' * d + m';
    assert (q' - q) * d == m - m';
    if q' > q {
      MulAtLeast(q' - q, d);
    } else if q' < q {
      MulAtLeast(q - q', d);
    }
  }

  lemma MulAtLeast(x: int, d: int)
    requires x >= 1 && d > 0
    ensures x * d >= d
  {
  }

  /** Adding a multiple of 256 does not change the low byte. */
  lemma ModAddMultiple(k: int, x: int)
    ensures (k * 256 + x) % 256 == x % 256
  {
    assert x == (x / 256) * 256 + x % 256;
    DivUnique(k * 256 + x, 256, k + x / 256, x % 256);
  }

  /** The byte at `d` (a power of 256 below 2^32) of a non-negative value
      equals that of its low 32 bits. */
  lemma ByteOfLow32(v: nat, d: int, e: int)
    requires d > 0 && e > 0 && e * 256 * d == Two32
    ensures (v / d) % 256 == ((v % Two32) / d) % 256
  {
    var q, m := v / Two32, v % Two32;
    assert v == q * Two32 + m;
    assert m == (m / d) * d + m % d;
    assert q * Two32 == (q * e * 256) * d;
    DivUnique(v, d, q * e * 256 + m / d, m % d);
    ModAddMultiple(q * e, m / d);
  }

  lemma BytesOfLow32(v: nat)
    ensures Byte3(v) == Byte3(v % Two32) && Byte2(v) == Byte2(v % Two32)
    ensures Byte1(v) == Byte1(v % Two32) && Byte0(v) == Byte0(v % Two32)
  {
    ByteOfLow32(v, 0x100_0000, 1);
    ByteOfLow32(v, 0x1_0000, 0x100);
    ByteOfLow32(v, 0x100, 0x1_0000);
    ByteOfLow32(v, 1, 0x100_0000);
  }

  /** The colour depends only on the input modulo 2^32. */
  lemma Low32Only(c: int, d: int)
    requires c % Two32 == d % Two32
    ensures IntToRgb(c) == IntToRgb(d)
  {
    if c >= 0 { BytesOfLow32(c); }
    if d >= 0 { BytesOfLow32(d); }
  }

  /** The colour integer of the given components. */
  function Pack(r: int, g: int, b: int, a: int): int {
    a * 0x100_0000 + r * 0x1_0000 + g * 0x100 + b
  }

  /** Unpacking a packed colour gives its components back, except that a
      zero alpha reads as 255. */
  lemma PackRoundTrip(r: int, g: int, b: int, a: int)
    requires 0 <= r <= 255 && 0 <= g <= 255 && 0 <= b <= 255 && 0 <= a <= 255
    ensures IntToRgb(Pack(r, g, b, a)) == [r, g, b, if a == 0 then 255 else a]
  {
    var v := Pack(r, g, b, a);
    DivUnique(v, 0x100_0000, a, r * 0x1_0000 + g * 0x100 + b);
    DivUnique(a, 0x100, 0, a);
    DivUnique(v, 0x1_0000, a * 0x100 + r, g * 0x100 + b);
    DivUnique(a * 0x100 + r, 0x100, a, r);
    DivUnique(v, 0x100, a * 0x1_0000 + r * 0x100 + g, b);
    DivUnique(a * 0x1_0000 + r * 0x100 + g, 0x100, a * 0x100 + r, g);
  }
}
