/** The console's glyph atlas: the 6x8 bitmap font, the clipped lookup
    from a character to its record, and the ASCII replacement step that
    `write` applies to a line before the lookup. */
module Font {

  /** A byte value (the source stores bytes as float32; only 0..255 occur). */
  type Byte = b: nat | b < 256

  /** Three bytes, as carried by one `vec3` vertex attribute. */
  datatype Triple = Triple(x: Byte, y: Byte, z: Byte)

  const Zero := Triple(0, 0, 0)

  /** One glyph: six bytes holding 48 bits, 6 pixels per glyph row,
      8 glyph rows, most significant bit first. */
  datatype Record = Record(b0: Byte, b1: Byte, b2: Byte, b3: Byte, b4: Byte, b5: Byte)
  {
    /** Bytes 0..2, the part stored in the `bytes_012` grid. */
    function Lo(): Triple { Triple(b0, b1, b2) }
    /** Bytes 3..5, the part stored in the `bytes_345` grid. */
    function Hi(): Triple { Triple(b3, b4, b5) }
  }

  const Blank := Record(0, 0, 0, 0, 0, 0)

  /** A table of `rows` rows of `cols` entries each: a byte grid of the
      screen or the layout's table of cell offsets. */
  predicate Shaped<T>(t: seq<seq<T>>, rows: nat, cols: nat)
  {
    |t| == rows && forall i :: 0 <= i < rows ==> |t[i]| == cols
  }

  /** Records of codes 32..47. */
  const Codes32To47: seq<Record> := [
    Record(0x00, 0x00, 0x00, 0x00, 0x00, 0x00),
    Record(0x10, 0xE3, 0x84, 0x10, 0x01, 0x00),
    Record(0x6D, 0xB4, 0x80, 0x00, 0x00, 0x00),
    Record(0x00, 0xA7, 0xCA, 0x29, 0xF2, 0x80),
    Record(0x20, 0xE4, 0x0C, 0x09, 0xC1, 0x00),
    Record(0x65, 0x90, 0x84, 0x21, 0x34, 0xC0),
    Record(0x21, 0x45, 0x08, 0x55, 0x23, 0x40),
    Record(0x30, 0xC2, 0x00, 0x00, 0x00, 0x00),
    Record(0x10, 0x82, 0x08, 0x20, 0x81, 0x00),
    Record(0x20, 0x41, 0x04, 0x10, 0x42, 0x00),
    Record(0x00, 0xA3, 0x9F, 0x38, 0xA0, 0x00),
    Record(0x00, 0x41, 0x1F, 0x10, 0x40, 0x00),
    Record(0x00, 0x00, 0x00, 0x00, 0xC3, 0x08),
    Record(0x00, 0x00, 0x1F, 0x00, 0x00, 0x00),
    Record(0x00, 0x00, 0x00, 0x00, 0xC3, 0x00),
    Record(0x00, 0x10, 0x84, 0x21, 0x00, 0x00)
  ]

  /** Records of codes 48..63. */
  const Codes48To63: seq<Record> := [
    Record(0x39, 0x14, 0xD5, 0x65, 0x13, 0x80),
    Record(0x10, 0xC1, 0x04, 0x10, 0x43, 0x80),
    Record(0x39, 0x10, 0x46, 0x21, 0x07, 0xC0),
    Record(0x39, 0x10, 0x4E, 0x05, 0x13, 0x80),
    Record(0x08, 0x62, 0x92, 0x7C, 0x20, 0x80),
    Record(0x7D, 0x04, 0x1E, 0x05, 0x13, 0x80),
    Record(0x18, 0x84, 0x1E, 0x45, 0x13, 0x80),
    Record(0x7C, 0x10, 0x84, 0x20, 0x82, 0x00),
    Record(0x39, 0x14, 0x4E, 0x45, 0x13, 0x80),
    Record(0x39, 0x14, 0x4F, 0x04, 0x23, 0x00),
    Record(0x00, 0x03, 0x0C, 0x00, 0xC3, 0x00),
    Record(0x00, 0x03, 0x0C, 0x00, 0xC3, 0x08),
    Record(0x08, 0x42, 0x10, 0x20, 0x40, 0x80),
    Record(0x00, 0x07, 0xC0, 0x01, 0xF0, 0x00),
    Record(0x20, 0x40, 0x81, 0x08, 0x42, 0x00),
    Record(0x39, 0x10, 0x46, 0x10, 0x01, 0x00)
  ]

  /** Records of codes 64..79. */
  const Codes64To79: seq<Record> := [
    Record(0x39, 0x15, 0xD5, 0x5D, 0x03, 0x80),
    Record(0x39, 0x14, 0x51, 0x7D, 0x14, 0x40),
    Record(0x79, 0x14, 0x5E, 0x45, 0x17, 0x80),
    Record(0x39, 0x14, 0x10, 0x41, 0x13, 0x80),
    Record(0x79, 0x14, 0x51, 0x45, 0x17, 0x80),
    Record(0x7D, 0x04, 0x1E, 0x41, 0x07, 0xC0),
    Record(0x7D, 0x04, 0x1E, 0x41, 0x04, 0x00),
    Record(0x39, 0x14, 0x17, 0x45, 0x13, 0xC0),
    Record(0x45, 0x14, 0x5F, 0x45, 0x14, 0x40),
    Record(0x38, 0x41, 0x04, 0x10, 0x43, 0x80),
    Record(0x04, 0x10, 0x41, 0x45, 0x13, 0x80),
    Record(0x45, 0x25, 0x18, 0x51, 0x24, 0x40),
    Record(0x41, 0x04, 0x10, 0x41, 0x07, 0xC0),
    Record(0x45, 0xB5, 0x51, 0x45, 0x14, 0x40),
    Record(0x45, 0x95, 0x53, 0x45, 0x14, 0x40),
    Record(0x39, 0x14, 0x51, 0x45, 0x13, 0x80)
  ]

  /** Records of codes 80..95. */
  const Codes80To95: seq<Record> := [
    Record(0x79, 0x14, 0x5E, 0x41, 0x04, 0x00),
    Record(0x39, 0x14, 0x51, 0x55, 0x23, 0x40),
    Record(0x79, 0x14, 0x5E, 0x49, 0x14, 0x40),
    Record(0x39, 0x14, 0x0E, 0x05, 0x13, 0x80),
    Record(0x7C, 0x41, 0x04, 0x10, 0x41, 0x00),
    Record(0x45, 0x14, 0x51, 0x45, 0x13, 0x80),
    Record(0x45, 0x14, 0x51, 0x44, 0xA1, 0x00),
    Record(0x45, 0x15, 0x55, 0x55, 0x52, 0x80),
    Record(0x45, 0x12, 0x84, 0x29, 0x14, 0x40),
    Record(0x45, 0x14, 0x4A, 0x10, 0x41, 0x00),
    Record(0x78, 0x21, 0x08, 0x41, 0x07, 0x80),
    Record(0x38, 0x82, 0x08, 0x20, 0x83, 0x80),
    Record(0x01, 0x02, 0x04, 0x08, 0x10, 0x00),
    Record(0x38, 0x20, 0x82, 0x08, 0x23, 0x80),
    Record(0x10, 0xA4, 0x40, 0x00, 0x00, 0x00),
    Record(0x00, 0x00, 0x00, 0x00, 0x00, 0x3F)
  ]

  /** Records of codes 96..111. */
  const Codes96To111: seq<Record> := [
    Record(0x30, 0xC1, 0x00, 0x00, 0x00, 0x00),
    Record(0x00, 0x03, 0x81, 0x3D, 0x13, 0xC0),
    Record(0x41, 0x07, 0x91, 0x45, 0x17, 0x80),
    Record(0x00, 0x03, 0x91, 0x41, 0x13, 0x80),
    Record(0x04, 0x13, 0xD1, 0x45, 0x13, 0xC0),
    Record(0x00, 0x03, 0x91, 0x79, 0x03, 0x80),
    Record(0x18, 0x82, 0x1E, 0x20, 0x82, 0x00),
    Record(0x00, 0x03, 0xD1, 0x44, 0xF0, 0x4E),
    Record(0x41, 0x07, 0x12, 0x49, 0x24, 0x80),
    Record(0x10, 0x01, 0x04, 0x10, 0x41, 0x80),
    Record(0x08, 0x01, 0x82, 0x08, 0x24, 0x8C),
    Record(0x41, 0x04, 0x94, 0x61, 0x44, 0x80),
    Record(0x10, 0x41, 0x04, 0x10, 0x41, 0x80),
    Record(0x00, 0x06, 0x95, 0x55, 0x14, 0x40),
    Record(0x00, 0x07, 0x12, 0x49, 0x24, 0x80),
    Record(0x00, 0x03, 0x91, 0x45, 0x13, 0x80)
  ]

  /** Records of codes 112..127. */
  const Codes112To127: seq<Record> := [
    Record(0x00, 0x07, 0x91, 0x45, 0x17, 0x90),
    Record(0x00, 0x03, 0xD1, 0x45, 0x13, 0xC1),
    Record(0x00, 0x05, 0x89, 0x20, 0x87, 0x00),
    Record(0x00, 0x03, 0x90, 0x38, 0x13, 0x80),
    Record(0x00, 0x87, 0x88, 0x20, 0xA1, 0x00),
    Record(0x00, 0x04, 0x92, 0x49, 0x62, 0x80),
    Record(0x00, 0x04, 0x51, 0x44, 0xA1, 0x00),
    Record(0x00, 0x04, 0x51, 0x55, 0xF2, 0x80),
    Record(0x00, 0x04, 0x92, 0x31, 0x24, 0x80),
    Record(0x00, 0x04, 0x92, 0x48, 0xE1, 0x18),
    Record(0x00, 0x07, 0x82, 0x31, 0x07, 0x80),
    Record(0x18, 0x82, 0x18, 0x20, 0x81, 0x80),
    Record(0x10, 0x41, 0x00, 0x10, 0x41, 0x00),
    Record(0x30, 0x20, 0x83, 0x08, 0x23, 0x00),
    Record(0x29, 0x40, 0x00, 0x00, 0x00, 0x00),
    Record(0x10, 0xE6, 0xD1, 0x45, 0xF0, 0x00)
  ]

  /** The font table; entry i is the glyph of character code i + 32. */
  const Glyphs: seq<Record> :=
    Codes32To47 + Codes48To63 + Codes64To79 + Codes80To95 + Codes96To111 + Codes112To127

  /** First and last character codes that own a record. */
  const FirstCode := 32
  const LastCode := 127

  lemma TableShape()
    ensures |Glyphs| == LastCode - FirstCode + 1 == 96
    ensures Glyphs[0] == Blank
    ensures Glyphs[95] != Blank
  {
  }

  /** The index `write` computes for a character: its code minus 32,
      clipped to the table. */
  function GlyphIndex(code: int): (i: nat)
    ensures i < |Glyphs|
    ensures FirstCode <= code <= LastCode ==> i == code - FirstCode
    ensures code < FirstCode ==> i == 0
    ensures LastCode < code ==> i == |Glyphs| - 1
  {
    var i := code - FirstCode;
    if i < 0 then 0 else if i > |Glyphs| - 1 then |Glyphs| - 1 else i
  }

  /** The record `write` stores for character `c`. */
  function Lookup(c: char): (r: Record)
    ensures r in Glyphs
    ensures FirstCode <= (c as int) <= LastCode ==> r == Glyphs[c as int - FirstCode]
  {
    Glyphs[GlyphIndex(c as int)]
  }

  /** Codes below the space (control characters) give the all-zero
      record, so their cell stays blank. */
  lemma ControlCharIsBlank(c: char)
    requires (c as int) < FirstCode
    ensures Lookup(c) == Blank
  {
  }

  /** The replacement character U+FFFD, and every other code above 127,
      gives the last record, the one of code 127. */
  lemma HighCodeIsLastGlyph(c: char)
    requires LastCode < (c as int)
    ensures Lookup(c) == Glyphs[LastCode - FirstCode] != Blank
  {
  }

  const Replacement: char := '\U{FFFD}'

  /** Number of bytes in the UTF-8 encoding of `c`. */
  function Utf8Length(c: char): (n: nat)
    ensures 1 <= n <= 4
    ensures n == 1 <==> (c as int) < 0x80
  {
    if (c as int) < 0x80 then 1
    else if (c as int) < 0x800 then 2
    else if (c as int) < 0x1_0000 then 3
    else 4
  }

  /** Encoding `c` to UTF-8 and decoding the bytes as ASCII with
      replacement: an ASCII character stays, any other becomes one U+FFFD
      per byte of its encoding. */
  function Replace(c: char): (t: string)
    ensures |t| == Utf8Length(c)
    ensures (c as int) < 0x80 ==> t == [c]
    ensures (c as int) >= 0x80 ==> forall j :: 0 <= j < |t| ==> t[j] == Replacement
  {
    if (c as int) < 0x80 then [c] else seq(Utf8Length(c), _ => Replacement)
  }

  /** The whole-line replacement step of `write`. */
  function AsciiReplace(s: string): (t: string)
    ensures |s| <= |t| <= 4 * |s|
    decreases |s|
  {
    if s == [] then [] else Replace(s[0]) + AsciiReplace(s[1..])
  }

  /** Every character after replacement is ASCII or U+FFFD. */
  predicate AsciiOrReplacement(t: string)
  {
    forall j :: 0 <= j < |t| ==> (t[j] as int) < 0x80 || t[j] == Replacement
  }

  predicate IsAscii(s: string)
  {
    forall j :: 0 <= j < |s| ==> (s[j] as int) < 0x80
  }

  lemma {:induction false} AsciiReplaceOutput(s: string)
    ensures AsciiOrReplacement(AsciiReplace(s))
    ensures |AsciiReplace(s)| >= |s|
    ensures |AsciiReplace(s)| == |s| <==> IsAscii(s)
    decreases |s|
  {
    if s != [] {
      AsciiReplaceOutput(s[1..]);
      var t := AsciiReplace(s);
      var h := Replace(s[0]);
      assert t == h + AsciiReplace(s[1..]);
      forall j | 0 <= j < |t|
        ensures (t[j] as int) < 0x80 || t[j] == Replacement
      {
        if j >= |h| {
          assert t[j] == AsciiReplace(s[1..])[j - |h|];
        }
      }
      if IsAscii(s) {
        assert IsAscii(s[1..]) by {
          forall j | 0 <= j < |s[1..]| ensures (s[1..][j] as int) < 0x80 {
            assert s[1..][j] == s[j + 1];
          }
        }
      }
      if |t| == |s| {
        assert |h| == 1;
        forall j | 0 <= j < |s| ensures (s[j] as int) < 0x80 {
          if j > 0 {
            assert s[j] == s[1..][j - 1];
          }
        }
      }
    }
  }

  /** An ASCII line passes the replacement step unchanged. */
  lemma {:induction false} AsciiUnchanged(s: string)
    requires IsAscii(s)
    ensures AsciiReplace(s) == s
    decreases |s|
  {
    if s != [] {
      assert IsAscii(s[1..]) by {
        forall j | 0 <= j < |s[1..]| ensures (s[1..][j] as int) < 0x80 {
          assert s[1..][j] == s[j + 1];
        }
      }
      AsciiUnchanged(s[1..]);
      assert s == [s[0]] + s[1..];
    }
  }

  /** Replacement works character by character, so it distributes over
      concatenation. */
  lemma {:induction false} AsciiReplaceAppend(a: string, b: string)
    ensures AsciiReplace(a + b) == AsciiReplace(a) + AsciiReplace(b)
    decreases |a|
  {
    if a == [] {
      assert a + b == b;
    } else {
      assert (a + b)[0] == a[0];
      assert (a + b)[1..] == a[1..] + b;
      AsciiReplaceAppend(a[1..], b);
    }
  }
}
