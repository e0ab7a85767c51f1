/** Java's "modified UTF-8", the byte form `DataOutput.writeUTF` writes and
    `DataInput.readUTF` reads: one encoding per UTF-16 code unit, where
    U+0001..U+007F take one byte, U+0000 and U+0080..U+07FF two, and every other
    code unit (surrogates included, each on its own) three. */
module ModifiedUtf8 {
  import opened JavaTypes

  /** The number of bytes one code unit takes. */
  function CharSize(c: Char16): nat {
    if 1 <= c <= 0x7F then 1 else if c <= 0x7FF then 2 else 3
  }

  /** The byte count `writeUTF` computes before writing (its `utflen`). */
  function EncodedLength(s: JString): nat {
    if s == [] then 0 else CharSize(s[0]) + EncodedLength(s[1..])
  }

  /** Every code unit takes one to three bytes. */
  lemma {:induction false} EncodedLengthBounds(s: JString)
    ensures |s| <= EncodedLength(s) <= 3 * |s|
  {
    if s != [] {
      EncodedLengthBounds(s[1..]);
    }
  }

  /** Only code units U+0001..U+007F. */
  predicate IsPlainAscii(s: JString) {
    forall i :: 0 <= i < |s| ==> 1 <= s[i] <= 0x7F
  }

  /** Plain ASCII takes one byte per code unit. */
  lemma {:induction false} AsciiEncodedLength(s: JString)
    requires IsPlainAscii(s)
    ensures EncodedLength(s) == |s|
  {
    if s != [] {
      assert IsPlainAscii(s[1..]) by {
        forall i | 0 <= i < |s| - 1 ensures 1 <= s[1..][i] <= 0x7F {
          assert s[1..][i] == s[i + 1];
        }
      }
      AsciiEncodedLength(s[1..]);
    }
  }

  /** The bytes of one code unit. */
  function EncodeChar(c: Char16): (r: seq<Byte>)
    ensures |r| == CharSize(c)
  {
    var v := c as int;
    if 1 <= v <= 0x7F then [v as Byte]
    else if v <= 0x7FF then [(0xC0 + v / 64) as Byte, (0x80 + v % 64) as Byte]
    else [(0xE0 + v / 4096) as Byte, (0x80 + (v / 64) % 64) as Byte, (0x80 + v % 64) as Byte]
  }

  /** The bytes `writeUTF` puts after its length prefix. */
  function Encode(s: JString): (r: seq<Byte>)
    ensures |r| == EncodedLength(s)
  {
    if s == [] then [] else EncodeChar(s[0]) + Encode(s[1..])
  }

  /** A continuation byte has the bit pattern 10xxxxxx. */
  predicate IsContinuation(b: Byte) { 0x80 <= b < 0xC0 }

  function Prepend(c: Char16, rest: Option<JString>): Option<JString> {
    if rest.None? then None else Some([c] + rest.value)
  }

  /** One code unit and the number of bytes it took, from the front of `bs`; `None`
      for a lead byte 10xxxxxx or 1111xxxx, a missing or malformed continuation byte,
      or a character cut off at the end. Like the JDK it accepts overlong two- and
      three-byte forms. */
  function DecodeChar(bs: seq<Byte>): (r: Option<(Char16, nat)>)
    requires bs != []
    ensures r.Some? ==> 1 <= r.value.1 <= |bs|
  {
    var b := bs[0] as int;
    if b < 0x80 then Some((b as Char16, 1))
    else if 0xC0 <= b < 0xE0 then
      if |bs| < 2 || !IsContinuation(bs[1]) then None
      else Some((((b - 0xC0) * 64 + (bs[1] as int - 0x80)) as Char16, 2))
    else if 0xE0 <= b < 0xF0 then
      if |bs| < 3 || !IsContinuation(bs[1]) || !IsContinuation(bs[2]) then None
      else Some((((b - 0xE0) * 4096 + (bs[1] as int - 0x80) * 64 + (bs[2] as int - 0x80)) as Char16, 3))
    else None
  }

  /** What `readUTF` makes of the bytes after its length prefix; `None` is its
      UTFDataFormatException. */
  function Decode(bs: seq<Byte>): (r: Option<JString>)
    ensures r.Some? ==> |r.value| <= |bs|
    decreases |bs|, 1
  {
    if bs == [] then Some([]) else DecodeStep(bs)
  }

  /** The first code unit of a non-empty `bs`, then the rest. */
  function DecodeStep(bs: seq<Byte>): (r: Option<JString>)
    requires bs != []
    decreases |bs|, 0
  {
    match DecodeChar(bs)
    case None => None
    case Some((c, width)) => Prepend(c, Decode(bs[width..]))
  }

  /** The bytes of one code unit decode to that code unit and take its size, whatever
      follows. */
  lemma DecodeEncodeChar(c: Char16, rest: seq<Byte>)
    ensures DecodeChar(EncodeChar(c) + rest) == Some((c, CharSize(c)))
  {
    var v := c as int;
    var bs := EncodeChar(c) + rest;
    if 1 <= v <= 0x7F {
    } else if v <= 0x7FF {
      var q, r := v / 64, v % 64;
      assert 0 <= q < 32 && v == q * 64 + r;
      assert bs[0] as int == 0xC0 + q && bs[1] as int == 0x80 + r;
    } else {
      var h, m, l := v / 4096, (v / 64) % 64, v % 64;
      assert 0 <= h < 16 && v == h * 4096 + m * 64 + l;
      assert bs[0] as int == 0xE0 + h && bs[1] as int == 0x80 + m && bs[2] as int == 0x80 + l;
    }
  }

  /** `readUTF` undoes `writeUTF`'s encoding for every string. */
  lemma {:induction false} DecodeEncode(s: JString)
    ensures Decode(Encode(s)) == Some(s)
  {
    if s != [] {
      var first := EncodeChar(s[0]);
      var bs := first + Encode(s[1..]);
      DecodeEncodeChar(s[0], Encode(s[1..]));
      assert bs[|first|..] == Encode(s[1..]);
      DecodeEncode(s[1..]);
      assert [s[0]] + s[1..] == s;
    }
  }
}
