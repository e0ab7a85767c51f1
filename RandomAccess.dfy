/** The part of `java.io.RandomAccessFile` the product programs use, over an
    in-memory file: a byte sequence and a file pointer. `writeUTF` and `readUTF` use a
    two-byte big-endian byte count followed by modified UTF-8; `writeDouble` and
    `readDouble` use eight big-endian bytes. */
module RandomAccess {
  import opened JavaTypes
  import ModifiedUtf8

  function Pow256(k: nat): (r: nat)
    ensures r >= 1
  {
    if k == 0 then 1 else 256 * Pow256(k - 1)
  }

  /** `v` as `width` bytes, most significant first. */
  function BigEndian(v: nat, width: nat): (r: seq<Byte>)
    requires v < Pow256(width)
    ensures |r| == width
  {
    if width == 0 then [] else BigEndian(v / 256, width - 1) + [(v % 256) as Byte]
  }

  /** The unsigned number whose big-endian bytes are `bs`. */
  function FromBigEndian(bs: seq<Byte>): (r: nat)
    ensures r < Pow256(|bs|)
  {
    if bs == [] then 0 else FromBigEndian(bs[..|bs| - 1]) * 256 + bs[|bs| - 1] as nat
  }

  /** Reading back big-endian bytes gives the number that was written. */
  lemma {:induction false} FromBigEndianInverse(v: nat, width: nat)
    requires v < Pow256(width)
    ensures FromBigEndian(BigEndian(v, width)) == v
  {
    if width > 0 {
      var bs := BigEndian(v, width);
      assert bs[..width - 1] == BigEndian(v / 256, width - 1);
      FromBigEndianInverse(v / 256, width - 1);
    }
  }

  /** The two bytes of a length prefix, high byte first. */
  lemma LengthPrefix(n: nat)
    requires n < Pow256(2)
    ensures var bs := BigEndian(n, 2); bs[0] as nat * 256 + bs[1] as nat == n
  {
    var hi := n / 256;
    assert hi < 256 && hi % 256 == hi;
    assert BigEndian(hi, 1) == [] + [hi as Byte];
    assert BigEndian(n, 2) == [hi as Byte] + [(n % 256) as Byte];
  }

  /** The largest byte count a two-byte length prefix can hold. */
  const MAX_UTF_LENGTH: nat := 0xFFFF

  /** The bytes `writeUTF(s)` emits: the byte count, then the modified UTF-8 bytes. */
  function UtfField(s: JString): (r: seq<Byte>)
    requires ModifiedUtf8.EncodedLength(s) <= MAX_UTF_LENGTH
    ensures |r| == 2 + ModifiedUtf8.EncodedLength(s)
  {
    BigEndian(ModifiedUtf8.EncodedLength(s), 2) + ModifiedUtf8.Encode(s)
  }

  /** The bytes `writeDouble` emits for a double with raw bits `v`. */
  function DoubleField(v: Bits64): (r: seq<Byte>)
    ensures |r| == 8
  {
    assert Pow256(8) == 0x1_0000_0000_0000_0000;
    BigEndian(v as nat, 8)
  }

  /** The outcome of one read at the file pointer: the value and the number of bytes
      it took; an EOFException (not enough bytes left); or a UTFDataFormatException
      after `size` bytes were consumed. */
  datatype Read<T> = Got(value: T, size: nat) | EndOfFile | Malformed(size: nat)

  /** The bytes `f` sit in `data` from offset `at` on. */
  predicate At(data: seq<Byte>, at: nat, f: seq<Byte>) {
    at + |f| <= |data| && data[at..at + |f|] == f
  }

  /** Bytes `a + b` at `at` are `a` at `at` followed by `b` right after it. */
  lemma AtSplit(data: seq<Byte>, at: nat, a: seq<Byte>, b: seq<Byte>)
    requires At(data, at, a + b)
    ensures At(data, at, a) && At(data, at + |a|, b)
  {
    assert data[at..at + |a|] == (a + b)[..|a|];
    assert data[at + |a|..at + |a| + |b|] == (a + b)[|a|..];
  }

  /** The file ends `|data| - at` bytes into `a + b`: either inside `a`, or after all
      of `a` and inside `b`. */
  lemma CutSplit(data: seq<Byte>, at: nat, a: seq<Byte>, b: seq<Byte>)
    requires at <= |data| < at + |a + b| && data[at..] == (a + b)[..|data| - at]
    ensures |data| < at + |a| ==> data[at..] == a[..|data| - at]
    ensures at + |a| <= |data| ==>
      && At(data, at, a) && |data| < at + |a| + |b|
      && data[at + |a|..] == b[..|data| - at - |a|]
  {
    var k := |data| - at;
    if k < |a| {
      assert (a + b)[..k] == a[..k];
    } else {
      assert data[at..at + |a|] == data[at..][..|a|] == (a + b)[..|a|] == a;
      assert data[at + |a|..] == data[at..][|a|..] == (a + b)[..k][|a|..] == b[..k - |a|];
    }
  }

  /** `readUTF` with the file pointer at `at`. */
  function UtfFrom(data: seq<Byte>, at: nat): (r: Read<JString>)
    ensures r.Got? ==> 2 <= r.size && at + r.size <= |data|
    ensures r.Malformed? ==> 2 <= r.size && at + r.size <= |data|
  {
    if |data| < at + 2 then EndOfFile
    else
      var n := data[at] as nat * 256 + data[at + 1] as nat;
      if |data| < at + 2 + n then EndOfFile
      else match ModifiedUtf8.Decode(data[at + 2..at + 2 + n])
        case None => Malformed(2 + n)
        case Some(s) => Got(s, 2 + n)
  }

  /** `readDouble` with the file pointer at `at`. */
  function DoubleFrom(data: seq<Byte>, at: nat): (r: Read<Bits64>)
    ensures r.Got? ==> r.size == 8 && at + 8 <= |data|
    ensures !r.Malformed?
  {
    if |data| < at + 8 then EndOfFile
    else
      assert Pow256(8) == 0x1_0000_0000_0000_0000 by {
        assert |data[at..at + 8]| == 8;
      }
      Got(FromBigEndian(data[at..at + 8]) as Bits64, 8)
  }

  /** `f` is a `writeUTF` field holding `s`: a length prefix with the count of the
      bytes after it, and those bytes decode to `s`. */
  predicate IsUtfField(f: seq<Byte>, s: JString) {
    |f| >= 2 && f[0] as nat * 256 + f[1] as nat == |f| - 2 && ModifiedUtf8.Decode(f[2..]) == Some(s)
  }

  /** What `writeUTF(s)` emits is a field holding `s`. */
  lemma FieldBytes(s: JString)
    requires ModifiedUtf8.EncodedLength(s) <= MAX_UTF_LENGTH
    ensures IsUtfField(UtfField(s), s)
  {
    var f := UtfField(s);
    LengthPrefix(ModifiedUtf8.EncodedLength(s));
    assert f[2..] == ModifiedUtf8.Encode(s);
    ModifiedUtf8.DecodeEncode(s);
  }

  /** `readUTF` at a field holding `s` returns `s` and takes the whole field, whatever
      bytes surround it. */
  lemma ReadUtfBytes(f: seq<Byte>, s: JString, data: seq<Byte>, at: nat)
    requires IsUtfField(f, s) && At(data, at, f)
    ensures UtfFrom(data, at) == Got(s, |f|)
  {
    assert data[at] == f[0] && data[at + 1] == f[1] by {
      assert data[at..at + |f|][0] == data[at] && data[at..at + |f|][1] == data[at + 1];
    }
    assert data[at + 2..at + |f|] == f[2..];
  }

  /** A file that ends inside a field makes `readUTF` hit end of file. */
  lemma ReadUtfCutBytes(f: seq<Byte>, s: JString, data: seq<Byte>, at: nat)
    requires IsUtfField(f, s)
    requires at <= |data| < at + |f| && data[at..] == f[..|data| - at]
    ensures UtfFrom(data, at) == EndOfFile
  {
    if at + 2 <= |data| {
      assert data[at] == f[0] && data[at + 1] == f[1] by {
        assert data[at..][0] == data[at] && data[at..][1] == data[at + 1];
      }
    }
  }

  /** `readUTF` returns what `writeUTF` wrote, whatever bytes surround it. */
  lemma ReadUtfField(s: JString, data: seq<Byte>, at: nat)
    requires ModifiedUtf8.EncodedLength(s) <= MAX_UTF_LENGTH
    requires At(data, at, UtfField(s))
    ensures UtfFrom(data, at) == Got(s, |UtfField(s)|)
  {
    FieldBytes(s);
    ReadUtfBytes(UtfField(s), s, data, at);
  }

  /** A file that ends inside the bytes `writeUTF(s)` wrote makes `readUTF` hit end of
      file. */
  lemma ReadUtfCutField(s: JString, data: seq<Byte>, at: nat)
    requires ModifiedUtf8.EncodedLength(s) <= MAX_UTF_LENGTH
    requires at <= |data| < at + |UtfField(s)| && data[at..] == UtfField(s)[..|data| - at]
    ensures UtfFrom(data, at) == EndOfFile
  {
    FieldBytes(s);
    ReadUtfCutBytes(UtfField(s), s, data, at);
  }

  /** `readDouble` returns the bits `writeDouble` wrote, whatever bytes surround them. */
  lemma ReadDoubleField(v: Bits64, data: seq<Byte>, at: nat)
    requires At(data, at, DoubleField(v))
    ensures DoubleFrom(data, at) == Got(v, 8)
  {
    assert Pow256(8) == 0x1_0000_0000_0000_0000;
    FromBigEndianInverse(v as nat, 8);
  }

  function Max(a: int, b: int): int { if a < b then b else a }

  /** The file after writing `bs` at pointer `pos`: the bytes from `pos` on are
      replaced, the file grows only as far as the write reaches, and every byte outside
      the written region keeps its value. */
  function Overwrite(data: seq<Byte>, pos: nat, bs: seq<Byte>): (r: seq<Byte>)
    requires pos <= |data|
    ensures |r| == Max(|data|, pos + |bs|)
    ensures r[..pos] == data[..pos]
    ensures r[pos..pos + |bs|] == bs
    ensures forall i :: pos + |bs| <= i < |data| ==> r[i] == data[i]
  {
    data[..pos] + bs + if pos + |bs| < |data| then data[pos + |bs|..] else []
  }

  /** Two writes in a row are one write of both byte strings. */
  lemma OverwriteTwice(data: seq<Byte>, pos: nat, a: seq<Byte>, b: seq<Byte>)
    requires pos <= |data|
    ensures pos + |a| <= |Overwrite(data, pos, a)|
    ensures Overwrite(Overwrite(data, pos, a), pos + |a|, b) == Overwrite(data, pos, a + b)
  {
    var once := Overwrite(data, pos, a);
    var lhs := Overwrite(once, pos + |a|, b);
    var rhs := Overwrite(data, pos, a + b);
    assert |lhs| == |rhs|;
    forall i | 0 <= i < |lhs| ensures lhs[i] == rhs[i] {
      if i < pos {
        assert lhs[i] == lhs[..pos + |a|][i] == once[i] == once[..pos][i] == data[i];
        assert rhs[i] == rhs[..pos][i] == data[i];
      } else if i < pos + |a| {
        assert lhs[i] == lhs[..pos + |a|][i] == once[i] == once[pos..pos + |a|][i - pos];
        assert rhs[i] == rhs[pos..pos + |a| + |b|][i - pos];
      } else if i < pos + |a| + |b| {
        assert lhs[i] == lhs[pos + |a|..pos + |a| + |b|][i - pos - |a|];
        assert rhs[i] == rhs[pos..pos + |a| + |b|][i - pos];
      }
    }
  }

  /** Writing over the front `a` of a file with as many bytes `c` leaves the rest `b`. */
  lemma OverwriteFront(a: seq<Byte>, b: seq<Byte>, c: seq<Byte>)
    requires |c| == |a|
    ensures Overwrite(a + b, 0, c) == c + b
  {
    assert (a + b)[..0] == [];
    assert (a + b)[|a|..] == b;
    assert c + [] == c;
  }

  /** Writing over the front `a` of a file with fewer bytes `c` leaves the rest of `a`
      between `c` and `b`. */
  lemma OverwriteShorterFront(a: seq<Byte>, b: seq<Byte>, c: seq<Byte>)
    requires |c| < |a|
    ensures Overwrite(a + b, 0, c) == c + a[|c|..] + b
  {
    assert (a + b)[..0] == [];
    assert (a + b)[|c|..] == a[|c|..] + b;
  }

  /** An open `RandomAccessFile`: its bytes and its file pointer. */
  class RandomFile {
    var data: seq<Byte>
    var pos: nat

    ghost predicate Valid()
      reads this
    {
      pos <= |data|
    }

    /** `new RandomAccessFile(path, mode)` on a file holding `contents`
        (empty for a file "rw" creates): the pointer starts at offset 0. */
    constructor Open(contents: seq<Byte>)
      ensures Valid() && data == contents && pos == 0
    {
      data := contents;
      pos := 0;
    }

    /** Writes `bs` at the file pointer and moves the pointer past them. */
    method Write(bs: seq<Byte>)
      requires Valid()
      modifies this
      ensures Valid()
      ensures data == Overwrite(old(data), old(pos), bs)
      ensures pos == old(pos) + |bs|
    {
      data := Overwrite(data, pos, bs);
      pos := pos + |bs|;
    }

    /** `writeUTF(s)`; `ok` is false for the UTFDataFormatException it throws, before
        writing anything, when the encoding would exceed 65535 bytes. */
    method WriteUTF(s: JString) returns (ok: bool)
      requires Valid()
      modifies this
      ensures Valid()
      ensures ok <==> ModifiedUtf8.EncodedLength(s) <= MAX_UTF_LENGTH
      ensures ok ==> data == Overwrite(old(data), old(pos), UtfField(s)) && pos == old(pos) + |UtfField(s)|
      ensures !ok ==> data == old(data) && pos == old(pos)
    {
      ok := ModifiedUtf8.EncodedLength(s) <= MAX_UTF_LENGTH;
      if ok {
        Write(UtfField(s));
      }
    }

    /** `writeDouble` of a double whose raw bits are `v`. */
    method WriteDouble(v: Bits64)
      requires Valid()
      modifies this
      ensures Valid()
      ensures data == Overwrite(old(data), old(pos), DoubleField(v))
      ensures pos == old(pos) + 8
    {
      Write(DoubleField(v));
    }

    /** `readUTF`: on success the pointer moves past the field, on a malformed field
        past its bytes, and at end of file to the end (the JDK consumes what is there
        before it throws). */
    method ReadUTF() returns (r: Read<JString>)
      requires Valid()
      modifies this`pos
      ensures Valid() && data == old(data)
      ensures r == UtfFrom(data, old(pos))
      ensures pos == if r.EndOfFile? then |data| else old(pos) + r.size
    {
      r := UtfFrom(data, pos);
      pos := if r.EndOfFile? then |data| else pos + r.size;
    }

    /** `readDouble`, with the pointer moved as for `ReadUTF`. */
    method ReadDouble() returns (r: Read<Bits64>)
      requires Valid()
      modifies this`pos
      ensures Valid() && data == old(data)
      ensures r == DoubleFrom(data, old(pos))
      ensures pos == if r.EndOfFile? then |data| else old(pos) + r.size
    {
      r := DoubleFrom(data, pos);
      pos := if r.EndOfFile? then |data| else pos + r.size;
    }
  }
}
