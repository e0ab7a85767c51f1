/** The on-disk form of one product record, as `addProduct` writes it and
    `searchProducts` reads it: `writeUTF` of the padded name, description and id, then
    `writeDouble` of the cost. Records are concatenated with no header or delimiter;
    each text field carries its own byte count, so records vary in length. */
module RecordFormat {
  import opened JavaTypes
  import opened JavaString
  import ModifiedUtf8
  import opened RandomAccess
  import opened Products

  /** A field of at most 75 code units always fits a `writeUTF` length prefix. */
  lemma FieldFits(s: JString)
    requires |s| <= DESCRIPTION_SIZE
    ensures ModifiedUtf8.EncodedLength(s) <= MAX_UTF_LENGTH
  {
    ModifiedUtf8.EncodedLengthBounds(s);
  }

  /** The bytes of one record. */
  function RecordBytes(p: ProductData): (r: seq<Byte>)
    ensures 14 + NAME_SIZE + DESCRIPTION_SIZE + ID_SIZE <= |r|
    ensures |r| <= 14 + 3 * (NAME_SIZE + DESCRIPTION_SIZE + ID_SIZE)
  {
    var name := Padded(p.name, NAME_SIZE);
    var description := Padded(p.description, DESCRIPTION_SIZE);
    var id := Padded(p.productID, ID_SIZE);
    FieldFits(name); FieldFits(description); FieldFits(id);
    ModifiedUtf8.EncodedLengthBounds(name);
    ModifiedUtf8.EncodedLengthBounds(description);
    ModifiedUtf8.EncodedLengthBounds(id);
    UtfField(name) + UtfField(description) + UtfField(id) + DoubleField(p.cost)
  }

  /** What a search reads back for a record written from `p`: each padded text field
      with `trim` applied, and the same cost bits. */
  function Stored(p: ProductData): (r: ProductData)
    ensures Fits(r) && r.cost == p.cost
  {
    TrimPadded(p.name, NAME_SIZE);
    TrimPadded(p.description, DESCRIPTION_SIZE);
    TrimPadded(p.productID, ID_SIZE);
    TrimIsTrimmed(Padded(p.name, NAME_SIZE));
    TrimIsTrimmed(Padded(p.description, DESCRIPTION_SIZE));
    TrimIsTrimmed(Padded(p.productID, ID_SIZE));
    ProductData(Trim(Padded(p.name, NAME_SIZE)), Trim(Padded(p.description, DESCRIPTION_SIZE)),
                Trim(Padded(p.productID, ID_SIZE)), p.cost)
  }

  /** The first `n` code units of `s`, or all of it. */
  function Truncated(s: JString, n: nat): JString {
    if |s| > n then s[..n] else s
  }

  lemma TrimPadded(s: JString, n: nat)
    ensures Trim(Padded(s, n)) == Trim(Truncated(s, n))
  {
    if |s| <= n {
      TrimIgnoresPadding(s, n - |s|);
    } else {
      assert Padded(s, n) == Truncated(s, n);
    }
  }

  /** Each text field read back is the written field, cut to its width, then trimmed;
      the cost comes back unchanged. */
  lemma StoredFields(p: ProductData)
    ensures Stored(p).name == Trim(Truncated(p.name, NAME_SIZE))
    ensures Stored(p).description == Trim(Truncated(p.description, DESCRIPTION_SIZE))
    ensures Stored(p).productID == Trim(Truncated(p.productID, ID_SIZE))
    ensures Stored(p).cost == p.cost
  {
    TrimPadded(p.name, NAME_SIZE);
    TrimPadded(p.description, DESCRIPTION_SIZE);
    TrimPadded(p.productID, ID_SIZE);
  }

  /** Trimmed text fields within their widths: the records that survive the file intact. */
  predicate Fits(p: ProductData) {
    && IsTrimmed(p.name) && |p.name| <= NAME_SIZE
    && IsTrimmed(p.description) && |p.description| <= DESCRIPTION_SIZE
    && IsTrimmed(p.productID) && |p.productID| <= ID_SIZE
  }

  /** A record that fits is read back exactly as it was written. */
  lemma StoredFits(p: ProductData)
    requires Fits(p)
    ensures Stored(p) == p
  {
    StoredFields(p);
    TrimmedIsFixpoint(p.name);
    TrimmedIsFixpoint(p.description);
    TrimmedIsFixpoint(p.productID);
  }

  /** The outcome of one pass of the search loop's body: a record and the file
      pointer just past it; an EOFException somewhere in it; or a
      UTFDataFormatException. */
  datatype Step = Record(product: ProductData, next: nat) | EndOfData | BadBytes

  /** The rest of a record read from offset `at` of `data`, once the trimmed text
      fields in `fields` (name, description, id, at most three) are in: the next
      `readUTF().trim()`, or the `readDouble` once all three are. */
  function ReadFields(fields: seq<JString>, data: seq<Byte>, at: nat): (r: Step)
    requires |fields| <= 3
    ensures r.Record? ==> at + 8 + 2 * (3 - |fields|) <= r.next <= |data|
    decreases 3 - |fields|, 1
  {
    if |fields| == 3 then
      match DoubleFrom(data, at)
      case Got(cost, n) => Record(ProductData(fields[0], fields[1], fields[2], cost), at + n)
      case _ => EndOfData
    else ReadField(fields, data, at)
  }

  /** The next `readUTF().trim()` of a record, then the rest of it. */
  function ReadField(fields: seq<JString>, data: seq<Byte>, at: nat): (r: Step)
    requires |fields| < 3
    ensures r.Record? ==> at + 8 + 2 * (3 - |fields|) <= r.next <= |data|
    decreases 3 - |fields|, 0
  {
    match UtfFrom(data, at)
    case EndOfFile => EndOfData
    case Malformed(_) => BadBytes
    case Got(text, n) => ReadFields(fields + [Trim(text)], data, at + n)
  }

  /** Three `readUTF().trim()` and a `readDouble` with the file pointer at `at`. */
  function DecodeRecord(data: seq<Byte>, at: nat): (r: Step)
    ensures r.Record? ==> at + 14 <= r.next <= |data|
  {
    ReadFields([], data, at)
  }

  /** A text field read successfully moves on to the next one. */
  lemma FieldRead(fields: seq<JString>, data: seq<Byte>, at: nat, text: JString, n: nat)
    requires |fields| < 3 && UtfFrom(data, at) == Got(text, n)
    ensures ReadFields(fields, data, at) == ReadFields(fields + [Trim(text)], data, at + n)
  {
  }

  /** A text field that hits end of file ends the record there; one with malformed
      bytes fails it. */
  lemma FieldFails(fields: seq<JString>, data: seq<Byte>, at: nat)
    requires |fields| < 3 && !UtfFrom(data, at).Got?
    ensures ReadFields(fields, data, at) == if UtfFrom(data, at).EndOfFile? then EndOfData else BadBytes
  {
  }

  /** The text fields of a record read back are all `trim` results. */
  predicate TrimmedFields(p: ProductData) {
    IsTrimmed(p.name) && IsTrimmed(p.description) && IsTrimmed(p.productID)
  }

  /** Once the text fields read so far are trimmed, so is every field of the record
      they end in. */
  lemma {:induction false} ReadFieldsTrimmed(fields: seq<JString>, data: seq<Byte>, at: nat)
    requires |fields| <= 3 && forall i :: 0 <= i < |fields| ==> IsTrimmed(fields[i])
    ensures ReadFields(fields, data, at).Record? ==> TrimmedFields(ReadFields(fields, data, at).product)
    decreases 3 - |fields|
  {
    if |fields| < 3 {
      var read := UtfFrom(data, at);
      if read.Got? {
        var more := fields + [Trim(read.value)];
        TrimIsTrimmed(read.value);
        assert forall i :: 0 <= i < |more| ==> IsTrimmed(more[i]) by {
          forall i | 0 <= i < |more| ensures IsTrimmed(more[i]) {
            if i < |fields| {
              assert more[i] == fields[i];
            }
          }
        }
        FieldRead(fields, data, at, read.value, read.size);
        ReadFieldsTrimmed(more, data, at + read.size);
      } else {
        FieldFails(fields, data, at);
      }
    }
  }

  /** Every record decoded has trimmed text fields. */
  lemma DecodedTrimmed(data: seq<Byte>, at: nat)
    ensures DecodeRecord(data, at).Record? ==> TrimmedFields(DecodeRecord(data, at).product)
  {
    ReadFieldsTrimmed([], data, at);
  }

  /** The bytes of a record are three `writeUTF` fields holding the padded text fields,
      then the cost. */
  lemma RecordLayout(p: ProductData)
    ensures var name := Padded(p.name, NAME_SIZE);
      var description := Padded(p.description, DESCRIPTION_SIZE);
      var id := Padded(p.productID, ID_SIZE);
      && ModifiedUtf8.EncodedLength(name) <= MAX_UTF_LENGTH
      && ModifiedUtf8.EncodedLength(description) <= MAX_UTF_LENGTH
      && ModifiedUtf8.EncodedLength(id) <= MAX_UTF_LENGTH
      && IsUtfField(UtfField(name), name)
      && IsUtfField(UtfField(description), description)
      && IsUtfField(UtfField(id), id)
      && RecordBytes(p) == UtfField(name) + (UtfField(description) + (UtfField(id) + DoubleField(p.cost)))
  {
    var name := Padded(p.name, NAME_SIZE);
    var description := Padded(p.description, DESCRIPTION_SIZE);
    var id := Padded(p.productID, ID_SIZE);
    FieldFits(name); FieldFits(description); FieldFits(id);
    FieldBytes(name); FieldBytes(description); FieldBytes(id);
  }

  /** Three fields and a cost, read back, make a record of the trimmed texts and move
      the pointer past all four. */
  lemma DecodeFields(f1: seq<Byte>, f2: seq<Byte>, f3: seq<Byte>, f4: seq<Byte>,
                     name: JString, description: JString, id: JString, cost: Bits64,
                     data: seq<Byte>, at: nat)
    requires IsUtfField(f1, name) && IsUtfField(f2, description) && IsUtfField(f3, id)
    requires f4 == DoubleField(cost)
    requires At(data, at, f1 + (f2 + (f3 + f4)))
    ensures DecodeRecord(data, at)
            == Record(ProductData(Trim(name), Trim(description), Trim(id), cost), at + |f1 + (f2 + (f3 + f4))|)
  {
    AtSplit(data, at, f1, f2 + (f3 + f4));
    ReadUtfBytes(f1, name, data, at);
    FieldRead([], data, at, name, |f1|);
    assert [] + [Trim(name)] == [Trim(name)];
    DescriptionOnward(Trim(name), f2, f3, f4, description, id, cost, data, at + |f1|);
  }

  /** With the name in, the description and id fields and the cost complete the record. */
  lemma DescriptionOnward(name: JString, f2: seq<Byte>, f3: seq<Byte>, f4: seq<Byte>,
                          description: JString, id: JString, cost: Bits64, data: seq<Byte>, at: nat)
    requires IsUtfField(f2, description) && IsUtfField(f3, id) && f4 == DoubleField(cost)
    requires At(data, at, f2 + (f3 + f4))
    ensures ReadFields([name], data, at)
            == Record(ProductData(name, Trim(description), Trim(id), cost), at + |f2 + (f3 + f4)|)
  {
    AtSplit(data, at, f2, f3 + f4);
    ReadUtfBytes(f2, description, data, at);
    FieldRead([name], data, at, description, |f2|);
    assert [name] + [Trim(description)] == [name, Trim(description)];
    IdOnward(name, Trim(description), f3, f4, id, cost, data, at + |f2|);
  }

  /** With the name and description in, the id field and the cost complete the record. */
  lemma IdOnward(name: JString, description: JString, f3: seq<Byte>, f4: seq<Byte>,
                 id: JString, cost: Bits64, data: seq<Byte>, at: nat)
    requires IsUtfField(f3, id) && f4 == DoubleField(cost)
    requires At(data, at, f3 + f4)
    ensures ReadFields([name, description], data, at)
            == Record(ProductData(name, description, Trim(id), cost), at + |f3 + f4|)
  {
    AtSplit(data, at, f3, f4);
    ReadUtfBytes(f3, id, data, at);
    FieldRead([name, description], data, at, id, |f3|);
    assert [name, description] + [Trim(id)] == [name, description, Trim(id)];
    CostRead([name, description, Trim(id)], cost, data, at + |f3|);
  }

  /** The cost read after the three text fields completes the record. */
  lemma CostRead(fields: seq<JString>, cost: Bits64, data: seq<Byte>, at: nat)
    requires |fields| == 3 && At(data, at, DoubleField(cost))
    ensures ReadFields(fields, data, at) == Record(ProductData(fields[0], fields[1], fields[2], cost), at + 8)
  {
    ReadDoubleField(cost, data, at);
  }

  /** Decoding a written record yields the stored form of what was written and moves
      the pointer exactly past its bytes, whatever surrounds them. */
  lemma DecodeRecordBytes(p: ProductData, data: seq<Byte>, at: nat)
    requires At(data, at, RecordBytes(p))
    ensures DecodeRecord(data, at) == Record(Stored(p), at + |RecordBytes(p)|)
  {
    var name := Padded(p.name, NAME_SIZE);
    var description := Padded(p.description, DESCRIPTION_SIZE);
    var id := Padded(p.productID, ID_SIZE);
    RecordLayout(p);
    DecodeFields(UtfField(name), UtfField(description), UtfField(id), DoubleField(p.cost),
                 name, description, id, p.cost, data, at);
  }

  /** A file that ends partway into a record's bytes, even inside a length prefix or
      the cost, reads as end of file, never as malformed bytes. */
  lemma DecodeCutRecord(p: ProductData, data: seq<Byte>, at: nat)
    requires at <= |data| < at + |RecordBytes(p)| && data[at..] == RecordBytes(p)[..|data| - at]
    ensures DecodeRecord(data, at) == EndOfData
  {
    var name := Padded(p.name, NAME_SIZE);
    var description := Padded(p.description, DESCRIPTION_SIZE);
    var id := Padded(p.productID, ID_SIZE);
    RecordLayout(p);
    CutFields(UtfField(name), UtfField(description), UtfField(id), DoubleField(p.cost),
              name, description, id, data, at);
  }

  /** Three fields and a cost cut short anywhere read as end of file. */
  lemma CutFields(f1: seq<Byte>, f2: seq<Byte>, f3: seq<Byte>, f4: seq<Byte>,
                  name: JString, description: JString, id: JString, data: seq<Byte>, at: nat)
    requires IsUtfField(f1, name) && IsUtfField(f2, description) && IsUtfField(f3, id) && |f4| == 8
    requires at <= |data| < at + |f1 + (f2 + (f3 + f4))| && data[at..] == (f1 + (f2 + (f3 + f4)))[..|data| - at]
    ensures DecodeRecord(data, at) == EndOfData
  {
    CutSplit(data, at, f1, f2 + (f3 + f4));
    CutFieldOrAfter([], data, at, f1, name);
    if at + |f1| <= |data| {
      assert [] + [Trim(name)] == [Trim(name)];
      CutAfterName([Trim(name)], f2, f3, f4, description, id, data, at + |f1|);
    }
  }

  /** The part of a cut record after its name reads as end of file. */
  lemma CutAfterName(fields: seq<JString>, f2: seq<Byte>, f3: seq<Byte>, f4: seq<Byte>,
                     description: JString, id: JString, data: seq<Byte>, at: nat)
    requires |fields| == 1 && IsUtfField(f2, description) && IsUtfField(f3, id) && |f4| == 8
    requires at <= |data| < at + |f2 + (f3 + f4)| && data[at..] == (f2 + (f3 + f4))[..|data| - at]
    ensures ReadFields(fields, data, at) == EndOfData
  {
    CutSplit(data, at, f2, f3 + f4);
    CutFieldOrAfter(fields, data, at, f2, description);
    if at + |f2| <= |data| {
      CutAfterDescription(fields + [Trim(description)], f3, f4, id, data, at + |f2|);
    }
  }

  /** The part of a cut record after its description reads as end of file. */
  lemma CutAfterDescription(fields: seq<JString>, f3: seq<Byte>, f4: seq<Byte>, id: JString,
                            data: seq<Byte>, at: nat)
    requires |fields| == 2 && IsUtfField(f3, id) && |f4| == 8
    requires at <= |data| < at + |f3 + f4| && data[at..] == (f3 + f4)[..|data| - at]
    ensures ReadFields(fields, data, at) == EndOfData
  {
    CutSplit(data, at, f3, f4);
    CutFieldOrAfter(fields, data, at, f3, id);
    if at + |f3| <= |data| {
      assert DoubleFrom(data, at + |f3|) == EndOfFile;
    }
  }

  /** A file that ends inside a field ends the record there; one that ends after it
      goes on to the next field. */
  lemma CutFieldOrAfter(fields: seq<JString>, data: seq<Byte>, at: nat, f: seq<Byte>, text: JString)
    requires |fields| < 3 && IsUtfField(f, text)
    requires |data| < at + |f| ==> at <= |data| && data[at..] == f[..|data| - at]
    requires at + |f| <= |data| ==> At(data, at, f)
    ensures |data| < at + |f| ==> ReadFields(fields, data, at) == EndOfData
    ensures at + |f| <= |data| ==> ReadFields(fields, data, at) == ReadFields(fields + [Trim(text)], data, at + |f|)
  {
    if |data| < at + |f| {
      ReadUtfCutBytes(f, text, data, at);
      FieldFails(fields, data, at);
    } else {
      ReadUtfBytes(f, text, data, at);
      FieldRead(fields, data, at, text, |f|);
    }
  }

  /** Padding plain ASCII text with spaces, or cutting it, keeps it plain ASCII. */
  lemma PaddedAscii(s: JString, n: nat)
    requires ModifiedUtf8.IsPlainAscii(s)
    ensures ModifiedUtf8.IsPlainAscii(Padded(s, n))
  {
  }

  /** With plain ASCII text every record is 2+35 + 2+75 + 2+6 + 8 = 130 bytes, which is
      not the 240 bytes `RECORD_SIZE` claims. */
  lemma AsciiRecordSize(p: ProductData)
    requires ModifiedUtf8.IsPlainAscii(p.name)
    requires ModifiedUtf8.IsPlainAscii(p.description)
    requires ModifiedUtf8.IsPlainAscii(p.productID)
    ensures |RecordBytes(p)| == 130
    ensures RECORD_SIZE == 240 != |RecordBytes(p)|
  {
    PaddedAscii(p.name, NAME_SIZE);
    PaddedAscii(p.description, DESCRIPTION_SIZE);
    PaddedAscii(p.productID, ID_SIZE);
    ModifiedUtf8.AsciiEncodedLength(Padded(p.name, NAME_SIZE));
    ModifiedUtf8.AsciiEncodedLength(Padded(p.description, DESCRIPTION_SIZE));
    ModifiedUtf8.AsciiEncodedLength(Padded(p.productID, ID_SIZE));
  }

  /** The bytes of records written one after another. */
  function Encoded(ps: seq<ProductData>): seq<Byte>
    decreases |ps|, 1
  {
    if ps == [] then [] else EncodedStep(ps)
  }

  /** The first record's bytes, then the rest's. */
  function EncodedStep(ps: seq<ProductData>): seq<Byte>
    requires ps != []
    decreases |ps|, 0
  {
    RecordBytes(ps[0]) + Encoded(ps[1..])
  }

  /** The stored forms of records written one after another. */
  function StoredAll(ps: seq<ProductData>): (r: seq<ProductData>)
    ensures |r| == |ps|
    decreases |ps|, 1
  {
    if ps == [] then [] else StoredAllStep(ps)
  }

  /** The first record's stored form, then the rest's. */
  function StoredAllStep(ps: seq<ProductData>): (r: seq<ProductData>)
    requires ps != []
    ensures |r| == |ps|
    decreases |ps|, 0
  {
    [Stored(ps[0])] + StoredAll(ps[1..])
  }

  /** The `i`-th stored form is that of the `i`-th record. */
  lemma {:induction false} StoredAllAt(ps: seq<ProductData>, i: nat)
    requires i < |ps|
    ensures StoredAll(ps)[i] == Stored(ps[i])
  {
    if i > 0 {
      StoredAllAt(ps[1..], i - 1);
    }
  }

  /** Writing one more record appends its bytes. */
  lemma EncodedSnoc(ps: seq<ProductData>, p: ProductData)
    ensures Encoded(ps + [p]) == Encoded(ps) + RecordBytes(p)
  {
    EncodedConcat(ps, [p]);
    EncodedOne(p);
  }

  /** A single record's bytes. */
  lemma EncodedOne(p: ProductData)
    ensures Encoded([p]) == RecordBytes(p)
  {
    assert [p][1..] == [];
    assert Encoded([p]) == EncodedStep([p]) == RecordBytes(p) + Encoded([]);
    assert RecordBytes(p) + [] == RecordBytes(p);
  }

  /** The bytes of two runs of records written one after the other. */
  lemma {:induction false} EncodedConcat(a: seq<ProductData>, b: seq<ProductData>)
    ensures Encoded(a + b) == Encoded(a) + Encoded(b)
  {
    if a == [] {
      assert a + b == b;
      assert [] + Encoded(b) == Encoded(b);
    } else {
      assert (a + b)[0] == a[0] && (a + b)[1..] == a[1..] + b;
      EncodedConcat(a[1..], b);
      var first, rest, tail := RecordBytes(a[0]), Encoded(a[1..]), Encoded(b);
      assert Encoded(a + b) == first + Encoded(a[1..] + b);
      assert Encoded(a) == first + rest;
      AppendAssoc(first, rest, tail);
    }
  }

  /** Runs of records of the same sizes, pairwise, take the same number of bytes. */
  lemma {:induction false} EncodedSameSize(a: seq<ProductData>, b: seq<ProductData>)
    requires |a| == |b| && forall i :: 0 <= i < |a| ==> |RecordBytes(a[i])| == |RecordBytes(b[i])|
    ensures |Encoded(a)| == |Encoded(b)|
  {
    if a != [] {
      var a1, b1 := a[1..], b[1..];
      forall i | 0 <= i < |a1|
        ensures |RecordBytes(a1[i])| == |RecordBytes(b1[i])|
      {
        assert a1[i] == a[i + 1] && b1[i] == b[i + 1];
      }
      EncodedSameSize(a1, b1);
      assert Encoded(a) == EncodedStep(a) == RecordBytes(a[0]) + Encoded(a1);
      assert Encoded(b) == EncodedStep(b) == RecordBytes(b[0]) + Encoded(b1);
    }
  }

  lemma AppendAssoc(x: seq<Byte>, y: seq<Byte>, z: seq<Byte>)
    ensures x + (y + z) == (x + y) + z
  {
  }
}
