/** `RandProductMaker`: the file it opens once (".dat" appended when missing, opened
    read-write with the pointer at offset 0) and `addProduct`, which validates the four
    text fields and writes one record at the file pointer. */
module ProductMaker {
  import opened JavaTypes
  import opened JavaString
  import opened RandomAccess
  import opened Products
  import opened RecordFormat
  import opened ProductSearch

  /** ".dat" */
  const DAT: JString := [0x2E, 0x64, 0x61, 0x74]

  lemma LowerAppendDat(path: JString)
    ensures Lower(path + DAT) == Lower(path) + DAT
  {
    var l := Lower(path + DAT);
    assert |l| == |path| + 4;
    forall i | 0 <= i < |l| ensures l[i] == (Lower(path) + DAT)[i] {
      if i < |path| {
        assert (path + DAT)[i] == path[i];
      } else {
        assert (path + DAT)[i] == DAT[i - |path|];
      }
    }
  }

  /** The chosen path, with ".dat" appended unless it already ends in ".dat" in any
      letter case. */
  function WithDatSuffix(path: JString): (r: JString)
    ensures EndsWith(Lower(r), DAT)
    ensures EndsWith(Lower(path), DAT) ==> r == path
    ensures !EndsWith(Lower(path), DAT) ==> r == path + DAT
  {
    if EndsWith(Lower(path), DAT) then path
    else
      LowerAppendDat(path);
      assert (Lower(path) + DAT)[|Lower(path)|..] == DAT;
      path + DAT
  }

  /** Applying the rule twice is applying it once. */
  lemma WithDatSuffixIdempotent(path: JString)
    ensures WithDatSuffix(WithDatSuffix(path)) == WithDatSuffix(path)
  {
  }

  /** The outcome of `addProduct`: a field blank once trimmed, a cost that does not
      parse, or the record that was written. */
  datatype AddOutcome = MissingField | InvalidCost | Added(product: ProductData)

  /** What `addProduct` makes of the four text fields. `parseDouble` stands for
      `Double.parseDouble`: the bits of the parsed value, or `None` for the
      NumberFormatException. */
  function Validate(nameText: JString, descriptionText: JString, idText: JString, costText: JString,
                    parseDouble: JString -> Option<Bits64>): (r: AddOutcome)
    ensures r.MissingField? <==>
      Trim(nameText) == [] || Trim(descriptionText) == [] || Trim(idText) == [] || Trim(costText) == []
    ensures r.InvalidCost? <==> !r.MissingField? && parseDouble(Trim(costText)).None?
    ensures r.Added? ==>
      && r.product.name == Trim(nameText) != []
      && r.product.description == Trim(descriptionText) != []
      && r.product.productID == Trim(idText) != []
      && Some(r.product.cost) == parseDouble(Trim(costText))
  {
    if Trim(nameText) == [] || Trim(descriptionText) == [] || Trim(idText) == [] || Trim(costText) == [] then
      MissingField
    else match parseDouble(Trim(costText))
      case None => InvalidCost
      case Some(cost) => Added(ProductData(Trim(nameText), Trim(descriptionText), Trim(idText), cost))
  }

  /** Every record `addProduct` writes has trimmed, non-blank text fields. */
  lemma ValidatedFieldsTrimmed(nameText: JString, descriptionText: JString, idText: JString, costText: JString,
                               parseDouble: JString -> Option<Bits64>)
    requires Validate(nameText, descriptionText, idText, costText, parseDouble).Added?
    ensures var p := Validate(nameText, descriptionText, idText, costText, parseDouble).product;
      && IsTrimmed(p.name) && IsTrimmed(p.description) && IsTrimmed(p.productID)
      && p.name != [] && p.description != [] && p.productID != []
  {
    TrimIsTrimmed(nameText);
    TrimIsTrimmed(descriptionText);
    TrimIsTrimmed(idText);
  }

  /** The file after the session wrote `written`, starting at offset 0 of a file that
      held `initial`. */
  function SessionFile(initial: seq<Byte>, written: seq<ProductData>): (r: seq<Byte>)
    ensures |r| == Max(|initial|, |Encoded(written)|)
    ensures r[..|Encoded(written)|] == Encoded(written)
    ensures forall i :: |Encoded(written)| <= i < |initial| ==> r[i] == initial[i]
  {
    Overwrite(initial, 0, Encoded(written))
  }

  /** Writing nothing leaves the file as it was. */
  lemma SessionFileEmpty(initial: seq<Byte>)
    ensures SessionFile(initial, []) == initial
  {
    var r := SessionFile(initial, []);
    assert |r| == |initial|;
    assert forall i :: 0 <= i < |r| ==> r[i] == initial[i];
  }

  /** One more record is written right after the ones before it. */
  lemma SessionFileSnoc(initial: seq<Byte>, written: seq<ProductData>, p: ProductData)
    ensures |Encoded(written)| <= |SessionFile(initial, written)|
    ensures SessionFile(initial, written + [p])
            == Overwrite(SessionFile(initial, written), |Encoded(written)|, RecordBytes(p))
  {
    OverwriteTwice(initial, 0, Encoded(written), RecordBytes(p));
    EncodedSnoc(written, p);
  }

  /** In a file the session created, the bytes are exactly the records written. */
  lemma SessionFileFresh(written: seq<ProductData>)
    ensures SessionFile([], written) == Encoded(written)
  {
    var bytes := Encoded(written);
    var none: seq<Byte> := [];
    assert none[..0] + bytes + none == bytes;
  }

  /** Round trip through a new file: a search of it after the session's adds returns
      exactly the matching records added, with the values written, in order. */
  lemma FreshSessionSearch(written: seq<ProductData>, searchText: JString)
    requires forall i :: 0 <= i < |written| ==> Fits(written[i])
    requires SearchTerm(searchText) != []
    ensures SearchResult(SessionFile([], written), searchText) == Found(Filter(written, SearchTerm(searchText)))
  {
    SessionFileFresh(written);
    SearchWrittenFile(written, searchText);
  }

  /** The file is not truncated: adding to a file that already held records `olds`,
      with new records of the same sizes (for instance all plain ASCII), leaves the old
      records past the new ones in place. */
  lemma SessionKeepsOldTail(olds: seq<ProductData>, news: seq<ProductData>)
    requires |news| <= |olds|
    requires forall i :: 0 <= i < |news| ==> |RecordBytes(news[i])| == |RecordBytes(olds[i])|
    ensures SessionFile(Encoded(olds), news) == Encoded(news + olds[|news|..])
  {
    var k := |news|;
    var front, back := olds[..k], olds[k..];
    assert olds == front + back;
    EncodedConcat(front, back);
    FrontSameSize(olds, news);
    OverwriteFront(Encoded(front), Encoded(back), Encoded(news));
    EncodedConcat(news, back);
  }

  lemma FrontSameSize(olds: seq<ProductData>, news: seq<ProductData>)
    requires |news| <= |olds|
    requires forall i :: 0 <= i < |news| ==> |RecordBytes(news[i])| == |RecordBytes(olds[i])|
    ensures |Encoded(news)| == |Encoded(olds[..|news|])|
  {
    assert forall i :: 0 <= i < |news| ==> olds[..|news|][i] == olds[i];
    EncodedSameSize(news, olds[..|news|]);
  }

  /** So a later search still finds the stale records after the new ones. */
  lemma SessionSearchSeesOldTail(olds: seq<ProductData>, news: seq<ProductData>, searchText: JString)
    requires |news| <= |olds|
    requires forall i :: 0 <= i < |news| ==> |RecordBytes(news[i])| == |RecordBytes(olds[i])|
    requires SearchTerm(searchText) != []
    ensures SearchResult(SessionFile(Encoded(olds), news), searchText)
            == Found(Filter(StoredAll(news + olds[|news|..]), SearchTerm(searchText)))
  {
    SessionKeepsOldTail(olds, news);
    EncodedFileRecords(news + olds[|news|..]);
  }

  /** Without the equal-size premise the old records are not realigned: a first record
      shorter than the one it covers is followed by that old record's last bytes and
      then the remaining old records, so the file is not the new record followed by the
      remaining old ones. */
  lemma ShorterRecordLeavesStaleBytes(olds: seq<ProductData>, n: ProductData)
    requires olds != [] && |RecordBytes(n)| < |RecordBytes(olds[0])|
    ensures SessionFile(Encoded(olds), [n])
            == RecordBytes(n) + RecordBytes(olds[0])[|RecordBytes(n)|..] + Encoded(olds[1..])
    ensures SessionFile(Encoded(olds), [n]) != Encoded([n] + olds[1..])
  {
    var added, old0, rest := RecordBytes(n), RecordBytes(olds[0]), Encoded(olds[1..]);
    EncodedCons(olds);
    EncodedOne(n);
    OverwriteShorterFront(old0, rest, added);
    EncodedConcat([n], olds[1..]);
  }

  /** Four writes in a row are one write of the four byte strings. */
  lemma OverwriteFour(data: seq<Byte>, pos: nat, f1: seq<Byte>, f2: seq<Byte>, f3: seq<Byte>, f4: seq<Byte>)
    requires pos <= |data|
    ensures pos + |f1| <= |Overwrite(data, pos, f1)|
    ensures pos + |f1| + |f2| <= |Overwrite(Overwrite(data, pos, f1), pos + |f1|, f2)|
    ensures pos + |f1| + |f2| + |f3|
            <= |Overwrite(Overwrite(Overwrite(data, pos, f1), pos + |f1|, f2), pos + |f1| + |f2|, f3)|
    ensures Overwrite(Overwrite(Overwrite(Overwrite(data, pos, f1), pos + |f1|, f2), pos + |f1| + |f2|, f3),
                      pos + |f1| + |f2| + |f3|, f4)
            == Overwrite(data, pos, f1 + f2 + f3 + f4)
  {
    OverwriteTwice(data, pos, f1, f2);
    OverwriteTwice(data, pos, f1 + f2, f3);
    OverwriteTwice(data, pos, f1 + f2 + f3, f4);
  }

  /** The four writes of `addProduct`: the padded name, description and id with
      `writeUTF`, then the cost with `writeDouble`. The padded fields are at most 75
      code units, so `writeUTF` never rejects them. */
  method WriteRecord(file: RandomFile, product: Product)
    requires file.Valid()
    modifies file
    ensures file.Valid()
    ensures file.data == Overwrite(old(file.data), old(file.pos), RecordBytes(product.Data()))
    ensures file.pos == old(file.pos) + |RecordBytes(product.Data())|
  {
    var paddedName := product.GetNameForRandom();
    var paddedDescription := product.GetDescriptionForRandom();
    var paddedId := product.GetProductIDForRandom();
    FieldFits(paddedName);
    FieldFits(paddedDescription);
    FieldFits(paddedId);
    assert RecordBytes(product.Data())
        == UtfField(paddedName) + UtfField(paddedDescription) + UtfField(paddedId) + DoubleField(product.cost);
    WriteFields(file, paddedName, paddedDescription, paddedId, product.cost);
  }

  /** Three `writeUTF` calls with text that fits, then one `writeDouble`: one write of
      the four fields at the pointer. */
  method WriteFields(file: RandomFile, name: JString, description: JString, id: JString, cost: Bits64)
    requires file.Valid()
    requires ModifiedUtf8.EncodedLength(name) <= MAX_UTF_LENGTH
    requires ModifiedUtf8.EncodedLength(description) <= MAX_UTF_LENGTH
    requires ModifiedUtf8.EncodedLength(id) <= MAX_UTF_LENGTH
    modifies file
    ensures file.Valid()
    ensures file.data == Overwrite(old(file.data), old(file.pos),
                                   UtfField(name) + UtfField(description) + UtfField(id) + DoubleField(cost))
    ensures file.pos == old(file.pos) + |UtfField(name) + UtfField(description) + UtfField(id) + DoubleField(cost)|
  {
    ghost var f1, f2, f3, f4 := UtfField(name), UtfField(description), UtfField(id), DoubleField(cost);
    ghost var start, pos := file.data, file.pos;
    var nameWritten := file.WriteUTF(name);
    var descriptionWritten := file.WriteUTF(description);
    var idWritten := file.WriteUTF(id);
    file.WriteDouble(cost);
    OverwriteFour(start, pos, f1, f2, f3, f4);
  }

  /** The maker window's state: the chosen path, the open file and the count of
      records added in this session. */
  class RandProductMaker {
    var filePath: JString
    var randomFile: RandomFile
    var recordCount: nat
    /** the file's contents when it was opened */
    ghost var initial: seq<Byte>
    /** the records added since, in order */
    ghost var written: seq<ProductData>

    ghost predicate Valid()
      reads this, randomFile
    {
      && randomFile.Valid()
      && randomFile.data == SessionFile(initial, written)
      && randomFile.pos == |Encoded(written)|
      && recordCount == |written|
    }

    /** A successful `selectFile` on `chosenPath`, whose file holds `existing`
        (empty when "rw" creates it). */
    constructor (chosenPath: JString, existing: seq<Byte>)
      ensures Valid()
      ensures filePath == WithDatSuffix(chosenPath)
      ensures initial == existing && written == [] && recordCount == 0
      ensures fresh(randomFile) && randomFile.data == existing && randomFile.pos == 0
    {
      filePath := WithDatSuffix(chosenPath);
      randomFile := new RandomFile.Open(existing);
      recordCount := 0;
      initial := existing;
      written := [];
      SessionFileEmpty(existing);
    }

    /** `addProduct`: validate, build the `Product` from the trimmed fields, write the
        padded name, description and id with `writeUTF` and the cost with
        `writeDouble`, and count the record. A rejected input changes nothing. */
    method AddProduct(nameText: JString, descriptionText: JString, idText: JString, costText: JString,
                      parseDouble: JString -> Option<Bits64>) returns (outcome: AddOutcome)
      requires Valid()
      modifies this, randomFile
      ensures Valid()
      ensures outcome == Validate(nameText, descriptionText, idText, costText, parseDouble)
      ensures randomFile == old(randomFile) && filePath == old(filePath) && initial == old(initial)
      ensures outcome.Added? ==>
        && written == old(written) + [outcome.product]
        && recordCount == old(recordCount) + 1
        && randomFile.data == Overwrite(old(randomFile.data), old(randomFile.pos), RecordBytes(outcome.product))
        && randomFile.pos == old(randomFile.pos) + |RecordBytes(outcome.product)|
      ensures !outcome.Added? ==>
        written == old(written) && recordCount == old(recordCount)
        && randomFile.data == old(randomFile.data) && randomFile.pos == old(randomFile.pos)
    {
      outcome := Validate(nameText, descriptionText, idText, costText, parseDouble);
      if outcome.Added? {
        Append(outcome.product);
      }
    }

    /** The part of `addProduct` after validation: the new `Product`, its four writes at
        the file pointer, and the count. */
    method Append(record: ProductData)
      requires Valid()
      modifies this, randomFile
      ensures Valid()
      ensures randomFile == old(randomFile) && filePath == old(filePath) && initial == old(initial)
      ensures written == old(written) + [record] && recordCount == old(recordCount) + 1
      ensures randomFile.data == Overwrite(old(randomFile.data), old(randomFile.pos), RecordBytes(record))
      ensures randomFile.pos == old(randomFile.pos) + |RecordBytes(record)|
    {
      var product := new Product(record.name, record.description, record.productID, record.cost);
      assert product.Data() == record;
      ghost var before := randomFile.data;
      WriteRecord(randomFile, product);
      assert randomFile.data == Overwrite(before, |Encoded(written)|, RecordBytes(record));
      SessionFileSnoc(initial, written, record);
      EncodedSnoc(written, record);
      written := written + [record];
      recordCount := recordCount + 1;
    }
  }
}
