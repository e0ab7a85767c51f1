/** `RandProductSearch.searchProducts`: open the file read-only at offset 0, decode
    records one after another while the file pointer is short of the length, keep
    those whose lower-cased name contains the lower-cased search term, stop quietly on
    end of file, and give up on any other read error. */
module ProductSearch {
  import opened JavaTypes
  import opened JavaString
  import opened RandomAccess
  import opened Products
  import opened RecordFormat

  /** `searchField.getText().trim().toLowerCase()`. */
  function SearchTerm(text: JString): (r: JString)
    ensures |r| == |Trim(text)|
  {
    Lower(Trim(text))
  }

  /** `name.toLowerCase().contains(searchTerm)`. */
  predicate NameMatches(name: JString, term: JString)
    ensures NameMatches(name, term) ==> |term| <= |name|
  {
    Contains(Lower(name), term)
  }

  /** The products whose names match `term`, in their original order. */
  function Filter(ps: seq<ProductData>, term: JString): (r: seq<ProductData>)
    ensures |r| <= |ps|
    ensures forall p :: p in r <==> p in ps && NameMatches(p.name, term)
  {
    if ps == [] then []
    else (if NameMatches(ps[0].name, term) then [ps[0]] else []) + Filter(ps[1..], term)
  }

  /** Filtering keeps the order: the matches of a concatenation are the matches of the
      first part followed by those of the second. */
  lemma {:induction false} FilterConcat(a: seq<ProductData>, b: seq<ProductData>, term: JString)
    ensures Filter(a + b, term) == Filter(a, term) + Filter(b, term)
  {
    if a != [] {
      assert (a + b)[1..] == a[1..] + b;
      FilterConcat(a[1..], b, term);
    } else {
      assert a + b == b;
    }
  }

  /** When every name matches, filtering keeps everything. */
  lemma {:induction false} FilterAllMatch(ps: seq<ProductData>, term: JString)
    requires forall i :: 0 <= i < |ps| ==> NameMatches(ps[i].name, term)
    ensures Filter(ps, term) == ps
  {
    if ps != [] {
      var rest := ps[1..];
      forall i | 0 <= i < |rest|
        ensures NameMatches(rest[i].name, term)
      {
        assert rest[i] == ps[i + 1];
      }
      FilterAllMatch(rest, term);
      assert NameMatches(ps[0].name, term);
      assert Filter(ps, term) == [ps[0]] + Filter(rest, term);
      assert ps == [ps[0]] + rest;
    }
  }

  /** Every record a scan decodes from some offset on, in file order, and whether the
      scan ended on a UTFDataFormatException rather than at the end of the file. */
  datatype Listing = Listing(records: seq<ProductData>, malformed: bool)

  /** The records of a file from offset `at` on, decoded until the pointer reaches the
      length, a record runs out of bytes (dropped, the scan ends cleanly) or bytes are
      malformed. */
  function Records(data: seq<Byte>, at: nat): (r: Listing)
    ensures at <= |data| ==> 14 * |r.records| <= |data| - at
    decreases |data| - at, 1
  {
    if |data| <= at then Listing([], false) else RecordsFrom(data, at)
  }

  /** The records from offset `at` on, short of the end of the file: the record
      decoded there and those after it. */
  function RecordsFrom(data: seq<Byte>, at: nat): (r: Listing)
    requires at < |data|
    ensures 14 * |r.records| <= |data| - at
    decreases |data| - at, 0
  {
    match DecodeRecord(data, at)
    case EndOfData => Listing([], false)
    case BadBytes => Listing([], true)
    case Record(p, next) =>
      var more := Records(data, next);
      Listing([p] + more.records, more.malformed)
  }

  /** The outcome of a search: no term to search for (nothing is read), the matching
      products, or a read error that abandons the search with no result list. */
  datatype SearchOutcome = NoSearchTerm | Found(matches: seq<ProductData>) | ReadFailed

  /** What `searchProducts` yields for a file holding `disk` and the text typed into the
      search field. */
  function SearchResult(disk: seq<Byte>, searchText: JString): (r: SearchOutcome)
    ensures r.NoSearchTerm? <==> Trim(searchText) == []
    ensures r.Found? ==> 14 * |r.matches| <= |disk|
    ensures r.Found? ==> forall p :: p in r.matches ==> NameMatches(p.name, SearchTerm(searchText))
  {
    var term := SearchTerm(searchText);
    if term == [] then NoSearchTerm
    else
      var listing := Records(disk, 0);
      if listing.malformed then ReadFailed else Found(Filter(listing.records, term))
  }

  /** One `readUTF().trim()` of a record whose earlier text fields are `fields`: the
      trimmed field, or, when the read throws, the step the record ends in. */
  method ReadTextField(file: RandomFile, ghost fields: seq<JString>) returns (text: JString, stop: Option<Step>)
    requires file.Valid() && |fields| < 3
    modifies file`pos
    ensures file.Valid() && file.data == old(file.data)
    ensures stop.Some? ==> stop.value == ReadFields(fields, file.data, old(file.pos)) && !stop.value.Record?
    ensures stop.None? ==>
      ReadFields(fields, file.data, old(file.pos)) == ReadFields(fields + [text], file.data, file.pos)
  {
    ghost var data, start := file.data, file.pos;
    var raw := file.ReadUTF();
    if !raw.Got? {
      FieldFails(fields, data, start);
      return [], Some(if raw.EndOfFile? then EndOfData else BadBytes);
    }
    text := Trim(raw.value);
    FieldRead(fields, data, start, raw.value, raw.size);
    return text, None;
  }

  /** One pass of the loop body before the match test: three `readUTF().trim()` and a
      `readDouble`. On a record the pointer ends just past it. */
  method ReadRecord(file: RandomFile) returns (step: Step)
    requires file.Valid()
    modifies file`pos
    ensures file.Valid() && file.data == old(file.data)
    ensures step == DecodeRecord(file.data, old(file.pos))
    ensures step.Record? ==> file.pos == step.next
  {
    var name, description, id, stop;
    name, stop := ReadTextField(file, []);
    if stop.Some? {
      return stop.value;
    }
    assert [] + [name] == [name];
    description, stop := ReadTextField(file, [name]);
    if stop.Some? {
      return stop.value;
    }
    assert [name] + [description] == [name, description];
    id, stop := ReadTextField(file, [name, description]);
    if stop.Some? {
      return stop.value;
    }
    assert [name, description] + [id] == [name, description, id];
    ghost var afterId := file.pos;
    var rawCost := file.ReadDouble();
    if !rawCost.Got? {
      assert ReadFields([name, description, id], file.data, afterId) == EndOfData;
      return EndOfData;
    }
    step := Record(ProductData(name, description, id, rawCost.value), file.pos);
    assert ReadFields([name, description, id], file.data, afterId) == step;
  }

  /** The loop invariant of `searchProducts`: the records decoded so far, followed by
      those from the file pointer on, are the records of the file. */
  ghost predicate Scanned(disk: seq<Byte>, pos: nat, decoded: seq<ProductData>) {
    pos <= |disk| &&
    var later := Records(disk, pos);
    Records(disk, 0) == Listing(decoded + later.records, later.malformed)
  }

  lemma ScanRecord(disk: seq<Byte>, pos: nat, decoded: seq<ProductData>, p: ProductData, next: nat)
    requires Scanned(disk, pos, decoded) && pos < |disk|
    requires DecodeRecord(disk, pos) == Record(p, next)
    ensures Scanned(disk, next, decoded + [p])
  {
    var later := Records(disk, next);
    assert Records(disk, pos) == RecordsFrom(disk, pos) == Listing([p] + later.records, later.malformed);
    assert decoded + ([p] + later.records) == decoded + [p] + later.records;
  }

  lemma ScanEnd(disk: seq<Byte>, pos: nat, decoded: seq<ProductData>)
    requires Scanned(disk, pos, decoded)
    requires pos == |disk| || DecodeRecord(disk, pos) == EndOfData
    ensures Records(disk, 0) == Listing(decoded, false)
  {
    if pos < |disk| {
      assert Records(disk, pos) == RecordsFrom(disk, pos) == Listing([], false);
    }
    assert decoded + [] == decoded;
  }

  lemma ScanBad(disk: seq<Byte>, pos: nat, decoded: seq<ProductData>)
    requires Scanned(disk, pos, decoded)
    requires pos < |disk| && DecodeRecord(disk, pos) == BadBytes
    ensures Records(disk, 0).malformed
  {
    assert Records(disk, pos) == RecordsFrom(disk, pos) == Listing([], true);
  }

  /** `searchProducts` over a fresh read-only handle on a file holding `disk`. */
  method SearchProducts(disk: seq<Byte>, searchText: JString) returns (outcome: SearchOutcome)
    ensures outcome == SearchResult(disk, searchText)
  {
    var searchTerm := Lower(Trim(searchText));
    if searchTerm == [] {
      return NoSearchTerm;
    }
    var matchingProducts: seq<ProductData> := [];
    ghost var decoded: seq<ProductData> := [];
    var randomFile := new RandomFile.Open(disk);
    while randomFile.pos < |randomFile.data|
      invariant randomFile.Valid() && randomFile.data == disk
      invariant Scanned(disk, randomFile.pos, decoded)
      invariant matchingProducts == Filter(decoded, searchTerm)
      decreases |disk| - randomFile.pos
    {
      ghost var start := randomFile.pos;
      var step := ReadRecord(randomFile);
      if step.EndOfData? {
        ScanEnd(disk, start, decoded);
        break;
      }
      if step.BadBytes? {
        ScanBad(disk, start, decoded);
        return ReadFailed;
      }
      var product := step.product;
      ScanRecord(disk, start, decoded, product, step.next);
      if Contains(Lower(product.name), searchTerm) {
        matchingProducts := matchingProducts + [product];
      }
      FilterConcat(decoded, [product], searchTerm);
      decoded := decoded + [product];
    }
    if randomFile.pos >= |randomFile.data| {
      ScanEnd(disk, randomFile.pos, decoded);
    }
    return Found(matchingProducts);
  }

  /** Every record a scan lists has trimmed text fields. */
  lemma {:induction false} RecordsTrimmed(data: seq<Byte>, at: nat)
    ensures forall p :: p in Records(data, at).records ==> TrimmedFields(p)
    decreases |data| - at
  {
    if at < |data| {
      assert Records(data, at) == RecordsFrom(data, at);
      match DecodeRecord(data, at)
      case Record(p, next) =>
        DecodedTrimmed(data, at);
        RecordsTrimmed(data, next);
        assert Records(data, at).records == [p] + Records(data, next).records;
      case _ =>
    }
  }

  /** The matches are exactly the records of the file, trimmed as read, whose
      lower-cased name contains the lower-cased, trimmed search term. */
  lemma SearchFindsMatches(disk: seq<Byte>, searchText: JString)
    requires SearchResult(disk, searchText).Found?
    ensures var found := SearchResult(disk, searchText).matches;
      forall p :: p in found <==>
        p in Records(disk, 0).records && Contains(Lower(p.name), Lower(Trim(searchText)))
    ensures forall p :: p in SearchResult(disk, searchText).matches ==> TrimmedFields(p)
  {
    RecordsTrimmed(disk, 0);
  }

  /** Records written one after another from offset `at` on, ending at `far`, read back
      as their stored forms, followed by whatever comes from `far` on. */
  lemma {:induction false} RecordsOfEncoded(ws: seq<ProductData>, data: seq<Byte>, at: nat, far: nat)
    requires At(data, at, Encoded(ws)) && far == at + |Encoded(ws)|
    ensures Records(data, at) == Listing(StoredAll(ws) + Records(data, far).records, Records(data, far).malformed)
  {
    if ws == [] {
      assert StoredAll(ws) + Records(data, far).records == Records(data, far).records;
    } else {
      var first, rest := RecordBytes(ws[0]), Encoded(ws[1..]);
      EncodedCons(ws);
      AtSplit(data, at, first, rest);
      var next := at + |first|;
      RecordsOfEncoded(ws[1..], data, next, far);
      DecodeRecordBytes(ws[0], data, at);
      RecordsPrepend(data, at, next, far, Stored(ws[0]), StoredAll(ws[1..]));
      assert StoredAll(ws) == [Stored(ws[0])] + StoredAll(ws[1..]);
    }
  }

  /** A record decoded at `at` goes in front of the records after it. */
  lemma RecordsPrepend(data: seq<Byte>, at: nat, next: nat, far: nat, p: ProductData, done: seq<ProductData>)
    requires DecodeRecord(data, at) == Record(p, next)
    requires Records(data, next) == Listing(done + Records(data, far).records, Records(data, far).malformed)
    ensures Records(data, at) == Listing([p] + done + Records(data, far).records, Records(data, far).malformed)
  {
    var later := Records(data, far);
    assert Records(data, at) == RecordsFrom(data, at);
    assert [p] + (done + later.records) == [p] + done + later.records;
  }

  lemma EncodedCons(ws: seq<ProductData>)
    requires ws != []
    ensures Encoded(ws) == RecordBytes(ws[0]) + Encoded(ws[1..])
  {
  }

  /** Records that fit their widths are stored as they are. */
  lemma {:induction false} StoredAllFits(ws: seq<ProductData>)
    requires forall i :: 0 <= i < |ws| ==> Fits(ws[i])
    ensures StoredAll(ws) == ws
  {
    if ws != [] {
      StoredFits(ws[0]);
      StoredAllFits(ws[1..]);
    }
  }

  /** A file that holds exactly the records `ws` lists their stored forms, with no
      error. */
  lemma EncodedFileRecords(ws: seq<ProductData>)
    ensures Records(Encoded(ws), 0) == Listing(StoredAll(ws), false)
  {
    var data := Encoded(ws);
    assert data[0..|data|] == data;
    RecordsOfEncoded(ws, data, 0, |data|);
    assert StoredAll(ws) + [] == StoredAll(ws);
  }

  /** A file of records that fit decodes to exactly those records, with no error. */
  lemma WrittenFileRecords(ws: seq<ProductData>)
    requires forall i :: 0 <= i < |ws| ==> Fits(ws[i])
    ensures Records(Encoded(ws), 0) == Listing(ws, false)
  {
    EncodedFileRecords(ws);
    StoredAllFits(ws);
  }

  /** Round trip: searching a file written by successive adds whose fields fit returns
      exactly the matching records, with the values written, in write order. */
  lemma SearchWrittenFile(ws: seq<ProductData>, searchText: JString)
    requires forall i :: 0 <= i < |ws| ==> Fits(ws[i])
    requires SearchTerm(searchText) != []
    ensures SearchResult(Encoded(ws), searchText) == Found(Filter(ws, SearchTerm(searchText)))
  {
    WrittenFileRecords(ws);
  }

  /** With a term that every name contains, the search returns every record written. */
  lemma SearchWrittenFileAll(ws: seq<ProductData>, searchText: JString)
    requires forall i :: 0 <= i < |ws| ==> Fits(ws[i])
    requires SearchTerm(searchText) != []
    requires forall i :: 0 <= i < |ws| ==> NameMatches(ws[i].name, SearchTerm(searchText))
    ensures SearchResult(Encoded(ws), searchText) == Found(ws)
  {
    SearchWrittenFile(ws, searchText);
    FilterAllMatch(ws, SearchTerm(searchText));
  }

  /** A truncated last record is dropped silently: the search still succeeds with the
      matches among the complete records before it. */
  lemma TruncatedRecordDropped(ws: seq<ProductData>, last: ProductData, k: nat, searchText: JString)
    requires 0 < k < |RecordBytes(last)|
    requires SearchTerm(searchText) != []
    ensures SearchResult(Encoded(ws) + RecordBytes(last)[..k], searchText)
            == Found(Filter(StoredAll(ws), SearchTerm(searchText)))
  {
    var front := Encoded(ws);
    var data := front + RecordBytes(last)[..k];
    assert data[0..|front|] == front;
    RecordsOfEncoded(ws, data, 0, |front|);
    assert data[|front|..] == RecordBytes(last)[..k];
    DecodeCutRecord(last, data, |front|);
    assert StoredAll(ws) + [] == StoredAll(ws);
  }

  /** A name field announcing one byte that is a bare continuation byte. */
  const MALFORMED_FIELD: seq<Byte> := [0x00, 0x01, 0x80]

  /** Bytes that fail to decode anywhere after the complete records abandon the whole
      search, discarding the matches found before them. */
  lemma MalformedBytesAbandonSearch(ws: seq<ProductData>, rest: seq<Byte>, searchText: JString)
    requires SearchTerm(searchText) != []
    requires DecodeRecord(Encoded(ws) + rest, |Encoded(ws)|) == BadBytes
    ensures SearchResult(Encoded(ws) + rest, searchText) == ReadFailed
  {
    var front := Encoded(ws);
    var data := front + rest;
    assert data[0..|front|] == front;
    RecordsOfEncoded(ws, data, 0, |front|);
    BadBytesInFile(data, |front|);
    assert Records(data, |front|) == RecordsFrom(data, |front|) == Listing([], true);
  }

  /** A record can only be malformed where the file still has bytes. */
  lemma BadBytesInFile(data: seq<Byte>, at: nat)
    ensures DecodeRecord(data, at) == BadBytes ==> at + 2 <= |data|
  {
    if |data| < at + 2 {
      FieldFails([], data, at);
    }
  }

  /** Such bytes exist: a name field announcing one byte that is a bare continuation
      byte abandons the search, whatever follows it. */
  lemma MalformedFieldAbandonsSearch(ws: seq<ProductData>, tail: seq<Byte>, searchText: JString)
    requires SearchTerm(searchText) != []
    ensures SearchResult(Encoded(ws) + (MALFORMED_FIELD + tail), searchText) == ReadFailed
  {
    var front := Encoded(ws);
    var data := front + (MALFORMED_FIELD + tail);
    assert data[|front|..] == MALFORMED_FIELD + tail;
    MalformedFieldFails(data, |front|, tail);
    MalformedBytesAbandonSearch(ws, MALFORMED_FIELD + tail, searchText);
  }

  /** A record whose name field is `MALFORMED_FIELD` fails to decode. */
  lemma MalformedFieldFails(data: seq<Byte>, at: nat, tail: seq<Byte>)
    requires at <= |data| && data[at..] == MALFORMED_FIELD + tail
    ensures DecodeRecord(data, at) == BadBytes
  {
    assert data[at] == 0x00 && data[at + 1] == 0x01;
    assert data[at + 2..at + 3] == data[at..][2..3] == (MALFORMED_FIELD + tail)[2..3] == [0x80];
    assert ModifiedUtf8.DecodeChar([0x80]) == None;
    assert UtfFrom(data, at) == Malformed(3);
    FieldFails([], data, at);
  }

  /** An empty file is not an error: it has no matches. */
  lemma EmptyFileNoMatches(searchText: JString)
    requires SearchTerm(searchText) != []
    ensures SearchResult([], searchText) == Found([])
  {
  }

  /** A blank search term reads nothing, whatever the file holds. */
  lemma BlankTermReadsNothing(disk: seq<Byte>, searchText: JString)
    requires Trim(searchText) == []
    ensures SearchResult(disk, searchText) == NoSearchTerm
  {
  }
}
