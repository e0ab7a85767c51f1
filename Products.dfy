/** `Product`: the record the maker writes and the search reads back, and the
    fixed field widths its text fields are padded or truncated to on disk. */
module Products {
  import opened JavaTypes
  import opened JavaString

  const NAME_SIZE: nat := 35
  const DESCRIPTION_SIZE: nat := 75
  const ID_SIZE: nat := 6
  /** A nominal record size: two bytes per character plus eight for the cost. The
      record as written is not this long (see `RecordFormat.AsciiRecordSize`). */
  const RECORD_SIZE: nat := (NAME_SIZE * 2) + (DESCRIPTION_SIZE * 2) + (ID_SIZE * 2) + 8

  /** What `padString(s, n)` returns: the first `n` code units of a longer `s`,
      otherwise `s` followed by spaces up to length `n`. */
  function Padded(s: JString, n: nat): JString {
    if |s| > n then s[..n] else s + Spaces(n - |s|)
  }

  /** Padding an already padded string to the same width changes nothing. */
  lemma PaddedIdempotent(s: JString, n: nat)
    ensures Padded(Padded(s, n), n) == Padded(s, n)
  {
    assert Padded(s, n) + Spaces(0) == Padded(s, n);
  }

  /** `padString`: copy `s` into a builder and append spaces until it reaches
      `length`, unless `s` is longer, in which case cut it to `length`. */
  method PadString(s: JString, length: nat) returns (r: JString)
    ensures |r| == length
    ensures |s| > length ==> r == s[..length]
    ensures |s| <= length ==> r[..|s|] == s && forall i :: |s| <= i < length ==> r[i] == SPACE
    ensures r == Padded(s, length)
  {
    if |s| > length {
      return s[..length];
    }
    var sb := s;
    while |sb| < length
      invariant |s| <= |sb| <= length
      invariant sb == s + Spaces(|sb| - |s|)
    {
      sb := sb + [SPACE];
    }
    r := sb;
  }

  /** A product as a value: what a search collects for each matching record. */
  datatype ProductData = ProductData(name: JString, description: JString, productID: JString, cost: Bits64)

  /** A `Product` object; `cost` holds the raw bits of the Java `double`. */
  class Product {
    var name: JString
    var description: JString
    var productID: JString
    var cost: Bits64

    constructor (name: JString, description: JString, productID: JString, cost: Bits64)
      ensures this.name == name && this.description == description
      ensures this.productID == productID && this.cost == cost
    {
      this.name := name;
      this.description := description;
      this.productID := productID;
      this.cost := cost;
    }

    /** The four fields as a value. */
    function Data(): ProductData
      reads this
    {
      ProductData(name, description, productID, cost)
    }

    method SetName(name: JString)
      modifies this`name
      ensures this.name == name
      ensures description == old(description) && productID == old(productID) && cost == old(cost)
    {
      this.name := name;
    }

    method SetDescription(description: JString)
      modifies this`description
      ensures this.description == description
      ensures name == old(name) && productID == old(productID) && cost == old(cost)
    {
      this.description := description;
    }

    method SetProductID(productID: JString)
      modifies this`productID
      ensures this.productID == productID
      ensures name == old(name) && description == old(description) && cost == old(cost)
    {
      this.productID := productID;
    }

    method SetCost(cost: Bits64)
      modifies this`cost
      ensures this.cost == cost
      ensures name == old(name) && description == old(description) && productID == old(productID)
    {
      this.cost := cost;
    }

    /** `getNameForRandom`: the name padded or truncated to 35 code units. */
    method GetNameForRandom() returns (r: JString)
      ensures |r| == NAME_SIZE && r == Padded(name, NAME_SIZE)
    {
      r := PadString(name, NAME_SIZE);
    }

    /** `getDescriptionForRandom`: the description padded or truncated to 75 code units. */
    method GetDescriptionForRandom() returns (r: JString)
      ensures |r| == DESCRIPTION_SIZE && r == Padded(description, DESCRIPTION_SIZE)
    {
      r := PadString(description, DESCRIPTION_SIZE);
    }

    /** `getProductIDForRandom`: the id padded or truncated to 6 code units. */
    method GetProductIDForRandom() returns (r: JString)
      ensures |r| == ID_SIZE && r == Padded(productID, ID_SIZE)
    {
      r := PadString(productID, ID_SIZE);
    }
  }
}
