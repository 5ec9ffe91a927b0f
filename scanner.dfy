/** The lookup a barcode scan triggers in the `Scanner` component: the decoded text
    with every white-space character removed first, the raw text when that misses. */
module ScannerModel {
  import opened Wrappers
  import opened Strings
  import opened Js
  import opened Products

  /** The primary query: `decodedText.replace(/\s/g, '')`. */
  function Candidate(decoded: string): string {
    RemoveSpace(decoded, IsJsSpace)
  }

  /** The record `onScanSuccess` ends up with for the text `decoded`: the result of
      the primary query, or the result of the raw query when the primary one finds nothing.
      Both queries use the own-key lookup `Lookup`, not the plain-object reading
      `SearchAsWritten`, so an inherited name such as `toString` finds nothing. */
  function ScanLookup(index: map<string, Json>, decoded: string): Option<Json> {
    var primary := Lookup(index, Candidate(decoded));
    if primary.Some? then primary else Lookup(index, decoded)
  }

  /** The primary query finds exactly the record stored under the stripped text: that text
      has no white space, so trimming leaves it as it is. */
  lemma CandidateLookup(index: map<string, Json>, decoded: string)
    requires IndexInvariant(index)
    ensures Lookup(index, Candidate(decoded)).Some? <==> Candidate(decoded) in index
    ensures Candidate(decoded) in index ==> Lookup(index, Candidate(decoded)) == Some(index[Candidate(decoded)])
  {
    StripNoSpace(Candidate(decoded), IsJsSpace);
    LookupExact(index, Candidate(decoded));
  }

  /** If the stripped text is a key, the scan finds that key's record. */
  lemma StrippedKeyFound(index: map<string, Json>, decoded: string)
    requires IndexInvariant(index)
    requires Candidate(decoded) in index
    ensures ScanLookup(index, decoded) == Some(index[Candidate(decoded)])
  {
    CandidateLookup(index, decoded);
  }

  /** Otherwise the scan finds what `searchByEAN` finds for the raw text, which trims it:
      this is how a key with white space inside it can still be matched. */
  lemma RawFallback(index: map<string, Json>, decoded: string)
    requires IndexInvariant(index)
    requires Candidate(decoded) !in index
    ensures ScanLookup(index, decoded) == Lookup(index, decoded)
    ensures ScanLookup(index, decoded).Some? <==> JsTrim(decoded) in index
  {
    CandidateLookup(index, decoded);
    LookupExact(index, decoded);
  }

  /** A scan finds a record exactly when the stripped text or the trimmed raw text is a key. */
  lemma ScanFound(index: map<string, Json>, decoded: string)
    requires IndexInvariant(index)
    ensures ScanLookup(index, decoded).Some? <==> Candidate(decoded) in index || JsTrim(decoded) in index
  {
    if Candidate(decoded) in index {
      StrippedKeyFound(index, decoded);
    } else {
      RawFallback(index, decoded);
    }
  }

  /** A scan of white space only finds nothing: both queries are empty once trimmed, and no key is. */
  lemma WhitespaceScanFindsNothing(index: map<string, Json>, decoded: string)
    requires IndexInvariant(index)
    requires AllSpace(decoded, IsJsSpace)
    ensures ScanLookup(index, decoded) == None
  {
    RemoveSpaceAllSpace(decoded, IsJsSpace);
    LookupWhitespaceOnly(index, decoded);
  }

  /** Two runs without white space and a space between them: the space is dropped. */
  lemma CandidateOfSpaced(a: string, b: string)
    requires NoSpace(a, IsJsSpace) && NoSpace(b, IsJsSpace)
    ensures Candidate(a + " " + b) == a + b
  {
    RemoveSpaceAppend(a + " ", b, IsJsSpace);
    RemoveSpaceAppend(a, " ", IsJsSpace);
    RemoveSpaceNoSpace(a, IsJsSpace);
    RemoveSpaceNoSpace(b, IsJsSpace);
    assert RemoveSpace(" ", IsJsSpace) == [];
  }

  /** A barcode read with a space inside, `385 0104022517`, finds the record stored under
      `3850104022517`. */
  lemma SpacedReadFound(index: map<string, Json>)
    requires IndexInvariant(index)
    requires "3850104022517" in index
    ensures ScanLookup(index, "385 0104022517") == Some(index["3850104022517"])
  {
    var a, b := "385", "0104022517";
    CandidateOfSpaced(a, b);
    assert a + " " + b == "385 0104022517";
    assert a + b == "3850104022517";
    StrippedKeyFound(index, "385 0104022517");
  }

  /** The state of the `Scanner` component that a scan changes. `isScannerOpen` stands for
      the signal of that name; `queried` records the arguments the last scan passed to
      `searchByEAN`, in order. */
  class Scanner {
    var isScannerOpen: bool
    var lastScanned: Option<string>
    var foundProduct: Option<Json>
    ghost var queried: seq<string>
    const productService: ProductService

    constructor (productService: ProductService)
      ensures this.productService == productService
      ensures !isScannerOpen && lastScanned == None && foundProduct == None && queried == []
    {
      this.productService := productService;
      isScannerOpen := false;
      lastScanned := None;
      foundProduct := None;
      queried := [];
    }

    /** `closeScanner`, without the camera: the scanner is marked closed. */
    method CloseScanner()
      modifies this
      ensures !isScannerOpen
      ensures lastScanned == old(lastScanned) && foundProduct == old(foundProduct) && queried == old(queried)
    {
      isScannerOpen := false;
    }

    /** `onScanSuccess`: remember the text, close the scanner, query with the white space
        removed, and query with the raw text only if that found nothing. */
    method OnScanSuccess(decodedText: string)
      modifies this
      ensures lastScanned == Some(decodedText)
      ensures !isScannerOpen
      ensures foundProduct == ScanLookup(productService.eanIndex, decodedText)
      ensures queried == if Lookup(productService.eanIndex, Candidate(decodedText)).Some?
        then [Candidate(decodedText)] else [Candidate(decodedText), decodedText]
    {
      lastScanned := Some(decodedText);
      CloseScanner();
      var eanCandidate := RemoveSpace(decodedText, IsJsSpace);
      foundProduct := productService.SearchByEan(eanCandidate);
      queried := [eanCandidate];
      if foundProduct.None? {
        foundProduct := productService.SearchByEan(decodedText);
        queried := queried + [decodedText];
      }
    }
  }
}
