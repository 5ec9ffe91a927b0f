# Gluten-free product registry: EAN index, barcode lookup and scraper string logic

This project models the core of the gluten-free product registry: a web app that
scans a barcode and looks the product up, and the scraper that built its dataset.
It covers five parts.

- **The EAN index of `ProductService`.** `loadIndex` takes the newline-delimited JSON
  payload. It trims the payload, splits it on `\r?\n` and skips blank and unparsable
  lines, and lines on whose record `findEAN` throws. Each record goes into the `eanIndex` map under the EAN that `findEAN` finds,
  and a later record overwrites an earlier one. `findEAN` probes five fields in a fixed
  order under JavaScript truthiness and trims what it finds. `searchByEAN` reads the trimmed
  argument from `eanIndex`, a plain JavaScript object. The model's `Lookup` is the
  own-key reading of that access; the plain-object reading, which also finds the
  names every object inherits, is `SearchAsWritten` (see "## Findings").
- **`Scanner.onScanSuccess`.** It records the decoded text and closes the scanner. It
  then queries with every white-space character removed, and queries with the raw
  text only when that misses.
- **The details loop of `parse_product`.** It runs over the paragraph texts of the
  description tab. `key: value` paragraphs go into a Python dict, which keeps
  insertion order. Other paragraphs go into the ordered `notes` list. The tab's link
  goes under `external_link` last.
- **The image loop of `parse_product`.** It keeps the last `src` under
  `/image/product`.
- **The link filters of `get_categories` and `get_products_from_category`.** Product
  links keep document order and duplicates. Category links are deduplicated and sorted.

The Dafny modules follow the program:

| file | module | what it holds |
|---|---|---|
| `wrappers.dfy` | `Wrappers` | `Option` and `Result` |
| `strings.dfy` | `Strings` | JavaScript `trim` and `\s`, Python `strip`, `\r?\n` split, `in` and `startswith` on strings, Python's string order |
| `js.dfy` | `Js` | JSON values, truthiness, `?.[]` reads, `String(v)` |
| `products.dfy` | `Products` | class `ProductService`, the functions specifying it, and its lemmas |
| `scanner.dfy` | `ScannerModel` | class `Scanner`, `ScanLookup` and its lemmas |
| `scraper.dfy` | `Scraper` | the details loop, the image loop, the link collectors and `sorted(set(…))` |

Each imperative operation is a method. Its `ensures` ties the result, or the new
state, to a specification function. The properties of that function are proved as
lemmas.

- `LoadIndex` is specified by `Load`, and the longer proofs are about `Fold`. `Fold`
  stores one line's entry after another.
- `ParseDetails` is specified by `DetailsOf` and `Build`. `Build` folds `Step` over
  the classified paragraphs.
- `PickImage` is specified by `LastImage`.
- `CollectLinks` is specified by `Links`.

A few behaviours outside the program are parameters:

- `JSON.parse` of one line (`Runtime.parse`, `None` when it throws);
- the way `String` renders a number (`Runtime.showNumber`);
- `urljoin(BASE, ·)` (`resolve`).

## Model

| member | source | states |
|---|---|---|
| Js.Truthy | src/app/product.service.ts:65 | definition: JavaScript truthiness of a parsed value or `undefined`, used by the tests at :56, :65 and :73 (the test `if (ean)` at :46 is `Products.Keyed`); `Products.EanOfFirstMatch`, `Products.ZeroEanIsSkipped` and `Products.LineEntryValid` carry what it means for the index |
| Js.Member | src/app/product.service.ts:58-62 | definition: `x?.[k]` and `x[k]` read an own key of an object and give `undefined` otherwise; `Products.EanOfFirstMatch` states the probe order built from it |
| Js.Unprintable | src/app/product.service.ts:65 | definition: the values `String` throws on; `Js.ToStr` proves it is exactly the error case |
| Products.FirstTruthy | src/app/product.service.ts:64-66 | the loop stops at a position in range holding a truthy value |
| Products.FirstTruthyFirst | src/app/product.service.ts:64-67 | the loop stops at the first truthy value, and runs to the end exactly when no value is truthy |
| Js.ToStr | src/app/product.service.ts:65 | `String(v)` throws exactly when `v` is an object with its own `toString` key, or an array holding such a value at any depth |
| Js.JoinFrom | src/app/product.service.ts:65 | `join` of the elements from `i` on throws exactly when one of those elements is a value `String` throws on |
| Products.Probes | src/app/product.service.ts:57-63 | definition: the five probes `details.EAN`, `details.ean`, `EAN`, `ean`, `details.Ean`, in that order; `Products.EanOfFirstMatch` states the first-match rule over them |
| Products.EanOf | src/app/product.service.ts:55-68 | definition: what `findEAN` returns or throws; `Products.EanOfFirstMatch` and `Products.UnprintableEanThrows` state it, and `Products.ProductService.FindEan` computes it |
| Products.EanOfFirstMatch | src/app/product.service.ts:55-68 | `findEAN` returns null exactly when the item is falsy or none of the five probes is truthy; otherwise it takes the first truthy probe in the order `details.EAN`, `details.ean`, `EAN`, `ean`, `details.Ean`, and throws exactly when `String` throws on it, else returns its trimmed `String` |
| Products.UnprintableEanThrows | src/app/product.service.ts:64-65 | a first truthy probe that `String` throws on makes `findEAN` throw a `TypeError` |
| Products.ZeroEanIsSkipped | src/app/product.service.ts:65 | a numeric EAN `0` is falsy, so a record holding only it yields no EAN |
| Products.Keyed | src/app/product.service.ts:46 | definition: `if (ean)` stores a record only under a non-empty EAN; `Products.LineEntryValid` states the keys it produces |
| Products.LineEntry | src/app/product.service.ts:42-49 | definition: one line's entry, `None` for a blank line, a parse error, a throw in `findEAN` or no EAN; `Products.LineEntryValid`, `Products.SkippedLine` and `Products.ThrowingLineSkipped` state its meaning |
| Products.Fold | src/app/product.service.ts:41-51 | definition: entries stored one after another, a later one overwriting an earlier one; `Products.LastWriteWins`, `Products.FoldUntouched` and `Products.FoldTwice` state its meaning |
| Products.IndexLines | src/app/product.service.ts:41-51 | definition: the loop of `loadIndex` over the lines; `Products.IndexLinesKeepsInvariant` and `Products.LastWriteWins` state its meaning |
| Products.Load | src/app/product.service.ts:34-51 | definition: `loadIndex` after the fetch; `Products.LoadEmptyPayload` and `Products.LoadIdempotent` state its meaning, and `Products.ProductService.LoadIndex` computes it |
| Products.Store | src/app/product.service.ts:46 | definition: `this.eanIndex[ean] = item` for one entry; `Products.FoldSnoc`, `Products.LastWriteWins` and `Products.ProductService.IndexLine` state its use |
| Products.FoldSnoc | src/app/product.service.ts:41-51 | one more line stores its entry on top of the map that the earlier lines built |
| Products.IndexLinesStep | src/app/product.service.ts:41-51 | the map after line `i` is the map before it with that line's entry stored |
| Products.FoldAppend | src/app/product.service.ts:41-51 | indexing two runs of lines is indexing the second run on top of the first |
| Products.KeyIsTrimmed | src/app/product.service.ts:65 | an index key is unchanged by `trim` |
| Products.LineEntryValid | src/app/product.service.ts:44-46 | a stored entry has a non-empty, trimmed key and a truthy record |
| Products.FoldKeepsInvariant | src/app/product.service.ts:41-51 | storing only valid entries keeps every key non-empty and trimmed and every record truthy |
| Products.IndexLinesKeepsInvariant | src/app/product.service.ts:41-51 | the loop over any lines keeps that index invariant |
| Products.FoldUntouched | src/app/product.service.ts:18 | a key that no line writes keeps its previous record, or stays absent: the map is never cleared |
| Products.UntouchedKey | src/app/product.service.ts:18 | the same for the loop of `loadIndex` |
| Products.LastWriteWins | src/app/product.service.ts:46 | after the loop, a key maps to the record of the last line that writes it |
| Products.SkippedLine | src/app/product.service.ts:42-50 | a blank, unparsable or EAN-less line can be removed without changing the result, so the lines after it are all processed |
| Products.ThrowingLineSkipped | src/app/product.service.ts:43-49 | a line on whose record `findEAN` throws is caught and skipped: it stores nothing, and removing it changes nothing |
| Products.ToStringKeyLineSkipped | src/app/product.service.ts:43-49 | the line `{"EAN":{"toString":1}}` stores nothing, so loading it alone leaves the index unchanged |
| Products.LoadEmptyPayload | src/app/product.service.ts:34-37 | a payload of white space only leaves the index unchanged |
| Products.FoldOverlay | src/app/product.service.ts:41-51 | indexing onto a map is that map overlaid with what the lines index onto an empty map |
| Products.FoldTwice | src/app/product.service.ts:41-46 | running the loop twice over the same lines gives the map it gives once |
| Products.LoadIdempotent | src/app/product.service.ts:27-52 | loading the same payload twice gives the same index as loading it once |
| Products.FoldSizeBound | src/app/product.service.ts:41-51 | indexing onto the empty map gives at most as many keys as there are lines that store a record |
| Products.FoldSizeDistinct | src/app/product.service.ts:41-51 | indexing onto the empty map lines whose stored keys are pairwise distinct gives as many keys as storing lines |
| Products.IndexSize | src/app/product.service.ts:41-51 | both facts above, for the loop of `loadIndex` |
| Products.Lookup | src/app/product.service.ts:70-74 | definition: `searchByEAN` as an own-key lookup of the trimmed argument, the corrected reading of the finding; `Products.LookupExact` states its meaning |
| Products.LookupExact | src/app/product.service.ts:70-74 | on a built index, `searchByEAN(x)` finds a record exactly when `trim(x)` is a key, and then it is that key's record: no fuzzy matching |
| Products.LookupIgnoresSurroundingSpace | src/app/product.service.ts:72 | trimming the argument first changes nothing |
| Products.LookupWhitespaceOnly | src/app/product.service.ts:71-73 | an argument of white space only finds nothing |
| Products.SearchAsWritten | src/app/product.service.ts:73 | definition: the read `this.eanIndex[ean]` on a plain object, inherited names included; the as-written half of the finding, stated by `Products.SearchAsWrittenAgrees` and `Products.InheritedNameFound` |
| Products.SearchAsWrittenAgrees | src/app/product.service.ts:73 | away from the names `Object.prototype` carries, the plain-object reading of the index agrees with `Lookup` |
| Products.InheritedNameFound | src/app/product.service.ts:18 | the text `toString` reads an inherited member from the plain-object index, where `Lookup` finds nothing |
| Products.ProductService.constructor | src/app/product.service.ts:18 | the index starts empty |
| Products.ProductService.LoadIndex | src/app/product.service.ts:27-52 | the new index is `Load` of the old index and the payload, and the index invariant is kept |
| Products.ProductService.IndexLine | src/app/product.service.ts:42-50 | one pass of the loop stores that line's entry, if any, and nothing else, and keeps the index invariant |
| Products.ProductService.FindEan | src/app/product.service.ts:55-68 | the first-truthy-probe loop returns `EanOf` of the item, the thrown `TypeError` included |
| Products.ProductService.SearchByEan | src/app/product.service.ts:70-74 | the result is `Lookup`; a record found is the one stored under the trimmed argument; on a valid index, a record is found exactly when the trimmed argument is a key |
| ScannerModel.Candidate | src/app/scanner/scanner.ts:109 | definition: `decodedText.replace(/\s/g, '')`; `ScannerModel.CandidateOfSpaced` and `Strings.RemoveSpaceKeeps` state its meaning |
| ScannerModel.ScanLookup | src/app/scanner/scanner.ts:109-115 | definition: the primary query, then the raw one on a miss; `ScannerModel.ScanFound` states its meaning and `ScannerModel.Scanner.OnScanSuccess` computes it |
| ScannerModel.CandidateLookup | src/app/scanner/scanner.ts:109-110 | the primary query with all white space removed finds exactly the record stored under that text |
| ScannerModel.StrippedKeyFound | src/app/scanner/scanner.ts:109-110 | if the text with white space removed is a key, the scan finds its record |
| ScannerModel.RawFallback | src/app/scanner/scanner.ts:113-115 | otherwise the scan finds what the raw text finds, which matches exactly when the trimmed raw text is a key, one with spaces inside included |
| ScannerModel.ScanFound | src/app/scanner/scanner.ts:104-116 | a scan finds a record exactly when the stripped text or the trimmed raw text is a key |
| ScannerModel.WhitespaceScanFindsNothing | src/app/scanner/scanner.ts:109-115 | a scan of white space only leaves `foundProduct` null |
| ScannerModel.CandidateOfSpaced | src/app/scanner/scanner.ts:109 | the space between two runs without white space is dropped |
| ScannerModel.SpacedReadFound | src/app/scanner/scanner.ts:109-110 | the read `385 0104022517` finds the record stored under `3850104022517` |
| ScannerModel.Scanner.constructor | src/app/scanner/scanner.ts:18-20 | the scanner starts closed, with nothing scanned and nothing found |
| ScannerModel.Scanner.CloseScanner | src/app/scanner/scanner.ts:135-138 | the scanner is marked closed and nothing else changes |
| ScannerModel.Scanner.OnScanSuccess | src/app/scanner/scanner.ts:104-116 | `lastScanned` is the exact decoded text, the scanner is closed, `foundProduct` is `ScanLookup` of the text, and the raw query runs only when the stripped query found nothing |
| Strings.IsJsSpace | src/app/product.service.ts:34 | definition: the characters JavaScript's `trim` and `\s` treat as white space |
| Strings.IsPySpace | scraper.py:85 | definition: the characters Python's `str.strip()` treats as white space |
| Strings.JsTrim | src/app/product.service.ts:72 | definition: `String.prototype.trim`; `Strings.Strip`, `Strings.StripIdempotent` and `Strings.StripSurrounded` state its meaning |
| Strings.PyStrip | scraper.py:85 | definition: `str.strip()`; `Strings.Strip` and `Strings.StripInside` state its meaning |
| Strings.StartsWith | scraper.py:86 | definition: `str.startswith`; `Scraper.LastImageUnderPrefix` uses it |
| Strings.Contains | scraper.py:30 | definition: `in` on strings; `Scraper.LinksMembers` states which links it keeps |
| Strings.Less | scraper.py:33 | definition: Python's `<` on `str`; `Strings.LessIrreflexive`, `Strings.LessTransitive` and `Strings.LessTotal` state that it is a strict total order |
| Strings.TrimStart | src/app/product.service.ts:34 | trimming the front never lengthens the text |
| Strings.TrimStartShape | src/app/product.service.ts:34 | trimming the front drops a prefix of white space and leaves a text that does not start with white space |
| Strings.TrimEnd | src/app/product.service.ts:34 | trimming the end never lengthens the text |
| Strings.TrimEndShape | src/app/product.service.ts:34 | trimming the end drops a suffix of white space and leaves a text that does not end with white space |
| Strings.Strip | src/app/product.service.ts:34 | the result neither starts nor ends with white space, and it is empty exactly when the text is all white space |
| Strings.StripInside | scraper.py:74 | every character of the stripped text occurs in the text |
| Strings.TrimStartSkips | src/app/product.service.ts:34 | white space followed by a text that does not start with white space trims to that text |
| Strings.TrimEndSkips | src/app/product.service.ts:34 | a text that does not end with white space, followed by white space, trims to that text |
| Strings.StripSurrounded | src/app/product.service.ts:65 | a stripped text with white space around it strips back to itself |
| Strings.StripIdempotent | src/app/product.service.ts:72 | trimming twice is trimming once |
| Strings.StripNoSpace | src/app/product.service.ts:72 | a text without white space is unchanged by trimming |
| Strings.RemoveSpace | src/app/scanner/scanner.ts:109 | `replace(/\s/g, '')` leaves no white space and never lengthens the text |
| Strings.RemoveSpaceKeeps | src/app/scanner/scanner.ts:109 | a character survives exactly when it occurs in the text and is not white space |
| Strings.RemoveSpaceAllSpace | src/app/scanner/scanner.ts:109 | a text of white space only becomes empty |
| Strings.RemoveSpaceNoSpace | src/app/scanner/scanner.ts:109 | a text without white space is unchanged |
| Strings.RemoveSpaceAppend | src/app/scanner/scanner.ts:109 | removing white space from two joined texts is removing it from each |
| Strings.FirstIndex | scraper.py:73 | the position found holds the character, and no earlier position does |
| Strings.FirstIndexAt | scraper.py:73 | the first position holding the character is the only one meeting that description |
| Strings.SplitLines | src/app/product.service.ts:40 | `split(/\r?\n/)` yields at least one line |
| Strings.SplitLinesNoLineFeed | src/app/product.service.ts:40 | no line holds a line feed |
| Strings.SplitLinesSingle | src/app/product.service.ts:40 | a text without a line feed is a single line |
| Strings.SplitLinesCons | src/app/product.service.ts:40 | a line, a line feed and the rest split into that line followed by the lines of the rest |
| Strings.SplitLinesCrLf | src/app/product.service.ts:40 | a carriage return just before the first line feed belongs to the separator, so `l\r\nrest` splits into `l` followed by the lines of `rest` |
| Strings.SplitLinesExamples | src/app/product.service.ts:40 | `a\r\nb` splits into `a` and `b`, `a\rb` stays one piece, and `a\r\r\nb` splits into `a\r` and `b` |
| Strings.SplitJoinLines | src/app/product.service.ts:40 | lines joined with line feeds split back into the same lines |
| Strings.LessIrreflexive | scraper.py:33 | no string sorts before itself |
| Strings.LessTransitive | scraper.py:33 | Python's string order is transitive |
| Strings.LessTotal | scraper.py:33 | of two different strings one sorts before the other |
| Scraper.Put | scraper.py:74 | definition: `details[k] = v` on an insertion-ordered dict; `Scraper.PutWellOrdered` and `Scraper.PutTwice` state its meaning |
| Scraper.Step | scraper.py:71-76 | definition: one pass of the paragraph loop, `Err` where `append` meets a string; `Scraper.BuildFailsFrom` states when it fails |
| Scraper.Build | scraper.py:70-76 | definition: the paragraph loop; `Scraper.BuildFails`, `Scraper.LastPairWins` and `Scraper.NotesInDocumentOrder` state its meaning |
| Scraper.DetailsOf | scraper.py:66-80 | definition: the `details` dict the tab yields, or the error; `Scraper.ExternalLinkOverrides` and `Scraper.DetailsWellOrdered` state its meaning, and `Scraper.ParseDetails` computes it |
| Scraper.PutWellOrdered | scraper.py:74 | a dict assignment keeps every key listed once, and the listed keys are exactly the dict's keys |
| Scraper.PutTwice | scraper.py:76 | assigning a key twice is assigning the second value |
| Scraper.Classify | scraper.py:72-76 | definition: a paragraph with a colon is a key and value pair, any other is a note; `Scraper.ClassifyAtFirstColon` states the split, and `Scraper.NoteTextsOfClassified` the notes |
| Scraper.ClassifyAtFirstColon | scraper.py:72-74 | the split is at the first colon: the key is the stripped part before it and holds no colon, and the value is the stripped rest, later colons included |
| Scraper.Classified | scraper.py:69-71 | definition: every paragraph classified, in document order; `Scraper.BuildFails`, `Scraper.NotesInDocumentOrder` and `Scraper.NoteTextsOfClassified` state what the loop makes of it |
| Scraper.ColonFreeTexts | scraper.py:75-76 | definition: the paragraph texts without a colon, in document order |
| Scraper.NoteTextsOfClassified | scraper.py:75-76 | the notes of the classified paragraphs are exactly the colon-free texts, in document order |
| Scraper.BuildWellOrdered | scraper.py:70-76 | the paragraph loop keeps every key listed once |
| Scraper.WrittenKeys | scraper.py:70-76 | definition: the key each paragraph writes, `notes` for a note; `Scraper.BuildOrder` states its use |
| Scraper.FirstWrites | scraper.py:70-76 | definition: the keys already listed, then each newly written key at its first write; `Scraper.FirstWritesShape` states its meaning |
| Scraper.FirstWritesShape | scraper.py:70-76 | the keys already listed stay in front, and the result holds exactly the listed and the written keys |
| Scraper.BuildOrder | scraper.py:70-76 | the dict the paragraph loop builds lists its keys in the order the paragraphs first write them |
| Scraper.ConflictCons | scraper.py:75-76 | `HasNote` and `NotesConflict` of a non-empty list, in terms of its first paragraph and the rest |
| Scraper.BuildFailsFrom | scraper.py:75-76 | from any dict, the loop raises exactly when `notes` already holds a string and a note follows, or a `notes: …` paragraph precedes a note |
| Scraper.BuildFails | scraper.py:75-76 | from the empty dict, the loop raises exactly when a `notes: …` paragraph precedes a note |
| Scraper.NoteTexts | scraper.py:75-76 | there are no more note texts than paragraphs |
| Scraper.BuildNotesFrom | scraper.py:75-76 | with no `notes: …` paragraph, the notes list grows by the note texts in document order |
| Scraper.NotesInDocumentOrder | scraper.py:75-76 | with no `notes: …` paragraph, `notes` holds the colon-free paragraphs in document order, and exists exactly when there is one |
| Scraper.BuildUntouched | scraper.py:70-76 | a key that no paragraph writes keeps its value, or stays absent |
| Scraper.LastPairWins | scraper.py:74 | a key holds the value of the last paragraph that writes it |
| Scraper.ExternalLinkOverrides | scraper.py:78-80 | the tab's link is stored under `external_link` after every paragraph, so it overrides an `external_link: …` paragraph; the other keys are those of the paragraphs, with the values the paragraphs left |
| Scraper.DetailsWellOrdered | scraper.py:66-80 | the dict `parse_product` builds lists every key once |
| Scraper.ParseDetails | scraper.py:66-80 | the loop returns `DetailsOf` of the tab: the dict, or the error that `append` on a string raises |
| Scraper.IsProductImage | scraper.py:85-86 | definition: the stripped `src` starts with `/image/product`; `Scraper.LastImageIsLast` and `Scraper.LastImageUnderPrefix` state its meaning |
| Scraper.ImageUrl | scraper.py:85-87 | definition: what one `src` makes of `image_url`; `Scraper.LastImageIsLast` states its use |
| Scraper.LastSome | scraper.py:84-87 | definition: what an overwriting loop holds after `n` rounds; `Scraper.LastSomeIsLast` states its meaning |
| Scraper.LastImage | scraper.py:83-87 | definition: the image URL the loop ends with; `Scraper.LastImageIsLast` and `Scraper.LastImageUnderPrefix` state its meaning, and `Scraper.PickImage` computes it |
| Scraper.LastSomeIsLast | scraper.py:84-87 | a loop overwriting its variable on every hit ends with the value of the last hit, and with none exactly when there is no hit |
| Scraper.LastImageIsLast | scraper.py:83-87 | an image URL is found exactly when some stripped `src` starts with `/image/product`, and then it is `BASE` followed by the stripped `src` of the last such image |
| Scraper.LastImageUnderPrefix | scraper.py:85-87 | every image URL found starts with `BASE` followed by `/image/product` |
| Scraper.PickImage | scraper.py:83-87 | the image loop returns `LastImage` of the `src` values |
| Scraper.Links | scraper.py:28-32 | there are no more links than hrefs |
| Scraper.LinksAppend | scraper.py:43-47 | collecting over two runs of hrefs is collecting over each in turn: document order kept, duplicates kept |
| Scraper.LinksMembers | scraper.py:43-47 | a URL is collected exactly when it resolves an href containing the marker |
| Scraper.SortedHead | scraper.py:33 | the head of a strictly sorted list precedes the rest, which is strictly sorted and does not hold it |
| Scraper.Insert | scraper.py:33 | definition: one element put in its place in a sorted list without duplicates; `Scraper.InsertMembers` and `Scraper.InsertSorted` state its meaning |
| Scraper.SortedSet | scraper.py:33 | definition: `sorted(set(xs))`; `Scraper.SortedSetSpec` and `Scraper.StrictlySortedUnique` state its meaning |
| Scraper.InsertMembers | scraper.py:33 | inserting adds exactly the new element |
| Scraper.InsertSorted | scraper.py:33 | inserting into a strictly sorted list keeps it strictly sorted |
| Scraper.SortedSetSpec | scraper.py:33 | `sorted(set(xs))` is strictly sorted and holds exactly the elements of `xs` |
| Scraper.StrictlySortedUnique | scraper.py:33 | two strictly sorted lists with the same elements are equal, so `sorted(set(xs))` is the only such list |
| Scraper.CollectLinks | scraper.py:28-32 | the loop that appends every resolved matching href returns `Links` |
| Scraper.GetCategories | scraper.py:24-33 | the category list is strictly sorted, without duplicates, and holds exactly the resolved hrefs containing `/Products/Category?cid=` |
| Scraper.GetProductsFromCategory | scraper.py:39-48 | the product list is `Links` over the hrefs in document order, and holds exactly the resolved hrefs containing `/Products/Details?id=` |

## Left out

- The `fetch` of the payload and its HTTP status check (src/app/product.service.ts:29-31) are network I/O. `LoadIndex` takes the payload text as its argument.
- `JSON.parse` is the parameter `Runtime.parse`, which yields `None` where `JSON.parse` throws. The `try`/`catch` around a line covers that `None` and the `TypeError` that `String` can raise inside `findEAN`: `LineEntry` skips the line in both cases. The warning logged for a bad line is not modelled.
- `String(v)` of a number is the parameter `Runtime.showNumber`. JSON numbers are `real`s, so floating-point rendering and precision are not modelled.
- `Js.ToStr` writes out `String(v)` for JSON values only, since nothing else reaches it. An object is `[object Object]`; one with its own `toString` key throws a `TypeError`, because a parsed value is never callable. An array is the comma-join of its elements, and throws when an element does.
- An assignment `eanIndex["__proto__"] = item` on a plain object replaces the prototype instead of adding a key. The model stores it as an ordinary key. `Products.InheritedNameFound` covers the inherited names on the read side only.
- Products.ProductService.LoadIndex: requires `Valid()`, the class invariant that the constructor establishes and that `LoadIndex` and `IndexLine` keep (`SearchByEan` changes nothing). The source has no such precondition, and the model states it so that the invariant can be carried.
- JavaScript strings are sequences of UTF-16 code units, while Dafny strings are sequences of Unicode scalar values. So a JSON line whose string holds a lone surrogate (`"\uD800"`) has no `JStr` counterpart. `trim` and `\s` are unaffected, because every white-space character is outside the surrogate range.
- Products.IndexSize: the number of keys equals the number of records with an EAN only when those EANs are pairwise distinct. Otherwise later records overwrite earlier ones and there are fewer keys. The lemma proves the bound, and the equality under distinct keys.
- Camera start and stop (`startScanner`, `stopScanner` and the `html5-qrcode` handle) are device I/O with async callbacks. `CloseScanner` only marks the scanner closed.
- Angular signals, `ngOnInit` error and loading state, `openScanner`, the template and the other components are UI. `isScannerOpen` is a plain boolean field.
- The scraper's HTTP requests, `time.sleep`, random delays and file writing (scraper.py:15-18, 101-138) are I/O. The `break` at scraper.py:131 sits in `scrape()`, which the model does not cover; it makes the scraper parse only the first product of each category.
- BeautifulSoup parsing and traversal are not modelled. The methods take what it yields: the `href` of every matching `<a>`, the `src` of every `<img>`, and `p.get_text(strip=True)` of every paragraph. The description tab is an `Option`, because a found tag is always truthy and `if li:` only tests presence.
- `urljoin(BASE, href)` is the parameter `resolve`.
- Scraper.CollectLinks is the loop that `get_categories` and `get_products_from_category` share, written once with the marker as a parameter.
- Products.ProductService.IndexLine is the body of the `loadIndex` loop, as a method of its own.
- Title, short description and the JSON record around `details` and `image` (scraper.py:57-63, 89-95) are direct library calls with no logic of their own.

## Findings

| source | as written | input that shows it | evidently intended | confidence | as-written member | corrected member |
|---|---|---|---|---|---|---|
| src/app/product.service.ts:18 | `eanIndex` is a plain object literal `{}`, so `this.eanIndex[ean]` also reads members inherited from `Object.prototype` | `searchByEAN("toString")` on an index without that key returns the inherited function, which is truthy | a barcode that is not a key finds nothing | not executed | Products.InheritedNameFound | Products.LookupExact |
