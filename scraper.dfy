/** The string logic of the scraper that produced the dataset, over texts and attribute
    values already extracted from the pages: the product-details tab, the image picker and
    the two link collectors. */
module Scraper {
  import opened Wrappers
  import opened Strings

  /** The site every link is resolved against. */
  const Base := "https://bezglutena.celivita.hr"

  const CategoryMarker := "/Products/Category?cid="
  const DetailsMarker := "/Products/Details?id="
  const ImagePrefix := "/image/product"

  const NotesKey := "notes"
  const ExternalLinkKey := "external_link"

  // ---------------------------------------------------------------------------
  // The details tab.

  /** A value of the `details` dict: a string, or the list held under `notes`. */
  datatype DetailValue = Text(text: string) | Notes(items: seq<string>)

  /** A Python dict: its keys in insertion order and the value of each. */
  datatype Details = Details(order: seq<string>, values: map<string, DetailValue>)

  /** `details.setdefault("notes", []).append(text)` on a `notes` entry that a `notes: …`
      paragraph made a string: `str` has no `append`. */
  datatype DetailsError = NotesIsText

  /** The description tab, when the page has one: the stripped text of each paragraph, in
      document order, and the `href` of its first link, if any. */
  datatype DetailsTab = DetailsTab(paragraphs: seq<string>, link: Option<string>)

  const EmptyDetails := Details([], map[])

  /** Every key is listed once, and exactly the keys are listed. */
  ghost predicate WellOrdered(d: Details) {
    (forall i, j | 0 <= i < j < |d.order| :: d.order[i] != d.order[j])
    && (forall k :: k in d.values <==> k in d.order)
  }

  /** `details[k] = v`: a new key goes to the end, an existing one keeps its place. */
  function Put(d: Details, k: string, v: DetailValue): Details {
    if k in d.values then Details(d.order, d.values[k := v]) else Details(d.order + [k], d.values[k := v])
  }

  /** Storing keeps every key listed once: a key is appended only when it is new. */
  lemma PutWellOrdered(d: Details, k: string, v: DetailValue)
    requires WellOrdered(d)
    ensures WellOrdered(Put(d, k, v))
  {
  }

  /** Storing twice under one key is storing the second value. */
  lemma PutTwice(d: Details, k: string, v: DetailValue, w: DetailValue)
    ensures Put(Put(d, k, v), k, w) == Put(d, k, w)
  {
    assert d.values[k := v][k := w] == d.values[k := w];
  }

  /** A paragraph as the loop reads it: a `key: value` pair when its text has a colon,
      a note otherwise. */
  datatype Para = Pair(key: string, value: string) | Note(text: string)

  /** `if ":" in text: k, v = text.split(":", 1)`, both stripped; else a note. */
  function Classify(text: string): Para
  {
    if ':' in text then
      var i := FirstIndex(text, ':');
      Pair(PyStrip(text[..i]), PyStrip(text[i + 1..]))
    else Note(text)
  }

  /** The split is at the first colon: the text is the part before it, the colon and the
      rest; the key is the stripped first part and holds no colon, and the value is the
      stripped rest, which keeps every later colon. */
  lemma ClassifyAtFirstColon(text: string)
    requires ':' in text
    ensures exists pre, post ::
      text == pre + ":" + post && ':' !in pre && Classify(text) == Pair(PyStrip(pre), PyStrip(post))
    ensures ':' !in Classify(text).key
  {
    var i := FirstIndex(text, ':');
    var pre, post := text[..i], text[i + 1..];
    assert ':' !in pre by {
      forall j | 0 <= j < |pre|
        ensures pre[j] != ':'
      {
        assert pre[j] == text[j];
      }
    }
    StripInside(pre, IsPySpace);
    assert text == pre + ":" + post && ':' !in pre && Classify(text) == Pair(PyStrip(pre), PyStrip(post));
  }

  /** Every paragraph of the tab classified, in document order. */
  function Classified(ps: seq<string>): seq<Para>
  {
    seq(|ps|, i requires 0 <= i < |ps| => Classify(ps[i]))
  }

  /** The key a paragraph writes: its pair's key, or `notes` for a note. */
  function WrittenKey(p: Para): string {
    match p
    case Pair(k, _) => k
    case Note(_) => NotesKey
  }

  /** The notes held in `d`, empty when there are none. */
  function NotesOf(d: Details): seq<string> {
    if NotesKey in d.values && d.values[NotesKey].Notes? then d.values[NotesKey].items else []
  }

  /** `notes` holds a string, so the next note fails. */
  predicate NotesAreText(d: Details) {
    NotesKey in d.values && d.values[NotesKey].Text?
  }

  /** One pass of the paragraph loop. */
  function Step(d: Details, p: Para): Result<Details, DetailsError> {
    match p
    case Pair(k, v) => Ok(Put(d, k, Text(v)))
    case Note(text) =>
      if NotesAreText(d) then Err(NotesIsText) else Ok(Put(d, NotesKey, Notes(NotesOf(d) + [text])))
  }

  /** The paragraph loop over `cs` from the dict `d`, stopping at the first error. */
  function Build(d: Details, cs: seq<Para>): Result<Details, DetailsError>
    decreases |cs|
  {
    if cs == [] then Ok(d)
    else match Step(d, cs[0])
      case Err(e) => Err(e)
      case Ok(d1) => Build(d1, cs[1..])
  }

  /** The `details` dict `parse_product` builds from the tab, or the error it raises. */
  function DetailsOf(tab: Option<DetailsTab>): Result<Details, DetailsError> {
    match tab
    case None => Ok(EmptyDetails)
    case Some(DetailsTab(ps, link)) =>
      match Build(EmptyDetails, Classified(ps))
      case Err(e) => Err(e)
      case Ok(d) => Ok(if link.Some? then Put(d, ExternalLinkKey, Text(link.value)) else d)
  }

  /** The loop keeps the dict well formed. */
  lemma {:induction false} BuildWellOrdered(d: Details, cs: seq<Para>)
    requires WellOrdered(d)
    ensures Build(d, cs).Ok? ==> WellOrdered(Build(d, cs).value)
    decreases |cs|
  {
    if cs != [] && Step(d, cs[0]).Ok? {
      match cs[0] {
        case Pair(k, v) => PutWellOrdered(d, k, Text(v));
        case Note(text) => PutWellOrdered(d, NotesKey, Notes(NotesOf(d) + [text]));
      }
      BuildWellOrdered(Step(d, cs[0]).value, cs[1..]);
    }
  }

  /** The key each paragraph writes, in document order. */
  function WrittenKeys(cs: seq<Para>): seq<string>
    decreases |cs|
  {
    if cs == [] then [] else [WrittenKey(cs[0])] + WrittenKeys(cs[1..])
  }

  /** `seen`, then every key of `ks` not met before, at its first occurrence. */
  function FirstWrites(seen: seq<string>, ks: seq<string>): seq<string>
    decreases |ks|
  {
    if ks == [] then seen
    else FirstWrites(if ks[0] in seen then seen else seen + [ks[0]], ks[1..])
  }

  /** First writes keep what was seen, in front, and hold exactly the seen and written keys. */
  lemma {:induction false} FirstWritesShape(seen: seq<string>, ks: seq<string>)
    ensures |seen| <= |FirstWrites(seen, ks)| && FirstWrites(seen, ks)[..|seen|] == seen
    ensures forall k :: k in FirstWrites(seen, ks) <==> k in seen || k in ks
    decreases |ks|
  {
    if ks != [] {
      var next := if ks[0] in seen then seen else seen + [ks[0]];
      FirstWritesShape(next, ks[1..]);
      assert FirstWrites(next, ks[1..])[..|next|][..|seen|] == seen;
      assert ks == [ks[0]] + ks[1..];
    }
  }

  /** The loop lists the keys in the order the paragraphs first write them. */
  lemma {:induction false} BuildOrder(d: Details, cs: seq<Para>)
    requires forall k :: k in d.values <==> k in d.order
    requires Build(d, cs).Ok?
    ensures Build(d, cs).value.order == FirstWrites(d.order, WrittenKeys(cs))
    decreases |cs|
  {
    if cs != [] {
      var d1 := Step(d, cs[0]).value;
      assert d1 == Put(d, WrittenKey(cs[0]), d1.values[WrittenKey(cs[0])]);
      BuildOrder(d1, cs[1..]);
    }
  }

  /** A `notes: …` paragraph comes before a note. */
  predicate NotesConflict(cs: seq<Para>) {
    exists i, j | 0 <= i < j < |cs| :: cs[i].Pair? && cs[i].key == NotesKey && cs[j].Note?
  }

  /** Some paragraph of `cs` is a note. */
  predicate HasNote(cs: seq<Para>) {
    exists j | 0 <= j < |cs| :: cs[j].Note?
  }

  /** How the two predicates above read a list by its first paragraph. */
  lemma ConflictCons(cs: seq<Para>)
    requires cs != []
    ensures HasNote(cs) <==> cs[0].Note? || HasNote(cs[1..])
    ensures NotesConflict(cs) <==>
      NotesConflict(cs[1..]) || (cs[0].Pair? && cs[0].key == NotesKey && HasNote(cs[1..]))
  {
    var tail := cs[1..];
    assert forall j | 0 <= j < |tail| :: tail[j] == cs[j + 1];
    if HasNote(cs) && !cs[0].Note? {
      var j :| 0 <= j < |cs| && cs[j].Note?;
      assert tail[j - 1].Note?;
    }
    if NotesConflict(cs) {
      var i, j :| 0 <= i < j < |cs| && cs[i].Pair? && cs[i].key == NotesKey && cs[j].Note?;
      if i > 0 {
        assert tail[i - 1].Pair? && tail[i - 1].key == NotesKey && tail[j - 1].Note?;
      } else {
        assert tail[j - 1].Note?;
      }
    }
    if NotesConflict(tail) {
      var i, j :| 0 <= i < j < |tail| && tail[i].Pair? && tail[i].key == NotesKey && tail[j].Note?;
      assert cs[i + 1].Pair? && cs[i + 1].key == NotesKey && cs[j + 1].Note?;
    }
    if cs[0].Pair? && cs[0].key == NotesKey && HasNote(tail) {
      var j :| 0 <= j < |tail| && tail[j].Note?;
      assert cs[j + 1].Note?;
    }
  }

  lemma {:induction false} BuildFailsFrom(d: Details, cs: seq<Para>)
    ensures Build(d, cs).Err? <==> (NotesAreText(d) && HasNote(cs)) || NotesConflict(cs)
    decreases |cs|
  {
    if cs != [] {
      ConflictCons(cs);
      if Step(d, cs[0]).Ok? {
        BuildFailsFrom(Step(d, cs[0]).value, cs[1..]);
      }
    }
  }

  /** The paragraph loop fails exactly when a `notes: …` paragraph precedes a note. */
  lemma BuildFails(cs: seq<Para>)
    ensures Build(EmptyDetails, cs).Err? <==> NotesConflict(cs)
  {
    BuildFailsFrom(EmptyDetails, cs);
  }

  /** The texts of the notes, in document order. */
  function NoteTexts(cs: seq<Para>): (r: seq<string>)
    ensures |r| <= |cs|
    decreases |cs|
  {
    if cs == [] then [] else (if cs[0].Note? then [cs[0].text] else []) + NoteTexts(cs[1..])
  }

  /** The paragraph texts without a colon, in document order. */
  function ColonFreeTexts(ps: seq<string>): seq<string>
    decreases |ps|
  {
    if ps == [] then [] else (if ':' in ps[0] then [] else [ps[0]]) + ColonFreeTexts(ps[1..])
  }

  /** The notes of the classified paragraphs are exactly the colon-free texts, in order. */
  lemma {:induction false} NoteTextsOfClassified(ps: seq<string>)
    ensures NoteTexts(Classified(ps)) == ColonFreeTexts(ps)
    decreases |ps|
  {
    if ps != [] {
      var cs := Classified(ps);
      assert cs[0] == Classify(ps[0]);
      assert cs[1..] == Classified(ps[1..]);
      NoteTextsOfClassified(ps[1..]);
    }
  }

  lemma {:induction false} BuildNotesFrom(d: Details, cs: seq<Para>)
    requires !NotesAreText(d)
    requires forall k | 0 <= k < |cs| && cs[k].Pair? :: cs[k].key != NotesKey
    ensures Build(d, cs).Ok?
    ensures NotesOf(Build(d, cs).value) == NotesOf(d) + NoteTexts(cs)
    ensures NotesKey in Build(d, cs).value.values <==> NotesKey in d.values || NoteTexts(cs) != []
    decreases |cs|
  {
    if cs != [] {
      var tail := cs[1..];
      assert forall k | 0 <= k < |tail| :: tail[k] == cs[k + 1];
      match cs[0]
      case Pair(k, v) =>
        var d1 := Put(d, k, Text(v));
        assert NotesOf(d1) == NotesOf(d);
        assert NoteTexts(cs) == [] + NoteTexts(tail) == NoteTexts(tail);
        BuildNotesFrom(d1, tail);
      case Note(t) =>
        var d1 := Put(d, NotesKey, Notes(NotesOf(d) + [t]));
        assert NotesOf(d1) == NotesOf(d) + [t];
        BuildNotesFrom(d1, tail);
        assert NoteTexts(cs) == [t] + NoteTexts(tail);
        assert NotesOf(d) + [t] + NoteTexts(tail) == NotesOf(d) + ([t] + NoteTexts(tail));
    }
  }

  /** With no `notes: …` paragraph, the notes are the colon-free paragraphs in document
      order, and the `notes` key exists exactly when there is at least one of them. */
  lemma NotesInDocumentOrder(cs: seq<Para>)
    requires forall k | 0 <= k < |cs| && cs[k].Pair? :: cs[k].key != NotesKey
    ensures Build(EmptyDetails, cs).Ok?
    ensures NotesOf(Build(EmptyDetails, cs).value) == NoteTexts(cs)
    ensures NotesKey in Build(EmptyDetails, cs).value.values <==> NoteTexts(cs) != []
  {
    BuildNotesFrom(EmptyDetails, cs);
  }

  /** A key no paragraph writes keeps its value, or stays absent. */
  lemma {:induction false} BuildUntouched(d: Details, cs: seq<Para>, k: string)
    requires Build(d, cs).Ok?
    requires forall j | 0 <= j < |cs| :: WrittenKey(cs[j]) != k
    ensures k in Build(d, cs).value.values <==> k in d.values
    ensures k in d.values ==> Build(d, cs).value.values[k] == d.values[k]
    decreases |cs|
  {
    if cs != [] {
      var tail := cs[1..];
      assert forall j | 0 <= j < |tail| :: tail[j] == cs[j + 1];
      assert WrittenKey(cs[0]) != k;
      BuildUntouched(Step(d, cs[0]).value, tail, k);
    }
  }

  /** Last key wins: the value under a key is that of the last paragraph with that key. */
  lemma {:induction false} LastPairWins(d: Details, cs: seq<Para>, i: nat)
    requires Build(d, cs).Ok?
    requires i < |cs| && cs[i].Pair?
    requires forall j | i < j < |cs| :: WrittenKey(cs[j]) != cs[i].key
    ensures cs[i].key in Build(d, cs).value.values
    ensures Build(d, cs).value.values[cs[i].key] == Text(cs[i].value)
    decreases |cs|
  {
    var tail := cs[1..];
    assert forall j | 0 <= j < |tail| :: tail[j] == cs[j + 1];
    var d1 := Step(d, cs[0]).value;
    if i == 0 {
      BuildUntouched(d1, tail, cs[0].key);
    } else {
      LastPairWins(d1, tail, i - 1);
    }
  }

  /** A link in the tab is stored under `external_link` after every paragraph, so it wins
      over an `external_link: …` paragraph; the other keys are those of the paragraphs. */
  lemma ExternalLinkOverrides(ps: seq<string>, href: string)
    requires Build(EmptyDetails, Classified(ps)).Ok?
    ensures DetailsOf(Some(DetailsTab(ps, Some(href)))).Ok?
    ensures var d := DetailsOf(Some(DetailsTab(ps, Some(href)))).value;
      var b := Build(EmptyDetails, Classified(ps)).value;
      d.values[ExternalLinkKey] == Text(href)
      && forall k | k != ExternalLinkKey ::
           (k in d.values <==> k in b.values) && (k in b.values ==> d.values[k] == b.values[k])
  {
  }

  /** The dict `parse_product` builds lists every key once. */
  lemma DetailsWellOrdered(tab: Option<DetailsTab>)
    ensures DetailsOf(tab).Ok? ==> WellOrdered(DetailsOf(tab).value)
  {
    if tab.Some? {
      var cs := Classified(tab.value.paragraphs);
      BuildWellOrdered(EmptyDetails, cs);
      if Build(EmptyDetails, cs).Ok? && tab.value.link.Some? {
        PutWellOrdered(Build(EmptyDetails, cs).value, ExternalLinkKey, Text(tab.value.link.value));
      }
    }
  }

  /** The details loop of `parse_product`: a dict updated paragraph by paragraph, then the link. */
  method ParseDetails(tab: Option<DetailsTab>) returns (r: Result<Details, DetailsError>)
    ensures r == DetailsOf(tab)
  {
    var details := EmptyDetails;
    if tab.Some? {
      var ps := tab.value.paragraphs;
      ghost var cs := Classified(ps);
      var i := 0;
      while i < |ps|
        invariant 0 <= i <= |ps|
        invariant Build(EmptyDetails, cs) == Build(details, cs[i..])
      {
        var text := ps[i];
        ghost var before := details;
        assert cs[i..][0] == cs[i] == Classify(text);
        assert cs[i..][1..] == cs[i + 1..];
        if ':' in text {
          var colon := FirstIndex(text, ':');
          var k, v := PyStrip(text[..colon]), PyStrip(text[colon + 1..]);
          details := Put(details, k, Text(v));
        } else {
          if NotesKey !in details.values {
            details := Put(details, NotesKey, Notes([]));
          }
          match details.values[NotesKey]
          case Text(_) =>
            return Err(NotesIsText);
          case Notes(ns) =>
            if NotesKey !in before.values {
              PutTwice(before, NotesKey, Notes([]), Notes(ns + [text]));
            }
            details := Put(details, NotesKey, Notes(ns + [text]));
        }
        assert Step(before, cs[i]) == Ok(details);
        i := i + 1;
      }
      if tab.value.link.Some? {
        details := Put(details, ExternalLinkKey, Text(tab.value.link.value));
      }
    }
    return Ok(details);
  }

  // ---------------------------------------------------------------------------
  // The image picker.

  /** A `src` that, stripped, names a product image. */
  predicate IsProductImage(src: string) {
    StartsWith(PyStrip(src), ImagePrefix)
  }

  /** What one `src` makes of `image_url`: `BASE + src.strip()` for a product image. */
  function ImageUrl(src: string): Option<string> {
    if IsProductImage(src) then Some(Base + PyStrip(src)) else None
  }

  /** The last value `f` yields on one of the first `n` elements of `xs`: what a loop that
      overwrites its variable on every hit holds after `n` rounds. */
  function LastSome(xs: seq<string>, n: nat, f: string -> Option<string>): Option<string>
    requires n <= |xs|
  {
    if n == 0 then None
    else if f(xs[n - 1]).Some? then f(xs[n - 1])
    else LastSome(xs, n - 1, f)
  }

  /** When `f` yields `g(x)` exactly on the elements `x` satisfying `p`, `LastSome` is
      defined exactly when some element satisfies `p`, and then it is `g` of the last such one. */
  lemma {:induction false} LastSomeIsLast(xs: seq<string>, n: nat, f: string -> Option<string>,
                                          p: string -> bool, g: string -> string)
    requires n <= |xs|
    requires forall x :: f(x) == if p(x) then Some(g(x)) else None
    ensures LastSome(xs, n, f).Some? <==> exists i | 0 <= i < n :: p(xs[i])
    ensures LastSome(xs, n, f).Some? ==>
      exists i | 0 <= i < n ::
        p(xs[i]) && (forall j | i < j < n :: !p(xs[j])) && LastSome(xs, n, f).value == g(xs[i])
  {
    if n > 0 {
      LastSomeIsLast(xs, n - 1, f, p, g);
      assert f(xs[n - 1]).Some? <==> p(xs[n - 1]);
      if !p(xs[n - 1]) && LastSome(xs, n - 1, f).Some? {
        var i :| 0 <= i < n - 1 && p(xs[i]) && (forall j | i < j < n - 1 :: !p(xs[j]))
          && LastSome(xs, n - 1, f).value == g(xs[i]);
        assert forall j | i < j < n :: !p(xs[j]);
      }
    }
  }

  /** The image URL the picker ends with. */
  function LastImage(srcs: seq<string>): Option<string> {
    LastSome(srcs, |srcs|, ImageUrl)
  }

  /** The picker finds a URL exactly when some `src` is a product image, and then it is `Base`
      followed by the stripped `src` of the last one. */
  lemma LastImageIsLast(srcs: seq<string>)
    ensures LastImage(srcs).Some? <==> exists i | 0 <= i < |srcs| :: IsProductImage(srcs[i])
    ensures LastImage(srcs).Some? ==>
      exists i | 0 <= i < |srcs| ::
        IsProductImage(srcs[i]) && (forall j | i < j < |srcs| :: !IsProductImage(srcs[j]))
        && LastImage(srcs).value == Base + PyStrip(srcs[i])
  {
    LastSomeIsLast(srcs, |srcs|, ImageUrl, IsProductImage, src => Base + PyStrip(src));
  }

  /** Every URL the picker yields is on the site and under the product-image path. */
  lemma LastImageUnderPrefix(srcs: seq<string>)
    ensures LastImage(srcs).Some? ==> StartsWith(LastImage(srcs).value, Base + ImagePrefix)
  {
    LastImageIsLast(srcs);
    if LastImage(srcs).Some? {
      var i :| 0 <= i < |srcs| && IsProductImage(srcs[i]) && LastImage(srcs).value == Base + PyStrip(srcs[i]);
      var s := PyStrip(srcs[i]);
      assert (Base + s)[..|Base + ImagePrefix|] == Base + s[..|ImagePrefix|];
    }
  }

  /** The image loop of `parse_product` over the `src` of every `<img>`. */
  method PickImage(srcs: seq<string>) returns (imageUrl: Option<string>)
    ensures imageUrl == LastImage(srcs)
  {
    imageUrl := None;
    var i := 0;
    while i < |srcs|
      invariant 0 <= i <= |srcs|
      invariant imageUrl == LastSome(srcs, i, ImageUrl)
    {
      var src := PyStrip(srcs[i]);
      assert LastSome(srcs, i + 1, ImageUrl) == if StartsWith(src, ImagePrefix) then Some(Base + src) else imageUrl;
      if StartsWith(src, ImagePrefix) {
        imageUrl := Some(Base + src);
      }
      i := i + 1;
    }
  }

  // ---------------------------------------------------------------------------
  // The link collectors. `resolve` is `urljoin(BASE, ·)`.

  /** The resolved hrefs that contain `marker`, in document order, duplicates kept. */
  function Links(hrefs: seq<string>, marker: string, resolve: string -> string): (r: seq<string>)
    ensures |r| <= |hrefs|
    decreases |hrefs|
  {
    if hrefs == [] then []
    else
      var last := hrefs[|hrefs| - 1];
      Links(hrefs[..|hrefs| - 1], marker, resolve) + (if Contains(last, marker) then [resolve(last)] else [])
  }

  /** Collecting over two runs of links is collecting over each in turn: the order of the
      document is kept and nothing is merged. */
  lemma {:induction false} LinksAppend(a: seq<string>, b: seq<string>, marker: string, resolve: string -> string)
    ensures Links(a + b, marker, resolve) == Links(a, marker, resolve) + Links(b, marker, resolve)
    decreases |b|
  {
    if b == [] {
      assert a + b == a;
    } else {
      var ab := a + b;
      assert ab[..|ab| - 1] == a + b[..|b| - 1];
      assert ab[|ab| - 1] == b[|b| - 1];
      var last := b[|b| - 1];
      var t := if Contains(last, marker) then [resolve(last)] else [];
      assert Links(ab, marker, resolve) == Links(a + b[..|b| - 1], marker, resolve) + t;
      LinksAppend(a, b[..|b| - 1], marker, resolve);
      assert Links(a, marker, resolve) + Links(b[..|b| - 1], marker, resolve) + t
          == Links(a, marker, resolve) + (Links(b[..|b| - 1], marker, resolve) + t);
    }
  }

  /** A URL is collected exactly when it resolves some href that contains the marker. */
  lemma {:induction false} LinksMembers(hrefs: seq<string>, marker: string, resolve: string -> string)
    ensures forall u :: u in Links(hrefs, marker, resolve) <==>
      exists i | 0 <= i < |hrefs| :: Contains(hrefs[i], marker) && u == resolve(hrefs[i])
    decreases |hrefs|
  {
    if hrefs != [] {
      var init := hrefs[..|hrefs| - 1];
      assert forall j | 0 <= j < |init| :: init[j] == hrefs[j];
      LinksMembers(init, marker, resolve);
    }
  }

  /** `a` before `b` in Python's string order, and no two equal. */
  predicate StrictlySorted(s: seq<string>) {
    forall i, j | 0 <= i < j < |s| :: Less(s[i], s[j])
  }

  /** `x` put in its place in a sorted list, unless it is there already. */
  function Insert(s: seq<string>, x: string): seq<string>
    decreases |s|
  {
    if s == [] then [x]
    else if x == s[0] then s
    else if Less(x, s[0]) then [x] + s
    else [s[0]] + Insert(s[1..], x)
  }

  /** The head of a strictly sorted list comes before every other element, so the rest
      is strictly sorted and does not hold it. */
  lemma SortedHead(s: seq<string>)
    requires StrictlySorted(s) && s != []
    ensures StrictlySorted(s[1..])
    ensures forall y | y in s[1..] :: Less(s[0], y)
    ensures s[0] !in s[1..]
  {
    var t := s[1..];
    assert forall i | 0 <= i < |t| :: t[i] == s[i + 1];
    LessIrreflexive(s[0]);
  }

  lemma {:induction false} InsertMembers(s: seq<string>, x: string)
    ensures forall y :: y in Insert(s, x) <==> y in s || y == x
    decreases |s|
  {
    if s != [] && x != s[0] && !Less(x, s[0]) {
      InsertMembers(s[1..], x);
      assert s == [s[0]] + s[1..];
    }
  }

  lemma {:induction false} InsertSorted(s: seq<string>, x: string)
    requires StrictlySorted(s)
    ensures StrictlySorted(Insert(s, x))
    decreases |s|
  {
    if s != [] && x != s[0] {
      if Less(x, s[0]) {
        forall j | 0 < j < |s|
          ensures Less(x, s[j])
        {
          LessTransitive(x, s[0], s[j]);
        }
        assert forall j | 0 < j < |[x] + s| :: ([x] + s)[j] == s[j - 1];
      } else {
        SortedHead(s);
        InsertSorted(s[1..], x);
        InsertMembers(s[1..], x);
        LessTotal(x, s[0]);
        var r := Insert(s[1..], x);
        assert forall y | y in r :: Less(s[0], y);
        assert forall j | 0 < j < |[s[0]] + r| :: ([s[0]] + r)[j] == r[j - 1];
      }
    }
  }

  /** `sorted(set(xs))`. */
  function SortedSet(xs: seq<string>): seq<string>
    decreases |xs|
  {
    if xs == [] then [] else Insert(SortedSet(xs[..|xs| - 1]), xs[|xs| - 1])
  }

  /** `sorted(set(xs))` is strictly sorted and holds exactly the elements of `xs`. */
  lemma {:induction false} SortedSetSpec(xs: seq<string>)
    ensures StrictlySorted(SortedSet(xs))
    ensures forall y :: y in SortedSet(xs) <==> y in xs
    decreases |xs|
  {
    if xs != [] {
      var init := xs[..|xs| - 1];
      SortedSetSpec(init);
      InsertSorted(SortedSet(init), xs[|xs| - 1]);
      InsertMembers(SortedSet(init), xs[|xs| - 1]);
      assert xs == init + [xs[|xs| - 1]];
    }
  }

  /** A strictly sorted list is determined by its elements, so `SortedSet` is the only
      list with the two properties above. */
  lemma {:induction false} StrictlySortedUnique(a: seq<string>, b: seq<string>)
    requires StrictlySorted(a) && StrictlySorted(b)
    requires forall y :: y in a <==> y in b
    ensures a == b
    decreases |a|
  {
    if a != [] {
      assert a[0] in a;
    }
    if b != [] {
      assert b[0] in b;
    }
    if a != [] && b != [] {
      SortedHead(a);
      SortedHead(b);
      assert a == [a[0]] + a[1..] && b == [b[0]] + b[1..];
      if a[0] != b[0] {
        assert Less(a[0], b[0]) && Less(b[0], a[0]);
        LessTransitive(a[0], b[0], a[0]);
        LessIrreflexive(a[0]);
      }
      forall y
        ensures y in a[1..] <==> y in b[1..]
      {
        assert y in a <==> y == a[0] || y in a[1..];
        assert y in b <==> y == b[0] || y in b[1..];
      }
      StrictlySortedUnique(a[1..], b[1..]);
    }
  }

  /** `get_categories` over the `href` of every `<a>` on the home page: the resolved
      category links, sorted and without duplicates. */
  method GetCategories(hrefs: seq<string>, resolve: string -> string) returns (categories: seq<string>)
    ensures categories == SortedSet(Links(hrefs, CategoryMarker, resolve))
    ensures StrictlySorted(categories)
    ensures forall u :: u in categories <==>
      exists i | 0 <= i < |hrefs| :: Contains(hrefs[i], CategoryMarker) && u == resolve(hrefs[i])
  {
    var found := CollectLinks(hrefs, CategoryMarker, resolve);
    categories := SortedSet(found);
    SortedSetSpec(found);
    LinksMembers(hrefs, CategoryMarker, resolve);
  }

  /** `get_products_from_category` over the `href` of every `<a class="auxshp-label">`:
      the resolved product links in document order. */
  method GetProductsFromCategory(hrefs: seq<string>, resolve: string -> string) returns (products: seq<string>)
    ensures products == Links(hrefs, DetailsMarker, resolve)
    ensures forall u :: u in products <==>
      exists i | 0 <= i < |hrefs| :: Contains(hrefs[i], DetailsMarker) && u == resolve(hrefs[i])
  {
    products := CollectLinks(hrefs, DetailsMarker, resolve);
    LinksMembers(hrefs, DetailsMarker, resolve);
  }

  /** The loop both collectors share: append the resolved href of every match. */
  method CollectLinks(hrefs: seq<string>, marker: string, resolve: string -> string) returns (found: seq<string>)
    ensures found == Links(hrefs, marker, resolve)
  {
    found := [];
    var i := 0;
    while i < |hrefs|
      invariant 0 <= i <= |hrefs|
      invariant found == Links(hrefs[..i], marker, resolve)
    {
      assert hrefs[..i + 1][..i] == hrefs[..i];
      var href := hrefs[i];
      if Contains(href, marker) {
        found := found + [resolve(href)];
      }
      i := i + 1;
    }
    assert hrefs[..i] == hrefs;
  }
}
