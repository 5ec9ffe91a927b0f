/** The EAN index of `ProductService`: building a map from barcode to product
    record out of a newline-delimited JSON payload, and looking a barcode up. */
module Products {
  import opened Wrappers
  import opened Strings
  import opened Js

  /** What the index needs from the JavaScript runtime: `JSON.parse` of one line
      (`None` when it throws) and the way `String` renders a number. */
  datatype Runtime = Runtime(parse: string -> Option<Json>, showNumber: real -> string)

  /** The five places `findEAN` probes, in its order: `details.EAN`, `details.ean`,
      `EAN`, `ean`, `details.Ean`. */
  function Probes(item: Json): seq<Option<Json>> {
    var details := Member(Some(item), "details");
    [Member(details, "EAN"), Member(details, "ean"), Member(Some(item), "EAN"),
     Member(Some(item), "ean"), Member(details, "Ean")]
  }

  /** `vs[i]` is truthy and no value from position `from` up to it is. */
  predicate IsFirstTruthy(vs: seq<Option<Json>>, from: nat, i: int) {
    from <= i < |vs| && Truthy(vs[i]) && forall j | from <= j < i :: !Truthy(vs[j])
  }

  /** The `for … of` loop of `findEAN` from position `from` on: where it returns. */
  function FirstTruthy(vs: seq<Option<Json>>, from: nat): (r: Option<nat>)
    requires from <= |vs|
    ensures r.Some? ==> from <= r.value < |vs| && Truthy(vs[r.value])
    decreases |vs| - from
  {
    if from == |vs| then None
    else if Truthy(vs[from]) then Some(from)
    else FirstTruthy(vs, from + 1)
  }

  /** The loop stops at the first truthy value after `from`, and runs to the end
      exactly when there is none. */
  lemma {:induction false} FirstTruthyFirst(vs: seq<Option<Json>>, from: nat)
    requires from <= |vs|
    ensures FirstTruthy(vs, from).Some? ==> IsFirstTruthy(vs, from, FirstTruthy(vs, from).value)
    ensures FirstTruthy(vs, from).None? <==> forall j | from <= j < |vs| :: !Truthy(vs[j])
    decreases |vs| - from
  {
    if from < |vs| && !Truthy(vs[from]) {
      FirstTruthyFirst(vs, from + 1);
    }
  }

  /** What `findEAN` returns: the trimmed `String` of the first truthy probe, `None` when the
      item is falsy or no probe is truthy, or the error `String` throws on that probe. The
      string may be empty (a probe of white space only). */
  function EanOf(item: Json, rt: Runtime): Result<Option<string>, JsError> {
    if !Truthy(Some(item)) then Ok(None)
    else match FirstTruthy(Probes(item), 0)
      case None => Ok(None)
      case Some(i) =>
        match ToStr(Probes(item)[i].value, rt.showNumber)
        case Err(e) => Err(e)
        case Ok(shown) => Ok(Some(JsTrim(shown)))
  }

  /** First-match priority: `findEAN` yields a value exactly when the item is truthy and some
      probe is, and then it is the trimmed `String` of the first truthy probe. */
  lemma EanOfFirstMatch(item: Json, rt: Runtime)
    ensures EanOf(item, rt) == Ok(None) <==>
      !Truthy(Some(item)) || forall j | 0 <= j < 5 :: !Truthy(Probes(item)[j])
    ensures EanOf(item, rt) != Ok(None) ==>
      exists j :: IsFirstTruthy(Probes(item), 0, j)
        && (EanOf(item, rt).Err? <==> Unprintable(Probes(item)[j].value))
        && (EanOf(item, rt).Ok? ==>
              EanOf(item, rt).value == Some(JsTrim(ToStr(Probes(item)[j].value, rt.showNumber).value)))
  {
    FirstTruthyFirst(Probes(item), 0);
  }

  /** A numeric EAN of zero is falsy, so `findEAN` passes over it. */
  lemma ZeroEanIsSkipped(rt: Runtime)
    ensures EanOf(JObj(map["EAN" := JNum(0.0)]), rt) == Ok(None)
  {
    var item := JObj(map["EAN" := JNum(0.0)]);
    var p := Probes(item);
    assert p == [None, None, Some(JNum(0.0)), None, None];
    FirstTruthyFirst(p, 0);
  }

  /** A first truthy probe that `String` throws on makes `findEAN` throw. */
  lemma UnprintableEanThrows(item: Json, rt: Runtime)
    requires Truthy(Some(item))
    requires exists j :: IsFirstTruthy(Probes(item), 0, j) && Unprintable(Probes(item)[j].value)
    ensures EanOf(item, rt) == Err(TypeError)
  {
    var p := Probes(item);
    var j :| IsFirstTruthy(p, 0, j) && Unprintable(p[j].value);
    FirstTruthyFirst(p, 0);
    var k := FirstTruthy(p, 0).value;
    assert !(k < j) && !(j < k);
    assert ToStr(p[j].value, rt.showNumber).Err?;
    assert ToStr(p[j].value, rt.showNumber).error == TypeError;
  }

  /** A key and the record stored under it. */
  type Entry = (string, Json)

  /** What one line of the payload adds to the index: its key and record, or `None` for a
      blank line, a line `JSON.parse` rejects, a record on which `findEAN` throws (the `catch`
      skips both), or a record without a non-empty EAN. */
  function LineEntry(line: string, rt: Runtime): Option<Entry> {
    if JsTrim(line) == "" then None
    else match rt.parse(line)
      case None => None
      case Some(item) =>
        match EanOf(item, rt)
        case Err(_) => None
        case Ok(ean) => Keyed(item, ean)
  }

  /** `if (ean) this.eanIndex[ean] = item`: a record is stored only under a truthy EAN. */
  function Keyed(item: Json, ean: Option<string>): Option<Entry> {
    if ean.Some? && ean.value != "" then Some((ean.value, item)) else None
  }

  /** `LineEntry` for a fixed runtime, as a function value. */
  function LineFn(rt: Runtime): string -> Option<Entry> {
    line => LineEntry(line, rt)
  }

  /** The index after storing one entry: `index[key] = item`. */
  function Store(index: map<string, Json>, e: Option<Entry>): map<string, Json> {
    match e
    case None => index
    case Some((key, item)) => index[key := item]
  }

  /** The entry stores a record under `key`. */
  predicate Writes(e: Option<Entry>, key: string) {
    e.Some? && e.value.0 == key
  }

  /** The lines stored one after another into `index` by the per-line function `f`, a
      later line overwriting an earlier one. */
  function Fold(index: map<string, Json>, lines: seq<string>, f: string -> Option<Entry>): map<string, Json>
    decreases |lines|
  {
    if lines == [] then index
    else Store(Fold(index, lines[..|lines| - 1], f), f(lines[|lines| - 1]))
  }

  /** The loop of `loadIndex` over `lines`, starting from the map `index`. */
  function IndexLines(index: map<string, Json>, lines: seq<string>, rt: Runtime): map<string, Json> {
    Fold(index, lines, LineFn(rt))
  }

  /** `loadIndex` once the payload `text` has been fetched: trim it, stop if nothing is
      left, else run the loop over its lines. The map is never cleared. */
  function Load(index: map<string, Json>, text: string, rt: Runtime): map<string, Json> {
    var trimmed := JsTrim(text);
    if trimmed == "" then index else IndexLines(index, SplitLines(trimmed), rt)
  }

  /** One more line stores its entry on top of what the earlier lines built. */
  lemma FoldSnoc(index: map<string, Json>, lines: seq<string>, line: string, f: string -> Option<Entry>)
    ensures Fold(index, lines + [line], f) == Store(Fold(index, lines, f), f(line))
  {
    assert (lines + [line])[..|lines|] == lines;
  }

  /** The loop's step: line `i` is stored on top of what the lines before it built. */
  lemma IndexLinesStep(index: map<string, Json>, lines: seq<string>, i: nat, rt: Runtime)
    requires i < |lines|
    ensures IndexLines(index, lines[..i + 1], rt) == Store(IndexLines(index, lines[..i], rt), LineEntry(lines[i], rt))
  {
    assert lines[..i + 1] == lines[..i] + [lines[i]];
    FoldSnoc(index, lines[..i], lines[i], LineFn(rt));
  }

  lemma {:induction false} FoldAppend(index: map<string, Json>, xs: seq<string>, ys: seq<string>, f: string -> Option<Entry>)
    ensures Fold(index, xs + ys, f) == Fold(Fold(index, xs, f), ys, f)
    decreases |ys|
  {
    if ys == [] {
      assert xs + ys == xs;
    } else {
      var zs := xs + ys;
      assert zs[..|zs| - 1] == xs + ys[..|ys| - 1];
      assert zs[|zs| - 1] == ys[|ys| - 1];
      FoldAppend(index, xs, ys[..|ys| - 1], f);
    }
  }

  /** A non-empty string with no white space at either end. */
  predicate IsKey(key: string) {
    key != "" && IsStripped(key, IsJsSpace)
  }

  /** A key is its own trimmed form. */
  lemma KeyIsTrimmed(key: string)
    requires IsKey(key)
    ensures JsTrim(key) == key
  {
    assert [] + key + [] == key;
    StripSurrounded([], key, [], IsJsSpace);
  }

  /** What every index `loadIndex` builds satisfies: keys are non-empty and trimmed,
      and every record is truthy. */
  predicate IndexInvariant(index: map<string, Json>) {
    forall key | key in index :: IsKey(key) && Truthy(Some(index[key]))
  }

  /** A key a line produces is non-empty and trimmed, and its record is truthy. */
  lemma LineEntryValid(line: string, rt: Runtime)
    requires LineEntry(line, rt).Some?
    ensures var (key, item) := LineEntry(line, rt).value;
      IsKey(key) && Truthy(Some(item))
  {
    var item := rt.parse(line).value;
    EanOfFirstMatch(item, rt);
  }

  lemma {:induction false} FoldKeepsInvariant(index: map<string, Json>, lines: seq<string>, f: string -> Option<Entry>)
    requires IndexInvariant(index)
    requires forall i | 0 <= i < |lines| && f(lines[i]).Some? ::
      IsKey(f(lines[i]).value.0) && Truthy(Some(f(lines[i]).value.1))
    ensures IndexInvariant(Fold(index, lines, f))
    decreases |lines|
  {
    if lines != [] {
      var init := lines[..|lines| - 1];
      assert forall i | 0 <= i < |init| :: init[i] == lines[i];
      FoldKeepsInvariant(index, init, f);
    }
  }

  /** Every index the loop builds from a valid one is valid. */
  lemma IndexLinesKeepsInvariant(index: map<string, Json>, lines: seq<string>, rt: Runtime)
    requires IndexInvariant(index)
    ensures IndexInvariant(IndexLines(index, lines, rt))
  {
    forall i | 0 <= i < |lines| && LineEntry(lines[i], rt).Some?
      ensures IsKey(LineEntry(lines[i], rt).value.0) && Truthy(Some(LineEntry(lines[i], rt).value.1))
    {
      LineEntryValid(lines[i], rt);
    }
    FoldKeepsInvariant(index, lines, LineFn(rt));
  }

  lemma {:induction false} FoldUntouched(index: map<string, Json>, lines: seq<string>, key: string, f: string -> Option<Entry>)
    requires forall j | 0 <= j < |lines| :: !Writes(f(lines[j]), key)
    ensures key in Fold(index, lines, f) <==> key in index
    ensures key in index ==> Fold(index, lines, f)[key] == index[key]
    decreases |lines|
  {
    if lines != [] {
      var init := lines[..|lines| - 1];
      assert forall j | 0 <= j < |init| :: init[j] == lines[j];
      assert !Writes(f(lines[|lines| - 1]), key);
      FoldUntouched(index, init, key, f);
    }
  }

  /** A key no line writes keeps its previous entry, or stays absent. */
  lemma UntouchedKey(index: map<string, Json>, lines: seq<string>, key: string, rt: Runtime)
    requires forall j | 0 <= j < |lines| :: !Writes(LineEntry(lines[j], rt), key)
    ensures key in IndexLines(index, lines, rt) <==> key in index
    ensures key in index ==> IndexLines(index, lines, rt)[key] == index[key]
  {
    FoldUntouched(index, lines, key, LineFn(rt));
  }

  /** Last write wins: a key maps to the record of the last line that writes it. */
  lemma LastWriteWins(index: map<string, Json>, lines: seq<string>, i: nat, rt: Runtime)
    requires i < |lines| && LineEntry(lines[i], rt).Some?
    requires forall j | i < j < |lines| :: !Writes(LineEntry(lines[j], rt), LineEntry(lines[i], rt).value.0)
    ensures var (key, item) := LineEntry(lines[i], rt).value;
      key in IndexLines(index, lines, rt) && IndexLines(index, lines, rt)[key] == item
  {
    var f := LineFn(rt);
    var key := LineEntry(lines[i], rt).value.0;
    var head, tail := lines[..i + 1], lines[i + 1..];
    assert lines == head + tail;
    FoldAppend(index, head, tail, f);
    assert head[..|head| - 1] == lines[..i];
    assert forall j | 0 <= j < |tail| :: tail[j] == lines[i + 1 + j];
    FoldUntouched(Fold(index, head, f), tail, key, f);
  }

  /** Skip-on-error: a line that is blank, fails to parse or has no EAN leaves the
      result exactly as if it were absent, and every later line is still processed. */
  lemma SkippedLine(index: map<string, Json>, before: seq<string>, line: string, after: seq<string>, rt: Runtime)
    requires LineEntry(line, rt).None?
    ensures IndexLines(index, before + [line] + after, rt) == IndexLines(index, before + after, rt)
  {
    var f := LineFn(rt);
    FoldAppend(index, before + [line], after, f);
    FoldAppend(index, before, after, f);
    FoldSnoc(index, before, line, f);
  }

  /** A line on whose record `findEAN` throws stores nothing, wherever it stands: the
      `catch` skips it and the loop goes on. */
  lemma ThrowingLineSkipped(index: map<string, Json>, before: seq<string>, line: string, after: seq<string>, rt: Runtime)
    requires rt.parse(line).Some? && EanOf(rt.parse(line).value, rt).Err?
    ensures LineEntry(line, rt) == None
    ensures IndexLines(index, before + [line] + after, rt) == IndexLines(index, before + after, rt)
  {
    SkippedLine(index, before, line, after, rt);
  }

  /** The line `{"EAN":{"toString":1}}` makes `String` throw on its EAN, so loading it alone
      leaves the index as it was. */
  lemma ToStringKeyLineSkipped(index: map<string, Json>, line: string, rt: Runtime)
    requires rt.parse(line) == Some(JObj(map["EAN" := JObj(map["toString" := JNum(1.0)])]))
    ensures LineEntry(line, rt) == None
    ensures IndexLines(index, [line], rt) == index
  {
    var item := rt.parse(line).value;
    var p := Probes(item);
    assert p == [None, None, Some(JObj(map["toString" := JNum(1.0)])), None, None];
    assert IsFirstTruthy(p, 0, 2) && Unprintable(p[2].value);
    UnprintableEanThrows(item, rt);
    ThrowingLineSkipped(index, [], line, [], rt);
    assert [] + [line] + [] == [line];
  }

  /** Loading a payload that is empty or white space only changes nothing. */
  lemma LoadEmptyPayload(index: map<string, Json>, text: string, rt: Runtime)
    requires AllSpace(text, IsJsSpace)
    ensures Load(index, text, rt) == index
  {
  }

  lemma {:induction false} FoldOverlay(index: map<string, Json>, lines: seq<string>, f: string -> Option<Entry>)
    ensures Fold(index, lines, f) == index + Fold(map[], lines, f)
    decreases |lines|
  {
    if lines == [] {
      assert index + map[] == index;
    } else {
      var init := lines[..|lines| - 1];
      FoldOverlay(index, init, f);
      match f(lines[|lines| - 1])
      case None =>
      case Some((key, item)) =>
        var d := Fold(map[], init, f);
        assert (index + d)[key := item] == index + d[key := item];
    }
  }

  /** Overlaying the same map twice is overlaying it once: the step that makes storing idempotent. */
  lemma OverlayTwice(m: map<string, Json>, d: map<string, Json>)
    ensures (m + d) + d == m + d
  {
  }

  /** Storing the same lines twice stores them once. */
  lemma FoldTwice(index: map<string, Json>, lines: seq<string>, f: string -> Option<Entry>)
    ensures Fold(Fold(index, lines, f), lines, f) == Fold(index, lines, f)
  {
    var d := Fold(map[], lines, f);
    FoldOverlay(index, lines, f);
    FoldOverlay(index + d, lines, f);
    OverlayTwice(index, d);
  }

  /** Loading the same payload twice gives the map loading it once gives. */
  lemma LoadIdempotent(index: map<string, Json>, text: string, rt: Runtime)
    ensures Load(Load(index, text, rt), text, rt) == Load(index, text, rt)
  {
    var trimmed := JsTrim(text);
    if trimmed != "" {
      FoldTwice(index, SplitLines(trimmed), LineFn(rt));
    }
  }

  /** The number of lines that store something. */
  function Stored(lines: seq<string>, f: string -> Option<Entry>): nat
    decreases |lines|
  {
    if lines == [] then 0
    else Stored(lines[..|lines| - 1], f) + (if f(lines[|lines| - 1]).Some? then 1 else 0)
  }

  lemma {:induction false} FoldSizeBound(lines: seq<string>, f: string -> Option<Entry>)
    ensures |Fold(map[], lines, f)| <= Stored(lines, f)
    decreases |lines|
  {
    if lines != [] {
      FoldSizeBound(lines[..|lines| - 1], f);
      match f(lines[|lines| - 1])
      case None =>
      case Some((key, item)) =>
        var before := Fold(map[], lines[..|lines| - 1], f);
        assert before[key := item].Keys == before.Keys + {key};
    }
  }

  /** No two lines store under the same key. */
  predicate DistinctKeys(lines: seq<string>, f: string -> Option<Entry>) {
    forall i, j | 0 <= i < j < |lines| && f(lines[i]).Some? && f(lines[j]).Some? ::
      f(lines[i]).value.0 != f(lines[j]).value.0
  }

  lemma {:induction false} FoldSizeDistinct(lines: seq<string>, f: string -> Option<Entry>)
    requires DistinctKeys(lines, f)
    ensures |Fold(map[], lines, f)| == Stored(lines, f)
    decreases |lines|
  {
    if lines != [] {
      var init := lines[..|lines| - 1];
      assert forall j | 0 <= j < |init| :: init[j] == lines[j];
      FoldSizeDistinct(init, f);
      match f(lines[|lines| - 1])
      case None =>
      case Some((key, item)) =>
        var before := Fold(map[], init, f);
        FoldUntouched(map[], init, key, f);
        assert before[key := item].Keys == before.Keys + {key};
    }
  }

  /** The index never holds more entries than there are lines with an EAN (fewer when EANs
      repeat), and exactly as many when no two lines share an EAN. */
  lemma IndexSize(lines: seq<string>, rt: Runtime)
    ensures |IndexLines(map[], lines, rt)| <= Stored(lines, LineFn(rt))
    ensures DistinctKeys(lines, LineFn(rt)) ==> |IndexLines(map[], lines, rt)| == Stored(lines, LineFn(rt))
  {
    FoldSizeBound(lines, LineFn(rt));
    if DistinctKeys(lines, LineFn(rt)) {
      FoldSizeDistinct(lines, LineFn(rt));
    }
  }

  /** `searchByEAN` against the map `index`: `None` for an empty argument, else the
      record stored under the trimmed argument, or `None` (`this.eanIndex[ean] || null`). */
  function Lookup(index: map<string, Json>, eanRaw: string): Option<Json> {
    if eanRaw == "" then None
    else
      var ean := JsTrim(eanRaw);
      if ean in index && Truthy(Some(index[ean])) then Some(index[ean]) else None
  }

  /** Exact lookup, no fuzzy matching: on a built index the argument is found exactly when
      its trimmed form is a key, and then the result is that key's record. */
  lemma LookupExact(index: map<string, Json>, eanRaw: string)
    requires IndexInvariant(index)
    ensures Lookup(index, eanRaw).Some? <==> JsTrim(eanRaw) in index
    ensures Lookup(index, eanRaw).Some? ==> Lookup(index, eanRaw).value == index[JsTrim(eanRaw)]
  {
  }

  /** White space around the argument makes no difference. */
  lemma LookupIgnoresSurroundingSpace(index: map<string, Json>, eanRaw: string)
    requires IndexInvariant(index)
    ensures Lookup(index, JsTrim(eanRaw)) == Lookup(index, eanRaw)
  {
    StripIdempotent(eanRaw, IsJsSpace);
    if JsTrim(eanRaw) == "" {
      assert Lookup(index, eanRaw) == None;
    }
  }

  /** An argument of white space only finds nothing, since no key is empty. */
  lemma LookupWhitespaceOnly(index: map<string, Json>, eanRaw: string)
    requires IndexInvariant(index)
    requires AllSpace(eanRaw, IsJsSpace)
    ensures Lookup(index, eanRaw) == None
  {
  }

  /** The names every plain JavaScript object inherits from `Object.prototype`. */
  const ObjectPrototypeNames: set<string> := {
    "constructor", "hasOwnProperty", "isPrototypeOf", "propertyIsEnumerable",
    "toLocaleString", "toString", "valueOf", "__proto__", "__defineGetter__",
    "__defineSetter__", "__lookupGetter__", "__lookupSetter__"
  }

  /** What `this.eanIndex[ean] || null` reads when the index is a plain object literal. */
  datatype Found = OwnRecord(item: Json) | InheritedMember(name: string) | NotFound

  /** `searchByEAN` as written, over an index that is a plain object: a key the index does
      not hold but `Object.prototype` does reads the inherited member, which is truthy. */
  function SearchAsWritten(index: map<string, Json>, eanRaw: string): Found {
    if eanRaw == "" then NotFound
    else
      var ean := JsTrim(eanRaw);
      if ean in index then (if Truthy(Some(index[ean])) then OwnRecord(index[ean]) else NotFound)
      else if ean in ObjectPrototypeNames then InheritedMember(ean)
      else NotFound
  }

  /** Away from the inherited names the plain-object reading and `Lookup` agree. */
  lemma SearchAsWrittenAgrees(index: map<string, Json>, eanRaw: string)
    requires JsTrim(eanRaw) !in ObjectPrototypeNames
    ensures Lookup(index, eanRaw).Some? <==> SearchAsWritten(index, eanRaw).OwnRecord?
    ensures Lookup(index, eanRaw).Some? ==> SearchAsWritten(index, eanRaw).item == Lookup(index, eanRaw).value
  {
  }

  /** The barcode text `toString` finds an inherited function in every index without a
      record under that EAN, where `Lookup` finds nothing. */
  lemma InheritedNameFound(index: map<string, Json>)
    requires "toString" !in index
    ensures SearchAsWritten(index, "toString") == InheritedMember("toString")
    ensures Lookup(index, "toString") == None
  {
    KeyIsTrimmed("toString");
  }

  /** The state of `ProductService`: the index it builds once and then reads. */
  class ProductService {
    var eanIndex: map<string, Json>

    ghost predicate Valid()
      reads this
    {
      IndexInvariant(eanIndex)
    }

    constructor ()
      ensures Valid() && eanIndex == map[]
    {
      eanIndex := map[];
    }

    /** `loadIndex` after the fetch: the response body arrives as `text`. */
    method LoadIndex(text: string, rt: Runtime)
      requires Valid()
      modifies this
      ensures Valid()
      ensures eanIndex == Load(old(eanIndex), text, rt)
    {
      var trimmed := JsTrim(text);
      if trimmed == "" {
        return;
      }
      var lines := SplitLines(trimmed);
      var i := 0;
      while i < |lines|
        invariant 0 <= i <= |lines|
        invariant Valid()
        invariant eanIndex == IndexLines(old(eanIndex), lines[..i], rt)
      {
        IndexLine(lines[i], rt);
        IndexLinesStep(old(eanIndex), lines, i, rt);
        i := i + 1;
      }
      assert lines[..i] == lines;
      IndexLinesKeepsInvariant(old(eanIndex), lines, rt);
    }

    /** The body of `loadIndex`'s loop for one line: skip it if it is blank, if `JSON.parse`
        throws or if it has no EAN; otherwise store the record under the EAN. */
    method IndexLine(line: string, rt: Runtime)
      requires Valid()
      modifies this
      ensures Valid()
      ensures eanIndex == Store(old(eanIndex), LineEntry(line, rt))
    {
      if LineEntry(line, rt).Some? {
        LineEntryValid(line, rt);
      }
      if JsTrim(line) != "" {
        var parsed := rt.parse(line);
        if parsed.Some? {
          var item := parsed.value;
          var found := FindEan(item, rt);
          // A throw inside `findEAN` lands in the `catch`, which skips the line.
          if found.Ok? {
            var ean := found.value;
            if ean.Some? && ean.value != "" {
              eanIndex := eanIndex[ean.value := item];
            }
          }
        }
      }
    }

    /** `findEAN`: probe the five places in order and return the first truthy value as a
        trimmed string; `Err` is the exception `String` raises. */
    method FindEan(item: Json, rt: Runtime) returns (ean: Result<Option<string>, JsError>)
      ensures ean == EanOf(item, rt)
    {
      if !Truthy(Some(item)) {
        return Ok(None);
      }
      var possible := Probes(item);
      var i := 0;
      while i < |possible|
        invariant 0 <= i <= |possible|
        invariant FirstTruthy(possible, i) == FirstTruthy(possible, 0)
      {
        var v := possible[i];
        if Truthy(v) {
          var shown := ToStr(v.value, rt.showNumber);
          if shown.Err? {
            return Err(shown.error);
          }
          return Ok(Some(JsTrim(shown.value)));
        }
        i := i + 1;
      }
      return Ok(None);
    }

    /** `searchByEAN` with the own-key lookup `Lookup`, the corrected reading of
        `this.eanIndex[ean] || null`: a name inherited from `Object.prototype` finds nothing
        here, unlike in `SearchAsWritten`. */
    method SearchByEan(eanRaw: string) returns (r: Option<Json>)
      ensures r == Lookup(eanIndex, eanRaw)
      ensures r.Some? ==> JsTrim(eanRaw) in eanIndex && r.value == eanIndex[JsTrim(eanRaw)]
      ensures Valid() ==> (r.Some? <==> JsTrim(eanRaw) in eanIndex)
    {
      if eanRaw == "" {
        return None;
      }
      var ean := JsTrim(eanRaw);
      if ean in eanIndex && Truthy(Some(eanIndex[ean])) {
        r := Some(eanIndex[ean]);
      } else {
        r := None;
      }
      if Valid() {
        LookupExact(eanIndex, eanRaw);
      }
    }
  }
}
