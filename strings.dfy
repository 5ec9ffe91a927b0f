/** String operations the core relies on: JavaScript's and Python's whitespace
    classes, `trim`/`strip`, the `/\s/g` removal, the `/\r?\n/` split, prefix and
    substring tests, and the code-point order Python uses to sort strings. */
module Strings {

  /** The characters ECMAScript counts as WhiteSpace or LineTerminator: what
      `String.prototype.trim` removes and what the regular expression `\s` matches. */
  predicate IsJsSpace(c: char) {
    ('\t' <= c <= '\r') || c == ' ' || c == '\U{A0}' || c == '\U{1680}'
    || ('\U{2000}' <= c <= '\U{200A}') || c == '\U{2028}' || c == '\U{2029}'
    || c == '\U{202F}' || c == '\U{205F}' || c == '\U{3000}' || c == '\U{FEFF}'
  }

  /** The characters for which Python's `str.isspace` holds: what `str.strip()` removes.
      It differs from the JavaScript class: U+001C..U+001F and U+0085 are in, U+FEFF is out. */
  predicate IsPySpace(c: char) {
    ('\t' <= c <= '\r') || ('\U{1C}' <= c <= ' ') || c == '\U{85}' || c == '\U{A0}'
    || c == '\U{1680}' || ('\U{2000}' <= c <= '\U{200A}') || c == '\U{2028}'
    || c == '\U{2029}' || c == '\U{202F}' || c == '\U{205F}' || c == '\U{3000}'
  }

  predicate AllSpace(s: string, space: char -> bool) {
    forall i | 0 <= i < |s| :: space(s[i])
  }

  predicate NoSpace(s: string, space: char -> bool) {
    forall i | 0 <= i < |s| :: !space(s[i])
  }

  /** Neither the first nor the last character is white space. */
  predicate IsStripped(s: string, space: char -> bool) {
    s == [] || (!space(s[0]) && !space(s[|s| - 1]))
  }

  /** Drops the leading white space. */
  function TrimStart(s: string, space: char -> bool): (r: string)
    ensures |r| <= |s|
  {
    if s != [] && space(s[0]) then TrimStart(s[1..], space) else s
  }

  /** What `TrimStart` leaves is the suffix that starts at the first character that is not white space. */
  lemma {:induction false} TrimStartShape(s: string, space: char -> bool)
    ensures TrimStart(s, space) == s[|s| - |TrimStart(s, space)|..]
    ensures AllSpace(s[..|s| - |TrimStart(s, space)|], space)
    ensures TrimStart(s, space) == [] || !space(TrimStart(s, space)[0])
  {
    if s != [] && space(s[0]) {
      TrimStartShape(s[1..], space);
      var k := |s| - |TrimStart(s, space)|;
      assert s[1..][k - 1..] == s[k..];
      assert forall i | 1 <= i < k :: s[1..][..k - 1][i - 1] == s[i];
    }
  }

  /** Drops the trailing white space. */
  function TrimEnd(s: string, space: char -> bool): (r: string)
    ensures |r| <= |s|
  {
    if s != [] && space(s[|s| - 1]) then TrimEnd(s[..|s| - 1], space) else s
  }

  /** What `TrimEnd` leaves is the prefix that ends at the last character that is not white space. */
  lemma {:induction false} TrimEndShape(s: string, space: char -> bool)
    ensures TrimEnd(s, space) == s[..|TrimEnd(s, space)|]
    ensures AllSpace(s[|TrimEnd(s, space)|..], space)
    ensures TrimEnd(s, space) == [] || !space(TrimEnd(s, space)[|TrimEnd(s, space)| - 1])
  {
    if s != [] && space(s[|s| - 1]) {
      var t := s[..|s| - 1];
      TrimEndShape(t, space);
      var k := |TrimEnd(s, space)|;
      assert t[..k] == s[..k];
      assert forall i | 0 <= i < |t| - k :: t[k..][i] == s[k..][i];
    }
  }

  /** Both ends trimmed (`trim()` in JavaScript, `strip()` in Python, for the given class). */
  function Strip(s: string, space: char -> bool): (r: string)
    ensures IsStripped(r, space)
    ensures r == [] <==> AllSpace(s, space)
  {
    var t := TrimStart(s, space);
    var r := TrimEnd(t, space);
    TrimStartShape(s, space);
    TrimEndShape(t, space);
    assert r != [] ==> r[0] == t[0];
    assert t != [] ==> t[0] == s[|s| - |t|];
    assert r == [] ==> t[|r|..] == t;
    assert t == [] ==> s == s[..|s| - |t|];
    r
  }

  /** Stripping only removes characters: what is left was in the string. */
  lemma StripInside(s: string, space: char -> bool)
    ensures forall c :: c in Strip(s, space) ==> c in s
  {
    var t := TrimStart(s, space);
    TrimStartShape(s, space);
    TrimEndShape(t, space);
    var r := Strip(s, space);
    forall c | c in r
      ensures c in s
    {
      var p :| 0 <= p < |r| && r[p] == c;
      assert r[p] == t[p] == s[|s| - |t| + p];
    }
  }

  /** JavaScript `String.prototype.trim`. */
  function JsTrim(s: string): string {
    Strip(s, IsJsSpace)
  }

  /** Python `str.strip()` with no argument. */
  function PyStrip(s: string): string {
    Strip(s, IsPySpace)
  }

  lemma {:induction false} TrimStartSkips(pre: string, rest: string, space: char -> bool)
    requires AllSpace(pre, space)
    requires rest == [] || !space(rest[0])
    ensures TrimStart(pre + rest, space) == rest
  {
    if pre != [] {
      assert (pre + rest)[1..] == pre[1..] + rest;
      TrimStartSkips(pre[1..], rest, space);
    }
  }

  lemma {:induction false} TrimEndSkips(rest: string, post: string, space: char -> bool)
    requires AllSpace(post, space)
    requires rest == [] || !space(rest[|rest| - 1])
    ensures TrimEnd(rest + post, space) == rest
  {
    if post != [] {
      assert (rest + post)[..|rest + post| - 1] == rest + post[..|post| - 1];
      TrimEndSkips(rest, post[..|post| - 1], space);
    } else {
      assert rest + post == rest;
    }
  }

  /** Stripping removes exactly the surrounding white space: a stripped core
      between two runs of white space is what `Strip` gives back. */
  lemma StripSurrounded(pre: string, core: string, post: string, space: char -> bool)
    requires AllSpace(pre, space) && AllSpace(post, space)
    requires IsStripped(core, space)
    ensures Strip(pre + core + post, space) == core
  {
    if core == [] {
      assert pre + core + post == pre + post;
      assert AllSpace(pre + post, space) by {
        forall i | 0 <= i < |pre + post| ensures space((pre + post)[i]) {
          if i >= |pre| { assert (pre + post)[i] == post[i - |pre|]; }
        }
      }
    } else {
      assert pre + core + post == pre + (core + post);
      TrimStartSkips(pre, core + post, space);
      TrimEndSkips(core, post, space);
    }
  }

  lemma StripIdempotent(s: string, space: char -> bool)
    ensures Strip(Strip(s, space), space) == Strip(s, space)
  {
    var r := Strip(s, space);
    assert [] + r + [] == r;
    StripSurrounded([], r, [], space);
  }

  /** A string without any white space is left as it is. */
  lemma StripNoSpace(s: string, space: char -> bool)
    requires NoSpace(s, space)
    ensures Strip(s, space) == s
  {
    assert [] + s + [] == s;
    StripSurrounded([], s, [], space);
  }

  /** Every white-space character removed, as `s.replace(/\s/g, '')` does for the JavaScript class. */
  function RemoveSpace(s: string, space: char -> bool): (r: string)
    ensures |r| <= |s|
    ensures NoSpace(r, space)
  {
    if s == [] then []
    else (if space(s[0]) then [] else [s[0]]) + RemoveSpace(s[1..], space)
  }

  /** `RemoveSpace` keeps exactly the characters that are not white space. */
  lemma {:induction false} RemoveSpaceKeeps(s: string, space: char -> bool)
    ensures forall c :: c in RemoveSpace(s, space) <==> c in s && !space(c)
  {
    if s != [] {
      RemoveSpaceKeeps(s[1..], space);
      assert s == [s[0]] + s[1..];
    }
  }

  /** A string of white space only is removed entirely. */
  lemma {:induction false} RemoveSpaceAllSpace(s: string, space: char -> bool)
    requires AllSpace(s, space)
    ensures RemoveSpace(s, space) == []
  {
    if s != [] {
      assert forall i | 0 <= i < |s| - 1 :: s[1..][i] == s[i + 1];
      RemoveSpaceAllSpace(s[1..], space);
    }
  }

  /** A string without white space is left as it is. */
  lemma {:induction false} RemoveSpaceNoSpace(s: string, space: char -> bool)
    requires NoSpace(s, space)
    ensures RemoveSpace(s, space) == s
  {
    if s != [] {
      assert forall i | 0 <= i < |s| - 1 :: s[1..][i] == s[i + 1];
      RemoveSpaceNoSpace(s[1..], space);
      assert s == [s[0]] + s[1..];
    }
  }

  /** Removing white space distributes over concatenation. */
  lemma {:induction false} RemoveSpaceAppend(a: string, b: string, space: char -> bool)
    ensures RemoveSpace(a + b, space) == RemoveSpace(a, space) + RemoveSpace(b, space)
  {
    if a != [] {
      assert (a + b)[1..] == a[1..] + b;
      RemoveSpaceAppend(a[1..], b, space);
    } else {
      assert a + b == b;
    }
  }

  /** The index of the first `c` in `s`, or `|s|` if there is none. */
  function FirstIndex(s: string, c: char): (i: nat)
    ensures i <= |s|
    ensures i < |s| ==> s[i] == c
    ensures forall j | 0 <= j < i :: s[j] != c
  {
    if s == [] || s[0] == c then 0 else 1 + FirstIndex(s[1..], c)
  }

  /** `s.split(/\r?\n/)`: pieces separated by a line feed, a carriage return just before the
      line feed belonging to the separator. A lone carriage return stays in its piece. */
  function SplitLines(s: string): (lines: seq<string>)
    ensures |lines| >= 1
    decreases |s|
  {
    var i := FirstIndex(s, '\n');
    if i == |s| then [s]
    else [if 0 < i && s[i - 1] == '\r' then s[..i - 1] else s[..i]] + SplitLines(s[i + 1..])
  }

  /** No piece of a split holds a line feed. */
  lemma {:induction false} SplitLinesNoLineFeed(s: string)
    ensures forall k | 0 <= k < |SplitLines(s)| :: '\n' !in SplitLines(s)[k]
    decreases |s|
  {
    var i := FirstIndex(s, '\n');
    if i < |s| {
      var head := if 0 < i && s[i - 1] == '\r' then s[..i - 1] else s[..i];
      assert forall j | 0 <= j < |head| :: head[j] == s[j];
      SplitLinesNoLineFeed(s[i + 1..]);
      assert SplitLines(s) == [head] + SplitLines(s[i + 1..]);
    }
  }

  /** The lines written one after another, a line feed between each two. */
  function JoinLines(lines: seq<string>): string
    requires |lines| >= 1
  {
    if |lines| == 1 then lines[0] else lines[0] + "\n" + JoinLines(lines[1..])
  }

  /** `FirstIndex` is pinned down by its contract. */
  lemma {:induction false} FirstIndexAt(s: string, c: char, i: nat)
    requires i <= |s| && (i < |s| ==> s[i] == c)
    requires forall j | 0 <= j < i :: s[j] != c
    ensures FirstIndex(s, c) == i
  {
    if i > 0 {
      assert forall j | 0 <= j < i - 1 :: s[1..][j] == s[j + 1];
      FirstIndexAt(s[1..], c, i - 1);
    }
  }

  /** A string without a line feed does not split. */
  lemma SplitLinesSingle(l: string)
    requires '\n' !in l
    ensures SplitLines(l) == [l]
  {
    assert forall j | 0 <= j < |l| :: l[j] != '\n' by {
      forall j | 0 <= j < |l| ensures l[j] != '\n' {
        assert l[j] in l;
      }
    }
    FirstIndexAt(l, '\n', |l|);
  }

  /** The first line feed ends the first piece. */
  lemma SplitLinesCons(l: string, rest: string)
    requires '\n' !in l
    requires l == [] || l[|l| - 1] != '\r'
    ensures SplitLines(l + "\n" + rest) == [l] + SplitLines(rest)
  {
    var s := l + "\n" + rest;
    assert forall j | 0 <= j < |l| :: s[j] == l[j] && l[j] != '\n' by {
      forall j | 0 <= j < |l| ensures s[j] == l[j] && l[j] != '\n' {
        assert l[j] in l;
      }
    }
    FirstIndexAt(s, '\n', |l|);
    assert s[..|l|] == l;
    assert s[|l| + 1..] == rest;
  }

  /** A carriage return just before the first line feed belongs to the separator: it ends
      the first piece without being part of it. */
  lemma SplitLinesCrLf(l: string, rest: string)
    requires '\n' !in l
    ensures SplitLines(l + "\r\n" + rest) == [l] + SplitLines(rest)
  {
    var s := l + "\r\n" + rest;
    assert forall j | 0 <= j < |l| + 1 :: s[j] != '\n' by {
      forall j | 0 <= j < |l| + 1 ensures s[j] != '\n' {
        if j < |l| {
          assert s[j] == l[j] && l[j] in l;
        }
      }
    }
    FirstIndexAt(s, '\n', |l| + 1);
    assert s[|l|] == '\r';
    assert s[..|l|] == l;
    assert s[|l| + 2..] == rest;
  }

  /** `"a\r\nb"` splits into `a` and `b`; a lone carriage return stays in its piece. */
  lemma SplitLinesExamples()
    ensures SplitLines("a\r\nb") == ["a", "b"]
    ensures SplitLines("a\rb") == ["a\rb"]
    ensures SplitLines("a\r\r\nb") == ["a\r", "b"]
  {
    SplitLinesCrLf("a", "b");
    assert "a" + "\r\n" + "b" == "a\r\nb";
    SplitLinesSingle("b");
    SplitLinesSingle("a\rb");
    SplitLinesCrLf("a\r", "b");
    assert "a\r" + "\r\n" + "b" == "a\r\r\nb";
  }

  /** Splitting undoes joining, for lines that hold no line feed and (but for the last)
      do not end in a carriage return. */
  lemma {:induction false} SplitJoinLines(lines: seq<string>)
    requires |lines| >= 1
    requires forall k | 0 <= k < |lines| :: '\n' !in lines[k]
    requires forall k | 0 <= k < |lines| - 1 :: lines[k] == [] || lines[k][|lines[k]| - 1] != '\r'
    ensures SplitLines(JoinLines(lines)) == lines
  {
    if |lines| == 1 {
      SplitLinesSingle(lines[0]);
    } else {
      var tail := lines[1..];
      assert forall k | 0 <= k < |tail| :: tail[k] == lines[k + 1];
      SplitJoinLines(tail);
      SplitLinesCons(lines[0], JoinLines(tail));
      assert lines == [lines[0]] + tail;
    }
  }

  /** Python `s.startswith(p)`. */
  predicate StartsWith(s: string, p: string) {
    |p| <= |s| && s[..|p|] == p
  }

  /** Python `p in s` on strings: `p` occurs somewhere in `s`. */
  predicate Contains(s: string, p: string)
    decreases |s|
  {
    StartsWith(s, p) || (s != [] && Contains(s[1..], p))
  }

  /** Python's `<` on `str`: lexicographic by code point, a proper prefix coming first. */
  predicate Less(a: string, b: string)
    decreases |a|
  {
    b != [] && (a == [] || a[0] < b[0] || (a[0] == b[0] && Less(a[1..], b[1..])))
  }

  lemma {:induction false} LessIrreflexive(a: string)
    ensures !Less(a, a)
  {
    if a != [] { LessIrreflexive(a[1..]); }
  }

  lemma {:induction false} LessTransitive(a: string, b: string, c: string)
    requires Less(a, b) && Less(b, c)
    ensures Less(a, c)
  {
    if a != [] && a[0] == b[0] && b[0] == c[0] {
      LessTransitive(a[1..], b[1..], c[1..]);
    }
  }

  lemma {:induction false} LessTotal(a: string, b: string)
    requires a != b
    ensures Less(a, b) || Less(b, a)
  {
    if a != [] && b != [] && a[0] == b[0] {
      assert a == [a[0]] + a[1..] && b == [b[0]] + b[1..];
      LessTotal(a[1..], b[1..]);
    }
  }
}
