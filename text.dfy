/** Character classes of the five patterns, and the string operations the
    extractor applies to a file's text: line splitting as `readlines` does it,
    `str.split(",")`, `str.strip()` and code-point ordering of strings. */
module Text {

  /** Python's `\s` (and the characters `str.strip()` removes): the ASCII
      whitespace `\t \n \v \f \r`, the separators U+001C..U+001F, the space,
      and the Unicode spaces and line/paragraph separators. */
  predicate IsSpace(c: char) {
    var n := c as int;
    || n == 0x20 || 0x09 <= n <= 0x0D || 0x1C <= n <= 0x1F
    || n == 0x85 || n == 0xA0 || n == 0x1680
    || 0x2000 <= n <= 0x200A
    || n == 0x2028 || n == 0x2029 || n == 0x202F || n == 0x205F || n == 0x3000
  }

  /** `\w`, restricted to ASCII letters, digits and the underscore. */
  predicate IsWord(c: char) {
    || 'a' <= c <= 'z' || 'A' <= c <= 'Z' || '0' <= c <= '9' || c == '_'
  }

  /** `[A-Z]`. */
  predicate IsUpper(c: char) {
    'A' <= c <= 'Z'
  }

  /** `[\w.]`, the characters of a dotted name. */
  predicate IsNameChar(c: char) {
    IsWord(c) || c == '.'
  }

  /** `[\w\s,]`, the characters of an `implements` list. */
  predicate IsListChar(c: char) {
    IsWord(c) || IsSpace(c) || c == ','
  }

  predicate All(s: string, p: char -> bool) {
    forall k :: 0 <= k < |s| ==> p(s[k])
  }

  /** A `.` is neither a word character nor an `implements` list character. */
  lemma DotClasses()
    ensures !IsWord('.') && !IsListChar('.')
  {
  }

  /** A character that fails `p` does not occur in a string all of whose
      characters satisfy it. */
  lemma AllExcludes(s: string, p: char -> bool, c: char)
    requires All(s, p) && !p(c)
    ensures c !in s
  {
    forall k | 0 <= k < |s| ensures s[k] != c { }
  }

  function Elements<T>(s: seq<T>): set<T> {
    set x | x in s
  }

  lemma ElementsAppend<T>(s: seq<T>, x: T)
    ensures Elements(s + [x]) == Elements(s) + {x}
  {
    assert x in s + [x];
  }

  lemma ElementsConcat<T>(a: seq<T>, b: seq<T>)
    ensures Elements(a + b) == Elements(a) + Elements(b)
  {
    forall x | x in Elements(a) + Elements(b) ensures x in a + b {
      if x in b {
        var k :| 0 <= k < |b| && b[k] == x;
        assert (a + b)[|a| + k] == x;
      }
    }
  }

  /** A duplicate-free sequence has as many elements as its set. */
  lemma {:induction false} DistinctCard<T>(s: seq<T>)
    requires Distinct(s)
    ensures |Elements(s)| == |s|
    decreases |s|
  {
    if s != [] {
      var init := s[..|s| - 1];
      DistinctCard(init);
      assert Elements(s) == Elements(init) + {s[|s| - 1]};
    }
  }

  predicate Distinct<T(==)>(s: seq<T>) {
    forall i, j :: 0 <= i < j < |s| ==> s[i] != s[j]
  }

  /** End of the longest run of characters satisfying `p` that starts at `i`:
      what a greedy `p*` consumes from `i` on. */
  function RunEnd(s: string, i: nat, p: char -> bool): (e: nat)
    requires i <= |s|
    ensures i <= e <= |s|
    ensures forall k :: i <= k < e ==> p(s[k])
    ensures e == |s| || !p(s[e])
    decreases |s| - i
  {
    if i == |s| || !p(s[i]) then i else RunEnd(s, i + 1, p)
  }

  /** A run end is determined by its two defining properties. */
  lemma RunEndIs(s: string, i: nat, j: nat, p: char -> bool)
    requires i <= j <= |s|
    requires forall k :: i <= k < j ==> p(s[k])
    requires j == |s| || !p(s[j])
    ensures RunEnd(s, i, p) == j
  {
  }

  // ---------------------------------------------------------------- lines

  /** Concatenation of a list of strings, `''.join(lines)`. */
  function Concat(lines: seq<string>): string {
    if lines == [] then [] else lines[0] + Concat(lines[1..])
  }

  /** Index just past the first `'\n'` at or after `i`, or the end of the text. */
  function LineEnd(text: string, i: nat): (e: nat)
    requires i < |text|
    ensures i < e <= |text|
    ensures forall k :: i <= k < e - 1 ==> text[k] != '\n'
    ensures e < |text| ==> text[e - 1] == '\n'
    decreases |text| - i
  {
    if text[i] == '\n' || i + 1 == |text| then i + 1 else LineEnd(text, i + 1)
  }

  /** A well-formed line of `readlines`: non-empty, and a `'\n'` only as its
      last character. */
  predicate IsLine(line: string) {
    line != [] && forall k :: 0 <= k < |line| - 1 ==> line[k] != '\n'
  }

  /** `readlines` on `\n`-normalised text: the text cut just after each `'\n'`. */
  function Lines(text: string): (lines: seq<string>)
    ensures forall k :: 0 <= k < |lines| ==> IsLine(lines[k])
    ensures forall k :: 0 <= k < |lines| - 1 ==> |lines[k]| > 0 && lines[k][|lines[k]| - 1] == '\n'
    decreases |text|
  {
    if text == [] then []
    else
      var e := LineEnd(text, 0);
      [text[..e]] + Lines(text[e..])
  }

  /** Joining the lines gives the text back, so `''.join(f.readlines())` is the
      file's content. */
  lemma {:induction false} LinesRoundTrip(text: string)
    ensures Concat(Lines(text)) == text
    decreases |text|
  {
    if text != [] {
      var e := LineEnd(text, 0);
      LinesRoundTrip(text[e..]);
      assert text == text[..e] + text[e..];
    }
  }

  // ---------------------------------------------------------------- split

  /** The pieces joined back with the separator between them. */
  function Join(parts: seq<string>, sep: char): string
    requires parts != []
    decreases |parts|
  {
    if |parts| == 1 then parts[0] else parts[0] + [sep] + Join(parts[1..], sep)
  }

  /** Index of the first `sep` in `s`, or `|s|`. */
  function IndexOf(s: string, sep: char): (k: nat)
    ensures k <= |s|
    ensures forall j :: 0 <= j < k ==> s[j] != sep
    ensures k < |s| ==> s[k] == sep
  {
    RunEnd(s, 0, c => c != sep)
  }

  /** `s.split(sep)` for a one-character separator: the maximal pieces between
      separators, empty pieces included, so there is always one more piece
      than there are separators. */
  function Split(s: string, sep: char): (parts: seq<string>)
    ensures parts != []
    ensures forall k :: 0 <= k < |parts| ==> sep !in parts[k]
    decreases |s|
  {
    var k := IndexOf(s, sep);
    if k == |s| then [s] else [s[..k]] + Split(s[k + 1..], sep)
  }

  /** Joining the pieces of a split gives the string back. */
  lemma {:induction false} JoinSplit(s: string, sep: char)
    ensures Join(Split(s, sep), sep) == s
    decreases |s|
  {
    var k := IndexOf(s, sep);
    if k < |s| {
      var rest := Split(s[k + 1..], sep);
      JoinSplit(s[k + 1..], sep);
      var parts := [s[..k]] + rest;
      assert Split(s, sep) == parts;
      assert parts[1..] == rest;
      assert Join(parts, sep) == s[..k] + [sep] + s[k + 1..];
      assert s == s[..k] + [sep] + s[k + 1..];
    }
  }

  /** Splitting a join of separator-free pieces gives the pieces back. */
  lemma {:induction false} SplitJoin(parts: seq<string>, sep: char)
    requires parts != []
    requires forall k :: 0 <= k < |parts| ==> sep !in parts[k]
    ensures Split(Join(parts, sep), sep) == parts
    decreases |parts|
  {
    var s := Join(parts, sep);
    if |parts| == 1 {
      RunEndIs(s, 0, |s|, c => c != sep);
    } else {
      var rest := Join(parts[1..], sep);
      assert s == parts[0] + [sep] + rest;
      RunEndIs(s, 0, |parts[0]|, c => c != sep);
      assert s[..|parts[0]|] == parts[0];
      assert s[|parts[0]| + 1..] == rest;
      SplitJoin(parts[1..], sep);
    }
  }

  // ---------------------------------------------------------------- strip

  /** Start of the whitespace run that ends `s[..e]`, going no lower than `lo`. */
  function TrailingStart(s: string, lo: nat, e: nat): (t: nat)
    requires lo <= e <= |s|
    ensures lo <= t <= e
    ensures forall k :: t <= k < e ==> IsSpace(s[k])
    ensures t == lo || !IsSpace(s[t - 1])
    decreases e
  {
    if e == lo || !IsSpace(s[e - 1]) then e else TrailingStart(s, lo, e - 1)
  }

  /** `str.strip()`: the string without its leading and trailing whitespace.
      What is kept is the slice of `s` that starts after the leading
      whitespace run, everything after it is whitespace, and what is kept
      neither starts nor ends with whitespace. */
  function Strip(s: string): (r: string)
    ensures var a := RunEnd(s, 0, IsSpace);
            && a + |r| <= |s| && r == s[a..a + |r|]
            && (forall k :: a + |r| <= k < |s| ==> IsSpace(s[k]))
    ensures r == [] || (!IsSpace(r[0]) && !IsSpace(r[|r| - 1]))
  {
    var a := RunEnd(s, 0, IsSpace);
    var e := TrailingStart(s, a, |s|);
    s[a..e]
  }

  /** A string strips to nothing exactly when it is all whitespace. */
  lemma StripEmpty(s: string)
    ensures Strip(s) == [] <==> All(s, IsSpace)
  {
    var a := RunEnd(s, 0, IsSpace);
    var e := TrailingStart(s, a, |s|);
    assert Strip(s) == s[a..e];
    if All(s, IsSpace) {
      RunEndIs(s, 0, |s|, IsSpace);
    }
  }

  /** Stripping twice is stripping once. */
  lemma StripIdempotent(s: string)
    ensures Strip(Strip(s)) == Strip(s)
  {
    var r := Strip(s);
    RunEndIs(r, 0, 0, IsSpace);
    assert r[0..|r|] == r;
  }

  // ---------------------------------------------------------------- order

  /** Python's `<` on `str`: lexicographic by code point, a proper prefix
      first. */
  predicate Less(a: string, b: string)
    ensures Less(a, b) ==> a != b
    decreases |a|
  {
    if a == [] then b != []
    else if b == [] then false
    else if a[0] != b[0] then a[0] < b[0]
    else Less(a[1..], b[1..])
  }

  lemma {:induction false} LessIrreflexive(a: string)
    ensures !Less(a, a)
    decreases |a|
  {
    if a != [] { LessIrreflexive(a[1..]); }
  }

  lemma {:induction false} LessTransitive(a: string, b: string, c: string)
    requires Less(a, b) && Less(b, c)
    ensures Less(a, c)
    decreases |a|
  {
    if a != [] && a[0] == b[0] && b[0] == c[0] {
      LessTransitive(a[1..], b[1..], c[1..]);
    }
  }

  lemma {:induction false} LessTotal(a: string, b: string)
    ensures a == b || Less(a, b) || Less(b, a)
    decreases |a|
  {
    if a != [] && b != [] && a[0] == b[0] {
      LessTotal(a[1..], b[1..]);
      if a[1..] == b[1..] {
        assert a == [a[0]] + a[1..] && b == [b[0]] + b[1..];
      }
    }
  }

  lemma LessAsymmetric(a: string, b: string)
    requires Less(a, b)
    ensures !Less(b, a)
  {
    if Less(b, a) {
      LessTransitive(a, b, a);
      LessIrreflexive(a);
    }
  }

  /** Strictly ascending under `Less`: sorted and free of duplicates. */
  predicate StrictlyAscending(s: seq<string>) {
    forall i, j :: 0 <= i < j < |s| ==> Less(s[i], s[j])
  }

  predicate IsMinimum(m: string, s: set<string>) {
    m in s && forall x :: x in s && x != m ==> Less(m, x)
  }

  lemma {:induction false} MinimumExists(s: set<string>)
    requires s != {}
    ensures exists m :: IsMinimum(m, s)
    decreases |s|
  {
    var y :| y in s;
    if s == {y} {
      assert IsMinimum(y, s);
    } else {
      MinimumExists(s - {y});
      var m :| IsMinimum(m, s - {y});
      LessTotal(m, y);
      if Less(m, y) {
        assert IsMinimum(m, s);
      } else {
        forall x | x in s && x != y ensures Less(y, x) {
          if x != m { LessTransitive(y, m, x); }
        }
        assert IsMinimum(y, s);
      }
    }
  }

  lemma MinimumUnique(s: set<string>)
    ensures forall m, n :: IsMinimum(m, s) && IsMinimum(n, s) ==> m == n
  {
    forall m, n | IsMinimum(m, s) && IsMinimum(n, s) ensures m == n {
      if m != n { LessAsymmetric(m, n); }
    }
  }

  lemma AscendingCons(m: string, rest: seq<string>)
    requires StrictlyAscending(rest)
    requires forall x :: x in rest ==> Less(m, x)
    ensures StrictlyAscending([m] + rest)
  {
    var r := [m] + rest;
    forall i, j | 0 <= i < j < |r| ensures Less(r[i], r[j]) {
      if i > 0 { assert r[i] == rest[i - 1] && r[j] == rest[j - 1]; }
      else { assert r[j] == rest[j - 1] && r[j] in rest; }
    }
  }

  /** `sorted(list(s))`: the elements of a set in ascending order. */
  function SortedList(s: set<string>): (r: seq<string>)
    ensures StrictlyAscending(r)
    ensures Elements(r) == s
    ensures |r| == |s|
    decreases |s|
  {
    if s == {} then []
    else
      MinimumExists(s);
      MinimumUnique(s);
      var m :| IsMinimum(m, s);
      var rest := SortedList(s - {m});
      forall x | x in rest ensures Less(m, x) {
        assert x in Elements(rest);
      }
      AscendingCons(m, rest);
      assert |s - {m}| == |s| - 1;
      assert Elements([m] + rest) == {m} + Elements(rest);
      [m] + rest
  }

  /** There is only one strictly ascending list of a given set of strings, so
      the sorted dependency list does not depend on the set's iteration order. */
  lemma {:induction false} StrictlyAscendingUnique(a: seq<string>, b: seq<string>)
    requires StrictlyAscending(a) && StrictlyAscending(b)
    requires Elements(a) == Elements(b)
    ensures a == b
    decreases |a|
  {
    if a != [] {
      assert a[0] in Elements(b);
    }
    if b != [] {
      assert b[0] in Elements(a);
    }
    if a != [] && b != [] {
      if a[0] != b[0] {
        var i :| 0 <= i < |b| && b[i] == a[0];
        var j :| 0 <= j < |a| && a[j] == b[0];
        assert Less(a[0], a[j]) && Less(b[0], b[i]);
        LessAsymmetric(a[0], b[0]);
      }
      forall x | x in a[1..] ensures x != a[0] {
        LessIrreflexive(a[0]);
      }
      forall x | x in b[1..] ensures x != b[0] {
        LessIrreflexive(b[0]);
      }
      assert Elements(a[1..]) == Elements(a) - {a[0]};
      assert Elements(b[1..]) == Elements(b) - {b[0]};
      StrictlyAscendingUnique(a[1..], b[1..]);
    }
  }
}
