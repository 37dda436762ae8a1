/** The five compiled patterns of the extractor, as matchers over a string.
    Each matcher follows what Python's backtracking `re` engine does with the
    pattern: greedy repetition, giving characters back only where the rest of
    the pattern needs them. Each comes with a reference predicate that states
    the match declaratively, and lemmas showing the two agree. */
module Patterns {
  import opened Text

  datatype Option<T> = None | Some(value: T)

  /** The stretch `s[start..end]` a capture group covers. */
  datatype Span = Span(start: nat, end: nat)

  const PackageKeyword: string := "package"
  const ImportKeyword: string := "import"
  const NewKeyword: string := "new"
  const ExtendsKeyword: string := "extends"
  const ImplementsKeyword: string := "implements"

  /** `w` occurs in `s` at offset `i`. */
  predicate HasAt(s: string, i: nat, w: string) {
    i + |w| <= |s| && s[i..i + |w|] == w
  }

  // ------------------------------------------- ^\s*<keyword>\s+([\w.]+);

  /** `^\s*<keyword>\s+([\w.]+);` matched at the start of `s` (`re.match`,
      and `^` without `re.MULTILINE`): the captured dotted name, if any. */
  function MatchDeclaration(s: string, keyword: string): (r: Option<string>)
    ensures r.Some? ==> r.value != [] && All(r.value, IsNameChar)
  {
    var a := RunEnd(s, 0, IsSpace);
    if !HasAt(s, a, keyword) then None
    else
      var b := a + |keyword|;
      var c := RunEnd(s, b, IsSpace);
      var d := RunEnd(s, c, IsNameChar);
      if c == b || d == c || d == |s| || s[d] != ';' then None
      else Some(s[c..d])
  }

  /** `s` starts with `lead` whitespace characters, the keyword, `gap >= 1`
      whitespace characters, the non-empty dotted `name` and a `;`. */
  ghost predicate DeclarationAt(s: string, keyword: string, lead: nat, gap: nat, name: string) {
    var b := lead + |keyword|;
    var c := b + gap;
    var d := c + |name|;
    && d < |s|
    && (forall k :: 0 <= k < lead ==> IsSpace(s[k]))
    && s[lead..b] == keyword
    && gap >= 1
    && (forall k :: b <= k < c ==> IsSpace(s[k]))
    && name != [] && All(name, IsNameChar)
    && s[c..d] == name
    && s[d] == ';'
  }

  /** Every name the matcher reports is the name of a declaration at the
      start of `s`. */
  lemma MatchDeclarationSound(s: string, keyword: string)
    requires MatchDeclaration(s, keyword).Some?
    ensures exists lead: nat, gap: nat ::
              DeclarationAt(s, keyword, lead, gap, MatchDeclaration(s, keyword).value)
  {
    var a := RunEnd(s, 0, IsSpace);
    var b := a + |keyword|;
    var c := RunEnd(s, b, IsSpace);
    assert DeclarationAt(s, keyword, a, c - b, MatchDeclaration(s, keyword).value);
  }

  /** A declaration at the start of `s` is found, and its name is the one
      reported: the capture is unique. */
  lemma MatchDeclarationComplete(s: string, keyword: string, lead: nat, gap: nat, name: string)
    requires keyword != [] && !IsSpace(keyword[0])
    requires DeclarationAt(s, keyword, lead, gap, name)
    ensures MatchDeclaration(s, keyword) == Some(name)
  {
    var b := lead + |keyword|;
    var c := b + gap;
    var d := c + |name|;
    assert s[lead] == keyword[0];
    RunEndIs(s, 0, lead, IsSpace);
    assert s[c] == name[0];
    RunEndIs(s, b, c, IsSpace);
    forall k | c <= k < d ensures IsNameChar(s[k]) {
      assert s[k] == name[k - c];
    }
    RunEndIs(s, c, d, IsNameChar);
  }

  // ------------------------------------- findall: new / extends / implements

  /** The patterns used with `findall`: `<keyword>\s+([A-Z]\w*)` for `new` and
      `extends`, and `implements\s+([\w\s,]+)`. */
  datatype Pattern = Capitalised(keyword: string) | ImplementsList

  const NewPattern: Pattern := Capitalised(NewKeyword)
  const ExtendsPattern: Pattern := Capitalised(ExtendsKeyword)

  /** The group a match of `p` starting exactly at offset `i` captures; the
      match ends where the group ends. */
  function MatchAt(s: string, p: Pattern, i: nat): (r: Option<Span>)
    requires i <= |s|
    ensures r.Some? ==> i <= r.value.start < r.value.end <= |s|
  {
    match p
    case Capitalised(keyword) =>
      if !HasAt(s, i, keyword) then None
      else
        var b := i + |keyword|;
        var c := RunEnd(s, b, IsSpace);
        if c == b || c == |s| || !IsUpper(s[c]) then None
        else Some(Span(c, RunEnd(s, c + 1, IsWord)))
    case ImplementsList =>
      if !HasAt(s, i, ImplementsKeyword) then None
      else
        var b := i + |ImplementsKeyword|;
        var a := RunEnd(s, b, IsSpace);
        if a == b then None
        // greedy `\s+`, then the group takes the longest run of [\w\s,]
        else if a < |s| && IsListChar(s[a]) then Some(Span(a, RunEnd(s, a, IsListChar)))
        // nothing of [\w\s,] follows: `\s+` gives back its last character
        else if a - b >= 2 then Some(Span(a - 1, a))
        else None
  }

  /** What a capture of `p` consists of. */
  predicate IsCapture(p: Pattern, g: string) {
    g != [] &&
    match p
    case Capitalised(_) => IsUpper(g[0]) && All(g, IsWord)
    case ImplementsList => All(g, IsListChar)
  }

  /** `<keyword>\s+([A-Z]\w*)` at offset `i`: the keyword, `gap >= 1`
      whitespace characters, and a word starting with an upper-case letter
      that is not followed by another word character. */
  ghost predicate CapitalisedAt(s: string, keyword: string, i: nat, gap: nat, word: Span) {
    var b := i + |keyword|;
    && HasAt(s, i, keyword)
    && gap >= 1 && word.start == b + gap
    && word.start < word.end <= |s|
    && (forall k :: b <= k < word.start ==> IsSpace(s[k]))
    && IsUpper(s[word.start])
    && (forall k :: word.start <= k < word.end ==> IsWord(s[k]))
    && (word.end == |s| || !IsWord(s[word.end]))
  }

  /** The `new`/`extends` matcher agrees with the reference predicate in both
      directions. */
  lemma CapitalisedMatchIff(s: string, keyword: string, i: nat, word: Span)
    requires i <= |s|
    ensures MatchAt(s, Capitalised(keyword), i) == Some(word)
            <==> exists gap: nat :: CapitalisedAt(s, keyword, i, gap, word)
  {
    var b := i + |keyword|;
    if MatchAt(s, Capitalised(keyword), i) == Some(word) {
      var c := RunEnd(s, b, IsSpace);
      assert CapitalisedAt(s, keyword, i, c - b, word);
    }
    if gap: nat :| CapitalisedAt(s, keyword, i, gap, word) {
      RunEndIs(s, b, word.start, IsSpace);
      RunEndIs(s, word.start + 1, word.end, IsWord);
    }
  }

  /** `\s+` may end at `c` (all whitespace from `b` to `c`) and the group
      `[\w\s,]+` can then start at `c`. */
  ghost predicate GapViable(s: string, b: nat, c: nat) {
    && b < c < |s|
    && (forall k :: b <= k < c ==> IsSpace(s[k]))
    && IsListChar(s[c])
  }

  /** `implements\s+([\w\s,]+)` at offset `i` as a backtracking engine reads
      it: greedy `\s+` ends at the LAST viable position, and the group is the
      longest run of `[\w\s,]` from there. */
  ghost predicate ImplementsAt(s: string, i: nat, group: Span) {
    var b := i + |ImplementsKeyword|;
    && HasAt(s, i, ImplementsKeyword)
    && GapViable(s, b, group.start)
    && (forall c :: group.start < c ==> !GapViable(s, b, c))
    && group.start < group.end <= |s|
    && (forall k :: group.start <= k < group.end ==> IsListChar(s[k]))
    && (group.end == |s| || !IsListChar(s[group.end]))
  }

  /** Every `implements` match is a match under the backtracking reading. */
  lemma ImplementsMatchSound(s: string, i: nat)
    requires i <= |s| && MatchAt(s, ImplementsList, i).Some?
    ensures ImplementsAt(s, i, MatchAt(s, ImplementsList, i).value)
  {
    var b := i + |ImplementsKeyword|;
    var a := RunEnd(s, b, IsSpace);
    var group := MatchAt(s, ImplementsList, i).value;
    assert forall c :: a < c ==> !GapViable(s, b, c);
    if a < |s| && IsListChar(s[a]) {
      assert GapViable(s, b, a);
    } else {
      assert GapViable(s, b, a - 1);
      assert !GapViable(s, b, a);
      RunEndIs(s, a - 1, a, IsListChar);
    }
  }

  /** Every match under the backtracking reading is the one the matcher
      reports. */
  lemma ImplementsMatchComplete(s: string, i: nat, group: Span)
    requires i <= |s| && ImplementsAt(s, i, group)
    ensures MatchAt(s, ImplementsList, i) == Some(group)
  {
    var b := i + |ImplementsKeyword|;
    var a := RunEnd(s, b, IsSpace);
    var c := group.start;
    RunEndIs(s, c, group.end, IsListChar);
    if a < |s| && IsListChar(s[a]) {
      assert GapViable(s, b, a);
    } else {
      assert c < a;
      assert GapViable(s, b, a - 1);
    }
  }

  /** The `implements` matcher agrees with the backtracking reading in both
      directions, including the case where `\s+` gives back a character. */
  lemma ImplementsMatchIff(s: string, i: nat, group: Span)
    requires i <= |s|
    ensures MatchAt(s, ImplementsList, i) == Some(group) <==> ImplementsAt(s, i, group)
  {
    if MatchAt(s, ImplementsList, i) == Some(group) {
      ImplementsMatchSound(s, i);
    }
    if ImplementsAt(s, i, group) {
      ImplementsMatchComplete(s, i, group);
    }
  }

  /** `re.findall` for a pattern with one group: scan from offset `i`; where a
      match starts, report its group and resume after the match, otherwise
      move on one character. Matches never overlap. */
  function FindAll(s: string, p: Pattern, i: nat): (groups: seq<string>)
    requires i <= |s|
    ensures forall k :: 0 <= k < |groups| ==> IsCapture(p, groups[k])
    decreases |s| - i
  {
    if i == |s| then []
    else
      match MatchAt(s, p, i)
      case None => FindAll(s, p, i + 1)
      case Some(g) =>
        CaptureShape(s, p, i);
        [s[g.start..g.end]] + FindAll(s, p, g.end)
  }

  /** The group of a match is a capture of the pattern. */
  lemma CaptureShape(s: string, p: Pattern, i: nat)
    requires i <= |s| && MatchAt(s, p, i).Some?
    ensures IsCapture(p, s[MatchAt(s, p, i).value.start..MatchAt(s, p, i).value.end])
  {
    var g := MatchAt(s, p, i).value;
    var w := s[g.start..g.end];
    forall k | 0 <= k < |w| ensures w[k] == s[g.start + k] { }
  }

  /** The leftmost match at or after `i` is reported first, and scanning
      resumes at its end. */
  lemma {:induction false} FindAllLeftmost(s: string, p: Pattern, i: nat, j: nat)
    requires i <= j < |s|
    requires forall k :: i <= k < j ==> MatchAt(s, p, k).None?
    requires MatchAt(s, p, j).Some?
    ensures FindAll(s, p, i)
            == [s[MatchAt(s, p, j).value.start..MatchAt(s, p, j).value.end]]
               + FindAll(s, p, MatchAt(s, p, j).value.end)
    decreases j - i
  {
    if i < j {
      FindAllLeftmost(s, p, i + 1, j);
    }
  }

  /** Every reported group is the group of a match that starts at or after
      `i`. */
  lemma {:induction false} FindAllSound(s: string, p: Pattern, i: nat, g: string)
    requires i <= |s| && g in FindAll(s, p, i)
    ensures exists j :: i <= j < |s| && MatchAt(s, p, j).Some?
                        && g == s[MatchAt(s, p, j).value.start..MatchAt(s, p, j).value.end]
    decreases |s| - i
  {
    if i < |s| {
      match MatchAt(s, p, i)
      case None =>
        FindAllSound(s, p, i + 1, g);
      case Some(span) =>
        if g != s[span.start..span.end] {
          FindAllSound(s, p, span.end, g);
        }
    }
  }

  /** Where no match starts at or after `i`, nothing is reported. */
  lemma {:induction false} FindAllNone(s: string, p: Pattern, i: nat)
    requires i <= |s|
    requires forall k :: i <= k < |s| ==> MatchAt(s, p, k).None?
    ensures FindAll(s, p, i) == []
    decreases |s| - i
  {
    if i < |s| {
      FindAllNone(s, p, i + 1);
    }
  }

  /** `re_import.findall(content)`: without `re.MULTILINE` the `^` only holds
      at offset 0, so at most the import that opens the whole text. */
  function ImportCaptures(content: string): (r: seq<string>)
    ensures |r| <= 1
    ensures forall k :: 0 <= k < |r| ==> r[k] != [] && All(r[k], IsNameChar)
  {
    match MatchDeclaration(content, ImportKeyword)
    case None => []
    case Some(name) => [name]
  }
}
