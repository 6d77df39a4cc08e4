// insertSnippets, first half: the reference pattern built from the snippet
// list, the scanner that stands for one `exec` of that global pattern, and
// the `find` that resolves a matched reference to a snippet.

module References {
  import opened Wrappers
  import opened Strings

  // ---------------------------------------------------------------------
  // The leading tokens: snippet.split(/\s/)[0], escaped, de-duplicated
  // ---------------------------------------------------------------------

  /** `s.split(/\s/)[0]`: the longest prefix of `s` without `\s` whitespace. */
  function FirstWord(s: string): (r: string)
    ensures r <= s
    ensures forall i :: 0 <= i < |r| ==> !IsJsWhitespace(r[i])
    ensures |r| < |s| ==> IsJsWhitespace(s[|r|])
  {
    if s == [] || IsJsWhitespace(s[0]) then [] else [s[0]] + FirstWord(s[1..])
  }

  /**
   * The contract pins the first word down: a whitespace-free prefix that is
   * followed by whitespace or by the end of the string is the first word.
   */
  lemma FirstWordIsUnique(s: string, w: string)
    requires w <= s
    requires forall i :: 0 <= i < |w| ==> !IsJsWhitespace(w[i])
    requires |w| < |s| ==> IsJsWhitespace(s[|w|])
    ensures FirstWord(s) == w
  {
  }

  /** The characters the class `[-[\]{}()*+?.,\\^$|#\s]` selects for escaping. */
  predicate IsEscaped(c: char) {
    c in "-[]{}()*+?.,\\^$|#" || IsJsWhitespace(c)
  }

  /** The characters that are syntax, not themselves, in a pattern outside a class. */
  predicate IsSyntaxChar(c: char) {
    c in "^$\\.*+?()[]{}|"
  }

  /** `t.replace(/[-[\]{}()*+?.,\\^$|#\s]/g, '\\$&')`: a backslash before each selected character. */
  function Escape(t: string): (r: string)
    ensures |t| <= |r| <= 2 * |t|
  {
    if t == [] then [] else (if IsEscaped(t[0]) then ['\\', t[0]] else [t[0]]) + Escape(t[1..])
  }

  /** A token with nothing to escape is its own pattern. */
  lemma {:induction false} EscapeLeavesPlainText(t: string)
    requires forall i :: 0 <= i < |t| ==> !IsEscaped(t[i])
    ensures Escape(t) == t
  {
    if t != [] {
      assert !IsEscaped(t[0]);
      EscapeLeavesPlainText(t[1..]);
      assert t == [t[0]] + t[1..];
    }
  }

  /**
   * A pattern made only of ordinary characters and of backslash escapes of
   * punctuation or whitespace (identity escapes), so that it matches one fixed
   * string.
   */
  predicate IsLiteralPattern(p: string)
    decreases |p|
  {
    if p == [] then true
    else if p[0] == '\\' then |p| >= 2 && IsEscaped(p[1]) && IsLiteralPattern(p[2..])
    else !IsSyntaxChar(p[0]) && IsLiteralPattern(p[1..])
  }

  /** The one string a literal pattern matches: each escape stands for the character it escapes. */
  function PatternLiteral(p: string): string
    decreases |p|
  {
    if p == [] then []
    else if p[0] == '\\' && |p| >= 2 then [p[1]] + PatternLiteral(p[2..])
    else [p[0]] + PatternLiteral(p[1..])
  }

  /** Escaping yields a literal pattern that matches exactly the token it came from. */
  lemma {:induction false} EscapeMatchesItself(t: string)
    ensures IsLiteralPattern(Escape(t))
    ensures PatternLiteral(Escape(t)) == t
  {
    if t != [] {
      EscapeMatchesItself(t[1..]);
      var rest := Escape(t[1..]);
      if IsEscaped(t[0]) {
        var p := ['\\', t[0]] + rest;
        assert p[0] == '\\' && p[1] == t[0] && p[2..] == rest;
      } else {
        var p := [t[0]] + rest;
        assert p[0] == t[0] && p[1..] == rest;
        assert !IsSyntaxChar(t[0]);
      }
    }
  }

  /** `[...new Set(s)]`: the elements of `s`, each once, in order of first occurrence. */
  function Dedup<T(==,!new)>(s: seq<T>): (r: seq<T>)
    ensures forall x :: x in r <==> x in s
    ensures forall i, j :: 0 <= i < j < |r| ==> r[i] != r[j]
  {
    if s == [] then []
    else
      var d := Dedup(s[..|s| - 1]);
      if s[|s| - 1] in d then d else d + [s[|s| - 1]]
  }

  /** The index of the first occurrence of `x` in `s`. */
  function FirstIndex<T(==,!new)>(s: seq<T>, x: T): (k: nat)
    requires x in s
    ensures k < |s| && s[k] == x && x !in s[..k]
  {
    FirstIndexFrom(s, x, 0)
  }

  function FirstIndexFrom<T(==,!new)>(s: seq<T>, x: T, i: nat): (k: nat)
    requires i <= |s| && x in s[i..] && x !in s[..i]
    decreases |s| - i
    ensures k < |s| && s[k] == x && x !in s[..k]
  {
    if s[i] == x then i
    else
      assert s[..i + 1] == s[..i] + [s[i]];
      assert s[i..] == [s[i]] + s[i + 1..];
      FirstIndexFrom(s, x, i + 1)
  }

  /** An occurrence with no earlier occurrence is the first one. */
  lemma FirstIndexUnique<T(!new)>(s: seq<T>, x: T, k: nat)
    requires k < |s| && s[k] == x && x !in s[..k]
    ensures FirstIndex(s, x) == k
  {
  }

  lemma FirstIndexInPrefix<T(!new)>(s: seq<T>, n: nat, x: T)
    requires n <= |s| && x in s[..n]
    ensures x in s && FirstIndex(s, x) == FirstIndex(s[..n], x) < n
  {
    var k := FirstIndex(s[..n], x);
    assert s[..n][..k] == s[..k];
    FirstIndexUnique(s, x, k);
  }

  /** The set keeps first occurrences in order: earlier in the result means first seen earlier. */
  lemma {:induction false} DedupKeepsFirstOccurrenceOrder<T(!new)>(s: seq<T>)
    ensures forall i, j :: 0 <= i < j < |Dedup(s)| ==>
      Dedup(s)[i] in s && Dedup(s)[j] in s && FirstIndex(s, Dedup(s)[i]) < FirstIndex(s, Dedup(s)[j])
  {
    if s != [] {
      var n := |s| - 1;
      var init := s[..n];
      DedupKeepsFirstOccurrenceOrder(init);
      var d := Dedup(init);
      var r := Dedup(s);
      assert r == d || (r == d + [s[n]] && s[n] !in init);
      forall i, j | 0 <= i < j < |r|
        ensures r[i] in s && r[j] in s && FirstIndex(s, r[i]) < FirstIndex(s, r[j])
      {
        assert r[i] == d[i];
        assert d[i] in init;
        FirstIndexInPrefix(s, n, r[i]);
        if j < |d| {
          assert r[j] == d[j];
          assert d[j] in init;
          FirstIndexInPrefix(s, n, r[j]);
        } else {
          assert r[j] == s[n];
          assert s[..n] == init;
          FirstIndexUnique(s, s[n], n);
        }
      }
    } else {
      assert Dedup(s) == [];
    }
  }

  /** The escaped first word of every snippet, in list order. */
  function EscapedStarts(snippets: seq<string>): (r: seq<string>)
    ensures |r| == |snippets|
  {
    seq(|snippets|, i requires 0 <= i < |snippets| => Escape(FirstWord(snippets[i])))
  }

  /** The first word of every snippet, in list order. */
  function FirstWords(snippets: seq<string>): (r: seq<string>)
    ensures |r| == |snippets|
  {
    seq(|snippets|, i requires 0 <= i < |snippets| => FirstWord(snippets[i]))
  }

  /** What each pattern in `ps` matches. */
  function Literals(ps: seq<string>): (r: seq<string>)
    ensures |r| == |ps|
  {
    seq(|ps|, i requires 0 <= i < |ps| => PatternLiteral(ps[i]))
  }

  /**
   * The alternatives of `(?:${snippetStarts.join('|')})`: the de-duplicated
   * escaped starts; an empty list joins to the empty group `(?:)`, one empty
   * alternative.
   */
  function ReferenceAlternatives(snippets: seq<string>): (alts: seq<string>)
    ensures |alts| >= 1
    ensures snippets == [] ==> alts == [""]
  {
    var starts := Dedup(EscapedStarts(snippets));
    if starts == [] then [""] else starts
  }

  /**
   * The alternatives match exactly the distinct first words of the snippets,
   * each once, in order of first occurrence; with no snippets the group is
   * empty and matches the empty string.
   */
  lemma AlternativesMatchFirstWords(snippets: seq<string>)
    ensures snippets == [] ==> ReferenceAlternatives(snippets) == [""]
    ensures snippets != [] ==> Literals(ReferenceAlternatives(snippets)) == Dedup(FirstWords(snippets))
    ensures forall i :: 0 <= i < |ReferenceAlternatives(snippets)| ==> IsLiteralPattern(ReferenceAlternatives(snippets)[i])
  {
    var words := FirstWords(snippets);
    assert EscapedStarts(snippets) == EscapedAll(words);
    LiteralsOfDedupEscaped(words);
    if snippets != [] {
      assert words[0] in words;
      assert |Dedup(words)| > 0;
    }
    forall i | 0 <= i < |ReferenceAlternatives(snippets)|
      ensures IsLiteralPattern(ReferenceAlternatives(snippets)[i])
    {
      var a := ReferenceAlternatives(snippets)[i];
      if Dedup(EscapedStarts(snippets)) != [] {
        assert a in EscapedAll(words);
        var k :| 0 <= k < |words| && a == Escape(words[k]);
        EscapeMatchesItself(words[k]);
      }
    }
  }

  function EscapedAll(words: seq<string>): (r: seq<string>)
    ensures |r| == |words|
  {
    seq(|words|, i requires 0 <= i < |words| => Escape(words[i]))
  }

  /** A token's escaped form is among the escaped tokens exactly when the token is among the tokens. */
  lemma EscapedMembership(words: seq<string>, x: string)
    ensures Escape(x) in Dedup(EscapedAll(words)) <==> x in words
  {
    if Escape(x) in EscapedAll(words) {
      var k :| 0 <= k < |words| && EscapedAll(words)[k] == Escape(x);
      EscapeMatchesItself(x);
      EscapeMatchesItself(words[k]);
    }
    if x in words {
      var k :| 0 <= k < |words| && words[k] == x;
      assert EscapedAll(words)[k] == Escape(x);
    }
  }

  /** Escaping does not merge tokens: de-duplicating escaped tokens de-duplicates the tokens. */
  lemma {:induction false} LiteralsOfDedupEscaped(words: seq<string>)
    ensures Literals(Dedup(EscapedAll(words))) == Dedup(words)
  {
    if words != [] {
      var n := |words| - 1;
      var init := words[..n];
      var x := words[n];
      LiteralsOfDedupEscaped(init);
      assert EscapedAll(words)[..n] == EscapedAll(init);
      assert EscapedAll(words)[n] == Escape(x);
      var d := Dedup(EscapedAll(init));
      EscapeMatchesItself(x);
      EscapedMembership(init, x);
      if Escape(x) in d {
        assert Dedup(words) == Dedup(init);
      } else {
        assert Dedup(words) == Dedup(init) + [x];
        assert Literals(d + [Escape(x)]) == Literals(d) + [x];
      }
    }
  }

  // ---------------------------------------------------------------------
  // One exec of /((?:alt|alt|...).*?)\.\.\./g
  // ---------------------------------------------------------------------

  /** A match: group 1 is `s[start..end]`, and the `...` that ends it starts at `end`. */
  datatype Reference = Reference(start: nat, end: nat)

  /** `\.\.\.` matches at index `k`. */
  predicate EllipsisAt(s: string, k: nat) {
    k + 3 <= |s| && s[k] == '.' && s[k + 1] == '.' && s[k + 2] == '.'
  }

  /** No line terminator lies in `s[k..e]`, so `.` can cross all of it. */
  predicate SameLine(s: string, k: nat, e: nat) {
    forall j :: k <= j < e && j < |s| ==> !IsLineTerminator(s[j])
  }

  /**
   * The lazy `.*?` followed by `\.\.\.`, starting at `k`: the first index
   * where `...` begins that `.` can reach without crossing a line terminator.
   */
  function LazyToEllipsis(s: string, k: nat): (r: Option<nat>)
    decreases |s| - k
    ensures r.Some? ==> k <= r.value && EllipsisAt(s, r.value) && SameLine(s, k, r.value)
    ensures r.Some? ==> forall j :: k <= j < r.value ==> !EllipsisAt(s, j)
    ensures r.None? ==> forall e :: k <= e && SameLine(s, k, e) ==> !EllipsisAt(s, e)
  {
    if EllipsisAt(s, k) then Some(k)
    else if k >= |s| || IsLineTerminator(s[k]) then None
    else LazyToEllipsis(s, k + 1)
  }

  /** One alternative at position `p`: the token literally, then `.*?\.\.\.`; the end of group 1. */
  function TryAlternative(s: string, p: nat, token: string): Option<nat>
  {
    if HasAt(s, p, token) then LazyToEllipsis(s, p + |token|) else None
  }

  /** The alternation at `p`: the index of the first alternative, in order, that leads to a match. */
  function FirstAlternative(s: string, p: nat, alts: seq<string>): (r: Option<nat>)
    ensures r.Some? ==> r.value < |alts| && TryAlternative(s, p, PatternLiteral(alts[r.value])).Some?
    ensures r.Some? ==> forall j :: 0 <= j < r.value ==> TryAlternative(s, p, PatternLiteral(alts[j])).None?
    ensures r.None? ==> forall j :: 0 <= j < |alts| ==> TryAlternative(s, p, PatternLiteral(alts[j])).None?
  {
    FirstAlternativeFrom(s, p, alts, 0)
  }

  function FirstAlternativeFrom(s: string, p: nat, alts: seq<string>, i: nat): (r: Option<nat>)
    requires i <= |alts|
    decreases |alts| - i
    ensures r.Some? ==> i <= r.value < |alts| && TryAlternative(s, p, PatternLiteral(alts[r.value])).Some?
    ensures r.Some? ==> forall j :: i <= j < r.value ==> TryAlternative(s, p, PatternLiteral(alts[j])).None?
    ensures r.None? ==> forall j :: i <= j < |alts| ==> TryAlternative(s, p, PatternLiteral(alts[j])).None?
  {
    if i == |alts| then None
    else if TryAlternative(s, p, PatternLiteral(alts[i])).Some? then Some(i)
    else FirstAlternativeFrom(s, p, alts, i + 1)
  }

  /** The whole pattern at `p`: the end of group 1 for the first alternative that matches. */
  function MatchAt(s: string, p: nat, alts: seq<string>): (r: Option<nat>)
    ensures r.Some? ==> p <= r.value && EllipsisAt(s, r.value)
  {
    match FirstAlternative(s, p, alts)
    case None => None
    case Some(i) => TryAlternative(s, p, PatternLiteral(alts[i]))
  }

  /** One `exec` from `lastIndex`: the leftmost position where the pattern matches. */
  function NextReference(s: string, lastIndex: nat, alts: seq<string>): (r: Option<Reference>)
    decreases |s| + 1 - lastIndex
    ensures r.Some? ==> lastIndex <= r.value.start <= r.value.end && EllipsisAt(s, r.value.end)
    ensures r.Some? ==> MatchAt(s, r.value.start, alts) == Some(r.value.end)
  {
    if lastIndex > |s| then None
    else match MatchAt(s, lastIndex, alts)
      case Some(e) => Some(Reference(lastIndex, e))
      case None => NextReference(s, lastIndex + 1, alts)
  }

  /** The pattern matches at no position in `[from, to)`. */
  ghost predicate NoMatchBetween(s: string, alts: seq<string>, from: nat, to: nat) {
    forall p :: from <= p < to ==> MatchAt(s, p, alts).None?
  }

  /** The pattern matches at no position from `from` on. */
  ghost predicate NoMatchFrom(s: string, alts: seq<string>, from: nat) {
    forall p :: from <= p ==> MatchAt(s, p, alts).None?
  }

  /** `exec` skips no match: no position between `lastIndex` and the match found matches. */
  lemma {:induction false} NextReferenceIsLeftmost(s: string, lastIndex: nat, alts: seq<string>)
    decreases |s| + 1 - lastIndex
    ensures NextReference(s, lastIndex, alts).Some? ==>
      NoMatchBetween(s, alts, lastIndex, NextReference(s, lastIndex, alts).value.start)
    ensures NextReference(s, lastIndex, alts).None? ==> NoMatchFrom(s, alts, lastIndex)
  {
    if lastIndex > |s| {
      forall p | lastIndex <= p ensures MatchAt(s, p, alts).None? {
        NoMatchPastEnd(s, p, alts);
      }
    } else if MatchAt(s, lastIndex, alts).None? {
      NextReferenceIsLeftmost(s, lastIndex + 1, alts);
    }
  }

  /** `exec` passes over positions where the pattern does not match: it finds what it finds from the first possible one. */
  lemma {:induction false} NextReferenceSkips(s: string, from: nat, to: nat, alts: seq<string>)
    requires from <= to <= |s|
    requires NoMatchBetween(s, alts, from, to)
    ensures NextReference(s, from, alts) == NextReference(s, to, alts)
    decreases |s| - from
  {
    if from < to {
      assert MatchAt(s, from, alts).None?;
      NextReferenceSkips(s, from + 1, to, alts);
    }
  }

  /** Past the end of the string nothing matches. */
  lemma NoMatchPastEnd(s: string, p: nat, alts: seq<string>)
    requires |s| < p
    ensures MatchAt(s, p, alts).None?
  {
  }

  /**
   * What a match captures: it begins with one of the alternatives' literal
   * text (the earliest in order that leads to a match), continues on the
   * same line, and stops at the first `...` after that token.
   */
  lemma MatchShape(s: string, lastIndex: nat, alts: seq<string>)
    requires NextReference(s, lastIndex, alts).Some?
    ensures var m := NextReference(s, lastIndex, alts).value;
      exists i :: 0 <= i < |alts| && HasAt(s, m.start, PatternLiteral(alts[i]))
        && m.start + |PatternLiteral(alts[i])| <= m.end
        && SameLine(s, m.start + |PatternLiteral(alts[i])|, m.end)
        && (forall j :: m.start + |PatternLiteral(alts[i])| <= j < m.end ==> !EllipsisAt(s, j))
        && (forall j :: 0 <= j < i ==> TryAlternative(s, m.start, PatternLiteral(alts[j])).None?)
  {
    var m := NextReference(s, lastIndex, alts).value;
    var i := FirstAlternative(s, m.start, alts).value;
    assert TryAlternative(s, m.start, PatternLiteral(alts[i])) == Some(m.end);
  }

  /** Every alternative matches a first word, which holds no `\s` character. */
  lemma {:induction false} AlternativeHasNoWhitespace(snippets: seq<string>, i: nat)
    requires i < |ReferenceAlternatives(snippets)|
    ensures forall c :: 0 <= c < |PatternLiteral(ReferenceAlternatives(snippets)[i])| ==>
      !IsJsWhitespace(PatternLiteral(ReferenceAlternatives(snippets)[i])[c])
  {
    var alts := ReferenceAlternatives(snippets);
    var w := PatternLiteral(alts[i]);
    AlternativesMatchFirstWords(snippets);
    if snippets != [] {
      assert w == Literals(alts)[i];
      assert w in FirstWords(snippets);
      var k :| 0 <= k < |snippets| && FirstWords(snippets)[k] == w;
      assert w == FirstWord(snippets[k]);
    } else {
      assert w == PatternLiteral("");
    }
  }

  /** No character of a run without `\s` characters is a line terminator. */
  lemma {:induction false} NoWhitespaceOnOneLine(s: string, k: nat, w: string)
    requires HasAt(s, k, w)
    requires forall c :: 0 <= c < |w| ==> !IsJsWhitespace(w[c])
    ensures SameLine(s, k, k + |w|)
  {
    forall j | k <= j < k + |w| && j < |s|
      ensures !IsLineTerminator(s[j])
    {
      assert s[j] == w[j - k];
      if IsLineTerminator(s[j]) {
        LineTerminatorIsWhitespace(s[j]);
      }
    }
  }

  /**
   * A match at `p` lies on one line: its token is a first word, which holds no
   * whitespace and so no line terminator, and `.*?` crosses none.
   */
  lemma {:induction false} MatchOnOneLine(s: string, p: nat, snippets: seq<string>, e: nat)
    requires MatchAt(s, p, ReferenceAlternatives(snippets)) == Some(e)
    ensures SameLine(s, p, e)
  {
    var alts := ReferenceAlternatives(snippets);
    var i := FirstAlternative(s, p, alts).value;
    var w := PatternLiteral(alts[i]);
    assert TryAlternative(s, p, w) == Some(e);
    assert HasAt(s, p, w) && LazyToEllipsis(s, p + |w|) == Some(e);
    AlternativeHasNoWhitespace(snippets, i);
    NoWhitespaceOnOneLine(s, p, w);
    SameLineJoin(s, p, p + |w|, e);
  }

  /** The whole of group 1 of the reference `exec` finds lies on one line. */
  lemma {:induction false} ReferenceOnOneLine(s: string, lastIndex: nat, snippets: seq<string>)
    requires NextReference(s, lastIndex, ReferenceAlternatives(snippets)).Some?
    ensures var m := NextReference(s, lastIndex, ReferenceAlternatives(snippets)).value;
      SameLine(s, m.start, m.end)
  {
    var m := NextReference(s, lastIndex, ReferenceAlternatives(snippets)).value;
    MatchOnOneLine(s, m.start, snippets, m.end);
  }

  /** Two adjacent runs on one line make one run on one line. */
  lemma SameLineJoin(s: string, a: nat, b: nat, e: nat)
    requires a <= b <= e
    requires SameLine(s, a, b) && SameLine(s, b, e)
    ensures SameLine(s, a, e)
  {
  }

  // ---------------------------------------------------------------------
  // snippets.find(snippet => snippet.startsWith(text))
  // ---------------------------------------------------------------------

  /** The index of the first snippet, in list order, that starts with `text`. */
  function FirstStartingWith(snippets: seq<string>, text: string): (r: Option<nat>)
    ensures r.Some? ==> r.value < |snippets| && text <= snippets[r.value]
    ensures r.Some? ==> forall j :: 0 <= j < r.value ==> !(text <= snippets[j])
    ensures r.None? ==> forall j :: 0 <= j < |snippets| ==> !(text <= snippets[j])
  {
    FirstStartingWithFrom(snippets, text, 0)
  }

  function FirstStartingWithFrom(snippets: seq<string>, text: string, i: nat): (r: Option<nat>)
    requires i <= |snippets|
    decreases |snippets| - i
    ensures r.Some? ==> i <= r.value < |snippets| && text <= snippets[r.value]
    ensures r.Some? ==> forall j :: i <= j < r.value ==> !(text <= snippets[j])
    ensures r.None? ==> forall j :: i <= j < |snippets| ==> !(text <= snippets[j])
  {
    if i == |snippets| then None
    else if text <= snippets[i] then Some(i)
    else FirstStartingWithFrom(snippets, text, i + 1)
  }
}
