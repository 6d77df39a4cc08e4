// getSnippets: collecting every `((…))` span of a document, as the global
// regular expression /\(\(([\s\S]+?)(?!\.\.\.)\)\)/g does when `exec` is
// called in a loop until it returns null.

module Definitions {
  import opened Wrappers
  import opened Strings

  /** One match of the definition pattern: `((` at `open`, `))` at `close`. */
  datatype Span = Span(open: nat, close: nat)

  /** The head of the pattern, `\(\(`, matches at index `p`. */
  predicate OpensAt(s: string, p: nat) {
    p + 2 <= |s| && s[p] == '(' && s[p + 1] == '('
  }

  /**
   * The tail of the pattern at index `q`: the lookahead `(?!\.\.\.)` followed
   * by `\)\)`, written exactly as the pattern has it.
   */
  predicate ClosesAt(s: string, q: nat) {
    !(q + 3 <= |s| && s[q] == '.' && s[q + 1] == '.' && s[q + 2] == '.')
    && q + 2 <= |s| && s[q] == ')' && s[q + 1] == ')'
  }

  /**
   * The pattern matches at `sp.open` and ends at `sp.close`: `((`, then at
   * least one character of any kind (newlines included), then the first
   * closing position the lazy `+?` reaches.
   */
  predicate IsDefinitionAt(s: string, sp: Span) {
    OpensAt(s, sp.open) && sp.open + 3 <= sp.close && ClosesAt(s, sp.close)
    && forall k :: sp.open + 3 <= k < sp.close ==> !ClosesAt(s, k)
  }

  /**
   * The lookahead can never fail where `))` follows, so it rejects nothing:
   * the tail matches exactly where `))` occurs.
   */
  lemma LookaheadNeverRejects(s: string, q: nat)
    ensures ClosesAt(s, q) <==> HasAt(s, q, "))")
  {
    if HasAt(s, q, "))") {
      assert s[q..q + 2][0] == s[q] && s[q..q + 2][1] == s[q + 1];
    }
    if q + 2 <= |s| && s[q] == ')' && s[q + 1] == ')' {
      assert s[q..q + 2] == "))";
    }
  }

  /** The head matches exactly where `((` occurs. */
  lemma OpensAtIsOccurrence(s: string, p: nat)
    ensures OpensAt(s, p) <==> HasAt(s, p, "((")
  {
    if HasAt(s, p, "((") {
      assert s[p..p + 2][0] == s[p] && s[p..p + 2][1] == s[p + 1];
    }
    if OpensAt(s, p) {
      assert s[p..p + 2] == "((";
    }
  }

  /** The lazy `[\s\S]+?`: the first closing position at or after `q`. */
  function FindClose(s: string, q: nat): (r: Option<nat>)
    decreases |s| - q
    ensures r.Some? ==> q <= r.value && ClosesAt(s, r.value)
    ensures r.Some? ==> forall k :: q <= k < r.value ==> !ClosesAt(s, k)
    ensures r.None? ==> forall k :: q <= k ==> !ClosesAt(s, k)
  {
    if q + 2 > |s| then None
    else if ClosesAt(s, q) then Some(q)
    else FindClose(s, q + 1)
  }

  /** One `exec` from `lastIndex`: the leftmost position where the whole pattern matches. */
  function NextDefinition(s: string, lastIndex: nat): (r: Option<Span>)
    decreases |s| - lastIndex
    ensures r.Some? ==> lastIndex <= r.value.open && IsDefinitionAt(s, r.value)
  {
    if lastIndex + 2 > |s| then None
    else if OpensAt(s, lastIndex) && FindClose(s, lastIndex + 3).Some? then
      Some(Span(lastIndex, FindClose(s, lastIndex + 3).value))
    else
      NextDefinition(s, lastIndex + 1)
  }

  /** `exec` skips no match: nothing matches between `lastIndex` and the span it returns. */
  lemma {:induction false} NextDefinitionIsLeftmost(s: string, lastIndex: nat)
    decreases |s| - lastIndex
    ensures NextDefinition(s, lastIndex).Some? ==>
      forall p, q :: lastIndex <= p < NextDefinition(s, lastIndex).value.open ==> !IsDefinitionAt(s, Span(p, q))
    ensures NextDefinition(s, lastIndex).None? ==>
      forall p, q :: lastIndex <= p ==> !IsDefinitionAt(s, Span(p, q))
  {
    if lastIndex + 2 > |s| {
      forall p, q | lastIndex <= p ensures !IsDefinitionAt(s, Span(p, q)) {
        if OpensAt(s, p) { assert false; }
      }
    } else if OpensAt(s, lastIndex) && FindClose(s, lastIndex + 3).Some? {
    } else {
      NextDefinitionIsLeftmost(s, lastIndex + 1);
      forall q ensures !IsDefinitionAt(s, Span(lastIndex, q)) {
      }
    }
  }

  /**
   * The spans the `while (match = exec(content))` loop visits from `lastIndex`:
   * each `exec` resumes just after the previous match's `))`.
   */
  function DefinitionSpans(s: string, lastIndex: nat): seq<Span>
    decreases |s| - lastIndex
  {
    match NextDefinition(s, lastIndex)
    case None => []
    case Some(sp) => [sp] + DefinitionSpans(s, sp.close + 2)
  }

  /**
   * The snippets the loop pushes from `lastIndex` on: group 1 of each span,
   * the text between `((` and `))`.
   */
  function DefinitionTexts(s: string, lastIndex: nat): (r: seq<string>)
    decreases |s| - lastIndex
    ensures forall i :: 0 <= i < |r| ==> |r[i]| >= 1
  {
    match NextDefinition(s, lastIndex)
    case None => []
    case Some(sp) => [s[sp.open + 2..sp.close]] + DefinitionTexts(s, sp.close + 2)
  }

  /** `getSnippets(content)`: push group 1 of every match while `exec` finds one. */
  method GetSnippets(content: string) returns (snippets: seq<string>)
    ensures snippets == DefinitionTexts(content, 0)
  {
    snippets := [];
    var lastIndex := 0;
    ghost var all := DefinitionTexts(content, lastIndex);
    while true
      invariant lastIndex <= |content|
      invariant snippets + DefinitionTexts(content, lastIndex) == all
      decreases |content| - lastIndex
    {
      var m := NextDefinition(content, lastIndex);
      if m.None? {
        assert snippets + [] == snippets;
        return;
      }
      var capture := content[m.value.open + 2..m.value.close];
      var next := m.value.close + 2;
      TextsAt(content, lastIndex, m.value, capture, next);
      ghost var rest := DefinitionTexts(content, next);
      assert snippets + ([capture] + rest) == (snippets + [capture]) + rest;
      snippets := snippets + [capture];
      lastIndex := next;
    }
  }

  /** The loop's turn at a span `exec` found: push its capture, resume after its `))`. */
  lemma TextsAt(s: string, lastIndex: nat, sp: Span, capture: string, next: nat)
    requires NextDefinition(s, lastIndex) == Some(sp)
    requires capture == s[sp.open + 2..sp.close] && next == sp.close + 2
    ensures lastIndex < next <= |s|
    ensures DefinitionTexts(s, lastIndex) == [capture] + DefinitionTexts(s, next)
  {
    assert sp.close + 2 <= |s|;
  }

  /** Every span is a match at or after `from`, and the spans are disjoint and in left-to-right order. */
  ghost predicate OrderedMatches(s: string, from: nat, r: seq<Span>) {
    (forall i :: 0 <= i < |r| ==> from <= r[i].open && IsDefinitionAt(s, r[i]))
    && (forall i, j :: 0 <= i < j < |r| ==> r[i].close + 2 <= r[j].open)
  }

  /** A match at or after `from`, followed by ordered matches that start after its `))`, is ordered. */
  lemma OrderedCons(s: string, from: nat, sp: Span, rest: seq<Span>)
    requires from <= sp.open && IsDefinitionAt(s, sp) && OrderedMatches(s, sp.close + 2, rest)
    ensures OrderedMatches(s, from, [sp] + rest)
  {
    var r := [sp] + rest;
    forall i | 0 <= i < |r| ensures from <= r[i].open && IsDefinitionAt(s, r[i]) {
      if i > 0 {
        assert r[i] == rest[i - 1];
      }
    }
    forall i, j | 0 <= i < j < |r| ensures r[i].close + 2 <= r[j].open {
      assert r[j] == rest[j - 1];
      if i > 0 { assert r[i] == rest[i - 1]; }
    }
  }

  /** The spans `exec` visits are real matches, disjoint and in left-to-right order. */
  lemma {:induction false} DefinitionSpansOrdered(s: string, lastIndex: nat)
    decreases |s| - lastIndex
    ensures OrderedMatches(s, lastIndex, DefinitionSpans(s, lastIndex))
  {
    match NextDefinition(s, lastIndex)
    case None =>
    case Some(sp) =>
      DefinitionSpansOrdered(s, sp.close + 2);
      OrderedCons(s, lastIndex, sp, DefinitionSpans(s, sp.close + 2));
  }

  /** `texts[i]` is what lies between the `((` and `))` of `spans[i]`. */
  ghost predicate TextsOfSpans(s: string, spans: seq<Span>, texts: seq<string>) {
    |texts| == |spans|
    && forall i :: 0 <= i < |spans| ==>
         spans[i].open + 2 <= spans[i].close <= |s| && texts[i] == s[spans[i].open + 2..spans[i].close]
  }

  lemma TextsOfSpansCons(s: string, sp: Span, spans: seq<Span>, texts: seq<string>)
    requires TextsOfSpans(s, spans, texts) && sp.open + 2 <= sp.close <= |s|
    ensures TextsOfSpans(s, [sp] + spans, [s[sp.open + 2..sp.close]] + texts)
  {
    var spans', texts' := [sp] + spans, [s[sp.open + 2..sp.close]] + texts;
    forall i | 0 <= i < |spans'|
      ensures spans'[i].open + 2 <= spans'[i].close <= |s| && texts'[i] == s[spans'[i].open + 2..spans'[i].close]
    {
      if i > 0 {
        assert spans'[i] == spans[i - 1] && texts'[i] == texts[i - 1];
      }
    }
  }

  /** The texts pushed are exactly what lies between each span's `((` and `))`. */
  lemma {:induction false} DefinitionTextsAreCaptures(s: string, lastIndex: nat)
    decreases |s| - lastIndex
    ensures TextsOfSpans(s, DefinitionSpans(s, lastIndex), DefinitionTexts(s, lastIndex))
  {
    match NextDefinition(s, lastIndex)
    case None =>
    case Some(sp) =>
      DefinitionTextsAreCaptures(s, sp.close + 2);
      TextsOfSpansCons(s, sp, DefinitionSpans(s, sp.close + 2), DefinitionTexts(s, sp.close + 2));
  }

  /**
   * Each snippet is non-empty and ends just before the first `))` that starts
   * at least one character after its `((`; the next span starts after that `))`.
   */
  lemma SnippetsEndAtFirstClose(s: string, i: nat)
    requires i < |DefinitionSpans(s, 0)|
    ensures |DefinitionTexts(s, 0)| == |DefinitionSpans(s, 0)|
    ensures var sp := DefinitionSpans(s, 0)[i];
      HasAt(s, sp.open, "((") && HasAt(s, sp.close, "))") && sp.open + 3 <= sp.close
      && (forall k :: sp.open + 3 <= k < sp.close ==> !HasAt(s, k, "))"))
      && DefinitionTexts(s, 0)[i] == s[sp.open + 2..sp.close]
      && |DefinitionTexts(s, 0)[i]| >= 1
      && (i + 1 < |DefinitionSpans(s, 0)| ==> sp.close + 2 <= DefinitionSpans(s, 0)[i + 1].open)
  {
    DefinitionSpansOrdered(s, 0);
    DefinitionTextsAreCaptures(s, 0);
    var sp := DefinitionSpans(s, 0)[i];
    assert IsDefinitionAt(s, sp);
    OpensAtIsOccurrence(s, sp.open);
    LookaheadNeverRejects(s, sp.close);
    forall k | sp.open + 3 <= k < sp.close
      ensures !HasAt(s, k, "))")
    {
      LookaheadNeverRejects(s, k);
    }
  }

  /** A span whose text ends in `...` is still a snippet: `((foo...))` yields `foo...`. */
  lemma EllipsisSpanIsKept()
    ensures DefinitionTexts("((foo...))", 0) == ["foo..."]
  {
    var s := "((foo...))";
    assert ClosesAt(s, 8);
    forall k | 3 <= k < 8 ensures !ClosesAt(s, k) {
      if k == 3 {} else if k == 4 {} else if k == 5 {} else if k == 6 {} else {}
    }
    assert FindClose(s, 3) == Some(8);
    assert NextDefinition(s, 0) == Some(Span(0, 8));
    assert DefinitionTexts(s, 10) == [];
    assert s[2..8] == "foo...";
  }

  /** Snippet text may span lines, and each `exec` resumes after the previous `))`. */
  lemma MultilineSnippets()
    ensures DefinitionTexts("((a\nb)) ((c))", 0) == ["a\nb", "c"]
  {
    var s := "((a\nb)) ((c))";
    assert ClosesAt(s, 5);
    forall k | 3 <= k < 5 ensures !ClosesAt(s, k) {
      if k == 3 {} else {}
    }
    assert FindClose(s, 3) == Some(5);
    assert NextDefinition(s, 0) == Some(Span(0, 5));
    assert ClosesAt(s, 11);
    assert FindClose(s, 11) == Some(11);
    assert !OpensAt(s, 7);
    assert NextDefinition(s, 7) == Some(Span(8, 11));
    assert DefinitionTexts(s, 13) == [];
    assert s[10..11] == "c";
    assert DefinitionTexts(s, 7) == [s[10..11]] + DefinitionTexts(s, 13);
    assert s[2..5] == "a\nb";
  }
}
