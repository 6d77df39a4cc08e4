// A worked document: a definition `((a b))` and, on the next line, the
// reference `a...`. The snippets are collected, the reference pattern is
// built from them, and plain mode expands the reference and drops the
// delimiters. Each step is its own small lemma.

module Scenarios {
  import opened Wrappers
  import opened Strings
  import opened Definitions
  import opened References
  import opened Rendering

  /** The document. */
  const Doc: string := "((a b))\na..."

  /** What plain mode makes of it. */
  const Expanded: string := "a b\na b"

  /** `getSnippets` finds the one definition, `a b`. */
  lemma ExampleDefinitions()
    ensures DefinitionTexts(Doc, 0) == ["a b"]
  {
    assert ClosesAt(Doc, 5);
    assert !ClosesAt(Doc, 3) && !ClosesAt(Doc, 4);
    assert FindClose(Doc, 3) == Some(5);
    assert NextDefinition(Doc, 0) == Some(Span(0, 5));
    assert !OpensAt(Doc, 7) && !OpensAt(Doc, 8) && !OpensAt(Doc, 9) && !OpensAt(Doc, 10);
    assert NextDefinition(Doc, 7) == None;
    assert Doc[2..5] == "a b";
  }

  /** The snippet's first word is `a`. */
  lemma TokenOfSnippet()
    ensures FirstWord("a b") == "a"
  {
    FirstWordIsUnique("a b", "a");
  }

  /** `a` needs no escaping. */
  lemma TokenEscapesToItself()
    ensures Escape("a") == "a"
  {
    assert !IsEscaped('a');
    EscapeLeavesPlainText("a");
  }

  /** The escaped first words of the snippet list. */
  lemma ExampleEscapedStarts()
    ensures EscapedStarts(["a b"]) == ["a"]
  {
    TokenOfSnippet();
    TokenEscapesToItself();
    var r := EscapedStarts(["a b"]);
    assert |r| == 1;
    assert r[0] == Escape(FirstWord("a b")) == "a";
    assert r == ["a"];
  }

  /** The reference pattern has the single alternative `a`. */
  lemma ExampleAlternatives()
    ensures ReferenceAlternatives(["a b"]) == ["a"]
  {
    ExampleEscapedStarts();
    assert Dedup(["a"]) == ["a"];
  }

  /** The alternative `a` matches the text `a`. */
  lemma TokenLiteral()
    ensures PatternLiteral("a") == "a"
  {
    TokenEscapesToItself();
    EscapeMatchesItself("a");
  }

  /** The token's first occurrence is followed by a line break before any `...`. */
  lemma NoReferenceInDefinition()
    ensures MatchAt(Doc, 2, ["a"]).None?
  {
    TokenLiteral();
    var r := LazyToEllipsis(Doc, 3);
    if r.Some? {
      assert IsLineTerminator(Doc[7]);
    }
  }

  /** Elsewhere before index 8 the token does not occur. */
  lemma NoReferenceAt(p: nat)
    requires p < 8 && p != 2
    ensures MatchAt(Doc, p, ["a"]).None?
  {
    TokenLiteral();
    assert Doc[p] != 'a';
  }

  /** At index 8, `a` is followed at once by `...`. */
  lemma ReferenceAt8()
    ensures MatchAt(Doc, 8, ["a"]) == Some(9)
  {
    TokenLiteral();
    assert Doc[8..9] == "a";
    assert EllipsisAt(Doc, 9);
  }

  /** The first `exec` finds the reference on the second line. */
  lemma ExampleReference()
    ensures NextReference(Doc, 0, ["a"]) == Some(Reference(8, 9))
  {
    forall p | 0 <= p < 8 ensures MatchAt(Doc, p, ["a"]).None? {
      if p == 2 { NoReferenceInDefinition(); } else { NoReferenceAt(p); }
    }
    NextReferenceSkips(Doc, 0, 8, ["a"]);
    ReferenceAt8();
  }

  /** The first copy of `a...` in the document is the reference itself. */
  lemma CopyFound()
    ensures IndexOf(Doc, "a...", 0) == Some(8)
  {
    assert HasAt(Doc, 8, "a...");
    forall k | 0 <= k < 8 ensures !HasAt(Doc, k, "a...") {
      if k == 2 {
        assert Doc[3] != '.';
      } else {
        assert Doc[k] != 'a';
      }
    }
  }

  /** The reference is replaced by the snippet. */
  lemma ExampleReplaced()
    ensures ReplaceFirst(Doc, "a...", "a b") == "((a b))\na b"
  {
    CopyFound();
    ReplaceFirstPlain(Doc, "a...", "a b");
    assert Doc[..8] == "((a b))\n" && Doc[12..] == [];
  }

  /** The second line has no delimiters. */
  lemma StripTail()
    ensures StripDelimiters("\na b") == "\na b"
  {
    StripAfterPlainText("\na b", []);
    assert "\na b" + [] == "\na b";
  }

  /** The `))` is dropped. */
  lemma StripClose()
    ensures StripDelimiters("))\na b") == "\na b"
  {
    StripTail();
    StripDelimiterPair("))", "\na b");
    assert "))\na b" == "))" + "\na b";
  }

  /** The definition's text is kept. */
  lemma StripWord()
    ensures StripDelimiters("a b))\na b") == "a b" + "\na b"
  {
    StripClose();
    StripAfterPlainText("a b", "))\na b");
    assert "a b))\na b" == "a b" + "))\na b";
  }

  /** The replaced document, split after its `((`. */
  lemma SplitAfterOpen()
    ensures "((a b))\na b" == "((" + "a b))\na b"
  {
  }

  /** The result, split after its first line's text. */
  lemma SplitExpanded()
    ensures Expanded == "a b" + "\na b"
  {
  }

  /** The `((` is dropped too. */
  lemma ExampleStripped()
    ensures StripDelimiters("((a b))\na b") == Expanded
  {
    StripWord();
    StripDelimiterPair("((", "a b))\na b");
    SplitAfterOpen();
    SplitExpanded();
  }

  /** Group 1 and the whole match of the reference. */
  lemma ExampleMatch()
    ensures Doc[8..9] == "a" && Doc[8..12] == "a..."
  {
    assert Doc[8..9] == "a";
    assert EllipsisAt(Doc, 9);
    MatchedIsTextAndEllipsis(Doc, 8, 9);
    assert "a..." == "a" + "...";
  }

  /** `find` resolves `a` to `a b`, and plain mode rewrites the document. */
  lemma ExampleResolve()
    ensures Resolve(["a b"], false, Pass(Doc, 12, map[], 1), "a", "a...") == Pass(Expanded, 12, map[], 1)
  {
    assert "a" <= "a b";
    assert FirstStartingWith(["a b"], "a") == Some(0);
    ResolvePlain(["a b"], Pass(Doc, 12, map[], 1), "a", 0);
    ExampleReplaced();
    ExampleStripped();
  }

  /** The first turn of the loop. */
  lemma ExampleFirstTurn()
    ensures Step(["a b"], ["a"], false, Pass(Doc, 0, map[], 1)) == Some(Pass(Expanded, 12, map[], 1))
  {
    ExampleReference();
    StepAt(["a b"], ["a"], false, Pass(Doc, 0, map[], 1), Reference(8, 9));
    ExampleMatch();
    ExampleResolve();
  }

  /** The cursor is past the end of the shorter document, so the second `exec` fails. */
  lemma ExampleSecondTurn()
    ensures Step(["a b"], ["a"], false, Pass(Expanded, 12, map[], 1)).None?
  {
  }

  /** `find` gives `a b` for `a`; the pieces of text the HTML branch builds from `a`. */
  lemma FindsSnippetOfA()
    ensures FirstStartingWith(["a b"], "a") == Some(0)
    ensures "a b"[|"a"|..] == " b" && "((" + "a" == "((a" && "a" + "..." == "a..."
  {
    assert "a" <= "a b";
  }

  /** HTML mode on any content: the first reference to `a` registers it under id 1, anchored after `((a`. */
  lemma HtmlFirstSight(c: string, p: nat)
    ensures Resolve(["a b"], true, Pass(c, p, map[], 1), "a", "a...") == Pass(
      ReplaceFirst(ReplaceFirst(c, "((a", Anchor("a", 1)), "a...", Placeholder("a", " b", 1)), p, map["a" := 1], 2)
  {
    FindsSnippetOfA();
    var st := Pass(c, p, map[], 1);
    assert IsNewText(st.ids, "a");
    ResolveNewText(["a b"], st, "a", 0);
    assert map[]["a" := 1] == map["a" := 1];
  }

  /** A second reference to `a` reuses id 1: no new anchor, no new id, the counter stays at 2. */
  lemma HtmlSecondSight(c: string, p: nat)
    ensures Resolve(["a b"], true, Pass(c, p, map["a" := 1], 2), "a", "a...")
      == Pass(ReplaceFirst(c, "a...", Placeholder("a", " b", 1)), p, map["a" := 1], 2)
  {
    FindsSnippetOfA();
    var st := Pass(c, p, map["a" := 1], 2);
    assert !IsNewText(st.ids, "a");
    ResolveKnownText(["a b"], st, "a", 0);
  }

  /**
   * A definition and a reference to it on the next line: plain mode puts the
   * snippet collected from the document in place of `a...` and drops the
   * delimiters of the definition.
   */
  lemma PlainRenderingExample()
    ensures Render(Doc, DefinitionTexts(Doc, 0), false, 2) == Some(Expanded)
  {
    ExampleDefinitions();
    ExampleAlternatives();
    var turn := Turn(["a b"], ["a"], false);
    ExampleFirstTurn();
    ExampleSecondTurn();
    assert turn(Pass(Doc, 0, map[], 1)) == Some(Pass(Expanded, 12, map[], 1));
    assert turn(Pass(Expanded, 12, map[], 1)).None?;
    IterateTurn(turn, Pass(Doc, 0, map[], 1), Pass(Expanded, 12, map[], 1), 2, 1);
  }
}

// A document whose only `exec` match swallows a word that would resolve:
// `a b...` with the snippets `a x` and `b y`. The pattern matches at 0 with
// group 1 `a b`, which no snippet starts with; the cursor then lies past the
// `...`, so the `b` at index 2 is never tried and the content is unchanged.

module SkippedScenario {
  import opened Wrappers
  import opened Strings
  import opened References
  import opened Rendering

  /** The document. */
  const Skipped: string := "a b..."

  /** The snippet list. */
  const Snips: seq<string> := ["a x", "b y"]

  /** The first words of the snippets. */
  lemma SkippedWords()
    ensures FirstWord("a x") == "a" && FirstWord("b y") == "b"
  {
    FirstWordIsUnique("a x", "a");
    FirstWordIsUnique("b y", "b");
  }

  /** Neither word needs escaping. */
  lemma SkippedEscapes()
    ensures Escape("a") == "a" && Escape("b") == "b"
  {
    assert !IsEscaped('a') && !IsEscaped('b');
    EscapeLeavesPlainText("a");
    EscapeLeavesPlainText("b");
  }

  /** The reference pattern has the alternatives `a` and `b`, in that order. */
  lemma SkippedAlternatives()
    ensures ReferenceAlternatives(Snips) == ["a", "b"]
  {
    SkippedWords();
    SkippedEscapes();
    var r := EscapedStarts(Snips);
    assert r[0] == "a" && r[1] == "b";
    assert r == ["a", "b"];
    assert Dedup(["a"]) == ["a"];
    assert ["a", "b"][..1] == ["a"];
  }

  /** Both alternatives are their own literals. */
  lemma SkippedLiterals()
    ensures PatternLiteral("a") == "a" && PatternLiteral("b") == "b"
  {
    SkippedEscapes();
    EscapeMatchesItself("a");
    EscapeMatchesItself("b");
  }

  /** At 0, `a` matches and the lazy `.*?` runs over ` b` to the `...`: group 1 is `a b`. */
  lemma SkippedMatchAt0()
    ensures MatchAt(Skipped, 0, ["a", "b"]) == Some(3)
  {
    SkippedLiterals();
    assert HasAt(Skipped, 0, "a");
    assert !EllipsisAt(Skipped, 1) && !EllipsisAt(Skipped, 2) && EllipsisAt(Skipped, 3);
    assert LazyToEllipsis(Skipped, 1) == Some(3);
  }

  /** So the first `exec` returns the match at 0. */
  lemma SkippedFirstReference()
    ensures NextReference(Skipped, 0, ["a", "b"]) == Some(Reference(0, 3))
  {
    SkippedMatchAt0();
  }

  /** Group 1 of that match. */
  lemma SkippedText()
    ensures Skipped[0..3] == "a b"
  {
  }

  /** No snippet starts with `a b`. */
  lemma SkippedTextUnresolved()
    ensures Unresolved(Snips, "a b")
  {
    assert Snips[0][2] == 'x' && Snips[1][0] == 'b';
    assert !("a b" <= Snips[0]) && !("a b" <= Snips[1]);
  }

  /** After the `...` nothing is left to match. */
  lemma SkippedNoMore()
    ensures NextReference(Skipped, 6, ["a", "b"]).None?
  {
    assert !HasAt(Skipped, 6, "a") && !HasAt(Skipped, 6, "b");
    SkippedLiterals();
    assert MatchAt(Skipped, 6, ["a", "b"]).None?;
  }

  /** The one reference `exec` visits is unresolved. */
  lemma SkippedVisited()
    ensures VisitedUnresolved(Skipped, Snips, ["a", "b"], 0)
  {
    SkippedFirstReference();
    SkippedText();
    SkippedTextUnresolved();
    SkippedNoMore();
  }

  /** Yet at index 2 the pattern does match, with group 1 `b`. */
  lemma SkippedMatchAt2()
    ensures MatchAt(Skipped, 2, ["a", "b"]) == Some(3)
  {
    SkippedLiterals();
    assert !HasAt(Skipped, 2, "a") && HasAt(Skipped, 2, "b");
    assert EllipsisAt(Skipped, 3);
  }

  /** And `b` resolves to the snippet `b y`. */
  lemma SkippedInnerResolves()
    ensures !Unresolved(Snips, "b")
  {
    assert Snips[0][0] == 'a' && Snips[1][..1] == "b";
    assert !("b" <= Snips[0]) && "b" <= Snips[1];
    assert FirstStartingWith(Snips, "b") == Some(1);
  }

  /**
   * The loop leaves `a b...` as it is, although a match that `exec` never
   * visits would resolve: only the references actually visited count.
   */
  lemma SkippedReferenceStays(insertAsHtml: bool)
    ensures !NothingResolves(Skipped, Snips, ReferenceAlternatives(Snips), 0)
    ensures Render(Skipped, Snips, insertAsHtml, 8) == Some(Skipped)
  {
    SkippedAlternatives();
    SkippedMatchAt2();
    SkippedInnerResolves();
    assert Skipped[2..3] == "b";
    SkippedVisited();
    UnresolvedLeavesContent(Skipped, Snips, insertAsHtml, 8);
  }
}
