// insertSnippets, second half: the rewriting loop. The regex cursor, the
// content string, the `ids` dictionary and the `last_id` counter are the
// loop's state; `Step` is one turn of the `while (exec)` loop, `Run` the whole
// loop under a fuel bound, and `InsertSnippets` the loop itself.

module Rendering {
  import opened Wrappers
  import opened Strings
  import opened References

  // ---------------------------------------------------------------------
  // content.replace(/\(\(|\)\)/g, '')
  // ---------------------------------------------------------------------

  /** A `((` or a `))` begins at index `i`. */
  predicate DelimiterAt(s: string, i: nat) {
    i + 2 <= |s| && ((s[i] == '(' && s[i + 1] == '(') || (s[i] == ')' && s[i + 1] == ')'))
  }

  predicate NoDelimiters(s: string) {
    forall i :: 0 <= i < |s| ==> !DelimiterAt(s, i)
  }

  /** One left-to-right pass that deletes every non-overlapping `((` and `))`. */
  function StripDelimiters(s: string): (r: string)
    ensures |r| <= |s|
  {
    if s == [] then []
    else if DelimiterAt(s, 0) then StripDelimiters(s[2..])
    else [s[0]] + StripDelimiters(s[1..])
  }

  /** Text without delimiters passes through unchanged. */
  lemma {:induction false} StripWithoutDelimiters(s: string)
    requires NoDelimiters(s)
    ensures StripDelimiters(s) == s
  {
    if s != [] {
      assert !DelimiterAt(s, 0);
      forall i | 0 <= i < |s[1..]| ensures !DelimiterAt(s[1..], i) {
        assert !DelimiterAt(s, i + 1);
      }
      StripWithoutDelimiters(s[1..]);
    }
  }

  /** How many times `c` occurs in `s`. */
  function Occurrences(s: string, c: char): nat
  {
    if s == [] then 0 else (if s[0] == c then 1 else 0) + Occurrences(s[1..], c)
  }

  /** Only parentheses are removed: every other character keeps its count. */
  lemma {:induction false} StripRemovesOnlyParentheses(s: string, c: char)
    requires c != '(' && c != ')'
    ensures Occurrences(StripDelimiters(s), c) == Occurrences(s, c)
  {
    if s != [] {
      if DelimiterAt(s, 0) {
        StripRemovesOnlyParentheses(s[2..], c);
        assert s[1..][1..] == s[2..];
      } else {
        StripRemovesOnlyParentheses(s[1..], c);
        var r := [s[0]] + StripDelimiters(s[1..]);
        assert r[0] == s[0] && r[1..] == StripDelimiters(s[1..]);
      }
    }
  }

  /** Text without parentheses passes through, and stripping carries on after it. */
  lemma {:induction false} StripAfterPlainText(a: string, b: string)
    requires '(' !in a && ')' !in a
    ensures StripDelimiters(a + b) == a + StripDelimiters(b)
  {
    if a != [] {
      assert a[0] in a;
      assert (a + b)[0] == a[0] && !DelimiterAt(a + b, 0);
      assert (a + b)[1..] == a[1..] + b;
      assert '(' !in a[1..] && ')' !in a[1..];
      StripAfterPlainText(a[1..], b);
      calc {
        StripDelimiters(a + b);
        [a[0]] + StripDelimiters(a[1..] + b);
        [a[0]] + (a[1..] + StripDelimiters(b));
        ([a[0]] + a[1..]) + StripDelimiters(b);
        { assert [a[0]] + a[1..] == a; }
        a + StripDelimiters(b);
      }
    } else {
      assert a + b == b;
    }
  }

  /** A delimiter at the front is dropped. */
  lemma StripDelimiterPair(d: string, b: string)
    requires d == "((" || d == "))"
    ensures StripDelimiters(d + b) == StripDelimiters(b)
  {
    assert DelimiterAt(d + b, 0);
    assert (d + b)[2..] == b;
  }

  /** The pass is not idempotent: deleting `))` can bring a new `((` together. */
  lemma StripCanLeaveDelimiters()
    ensures StripDelimiters("())(") == "(("
    ensures !NoDelimiters(StripDelimiters("())("))
  {
    var s := "())(";
    assert !DelimiterAt(s, 0);
    assert s[1..] == "))(";
    assert DelimiterAt(s[1..], 0);
    assert s[1..][2..] == "(";
    assert StripDelimiters("(") == "(";
    assert DelimiterAt("((", 0);
  }

  // ---------------------------------------------------------------------
  // The HTML markup
  // ---------------------------------------------------------------------

  /** `((${text}<span id="snippet-${id}"></span>`: the anchor put after the defining `((text`. */
  function Anchor(text: string, id: nat): (r: string)
    ensures "((" + text <= r
  {
    "((" + text + "<span id=\"snippet-" + Decimal(id) + "\"></span>"
  }

  /** The span that stands for a reference: the snippet's remainder and the anchor it points to. */
  function Placeholder(text: string, rest: string, id: nat): (r: string)
    ensures text <= r
  {
    text + "<span \n        class=\"snippet\"\n        data-snippet=\"" + rest
    + "\"\n        onclick=\"gotoid('snippet-" + Decimal(id) + "')\"\n      >...</span>"
  }

  // ---------------------------------------------------------------------
  // The loop state and one turn of the loop
  // ---------------------------------------------------------------------

  /** The loop's state: the content, the regex cursor, the `ids` dictionary and `last_id`. */
  datatype Pass = Pass(content: string, lastIndex: nat, ids: map<string, nat>, lastId: nat)

  /** `if (!ids[text])`: the text has no (truthy) id yet. */
  predicate IsNewText(ids: map<string, nat>, text: string) {
    !(text in ids && ids[text] != 0)
  }

  /** A resolved reference in HTML mode: anchor on first sight, then the placeholder. */
  function Annotate(st: Pass, text: string, matched: string, snippet: string): (r: Pass)
    ensures r.lastIndex == st.lastIndex
  {
    if IsNewText(st.ids, text) then
      var id := st.lastId;
      var anchored := ReplaceFirst(st.content, "((" + text, Anchor(text, id));
      Pass(ReplaceFirst(anchored, matched, Placeholder(text, ReplaceFirst(snippet, text, ""), id)),
           st.lastIndex, st.ids[text := id], id + 1)
    else
      st.(content := ReplaceFirst(st.content, matched, Placeholder(text, ReplaceFirst(snippet, text, ""), st.ids[text])))
  }

  /** `snippets.find(...)` gave nothing, or gave the falsy empty snippet. */
  predicate Unresolved(snippets: seq<string>, text: string) {
    FirstStartingWith(snippets, text).None? || snippets[FirstStartingWith(snippets, text).value] == ""
  }

  /**
   * What the loop body does with a reference whose group 1 is `text` and whose
   * whole match is `matched`, once the cursor has moved past it.
   */
  function Resolve(snippets: seq<string>, insertAsHtml: bool, st: Pass, text: string, matched: string): (r: Pass)
    ensures r.lastIndex == st.lastIndex
    ensures !insertAsHtml ==> r.ids == st.ids && r.lastId == st.lastId
    ensures Unresolved(snippets, text) ==> r == st
  {
    if Unresolved(snippets, text) then st
    else
      var snippet := snippets[FirstStartingWith(snippets, text).value];
      if insertAsHtml then Annotate(st, text, matched, snippet)
      else st.(content := StripDelimiters(ReplaceFirst(st.content, matched, snippet)))
  }

  /**
   * One turn of the loop: `None` when `exec` finds no further reference;
   * otherwise the state after it, with the cursor past the reference's `...`.
   */
  function Step(snippets: seq<string>, alts: seq<string>, insertAsHtml: bool, st: Pass): (r: Option<Pass>)
    ensures r.None? <==> NextReference(st.content, st.lastIndex, alts).None?
    ensures r.Some? ==> r.value.lastIndex >= st.lastIndex + 3
    ensures r.Some? && !insertAsHtml ==> r.value.ids == st.ids && r.value.lastId == st.lastId
  {
    match NextReference(st.content, st.lastIndex, alts)
    case None => None
    case Some(m) =>
      Some(Resolve(snippets, insertAsHtml, Pass(st.content, m.end + 3, st.ids, st.lastId),
                   st.content[m.start..m.end], st.content[m.start..m.end + 3]))
  }

  /** At most `fuel` turns of a loop whose body is `step`; `step` answers `None` when the loop exits. */
  function Iterate(step: Pass -> Option<Pass>, st: Pass, fuel: nat): Option<Pass>
    decreases fuel
  {
    if fuel == 0 then None
    else match step(st)
      case None => Some(st)
      case Some(st') => Iterate(step, st', fuel - 1)
  }

  /** The body of the `while (exec)` loop, as a step function. */
  function Turn(snippets: seq<string>, alts: seq<string>, insertAsHtml: bool): Pass -> Option<Pass>
  {
    st => Step(snippets, alts, insertAsHtml, st)
  }

  /** The whole loop with at most `fuel` turns: the final state, or `None` if the fuel runs out. */
  function Run(snippets: seq<string>, alts: seq<string>, insertAsHtml: bool, st: Pass, fuel: nat): Option<Pass>
  {
    Iterate(Turn(snippets, alts, insertAsHtml), st, fuel)
  }

  /** `insertSnippets(content, snippets, { insertAsHtml })`, given enough fuel. */
  function Render(content: string, snippets: seq<string>, insertAsHtml: bool, fuel: nat): Option<string>
  {
    match Run(snippets, ReferenceAlternatives(snippets), insertAsHtml, Pass(content, 0, map[], 1), fuel)
    case None => None
    case Some(st) => Some(st.content)
  }

  /** The loop of `insertSnippets`, rewriting `current` in place; stops with `None` when the fuel runs out. */
  method InsertSnippets(content: string, snippets: seq<string>, insertAsHtml: bool, fuel: nat)
    returns (result: Option<string>)
    ensures result == Render(content, snippets, insertAsHtml, fuel)
  {
    var alts := ReferenceAlternatives(snippets);
    var current := content;
    var lastIndex: nat := 0;
    var ids: map<string, nat> := map[];
    var lastId: nat := 1;
    var budget := fuel;
    ghost var turn := Turn(snippets, alts, insertAsHtml);
    ghost var final := Iterate(turn, Pass(current, lastIndex, ids, lastId), budget);
    while true
      invariant Iterate(turn, Pass(current, lastIndex, ids, lastId), budget) == final
      decreases budget
    {
      if budget == 0 {
        return None;
      }
      ghost var before := Pass(current, lastIndex, ids, lastId);
      var more: bool;
      more, current, lastIndex, ids, lastId := TakeTurn(snippets, alts, insertAsHtml, current, lastIndex, ids, lastId);
      if !more {
        return Some(current);
      }
      ghost var spent := budget;
      budget := budget - 1;
      IterateTurn(turn, before, Pass(current, lastIndex, ids, lastId), spent, budget);
    }
  }

  /**
   * One pass through the loop body: `exec` from the cursor, then the rewrite.
   * `more` is false when `exec` finds nothing, and the state is then unchanged.
   */
  method TakeTurn(snippets: seq<string>, alts: seq<string>, insertAsHtml: bool,
                  content: string, lastIndex: nat, ids: map<string, nat>, lastId: nat)
    returns (more: bool, content': string, lastIndex': nat, ids': map<string, nat>, lastId': nat)
    ensures !more ==> Turn(snippets, alts, insertAsHtml)(Pass(content, lastIndex, ids, lastId)) == None
    ensures !more ==> content' == content
    ensures more ==> Turn(snippets, alts, insertAsHtml)(Pass(content, lastIndex, ids, lastId))
                     == Some(Pass(content', lastIndex', ids', lastId'))
  {
    var m := NextReference(content, lastIndex, alts);
    if m.None? {
      return false, content, lastIndex, ids, lastId;
    }
    var text := content[m.value.start..m.value.end];
    var matched := content[m.value.start..m.value.end + 3];
    lastIndex' := m.value.end + 3;
    content', ids', lastId' := ApplyReference(snippets, insertAsHtml, content, lastIndex', ids, lastId, text, matched);
    TurnAt(snippets, alts, insertAsHtml, Pass(content, lastIndex, ids, lastId), m.value, lastIndex', text, matched);
    more := true;
  }

  /** The loop body after `exec`: look the text up, then rewrite `content` and update `ids`/`last_id`. */
  method ApplyReference(snippets: seq<string>, insertAsHtml: bool, content: string, lastIndex: nat,
                        ids: map<string, nat>, lastId: nat, text: string, matched: string)
    returns (content': string, ids': map<string, nat>, lastId': nat)
    ensures Pass(content', lastIndex, ids', lastId') == Resolve(snippets, insertAsHtml, Pass(content, lastIndex, ids, lastId), text, matched)
  {
    content', ids', lastId' := content, ids, lastId;
    var found := FirstStartingWith(snippets, text);
    if found.Some? && snippets[found.value] != "" {
      var snippet := snippets[found.value];
      if insertAsHtml {
        content', ids', lastId' := Annotated(content, lastIndex, ids, lastId, text, matched, snippet);
      } else {
        content' := ReplaceFirst(content', matched, snippet);
        content' := StripDelimiters(content');
      }
    }
  }

  /** The HTML branch of the loop body: register the text if new (adding its anchor), then put the placeholder in. */
  method Annotated(content: string, lastIndex: nat, ids: map<string, nat>, lastId: nat,
                   text: string, matched: string, snippet: string)
    returns (content': string, ids': map<string, nat>, lastId': nat)
    ensures Pass(content', lastIndex, ids', lastId') == Annotate(Pass(content, lastIndex, ids, lastId), text, matched, snippet)
  {
    content', ids', lastId' := content, ids, lastId;
    var id: nat;
    if text in ids' && ids'[text] != 0 {
      id := ids'[text];
    } else {
      id := lastId';
      ids' := ids'[text := id];
      lastId' := lastId' + 1;
      content' := ReplaceFirst(content', "((" + text, Anchor(text, id));
    }
    content' := ReplaceFirst(content', matched, Placeholder(text, ReplaceFirst(snippet, text, ""), id));
  }

  // ---------------------------------------------------------------------
  // What one turn does
  // ---------------------------------------------------------------------

  /**
   * The reference's whole match is `text...`, and its first copy in the
   * content lies at or before the reference: that copy is the one replaced.
   */
  lemma ReplacedCopyPrecedesReference(st: Pass, alts: seq<string>, m: Reference)
    requires NextReference(st.content, st.lastIndex, alts) == Some(m)
    ensures st.content[m.start..m.end + 3] == st.content[m.start..m.end] + "..."
    ensures var i := IndexOf(st.content, st.content[m.start..m.end] + "...", 0);
      i.Some? && i.value <= m.start
  {
    MatchedIsTextAndEllipsis(st.content, m.start, m.end);
    assert HasAt(st.content, m.start, st.content[m.start..m.end + 3]);
  }

  /** Plain mode's `Resolve` once `find` has named the `k`-th snippet. */
  lemma ResolvePlain(snippets: seq<string>, st: Pass, text: string, k: nat)
    requires FirstStartingWith(snippets, text) == Some(k) && snippets[k] != ""
    ensures Resolve(snippets, false, st, text, text + "...")
      == Pass(StripDelimiters(ReplaceFirst(st.content, text + "...", snippets[k])), st.lastIndex, st.ids, st.lastId)
  {
  }

  /**
   * Plain mode, one turn at the reference `m` that `exec` finds, whose group 1
   * `text` resolves to the `k`-th snippet, a snippet without `$`: `replace`
   * puts the snippet in place of the first copy of `text...` in the content,
   * at an index `i` at or before `m`, keeping the text around it; then every
   * delimiter goes, the cursor moves past `m`'s `...` and the ids are kept.
   */
  lemma {:induction false} PlainTurnLiteral(snippets: seq<string>, alts: seq<string>, st: Pass, m: Reference, text: string, k: nat)
    requires NextReference(st.content, st.lastIndex, alts) == Some(m)
    requires text == st.content[m.start..m.end]
    requires FirstStartingWith(snippets, text) == Some(k) && snippets[k] != "" && '$' !in snippets[k]
    ensures IndexOf(st.content, text + "...", 0).Some?
    ensures var i := IndexOf(st.content, text + "...", 0).value;
      i <= m.start
      && ReplaceFirst(st.content, text + "...", snippets[k]) == st.content[..i] + snippets[k] + st.content[i + |text| + 3..]
    ensures Step(snippets, alts, false, st)
      == Some(Pass(StripDelimiters(ReplaceFirst(st.content, text + "...", snippets[k])), m.end + 3, st.ids, st.lastId))
  {
    PlainTurnReplaces(snippets, alts, st, m, text, k);
    ReplacedCopyPrecedesReference(st, alts, m);
    CopyReplacedPlain(st.content, text, snippets[k], IndexOf(st.content, text + "...", 0).value);
  }

  /** The turn itself: `replace` of the first `text...`, then `stripDelimiters`. */
  lemma {:induction false} PlainTurnReplaces(snippets: seq<string>, alts: seq<string>, st: Pass, m: Reference, text: string, k: nat)
    requires NextReference(st.content, st.lastIndex, alts) == Some(m)
    requires text == st.content[m.start..m.end]
    requires FirstStartingWith(snippets, text) == Some(k) && snippets[k] != ""
    ensures Step(snippets, alts, false, st)
      == Some(Pass(StripDelimiters(ReplaceFirst(st.content, text + "...", snippets[k])), m.end + 3, st.ids, st.lastId))
  {
    MatchedIsTextAndEllipsis(st.content, m.start, m.end);
    var moved := Pass(st.content, m.end + 3, st.ids, st.lastId);
    StepAt(snippets, alts, false, st, m);
    ResolvePlain(snippets, moved, text, k);
  }

  /** `replace` at the first `text...`, found at `i`. */
  lemma CopyReplaced(s: string, text: string, rep: string, i: nat)
    requires IndexOf(s, text + "...", 0) == Some(i)
    ensures i + |text| + 3 <= |s|
    ensures ReplaceFirst(s, text + "...", rep)
      == s[..i] + Substitution(rep, text + "...", s[..i], s[i + |text| + 3..]) + s[i + |text| + 3..]
  {
    ReplaceFirstAt(s, text + "...", rep, i);
  }

  /** The same with a `$`-free replacement. */
  lemma CopyReplacedPlain(s: string, text: string, rep: string, i: nat)
    requires IndexOf(s, text + "...", 0) == Some(i) && '$' !in rep
    ensures i + |text| + 3 <= |s|
    ensures ReplaceFirst(s, text + "...", rep) == s[..i] + rep + s[i + |text| + 3..]
  {
    CopyReplaced(s, text, rep, i);
    SubstitutionOfPlainText(rep, text + "...", s[..i], s[i + |text| + 3..]);
  }

  /**
   * HTML mode, first sight of a text: it gets the next id, its anchor goes
   * after the first `((text`, and the reference becomes a placeholder that
   * carries what follows `text` in the snippet. Nothing is stripped.
   */
  lemma ResolveNewText(snippets: seq<string>, st: Pass, text: string, k: nat)
    requires FirstStartingWith(snippets, text) == Some(k) && snippets[k] != ""
    requires IsNewText(st.ids, text)
    ensures text <= snippets[k]
    ensures Resolve(snippets, true, st, text, text + "...") == Pass(
      ReplaceFirst(ReplaceFirst(st.content, "((" + text, Anchor(text, st.lastId)),
                   text + "...", Placeholder(text, snippets[k][|text|..], st.lastId)),
      st.lastIndex, st.ids[text := st.lastId], st.lastId + 1)
  {
    ReplacePrefixWithNothing(snippets[k], text);
  }

  /**
   * HTML mode, a text seen before: its id is reused, no second anchor is
   * added, and the reference becomes a placeholder pointing at that id.
   */
  lemma ResolveKnownText(snippets: seq<string>, st: Pass, text: string, k: nat)
    requires FirstStartingWith(snippets, text) == Some(k) && snippets[k] != ""
    requires !IsNewText(st.ids, text)
    ensures text <= snippets[k]
    ensures Resolve(snippets, true, st, text, text + "...") == Pass(
      ReplaceFirst(st.content, text + "...", Placeholder(text, snippets[k][|text|..], st.ids[text])),
      st.lastIndex, st.ids, st.lastId)
  {
    ReplacePrefixWithNothing(snippets[k], text);
  }

  // ---------------------------------------------------------------------
  // The id registry
  // ---------------------------------------------------------------------

  /** `ids` numbers its texts 1, 2, ..., last_id - 1, each number used once. */
  ghost predicate Registry(ids: map<string, nat>, lastId: nat) {
    lastId >= 1
    && |ids.Keys| == lastId - 1
    && (forall t :: t in ids ==> 1 <= ids[t] < lastId)
    && (forall t, u :: t in ids && u in ids && t != u ==> ids[t] != ids[u])
  }

  /** The later registry keeps every text of the earlier one under the same id. */
  ghost predicate Extends(ids: map<string, nat>, ids': map<string, nat>) {
    forall t :: t in ids ==> t in ids' && ids'[t] == ids[t]
  }

  /** A registered id is never 0, so `!ids[text]` is exactly "text is not registered". */
  lemma RegisteredIdsAreTruthy(ids: map<string, nat>, lastId: nat, text: string)
    requires Registry(ids, lastId)
    ensures IsNewText(ids, text) <==> text !in ids
  {
  }

  /** One turn keeps the registry a numbering and only adds to it. */
  lemma StepKeepsRegistry(snippets: seq<string>, alts: seq<string>, insertAsHtml: bool, st: Pass)
    requires Registry(st.ids, st.lastId)
    requires Step(snippets, alts, insertAsHtml, st).Some?
    ensures var st' := Step(snippets, alts, insertAsHtml, st).value;
      Registry(st'.ids, st'.lastId) && Extends(st.ids, st'.ids)
  {
    var m := NextReference(st.content, st.lastIndex, alts).value;
    StepAt(snippets, alts, insertAsHtml, st, m);
    var text := st.content[m.start..m.end];
    var matched := st.content[m.start..m.end + 3];
    var next := Pass(st.content, m.end + 3, st.ids, st.lastId);
    var st' := Resolve(snippets, insertAsHtml, next, text, matched);
    if insertAsHtml && !Unresolved(snippets, text) {
      var snippet := snippets[FirstStartingWith(snippets, text).value];
      assert st' == Annotate(next, text, matched, snippet);
      if IsNewText(st.ids, text) {
        Register(st.ids, st.lastId, text);
      }
    }
  }

  /** Giving a new text the id `last_id` and moving `last_id` on keeps the numbering. */
  lemma Register(ids: map<string, nat>, lastId: nat, text: string)
    requires Registry(ids, lastId) && text !in ids
    ensures Registry(ids[text := lastId], lastId + 1) && Extends(ids, ids[text := lastId])
  {
    var ids' := ids[text := lastId];
    OneMoreKey(ids, text, lastId);
    forall t | t in ids' ensures 1 <= ids'[t] < lastId + 1 {
      if t != text { assert ids'[t] == ids[t]; }
    }
    forall t, u | t in ids' && u in ids' && t != u ensures ids'[t] != ids'[u] {
      if t != text && u != text {
        assert ids'[t] == ids[t] && ids'[u] == ids[u];
      }
    }
  }

  /** Adding a new key adds one to the number of keys. */
  lemma OneMoreKey(ids: map<string, nat>, text: string, id: nat)
    requires text !in ids
    ensures |ids[text := id].Keys| == |ids.Keys| + 1
  {
    assert ids[text := id].Keys == ids.Keys + {text};
  }

  /** Over the whole loop the registry stays a numbering and only grows. */
  lemma RunKeepsRegistry(snippets: seq<string>, alts: seq<string>, insertAsHtml: bool, st: Pass, fuel: nat)
    requires Registry(st.ids, st.lastId)
    requires Run(snippets, alts, insertAsHtml, st, fuel).Some?
    ensures var fin := Run(snippets, alts, insertAsHtml, st, fuel).value;
      Registry(fin.ids, fin.lastId) && Extends(st.ids, fin.ids)
  {
    var turn := Turn(snippets, alts, insertAsHtml);
    var inv := (s: Pass) => Registry(s.ids, s.lastId) && Extends(st.ids, s.ids);
    forall s | inv(s) && turn(s).Some? ensures inv(turn(s).value) {
      StepKeepsRegistry(snippets, alts, insertAsHtml, s);
    }
    IterateKeeps(turn, inv, st, fuel);
  }

  /** Plain mode never touches the registry. */
  lemma PlainRunKeepsIds(snippets: seq<string>, alts: seq<string>, st: Pass, fuel: nat)
    requires Run(snippets, alts, false, st, fuel).Some?
    ensures Run(snippets, alts, false, st, fuel).value.ids == st.ids
    ensures Run(snippets, alts, false, st, fuel).value.lastId == st.lastId
  {
    var turn := Turn(snippets, alts, false);
    var inv := (s: Pass) => s.ids == st.ids && s.lastId == st.lastId;
    forall s | inv(s) && turn(s).Some? ensures inv(turn(s).value) {
      assert turn(s) == Step(snippets, alts, false, s);
    }
    IterateKeeps(turn, inv, st, fuel);
  }

  // ---------------------------------------------------------------------
  // Nothing resolves, nothing changes
  // ---------------------------------------------------------------------

  /**
   * Every reference `exec` visits from `from` on, on content that nothing
   * changes, is unresolved: the first match, then the first one past its
   * `...`, and so on. Positions inside a visited match are never tried.
   */
  ghost predicate VisitedUnresolved(s: string, snippets: seq<string>, alts: seq<string>, from: nat)
    decreases |s| + 1 - from
  {
    match NextReference(s, from, alts)
    case None => true
    case Some(m) => Unresolved(snippets, s[m.start..m.end]) && VisitedUnresolved(s, snippets, alts, m.end + 3)
  }

  /** The reference `exec` visits first is unresolved. */
  lemma {:induction false} VisitedFirst(s: string, snippets: seq<string>, alts: seq<string>, from: nat, m: Reference, text: string)
    requires VisitedUnresolved(s, snippets, alts, from)
    requires NextReference(s, from, alts) == Some(m) && text == s[m.start..m.end]
    ensures Unresolved(snippets, text)
  {
  }

  /** So is every reference it visits after that one. */
  lemma {:induction false} VisitedRest(s: string, snippets: seq<string>, alts: seq<string>, from: nat)
    requires VisitedUnresolved(s, snippets, alts, from)
    requires NextReference(s, from, alts).Some?
    ensures VisitedUnresolved(s, snippets, alts, NextReference(s, from, alts).value.end + 3)
  {
  }

  /** No match at or after `from` resolves to a (non-empty) snippet, visited by `exec` or not. */
  ghost predicate NothingResolves(s: string, snippets: seq<string>, alts: seq<string>, from: nat) {
    forall p :: from <= p && MatchAt(s, p, alts).Some? ==> Unresolved(snippets, s[p..MatchAt(s, p, alts).value])
  }

  /** When no match resolves at all, in particular none that `exec` visits resolves. */
  lemma {:induction false} NothingResolvesIsVisited(s: string, snippets: seq<string>, alts: seq<string>, from: nat)
    requires NothingResolves(s, snippets, alts, from)
    ensures VisitedUnresolved(s, snippets, alts, from)
    decreases |s| + 1 - from
  {
    match NextReference(s, from, alts)
    case None =>
    case Some(m) =>
      assert MatchAt(s, m.start, alts) == Some(m.end);
      NothingResolvesIsVisited(s, snippets, alts, m.end + 3);
  }

  /** With no reference `exec` visits resolving, a turn only moves the cursor, and past the end there is no turn. */
  lemma {:induction false} UnresolvedTurn(snippets: seq<string>, alts: seq<string>, insertAsHtml: bool, st: Pass)
    requires VisitedUnresolved(st.content, snippets, alts, st.lastIndex)
    ensures Step(snippets, alts, insertAsHtml, st).Some? ==>
      Step(snippets, alts, insertAsHtml, st)
        == Some(Pass(st.content, NextReference(st.content, st.lastIndex, alts).value.end + 3, st.ids, st.lastId))
  {
    if NextReference(st.content, st.lastIndex, alts).Some? {
      var m := NextReference(st.content, st.lastIndex, alts).value;
      var text := st.content[m.start..m.end];
      VisitedFirst(st.content, snippets, alts, st.lastIndex, m, text);
      UnresolvedStepAt(snippets, alts, insertAsHtml, st, m, text);
    }
  }

  /** The same, as the loop invariant sees it: the next state has the same content, ids and counter, and the rest of the chain is unresolved. */
  lemma {:induction false} UnresolvedTurnKeeps(snippets: seq<string>, alts: seq<string>, insertAsHtml: bool, st: Pass)
    requires VisitedUnresolved(st.content, snippets, alts, st.lastIndex)
    requires Step(snippets, alts, insertAsHtml, st).Some?
    ensures var st' := Step(snippets, alts, insertAsHtml, st).value;
      st'.content == st.content && st'.ids == st.ids && st'.lastId == st.lastId && st'.lastIndex > st.lastIndex
      && VisitedUnresolved(st'.content, snippets, alts, st'.lastIndex)
  {
    UnresolvedTurn(snippets, alts, insertAsHtml, st);
    VisitedRest(st.content, snippets, alts, st.lastIndex);
  }

  /** Once the cursor is past the end of the content, `exec` finds nothing and the loop exits. */
  lemma NoTurnPastEnd(snippets: seq<string>, alts: seq<string>, insertAsHtml: bool, st: Pass)
    requires st.lastIndex > |st.content|
    ensures Step(snippets, alts, insertAsHtml, st).None?
  {
  }

  /** An unresolved reference only moves the cursor past its `...`. */
  lemma {:induction false} UnresolvedStepAt(snippets: seq<string>, alts: seq<string>, insertAsHtml: bool, st: Pass, m: Reference, text: string)
    requires NextReference(st.content, st.lastIndex, alts) == Some(m)
    requires text == st.content[m.start..m.end] && Unresolved(snippets, text)
    ensures Step(snippets, alts, insertAsHtml, st) == Some(Pass(st.content, m.end + 3, st.ids, st.lastId))
  {
    StepAt(snippets, alts, insertAsHtml, st, m);
  }

  /** So the loop only moves the cursor, and it ends once fuel covers the text. */
  lemma UnresolvedRunKeepsContent(snippets: seq<string>, alts: seq<string>, insertAsHtml: bool, st: Pass, fuel: nat)
    requires VisitedUnresolved(st.content, snippets, alts, st.lastIndex)
    requires fuel > 0 && st.lastIndex + fuel > |st.content| + 1
    ensures Run(snippets, alts, insertAsHtml, st, fuel).Some?
    ensures var fin := Run(snippets, alts, insertAsHtml, st, fuel).value;
      fin.content == st.content && fin.ids == st.ids && fin.lastId == st.lastId
  {
    var turn := Turn(snippets, alts, insertAsHtml);
    var inv := (s: Pass) => s.content == st.content && s.ids == st.ids && s.lastId == st.lastId
                            && VisitedUnresolved(s.content, snippets, alts, s.lastIndex);
    forall s | inv(s) && turn(s).Some? ensures inv(turn(s).value) && turn(s).value.lastIndex > s.lastIndex {
      assert turn(s) == Step(snippets, alts, insertAsHtml, s);
      UnresolvedTurnKeeps(snippets, alts, insertAsHtml, s);
    }
    forall s | inv(s) && s.lastIndex > |st.content| ensures turn(s).None? {
      assert turn(s) == Step(snippets, alts, insertAsHtml, s);
      NoTurnPastEnd(snippets, alts, insertAsHtml, s);
    }
    IterateEnds(turn, inv, st, fuel, |st.content|);
  }

  /** If no reference that `exec` visits resolves, the output is the input exactly (no delimiter is stripped either). */
  lemma UnresolvedLeavesContent(content: string, snippets: seq<string>, insertAsHtml: bool, fuel: nat)
    requires VisitedUnresolved(content, snippets, ReferenceAlternatives(snippets), 0)
    requires fuel > |content| + 1
    ensures Render(content, snippets, insertAsHtml, fuel) == Some(content)
  {
    UnresolvedRunKeepsContent(snippets, ReferenceAlternatives(snippets), insertAsHtml, Pass(content, 0, map[], 1), fuel);
  }

  /** The same when no match resolves at all. */
  lemma NothingResolvesLeavesContent(content: string, snippets: seq<string>, insertAsHtml: bool, fuel: nat)
    requires NothingResolves(content, snippets, ReferenceAlternatives(snippets), 0)
    requires fuel > |content| + 1
    ensures Render(content, snippets, insertAsHtml, fuel) == Some(content)
  {
    NothingResolvesIsVisited(content, snippets, ReferenceAlternatives(snippets), 0);
    UnresolvedLeavesContent(content, snippets, insertAsHtml, fuel);
  }

  /** With no snippets every reference stays unresolved, so the content comes back unchanged. */
  lemma NoSnippetsLeaveContent(content: string, insertAsHtml: bool, fuel: nat)
    requires fuel > |content| + 1
    ensures Render(content, [], insertAsHtml, fuel) == Some(content)
  {
    NothingResolvesLeavesContent(content, [], insertAsHtml, fuel);
  }

  // ---------------------------------------------------------------------
  // Fuel
  // ---------------------------------------------------------------------

  /** The turn at a reference `m` found by `exec`. */
  lemma StepAt(snippets: seq<string>, alts: seq<string>, insertAsHtml: bool, st: Pass, m: Reference)
    requires NextReference(st.content, st.lastIndex, alts) == Some(m)
    ensures Step(snippets, alts, insertAsHtml, st)
      == Some(Resolve(snippets, insertAsHtml, Pass(st.content, m.end + 3, st.ids, st.lastId),
                      st.content[m.start..m.end], st.content[m.start..m.end + 3]))
  {
  }

  /** The whole match is group 1 followed by the `...`. */
  lemma MatchedIsTextAndEllipsis(s: string, start: nat, end: nat)
    requires start <= end && EllipsisAt(s, end)
    ensures s[start..end + 3] == s[start..end] + "..."
  {
    assert s[end..end + 3] == "...";
    assert s[start..end + 3] == s[start..end] + s[end..end + 3];
  }

  /** The same turn, through the step function the loop iterates, with the cursor, group 1 and the match named. */
  lemma TurnAt(snippets: seq<string>, alts: seq<string>, insertAsHtml: bool, st: Pass, m: Reference,
               cursor: nat, text: string, matched: string)
    requires NextReference(st.content, st.lastIndex, alts) == Some(m)
    requires cursor == m.end + 3 && text == st.content[m.start..m.end] && matched == st.content[m.start..m.end + 3]
    ensures Turn(snippets, alts, insertAsHtml)(st)
      == Some(Resolve(snippets, insertAsHtml, Pass(st.content, cursor, st.ids, st.lastId), text, matched))
  {
    StepAt(snippets, alts, insertAsHtml, st, m);
  }

  /** A loop that takes a turn continues from the state that turn leaves. */
  lemma IterateTurn(step: Pass -> Option<Pass>, st: Pass, st': Pass, fuel: nat, fuel': nat)
    requires fuel == fuel' + 1 && step(st) == Some(st')
    ensures Iterate(step, st, fuel) == Iterate(step, st', fuel')
  {
  }

  /** More turns never change a loop that has already exited. */
  lemma {:induction false} IterateFuelMonotone(step: Pass -> Option<Pass>, st: Pass, fuel: nat, more: nat)
    requires Iterate(step, st, fuel).Some?
    requires fuel <= more
    ensures Iterate(step, st, more) == Iterate(step, st, fuel)
    decreases fuel
  {
    match step(st)
    case None =>
    case Some(st') => IterateFuelMonotone(step, st', fuel - 1, more - 1);
  }

  /** A property every turn preserves holds of the state the loop exits with. */
  lemma {:induction false} IterateKeeps(step: Pass -> Option<Pass>, inv: Pass -> bool, st: Pass, fuel: nat)
    requires inv(st)
    requires forall s :: inv(s) && step(s).Some? ==> inv(step(s).value)
    requires Iterate(step, st, fuel).Some?
    ensures inv(Iterate(step, st, fuel).value)
    decreases fuel
  {
    match step(st)
    case None =>
    case Some(st') => IterateKeeps(step, inv, st', fuel - 1);
  }

  /**
   * A loop whose turns keep `inv` and move the cursor forward, and that has no
   * turn once the cursor is past `bound`, exits within `bound + 2` turns.
   */
  lemma {:induction false} IterateEnds(step: Pass -> Option<Pass>, inv: Pass -> bool, st: Pass, fuel: nat, bound: nat)
    requires inv(st)
    requires forall s :: inv(s) && step(s).Some? ==> inv(step(s).value) && step(s).value.lastIndex > s.lastIndex
    requires forall s :: inv(s) && s.lastIndex > bound ==> step(s).None?
    requires fuel > 0 && st.lastIndex + fuel > bound + 1
    ensures Iterate(step, st, fuel).Some? && inv(Iterate(step, st, fuel).value)
    decreases fuel
  {
    match step(st)
    case None =>
    case Some(st') => IterateEnds(step, inv, st', fuel - 1, bound);
  }

  /** The rendering does not depend on the fuel, once there is enough. */
  lemma RenderFuelMonotone(content: string, snippets: seq<string>, insertAsHtml: bool, fuel: nat, more: nat)
    requires Render(content, snippets, insertAsHtml, fuel).Some?
    requires fuel <= more
    ensures Render(content, snippets, insertAsHtml, more) == Render(content, snippets, insertAsHtml, fuel)
  {
    IterateFuelMonotone(Turn(snippets, ReferenceAlternatives(snippets), insertAsHtml), Pass(content, 0, map[], 1), fuel, more);
  }
}
