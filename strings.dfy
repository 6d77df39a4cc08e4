// The JavaScript string primitives the snippet engine leans on: substring
// search, `String.prototype.replace` with a string pattern (including the `$`
// forms of its replacement template), the character classes `\s` and `.` of
// JavaScript regular expressions, and the decimal rendering of a number.

module Wrappers {
  datatype Option<T> = None | Some(value: T)
}

module Strings {
  import opened Wrappers

  /** True when `pat` occurs in `s` starting at index `i`. */
  predicate HasAt(s: string, i: nat, pat: string) {
    i + |pat| <= |s| && s[i..i + |pat|] == pat
  }

  /** `s.indexOf(pat, from)`: the first index at or after `from` where `pat` occurs. */
  function IndexOf(s: string, pat: string, from: nat): (r: Option<nat>)
    decreases |s| - from
    ensures r.Some? ==> from <= r.value && HasAt(s, r.value, pat)
    ensures r.Some? ==> forall k :: from <= k < r.value ==> !HasAt(s, k, pat)
    ensures r.None? ==> forall k :: from <= k ==> !HasAt(s, k, pat)
  {
    if from + |pat| > |s| then None
    else if HasAt(s, from, pat) then Some(from)
    else IndexOf(s, pat, from + 1)
  }

  /**
   * The replacement text `String.prototype.replace` produces from a template
   * (GetSubstitution in ECMA-262 with no capture groups): `$$` is a dollar,
   * `$&` the matched text, `` $` `` the text before the match, `$'` the text
   * after it; any other `$` stands for itself.
   */
  function Substitution(template: string, matched: string, before: string, after: string): string
    decreases |template|
  {
    if |template| == 0 then []
    else if template[0] == '$' && |template| >= 2 && template[1] == '$' then
      "$" + Substitution(template[2..], matched, before, after)
    else if template[0] == '$' && |template| >= 2 && template[1] == '&' then
      matched + Substitution(template[2..], matched, before, after)
    else if template[0] == '$' && |template| >= 2 && template[1] == '`' then
      before + Substitution(template[2..], matched, before, after)
    else if template[0] == '$' && |template| >= 2 && template[1] == '\'' then
      after + Substitution(template[2..], matched, before, after)
    else
      [template[0]] + Substitution(template[1..], matched, before, after)
  }

  /** A template without `$` is inserted as written. */
  lemma {:induction false} SubstitutionOfPlainText(template: string, matched: string, before: string, after: string)
    requires '$' !in template
    ensures Substitution(template, matched, before, after) == template
    decreases |template|
  {
    if |template| > 0 {
      assert template[0] != '$';
      assert '$' !in template[1..];
      SubstitutionOfPlainText(template[1..], matched, before, after);
      assert template == [template[0]] + template[1..];
    }
  }

  /** `s.replace(pat, rep)` with a string pattern: only the first occurrence is replaced. */
  function ReplaceFirst(s: string, pat: string, rep: string): (r: string)
    ensures IndexOf(s, pat, 0).None? ==> r == s
    ensures IndexOf(s, pat, 0).Some? ==>
      var i := IndexOf(s, pat, 0).value;
      |r| >= i && r[..i] == s[..i] && |r| >= |s| - i - |pat| && r[|r| - (|s| - i - |pat|)..] == s[i + |pat|..]
  {
    match IndexOf(s, pat, 0)
    case None => s
    case Some(i) =>
      s[..i] + Substitution(rep, pat, s[..i], s[i + |pat|..]) + s[i + |pat|..]
  }

  /** The replacement at the first occurrence `i`, the template expanded against the text around it. */
  lemma ReplaceFirstAt(s: string, pat: string, rep: string, i: nat)
    requires IndexOf(s, pat, 0) == Some(i)
    ensures i + |pat| <= |s|
    ensures ReplaceFirst(s, pat, rep) == s[..i] + Substitution(rep, pat, s[..i], s[i + |pat|..]) + s[i + |pat|..]
  {
  }

  /** With a `$`-free replacement, the first occurrence of `pat` becomes exactly `rep`. */
  lemma ReplaceFirstPlain(s: string, pat: string, rep: string)
    requires '$' !in rep
    ensures IndexOf(s, pat, 0).Some? ==>
      var i := IndexOf(s, pat, 0).value;
      ReplaceFirst(s, pat, rep) == s[..i] + rep + s[i + |pat|..]
  {
    if IndexOf(s, pat, 0).Some? {
      var i := IndexOf(s, pat, 0).value;
      var before, after := s[..i], s[i + |pat|..];
      assert ReplaceFirst(s, pat, rep) == before + Substitution(rep, pat, before, after) + after;
      SubstitutionOfPlainText(rep, pat, before, after);
    }
  }

  /** Removing a prefix: `s.replace(p, '')` when `s` starts with `p` drops exactly `p`. */
  lemma ReplacePrefixWithNothing(s: string, p: string)
    requires p <= s
    ensures ReplaceFirst(s, p, "") == s[|p|..]
  {
    assert HasAt(s, 0, p);
    assert IndexOf(s, p, 0) == Some(0);
  }

  /** The line terminators that `.` in a JavaScript regular expression does not match. */
  predicate IsLineTerminator(c: char) {
    c == '\n' || c == '\r' || c == '\U{2028}' || c == '\U{2029}'
  }

  /** The characters `\s` matches in a JavaScript regular expression. */
  predicate IsJsWhitespace(c: char) {
    c == '\t' || c == '\n' || c == '\U{000B}' || c == '\U{000C}' || c == '\r' || c == ' '
    || c == '\U{00A0}' || c == '\U{1680}' || ('\U{2000}' <= c <= '\U{200A}')
    || c == '\U{2028}' || c == '\U{2029}' || c == '\U{202F}' || c == '\U{205F}'
    || c == '\U{3000}' || c == '\U{FEFF}'
  }

  /** Every line terminator is also `\s` whitespace. */
  lemma LineTerminatorIsWhitespace(c: char)
    requires IsLineTerminator(c)
    ensures IsJsWhitespace(c)
  {
  }

  function DigitChar(d: nat): (c: char)
    requires d < 10
  {
    "0123456789"[d]
  }

  function DigitValue(c: char): nat
  {
    if '0' <= c <= '9' then (c as int - '0' as int) as nat else 0
  }

  /** The decimal digits of `n`, as `${n}` renders a non-negative integer. */
  function Decimal(n: nat): (r: string)
    ensures |r| >= 1
    ensures forall i :: 0 <= i < |r| ==> '0' <= r[i] <= '9'
    ensures |r| > 1 ==> r[0] != '0'
  {
    if n < 10 then [DigitChar(n)] else Decimal(n / 10) + [DigitChar(n % 10)]
  }

  lemma DigitRoundTrip(d: nat)
    requires d < 10
    ensures DigitValue(DigitChar(d)) == d
  {
  }

  /** The number a string of decimal digits denotes. */
  function DecimalValue(s: string): nat
  {
    if s == [] then 0 else 10 * DecimalValue(s[..|s| - 1]) + DigitValue(s[|s| - 1])
  }

  /** Reading back the rendered digits gives the number, so distinct ids render distinctly. */
  lemma {:induction false} DecimalRoundTrip(n: nat)
    ensures DecimalValue(Decimal(n)) == n
  {
    DigitRoundTrip(n % 10);
    if n >= 10 {
      DecimalRoundTrip(n / 10);
      var r := Decimal(n);
      assert r == Decimal(n / 10) + [DigitChar(n % 10)];
      assert r[..|r| - 1] == Decimal(n / 10);
    }
  }
}
