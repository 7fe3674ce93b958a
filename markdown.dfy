/**
 * The clean-up `Parser._stripMarkdown` (js/parser.js) applies to a line
 * before it is compared with the section keywords: one function per
 * regular-expression replacement, applied in `_stripMarkdown`'s order.
 */
module Markdown {
  import opened JsText

  /** `^#{1,6}\s+` removed: a heading marker of one to six `#` followed by white space. */
  function StripHeading(s: string): string {
    var r := Run(s, c => c == '#');
    if 1 <= r <= 6 && r < |s| && IsSpace(s[r]) then s[r + Run(s[r..], c => IsSpace(c))..] else s
  }

  /**
   * `m{1,3}(.*?)m{1,3}` replaced by `$1` throughout, for the marker `m`
   * (`*` or `_`). At a run of markers the opening takes up to three of them;
   * the lazy body then stops at the next marker on the line, and the closing
   * takes up to three markers from there. When no marker follows on the
   * line, a run of two or three markers still matches (opening all but one,
   * empty body, closing one) and disappears, while a lone marker is kept.
   */
  function StripEmphasis(s: string, m: char): (r: string)
    ensures |r| <= |s|
    decreases |s|
  {
    if s == [] then []
    else if s[0] != m then [s[0]] + StripEmphasis(s[1..], m)
    else
      var run := Run(s, c => c == m);
      var open := if run < 3 then run else 3;
      var q := open + Run(s[open..], c => c != m && !IsLineTerminator(c));
      if q < |s| && s[q] == m then
        var closeRun := Run(s[q..], c => c == m);
        var close := if closeRun < 3 then closeRun else 3;
        s[open..q] + StripEmphasis(s[q + close..], m)
      else if open >= 2 then StripEmphasis(s[run..], m)
      else [s[0]] + StripEmphasis(s[1..], m)
  }

  /** The ranges `_stripMarkdown`'s emoji pattern removes. */
  predicate IsEmoji(c: char) {
    || ('\U{1F300}' <= c <= '\U{1F9FF}') || ('\U{2600}' <= c <= '\U{26FF}')
    || ('\U{2700}' <= c <= '\U{27BF}') || ('\U{FE00}' <= c <= '\U{FE0F}')
    || ('\U{1FA00}' <= c <= '\U{1FA9F}')
  }

  /** The emoji pattern replaced by nothing throughout. */
  function RemoveEmoji(s: string): (r: string)
    ensures forall x :: x in r ==> x in s && !IsEmoji(x)
  {
    if s == [] then []
    else (if IsEmoji(s[0]) then [] else [s[0]]) + RemoveEmoji(s[1..])
  }

  /** `^\d+[.)]\s+` removed: a leading number such as `1.` or `2)` followed by white space. */
  function StripNumbering(s: string): (r: string)
    ensures forall x :: x in r ==> x in s
  {
    var d := Run(s, c => '0' <= c <= '9');
    if d >= 1 && d + 1 < |s| && (s[d] == '.' || s[d] == ')') && IsSpace(s[d + 1])
    then s[d + 1 + Run(s[d + 1..], c => IsSpace(c))..]
    else s
  }

  predicate IsBulletMark(c: char) {
    c == '-' || c == '\U{2013}' || c == '\U{2014}' || c == '\U{2022}' || c == '*' || c == '+'
  }

  /** `^[-–—•*+]\s+` removed: a leading bullet followed by white space. */
  function StripBullet(s: string): (r: string)
    ensures forall x :: x in r ==> x in s
  {
    if |s| >= 2 && IsBulletMark(s[0]) && IsSpace(s[1]) then s[1 + Run(s[1..], c => IsSpace(c))..] else s
  }

  /** The opening and closing question and exclamation marks `¿ ? ¡ !`. */
  predicate IsDecorativePunctuation(c: char) {
    c == '\U{BF}' || c == '?' || c == '\U{A1}' || c == '!'
  }

  /** `[¿?¡!]` replaced by nothing throughout. */
  function RemovePunctuation(s: string): (r: string)
    ensures forall x :: x in r ==> x in s && !IsDecorativePunctuation(x)
  {
    if s == [] then []
    else (if IsDecorativePunctuation(s[0]) then [] else [s[0]]) + RemovePunctuation(s[1..])
  }

  predicate IsColon(c: char) {
    c == ':' || c == '\U{FF1A}'
  }

  /** `[:：]\s*$` removed: a colon that only white space follows, with that white space. */
  function StripTrailingColon(s: string): (r: string)
    ensures r <= s
  {
    var t := |s| - RunBack(s, c => IsSpace(c));
    if t > 0 && IsColon(s[t - 1]) then s[..t - 1] else s
  }

  /** `\s+` replaced by one space throughout. */
  function CollapseSpaces(s: string): (r: string)
    ensures forall i :: 0 <= i && i + 1 < |r| ==> !(IsSpace(r[i]) && IsSpace(r[i + 1]))
    ensures forall x :: x in r ==> x in s || x == ' '
    ensures |s| > 0 ==> |r| > 0 && (IsSpace(r[0]) <==> IsSpace(s[0]))
    ensures Undecorated(s) ==> Undecorated(r)
  {
    if s == [] then []
    else if IsSpace(s[0]) then
      var k := Run(s, c => IsSpace(c));
      var rest := CollapseSpaces(s[k..]);
      assert forall x :: x in rest ==> x in s || x == ' ' by {
        forall x | x in s[k..] ensures x in s { }
      }
      [' '] + rest
    else
      var rest := CollapseSpaces(s[1..]);
      [s[0]] + rest
  }

  /** No two neighbouring characters are white space. */
  predicate NoDoubleSpace(s: string) {
    forall i :: 0 <= i && i + 1 < |s| ==> !(IsSpace(s[i]) && IsSpace(s[i + 1]))
  }

  /** White space is single and never at either end. */
  predicate IsTidy(s: string) {
    && NoDoubleSpace(s)
    && (s == [] || (!IsSpace(s[0]) && !IsSpace(s[|s| - 1])))
  }

  /** No `¿?¡!` and no emoji. */
  predicate Undecorated(s: string) {
    forall i :: 0 <= i < |s| ==> !IsDecorativePunctuation(s[i]) && !IsEmoji(s[i])
  }

  /**
   * The last three replacements and the final `trim`: they bring in no
   * character but the space, and leave no doubled or surrounding white
   * space.
   */
  function Tidy(s: string): (r: string)
    ensures Undecorated(s) ==> Undecorated(r)
    ensures IsTidy(r)
  {
    var c := StripTrailingColon(s);
    var t := CollapseSpaces(c);
    SliceKeeps(s, 0, |c|);
    assert s[0..|c|] == c;
    assert NoDoubleSpace(t);
    TrimKeeps(t);
    Trim(t)
  }

  /** Trimming a text without doubled white space makes it tidy, and adds no decoration. */
  lemma TrimKeeps(t: string)
    requires NoDoubleSpace(t)
    ensures IsTidy(Trim(t))
    ensures Undecorated(t) ==> Undecorated(Trim(t))
  {
    var a := TrimOffset(t);
    SliceKeeps(t, a, a + |Trim(t)|);
  }

  /** A slice of a text with no decoration or doubled white space has none either. */
  lemma SliceKeeps(t: string, a: nat, b: nat)
    requires a <= b <= |t|
    ensures Undecorated(t) ==> Undecorated(t[a..b])
    ensures NoDoubleSpace(t) ==> NoDoubleSpace(t[a..b])
  {
    assert forall i :: 0 <= i < b - a ==> t[a..b][i] == t[a + i];
  }

  /**
   * The middle replacements: emoji, a leading number, a leading bullet and
   * `¿?¡!`. No emoji and no `¿?¡!` is left.
   */
  function StripSymbols(s: string): (r: string)
    ensures Undecorated(r)
  {
    var e := RemoveEmoji(s);
    var r := RemovePunctuation(StripBullet(StripNumbering(e)));
    assert forall i :: 0 <= i < |r| ==> r[i] in r;
    r
  }

  /**
   * `_stripMarkdown`: a line stripped of heading, emphasis, emoji, numbering
   * and bullet markers, of `¿?¡!`, of a trailing colon, with white space
   * collapsed and trimmed. Whatever the line, the result holds no `¿?¡!`,
   * no emoji, no two neighbouring white-space characters and no white space
   * at either end.
   */
  function StripMarkdown(line: string): (r: string)
    ensures Undecorated(r)
    ensures IsTidy(r)
  {
    var emphasisFree := StripEmphasis(StripEmphasis(StripHeading(line), '*'), '_');
    Tidy(StripSymbols(emphasisFree))
  }
  /**
   * A character every replacement of `_stripMarkdown` leaves alone wherever
   * it stands: no emphasis marker, emoji or `¿?¡!`, and no white space but
   * the plain space.
   */
  predicate IsPlainChar(c: char) {
    c != '*' && c != '_' && !IsEmoji(c) && !IsDecorativePunctuation(c) && (IsSpace(c) ==> c == ' ')
  }

  /**
   * A line `_stripMarkdown` returns unchanged: plain characters, no two
   * spaces in a row, no white space or colon at the end, and no heading,
   * number or bullet marker at the start.
   */
  predicate IsPlainLine(s: string) {
    && s != []
    && (forall i :: 0 <= i < |s| ==> IsPlainChar(s[i]))
    && (forall i :: 0 <= i && i + 1 < |s| ==> s[i] != ' ' || s[i + 1] != ' ')
    && !IsSpace(s[0]) && !IsSpace(s[|s| - 1]) && !IsColon(s[|s| - 1])
    && s[0] != '#' && !('0' <= s[0] <= '9') && !IsBulletMark(s[0])
  }

  /** A plain line is left as it is by every step of `_stripMarkdown`. */
  lemma StripMarkdownPlain(s: string)
    requires IsPlainLine(s)
    ensures StripMarkdown(s) == s
  {
    LeadingMarkersAbsent(s);
    EmphasisAbsent(s, '*');
    EmphasisAbsent(s, '_');
    EmojiAbsent(s);
    PunctuationAbsent(s);
    assert StripSymbols(s) == s;
    TidyPlain(s);
  }

  /** A line without heading, number or bullet marker at its start keeps its start. */
  lemma LeadingMarkersAbsent(s: string)
    requires s != [] && s[0] != '#' && !('0' <= s[0] <= '9') && !IsBulletMark(s[0])
    ensures StripHeading(s) == s && StripNumbering(s) == s && StripBullet(s) == s
  {
    assert Run(s, c => c == '#') == 0;
    assert Run(s, c => '0' <= c <= '9') == 0;
  }

  /** The final clean-up changes nothing on a plain line. */
  lemma TidyPlain(s: string)
    requires IsPlainLine(s)
    ensures Tidy(s) == s
  {
    assert RunBack(s, c => IsSpace(c)) == 0;
    assert StripTrailingColon(s) == s;
    forall i | 0 <= i && i + 1 < |s| ensures !(IsSpace(s[i]) && IsSpace(s[i + 1])) {
      assert IsPlainChar(s[i]) && IsPlainChar(s[i + 1]);
    }
    CollapseSingleSpaces(s);
    TrimNoOp(s);
  }

  /** Emphasis stripping changes nothing on a line without its marker. */
  lemma {:induction false} EmphasisAbsent(s: string, m: char)
    requires forall i :: 0 <= i < |s| ==> s[i] != m
    ensures StripEmphasis(s, m) == s
  {
    if s != [] {
      EmphasisAbsent(s[1..], m);
    }
  }

  /** Emoji removal changes nothing on a line without emoji. */
  lemma {:induction false} EmojiAbsent(s: string)
    requires forall i :: 0 <= i < |s| ==> !IsEmoji(s[i])
    ensures RemoveEmoji(s) == s
  {
    if s != [] {
      EmojiAbsent(s[1..]);
    }
  }

  /** Punctuation removal changes nothing on a line without `¿?¡!`. */
  lemma {:induction false} PunctuationAbsent(s: string)
    requires forall i :: 0 <= i < |s| ==> !IsDecorativePunctuation(s[i])
    ensures RemovePunctuation(s) == s
  {
    if s != [] {
      PunctuationAbsent(s[1..]);
    }
  }

  /** Collapsing changes nothing when all white space is single plain spaces. */
  lemma {:induction false} CollapseSingleSpaces(s: string)
    requires NoDoubleSpace(s)
    requires forall i :: 0 <= i < |s| ==> IsSpace(s[i]) ==> s[i] == ' '
    ensures CollapseSpaces(s) == s
  {
    if s != [] {
      CollapseSingleSpaces(s[1..]);
      if IsSpace(s[0]) {
        assert Run(s, c => IsSpace(c)) == 1 by {
          assert |s| == 1 || !IsSpace(s[1..][0]);
        }
      }
    }
  }
}
