/**
 * `UI._escapeAttr` (js/ui.js): the escaping of a value before it is placed
 * inside an HTML attribute. The method chains five global replacements,
 * `&` first; this module models the chain as written and shows that it is
 * the per-character entity map, that it leaves no quote or angle bracket,
 * that every `&` it leaves begins an entity, and that decoding the entities
 * gives the input back.
 */
module Escape {
  import opened Wrappers
  import opened JsText

  /** `s.replace(/c/g, rep)`: every occurrence of the character `c` replaced by `rep`. */
  function ReplaceChar(s: string, c: char, rep: string): (r: string)
    ensures c !in rep ==> c !in r
    ensures forall x :: x in r ==> x in s || x in rep
  {
    if s == [] then []
    else (if s[0] == c then rep else [s[0]]) + ReplaceChar(s[1..], c, rep)
  }

  /** Replacing in a concatenation replaces in each part. */
  lemma {:induction false} ReplaceCharAppend(a: string, b: string, c: char, rep: string)
    ensures ReplaceChar(a + b, c, rep) == ReplaceChar(a, c, rep) + ReplaceChar(b, c, rep)
  {
    if a != [] {
      ReplaceCharAppend(a[1..], b, c, rep);
      assert (a + b)[0] == a[0] && (a + b)[1..] == a[1..] + b;
    } else {
      assert a + b == b;
    }
  }

  /** The five replacements in `_escapeAttr`'s order: `&`, `"`, `'`, `<`, `>`. */
  function Chain(s: string): string {
    var amp := ReplaceChar(s, '&', "&amp;");
    var quot := ReplaceChar(amp, '"', "&quot;");
    var apos := ReplaceChar(quot, '\'', "&#39;");
    var lt := ReplaceChar(apos, '<', "&lt;");
    ReplaceChar(lt, '>', "&gt;")
  }

  /** `_escapeAttr`: a missing value or the empty string escapes to the empty string. */
  function EscapeAttr(text: Option<string>): (r: string)
    ensures text == None || text == Some([]) ==> r == []
    ensures forall i :: 0 <= i < |r| ==> !IsMarkup(r[i])
  {
    var s := if text.Some? then text.value else [];
    var r := Chain(s);
    ChainIsPerCharacter(s);
    EscapeEachHasNoMarkup(s);
    r
  }

  /** The characters whose escape is not themselves. */
  predicate IsSpecial(c: char) {
    c == '&' || c == '"' || c == '\'' || c == '<' || c == '>'
  }

  /** The characters an escaped value never holds. */
  predicate IsMarkup(c: char) {
    c == '"' || c == '\'' || c == '<' || c == '>'
  }

  /** The escape of one character: its entity when it is special, itself otherwise. */
  function Entity(c: char): (e: string)
    ensures |e| >= 1
    ensures |e| == 1 <==> !IsSpecial(c)
  {
    match c
    case '&' => "&amp;"
    case '"' => "&quot;"
    case '\'' => "&#39;"
    case '<' => "&lt;"
    case '>' => "&gt;"
    case _ => [c]
  }

  /** The reference escaper: the entities of the characters, in order. */
  function EscapeEach(s: string): string {
    if s == [] then [] else Entity(s[0]) + EscapeEach(s[1..])
  }

  /** A replacement of a character the text does not hold changes nothing. */
  lemma {:induction false} ReplaceCharAbsent(s: string, c: char, rep: string)
    requires c !in s
    ensures ReplaceChar(s, c, rep) == s
  {
    if s != [] {
      assert s[0] != c;
      ReplaceCharAbsent(s[1..], c, rep);
    }
  }

  /** A one-character text is replaced by `rep` when it is `c`. */
  lemma ReplaceCharSingle(x: char, c: char, rep: string)
    ensures ReplaceChar([x], c, rep) == if x == c then rep else [x]
  {
    assert [x][0] == x && [x][1..] == [];
  }

  /** The replacements after the one that brings in `e` leave `e` alone. */
  lemma LaterReplacementsKeep(e: string, from: nat)
    requires 1 <= from <= 5
    requires from <= 1 ==> '"' !in e
    requires from <= 2 ==> '\'' !in e
    requires from <= 3 ==> '<' !in e
    requires '>' !in e
    ensures from <= 1 ==> ReplaceChar(e, '"', "&quot;") == e
    ensures from <= 2 ==> ReplaceChar(e, '\'', "&#39;") == e
    ensures from <= 3 ==> ReplaceChar(e, '<', "&lt;") == e
    ensures from <= 4 ==> ReplaceChar(e, '>', "&gt;") == e
  {
    if from <= 1 { ReplaceCharAbsent(e, '"', "&quot;"); }
    if from <= 2 { ReplaceCharAbsent(e, '\'', "&#39;"); }
    if from <= 3 { ReplaceCharAbsent(e, '<', "&lt;"); }
    if from <= 4 { ReplaceCharAbsent(e, '>', "&gt;"); }
  }

  /** The chain on one character gives that character's entity: no entity is escaped again. */
  lemma ChainOfChar(c: char)
    ensures Chain([c]) == Entity(c)
  {
    ReplaceCharSingle(c, '&', "&amp;");
    ReplaceCharSingle(c, '"', "&quot;");
    ReplaceCharSingle(c, '\'', "&#39;");
    ReplaceCharSingle(c, '<', "&lt;");
    ReplaceCharSingle(c, '>', "&gt;");
    var e := Entity(c);
    if c == '&' {
      LaterReplacementsKeep(e, 1);
    } else if c == '"' {
      LaterReplacementsKeep(e, 2);
    } else if c == '\'' {
      LaterReplacementsKeep(e, 3);
    } else if c == '<' {
      LaterReplacementsKeep(e, 4);
    }
  }

  /** The chain of replacements is exactly the per-character entity map. */
  lemma {:induction false} ChainIsPerCharacter(s: string)
    ensures Chain(s) == EscapeEach(s)
  {
    if s != [] {
      var head, rest := [s[0]], s[1..];
      assert s == head + rest;
      ReplaceCharAppend(head, rest, '&', "&amp;");
      var a1, a2 := ReplaceChar(head, '&', "&amp;"), ReplaceChar(rest, '&', "&amp;");
      ReplaceCharAppend(a1, a2, '"', "&quot;");
      var b1, b2 := ReplaceChar(a1, '"', "&quot;"), ReplaceChar(a2, '"', "&quot;");
      ReplaceCharAppend(b1, b2, '\'', "&#39;");
      var c1, c2 := ReplaceChar(b1, '\'', "&#39;"), ReplaceChar(b2, '\'', "&#39;");
      ReplaceCharAppend(c1, c2, '<', "&lt;");
      var d1, d2 := ReplaceChar(c1, '<', "&lt;"), ReplaceChar(c2, '<', "&lt;");
      ReplaceCharAppend(d1, d2, '>', "&gt;");
      ChainOfChar(s[0]);
      ChainIsPerCharacter(rest);
    }
  }

  /** No quote and no angle bracket survives escaping. */
  lemma {:induction false} EscapeEachHasNoMarkup(s: string)
    ensures forall i :: 0 <= i < |EscapeEach(s)| ==> !IsMarkup(EscapeEach(s)[i])
  {
    if s != [] {
      EscapeEachHasNoMarkup(s[1..]);
      var e, r := Entity(s[0]), EscapeEach(s[1..]);
      assert forall i :: 0 <= i < |e| ==> !IsMarkup(e[i]);
      assert forall i :: |e| <= i < |e| + |r| ==> (e + r)[i] == r[i - |e|];
    }
  }

  /** One of the five entity strings begins at position `i` of `r`. */
  predicate StartsEntity(r: string, i: nat) {
    || OccursAt(r, "&amp;", i) || OccursAt(r, "&quot;", i) || OccursAt(r, "&#39;", i)
    || OccursAt(r, "&lt;", i) || OccursAt(r, "&gt;", i)
  }

  /** An occurrence stays one when text is put in front. */
  lemma OccursAfterPrefix(a: string, b: string, w: string, i: nat)
    requires OccursAt(b, w, i)
    ensures OccursAt(a + b, w, |a| + i)
  {
    assert (a + b)[|a| + i..|a| + i + |w|] == b[i..i + |w|];
  }

  /** An entity stays one when text is put in front. */
  lemma StartsEntityAfterPrefix(a: string, b: string, j: nat)
    requires StartsEntity(b, j)
    ensures StartsEntity(a + b, |a| + j)
  {
    if OccursAt(b, "&amp;", j) { OccursAfterPrefix(a, b, "&amp;", j); }
    else if OccursAt(b, "&quot;", j) { OccursAfterPrefix(a, b, "&quot;", j); }
    else if OccursAt(b, "&#39;", j) { OccursAfterPrefix(a, b, "&#39;", j); }
    else if OccursAt(b, "&lt;", j) { OccursAfterPrefix(a, b, "&lt;", j); }
    else { OccursAfterPrefix(a, b, "&gt;", j); }
  }

  /** The only `&` of a character's escape is the first character of an entity. */
  lemma EntityAmpersandAtStart(c: char, r: string, i: nat)
    requires i < |Entity(c)| && Entity(c)[i] == '&'
    ensures StartsEntity(Entity(c) + r, i)
  {
    var e := Entity(c);
    assert i == 0 && IsSpecial(c);
    assert (e + r)[..|e|] == e;
  }

  /** Every `&` of an escaped value begins an entity. */
  lemma {:induction false} AmpersandsBeginEntities(s: string)
    ensures forall i :: 0 <= i < |EscapeEach(s)| && EscapeEach(s)[i] == '&' ==> StartsEntity(EscapeEach(s), i)
  {
    if s != [] {
      AmpersandsBeginEntities(s[1..]);
      var e, r := Entity(s[0]), EscapeEach(s[1..]);
      assert EscapeEach(s) == e + r;
      forall i | 0 <= i < |e + r| && (e + r)[i] == '&' ensures StartsEntity(e + r, i) {
        if i < |e| {
          EntityAmpersandAtStart(s[0], r, i);
        } else {
          assert r[i - |e|] == '&';
          StartsEntityAfterPrefix(e, r, i - |e|);
        }
      }
    }
  }

  /** Escaping never shortens, and keeps the length exactly when nothing needs escaping. */
  lemma {:induction false} EscapeEachLength(s: string)
    ensures |EscapeEach(s)| >= |s|
    ensures |EscapeEach(s)| == |s| <==> forall i :: 0 <= i < |s| ==> !IsSpecial(s[i])
  {
    if s != [] {
      EscapeEachLength(s[1..]);
      assert forall i :: 1 <= i < |s| ==> s[i] == s[1..][i - 1];
    }
  }

  /** Decoding of the five entities, the inverse of escaping. */
  function Unescape(r: string): string
    decreases |r|
  {
    if r == [] then []
    else if "&amp;" <= r then ['&'] + Unescape(r[5..])
    else if "&quot;" <= r then ['"'] + Unescape(r[6..])
    else if "&#39;" <= r then ['\''] + Unescape(r[5..])
    else if "&lt;" <= r then ['<'] + Unescape(r[4..])
    else if "&gt;" <= r then ['>'] + Unescape(r[4..])
    else [r[0]] + Unescape(r[1..])
  }

  /** Decoding reads back one character's escape and goes on after it. */
  lemma UnescapeEntity(c: char, r: string)
    ensures Unescape(Entity(c) + r) == [c] + Unescape(r)
  {
    var e := Entity(c);
    var t := e + r;
    assert t[|e|..] == r;
    assert e <= t;
    assert t[0] == e[0];
    if IsSpecial(c) {
      assert t[1] == e[1];
      assert "&amp;"[1] == 'a' && "&quot;"[1] == 'q' && "&#39;"[1] == '#' && "&lt;"[1] == 'l';
    } else {
      assert "&amp;"[0] == '&' && "&quot;"[0] == '&' && "&#39;"[0] == '&' && "&lt;"[0] == '&' && "&gt;"[0] == '&';
      assert t[1..] == r;
    }
  }

  /** Decoding undoes escaping. */
  lemma {:induction false} UnescapeEscapeEach(s: string)
    ensures Unescape(EscapeEach(s)) == s
  {
    if s != [] {
      UnescapeEscapeEach(s[1..]);
      UnescapeEntity(s[0], EscapeEach(s[1..]));
    }
  }

  /** Decoding undoes `_escapeAttr` for every present value. */
  lemma EscapeAttrRoundTrip(s: string)
    ensures Unescape(EscapeAttr(Some(s))) == s
    ensures |EscapeAttr(Some(s))| >= |s|
    ensures |EscapeAttr(Some(s))| == |s| <==> forall i :: 0 <= i < |s| ==> !IsSpecial(s[i])
    ensures forall i :: 0 <= i < |EscapeAttr(Some(s))| && EscapeAttr(Some(s))[i] == '&' ==> StartsEntity(EscapeAttr(Some(s)), i)
  {
    ChainIsPerCharacter(s);
    UnescapeEscapeEach(s);
    EscapeEachLength(s);
    AmpersandsBeginEntities(s);
  }
}
