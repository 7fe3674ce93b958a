/**
 * The JavaScript string built-ins the leaflet application relies on, over
 * strings of Unicode scalar values: white space as `\s` and `trim` see it,
 * `trim`, `split` on one character, `join`, `includes`, `toLowerCase` and
 * the UTF-16 `length`.
 */
module JsText {

  /** The characters `\s` matches in a JavaScript regular expression and `trim` removes. */
  predicate IsSpace(c: char) {
    || c == '\t' || c == '\n' || c == '\U{B}' || c == '\U{C}' || c == '\r' || c == ' '
    || c == '\U{A0}' || c == '\U{1680}' || ('\U{2000}' <= c <= '\U{200A}')
    || c == '\U{2028}' || c == '\U{2029}' || c == '\U{202F}' || c == '\U{205F}'
    || c == '\U{3000}' || c == '\U{FEFF}'
  }

  /** The characters `.` refuses to match in a JavaScript regular expression. */
  predicate IsLineTerminator(c: char) {
    c == '\n' || c == '\r' || c == '\U{2028}' || c == '\U{2029}'
  }

  predicate IsBlank(s: string) {
    forall i :: 0 <= i < |s| ==> IsSpace(s[i])
  }

  /** The length of the longest prefix of `s` whose characters all satisfy `p`. */
  function Run(s: string, p: char -> bool): (k: nat)
    ensures k <= |s|
    ensures forall i :: 0 <= i < k ==> p(s[i])
    ensures k == |s| || !p(s[k])
  {
    if s != [] && p(s[0]) then 1 + Run(s[1..], p) else 0
  }

  /** The length of the longest suffix of `s` whose characters all satisfy `p`. */
  function RunBack(s: string, p: char -> bool): (k: nat)
    ensures k <= |s|
    ensures forall i :: |s| - k <= i < |s| ==> p(s[i])
    ensures k == |s| || !p(s[|s| - 1 - k])
  {
    if s != [] && p(s[|s| - 1]) then 1 + RunBack(s[..|s| - 1], p) else 0
  }

  /** Where `Trim(s)` begins inside `s`. */
  function TrimOffset(s: string): nat {
    Run(s, c => IsSpace(c))
  }

  /**
   * `String.prototype.trim`: the slice of `s` left after removing the white
   * space at both ends.
   */
  function Trim(s: string): (r: string)
    ensures TrimOffset(s) + |r| <= |s| && r == s[TrimOffset(s)..TrimOffset(s) + |r|]
    ensures IsBlank(s[..TrimOffset(s)]) && IsBlank(s[TrimOffset(s) + |r|..])
    ensures r == [] || (!IsSpace(r[0]) && !IsSpace(r[|r| - 1]))
    ensures r == [] <==> IsBlank(s)
  {
    var a := TrimOffset(s);
    var t := s[a..];
    var b := RunBack(t, c => IsSpace(c));
    TrimEmpty(s, a, b);
    t[..|t| - b]
  }

  /** The trimmed slice is empty exactly when the text is blank. */
  lemma TrimEmpty(s: string, a: nat, b: nat)
    requires a == TrimOffset(s) && b == RunBack(s[a..], c => IsSpace(c))
    ensures a + b <= |s|
    ensures a + b == |s| <==> IsBlank(s)
  {
    if a < |s| {
      assert s[a..][0] == s[a];
    }
  }

  /** Trimming twice changes nothing more than trimming once. */
  lemma TrimIdempotent(s: string)
    ensures Trim(Trim(s)) == Trim(s)
  {
    var r := Trim(s);
    if r != [] {
      assert TrimOffset(r) == 0;
    }
  }

  /** A text with no white space at either end is its own `trim`. */
  lemma TrimNoOp(s: string)
    requires s == [] || (!IsSpace(s[0]) && !IsSpace(s[|s| - 1]))
    ensures Trim(s) == s
  {
    if s != [] {
      assert TrimOffset(s) == 0;
    }
  }

  /** `Array.prototype.join`: the parts with `glue` between neighbours. */
  function Join(parts: seq<string>, glue: string): string {
    if parts == [] then []
    else if |parts| == 1 then parts[0]
    else parts[0] + glue + Join(parts[1..], glue)
  }

  /**
   * `String.prototype.split` on one character: the maximal runs of
   * non-separator characters, empty runs included, so that joining them back
   * with the separator gives the input.
   */
  function Split(s: string, sep: char): (parts: seq<string>)
    ensures |parts| >= 1
    ensures forall i :: 0 <= i < |parts| ==> sep !in parts[i]
    ensures Join(parts, [sep]) == s
  {
    if s == [] then [[]]
    else
      var rest := Split(s[1..], sep);
      if s[0] == sep then
        assert Join([[]] + rest, [sep]) == [sep] + Join(rest, [sep]);
        [[]] + rest
      else
        var parts := [[s[0]] + rest[0]] + rest[1..];
        assert |rest| > 1 ==> Join(rest, [sep]) == rest[0] + [sep] + Join(rest[1..], [sep]);
        assert parts[1..] == rest[1..];
        parts
  }

  /** Splitting undoes joining, when no part holds the separator. */
  lemma {:induction false} SplitJoin(parts: seq<string>, sep: char)
    requires |parts| >= 1
    requires forall i :: 0 <= i < |parts| ==> sep !in parts[i]
    ensures Split(Join(parts, [sep]), sep) == parts
    decreases |parts|, |parts[0]|
  {
    var p := parts[0];
    if p == [] {
      if |parts| > 1 {
        SplitJoin(parts[1..], sep);
        assert Join(parts, [sep]) == [sep] + Join(parts[1..], [sep]);
        assert [[]] + parts[1..] == parts;
      }
    } else {
      var tail := [p[1..]] + parts[1..];
      SeparatorFreeTail(parts, sep);
      SplitJoin(tail, sep);
      JoinConsHead(p[0], tail, [sep]);
      assert [p[0]] + tail[0] == p && tail[1..] == parts[1..];
      assert [[p[0]] + tail[0]] + tail[1..] == parts;
      var s := Join(parts, [sep]);
      assert s[0] == p[0] && p[0] != sep;
      assert s[1..] == Join(tail, [sep]);
      var rest := Split(s[1..], sep);
      assert rest == tail;
      assert Split(s, sep) == [[s[0]] + rest[0]] + rest[1..];
    }
  }

  /** Dropping the first character of the first part keeps every part free of the separator. */
  lemma SeparatorFreeTail(parts: seq<string>, sep: char)
    requires |parts| >= 1 && parts[0] != []
    requires forall i :: 0 <= i < |parts| ==> sep !in parts[i]
    ensures forall i :: 0 <= i < |[parts[0][1..]] + parts[1..]| ==> sep !in ([parts[0][1..]] + parts[1..])[i]
  {
    var tail := [parts[0][1..]] + parts[1..];
    forall i | 0 <= i < |tail| ensures sep !in tail[i] {
      if i == 0 {
        assert forall x :: x in parts[0][1..] ==> x in parts[0];
      } else {
        assert tail[i] == parts[i];
      }
    }
  }

  /** A character in front of the first part goes in front of the join. */
  lemma JoinConsHead(c: char, parts: seq<string>, glue: string)
    requires |parts| >= 1
    ensures Join([[c] + parts[0]] + parts[1..], glue) == [c] + Join(parts, glue)
  {
    var longer := [[c] + parts[0]] + parts[1..];
    assert longer[1..] == parts[1..];
  }

  /** The occurrence of `w` inside `s` at position `i`. */
  predicate OccursAt(s: string, w: string, i: nat) {
    i + |w| <= |s| && s[i..i + |w|] == w
  }

  /** A text occurs where it stands between two others. */
  lemma OccursBetween(a: string, w: string, b: string)
    ensures OccursAt(a + w + b, w, |a|)
  {
    assert (a + w + b)[|a|..|a| + |w|] == w;
  }

  /** `String.prototype.includes`: `w` occurs somewhere inside `s`. */
  function Contains(s: string, w: string): (b: bool)
    ensures b <==> exists i: nat :: OccursAt(s, w, i)
  {
    if w <= s then
      assert OccursAt(s, w, 0);
      true
    else if s == [] then
      assert w != [];
      false
    else
      var b := Contains(s[1..], w);
      assert forall i: nat :: OccursAt(s[1..], w, i) <==> OccursAt(s, w, i + 1) by {
        forall i: nat ensures OccursAt(s[1..], w, i) <==> OccursAt(s, w, i + 1) {
          if i + 1 + |w| <= |s| {
            assert s[1..][i..i + |w|] == s[i + 1..i + 1 + |w|];
          }
        }
      }
      assert !OccursAt(s, w, 0);
      assert b ==> exists i: nat :: OccursAt(s, w, i) by {
        if b {
          var i: nat :| OccursAt(s[1..], w, i);
          assert OccursAt(s, w, i + 1);
        }
      }
      assert (exists i: nat :: OccursAt(s, w, i)) ==> b by {
        if exists i: nat :: OccursAt(s, w, i) {
          var i: nat :| OccursAt(s, w, i);
          assert i != 0;
          assert OccursAt(s[1..], w, i - 1);
        }
      }
      b
  }

  /**
   * `toLowerCase` on the letters it changes in ASCII and Latin-1: A-Z and
   * U+00C0-U+00DE except the multiplication sign U+00D7.
   */
  function LowerChar(c: char): char {
    if 'A' <= c <= 'Z' || ('\U{C0}' <= c <= '\U{DE}' && c != '\U{D7}') then (c as int + 32) as char
    else c
  }

  function ToLowerCase(s: string): (r: string)
    ensures |r| == |s|
    ensures forall i :: 0 <= i < |s| ==> r[i] == LowerChar(s[i])
  {
    seq(|s|, i requires 0 <= i < |s| => LowerChar(s[i]))
  }

  /** Lower-casing is idempotent: its result has no letter left to lower. */
  lemma ToLowerCaseIdempotent(s: string)
    ensures ToLowerCase(ToLowerCase(s)) == ToLowerCase(s)
  {
    forall i | 0 <= i < |s| ensures LowerChar(LowerChar(s[i])) == LowerChar(s[i]) {
    }
  }

  /** Lower-casing distributes over concatenation. */
  lemma ToLowerCaseAppend(a: string, b: string)
    ensures ToLowerCase(a + b) == ToLowerCase(a) + ToLowerCase(b)
  {
  }

  /** Lower-casing leaves a text without capitals as it is. */
  lemma ToLowerCaseNoCapitals(s: string)
    requires forall i :: 0 <= i < |s| ==> !('A' <= s[i] <= 'Z') && s[i] < '\U{C0}'
    ensures ToLowerCase(s) == s
  {
  }

  /** Lower-casing turns ASCII capitals and spaces into lower-case letters and spaces, one by one. */
  lemma ToLowerCaseAsciiCapitals(s: string)
    requires forall i :: 0 <= i < |s| ==> 'A' <= s[i] <= 'Z' || s[i] == ' '
    ensures forall i :: 0 <= i < |s| ==> ToLowerCase(s)[i] == if s[i] == ' ' then ' ' else (s[i] as int + 32) as char
  {
  }

  /** A keyword holding a letter whose lower case is absent from `s` does not occur in `s` once lowered. */
  lemma LetterAbsent(s: string, w: string, k: nat)
    requires k < |w| && LowerChar(w[k]) !in s
    ensures !Contains(s, ToLowerCase(w))
  {
  }

  /**
   * When the lower case of the keyword's letter `k` occurs in `s` only as
   * the `x` between `a` and `b`, the keyword can only occur where that
   * letter lines up with `x`; if it does not occur there, it occurs nowhere.
   */
  lemma LetterOnce(s: string, w: string, k: nat, a: string, x: char, b: string)
    requires s == a + [x] + b && k < |w|
    requires LowerChar(w[k]) !in a && LowerChar(w[k]) !in b
    requires |a| < k || !OccursAt(s, ToLowerCase(w), |a| - k)
    ensures !Contains(s, ToLowerCase(w))
  {
  }

  /** The number of UTF-16 code units of `s`: JavaScript's `length`. */
  function Utf16Length(s: string): (n: nat)
    ensures |s| <= n <= 2 * |s|
  {
    if s == [] then 0 else (if s[0] as int > 0xFFFF then 2 else 1) + Utf16Length(s[1..])
  }
}
