/**
 * The section parser of js/parser.js: it splits pasted plain or Markdown
 * text into the nine fields of a patient leaflet, recognising section titles
 * by keyword, and reports the sections it could not find.
 */
module Parser {
  import opened Wrappers
  import opened JsText
  import opened Markdown

  /** The nine fields of a leaflet, in the order of the pattern table. */
  datatype FieldKey =
    | PrincipioActivo | QueEsParaQue | Administracion | OlvidoDosis | EfectosAdversos
    | Interacciones | Excipientes | Conservacion | Observaciones

  /** A field and the keywords that make a line a title for it, tried in order. */
  datatype SectionPattern = SectionPattern(key: FieldKey, keywords: seq<string>)

  /** `SECTION_PATTERNS`: the order resolves lines that match several fields. */
  const SectionPatterns: seq<SectionPattern> := [
    SectionPattern(PrincipioActivo, ["principio activo", "principio_activo", "nombre del medicamento"]),
    SectionPattern(QueEsParaQue, ["qué es y para qué", "qué es", "para qué se utiliza", "para qué sirve", "indicaciones"]),
    SectionPattern(Administracion, ["administración", "cómo se administra", "cómo tomar", "cómo se toma", "posología", "forma de administración"]),
    SectionPattern(OlvidoDosis, ["olvido de dosis", "olvido dosis", "dosis olvidada", "si olvida", "si se olvida", "qué hacer si se olvida", "qué hacer si olvida"]),
    SectionPattern(EfectosAdversos, ["efectos adversos", "reacciones adversas", "efectos secundarios", "efectos no deseados"]),
    SectionPattern(Interacciones, ["interacciones"]),
    SectionPattern(Excipientes, ["excipientes", "lista de excipientes", "listado de excipientes"]),
    SectionPattern(Conservacion, ["conservación", "cómo se debe conservar", "cómo se conserva", "cómo conservar", "condiciones de conservación", "almacenamiento"]),
    SectionPattern(Observaciones, ["observaciones", "notas importantes", "información adicional", "otras observaciones"])
  ]

  /** The nine fields in table order. */
  const FieldOrder: seq<FieldKey> := [
    PrincipioActivo, QueEsParaQue, Administracion, OlvidoDosis, EfectosAdversos,
    Interacciones, Excipientes, Conservacion, Observaciones
  ]

  /** `SECTION_PATTERNS.map(p => p.key)`: every field once, in table order. */
  function AllKeys(): (keys: seq<FieldKey>)
    ensures keys == FieldOrder
  {
    var keys := seq(|SectionPatterns|, i requires 0 <= i < |SectionPatterns| => SectionPatterns[i].key);
    assert keys == FieldOrder;
    keys
  }

  /** The table order names every field exactly once. */
  lemma FieldOrderExactlyOnce()
    ensures |FieldOrder| == 9
    ensures forall k: FieldKey :: k in FieldOrder
    ensures forall i, j :: 0 <= i < j < |FieldOrder| ==> FieldOrder[i] != FieldOrder[j]
  {
    forall k: FieldKey ensures k in FieldOrder {
      match k
      case PrincipioActivo => assert FieldOrder[0] == k;
      case QueEsParaQue => assert FieldOrder[1] == k;
      case Administracion => assert FieldOrder[2] == k;
      case OlvidoDosis => assert FieldOrder[3] == k;
      case EfectosAdversos => assert FieldOrder[4] == k;
      case Interacciones => assert FieldOrder[5] == k;
      case Excipientes => assert FieldOrder[6] == k;
      case Conservacion => assert FieldOrder[7] == k;
      case Observaciones => assert FieldOrder[8] == k;
    }
  }

  /** `_keyToLabel`: the human-readable name of a field, used in warnings. */
  function KeyToLabel(key: FieldKey): string {
    match key
    case PrincipioActivo => "Principio activo"
    case QueEsParaQue => "¿Qué es y para qué se utiliza?"
    case Conservacion => "Conservación"
    case Administracion => "Administración"
    case OlvidoDosis => "Olvido de dosis"
    case EfectosAdversos => "Efectos adversos"
    case Interacciones => "Interacciones"
    case Excipientes => "Excipientes"
    case Observaciones => "Observaciones"
  }

  /** Different fields have different labels, so no two warnings about missing fields coincide. */
  lemma KeyToLabelInjective(a: FieldKey, b: FieldKey)
    requires a != b
    ensures KeyToLabel(a) != KeyToLabel(b)
  {
    var la, lb := KeyToLabel(a), KeyToLabel(b);
    // Labels of equal length differ in their first character.
    assert |la| != |lb| || la[0] != lb[0];
  }

  // ---------------------------------------------------------------------
  // Title detection: `_matchSectionTitle`
  // ---------------------------------------------------------------------

  /** Some keyword of `keywords`, lower-cased, occurs inside `cleaned`. */
  predicate HasKeyword(cleaned: string, keywords: seq<string>) {
    exists j :: 0 <= j < |keywords| && Contains(cleaned, ToLowerCase(keywords[j]))
  }

  /** The key of the first pattern having a keyword inside `cleaned`. */
  function FirstMatch(cleaned: string, patterns: seq<SectionPattern>): Option<FieldKey> {
    if patterns == [] then None
    else if HasKeyword(cleaned, patterns[0].keywords) then Some(patterns[0].key)
    else FirstMatch(cleaned, patterns[1..])
  }

  /**
   * `FirstMatch` picks the earliest pattern that matches, and finds nothing
   * only when no pattern matches.
   */
  lemma {:induction false} FirstMatchIsEarliest(cleaned: string, patterns: seq<SectionPattern>)
    ensures FirstMatch(cleaned, patterns) == None <==>
              forall p :: 0 <= p < |patterns| ==> !HasKeyword(cleaned, patterns[p].keywords)
    ensures FirstMatch(cleaned, patterns) != None ==>
              exists p :: 0 <= p < |patterns| && patterns[p].key == FirstMatch(cleaned, patterns).value
                          && HasKeyword(cleaned, patterns[p].keywords)
                          && forall q :: 0 <= q < p ==> !HasKeyword(cleaned, patterns[q].keywords)
  {
    if patterns != [] && !HasKeyword(cleaned, patterns[0].keywords) {
      var rest := patterns[1..];
      FirstMatchIsEarliest(cleaned, rest);
      assert forall p :: 1 <= p < |patterns| ==> patterns[p] == rest[p - 1];
      if FirstMatch(cleaned, rest) != None {
        var p :| 0 <= p < |rest| && rest[p].key == FirstMatch(cleaned, rest).value
                 && HasKeyword(cleaned, rest[p].keywords)
                 && forall q :: 0 <= q < p ==> !HasKeyword(cleaned, rest[q].keywords);
        assert patterns[p + 1] == rest[p];
        forall q | 0 <= q < p + 1 ensures !HasKeyword(cleaned, patterns[q].keywords) {
          if q > 0 { assert patterns[q] == rest[q - 1]; }
        }
      }
    }
  }

  /** A title candidate after `_stripMarkdown` and `toLowerCase`. */
  function CleanedTitle(line: string): string {
    ToLowerCase(StripMarkdown(line))
  }

  /**
   * What `_matchSectionTitle` answers for a line: nothing when the cleaned
   * line is empty or longer than 80 UTF-16 code units, otherwise the first
   * pattern (in table order) with a keyword inside it.
   */
  function TitleKey(line: string): Option<FieldKey> {
    var cleaned := CleanedTitle(line);
    if cleaned == [] || Utf16Length(cleaned) > 80 then None
    else FirstMatch(cleaned, SectionPatterns)
  }

  /**
   * `_matchSectionTitle`: patterns in declared order, keywords in declared
   * order, the first keyword found inside the cleaned line decides.
   */
  method MatchSectionTitle(line: string) returns (key: Option<FieldKey>)
    ensures key == TitleKey(line)
    ensures key != None ==> 0 < Utf16Length(CleanedTitle(line)) <= 80
  {
    var cleaned := ToLowerCase(StripMarkdown(line));
    if cleaned == [] || Utf16Length(cleaned) > 80 {
      return None;
    }
    key := FindKey(cleaned, SectionPatterns);
  }

  /** The two nested loops of `_matchSectionTitle`, over a table of patterns. */
  method FindKey(cleaned: string, patterns: seq<SectionPattern>) returns (key: Option<FieldKey>)
    ensures key == FirstMatch(cleaned, patterns)
  {
    for p := 0 to |patterns|
      invariant FirstMatch(cleaned, patterns[p..]) == FirstMatch(cleaned, patterns)
    {
      var pattern := patterns[p];
      for j := 0 to |pattern.keywords|
        invariant forall i :: 0 <= i < j ==> !Contains(cleaned, ToLowerCase(pattern.keywords[i]))
      {
        if Contains(cleaned, ToLowerCase(pattern.keywords[j])) {
          assert patterns[p..][0] == pattern;
          return Some(pattern.key);
        }
      }
      assert patterns[p..][1..] == patterns[p + 1..];
    }
    return None;
  }

  /** When pattern `p` is the first with a keyword in `cleaned`, its field is the match. */
  lemma FirstMatchAt(cleaned: string, patterns: seq<SectionPattern>, p: nat)
    requires p < |patterns| && HasKeyword(cleaned, patterns[p].keywords)
    requires forall q :: 0 <= q < p ==> !HasKeyword(cleaned, patterns[q].keywords)
    ensures FirstMatch(cleaned, patterns) == Some(patterns[p].key)
  {
    FirstMatchIsEarliest(cleaned, patterns);
    var r :| 0 <= r < |patterns| && patterns[r].key == FirstMatch(cleaned, patterns).value
             && HasKeyword(cleaned, patterns[r].keywords)
             && forall q :: 0 <= q < r ==> !HasKeyword(cleaned, patterns[q].keywords);
    assert r == p;
  }

  /**
   * A line without the letters p, q, m and l, and without "indicaciones",
   * matches none of the first four patterns: each of their other keywords
   * holds one of those letters.
   */
  lemma FirstFourPatternsAbsent(cleaned: string)
    requires 'p' !in cleaned && 'q' !in cleaned && 'm' !in cleaned && 'l' !in cleaned
    requires !Contains(cleaned, "indicaciones")
    ensures forall q :: 0 <= q < 4 ==> !HasKeyword(cleaned, SectionPatterns[q].keywords)
  {
    PrincipioActivoAbsent(cleaned);
    QueEsParaQueAbsent(cleaned);
    AdministracionAbsent(cleaned);
    OlvidoDosisAbsent(cleaned);
  }

  /** Each keyword of the first pattern holds a p or an m. */
  lemma PrincipioActivoAbsent(cleaned: string)
    requires 'p' !in cleaned && 'm' !in cleaned
    ensures !HasKeyword(cleaned, SectionPatterns[0].keywords)
  {
    KeywordsAbsent(cleaned, SectionPatterns[0].keywords, [0, 0, 2]);
  }

  /** Each keyword of the third pattern holds an m or a p. */
  lemma AdministracionAbsent(cleaned: string)
    requires 'p' !in cleaned && 'm' !in cleaned
    ensures !HasKeyword(cleaned, SectionPatterns[2].keywords)
  {
    KeywordsAbsent(cleaned, SectionPatterns[2].keywords, [2, 2, 2, 2, 0, 3]);
  }

  /** Each keyword of the fourth pattern holds an l or a q. */
  lemma OlvidoDosisAbsent(cleaned: string)
    requires 'q' !in cleaned && 'l' !in cleaned
    ensures !HasKeyword(cleaned, SectionPatterns[3].keywords)
  {
    KeywordsAbsent(cleaned, SectionPatterns[3].keywords, [1, 1, 7, 4, 7, 0, 0]);
  }

  /** The keywords of the second pattern other than "indicaciones" all begin with q or p. */
  lemma QueEsParaQueAbsent(cleaned: string)
    requires 'p' !in cleaned && 'q' !in cleaned && !Contains(cleaned, "indicaciones")
    ensures !HasKeyword(cleaned, SectionPatterns[1].keywords)
  {
    var keywords := SectionPatterns[1].keywords;
    forall j | 0 <= j < |keywords| ensures !Contains(cleaned, ToLowerCase(keywords[j])) {
      if j < 4 {
        LetterAbsent(cleaned, keywords[j], 0);
      } else {
        ToLowerCaseNoCapitals(keywords[j]);
      }
    }
  }

  /** No keyword occurs when each has a letter `letters[j]` whose lower case `cleaned` lacks. */
  lemma KeywordsAbsent(cleaned: string, keywords: seq<string>, letters: seq<nat>)
    requires |letters| == |keywords|
    requires forall j :: 0 <= j < |keywords| ==> letters[j] < |keywords[j]| && LowerChar(keywords[j][letters[j]]) !in cleaned
    ensures !HasKeyword(cleaned, keywords)
  {
    forall j | 0 <= j < |keywords| ensures !Contains(cleaned, ToLowerCase(keywords[j])) {
      LetterAbsent(cleaned, keywords[j], letters[j]);
    }
  }

  // ---------------------------------------------------------------------
  // Section starts: step 1 of `parseText`
  // ---------------------------------------------------------------------

  predicate IsRuleChar(c: char) {
    c == '-' || c == '*' || c == '_'
  }

  /** `^[-*_]{3,}\s*$`: a Markdown horizontal rule. */
  predicate IsRule(line: string) {
    var r := Run(line, c => IsRuleChar(c));
    r >= 3 && IsBlank(line[r..])
  }

  /** A line that does not begin with `-`, `*` or `_` is not a horizontal rule. */
  lemma NotRule(line: string)
    requires line != [] && !IsRuleChar(line[0])
    ensures !IsRule(line)
  {
  }

  /**
   * The field line `i` is a title for: a blank line or a horizontal rule is
   * never a title, any other line is matched after `trim`.
   */
  function TitleAt(lines: seq<string>, i: nat): Option<FieldKey>
    requires i < |lines|
  {
    var line := Trim(lines[i]);
    if line == [] || IsRule(line) then None else TitleKey(line)
  }

  /** A recorded section title: its line and its field. */
  datatype SectionStart = SectionStart(lineIndex: nat, key: FieldKey)

  /** `sectionStarts.some(s => s.key === key)`. */
  predicate Recorded(starts: seq<SectionStart>, key: FieldKey) {
    exists s :: 0 <= s < |starts| && starts[s].key == key
  }

  /** The title of every line, in order. */
  function Titles(lines: seq<string>): (titles: seq<Option<FieldKey>>)
    ensures |titles| == |lines|
    ensures forall i :: 0 <= i < |lines| ==> titles[i] == TitleAt(lines, i)
  {
    seq(|lines|, i requires 0 <= i < |lines| => TitleAt(lines, i))
  }

  /**
   * The section starts recorded after scanning lines whose titles are
   * `titles`: a title is recorded unless its field already has a start.
   */
  function StartsOf(titles: seq<Option<FieldKey>>): seq<SectionStart> {
    if titles == [] then []
    else
      var n := |titles| - 1;
      var prev := StartsOf(titles[..n]);
      match titles[n]
      case None => prev
      case Some(k) => if Recorded(prev, k) then prev else prev + [SectionStart(n, k)]
  }

  /** Starts on increasing lines of the text, each field at most once. */
  predicate ValidStarts(starts: seq<SectionStart>, lineCount: nat) {
    && (forall s :: 0 <= s < |starts| ==> starts[s].lineIndex < lineCount)
    && (forall s, t :: 0 <= s < t < |starts| ==> starts[s].lineIndex < starts[t].lineIndex)
    && (forall s, t :: 0 <= s < t < |starts| ==> starts[s].key != starts[t].key)
  }

  /** Every start is at a line titled for its field, and at the first such line. */
  predicate FirstTitles(starts: seq<SectionStart>, titles: seq<Option<FieldKey>>) {
    forall s :: 0 <= s < |starts| ==>
      && starts[s].lineIndex < |titles|
      && titles[starts[s].lineIndex] == Some(starts[s].key)
      && forall i :: 0 <= i < starts[s].lineIndex ==> titles[i] != Some(starts[s].key)
  }

  /** Every field some line is titled for has a start. */
  predicate AllTitlesRecorded(starts: seq<SectionStart>, titles: seq<Option<FieldKey>>) {
    forall i :: 0 <= i < |titles| && titles[i] != None ==> Recorded(starts, titles[i].value)
  }

  /** Step 1 records starts on increasing lines, each field at most once. */
  lemma {:induction false} StartsOfValid(titles: seq<Option<FieldKey>>)
    ensures ValidStarts(StartsOf(titles), |titles|)
  {
    if titles != [] {
      var n := |titles| - 1;
      StartsOfValid(titles[..n]);
      var prev := StartsOf(titles[..n]);
      if titles[n] != None && !Recorded(prev, titles[n].value) {
        var starts := StartsOf(titles);
        assert starts == prev + [SectionStart(n, titles[n].value)];
        assert forall s :: 0 <= s < |prev| ==> starts[s] == prev[s];
      }
    }
  }

  /** Step 1 records a field only at the first line titled for it. */
  lemma {:induction false} StartsOfFirstTitles(titles: seq<Option<FieldKey>>)
    ensures FirstTitles(StartsOf(titles), titles)
  {
    if titles != [] {
      var n := |titles| - 1;
      var init := titles[..n];
      StartsOfFirstTitles(init);
      StartsOfAllRecorded(init);
      var prev := StartsOf(init);
      assert forall i :: 0 <= i < n ==> init[i] == titles[i];
      if titles[n] != None && !Recorded(prev, titles[n].value) {
        var k := titles[n].value;
        var starts := StartsOf(titles);
        assert starts == prev + [SectionStart(n, k)];
        forall i | 0 <= i < n ensures titles[i] != Some(k) {
          assert init[i] == titles[i];
        }
      }
    }
  }

  /** Step 1 records every field that some line is titled for. */
  lemma {:induction false} StartsOfAllRecorded(titles: seq<Option<FieldKey>>)
    ensures AllTitlesRecorded(StartsOf(titles), titles)
  {
    if titles != [] {
      var n := |titles| - 1;
      var init := titles[..n];
      StartsOfAllRecorded(init);
      var prev := StartsOf(init);
      var starts := StartsOf(titles);
      assert forall s :: 0 <= s < |prev| ==> starts[s] == prev[s];
      forall i | 0 <= i < |titles| && titles[i] != None ensures Recorded(starts, titles[i].value) {
        if i < n {
          assert init[i] == titles[i];
          var s :| 0 <= s < |prev| && prev[s].key == titles[i].value;
          assert starts[s] == prev[s];
        } else if !Recorded(prev, titles[n].value) {
          assert starts[|prev|].key == titles[n].value;
        }
      }
    }
  }

  /**
   * What step 1 records: title lines only, on strictly increasing lines,
   * each field once, each at the first line titled for it, and every field
   * that has a title line somewhere.
   */
  lemma StartsOfFacts(titles: seq<Option<FieldKey>>)
    ensures ValidStarts(StartsOf(titles), |titles|)
    ensures FirstTitles(StartsOf(titles), titles)
    ensures AllTitlesRecorded(StartsOf(titles), titles)
  {
    StartsOfValid(titles);
    StartsOfFirstTitles(titles);
    StartsOfAllRecorded(titles);
  }

  /** Whether line `i` opens a recorded section. */
  predicate IsStartLine(starts: seq<SectionStart>, i: nat) {
    exists s :: 0 <= s < |starts| && starts[s].lineIndex == i
  }

  /**
   * A line opens a section exactly when it is a title line and no earlier
   * line is a title for the same field: a repeated title stays inside the
   * section before it.
   */
  lemma StartLineIffFirstTitle(titles: seq<Option<FieldKey>>, i: nat)
    requires i < |titles|
    ensures IsStartLine(StartsOf(titles), i) <==>
              titles[i] != None && forall j :: 0 <= j < i ==> titles[j] != titles[i]
  {
    var starts := StartsOf(titles);
    StartsOfFacts(titles);
    if titles[i] != None && forall j :: 0 <= j < i ==> titles[j] != titles[i] {
      var k := titles[i].value;
      var s :| 0 <= s < |starts| && starts[s].key == k;
      var li := starts[s].lineIndex;
      assert titles[li] == Some(k) && titles[i] == Some(k);
      assert li == i;
    }
  }

  // ---------------------------------------------------------------------
  // Section content: step 2 of `parseText`
  // ---------------------------------------------------------------------

  /** The line where section `s` stops: the next recorded title, or the end of the text. */
  function SectionEnd(starts: seq<SectionStart>, s: nat, lineCount: nat): nat
    requires s < |starts|
  {
    if s + 1 < |starts| then starts[s + 1].lineIndex else lineCount
  }

  /**
   * `_cleanContent`: empty text stays empty; otherwise the Markdown
   * rewriting (`rewrite`, whose regular expressions are not modelled) and a
   * final `trim`.
   */
  function CleanContent(rewrite: string -> string, text: string): (r: string)
    ensures text == [] ==> r == []
    ensures Trim(r) == r
  {
    if text == [] then []
    else
      var r := Trim(rewrite(text));
      TrimIdempotent(rewrite(text));
      r
  }

  predicate IsSeparator(c: char) {
    c == ':' || c == '\U{FF1A}' || c == '-' || c == '\U{2013}' || c == '\U{2014}'
  }

  /** Where the text after the separator at `k` begins: past the separator and the white space after it. */
  function SeparatorEnd(s: string, k: nat): (e: nat)
    requires k < |s|
    ensures k < e <= |s|
  {
    k + 1 + Run(s[k + 1..], c => IsSpace(c))
  }

  /**
   * `split(/[:：\-–—]\s*&#47;)`: the pieces between separators, where each
   * separator also swallows the white space after it. The first piece is
   * the text up to the first separator, or all of it when there is none.
   */
  function SplitSeparators(s: string): (pieces: seq<string>)
    ensures |pieces| >= 1
    ensures |pieces| > 1 <==> exists i :: 0 <= i < |s| && IsSeparator(s[i])
    ensures forall p, i :: 0 <= p < |pieces| && 0 <= i < |pieces[p]| ==> !IsSeparator(pieces[p][i])
    ensures |pieces[0]| <= |s| && pieces[0] == s[..|pieces[0]|]
    ensures |pieces[0]| == |s| || IsSeparator(s[|pieces[0]|])
  {
    if s == [] then [[]]
    else if IsSeparator(s[0]) then
      [[]] + SplitSeparators(s[SeparatorEnd(s, 0)..])
    else
      var rest := SplitSeparators(s[1..]);
      assert (exists i :: 0 <= i < |s| && IsSeparator(s[i])) <==> (exists i :: 0 <= i < |s[1..]| && IsSeparator(s[1..][i])) by {
        if exists i :: 0 <= i < |s| && IsSeparator(s[i]) {
          var i :| 0 <= i < |s| && IsSeparator(s[i]);
          assert IsSeparator(s[1..][i - 1]);
        }
      }
      assert [s[0]] + s[1..][..|rest[0]|] == s[..1 + |rest[0]|];
      [[s[0]] + rest[0]] + rest[1..]
  }

  /** No character of `s` is a separator. */
  predicate SeparatorFree(s: string) {
    forall i :: 0 <= i < |s| ==> !IsSeparator(s[i])
  }

  /** A text without separator is one piece. */
  lemma SplitSeparatorFree(s: string)
    requires SeparatorFree(s)
    ensures SplitSeparators(s) == [s]
  {
    var pieces := SplitSeparators(s);
    assert |pieces| == 1;
    assert |pieces[0]| == |s|;
    assert s[..|s|] == s;
  }

  /**
   * At the first separator, at `k`, the split gives the text before it and
   * then the split of what follows the separator and its white space.
   */
  lemma {:induction false} SplitAtFirst(s: string, k: nat)
    requires k < |s| && IsSeparator(s[k]) && SeparatorFree(s[..k])
    ensures SplitSeparators(s) == [s[..k]] + SplitSeparators(s[SeparatorEnd(s, k)..])
  {
    if k > 0 {
      var t := s[1..];
      assert !IsSeparator(s[..k][0]);
      var before := t[..k - 1];
      forall i | 0 <= i < |before| ensures !IsSeparator(before[i]) {
        assert before[i] == s[..k][i + 1];
      }
      SplitAtFirst(t, k - 1);
      var rest := SplitSeparators(t);
      assert SplitSeparators(s) == [[s[0]] + rest[0]] + rest[1..];
      assert t[k..] == s[k + 1..];
      assert SeparatorEnd(t, k - 1) + 1 == SeparatorEnd(s, k);
      assert t[SeparatorEnd(t, k - 1)..] == s[SeparatorEnd(s, k)..];
      assert [s[0]] + t[..k - 1] == s[..k];
    }
  }

  /**
   * The value after a title's separators: the pieces after the first
   * separator, rejoined with ": " and trimmed; "" when there is no
   * separator.
   */
  function ValueAfterSeparator(cleaned: string): string {
    var pieces := SplitSeparators(cleaned);
    if |pieces| > 1 then Trim(Join(pieces[1..], ": ")) else []
  }

  /**
   * For a cleaned line `p c w v`, where `c` is the first separator and `w`
   * the white space after it, the value is what the split makes of `v`,
   * rejoined and trimmed: `v` itself, trimmed, when it holds no separator.
   */
  lemma ValueAfterFirstSeparator(cleaned: string, p: string, c: char, w: string, v: string)
    requires cleaned == p + [c] + w + v
    requires SeparatorFree(p) && IsSeparator(c) && IsBlank(w) && (v == [] || !IsSpace(v[0]))
    ensures ValueAfterSeparator(cleaned) == Trim(Join(SplitSeparators(v), ": "))
    ensures SeparatorFree(v) ==> ValueAfterSeparator(cleaned) == Trim(v)
  {
    SplitFirstSeparator(cleaned, p, c, w, v);
    if SeparatorFree(v) {
      SplitSeparatorFree(v);
    }
  }

  /** The pieces of `p` + separator + white space + `v`, with no separator in `p`: `p`, then the pieces of `v`. */
  lemma SplitFirstSeparator(cleaned: string, p: string, c: char, w: string, v: string)
    requires cleaned == p + [c] + w + v
    requires SeparatorFree(p) && IsSeparator(c) && IsBlank(w) && (v == [] || !IsSpace(v[0]))
    ensures SplitSeparators(cleaned) == [p] + SplitSeparators(v)
  {
    var k := |p|;
    assert cleaned[..k] == p;
    assert cleaned[k] == c;
    assert cleaned[k + 1..] == w + v;
    RunOfBlank(w, v);
    assert SeparatorEnd(cleaned, k) == k + 1 + |w|;
    assert cleaned[k + 1 + |w|..] == v;
    SplitAtFirst(cleaned, k);
  }

  /** White space followed by a text that does not begin with white space is one run. */
  lemma {:induction false} RunOfBlank(w: string, v: string)
    requires IsBlank(w) && (v == [] || !IsSpace(v[0]))
    ensures Run(w + v, c => IsSpace(c)) == |w|
  {
    if w != [] {
      RunOfBlank(w[1..], v);
      assert (w + v)[1..] == w[1..] + v;
    } else {
      assert w + v == v;
    }
  }

  /**
   * The value of a title line such as "PRINCIPIO ACTIVO: Ibuprofeno": the
   * trimmed, Markdown-stripped line with everything up to its first
   * separator dropped.
   */
  function SameLineValue(titleLine: string): string {
    ValueAfterSeparator(StripMarkdown(Trim(titleLine)))
  }

  /**
   * A title line with no Markdown, white space or decoration to remove,
   * whose first separator is followed by white space `w` and then by a
   * separator-free `v`: its value is `v` trimmed.
   */
  lemma SameLineValueOfPlainLine(line: string, p: string, c: char, w: string, v: string)
    requires IsPlainLine(line) && line == p + [c] + w + v
    requires SeparatorFree(p) && IsSeparator(c) && IsBlank(w) && (v == [] || !IsSpace(v[0])) && SeparatorFree(v)
    ensures SameLineValue(line) == Trim(v)
  {
    TrimNoOp(line);
    StripMarkdownPlain(line);
    ValueAfterFirstSeparator(line, p, c, w, v);
  }

  /**
   * A title line gives a non-empty value only when it holds a separator,
   * and the value is trimmed.
   */
  lemma SameLineValueFacts(titleLine: string)
    ensures Trim(SameLineValue(titleLine)) == SameLineValue(titleLine)
    ensures SameLineValue(titleLine) != [] ==>
              exists i :: 0 <= i < |StripMarkdown(Trim(titleLine))| && IsSeparator(StripMarkdown(Trim(titleLine))[i])
  {
    var pieces := SplitSeparators(StripMarkdown(Trim(titleLine)));
    if |pieces| > 1 {
      TrimIdempotent(Join(pieces[1..], ": "));
    }
  }

  /** The cleaned, trimmed text of the lines strictly between title `s` and the next title. */
  function SectionContent(lines: seq<string>, starts: seq<SectionStart>, s: nat, rewrite: string -> string): string
    requires ValidStarts(starts, |lines|) && s < |starts|
  {
    var body := lines[starts[s].lineIndex + 1..SectionEnd(starts, s, |lines|)];
    Trim(CleanContent(rewrite, Join(body, "\n")))
  }

  /**
   * The value of section `s`: its content; for the active ingredient with
   * no content, the value written on the title line.
   */
  function SectionValue(lines: seq<string>, starts: seq<SectionStart>, s: nat, rewrite: string -> string): string
    requires ValidStarts(starts, |lines|) && s < |starts|
  {
    var content := SectionContent(lines, starts, s, rewrite);
    if content == [] && starts[s].key == PrincipioActivo then SameLineValue(lines[starts[s].lineIndex])
    else content
  }

  /**
   * A section value is trimmed, and it is the section's content unless the
   * field is the active ingredient and the content is empty.
   */
  lemma SectionValueFacts(lines: seq<string>, starts: seq<SectionStart>, s: nat, rewrite: string -> string)
    requires ValidStarts(starts, |lines|) && s < |starts|
    ensures Trim(SectionValue(lines, starts, s, rewrite)) == SectionValue(lines, starts, s, rewrite)
    ensures starts[s].key != PrincipioActivo ==> SectionValue(lines, starts, s, rewrite) == SectionContent(lines, starts, s, rewrite)
  {
    var body := lines[starts[s].lineIndex + 1..SectionEnd(starts, s, |lines|)];
    TrimIdempotent(CleanContent(rewrite, Join(body, "\n")));
    SameLineValueFacts(lines[starts[s].lineIndex]);
  }

  /** The value of every recorded section, in order. */
  function SectionValues(lines: seq<string>, starts: seq<SectionStart>, rewrite: string -> string): (values: seq<string>)
    requires ValidStarts(starts, |lines|)
    ensures |values| == |starts|
    ensures forall s :: 0 <= s < |starts| ==> values[s] == SectionValue(lines, starts, s, rewrite)
  {
    seq(|starts|, s requires 0 <= s < |starts| => SectionValue(lines, starts, s, rewrite))
  }

  /** The fields written by the first `s` iterations of step 2: `fields[current.key] = value`. */
  function FillUpTo(starts: seq<SectionStart>, values: seq<string>, s: nat): map<FieldKey, string>
    requires |values| == |starts| && s <= |starts|
  {
    if s == 0 then map[]
    else FillUpTo(starts, values, s - 1)[starts[s - 1].key := values[s - 1]]
  }

  /** The fields of the first `s` starts. */
  function KeysUpTo(starts: seq<SectionStart>, s: nat): set<FieldKey>
    requires s <= |starts|
  {
    set t | 0 <= t < s :: starts[t].key
  }

  /** One more iteration of step 2 writes one more field. */
  lemma FillUpToStep(starts: seq<SectionStart>, values: seq<string>, s: nat)
    requires |values| == |starts| && s < |starts|
    ensures FillUpTo(starts, values, s + 1) == FillUpTo(starts, values, s)[starts[s].key := values[s]]
  {
  }

  /** One more start adds its field. */
  lemma KeysUpToStep(starts: seq<SectionStart>, s: nat)
    requires 0 < s <= |starts|
    ensures KeysUpTo(starts, s) == KeysUpTo(starts, s - 1) + {starts[s - 1].key}
  {
    forall k | k in KeysUpTo(starts, s) ensures k in KeysUpTo(starts, s - 1) + {starts[s - 1].key} {
      var t :| 0 <= t < s && starts[t].key == k;
      if t < s - 1 { assert k in KeysUpTo(starts, s - 1); }
    }
  }

  /** Distinct keys: as many fields as starts. */
  lemma {:induction false} KeysUpToCount(starts: seq<SectionStart>, s: nat)
    requires s <= |starts|
    requires forall t, u :: 0 <= t < u < |starts| ==> starts[t].key != starts[u].key
    ensures |KeysUpTo(starts, s)| == s
  {
    if s > 0 {
      KeysUpToCount(starts, s - 1);
      KeysUpToStep(starts, s);
      assert starts[s - 1].key !in KeysUpTo(starts, s - 1);
    }
  }

  /** The first `s` sections fill exactly their own fields. */
  lemma {:induction false} FillUpToKeys(starts: seq<SectionStart>, values: seq<string>, s: nat)
    requires |values| == |starts| && s <= |starts|
    ensures FillUpTo(starts, values, s).Keys == KeysUpTo(starts, s)
  {
    if s > 0 {
      FillUpToKeys(starts, values, s - 1);
      KeysUpToStep(starts, s);
    }
  }

  /** With distinct keys, each of the first `s` sections leaves its own value in its field. */
  lemma {:induction false} FillUpToValues(starts: seq<SectionStart>, values: seq<string>, s: nat)
    requires |values| == |starts| && s <= |starts|
    requires forall t, u :: 0 <= t < u < |starts| ==> starts[t].key != starts[u].key
    ensures forall t :: 0 <= t < s ==> starts[t].key in FillUpTo(starts, values, s)
    ensures forall t :: 0 <= t < s ==> FillUpTo(starts, values, s)[starts[t].key] == values[t]
  {
    if s > 0 {
      FillUpToValues(starts, values, s - 1);
    }
  }

  /** With distinct keys, the first `s` sections fill exactly their own fields, each with its own value. */
  lemma FillUpToFacts(starts: seq<SectionStart>, values: seq<string>, s: nat)
    requires |values| == |starts| && s <= |starts|
    requires forall t, u :: 0 <= t < u < |starts| ==> starts[t].key != starts[u].key
    ensures FillUpTo(starts, values, s).Keys == KeysUpTo(starts, s)
    ensures forall t :: 0 <= t < s ==> FillUpTo(starts, values, s)[starts[t].key] == values[t]
  {
    FillUpToKeys(starts, values, s);
    FillUpToValues(starts, values, s);
  }

  // ---------------------------------------------------------------------
  // Missing fields: step 3 of `parseText`
  // ---------------------------------------------------------------------

  /** The warnings `parseText` reports. */
  datatype Warning = EmptyText | NoSections | MissingSection(key: FieldKey)

  /** The text of each warning, as shown to the user. */
  function WarningText(w: Warning): string {
    match w
    case EmptyText => "El texto está vacío."
    case NoSections => "No se detectaron secciones en el texto. Verifique que el texto incluye los títulos de sección."
    case MissingSection(key) => "No se detectó la sección \"" + KeyToLabel(key) + "\"."
  }

  /** The text of a missing-section warning holds the field's label between fixed quotes. */
  lemma MissingTextLabel(key: FieldKey)
    ensures |WarningText(MissingSection(key))| == 28 + |KeyToLabel(key)|
    ensures 11 <= |KeyToLabel(key)| <= 30
    ensures WarningText(MissingSection(key))[26..26 + |KeyToLabel(key)|] == KeyToLabel(key)
  {
    var prefix := "No se detectó la sección \"";
    assert |prefix| == 26;
  }

  /** Texts of warnings about different fields differ. */
  lemma MissingTextInjective(a: FieldKey, b: FieldKey)
    requires a != b
    ensures WarningText(MissingSection(a)) != WarningText(MissingSection(b))
  {
    var ta, tb := WarningText(MissingSection(a)), WarningText(MissingSection(b));
    MissingTextLabel(a);
    MissingTextLabel(b);
    KeyToLabelInjective(a, b);
    if |ta| == |tb| {
      assert ta[26..|ta| - 2] != tb[26..|tb| - 2];
    }
  }

  /** The keys of `keys` outside `detected`, in order. */
  function Missing(keys: seq<FieldKey>, detected: set<FieldKey>): (missing: seq<FieldKey>)
    ensures forall k :: k in missing <==> k in keys && k !in detected
  {
    if keys == [] then []
    else (if keys[0] in detected then [] else [keys[0]]) + Missing(keys[1..], detected)
  }

  /** The keys listed in `keys`. */
  function KeySet(keys: seq<FieldKey>): (r: set<FieldKey>)
    ensures forall k :: k in r <==> k in keys
  {
    if keys == [] then {} else {keys[0]} + KeySet(keys[1..])
  }

  /** Of distinct keys, those outside `detected` number all of them minus those inside. */
  lemma {:induction false} MissingCount(keys: seq<FieldKey>, detected: set<FieldKey>)
    requires forall i, j :: 0 <= i < j < |keys| ==> keys[i] != keys[j]
    ensures |Missing(keys, detected)| + |detected * KeySet(keys)| == |keys|
  {
    if keys != [] {
      var first, rest := keys[0], keys[1..];
      DistinctTail(keys);
      MissingCount(rest, detected);
      assert KeySet(keys) == {first} + KeySet(rest);
      DetectedStep(detected, first, KeySet(rest));
    }
  }

  /** The tail of distinct keys is distinct and lacks the head. */
  lemma DistinctTail(keys: seq<FieldKey>)
    requires keys != [] && forall i, j :: 0 <= i < j < |keys| ==> keys[i] != keys[j]
    ensures forall i, j :: 0 <= i < j < |keys[1..]| ==> keys[1..][i] != keys[1..][j]
    ensures keys[0] !in keys[1..]
  {
    var rest := keys[1..];
    forall j | 0 <= j < |rest| ensures rest[j] != keys[0] {
      assert rest[j] == keys[j + 1];
    }
  }

  /** A key new to `listed` adds one detected key when it is detected, and none otherwise. */
  lemma DetectedStep(detected: set<FieldKey>, key: FieldKey, listed: set<FieldKey>)
    requires key !in listed
    ensures |detected * ({key} + listed)| == |detected * listed| + (if key in detected then 1 else 0)
  {
    if key in detected {
      assert detected * ({key} + listed) == (detected * listed) + {key};
    } else {
      assert detected * ({key} + listed) == detected * listed;
    }
  }

  /** When `keys` lists every field once, the missing ones are those outside `detected`. */
  lemma MissingFromAll(keys: seq<FieldKey>, detected: set<FieldKey>)
    requires forall i, j :: 0 <= i < j < |keys| ==> keys[i] != keys[j]
    requires forall k: FieldKey :: k in keys
    ensures |Missing(keys, detected)| == |keys| - |detected|
  {
    MissingCount(keys, detected);
    assert detected * KeySet(keys) == detected;
  }

  /** Appending a key to the table appends it to the missing ones when it is not detected. */
  lemma {:induction false} MissingSnoc(keys: seq<FieldKey>, key: FieldKey, detected: set<FieldKey>)
    ensures Missing(keys + [key], detected) == Missing(keys, detected) + (if key in detected then [] else [key])
  {
    if keys != [] {
      MissingSnoc(keys[1..], key, detected);
      assert (keys + [key])[1..] == keys[1..] + [key];
    } else {
      assert [key][1..] == [];
    }
  }

  /** One warning per missing field, in table order. */
  function Warnings(missing: seq<FieldKey>): (ws: seq<Warning>)
    ensures |ws| == |missing|
    ensures forall i :: 0 <= i < |missing| ==> ws[i] == MissingSection(missing[i])
  {
    seq(|missing|, i requires 0 <= i < |missing| => MissingSection(missing[i]))
  }

  /** Every field of `missing` set to the empty string. */
  function EmptyFields(missing: seq<FieldKey>): (m: map<FieldKey, string>)
    ensures m.Keys == set k | k in missing
    ensures forall k :: k in m ==> m[k] == []
  {
    map k | k in missing :: []
  }

  /** Setting one more missing field empty is one more map update. */
  lemma EmptyFieldsSnoc(detected: map<FieldKey, string>, missing: seq<FieldKey>, key: FieldKey)
    ensures detected + EmptyFields(missing + [key]) == (detected + EmptyFields(missing))[key := []]
  {
    var m := missing + [key];
    assert EmptyFields(m).Keys == EmptyFields(missing).Keys + {key} by {
      forall k ensures k in m <==> k in missing || k == key { }
    }
  }

  // ---------------------------------------------------------------------
  // The whole parse
  // ---------------------------------------------------------------------

  /** The parser's answer: a value per field and the warnings, in order. */
  datatype ParseResult = ParseResult(fields: map<FieldKey, string>, warnings: seq<Warning>)

  /** The lines of the text: `text.split('\n')`. */
  function Lines(text: string): seq<string> {
    Split(text, '\n')
  }

  /** The section starts step 1 records for the whole text. */
  function SectionStarts(text: string): (starts: seq<SectionStart>)
    ensures ValidStarts(starts, |Lines(text)|)
  {
    StartsOfFacts(Titles(Lines(text)));
    StartsOf(Titles(Lines(text)))
  }

  /**
   * Step 3 and the final warning: every field of the table missing from
   * `detected` is added empty with a warning, and the general warning goes
   * in front when no section was found.
   */
  function Complete(detected: map<FieldKey, string>, noSections: bool): ParseResult {
    var missing := Missing(FieldOrder, detected.Keys);
    var lead := if noSections then [NoSections] else [];
    ParseResult(detected + EmptyFields(missing), lead + Warnings(missing))
  }

  /** Steps 2 and 3 for recorded starts `starts`. */
  function Assemble(lines: seq<string>, starts: seq<SectionStart>, rewrite: string -> string): ParseResult
    requires ValidStarts(starts, |lines|)
  {
    Complete(FillUpTo(starts, SectionValues(lines, starts, rewrite), |starts|), |starts| == 0)
  }

  /** What `parseText` returns for `text`, with `rewrite` standing for `_cleanContent`'s replacements. */
  function Parse(text: string, rewrite: string -> string): ParseResult {
    if IsBlank(text) then ParseResult(map[], [EmptyText])
    else Assemble(Lines(text), SectionStarts(text), rewrite)
  }

  /** The set of the fields of `starts`. */
  function StartKeys(starts: seq<SectionStart>): set<FieldKey> {
    KeysUpTo(starts, |starts|)
  }

  /** A field has a start exactly when some line is titled for it. */
  lemma RecordedIffTitled(titles: seq<Option<FieldKey>>, key: FieldKey)
    ensures key in StartKeys(StartsOf(titles)) <==> Some(key) in titles
  {
    var starts := StartsOf(titles);
    StartsOfFacts(titles);
    if key in StartKeys(starts) {
      var t :| 0 <= t < |starts| && starts[t].key == key;
      assert titles[starts[t].lineIndex] == Some(key);
    }
    if Some(key) in titles {
      var i :| 0 <= i < |titles| && titles[i] == Some(key);
      var t :| 0 <= t < |starts| && starts[t].key == key;
    }
  }

  /** Blank text, and only blank text, gives no field and the single empty-text warning. */
  lemma ParseBlank(text: string, rewrite: string -> string)
    ensures IsBlank(text) <==> Parse(text, rewrite) == ParseResult(map[], [EmptyText])
  {
    if !IsBlank(text) {
      FieldOrderExactlyOnce();
      assert PrincipioActivo in Parse(text, rewrite).fields;
    }
  }

  /** Completion keeps the detected values and gives every other field the empty string. */
  lemma CompleteFields(detected: map<FieldKey, string>, noSections: bool)
    ensures forall k: FieldKey :: k in Complete(detected, noSections).fields
    ensures forall k :: k in detected ==> Complete(detected, noSections).fields[k] == detected[k]
    ensures forall k: FieldKey :: k !in detected ==> Complete(detected, noSections).fields[k] == []
  {
    FieldOrderExactlyOnce();
  }

  /** One warning per field not detected, plus the general one when asked for. */
  lemma CompleteWarningCount(detected: map<FieldKey, string>, noSections: bool)
    ensures |Complete(detected, noSections).warnings| == 9 - |detected.Keys| + (if noSections then 1 else 0)
  {
    FieldOrderExactlyOnce();
    MissingFromAll(FieldOrder, detected.Keys);
  }

  /** The warnings after the general one are those of the missing fields, in table order. */
  lemma CompleteWarningsAt(detected: map<FieldKey, string>, noSections: bool, i: nat)
    requires (if noSections then 1 else 0) <= i < |Complete(detected, noSections).warnings|
    ensures Complete(detected, noSections).warnings[i] ==
              MissingSection(Missing(FieldOrder, detected.Keys)[i - (if noSections then 1 else 0)])
  {
  }

  /** A warning naming a field means that the field was not detected. */
  lemma CompleteWarnsOnlyMissing(detected: map<FieldKey, string>, noSections: bool, key: FieldKey)
    requires MissingSection(key) in Complete(detected, noSections).warnings
    ensures key !in detected
  {
    var missing := Missing(FieldOrder, detected.Keys);
    var ws := Complete(detected, noSections).warnings;
    var lead := if noSections then 1 else 0;
    var i :| 0 <= i < |ws| && ws[i] == MissingSection(key);
    if i >= lead {
      CompleteWarningsAt(detected, noSections, i);
    }
  }

  /** Every field not detected is named by a warning. */
  lemma CompleteWarnsEveryMissing(detected: map<FieldKey, string>, noSections: bool, key: FieldKey)
    requires key !in detected
    ensures MissingSection(key) in Complete(detected, noSections).warnings
  {
    var missing := Missing(FieldOrder, detected.Keys);
    var ws := Complete(detected, noSections).warnings;
    var lead := if noSections then 1 else 0;
    FieldOrderExactlyOnce();
    assert key in missing;
    var i :| 0 <= i < |missing| && missing[i] == key;
    CompleteWarningsAt(detected, noSections, lead + i);
    assert ws[lead + i] == MissingSection(key);
  }

  /** The general warning appears exactly when asked for. */
  lemma CompleteWarnsNoSections(detected: map<FieldKey, string>, noSections: bool)
    ensures NoSections in Complete(detected, noSections).warnings <==> noSections
  {
    var ws := Complete(detected, noSections).warnings;
    if !noSections {
      forall i | 0 <= i < |ws| ensures ws[i] != NoSections {
        CompleteWarningsAt(detected, noSections, i);
      }
    }
  }


  /**
   * Non-blank text gives a value for every one of the nine fields, the
   * empty string for those without a recorded start.
   */
  lemma ParseFieldsComplete(text: string, rewrite: string -> string)
    requires !IsBlank(text)
    ensures forall k: FieldKey :: k in Parse(text, rewrite).fields
    ensures forall k: FieldKey :: k !in StartKeys(SectionStarts(text)) ==> Parse(text, rewrite).fields[k] == []
  {
    var starts := SectionStarts(text);
    var values := SectionValues(Lines(text), starts, rewrite);
    FillUpToKeys(starts, values, |starts|);
    CompleteFields(FillUpTo(starts, values, |starts|), |starts| == 0);
  }

  /** Non-blank text gives each field with a recorded start the value of its section. */
  lemma ParseSectionValues(text: string, rewrite: string -> string, s: nat)
    requires !IsBlank(text) && s < |SectionStarts(text)|
    ensures SectionStarts(text)[s].key in Parse(text, rewrite).fields
    ensures Parse(text, rewrite).fields[SectionStarts(text)[s].key] == SectionValue(Lines(text), SectionStarts(text), s, rewrite)
  {
    var starts := SectionStarts(text);
    var values := SectionValues(Lines(text), starts, rewrite);
    var detected := FillUpTo(starts, values, |starts|);
    FillUpToValues(starts, values, |starts|);
    CompleteFields(detected, |starts| == 0);
    assert Parse(text, rewrite).fields[starts[s].key] == detected[starts[s].key] == values[s];
  }

  /** A text without a line break is one line. */
  lemma SingleLine(text: string)
    requires '\n' !in text
    ensures Lines(text) == [text]
  {
    assert Join([text], "\n") == text;
    SplitJoin([text], '\n');
  }

  /** A text of one line that is a title is not blank, and that line opens its only section. */
  lemma SingleTitleLineStarts(line: string, key: FieldKey)
    requires '\n' !in line && TitleAt([line], 0) == Some(key)
    ensures !IsBlank(line)
    ensures Lines(line) == [line]
    ensures SectionStarts(line) == [SectionStart(0, key)]
  {
    SingleLine(line);
    assert Titles(Lines(line)) == [Some(key)];
    StartsOfOneTitle(key);
  }

  /** One title records one start, on its line. */
  lemma StartsOfOneTitle(key: FieldKey)
    ensures StartsOf([Some(key)]) == [SectionStart(0, key)]
  {
    assert [Some(key)][..0] == [];
    assert !Recorded([], key);
  }

  /**
   * A text of one line that is a title: the line opens the only section,
   * which is empty, so its field is empty, except the active ingredient,
   * which takes the value written on the title line.
   */
  lemma ParseSingleTitleLine(line: string, key: FieldKey, rewrite: string -> string)
    requires '\n' !in line && TitleAt([line], 0) == Some(key)
    ensures key in Parse(line, rewrite).fields
    ensures Parse(line, rewrite).fields[key] == if key == PrincipioActivo then SameLineValue(line) else []
  {
    var starts := [SectionStart(0, key)];
    SingleTitleLineStarts(line, key);
    ParseSectionValues(line, rewrite, 0);
    assert [line][1..SectionEnd(starts, 0, 1)] == [];
    assert SectionContent([line], starts, 0, rewrite) == [];
  }

  /**
   * Non-blank text gives one warning per field without a start, a warning
   * naming a field exactly when it has no start, and the general warning
   * exactly when there is no start at all.
   */
  lemma ParseWarnings(text: string, rewrite: string -> string, key: FieldKey)
    requires !IsBlank(text)
    ensures |Parse(text, rewrite).warnings| == 9 - |SectionStarts(text)| + (if |SectionStarts(text)| == 0 then 1 else 0)
    ensures MissingSection(key) in Parse(text, rewrite).warnings <==> key !in StartKeys(SectionStarts(text))
    ensures NoSections in Parse(text, rewrite).warnings <==> |SectionStarts(text)| == 0
  {
    var starts := SectionStarts(text);
    var detected := FillUpTo(starts, SectionValues(Lines(text), starts, rewrite), |starts|);
    FillUpToFacts(starts, SectionValues(Lines(text), starts, rewrite), |starts|);
    KeysUpToCount(starts, |starts|);
    CompleteWarningCount(detected, |starts| == 0);
    if MissingSection(key) in Parse(text, rewrite).warnings {
      CompleteWarnsOnlyMissing(detected, |starts| == 0, key);
    }
    if key !in StartKeys(starts) {
      CompleteWarnsEveryMissing(detected, |starts| == 0, key);
    }
    CompleteWarnsNoSections(detected, |starts| == 0);
  }

  /**
   * Step 1: every non-blank line that is not a horizontal rule is matched
   * against the titles, and a match is recorded unless its field already
   * has a start.
   */
  method RecordSectionStarts(lines: seq<string>) returns (sectionStarts: seq<SectionStart>)
    ensures sectionStarts == StartsOf(Titles(lines))
  {
    sectionStarts := [];
    ghost var titles := Titles(lines);
    for i := 0 to |lines|
      invariant sectionStarts == StartsOf(titles[..i])
    {
      StartsOfSnoc(titles, i);
      var line := Trim(lines[i]);
      if line == [] {
        continue;
      }
      if IsRule(line) {
        continue;
      }
      var matched := MatchSectionTitle(line);
      if matched != None && !Recorded(sectionStarts, matched.value) {
        sectionStarts := sectionStarts + [SectionStart(i, matched.value)];
      }
    }
    assert titles[..|lines|] == titles;
  }

  /** Scanning one more line records its title unless its field already has a start. */
  lemma StartsOfSnoc(titles: seq<Option<FieldKey>>, i: nat)
    requires i < |titles|
    ensures StartsOf(titles[..i + 1]) ==
      match titles[i]
      case None => StartsOf(titles[..i])
      case Some(k) => if Recorded(StartsOf(titles[..i]), k) then StartsOf(titles[..i]) else StartsOf(titles[..i]) + [SectionStart(i, k)]
  {
    assert titles[..i + 1][..i] == titles[..i];
  }

  /** Step 2: each recorded section's value, written under its field. */
  method FillSections(lines: seq<string>, sectionStarts: seq<SectionStart>, rewrite: string -> string)
    returns (fields: map<FieldKey, string>)
    requires ValidStarts(sectionStarts, |lines|)
    ensures fields == FillUpTo(sectionStarts, SectionValues(lines, sectionStarts, rewrite), |sectionStarts|)
  {
    fields := map[];
    ghost var values := SectionValues(lines, sectionStarts, rewrite);
    for s := 0 to |sectionStarts|
      invariant fields == FillUpTo(sectionStarts, values, s)
    {
      var value := SectionValue(lines, sectionStarts, s, rewrite);
      FillUpToStep(sectionStarts, values, s);
      fields := fields[sectionStarts[s].key := value];
    }
  }

  /** Step 3: every field of `allKeys` not yet filled is set empty, with a warning. */
  method AddMissing(detected: map<FieldKey, string>, allKeys: seq<FieldKey>)
    returns (fields: map<FieldKey, string>, warnings: seq<Warning>)
    ensures fields == detected + EmptyFields(Missing(allKeys, detected.Keys))
    ensures warnings == Warnings(Missing(allKeys, detected.Keys))
  {
    fields, warnings := detected, [];
    var detectedKeys := detected.Keys;
    for k := 0 to |allKeys|
      invariant warnings == Warnings(Missing(allKeys[..k], detectedKeys))
      invariant fields == detected + EmptyFields(Missing(allKeys[..k], detectedKeys))
    {
      var key := allKeys[k];
      AddMissingStep(detected, allKeys, k);
      if key !in detectedKeys {
        warnings := warnings + [MissingSection(key)];
        fields := fields[key := []];
      }
    }
    assert allKeys[..|allKeys|] == allKeys;
  }

  /** One more iteration of step 3 appends at most one warning and one empty field. */
  lemma AddMissingStep(detected: map<FieldKey, string>, allKeys: seq<FieldKey>, k: nat)
    requires k < |allKeys|
    ensures Warnings(Missing(allKeys[..k + 1], detected.Keys)) ==
              Warnings(Missing(allKeys[..k], detected.Keys)) + (if allKeys[k] in detected then [] else [MissingSection(allKeys[k])])
    ensures detected + EmptyFields(Missing(allKeys[..k + 1], detected.Keys)) ==
              if allKeys[k] in detected then detected + EmptyFields(Missing(allKeys[..k], detected.Keys))
              else (detected + EmptyFields(Missing(allKeys[..k], detected.Keys)))[allKeys[k] := []]
  {
    var key := allKeys[k];
    var before := Missing(allKeys[..k], detected.Keys);
    assert allKeys[..k + 1] == allKeys[..k] + [key];
    MissingSnoc(allKeys[..k], key, detected.Keys);
    if key !in detected {
      EmptyFieldsSnoc(detected, before, key);
      WarningsSnoc(before, key);
    }
  }

  /** One more missing field, one more warning at the end. */
  lemma WarningsSnoc(missing: seq<FieldKey>, key: FieldKey)
    ensures Warnings(missing + [key]) == Warnings(missing) + [MissingSection(key)]
  {
  }

  /** `parseText`: the blank-text check, then the three steps. */
  method ParseText(text: string, rewrite: string -> string) returns (result: ParseResult)
    ensures result == Parse(text, rewrite)
  {
    if IsBlank(text) {
      return ParseResult(map[], [EmptyText]);
    }
    var lines := Split(text, '\n');
    var sectionStarts := RecordSectionStarts(lines);
    StartsOfValid(Titles(lines));
    var fields := FillSections(lines, sectionStarts, rewrite);
    var allKeys := AllKeys();
    var warnings: seq<Warning>;
    fields, warnings := AddMissing(fields, allKeys);
    if |sectionStarts| == 0 {
      warnings := [NoSections] + warnings;
    }
    result := ParseResult(fields, warnings);
  }

  // ---------------------------------------------------------------------
  // Worked examples
  // ---------------------------------------------------------------------

  /** The title line of the title example holds no Markdown. */
  lemma InteraccionesPlain()
    ensures IsPlainLine("Interacciones y efectos adversos")
  {
    InteraccionesPlainChars();
    InteraccionesSingleSpaces();
  }

  /** Every character of the title line of the title example is plain. */
  lemma InteraccionesPlainChars()
    ensures forall i :: 0 <= i < |"Interacciones y efectos adversos"| ==> IsPlainChar("Interacciones y efectos adversos"[i])
  {
  }

  /** The title line of the title example has no two spaces in a row. */
  lemma InteraccionesSingleSpaces()
    ensures forall i :: 0 <= i && i + 1 < |"Interacciones y efectos adversos"| ==> "Interacciones y efectos adversos"[i] != ' ' || "Interacciones y efectos adversos"[i + 1] != ' '
  {
  }

  /** The title line of the title example, cut where the proof needs it. */
  lemma InteraccionesPieces()
    ensures "Interacciones y efectos adversos" == "I" + "nteracciones y " + ("efectos a" + "d" + "versos")
    ensures "efectos adversos" == "efectos a" + "d" + "versos"
  {
  }

  /** `_stripMarkdown` leaves the title line of the title example as it is. */
  lemma InteraccionesStripped()
    ensures StripMarkdown("Interacciones y efectos adversos") == "Interacciones y efectos adversos"
  {
    InteraccionesPlain();
    StripMarkdownPlain("Interacciones y efectos adversos");
  }

  /** Lower-casing the title line of the title example changes only its capital. */
  lemma InteraccionesLower()
    ensures ToLowerCase("Interacciones y efectos adversos") == "i" + "nteracciones y " + ("efectos a" + "d" + "versos")
  {
    InteraccionesPieces();
    var tail := "efectos a" + "d" + "versos";
    ToLowerCaseAppend("I" + "nteracciones y ", tail);
    ToLowerCaseAppend("I", "nteracciones y ");
    ToLowerCaseNoCapitals("nteracciones y ");
    ToLowerCaseAppend("efectos a" + "d", "versos");
    ToLowerCaseAppend("efectos a", "d");
    ToLowerCaseNoCapitals("efectos a");
    ToLowerCaseNoCapitals("d");
    ToLowerCaseNoCapitals("versos");
    assert ToLowerCase("I") == "i";
  }

  /** The cleaned title line of the title example does not hold "indicaciones": its only d is misplaced. */
  lemma InteraccionesNoIndicaciones()
    ensures !Contains("i" + "nteracciones y " + ("efectos a" + "d" + "versos"), "indicaciones")
  {
    var head := "i" + "nteracciones y ";
    var cleaned := head + ("efectos a" + "d" + "versos");
    ToLowerCaseNoCapitals("indicaciones");
    assert cleaned == head + "efectos a" + ['d'] + "versos";
    LetterOnce(cleaned, "indicaciones", 2, head + "efectos a", 'd', "versos");
  }

  /** The cleaned title line of the title example holds the first adverse-effects keyword. */
  lemma InteraccionesHasEfectos()
    ensures HasKeyword("i" + "nteracciones y " + ("efectos a" + "d" + "versos"), SectionPatterns[4].keywords)
  {
    var head, keyword := "i" + "nteracciones y ", "efectos a" + "d" + "versos";
    InteraccionesPieces();
    assert SectionPatterns[4].keywords[0] == keyword;
    ToLowerCaseNoCapitals(keyword);
    OccursBetween(head, keyword, []);
    assert head + keyword + [] == head + keyword;
  }

  /** The cleaned title line of the title example matches the adverse-effects pattern first. */
  lemma InteraccionesMatch()
    ensures FirstMatch("i" + "nteracciones y " + ("efectos a" + "d" + "versos"), SectionPatterns) == Some(EfectosAdversos)
  {
    InteraccionesFirstFourAbsent();
    InteraccionesHasEfectos();
    FirstMatchAt("i" + "nteracciones y " + ("efectos a" + "d" + "versos"), SectionPatterns, 4);
  }

  /** The cleaned title line of the title example matches none of the first four patterns. */
  lemma InteraccionesFirstFourAbsent()
    ensures forall q :: 0 <= q < 4 ==> !HasKeyword("i" + "nteracciones y " + ("efectos a" + "d" + "versos"), SectionPatterns[q].keywords)
  {
    InteraccionesLetters();
    InteraccionesNoIndicaciones();
    FirstFourPatternsAbsent("i" + "nteracciones y " + ("efectos a" + "d" + "versos"));
  }

  /** The cleaned title line of the title example holds no p, q, m or l. */
  lemma InteraccionesLetters()
    ensures var cleaned := "i" + "nteracciones y " + ("efectos a" + "d" + "versos");
      'p' !in cleaned && 'q' !in cleaned && 'm' !in cleaned && 'l' !in cleaned
  {
    InteraccionesLetter('p');
    InteraccionesLetter('q');
    InteraccionesLetter('m');
    InteraccionesLetter('l');
  }

  /** A letter absent from each piece of the cleaned title line of the title example is absent from the line. */
  lemma InteraccionesLetter(x: char)
    requires x !in "intercaosyfdv "
    ensures x !in "i" + "nteracciones y " + ("efectos a" + "d" + "versos")
  {
    var cleaned := "i" + "nteracciones y " + ("efectos a" + "d" + "versos");
    assert forall i :: 0 <= i < |cleaned| ==> cleaned[i] in "intercaosyfdv ";
  }

  /**
   * A line naming two sections belongs to the earlier pattern of the table:
   * "Interacciones y efectos adversos" opens the adverse-effects section,
   * not the interactions one.
   */
  lemma TitleKeyPrefersEarlierPattern()
    ensures TitleKey("Interacciones y efectos adversos") == Some(EfectosAdversos)
  {
    InteraccionesStripped();
    InteraccionesLower();
    InteraccionesMatch();
  }

  /** The title line of the parse example holds no Markdown. */
  lemma IbuprofenoPlain()
    ensures IsPlainLine("PRINCIPIO ACTIVO: Ibuprofeno")
  {
    IbuprofenoPlainChars();
    IbuprofenoSingleSpaces();
  }

  /** Every character of the title line of the parse example is plain. */
  lemma IbuprofenoPlainChars()
    ensures forall i :: 0 <= i < |"PRINCIPIO ACTIVO: Ibuprofeno"| ==> IsPlainChar("PRINCIPIO ACTIVO: Ibuprofeno"[i])
  {
  }

  /** The title line of the parse example has no two spaces in a row. */
  lemma IbuprofenoSingleSpaces()
    ensures forall i :: 0 <= i && i + 1 < |"PRINCIPIO ACTIVO: Ibuprofeno"| ==> "PRINCIPIO ACTIVO: Ibuprofeno"[i] != ' ' || "PRINCIPIO ACTIVO: Ibuprofeno"[i + 1] != ' '
  {
  }

  /** The title line of the parse example, cut where lower-casing changes it. */
  lemma IbuprofenoCases()
    ensures "PRINCIPIO ACTIVO: Ibuprofeno" == "PRINCIPIO ACTIVO" + (": " + ("I" + "buprofeno"))
  {
  }

  /** The title line of the parse example, cut at its separator. */
  lemma IbuprofenoSeparator()
    ensures "PRINCIPIO ACTIVO: Ibuprofeno" == "PRINCIPIO ACTIVO" + [':'] + " " + "Ibuprofeno"
  {
  }

  /** Lower-casing the capitals of the active-ingredient keyword gives the keyword. */
  lemma PrincipioActivoLower()
    ensures ToLowerCase("PRINCIPIO ACTIVO") == "principio activo"
  {
    ToLowerCaseAsciiCapitals("PRINCIPIO ACTIVO");
  }

  /** `_stripMarkdown` leaves the title line of the parse example as it is. */
  lemma IbuprofenoStripped()
    ensures StripMarkdown("PRINCIPIO ACTIVO: Ibuprofeno") == "PRINCIPIO ACTIVO: Ibuprofeno"
  {
    IbuprofenoPlain();
    StripMarkdownPlain("PRINCIPIO ACTIVO: Ibuprofeno");
  }

  /** Lower-casing the title line of the parse example. */
  lemma IbuprofenoLower()
    ensures ToLowerCase("PRINCIPIO ACTIVO: Ibuprofeno") == "principio activo" + (": " + ("i" + "buprofeno"))
  {
    IbuprofenoCases();
    ToLowerCaseAppend("PRINCIPIO ACTIVO", ": " + ("I" + "buprofeno"));
    ToLowerCaseAppend(": ", "I" + "buprofeno");
    ToLowerCaseAppend("I", "buprofeno");
    PrincipioActivoLower();
    ToLowerCaseNoCapitals(": ");
    ToLowerCaseNoCapitals("buprofeno");
    assert ToLowerCase("I") == "i";
  }

  /** The cleaned title line of the parse example begins with the first active-ingredient keyword. */
  lemma IbuprofenoHasPrincipio()
    ensures Contains("principio activo" + (": " + ("i" + "buprofeno")), ToLowerCase("principio activo"))
  {
    var keyword := "principio activo";
    var rest := ": " + ("i" + "buprofeno");
    ToLowerCaseNoCapitals(keyword);
    OccursBetween([], keyword, rest);
    assert [] + keyword + rest == keyword + rest;
  }

  /** The cleaned title line of the parse example matches the first pattern. */
  lemma IbuprofenoMatch()
    ensures FirstMatch("principio activo" + (": " + ("i" + "buprofeno")), SectionPatterns) == Some(PrincipioActivo)
  {
    IbuprofenoHasPrincipio();
    assert SectionPatterns[0].keywords[0] == "principio activo";
  }

  /** "PRINCIPIO ACTIVO: Ibuprofeno" is a title for the active ingredient. */
  lemma IbuprofenoTitle()
    ensures TitleKey("PRINCIPIO ACTIVO: Ibuprofeno") == Some(PrincipioActivo)
  {
    IbuprofenoStripped();
    IbuprofenoLower();
    IbuprofenoMatch();
  }

  /** The parse example's title line holds no separator before its colon or after it. */
  lemma IbuprofenoSeparatorFree()
    ensures SeparatorFree("PRINCIPIO ACTIVO") && SeparatorFree("Ibuprofeno")
  {
  }

  /** The value written on the title line of the parse example is the text after its colon. */
  lemma IbuprofenoValue()
    ensures SameLineValue("PRINCIPIO ACTIVO: Ibuprofeno") == "Ibuprofeno"
  {
    IbuprofenoPlain();
    IbuprofenoSeparator();
    IbuprofenoSeparatorFree();
    SameLineValueOfPlainLine("PRINCIPIO ACTIVO: Ibuprofeno", "PRINCIPIO ACTIVO", ':', " ", "Ibuprofeno");
    TrimNoOp("Ibuprofeno");
  }

  /** The parse example holds no line break. */
  lemma IbuprofenoOneLine()
    ensures '\n' !in "PRINCIPIO ACTIVO: Ibuprofeno"
  {
  }

  /** The parse example is one line, a title for the active ingredient. */
  lemma IbuprofenoTitleAt()
    ensures TitleAt(["PRINCIPIO ACTIVO: Ibuprofeno"], 0) == Some(PrincipioActivo)
  {
    TrimNoOp("PRINCIPIO ACTIVO: Ibuprofeno");
    IbuprofenoNotRule();
    IbuprofenoTitle();
  }

  /** The title line of the parse example is not a horizontal rule. */
  lemma IbuprofenoNotRule()
    ensures !IsRule("PRINCIPIO ACTIVO: Ibuprofeno")
  {
    assert "PRINCIPIO ACTIVO: Ibuprofeno"[0] == 'P';
    NotRule("PRINCIPIO ACTIVO: Ibuprofeno");
  }

  /**
   * A title line with its value written after the colon and nothing below
   * it: "PRINCIPIO ACTIVO: Ibuprofeno" gives the active ingredient
   * "Ibuprofeno", whatever the content clean-up does.
   */
  lemma ParseSameLineValue(rewrite: string -> string)
    ensures PrincipioActivo in Parse("PRINCIPIO ACTIVO: Ibuprofeno", rewrite).fields
    ensures Parse("PRINCIPIO ACTIVO: Ibuprofeno", rewrite).fields[PrincipioActivo] == "Ibuprofeno"
  {
    IbuprofenoOneLine();
    IbuprofenoTitleAt();
    ParseSingleTitleLine("PRINCIPIO ACTIVO: Ibuprofeno", PrincipioActivo, rewrite);
    IbuprofenoValue();
  }
}
