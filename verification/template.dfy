/** The filename template engine (`format`, main.js:44-60) and the trailing-dot
    trim applied to its result (main.js:196).

    Each supplied key that passes the name filter is substituted in order with
    the global regular expression `([^{]|^){key}([^}]|$)`; the neighbouring
    characters the expression consumes are put back by `$1` and `$2`. Because
    they are consumed, a second placeholder that starts right after the
    character following the first is not seen by the same pass. Finally every
    pair of consecutive brace characters collapses to its second character. */
module Template {
  import opened Results
  import opened Strings

  predicate KeyChar(c: char) {
    'a' <= c <= 'z' || 'A' <= c <= 'Z' || IsDigit(c) || c == '_' || c == '-'
  }

  /** The key filter `/^[a-z0-9_-]+$/i`. */
  predicate KeyOk(key: string) {
    |key| > 0 && forall i :: 0 <= i < |key| ==> KeyChar(key[i])
  }

  predicate AllDigits(key: string) {
    forall i :: 0 <= i < |key| ==> IsDigit(key[i])
  }

  predicate IsBrace(c: char) {
    c == '{' || c == '}'
  }

  predicate NoBrace(s: string) {
    forall i :: 0 <= i < |s| ==> !IsBrace(s[i])
  }

  function Placeholder(key: string): string {
    "{" + key + "}"
  }

  /** What the substitution needs of its arguments: replacement values are
      spliced into a regex replacement string, so they carry no `$`; and a key
      made of digits only would turn `{n}` into a regex quantifier. */
  predicate ValuesOk(values: seq<(string, string)>) {
    forall i :: 0 <= i < |values| ==> NoDollar(values[i].1) && (KeyOk(values[i].0) ==> !AllDigits(values[i].0))
  }

  // ---------------------------------------------------------------------------
  // One key: the global regex replace

  /** A match of the regex: how many characters it consumed and what replaces them. */
  datatype Hit = Hit(len: nat, text: string)

  /** One attempt of `([^{]|^){key}([^}]|$)` at the head of `t`. The first
      alternative consumes one non-`{` character before the placeholder; the
      second, `^`, only applies at position 0 of the whole string, which
      `atStart` records. The tail consumes one non-`}` character or matches
      the end of input. */
  function MatchHere(t: string, key: string, value: string, atStart: bool): (r: Option<Hit>)
    ensures r.Some? ==> 0 < r.value.len <= |t|
  {
    var p := Placeholder(key);
    var n := |p|;
    if 1 + n <= |t| && t[0] != '{' && t[1..1 + n] == p && (1 + n == |t| || t[1 + n] != '}') then
      if 1 + n == |t| then Some(Hit(1 + n, [t[0]] + value))
      else Some(Hit(2 + n, [t[0]] + value + [t[1 + n]]))
    else if atStart && n <= |t| && t[..n] == p && (n == |t| || t[n] != '}') then
      if n == |t| then Some(Hit(n, value))
      else Some(Hit(n + 1, value + [t[n]]))
    else None
  }

  /** The `^` alternative: a placeholder opening the whole string. */
  lemma MatchAtStart(t: string, key: string, value: string)
    requires |Placeholder(key)| <= |t| && t[..|Placeholder(key)|] == Placeholder(key)
    requires |Placeholder(key)| == |t| || t[|Placeholder(key)|] != '}'
    ensures var n := |Placeholder(key)|;
            MatchHere(t, key, value, true) == if n == |t| then Some(Hit(n, value)) else Some(Hit(n + 1, value + [t[n]]))
  {
    assert t[0] == t[..|Placeholder(key)|][0] == '{';
  }

  /** The first alternative: one non-`{` character, then the placeholder. */
  lemma MatchAfterOne(t: string, key: string, value: string, atStart: bool)
    requires 1 + |Placeholder(key)| <= |t| && t[0] != '{' && t[1..1 + |Placeholder(key)|] == Placeholder(key)
    requires 1 + |Placeholder(key)| == |t| || t[1 + |Placeholder(key)|] != '}'
    ensures var n := |Placeholder(key)|;
            MatchHere(t, key, value, atStart)
            == if 1 + n == |t| then Some(Hit(1 + n, [t[0]] + value)) else Some(Hit(2 + n, [t[0]] + value + [t[1 + n]]))
  {
  }

  /** `t.replace(new RegExp('([^{]|^){' + key + '}([^}]|$)', 'g'), '$1' + value + '$2')`:
      scan left to right, and after each match resume right after it. */
  function ReplaceKey(t: string, key: string, value: string, atStart: bool): string
    decreases |t|
  {
    if |t| == 0 then ""
    else
      match MatchHere(t, key, value, atStart)
      case Some(h) => h.text + ReplaceKey(t[h.len..], key, value, false)
      case None => [t[0]] + ReplaceKey(t[1..], key, value, false)
  }

  // ---------------------------------------------------------------------------
  // The whole template

  function SubstituteOne(t: string, entry: (string, string)): string {
    if KeyOk(entry.0) then ReplaceKey(t, entry.0, entry.1, true) else t
  }

  /** The `reduce` over `Object.entries(values)`, keys in the given order. */
  function Substitute(t: string, values: seq<(string, string)>): string
    decreases |values|
  {
    if |values| == 0 then t else Substitute(SubstituteOne(t, values[0]), values[1..])
  }

  /** `s.replace(/({|}){2}/g, '$1')`: each non-overlapping pair of brace
      characters becomes its second character. */
  function CollapseBraces(s: string): string
    decreases |s|
  {
    if |s| >= 2 && IsBrace(s[0]) && IsBrace(s[1]) then [s[1]] + CollapseBraces(s[2..])
    else if |s| == 0 then ""
    else [s[0]] + CollapseBraces(s[1..])
  }

  /** `format(template, values)`. */
  function Format(template: string, values: seq<(string, string)>): string
    requires ValuesOk(values)
  {
    CollapseBraces(Substitute(template, values))
  }

  /** `name.replace(/\.$/, '')`: drop one trailing dot. */
  function TrimTrailingDot(name: string): (r: string)
    ensures |name| > 0 && name[|name| - 1] == '.' ==> r + "." == name
    ensures (|name| == 0 || name[|name| - 1] != '.') ==> r == name
  {
    if |name| > 0 && name[|name| - 1] == '.' then name[..|name| - 1] else name
  }

  // ---------------------------------------------------------------------------
  // Occurrences of a placeholder

  lemma OccursShift(t: string, p: string, d: nat, j: nat)
    requires d <= |t|
    ensures OccursAt(t[d..], p, j) <==> OccursAt(t, p, j + d)
  {
    if j + |p| <= |t| - d {
      assert t[d..][j..j + |p|] == t[j + d..j + d + |p|];
    }
  }

  /** A placeholder starts with `{`, so it cannot occur in brace-free text. */
  lemma NoPlaceholderInBraceFree(t: string, key: string, j: nat)
    requires NoBrace(t)
    ensures !OccursAt(t, Placeholder(key), j)
  {
    var p := Placeholder(key);
    if j + |p| <= |t| {
      assert t[j..j + |p|][0] == t[j] && !IsBrace(t[j]);
      assert p[0] == '{';
    }
  }

  /** Two occurrences of one placeholder never overlap: its key has no braces. */
  lemma PlaceholderNoOverlap(t: string, key: string, q1: nat, q2: nat)
    requires KeyOk(key)
    requires OccursAt(t, Placeholder(key), q1) && OccursAt(t, Placeholder(key), q2)
    requires q1 < q2
    ensures q1 + |Placeholder(key)| <= q2
  {
    PlaceholderShape(t, key, q1);
    PlaceholderShape(t, key, q2);
  }

  /** An occurrence of `{key}` at j: an opening brace, key characters, and the
      closing brace. */
  lemma PlaceholderShape(t: string, key: string, j: nat)
    requires KeyOk(key)
    requires OccursAt(t, Placeholder(key), j)
    ensures t[j] == '{' && t[j + |key| + 1] == '}'
    ensures forall i :: j < i <= j + |key| ==> KeyChar(t[i])
  {
    var p := Placeholder(key);
    assert t[j] == t[j..j + |p|][0] == '{';
    assert t[j + |key| + 1] == t[j..j + |p|][|key| + 1] == '}';
    forall i | j < i <= j + |key| ensures KeyChar(t[i]) {
      assert t[i] == t[j..j + |p|][i - j] == key[i - j - 1];
    }
  }

  /** Without an occurrence of its placeholder, a key changes nothing: the
      placeholders of keys that are not supplied stay verbatim. */
  lemma {:induction false} ReplaceKeyWithoutPlaceholder(t: string, key: string, value: string, atStart: bool)
    requires KeyOk(key)
    requires forall j: nat :: !OccursAt(t, Placeholder(key), j)
    ensures ReplaceKey(t, key, value, atStart) == t
    decreases |t|
  {
    var p := Placeholder(key);
    if |t| > 0 {
      assert !OccursAt(t, p, 0) && !OccursAt(t, p, 1);
      assert MatchHere(t, key, value, atStart).None? by {
        assert 1 + |p| <= |t| ==> t[1..1 + |p|] != p;
        assert |p| <= |t| ==> t[..|p|] == t[0..|p|] != p;
      }
      forall j: nat ensures !OccursAt(t[1..], p, j) {
        OccursShift(t, p, 1, j);
      }
      ReplaceKeyWithoutPlaceholder(t[1..], key, value, false);
      assert [t[0]] + t[1..] == t;
    }
  }

  /** Every occurrence of the placeholder is escaped: glued to a preceding
      `{` (or to a character an earlier match consumed, when `atStart` is
      false and it stands at the head) or to a following `}`. */
  ghost predicate Escaped(t: string, p: string, atStart: bool) {
    forall q: nat :: OccursAt(t, p, q) ==>
      || (q == 0 && !atStart)
      || (q > 0 && t[q - 1] == '{')
      || (q + |p| < |t| && t[q + |p|] == '}')
  }

  /** A placeholder directly preceded by `{` or followed by `}` is never
      substituted; with `{{key}}` the braces are then collapsed. */
  lemma {:induction false} ReplaceKeyEscapedUnchanged(t: string, key: string, value: string, atStart: bool)
    requires KeyOk(key)
    requires Escaped(t, Placeholder(key), atStart)
    ensures ReplaceKey(t, key, value, atStart) == t
    decreases |t|
  {
    if |t| > 0 {
      EscapedNoMatch(t, key, value, atStart);
      EscapedSuffix(t, Placeholder(key), atStart);
      hide MatchHere, Escaped;
      ReplaceKeyEscapedUnchanged(t[1..], key, value, false);
      assert [t[0]] + t[1..] == t;
    }
  }

  /** An escaped placeholder text offers the scan no match at its head. */
  lemma EscapedNoMatch(t: string, key: string, value: string, atStart: bool)
    requires KeyOk(key) && |t| > 0
    requires Escaped(t, Placeholder(key), atStart)
    ensures MatchHere(t, key, value, atStart).None?
  {
    var p := Placeholder(key);
    var n := |p|;
    if 1 + n <= |t| && t[0] != '{' && t[1..1 + n] == p && (1 + n == |t| || t[1 + n] != '}') {
      assert OccursAt(t, p, 1);
      assert false;
    }
    if atStart && n <= |t| && t[..n] == p && (n == |t| || t[n] != '}') {
      assert OccursAt(t, p, 0);
      assert false;
    }
  }

  /** Escaping survives dropping the first character. */
  lemma EscapedSuffix(t: string, p: string, atStart: bool)
    requires |t| > 0 && Escaped(t, p, atStart)
    ensures Escaped(t[1..], p, false)
  {
    var n := |p|;
    forall q: nat | OccursAt(t[1..], p, q)
      ensures || (q == 0 && !false)
              || (q > 0 && t[1..][q - 1] == '{')
              || (q + n < |t[1..]| && t[1..][q + n] == '}')
    {
      OccursShift(t, p, 1, q);
    }
  }

  // ---------------------------------------------------------------------------
  // Agreement with plain substitution

  /** The intended meaning of a placeholder: every occurrence, left to right,
      becomes the value. */
  function ReplaceEvery(t: string, p: string, value: string): string
    requires |p| > 0
    decreases |t|
  {
    if |t| == 0 then ""
    else if OccursAt(t, p, 0) then value + ReplaceEvery(t[|p|..], p, value)
    else [t[0]] + ReplaceEvery(t[1..], p, value)
  }

  /** Every occurrence stands between characters that are not braces (or the
      ends of the text), and two occurrences are at least two characters
      apart, so no match consumes a character the next one needs. */
  ghost predicate Separated(t: string, p: string, atStart: bool) {
    && (forall q: nat :: OccursAt(t, p, q) ==>
          && (q == 0 ==> atStart)
          && (q > 0 ==> t[q - 1] != '{')
          && (q + |p| < |t| ==> t[q + |p|] != '}'))
    && (forall q1: nat, q2: nat :: OccursAt(t, p, q1) && OccursAt(t, p, q2) && q1 < q2 ==> q1 + |p| + 2 <= q2)
  }

  lemma SeparatedSuffix(t: string, p: string, atStart: bool, d: nat)
    requires Separated(t, p, atStart)
    requires 1 <= d <= |t|
    requires !OccursAt(t, p, d) || d == 0
    requires forall q: nat :: OccursAt(t, p, q) && q < d ==> q + |p| + 1 <= d
    ensures Separated(t[d..], p, false)
  {
    var u := t[d..];
    forall q: nat | OccursAt(u, p, q)
      ensures q == 0 ==> false
      ensures q > 0 ==> u[q - 1] != '{'
      ensures q + |p| < |u| ==> u[q + |p|] != '}'
    {
      OccursShift(t, p, d, q);
    }
    forall q1: nat, q2: nat | OccursAt(u, p, q1) && OccursAt(u, p, q2) && q1 < q2
      ensures q1 + |p| + 2 <= q2
    {
      OccursShift(t, p, d, q1);
      OccursShift(t, p, d, q2);
    }
  }

  /** Step of the scan when the placeholder opens the text. */
  lemma SeparatedStepAtHead(t: string, key: string, value: string, atStart: bool)
    requires KeyOk(key)
    requires Separated(t, Placeholder(key), atStart)
    requires OccursAt(t, Placeholder(key), 0)
    ensures var p := Placeholder(key); var n := |p|;
      && (n == |t| ==> ReplaceKey(t, key, value, atStart) == value && ReplaceEvery(t, p, value) == value)
      && (n < |t| ==>
            && ReplaceKey(t, key, value, atStart) == value + [t[n]] + ReplaceKey(t[n + 1..], key, value, false)
            && ReplaceEvery(t, p, value) == value + [t[n]] + ReplaceEvery(t[n + 1..], p, value)
            && Separated(t[n + 1..], p, false))
  {
    if |Placeholder(key)| == |t| {
      HeadAtEnd(t, key, value, atStart);
    } else {
      HeadInside(t, key, value, atStart);
    }
  }

  /** The placeholder is the whole text. */
  lemma HeadAtEnd(t: string, key: string, value: string, atStart: bool)
    requires KeyOk(key) && atStart
    requires OccursAt(t, Placeholder(key), 0) && |Placeholder(key)| == |t|
    ensures ReplaceKey(t, key, value, atStart) == value
    ensures ReplaceEvery(t, Placeholder(key), value) == value
  {
    hide MatchHere, ReplaceEvery;
    var p := Placeholder(key);
    var n := |p|;
    assert t[..n] == p;
    MatchAtStart(t, key, value);
    assert t[n..] == [];
    EveryMatch(t, p, value);
    EveryEmpty(p, value);
  }

  /** The placeholder opens the text and more text follows. */
  lemma HeadInside(t: string, key: string, value: string, atStart: bool)
    requires KeyOk(key)
    requires Separated(t, Placeholder(key), atStart)
    requires OccursAt(t, Placeholder(key), 0) && |Placeholder(key)| < |t|
    ensures var p := Placeholder(key); var n := |p|;
            && ReplaceKey(t, key, value, atStart) == value + [t[n]] + ReplaceKey(t[n + 1..], key, value, false)
            && ReplaceEvery(t, p, value) == value + [t[n]] + ReplaceEvery(t[n + 1..], p, value)
            && Separated(t[n + 1..], p, false)
  {
    hide MatchHere, ReplaceEvery;
    var p := Placeholder(key);
    var n := |p|;
    assert atStart && t[n] != '}';
    assert t[..n] == p;
    MatchAtStart(t, key, value);
    assert !OccursAt(t, p, n);
    EveryMatch(t, p, value);
    OccursShift(t, p, n, 0);
    EverySkip(t[n..], p, value);
    assert t[n..][1..] == t[n + 1..];
    forall q: nat | OccursAt(t, p, q) && q < n + 1 ensures q + n + 1 <= n + 1 {
      assert q > 0 ==> 0 + n + 2 <= q;
    }
    if n + 1 < |t| {
      assert !OccursAt(t, p, n + 1);
    }
    SeparatedSuffix(t, p, atStart, n + 1);
  }

  /** Step of the scan when the placeholder starts at the second character. */
  lemma SeparatedStepAtSecond(t: string, key: string, value: string, atStart: bool)
    requires KeyOk(key)
    requires Separated(t, Placeholder(key), atStart)
    requires !OccursAt(t, Placeholder(key), 0) && OccursAt(t, Placeholder(key), 1)
    ensures var p := Placeholder(key); var n := |p|;
      && (n + 1 == |t| ==> ReplaceKey(t, key, value, atStart) == [t[0]] + value && ReplaceEvery(t, p, value) == [t[0]] + value)
      && (n + 1 < |t| ==>
            && ReplaceKey(t, key, value, atStart) == [t[0]] + value + [t[n + 1]] + ReplaceKey(t[n + 2..], key, value, false)
            && ReplaceEvery(t, p, value) == [t[0]] + value + [t[n + 1]] + ReplaceEvery(t[n + 2..], p, value)
            && Separated(t[n + 2..], p, false))
  {
    var p := Placeholder(key);
    if |p| + 1 == |t| {
      SecondAtEnd(t, key, value, atStart);
    } else {
      SecondInside(t, key, value, atStart);
    }
  }

  /** The placeholder at the second character ends the text. */
  lemma SecondAtEnd(t: string, key: string, value: string, atStart: bool)
    requires KeyOk(key) && |Placeholder(key)| + 1 == |t|
    requires OccursAt(t, Placeholder(key), 1) && t[0] != '{'
    ensures ReplaceKey(t, key, value, atStart) == [t[0]] + value
    ensures ReplaceEvery(t, Placeholder(key), value) == [t[0]] + value
  {
    hide MatchHere, ReplaceEvery;
    var p := Placeholder(key);
    var n := |p|;
    assert t[1..1 + n] == p;
    MatchAfterOne(t, key, value, atStart);
    assert t[1 + n..] == [];
    assert !OccursAt(t, p, 0) by {
      assert p[0] == '{';
    }
    EverySkip(t, p, value);
    OccursShift(t, p, 1, 0);
    EveryMatch(t[1..], p, value);
    assert t[1..][n..] == [];
    EveryEmpty(p, value);
  }

  /** The placeholder at the second character is followed by more text. */
  lemma SecondInside(t: string, key: string, value: string, atStart: bool)
    requires KeyOk(key)
    requires Separated(t, Placeholder(key), atStart)
    requires !OccursAt(t, Placeholder(key), 0) && OccursAt(t, Placeholder(key), 1)
    requires |Placeholder(key)| + 1 < |t|
    ensures var p := Placeholder(key); var n := |p|;
            && ReplaceKey(t, key, value, atStart) == [t[0]] + value + [t[n + 1]] + ReplaceKey(t[n + 2..], key, value, false)
            && ReplaceEvery(t, p, value) == [t[0]] + value + [t[n + 1]] + ReplaceEvery(t[n + 2..], p, value)
            && Separated(t[n + 2..], p, false)
  {
    hide MatchHere;
    var p := Placeholder(key);
    var n := |p|;
    assert t[0] != '{';
    assert t[1..1 + n] == p;
    assert t[1 + n] != '}';
    MatchAfterOne(t, key, value, atStart);
    assert ReplaceKey(t, key, value, atStart) == [t[0]] + value + [t[n + 1]] + ReplaceKey(t[n + 2..], key, value, false);
    SecondInsideEvery(t, p, value);
    forall q: nat | OccursAt(t, p, q) && q < 2 + n ensures q + n + 1 <= 2 + n {
      assert q > 1 ==> 1 + n + 2 <= q;
    }
    if 2 + n < |t| {
      assert !OccursAt(t, p, 2 + n);
    }
    SeparatedSuffix(t, p, atStart, 2 + n);
  }

  lemma SecondInsideEvery(t: string, p: string, value: string)
    requires |p| > 0 && p[0] == '{' && |p| + 1 < |t|
    requires !OccursAt(t, p, 0) && OccursAt(t, p, 1) && !OccursAt(t, p, |p| + 1)
    ensures ReplaceEvery(t, p, value) == [t[0]] + value + [t[|p| + 1]] + ReplaceEvery(t[|p| + 2..], p, value)
  {
    hide ReplaceEvery;
    var n := |p|;
    EverySkip(t, p, value);
    OccursShift(t, p, 1, 0);
    EveryMatch(t[1..], p, value);
    assert t[1..][n..] == t[1 + n..];
    OccursShift(t, p, 1 + n, 0);
    EverySkip(t[1 + n..], p, value);
    assert t[1 + n..][1..] == t[2 + n..];
  }

  lemma EveryEmpty(p: string, value: string)
    requires |p| > 0
    ensures ReplaceEvery([], p, value) == []
  {
  }

  lemma EveryMatch(t: string, p: string, value: string)
    requires |p| > 0 && OccursAt(t, p, 0)
    ensures ReplaceEvery(t, p, value) == value + ReplaceEvery(t[|p|..], p, value)
  {
  }

  lemma EverySkip(t: string, p: string, value: string)
    requires |p| > 0 && |t| > 0 && !OccursAt(t, p, 0)
    ensures ReplaceEvery(t, p, value) == [t[0]] + ReplaceEvery(t[1..], p, value)
  {
  }

  /** Step of the scan when no placeholder starts at the first two characters. */
  lemma SeparatedStepPlain(t: string, key: string, value: string, atStart: bool)
    requires KeyOk(key)
    requires Separated(t, Placeholder(key), atStart)
    requires |t| > 0
    requires !OccursAt(t, Placeholder(key), 0) && !OccursAt(t, Placeholder(key), 1)
    ensures ReplaceKey(t, key, value, atStart) == [t[0]] + ReplaceKey(t[1..], key, value, false)
    ensures ReplaceEvery(t, Placeholder(key), value) == [t[0]] + ReplaceEvery(t[1..], Placeholder(key), value)
    ensures Separated(t[1..], Placeholder(key), false)
  {
    var p := Placeholder(key);
    var n := |p|;
    assert MatchHere(t, key, value, atStart).None? by {
      assert 1 + n <= |t| ==> t[1..1 + n] != p;
      assert n <= |t| ==> t[..n] == t[0..n] != p;
    }
    SeparatedSuffix(t, p, atStart, 1);
  }

  /** On separated placeholders the regex substitution is the intended one:
      each occurrence becomes the value and nothing else changes. */
  lemma {:induction false} ReplaceKeyAgreesWhenSeparated(t: string, key: string, value: string, atStart: bool)
    requires KeyOk(key)
    requires Separated(t, Placeholder(key), atStart)
    ensures ReplaceKey(t, key, value, atStart) == ReplaceEvery(t, Placeholder(key), value)
    decreases |t|
  {
    var p := Placeholder(key);
    var n := |p|;
    if |t| == 0 {
    } else if OccursAt(t, p, 0) {
      SeparatedStepAtHead(t, key, value, atStart);
      if n < |t| {
        ReplaceKeyAgreesWhenSeparated(t[n + 1..], key, value, false);
      }
    } else if OccursAt(t, p, 1) {
      SeparatedStepAtSecond(t, key, value, atStart);
      if n + 1 < |t| {
        ReplaceKeyAgreesWhenSeparated(t[n + 2..], key, value, false);
      }
    } else {
      SeparatedStepPlain(t, key, value, atStart);
      ReplaceKeyAgreesWhenSeparated(t[1..], key, value, false);
    }
  }

  lemma BraceFreeTailUnchanged(post: string, key: string, value: string)
    requires KeyOk(key)
    requires NoBrace(post) && |post| > 0
    ensures ReplaceKey(post[1..], key, value, false) == post[1..]
  {
    assert NoBrace(post[1..]) by {
      forall i | 0 <= i < |post[1..]| ensures !IsBrace(post[1..][i]) {
        assert post[1..][i] == post[i + 1];
      }
    }
    forall j: nat ensures !OccursAt(post[1..], Placeholder(key), j) {
      NoPlaceholderInBraceFree(post[1..], key, j);
    }
    ReplaceKeyWithoutPlaceholder(post[1..], key, value, false);
  }

  /** Between brace-free text, the single placeholder of a key becomes its value. */
  lemma {:induction false} ReplaceKeyIsolated(pre: string, key: string, value: string, post: string, atStart: bool)
    requires KeyOk(key)
    requires NoBrace(pre) && NoBrace(post)
    requires |pre| == 0 ==> atStart
    ensures ReplaceKey(pre + Placeholder(key) + post, key, value, atStart) == pre + value + post
    decreases |pre|
  {
    hide ReplaceKey, MatchHere;
    if |pre| == 0 {
      IsolatedAtHead(key, value, post, atStart);
      assert pre + Placeholder(key) + post == Placeholder(key) + post;
    } else if |pre| == 1 {
      IsolatedAfterOne(pre, key, value, post, atStart);
    } else {
      IsolatedPlainStep(pre, key, value, post, atStart);
      assert NoBrace(pre[1..]) by {
        forall i | 0 <= i < |pre[1..]| ensures !IsBrace(pre[1..][i]) {
          assert pre[1..][i] == pre[i + 1];
        }
      }
      ReplaceKeyIsolated(pre[1..], key, value, post, false);
      assert [pre[0]] + pre[1..] == pre;
    }
  }

  lemma IsolatedAtHead(key: string, value: string, post: string, atStart: bool)
    requires KeyOk(key) && NoBrace(post) && atStart
    ensures ReplaceKey(Placeholder(key) + post, key, value, atStart) == value + post
  {
    hide MatchHere, ReplaceKey;
    var p := Placeholder(key);
    var n := |p|;
    var t := p + post;
    assert t[..n] == p;
    if |post| == 0 {
      MatchAtStart(t, key, value);
      ReplaceKeyHit(t, key, value, atStart);
      assert t[n..] == [];
      ReplaceKeyEmpty(key, value);
    } else {
      BraceFreeTailUnchanged(post, key, value);
      assert t[n] == post[0] && !IsBrace(post[0]);
      MatchAtStart(t, key, value);
      ReplaceKeyHit(t, key, value, atStart);
      assert t[n + 1..] == post[1..];
      assert value + [post[0]] + post[1..] == value + post;
    }
  }

  /** One step of the scan at a match. */
  lemma ReplaceKeyHit(t: string, key: string, value: string, atStart: bool)
    requires |t| > 0 && MatchHere(t, key, value, atStart).Some?
    ensures var h := MatchHere(t, key, value, atStart).value;
            ReplaceKey(t, key, value, atStart) == h.text + ReplaceKey(t[h.len..], key, value, false)
  {
  }

  lemma ReplaceKeyEmpty(key: string, value: string)
    ensures ReplaceKey([], key, value, false) == []
  {
  }

  lemma IsolatedAfterOne(pre: string, key: string, value: string, post: string, atStart: bool)
    requires KeyOk(key) && NoBrace(pre) && NoBrace(post) && |pre| == 1
    ensures ReplaceKey(pre + Placeholder(key) + post, key, value, atStart) == pre + value + post
  {
    hide MatchHere;
    var p := Placeholder(key);
    var n := |p|;
    var t := pre + p + post;
    assert t[1..1 + n] == p;
    assert t[0] == pre[0] && !IsBrace(pre[0]);
    if |post| == 0 {
      MatchAfterOne(t, key, value, atStart);
      assert t[1 + n..] == [];
    } else {
      BraceFreeTailUnchanged(post, key, value);
      assert t[1 + n] == post[0];
      MatchAfterOne(t, key, value, atStart);
      assert t[2 + n..] == post[1..];
      assert [pre[0]] + value + [post[0]] + post[1..] == pre + value + post;
    }
  }

  lemma IsolatedPlainStep(pre: string, key: string, value: string, post: string, atStart: bool)
    requires KeyOk(key) && NoBrace(pre) && |pre| >= 2
    ensures ReplaceKey(pre + Placeholder(key) + post, key, value, atStart)
         == [pre[0]] + ReplaceKey(pre[1..] + Placeholder(key) + post, key, value, false)
  {
    var p := Placeholder(key);
    var n := |p|;
    var t := pre + p + post;
    assert t[0] == pre[0] && t[1] == pre[1];
    assert MatchHere(t, key, value, atStart).None? by {
      assert !IsBrace(pre[1]) && !IsBrace(pre[0]);
      assert p[0] == '{';
      assert 1 + n <= |t| ==> t[1..1 + n][0] == t[1];
      assert n <= |t| ==> t[..n][0] == t[0];
    }
    assert t[1..] == pre[1..] + p + post;
  }

  // ---------------------------------------------------------------------------
  // Brace collapsing

  /** The escape the collapse undoes: every brace written twice. */
  function EscapeBraces(s: string): string
    decreases |s|
  {
    if |s| == 0 then ""
    else if IsBrace(s[0]) then [s[0], s[0]] + EscapeBraces(s[1..])
    else [s[0]] + EscapeBraces(s[1..])
  }

  /** `{{` and `}}` are escapes for literal braces: collapsing an escaped text
      gives the text back. */
  lemma {:induction false} CollapseEscapeRoundTrip(s: string)
    ensures CollapseBraces(EscapeBraces(s)) == s
    decreases |s|
  {
    if |s| > 0 {
      var e := EscapeBraces(s);
      CollapseEscapeRoundTrip(s[1..]);
      if IsBrace(s[0]) {
        assert e[2..] == EscapeBraces(s[1..]);
      } else {
        assert e[1..] == EscapeBraces(s[1..]);
      }
      assert [s[0]] + s[1..] == s;
    }
  }

  lemma {:induction false} CollapseWithoutBraces(s: string)
    requires NoBrace(s)
    ensures CollapseBraces(s) == s
    decreases |s|
  {
    if |s| > 0 {
      assert NoBrace(s[1..]) by {
        forall i | 0 <= i < |s[1..]| ensures !IsBrace(s[1..][i]) {
          assert s[1..][i] == s[i + 1];
        }
      }
      CollapseWithoutBraces(s[1..]);
      assert [s[0]] + s[1..] == s;
    }
  }

  // ---------------------------------------------------------------------------
  // Whole-template properties

  /** Keys whose placeholder the text does not contain leave it unchanged. */
  lemma {:induction false} SubstituteWithoutPlaceholders(t: string, values: seq<(string, string)>)
    requires forall i, j: nat :: 0 <= i < |values| && KeyOk(values[i].0) ==> !OccursAt(t, Placeholder(values[i].0), j)
    ensures Substitute(t, values) == t
    decreases |values|
  {
    if |values| > 0 {
      if KeyOk(values[0].0) {
        ReplaceKeyWithoutPlaceholder(t, values[0].0, values[0].1, true);
      }
      SubstituteWithoutPlaceholders(t, values[1..]);
    }
  }

  /** A brace-free template is rendered verbatim, whatever the values. */
  lemma FormatBraceFreeTemplate(template: string, values: seq<(string, string)>)
    requires ValuesOk(values)
    requires NoBrace(template)
    ensures Format(template, values) == template
  {
    forall i, j: nat | 0 <= i < |values| && KeyOk(values[i].0)
      ensures !OccursAt(template, Placeholder(values[i].0), j)
    {
      NoPlaceholderInBraceFree(template, values[i].0, j);
    }
    SubstituteWithoutPlaceholders(template, values);
    CollapseWithoutBraces(template);
  }

  /** A template with one placeholder between brace-free text renders to the
      text around it with the value of the LAST entry for that key in place,
      provided no earlier entry names the same key. */
  lemma FormatSinglePlaceholder(pre: string, key: string, post: string, before: seq<(string, string)>, value: string)
    requires KeyOk(key) && !AllDigits(key)
    requires NoBrace(pre) && NoBrace(post) && NoBrace(value) && NoDollar(value)
    requires ValuesOk(before)
    requires forall i :: 0 <= i < |before| ==> before[i].0 != key
    ensures ValuesOk(before + [(key, value)])
    ensures Format(pre + Placeholder(key) + post, before + [(key, value)]) == pre + value + post
  {
    var t := pre + Placeholder(key) + post;
    var values := before + [(key, value)];
    forall i, j: nat | 0 <= i < |before| && KeyOk(before[i].0)
      ensures !OccursAt(t, Placeholder(before[i].0), j)
    {
      if OccursAt(t, Placeholder(before[i].0), j) {
        PlaceholderOnlyAt(pre, key, post, before[i].0, j);
      }
    }
    SubstituteWithoutPlaceholders(t, before);
    SubstituteSplit(t, before, [(key, value)]);
    ReplaceKeyIsolated(pre, key, value, post, true);
    assert Substitute(t, values) == pre + value + post;
    assert NoBrace(pre + value + post) by {
      forall i | 0 <= i < |pre + value + post| ensures !IsBrace((pre + value + post)[i]) {
        if i < |pre| {
        } else if i < |pre| + |value| {
          assert (pre + value + post)[i] == value[i - |pre|];
        } else {
          assert (pre + value + post)[i] == post[i - |pre| - |value|];
        }
      }
    }
    CollapseWithoutBraces(pre + value + post);
  }

  /** In `pre + {key} + post` with brace-free surroundings the only opening
      brace is the one of the placeholder. */
  lemma OpenBraceOnlyAt(pre: string, key: string, post: string, i: nat)
    requires KeyOk(key) && NoBrace(pre) && NoBrace(post)
    requires i < |pre + Placeholder(key) + post|
    ensures (pre + Placeholder(key) + post)[i] == '{' <==> i == |pre|
  {
    var t := pre + Placeholder(key) + post;
    if i < |pre| {
      assert t[i] == pre[i];
    } else if i == |pre| {
    } else if i <= |pre| + |key| {
      assert t[i] == key[i - |pre| - 1] && KeyChar(key[i - |pre| - 1]);
    } else if i == |pre| + |key| + 1 {
    } else {
      assert t[i] == post[i - |pre| - |key| - 2];
    }
  }

  /** In `pre + {key} + post` with brace-free surroundings, the only
      placeholder that occurs is `{key}` itself, at the end of `pre`. */
  lemma PlaceholderOnlyAt(pre: string, key: string, post: string, other: string, j: nat)
    requires KeyOk(key) && KeyOk(other)
    requires NoBrace(pre) && NoBrace(post)
    requires OccursAt(pre + Placeholder(key) + post, Placeholder(other), j)
    ensures other == key
  {
    var t := pre + Placeholder(key) + post;
    var q := Placeholder(other);
    PlaceholderShape(t, other, j);
    OpenBraceOnlyAt(pre, key, post, j);
    // the closing brace of either placeholder is the first `}` after position j
    assert OccursAt(t, Placeholder(key), |pre|) by {
      assert t[|pre|..|pre| + |key| + 2] == Placeholder(key);
    }
    PlaceholderShape(t, key, |pre|);
    assert |other| == |key|;
    assert t[j..j + |q|] == Placeholder(key);
    assert other == q[1..|q| - 1] == key;
  }

  lemma {:induction false} SubstituteSplit(t: string, a: seq<(string, string)>, b: seq<(string, string)>)
    ensures Substitute(t, a + b) == Substitute(Substitute(t, a), b)
    decreases |a|
  {
    if |a| > 0 {
      assert (a + b)[1..] == a[1..] + b;
      SubstituteSplit(SubstituteOne(t, a[0]), a[1..], b);
    } else {
      assert a + b == b;
    }
  }

  // ---------------------------------------------------------------------------
  // Worked examples

  /** The neighbour consumed by the first match hides an immediately repeated
      placeholder from the same pass. */
  lemma AdjacentRepeatNotReplaced()
    ensures ValuesOk([("a", "v")]) && Format("{a}{a}", [("a", "v")]) == "v{a}"
  {
    assert !IsDigit('a');
    var t := "{a}{a}";
    assert t[0] == '{' && t[3] == '{';
    assert t[..3] == Placeholder("a");
    assert |Placeholder("a")| == 3;
    MatchAtStart(t, "a", "v");
    assert "v" + [t[3]] == "v{";
    assert MatchHere(t, "a", "v", true) == Some(Hit(4, "v{"));
    assert t[4..] == "a}";
    assert MatchHere("a}", "a", "v", false).None?;
    assert "a}"[1..] == "}";
    assert MatchHere("}", "a", "v", false).None?;
    assert ReplaceKey(t, "a", "v", true) == "v{a}";
    assert Substitute(t, [("a", "v")]) == "v{a}";
    assert CollapseBraces("}") == "}";
    assert CollapseBraces("a}") == "a}";
    assert CollapseBraces("{a}") == "{a}";
    assert CollapseBraces("v{a}") == "v{a}";
  }

  /** `{{weight}}` renders as the literal `{weight}`. */
  lemma DoubledBracesEscapePlaceholder()
    ensures ValuesOk([("weight", "400")]) && Format("{{weight}}", [("weight", "400")]) == "{weight}"
  {
    assert !IsDigit('w');
    EscapedWeightNotSubstituted();
    EscapedWeightCollapses();
  }

  lemma EscapedWeightNotSubstituted()
    ensures Substitute("{{weight}}", [("weight", "400")]) == "{{weight}}"
  {
    EscapedWeight();
    ReplaceKeyEscapedUnchanged("{{weight}}", "weight", "400", true);
  }

  lemma EscapedWeightCollapses()
    ensures CollapseBraces("{{weight}}") == "{weight}"
  {
    assert "{{weight}}" == "{{" + "weight" + "}}";
    assert NoBrace("weight");
    CollapseEscaped("weight");
    assert "{" + "weight" + "}" == "{weight}";
  }

  /** A doubled brace pair around brace-free text collapses to single braces. */
  lemma CollapseEscaped(w: string)
    requires NoBrace(w)
    ensures CollapseBraces("{{" + w + "}}") == "{" + w + "}"
  {
    var t := "{{" + w + "}}";
    assert t[2..] == w + ['}', '}'];
    assert CollapseBraces(t) == "{" + CollapseBraces(t[2..]);
    CollapseSuffix(w, '}');
    assert "{" + (w + ['}']) == "{" + w + "}";
  }

  lemma EscapedWeight()
    ensures Escaped("{{weight}}", Placeholder("weight"), true)
  {
    var t := "{{weight}}";
    var p := Placeholder("weight");
    assert |p| == 8 && p[0] == '{' && p[1] == 'w';
    assert |t| == 10 && t[0] == '{' && t[1] == '{' && t[2] == 'w';
    forall q: nat | OccursAt(t, p, q)
      ensures q == 1
    {
      assert t[q..q + 8][0] == t[q] && t[q..q + 8][1] == t[q + 1];
      assert t[q] == '{' && t[q + 1] == 'w';
    }
  }

  lemma {:induction false} CollapseSuffix(w: string, c: char)
    requires NoBrace(w) && IsBrace(c)
    ensures CollapseBraces(w + [c, c]) == w + [c]
    decreases |w|
  {
    if |w| == 0 {
      assert CollapseBraces([c, c]) == [c] + CollapseBraces([]);
    } else {
      assert (w + [c, c])[1..] == w[1..] + [c, c];
      assert NoBrace(w[1..]) by {
        forall i | 0 <= i < |w[1..]| ensures !IsBrace(w[1..][i]) {
          assert w[1..][i] == w[i + 1];
        }
      }
      CollapseSuffix(w[1..], c);
      assert !IsBrace(w[0]);
    }
  }
}
