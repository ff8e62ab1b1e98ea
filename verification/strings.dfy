/** String primitives with the semantics of the JavaScript built-ins the
    font downloader relies on: `indexOf`, `replace` with a string pattern,
    `trim`, `split`, `join`, the `\s` character class and `String(n)`. */
module Strings {
  import opened Results

  /** The code points JavaScript's `\s` matches and `trim` removes
      (WhiteSpace and LineTerminator). */
  predicate IsSpace(c: char) {
    || 9 <= c as int <= 13
    || c == ' '
    || c as int == 0xA0
    || c as int == 0x1680
    || 0x2000 <= c as int <= 0x200A
    || c as int == 0x2028
    || c as int == 0x2029
    || c as int == 0x202F
    || c as int == 0x205F
    || c as int == 0x3000
    || c as int == 0xFEFF
  }

  predicate NoSpace(s: string) {
    forall i :: 0 <= i < |s| ==> !IsSpace(s[i])
  }

  predicate IsDigit(c: char) {
    '0' <= c <= '9'
  }

  predicate StartsWith(s: string, prefix: string) {
    |prefix| <= |s| && s[..|prefix|] == prefix
  }

  predicate EndsWith(s: string, suffix: string) {
    |suffix| <= |s| && s[|s| - |suffix|..] == suffix
  }

  // ---------------------------------------------------------------------------
  // Searching

  /** `pat` occurs in `s` starting at index `k`. */
  predicate OccursAt(s: string, pat: string, k: nat) {
    k + |pat| <= |s| && s[k..k + |pat|] == pat
  }

  predicate Occurs(s: string, pat: string) {
    exists k: nat | k <= |s| :: OccursAt(s, pat, k)
  }

  function IndexOfFrom(s: string, pat: string, k: nat): (r: Option<nat>)
    requires k <= |s|
    ensures r.Some? ==> k <= r.value && OccursAt(s, pat, r.value)
    ensures r.Some? ==> forall j: nat :: k <= j < r.value ==> !OccursAt(s, pat, j)
    ensures r.None? ==> forall j: nat :: k <= j ==> !OccursAt(s, pat, j)
    decreases |s| - k
  {
    if OccursAt(s, pat, k) then Some(k)
    else if k == |s| then None
    else IndexOfFrom(s, pat, k + 1)
  }

  /** `String.prototype.indexOf`: the least index at which `pat` occurs. */
  function IndexOf(s: string, pat: string): (r: Option<nat>)
    ensures r.Some? <==> Occurs(s, pat)
    ensures r.Some? ==> OccursAt(s, pat, r.value)
    ensures r.Some? ==> forall j: nat :: j < r.value ==> !OccursAt(s, pat, j)
  {
    IndexOfFrom(s, pat, 0)
  }

  // ---------------------------------------------------------------------------
  // `String.prototype.replace(string, string)`

  /** The replacement-pattern expansion (GetSubstitution) of a replace whose
      pattern is a plain string, so that there are no capture groups:
      `$$` is a dollar, `$&` the matched text, `` $` `` the text before the
      match and `$'` the text after it; every other `$` is literal. */
  function Expand(rep: string, matched: string, before: string, after: string): string
    decreases |rep|
  {
    if |rep| == 0 then ""
    else if rep[0] == '$' && |rep| >= 2 && rep[1] == '$' then "$" + Expand(rep[2..], matched, before, after)
    else if rep[0] == '$' && |rep| >= 2 && rep[1] == '&' then matched + Expand(rep[2..], matched, before, after)
    else if rep[0] == '$' && |rep| >= 2 && rep[1] == '`' then before + Expand(rep[2..], matched, before, after)
    else if rep[0] == '$' && |rep| >= 2 && rep[1] == '\'' then after + Expand(rep[2..], matched, before, after)
    else [rep[0]] + Expand(rep[1..], matched, before, after)
  }

  predicate NoDollar(s: string) {
    '$' !in s
  }

  lemma {:induction false} ExpandWithoutDollar(rep: string, matched: string, before: string, after: string)
    requires NoDollar(rep)
    ensures Expand(rep, matched, before, after) == rep
    decreases |rep|
  {
    if |rep| > 0 {
      assert rep[0] != '$';
      assert NoDollar(rep[1..]) by {
        forall i | 0 <= i < |rep[1..]| ensures rep[1..][i] != '$' {
          assert rep[1..][i] == rep[i + 1];
        }
      }
      ExpandWithoutDollar(rep[1..], matched, before, after);
      assert [rep[0]] + rep[1..] == rep;
    }
  }

  /** `s.replace(pat, rep)` with a string `pat`: only the first occurrence is
      replaced, and `rep` goes through the `$`-pattern expansion. */
  function ReplaceFirst(s: string, pat: string, rep: string): (r: string)
    ensures !Occurs(s, pat) ==> r == s
    ensures Occurs(s, pat) && NoDollar(rep) ==> |r| == |s| - |pat| + |rep|
  {
    match IndexOf(s, pat)
    case None => s
    case Some(k) =>
      var before := s[..k];
      var after := s[k + |pat|..];
      if NoDollar(rep) then ExpandWithoutDollar(rep, pat, before, after); before + Expand(rep, pat, before, after) + after
      else before + Expand(rep, pat, before, after) + after
  }

  /** The replacement lands exactly where the first occurrence stood: text
      before it and everything after it (including later occurrences of the
      same pattern) is left as it was. */
  lemma ReplaceFirstSplices(a: string, pat: string, b: string, rep: string)
    requires forall j: nat :: j < |a| ==> !OccursAt(a + pat + b, pat, j)
    requires NoDollar(rep)
    ensures ReplaceFirst(a + pat + b, pat, rep) == a + rep + b
  {
    var s := a + pat + b;
    assert OccursAt(s, pat, |a|) by {
      assert s[|a|..|a| + |pat|] == pat;
    }
    var k := IndexOf(s, pat).value;
    assert k == |a|;
    assert s[..k] == a;
    assert s[k + |pat|..] == b;
    ExpandWithoutDollar(rep, pat, a, b);
  }

  // ---------------------------------------------------------------------------
  // Whitespace

  /** The number of whitespace characters `s` starts with. */
  function LeadingSpaces(s: string): (n: nat)
    ensures n <= |s|
    ensures forall i :: 0 <= i < n ==> IsSpace(s[i])
    ensures n < |s| ==> !IsSpace(s[n])
    decreases |s|
  {
    if |s| > 0 && IsSpace(s[0]) then
      var n := LeadingSpaces(s[1..]);
      assert forall i :: 1 <= i < n + 1 ==> s[i] == s[1..][i - 1];
      n + 1
    else 0
  }

  /** The number of whitespace characters `s` ends with. */
  function TrailingSpaces(s: string): (n: nat)
    ensures n <= |s|
    ensures forall i :: |s| - n <= i < |s| ==> IsSpace(s[i])
    ensures n < |s| ==> !IsSpace(s[|s| - 1 - n])
    decreases |s|
  {
    if |s| > 0 && IsSpace(s[|s| - 1]) then
      var n := TrailingSpaces(s[..|s| - 1]);
      assert forall i :: |s| - 1 - n <= i < |s| - 1 ==> s[i] == s[..|s| - 1][i];
      n + 1
    else 0
  }

  /** The text after its leading whitespace. */
  function TrimStart(s: string): (r: string)
    ensures |r| <= |s|
    ensures |s| > 0 && IsSpace(s[0]) ==> |r| < |s|
    ensures |r| > 0 ==> !IsSpace(r[0])
  {
    s[LeadingSpaces(s)..]
  }

  /** `String.prototype.trim`. */
  function Trim(s: string): (r: string)
    ensures |r| > 0 ==> !IsSpace(r[0]) && !IsSpace(r[|r| - 1])
    ensures |r| <= |s|
  {
    var t := TrimStart(s);
    t[..|t| - TrailingSpaces(t)]
  }

  /** `trim` keeps one contiguous piece of the text and drops only
      whitespace around it. */
  lemma TrimKeepsMiddle(s: string)
    ensures exists a: nat, b: nat ::
      (&& a <= b <= |s| && Trim(s) == s[a..b]
       && (forall i :: 0 <= i < a ==> IsSpace(s[i]))
       && (forall i :: b <= i < |s| ==> IsSpace(s[i])))
  {
    var a := LeadingSpaces(s);
    var t := s[a..];
    var n := TrailingSpaces(t);
    var b := |s| - n;
    assert Trim(s) == t[..|t| - n];
    assert t[..|t| - n] == s[a..b];
    forall i | b <= i < |s| ensures IsSpace(s[i]) {
      assert s[i] == t[i - a];
    }
  }

  lemma TrimNoEdgeSpace(s: string)
    requires |s| > 0 ==> !IsSpace(s[0]) && !IsSpace(s[|s| - 1])
    ensures Trim(s) == s
  {
  }

  /** `s.replace(/\s+/g, rep)`: every maximal run of whitespace becomes `rep`. */
  function FoldSpaces(s: string, rep: string): (r: string)
    ensures NoSpace(rep) ==> NoSpace(r)
    ensures forall c :: c in r ==> c in s || c in rep
    decreases |s|
  {
    if |s| == 0 then ""
    else if IsSpace(s[0]) then rep + FoldSpaces(TrimStart(s), rep)
    else [s[0]] + FoldSpaces(s[1..], rep)
  }

  lemma {:induction false} FoldSpacesWithoutSpace(s: string, rep: string)
    requires NoSpace(s)
    ensures FoldSpaces(s, rep) == s
    decreases |s|
  {
    if |s| > 0 {
      assert !IsSpace(s[0]);
      assert NoSpace(s[1..]) by {
        forall i | 0 <= i < |s[1..]| ensures !IsSpace(s[1..][i]) {
          assert s[1..][i] == s[i + 1];
        }
      }
      FoldSpacesWithoutSpace(s[1..], rep);
      assert [s[0]] + s[1..] == s;
    }
  }

  /** A run of whitespace, however long, between a space-free word and text
      that does not start with whitespace folds into one `rep`. */
  lemma {:induction false} FoldSpacesSplit(a: string, w: string, b: string, rep: string)
    requires NoSpace(a)
    requires |w| > 0 && forall i :: 0 <= i < |w| ==> IsSpace(w[i])
    requires |b| > 0 ==> !IsSpace(b[0])
    ensures FoldSpaces(a + w + b, rep) == a + rep + FoldSpaces(b, rep)
    decreases |a|
  {
    if |a| == 0 {
      assert a + w + b == w + b;
      LeadingRun(w, b);
      assert TrimStart(w + b) == b;
    } else {
      assert (a + w + b)[1..] == a[1..] + w + b;
      assert (a + w + b)[0] == a[0];
      assert NoSpace(a[1..]) by {
        assert forall i :: 0 <= i < |a[1..]| ==> a[1..][i] == a[i + 1];
      }
      FoldSpacesSplit(a[1..], w, b, rep);
      assert a == [a[0]] + a[1..];
    }
  }

  /** The leading whitespace of `w + b` is exactly the run `w`. */
  lemma LeadingRun(w: string, b: string)
    requires forall i :: 0 <= i < |w| ==> IsSpace(w[i])
    requires |b| > 0 ==> !IsSpace(b[0])
    ensures LeadingSpaces(w + b) == |w|
  {
    var s := w + b;
    var n := LeadingSpaces(s);
    if |b| > 0 {
      assert s[|w|] == b[0];
    }
  }

  // ---------------------------------------------------------------------------
  // Case

  function LowerChar(c: char): char {
    if 'A' <= c <= 'Z' then (c as int + 32) as char else c
  }

  /** `toLowerCase` restricted to ASCII letters. */
  function ToLower(s: string): (r: string)
    ensures |r| == |s|
    ensures forall i :: 0 <= i < |s| ==> r[i] == LowerChar(s[i])
  {
    seq(|s|, i requires 0 <= i < |s| => LowerChar(s[i]))
  }

  // ---------------------------------------------------------------------------
  // split / join

  function CharIndex(s: string, c: char): (k: nat)
    requires c in s
    ensures k < |s| && s[k] == c && c !in s[..k]
  {
    if s[0] == c then 0
    else
      var k := CharIndex(s[1..], c);
      assert s[..k + 1] == [s[0]] + s[1..][..k];
      k + 1
  }

  /** `s.split(c)` for a one-character separator. */
  function SplitOn(s: string, c: char): (parts: seq<string>)
    ensures |parts| >= 1
    ensures forall i :: 0 <= i < |parts| ==> c !in parts[i]
    decreases |s|
  {
    if c !in s then [s]
    else
      var k := CharIndex(s, c);
      [s[..k]] + SplitOn(s[k + 1..], c)
  }

  /** `parts.join(sep)`. */
  function Join(parts: seq<string>, sep: string): string
    decreases |parts|
  {
    if |parts| == 0 then ""
    else if |parts| == 1 then parts[0]
    else parts[0] + sep + Join(parts[1..], sep)
  }

  /** Splitting and joining again with the same separator gives the input back. */
  lemma {:induction false} JoinSplit(s: string, c: char)
    ensures Join(SplitOn(s, c), [c]) == s
    decreases |s|
  {
    if c in s {
      var k := CharIndex(s, c);
      var parts := SplitOn(s, c);
      var rest := SplitOn(s[k + 1..], c);
      assert parts == [s[..k]] + rest;
      assert |parts| > 1 && parts[0] == s[..k] && parts[1..] == rest;
      assert Join(parts, [c]) == s[..k] + [c] + Join(rest, [c]);
      JoinSplit(s[k + 1..], c);
      assert s == s[..k] + [c] + s[k + 1..];
    }
  }

  /** Joining introduces no character besides those of the parts and the
      separator. */
  lemma {:induction false} JoinChars(parts: seq<string>, sep: string)
    ensures forall c :: c in Join(parts, sep) ==> c in sep || exists k :: 0 <= k < |parts| && c in parts[k]
    decreases |parts|
  {
    if |parts| > 1 {
      JoinChars(parts[1..], sep);
      assert forall k :: 0 <= k < |parts[1..]| ==> parts[1..][k] == parts[k + 1];
    }
  }

  /** Parts free of the separator are recovered by splitting their join. */
  lemma {:induction false} SplitJoin(parts: seq<string>, c: char)
    requires |parts| >= 1
    requires forall k :: 0 <= k < |parts| ==> c !in parts[k]
    ensures SplitOn(Join(parts, [c]), c) == parts
    decreases |parts|
  {
    if |parts| > 1 {
      var rest := Join(parts[1..], [c]);
      var s := Join(parts, [c]);
      assert s == parts[0] + [c] + rest;
      FirstSeparator(parts[0], c, rest);
      hide Join, CharIndex;
      assert SplitOn(s, c) == [parts[0]] + SplitOn(rest, c);
      SplitJoin(parts[1..], c);
      assert [parts[0]] + parts[1..] == parts;
    }
  }

  /** The first `c` of `a + [c] + b` is the one after `a` when `a` has none. */
  lemma FirstSeparator(a: string, c: char, b: string)
    requires c !in a
    ensures var s := a + [c] + b;
            && c in s && CharIndex(s, c) == |a|
            && s[..|a|] == a && s[|a| + 1..] == b
  {
    var s := a + [c] + b;
    assert s[|a|] == c;
    var k := CharIndex(s, c);
    assert s[..|a|] == a;
    assert k <= |a| by {
      assert forall i :: |a| < i <= |s| ==> s[..i][|a|] == c;
    }
  }

  /** With non-empty parts, the join starts with the first part's first
      character and ends with the last part's last character. */
  lemma {:induction false} JoinEdges(parts: seq<string>, sep: string)
    requires |parts| > 0
    requires forall k :: 0 <= k < |parts| ==> |parts[k]| > 0
    ensures |Join(parts, sep)| > 0
    ensures Join(parts, sep)[0] == parts[0][0]
    ensures Join(parts, sep)[|Join(parts, sep)| - 1] == parts[|parts| - 1][|parts[|parts| - 1]| - 1]
    decreases |parts|
  {
    if |parts| > 1 {
      var rest := parts[1..];
      assert forall k :: 0 <= k < |rest| ==> rest[k] == parts[k + 1];
      JoinEdges(rest, sep);
      var j := Join(rest, sep);
      assert Join(parts, sep) == parts[0] + sep + j;
      assert rest[|rest| - 1] == parts[|parts| - 1];
    }
  }

  // ---------------------------------------------------------------------------
  // Decimal numbers

  function DigitChar(d: nat): char
    requires d < 10
  {
    ('0' as int + d) as char
  }

  /** `String(n)` for a natural number. */
  function NatToString(n: nat): (r: string)
    ensures |r| >= 1
    ensures forall i :: 0 <= i < |r| ==> IsDigit(r[i])
    ensures |r| > 1 ==> r[0] != '0'
    decreases n
  {
    if n < 10 then [DigitChar(n)] else NatToString(n / 10) + [DigitChar(n % 10)]
  }

  /** `String(n)` for an integer. */
  function IntToString(n: int): string {
    if n < 0 then "-" + NatToString(-n) else NatToString(n)
  }

  /** The value of a string of decimal digits. */
  function DigitsValue(s: string): nat
    requires forall i :: 0 <= i < |s| ==> IsDigit(s[i])
  {
    if |s| == 0 then 0
    else
      assert IsDigit(s[|s| - 1]);
      DigitsValue(s[..|s| - 1]) * 10 + (s[|s| - 1] as int - '0' as int)
  }

  lemma {:induction false} NatToStringRoundTrip(n: nat)
    ensures DigitsValue(NatToString(n)) == n
    decreases n
  {
    if n >= 10 {
      var r := NatToString(n);
      NatToStringRoundTrip(n / 10);
      assert r[..|r| - 1] == NatToString(n / 10);
    }
  }

  /** Distinct numbers print differently. */
  lemma NatToStringInjective(m: nat, n: nat)
    requires m != n
    ensures NatToString(m) != NatToString(n)
  {
    NatToStringRoundTrip(m);
    NatToStringRoundTrip(n);
  }
}
