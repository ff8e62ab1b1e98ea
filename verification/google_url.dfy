/** `constructUrl` (main.js:376-422): the Google Fonts stylesheet URL built
    from a `{family: weights}` object and a list of subsets. */
module GoogleUrl {
  import opened Results
  import opened Strings
  import opened JsValues

  const CssApi: string := "https://fonts.googleapis.com/css"

  // ---------------------------------------------------------------------------
  // Families

  /** Survives `.replace(/[^a-z0-9+-_]/gi, '')`. Inside the class `+-_` is a
      range, `+` to `_`: besides the digits and the upper-case letters it
      admits `,` `.` `/` `:` `;` `<` `=` `>` `?` `@` `[` `\` `]` `^`. The `i`
      flag adds the lower-case letters. */
  predicate FamilyChar(c: char) {
    '+' <= c <= '_' || 'a' <= c <= 'z'
  }

  /** `.replace(/[^...]/g, '')`: drop every character outside the class. */
  function KeepChars(s: string, keep: char -> bool): (r: string)
    ensures forall i :: 0 <= i < |r| ==> keep(r[i])
    ensures forall c :: c in r ==> c in s
    ensures (forall i :: 0 <= i < |s| ==> keep(s[i])) ==> r == s
    decreases |s|
  {
    if |s| == 0 then ""
    else
      assert forall i :: 0 <= i < |s[1..]| ==> s[1..][i] == s[i + 1];
      if keep(s[0]) then
        assert [s[0]] + s[1..] == s;
        [s[0]] + KeepChars(s[1..], keep)
      else KeepChars(s[1..], keep)
  }

  /** The filter goes character by character: it distributes over
      concatenation, so the kept characters stay in order and every kept
      occurrence stays. */
  lemma {:induction false} KeepCharsAppend(a: string, b: string, keep: char -> bool)
    ensures KeepChars(a + b, keep) == KeepChars(a, keep) + KeepChars(b, keep)
    decreases |a|
  {
    if |a| == 0 {
      assert a + b == b;
    } else {
      assert (a + b)[1..] == a[1..] + b;
      assert (a + b)[0] == a[0];
      KeepCharsAppend(a[1..], b, keep);
    }
  }

  /** A single character is kept exactly when it passes. */
  lemma KeepCharsOne(c: char, keep: char -> bool)
    ensures KeepChars([c], keep) == if keep(c) then [c] else []
  {
    assert [c][1..] == [];
  }

  /** A family name as the URL carries it: trimmed, whitespace runs turned
      into `+`, characters outside the class dropped. */
  function SanitizeFamily(name: string): (r: string)
    ensures forall i :: 0 <= i < |r| ==> FamilyChar(r[i])
  {
    KeepChars(FoldSpaces(Trim(name), "+"), FamilyChar)
  }

  /** Because of the range, a `:` in a family name survives, and the
      rendered `a:b:400` then reads as family `a` with weights `b:400`. */
  lemma ColonSurvivesSanitizing()
    ensures SanitizeFamily("a:b") == "a:b"
  {
    var n := "a:b";
    assert NoSpace(n) by {
      assert forall i :: 0 <= i < |n| ==> n[i] in {'a', ':', 'b'};
    }
    TrimNoEdgeSpace(n);
    FoldSpacesWithoutSpace(n, "+");
    assert KeepChars(n, FamilyChar) == n;
  }

  /** Sanitizing a sanitized name changes nothing, so names that sanitize
      alike are merged exactly once. */
  lemma SanitizeFamilyIdempotent(name: string)
    ensures SanitizeFamily(SanitizeFamily(name)) == SanitizeFamily(name)
  {
    var r := SanitizeFamily(name);
    assert NoSpace(r);
    TrimNoEdgeSpace(r);
    FoldSpacesWithoutSpace(r, "+");
  }

  /** `'Open   Sans'`: a whitespace run of any length between two words
      becomes one `+`, and each word keeps its admitted characters. */
  lemma SanitizeSpacedWords(a: string, w: string, b: string)
    requires |a| > 0 && NoSpace(a) && |b| > 0 && NoSpace(b)
    requires |w| > 0 && forall i :: 0 <= i < |w| ==> IsSpace(w[i])
    ensures SanitizeFamily(a + w + b) == KeepChars(a, FamilyChar) + "+" + KeepChars(b, FamilyChar)
  {
    hide KeepChars, FoldSpaces, Trim;
    var s := a + w + b;
    assert s[0] == a[0] && s[|s| - 1] == b[|b| - 1];
    TrimNoEdgeSpace(s);
    FoldSpacesSplit(a, w, b, "+");
    FoldSpacesWithoutSpace(b, "+");
    KeepCharsAppend(a + "+", b, FamilyChar);
    KeepCharsAppend(a, "+", FamilyChar);
    KeepCharsOne('+', FamilyChar);
    assert SanitizeFamily(s) == KeepChars(a + "+" + b, FamilyChar);
  }

  // ---------------------------------------------------------------------------
  // Weights

  /** `/^\d{3}i?$/`. */
  predicate WeightOk(w: string) {
    (|w| == 3 || (|w| == 4 && w[3] == 'i')) && IsDigit(w[0]) && IsDigit(w[1]) && IsDigit(w[2])
  }

  /** `String(weight).trim()`. */
  function WeightText(v: JsValue): string {
    Trim(ToJsString(v))
  }

  /** `.filter(weight => /^\d{3}i?$/.test(weight))`. */
  function KeepWeights(texts: seq<string>): (r: seq<string>)
    ensures forall i :: 0 <= i < |r| ==> WeightOk(r[i])
    ensures forall w :: w in r <==> w in texts && WeightOk(w)
    decreases |texts|
  {
    if |texts| == 0 then []
    else
      var rest := KeepWeights(texts[1..]);
      assert texts == [texts[0]] + texts[1..];
      if WeightOk(texts[0]) then [texts[0]] + rest else rest
  }

  /** The weight filter keeps order and repeats: it distributes over
      concatenation. */
  lemma {:induction false} KeepWeightsAppend(a: seq<string>, b: seq<string>)
    ensures KeepWeights(a + b) == KeepWeights(a) + KeepWeights(b)
    decreases |a|
  {
    if |a| == 0 {
      assert a + b == b;
    } else {
      assert (a + b)[1..] == a[1..] + b;
      assert (a + b)[0] == a[0];
      KeepWeightsAppend(a[1..], b);
    }
  }

  /** A single text is kept exactly when it is a weight. */
  lemma KeepWeightsOne(w: string)
    ensures KeepWeights([w]) == if WeightOk(w) then [w] else []
  {
    assert [w][1..] == [];
  }

  /** A list made only of weights passes whole, order and repeats included. */
  lemma {:induction false} KeepWeightsAll(texts: seq<string>)
    requires forall k :: 0 <= k < |texts| ==> WeightOk(texts[k])
    ensures KeepWeights(texts) == texts
    decreases |texts|
  {
    if |texts| > 0 {
      assert forall k :: 0 <= k < |texts[1..]| ==> texts[1..][k] == texts[k + 1];
      KeepWeightsAll(texts[1..]);
      assert texts == [texts[0]] + texts[1..];
    }
  }

  function WeightTexts(items: seq<JsValue>): (r: seq<string>)
    ensures |r| == |items|
    ensures forall k :: 0 <= k < |items| ==> r[k] == WeightText(items[k])
  {
    seq(|items|, k requires 0 <= k < |items| => WeightText(items[k]))
  }

  /** `arrayFrom(weights, ',').map(...).filter(...)`; `undefined` and `null`
      make `Array.from` throw. A weight survives exactly when its trimmed
      text is three digits with an optional `i`. */
  function ParseWeights(v: JsValue): (r: Result<seq<string>>)
    ensures r.Err? <==> v.Undefined? || v.Null?
    ensures r.Ok? ==> forall i :: 0 <= i < |r.value| ==> WeightOk(r.value[i])
  {
    var items :- ArrayFrom(v, ',');
    Ok(KeepWeights(WeightTexts(items)))
  }

  /** The weights kept are exactly the trimmed texts of the array items that
      pass the filter. */
  lemma ParseWeightsKeeps(v: JsValue)
    requires ParseWeights(v).Ok?
    ensures forall w :: w in ParseWeights(v).value <==>
      WeightOk(w) && exists k :: 0 <= k < |ArrayFrom(v, ',').value| && w == WeightText(ArrayFrom(v, ',').value[k])
  {
    var items := ArrayFrom(v, ',').value;
    var texts := WeightTexts(items);
    assert ParseWeights(v).value == KeepWeights(texts);
    assert forall w :: w in texts <==> exists k :: 0 <= k < |items| && w == WeightText(items[k]);
  }

  /** A weight is its own trimmed text and holds no comma. */
  lemma WeightPlain(w: string)
    requires WeightOk(w)
    ensures ',' !in w && Trim(w) == w
  {
    assert forall i :: 0 <= i < |w| ==> IsDigit(w[i]) || w[i] == 'i';
    TrimNoEdgeSpace(w);
  }

  /** Weights written out as `'700,400'` or `'400,400'` come back as written,
      in their order and with their repeats; only a merge deduplicates. */
  lemma ParseWeightsWritten(ws: seq<string>)
    requires |ws| >= 1 && forall k :: 0 <= k < |ws| ==> WeightOk(ws[k])
    ensures ParseWeights(Str(Join(ws, ","))) == Ok(ws)
  {
    hide ParseWeights, KeepWeights, WeightTexts, Join, SplitOn, StrValues, WeightOk;
    forall k | 0 <= k < |ws| ensures ',' !in ws[k] {
      WeightPlain(ws[k]);
    }
    SplitJoin(ws, ',');
    ParseWeightsStr(Join(ws, ","));
    WeightTextsOfWeights(ws);
    KeepWeightsAll(ws);
  }

  lemma ParseWeightsStr(s: string)
    ensures ParseWeights(Str(s)) == Ok(KeepWeights(WeightTexts(StrValues(SplitOn(s, ',')))))
  {
  }

  lemma ParseWeightsArr(items: seq<JsValue>)
    ensures ParseWeights(Arr(items)) == Ok(KeepWeights(WeightTexts(items)))
  {
  }

  /** Weights given as strings are their own trimmed texts. */
  lemma WeightTextsOfWeights(ws: seq<string>)
    requires forall k :: 0 <= k < |ws| ==> WeightOk(ws[k])
    ensures WeightTexts(StrValues(ws)) == ws
  {
    forall k | 0 <= k < |ws| ensures WeightTexts(StrValues(ws))[k] == ws[k] {
      WeightPlain(ws[k]);
      assert WeightTexts(StrValues(ws))[k] == Trim(ws[k]);
    }
  }

  /** For an array of weights the parse goes item by item: it distributes
      over concatenation, order and repeats included. */
  lemma ParseWeightsAppend(a: seq<JsValue>, b: seq<JsValue>)
    ensures ParseWeights(Arr(a + b)) == Ok(ParseWeights(Arr(a)).value + ParseWeights(Arr(b)).value)
  {
    hide ParseWeights, KeepWeights, WeightOk, WeightText;
    ParseWeightsArr(a + b);
    ParseWeightsArr(a);
    ParseWeightsArr(b);
    assert WeightTexts(a + b) == WeightTexts(a) + WeightTexts(b);
    KeepWeightsAppend(WeightTexts(a), WeightTexts(b));
  }

  /** One array item gives its trimmed text exactly when that text is a
      weight. */
  lemma ParseWeightsOne(x: JsValue)
    ensures ParseWeights(Arr([x])) == Ok(if WeightOk(WeightText(x)) then [WeightText(x)] else [])
  {
    hide ParseWeights, KeepWeights, WeightOk, WeightText;
    ParseWeightsArr([x]);
    assert WeightTexts([x]) == [WeightText(x)];
    KeepWeightsOne(WeightText(x));
  }

  type Family = (string, seq<string>)

  /** The family one `[name, weights]` entry maps to. */
  predicate MapsTo(entry: (string, JsValue), fam: Family) {
    fam.0 == SanitizeFamily(entry.0) && ParseWeights(entry.1) == Ok(fam.1)
  }

  /** The callback of `Object.entries(families).map(...)` for one entry. */
  function ToFamily(entry: (string, JsValue)): (r: Result<Family>)
    ensures r.Err? <==> entry.1.Undefined? || entry.1.Null?
  {
    var weights :- ParseWeights(entry.1);
    Ok((SanitizeFamily(entry.0), weights))
  }

  /** The `Object.entries(families).map(...)` step. */
  function FamilyList(entries: seq<(string, JsValue)>): (r: Result<seq<Family>>)
    ensures r.Ok? <==> forall k :: 0 <= k < |entries| ==> !entries[k].1.Undefined? && !entries[k].1.Null?
    ensures r.Ok? ==> |r.value| == |entries|
    decreases |entries|
  {
    if |entries| == 0 then Ok([])
    else
      var tail := entries[1..];
      TailEntries(entries);
      var fam :- ToFamily(entries[0]);
      var rest :- FamilyList(tail);
      Ok([fam] + rest)
  }

  lemma TailEntries(entries: seq<(string, JsValue)>)
    requires |entries| > 0
    ensures (forall k :: 0 <= k < |entries| ==> !entries[k].1.Undefined? && !entries[k].1.Null?) <==>
      (!entries[0].1.Undefined? && !entries[0].1.Null? &&
       forall k :: 0 <= k < |entries[1..]| ==> !entries[1..][k].1.Undefined? && !entries[1..][k].1.Null?)
  {
    assert forall k :: 0 <= k < |entries[1..]| ==> entries[1..][k] == entries[k + 1];
  }

  lemma {:induction false} FamilyListPointwise(entries: seq<(string, JsValue)>)
    requires FamilyList(entries).Ok?
    ensures forall k :: 0 <= k < |entries| ==>
      ToFamily(entries[k]).Ok? && FamilyList(entries).value[k] == ToFamily(entries[k]).value
    decreases |entries|
  {
    hide FamilyList, ToFamily;
    if |entries| > 0 {
      var tail := entries[1..];
      FamilyListStep(entries);
      FamilyListPointwise(tail);
      var fams := FamilyList(entries).value;
      var rest := FamilyList(tail).value;
      forall k | 0 < k < |entries|
        ensures ToFamily(entries[k]).Ok? && fams[k] == ToFamily(entries[k]).value
      {
        assert fams[k] == rest[k - 1] && entries[k] == tail[k - 1];
      }
    }
  }

  lemma FamilyListStep(entries: seq<(string, JsValue)>)
    requires |entries| > 0 && FamilyList(entries).Ok?
    ensures ToFamily(entries[0]).Ok? && FamilyList(entries[1..]).Ok?
    ensures FamilyList(entries).value == [ToFamily(entries[0]).value] + FamilyList(entries[1..]).value
  {
  }

  /** Entry `k` becomes family `k`: its sanitized name with its parsed weights. */
  lemma FamilyListMaps(entries: seq<(string, JsValue)>)
    requires FamilyList(entries).Ok?
    ensures forall k :: 0 <= k < |entries| ==> MapsTo(entries[k], FamilyList(entries).value[k])
  {
    FamilyListPointwise(entries);
    forall k | 0 <= k < |entries| ensures MapsTo(entries[k], FamilyList(entries).value[k]) {
      var w := ParseWeights(entries[k].1);
      assert ToFamily(entries[k]) == Ok((SanitizeFamily(entries[k].0), w.value));
    }
  }

  // ---------------------------------------------------------------------------
  // Merging families that sanitize alike

  predicate Distinct<T(==)>(s: seq<T>) {
    forall i, j :: 0 <= i < j < |s| ==> s[i] != s[j]
  }

  /** `.filter((w, i, arr) => arr.indexOf(w) === i)`: an element is kept when
      no equal element precedes it. */
  function Dedup(s: seq<string>): (r: seq<string>)
    ensures forall x :: x in r <==> x in s
    ensures |r| <= |s|
    decreases |s|
  {
    if |s| == 0 then []
    else
      var init := s[..|s| - 1];
      assert s == init + [s[|s| - 1]];
      if s[|s| - 1] in init then Dedup(init) else Dedup(init) + [s[|s| - 1]]
  }

  lemma DedupEmpty()
    ensures Dedup([]) == []
  {
  }

  lemma DedupSnoc(s: seq<string>, x: string)
    ensures Dedup(s + [x]) == if x in s then Dedup(s) else Dedup(s) + [x]
  {
    assert (s + [x])[..|s|] == s;
  }

  /** The filter `(v, i) => list.indexOf(v) === i` read front to back from
      position `i`: an element is kept exactly when it does not occur before
      its own position, so first occurrences stay, in their original order. */
  function FirstOccurrences(s: seq<string>, i: nat): seq<string>
    requires i <= |s|
    decreases |s| - i
  {
    if i == |s| then [] else (if s[i] in s[..i] then [] else [s[i]]) + FirstOccurrences(s, i + 1)
  }

  /** `Dedup` is the front-to-back filter: it keeps the first occurrence of
      every element, in the order the elements first appear. */
  lemma {:induction false} DedupFirstOccurrences(s: seq<string>)
    ensures Dedup(s) == FirstOccurrences(s, 0)
  {
    DedupThrough(s, 0);
    assert s[..0] == [];
    DedupEmpty();
  }

  /** Deduplicating a prefix and filtering the rest front to back gives the
      deduplicated whole. */
  lemma {:induction false} DedupThrough(s: seq<string>, j: nat)
    requires j <= |s|
    ensures Dedup(s[..j]) + FirstOccurrences(s, j) == Dedup(s)
    decreases |s| - j
  {
    hide Dedup, FirstOccurrences;
    if j == |s| {
      assert s[..j] == s;
      FirstOccurrencesStep(s, j);
    } else {
      assert s[..j + 1] == s[..j] + [s[j]];
      DedupSnoc(s[..j], s[j]);
      FirstOccurrencesStep(s, j);
      DedupThrough(s, j + 1);
    }
  }

  lemma FirstOccurrencesStep(s: seq<string>, i: nat)
    requires i <= |s|
    ensures i == |s| ==> FirstOccurrences(s, i) == []
    ensures i < |s| ==> FirstOccurrences(s, i) == (if s[i] in s[..i] then [] else [s[i]]) + FirstOccurrences(s, i + 1)
  {
  }

  /** The result holds no element twice, and a list without repeats is kept
      as it is. */
  lemma {:induction false} DedupDistinct(s: seq<string>)
    ensures Distinct(Dedup(s))
    ensures Distinct(s) ==> Dedup(s) == s
    decreases |s|
  {
    hide Dedup;
    if |s| == 0 {
      DedupEmpty();
    } else {
      var init := s[..|s| - 1];
      var x := s[|s| - 1];
      assert s == init + [x];
      DedupSnoc(init, x);
      DedupDistinct(init);
      if Distinct(s) {
        assert Distinct(init) by {
          forall i, j | 0 <= i < j < |init| ensures init[i] != init[j] {
            assert init[i] == s[i] && init[j] == s[j];
          }
        }
        assert x !in init by {
          forall i | 0 <= i < |init| ensures init[i] != x {
            assert init[i] == s[i];
          }
        }
      }
    }
  }

  /** Deduplicating a prefix first changes nothing: the reduce may dedup at
      every merge or once at the end. */
  lemma {:induction false} DedupAppend(a: seq<string>, b: seq<string>)
    ensures Dedup(Dedup(a) + b) == Dedup(a + b)
    decreases |b|
  {
    hide Dedup;
    if |b| == 0 {
      assert Dedup(a) + b == Dedup(a);
      assert a + b == a;
      DedupDistinct(a);
      DedupDistinct(Dedup(a));
    } else {
      var init := b[..|b| - 1];
      var x := b[|b| - 1];
      DedupAppend(a, init);
      var d := Dedup(a);
      assert b == init + [x];
      assert d + b == (d + init) + [x];
      assert a + b == (a + init) + [x];
      DedupSnoc(d + init, x);
      DedupSnoc(a + init, x);
      assert x in d + init <==> x in a + init;
    }
  }

  function Names(fams: seq<Family>): (r: seq<string>)
    ensures |r| == |fams|
    ensures forall k :: 0 <= k < |r| ==> r[k] == fams[k].0
  {
    seq(|fams|, k requires 0 <= k < |fams| => fams[k].0)
  }

  /** One step of the reduce: a family already present gets the deduplicated
      concatenation of its weights; a new one is appended as it is. */
  function MergeInto(acc: seq<Family>, name: string, weights: seq<string>): seq<Family> {
    if exists k :: 0 <= k < |acc| && acc[k].0 == name then
      seq(|acc|, k requires 0 <= k < |acc| => if acc[k].0 == name then (name, Dedup(acc[k].1 + weights)) else acc[k])
    else acc + [(name, weights)]
  }

  function MergeAll(fams: seq<Family>): seq<Family>
    decreases |fams|
  {
    if |fams| == 0 then [] else MergeInto(MergeAll(fams[..|fams| - 1]), fams[|fams| - 1].0, fams[|fams| - 1].1)
  }

  /** How many list entries carry `name`. */
  function Occurrences(fams: seq<Family>, name: string): (n: nat)
    ensures n == 0 <==> name !in Names(fams)
    decreases |fams|
  {
    if |fams| == 0 then 0
    else
      assert Names(fams) == Names(fams[..|fams| - 1]) + [fams[|fams| - 1].0];
      Occurrences(fams[..|fams| - 1], name) + if fams[|fams| - 1].0 == name then 1 else 0
  }

  /** The weights of every entry carrying `name`, in list order. */
  function AllWeights(fams: seq<Family>, name: string): (w: seq<string>)
    ensures Occurrences(fams, name) == 0 ==> w == []
    decreases |fams|
  {
    if |fams| == 0 then []
    else AllWeights(fams[..|fams| - 1], name) + if fams[|fams| - 1].0 == name then fams[|fams| - 1].1 else []
  }

  /** What the merge should give a family: the weights of its only entry as
      they are, or those of all its entries with repeats removed. */
  function Gathered(fams: seq<Family>, name: string): seq<string> {
    if Occurrences(fams, name) <= 1 then AllWeights(fams, name) else Dedup(AllWeights(fams, name))
  }

  /** `merged` is what the reduce should have produced from `fams`. */
  predicate Gathers(fams: seq<Family>, merged: seq<Family>) {
    && Names(merged) == Dedup(Names(fams))
    && forall k :: 0 <= k < |merged| ==> merged[k].1 == Gathered(fams, merged[k].0)
  }

  lemma SnocCounts(init: seq<Family>, name: string, weights: seq<string>, g: string)
    ensures var fams := init + [(name, weights)];
            && (g != name ==> Occurrences(fams, g) == Occurrences(init, g) && AllWeights(fams, g) == AllWeights(init, g))
            && (g == name ==> Occurrences(fams, g) == Occurrences(init, g) + 1 && AllWeights(fams, g) == AllWeights(init, g) + weights)
  {
    var fams := init + [(name, weights)];
    assert fams[..|fams| - 1] == init;
    assert AllWeights(init, g) + [] == AllWeights(init, g);
  }

  /** Appending an entry for `name` leaves what every other family gathers. */
  lemma OtherGathered(init: seq<Family>, name: string, weights: seq<string>, g: string)
    requires g != name
    ensures Gathered(init + [(name, weights)], g) == Gathered(init, g)
  {
    SnocCounts(init, name, weights, g);
  }

  /** The first entry for `name` gathers its own weights. */
  lemma FirstGathered(init: seq<Family>, name: string, weights: seq<string>)
    requires name !in Names(init)
    ensures Gathered(init + [(name, weights)], name) == weights
  {
    SnocCounts(init, name, weights, name);
    assert AllWeights(init, name) == [];
    assert [] + weights == weights;
  }

  /** A later entry for `name` adds its weights and removes repeats. */
  lemma LaterGathered(init: seq<Family>, name: string, weights: seq<string>, before: seq<string>)
    requires name in Names(init)
    requires before == Gathered(init, name)
    ensures Gathered(init + [(name, weights)], name) == Dedup(before + weights)
  {
    SnocCounts(init, name, weights, name);
    assert Occurrences(init, name) >= 1;
    if Occurrences(init, name) > 1 {
      DedupAppend(AllWeights(init, name), weights);
    }
  }

  /** A family seen before: its entry takes the new weights. */
  lemma MergeSeen(init: seq<Family>, acc: seq<Family>, name: string, weights: seq<string>)
    requires Gathers(init, acc)
    requires exists k :: 0 <= k < |acc| && acc[k].0 == name
    ensures Gathers(init + [(name, weights)], MergeInto(acc, name, weights))
  {
    hide Gathered, Dedup, Occurrences, AllWeights;
    var fams := init + [(name, weights)];
    var r := MergeInto(acc, name, weights);
    assert name in Names(init) by {
      var k :| 0 <= k < |acc| && acc[k].0 == name;
      assert Names(acc)[k] == name;
    }
    assert Names(r) == Dedup(Names(fams)) by {
      assert Names(fams) == Names(init) + [name];
      DedupSnoc(Names(init), name);
      assert Names(r) == Names(acc);
    }
    forall k | 0 <= k < |r| ensures r[k].1 == Gathered(fams, r[k].0) {
      if acc[k].0 == name {
        assert r[k] == (name, Dedup(acc[k].1 + weights));
        LaterGathered(init, name, weights, acc[k].1);
      } else {
        assert r[k] == acc[k];
        OtherGathered(init, name, weights, acc[k].0);
      }
    }
  }

  /** A new family: appended with its own weights. */
  lemma MergeNew(init: seq<Family>, acc: seq<Family>, name: string, weights: seq<string>)
    requires Gathers(init, acc)
    requires !exists k :: 0 <= k < |acc| && acc[k].0 == name
    ensures Gathers(init + [(name, weights)], MergeInto(acc, name, weights))
  {
    hide Gathered, Dedup, Occurrences, AllWeights;
    var fams := init + [(name, weights)];
    var r := MergeInto(acc, name, weights);
    assert r == acc + [(name, weights)];
    assert name !in Names(init) by {
      forall k | 0 <= k < |acc| ensures Names(acc)[k] != name {
      }
    }
    assert Names(r) == Dedup(Names(fams)) by {
      assert Names(fams) == Names(init) + [name];
      DedupSnoc(Names(init), name);
      assert Names(r) == Names(acc) + [name];
    }
    forall k | 0 <= k < |r| ensures r[k].1 == Gathered(fams, r[k].0) {
      if k < |acc| {
        assert r[k] == acc[k] && acc[k].0 != name;
        OtherGathered(init, name, weights, acc[k].0);
      } else {
        assert r[k] == (name, weights);
        FirstGathered(init, name, weights);
      }
    }
  }

  /** The merge keeps one entry per family, in order of first appearance, and
      gives it the weights of all its entries: concatenated, and deduplicated
      (keeping first occurrences) once a second entry has been merged in. */
  lemma {:induction false} MergeAllGathers(fams: seq<Family>)
    ensures Names(MergeAll(fams)) == Dedup(Names(fams))
    ensures forall k :: 0 <= k < |MergeAll(fams)| ==> MergeAll(fams)[k].1 == Gathered(fams, MergeAll(fams)[k].0)
    decreases |fams|
  {
    if |fams| > 0 {
      var init := fams[..|fams| - 1];
      var last := fams[|fams| - 1];
      assert fams == init + [(last.0, last.1)];
      MergeAllGathers(init);
      if exists k :: 0 <= k < |MergeAll(init)| && MergeAll(init)[k].0 == last.0 {
        MergeSeen(init, MergeAll(init), last.0, last.1);
      } else {
        MergeNew(init, MergeAll(init), last.0, last.1);
      }
    }
  }

  // ---------------------------------------------------------------------------
  // Rendering

  /** `[family, weights.join(',').trim()].filter(x => x.length).join(':')`:
      the colon appears only between two non-empty parts. */
  function RenderFamily(name: string, weights: seq<string>): string {
    var joined := Trim(Join(weights, ","));
    if |name| > 0 && |joined| > 0 then name + ":" + joined
    else if |name| > 0 then name
    else joined
  }

  /** The joined weights: digits, `i` and commas only, so `trim` leaves
      them alone, and empty exactly when there are no weights. */
  lemma {:induction false} WeightsJoined(weights: seq<string>)
    requires forall i :: 0 <= i < |weights| ==> WeightOk(weights[i])
    ensures forall c :: c in Join(weights, ",") ==> IsDigit(c) || c == 'i' || c == ','
    ensures Trim(Join(weights, ",")) == Join(weights, ",")
    ensures |Join(weights, ",")| == 0 <==> |weights| == 0
    decreases |weights|
  {
    hide Trim;
    var joined := Join(weights, ",");
    if |weights| > 0 {
      var w := weights[0];
      assert WeightOk(w);
      forall c | c in w ensures IsDigit(c) || c == 'i' {
        var i :| 0 <= i < |w| && w[i] == c;
      }
      if |weights| > 1 {
        assert forall i :: 0 <= i < |weights[1..]| ==> weights[1..][i] == weights[i + 1];
        WeightsJoined(weights[1..]);
        assert joined == w + "," + Join(weights[1..], ",");
      }
    }
    assert NoSpace(joined) by {
      forall i | 0 <= i < |joined| ensures !IsSpace(joined[i]) {
        assert joined[i] in joined;
      }
    }
    TrimNoEdgeSpace(joined);
  }

  /** A named family renders as `family:w1,w2,...`, or as just `family` when
      no weight survived; a family whose name sanitized to nothing renders as
      its bare weight list. */
  lemma RenderFamilyCases(name: string, weights: seq<string>)
    requires forall i :: 0 <= i < |weights| ==> WeightOk(weights[i])
    ensures RenderFamily(name, weights) ==
      if name == "" then Join(weights, ",")
      else if |weights| == 0 then name
      else name + ":" + Join(weights, ",")
  {
    WeightsJoined(weights);
  }

  function RenderFamilies(fams: seq<Family>): string {
    Join(seq(|fams|, k requires 0 <= k < |fams| => RenderFamily(fams[k].0, fams[k].1)), "|")
  }

  /** No rendered family holds `|`, so the families parameter splits back
      into the rendered families, one per merged entry. */
  lemma RenderFamiliesSplit(fams: seq<Family>)
    requires |fams| > 0
    requires forall k :: 0 <= k < |fams| ==> forall i :: 0 <= i < |fams[k].0| ==> FamilyChar(fams[k].0[i])
    requires forall k :: 0 <= k < |fams| ==> forall i :: 0 <= i < |fams[k].1| ==> WeightOk(fams[k].1[i])
    ensures SplitOn(RenderFamilies(fams), '|') == seq(|fams|, k requires 0 <= k < |fams| => RenderFamily(fams[k].0, fams[k].1))
  {
    var parts := seq(|fams|, k requires 0 <= k < |fams| => RenderFamily(fams[k].0, fams[k].1));
    forall k | 0 <= k < |parts| ensures '|' !in parts[k] {
      NoBarInFamily(fams[k].0, fams[k].1);
    }
    SplitJoin(parts, '|');
  }

  lemma NoBarInFamily(name: string, weights: seq<string>)
    requires forall i :: 0 <= i < |name| ==> FamilyChar(name[i])
    requires forall i :: 0 <= i < |weights| ==> WeightOk(weights[i])
    ensures '|' !in RenderFamily(name, weights) && '&' !in RenderFamily(name, weights)
    ensures '?' in RenderFamily(name, weights) ==> '?' in name
  {
    WeightsJoined(weights);
    RenderFamilyCases(name, weights);
    assert '|' !in name && '&' !in name by {
      forall c | c in name ensures c != '|' && c != '&' {
        var j :| 0 <= j < |name| && name[j] == c;
      }
    }
  }

  /** Sanitized names and valid weights, as `FamilyList` produces them. */
  predicate WellFormed(fams: seq<Family>) {
    forall k :: 0 <= k < |fams| ==>
      && (forall i :: 0 <= i < |fams[k].0| ==> FamilyChar(fams[k].0[i]))
      && (forall i :: 0 <= i < |fams[k].1| ==> WeightOk(fams[k].1[i]))
  }

  lemma FamilyListWellFormed(entries: seq<(string, JsValue)>)
    requires FamilyList(entries).Ok?
    ensures WellFormed(FamilyList(entries).value)
  {
    var fams := FamilyList(entries).value;
    FamilyListMaps(entries);
    forall k | 0 <= k < |fams|
      ensures forall i :: 0 <= i < |fams[k].1| ==> WeightOk(fams[k].1[i])
    {
      assert MapsTo(entries[k], fams[k]);
    }
  }

  lemma MergeIntoWellFormed(acc: seq<Family>, name: string, weights: seq<string>)
    requires WellFormed(acc) && WellFormed([(name, weights)])
    ensures WellFormed(MergeInto(acc, name, weights))
  {
    var r := MergeInto(acc, name, weights);
    if exists k :: 0 <= k < |acc| && acc[k].0 == name {
      forall k | 0 <= k < |r| ensures forall i :: 0 <= i < |r[k].1| ==> WeightOk(r[k].1[i]) {
        if acc[k].0 == name {
          var all := acc[k].1 + weights;
          assert r[k].1 == Dedup(all);
          assert forall i :: 0 <= i < |weights| ==> WeightOk(weights[i]) by {
            assert [(name, weights)][0] == (name, weights);
          }
          forall i | 0 <= i < |r[k].1| ensures WeightOk(r[k].1[i]) {
            assert r[k].1[i] in all;
            var j :| 0 <= j < |all| && all[j] == r[k].1[i];
            if j >= |acc[k].1| {
              assert all[j] == weights[j - |acc[k].1|];
            } else {
              assert all[j] == acc[k].1[j];
            }
          }
        }
      }
    }
  }

  /** Merging keeps names and weights well formed. */
  lemma {:induction false} MergeAllWellFormed(fams: seq<Family>)
    requires WellFormed(fams)
    ensures WellFormed(MergeAll(fams))
    decreases |fams|
  {
    if |fams| > 0 {
      var init := fams[..|fams| - 1];
      var last := fams[|fams| - 1];
      MergeAllWellFormed(init);
      MergeIntoWellFormed(MergeAll(init), last.0, last.1);
    }
  }

  /** The families parameter never holds `&`, and holds `?` only when a
      family name does. */
  lemma RenderedFamiliesPlain(fams: seq<Family>)
    requires WellFormed(fams)
    requires forall k :: 0 <= k < |fams| ==> '?' !in fams[k].0
    ensures '?' !in RenderFamilies(fams) && '&' !in RenderFamilies(fams)
  {
    var parts := seq(|fams|, k requires 0 <= k < |fams| => RenderFamily(fams[k].0, fams[k].1));
    forall k | 0 <= k < |parts| ensures '?' !in parts[k] && '&' !in parts[k] {
      NoBarInFamily(fams[k].0, fams[k].1);
    }
    JoinChars(parts, "|");
  }

  /** Merging introduces no name: every merged name is some entry's name. */
  lemma MergedNamesFromList(fams: seq<Family>, k: nat)
    requires k < |MergeAll(fams)|
    ensures exists j :: 0 <= j < |fams| && fams[j].0 == MergeAll(fams)[k].0
  {
    MergeAllGathers(fams);
    var names := Names(MergeAll(fams));
    assert names[k] in Dedup(Names(fams));
    var j :| 0 <= j < |fams| && Names(fams)[j] == names[k];
  }

  // ---------------------------------------------------------------------------
  // Subsets and the final URL

  /** `/[a-z-]+/.test(subset)`, unanchored: one lower-case letter or hyphen
      anywhere is enough. */
  predicate SubsetOk(s: string) {
    exists i :: 0 <= i < |s| && ('a' <= s[i] <= 'z' || s[i] == '-')
  }

  /** `item` is a string that trims and lower-cases to the kept subset `w`. */
  predicate CleansTo(item: JsValue, w: string) {
    item.Str? && w == ToLower(Trim(item.s)) && SubsetOk(w)
  }

  /** `.map(subset => subset.trim().toLowerCase()).filter(...)`; an element
      that is not a string has no `trim` and throws. */
  function CleanSubsets(items: seq<JsValue>): (r: Result<seq<string>>)
    ensures r.Ok? <==> forall k :: 0 <= k < |items| ==> items[k].Str?
    decreases |items|
  {
    if |items| == 0 then Ok([])
    else if !items[0].Str? then Err(TypeError("subset.trim is not a function"))
    else
      var tail := items[1..];
      assert forall k :: 0 <= k < |tail| ==> tail[k] == items[k + 1];
      var rest :- CleanSubsets(tail);
      var s := ToLower(Trim(items[0].s));
      Ok(if SubsetOk(s) then [s] + rest else rest)
  }

  /** The kept subsets are exactly the trimmed, lower-cased strings that pass
      the filter. */
  lemma {:induction false} CleanSubsetsKeeps(items: seq<JsValue>)
    requires CleanSubsets(items).Ok?
    ensures forall w :: w in CleanSubsets(items).value <==> exists k :: 0 <= k < |items| && CleansTo(items[k], w)
    decreases |items|
  {
    hide ToLower, Trim, SubsetOk;
    if |items| > 0 {
      var tail := items[1..];
      assert forall k :: 0 <= k < |tail| ==> tail[k] == items[k + 1];
      CleanSubsetsKeeps(tail);
      var s := ToLower(Trim(items[0].s));
      var rest := CleanSubsets(tail).value;
      assert CleanSubsets(items).value == if SubsetOk(s) then [s] + rest else rest;
      assert forall w :: CleansTo(items[0], w) <==> w == s && SubsetOk(s);
      forall w | exists k :: 0 <= k < |items| && CleansTo(items[k], w)
        ensures w in CleanSubsets(items).value
      {
        var k :| 0 <= k < |items| && CleansTo(items[k], w);
        if k > 0 {
          assert CleansTo(tail[k - 1], w);
        }
      }
    }
  }

  /** The subset filter goes element by element: on concatenated lists it
      fails where either part fails and otherwise keeps both parts' subsets
      in order, repeats included. */
  lemma {:induction false} CleanSubsetsAppend(a: seq<JsValue>, b: seq<JsValue>)
    ensures CleanSubsets(a + b) ==
      if CleanSubsets(a).Err? then CleanSubsets(a)
      else if CleanSubsets(b).Err? then CleanSubsets(b)
      else Ok(CleanSubsets(a).value + CleanSubsets(b).value)
    decreases |a|
  {
    hide CleanSubsets, ToLower, Trim, SubsetOk;
    if |a| == 0 {
      assert a + b == b;
      CleanSubsetsStep(a);
      if CleanSubsets(b).Ok? {
        assert [] + CleanSubsets(b).value == CleanSubsets(b).value;
      }
    } else {
      assert (a + b)[1..] == a[1..] + b;
      assert (a + b)[0] == a[0];
      CleanSubsetsStep(a);
      CleanSubsetsStep(a + b);
      CleanSubsetsAppend(a[1..], b);
      if a[0].Str? && CleanSubsets(a[1..]).Ok? && CleanSubsets(b).Ok? {
        var s := ToLower(Trim(a[0].s));
        var front := CleanSubsets(a[1..]).value;
        var back := CleanSubsets(b).value;
        assert ([s] + front) + back == [s] + (front + back);
      }
    }
  }

  lemma CleanSubsetsStep(items: seq<JsValue>)
    ensures |items| == 0 ==> CleanSubsets(items) == Ok([])
    ensures |items| > 0 && !items[0].Str? ==> CleanSubsets(items) == Err(TypeError("subset.trim is not a function"))
    ensures |items| > 0 && items[0].Str? && CleanSubsets(items[1..]).Err? ==> CleanSubsets(items) == CleanSubsets(items[1..])
    ensures |items| > 0 && items[0].Str? && CleanSubsets(items[1..]).Ok? ==>
              var s := ToLower(Trim(items[0].s));
              var rest := CleanSubsets(items[1..]).value;
              CleanSubsets(items) == Ok(if SubsetOk(s) then [s] + rest else rest)
  {
  }

  /** One element: a non-string throws, a string is kept, trimmed and lower
      cased, exactly when it passes the test. */
  lemma CleanSubsetsOne(x: JsValue)
    ensures !x.Str? ==> CleanSubsets([x]) == Err(TypeError("subset.trim is not a function"))
    ensures x.Str? ==> var w := ToLower(Trim(x.s));
                       CleanSubsets([x]) == Ok(if SubsetOk(w) then [w] else [])
  {
    hide CleanSubsets, ToLower, Trim, SubsetOk;
    assert [x][1..] == [] && [x][0] == x;
    CleanSubsetsStep([]);
    CleanSubsetsStep([x]);
    if x.Str? {
      var w := ToLower(Trim(x.s));
      assert [w] + [] == [w];
    }
  }

  /** The subsets parameter; a missing argument defaults to `[]`. */
  function ParseSubsets(v: JsValue): (r: Result<string>)
    ensures r.Err? <==> v.Null? || (v.Arr? && exists k :: 0 <= k < |v.items| && !v.items[k].Str?)
  {
    var items :- if v.Undefined? then Ok([]) else ArrayFrom(v, ',');
    var kept :- CleanSubsets(items);
    Ok(Join(kept, ","))
  }

  /** The template string, `.replace('?family=&', '?')` and
      `.replace(/subset=$/, '')`. */
  function FinishUrl(families: string, subsets: string): string {
    FinishUrlAt(CssApi, families, subsets)
  }

  function FinishUrlAt(api: string, families: string, subsets: string): string {
    FinishQuery(Query(api, families, subsets), "?family=&", "subset=")
  }

  /** The template string `${api}?family=${families}&subset=${subsets}`. */
  function Query(api: string, families: string, subsets: string): string {
    api + "?family=" + families + "&subset=" + subsets
  }

  /** `.replace(collapse, '?')`, then `.replace(/key$/, '')`. */
  function FinishQuery(query: string, collapse: string, key: string): string {
    CutSuffix(ReplaceFirst(query, collapse, "?"), key)
  }

  /** A regular expression `key$` replaced by nothing: `key` is cut when the
      text ends with it. */
  function CutSuffix(url: string, key: string): string {
    if EndsWith(url, key) then url[..|url| - |key|] else url
  }

  function FamilyEntries(families: JsValue): seq<(string, JsValue)> {
    match Entries(families)
    case None => []
    case Some(entries) => entries
  }

  /** `constructUrl(families, subsets)`; a value that is not an object counts
      as `{}`. */
  function ConstructUrl(families: JsValue, subsets: JsValue): (r: Result<string>)
    ensures r.Err? <==>
      || (exists k :: 0 <= k < |FamilyEntries(families)| &&
            (FamilyEntries(families)[k].1.Undefined? || FamilyEntries(families)[k].1.Null?))
      || subsets.Null?
      || (subsets.Arr? && exists k :: 0 <= k < |subsets.items| && !subsets.items[k].Str?)
  {
    var fams :- FamilyList(FamilyEntries(families));
    var subs :- ParseSubsets(subsets);
    Ok(FinishUrl(RenderFamilies(MergeAll(fams)), subs))
  }

  // ---------------------------------------------------------------------------
  // The shape of the URL

  /** `api?family=F&subset=S`, the `family=F&` part absent when `F` is empty
      and the `subset=S` part absent when `S` is empty. */
  function Shape(api: string, f: string, s: string): string {
    api + "?" + (if f == "" then "" else "family=" + f + "&") + (if s == "" then "" else "subset=" + s)
  }

  lemma CssApiChars()
    ensures |CssApi| == 32
    ensures '?' !in CssApi
  {
    assert forall i :: 0 <= i < |CssApi| ==> CssApi[i] != '?';
  }

  /** A pattern starting with `c` can only occur at the one `c` of `a + [c] + b`. */
  lemma OnlyOccurrence(a: string, c: char, b: string, pat: string)
    requires |pat| > 0 && pat[0] == c && c !in a && c !in b
    ensures forall k: nat :: k != |a| ==> !OccursAt(a + [c] + b, pat, k)
  {
    var s := a + [c] + b;
    forall k: nat | k != |a| ensures !OccursAt(s, pat, k) {
      if k + |pat| <= |s| {
        assert s[k..k + |pat|][0] == s[k];
        if k < |a| {
          assert s[k] == a[k];
        } else {
          assert s[k] == b[k - |a| - 1];
        }
      }
    }
  }

  /** A pattern whose first character does not occur in `a` is first found
      right after `a`. */
  lemma SpliceBeforeMark(a: string, pat: string, b: string, rep: string)
    requires |pat| > 0 && pat[0] !in a && NoDollar(rep)
    ensures ReplaceFirst(a + pat + b, pat, rep) == a + rep + b
  {
    var s := a + pat + b;
    forall j: nat | j < |a| ensures !OccursAt(s, pat, j) {
      if j + |pat| <= |s| {
        assert s[j..j + |pat|][0] == s[j] == a[j];
      }
    }
    ReplaceFirstSplices(a, pat, b, rep);
  }

  /** Cutting a trailing `key` from `prefix + key + subsets` removes it
      exactly when no subsets follow it. */
  lemma CutKeyAt(prefix: string, key: string, subsets: string)
    requires |key| > 0 && key[|key| - 1] !in subsets
    ensures CutSuffix(prefix + key + subsets, key) == if subsets == "" then prefix else prefix + key + subsets
  {
    var url := prefix + key + subsets;
    if subsets != "" {
      assert url[|url| - 1] == subsets[|subsets| - 1];
      assert !EndsWith(url, key) by {
        if |key| <= |url| {
          assert url[|url| - |key|..][|key| - 1] == url[|url| - 1];
        }
      }
    } else {
      assert url[..|url| - |key|] == prefix;
    }
  }

  /** With an empty family list the collapse pattern sits right after the
      API and becomes `?`; the key is then cut when no subsets follow. */
  lemma CollapseEmptyFamilies(api: string, collapse: string, key: string, subsets: string)
    requires |collapse| > 0 && collapse[0] !in api
    requires |key| > 0 && key[|key| - 1] !in subsets
    ensures FinishQuery(api + collapse + key + subsets, collapse, key) ==
      api + "?" + (if subsets == "" then "" else key + subsets)
  {
    assert api + collapse + key + subsets == api + collapse + (key + subsets);
    SpliceBeforeMark(api, collapse, key + subsets, "?");
    CutKeyAt(api + "?", key, subsets);
  }

  /** With families the collapse pattern `mark + "&"` does not occur, since
      the only `?` is followed by `mark` and then by a family name that does
      not start with `&`; the key is cut when no subsets follow. */
  lemma KeepFamilies(api: string, mark: string, f: string, key: string, subsets: string)
    requires |mark| > 0 && mark[0] == '?' && '?' !in mark[1..]
    requires '?' !in api && '?' !in f && '?' !in key && '?' !in subsets
    requires f != "" && '&' !in f
    requires |key| > 0 && key[|key| - 1] !in subsets
    ensures FinishQuery(api + mark + f + "&" + key + subsets, mark + "&", key) ==
      api + mark + f + "&" + (if subsets == "" then "" else key + subsets)
  {
    var q := api + mark + f + "&" + key + subsets;
    var pat := mark + "&";
    assert ReplaceFirst(q, pat, "?") == q by {
      var tail := mark[1..] + f + "&" + key + subsets;
      assert q == api + ['?'] + tail by {
        assert mark == ['?'] + mark[1..];
      }
      assert '?' !in tail;
      OnlyOccurrence(api, '?', tail, pat);
      assert !OccursAt(q, pat, |api|) by {
        assert q == (api + mark) + (f + "&" + key + subsets);
        assert q[|api| + |mark|] == f[0] && f[0] in f;
        assert pat[|mark|] == '&';
        if |api| + |pat| <= |q| {
          assert q[|api|..|api| + |pat|][|mark|] == q[|api| + |mark|];
        }
      }
      assert !Occurs(q, pat);
    }
    assert q == (api + mark + f + "&") + key + subsets;
    CutKeyAt(api + mark + f + "&", key, subsets);
  }

  /** The literal pieces of the template and of the collapse pattern. */
  lemma QueryPieces(api: string, f: string, s: string)
    ensures Query(api, f, s) == api + "?family=" + f + "&" + "subset=" + s
    ensures Query(api, "", s) == api + "?family=&" + "subset=" + s
    ensures "?family=&" == "?family=" + "&"
    ensures "?family="[0] == '?' && '?' !in "?family="[1..]
    ensures |"subset="| == 7 && "subset="[6] == '=' && '?' !in "subset="
  {
    assert "&subset=" == "&" + "subset=";
    assert "?family=" + "" + "&subset=" == "?family=&" + "subset=";
  }

  lemma ShapeWithoutFamilies(api: string, s: string)
    requires '?' !in api && '=' !in s
    ensures FinishUrlAt(api, "", s) == Shape(api, "", s)
  {
    hide Query, FinishQuery, ReplaceFirst, CutSuffix;
    var tail := if s == "" then "" else "subset=" + s;
    assert FinishUrlAt(api, "", s) == api + "?" + tail by {
      QueryPieces(api, "", s);
      CollapseEmptyFamilies(api, "?family=&", "subset=", s);
    }
    assert Shape(api, "", s) == api + "?" + tail by {
      assert api + "?" + "" + tail == api + "?" + tail;
    }
  }

  lemma ShapeWithFamilies(api: string, f: string, s: string)
    requires '?' !in api && f != "" && '?' !in f && '&' !in f && '?' !in s && '=' !in s
    ensures FinishUrlAt(api, f, s) == Shape(api, f, s)
  {
    hide Query, FinishQuery, ReplaceFirst, CutSuffix;
    var tail := if s == "" then "" else "subset=" + s;
    assert FinishUrlAt(api, f, s) == api + "?family=" + f + "&" + tail by {
      QueryPieces(api, f, s);
      KeepFamilies(api, "?family=", f, "subset=", s);
    }
    assert Shape(api, f, s) == api + "?family=" + f + "&" + tail by {
      assert api + "?family=" + f + "&" + tail == api + "?" + ("family=" + f + "&") + tail;
    }
  }

  lemma FinishUrlShapeAt(api: string, f: string, s: string)
    requires '?' !in api && '?' !in f && '&' !in f && '?' !in s && '=' !in s
    ensures FinishUrlAt(api, f, s) == Shape(api, f, s)
  {
    if f == "" {
      ShapeWithoutFamilies(api, s);
    } else {
      ShapeWithFamilies(api, f, s);
    }
  }

  /** Without families the `?family=&` collapses to `?`, and without subsets
      the dangling `subset=` is cut: `css?subset=S`, or `css?` for nothing. */
  lemma FinishUrlWithoutFamilies(subsets: string)
    requires '=' !in subsets
    ensures FinishUrl("", subsets) == Shape(CssApi, "", subsets)
  {
    CssApiChars();
    ShapeWithoutFamilies(CssApi, subsets);
  }

  /** With families, the query keeps `family=F&`, followed by `subset=S`
      when there are subsets: `css?family=F&subset=S` or `css?family=F&`. */
  lemma FinishUrlWithFamilies(families: string, subsets: string)
    requires families != ""
    requires '?' !in families && '&' !in families
    requires '?' !in subsets && '=' !in subsets
    ensures FinishUrl(families, subsets) == Shape(CssApi, families, subsets)
  {
    CssApiChars();
    ShapeWithFamilies(CssApi, families, subsets);
  }

  /** The URL `constructUrl` builds: `css?family=F&subset=S`, with the
      `family=F&` part absent when no family survives and the `subset=S`
      part absent when no subset survives. The sanitizer and the subset
      filter both let `?` through (and the filter `=`); names and subsets
      free of those keep this shape. */
  lemma ConstructUrlShape(families: JsValue, subsets: JsValue)
    requires ConstructUrl(families, subsets).Ok?
    ensures var entries := FamilyEntries(families);
            var f := RenderFamilies(MergeAll(FamilyList(entries).value));
            var s := ParseSubsets(subsets).value;
            (forall k :: 0 <= k < |entries| ==> '?' !in SanitizeFamily(entries[k].0)) && '?' !in s && '=' !in s ==>
              ConstructUrl(families, subsets).value == Shape(CssApi, f, s)
  {
    var entries := FamilyEntries(families);
    var f := RenderFamilies(MergeAll(FamilyList(entries).value));
    var s := ParseSubsets(subsets).value;
    assert ConstructUrl(families, subsets).value == FinishUrl(f, s);
    if (forall k :: 0 <= k < |entries| ==> '?' !in SanitizeFamily(entries[k].0)) && '?' !in s && '=' !in s {
      RenderedEntriesPlain(entries);
      CssApiChars();
      FinishUrlShapeAt(CssApi, f, s);
    }
  }

  /** Names that sanitize without `?` render without `?` and `&`. */
  lemma RenderedEntriesPlain(entries: seq<(string, JsValue)>)
    requires FamilyList(entries).Ok?
    requires forall k :: 0 <= k < |entries| ==> '?' !in SanitizeFamily(entries[k].0)
    ensures var f := RenderFamilies(MergeAll(FamilyList(entries).value));
            '?' !in f && '&' !in f
  {
    var fams := FamilyList(entries).value;
    FamilyListWellFormed(entries);
    MergeAllWellFormed(fams);
    forall k | 0 <= k < |fams| ensures '?' !in fams[k].0 {
      FamilyListMaps(entries);
      assert MapsTo(entries[k], fams[k]);
    }
    forall k | 0 <= k < |MergeAll(fams)| ensures '?' !in MergeAll(fams)[k].0 {
      MergedNamesFromList(fams, k);
    }
    RenderedFamiliesPlain(MergeAll(fams));
  }

  /** Without families and subsets the URL is the bare `css?`. */
  lemma EmptyRequest()
    ensures ConstructUrl(Obj([]), Undefined) == Ok(CssApi + "?")
    ensures ConstructUrl(Undefined, Arr([])) == Ok(CssApi + "?")
  {
    assert FamilyEntries(Obj([])) == [] && FamilyEntries(Undefined) == [];
    assert FamilyList([]) == Ok([]);
    assert MergeAll([]) == [];
    assert RenderFamilies([]) == "";
    assert ParseSubsets(Undefined) == Ok("");
    assert ParseSubsets(Arr([])) == Ok("");
    assert FinishUrl("", "") == CssApi + "?" by {
      FinishUrlWithoutFamilies("");
      assert CssApi + "?" + "" + "" == CssApi + "?";
    }
  }

  predicate Words(words: seq<string>) {
    && |words| > 0
    && forall k :: 0 <= k < |words| ==> |words[k]| > 0 && NoSpace(words[k])
  }

  /** Words joined by single spaces fold into the same words joined by `+`. */
  lemma {:induction false} FoldSpacedWords(words: seq<string>)
    requires Words(words)
    ensures FoldSpaces(Join(words, " "), "+") == Join(words, "+")
    decreases |words|
  {
    if |words| == 1 {
      FoldSpacesWithoutSpace(words[0], "+");
    } else {
      var rest := words[1..];
      assert forall k :: 0 <= k < |rest| ==> rest[k] == words[k + 1];
      FoldSpacedWords(rest);
      JoinEdges(rest, " ");
      assert Join(words, " ") == words[0] + " " + Join(rest, " ");
      FoldSpacesSplit(words[0], " ", Join(rest, " "), "+");
    }
  }

  lemma PlussedWordsNoSpace(words: seq<string>)
    requires Words(words)
    ensures NoSpace(Join(words, "+"))
  {
    JoinChars(words, "+");
    var j := Join(words, "+");
    forall i | 0 <= i < |j| ensures !IsSpace(j[i]) {
      var c := j[i];
      assert c in j;
      if c !in "+" {
        var k :| 0 <= k < |words| && c in words[k];
        var m :| 0 <= m < |words[k]| && words[k][m] == c;
      }
    }
  }

  /** A name written with spaces and the same name written with `+` (as in
      `'Alegreya Sans SC'` and `'Alegreya+Sans+SC'`) sanitize to the same
      family, the `+` spelling. */
  lemma SpacedAndPlussedAlike(words: seq<string>)
    requires Words(words)
    ensures SanitizeFamily(Join(words, " ")) == SanitizeFamily(Join(words, "+"))
    ensures SanitizeFamily(Join(words, "+")) == KeepChars(Join(words, "+"), FamilyChar)
  {
    var spaced := Join(words, " ");
    var plussed := Join(words, "+");
    JoinEdges(words, " ");
    assert spaced[0] == words[0][0] && spaced[|spaced| - 1] == words[|words| - 1][|words[|words| - 1]| - 1];
    TrimNoEdgeSpace(spaced);
    FoldSpacedWords(words);
    PlussedWordsNoSpace(words);
    TrimNoEdgeSpace(plussed);
    FoldSpacesWithoutSpace(plussed, "+");
  }

  /** Two entries for one family merge into one carrying the weights of both,
      repeats removed. */
  lemma MergeTwoEntries(name: string, first: seq<string>, second: seq<string>)
    ensures MergeAll([(name, first), (name, second)]) == [(name, Dedup(first + second))]
  {
    var fams := [(name, first), (name, second)];
    assert fams[..1] == [(name, first)];
    assert MergeAll(fams[..1]) == MergeInto([], name, first);
    assert [(name, first)][..0] == [];
    assert MergeAll(fams[..1]) == [(name, first)];
  }
}
