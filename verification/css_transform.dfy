/** Font-entry extraction: `transformCss` (main.js:168-207) and
    `normalizeFonts` (main.js:213-225).

    The regular expressions that cut the stylesheet into `@font-face` blocks
    and `url(...)` tokens are not modelled; the extraction receives their
    result, one `FaceBlock` per block in document order. */
module CssTransform {
  import opened Results
  import opened Strings
  import opened Template
  import opened NodePath

  /** One `url(...)` match: the whole matched text, the captured URL, and the
      pathname `URL.parse` finds in it (`null` when it has none). */
  datatype UrlToken = UrlToken(text: string, url: string, pathname: Option<string>)

  /** One `@font-face` block: the comment before it, the `font-family` and
      `font-weight` captures (`None` where the declaration is missing, so that
      the regex `exec` returns null), and its `url(...)` tokens. */
  datatype FaceBlock = FaceBlock(comment: Option<string>, family: Option<string>, weight: Option<string>, urls: seq<UrlToken>)

  datatype FontEntry = FontEntry(inputFont: string, outputFont: string, inputText: string, outputText: string)

  /** The block data one emitted entry is made from. */
  datatype FontSource = FontSource(comment: string, family: string, weight: string, token: UrlToken)

  // ---------------------------------------------------------------------------
  // Well-formedness of the parse

  /** The text that reaches a replacement string carries no `$`. */
  predicate OptNoDollar(o: Option<string>) {
    o.Some? ==> NoDollar(o.value)
  }

  predicate BlockDollarFree(b: FaceBlock) {
    && OptNoDollar(b.comment) && OptNoDollar(b.family) && OptNoDollar(b.weight)
    && forall j :: 0 <= j < |b.urls| ==> OptNoDollar(b.urls[j].pathname)
  }

  predicate DollarFree(blocks: seq<FaceBlock>) {
    forall k :: 0 <= k < |blocks| ==> BlockDollarFree(blocks[k])
  }

  predicate TokensParsed(urls: seq<UrlToken>) {
    forall j :: 0 <= j < |urls| ==> urls[j].pathname.Some?
  }

  /** Every block has a family and a weight, and every token a pathname:
      exactly the parses on which no statement throws. */
  predicate Parsed(blocks: seq<FaceBlock>) {
    forall k :: 0 <= k < |blocks| ==>
      blocks[k].family.Some? && blocks[k].weight.Some? && TokensParsed(blocks[k].urls)
  }

  predicate SourceOk(s: FontSource) {
    && NoDollar(s.comment) && NoDollar(s.family) && NoDollar(s.weight)
    && s.token.pathname.Some? && NoDollar(s.token.pathname.value)
  }

  // ---------------------------------------------------------------------------
  // One entry

  /** A token is kept when its extension, dot included, has at least two
      characters. */
  predicate Kept(pathname: string) {
    |Extname(pathname)| >= 2
  }

  /** `ext.replace(/^\./, '')`. */
  function DropLeadingDot(ext: string): (r: string)
    ensures |ext| > 0 && ext[0] == '.' ==> "." + r == ext
    ensures (|ext| == 0 || ext[0] != '.') ==> r == ext
  {
    if |ext| > 0 && ext[0] == '.' then ext[1..] else ext
  }

  /** The values handed to the filename template, in the order the object
      literal lists them. */
  function FileValues(comment: string, family: string, weight: string, filename: string, ext: string, i: nat): seq<(string, string)> {
    [ ("comment", comment), ("family", family), ("weight", weight), ("filename", filename),
      ("_family", FoldSpaces(family, "_")), ("ext", DropLeadingDot(ext)), ("i", NatToString(i)) ]
  }

  lemma FileValuesOk(comment: string, family: string, weight: string, filename: string, ext: string, i: nat)
    requires NoDollar(comment) && NoDollar(family) && NoDollar(weight) && NoDollar(filename) && NoDollar(ext)
    ensures ValuesOk(FileValues(comment, family, weight, filename, ext, i))
  {
    var v := FileValues(comment, family, weight, filename, ext, i);
    assert !IsDigit('c') && !IsDigit('f') && !IsDigit('w') && !IsDigit('_') && !IsDigit('e') && !IsDigit('i');
    assert v[0].0[0] == 'c' && v[1].0[0] == 'f' && v[2].0[0] == 'w' && v[3].0[0] == 'f';
    assert v[4].0[0] == '_' && v[5].0[0] == 'e' && v[6].0[0] == 'i';
    assert NoDollar(DropLeadingDot(ext));
    assert NoDollar(NatToString(i)) by {
      var d := NatToString(i);
      assert forall k :: 0 <= k < |d| ==> IsDigit(d[k]);
    }
  }

  /** The file name of the font a source yields under counter value `i`. */
  function FileName(template: string, s: FontSource, i: nat): string
    requires SourceOk(s)
  {
    var pathname := s.token.pathname.value;
    var ext := Extname(pathname);
    var filename := Basename(pathname, ext);
    PartsFromPath(pathname, ext);
    FileValuesOk(s.comment, s.family, s.weight, filename, ext, i);
    TrimTrailingDot(Format(template, FileValues(s.comment, s.family, s.weight, filename, ext, i)))
  }

  /** The entry for one kept token: it downloads the token's URL, replaces
      the token's whole text, and refers to the new file relative to the
      configured path. */
  function EntryFor(template: string, path: string, s: FontSource, i: nat): (e: FontEntry)
    requires SourceOk(s)
    ensures e.inputFont == s.token.url && e.inputText == s.token.text
    ensures e.outputFont == FileName(template, s, i)
    ensures e.outputText == "url('" + path + e.outputFont + "')"
  {
    var name := FileName(template, s, i);
    FontEntry(s.token.url, name, s.token.text, "url('" + path + name + "')")
  }

  // ---------------------------------------------------------------------------
  // The reference: kept tokens in document order

  function KeptSources(comment: string, family: string, weight: string, urls: seq<UrlToken>): (r: seq<FontSource>)
    requires TokensParsed(urls)
    ensures forall k :: 0 <= k < |r| ==>
      && r[k].comment == comment && r[k].family == family && r[k].weight == weight
      && r[k].token in urls && Kept(r[k].token.pathname.value)
    decreases |urls|
  {
    if |urls| == 0 then []
    else
      var here := if Kept(urls[0].pathname.value) then [FontSource(comment, family, weight, urls[0])] else [];
      here + KeptSources(comment, family, weight, urls[1..])
  }

  function CommentText(b: FaceBlock): string {
    if b.comment.Some? then b.comment.value else ""
  }

  /** Every kept token of every block, in document order, with the data of
      its block. */
  function Sources(blocks: seq<FaceBlock>): (r: seq<FontSource>)
    requires Parsed(blocks)
    ensures DollarFree(blocks) ==> forall k :: 0 <= k < |r| ==> SourceOk(r[k])
    decreases |blocks|
  {
    if |blocks| == 0 then []
    else
      var b := blocks[0];
      var here := KeptSources(CommentText(b), b.family.value, b.weight.value, b.urls);
      assert DollarFree(blocks) ==> forall k :: 0 <= k < |here| ==> SourceOk(here[k]) by {
        if DollarFree(blocks) {
          forall k | 0 <= k < |here| ensures SourceOk(here[k]) {
            var j :| 0 <= j < |b.urls| && b.urls[j] == here[k].token;
            assert BlockDollarFree(blocks[0]);
          }
        }
      }
      here + Sources(blocks[1..])
  }

  /** Sources paired with consecutive counter values from `i` on. */
  function Count(srcs: seq<FontSource>, i: nat): (r: seq<(FontSource, nat)>)
    ensures |r| == |srcs|
    ensures forall k :: 0 <= k < |r| ==> r[k] == (srcs[k], i + k)
  {
    seq(|srcs|, k requires 0 <= k < |srcs| => (srcs[k], i + k))
  }

  /** Counting two runs one after the other is counting their concatenation. */
  lemma CountAppend(s1: seq<FontSource>, s2: seq<FontSource>, i: nat)
    ensures Count(s1, i) + Count(s2, i + |s1|) == Count(s1 + s2, i)
  {
    var l := Count(s1, i) + Count(s2, i + |s1|);
    var r := Count(s1 + s2, i);
    forall k | 0 <= k < |r| ensures l[k] == r[k] {
      if k >= |s1| {
        assert l[k] == Count(s2, i + |s1|)[k - |s1|];
        assert (s1 + s2)[k] == s2[k - |s1|];
      } else {
        assert (s1 + s2)[k] == s1[k];
      }
    }
  }

  lemma ParsedCons(blocks: seq<FaceBlock>)
    requires |blocks| > 0
    ensures Parsed(blocks) <==>
      blocks[0].family.Some? && blocks[0].weight.Some? && TokensParsed(blocks[0].urls) && Parsed(blocks[1..])
  {
    if blocks[0].family.Some? && blocks[0].weight.Some? && TokensParsed(blocks[0].urls) && Parsed(blocks[1..]) {
      forall k | 0 <= k < |blocks|
        ensures blocks[k].family.Some? && blocks[k].weight.Some? && TokensParsed(blocks[k].urls)
      {
        if k > 0 {
          assert blocks[k] == blocks[1..][k - 1];
        }
      }
    }
    if Parsed(blocks) {
      forall k | 0 <= k < |blocks[1..]|
        ensures blocks[1..][k].family.Some? && blocks[1..][k].weight.Some? && TokensParsed(blocks[1..][k].urls)
      {
        assert blocks[1..][k] == blocks[k + 1];
      }
    }
  }

  lemma SourcesCons(blocks: seq<FaceBlock>)
    requires |blocks| > 0 && Parsed(blocks)
    ensures Parsed(blocks[1..])
    ensures Sources(blocks) ==
      KeptSources(CommentText(blocks[0]), blocks[0].family.value, blocks[0].weight.value, blocks[0].urls) + Sources(blocks[1..])
  {
    ParsedCons(blocks);
  }

  lemma CollectBlocksStep(blocks: seq<FaceBlock>, i: nat, here: seq<(FontSource, nat)>, rest: seq<(FontSource, nat)>)
    requires |blocks| > 0 && blocks[0].family.Some? && blocks[0].weight.Some? && TokensParsed(blocks[0].urls)
    requires here == Count(KeptSources(CommentText(blocks[0]), blocks[0].family.value, blocks[0].weight.value, blocks[0].urls), i)
    requires Parsed(blocks[1..]) && rest == Count(Sources(blocks[1..]), i + |here|)
    ensures Parsed(blocks) && here + rest == Count(Sources(blocks), i)
  {
    ParsedCons(blocks);
    SourcesCons(blocks);
    CountAppend(KeptSources(CommentText(blocks[0]), blocks[0].family.value, blocks[0].weight.value, blocks[0].urls), Sources(blocks[1..]), i);
  }

  lemma TokensTail(urls: seq<UrlToken>)
    requires |urls| > 0
    ensures TokensParsed(urls) <==> urls[0].pathname.Some? && TokensParsed(urls[1..])
  {
    assert forall j :: 0 < j < |urls| ==> urls[j] == urls[1..][j - 1];
  }

  // ---------------------------------------------------------------------------
  // The loops of `transformCss`

  /** The inner loop over the `url(...)` tokens of one block, starting with
      counter value `i`. A token without a pathname makes `path.extname`
      throw; a token with a short extension is skipped without using up a
      counter value. The result pairs each kept token with the counter value
      its entry is built with. */
  function CollectUrls(comment: string, family: string, weight: string, urls: seq<UrlToken>, i: nat): (r: Result<seq<(FontSource, nat)>>)
    ensures r.Ok? <==> TokensParsed(urls)
    ensures r.Ok? ==> r.value == Count(KeptSources(comment, family, weight, urls), i)
    decreases |urls|
  {
    if |urls| == 0 then Ok([])
    else
      var tok := urls[0];
      TokensTail(urls);
      match tok.pathname
      case None => Err(TypeError("The \"path\" argument must be of type string. Received null"))
      case Some(pathname) =>
        if !Kept(pathname) then
          assert TokensParsed(urls) ==> KeptSources(comment, family, weight, urls) == KeptSources(comment, family, weight, urls[1..]);
          CollectUrls(comment, family, weight, urls[1..], i)
        else
          var src := FontSource(comment, family, weight, tok);
          match CollectUrls(comment, family, weight, urls[1..], i + 1)
          case Err(err) => Err(err)
          case Ok(rest) =>
            assert KeptSources(comment, family, weight, urls) == [src] + KeptSources(comment, family, weight, urls[1..]);
            CountAppend([src], KeptSources(comment, family, weight, urls[1..]), i);
            assert Count([src], i) == [(src, i)];
            Ok([(src, i)] + rest)
  }

  /** The outer loop over the `@font-face` blocks. A block without a family
      or a weight throws at the destructuring of the null `exec` result. */
  function CollectBlocks(blocks: seq<FaceBlock>, i: nat): (r: Result<seq<(FontSource, nat)>>)
    ensures r.Ok? <==> Parsed(blocks)
    ensures r.Ok? ==> Parsed(blocks) && r.value == Count(Sources(blocks), i)
    decreases |blocks|
  {
    if |blocks| == 0 then Ok([])
    else
      var b := blocks[0];
      ParsedCons(blocks);
      if b.family.None? then Err(TypeError("Cannot destructure null: no font-family declaration"))
      else if b.weight.None? then Err(TypeError("Cannot destructure null: no font-weight declaration"))
      else
        match CollectUrls(CommentText(b), b.family.value, b.weight.value, b.urls, i)
        case Err(e) => Err(e)
        case Ok(here) =>
          match CollectBlocks(blocks[1..], i + |here|)
          case Err(e) => Err(e)
          case Ok(rest) =>
            CollectBlocksStep(blocks, i, here, rest);
            Ok(here + rest)
  }

  /** The entries built from counted sources. */
  function Entries(template: string, path: string, counted: seq<(FontSource, nat)>): (r: seq<FontEntry>)
    requires forall k :: 0 <= k < |counted| ==> SourceOk(counted[k].0)
    ensures |r| == |counted|
  {
    seq(|counted|, k requires 0 <= k < |counted| => EntryFor(template, path, counted[k].0, counted[k].1))
  }

  /** `transformCss`: the stylesheet comes back unchanged next to one entry
      per kept token in document order, the k-th of them built with counter
      value k (counting from 1). */
  function TransformCss(template: string, path: string, css: string, blocks: seq<FaceBlock>): (r: Result<(string, seq<FontEntry>)>)
    requires DollarFree(blocks)
    ensures r.Ok? <==> Parsed(blocks)
    ensures r.Ok? ==> r.value.0 == css
    ensures r.Ok? ==> Parsed(blocks) && |r.value.1| == |Sources(blocks)|
    ensures r.Ok? ==> forall k :: 0 <= k < |r.value.1| ==>
      SourceOk(Sources(blocks)[k]) && r.value.1[k] == EntryFor(template, path, Sources(blocks)[k], k + 1)
  {
    match CollectBlocks(blocks, 1)
    case Err(e) => Err(e)
    case Ok(counted) => Ok((css, Entries(template, path, counted)))
  }

  /** An empty stylesheet (no blocks) yields no entries. */
  lemma NoBlocksNoFonts(template: string, path: string, css: string)
    ensures TransformCss(template, path, css, []) == Ok((css, []))
  {
  }

  // ---------------------------------------------------------------------------
  // File names produced by a counter-only template

  lemma SameAround(pre: string, a: string, b: string, post: string)
    requires pre + a + post == pre + b + post
    ensures a == b
  {
    var s := pre + a + post;
    assert |a| == |b|;
    assert a == s[|pre|..|pre| + |a|];
    assert b == (pre + b + post)[|pre|..|pre| + |b|];
  }

  /** With a template `pre{i}post` whose fixed parts hold no braces, the file
      name is the counter value between the fixed parts. */
  lemma CounterTemplateName(pre: string, post: string, s: FontSource, i: nat)
    requires NoBrace(pre) && NoBrace(post) && SourceOk(s)
    ensures FileName(pre + "{i}" + post, s, i) == TrimTrailingDot(pre + NatToString(i) + post)
  {
    var pathname := s.token.pathname.value;
    var ext := Extname(pathname);
    var filename := Basename(pathname, ext);
    PartsFromPath(pathname, ext);
    FileValuesOk(s.comment, s.family, s.weight, filename, ext, i);
    var values := FileValues(s.comment, s.family, s.weight, filename, ext, i);
    var before := values[..6];
    assert values == before + [("i", NatToString(i))];
    assert ValuesOk(before) by {
      forall k | 0 <= k < |before| ensures NoDollar(before[k].1) && (KeyOk(before[k].0) ==> !AllDigits(before[k].0)) {
        assert before[k] == values[k];
      }
    }
    var d := NatToString(i);
    assert NoBrace(d) && NoDollar(d) by {
      assert forall k :: 0 <= k < |d| ==> IsDigit(d[k]);
    }
    assert KeyOk("i") && !AllDigits("i") by {
      assert "i"[0] == 'i' && KeyChar('i') && !IsDigit('i');
    }
    assert Placeholder("i") == "{i}";
    FormatSinglePlaceholder(pre, "i", post, before, d);
  }

  /** A non-empty tail decides alone whether a trailing dot is trimmed. */
  lemma TrimTrailingDotAfter(a: string, post: string)
    requires |post| > 0
    ensures TrimTrailingDot(a + post) == a + TrimTrailingDot(post)
  {
    var s := a + post;
    assert s[|s| - 1] == post[|post| - 1];
    if post[|post| - 1] == '.' {
      assert s[..|s| - 1] == a + post[..|post| - 1];
    }
  }

  /** Different digit strings between the same fixed parts stay different
      after the trailing-dot trim. */
  lemma TrimmedDistinct(pre: string, post: string, d1: string, d2: string)
    requires d1 != d2 && |d1| > 0 && |d2| > 0
    requires forall k :: 0 <= k < |d1| ==> IsDigit(d1[k])
    requires forall k :: 0 <= k < |d2| ==> IsDigit(d2[k])
    ensures TrimTrailingDot(pre + d1 + post) != TrimTrailingDot(pre + d2 + post)
  {
    hide TrimTrailingDot;
    if |post| > 0 {
      var q := TrimTrailingDot(post);
      TrimTrailingDotAfter(pre + d1, post);
      TrimTrailingDotAfter(pre + d2, post);
      if pre + d1 + q == pre + d2 + q {
        SameAround(pre, d1, d2, q);
      }
    } else {
      assert pre + d1 + post == pre + d1 && (pre + d1)[|pre + d1| - 1] == d1[|d1| - 1];
      assert pre + d2 + post == pre + d2 && (pre + d2)[|pre + d2| - 1] == d2[|d2| - 1];
      if pre + d1 == pre + d2 {
        SameAround(pre, d1, d2, "");
      }
    }
  }

  /** So under such a template two different counter values never give the
      same file name, whatever the fonts are. */
  lemma CounterNamesDistinct(pre: string, post: string, s1: FontSource, s2: FontSource, i1: nat, i2: nat)
    requires NoBrace(pre) && NoBrace(post) && SourceOk(s1) && SourceOk(s2)
    requires i1 != i2
    ensures FileName(pre + "{i}" + post, s1, i1) != FileName(pre + "{i}" + post, s2, i2)
  {
    CounterTemplateName(pre, post, s1, i1);
    CounterTemplateName(pre, post, s2, i2);
    NatToStringInjective(i1, i2);
    TrimmedDistinct(pre, post, NatToString(i1), NatToString(i2));
  }

  /** Every font `transformCss` emits under a `pre{i}post` template gets its
      own file name. */
  lemma TransformCssCounterNamesUnique(pre: string, post: string, path: string, css: string, blocks: seq<FaceBlock>)
    requires NoBrace(pre) && NoBrace(post) && DollarFree(blocks)
    requires TransformCss(pre + "{i}" + post, path, css, blocks).Ok?
    ensures var fonts := TransformCss(pre + "{i}" + post, path, css, blocks).value.1;
            forall k1, k2 :: 0 <= k1 < k2 < |fonts| ==> fonts[k1].outputFont != fonts[k2].outputFont
  {
    var r := TransformCss(pre + "{i}" + post, path, css, blocks);
    CounterEntriesDistinct(pre, post, path, Sources(blocks), r.value.1);
  }

  lemma CounterEntriesDistinct(pre: string, post: string, path: string, s: seq<FontSource>, fonts: seq<FontEntry>)
    requires NoBrace(pre) && NoBrace(post) && |fonts| == |s|
    requires forall k :: 0 <= k < |fonts| ==> SourceOk(s[k]) && fonts[k] == EntryFor(pre + "{i}" + post, path, s[k], k + 1)
    ensures forall k1, k2 :: 0 <= k1 < k2 < |fonts| ==> fonts[k1].outputFont != fonts[k2].outputFont
  {
    hide FileName;
    forall k1, k2 | 0 <= k1 < k2 < |fonts| ensures fonts[k1].outputFont != fonts[k2].outputFont {
      CounterNamesDistinct(pre, post, s[k1], s[k2], k1 + 1, k2 + 1);
    }
  }

  // ---------------------------------------------------------------------------
  // normalizeFonts

  /** `normalizeFonts`: each download URL is resolved against the stylesheet
      URL by `resolve` (Node's `URL.resolve`, not modelled); nothing else
      changes. */
  function NormalizeFonts(resolve: (string, string) -> string, base: string, fonts: seq<FontEntry>): (r: seq<FontEntry>)
    ensures |r| == |fonts|
    ensures forall k :: 0 <= k < |r| ==>
      && r[k].inputFont == resolve(base, fonts[k].inputFont)
      && r[k].outputFont == fonts[k].outputFont
      && r[k].inputText == fonts[k].inputText
      && r[k].outputText == fonts[k].outputText
  {
    seq(|fonts|, k requires 0 <= k < |fonts| => fonts[k].(inputFont := resolve(base, fonts[k].inputFont)))
  }
}
