/** The public entry points: `repairUrl` (main.js:125-135), `repairInput`
    (main.js:358-369) and `download` (main.js:428-458), which chains input
    repair, the stylesheet download, `transformCss`, `normalizeFonts` and
    `saveFiles`.

    The foreign pieces are parameters: `normalize-url`, `URL.resolve` and the
    base64 encoding of a body. Stylesheet downloads come from a map from URL
    to the response status, the body, and the `@font-face` parse of that body. */
module Pipeline {
  import opened Results
  import opened Strings
  import opened JsValues
  import opened Config
  import opened CssTransform
  import opened GoogleUrl
  import opened Persistence
  import opened Rewriter

  // ---------------------------------------------------------------------------
  // repairUrl

  /** `pat` (lower case) matches at `k` with ASCII letters compared without
      regard to case, as a regular expression with the `i` flag does outside
      unicode mode. */
  predicate MatchesAt(s: string, pat: string, k: nat) {
    k + |pat| <= |s| && forall i :: 0 <= i < |pat| ==> LowerChar(s[k + i]) == pat[i]
  }

  /** `s.replace(/pat/gi, rep)` for a literal pattern: matches are taken left
      to right without overlapping. */
  function ReplaceAllIgnoreCase(s: string, pat: string, rep: string): (r: string)
    requires |pat| > 0
    ensures (forall k: nat :: !MatchesAt(s, pat, k)) ==> r == s
    decreases |s|
  {
    if |s| < |pat| then s
    else if MatchesAt(s, pat, 0) then
      rep + ReplaceAllIgnoreCase(s[|pat|..], pat, rep)
    else
      assert forall k: nat :: MatchesAt(s[1..], pat, k) ==> MatchesAt(s, pat, k + 1);
      assert s == [s[0]] + s[1..];
      [s[0]] + ReplaceAllIgnoreCase(s[1..], pat, rep)
  }

  /** The first match, in whatever letter case, is replaced: for `a + p + b`
      where `p` spells the pattern and no match starts inside `a`, `a` is
      copied, `p` becomes `rep`, and the scan goes on after `p`. */
  lemma {:induction false} ReplaceAtFirstMatch(a: string, p: string, b: string, pat: string, rep: string)
    requires |pat| > 0 && |p| == |pat| && MatchesAt(p, pat, 0)
    requires forall k: nat :: k < |a| ==> !MatchesAt(a + p + b, pat, k)
    ensures ReplaceAllIgnoreCase(a + p + b, pat, rep) == a + rep + ReplaceAllIgnoreCase(b, pat, rep)
    decreases |a|
  {
    hide ReplaceAllIgnoreCase, MatchesAt;
    var s := a + p + b;
    if |a| == 0 {
      assert s == p + b;
      MatchExtends(p, b, pat);
      MatchStep(s, pat, rep);
      assert s[|pat|..] == b;
    } else {
      assert s[1..] == a[1..] + p + b;
      forall k: nat | k < |a[1..]|
        ensures !MatchesAt(a[1..] + p + b, pat, k)
      {
        if MatchesAt(s[1..], pat, k) {
          MatchShift(s, pat, k);
        }
      }
      ReplaceAtFirstMatch(a[1..], p, b, pat, rep);
      MissStep(s, pat, rep);
      assert a == [a[0]] + a[1..];
    }
  }

  /** A match at the start of `p` is still one with text after it. */
  lemma MatchExtends(p: string, b: string, pat: string)
    requires |p| == |pat| && MatchesAt(p, pat, 0)
    ensures MatchesAt(p + b, pat, 0)
  {
    assert forall i :: 0 <= i < |pat| ==> (p + b)[i] == p[i];
  }

  /** A match in the tail is a match one position later in the whole. */
  lemma MatchShift(s: string, pat: string, k: nat)
    requires |s| > 0 && MatchesAt(s[1..], pat, k)
    ensures MatchesAt(s, pat, k + 1)
  {
    forall i | 0 <= i < |pat|
      ensures LowerChar(s[k + 1 + i]) == pat[i]
    {
      assert s[1..][k + i] == s[k + 1 + i];
    }
  }

  /** Without a match at the start, the first character is copied. */
  lemma MissStep(s: string, pat: string, rep: string)
    requires |pat| > 0 && |s| >= |pat| && !MatchesAt(s, pat, 0)
    ensures ReplaceAllIgnoreCase(s, pat, rep) == [s[0]] + ReplaceAllIgnoreCase(s[1..], pat, rep)
  {
  }

  /** The five entity replacements, in source order. */
  function DecodeEntities(url: string): string {
    var s1 := ReplaceAllIgnoreCase(url, "&amp;", "&");
    var s2 := ReplaceAllIgnoreCase(s1, "&lt;", "<");
    var s3 := ReplaceAllIgnoreCase(s2, "&gt;", ">");
    var s4 := ReplaceAllIgnoreCase(s3, "&quot;", "\"");
    ReplaceAllIgnoreCase(s4, "&#039;", "'")
  }

  /** `repairUrl`: decode entities, normalize, trim, and turn whitespace runs
      into `+`. The result never holds whitespace. */
  function RepairUrl(url: string, normalize: string -> string): (r: string)
    ensures NoSpace(r)
  {
    FoldSpaces(Trim(normalize(DecodeEntities(url))), "+")
  }

  /** A URL that normalizes to text without whitespace comes out exactly as
      `normalize-url` returned it. */
  lemma RepairUrlKeepsSpaceless(url: string, normalize: string -> string)
    requires NoSpace(normalize(DecodeEntities(url)))
    ensures RepairUrl(url, normalize) == normalize(DecodeEntities(url))
  {
    var n := normalize(DecodeEntities(url));
    TrimNoEdgeSpace(n);
    FoldSpacesWithoutSpace(n, "+");
  }

  /** A non-letter the pattern needs and the text lacks rules out every match. */
  lemma NoMatchWithout(s: string, pat: string, i: nat)
    requires i < |pat| && pat[i] !in s
    requires !('a' <= pat[i] <= 'z') && !('A' <= pat[i] <= 'Z')
    ensures forall k: nat :: !MatchesAt(s, pat, k)
  {
    forall k: nat | k + |pat| <= |s| ensures !MatchesAt(s, pat, k) {
      assert s[k + i] in s;
      assert LowerChar(s[k + i]) != pat[i];
    }
  }

  /** `&amp;` written inside an HTML attribute decodes to `&`, in any letter
      case (`&AMP;`, `&Amp;`, ...): with no `&` or `;` elsewhere, only that
      entity changes. */
  lemma DecodeEscapedAmpersand(a: string, amp: string, b: string)
    requires '&' !in a && '&' !in b && ';' !in a && ';' !in b
    requires |amp| == 5 && MatchesAt(amp, "&amp;", 0)
    ensures DecodeEntities(a + amp + b) == a + "&" + b
  {
    var t := a + "&" + b;
    AmpersandStep(a, amp, b);
    assert ';' !in t;
    NoMatchWithout(t, "&lt;", 3);
    NoMatchWithout(t, "&gt;", 3);
    NoMatchWithout(t, "&quot;", 5);
    NoMatchWithout(t, "&#039;", 5);
  }

  /** Each pass works on the output of the one before, so a doubly escaped
      entity is decoded twice. */
  lemma DoubleEscapeDecodedTwice()
    ensures DecodeEntities("&amp;lt;") == "<"
  {
    assert MatchesAt("&amp;lt;", "&amp;", 0);
    assert ReplaceAllIgnoreCase("&amp;lt;", "&amp;", "&") == "&lt;";
    assert MatchesAt("&lt;", "&lt;", 0);
    assert ReplaceAllIgnoreCase("&lt;", "&lt;", "<") == "<";
  }

  lemma AmpersandStep(a: string, amp: string, b: string)
    requires '&' !in a && '&' !in b
    requires |amp| == 5 && MatchesAt(amp, "&amp;", 0)
    ensures ReplaceAllIgnoreCase(a + amp + b, "&amp;", "&") == a + "&" + b
  {
    hide ReplaceAllIgnoreCase;
    var pat := "&amp;";
    var s := a + amp + b;
    forall k: nat | k < |a|
      ensures !MatchesAt(s, pat, k)
    {
      assert s[k] == a[k] && a[k] in a;
      assert LowerChar(s[k]) != pat[0];
    }
    ReplaceAtFirstMatch(a, amp, b, pat, "&");
    NoMatchWithout(b, pat, 0);
  }

  /** A match at the start is replaced and the rest is scanned after it. */
  lemma MatchStep(s: string, pat: string, rep: string)
    requires |pat| > 0 && MatchesAt(s, pat, 0)
    ensures ReplaceAllIgnoreCase(s, pat, rep) == rep + ReplaceAllIgnoreCase(s[|pat|..], pat, rep)
  {
  }

  // ---------------------------------------------------------------------------
  // repairInput

  /** `repairInput(url, config)`: an array is spread into `constructUrl`, a
      string goes through `repairUrl`, anything else throws a TypeError. The
      options are merged with the corrected merge (see `MergeOptions`). */
  function RepairInput(url: JsValue, config: JsValue, current: Options, normalize: string -> string): (r: Result<(string, Options)>)
    ensures !url.Arr? && !url.Str? ==> r.Err? && r.error.TypeError?
    ensures url.Str? ==> r == Ok((RepairUrl(url.s, normalize), MergeOptions(current, config)))
    ensures url.Arr? ==> (r.Ok? <==> ConstructUrl(Argument(url.items, 0), Argument(url.items, 1)).Ok?)
    ensures url.Arr? && r.Ok? ==>
              r.value == (ConstructUrl(Argument(url.items, 0), Argument(url.items, 1)).value, MergeOptions(current, config))
    ensures r.Ok? ==> Complete(r.value.1)
  {
    if url.Arr? then
      var built :- ConstructUrl(Argument(url.items, 0), Argument(url.items, 1));
      Ok((built, MergeOptions(current, config)))
    else if url.Str? then
      Ok((RepairUrl(url.s, normalize), MergeOptions(current, config)))
    else
      Err(TypeError("URL must be an array or string"))
  }

  /** A spread argument: missing positions read `undefined`. */
  function Argument(items: seq<JsValue>, k: nat): JsValue {
    if k < |items| then items[k] else Undefined
  }

  // ---------------------------------------------------------------------------
  // download

  /** A stylesheet response: status, body, and the `@font-face` blocks the
      body parses into. */
  datatype Sheet = Sheet(status: int, body: string, blocks: seq<FaceBlock>)

  /** `statusCode >= 400 ? '' : result`, with the parse that goes with it:
      an empty text has no blocks. */
  function StylesheetText(sheet: Sheet): (r: (string, seq<FaceBlock>))
    ensures sheet.status >= 400 ==> r == ("", [])
    ensures sheet.status < 400 ==> r == (sheet.body, sheet.blocks)
  {
    if sheet.status >= 400 then ("", []) else (sheet.body, sheet.blocks)
  }

  /** Everything outside the model that `download` talks to. */
  datatype World = World(
    sheets: map<string, Sheet>,
    fonts: Network,
    normalize: string -> string,
    resolve: (string, string) -> string,
    encode: seq<byte> -> string)

  predicate SheetsDollarFree(w: World) {
    forall u :: u in w.sheets ==> DollarFree(w.sheets[u].blocks)
  }

  /** `download(url, config)`: failures before saving (bad input, the
      stylesheet request, a `@font-face` block without family or weight)
      are an `Err`; failures while saving are recorded in the `Saved` result,
      whose file system is what was written up to that point. */
  function Download(url: JsValue, config: JsValue, current: Options, w: World, fs: FileSystem): (r: Result<Saved>)
    requires SheetsDollarFree(w)
  {
    var input :- RepairInput(url, config, current, w.normalize);
    Fetch(input.0, ToSettings(input.1), w, fs)
  }

  /** What `download` does once the input is repaired: request the
      stylesheet, transform it, and save the fonts and the stylesheet. */
  function Fetch(address: string, s: Settings, w: World, fs: FileSystem): (r: Result<Saved>)
    requires SheetsDollarFree(w)
  {
    if address !in w.sheets then Err(FetchFailed(address))
    else
      var (css, blocks) := StylesheetText(w.sheets[address]);
      var transformed :- TransformCss(s.template, s.path, css, blocks);
      var fonts := NormalizeFonts(w.resolve, address, transformed.1);
      Ok(SaveFiles(s, transformed.0, fonts, fs, w.fonts, w.encode))
  }

  /** Input that is neither an array nor a string is rejected before anything
      is fetched or written. */
  lemma BadInputRejected(url: JsValue, config: JsValue, current: Options, w: World, fs: FileSystem)
    requires SheetsDollarFree(w)
    requires !url.Arr? && !url.Str?
    ensures Download(url, config, current, w, fs) == Err(TypeError("URL must be an array or string"))
  {
  }

  /** A repaired input goes on to the fetch with its settings. */
  lemma DownloadFetches(url: JsValue, config: JsValue, current: Options, w: World, fs: FileSystem,
                        address: string, options: Options)
    requires SheetsDollarFree(w)
    requires RepairInput(url, config, current, w.normalize) == Ok((address, options))
    ensures Complete(options)
    ensures Download(url, config, current, w, fs) == Fetch(address, ToSettings(options), w, fs)
  {
    hide RepairInput, ToSettings, Fetch;
  }

  /** A stylesheet answered with an error status yields no fonts: no font
      file is written and the saved stylesheet is empty. */
  lemma ErrorStatusWritesNoFonts(url: JsValue, config: JsValue, current: Options, w: World, fs: FileSystem,
                                 address: string, options: Options, p: FilePath)
    requires SheetsDollarFree(w)
    requires RepairInput(url, config, current, w.normalize) == Ok((address, options))
    requires address in w.sheets && w.sheets[address].status >= 400
    requires p != CssPath(ToSettings(options))
    ensures var r := Download(url, config, current, w, fs);
            && r.Ok? && r.value.css == "" && r.value.error.None?
            && (p in r.value.fs.files <==> p in fs.files)
            && (p in fs.files ==> r.value.fs.files[p] == fs.files[p])
  {
    hide *;
    DownloadFetches(url, config, current, w, fs, address, options);
    FetchErrorStatus(address, ToSettings(options), w, fs, p);
  }

  lemma FetchErrorStatus(address: string, s: Settings, w: World, fs: FileSystem, p: FilePath)
    requires SheetsDollarFree(w)
    requires address in w.sheets && w.sheets[address].status >= 400
    requires p != CssPath(s)
    ensures var r := Fetch(address, s, w, fs);
            && r.Ok? && r.value.css == "" && r.value.error.None?
            && (p in r.value.fs.files <==> p in fs.files)
            && (p in fs.files ==> r.value.fs.files[p] == fs.files[p])
  {
    assert StylesheetText(w.sheets[address]) == ("", []);
    NoBlocksNoFonts(s.template, s.path, "");
    assert NormalizeFonts(w.resolve, address, []) == [];
    var saved := SaveFiles(s, "", [], fs, w.fonts, w.encode);
    assert Fetch(address, s, w, fs) == Ok(saved);
    NoFontsSaved(s, fs, w.fonts, w.encode, p);
  }

  /** Saving an empty font list writes the stylesheet at most. */
  lemma NoFontsSaved(s: Settings, fs: FileSystem, net: Network, encode: seq<byte> -> string, p: FilePath)
    requires p != CssPath(s)
    ensures var saved := SaveFiles(s, "", [], fs, net, encode);
            && saved.css == "" && saved.error.None?
            && (p in saved.fs.files <==> p in fs.files)
            && (p in fs.files ==> saved.fs.files[p] == fs.files[p])
  {
  }

  /** With `simulate` on, a download leaves the file system as it was,
      whatever happens. */
  lemma SimulatedDownloadWritesNothing(url: JsValue, config: JsValue, current: Options, w: World, fs: FileSystem,
                                       address: string, options: Options)
    requires SheetsDollarFree(w)
    requires RepairInput(url, config, current, w.normalize) == Ok((address, options))
    requires ToSettings(options).simulate
    ensures var r := Download(url, config, current, w, fs);
            r.Ok? ==> r.value.fs == fs
  {
    hide *;
    DownloadFetches(url, config, current, w, fs, address, options);
    FetchSimulated(address, ToSettings(options), w, fs);
  }

  lemma FetchSimulated(address: string, s: Settings, w: World, fs: FileSystem)
    requires SheetsDollarFree(w)
    requires s.simulate
    ensures var r := Fetch(address, s, w, fs);
            r.Ok? ==> r.value.fs == fs
  {
    hide TransformCss, SaveFiles, NormalizeFonts, StylesheetText;
    var r := Fetch(address, s, w, fs);
    if r.Ok? {
      var (css, blocks) := StylesheetText(w.sheets[address]);
      var transformed := TransformCss(s.template, s.path, css, blocks).value;
      var fonts := NormalizeFonts(w.resolve, address, transformed.1);
      assert r.value == SaveFiles(s, transformed.0, fonts, fs, w.fonts, w.encode);
      SimulateChangesNothing(s, transformed.0, fonts, fs, w.fonts, w.encode);
    }
  }

  /** In path mode a download that completes saves the stylesheet as it was
      served (empty for an error status) with every kept `url(...)` token
      replaced, in document order, by the `url('<path><name>')` of its
      entry; resolving the download URLs changes nothing in the text. */
  lemma DownloadedStylesheet(url: JsValue, config: JsValue, current: Options, w: World, fs: FileSystem,
                             address: string, options: Options)
    requires SheetsDollarFree(w)
    requires RepairInput(url, config, current, w.normalize) == Ok((address, options))
    requires !ToSettings(options).base64
    ensures var r := Download(url, config, current, w, fs);
            r.Ok? && r.value.error.None? ==>
              && address in w.sheets
              && (var (css, blocks) := StylesheetText(w.sheets[address]);
                  var s := ToSettings(options);
                  && TransformCss(s.template, s.path, css, blocks).Ok?
                  && r.value.css == Rewrite(css, PathPairs(TransformCss(s.template, s.path, css, blocks).value.1)))
  {
    hide *;
    DownloadFetches(url, config, current, w, fs, address, options);
    FetchedStylesheet(address, ToSettings(options), w, fs);
  }

  lemma FetchedStylesheet(address: string, s: Settings, w: World, fs: FileSystem)
    requires SheetsDollarFree(w)
    requires !s.base64
    ensures var r := Fetch(address, s, w, fs);
            r.Ok? && r.value.error.None? ==>
              && address in w.sheets
              && (var (css, blocks) := StylesheetText(w.sheets[address]);
                  && TransformCss(s.template, s.path, css, blocks).Ok?
                  && r.value.css == Rewrite(css, PathPairs(TransformCss(s.template, s.path, css, blocks).value.1)))
  {
    hide TransformCss, SaveFiles, Rewrite, StylesheetText;
    var r := Fetch(address, s, w, fs);
    if r.Ok? && r.value.error.None? {
      var (css, blocks) := StylesheetText(w.sheets[address]);
      var fonts := TransformCss(s.template, s.path, css, blocks).value.1;
      var resolved := NormalizeFonts(w.resolve, address, fonts);
      assert PathPairs(resolved) == PathPairs(fonts);
      PathModeStylesheet(s, css, resolved, fs, w.fonts, w.encode);
    }
  }
}
