/** `saveFiles` (main.js:232-321): the directory creation, the per-font
    download, stylesheet rewrite and write decision, and the final write of
    the stylesheet, run strictly one after the other as the promise chain
    orders them.

    The file system is a map from resolved paths to contents; the network is
    a map from URLs to responses, and a URL it does not hold fails. */
module Persistence {
  import opened Results
  import opened Strings
  import opened Config
  import opened CssTransform
  import opened Rewriter

  newtype byte = x: int | 0 <= x < 256

  /** `path.resolve(dir, name)`, kept as its two parts. */
  datatype FilePath = FilePath(dir: string, name: string)

  datatype Content = Binary(bytes: seq<byte>) | Text(text: string)

  datatype FileSystem = FileSystem(files: map<FilePath, Content>, dirs: set<string>)

  /** A font download: its `content-type` header, if any, and its body. */
  datatype Response = Response(contentType: Option<string>, body: seq<byte>)

  type Network = map<string, Response>

  /** Where saving ended: the file system, the stylesheet text, and the error
      that stopped the chain, if one did. */
  datatype Saved = Saved(fs: FileSystem, css: string, error: Option<Error>)

  const DefaultMime: string := "font/woff2"

  /** `response.headers['content-type'] || 'font/woff2'`. */
  function Mime(r: Response): (m: string)
    ensures |m| > 0
  {
    if r.contentType.Some? && |r.contentType.value| > 0 then r.contentType.value else DefaultMime
  }

  /** The inline replacement of base64 mode. */
  function DataUrl(mime: string, body: string): string {
    "url('data:" + mime + ";base64," + body + "')"
  }

  /** The write rule shared by fonts and the stylesheet. */
  predicate ShouldWrite(s: Settings, fs: FileSystem, file: FilePath) {
    !s.simulate && (s.overwriting || file !in fs.files)
  }

  function FontPath(s: Settings, f: FontEntry): FilePath {
    FilePath(s.outputDir, f.outputFont)
  }

  function CssPath(s: Settings): FilePath {
    FilePath(s.outputDir, s.cssFile)
  }

  /** The replacement pairs of path mode. */
  function PathPairs(fonts: seq<FontEntry>): (r: seq<(string, string)>)
    ensures |r| == |fonts|
    ensures forall k :: 0 <= k < |r| ==> r[k] == (fonts[k].inputText, fonts[k].outputText)
  {
    seq(|fonts|, k requires 0 <= k < |fonts| => (fonts[k].inputText, fonts[k].outputText))
  }

  predicate AllServed(fonts: seq<FontEntry>, net: Network) {
    forall k :: 0 <= k < |fonts| ==> fonts[k].inputFont in net
  }

  /** The replacement pairs of base64 mode. */
  function DataPairs(fonts: seq<FontEntry>, net: Network, encode: seq<byte> -> string): (r: seq<(string, string)>)
    requires AllServed(fonts, net)
    ensures |r| == |fonts|
    ensures forall k :: 0 <= k < |r| ==>
      r[k] == (fonts[k].inputText, DataUrl(Mime(net[fonts[k].inputFont]), encode(net[fonts[k].inputFont].body)))
  {
    seq(|fonts|, k requires 0 <= k < |fonts| =>
      (fonts[k].inputText, DataUrl(Mime(net[fonts[k].inputFont]), encode(net[fonts[k].inputFont].body))))
  }

  /** The font loop. In path mode the stylesheet is rewritten before the
      write decision; a failed download matters only when the file is
      actually written. In base64 mode every font is downloaded and inlined,
      and nothing is written. `encode` is the base64 encoding of a body. */
  function SaveFonts(s: Settings, css: string, fonts: seq<FontEntry>, fs: FileSystem, net: Network,
                     encode: seq<byte> -> string): (r: Saved)
    ensures r.fs.dirs == fs.dirs
    ensures s.simulate || s.base64 ==> r.fs == fs
    ensures forall p :: p in fs.files ==> p in r.fs.files
    ensures forall p :: p in fs.files && !s.overwriting ==> r.fs.files[p] == fs.files[p]
    ensures forall p :: p in r.fs.files && p !in fs.files ==> exists k :: 0 <= k < |fonts| && p == FontPath(s, fonts[k])
    decreases |fonts|
  {
    if |fonts| == 0 then Saved(fs, css, None)
    else
      var f := fonts[0];
      assert forall k :: 0 <= k < |fonts[1..]| ==> FontPath(s, fonts[1..][k]) == FontPath(s, fonts[k + 1]);
      if !s.base64 then
        var file := FontPath(s, f);
        var rewritten := ReplaceFirst(css, f.inputText, f.outputText);
        if ShouldWrite(s, fs, file) then
          if f.inputFont in net then
            SaveFonts(s, rewritten, fonts[1..], fs.(files := fs.files[file := Binary(net[f.inputFont].body)]), net, encode)
          else Saved(fs, rewritten, Some(FetchFailed(f.inputFont)))
        else SaveFonts(s, rewritten, fonts[1..], fs, net, encode)
      else if f.inputFont in net then
        var resp := net[f.inputFont];
        SaveFonts(s, ReplaceFirst(css, f.inputText, DataUrl(Mime(resp), encode(resp.body))), fonts[1..], fs, net, encode)
      else Saved(fs, css, Some(FetchFailed(f.inputFont)))
  }

  /** What the font loop reports and the stylesheet it leaves: in base64 mode
      it fails exactly when some font is not served, in path mode it cannot
      fail when simulating or when every font is served, and on success the
      stylesheet is the list-order rewrite with the mode's replacements. */
  lemma {:induction false} SaveFontsOutcome(s: Settings, css: string, fonts: seq<FontEntry>, fs: FileSystem, net: Network,
                                            encode: seq<byte> -> string)
    ensures var r := SaveFonts(s, css, fonts, fs, net, encode);
            && (s.base64 ==> (r.error.None? <==> AllServed(fonts, net)))
            && (!s.base64 && (s.simulate || AllServed(fonts, net)) ==> r.error.None?)
            && (!s.base64 && r.error.None? ==> r.css == Rewrite(css, PathPairs(fonts)))
            && (s.base64 && r.error.None? ==> AllServed(fonts, net) && r.css == Rewrite(css, DataPairs(fonts, net, encode)))
    decreases |fonts|
  {
    if |fonts| > 0 {
      var f := fonts[0];
      var rest := fonts[1..];
      assert PathPairs(fonts)[1..] == PathPairs(rest);
      assert AllServed(fonts, net) <==> f.inputFont in net && AllServed(rest, net) by {
        assert forall k :: 0 < k < |fonts| ==> fonts[k] == rest[k - 1];
      }
      if !s.base64 {
        var file := FontPath(s, f);
        var rewritten := ReplaceFirst(css, f.inputText, f.outputText);
        if ShouldWrite(s, fs, file) {
          if f.inputFont in net {
            SaveFontsOutcome(s, rewritten, rest, fs.(files := fs.files[file := Binary(net[f.inputFont].body)]), net, encode);
          }
        } else {
          SaveFontsOutcome(s, rewritten, rest, fs, net, encode);
        }
      } else if f.inputFont in net {
        var resp := net[f.inputFont];
        assert AllServed(fonts, net) ==> DataPairs(fonts, net, encode)[1..] == DataPairs(rest, net, encode);
        SaveFontsOutcome(s, ReplaceFirst(css, f.inputText, DataUrl(Mime(resp), encode(resp.body))), rest, fs, net, encode);
      }
    }
  }

  /** `saveFiles`: create the output directory (not when simulating), run the
      font loop, then write the stylesheet under the same rule as the fonts. */
  function SaveFiles(s: Settings, css: string, fonts: seq<FontEntry>, fs: FileSystem, net: Network,
                     encode: seq<byte> -> string): (r: Saved)
  {
    var prepared := if s.simulate then fs else fs.(dirs := fs.dirs + {s.outputDir});
    var saved := SaveFonts(s, css, fonts, prepared, net, encode);
    if saved.error.Some? then saved
    else if ShouldWrite(s, saved.fs, CssPath(s)) then
      saved.(fs := saved.fs.(files := saved.fs.files[CssPath(s) := Text(saved.css)]))
    else saved
  }

  // ---------------------------------------------------------------------------
  // Properties of a whole save

  /** Simulating touches nothing: no directory, no font, no stylesheet. In
      path mode the request for each font is still made (main.js:258), but
      the step resolves at once (main.js:289), before the request could
      report an error, so nothing can fail; base64 mode waits for every
      font's body to inline it. */
  lemma SimulateChangesNothing(s: Settings, css: string, fonts: seq<FontEntry>, fs: FileSystem, net: Network,
                               encode: seq<byte> -> string)
    requires s.simulate
    ensures SaveFiles(s, css, fonts, fs, net, encode).fs == fs
    ensures !s.base64 ==> SaveFiles(s, css, fonts, fs, net, encode).error.None?
  {
    SaveFontsOutcome(s, css, fonts, fs, net, encode);
  }

  /** Without overwriting, a file that exists keeps its content, font or
      stylesheet alike, and no file disappears. */
  lemma NoOverwriteKeepsFiles(s: Settings, css: string, fonts: seq<FontEntry>, fs: FileSystem, net: Network,
                              encode: seq<byte> -> string, p: FilePath)
    requires !s.overwriting && p in fs.files
    ensures var r := SaveFiles(s, css, fonts, fs, net, encode);
            p in r.fs.files && r.fs.files[p] == fs.files[p]
  {
  }

  /** When every target already exists and overwriting is off, nothing is
      downloaded into a file, so no download failure can surface and the
      files stay exactly as they were. */
  lemma AllPresentNoError(s: Settings, css: string, fonts: seq<FontEntry>, fs: FileSystem, net: Network,
                          encode: seq<byte> -> string)
    requires !s.overwriting && !s.base64
    requires forall k :: 0 <= k < |fonts| ==> FontPath(s, fonts[k]) in fs.files
    requires CssPath(s) in fs.files
    ensures var r := SaveFiles(s, css, fonts, fs, net, encode);
            r.error.None? && r.fs.files == fs.files && r.css == Rewrite(css, PathPairs(fonts))
  {
    var prepared := if s.simulate then fs else fs.(dirs := fs.dirs + {s.outputDir});
    PresentTargetsSkipped(s, css, fonts, prepared, net, encode);
    SaveFontsOutcome(s, css, fonts, prepared, net, encode);
  }

  lemma {:induction false} PresentTargetsSkipped(s: Settings, css: string, fonts: seq<FontEntry>, fs: FileSystem,
                                                 net: Network, encode: seq<byte> -> string)
    requires !s.overwriting && !s.base64
    requires forall k :: 0 <= k < |fonts| ==> FontPath(s, fonts[k]) in fs.files
    ensures SaveFonts(s, css, fonts, fs, net, encode).error.None?
    ensures SaveFonts(s, css, fonts, fs, net, encode).fs == fs
    decreases |fonts|
  {
    if |fonts| > 0 {
      assert forall k :: 0 <= k < |fonts[1..]| ==> fonts[1..][k] == fonts[k + 1];
      PresentTargetsSkipped(s, ReplaceFirst(css, fonts[0].inputText, fonts[0].outputText), fonts[1..], fs, net, encode);
    }
  }

  /** In path mode the stylesheet that is saved does not depend on the file
      system, the network, simulation or overwriting: it is always the
      rewrite with every entry's `url('<path><name>')`. */
  lemma PathModeStylesheet(s: Settings, css: string, fonts: seq<FontEntry>, fs: FileSystem, net: Network,
                           encode: seq<byte> -> string)
    requires !s.base64
    ensures var r := SaveFiles(s, css, fonts, fs, net, encode);
            r.error.None? ==> r.css == Rewrite(css, PathPairs(fonts))
  {
    SaveFontsOutcome(s, css, fonts, if s.simulate then fs else fs.(dirs := fs.dirs + {s.outputDir}), net, encode);
  }

  /** The stylesheet is written, with its rewritten text, when the fonts were
      saved without error, the run is not simulated, and its target is free
      or overwriting is on (its path being no font's target). */
  lemma StylesheetWritten(s: Settings, css: string, fonts: seq<FontEntry>, fs: FileSystem, net: Network,
                          encode: seq<byte> -> string)
    requires !s.simulate && (s.overwriting || CssPath(s) !in fs.files)
    requires forall k :: 0 <= k < |fonts| ==> FontPath(s, fonts[k]) != CssPath(s)
    ensures var r := SaveFiles(s, css, fonts, fs, net, encode);
            r.error.None? ==> CssPath(s) in r.fs.files && r.fs.files[CssPath(s)] == Text(r.css)
  {
  }

  /** The output directory is created exactly when not simulating. */
  lemma OutputDirectory(s: Settings, css: string, fonts: seq<FontEntry>, fs: FileSystem, net: Network,
                        encode: seq<byte> -> string)
    ensures var r := SaveFiles(s, css, fonts, fs, net, encode);
            r.fs.dirs == if s.simulate then fs.dirs else fs.dirs + {s.outputDir}
  {
  }

  /** Base64 mode writes no font file: at most the stylesheet changes. */
  lemma Base64WritesOnlyStylesheet(s: Settings, css: string, fonts: seq<FontEntry>, fs: FileSystem, net: Network,
                                   encode: seq<byte> -> string, p: FilePath)
    requires s.base64 && p != CssPath(s)
    ensures var r := SaveFiles(s, css, fonts, fs, net, encode);
            (p in r.fs.files <==> p in fs.files) && (p in fs.files ==> r.fs.files[p] == fs.files[p])
  {
  }

  /** Base64 mode fails exactly when some font cannot be downloaded; when it
      succeeds every token is replaced by its data URL, in list order. */
  lemma Base64Outcome(s: Settings, css: string, fonts: seq<FontEntry>, fs: FileSystem, net: Network,
                      encode: seq<byte> -> string)
    requires s.base64
    ensures var r := SaveFiles(s, css, fonts, fs, net, encode);
            && (r.error.None? <==> AllServed(fonts, net))
            && (r.error.None? ==> r.css == Rewrite(css, DataPairs(fonts, net, encode)))
  {
    SaveFontsOutcome(s, css, fonts, if s.simulate then fs else fs.(dirs := fs.dirs + {s.outputDir}), net, encode);
  }

  /** With pairwise different targets that are free (or overwriting on), a
      real path-mode run stores every font's downloaded body under its name. */
  lemma {:induction false} DistinctTargetsStored(s: Settings, css: string, fonts: seq<FontEntry>, fs: FileSystem,
                                                 net: Network, encode: seq<byte> -> string)
    requires !s.base64 && !s.simulate && AllServed(fonts, net)
    requires forall k1, k2 :: 0 <= k1 < k2 < |fonts| ==> fonts[k1].outputFont != fonts[k2].outputFont
    requires forall k :: 0 <= k < |fonts| ==> s.overwriting || FontPath(s, fonts[k]) !in fs.files
    ensures var r := SaveFonts(s, css, fonts, fs, net, encode);
            forall k :: 0 <= k < |fonts| ==>
              FontPath(s, fonts[k]) in r.fs.files && r.fs.files[FontPath(s, fonts[k])] == Binary(net[fonts[k].inputFont].body)
    decreases |fonts|
  {
    if |fonts| > 0 {
      var f := fonts[0];
      var file := FontPath(s, f);
      var fs' := fs.(files := fs.files[file := Binary(net[f.inputFont].body)]);
      var rest := fonts[1..];
      assert forall k :: 0 <= k < |rest| ==> rest[k] == fonts[k + 1];
      forall k | 0 <= k < |rest| ensures s.overwriting || FontPath(s, rest[k]) !in fs'.files {
        assert FontPath(s, rest[k]) != file;
      }
      var css' := ReplaceFirst(css, f.inputText, f.outputText);
      DistinctTargetsStored(s, css', rest, fs', net, encode);
      var r := SaveFonts(s, css, fonts, fs, net, encode);
      assert r == SaveFonts(s, css', rest, fs', net, encode);
      forall k | 0 <= k < |fonts|
        ensures FontPath(s, fonts[k]) in r.fs.files && r.fs.files[FontPath(s, fonts[k])] == Binary(net[fonts[k].inputFont].body)
      {
        if k == 0 {
          assert file in fs'.files;
          if !s.overwriting {
            assert r.fs.files[file] == fs'.files[file];
          } else {
            assert forall j :: 0 <= j < |rest| ==> FontPath(s, rest[j]) != file;
            NotTargetUnchanged(s, css', rest, fs', net, encode, file);
          }
        } else {
          assert fonts[k] == rest[k - 1];
        }
      }
    }
  }

  /** A path no entry targets keeps its content. */
  lemma {:induction false} NotTargetUnchanged(s: Settings, css: string, fonts: seq<FontEntry>, fs: FileSystem,
                                              net: Network, encode: seq<byte> -> string, p: FilePath)
    requires p in fs.files
    requires forall k :: 0 <= k < |fonts| ==> FontPath(s, fonts[k]) != p
    ensures var r := SaveFonts(s, css, fonts, fs, net, encode);
            p in r.fs.files && r.fs.files[p] == fs.files[p]
    decreases |fonts|
  {
    if |fonts| > 0 {
      var f := fonts[0];
      assert forall k :: 0 <= k < |fonts[1..]| ==> fonts[1..][k] == fonts[k + 1];
      if !s.base64 {
        var css' := ReplaceFirst(css, f.inputText, f.outputText);
        var file := FontPath(s, f);
        if ShouldWrite(s, fs, file) && f.inputFont in net {
          NotTargetUnchanged(s, css', fonts[1..], fs.(files := fs.files[file := Binary(net[f.inputFont].body)]), net, encode, p);
        } else if !ShouldWrite(s, fs, file) {
          NotTargetUnchanged(s, css', fonts[1..], fs, net, encode, p);
        }
      } else if f.inputFont in net {
        var resp := net[f.inputFont];
        NotTargetUnchanged(s, ReplaceFirst(css, f.inputText, DataUrl(Mime(resp), encode(resp.body))), fonts[1..], fs, net, encode, p);
      }
    }
  }
}
