/** The two POSIX `path` helpers the font-entry extraction uses on a URL
    pathname (main.js:184, main.js:187): `path.extname` and
    `path.basename(p, ext)`. Both look only at the last segment of the path,
    ignoring trailing slashes. */
module NodePath {
  import opened Results
  import opened Strings

  /** Length of `p` once trailing slashes are dropped. */
  function SegmentEnd(p: string): (e: nat)
    ensures e <= |p|
    ensures e > 0 ==> p[e - 1] != '/'
    ensures forall i :: e <= i < |p| ==> p[i] == '/'
    decreases |p|
  {
    if |p| == 0 then 0
    else if p[|p| - 1] == '/' then SegmentEnd(p[..|p| - 1])
    else |p|
  }

  /** Scanning back from `k`, the position just past the nearest slash. */
  function StartFrom(p: string, k: nat): (s: nat)
    requires k <= |p|
    ensures s <= k
    ensures s > 0 ==> p[s - 1] == '/'
    ensures forall i :: s <= i < k ==> p[i] != '/'
    decreases k
  {
    if k == 0 || p[k - 1] == '/' then k else StartFrom(p, k - 1)
  }

  /** The last segment of the path, with trailing slashes ignored. */
  function LastSegment(p: string): (b: string)
    ensures '/' !in b
    ensures |b| <= |p|
  {
    var e := SegmentEnd(p);
    var s := StartFrom(p, e);
    assert forall i :: 0 <= i < e - s ==> p[s..e][i] == p[s + i];
    p[s..e]
  }

  /** Position of the last dot. */
  function LastDot(b: string): (r: Option<nat>)
    ensures r.None? <==> '.' !in b
    ensures r.Some? ==> r.value < |b| && b[r.value] == '.'
    ensures r.Some? ==> forall i :: r.value < i < |b| ==> b[i] != '.'
    decreases |b|
  {
    if |b| == 0 then None
    else if b[|b| - 1] == '.' then Some(|b| - 1)
    else
      assert forall i :: 0 <= i < |b| - 1 ==> b[..|b| - 1][i] == b[i];
      LastDot(b[..|b| - 1])
  }

  /** `path.extname(p)`: from the last dot of the last segment to its end;
      empty when there is no dot, when the only dot is the segment's first
      character (`.bashrc`), or when the segment is `..`. */
  function Extname(p: string): (e: string)
    ensures e == "" || (e[0] == '.' && '/' !in e)
    ensures forall i :: 0 < i < |e| ==> e[i] != '.'
    ensures |e| < |LastSegment(p)| || e == ""
  {
    var b := LastSegment(p);
    match LastDot(b)
    case None => ""
    case Some(d) =>
      if d == 0 || b == ".." then ""
      else
        assert forall i :: 0 <= i < |b| - d ==> b[d..][i] == b[d + i];
        b[d..]
  }

  /** `path.basename(p, ext)`: the last segment, without `ext` when `ext` is
      a proper suffix of it. */
  function Basename(p: string, ext: string): (r: string)
    ensures '/' !in r
  {
    var b := LastSegment(p);
    if 0 < |ext| < |b| && b[|b| - |ext|..] == ext then
      assert forall i :: 0 <= i < |b| - |ext| ==> b[..|b| - |ext|][i] == b[i];
      b[..|b| - |ext|]
    else b
  }

  /** The extension is empty exactly when no dot follows the first character
      of the last segment, or the segment is `..`. */
  lemma ExtnameEmptyIff(p: string)
    ensures var b := LastSegment(p);
            Extname(p) == "" <==> (forall i :: 0 < i < |b| ==> b[i] != '.') || b == ".."
  {
    var b := LastSegment(p);
    match LastDot(b)
    case None =>
    case Some(d) =>
      if d > 0 {
        assert b[d] == '.';
      }
  }

  /** A non-empty extension splits the last segment: the base name followed by
      the extension gives back the segment, and the base name is not empty. */
  lemma BasenameExtnameSplit(p: string)
    requires Extname(p) != ""
    ensures |Basename(p, Extname(p))| > 0
    ensures Basename(p, Extname(p)) + Extname(p) == LastSegment(p)
  {
    hide LastSegment, LastDot;
    var b := LastSegment(p);
    var d := LastDot(b).value;
    var e := Extname(p);
    assert e == b[d..] && 0 < d;
    assert b[|b| - |e|..] == e;
    assert Basename(p, e) == b[..d];
    assert b[..d] + b[d..] == b;
  }

  /** Neither helper introduces characters: both results are made of
      characters of the path. */
  lemma PartsFromPath(p: string, ext: string)
    ensures forall c :: c in Extname(p) ==> c in p
    ensures forall c :: c in Basename(p, ext) ==> c in p
  {
    var e := SegmentEnd(p);
    var s := StartFrom(p, e);
    var b := LastSegment(p);
    assert b == p[s..e];
    forall c | c in b ensures c in p {
      var i :| 0 <= i < |b| && b[i] == c;
      assert p[s + i] == c;
    }
  }

  /** For `dir/name.x`, with no slash in `name` or `x` and no dot in a
      non-empty `x`, the extension is `.x` and the base name is `name`. */
  lemma NamedFile(dir: string, name: string, x: string)
    requires |name| > 0 && |x| > 0
    requires '/' !in name && '/' !in x && '.' !in x
    ensures Extname(dir + "/" + name + "." + x) == "." + x
    ensures Basename(dir + "/" + name + "." + x, "." + x) == name
  {
    var p := dir + "/" + name + "." + x;
    assert p[|p| - 1] == x[|x| - 1];
    assert SegmentEnd(p) == |p|;
    var s := StartFrom(p, |p|);
    assert p[|dir|] == '/';
    forall i | |dir| < i < |p| ensures p[i] != '/' {
      if i <= |dir| + |name| {
        assert p[i] == name[i - |dir| - 1];
      } else if i > |dir| + |name| + 1 {
        assert p[i] == x[i - |dir| - |name| - 2];
      }
    }
    assert s == |dir| + 1;
    var b := LastSegment(p);
    assert b == name + "." + x;
    var d := |name|;
    assert b[d] == '.';
    forall i | d < i < |b| ensures b[i] != '.' {
      assert b[i] == x[i - d - 1];
    }
    assert LastDot(b) == Some(d);
    assert b != ".." by {
      assert |b| >= 3;
    }
    assert b[d..] == "." + x;
    assert b[..|b| - |x| - 1] == name;
  }
}
