/** Node's POSIX `path.extname`, which the updates service uses to derive
    file extensions from archive paths. */
module NodePath {
  import opened Wrappers
  import opened Text

  /** The path without its trailing slashes. */
  function DropTrailingSlashes(p: string): (r: string)
    ensures |r| <= |p| && r == p[..|r|]
    ensures r == "" || r[|r| - 1] != '/'
    decreases |p|
  {
    if |p| > 0 && p[|p| - 1] == '/' then
      var r := DropTrailingSlashes(p[..|p| - 1]);
      assert p[..|p| - 1][..|r|] == p[..|r|];
      r
    else p
  }

  /** The text after the last slash. */
  function LastSegment(p: string): (r: string)
    ensures '/' !in r && EndsWith(p, r)
    decreases |p|
  {
    if |p| == 0 || p[|p| - 1] == '/' then ""
    else
      var r := LastSegment(p[..|p| - 1]);
      assert p[..|p| - 1][|p| - 1 - |r|..] == p[|p| - 1 - |r|..|p| - 1];
      assert p[|p| - 1 - |r|..] == p[|p| - 1 - |r|..|p| - 1] + [p[|p| - 1]];
      r + [p[|p| - 1]]
  }

  /** The position of the last dot. */
  function LastDot(s: string): (r: Option<nat>)
    ensures r.Some? ==> r.value < |s| && s[r.value] == '.'
    decreases |s|
  {
    if |s| == 0 then None
    else if s[|s| - 1] == '.' then Some(|s| - 1)
    else LastDot(s[..|s| - 1])
  }

  /** No dot follows the last one, and without one there is none at all. */
  lemma {:induction false} LastDotIsLast(s: string)
    ensures LastDot(s).None? ==> '.' !in s
    ensures LastDot(s).Some? ==> '.' !in s[LastDot(s).value + 1..]
    decreases |s|
  {
    if |s| > 0 && s[|s| - 1] != '.' {
      var t := s[..|s| - 1];
      LastDotIsLast(t);
      assert s == t + [s[|s| - 1]];
      if LastDot(t).Some? {
        assert s[LastDot(t).value + 1..] == t[LastDot(t).value + 1..] + [s[|s| - 1]];
      }
    }
  }

  /** `path.extname`: the last segment (trailing slashes ignored) from its
      last dot on; `''` when the segment has no dot, when its only leading
      character is that dot (`.bashrc`), and for `..`. */
  function Extname(p: string): (e: string)
    ensures e == "" || e[0] == '.'
  {
    var seg := LastSegment(DropTrailingSlashes(p));
    match LastDot(seg)
    case None => ""
    case Some(d) => if d == 0 || seg == ".." then "" else seg[d..]
  }

  /** A non-empty extension is a dot and a tail without dots or slashes,
      ending the last segment, which has a non-empty stem before it. */
  lemma ExtnameShape(p: string)
    requires Extname(p) != ""
    ensures var e := Extname(p);
      var seg := LastSegment(DropTrailingSlashes(p));
      && '/' !in e && '.' !in e[1..]
      && |e| < |seg| && seg == seg[..|seg| - |e|] + e
  {
    var seg := LastSegment(DropTrailingSlashes(p));
    assert LastDot(seg).Some?;
    var d := LastDot(seg).value;
    assert 0 < d && Extname(p) == seg[d..];
    LastDotIsLast(seg);
    TailFromDot(seg, d);
  }

  lemma TailFromDot(seg: string, d: nat)
    requires 0 < d < |seg| && '/' !in seg && '.' !in seg[d + 1..]
    ensures var e := seg[d..];
      && '/' !in e && '.' !in e[1..]
      && |e| < |seg| && seg == seg[..|seg| - |e|] + e
  {
    var e := seg[d..];
    assert e[1..] == seg[d + 1..];
    assert seg == seg[..d] + e;
    assert forall i :: 0 <= i < |e| ==> e[i] == seg[d + i];
  }

  /** A path whose last segment is a dot-free stem and a dot-free
      extension yields that extension. */
  lemma ExtnameOfStemAndExtension(dir: string, stem: string, ext: string)
    requires stem != "" && '.' !in stem && '/' !in stem && '.' !in ext && '/' !in ext
    ensures Extname(dir + "/" + stem + "." + ext) == "." + ext
  {
    var seg := stem + "." + ext;
    var p := dir + "/" + seg;
    assert p == dir + "/" + stem + "." + ext;
    NoTrailingSlash(p, seg);
    SegmentAfterSlash(dir, seg);
    LastDotAfterStem(stem, ext);
    assert seg[0] != '.';
    SuffixAfterStem(stem, ext);
  }

  /** A bare `stem.ext`, with no directory, yields its extension too. */
  lemma ExtnameOfBareName(stem: string, ext: string)
    requires stem != "" && '.' !in stem && '/' !in stem && '.' !in ext && '/' !in ext
    ensures Extname(stem + "." + ext) == "." + ext
  {
    var seg := stem + "." + ext;
    assert '/' !in seg by {
      assert forall i :: 0 <= i < |seg| ==> seg[i] == (if i < |stem| then stem[i] else if i == |stem| then '.' else ext[i - |stem| - 1]);
    }
    NoTrailingSlash(seg, seg);
    SlashFreeSegment(seg);
    LastDotAfterStem(stem, ext);
    assert seg[0] != '.';
    SuffixAfterStem(stem, ext);
  }

  /** A slash-free path is its own last segment. */
  lemma {:induction false} SlashFreeSegment(seg: string)
    requires '/' !in seg
    ensures LastSegment(seg) == seg
    decreases |seg|
  {
    if |seg| > 0 {
      var t := seg[..|seg| - 1];
      assert forall c :: c in t ==> c in seg;
      SlashFreeSegment(t);
      assert seg == t + [seg[|seg| - 1]];
    }
  }

  lemma SuffixAfterStem(stem: string, ext: string)
    ensures (stem + "." + ext)[|stem|..] == "." + ext
  {
  }

  lemma NoTrailingSlash(p: string, seg: string)
    requires seg != "" && '/' !in seg && EndsWith(p, seg)
    ensures DropTrailingSlashes(p) == p
  {
    assert p[|p| - 1] == seg[|seg| - 1];
  }

  /** The last segment of `dir/seg` for a slash-free `seg`. */
  lemma {:induction false} SegmentAfterSlash(dir: string, seg: string)
    requires '/' !in seg
    ensures LastSegment(dir + "/" + seg) == seg
    decreases |seg|
  {
    var p := dir + "/" + seg;
    if |seg| > 0 {
      assert p[..|p| - 1] == dir + "/" + seg[..|seg| - 1];
      SegmentAfterSlash(dir, seg[..|seg| - 1]);
      assert seg == seg[..|seg| - 1] + [seg[|seg| - 1]];
    }
  }

  lemma {:induction false} LastDotAfterStem(stem: string, ext: string)
    requires '.' !in ext
    ensures LastDot(stem + "." + ext) == Some(|stem|)
    decreases |ext|
  {
    var s := stem + "." + ext;
    if |ext| > 0 {
      assert s[..|s| - 1] == stem + "." + ext[..|ext| - 1];
      assert s[|s| - 1] == ext[|ext| - 1];
      LastDotAfterStem(stem, ext[..|ext| - 1]);
    }
  }
}
