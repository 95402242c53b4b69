/** Reference cleaning and extension extraction, the path handling of
    `resolveLocal` and `fileToDataUri`. Resolving a cleaned reference against
    the input's directory (`path.resolve`) is a parameter of the model. */
module Paths {
  import opened Common

  /** `target.split(/[?#]/)[0]`: the reference with its query or fragment dropped. */
  function CleanReference(target: string): (clean: string)
    ensures clean <= target
    ensures '?' !in clean && '#' !in clean
    ensures |clean| < |target| ==> target[|clean|] == '?' || target[|clean|] == '#'
    ensures clean == target <==> '?' !in target && '#' !in target
  {
    if target == [] then []
    else if target[0] == '?' || target[0] == '#' then []
    else [target[0]] + CleanReference(target[1..])
  }

  /** `path.resolve(baseDir, clean)` for the cleaned reference; `resolve` stands for Node's resolver. */
  function ResolveLocal(resolve: (string, string) -> string, baseDir: string, target: string): string {
    resolve(baseDir, CleanReference(target))
  }

  /** A query or fragment after a clean reference is dropped whatever it holds. */
  lemma {:induction false} CleanReferenceDropsSuffix(target: string, sep: char, rest: string)
    requires '?' !in target && '#' !in target && (sep == '?' || sep == '#')
    ensures CleanReference(target + [sep] + rest) == target
  {
    if target != [] {
      assert (target + [sep] + rest)[1..] == target[1..] + [sep] + rest;
      CleanReferenceDropsSuffix(target[1..], sep, rest);
    }
  }

  /** References that differ only in their query or fragment resolve to the same file. */
  lemma ResolveIgnoresSuffix(resolve: (string, string) -> string, baseDir: string, target: string, sep: char, rest: string)
    requires '?' !in target && '#' !in target && (sep == '?' || sep == '#')
    ensures ResolveLocal(resolve, baseDir, target + [sep] + rest) == ResolveLocal(resolve, baseDir, target)
  {
    CleanReferenceDropsSuffix(target, sep, rest);
  }

  /** The path without its trailing `/` characters. */
  function TrimTrailingSlashes(p: string): (r: string)
    ensures r <= p
    ensures r == [] || r[|r| - 1] != '/'
    ensures forall i :: |r| <= i < |p| ==> p[i] == '/'
  {
    if p == [] || p[|p| - 1] != '/' then p else TrimTrailingSlashes(p[..|p| - 1])
  }

  /** The text after the last `/`. */
  function LastSegment(p: string): (seg: string)
    ensures '/' !in seg
    ensures |seg| <= |p| && seg == p[|p| - |seg|..]
    ensures |seg| < |p| ==> p[|p| - |seg| - 1] == '/'
  {
    if p == [] || p[|p| - 1] == '/' then []
    else LastSegment(p[..|p| - 1]) + [p[|p| - 1]]
  }

  /** The index of the last `.` in `s`, if any. */
  function LastDot(s: string): (r: Option<nat>)
    ensures r.None? <==> '.' !in s
    ensures r.Some? ==> r.value < |s| && s[r.value] == '.' && '.' !in s[r.value + 1..]
  {
    if s == [] then None
    else if s[|s| - 1] == '.' then Some(|s| - 1)
    else LastDot(s[..|s| - 1])
  }

  /** POSIX `path.extname`: from the last `.` of the last segment to its end, or empty when the
      segment has no `.`, when its last `.` is its first character, or when it is `..`. */
  function ExtName(p: string): (e: string)
    ensures e == [] || (e[0] == '.' && '/' !in e && '.' !in e[1..])
  {
    SegmentExt(LastSegment(TrimTrailingSlashes(p)))
  }

  /** The segment `..` (the parent directory), which has no extension. */
  predicate IsDotDot(seg: string) {
    |seg| == 2 && seg[0] == '.' && seg[1] == '.'
  }

  /** The extension of one path segment. */
  function SegmentExt(seg: string): (e: string)
    requires '/' !in seg
    ensures e == [] || (e[0] == '.' && '/' !in e && '.' !in e[1..])
  {
    match LastDot(seg)
    case None => []
    case Some(d) => if d == 0 || IsDotDot(seg) then [] else seg[d..]
  }

  /** `path.extname(p).slice(1).toLowerCase()`, with ASCII case folding. */
  function Extension(p: string): (ext: string)
    ensures '.' !in ext && '/' !in ext
    ensures forall i :: 0 <= i < |ext| ==> !('A' <= ext[i] <= 'Z')
  {
    var e := ExtName(p);
    var raw := if e == [] then [] else e[1..];
    var r := AsciiLower(raw);
    AsciiLowerKeepsNonLetter(raw, '.');
    AsciiLowerKeepsNonLetter(raw, '/');
    assert forall i :: 0 <= i < |r| ==> !('A' <= r[i] <= 'Z') by {
      forall i | 0 <= i < |r| ensures !('A' <= r[i] <= 'Z') {
        assert r[i] == LowerChar(raw[i]);
      }
    }
    r
  }

  lemma {:induction false} TrimLower(p: string)
    ensures TrimTrailingSlashes(AsciiLower(p)) == AsciiLower(TrimTrailingSlashes(p))
    decreases |p|
  {
    if p != [] && p[|p| - 1] == '/' {
      AsciiLowerSlice(p, 0, |p| - 1);
      TrimLower(p[..|p| - 1]);
    }
  }

  lemma {:induction false} LastSegmentLower(p: string)
    ensures LastSegment(AsciiLower(p)) == AsciiLower(LastSegment(p))
    decreases |p|
  {
    var lp := AsciiLower(p);
    if p == [] {
    } else if p[|p| - 1] == '/' {
      assert lp[|p| - 1] == '/';
    } else {
      var init, last := p[..|p| - 1], p[|p| - 1];
      assert lp[|p| - 1] == LowerChar(last) != '/';
      AsciiLowerSlice(p, 0, |p| - 1);
      LastSegmentLower(init);
      AsciiLowerAppend(LastSegment(init), [last]);
      assert AsciiLower([last]) == [LowerChar(last)];
      calc {
        LastSegment(lp);
        LastSegment(lp[..|p| - 1]) + [LowerChar(last)];
        LastSegment(AsciiLower(init)) + [LowerChar(last)];
        AsciiLower(LastSegment(init)) + AsciiLower([last]);
        AsciiLower(LastSegment(init) + [last]);
      }
    }
  }

  lemma {:induction false} LastDotLower(s: string)
    ensures LastDot(AsciiLower(s)) == LastDot(s)
    decreases |s|
  {
    if s != [] && s[|s| - 1] != '.' {
      AsciiLowerSlice(s, 0, |s| - 1);
      LastDotLower(s[..|s| - 1]);
    }
  }

  /** Extension lookup is case-insensitive: paths that differ only in ASCII case have the same extension. */
  lemma ExtensionIgnoresCase(p: string, q: string)
    requires AsciiLower(p) == AsciiLower(q)
    ensures Extension(p) == Extension(q)
  {
    ExtensionOfLower(p);
    ExtensionOfLower(q);
  }

  lemma SegmentExtLower(seg: string)
    requires '/' !in seg
    ensures '/' !in AsciiLower(seg)
    ensures SegmentExt(AsciiLower(seg)) == AsciiLower(SegmentExt(seg))
  {
    var lseg := AsciiLower(seg);
    AsciiLowerKeepsNonLetter(seg, '/');
    LastDotLower(seg);
    assert IsDotDot(seg) <==> IsDotDot(lseg);
    if LastDot(seg).Some? {
      var d := LastDot(seg).value;
      if d != 0 && !IsDotDot(seg) {
        AsciiLowerDrop(seg, d);
      }
    }
  }

  lemma ExtNameLower(p: string)
    ensures ExtName(AsciiLower(p)) == AsciiLower(ExtName(p))
  {
    var t := TrimTrailingSlashes(p);
    TrimLower(p);
    LastSegmentLower(t);
    SegmentExtLower(LastSegment(t));
  }

  lemma ExtensionOfLower(p: string)
    ensures Extension(p) == Extension(AsciiLower(p))
  {
    var e := ExtName(p);
    ExtNameLower(p);
    if e != [] {
      AsciiLowerSlice(e, 1, |e|);
      AsciiLowerIdempotent(e[1..]);
    }
  }

  lemma {:induction false} LastSegmentAfterSlash(a: string, b: string)
    requires '/' !in b
    ensures LastSegment(a + "/" + b) == b
    decreases |b|
  {
    var p := a + "/" + b;
    if b == [] {
      assert p[|p| - 1] == '/';
    } else {
      var init := b[..|b| - 1];
      assert p[..|p| - 1] == a + "/" + init;
      assert p[|p| - 1] == b[|b| - 1];
      LastSegmentAfterSlash(a, init);
      assert b == init + [b[|b| - 1]];
    }
  }

  lemma {:induction false} LastDotBefore(a: string, b: string)
    requires '.' !in b
    ensures LastDot(a + "." + b) == Some(|a|)
    decreases |b|
  {
    var s := a + "." + b;
    if b != [] {
      var init := b[..|b| - 1];
      assert s[..|s| - 1] == a + "." + init;
      assert s[|s| - 1] == b[|b| - 1];
      LastDotBefore(a, init);
    }
  }

  lemma {:induction false} AsciiLowerOfLower(s: string)
    requires forall i :: 0 <= i < |s| ==> !('A' <= s[i] <= 'Z')
    ensures AsciiLower(s) == s
  {
    if s != [] {
      AsciiLowerOfLower(s[1..]);
    }
  }

  lemma SegmentOfName(stem: string, ext: string)
    requires stem != [] && '/' !in stem && ext != [] && '/' !in ext && '.' !in ext
    ensures '/' !in stem + "." + ext
    ensures SegmentExt(stem + "." + ext) == "." + ext
  {
    var seg := stem + "." + ext;
    assert seg == stem + ("." + ext);
    LastDotBefore(stem, ext);
    assert seg[|stem|..] == "." + ext;
  }

  /** The extension of `dir/stem.ext` is `ext` when `ext` is a non-empty lower-case name without a
      dot and the stem is not empty. */
  lemma ExtensionOfName(dir: string, stem: string, ext: string)
    requires stem != [] && '/' !in stem && ext != [] && '/' !in ext && '.' !in ext
    requires forall i :: 0 <= i < |ext| ==> !('A' <= ext[i] <= 'Z')
    ensures Extension(dir + "/" + stem + "." + ext) == ext
  {
    var seg := stem + "." + ext;
    var p := dir + "/" + seg;
    assert dir + "/" + stem + "." + ext == p;
    assert p[|p| - 1] == ext[|ext| - 1];
    SegmentOfName(stem, ext);
    LastSegmentAfterSlash(dir, seg);
    calc {
      ExtName(p);
      SegmentExt(LastSegment(TrimTrailingSlashes(p)));
      SegmentExt(LastSegment(p));
      SegmentExt(seg);
      "." + ext;
    }
    assert ("." + ext)[1..] == ext;
    AsciiLowerOfLower(ext);
  }

  /** `path.extname` of `dir/seg` is the extension of the segment `seg`. */
  lemma ExtNameOfSegment(dir: string, seg: string)
    requires seg != [] && '/' !in seg
    ensures ExtName(dir + "/" + seg) == SegmentExt(seg)
  {
    var p := dir + "/" + seg;
    assert p[|p| - 1] == seg[|seg| - 1];
    LastSegmentAfterSlash(dir, seg);
  }

  /** Trailing `/` characters do not change `path.extname`. */
  lemma ExtNameTrailingSlash(p: string)
    ensures ExtName(p + "/") == ExtName(p)
  {
    var q := p + "/";
    assert q[|q| - 1] == '/' && q[..|q| - 1] == p;
    assert TrimTrailingSlashes(q) == TrimTrailingSlashes(p);
  }

  /** A last segment without a `.` has no extension. */
  lemma NoDotNoExtension(dir: string, name: string)
    requires name != [] && '/' !in name && '.' !in name
    ensures ExtName(dir + "/" + name) == [] && Extension(dir + "/" + name) == []
  {
    ExtNameOfSegment(dir, name);
  }

  /** A dot-file such as `.svg` has no extension: its only `.` starts the segment. */
  lemma DotFileNoExtension(dir: string, name: string)
    requires '/' !in name && '.' !in name
    ensures ExtName(dir + "/." + name) == [] && Extension(dir + "/." + name) == []
  {
    var seg := "." + name;
    assert '/' !in seg;
    assert dir + "/." + name == dir + "/" + seg;
    LastDotBefore([], name);
    assert [] + "." + name == seg;
    ExtNameOfSegment(dir, seg);
  }

  /** The parent directory `..` has no extension. */
  lemma DotDotNoExtension(dir: string)
    ensures ExtName(dir + "/..") == [] && Extension(dir + "/..") == []
  {
    assert dir + "/.." == dir + "/" + "..";
    ExtNameOfSegment(dir, "..");
  }

  /** A segment ending in `.` has the extension `.`, so the lower-cased name without it is empty. */
  lemma TrailingDotExtension(dir: string, stem: string)
    requires stem != [] && stem != "." && '/' !in stem
    ensures ExtName(dir + "/" + stem + ".") == "." && Extension(dir + "/" + stem + ".") == []
  {
    var seg := stem + ".";
    assert '/' !in seg;
    assert dir + "/" + stem + "." == dir + "/" + seg;
    assert LastDot(seg) == Some(|stem|);
    assert !IsDotDot(seg);
    assert seg[|stem|..] == ".";
    ExtNameOfSegment(dir, seg);
  }

  /** `/img/.svg` is not an SVG file: its extension is empty. */
  lemma HiddenSvgHasNoExtension()
    ensures Extension("/img/.svg") == []
  {
    assert "/img" + "/." + "svg" == "/img/.svg";
    DotFileNoExtension("/img", "svg");
  }
}
