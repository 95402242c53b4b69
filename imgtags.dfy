/** The `<img>` rewrite: `html.replace(/<img\b([^>]*?)\bsrc=(["'])([^"'>]+)\2([^>]*?)>/gi, callback)`.
    `IsMatch` states when the pattern matches at a position, `MatchAt` is the
    backtracking matcher's choice there (the shortest first group), `Scan` is the
    global left-to-right search, and `InlineImages` applies the callback to every
    match in order. */
module ImgTags {
  import opened Common
  import Paths
  import DataUri

  predicate IsQuote(c: char) {
    c == '"' || c == '\''
  }

  /** `<img`, case-insensitively, at `p`. */
  predicate OpensImg(html: string, p: nat) {
    p + 4 <= |html| && html[p] == '<'
    && LowerChar(html[p + 1]) == 'i' && LowerChar(html[p + 2]) == 'm' && LowerChar(html[p + 3]) == 'g'
  }

  /** `src=` followed by a quote, case-insensitively, at `q`. */
  predicate KeywordAt(html: string, q: nat) {
    q + 5 <= |html|
    && LowerChar(html[q]) == 's' && LowerChar(html[q + 1]) == 'r' && LowerChar(html[q + 2]) == 'c'
    && html[q + 3] == '=' && IsQuote(html[q + 4])
  }

  /** The pattern matches `html[p..g + 1]` with `src=` at `q` and the closing quote at `r`:
      `<img`, a word boundary, the first group, a word boundary, `src=`, a quote, a value of
      characters other than quotes and `>`, the same quote, the last group, and `>`; neither
      group contains `>`. */
  predicate IsMatch(html: string, p: nat, q: nat, r: nat, g: nat) {
    OpensImg(html, p) && p + 4 < q && q + 5 < r < g < |html|
    && !IsWordChar(html[p + 4]) && !IsWordChar(html[q - 1]) && KeywordAt(html, q)
    && (forall k :: q + 5 <= k < r ==> !IsQuote(html[k])) && html[r] == html[q + 4]
    && (forall k :: p + 4 <= k < g ==> html[k] != '>') && html[g] == '>'
  }

  /** The first quote at or after `from`. */
  function FirstQuote(html: string, from: nat): (r: Option<nat>)
    requires from <= |html|
    ensures r.None? ==> forall k :: from <= k < |html| ==> !IsQuote(html[k])
    ensures r.Some? ==> from <= r.value < |html| && IsQuote(html[r.value])
    ensures r.Some? ==> forall k :: from <= k < r.value ==> !IsQuote(html[k])
    decreases |html| - from
  {
    if from == |html| then None
    else if IsQuote(html[from]) then Some(from)
    else FirstQuote(html, from + 1)
  }

  /** Where the matcher places the end of the value when the first group ends at `q`: the
      greedy `[^"'>]+` stops at the first quote, which has to be the opening one. */
  predicate SrcCandidate(html: string, q: nat, g: nat) {
    1 <= q && q < g <= |html| && !IsWordChar(html[q - 1]) && KeywordAt(html, q)
    && match FirstQuote(html, q + 5)
       case None => false
       case Some(r) => q + 5 < r < g && html[r] == html[q + 4]
  }

  /** The least `q` in `[from, g)` that is a candidate, with its value end. */
  function FirstSrc(html: string, from: nat, g: nat): (r: Option<(nat, nat)>)
    requires 1 <= from && g <= |html|
    ensures r.Some? ==> from <= r.value.0 && SrcCandidate(html, r.value.0, g)
                        && FirstQuote(html, r.value.0 + 5) == Some(r.value.1)
    ensures forall q :: from <= q < (if r.Some? then r.value.0 else g) ==> !SrcCandidate(html, q, g)
    decreases g - from
  {
    if from >= g then None
    else if SrcCandidate(html, from, g) then Some((from, FirstQuote(html, from + 5).value))
    else FirstSrc(html, from + 1, g)
  }

  /** The positions of one match: start, `src=`, closing quote and `>`. */
  datatype Match = Match(start: nat, srcAt: nat, valueEnd: nat, close: nat)

  /** The positions of `m` lie in order inside `html`, as those of every match do. */
  predicate InOrder(html: string, m: Match) {
    m.start + 4 <= m.srcAt && m.srcAt + 5 <= m.valueEnd < m.close < |html|
  }

  /** The matcher's attempt at `p`. */
  function MatchAt(html: string, p: nat): (r: Option<Match>)
    requires p <= |html|
    ensures r.Some? ==> r.value.start == p && IsMatch(html, p, r.value.srcAt, r.value.valueEnd, r.value.close)
  {
    if !OpensImg(html, p) || p + 4 == |html| || IsWordChar(html[p + 4]) then None
    else
      match IndexFrom(html, '>', p + 4)
      case None => None
      case Some(g) =>
        match FirstSrc(html, p + 5, g)
        case None => None
        case Some((q, r)) => Some(Match(p, q, r, g))
  }

  /** For a given start and `src=` position the rest of a match is determined. */
  lemma MatchDetermined(html: string, p: nat, q: nat, r: nat, g: nat, r': nat, g': nat)
    requires IsMatch(html, p, q, r, g) && IsMatch(html, p, q, r', g')
    ensures r == r' && g == g'
  {
  }

  /** A match ends at the first `>` after `<img`, and its value at the first quote after `src=`. */
  lemma MatchShape(html: string, p: nat, q: nat, r: nat, g: nat)
    requires IsMatch(html, p, q, r, g)
    ensures IndexFrom(html, '>', p + 4) == Some(g)
    ensures FirstQuote(html, q + 5) == Some(r)
    ensures SrcCandidate(html, q, g)
  {
  }

  /** The matcher finds a match wherever the pattern matches, and its first group is the shortest. */
  lemma MatchAtComplete(html: string, p: nat, q: nat, r: nat, g: nat)
    requires IsMatch(html, p, q, r, g)
    ensures MatchAt(html, p).Some?
    ensures MatchAt(html, p).value.srcAt <= q && MatchAt(html, p).value.close == g
  {
    MatchShape(html, p, q, r, g);
  }

  /** The matcher finds nothing only where the pattern does not match. */
  lemma MatchAtNone(html: string, p: nat)
    requires p <= |html| && MatchAt(html, p).None?
    ensures forall q: nat, r: nat, g: nat :: !IsMatch(html, p, q, r, g)
  {
    forall q: nat, r: nat, g: nat | IsMatch(html, p, q, r, g) ensures false {
      MatchAtComplete(html, p, q, r, g);
    }
  }

  // ---------------------------------------------------------------------------
  // The global search

  /** The callback's arguments: the whole match, the first group, the value and the last group. */
  datatype Tag = Tag(full: string, before: string, src: string, after: string)

  lemma SliceSplit(s: string, i: nat, j: nat, k: nat)
    requires i <= j <= k <= |s|
    ensures s[i..k] == s[i..j] + s[j..k]
  {
  }

  function TagOf(html: string, m: Match): (t: Tag)
    requires InOrder(html, m)
    ensures t.full == html[m.start..m.close + 1]
  {
    var p, q, r, g := m.start, m.srcAt, m.valueEnd, m.close;
    Tag(html[p..g + 1], html[p + 4..q], html[q + 5..r], html[r + 1..g])
  }

  /** What the pattern guarantees about the callback's arguments. */
  lemma TagContents(html: string, m: Match)
    requires IsMatch(html, m.start, m.srcAt, m.valueEnd, m.close)
    ensures var t := TagOf(html, m);
            && t.full == html[m.start..m.close + 1]
            && t.src != [] && (forall k :: 0 <= k < |t.src| ==> DataUri.IsAttributeChar(t.src[k]))
            && t.before != [] && !IsWordChar(t.before[0]) && !IsWordChar(t.before[|t.before| - 1])
            && (forall k :: 0 <= k < |t.before| ==> t.before[k] != '>')
            && (forall k :: 0 <= k < |t.after| ==> t.after[k] != '>')
  {
    var p, q, r, g := m.start, m.srcAt, m.valueEnd, m.close;
    var t := TagOf(html, m);
    assert t.before == html[p + 4..q] && t.src == html[q + 5..r] && t.after == html[r + 1..g];
    forall k | 0 <= k < |t.src| ensures DataUri.IsAttributeChar(t.src[k]) {
      assert t.src[k] == html[q + 5 + k];
    }
    assert t.before[|t.before| - 1] == html[q - 1];
    assert forall k :: 0 <= k < |t.before| ==> t.before[k] == html[p + 4 + k];
    assert forall k :: 0 <= k < |t.after| ==> t.after[k] == html[r + 1 + k];
  }

  lemma SplitAt(s: string, p: nat, q: nat, r: nat, g: nat)
    requires p + 4 <= q && q + 5 <= r < g < |s| && s[g] == '>'
    ensures s[p..g + 1] == s[p..p + 4] + (s[p + 4..q] + (s[q..q + 5] + (s[q + 5..r]
                           + ([s[r]] + (s[r + 1..g] + ">")))))
  {
    assert s[g..g + 1] == ">";
    assert s[r..r + 1] == [s[r]];
    calc {
      s[p..g + 1];
      s[p..p + 4] + s[p + 4..g + 1];
      s[p..p + 4] + (s[p + 4..q] + s[q..g + 1]);
      s[p..p + 4] + (s[p + 4..q] + (s[q..q + 5] + s[q + 5..g + 1]));
      s[p..p + 4] + (s[p + 4..q] + (s[q..q + 5] + (s[q + 5..r] + s[r..g + 1])));
      s[p..p + 4] + (s[p + 4..q] + (s[q..q + 5] + (s[q + 5..r] + ([s[r]] + s[r + 1..g + 1]))));
    }
  }

  /** The whole match is `<img`, the first group, `src=` and the quote, the value, the quote again,
      the last group and `>`. */
  lemma TagParts(html: string, m: Match)
    requires IsMatch(html, m.start, m.srcAt, m.valueEnd, m.close)
    ensures var t := TagOf(html, m);
            t.full == html[m.start..m.start + 4] + (t.before + (html[m.srcAt..m.srcAt + 5] + (t.src
                      + ([html[m.srcAt + 4]] + (t.after + ">")))))
  {
    var p, q, r, g := m.start, m.srcAt, m.valueEnd, m.close;
    SplitAt(html, p, q, r, g);
    assert TagOf(html, m) == Tag(html[p..g + 1], html[p + 4..q], html[q + 5..r], html[r + 1..g]);
    assert html[r] == html[q + 4];
  }

  /** The input cut into the text the search steps over and the matches it finds. */
  datatype Piece = Text(c: char) | Img(tag: Tag)

  function PieceText(p: Piece): string {
    match p
    case Text(c) => [c]
    case Img(t) => t.full
  }

  function Flatten(pieces: seq<Piece>): string {
    if pieces == [] then [] else PieceText(pieces[0]) + Flatten(pieces[1..])
  }

  lemma FlattenCons(p: Piece, rest: seq<Piece>)
    ensures Flatten([p] + rest) == PieceText(p) + Flatten(rest)
  {
    assert ([p] + rest)[1..] == rest;
  }

  /** `replace` with the `g` flag: try a match at each position from `i` on; after a match go on
      from its end, otherwise step over one character. */
  function Scan(html: string, i: nat): (pieces: seq<Piece>)
    requires i <= |html|
    ensures Flatten(pieces) == html[i..]
    decreases |html| - i, 1
  {
    if i == |html| then [] else ScanStep(html, i, MatchAt(html, i))
  }

  /** One step of the search at `i`, given the matcher's attempt `o` there. */
  function ScanStep(html: string, i: nat, o: Option<Match>): (pieces: seq<Piece>)
    requires i < |html|
    requires o.Some? ==> o.value.start == i && InOrder(html, o.value)
    ensures Flatten(pieces) == html[i..]
    decreases |html| - i, 0
  {
    match o
    case None =>
      var rest := Scan(html, i + 1);
      FlattenCons(Text(html[i]), rest);
      SliceSplit(html, i, i + 1, |html|);
      [Text(html[i])] + rest
    case Some(m) =>
      var t := TagOf(html, m);
      var rest := Scan(html, m.close + 1);
      FlattenCons(Img(t), rest);
      SliceSplit(html, i, m.close + 1, |html|);
      [Img(t)] + rest
  }

  /** What a piece at offset `o` of the input is: the character there, where the matcher finds no
      match, or the matcher's match there. */
  predicate PieceAt(html: string, o: nat, p: Piece) {
    o < |html|
    && (p.Text? ==> MatchAt(html, o).None? && p.c == html[o])
    && (p.Img? ==> MatchAt(html, o).Some? && p.tag == TagOf(html, MatchAt(html, o).value))
  }

  /** A step of the search where the matcher fails: one character of text. */
  lemma ScanText(html: string, i: nat)
    requires i < |html| && MatchAt(html, i).None?
    ensures Scan(html, i) == [Text(html[i])] + Scan(html, i + 1)
  {
    assert Scan(html, i) == ScanStep(html, i, MatchAt(html, i));
  }

  /** A step of the search where the matcher succeeds: the match, then the search after its `>`. */
  lemma ScanImg(html: string, i: nat)
    requires i < |html| && MatchAt(html, i).Some?
    ensures var m := MatchAt(html, i).value;
            Scan(html, i) == [Img(TagOf(html, m))] + Scan(html, m.close + 1)
  {
    assert Scan(html, i) == ScanStep(html, i, MatchAt(html, i));
  }

  /** `ps` cuts `html[i..]` into consecutive pieces, each of them right at its position: an
      independent statement of what the global search returns. */
  predicate Covers(html: string, i: nat, ps: seq<Piece>)
    decreases |ps|
  {
    if ps == [] then i == |html|
    else PieceAt(html, i, ps[0]) && Covers(html, i + |PieceText(ps[0])|, ps[1..])
  }

  /** Prepending the character at `i`, where the matcher fails, to a covering of the rest. */
  lemma CoversText(html: string, i: nat, rest: seq<Piece>)
    requires i < |html| && MatchAt(html, i).None? && Covers(html, i + 1, rest)
    ensures Covers(html, i, [Text(html[i])] + rest)
  {
    var ps := [Text(html[i])] + rest;
    assert ps[0] == Text(html[i]) && ps[1..] == rest;
  }

  /** Prepending the matcher's match at `i` to a covering of the text after its `>`. */
  lemma CoversImg(html: string, i: nat, rest: seq<Piece>)
    requires i < |html| && MatchAt(html, i).Some?
    requires Covers(html, MatchAt(html, i).value.close + 1, rest)
    ensures Covers(html, i, [Img(TagOf(html, MatchAt(html, i).value))] + rest)
  {
    var m := MatchAt(html, i).value;
    var ps := [Img(TagOf(html, m))] + rest;
    assert ps[0] == Img(TagOf(html, m)) && ps[1..] == rest;
    assert |PieceText(ps[0])| == m.close + 1 - i;
  }

  /** The first piece of a non-empty covering sits at its offset, and the rest covers what follows it. */
  lemma CoversUnfold(html: string, i: nat, ps: seq<Piece>)
    requires Covers(html, i, ps) && ps != []
    ensures PieceAt(html, i, ps[0]) && Covers(html, i + |PieceText(ps[0])|, ps[1..])
  {
  }

  /** The search's pieces cover the input, each at its position. */
  lemma {:induction false} ScanCovers(html: string, i: nat)
    requires i <= |html|
    ensures Covers(html, i, Scan(html, i))
    decreases |html| - i
  {
    if i == |html| {
      assert Scan(html, i) == [];
    } else if MatchAt(html, i).None? {
      ScanCovers(html, i + 1);
      ScanText(html, i);
      CoversText(html, i, Scan(html, i + 1));
    } else {
      var next := MatchAt(html, i).value.close + 1;
      ScanCovers(html, next);
      ScanImg(html, i);
      CoversImg(html, i, Scan(html, next));
    }
  }

  /** A covering is empty exactly when it starts at the end of the input. */
  lemma CoversEnd(html: string, i: nat, ps: seq<Piece>)
    ensures Covers(html, i, ps) ==> (ps == [] <==> i == |html|)
  {
  }

  /** At most one piece sits at a given offset. */
  lemma PieceAtUnique(html: string, i: nat, p: Piece, q: Piece)
    requires PieceAt(html, i, p) && PieceAt(html, i, q)
    ensures p == q
  {
  }

  /** Two coverings from the same offset start with the same piece; both rests start after it. */
  lemma CoversStep(html: string, i: nat, ps: seq<Piece>, qs: seq<Piece>)
    ensures Covers(html, i, ps) && Covers(html, i, qs) && ps != [] && qs != [] ==>
              ps[0] == qs[0] && Covers(html, i + |PieceText(ps[0])|, ps[1..])
              && Covers(html, i + |PieceText(qs[0])|, qs[1..])
  {
    if Covers(html, i, ps) && Covers(html, i, qs) && ps != [] && qs != [] {
      CoversUnfold(html, i, ps);
      CoversUnfold(html, i, qs);
      PieceAtUnique(html, i, ps[0], qs[0]);
    }
  }

  /** A covering from a given offset is unique. */
  lemma {:induction false} CoversUnique(html: string, i: nat, ps: seq<Piece>, qs: seq<Piece>)
    ensures Covers(html, i, ps) && Covers(html, i, qs) ==> ps == qs
    decreases |ps|
  {
    CoversEnd(html, i, ps);
    CoversEnd(html, i, qs);
    if ps != [] && qs != [] {
      CoversStep(html, i, ps, qs);
      CoversUnique(html, i + |PieceText(ps[0])|, ps[1..], qs[1..]);
      assert ps == [ps[0]] + ps[1..] && qs == [qs[0]] + qs[1..];
    }
  }

  /** The search's result is the only covering: the pieces are determined by the input. */
  lemma CoversIsScan(html: string, i: nat, ps: seq<Piece>)
    requires i <= |html| && Covers(html, i, ps)
    ensures ps == Scan(html, i)
  {
    ScanCovers(html, i);
    CoversUnique(html, i, ps, Scan(html, i));
  }

  /** A sequence of pieces is what the search returns exactly when it covers the input. */
  lemma ScanIffCovers(html: string, i: nat, ps: seq<Piece>)
    requires i <= |html|
    ensures ps == Scan(html, i) <==> Covers(html, i, ps)
  {
    ScanCovers(html, i);
    if Covers(html, i, ps) {
      CoversIsScan(html, i, ps);
    }
  }

  // ---------------------------------------------------------------------------
  // The callback and the rewrite

  /** What the callback sees besides its arguments: the input's directory, Node's `path.resolve`,
      the file system, and the MIME lookup `fileToDataUri` performs (`ObjectLiteral` is the
      script's, `TableOnly` the intended one). */
  datatype Env = Env(baseDir: string, resolve: (string, string) -> string, files: DataUri.FileSystem,
                     lookup: DataUri.Lookup)

  /** How the rewrite ends: with the new HTML text, or with the exception `fs.readFileSync` threw
      for the file at `path`, which ends the script. */
  datatype Rewritten = Rewritten(text: string) | Crashed(path: string)

  /** `/^data:/i.test(src) || /^https?:\/\//i.test(src)`: already inlined or remote. */
  predicate IsSkipped(src: string) {
    StartsWithIgnoringCase(src, "data:") || StartsWithIgnoringCase(src, "http://")
    || StartsWithIgnoringCase(src, "https://")
  }

  lemma StartsWithIgnoringCaseOfLower(s: string, prefix: string)
    ensures StartsWithIgnoringCase(s, prefix) <==> StartsWithIgnoringCase(AsciiLower(s), prefix)
  {
    if |prefix| <= |s| {
      AsciiLowerSlice(s, 0, |prefix|);
      AsciiLowerIdempotent(s[..|prefix|]);
    }
  }

  /** The skip test ignores ASCII case: `DATA:`, `Http://` and `HTTPS://` are skipped too. */
  lemma IsSkippedIgnoresCase(src: string)
    ensures IsSkipped(src) <==> IsSkipped(AsciiLower(src))
  {
    StartsWithIgnoringCaseOfLower(src, "data:");
    StartsWithIgnoringCaseOfLower(src, "http://");
    StartsWithIgnoringCaseOfLower(src, "https://");
  }

  /** `<img${before}src="${uri}"${after}>`. */
  function NewTag(t: Tag, uri: string): string {
    "<img" + t.before + "src=\"" + uri + "\"" + t.after + ">"
  }

  function PathOf(t: Tag, env: Env): string {
    Paths.ResolveLocal(env.resolve, env.baseDir, t.src)
  }

  /** The callback: skipped and unresolvable references keep the whole match, a non-SVG file that
      cannot be read ends the rewrite, any other file replaces the value by its data URL. */
  function ReplaceTag(t: Tag, env: Env): Rewritten {
    if IsSkipped(t.src) then Rewritten(t.full)
    else
      var abs := PathOf(t, env);
      match DataUri.FileToDataUri(env.lookup, env.files, abs)
      case Null => Rewritten(t.full)
      case Thrown => Crashed(abs)
      case Uri(uri) => Rewritten(NewTag(t, uri))
  }

  /** What the callback does in each case. */
  lemma ReplaceTagCases(t: Tag, env: Env)
    ensures var r := ReplaceTag(t, env);
            var abs := PathOf(t, env);
            && (IsSkipped(t.src) ==> r == Rewritten(t.full))
            && (!IsSkipped(t.src) && abs !in env.files ==> r == Rewritten(t.full))
            && ((!IsSkipped(t.src) && abs in env.files && env.files[abs].Unreadable?
                 && Paths.Extension(abs) == "svg") ==> r == Rewritten(t.full))
            && (r.Crashed? <==> !IsSkipped(t.src) && abs in env.files && env.files[abs].Unreadable?
                                && Paths.Extension(abs) != "svg")
            && (r.Crashed? ==> r.path == abs)
            && (!IsSkipped(t.src) && abs in env.files && env.files[abs].Readable? ==>
                  var uri := DataUri.FileToDataUri(env.lookup, env.files, abs);
                  uri.Uri? && r == Rewritten(NewTag(t, uri.text)))
  {
  }

  /** What `replace` puts in place of one piece: the text stepped over, or the callback's result. */
  function Callback(p: Piece, env: Env): Rewritten {
    match p
    case Text(c) => Rewritten([c])
    case Img(t) => ReplaceTag(t, env)
  }

  /** The callback's results for every piece, in order. */
  function Callbacks(pieces: seq<Piece>, env: Env): (rs: seq<Rewritten>)
    ensures |rs| == |pieces|
    ensures forall k :: 0 <= k < |rs| ==> rs[k] == Callback(pieces[k], env)
  {
    if pieces == [] then [] else [Callback(pieces[0], env)] + Callbacks(pieces[1..], env)
  }

  /** The results joined in order; the first exception ends the rewrite. */
  function Assemble(rs: seq<Rewritten>): Rewritten {
    if rs == [] then Rewritten([])
    else if rs[0].Crashed? then rs[0]
    else
      match Assemble(rs[1..])
      case Crashed(path) => Crashed(path)
      case Rewritten(rest) => Rewritten(rs[0].text + rest)
  }

  /** The callback applied to every match in order. */
  function RenderAll(pieces: seq<Piece>, env: Env): Rewritten {
    Assemble(Callbacks(pieces, env))
  }

  /** The `<img>` step of the script: `html.replace(pattern, callback)`. */
  function InlineImages(html: string, env: Env): Rewritten {
    RenderAll(Scan(html, 0), env)
  }

  // ---------------------------------------------------------------------------
  // Properties of the rewrite

  /** The index of the first exception among the results. */
  function FirstCrash(rs: seq<Rewritten>): (r: Option<nat>)
    ensures r.None? ==> forall k :: 0 <= k < |rs| ==> rs[k].Rewritten?
    ensures r.Some? ==> r.value < |rs| && rs[r.value].Crashed? && forall j :: 0 <= j < r.value ==> rs[j].Rewritten?
  {
    if rs == [] then None
    else if rs[0].Crashed? then Some(0)
    else
      match FirstCrash(rs[1..])
      case None => None
      case Some(k) => Some(k + 1)
  }

  /** Joining ends in an exception exactly when one of the results is one, and then in the first. */
  lemma {:induction false} AssembleCrash(rs: seq<Rewritten>)
    ensures Assemble(rs).Crashed? <==> FirstCrash(rs).Some?
    ensures FirstCrash(rs).Some? ==> Assemble(rs) == rs[FirstCrash(rs).value]
  {
    if rs != [] && rs[0].Rewritten? {
      AssembleCrash(rs[1..]);
    }
  }

  /** The rewrite ends in an exception exactly when the callback throws for one of the matches, and
      then with the exception of the first such match. */
  lemma CrashIffThrows(pieces: seq<Piece>, env: Env)
    ensures var k := FirstCrash(Callbacks(pieces, env));
            && (RenderAll(pieces, env).Crashed? <==> k.Some?)
            && (k.Some? ==> pieces[k.value].Img? && RenderAll(pieces, env) == ReplaceTag(pieces[k.value].tag, env)
                            && forall j :: 0 <= j < k.value ==> Callback(pieces[j], env).Rewritten?)
  {
    AssembleCrash(Callbacks(pieces, env));
  }

  /** Joining results that are all text gives their concatenation. */
  lemma {:induction false} AssembleTexts(rs: seq<Rewritten>, pieces: seq<Piece>)
    requires |rs| == |pieces| && forall k :: 0 <= k < |rs| ==> rs[k] == Rewritten(PieceText(pieces[k]))
    ensures Assemble(rs) == Rewritten(Flatten(pieces))
  {
    if rs != [] {
      AssembleTexts(rs[1..], pieces[1..]);
    }
  }

  /** A rewrite in which every match keeps its text leaves the input as it was. */
  lemma RenderAllKept(pieces: seq<Piece>, env: Env)
    requires forall k :: 0 <= k < |pieces| && pieces[k].Img? ==> ReplaceTag(pieces[k].tag, env) == Rewritten(pieces[k].tag.full)
    ensures RenderAll(pieces, env) == Rewritten(Flatten(pieces))
  {
    var rs := Callbacks(pieces, env);
    assert forall k :: 0 <= k < |rs| ==> rs[k] == Rewritten(PieceText(pieces[k]));
    AssembleTexts(rs, pieces);
  }

  /** With no file to read, the document comes out unchanged. */
  lemma NoFilesNoChange(html: string, env: Env)
    requires env.files == map[]
    ensures InlineImages(html, env) == Rewritten(html)
  {
    var pieces := Scan(html, 0);
    forall k | 0 <= k < |pieces| && pieces[k].Img? ensures ReplaceTag(pieces[k].tag, env) == Rewritten(pieces[k].tag.full) {
      ReplaceTagCases(pieces[k].tag, env);
    }
    RenderAllKept(pieces, env);
  }

  /** When every reference is remote or already inlined, the file system is never consulted. */
  lemma SkippedOnlyNoChange(html: string, env: Env)
    requires forall k :: 0 <= k < |Scan(html, 0)| && Scan(html, 0)[k].Img? ==> IsSkipped(Scan(html, 0)[k].tag.src)
    ensures InlineImages(html, env) == Rewritten(html)
  {
    var pieces := Scan(html, 0);
    forall k | 0 <= k < |pieces| && pieces[k].Img? ensures ReplaceTag(pieces[k].tag, env) == Rewritten(pieces[k].tag.full) {
      ReplaceTagCases(pieces[k].tag, env);
    }
    RenderAllKept(pieces, env);
  }

  /** A match whose reference resolves to a readable file with one of the two inherited names,
      `constructor` or `__proto__`, as extension. */
  predicate ReadsInheritedName(t: Tag, env: Env) {
    var abs := PathOf(t, env);
    var ext := Paths.Extension(abs);
    !IsSkipped(t.src) && abs in env.files && env.files[abs].Readable? && (ext == "constructor" || ext == "__proto__")
  }

  /** A rewritten tag determines its new value. */
  lemma NewTagInjective(t: Tag, u: string, v: string)
    requires NewTag(t, u) == NewTag(t, v)
    ensures u == v
  {
    NewTagLayout(t, u);
    NewTagLayout(t, v);
  }

  /** The callback's result under the script's lookup differs from its result under the intended
      one exactly for a match that reads a file with an inherited name. */
  lemma ReplaceTagLookups(t: Tag, env: Env)
    ensures ReplaceTag(t, env.(lookup := DataUri.ObjectLiteral)) != ReplaceTag(t, env.(lookup := DataUri.TableOnly))
            <==> ReadsInheritedName(t, env)
  {
    var script, intended := env.(lookup := DataUri.ObjectLiteral), env.(lookup := DataUri.TableOnly);
    var abs := PathOf(t, env);
    assert PathOf(t, script) == abs && PathOf(t, intended) == abs;
    DataUri.AsWrittenDiffersOnlyForInheritedNames(env.files, abs);
    if ReadsInheritedName(t, env) {
      var u := DataUri.FileToDataUri(DataUri.ObjectLiteral, env.files, abs);
      var v := DataUri.FileToDataUri(DataUri.TableOnly, env.files, abs);
      if NewTag(t, u.text) == NewTag(t, v.text) {
        NewTagInjective(t, u.text, v.text);
      }
    }
  }

  /** Where no match reads a file with an inherited name, the script's rewrite and the intended
      one give the same result, the same exception included. */
  lemma InlineImagesLookups(html: string, env: Env)
    requires forall k :: 0 <= k < |Scan(html, 0)| && Scan(html, 0)[k].Img? ==> !ReadsInheritedName(Scan(html, 0)[k].tag, env)
    ensures InlineImages(html, env.(lookup := DataUri.ObjectLiteral)) == InlineImages(html, env.(lookup := DataUri.TableOnly))
  {
    var script, intended := env.(lookup := DataUri.ObjectLiteral), env.(lookup := DataUri.TableOnly);
    var pieces := Scan(html, 0);
    forall k | 0 <= k < |pieces| ensures Callback(pieces[k], script) == Callback(pieces[k], intended) {
      if pieces[k].Img? {
        ReplaceTagLookups(pieces[k].tag, env);
      }
    }
    assert Callbacks(pieces, script) == Callbacks(pieces, intended);
  }

  /** Where the pattern matches nowhere, the search finds only text. */
  lemma {:induction false} ScanWithoutMatches(html: string, i: nat)
    requires i <= |html|
    requires forall p: nat, q: nat, r: nat, g: nat :: !IsMatch(html, p, q, r, g)
    ensures forall k :: 0 <= k < |Scan(html, i)| ==> Scan(html, i)[k].Text?
    decreases |html| - i
  {
    if i < |html| && MatchAt(html, i).None? {
      ScanWithoutMatches(html, i + 1);
      assert Scan(html, i) == [Text(html[i])] + Scan(html, i + 1);
    }
  }

  /** A document without a match of the pattern comes out unchanged. */
  lemma NoMatchNoChange(html: string, env: Env)
    requires forall p: nat, q: nat, r: nat, g: nat :: !IsMatch(html, p, q, r, g)
    ensures InlineImages(html, env) == Rewritten(html)
  {
    ScanWithoutMatches(html, 0);
    RenderAllKept(Scan(html, 0), env);
  }

  /** Where the parts of a rewritten tag sit. */
  lemma NewTagLayout(t: Tag, uri: string)
    ensures var h := NewTag(t, uri);
            var q := 4 + |t.before|;
            var r := q + 5 + |uri|;
            |h| == r + |t.after| + 2
            && h[0] == '<' && h[1] == 'i' && h[2] == 'm' && h[3] == 'g'
            && h[4..q] == t.before
            && h[q] == 's' && h[q + 1] == 'r' && h[q + 2] == 'c' && h[q + 3] == '=' && h[q + 4] == '"'
            && h[q + 5..r] == uri && h[r] == '"' && h[r + 1..|h| - 1] == t.after && h[|h| - 1] == '>'
  {
    var a := "<img" + t.before;
    var b := a + "src=\"";
    var c := b + uri;
    var d := c + "\"";
    var e := d + t.after;
    assert NewTag(t, uri) == e + ">";
    assert a[..4] == "<img" && a[4..] == t.before;
    assert b[..|a|] == a && b[|a|..] == "src=\"";
    assert c[..|b|] == b && c[|b|..] == uri;
    assert d[..|c|] == c && d[|c|] == '"';
    assert e[..|d|] == d && e[|d|..] == t.after;
  }

  /** No `src=` followed by a quote starts anywhere in `s`. */
  predicate HasNoSrcKeyword(s: string) {
    forall k :: 0 <= k < |s| ==> !KeywordAt(s, k)
  }

  /** Groups the pattern can capture, and a value it accepts between double quotes. */
  predicate MatchGroups(t: Tag, uri: string) {
    t.before != [] && !IsWordChar(t.before[0]) && !IsWordChar(t.before[|t.before| - 1])
    && (forall k :: 0 <= k < |t.before| ==> t.before[k] != '>')
    && (forall k :: 0 <= k < |t.after| ==> t.after[k] != '>')
    && uri != [] && DataUri.IsAttributeSafe(uri)
  }

  /** The precondition of `NewTagMatches`: the groups of a match whose first group holds no
      `src=` followed by a quote, and a value the pattern accepts between double quotes. */
  predicate Rewritable(t: Tag, uri: string) {
    MatchGroups(t, uri) && HasNoSrcKeyword(t.before)
  }

  lemma NewTagIsMatch(t: Tag, uri: string)
    requires Rewritable(t, uri)
    ensures var h := NewTag(t, uri);
            IsMatch(h, 0, 4 + |t.before|, 9 + |t.before| + |uri|, |h| - 1)
  {
    var h := NewTag(t, uri);
    NewTagLayout(t, uri);
    var q := 4 + |t.before|;
    var r := q + 5 + |uri|;
    NewTagGroups(t, uri);
    NewTagValue(t, uri);
  }

  /** Neither group of a rewritten tag holds `>`. */
  lemma NewTagGroups(t: Tag, uri: string)
    requires MatchGroups(t, uri)
    ensures var h := NewTag(t, uri);
            var q := 4 + |t.before|;
            && (forall k :: 4 <= k < q ==> h[k] != '>')
            && (forall k :: q + 6 + |uri| <= k < |h| - 1 ==> h[k] != '>')
  {
    var h := NewTag(t, uri);
    NewTagLayout(t, uri);
    var q := 4 + |t.before|;
    var r := q + 5 + |uri|;
    assert forall k :: 4 <= k < q ==> h[k] == h[4..q][k - 4];
    assert forall k :: r + 1 <= k < |h| - 1 ==> h[k] == h[r + 1..|h| - 1][k - r - 1];
  }

  /** The new value of a rewritten tag holds neither a quote nor `>`. */
  lemma NewTagValue(t: Tag, uri: string)
    requires MatchGroups(t, uri)
    ensures var h := NewTag(t, uri);
            var q := 4 + |t.before|;
            forall k :: q + 5 <= k < q + 5 + |uri| ==> h[k] != '>' && !IsQuote(h[k])
  {
    var h := NewTag(t, uri);
    NewTagLayout(t, uri);
    var q := 4 + |t.before|;
    assert forall k :: q + 5 <= k < q + 5 + |uri| ==> h[k] == h[q + 5..q + 5 + |uri|][k - q - 5];
  }

  /** No `src=` can start an earlier match in a rewritten tag: one wholly inside the first
      group is excluded by `Rewritable`, and one overlapping the new `src="` is not there. */
  lemma NewTagNoEarlierSrc(t: Tag, uri: string, q': nat)
    requires Rewritable(t, uri)
    requires 5 <= q' < 4 + |t.before|
    ensures !KeywordAt(NewTag(t, uri), q')
  {
    var h := NewTag(t, uri);
    NewTagLayout(t, uri);
    var q := 4 + |t.before|;
    if q' + 5 <= q {
      var k := q' - 4;
      assert !KeywordAt(t.before, k);
      assert h[q'] == t.before[k] && h[q' + 1] == t.before[k + 1] && h[q' + 2] == t.before[k + 2];
      assert h[q' + 3] == t.before[k + 3] && h[q' + 4] == t.before[k + 4];
    } else {
      assert q' == q - 1 || q' == q - 2 || q' == q - 3 || q' == q - 4;
    }
  }

  /** The matcher's attempt on a rewritten tag whose first group holds no `src=` and quote finds
      the original `src=`, the new closing quote and the final `>`. */
  lemma NewTagMatchAt(t: Tag, uri: string)
    requires Rewritable(t, uri)
    ensures var h := NewTag(t, uri);
            MatchAt(h, 0) == Some(Match(0, 4 + |t.before|, 9 + |t.before| + |uri|, |h| - 1))
  {
    var h := NewTag(t, uri);
    var q := 4 + |t.before|;
    NewTagIsMatch(t, uri);
    NewTagSrcAt(t, uri);
    var m := MatchAt(h, 0).value;
    MatchDetermined(h, 0, q, q + 5 + |uri|, |h| - 1, m.valueEnd, m.close);
  }

  /** On a rewritten tag the matcher's `src=` is the original one. */
  lemma NewTagSrcAt(t: Tag, uri: string)
    requires Rewritable(t, uri)
    ensures var h := NewTag(t, uri);
            MatchAt(h, 0).Some? && MatchAt(h, 0).value.srcAt == 4 + |t.before|
  {
    var h := NewTag(t, uri);
    var q := 4 + |t.before|;
    NewTagIsMatch(t, uri);
    MatchAtComplete(h, 0, q, q + 5 + |uri|, |h| - 1);
    var m := MatchAt(h, 0).value;
    if m.srcAt < q {
      NewTagNoEarlierSrc(t, uri, m.srcAt);
    }
  }

  /** A rewritten tag whose first group holds no `src=` and quote is matched again by the same pattern, with
      the same groups around the new value. */
  lemma NewTagMatches(t: Tag, uri: string)
    requires Rewritable(t, uri)
    ensures var h := NewTag(t, uri);
            MatchAt(h, 0).Some? && TagOf(h, MatchAt(h, 0).value) == Tag(h, t.before, uri, t.after)
  {
    var h := NewTag(t, uri);
    NewTagMatchAt(t, uri);
    NewTagLayout(t, uri);
    assert h[0..|h|] == h;
  }

  /** `\bsrc=` also matches the end of `data-src=`: in `<img data-src="a.png" src="b.png">` the
      shortest first group stops at `data-src`, so the callback is given `a.png` and the real
      `src` attribute stays in the last group, untouched. */
  lemma DataSrcIsMatched()
    ensures var html := "<img data-src=\"a.png\" src=\"b.png\">";
            MatchAt(html, 0).Some?
            && TagOf(html, MatchAt(html, 0).value) == Tag(html, " data-", "a.png", " src=\"b.png\"")
  {
    var t := Tag("", " data-", "", " src=\"b.png\"");
    DataSrcLayout(t);
    NewTagMatches(t, "a.png");
  }

  /** The tag of `DataSrcIsMatched` is a rewritten tag with `a.png` as its new value. */
  lemma DataSrcLayout(t: Tag)
    requires t.before == " data-" && t.after == " src=\"b.png\""
    ensures NewTag(t, "a.png") == "<img data-src=\"a.png\" src=\"b.png\">"
    ensures Rewritable(t, "a.png")
  {
    assert HasNoSrcKeyword(t.before);
    assert DataUri.IsAttributeSafe("a.png");
  }

  /** The converse of `NewTagMatches`: when the first group holds a `src="` after a word
      boundary and no quote after it, the matcher reads the rewritten tag from that earlier
      `src=`, so its groups are not the ones the callback put in. */
  lemma NewTagEarlierSrc(t: Tag, uri: string, k: nat)
    requires MatchGroups(t, uri)
    requires 1 <= k && KeywordAt(t.before, k) && t.before[k + 4] == '"' && !IsWordChar(t.before[k - 1])
    requires forall j :: k + 5 <= j < |t.before| ==> !IsQuote(t.before[j])
    ensures var h := NewTag(t, uri);
            MatchAt(h, 0).Some? && MatchAt(h, 0).value.srcAt <= 4 + k
            && TagOf(h, MatchAt(h, 0).value) != Tag(h, t.before, uri, t.after)
  {
    var h := NewTag(t, uri);
    var q := 4 + |t.before|;
    NewTagEarlierMatch(t, uri, k);
    MatchAtComplete(h, 0, 4 + k, q + 4, |h| - 1);
    assert |TagOf(h, MatchAt(h, 0).value).before| < |t.before|;
  }

  /** The pattern matches a rewritten tag from a `src="` in the first group with no quote after it. */
  lemma NewTagEarlierMatch(t: Tag, uri: string, k: nat)
    requires MatchGroups(t, uri)
    requires 1 <= k && KeywordAt(t.before, k) && t.before[k + 4] == '"' && !IsWordChar(t.before[k - 1])
    requires forall j :: k + 5 <= j < |t.before| ==> !IsQuote(t.before[j])
    ensures var h := NewTag(t, uri);
            IsMatch(h, 0, 4 + k, 8 + |t.before|, |h| - 1)
  {
    var h := NewTag(t, uri);
    var q := 4 + |t.before|;
    NewTagLayout(t, uri);
    NewTagGroups(t, uri);
    NewTagValue(t, uri);
    assert forall j :: 4 <= j < q ==> h[j] == h[4..q][j - 4];
    assert KeywordAt(h, 4 + k);
  }

  /** The callback's result for a local, readable, non-SVG file, and what its data URL holds. */
  lemma ReplaceTagReadable(t: Tag, env: Env)
    requires var abs := PathOf(t, env);
             !IsSkipped(t.src) && abs in env.files && env.files[abs].Readable? && Paths.Extension(abs) != "svg"
    ensures var abs := PathOf(t, env);
            var uri := DataUri.FileToDataUri(env.lookup, env.files, abs);
            && uri.Uri? && ReplaceTag(t, env) == Rewritten(NewTag(t, uri.text))
            && uri.text != [] && DataUri.IsAttributeSafe(uri.text)
            && DataUri.Parse(uri.text)
               == Some(DataUri.DataUrl(DataUri.MimeOf(env.lookup, Paths.Extension(abs)), true, env.files[abs].bytes))
  {
    ReplaceTagCases(t, env);
    DataUri.BinaryRoundTrip(env.lookup, env.files, PathOf(t, env));
  }

  /** End to end for one image: for a match whose first group holds no `src=` followed by a
      quote, a local, readable, non-SVG file turns the match into a tag whose value, read by the
      same pattern and the data URL parser, is the file's bytes under the lookup's MIME type. */
  lemma InlinedImageReadsBack(html: string, m: Match, env: Env)
    requires IsMatch(html, m.start, m.srcAt, m.valueEnd, m.close)
    requires HasNoSrcKeyword(TagOf(html, m).before)
    requires var t := TagOf(html, m); var abs := PathOf(t, env);
             !IsSkipped(t.src) && abs in env.files && env.files[abs].Readable? && Paths.Extension(abs) != "svg"
    ensures var t := TagOf(html, m);
            var abs := PathOf(t, env);
            var r := ReplaceTag(t, env);
            r.Rewritten? && MatchAt(r.text, 0).Some?
            && DataUri.Parse(TagOf(r.text, MatchAt(r.text, 0).value).src)
               == Some(DataUri.DataUrl(DataUri.MimeOf(env.lookup, Paths.Extension(abs)), true, env.files[abs].bytes))
  {
    var t := TagOf(html, m);
    TagContents(html, m);
    ReplaceTagReadable(t, env);
    var uri := DataUri.FileToDataUri(env.lookup, env.files, PathOf(t, env)).text;
    assert Rewritable(t, uri);
    NewTagMatches(t, uri);
  }
}
