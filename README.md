# Inline images for e-mail HTML

A model of the image-inlining step of `email/inline-images.js`. The script
reads an HTML document. It finds every `<img … src="…" …>` tag with one regular
expression. For each local reference it replaces the value by a `data:` URL
holding the file's contents:

- SVG files become percent-encoded UTF-8 text (`data:image/svg+xml;utf8,…`);
- every other file becomes base64 (`data:<mime>;base64,…`), with the MIME type
  taken from a six-entry table.

Remote references (`http://`, `https://`) and ones already inlined (`data:`)
are left alone, and so are references to files that do not exist. A non-SVG
file that exists but cannot be read throws, which ends the script.

The model is written as functions and lemmas, in seven modules:

| module | file | what it holds |
|---|---|---|
| `Common` | `common.dfy` | bytes, `Option`, ASCII case folding, `\w`, single-character replacement, index search |
| `Base64` | `base64.dfy` | `Buffer.toString("base64")` (section 4 of RFC 4648) and its strict inverse |
| `Utf8` | `utf8.dfy` | UTF-8 encoding (RFC 3629) and the replacing decoder behind `readFileSync(p, "utf8")` |
| `PercentEncoding` | `percent.dfy` | `encodeURIComponent` as percent-encoding of UTF-8 octets (section 2.1 of RFC 3986), and its decoder |
| `Paths` | `paths.dfy` | `resolveLocal`'s cleaning of the reference, POSIX `path.extname`, the lower-cased extension |
| `DataUri` | `datauri.dfy` | `fileToDataUri`, the MIME table, and a data URL parser (RFC 2397) used to state the round trips |
| `ImgTags` | `imgtags.dfy` | the pattern, the matcher, the global search, the callback and the whole rewrite |

The file system is a map from absolute paths to entries. A `Readable` entry
holds the file's bytes. An `Unreadable` one exists (so `fs.existsSync` is
true) but `fs.readFileSync` throws on it. `path.resolve` is a function
parameter, because the model does not compute it.

The MIME lookup is a parameter too, `DataUri.Lookup`. `ObjectLiteral` indexes the
object literal as the script does, so it also finds the names `Object.prototype`
supplies (see "## Findings"). `TableOnly` is the table alone with the generic
fallback, as intended. `DataUri.FileToDataUri` and the whole rewrite take the
lookup as an argument (in `ImgTags.Env`), and every property below is proved for
both lookups unless its row says otherwise.

The pattern `/<img\b([^>]*?)\bsrc=(["'])([^"'>]+)\2([^>]*?)>/gi` is stated
declaratively by `ImgTags.IsMatch`, over four positions in the text:

- `p`, the `<`;
- `q`, the `src=`;
- `r`, the closing quote;
- `g`, the `>`.

`ImgTags.MatchAt` is the backtracking matcher's choice at `p`. Because the
first group is lazy, that is the match with the least `q`. The rest of a match
is then determined:

- the value ends at the first quote;
- the match ends at the first `>` after `<img`.

## Model

| member | source | states |
|---|---|---|
| `Paths.ResolveLocal` | email/inline-images.js:32-36 | `path.resolve` applied to the input's directory and the cleaned reference; `Paths.ResolveIgnoresSuffix` states that the query and fragment play no part |
| `Paths.CleanReference` | email/inline-images.js:34 | the result is the longest prefix of the reference without `?` or `#`; it is the reference itself exactly when the reference holds neither |
| `Paths.CleanReferenceDropsSuffix` | email/inline-images.js:33-34 | whatever follows the first `?` or `#` is dropped |
| `Paths.ResolveIgnoresSuffix` | email/inline-images.js:32-36 | references that differ only in their query or fragment resolve to the same path |
| `Paths.TrimTrailingSlashes` | email/inline-images.js:40 | the result is a prefix, does not end in `/`, and only `/` was removed |
| `Paths.LastSegment` | email/inline-images.js:40 | the result is the suffix after the last `/` and holds no `/` |
| `Paths.LastDot` | email/inline-images.js:40 | the index of the last `.`, or none exactly when there is no `.` |
| `Paths.ExtName` | email/inline-images.js:40 | `path.extname` is empty or a `.` followed by text with no `.` or `/` |
| `Paths.ExtNameOfSegment` | email/inline-images.js:40 | `path.extname` of `dir/seg` is the extension of the last segment `seg` alone |
| `Paths.ExtNameTrailingSlash` | email/inline-images.js:40 | a trailing `/` does not change `path.extname` |
| `Paths.NoDotNoExtension` | email/inline-images.js:40 | a last segment without a `.` has the empty extension |
| `Paths.DotFileNoExtension` | email/inline-images.js:40 | a dot-file `dir/.name` with no other `.` has the empty extension |
| `Paths.DotDotNoExtension` | email/inline-images.js:40 | `dir/..` has the empty extension |
| `Paths.TrailingDotExtension` | email/inline-images.js:40 | for `dir/stem.`, `path.extname` is `.` and the extension the script compares is empty |
| `Paths.HiddenSvgHasNoExtension` | email/inline-images.js:40-42 | `/img/.svg` has the empty extension, so it is not treated as SVG |
| `Paths.Extension` | email/inline-images.js:40 | the lower-cased extension without its dot holds no `.`, no `/` and no upper-case letter |
| `Paths.ExtensionIgnoresCase` | email/inline-images.js:40 | paths that differ only in ASCII case have the same extension |
| `Paths.ExtensionOfLower` | email/inline-images.js:40 | lower-casing the path first does not change the extension |
| `Paths.ExtensionOfName` | email/inline-images.js:40 | the extension of `dir/stem.ext` is `ext` for a non-empty stem and a lower-case, dot-free, non-empty `ext` |
| `DataUri.MimeFor` | email/inline-images.js:60-68 | the generic type exactly for names outside the table; `jpg` and `jpeg` share `image/jpeg`; table types start with `image/`; every type can be read back from a data URL |
| `DataUri.MimeAsWritten` | email/inline-images.js:60-68 | as written, the lookup avoids the generic type for the table's names and for `constructor` and `__proto__` |
| `DataUri.MimeAsWrittenAgrees` | email/inline-images.js:60-68 | the lookup as written gives the table's type for every name other than `constructor` and `__proto__` |
| `DataUri.MimeAsWrittenIsPlain` | email/inline-images.js:60-70 | every type the lookup as written gives can stand in a data URL header |
| `DataUri.MimeOf` | email/inline-images.js:60-68 | both lookups give a type that can stand in a data URL header; they agree with the table for every name but `constructor` and `__proto__`; the generic type comes exactly for names outside the table, and under `ObjectLiteral` not for the two inherited names |
| `DataUri.PrototypeNameLeaksIntoMime` | email/inline-images.js:60-68 | a file `/img/logo.constructor` gets the media type `function Object() { [native code] }`, not the generic one |
| `DataUri.StripBom` | email/inline-images.js:46 | `txt.replace(/^\uFEFF/, "")`; its behaviour is stated by `DataUri.StripBomRemovesOne` |
| `DataUri.StripBomRemovesOne` | email/inline-images.js:46 | exactly one leading BOM is removed, and text without one is unchanged |
| `DataUri.StripBomBytes` | email/inline-images.js:46 | removing the BOM removes its three bytes from the UTF-8 encoding |
| `DataUri.EscapeQuoteAndParens` | email/inline-images.js:50-52 | the three `.replace` calls; `DataUri.EscapeOctet` and `DataUri.EscapedIsPercentEncoding` state what they do to `encodeURIComponent`'s output |
| `DataUri.SvgPayload` | email/inline-images.js:44-52 | the SVG payload; `DataUri.SvgPayloadIsPercentEncoding` and `DataUri.SvgPayloadChars` state what it is |
| `DataUri.EscapeOctet` | email/inline-images.js:48-52 | after the three replacements, an octet's encoding keeps only `IsSvgKept` characters literal |
| `DataUri.EscapedIsPercentEncoding` | email/inline-images.js:48-52 | `encodeURIComponent` followed by the replacements is percent-encoding with `'`, `(`, `)` escaped too |
| `DataUri.SvgPayloadIsPercentEncoding` | email/inline-images.js:44-53 | the SVG payload is the percent-encoding of the BOM-less text's UTF-8 bytes |
| `DataUri.SvgPayloadChars` | email/inline-images.js:48-53 | the SVG payload holds no `'`, `(`, `)`, `,`, `"` or `>` |
| `DataUri.BinaryUri` | email/inline-images.js:70 | the base64 URL starts with `data:` and holds no quote or `>` |
| `DataUri.SvgUri` | email/inline-images.js:53 | the SVG URL starts with `data:` and holds no quote or `>` |
| `DataUri.FileToDataUri` | email/inline-images.js:38-71 | under either lookup: `null` exactly for a missing file or an unreadable SVG; an exception exactly for an unreadable non-SVG file; a URL otherwise, starting with `data:` and safe inside a double-quoted attribute |
| `DataUri.AsWrittenDiffersOnlyForInheritedNames` | email/inline-images.js:38-71 | the result under the script's lookup differs from the result under the intended one exactly for a readable file whose extension is `constructor` or `__proto__` |
| `DataUri.ParseBinary` | email/inline-images.js:70 | the parser reads a base64 URL back as its media type and bytes |
| `DataUri.ParseSvg` | email/inline-images.js:53 | the parser reads an SVG URL back as `image/svg+xml;utf8` and the UTF-8 bytes of the BOM-less text |
| `DataUri.BinaryRoundTrip` | email/inline-images.js:60-70 | a non-SVG file's URL decodes to the file's bytes under the lookup's type; its length is `5 + \|mime\| + 8 + 4⌈n/3⌉` |
| `DataUri.SvgRoundTrip` | email/inline-images.js:42-53 | an SVG file's URL starts with `data:image/svg+xml;utf8,`, is not base64, and decodes to the UTF-8 of the decoded text without its BOM |
| `DataUri.SvgRoundTripUtf8` | email/inline-images.js:44-53 | for a well-formed UTF-8 SVG the URL decodes to the file's own bytes, less the three BOM bytes if present |
| `Base64.Encode` | email/inline-images.js:70 | the text has `4⌈n/3⌉` characters, all from the alphabet or `=` |
| `Base64.DecodeEncode` | email/inline-images.js:70 | decoding the encoding gives the bytes back |
| `Base64.EncodeDecode` | email/inline-images.js:70 | every text the strict decoder accepts is the encoding of what it decodes to |
| `Base64.DecodeIffEncode` | email/inline-images.js:70 | a text decodes to the bytes exactly when it is their encoding |
| `Utf8.EncodeChar` | email/inline-images.js:48 | one to four bytes, one exactly for ASCII, every byte of a longer sequence non-ASCII |
| `Utf8.Decode` | email/inline-images.js:44 | `readFileSync(p, "utf8")`: no more characters than bytes; `Utf8.DecodeEncode` states the round trip |
| `Utf8.DecodeEncode` | email/inline-images.js:44 | reading as UTF-8 the encoding of a text gives the text back |
| `PercentEncoding.EncodeOctets` | email/inline-images.js:48 | every character of the result is either one the keep-set keeps literally, or `%`, or an upper-case hexadecimal digit (that these form well-formed `%XY` escapes follows from `PercentEncoding.DecodeEncodeOctets`) |
| `PercentEncoding.EncodeUriComponent` | email/inline-images.js:48 | `encodeURIComponent`, character by character as ECMA-262 defines it; `PercentEncoding.EncodeUriComponentIsPercentEncoding` states what it equals |
| `PercentEncoding.EncodeUriComponentIsPercentEncoding` | email/inline-images.js:48 | `encodeURIComponent` is the percent-encoding of the text's UTF-8 bytes that keeps the unreserved marks literal |
| `PercentEncoding.DecodeEncodeOctets` | email/inline-images.js:48 | percent-decoding the encoding gives the octets back, for any keep-set of ASCII characters other than `%` |
| `ImgTags.IsMatch` | email/inline-images.js:83 | the pattern, declaratively: `<img`, a word boundary, a first group without `>`, a word boundary, `src=` and a quote, a value without quotes or `>`, the same quote, a last group without `>`, and `>`; `ImgTags.MatchAtComplete` and `ImgTags.MatchAtNone` relate it to the matcher |
| `ImgTags.FirstQuote` | email/inline-images.js:83 | the first quote at or after a position, or none when there is none |
| `ImgTags.FirstSrc` | email/inline-images.js:83 | the least position from which `src=`, the value and its closing quote fit before the `>` |
| `ImgTags.MatchAt` | email/inline-images.js:83 | what the matcher returns at a position is a match of the pattern there |
| `ImgTags.MatchAtComplete` | email/inline-images.js:83 | wherever the pattern matches, the matcher finds a match, with the same end and the shortest first group |
| `ImgTags.MatchAtNone` | email/inline-images.js:83 | the matcher finds nothing only where the pattern cannot match |
| `ImgTags.MatchDetermined` | email/inline-images.js:83 | the start and the `src=` position determine the rest of a match |
| `ImgTags.MatchShape` | email/inline-images.js:83 | a match ends at the first `>` after `<img`, and its value at the first quote after `src=` |
| `ImgTags.TagContents` | email/inline-images.js:84 | the whole match is the text from `<` to `>`; the value is non-empty and free of quotes and `>`; the first group is non-empty and starts and ends with a non-word character; neither group holds `>` |
| `ImgTags.TagParts` | email/inline-images.js:83-84 | the whole match is `<img`, the first group, `src=` and a quote, the value, the same quote, the last group and `>` |
| `ImgTags.Scan` | email/inline-images.js:82-83 | the pieces of the search, concatenated in order, are the input from the starting offset; what each piece is, is stated by `ImgTags.ScanCovers` |
| `ImgTags.ScanText` | email/inline-images.js:82-83 | where the matcher fails, the search steps over one character |
| `ImgTags.ScanImg` | email/inline-images.js:82-83 | where the matcher finds a match, the search records it and goes on after its `>` |
| `ImgTags.ScanCovers` | email/inline-images.js:82-83 | each piece of the search sits at its offset: text exactly where the matcher fails, a match exactly where the matcher finds one, with that match's parts |
| `ImgTags.CoversUnique` | email/inline-images.js:82-83 | two coverings from the same offset are equal |
| `ImgTags.CoversIsScan` | email/inline-images.js:82-83 | every covering of the input from an offset is the search's result |
| `ImgTags.ScanIffCovers` | email/inline-images.js:82-83 | a sequence of pieces is the search's result exactly when it covers the input from that offset |
| `ImgTags.ScanWithoutMatches` | email/inline-images.js:82-83 | where the pattern matches nowhere, the search finds only text |
| `ImgTags.IsSkipped` | email/inline-images.js:85 | the skip test `/^data:/i` or `/^https?:\/\//i`; `ImgTags.IsSkippedIgnoresCase` states its case folding |
| `ImgTags.IsSkippedIgnoresCase` | email/inline-images.js:85 | the skip test for `data:`, `http://` and `https://` ignores ASCII case |
| `ImgTags.NewTag` | email/inline-images.js:93 | the rebuilt tag; `ImgTags.NewTagLayout` places its parts and `ImgTags.NewTagInjective` shows it determines the new value |
| `ImgTags.NewTagInjective` | email/inline-images.js:93 | two rebuilt tags with the same groups are equal only when their new values are |
| `ImgTags.ReplaceTag` | email/inline-images.js:84-94 | the callback under the environment's lookup; `ImgTags.ReplaceTagCases` states each case and `ImgTags.ReplaceTagLookups` compares the two lookups |
| `ImgTags.ReplaceTagCases` | email/inline-images.js:84-94 | skipped and missing references keep the match, and so does an unreadable SVG file; the callback throws exactly for an unreadable non-SVG file; a readable file gives `<img`, the first group, `src="`, its data URL, `"`, the last group and `>` |
| `ImgTags.ReplaceTagLookups` | email/inline-images.js:84-94 | the callback's result under the script's lookup differs from its result under the intended one exactly when the reference resolves to a readable file with extension `constructor` or `__proto__` |
| `ImgTags.InlineImages` | email/inline-images.js:82-95 | `html.replace(pattern, callback)`: the callback over the search's pieces, assembled in order; `ImgTags.ScanIffCovers`, `ImgTags.CrashIffThrows`, `ImgTags.NoFilesNoChange` and `ImgTags.InlineImagesLookups` state what it gives |
| `ImgTags.InlineImagesLookups` | email/inline-images.js:82-95 | where no match reads a readable file named `constructor` or `__proto__`, the script's rewrite and the intended one give the same result |
| `ImgTags.FirstCrash` | email/inline-images.js:82-95 | the first callback result that is an exception, with every earlier one a new text, or none when there is no exception |
| `ImgTags.AssembleCrash` | email/inline-images.js:82-95 | the callbacks' results assemble to an exception exactly when one of them is an exception, and then to the first one |
| `ImgTags.CrashIffThrows` | email/inline-images.js:82-95 | the rewrite ends in an exception exactly when the callback throws for a match; it is that match's exception, and the callback returned normally for every earlier piece |
| `ImgTags.AssembleTexts` | email/inline-images.js:82-95 | when every callback returns its piece's own text, the assembled output is the concatenation of the pieces |
| `ImgTags.RenderAllKept` | email/inline-images.js:82-95 | when the callback keeps every match, the output is the input |
| `ImgTags.NoFilesNoChange` | email/inline-images.js:86-91 | with no files, the document comes out unchanged |
| `ImgTags.SkippedOnlyNoChange` | email/inline-images.js:85 | when every match is skipped, the document comes out unchanged whatever the files |
| `ImgTags.NoMatchNoChange` | email/inline-images.js:82-95 | a document in which the pattern matches nowhere comes out unchanged |
| `ImgTags.NewTagIsMatch` | email/inline-images.js:93 | a rewritten tag whose first group holds no `src=` followed by a quote is a match of the pattern with its parts in place |
| `ImgTags.NewTagMatchAt` | email/inline-images.js:83 | on a rewritten tag whose first group holds no `src=` followed by a quote, the matcher finds the original `src=`, the new closing quote and the final `>` |
| `ImgTags.NewTagMatches` | email/inline-images.js:92-93 | the same pattern reads such a rewritten tag back with the same groups and the data URL as its value |
| `ImgTags.NewTagEarlierMatch` | email/inline-images.js:83 | when the first group holds a `src="` after a word boundary and no quote after it, the pattern matches the rewritten tag from that `src=` up to the new opening quote |
| `ImgTags.NewTagEarlierSrc` | email/inline-images.js:83-93 | in that case the matcher reads the rewritten tag from the earlier `src=`, so its groups are not the ones the callback wrote: the restriction of `ImgTags.NewTagMatches` cannot simply be dropped |
| `ImgTags.DataSrcIsMatched` | email/inline-images.js:83 | in `<img data-src="a.png" src="b.png">` the match's first group is ` data-` and its value `a.png`; the `src` attribute stays in the last group |
| `ImgTags.ReplaceTagReadable` | email/inline-images.js:84-94 | for a local, readable, non-SVG file the callback returns the tag rebuilt around the data URL, which is non-empty, attribute-safe and parses to the file's bytes under the lookup's type |
| `ImgTags.InlinedImageReadsBack` | email/inline-images.js:84-94 | end to end, for a match whose first group holds no `src=` followed by a quote: the value of the rewritten tag parses to the file's bytes under the lookup's MIME type |

## Left out

- Command-line handling, reading the input file and writing the output (lines 24-30, 73-79, 114) are I/O.
- The input's directory is a parameter of `ImgTags.Env`.
- The `@css-inline/css-inline` step (lines 97-120) is a foreign library call.
- The warning printed for a missing image (line 89) is console output. The model keeps the match unchanged there, as the code does.
- `path.resolve` is a function parameter of `Paths.ResolveLocal`: only the cleaning of the reference is modelled.
- `fs.existsSync` and `fs.readFileSync` are a map lookup. The reasons a read fails (a directory, missing permissions, a race) are all one `Unreadable` entry.
- The `url(...)` rewriting that the file's header comment announces is not in the code, so it is not modelled.
- JavaScript strings are sequences of UTF-16 code units. The model's strings are sequences of Unicode scalar values. Every character the pattern, the `?`/`#` split and the extension test look at is ASCII, so the two agree on where matches begin and end.
- `encodeURIComponent` throws on a lone surrogate. That input cannot arise here, because the decoder replaces ill-formed bytes with U+FFFD.
- `Paths.Extension`: `toLowerCase` is modelled for ASCII letters only. Outside ASCII, JavaScript maps only KELVIN SIGN to an ASCII letter (`k`), and U+0130 to `i` plus a non-ASCII combining mark. So the extension equals `svg` or a table name in the model exactly when it does in the script.
- `ImgTags.IsSkipped` and the pattern's `i` flag: the same ASCII-only folding. Without the `u` flag, JavaScript does not fold a non-ASCII character onto an ASCII one.
- `Utf8.Decode`: its own contract is only a length bound. At every position it takes the WHATWG decoder's steps (maximal subparts become U+FFFD). Its round trip is proved on well-formed input, in `Utf8.DecodeEncode`.
- `ImgTags.NewTagMatches`: proved only for first groups that hold no `src=` followed by a quote. Other quotes are allowed there, as in `<img alt="logo" src="a.png">`. With a `src=` and a quote in the first group, the rewrite need not be read back the same way. For example, in `<img a=src="z src='p.png'>` the rewritten tag's first `src="` starts an earlier match (`ImgTags.NewTagEarlierSrc`). So the rewrite is not idempotent, and no idempotence property is stated.
- `replace` collects every match before it calls the callback. The model does the same: `ImgTags.Scan` finds all the pieces first, `ImgTags.Callbacks` then applies the callback to each of them in order, and `ImgTags.Assemble` stops at the first `Crashed` result. The callback does not affect matching, so the later matches are found but never used, as in the script.
- The comment at line 49 says the characters `'`, `(` and `)` are preserved; lines 50-52 escape them to `%27`, `%28` and `%29`. The model follows the code (`DataUri.EscapeQuoteAndParens`, `DataUri.IsSvgKept`).
- `ImgTags.InlinedImageReadsBack`: proved only for matches whose first group holds no `src=` followed by a quote, for the reason given under `ImgTags.NewTagMatches`.
- `ImgTags.InlineImagesLookups`: states only that the two rewrites agree when no match reads a file with an inherited name. The converse is stated per match, by `ImgTags.ReplaceTagLookups`. For a whole document it does not hold as such: when a later match throws, both rewrites end in the same exception.
- `\bsrc=` also matches the end of `data-src=`, since `-` is not a word character. So in `<img data-src="a.png" src="b.png">` the callback inlines `a.png` into `data-src`, and `src` keeps `b.png` (`ImgTags.DataSrcIsMatched`). The comment at line 92 says only `src` is replaced. The model follows the pattern as written and does not state a corrected pattern.

## Findings

| source | as written | input that shows it | evidently intended | confidence | as-written member | corrected member |
|---|---|---|---|---|---|---|
| email/inline-images.js:60-68 | the MIME type is looked up by indexing an object literal, so names inherited from `Object.prototype` are found too | an image `/img/logo.constructor`: the extension is `constructor`, and the data URL becomes `data:function Object() { [native code] };base64,…` (`__proto__` gives `[object Object]`) | the generic `application/octet-stream` for every name outside the table | not executed; the input is an unusual file name | `DataUri.MimeAsWritten`, `DataUri.PrototypeNameLeaksIntoMime`, `DataUri.AsWrittenDiffersOnlyForInheritedNames`, `ImgTags.ReplaceTagLookups` | `DataUri.MimeFor`, `DataUri.MimeOf`, `ImgTags.InlineImagesLookups` |
