/** `fileToDataUri`: a file's contents as a `data:` URL (RFC 2397).
    SVG files become percent-encoded UTF-8 text, every other file base64 with
    a MIME type taken from a fixed table. `Parse` reads a data URL back; the
    round-trip lemmas below are stated with it. */
module DataUri {
  import opened Common
  import Base64
  import Utf8
  import PercentEncoding
  import Paths

  /** A file system entry: a readable file, or a path that exists but cannot be read (a directory, say). */
  datatype Entry = Readable(bytes: seq<byte>) | Unreadable

  /** The files visible to the script, by absolute path: `fs.existsSync` is membership. */
  type FileSystem = map<string, Entry>

  /** What `fileToDataUri` gives back: `null`, a data URL, or the exception `fs.readFileSync` throws. */
  datatype Outcome = Null | Uri(text: string) | Thrown

  const ByteOrderMark: char := '\U{FEFF}'
  const SvgMediaType: string := "image/svg+xml;utf8"
  const SvgPrefix: string := "data:" + SvgMediaType + ","
  const DefaultMime: string := "application/octet-stream"

  /** The extensions the MIME table lists. */
  predicate IsTableKey(ext: string) {
    ext == "png" || ext == "jpg" || ext == "jpeg" || ext == "gif" || ext == "webp" || ext == "ico"
  }

  /** A character that can sit between the double quotes of an attribute and inside the regex's `[^"'>]+`. */
  predicate IsAttributeChar(c: char) {
    c != '"' && c != '\'' && c != '>'
  }

  predicate IsAttributeSafe(s: string) {
    forall i :: 0 <= i < |s| ==> IsAttributeChar(s[i])
  }

  /** A character that leaves a data URL's header open: an attribute character other than `,`. */
  predicate IsHeaderChar(c: char) {
    c != ',' && IsAttributeChar(c)
  }

  /** A media type the parser reads back unchanged: no `,` (ends the header) and not ending in `;base64`. */
  predicate IsPlainMediaType(m: string) {
    (forall i :: 0 <= i < |m| ==> IsHeaderChar(m[i])) && !(|m| >= 7 && m[|m| - 7..] == ";base64")
  }

  lemma AttributeSafeAppend(a: string, b: string)
    requires IsAttributeSafe(a) && IsAttributeSafe(b)
    ensures IsAttributeSafe(a + b)
  {
    forall i | 0 <= i < |a + b| ensures IsAttributeChar((a + b)[i]) {
      if i < |a| { assert (a + b)[i] == a[i]; } else { assert (a + b)[i] == b[i - |a|]; }
    }
  }

  lemma PngIsPlain() ensures IsPlainMediaType("image/png") { }
  lemma JpegIsPlain() ensures IsPlainMediaType("image/jpeg") { }
  lemma GifIsPlain() ensures IsPlainMediaType("image/gif") { }
  lemma WebpIsPlain() ensures IsPlainMediaType("image/webp") { }
  lemma IconIsPlain() ensures IsPlainMediaType("image/x-icon") { }
  lemma DefaultIsPlain()
    ensures IsPlainMediaType(DefaultMime)
  {
    assert DefaultMime[|DefaultMime| - 7] == '-';
  }

  /** The MIME type for a non-SVG extension: the table's entry, or the generic binary type. */
  function MimeFor(ext: string): (mime: string)
    ensures mime == DefaultMime <==> !IsTableKey(ext)
    ensures mime == "image/jpeg" <==> ext == "jpg" || ext == "jpeg"
    ensures IsTableKey(ext) ==> |mime| > 6 && mime[..6] == "image/"
    ensures IsPlainMediaType(mime)
  {
    PngIsPlain(); JpegIsPlain(); GifIsPlain(); WebpIsPlain(); IconIsPlain(); DefaultIsPlain();
    if ext == "png" then "image/png"
    else if ext == "jpg" || ext == "jpeg" then "image/jpeg"
    else if ext == "gif" then "image/gif"
    else if ext == "webp" then "image/webp"
    else if ext == "ico" then "image/x-icon"
    else DefaultMime
  }

  /** The lookup as written: indexing an object literal also finds the properties it inherits. Of
      the names on `Object.prototype` only `constructor` and `__proto__` are already lower case;
      they yield the `Object` function and the prototype, which the template literal turns into
      text, so the generic type is not used for them. */
  function MimeAsWritten(ext: string): (mime: string)
    ensures mime != DefaultMime <==> IsTableKey(ext) || ext == "constructor" || ext == "__proto__"
  {
    if ext == "constructor" then "function Object() { [native code] }"
    else if ext == "__proto__" then "[object Object]"
    else MimeFor(ext)
  }

  /** The lookup as written agrees with the table for every name but the two inherited ones. */
  lemma MimeAsWrittenAgrees(ext: string)
    requires ext != "constructor" && ext != "__proto__"
    ensures MimeAsWritten(ext) == MimeFor(ext)
  {
  }

  lemma ObjectFunctionIsPlain() ensures IsPlainMediaType("function Object() { [native code] }") { }
  lemma ObjectPrototypeIsPlain() ensures IsPlainMediaType("[object Object]") { }

  /** Every type the lookup as written yields can stand in a data URL header. */
  lemma MimeAsWrittenIsPlain(ext: string)
    ensures IsPlainMediaType(MimeAsWritten(ext))
  {
    ObjectFunctionIsPlain();
    ObjectPrototypeIsPlain();
  }

  /** Which MIME lookup `fileToDataUri` performs: `ObjectLiteral` indexes the object literal, as
      the script does; `TableOnly` consults the table alone and falls back to the generic type for
      every other name, as the `||` default evidently means. */
  datatype Lookup = ObjectLiteral | TableOnly

  /** The MIME type the chosen lookup gives a non-SVG extension. */
  function MimeOf(lookup: Lookup, ext: string): (mime: string)
    ensures IsPlainMediaType(mime)
    ensures ext != "constructor" && ext != "__proto__" ==> mime == MimeFor(ext)
    ensures mime != DefaultMime <==> IsTableKey(ext) || (lookup.ObjectLiteral? && (ext == "constructor" || ext == "__proto__"))
  {
    match lookup
    case ObjectLiteral => MimeAsWrittenIsPlain(ext); MimeAsWritten(ext)
    case TableOnly => MimeFor(ext)
  }

  /** A file named `logo.constructor` gets the media type `function Object() { [native code] }`
      where the generic binary type was meant. */
  lemma PrototypeNameLeaksIntoMime()
    ensures Paths.Extension("/img/logo.constructor") == "constructor"
    ensures !IsTableKey("constructor") && MimeFor("constructor") == DefaultMime
    ensures MimeAsWritten("constructor") == "function Object() { [native code] }"
  {
    ConstructorExtension();
    ConstructorMime();
  }

  lemma ConstructorMime()
    ensures !IsTableKey("constructor") && MimeFor("constructor") == DefaultMime
    ensures MimeAsWritten("constructor") == "function Object() { [native code] }"
  {
  }

  lemma ConstructorExtension()
    ensures Paths.Extension("/img/logo.constructor") == "constructor"
  {
    ConstructorIsLowerName();
    Paths.ExtensionOfName("/img", "logo", "constructor");
  }

  lemma ConstructorIsLowerName()
    ensures "/img" + "/" + "logo" + "." + "constructor" == "/img/logo.constructor"
    ensures '/' !in "logo" && '/' !in "constructor" && '.' !in "constructor"
    ensures forall i :: 0 <= i < |"constructor"| ==> !('A' <= "constructor"[i] <= 'Z')
  {
  }

  /** `txt.replace(/^\uFEFF/, "")`. */
  function StripBom(t: string): string {
    if t != [] && t[0] == ByteOrderMark then t[1..] else t
  }

  /** The three `.replace` calls after `encodeURIComponent`: `'`, `(`, `)` become `%27`, `%28`, `%29`. */
  function EscapeQuoteAndParens(s: string): string {
    ReplaceChar(ReplaceChar(ReplaceChar(s, '\'', "%27"), '(', "%28"), ')', "%29")
  }

  /** The characters the SVG branch leaves literal: `encodeURIComponent`'s, minus `'`, `(` and `)`. */
  predicate IsSvgKept(c: char) {
    PercentEncoding.IsUnescaped(c) && c != '\'' && c != '(' && c != ')'
  }

  /** The SVG payload: the text without its BOM, URI-component encoded, quote and parentheses escaped. */
  function SvgPayload(text: string): string {
    EscapeQuoteAndParens(PercentEncoding.EncodeUriComponent(StripBom(text)))
  }

  lemma BinaryFrameIsSafe()
    ensures IsAttributeSafe("data:") && IsAttributeSafe(";base64,")
  {
  }

  lemma SvgFrameIsSafe()
    ensures IsAttributeSafe(SvgPrefix) && SvgPrefix[..5] == "data:"
  {
  }

  /** `data:${mime};base64,${buf.toString("base64")}`. */
  function BinaryUri(mime: string, bytes: seq<byte>): (u: string)
    requires IsPlainMediaType(mime)
    ensures |u| >= 5 && u[..5] == "data:" && IsAttributeSafe(u)
  {
    var payload := Base64.Encode(bytes);
    assert IsAttributeSafe(payload) by {
      forall i | 0 <= i < |payload| ensures IsAttributeChar(payload[i]) {
        assert Base64.IsEncodingChar(payload[i]);
      }
    }
    BinaryFrameIsSafe();
    AttributeSafeAppend("data:" + mime, ";base64,");
    AttributeSafeAppend("data:", mime);
    AttributeSafeAppend("data:" + mime + ";base64,", payload);
    "data:" + mime + ";base64," + payload
  }

  /** `data:image/svg+xml;utf8,${encoded}`. */
  function SvgUri(text: string): (u: string)
    ensures |u| >= 5 && u[..5] == "data:" && IsAttributeSafe(u)
  {
    SvgPayloadChars(text);
    SvgFrameIsSafe();
    AttributeSafeAppend(SvgPrefix, SvgPayload(text));
    SvgPrefix + SvgPayload(text)
  }

  /** `fileToDataUri(absPath)` with the MIME lookup `lookup`: `null` for a missing file (and for an
      SVG that cannot be read), the exception for any other file that cannot be read, otherwise
      the data URL. */
  function FileToDataUri(lookup: Lookup, files: FileSystem, absPath: string): (r: Outcome)
    ensures absPath !in files ==> r == Null
    ensures r.Thrown? <==> absPath in files && files[absPath].Unreadable? && Paths.Extension(absPath) != "svg"
    ensures r.Null? <==> absPath !in files || (files[absPath].Unreadable? && Paths.Extension(absPath) == "svg")
    ensures r.Uri? ==> |r.text| >= 5 && r.text[..5] == "data:" && IsAttributeSafe(r.text)
  {
    if absPath !in files then Null
    else
      var ext := Paths.Extension(absPath);
      if ext == "svg" then
        match files[absPath]
        case Unreadable => Null
        case Readable(bytes) => Uri(SvgUri(Utf8.Decode(bytes)))
      else
        match files[absPath]
        case Unreadable => Thrown
        case Readable(bytes) => Uri(BinaryUri(MimeOf(lookup, ext), bytes))
  }

  // ---------------------------------------------------------------------------
  // Reading a data URL back (section 2 of RFC 2397)

  datatype DataUrl = DataUrl(mediaType: string, isBase64: bool, data: seq<byte>)

  /** `data:` [mediatype] [`;base64`] `,` data, with the data percent-decoded or base64-decoded. */
  function Parse(s: string): Option<DataUrl> {
    if |s| < 5 || s[..5] != "data:" then None
    else
      match IndexFrom(s, ',', 5)
      case None => None
      case Some(c) =>
        var header := s[5..c];
        var payload := s[c + 1..];
        if |header| >= 7 && header[|header| - 7..] == ";base64" then
          match Base64.Decode(payload)
          case None => None
          case Some(d) => Some(DataUrl(header[..|header| - 7], true, d))
        else
          match PercentEncoding.Decode(payload)
          case None => None
          case Some(d) => Some(DataUrl(header, false, d))
  }

  /** How `Parse` splits a URL assembled from a comma-free header and a payload. */
  lemma ParseAssembled(header: string, payload: string)
    requires forall i :: 0 <= i < |header| ==> header[i] != ','
    ensures var s := "data:" + header + "," + payload;
            IndexFrom(s, ',', 5) == Some(5 + |header|) && s[5..5 + |header|] == header && s[5 + |header| + 1..] == payload
  {
    var s := "data:" + header + "," + payload;
    assert s[5 + |header|] == ',';
    assert forall i :: 5 <= i < 5 + |header| ==> s[i] == header[i - 5];
  }

  // ---------------------------------------------------------------------------
  // Properties

  lemma EscapeKeptChar(x: char)
    requires x != '\'' && x != '(' && x != ')'
    ensures EscapeQuoteAndParens([x]) == [x]
  {
    ReplaceCharAbsent([x], '\'', "%27");
    ReplaceCharAbsent([x], '(', "%28");
    ReplaceCharAbsent([x], ')', "%29");
  }

  lemma EscapeEscaped(b: byte)
    ensures EscapeQuoteAndParens(PercentEncoding.Escape(b)) == PercentEncoding.Escape(b)
  {
    var e := PercentEncoding.Escape(b);
    assert forall i :: 0 <= i < |e| ==> PercentEncoding.IsEscapeChar(e[i]);
    ReplaceCharAbsent(e, '\'', "%27");
    ReplaceCharAbsent(e, '(', "%28");
    ReplaceCharAbsent(e, ')', "%29");
  }

  lemma EscapeQuote()
    ensures EscapeQuoteAndParens("'") == "%27"
  {
    assert ReplaceChar("'", '\'', "%27") == "%27";
    ReplaceCharAbsent("%27", '(', "%28");
    ReplaceCharAbsent("%27", ')', "%29");
  }

  lemma EscapeOpen()
    ensures EscapeQuoteAndParens("(") == "%28"
  {
    ReplaceCharAbsent("(", '\'', "%27");
    assert ReplaceChar("(", '(', "%28") == "%28";
    ReplaceCharAbsent("%28", ')', "%29");
  }

  lemma EscapeClose()
    ensures EscapeQuoteAndParens(")") == "%29"
  {
    ReplaceCharAbsent(")", '\'', "%27");
    ReplaceCharAbsent(")", '(', "%28");
    assert ReplaceChar(")", ')', "%29") == "%29";
  }

  /** After the three replacements the percent-encoding keeps only `IsSvgKept` characters literal. */
  lemma EscapeOctet(b: byte)
    ensures EscapeQuoteAndParens(PercentEncoding.EncodeOctet(b, PercentEncoding.IsUnescaped))
         == PercentEncoding.EncodeOctet(b, IsSvgKept)
  {
    if b == 0x27 {
      EscapeQuote();
      assert PercentEncoding.Escape(b) == "%27";
    } else if b == 0x28 {
      EscapeOpen();
      assert PercentEncoding.Escape(b) == "%28";
    } else if b == 0x29 {
      EscapeClose();
      assert PercentEncoding.Escape(b) == "%29";
    } else if b < 0x80 && PercentEncoding.IsUnescaped(b as char) {
      EscapeKeptChar(b as char);
    } else {
      EscapeEscaped(b);
    }
  }

  lemma EscapeAppend(a: string, b: string)
    ensures EscapeQuoteAndParens(a + b) == EscapeQuoteAndParens(a) + EscapeQuoteAndParens(b)
  {
    ReplaceCharAppend(a, b, '\'', "%27");
    var a1, b1 := ReplaceChar(a, '\'', "%27"), ReplaceChar(b, '\'', "%27");
    ReplaceCharAppend(a1, b1, '(', "%28");
    var a2, b2 := ReplaceChar(a1, '(', "%28"), ReplaceChar(b1, '(', "%28");
    ReplaceCharAppend(a2, b2, ')', "%29");
  }

  /** `encodeURIComponent` followed by the three replacements is percent-encoding that keeps `IsSvgKept`. */
  lemma {:induction false} EscapedIsPercentEncoding(bs: seq<byte>)
    ensures EscapeQuoteAndParens(PercentEncoding.EncodeOctets(bs, PercentEncoding.IsUnescaped))
         == PercentEncoding.EncodeOctets(bs, IsSvgKept)
  {
    if bs != [] {
      EscapedIsPercentEncoding(bs[1..]);
      EscapeAppend(PercentEncoding.EncodeOctet(bs[0], PercentEncoding.IsUnescaped),
                   PercentEncoding.EncodeOctets(bs[1..], PercentEncoding.IsUnescaped));
      EscapeOctet(bs[0]);
    }
  }

  /** The SVG payload is the percent-encoding of the BOM-less text's UTF-8 bytes keeping only `IsSvgKept`. */
  lemma SvgPayloadIsPercentEncoding(text: string)
    ensures SvgPayload(text) == PercentEncoding.EncodeOctets(Utf8.Encode(StripBom(text)), IsSvgKept)
  {
    PercentEncoding.EncodeUriComponentIsPercentEncoding(StripBom(text));
    EscapedIsPercentEncoding(Utf8.Encode(StripBom(text)));
  }

  /** The SVG payload holds no literal `'`, `(` or `)`, nor a `,`, a `"` or a `>`. */
  lemma SvgPayloadChars(text: string)
    ensures var p := SvgPayload(text);
            forall i :: 0 <= i < |p| ==> IsHeaderChar(p[i]) && p[i] != '(' && p[i] != ')'
  {
    SvgPayloadIsPercentEncoding(text);
    var p := SvgPayload(text);
    forall i | 0 <= i < |p| ensures IsHeaderChar(p[i]) && p[i] != '(' && p[i] != ')' {
      assert IsSvgKept(p[i]) || PercentEncoding.IsEscapeChar(p[i]);
    }
  }

  /** `Parse` reads a base64 data URL back. */
  lemma ParseBinary(mime: string, bytes: seq<byte>)
    requires IsPlainMediaType(mime)
    ensures Parse(BinaryUri(mime, bytes)) == Some(DataUrl(mime, true, bytes))
  {
    var payload := Base64.Encode(bytes);
    var header := mime + ";base64";
    assert forall i :: 0 <= i < |header| ==> header[i] != ',' by {
      forall i | 0 <= i < |header| ensures header[i] != ',' {
        if i < |mime| { assert header[i] == mime[i]; } else { assert header[i] == ";base64"[i - |mime|]; }
      }
    }
    assert BinaryUri(mime, bytes) == "data:" + header + "," + payload;
    ParseAssembled(header, payload);
    assert header[|header| - 7..] == ";base64" && header[..|header| - 7] == mime;
    Base64.DecodeEncode(bytes);
  }

  lemma SvgHeaderIsPlain()
    ensures forall i :: 0 <= i < |SvgMediaType| ==> SvgMediaType[i] != ','
    ensures !(|SvgMediaType| >= 7 && SvgMediaType[|SvgMediaType| - 7..] == ";base64")
  {
  }

  /** `Parse` reads an SVG data URL back. */
  lemma ParseSvg(text: string)
    ensures Parse(SvgUri(text)) == Some(DataUrl(SvgMediaType, false, Utf8.Encode(StripBom(text))))
  {
    var payload := SvgPayload(text);
    var header := SvgMediaType;
    SvgHeaderIsPlain();
    ParseAssembled(header, payload);
    SvgPayloadIsPercentEncoding(text);
    PercentEncoding.DecodeEncodeOctets(Utf8.Encode(StripBom(text)), IsSvgKept);
  }

  /** A non-SVG data URL names the lookup's MIME type, is base64, and decodes to the file's bytes;
      its payload has 4 * ceil(n / 3) characters. */
  lemma BinaryRoundTrip(lookup: Lookup, files: FileSystem, absPath: string)
    requires absPath in files && files[absPath].Readable?
    requires Paths.Extension(absPath) != "svg"
    ensures var r := FileToDataUri(lookup, files, absPath);
            var bytes := files[absPath].bytes;
            var mime := MimeOf(lookup, Paths.Extension(absPath));
            r.Uri? && Parse(r.text) == Some(DataUrl(mime, true, bytes))
            && |r.text| == 5 + |mime| + 8 + 4 * ((|bytes| + 2) / 3)
  {
    ParseBinary(MimeOf(lookup, Paths.Extension(absPath)), files[absPath].bytes);
  }

  /** The script's lookup and the intended one give different results exactly for a readable
      file whose extension is `constructor` or `__proto__`. */
  lemma AsWrittenDiffersOnlyForInheritedNames(files: FileSystem, absPath: string)
    ensures var ext := Paths.Extension(absPath);
            FileToDataUri(ObjectLiteral, files, absPath) != FileToDataUri(TableOnly, files, absPath)
            <==> absPath in files && files[absPath].Readable? && (ext == "constructor" || ext == "__proto__")
  {
    var ext := Paths.Extension(absPath);
    if absPath in files && files[absPath].Readable? && (ext == "constructor" || ext == "__proto__") {
      AsWrittenDiffers(files, absPath);
    } else {
      AsWrittenAgrees(files, absPath);
    }
  }

  /** For the two inherited names the URLs differ, because they read back as different types. */
  lemma AsWrittenDiffers(files: FileSystem, absPath: string)
    requires absPath in files && files[absPath].Readable?
    requires Paths.Extension(absPath) == "constructor" || Paths.Extension(absPath) == "__proto__"
    ensures FileToDataUri(ObjectLiteral, files, absPath) != FileToDataUri(TableOnly, files, absPath)
  {
    var ext := Paths.Extension(absPath);
    assert !IsTableKey(ext);
    assert MimeOf(ObjectLiteral, ext) != MimeOf(TableOnly, ext);
    BinaryRoundTrip(ObjectLiteral, files, absPath);
    BinaryRoundTrip(TableOnly, files, absPath);
  }

  /** Everywhere else the two lookups give the same result. */
  lemma AsWrittenAgrees(files: FileSystem, absPath: string)
    requires !(absPath in files && files[absPath].Readable?
               && (Paths.Extension(absPath) == "constructor" || Paths.Extension(absPath) == "__proto__"))
    ensures FileToDataUri(ObjectLiteral, files, absPath) == FileToDataUri(TableOnly, files, absPath)
  {
  }

  /** An SVG data URL starts with `data:image/svg+xml;utf8,`, is not base64, and percent-decodes to
      the UTF-8 bytes of the file's text with a leading BOM removed. */
  lemma SvgRoundTrip(lookup: Lookup, files: FileSystem, absPath: string)
    requires absPath in files && files[absPath].Readable?
    requires Paths.Extension(absPath) == "svg"
    ensures var r := FileToDataUri(lookup, files, absPath);
            var text := Utf8.Decode(files[absPath].bytes);
            r.Uri? && |r.text| >= |SvgPrefix| && r.text[..|SvgPrefix|] == SvgPrefix
            && Parse(r.text) == Some(DataUrl(SvgMediaType, false, Utf8.Encode(StripBom(text))))
  {
    ParseSvg(Utf8.Decode(files[absPath].bytes));
  }

  lemma BomBytes()
    ensures Utf8.EncodeChar(ByteOrderMark) == [0xEF, 0xBB, 0xBF]
  {
  }

  /** Removing the BOM from the text removes its three bytes from the encoding. */
  lemma StripBomBytes(text: string)
    requires text != [] && text[0] == ByteOrderMark
    ensures Utf8.Encode(StripBom(text)) == Utf8.Encode(text)[3..]
  {
    BomBytes();
    assert Utf8.Encode(text) == Utf8.EncodeChar(text[0]) + Utf8.Encode(text[1..]);
  }

  /** For a well-formed UTF-8 SVG file the data URL decodes to the file's own bytes, less a leading BOM. */
  lemma SvgRoundTripUtf8(lookup: Lookup, files: FileSystem, absPath: string, text: string)
    requires absPath in files && files[absPath] == Readable(Utf8.Encode(text))
    requires Paths.Extension(absPath) == "svg"
    ensures var r := FileToDataUri(lookup, files, absPath);
            r.Uri? && Parse(r.text) == Some(DataUrl(SvgMediaType, false, Utf8.Encode(StripBom(text))))
    ensures text != [] && text[0] == ByteOrderMark ==>
              Utf8.Encode(StripBom(text)) == Utf8.Encode(text)[3..]
  {
    Utf8.DecodeEncode(text);
    SvgRoundTrip(lookup, files, absPath);
    if text != [] && text[0] == ByteOrderMark {
      StripBomBytes(text);
    }
  }

  /** Only one leading BOM is removed: a second one stays in the text. */
  lemma StripBomRemovesOne(t: string)
    ensures StripBom([ByteOrderMark, ByteOrderMark] + t) == [ByteOrderMark] + t
    ensures t == [] || t[0] != ByteOrderMark ==> StripBom(t) == t
    ensures StripBom([ByteOrderMark] + t) == t
  {
  }
}
