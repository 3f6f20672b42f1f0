/**
 * Output templates (Sources/Template.swift): choosing a format, the three
 * built-in templates, splitting a template at its `$start`, `$separator`
 * and `$end` markers, filling in the six placeholders for each library and
 * escaping values for plain text, JSON and XML.
 */
module Templates {
  import opened Wrappers
  import opened Strings
  import opened Licenses

  datatype Format = Text | Xml | Json

  /** The raw value of a format, which `--format` names. */
  function FormatName(f: Format): string {
    match f
    case Text => "text"
    case Xml => "xml"
    case Json => "json"
  }

  /** `Format(rawValue:)` */
  function FormatNamed(raw: string): (r: Option<Format>)
    ensures r.Some? ==> FormatName(r.value) == raw
    ensures r.None? ==> forall f :: FormatName(f) != raw
  {
    if raw == "text" then Some(Text)
    else if raw == "xml" then Some(Xml)
    else if raw == "json" then Some(Json)
    else None
  }

  // ---------------------------------------------------------------------------
  // Format.infer
  // ---------------------------------------------------------------------------

  /** `Format.infer(from: Template)`: decided by the trimmed template's first character. */
  function InferFromTemplate(template: string): Format {
    var text := Trim(template);
    if text != [] && (text[0] == '<' || Contains(text, "</")) then Xml
    else if text != [] && text[0] in "{[\"" then Json
    else Text
  }

  /**
   * A template is XML when its first character other than whitespace is `<`
   * or it contains `</` anywhere; otherwise JSON when that character is `{`,
   * `[` or `"`; otherwise (an empty or blank template included) text.
   */
  lemma InferFromTemplateClassifies(template: string)
    ensures var k := SkipSpaces(template, 0);
            InferFromTemplate(template) ==
              if (k < |template| && template[k] == '<') || Contains(template, "</") then Xml
              else if k < |template| && template[k] in "{[\"" then Json
              else Text
  {
    TrimFirst(template);
    TrimContains(template, "</");
  }

  /** The last path component of a file path. */
  function LastComponent(path: string): string {
    match AfterLast(path, '/')
    case Some(component) => component
    case None => path
  }

  /**
   * `url.pathExtension`: what follows the last `.` of the last path
   * component, if any; a component whose only `.` is its first character,
   * such as `.xml`, is a hidden file without an extension.
   */
  function PathExtension(path: string): string {
    var component := LastComponent(path);
    match AfterLast(component, '.')
    case Some(ext) => if |ext| + 1 == |component| then [] else ext
    case None => []
  }

  /** The format an output file extension asks for, after lowercasing. */
  function InferFromExtension(ext: string): Format {
    if ext == "xml" then Xml else if ext == "json" then Json else Text
  }

  /** `Format.infer(from: URL)` */
  function InferFromUrl(path: string): Format {
    InferFromExtension(Lower(PathExtension(path)))
  }

  /**
   * The extension of a file named `stem.ext` is `ext`, when `ext` holds no
   * `/` or `.` and the stem's last component is not empty.
   */
  lemma PathExtensionOf(stem: string, ext: string)
    requires '/' !in ext && '.' !in ext && stem != [] && stem[|stem| - 1] != '/'
    ensures PathExtension(stem + "." + ext) == ext
  {
    var path := stem + "." + ext;
    assert path == stem + ("." + ext);
    AfterLastTail(stem, "." + ext, '/');
    match AfterLast(stem, '/')
    case None =>
      assert LastComponent(path) == path;
      AfterLastAppend(stem, ext, '.');
    case Some(t) =>
      assert LastComponent(path) == t + ("." + ext) == t + "." + ext;
      AfterLastAppend(t, ext, '.');
  }

  /** A hidden file such as `dir/.xml` has no extension. */
  lemma PathExtensionHidden(dir: string, ext: string)
    requires '/' !in ext && '.' !in ext
    ensures PathExtension(dir + "/." + ext) == []
  {
    var path := dir + "/." + ext;
    assert path == dir + ['/'] + ("." + ext);
    AfterLastAppend(dir, "." + ext, '/');
    assert LastComponent(path) == "." + ext;
    assert "." + ext == [] + ['.'] + ext;
    AfterLastAppend([], ext, '.');
  }

  /** Naming an output file after a format, in any case, asks for that format. */
  lemma InferFromUrlNamed(stem: string, f: Format, ext: string)
    requires Lower(ext) == FormatName(f) && stem != [] && stem[|stem| - 1] != '/'
    ensures InferFromUrl(stem + "." + ext) == f
  {
    assert '/' !in ext && '.' !in ext by {
      forall i | 0 <= i < |ext| ensures ext[i] != '/' && ext[i] != '.' {
        assert Lower(ext)[i] == LowerChar(ext[i]);
        assert LowerChar(ext[i]) in FormatName(f);
      }
    }
    PathExtensionOf(stem, ext);
  }

  /** An output file named with any other extension asks for plain text. */
  lemma InferFromUrlOther(stem: string, ext: string)
    requires '/' !in ext && '.' !in ext && stem != [] && stem[|stem| - 1] != '/'
    requires Lower(ext) != "xml" && Lower(ext) != "json"
    ensures InferFromUrl(stem + "." + ext) == Text
  {
    PathExtensionOf(stem, ext);
  }

  /** An output file whose name has no `.` has no extension and asks for plain text. */
  lemma InferFromUrlNoDot(dir: string, name: string)
    requires '/' !in name && '.' !in name
    ensures PathExtension(dir + "/" + name) == []
    ensures InferFromUrl(dir + "/" + name) == Text
  {
    assert dir + "/" + name == dir + ['/'] + name;
    AfterLastAppend(dir, name, '/');
    assert LastComponent(dir + "/" + name) == name;
  }

  /** A hidden file named after a format, such as `.json`, asks for plain text. */
  lemma InferFromUrlHidden(dir: string, ext: string)
    requires '/' !in ext && '.' !in ext
    ensures InferFromUrl(dir + "/." + ext) == Text
  {
    PathExtensionHidden(dir, ext);
  }


  // ---------------------------------------------------------------------------
  // The built-in templates
  // ---------------------------------------------------------------------------

  const TextTemplate: string := "$name" + TextRest
  const TextRest: string := "\n\n" + TextTail
  const TextTail: string := "$text" + "\n\n"

  // The XML and JSON templates, in pieces that each hold no `$` or no line break.

  const XmlHead: string := "<licenses>\n    "
  const XmlSectionPieces: seq<string> := [
    "\n    <license>", "\n        <name>", "$name</name>",
    "\n        <type>", "$type</type>",
    "\n        <text>", "$text</text>",
    "\n    </license>", "\n    "
  ]
  const XmlSection: string := Concat(XmlSectionPieces)
  const XmlFoot: string := "\n</licenses>"
  const XmlTemplate: string := XmlHead + "$start" + XmlSection + "$end" + XmlFoot

  const JsonHead: string := "[\n    "
  const JsonSectionPieces: seq<string> := [
    "\n    {\n        \"name\": ", "$name,",
    "\n        \"type\": ", "$type,",
    "\n        \"text\": ", "$text",
    "\n    }"
  ]
  const JsonSection: string := Concat(JsonSectionPieces)
  const JsonSeparator: string := ","
  const JsonFoot: string := "\n]"
  const JsonTemplate: string := JsonHead + "$start" + JsonSection + "$separator" + JsonSeparator + "$end" + JsonFoot

  /** `Template.default(for:)` */
  function Default(f: Format): string {
    match f
    case Text => TextTemplate
    case Xml => XmlTemplate
    case Json => JsonTemplate
  }

  lemma FirstOfConcat(a: string, b: string)
    requires a != []
    ensures (a + b)[0] == a[0]
  {
  }

  lemma LacksAppend(a: string, b: string, c: char)
    requires c !in a && c !in b
    ensures c !in a + b
  {
  }

  /** A template whose first character is `<` is XML. */
  lemma InferFromAngle(t: string)
    requires t != [] && t[0] == '<'
    ensures InferFromTemplate(t) == Xml
  {
    assert SkipSpaces(t, 0) == 0;
    InferFromTemplateClassifies(t);
  }

  /** A template without `/` is judged by its first character when that is not whitespace. */
  lemma InferWithoutSlash(t: string, c: char)
    requires t != [] && t[0] == c && !IsSpace(c) && c != '<' && '/' !in t
    ensures InferFromTemplate(t) == if c in "{[\"" then Json else Text
  {
    assert SkipSpaces(t, 0) == 0;
    InferFromTemplateClassifies(t);
    NotContainsChar(t, "</", 1);
  }

  lemma InferTextTemplate()
    ensures InferFromTemplate(TextTemplate) == Text
  {
    assert TextTemplate[0] == '$' && '/' !in TextTemplate;
    InferWithoutSlash(TextTemplate, '$');
  }

  lemma InferXmlTemplate()
    ensures InferFromTemplate(XmlTemplate) == Xml
  {
    assert XmlHead[0] == '<';
    FirstOfConcat(XmlHead, "$start");
    FirstOfConcat(XmlHead + "$start", XmlSection);
    FirstOfConcat(XmlHead + "$start" + XmlSection, "$end");
    FirstOfConcat(XmlHead + "$start" + XmlSection + "$end", XmlFoot);
    InferFromAngle(XmlTemplate);
  }

  /** A laid-out template is judged by the first character of its header when no part holds `/`. */
  lemma InferLaidOut(h: string, s: string, sep: string, f: string)
    requires h != [] && !IsSpace(h[0]) && h[0] != '<'
    requires '/' !in h && '/' !in s && '/' !in sep && '/' !in f
    ensures InferFromTemplate(LaidOut(h, s, sep, f)) == if h[0] in "{[\"" then Json else Text
  {
    var t := LaidOut(h, s, sep, f);
    assert t[0] == h[0];
    assert '/' !in t;
    InferWithoutSlash(t, h[0]);
  }

  lemma JsonPartsLackSlash()
    ensures '/' !in JsonHead && '/' !in JsonSection && '/' !in JsonSeparator && '/' !in JsonFoot
  {
    ConcatLacks(JsonSectionPieces, '/');
  }

  lemma InferJsonTemplate()
    ensures InferFromTemplate(JsonTemplate) == Json
  {
    JsonPartsLackSlash();
    assert JsonHead[0] == '[';
    InferLaidOut(JsonHead, JsonSection, JsonSeparator, JsonFoot);
  }

  /** Each built-in template is recognised as the format it was built for. */
  lemma InferDefault(f: Format)
    ensures InferFromTemplate(Default(f)) == f
  {
    match f
    case Text => InferTextTemplate();
    case Xml => InferXmlTemplate();
    case Json => InferJsonTemplate();
  }

  // ---------------------------------------------------------------------------
  // Splitting a template at its markers
  // ---------------------------------------------------------------------------

  /** A half-open range of positions in a template. */
  datatype Range = Range(lower: nat, upper: nat)

  /** `r` spans the leftmost occurrence of `p` in `t`. */
  predicate Leftmost(t: string, p: string, r: Range) {
    && OccursAt(t, p, r.lower) && r.upper == r.lower + |p|
    && forall j :: 0 <= j < r.lower ==> !OccursAt(t, p, j)
  }

  /** `range(of: preferred) ?? range(of: plain) ?? fallback..<fallback` */
  function MarkerRange(t: string, preferred: string, plain: string, fallback: nat): (r: Range)
    requires fallback <= |t|
    ensures r.lower <= r.upper <= |t|
  {
    match Find(t, preferred)
    case Some(i) => Range(i, i + |preferred|)
    case None =>
      match Find(t, plain)
      case Some(i) => Range(i, i + |plain|)
      case None => Range(fallback, fallback)
  }

  /** The range found is the leftmost `preferred`, else the leftmost `plain`, else empty at `fallback`. */
  lemma MarkerRangeLeftmost(t: string, preferred: string, plain: string, fallback: nat)
    requires fallback <= |t|
    ensures var r := MarkerRange(t, preferred, plain, fallback);
            && (Contains(t, preferred) ==> Leftmost(t, preferred, r))
            && (!Contains(t, preferred) && Contains(t, plain) ==> Leftmost(t, plain, r))
            && (!Contains(t, preferred) && !Contains(t, plain) ==> r == Range(fallback, fallback))
  {
  }

  /** Where the section starts: `\n$start`, else `$start`, else the very beginning. */
  function StartRange(t: string): Range {
    MarkerRange(t, "\n$start", "$start", 0)
  }

  /** Where the section ends: `\n$end`, else `$end`, else the very end. */
  function EndRange(t: string): Range {
    MarkerRange(t, "\n$end", "$end", |t|)
  }

  /** The separator marker, else an empty range where the end marker begins. */
  function SeparatorRange(t: string): (r: Range)
    ensures r.lower <= r.upper <= |t|
  {
    match Find(t, "$separator")
    case Some(i) => Range(i, i + 10)
    case None => Range(EndRange(t).lower, EndRange(t).lower)
  }

  /** The separator range is the leftmost `$separator`, else empty where the end marker begins. */
  lemma SeparatorRangeLeftmost(t: string)
    ensures var r := SeparatorRange(t);
            && (Contains(t, "$separator") ==> Leftmost(t, "$separator", r))
            && (!Contains(t, "$separator") ==> r == Range(EndRange(t).lower, EndRange(t).lower))
  {
  }

  /** The text a range covers. */
  function Marked(t: string, r: Range): string
    requires r.lower <= r.upper <= |t|
  {
    t[r.lower..r.upper]
  }

  /** A text cut at six ordered positions is the concatenation of its seven slices. */
  lemma CutSix(t: string, a: nat, b: nat, c: nat, d: nat, e: nat, f: nat)
    requires a <= b <= c <= d <= e <= f <= |t|
    ensures t == t[..a] + t[a..b] + t[b..c] + t[c..d] + t[d..e] + t[e..f] + t[f..]
  {
    assert t[..b] == t[..a] + t[a..b];
    assert t[..c] == t[..b] + t[b..c];
    assert t[..d] == t[..c] + t[c..d];
    assert t[..e] == t[..d] + t[d..e];
    assert t[..f] == t[..e] + t[e..f];
    assert t == t[..f] + t[f..];
  }

  /** The errors `render` throws for markers out of order. */
  datatype RenderError = StartAfterEnd | StartAfterSeparator | SeparatorAfterEnd

  function ErrorMessage(e: RenderError): string {
    match e
    case StartAfterEnd => "$start must appear before $end"
    case StartAfterSeparator => "$start must appear before $separator"
    case SeparatorAfterEnd => "$separator must appear before $end"
  }

  /** The four texts a template is cut into. */
  datatype Parts = Parts(header: string, section: string, separator: string, footer: string)

  /**
   * Cutting a template at its markers. When the markers are in order the
   * template is exactly the header, the start marker, the section, the
   * separator marker, the separator, the end marker and the footer;
   * otherwise the first violated order is reported.
   */
  function SplitTemplate(t: string): Result<Parts, RenderError> {
    CutAt(t, StartRange(t), SeparatorRange(t), EndRange(t))
  }

  /** Cutting `t` at the marker ranges `s`, `p` and `e`, which must come in that order. */
  function CutAt(t: string, s: Range, p: Range, e: Range): Result<Parts, RenderError>
    requires s.lower <= s.upper <= |t| && p.lower <= p.upper <= |t| && e.lower <= e.upper <= |t|
  {
    if s.upper > e.lower then Err(StartAfterEnd)
    else if s.upper > p.lower then Err(StartAfterSeparator)
    else if p.upper > e.lower then Err(SeparatorAfterEnd)
    else Ok(Parts(t[..s.lower], t[s.upper..p.lower], t[p.upper..e.lower], t[e.upper..]))
  }

  /**
   * A template that splits is its header, the start marker, the section,
   * the separator marker, the separator, the end marker and the footer, in
   * that order; one that does not reports the first marker out of order.
   */
  lemma SplitTemplateSpec(t: string)
    ensures var r, s, p, e := SplitTemplate(t), StartRange(t), SeparatorRange(t), EndRange(t);
            && (r.Ok? ==>
                  t == r.value.header + Marked(t, s) + r.value.section + Marked(t, p) +
                       r.value.separator + Marked(t, e) + r.value.footer)
            && (r == Err(StartAfterEnd) <==> s.upper > e.lower)
            && (r == Err(StartAfterSeparator) <==> s.upper <= e.lower && s.upper > p.lower)
            && (r == Err(SeparatorAfterEnd) <==> s.upper <= e.lower && s.upper <= p.lower && p.upper > e.lower)
  {
    CutAtSpec(t, StartRange(t), SeparatorRange(t), EndRange(t));
  }

  /** `CutAt` on any three ranges: the seven slices when they are ordered, else the first violation. */
  lemma CutAtSpec(t: string, s: Range, p: Range, e: Range)
    requires s.lower <= s.upper <= |t| && p.lower <= p.upper <= |t| && e.lower <= e.upper <= |t|
    ensures var r := CutAt(t, s, p, e);
            && (r.Ok? ==>
                  t == r.value.header + Marked(t, s) + r.value.section + Marked(t, p) +
                       r.value.separator + Marked(t, e) + r.value.footer)
            && (r == Err(StartAfterEnd) <==> s.upper > e.lower)
            && (r == Err(StartAfterSeparator) <==> s.upper <= e.lower && s.upper > p.lower)
            && (r == Err(SeparatorAfterEnd) <==> s.upper <= e.lower && s.upper <= p.lower && p.upper > e.lower)
  {
    if s.upper <= e.lower && s.upper <= p.lower && p.upper <= e.lower {
      CutSix(t, s.lower, s.upper, p.lower, p.upper, e.lower, e.upper);
    }
  }

  // ---------------------------------------------------------------------------
  // Escaping values
  // ---------------------------------------------------------------------------

  function Quoted(s: string): string {
    "\"" + s + "\""
  }

  /** The text between the outer quotes of `s`, if it has them. */
  function Unquoted(s: string): (r: Option<string>)
    ensures r.Some? ==> s == Quoted(r.value)
  {
    if |s| >= 2 && s[0] == '"' && s[|s| - 1] == '"' then Some(s[1..|s| - 1]) else None
  }

  const HexDigits: string := "0123456789abcdef"

  /** How `JSONEncoder` writes one character inside a string (slashes left alone). */
  function JsonEscapeChar(c: char): string {
    if c == '"' then "\\\""
    else if c == '\\' then "\\\\"
    else if c == '\n' then "\\n"
    else if c == '\r' then "\\r"
    else if c == '\t' then "\\t"
    else if c == '\U{08}' then "\\b"
    else if c == '\U{0C}' then "\\f"
    else if c < ' ' then "\\u00" + [HexDigits[c as int / 16], HexDigits[c as int % 16]]
    else [c]
  }

  function JsonEscape(s: string): string
    decreases |s|
  {
    if s == [] then [] else JsonEscapeChar(s[0]) + JsonEscape(s[1..])
  }

  /** A string encoded as a JSON value. */
  function JsonString(s: string): string {
    Quoted(JsonEscape(s))
  }

  /** The character a one-letter JSON escape stands for. */
  function JsonSimpleEscape(c: char): Option<char> {
    if c == '"' then Some('"')
    else if c == '\\' then Some('\\')
    else if c == '/' then Some('/')
    else if c == 'n' then Some('\n')
    else if c == 'r' then Some('\r')
    else if c == 't' then Some('\t')
    else if c == 'b' then Some('\U{08}')
    else if c == 'f' then Some('\U{0C}')
    else None
  }

  function HexValue(c: char): Option<nat> {
    if '0' <= c <= '9' then Some(c as nat - '0' as nat)
    else if 'a' <= c <= 'f' then Some(c as nat - 'a' as nat + 10)
    else if 'A' <= c <= 'F' then Some(c as nat - 'A' as nat + 10)
    else None
  }

  /** The code point four hex digits spell, when it is a character (not a surrogate). */
  function Hex4(s: string): (r: Option<char>)
    requires |s| == 4
  {
    var h0, h1, h2, h3 := HexValue(s[0]), HexValue(s[1]), HexValue(s[2]), HexValue(s[3]);
    if h0.None? || h1.None? || h2.None? || h3.None? then None
    else
      var n := ((h0.value * 16 + h1.value) * 16 + h2.value) * 16 + h3.value;
      if n < 0xD800 || 0xE000 <= n < 0x1_0000 then Some(n as char) else None
  }

  function Prepend(c: char, r: Option<string>): Option<string> {
    match r
    case Some(s) => Some([c] + s)
    case None => None
  }

  /** A JSON decoder for the inside of a string: escapes resolved, bare quotes and control characters refused. */
  function JsonUnescape(s: string): Option<string>
    decreases |s|
  {
    if s == [] then Some([])
    else if s[0] == '\\' then
      if |s| < 2 then None
      else if JsonSimpleEscape(s[1]).Some? then Prepend(JsonSimpleEscape(s[1]).value, JsonUnescape(s[2..]))
      else if s[1] == 'u' && |s| >= 6 && Hex4(s[2..6]).Some? then Prepend(Hex4(s[2..6]).value, JsonUnescape(s[6..]))
      else None
    else if s[0] == '"' || s[0] < ' ' then None
    else Prepend(s[0], JsonUnescape(s[1..]))
  }

  function ParseJsonString(s: string): Option<string> {
    match Unquoted(s)
    case Some(inner) => JsonUnescape(inner)
    case None => None
  }

  lemma HexDigitValue(d: nat)
    requires d < 16
    ensures HexValue(HexDigits[d]) == Some(d)
  {
  }

  /** Four hex digits `00hl` spell the code point `16 * h + l`. */
  lemma Hex4Low(hi: nat, lo: nat)
    requires hi < 2 && lo < 16
    ensures Hex4(['0', '0', HexDigits[hi], HexDigits[lo]]) == Some((hi * 16 + lo) as char)
  {
    HexDigitValue(hi);
    HexDigitValue(lo);
  }

  /** A control character written as `\u00hl` is read back. */
  lemma JsonUnescapeControl(c: char, rest: string)
    requires c < ' ' && c != '\n' && c != '\r' && c != '\t' && c != '\U{08}' && c != '\U{0C}'
    ensures JsonUnescape(JsonEscapeChar(c) + rest) == Prepend(c, JsonUnescape(rest))
  {
    var hi, lo := c as int / 16, c as int % 16;
    Hex4Low(hi, lo);
    assert (hi * 16 + lo) as char == c;
    ControlEscapeShape(c, rest);
    JsonUnescapeHex(JsonEscapeChar(c) + rest, c, rest);
  }

  /** How a control character is written: `\u00` and its two hex digits. */
  lemma ControlEscapeShape(c: char, rest: string)
    requires c < ' ' && c != '\n' && c != '\r' && c != '\t' && c != '\U{08}' && c != '\U{0C}'
    ensures var s := JsonEscapeChar(c) + rest;
            && |s| >= 6 && s[0] == '\\' && s[1] == 'u'
            && s[2..6] == ['0', '0', HexDigits[c as int / 16], HexDigits[c as int % 16]]
            && s[6..] == rest
  {
    assert JsonEscapeChar(c) == "\\u00" + [HexDigits[c as int / 16], HexDigits[c as int % 16]];
  }

  /** A `\u` escape with four hex digits is read as the character they spell. */
  lemma JsonUnescapeHex(s: string, c: char, rest: string)
    requires |s| >= 6 && s[0] == '\\' && s[1] == 'u' && Hex4(s[2..6]) == Some(c) && s[6..] == rest
    ensures JsonUnescape(s) == Prepend(c, JsonUnescape(rest))
  {
    assert JsonSimpleEscape('u').None?;
  }

  /** A character written as a two-character escape is read back. */
  lemma JsonUnescapePair(c: char, rest: string)
    requires |JsonEscapeChar(c)| == 2
    ensures JsonUnescape(JsonEscapeChar(c) + rest) == Prepend(c, JsonUnescape(rest))
  {
    var s := JsonEscapeChar(c) + rest;
    assert s[2..] == rest;
  }

  /** A character written as itself is read back. */
  lemma JsonUnescapeSame(c: char, rest: string)
    requires ' ' <= c && c != '"' && c != '\\'
    ensures JsonUnescape(JsonEscapeChar(c) + rest) == Prepend(c, JsonUnescape(rest))
  {
    assert JsonEscapeChar(c) == [c];
    var s := [c] + rest;
    assert s[0] == c && s[1..] == rest;
  }

  /** Decoding undoes the escape of one character. */
  lemma JsonUnescapeChar(c: char, rest: string)
    ensures JsonUnescape(JsonEscapeChar(c) + rest) == Prepend(c, JsonUnescape(rest))
  {
    if c < ' ' && c != '\n' && c != '\r' && c != '\t' && c != '\U{08}' && c != '\U{0C}' {
      JsonUnescapeControl(c, rest);
    } else if c < ' ' || c == '"' || c == '\\' {
      JsonUnescapePair(c, rest);
    } else {
      JsonUnescapeSame(c, rest);
    }
  }

  /** The decoder reads back exactly what the encoder wrote. */
  lemma {:induction false} JsonRoundTrip(s: string)
    ensures JsonUnescape(JsonEscape(s)) == Some(s)
    decreases |s|
  {
    if s != [] {
      JsonUnescapeChar(s[0], JsonEscape(s[1..]));
      JsonRoundTrip(s[1..]);
      assert [s[0]] + s[1..] == s;
    }
  }

  /** How the property-list encoder writes one character of a string. */
  function PlistEscapeChar(c: char): string {
    if c == '&' then "&amp;" else if c == '<' then "&lt;" else if c == '>' then "&gt;" else [c]
  }

  function PlistEscape(s: string): string
    decreases |s|
  {
    if s == [] then [] else PlistEscapeChar(s[0]) + PlistEscape(s[1..])
  }

  /** The string element's text from the XML property list, with quotes then written `&quot;`. */
  function XmlEscape(s: string): string {
    ReplaceAll(PlistEscape(s), "\"", "&quot;")
  }

  function XmlEscapeChar(c: char): string {
    if c == '"' then "&quot;" else PlistEscapeChar(c)
  }

  /** The two passes of the XML escape amount to escaping character by character. */
  lemma {:induction false} XmlEscapeByChar(s: string)
    ensures XmlEscape(s) == if s == [] then [] else XmlEscapeChar(s[0]) + XmlEscape(s[1..])
  {
    if s != [] {
      var c := s[0];
      ReplaceAllAppendChar(PlistEscapeChar(c), PlistEscape(s[1..]), '"', "&quot;");
      if c == '"' {
        ReplaceAllHit("\"", [], "&quot;");
      } else {
        assert '"' !in PlistEscapeChar(c);
        NotContainsChar(PlistEscapeChar(c), "\"", 0);
        ReplaceAllAbsent(PlistEscapeChar(c), "\"", "&quot;");
      }
    }
  }

  /** An XML decoder for text: the four entities resolved, bare markup characters refused. */
  function XmlUnescape(s: string): Option<string>
    decreases |s|
  {
    if s == [] then Some([])
    else if s[0] == '&' then
      if StartsWith(s, "&amp;") then Prepend('&', XmlUnescape(s[5..]))
      else if StartsWith(s, "&lt;") then Prepend('<', XmlUnescape(s[4..]))
      else if StartsWith(s, "&gt;") then Prepend('>', XmlUnescape(s[4..]))
      else if StartsWith(s, "&quot;") then Prepend('"', XmlUnescape(s[6..]))
      else None
    else if s[0] == '<' || s[0] == '>' || s[0] == '"' then None
    else Prepend(s[0], XmlUnescape(s[1..]))
  }

  lemma XmlUnescapeChar(c: char, rest: string)
    ensures XmlUnescape(XmlEscapeChar(c) + rest) == Prepend(c, XmlUnescape(rest))
  {
    var e := XmlEscapeChar(c);
    var s := e + rest;
    assert s[..|e|] == e;
    assert s[|e|..] == rest;
    if c == '&' || c == '<' || c == '>' || c == '"' {
      assert s[0] == '&' && s[1] == e[1];
      if c != '&' {
        assert !StartsWith(s, "&amp;");
      }
      if c == '>' || c == '"' {
        assert !StartsWith(s, "&lt;");
      }
      if c == '"' {
        assert !StartsWith(s, "&gt;");
      }
    } else {
      assert s[1..] == rest;
    }
  }

  /** The XML decoder reads back exactly what the escape wrote. */
  lemma {:induction false} XmlRoundTrip(s: string)
    ensures XmlUnescape(XmlEscape(s)) == Some(s)
    decreases |s|
  {
    XmlEscapeByChar(s);
    if s != [] {
      XmlUnescapeChar(s[0], XmlEscape(s[1..]));
      XmlRoundTrip(s[1..]);
      assert [s[0]] + s[1..] == s;
    }
  }

  /** `escape(_:as:inQuotes:)` */
  function Escape(text: string, f: Format, inQuotes: bool): string {
    match f
    case Text => if inQuotes then Quoted(text) else text
    case Json => JsonString(text)
    case Xml => if inQuotes then Quoted(XmlEscape(text)) else XmlEscape(text)
  }

  /** Reading a value back from what `Escape` wrote for it. */
  function Unescape(written: string, f: Format, inQuotes: bool): Option<string> {
    var body := if inQuotes && f != Json then Unquoted(written) else Some(written);
    match body
    case None => None
    case Some(b) =>
      match f
      case Text => Some(b)
      case Json => ParseJsonString(b)
      case Xml => XmlUnescape(b)
  }

  /**
   * Every escaped value can be read back: text as written, JSON as a JSON
   * string (whose own quotes replace any quotes in the template) and XML as
   * entity-escaped text, quoted when asked.
   */
  lemma EscapeRoundTrip(text: string, f: Format, inQuotes: bool)
    ensures Unescape(Escape(text, f, inQuotes), f, inQuotes) == Some(text)
  {
    match f
    case Text =>
    case Json =>
      JsonRoundTrip(text);
    case Xml =>
      XmlRoundTrip(text);
  }

  // ---------------------------------------------------------------------------
  // Filling in a section
  // ---------------------------------------------------------------------------

  /** What `$type` becomes: the raw value of the license type, or `Unknown`. */
  function LicenseTypeName(t: Option<LicenseType>): string {
    match t
    case Some(t) => RawValue(t)
    case None => "Unknown"
  }

  /** Filling one placeholder: its quoted form first, then its bare form. */
  function Fill(s: string, placeholder: string, value: string, f: Format): string
    requires placeholder != []
  {
    ReplaceAll(ReplaceAll(s, Quoted(placeholder), Escape(value, f, true)), placeholder, Escape(value, f, false))
  }

  /** The section written out for one library: `$name`, then `$type`, then `$text`. */
  function Instantiate(section: string, library: Library, f: Format): string {
    var named := Fill(section, "$name", library.name, f);
    var typed := Fill(named, "$type", LicenseTypeName(library.licenseType), f);
    Fill(typed, "$text", library.licenseText, f)
  }

  /** No occurrence of `p` runs into a `y` that starts with a character `p` lacks. */
  lemma NoStraddleAt(x: string, y: string, p: string, c: char)
    requires c !in p && (y == [] || y[0] == c)
    ensures NoStraddle(x, y, p)
  {
    forall i | 0 <= i < |x| < i + |p| && i + |p| <= |x + y| ensures (x + y)[i..][..|p|] != p {
      assert (x + y)[i..][..|p|][|x| - i] == c;
      assert p[|x| - i] in p;
    }
  }

  /** A quoted value free of `p` is copied past unchanged when `p` is replaced. */
  lemma QuotedSkip(u: string, z: string, p: string, v: string)
    requires p != [] && '"' !in p && !Contains(u, p)
    ensures ReplaceAll(Quoted(u) + z, p, v) == Quoted(u) + ReplaceAll(z, p, v)
  {
    assert p[0] in p;
    var tail := ['"'] + z;
    assert Quoted(u) + z == ['"'] + (u + tail);
    ReplaceAllKeepsFirst(['"'] + (u + tail), p, v);
    assert (['"'] + (u + tail))[1..] == u + tail;
    NoStraddleAt(u, tail, p, '"');
    ReplaceAllAppend(u, tail, p, v);
    ReplaceAllAbsent(u, p, v);
    ReplaceAllKeepsFirst(tail, p, v);
    assert tail[1..] == z;
  }

  /** A quoted placeholder becomes the quoted value when the bare placeholder is replaced. */
  lemma QuotedHit(p: string, z: string, v: string)
    requires p != [] && '"' !in p
    ensures ReplaceAll(Quoted(p) + z, p, v) == Quoted(v) + ReplaceAll(z, p, v)
  {
    assert p[0] in p;
    var tail := ['"'] + z;
    assert Quoted(p) + z == ['"'] + (p + tail);
    ReplaceAllKeepsFirst(['"'] + (p + tail), p, v);
    assert (['"'] + (p + tail))[1..] == p + tail;
    ReplaceAllHit(p, tail, v);
    ReplaceAllKeepsFirst(tail, p, v);
    assert tail[1..] == z;
  }

  /** Cutting `x` before its first quote. */
  lemma {:induction false} CutAtQuote(x: string) returns (w: string, rest: string)
    ensures x == w + rest && '"' !in w && (rest == [] || rest[0] == '"')
    decreases |x|
  {
    if x == [] || x[0] == '"' {
      w, rest := [], x;
    } else {
      var w', rest' := CutAtQuote(x[1..]);
      w, rest := [x[0]] + w', rest';
    }
  }

  /**
   * Replacing `"p"` by `"v"` before replacing `p` by `v` makes no difference:
   * the quotes stay where they were.
   */
  lemma {:induction false} QuotedPlaceholder(x: string, p: string, v: string)
    requires p != [] && '"' !in p && !Contains(v, p)
    ensures ReplaceAll(ReplaceAll(x, Quoted(p), Quoted(v)), p, v) == ReplaceAll(x, p, v)
    decreases |x|, 1
  {
    var q, qv := Quoted(p), Quoted(v);
    var w, rest := CutAtQuote(x);
    ReplaceAllSkipFree(w, rest, q, qv);
    var y := ReplaceAll(rest, q, qv);
    QuotedPlaceholderAtQuote(rest, p, v);
    NoStraddleAt(w, rest, p, '"');
    ReplaceAllAppend(w, rest, p, v);
    NoStraddleAt(w, y, p, '"');
    ReplaceAllAppend(w, y, p, v);
  }

  /** The same, for a text that is empty or starts with a quote, which also survives. */
  lemma {:induction false} QuotedPlaceholderAtQuote(rest: string, p: string, v: string)
    requires p != [] && '"' !in p && !Contains(v, p)
    requires rest == [] || rest[0] == '"'
    ensures var y := ReplaceAll(rest, Quoted(p), Quoted(v));
            && (y == [] || y[0] == '"')
            && ReplaceAll(y, p, v) == ReplaceAll(rest, p, v)
    decreases |rest|, 0
  {
    var q, qv := Quoted(p), Quoted(v);
    var y := ReplaceAll(rest, q, qv);
    if rest == [] {
    } else if StartsWith(rest, q) {
      var r := rest[|q|..];
      assert rest == q + r;
      ReplaceAllHit(q, r, qv);
      QuotedSkip(v, ReplaceAll(r, q, qv), p, v);
      QuotedHit(p, r, v);
      QuotedPlaceholder(r, p, v);
    } else {
      var r := rest[1..];
      assert y == ['"'] + ReplaceAll(r, q, qv);
      assert p[0] in p;
      ReplaceAllKeepsFirst(y, p, v);
      assert y[1..] == ReplaceAll(r, q, qv);
      ReplaceAllKeepsFirst(rest, p, v);
      QuotedPlaceholder(r, p, v);
    }
  }

  // ---------------------------------------------------------------------------
  // Rendering
  // ---------------------------------------------------------------------------

  /** The section written out for each library, in order. */
  function Sections(section: string, libraries: seq<Library>, f: Format): (r: seq<string>)
    ensures |r| == |libraries|
    ensures forall i :: 0 <= i < |libraries| ==> r[i] == Instantiate(section, libraries[i], f)
  {
    seq(|libraries|, i requires 0 <= i < |libraries| => Instantiate(section, libraries[i], f))
  }

  /** The sections of two runs of libraries are those of the first run, then those of the second. */
  lemma SectionsAppend(section: string, xs: seq<Library>, ys: seq<Library>, f: Format)
    ensures Sections(section, xs + ys, f) == Sections(section, xs, f) + Sections(section, ys, f)
  {
    var l, r := Sections(section, xs + ys, f), Sections(section, xs, f) + Sections(section, ys, f);
    forall i | 0 <= i < |l| ensures l[i] == r[i] {
      if i < |xs| {
        assert (xs + ys)[i] == xs[i];
      } else {
        assert (xs + ys)[i] == ys[i - |xs|];
      }
    }
  }

  /** The libraries' sections joined by the separator. */
  function Body(parts: Parts, libraries: seq<Library>, f: Format): string {
    Join(Sections(parts.section, libraries, f), parts.separator)
  }

  /** `render(_:as:)` */
  function Render(t: string, libraries: seq<Library>, f: Format): Result<string, RenderError> {
    match SplitTemplate(t)
    case Err(e) => Err(e)
    case Ok(parts) => Ok(parts.header + Body(parts, libraries, f) + parts.footer)
  }

  /**
   * The body grows library by library: no libraries give nothing, one gives
   * its section, and each further one adds the separator and its section.
   */
  lemma BodyAppend(parts: Parts, libraries: seq<Library>, library: Library, f: Format)
    ensures Body(parts, [], f) == []
    ensures Body(parts, [library], f) == Instantiate(parts.section, library, f)
    ensures libraries != [] ==>
              Body(parts, libraries + [library], f) ==
              Body(parts, libraries, f) + parts.separator + Instantiate(parts.section, library, f)
  {
    var one := Sections(parts.section, [library], f);
    assert one == [Instantiate(parts.section, library, f)];
    if libraries != [] {
      var all := Sections(parts.section, libraries + [library], f);
      assert all == Sections(parts.section, libraries, f) + [Instantiate(parts.section, library, f)];
      JoinAppend(Sections(parts.section, libraries, f), Instantiate(parts.section, library, f), parts.separator);
    }
  }

  /** A template without markers is written out whole for every library, with nothing between. */
  lemma SplitWithoutMarkers(t: string)
    requires !Contains(t, "$start") && !Contains(t, "$end") && !Contains(t, "$separator")
    ensures SplitTemplate(t) == Ok(Parts([], t, [], []))
  {
    NotContainsSuffix(t, "\n$start", "$start");
    NotContainsSuffix(t, "\n$end", "$end");
    assert t[..0] == [] && t[0..|t|] == t && t[|t|..] == [];
  }

  /** Appending a part that lacks `$` and does not follow a line break with one keeps `\n$` out. */
  lemma NoNewlineDollarAppend(x: string, y: string)
    requires !Contains(x, "\n$") && !Contains(y, "\n$")
    requires x == [] || y == [] || x[|x| - 1] != '\n' || y[0] != '$'
    ensures !Contains(x + y, "\n$")
  {
    PairFreeAppend(x, y, '\n', '$');
  }

  /** No line break runs into a `$` in a laid-out template. */
  lemma LaidOutNoNewlineDollar(h: string, s: string, sep: string, f: string)
    requires MiddleOk(h) && MiddleOk(s) && MiddleOk(sep) && !Contains(f, "\n$")
    ensures !Contains(h + "$start" + s + "$separator" + sep + "$end" + f, "\n$")
  {
    PairFree("$start", '\n', '$');
    PairFree("$separator", '\n', '$');
    PairFree("$end", '\n', '$');
    var a := h + "$start";
    var b := a + s;
    var c := b + "$separator";
    var d := c + sep;
    var e := d + "$end";
    NoNewlineDollarAppend(h, "$start");
    NoNewlineDollarAppend(a, s);
    assert b[|b| - 1] != '\n' by {
      if s == [] { assert b == a; } else { assert b[|b| - 1] == s[|s| - 1]; }
    }
    NoNewlineDollarAppend(b, "$separator");
    NoNewlineDollarAppend(c, sep);
    assert d[|d| - 1] != '\n' by {
      if sep == [] { assert d == c; } else { assert d[|d| - 1] == sep[|sep| - 1]; }
    }
    NoNewlineDollarAppend(d, "$end");
    NoNewlineDollarAppend(e, f);
  }

  /** The same without `$separator`. */
  lemma LaidOutPlainNoNewlineDollar(h: string, s: string, f: string)
    requires MiddleOk(h) && MiddleOk(s) && !Contains(f, "\n$")
    ensures !Contains(h + "$start" + s + "$end" + f, "\n$")
  {
    PairFree("$start", '\n', '$');
    PairFree("$end", '\n', '$');
    var a := h + "$start";
    var b := a + s;
    NoNewlineDollarAppend(h, "$start");
    NoNewlineDollarAppend(a, s);
    assert b[|b| - 1] != '\n' by {
      if s == [] { assert b == a; } else { assert b[|b| - 1] == s[|s| - 1]; }
    }
    NoNewlineDollarAppend(b, "$end");
    NoNewlineDollarAppend(b + "$end", f);
  }

  /** With no `\n$` anywhere, the markers are found as they are written. */
  lemma StartAt(t: string, k: nat)
    requires !Contains(t, "\n$") && Find(t, "$start") == Some(k)
    ensures StartRange(t) == Range(k, k + 6)
  {
    NotContainsPrefix(t, "\n$start", "\n$");
  }

  lemma EndAt(t: string, k: nat)
    requires !Contains(t, "\n$") && Find(t, "$end") == Some(k)
    ensures EndRange(t) == Range(k, k + 4)
  {
    NotContainsPrefix(t, "\n$end", "\n$");
  }

  /** The parts of a template whose three ranges are known and in order. */
  lemma SplitAt(t: string, s0: nat, s1: nat, p0: nat, p1: nat, e0: nat, e1: nat)
    requires StartRange(t) == Range(s0, s1) && SeparatorRange(t) == Range(p0, p1) && EndRange(t) == Range(e0, e1)
    requires s1 <= p0 && p1 <= e0 <= e1 <= |t|
    ensures SplitTemplate(t) == Ok(Parts(t[..s0], t[s1..p0], t[p1..e0], t[e1..]))
  {
  }

  // The laid-out templates `h $start s $separator sep $end f` and `h $start s $end f`,
  // under the conditions that keep their markers where they are written.

  /** A part that no line break runs into a `$` in, and that does not end with a line break. */
  predicate MiddleOk(s: string) {
    !Contains(s, "\n$") && (s == [] || s[|s| - 1] != '\n')
  }

  /** A header: a middle part that holds none of the three markers. */
  predicate HeadOk(h: string) {
    MiddleOk(h) && !Contains(h, "$start") && !Contains(h, "$separator") && !Contains(h, "$end")
  }

  /**
   * What keeps the markers of `h $start s $separator sep $end f` where they
   * are written: no line break runs into a `$`, and no part before a marker
   * holds that marker.
   */
  predicate LaidOutOk(h: string, s: string, sep: string, f: string) {
    && HeadOk(h) && MiddleOk(s) && MiddleOk(sep) && !Contains(f, "\n$")
    && !Contains(s, "$separator") && !Contains(s, "$end") && !Contains(sep, "$end")
  }

  /** The same for `h $start s $end f`, where no `$separator` may appear at all. */
  predicate LaidOutPlainOk(h: string, s: string, f: string) {
    && HeadOk(h) && MiddleOk(s) && !Contains(f, "\n$")
    && !Contains(s, "$separator") && !Contains(s, "$end") && !Contains(f, "$separator")
  }

  function LaidOut(h: string, s: string, sep: string, f: string): string {
    h + "$start" + s + "$separator" + sep + "$end" + f
  }

  function LaidOutPlain(h: string, s: string, f: string): string {
    h + "$start" + s + "$end" + f
  }

  predicate IsMarker(m: string) {
    m == "$start" || m == "$separator" || m == "$end"
  }

  /** `$` begins every marker and appears nowhere else in it. */
  lemma MarkerLead(m: string)
    requires IsMarker(m)
    ensures m != [] && m[0] == '$' && '$' !in m[1..]
  {
  }

  /** A marker followed by text that lacks another marker does not hold that other marker. */
  lemma MarkerThen(m: string, s: string, p: string)
    requires IsMarker(m) && IsMarker(p) && m != p && !Contains(s, p)
    ensures !Contains(m + s, p)
  {
    MarkerLead(m);
    MarkerLead(p);
    // The third character tells the markers apart: `t`, `e` and `n`.
    assert m[2] != p[2];
    assert |p| <= |m| ==> m[..|p|][2] == m[2];
    assert |m| < |p| ==> p[..|m|][2] == p[2];
    NotContainsWhole(m, p);
    NoStraddleWhole(m, s, p);
    NotContainsAppend(m, s, p);
  }

  /** Text that lacks marker `p`, then another marker and more text without `p`, still lacks `p`. */
  lemma MarkerFreeAfter(a: string, m: string, s: string, p: string)
    requires IsMarker(m) && IsMarker(p) && m != p && !Contains(a, p) && !Contains(s, p)
    ensures !Contains(a + m + s, p)
  {
    MarkerThen(m, s, p);
    MarkerLead(m);
    MarkerLead(p);
    LeadNoStraddle(a, m + s, p);
    NotContainsAppend(a, m + s, p);
    assert a + m + s == a + (m + s);
  }

  /** A marker written after text that lacks it is the first one found. */
  lemma MarkerFoundAfter(a: string, p: string, rest: string)
    requires IsMarker(p) && !Contains(a, p)
    ensures Find(a + p + rest, p) == Some(|a|)
  {
    MarkerLead(p);
    var y := p + rest;
    assert StartsWith(y, p) by { assert y[..|p|] == p; }
    FindAfterLead(a, p, y);
    assert a + p + rest == a + y;
  }

  lemma LaidOutStart(h: string, s: string, sep: string, f: string)
    requires HeadOk(h) && MiddleOk(s) && MiddleOk(sep) && !Contains(f, "\n$")
    ensures StartRange(LaidOut(h, s, sep, f)) == Range(|h|, |h| + 6)
  {
    var rest := s + "$separator" + sep + "$end" + f;
    assert LaidOut(h, s, sep, f) == h + "$start" + rest;
    MarkerFoundAfter(h, "$start", rest);
    LaidOutNoNewlineDollar(h, s, sep, f);
    StartAt(LaidOut(h, s, sep, f), |h|);
  }

  lemma LaidOutSeparator(h: string, s: string, sep: string, f: string)
    requires !Contains(h, "$separator") && !Contains(s, "$separator")
    ensures SeparatorRange(LaidOut(h, s, sep, f)) == Range(|h| + 6 + |s|, |h| + 6 + |s| + 10)
  {
    var a := h + "$start" + s;
    var rest := sep + "$end" + f;
    assert LaidOut(h, s, sep, f) == a + "$separator" + rest;
    MarkerFreeAfter(h, "$start", s, "$separator");
    MarkerFoundAfter(a, "$separator", rest);
  }

  lemma LaidOutEnd(h: string, s: string, sep: string, f: string)
    requires HeadOk(h) && MiddleOk(s) && MiddleOk(sep) && !Contains(f, "\n$")
    requires !Contains(s, "$end") && !Contains(sep, "$end")
    ensures EndRange(LaidOut(h, s, sep, f)) == Range(|h| + 6 + |s| + 10 + |sep|, |h| + 6 + |s| + 10 + |sep| + 4)
  {
    var a := h + "$start" + s;
    var b := a + "$separator" + sep;
    assert LaidOut(h, s, sep, f) == b + "$end" + f;
    MarkerFreeAfter(h, "$start", s, "$end");
    MarkerFreeAfter(a, "$separator", sep, "$end");
    MarkerFoundAfter(b, "$end", f);
    LaidOutNoNewlineDollar(h, s, sep, f);
    EndAt(LaidOut(h, s, sep, f), |b|);
  }

  lemma LaidOutPlainStart(h: string, s: string, f: string)
    requires HeadOk(h) && MiddleOk(s) && !Contains(f, "\n$")
    ensures StartRange(LaidOutPlain(h, s, f)) == Range(|h|, |h| + 6)
  {
    var rest := s + "$end" + f;
    assert LaidOutPlain(h, s, f) == h + "$start" + rest;
    MarkerFoundAfter(h, "$start", rest);
    LaidOutPlainNoNewlineDollar(h, s, f);
    StartAt(LaidOutPlain(h, s, f), |h|);
  }

  lemma LaidOutPlainEnd(h: string, s: string, f: string)
    requires HeadOk(h) && MiddleOk(s) && !Contains(f, "\n$") && !Contains(s, "$end")
    ensures EndRange(LaidOutPlain(h, s, f)) == Range(|h| + 6 + |s|, |h| + 6 + |s| + 4)
  {
    var a := h + "$start" + s;
    assert LaidOutPlain(h, s, f) == a + "$end" + f;
    MarkerFreeAfter(h, "$start", s, "$end");
    MarkerFoundAfter(a, "$end", f);
    LaidOutPlainNoNewlineDollar(h, s, f);
    EndAt(LaidOutPlain(h, s, f), |a|);
  }

  lemma LaidOutPlainSeparator(h: string, s: string, f: string)
    requires HeadOk(h) && MiddleOk(s) && !Contains(f, "\n$") && !Contains(s, "$end")
    requires !Contains(s, "$separator") && !Contains(f, "$separator")
    ensures SeparatorRange(LaidOutPlain(h, s, f)) == Range(|h| + 6 + |s|, |h| + 6 + |s|)
  {
    var a := h + "$start" + s;
    MarkerFreeAfter(h, "$start", s, "$separator");
    MarkerFreeAfter(a, "$end", f, "$separator");
    assert LaidOutPlain(h, s, f) == a + "$end" + f;
    LaidOutPlainEnd(h, s, f);
  }

  lemma LaidOutSlices(h: string, s: string, sep: string, f: string)
    ensures var t, s1 := LaidOut(h, s, sep, f), |h| + 6;
            var b := s1 + |s|;
            var p1 := b + 10;
            var d := p1 + |sep|;
            && d + 4 <= |t|
            && t[..|h|] == h && t[s1..b] == s && t[p1..d] == sep && t[d + 4..] == f
  {
  }

  lemma LaidOutPlainSlices(h: string, s: string, f: string)
    ensures var t, s1 := LaidOutPlain(h, s, f), |h| + 6;
            var b := s1 + |s|;
            && b + 4 <= |t|
            && t[..|h|] == h && t[s1..b] == s && t[b..b] == [] && t[b + 4..] == f
  {
  }

  /**
   * A template laid out as header, `$start`, section, `$separator`,
   * separator, `$end` and footer splits into those four texts, provided no
   * line break runs into a `$` and no part before a marker holds that marker.
   */
  lemma SplitLaidOut(h: string, s: string, sep: string, f: string)
    requires LaidOutOk(h, s, sep, f)
    ensures SplitTemplate(LaidOut(h, s, sep, f)) == Ok(Parts(h, s, sep, f))
  {
    var s1: nat := |h| + 6;
    var b: nat := s1 + |s|;
    var p1: nat := b + 10;
    var d: nat := p1 + |sep|;
    var e1: nat := d + 4;
    LaidOutMarkers(h, s, sep, f, s1, b, p1, d, e1);
    LaidOutPieces(h, s, sep, f, s1, b, p1, d, e1);
    SplitInto(LaidOut(h, s, sep, f), |h|, s1, b, p1, d, e1, Parts(h, s, sep, f));
  }

  /** A header may hold the letters of the markers, as in `Third-party code: $start$name$separator, $end.` */
  lemma SplitLaidOutExample()
    ensures SplitTemplate(LaidOut("Third-party code: ", "$name", ", ", ".")) ==
            Ok(Parts("Third-party code: ", "$name", ", ", "."))
  {
    DollarFree("Third-party code: ");
    PairFree("$name", '\n', '$');
    PairFree(", ", '\n', '$');
    PairFree(".", '\n', '$');
    NotContainsShort("$name", "$separator");
    NotContainsChar("$name", "$end", 3);
    NotContainsChar(", ", "$end", 0);
    SplitLaidOut("Third-party code: ", "$name", ", ", ".");
  }

  /** Where the markers of a laid-out template are. */
  lemma LaidOutMarkers(h: string, s: string, sep: string, f: string, s1: nat, b: nat, p1: nat, d: nat, e1: nat)
    requires LaidOutOk(h, s, sep, f)
    requires s1 == |h| + 6 && b == s1 + |s| && p1 == b + 10 && d == p1 + |sep| && e1 == d + 4
    ensures var t := LaidOut(h, s, sep, f);
            StartRange(t) == Range(|h|, s1) && SeparatorRange(t) == Range(b, p1) && EndRange(t) == Range(d, e1)
  {
    LaidOutRanges(h, s, sep, f);
  }

  /** The texts between the markers of a laid-out template. */
  lemma LaidOutPieces(h: string, s: string, sep: string, f: string, s1: nat, b: nat, p1: nat, d: nat, e1: nat)
    requires s1 == |h| + 6 && b == s1 + |s| && p1 == b + 10 && d == p1 + |sep| && e1 == d + 4
    ensures var t := LaidOut(h, s, sep, f);
            && s1 <= b && p1 <= d <= e1 <= |t|
            && t[..|h|] == h && t[s1..b] == s && t[p1..d] == sep && t[e1..] == f
  {
    LaidOutSlices(h, s, sep, f);
  }

  lemma LaidOutRanges(h: string, s: string, sep: string, f: string)
    ensures LaidOutOk(h, s, sep, f) ==>
              var t, b := LaidOut(h, s, sep, f), |h| + 6 + |s|;
              && StartRange(t) == Range(|h|, |h| + 6)
              && SeparatorRange(t) == Range(b, b + 10)
              && EndRange(t) == Range(b + 10 + |sep|, b + 10 + |sep| + 4)
  {
    if LaidOutOk(h, s, sep, f) {
      LaidOutStart(h, s, sep, f);
      LaidOutSeparator(h, s, sep, f);
      LaidOutEnd(h, s, sep, f);
    }
  }

  /** The same for a template without `$separator`, whose separator is then empty. */
  lemma SplitLaidOutPlain(h: string, s: string, f: string)
    requires LaidOutPlainOk(h, s, f)
    ensures SplitTemplate(LaidOutPlain(h, s, f)) == Ok(Parts(h, s, [], f))
  {
    var s1: nat := |h| + 6;
    var b: nat := s1 + |s|;
    LaidOutPlainMarkers(h, s, f, s1, b);
    LaidOutPlainSlices(h, s, f);
    SplitInto(LaidOutPlain(h, s, f), |h|, s1, b, b, b, b + 4, Parts(h, s, [], f));
  }

  /** Where the three markers of `h $start s $end f` are found. */
  lemma LaidOutPlainMarkers(h: string, s: string, f: string, s1: nat, b: nat)
    requires LaidOutPlainOk(h, s, f)
    requires s1 == |h| + 6 && b == s1 + |s|
    ensures var t := LaidOutPlain(h, s, f);
            StartRange(t) == Range(|h|, s1) && SeparatorRange(t) == Range(b, b) && EndRange(t) == Range(b, b + 4)
  {
    LaidOutPlainStart(h, s, f);
    LaidOutPlainSeparator(h, s, f);
    LaidOutPlainEnd(h, s, f);
  }

  /** `SplitAt`, with the four parts given as the texts the slices hold. */
  lemma SplitInto(t: string, s0: nat, s1: nat, p0: nat, p1: nat, e0: nat, e1: nat, parts: Parts)
    requires StartRange(t) == Range(s0, s1) && SeparatorRange(t) == Range(p0, p1) && EndRange(t) == Range(e0, e1)
    requires s1 <= p0 && p1 <= e0 <= e1 <= |t|
    requires t[..s0] == parts.header && t[s1..p0] == parts.section
    requires t[p1..e0] == parts.separator && t[e1..] == parts.footer
    ensures SplitTemplate(t) == Ok(parts)
  {
    SplitAt(t, s0, s1, p0, p1, e0, e1);
  }

  /** The parts each default template is cut into. */
  function DefaultParts(f: Format): Parts {
    match f
    case Text => Parts([], TextTemplate, [], [])
    case Xml => Parts(XmlHead, XmlSection, [], XmlFoot)
    case Json => Parts(JsonHead, JsonSection, JsonSeparator, JsonFoot)
  }

  /** A piece of a default section: no `\n$` inside, no `d` or `o`, and not ending in a line break. */
  predicate SectionPieceOk(x: string) {
    x != [] && ('\n' !in x || '$' !in x) && 'd' !in x && 'o' !in x && x[|x| - 1] != '\n'
  }

  lemma PiecesOk(ps: seq<string>)
    requires ps != [] && forall i :: 0 <= i < |ps| ==> SectionPieceOk(ps[i])
    ensures MiddleOk(Concat(ps)) && !Contains(Concat(ps), "$separator") && !Contains(Concat(ps), "$end")
  {
    ConcatPairFree(ps, '\n', '$');
    ConcatLacks(ps, 'd');
    ConcatLacks(ps, 'o');
    ConcatLast(ps);
    MarkersByLetter(Concat(ps));
  }

  /** Text without `o` holds no `$separator`, and text without `d` no `$end`. */
  lemma MarkersByLetter(x: string)
    requires 'o' !in x && 'd' !in x
    ensures !Contains(x, "$separator") && !Contains(x, "$end")
  {
    NotContainsChar(x, "$separator", 8);
    NotContainsChar(x, "$end", 3);
  }


  // One lemma per piece keeps each check of a literal small.

  lemma XmlPiece0Ok()
    ensures SectionPieceOk(XmlSectionPieces[0])
  {
  }

  lemma XmlPiece1Ok()
    ensures SectionPieceOk(XmlSectionPieces[1])
  {
  }

  lemma XmlPiece2Ok()
    ensures SectionPieceOk(XmlSectionPieces[2])
  {
  }

  lemma XmlPiece3Ok()
    ensures SectionPieceOk(XmlSectionPieces[3])
  {
  }

  lemma XmlPiece4Ok()
    ensures SectionPieceOk(XmlSectionPieces[4])
  {
  }

  lemma XmlPiece5Ok()
    ensures SectionPieceOk(XmlSectionPieces[5])
  {
  }

  lemma XmlPiece6Ok()
    ensures SectionPieceOk(XmlSectionPieces[6])
  {
  }

  lemma XmlPiece7Ok()
    ensures SectionPieceOk(XmlSectionPieces[7])
  {
  }

  lemma XmlPiece8Ok()
    ensures SectionPieceOk(XmlSectionPieces[8])
  {
  }

  lemma JsonPiece0Ok()
    ensures SectionPieceOk(JsonSectionPieces[0])
  {
  }

  lemma JsonPiece1Ok()
    ensures SectionPieceOk(JsonSectionPieces[1])
  {
  }

  lemma JsonPiece2Ok()
    ensures SectionPieceOk(JsonSectionPieces[2])
  {
  }

  lemma JsonPiece3Ok()
    ensures SectionPieceOk(JsonSectionPieces[3])
  {
  }

  lemma JsonPiece4Ok()
    ensures SectionPieceOk(JsonSectionPieces[4])
  {
  }

  lemma JsonPiece5Ok()
    ensures SectionPieceOk(JsonSectionPieces[5])
  {
  }

  lemma JsonPiece6Ok()
    ensures SectionPieceOk(JsonSectionPieces[6])
  {
  }

  /** The XML section holds neither `$separator` (it has no `o`) nor `$end` (it has no `d`). */
  lemma XmlSectionOk()
    ensures MiddleOk(XmlSection) && !Contains(XmlSection, "$separator") && !Contains(XmlSection, "$end")
  {
    XmlPiece0Ok(); XmlPiece1Ok(); XmlPiece2Ok(); XmlPiece3Ok();
    XmlPiece4Ok(); XmlPiece5Ok(); XmlPiece6Ok(); XmlPiece7Ok(); XmlPiece8Ok();
    assert forall i :: 0 <= i < 9 ==> SectionPieceOk(XmlSectionPieces[i]);
    PiecesOk(XmlSectionPieces);
  }

  lemma JsonSectionOk()
    ensures MiddleOk(JsonSection) && !Contains(JsonSection, "$separator") && !Contains(JsonSection, "$end")
  {
    JsonPiece0Ok(); JsonPiece1Ok(); JsonPiece2Ok(); JsonPiece3Ok();
    JsonPiece4Ok(); JsonPiece5Ok(); JsonPiece6Ok();
    assert forall i :: 0 <= i < 7 ==> SectionPieceOk(JsonSectionPieces[i]);
    PiecesOk(JsonSectionPieces);
  }

  lemma SplitTextTemplate()
    ensures SplitTemplate(TextTemplate) == Ok(Parts([], TextTemplate, [], []))
  {
    assert 'r' !in TextTemplate && 'd' !in TextTemplate;
    NotContainsChar(TextTemplate, "$start", 4);
    NotContainsChar(TextTemplate, "$separator", 5);
    NotContainsChar(TextTemplate, "$end", 3);
    SplitWithoutMarkers(TextTemplate);
  }

  lemma SplitXmlTemplate()
    ensures SplitTemplate(XmlTemplate) == Ok(Parts(XmlHead, XmlSection, [], XmlFoot))
  {
    XmlSectionOk();
    XmlEndsOk();
    SplitLaidOutPlain(XmlHead, XmlSection, XmlFoot);
  }

  lemma XmlEndsOk()
    ensures HeadOk(XmlHead) && !Contains(XmlFoot, "\n$") && !Contains(XmlFoot, "$separator")
  {
    DollarFree(XmlHead);
    PairFree(XmlFoot, '\n', '$');
    NotContainsChar(XmlFoot, "$separator", 0);
  }

  lemma SplitJsonTemplate()
    ensures SplitTemplate(JsonTemplate) == Ok(Parts(JsonHead, JsonSection, JsonSeparator, JsonFoot))
  {
    JsonSectionOk();
    JsonEndsOk();
    SplitLaidOut(JsonHead, JsonSection, JsonSeparator, JsonFoot);
  }

  lemma JsonEndsOk()
    ensures HeadOk(JsonHead) && MiddleOk(JsonSeparator) && !Contains(JsonSeparator, "$end")
    ensures !Contains(JsonFoot, "\n$")
  {
    DollarFree(JsonHead);
    PairFree(JsonFoot, '\n', '$');
    PairFree(JsonSeparator, '\n', '$');
    NotContainsChar(JsonSeparator, "$end", 0);
  }

  /** A header without `$` that does not end with a line break is a header as `HeadOk` asks. */
  lemma DollarFree(h: string)
    requires '$' !in h && (h == [] || h[|h| - 1] != '\n')
    ensures HeadOk(h)
  {
    PairFree(h, '\n', '$');
    NotContainsChar(h, "$start", 0);
    NotContainsChar(h, "$separator", 0);
    NotContainsChar(h, "$end", 0);
  }

  /**
   * Each default template splits where its markers are written: the text
   * template has none and is one section, the XML template has no
   * separator, and the JSON template puts a comma between sections.
   */
  lemma SplitDefault(f: Format)
    ensures SplitTemplate(Default(f)) == Ok(DefaultParts(f))
  {
    match f {
      case Text => SplitTextTemplate();
      case Xml => SplitXmlTemplate();
      case Json => SplitJsonTemplate();
    }
  }

  // ---------------------------------------------------------------------------
  // Filling placeholders, and what the default templates write
  // ---------------------------------------------------------------------------

  /**
   * In text and XML, escaping in quotes only adds quotes, so a quoted
   * placeholder keeps its quotes around the value: filling is the same as
   * replacing the bare placeholder.
   */
  lemma FillQuotedKept(s: string, p: string, v: string, f: Format)
    requires f != Json && p != [] && '"' !in p && !Contains(Escape(v, f, false), p)
    ensures Fill(s, p, v, f) == ReplaceAll(s, p, Escape(v, f, false))
  {
    assert Escape(v, f, true) == Quoted(Escape(v, f, false));
    QuotedPlaceholder(s, p, Escape(v, f, false));
  }

  /**
   * In JSON a value is written as a quoted JSON string whether or not the
   * placeholder is quoted: the template's own quotes are dropped.
   */
  lemma FillJsonQuoted(p: string, v: string)
    requires p != [] && !Contains(JsonString(v), p)
    ensures Fill(Quoted(p), p, v, Json) == JsonString(v)
    ensures Fill(p, p, v, Json) == JsonString(v)
  {
    var w := JsonString(v);
    assert Quoted(p) + [] == Quoted(p) && p + [] == p && w + [] == w;
    ReplaceAllHit(Quoted(p), [], w);
    ReplaceAllAbsent(w, p, w);
    assert forall i :: 0 <= i <= |p| ==> !OccursAt(p, Quoted(p), i);
    ReplaceAllAbsent(p, Quoted(p), w);
    ReplaceAllHit(p, [], w);
  }

  /** Replacing a pattern found in neither half of a text that cannot straddle them changes nothing. */
  lemma ReplaceAllAbsentSplit(x: string, y: string, pat: string, rep: string)
    requires pat != [] && !Contains(x, pat) && !Contains(y, pat) && y != [] && y[0] !in pat
    ensures ReplaceAll(x + y, pat, rep) == x + y
  {
    NoStraddleAt(x, y, pat, y[0]);
    ReplaceAllAppend(x, y, pat, rep);
    ReplaceAllAbsent(x, pat, rep);
    ReplaceAllAbsent(y, pat, rep);
  }

  /** Filling a placeholder that opens a text template with no quotes in it. */
  lemma FillLeading(pat: string, y: string, v: string)
    requires pat != [] && '"' !in pat + y && !Contains(y, pat)
    ensures Fill(pat + y, pat, v, Text) == v + y
  {
    assert Quoted(pat)[0] == '"';
    NotContainsChar(pat + y, Quoted(pat), 0);
    ReplaceAllAbsent(pat + y, Quoted(pat), Quoted(v));
    ReplaceAllHit(pat, y, v);
    ReplaceAllAbsent(y, pat, v);
  }

  lemma TextTemplateName(n: string)
    ensures Fill(TextTemplate, "$name", n, Text) == n + TextRest
  {
    assert '"' !in TextTemplate && 'm' !in TextRest;
    NotContainsChar(TextRest, "$name", 3);
    FillLeading("$name", TextRest, n);
  }

  lemma TextTemplateType(n: string, tt: string)
    requires '$' !in n
    ensures Fill(n + TextRest, "$type", tt, Text) == n + TextRest
  {
    assert 'y' !in TextRest && TextRest[0] == '\n';
    NotContainsChar(n, Quoted("$type"), 1);
    NotContainsChar(TextRest, Quoted("$type"), 3);
    ReplaceAllAbsentSplit(n, TextRest, Quoted("$type"), Quoted(tt));
    NotContainsChar(n, "$type", 0);
    NotContainsChar(TextRest, "$type", 2);
    ReplaceAllAbsentSplit(n, TextRest, "$type", tt);
  }

  lemma TextTemplateText(n: string, t: string)
    requires '$' !in n
    ensures Fill(n + TextRest, "$text", t, Text) == n + "\n\n" + t + "\n\n"
  {
    assert '"' !in TextRest && TextRest[0] == '\n';
    NotContainsChar(n, Quoted("$text"), 1);
    NotContainsChar(TextRest, Quoted("$text"), 0);
    ReplaceAllAbsentSplit(n, TextRest, Quoted("$text"), Quoted(t));
    var x := n + "\n\n";
    assert n + TextRest == x + TextTail;
    ReplaceAllSkipFree(x, TextTail, "$text", t);
    ReplaceAllHit("$text", "\n\n", t);
    NotContainsChar("\n\n", "$text", 0);
    ReplaceAllAbsent("\n\n", "$text", t);
  }

  /**
   * The default text template writes a library as its name, a blank line,
   * its license text and a blank line, when the name holds no `$`.
   */
  lemma InstantiateText(library: Library)
    requires '$' !in library.name
    ensures Instantiate(TextTemplate, library, Text) == library.name + "\n\n" + library.licenseText + "\n\n"
  {
    TextTemplateName(library.name);
    TextTemplateType(library.name, LicenseTypeName(library.licenseType));
    TextTemplateText(library.name, library.licenseText);
  }

  /**
   * Rendering with the default text template writes each library in turn,
   * with nothing between them and nothing around them.
   */
  lemma RenderText(libraries: seq<Library>)
    requires forall i :: 0 <= i < |libraries| ==> '$' !in libraries[i].name
    ensures var r, sections := Render(TextTemplate, libraries, Text), Sections(TextTemplate, libraries, Text);
            && r == Ok(Concat(sections))
            && forall i :: 0 <= i < |libraries| ==>
                 sections[i] == libraries[i].name + "\n\n" + libraries[i].licenseText + "\n\n"
  {
    RenderTextJoined(libraries);
    var sections := Sections(TextTemplate, libraries, Text);
    forall i | 0 <= i < |libraries|
      ensures sections[i] == libraries[i].name + "\n\n" + libraries[i].licenseText + "\n\n"
    {
      InstantiateText(libraries[i]);
    }
  }

  lemma RenderTextJoined(libraries: seq<Library>)
    ensures Render(TextTemplate, libraries, Text) == Ok(Concat(Sections(TextTemplate, libraries, Text)))
  {
    var sections := Sections(TextTemplate, libraries, Text);
    SplitTextTemplate();
    JoinNoSeparator(sections);
    assert [] + Join(sections, []) + [] == Join(sections, []);
  }

  /**
   * Rendering with a default template writes its header, the libraries'
   * sections joined by its separator, and its footer: for JSON an array of
   * objects separated by commas, for XML a `<licenses>` element.
   */
  lemma RenderDefault(libraries: seq<Library>, f: Format)
    ensures var p := DefaultParts(f);
            Render(Default(f), libraries, f) ==
              Ok(p.header + Join(Sections(p.section, libraries, f), p.separator) + p.footer)
  {
    SplitDefault(f);
  }
}
