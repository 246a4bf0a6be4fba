/**
 * The specification pipeline of src/lib/perplexity.ts: the search-term split,
 * the ten "Label: value" field rules, the record builder with its derived
 * placeholder-image locator, the three-entry fallback catalog, and the
 * decision of `searchCarSpecs` between parsed data and the catalog.
 *
 * Regular expressions are modelled by what they do on these particular
 * patterns. A rule's label is a list of alternatives tried in the order the
 * backtracking engine tries them (an optional group `(?:X)?` becomes "with X"
 * followed by "without X"); each alternative is a list of tokens. A
 * whitespace token (`\s*`, `\s+`) is always followed by a literal that starts
 * with a letter, so taking the longest whitespace run is the only choice that
 * can succeed and no backtracking into it is needed. Case-insensitive
 * matching without the `u` flag folds ASCII letters only, which is what
 * `LiteralAt` compares.
 */
module Perplexity {
  import opened Wrappers
  import opened CarTypes
  import opened JsText

  // ---------------------------------------------------------------------------
  // The search term: /^(\w+)\s+(.+)$/
  // ---------------------------------------------------------------------------

  /**
   * `searchTerm.match(/^(\w+)\s+(.+)$/)`: the first word and the rest, or None.
   * The rest normally starts after the whole whitespace run; when nothing
   * follows that run, the engine gives back its last character to `.+`.
   */
  function SplitSearchTerm(term: string): (r: Option<(string, string)>)
    ensures r.Some? ==> r.value.0 != [] && r.value.1 != [] && AllIn(r.value.0, Word)
  {
    var w := Span(term, 0, Word);
    var j := Span(term, w, Space);
    if w == 0 || j == w then None
    else if j < |term| then
      if Span(term, j, NotLineTerminator) == |term| then Some((term[..w], term[j..])) else None
    else if j - w >= 2 && !IsLineTerminator(term[|term| - 1]) then Some((term[..w], term[|term| - 1..]))
    else None
  }

  /** `term[..w]` matches `\w+`, `term[w..j]` matches `\s+` and `term[j..]` matches `.+` up to the end. */
  ghost predicate RegexSplit(term: string, w: int, j: int) {
    && 0 < w < j < |term|
    && AllInRange(term, 0, w, Word)
    && AllInRange(term, w, j, Space)
    && AllInRange(term, j, |term|, NotLineTerminator)
  }

  /**
   * The split agrees with the regular expression: it succeeds exactly when some
   * word/whitespace/rest decomposition exists, and then it returns the one the
   * greedy engine picks (the only possible first word, and the shortest rest).
   */
  lemma SplitSearchTermMatchesRegex(term: string)
    ensures SplitSearchTerm(term).None? ==> forall w, j :: !RegexSplit(term, w, j)
    ensures SplitSearchTerm(term).Some? ==>
      var make := SplitSearchTerm(term).value.0;
      var model := SplitSearchTerm(term).value.1;
      && RegexSplit(term, |make|, |term| - |model|)
      && make == term[..|make|]
      && model == term[|term| - |model|..]
      && forall w, j :: RegexSplit(term, w, j) ==> w == |make| && j <= |term| - |model|
  {
    var w0 := Span(term, 0, Word);
    var j0 := Span(term, w0, Space);
    forall w, j | RegexSplit(term, w, j)
      ensures w == w0 && j <= j0
      ensures j0 < |term| ==> Span(term, j0, NotLineTerminator) == |term|
      ensures j0 == |term| ==> j0 - w0 >= 2 && !IsLineTerminator(term[|term| - 1])
    {
      assert InClass(term[w], Space) && !InClass(term[w], Word);
      SpanIsLongest(term, 0, w, Word);
      SpanIsLongest(term, w, j, Space);
      assert InClass(term[|term| - 1], NotLineTerminator);
      assert AllInRange(term, j0, |term|, NotLineTerminator);
      SpanIsLongest(term, j0, |term|, NotLineTerminator);
    }
  }

  // ---------------------------------------------------------------------------
  // Field rules
  // ---------------------------------------------------------------------------

  /** One piece of a label: a case-insensitive literal, or `\s+` / `\s*`. */
  datatype Token = Lit(text: string) | Spaces(atLeastOne: bool)

  /** What follows `:\s*`: `(\w+)`, `(\d+)`, `(\d{4})` or `([^\n]+)`. */
  datatype Capture = WordRun | DigitRun | FourDigits | RestOfLine

  /** A pattern `(?:label alternatives):\s*(capture)` with the `i` flag. */
  datatype Rule = Rule(labels: seq<seq<Token>>, capture: Capture)

  // /(?:Make|Brand):\s*(\w+)/i
  const MakeRule := Rule([[Lit("make")], [Lit("brand")]], WordRun)
  // /Model:\s*([^\n]+)/i
  const ModelRule := Rule([[Lit("model")]], RestOfLine)
  // /(?:Year|Model Year):\s*(\d{4})/i
  const YearRule := Rule([[Lit("year")], [Lit("model year")]], FourDigits)
  // /Engine(?:\s+Type)?:\s*([^\n]+)/i
  const EngineRule := Rule([[Lit("engine"), Spaces(true), Lit("type")], [Lit("engine")]], RestOfLine)
  // /(?:Horsepower|HP):\s*(\d+)/i
  const HorsepowerRule := Rule([[Lit("horsepower")], [Lit("hp")]], DigitRun)
  // /0-?60(?:\s*mph)?:\s*([^\n]+)/i
  const ZeroToSixtyRule := Rule([[Lit("0-60"), Spaces(false), Lit("mph")], [Lit("0-60")],
                                 [Lit("060"), Spaces(false), Lit("mph")], [Lit("060")]], RestOfLine)
  // /Fuel(?:\s+Type)?:\s*([^\n]+)/i
  const FuelRule := Rule([[Lit("fuel"), Spaces(true), Lit("type")], [Lit("fuel")]], RestOfLine)
  // /MPG:\s*([^\n]+)/i
  const MpgRule := Rule([[Lit("mpg")]], RestOfLine)
  // /Transmission:\s*([^\n]+)/i
  const TransmissionRule := Rule([[Lit("transmission")]], RestOfLine)
  // /(?:Drivetrain|Drive):\s*([^\n]+)/i
  const DrivetrainRule := Rule([[Lit("drivetrain")], [Lit("drive")]], RestOfLine)

  /** The end of one label alternative matched at `i`, if it matches there. */
  function MatchTokens(s: string, i: nat, tokens: seq<Token>): (r: Option<nat>)
    requires i <= |s|
    ensures r.Some? ==> i <= r.value <= |s|
    decreases |tokens|
  {
    if tokens == [] then Some(i)
    else match tokens[0]
      case Lit(text) =>
        if LiteralAt(s, i, text) then MatchTokens(s, i + |text|, tokens[1..]) else None
      case Spaces(atLeastOne) =>
        var j := Span(s, i, Space);
        if atLeastOne && j == i then None else MatchTokens(s, j, tokens[1..])
  }

  /** The last character of `s[lo..hi]` that is not a newline, if any. */
  function LastNotNewline(s: string, lo: nat, hi: nat): (r: Option<nat>)
    requires lo <= hi <= |s|
    ensures r.Some? ==> lo <= r.value < hi && s[r.value] != '\n'
                        && forall k :: r.value < k < hi ==> s[k] == '\n'
    ensures r.None? ==> forall k :: lo <= k < hi ==> s[k] == '\n'
    decreases hi
  {
    if lo == hi then None
    else if s[hi - 1] != '\n' then Some(hi - 1)
    else LastNotNewline(s, lo, hi - 1)
  }

  /** The characters a capture group takes. */
  function CaptureClass(capture: Capture): CharClass {
    match capture
    case WordRun => Word
    case DigitRun => Digit
    case FourDigits => Digit
    case RestOfLine => NotNewline
  }

  /** A run of `cls` that has reached `k` cannot be extended: the text ends there or holds another character. */
  predicate RunStopsAt(s: string, k: nat, cls: CharClass)
    requires k <= |s|
  {
    k == |s| || !InClass(s[k], cls)
  }

  /**
   * The raw group-1 text of `\s*(capture)` matched from `e`, or None when it
   * cannot match there. With `j` the end of the whitespace run after `e`:
   * the capture is the text at `j`, a whole word or digit run, four digits,
   * or the rest of the line. It fails exactly when no capture character
   * stands at `j`, or, for `[^\n]+`, when only newlines follow `e`. When
   * only whitespace but not only newlines follows `e`, the engine gives back
   * whitespace and `[^\n]+` takes the last character that is not a newline.
   */
  function CaptureAt(s: string, e: nat, capture: Capture): (r: Option<string>)
    requires e <= |s|
    ensures r.Some? ==> r.value != []
    ensures r.Some? && capture == WordRun ==> AllIn(r.value, Word)
    ensures r.Some? && capture == DigitRun ==> AllIn(r.value, Digit)
    ensures r.Some? && capture == FourDigits ==> |r.value| == 4 && AllIn(r.value, Digit)
    ensures r.Some? && capture == RestOfLine ==> AllIn(r.value, NotNewline)
    ensures var j := Span(s, e, Space);
            r.Some? && j < |s| ==>
              && j + |r.value| <= |s| && r.value == s[j..j + |r.value|]
              && (capture != FourDigits ==> RunStopsAt(s, j + |r.value|, CaptureClass(capture)))
    ensures var j := Span(s, e, Space);
            capture != RestOfLine ==>
              (r.None? <==> !(j + (if capture == FourDigits then 4 else 1) <= |s|
                              && AllInRange(s, j, j + (if capture == FourDigits then 4 else 1), CaptureClass(capture))))
    ensures var j := Span(s, e, Space);
            capture == RestOfLine ==> (r.None? <==> j == |s| && forall k :: e <= k < |s| ==> s[k] == '\n')
    ensures var j := Span(s, e, Space);
            r.Some? && j == |s| ==>
              && capture == RestOfLine && |r.value| == 1
              && exists k :: e <= k < j && r.value == [s[k]] && forall m :: k < m < j ==> s[m] == '\n'
  {
    var j := Span(s, e, Space);
    match capture
    case WordRun =>
      var k := Span(s, j, Word);
      if j < k then Some(s[j..k]) else None
    case DigitRun =>
      var k := Span(s, j, Digit);
      if j < k then Some(s[j..k]) else None
    case FourDigits =>
      if j + 4 <= |s| && AllInRange(s, j, j + 4, Digit) then Some(s[j..j + 4]) else None
    case RestOfLine =>
      if j < |s| then
        // s[j] is not whitespace, so `[^\n]+` takes it and the rest of its line.
        Some(s[j..Span(s, j, NotNewline)])
      else
        // Only whitespace follows: `\s*` gives characters back until `[^\n]+`
        // can take one, which is the last non-newline character.
        match LastNotNewline(s, e, j)
        case Some(k) => Some([s[k]])
        case None => None
  }

  /** One label alternative matched at `p`, followed by `:` and the capture. */
  function AltCapture(s: string, p: nat, tokens: seq<Token>, capture: Capture): Option<string>
    requires p <= |s|
  {
    var end := MatchTokens(s, p, tokens);
    if end.Some? && end.value < |s| && s[end.value] == ':' then CaptureAt(s, end.value + 1, capture) else None
  }

  /** The alternatives of `labels`, tried in order at `p`. */
  function MatchLabelsAt(s: string, p: nat, labels: seq<seq<Token>>, capture: Capture): Option<string>
    requires p <= |s|
    decreases |labels|
  {
    if labels == [] then None
    else
      var v := AltCapture(s, p, labels[0], capture);
      if v.Some? then v else MatchLabelsAt(s, p, labels[1..], capture)
  }

  /** The raw group 1 when `rule` matches starting exactly at `p`. */
  function MatchAt(s: string, p: nat, rule: Rule): Option<string>
    requires p <= |s|
  {
    MatchLabelsAt(s, p, rule.labels, rule.capture)
  }

  /**
   * A match at `p` is the capture of the first label alternative, in the
   * order the engine tries them, that is followed by `:` and a capture;
   * there is no match when no alternative is.
   */
  lemma {:induction false} MatchAtTriesAlternativesInOrder(s: string, p: nat, labels: seq<seq<Token>>, capture: Capture)
    requires p <= |s|
    ensures var r := MatchAt(s, p, Rule(labels, capture));
            r.Some? ==> exists i :: 0 <= i < |labels| && r == AltCapture(s, p, labels[i], capture)
                          && forall h :: 0 <= h < i ==> AltCapture(s, p, labels[h], capture).None?
    ensures var r := MatchAt(s, p, Rule(labels, capture));
            r.None? ==> forall i :: 0 <= i < |labels| ==> AltCapture(s, p, labels[i], capture).None?
    decreases |labels|
  {
    if labels != [] && AltCapture(s, p, labels[0], capture).None? {
      MatchAtTriesAlternativesInOrder(s, p, labels[1..], capture);
      assert forall i :: 1 <= i < |labels| ==> labels[i] == labels[1..][i - 1];
      var r := MatchAt(s, p, Rule(labels, capture));
      if r.Some? {
        var i :| 0 <= i < |labels[1..]| && r == AltCapture(s, p, labels[1..][i], capture)
                 && forall h :: 0 <= h < i ==> AltCapture(s, p, labels[1..][h], capture).None?;
        assert forall h :: 0 <= h < i + 1 ==> AltCapture(s, p, labels[h], capture).None?;
      }
    }
  }

  /** `rule` matches at `p` and at no earlier position: the match `String.prototype.match` reports. */
  ghost predicate Leftmost(s: string, rule: Rule, p: int) {
    && 0 <= p <= |s|
    && MatchAt(s, p, rule).Some?
    && forall q :: 0 <= q < p ==> MatchAt(s, q, rule).None?
  }

  /** `rule` matches nowhere in `s`. */
  ghost predicate NoMatch(s: string, rule: Rule) {
    forall p :: 0 <= p <= |s| ==> MatchAt(s, p, rule).None?
  }

  /** The leftmost position at or after `from` where `rule` matches. */
  function FirstMatchFrom(s: string, rule: Rule, from: nat): (r: Option<nat>)
    requires from <= |s|
    ensures r.Some? ==> from <= r.value <= |s| && MatchAt(s, r.value, rule).Some?
                        && forall q :: from <= q < r.value ==> MatchAt(s, q, rule).None?
    ensures r.None? ==> forall q :: from <= q <= |s| ==> MatchAt(s, q, rule).None?
    decreases |s| - from
  {
    if MatchAt(s, from, rule).Some? then Some(from)
    else if from == |s| then None
    else FirstMatchFrom(s, rule, from + 1)
  }

  /** The shape a non-blank capture of each kind has. */
  predicate CaptureShape(v: string, capture: Capture) {
    match capture
    case WordRun => AllIn(v, Word)
    case DigitRun => AllIn(v, Digit)
    case FourDigits => |v| == 4 && AllIn(v, Digit)
    case RestOfLine => AllIn(v, NotNewline)
  }

  /**
   * `extractFromContent`: the trimmed group 1 of the leftmost match, or None
   * when nothing matches or that capture trims to the empty string.
   */
  function ExtractFromContent(content: string, rule: Rule): (r: Option<string>)
    ensures r.Some? ==> exists p :: Leftmost(content, rule, p) && r.value == Trim(MatchAt(content, p, rule).value)
    ensures r.Some? ==> r.value != [] && !IsSpace(r.value[0]) && !IsSpace(r.value[|r.value| - 1])
    ensures r.Some? ==> CaptureShape(r.value, rule.capture)
    ensures r.None? <==> NoMatch(content, rule)
                         || exists p :: Leftmost(content, rule, p) && Trim(MatchAt(content, p, rule).value) == []
  {
    match FirstMatchFrom(content, rule, 0)
    case None => None
    case Some(p) =>
      assert Leftmost(content, rule, p);
      var raw := MatchAt(content, p, rule).value;
      var v := Trim(raw);
      LeftmostIsUnique(content, rule, p);
      MatchLabelsShape(content, p, rule.labels, rule.capture);
      CaptureShapeSurvivesTrim(raw, rule.capture);
      if v == [] then None else Some(v)
  }

  lemma LeftmostIsUnique(s: string, rule: Rule, p: int)
    requires Leftmost(s, rule, p)
    ensures forall q :: Leftmost(s, rule, q) ==> q == p
  {
  }

  lemma MatchLabelsShape(s: string, p: nat, labels: seq<seq<Token>>, capture: Capture)
    requires p <= |s|
    requires MatchLabelsAt(s, p, labels, capture).Some?
    ensures CaptureShape(MatchLabelsAt(s, p, labels, capture).value, capture)
    decreases |labels|
  {
    if labels != [] {
      var end := MatchTokens(s, p, labels[0]);
      if !(end.Some? && end.value < |s| && s[end.value] == ':' && CaptureAt(s, end.value + 1, capture).Some?) {
        MatchLabelsShape(s, p, labels[1..], capture);
      }
    }
  }

  lemma CaptureShapeSurvivesTrim(raw: string, capture: Capture)
    requires CaptureShape(raw, capture)
    ensures CaptureShape(Trim(raw), capture)
  {
    match capture
    case WordRun => TrimKeepsClass(raw, Word);
    case DigitRun => TrimKeepsClass(raw, Digit);
    case FourDigits =>
      assert !IsSpace(raw[0]) && !IsSpace(raw[3]);
    case RestOfLine => TrimKeepsClass(raw, NotNewline);
  }

  // ---------------------------------------------------------------------------
  // The placeholder image locator
  // ---------------------------------------------------------------------------

  const ImageBase := "https://picsum.photos/400/300?random="

  /** `encodeURIComponent(s).replace(/[^a-zA-Z0-9]/g, '')`: the random seed of the image locator. */
  function ImageSeed(s: string): (r: string)
    ensures IsAlnumString(r)
  {
    StripNonAlnum(EncodeUriComponent(s))
  }

  function PlaceholderImage(seedSource: string): (r: string)
    ensures r != []
  {
    ImageBase + ImageSeed(seedSource)
  }

  /** The two upper-case hexadecimal digits of each byte. */
  function HexPairs(bytes: seq<nat>): string
    requires forall i :: 0 <= i < |bytes| ==> bytes[i] < 256
  {
    if bytes == [] then [] else [HexDigit(bytes[0] / 16), HexDigit(bytes[0] % 16)] + HexPairs(bytes[1..])
  }

  /**
   * What one character contributes to the seed: itself when it is an ASCII
   * letter or digit, nothing when it is one of `-_.!~*'()`, and otherwise the
   * hexadecimal digits of its UTF-8 bytes, which survive the strip of `%`.
   */
  function SeedOfChar(c: char): string {
    if IsAlnum(c) then [c] else if IsUriUnreserved(c) then [] else HexPairs(Utf8(c))
  }

  function SeedByChar(s: string): string {
    if s == [] then [] else SeedOfChar(s[0]) + SeedByChar(s[1..])
  }

  lemma {:induction false} StripPercentEncoding(bytes: seq<nat>)
    requires forall i :: 0 <= i < |bytes| ==> bytes[i] < 256
    ensures StripNonAlnum(PercentEncode(bytes)) == HexPairs(bytes)
  {
    if bytes != [] {
      var head := ['%', HexDigit(bytes[0] / 16), HexDigit(bytes[0] % 16)];
      StripDistributes(head, PercentEncode(bytes[1..]));
      assert StripNonAlnum(head) == [HexDigit(bytes[0] / 16), HexDigit(bytes[0] % 16)] by {
        assert head[1..] == [HexDigit(bytes[0] / 16), HexDigit(bytes[0] % 16)];
        assert head[1..][1..] == [HexDigit(bytes[0] % 16)];
      }
      StripPercentEncoding(bytes[1..]);
    }
  }

  /** The seed, character by character: the strip after the encoding keeps exactly `SeedOfChar`. */
  lemma {:induction false} ImageSeedByChar(s: string)
    ensures ImageSeed(s) == SeedByChar(s)
  {
    if s != [] {
      StripDistributes(EncodeUriChar(s[0]), EncodeUriComponent(s[1..]));
      if !IsUriUnreserved(s[0]) {
        StripPercentEncoding(Utf8(s[0]));
      }
      ImageSeedByChar(s[1..]);
    }
  }

  /** ASCII letters and digits pass through both the encoding and the strip. */
  lemma {:induction false} SeedOfAlnumString(s: string)
    requires IsAlnumString(s)
    ensures EncodeUriComponent(s) == s
    ensures ImageSeed(s) == s
  {
    if s != [] {
      SeedOfAlnumString(s[1..]);
      assert [s[0]] + s[1..] == s;
    }
  }

  /** A space between two alphanumeric words leaves "20" in the seed. */
  lemma SeedAroundSpace(a: string, b: string)
    requires IsAlnumString(a) && IsAlnumString(b)
    ensures ImageSeed(a + " " + b) == a + "20" + b
  {
    SeedOfAlnumString(a);
    SeedOfAlnumString(b);
    EncodeDistributes(a + " ", b);
    EncodeDistributes(a, " ");
    SpaceEscape();
    StripDistributes(a + "%20", b);
    StripDistributes(a, "%20");
  }

  /** A space is encoded as "%20", and the strip leaves "20" of it. */
  lemma SpaceEscape()
    ensures EncodeUriComponent(" ") == "%20"
    ensures StripNonAlnum("%20") == "20"
  {
    assert Utf8(' ') == [32];
    assert PercentEncode([32]) == ['%', HexDigit(2), HexDigit(0)];
    assert EncodeUriChar(' ') == "%20";
    assert "%20"[1..] == "20";
    assert StripNonAlnum("%20"[1..]) == "20";
  }

  /**
   * The escape of a space leaves its hexadecimal digits in the seed: "3 Series"
   * gives "320Series". The string is a parameter fixed by the precondition, so
   * that the verifier does not unfold `ImageSeed` on the literal character by
   * character, which exhausts its resources.
   */
  lemma SeedKeepsEscapeDigits(model: string)
    requires model == "3 Series"
    ensures ImageSeed(model) == "320Series"
  {
    assert IsAlnumString("3") && IsAlnumString("Series");
    SeedAroundSpace("3", "Series");
    assert "3" + " " + "Series" == model;
  }

  // ---------------------------------------------------------------------------
  // The record builder: parseCarSpecsFromResponse
  // ---------------------------------------------------------------------------

  /** `extractFromContent(content, rule) || default` */
  function TextField(content: string, rule: Rule, default: string): (r: string)
    ensures ExtractFromContent(content, rule).Some? ==> r == ExtractFromContent(content, rule).value
    ensures ExtractFromContent(content, rule).None? ==> r == default
    ensures NoMatch(content, rule) ==> r == default
    ensures default != [] ==> r != []
  {
    ExtractFromContent(content, rule).GetOr(default)
  }

  /** The two numeric defaults, "2024" and "300", read back as numbers. */
  lemma NumericDefaults()
    ensures AllIn("2024", Digit) && ParseDigits("2024") == 2024
    ensures AllIn("300", Digit) && ParseDigits("300") == 300
  {
    assert forall k :: 0 <= k < 4 ==> "2024"[k] in "0123456789";
    assert forall k :: 0 <= k < 3 ==> "300"[k] in "0123456789";
    assert "2024"[..3] == "202" && "202"[..2] == "20" && "20"[..1] == "2";
    assert "300"[..2] == "30" && "30"[..1] == "3";
  }

  /**
   * `parseInt(extractFromContent(content, yearRule) || '2024')`: the value of
   * the four captured digits, so at most 9999, or 2024 when nothing is read.
   */
  function YearField(content: string): (year: nat)
    ensures var v := ExtractFromContent(content, YearRule);
            v.Some? ==> |v.value| == 4 && AllIn(v.value, Digit) && year == ParseDigits(v.value)
    ensures ExtractFromContent(content, YearRule).None? ==> year == 2024
    ensures year <= 9999
  {
    var text := ExtractFromContent(content, YearRule).GetOr("2024");
    NumericDefaults();
    assert Pow10(4) == 10000;
    ParseDigits(text)
  }

  /**
   * `parseInt(extractFromContent(content, horsepowerRule) || '300')`: the
   * value of the captured digit run, or 300 when nothing is read.
   */
  function HorsepowerField(content: string): (horsepower: nat)
    ensures var v := ExtractFromContent(content, HorsepowerRule);
            v.Some? ==> v.value != [] && AllIn(v.value, Digit) && horsepower == ParseDigits(v.value)
    ensures ExtractFromContent(content, HorsepowerRule).None? ==> horsepower == 300
  {
    var text := ExtractFromContent(content, HorsepowerRule).GetOr("300");
    NumericDefaults();
    ParseDigits(text)
  }

  /**
   * `parseCarSpecsFromResponse(content, searchTerm)`: make and model from the
   * search term when it splits, else from the answer, else their defaults;
   * every other field from its own rule, else its own default.
   */
  function ParseCarSpecsFromResponse(content: string, searchTerm: string): (r: CarSpec)
    ensures searchTerm != "" ==> Complete(r)
    ensures 0 <= r.year <= 9999
    ensures r.mpg.Some? && r.transmission.Some? && r.drivetrain.Some?
    ensures r.imageUrl == PlaceholderImage(r.make + r.model)
  {
    var split := SplitSearchTerm(searchTerm);
    var make := if split.Some? then split.value.0 else TextField(content, MakeRule, "Unknown");
    var model := if split.Some? then split.value.1 else TextField(content, ModelRule, searchTerm);
    CarSpec(make, model,
            YearField(content),
            TextField(content, EngineRule, "V6"),
            HorsepowerField(content),
            TextField(content, ZeroToSixtyRule, "6.0 seconds"),
            TextField(content, FuelRule, "Gasoline"),
            PlaceholderImage(make + model),
            Some(TextField(content, MpgRule, "25 combined")),
            Some(TextField(content, TransmissionRule, "Automatic")),
            Some(TextField(content, DrivetrainRule, "FWD")))
  }

  /** When the search term splits, it alone names the car, whatever the answer says. */
  lemma MakeModelFromSearchTerm(content: string, searchTerm: string, make: string, model: string)
    requires SplitSearchTerm(searchTerm) == Some((make, model))
    ensures ParseCarSpecsFromResponse(content, searchTerm).make == make
    ensures ParseCarSpecsFromResponse(content, searchTerm).model == model
  {
  }

  /**
   * Without a split, make and model are read from the answer; when nothing is
   * read (no label, or a blank capture) they fall back to "Unknown" and to
   * the raw search term.
   */
  lemma MakeModelFallback(content: string, searchTerm: string)
    requires SplitSearchTerm(searchTerm).None?
    ensures ExtractFromContent(content, MakeRule).None? ==> ParseCarSpecsFromResponse(content, searchTerm).make == "Unknown"
    ensures ExtractFromContent(content, ModelRule).None? ==> ParseCarSpecsFromResponse(content, searchTerm).model == searchTerm
    ensures ExtractFromContent(content, MakeRule).Some? ==>
              ParseCarSpecsFromResponse(content, searchTerm).make == ExtractFromContent(content, MakeRule).value
    ensures ExtractFromContent(content, ModelRule).Some? ==>
              ParseCarSpecsFromResponse(content, searchTerm).model == ExtractFromContent(content, ModelRule).value
  {
  }

  /**
   * A field the answer yields nothing for (no label, or a capture that trims
   * to blank) takes its own default, whatever happens to the other fields.
   */
  lemma MissingFieldsTakeDefaults(content: string, searchTerm: string)
    ensures var r := ParseCarSpecsFromResponse(content, searchTerm);
      && (ExtractFromContent(content, YearRule).None? ==> r.year == 2024)
      && (ExtractFromContent(content, EngineRule).None? ==> r.engineType == "V6")
      && (ExtractFromContent(content, HorsepowerRule).None? ==> r.horsepower == 300)
      && (ExtractFromContent(content, ZeroToSixtyRule).None? ==> r.zeroToSixty == "6.0 seconds")
      && (ExtractFromContent(content, FuelRule).None? ==> r.fuelType == "Gasoline")
      && (ExtractFromContent(content, MpgRule).None? ==> r.mpg == Some("25 combined"))
      && (ExtractFromContent(content, TransmissionRule).None? ==> r.transmission == Some("Automatic"))
      && (ExtractFromContent(content, DrivetrainRule).None? ==> r.drivetrain == Some("FWD"))
  {
  }

  /** A field the answer yields a value for holds that value; year and horsepower hold its decimal value. */
  lemma FoundFieldsAreRead(content: string, searchTerm: string)
    ensures var r := ParseCarSpecsFromResponse(content, searchTerm);
      && (var v := ExtractFromContent(content, YearRule); v.Some? ==> AllIn(v.value, Digit) && r.year == ParseDigits(v.value))
      && (var v := ExtractFromContent(content, EngineRule); v.Some? ==> r.engineType == v.value)
      && (var v := ExtractFromContent(content, HorsepowerRule);
            v.Some? ==> v.value != [] && AllIn(v.value, Digit) && r.horsepower == ParseDigits(v.value))
      && (var v := ExtractFromContent(content, ZeroToSixtyRule); v.Some? ==> r.zeroToSixty == v.value)
      && (var v := ExtractFromContent(content, FuelRule); v.Some? ==> r.fuelType == v.value)
      && (var v := ExtractFromContent(content, MpgRule); v.Some? ==> r.mpg == v)
      && (var v := ExtractFromContent(content, TransmissionRule); v.Some? ==> r.transmission == v)
      && (var v := ExtractFromContent(content, DrivetrainRule); v.Some? ==> r.drivetrain == v)
  {
  }

  /** Every alternative of `rule` opens with a literal of at least three characters whose first is `c`. */
  predicate OpensWith(rule: Rule, c: char) {
    forall i :: 0 <= i < |rule.labels| ==>
      && |rule.labels[i]| > 0
      && rule.labels[i][0].Lit?
      && |rule.labels[i][0].text| >= 3
      && rule.labels[i][0].text[0] == c
  }

  lemma {:induction false} NoLabelAlternativeAt(s: string, p: nat, labels: seq<seq<Token>>, capture: Capture, c: char)
    requires p <= |s|
    requires OpensWith(Rule(labels, capture), c)
    requires p + 3 <= |s| ==> LowerChar(s[p]) != c
    ensures MatchLabelsAt(s, p, labels, capture).None?
    decreases |labels|
  {
    if labels != [] {
      var text := labels[0][0].text;
      if p + |text| <= |s| {
        assert ToLowerAscii(s[p..p + |text|])[0] == LowerChar(s[p]);
      }
      assert !LiteralAt(s, p, text);
      assert OpensWith(Rule(labels[1..], capture), c) by {
        forall i | 0 <= i < |labels[1..]| ensures labels[1..][i] == labels[i + 1] { }
      }
      NoLabelAlternativeAt(s, p, labels[1..], capture, c);
    }
  }

  /** A rule whose labels all open with `c` cannot match text with no `c` early enough to start a label. */
  lemma AbsentLeadMeansNoMatch(s: string, rule: Rule, c: char)
    requires OpensWith(rule, c)
    requires forall p :: 0 <= p && p + 3 <= |s| ==> LowerChar(s[p]) != c
    ensures NoMatch(s, rule)
  {
    forall p | 0 <= p <= |s|
      ensures MatchAt(s, p, rule).None?
    {
      NoLabelAlternativeAt(s, p, rule.labels, rule.capture, c);
    }
  }

  /** "Horsepower: 410" matches the horsepower rule at its very start and captures "410". */
  lemma HorsepowerLabelAtStart(content: string)
    requires content == "Horsepower: 410"
    ensures MatchAt(content, 0, HorsepowerRule) == Some("410")
  {
    assert LiteralAt(content, 0, "horsepower") by {
      assert content[0..10] == "Horsepower";
    }
    assert MatchTokens(content, 0, [Lit("horsepower")]) == Some(10);
    assert Span(content, 11, Space) == 12 by {
      assert IsSpace(content[11]) && !IsSpace(content[12]);
    }
    assert Span(content, 12, Digit) == 15 by {
      assert Span(content, 15, Digit) == 15;
      assert Span(content, 14, Digit) == 15;
      assert Span(content, 13, Digit) == 15;
    }
    assert content[12..15] == "410";
    assert CaptureAt(content, 11, DigitRun) == Some("410");
    assert content[10] == ':';
  }

  /** "Horsepower: 410" reads as 410 hp. */
  lemma HorsepowerOnlyAnswer(content: string)
    requires content == "Horsepower: 410"
    ensures HorsepowerField(content) == 410
  {
    HorsepowerLabelAtStart(content);
    assert FirstMatchFrom(content, HorsepowerRule, 0) == Some(0);
    assert ExtractFromContent(content, HorsepowerRule) == Some("410") by {
      assert Trim("410") == "410";
    }
    assert ParseDigits("410") == 410 by {
      assert AllIn("410", Digit);
      assert "410"[..2] == "41" && "41"[..1] == "4";
    }
  }

  /** "Horsepower: 410" carries no 0-60 label: its only '0' is too close to the end to start one. */
  lemma NoZeroToSixtyIn410(content: string)
    requires content == "Horsepower: 410"
    ensures NoMatch(content, ZeroToSixtyRule)
  {
    assert forall p :: 0 <= p && p + 3 <= |content| ==> LowerChar(content[p]) != '0';
    AbsentLeadMeansNoMatch(content, ZeroToSixtyRule, '0');
  }

  /**
   * An answer reading "Horsepower: 410" and nothing else yields 410 hp and
   * keeps the default 0-60 time.
   */
  lemma HorsepowerWithoutZeroToSixty(content: string, searchTerm: string)
    requires content == "Horsepower: 410"
    ensures ParseCarSpecsFromResponse(content, searchTerm).horsepower == 410
    ensures ParseCarSpecsFromResponse(content, searchTerm).zeroToSixty == "6.0 seconds"
  {
    HorsepowerOnlyAnswer(content);
    NoZeroToSixtyIn410(content);
    MissingFieldsTakeDefaults(content, searchTerm);
  }

  // ---------------------------------------------------------------------------
  // The fallback catalog: getPlaceholderData
  // ---------------------------------------------------------------------------

  const Catalog: map<string, CarSpec> := map[
    "toyota camry" := CarSpec("Toyota", "Camry", 2024, "2.5L 4-Cylinder", 203, "8.4 seconds", "Gasoline",
                              "https://picsum.photos/400/300?random=ToyotaCamry",
                              Some("32 combined"), Some("8-Speed Automatic"), Some("FWD")),
    "honda civic" := CarSpec("Honda", "Civic", 2024, "2.0L 4-Cylinder", 158, "8.2 seconds", "Gasoline",
                             "https://picsum.photos/400/300?random=HondaCivic",
                             Some("35 combined"), Some("CVT"), Some("FWD")),
    "bmw 3 series" := CarSpec("BMW", "3 Series", 2024, "2.0L Turbo 4-Cylinder", 255, "5.6 seconds", "Gasoline",
                              "https://picsum.photos/400/300?random=BMW3Series",
                              Some("30 combined"), Some("8-Speed Automatic"), Some("RWD"))
  ]

  /** The record synthesised for a model the catalog does not know. */
  function UnknownRecord(carModel: string): CarSpec {
    CarSpec("Unknown", carModel, 2024, "Unknown", 0, "Unknown", "Unknown",
            PlaceholderImage(carModel), Some("Unknown"), Some("Unknown"), Some("Unknown"))
  }

  /** `getPlaceholderData`: the catalog entry for the lower-cased model, or the "Unknown" record. */
  function GetPlaceholderData(carModel: string): (r: CarSpec)
    ensures ToLowerAscii(carModel) in Catalog ==> r == Catalog[ToLowerAscii(carModel)]
    ensures r.horsepower == 0 <==> ToLowerAscii(carModel) !in Catalog
    ensures r.make == "Unknown" <==> ToLowerAscii(carModel) !in Catalog
    ensures r.year == 2024
    ensures carModel != "" ==> Complete(r)
  {
    var key := ToLowerAscii(carModel);
    if key in Catalog then Catalog[key] else UnknownRecord(carModel)
  }

  /** Two spellings that lower-case to the same catalog key give the same record. */
  lemma CasingIsIgnored(a: string, b: string)
    requires ToLowerAscii(a) == ToLowerAscii(b) && ToLowerAscii(a) in Catalog
    ensures GetPlaceholderData(a) == GetPlaceholderData(b)
  {
  }

  /** Any casing of "Honda Civic" finds the Civic entry. */
  lemma AnyCasingOfHondaCivic(carModel: string)
    requires ToLowerAscii(carModel) == "honda civic"
    ensures var r := GetPlaceholderData(carModel);
      r.make == "Honda" && r.model == "Civic" && r.year == 2024 && r.horsepower == 158 && r.drivetrain == Some("FWD")
  {
  }

  /** A miss keeps the caller's spelling as the model and seeds the image from the input alone. */
  lemma CatalogMiss(carModel: string)
    requires ToLowerAscii(carModel) !in Catalog
    ensures var r := GetPlaceholderData(carModel);
      && r.make == "Unknown" && r.model == carModel && r.year == 2024 && r.horsepower == 0
      && r.engineType == "Unknown" && r.zeroToSixty == "Unknown" && r.fuelType == "Unknown"
      && r.mpg == Some("Unknown") && r.transmission == Some("Unknown") && r.drivetrain == Some("Unknown")
      && r.imageUrl == PlaceholderImage(carModel)
  {
  }

  /**
   * Lookup is exact: a trim level after the name misses. The two spellings are
   * parameters fixed by the precondition, so that the verifier does not unfold
   * the lookup on the literals, which exhausts its resources.
   */
  lemma TrimLevelMisses(withTrim: string, shouted: string)
    requires withTrim == "Toyota Camry LE" && shouted == "TOYOTA CAMRY"
    ensures GetPlaceholderData(withTrim).horsepower == 0
    ensures GetPlaceholderData(shouted).horsepower == 203
  {
    assert ToLowerAscii(withTrim) == "toyota camry le";
    assert ToLowerAscii(shouted) == "toyota camry";
  }

  /**
   * The Toyota and Honda entries carry the seed the record builder would
   * derive from their make and model.
   */
  lemma CatalogSeedsAgreeWithDerivedSeeds()
    ensures var toyota := Catalog["toyota camry"];
      toyota.imageUrl == PlaceholderImage(toyota.make + toyota.model)
    ensures var honda := Catalog["honda civic"];
      honda.imageUrl == PlaceholderImage(honda.make + honda.model)
  {
    AlnumEntrySeed(Catalog["toyota camry"]);
    AlnumEntrySeed(Catalog["honda civic"]);
  }

  /** An entry whose make and model are plain letters and digits has the derived seed. */
  lemma AlnumEntrySeed(entry: CarSpec)
    requires entry.imageUrl == ImageBase + entry.make + entry.model
    requires IsAlnumString(entry.make + entry.model)
    ensures entry.imageUrl == PlaceholderImage(entry.make + entry.model)
  {
    SeedOfAlnumString(entry.make + entry.model);
  }

  /** The BMW entry's hand-written seed "BMW3Series" is not the derived "BMW320Series". */
  lemma BmwCatalogSeedDiffers()
    ensures var bmw := Catalog["bmw 3 series"];
      bmw.imageUrl != PlaceholderImage(bmw.make + bmw.model)
  {
    var bmw := Catalog["bmw 3 series"];
    var word, rest := bmw.make + bmw.model[..1], bmw.model[2..];
    assert word == "BMW3" && rest == "Series";
    assert IsAlnumString(word) && IsAlnumString(rest);
    SeedAroundSpace(word, rest);
    assert bmw.make + bmw.model == word + " " + rest;
    assert |PlaceholderImage(bmw.make + bmw.model)| == |ImageBase| + 12;
  }

  // ---------------------------------------------------------------------------
  // searchCarSpecs
  // ---------------------------------------------------------------------------

  /**
   * What the provider call came to: no API key configured; a failed request
   * (thrown fetch, non-ok status, unreadable body, no `choices[0].message.content`);
   * or an answer with its content text.
   */
  datatype Upstream = NoApiKey | RequestFailed | Answered(content: string)

  /** `searchCarSpecs`: every upstream failure, and an empty answer, falls back to the catalog. */
  function SearchCarSpecs(carModel: string, upstream: Upstream): (r: Option<CarSpec>)
    ensures r.Some?
    ensures (upstream.NoApiKey? || upstream.RequestFailed? || upstream == Answered(""))
            ==> r == Some(GetPlaceholderData(carModel))
    ensures upstream.Answered? && upstream.content != ""
            ==> r == Some(ParseCarSpecsFromResponse(upstream.content, carModel))
    ensures carModel != "" ==> Complete(r.value)
  {
    match upstream
    case NoApiKey => Some(GetPlaceholderData(carModel))
    case RequestFailed => Some(GetPlaceholderData(carModel))
    case Answered(content) =>
      if content == "" then Some(GetPlaceholderData(carModel))
      else Some(ParseCarSpecsFromResponse(content, carModel))
  }

  /** With no API key, "Honda Civic" comes back as the catalog's Civic. */
  lemma HondaCivicWithoutApiKey()
    ensures var r := SearchCarSpecs("Honda Civic", NoApiKey).value;
      r.make == "Honda" && r.model == "Civic" && r.year == 2024 && r.horsepower == 158 && r.drivetrain == Some("FWD")
  {
    assert ToLowerAscii("Honda Civic") == "honda civic";
    AnyCasingOfHondaCivic("Honda Civic");
  }
}
