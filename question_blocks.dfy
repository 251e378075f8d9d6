/**
 * What the two question loaders share: the header/body pairs of the split
 * markdown, the intro and outro fields, the header attributes with their
 * defaults, and the reading of a question body into its text, its options
 * and its placeholder.
 */
module QuestionBlocks {
  import opened Wrappers
  import opened Decimal
  import opened Seqs
  import opened JsStrings
  import opened Patterns

  // ---------------------------------------------------------------------
  // Header/body pairs
  // ---------------------------------------------------------------------

  /**
   * One header/body pair as the loop sees it at an odd index `i`:
   * `ordinal` is `(i - 1) / 2`, the header and the body are trimmed.
   */
  datatype Section = Section(ordinal: nat, header: string, body: string)

  /** `parts[j] ?? ""` */
  function PartOrEmpty(parts: seq<string>, j: nat): string {
    if j < |parts| then parts[j] else ""
  }

  /** The k-th pair, read at index `i = 2k + 1`: `parts[i].trim()` and `(parts[i + 1] ?? "").trim()`. */
  function SectionAt(parts: seq<string>, k: nat): Section
    requires 2 * k + 1 < |parts|
  {
    Section(k, Trim(parts[2 * k + 1]), Trim(PartOrEmpty(parts, 2 * k + 2)))
  }

  /** What the loop reads at `i = 2k + 1` is the k-th pair, with `(i - 1) / 2` as its ordinal. */
  lemma SectionRead(parts: seq<string>, k: nat, i: nat)
    requires i == 2 * k + 1 && i < |parts|
    ensures (i - 1) / 2 == k
    ensures SectionAt(parts, k) == Section(k, Trim(parts[i]), Trim(PartOrEmpty(parts, i + 1)))
  {
    HalfOfOdd(i, k);
  }

  lemma HalfOfOdd(i: nat, k: nat)
    requires i == 2 * k + 1
    ensures (i - 1) / 2 == k
  {
  }

  /** The pairs at indices 1, 3, 5, … in order. */
  function Sections(parts: seq<string>): (secs: seq<Section>)
    ensures |secs| == |parts| / 2
  {
    seq(|parts| / 2, k requires 0 <= k < |parts| / 2 => SectionAt(parts, k))
  }

  /**
   * On a split text the pairs are exactly the comment captures, each with
   * the text piece after it: the `?? ""` fallback never applies, every
   * header is a trimmed capture, the k-th pair has ordinal k, and the pieces
   * and captures rebuild the text.
   */
  lemma SectionsOfSplit(src: string)
    ensures Rejoin(SplitComments(src)) == src
    ensures forall k :: 0 <= k < |Sections(SplitComments(src))| ==>
      && 2 * k + 2 < |SplitComments(src)|
      && Sections(SplitComments(src))[k].ordinal == k
      && Sections(SplitComments(src))[k].header == Trim(SplitComments(src)[2 * k + 1])
      && Sections(SplitComments(src))[k].body == Trim(SplitComments(src)[2 * k + 2])
      && '>' !in Sections(SplitComments(src))[k].header
  {
    SplitRejoin(src);
    SplitCaptures(src);
    SectionsOfParts(SplitComments(src));
  }

  lemma SectionsOfParts(parts: seq<string>)
    requires |parts| % 2 == 1
    requires forall j :: 0 <= j && 2 * j + 1 < |parts| ==> '>' !in parts[2 * j + 1]
    ensures forall k :: 0 <= k < |Sections(parts)| ==>
      && 2 * k + 2 < |parts|
      && Sections(parts)[k].ordinal == k
      && Sections(parts)[k].header == Trim(parts[2 * k + 1])
      && Sections(parts)[k].body == Trim(parts[2 * k + 2])
      && '>' !in Sections(parts)[k].header
  {
    var secs := Sections(parts);
    forall k | 0 <= k < |secs|
      ensures 2 * k + 2 < |parts| && secs[k].ordinal == k
      ensures secs[k].header == Trim(parts[2 * k + 1]) && secs[k].body == Trim(parts[2 * k + 2])
      ensures '>' !in secs[k].header
    {
      assert secs[k] == SectionAt(parts, k);
      TrimWithin(parts[2 * k + 1], '>');
    }
  }

  /** The body of the last pair whose header is `name`, or "" when there is none. */
  function LastBody(secs: seq<Section>, name: string): string {
    if secs == [] then ""
    else if secs[|secs| - 1].header == name then secs[|secs| - 1].body
    else LastBody(secs[..|secs| - 1], name)
  }

  /** The last pair headed `name` decides, whatever came before it. */
  lemma {:induction false} LastBodyIsLast(secs: seq<Section>, name: string, k: nat)
    requires k < |secs| && secs[k].header == name
    requires forall j :: k < j < |secs| ==> secs[j].header != name
    ensures LastBody(secs, name) == secs[k].body
  {
    if k < |secs| - 1 {
      LastBodyIsLast(secs[..|secs| - 1], name, k);
    }
  }

  /** Without a pair headed `name` the field keeps its initial "". */
  lemma {:induction false} LastBodyAbsent(secs: seq<Section>, name: string)
    requires forall j :: 0 <= j < |secs| ==> secs[j].header != name
    ensures LastBody(secs, name) == ""
  {
    if secs != [] {
      LastBodyAbsent(secs[..|secs| - 1], name);
    }
  }

  /** One more pair read: it replaces the field when its header is `name`. */
  lemma LastBodyStep(secs: seq<Section>, name: string, k: nat)
    requires k < |secs|
    ensures LastBody(secs[..k + 1], name) == if secs[k].header == name then secs[k].body else LastBody(secs[..k], name)
  {
    assert secs[..k + 1][..k] == secs[..k];
  }

  /** A header that opens a question: `header.startsWith("question")`. */
  predicate IsQuestion(sec: Section) {
    StartsWith(sec.header, "question")
  }

  // ---------------------------------------------------------------------
  // Header attributes
  // ---------------------------------------------------------------------

  /** The id a question without an `id` attribute gets: "q" and its ordinal. */
  function DefaultId(k: nat): string {
    "q" + NatToDigits(k)
  }

  /** Default ids of different pairs differ. */
  lemma DefaultIdsDistinct(k: nat, k': nat)
    requires k != k'
    ensures DefaultId(k) != DefaultId(k')
  {
    if DefaultId(k) == DefaultId(k') {
      assert NatToDigits(k) == DefaultId(k)[1..];
      DigitsRoundTrip(k);
      DigitsRoundTrip(k');
    }
  }

  /** `(header.match(/id="([^"]+)"/) ?? [])[1] ?? \`q${(i - 1) / 2}\`` */
  function IdOf(sec: Section): string {
    MatchAttr(sec.header, "id=\"", false).GetOr(DefaultId(sec.ordinal))
  }

  /** `(header.match(/type="([^"]+)"/) ?? [])[1] ?? "radio"` */
  function KindOf(sec: Section): string {
    MatchAttr(sec.header, "type=\"", false).GetOr("radio")
  }

  /**
   * The id is the value of the leftmost `id="…"` in the header, a non-empty
   * text without quotes; a header without one gets the default id of its
   * ordinal. The type is likewise the leftmost `type="…"` value, or "radio".
   */
  lemma IdAndKind(sec: Section)
    ensures MatchAttr(sec.header, "id=\"", false).None? ==> IdOf(sec) == DefaultId(sec.ordinal)
    ensures MatchAttr(sec.header, "id=\"", false).Some? ==>
      exists q :: LeftmostAttr(sec.header, "id=\"", false, q) && AttrAt(sec.header, "id=\"", false, q) == Some(IdOf(sec))
    ensures MatchAttr(sec.header, "id=\"", false).Some? ==> IdOf(sec) != "" && '"' !in IdOf(sec)
    ensures MatchAttr(sec.header, "type=\"", false).None? ==> KindOf(sec) == "radio"
    ensures MatchAttr(sec.header, "type=\"", false).Some? ==>
      exists q :: LeftmostAttr(sec.header, "type=\"", false, q) && AttrAt(sec.header, "type=\"", false, q) == Some(KindOf(sec))
  {
    var m := MatchAttr(sec.header, "id=\"", false);
    if m.Some? {
      assert forall j :: 0 <= j < |m.value| ==> m.value[j] != '"';
    }
  }

  /**
   * A question header with `id="v"` after a text in which no earlier `id="`
   * starts (one without quotes, say) yields the id "v".
   */
  lemma IdWritten(pre: string, v: string, rest: string, ordinal: nat, body: string)
    requires v != "" && '"' !in v
    requires NoEarlierLit("question" + pre, "id=\"")
    ensures IsQuestion(Section(ordinal, "question" + pre + "id=\"" + v + "\"" + rest, body))
    ensures IdOf(Section(ordinal, "question" + pre + "id=\"" + v + "\"" + rest, body)) == v
  {
    assert forall j :: 0 <= j < |v| ==> ValueChar(v[j], false);
    AttrAfter("question" + pre, "id=\"", v, rest, false);
    QuestionLed(pre, "id=\"", v, rest);
  }

  /** Likewise a `type="v"` with no earlier `type="` yields the type "v". */
  lemma KindWritten(pre: string, v: string, rest: string, ordinal: nat, body: string)
    requires v != "" && '"' !in v
    requires NoEarlierLit("question" + pre, "type=\"")
    ensures IsQuestion(Section(ordinal, "question" + pre + "type=\"" + v + "\"" + rest, body))
    ensures KindOf(Section(ordinal, "question" + pre + "type=\"" + v + "\"" + rest, body)) == v
  {
    assert forall j :: 0 <= j < |v| ==> ValueChar(v[j], false);
    AttrAfter("question" + pre, "type=\"", v, rest, false);
    QuestionLed(pre, "type=\"", v, rest);
  }

  /** A header written as "question" and more opens a question. */
  lemma QuestionLed(pre: string, lit: string, v: string, rest: string)
    ensures StartsWith("question" + pre + lit + v + "\"" + rest, "question")
  {
    var h := "question" + pre + lit + v + "\"" + rest;
    assert h[..8] == "question" by {
      assert forall i :: 0 <= i < 8 ==> h[i] == "question"[i];
    }
  }

  /** The header `question id="q1" type="checkbox"` yields the id "q1". */
  lemma IdOfWrittenHeader()
    ensures IdOf(Section(0, "question id=\"q1\" type=\"checkbox\"", "")) == "q1"
  {
    var header := "question id=\"q1\" type=\"checkbox\"";
    var written := "question" + " " + "id=\"" + "q1" + "\"" + " type=\"checkbox\"";
    assert written == header by {
      assert forall i :: 0 <= i < |header| ==> written[i] == header[i];
    }
    QuoteFreeNoEarlier("question ", "id=\"");
    IdWritten(" ", "q1", " type=\"checkbox\"", 0, "");
  }

  // ---------------------------------------------------------------------
  // Question bodies
  // ---------------------------------------------------------------------

  /** `body.split("\n")` */
  function Lines(body: string): seq<string> {
    Split(body, '\n')
  }

  /** `l.trim().startsWith("- ")` */
  predicate IsOptionLine(l: string) {
    StartsWith(Trim(l), "- ")
  }

  /** `!l.trim().startsWith("- ") && l.trim() !== ""` */
  predicate IsTextLine(l: string) {
    !IsOptionLine(l) && Trim(l) != ""
  }

  /** `l.trim().startsWith("placeholder:")` */
  predicate IsPlaceholderLine(l: string) {
    StartsWith(Trim(l), "placeholder:")
  }

  function OptionLines(body: string): seq<string> {
    Filter(Lines(body), IsOptionLine)
  }

  function NonOptionLines(body: string): seq<string> {
    Filter(Lines(body), IsTextLine)
  }

  /** The lines joined into the question text: the non-option lines, less the placeholder line of a textarea. */
  function TextLines(kind: string, body: string): seq<string> {
    var rest := NonOptionLines(body);
    if kind != "textarea" then rest
    else match FirstWhere(rest, IsPlaceholderLine)
      case None => rest
      case Some(pi) => RemoveAt(rest, pi)
  }

  /** The placeholder: that of the first placeholder line of a textarea, else "". */
  function Placeholder(kind: string, body: string): string {
    var rest := NonOptionLines(body);
    if kind != "textarea" then ""
    else match FirstWhere(rest, IsPlaceholderLine)
      case None => ""
      case Some(pi) => PlaceholderText(rest[pi])
  }

  /** The three fields a question body yields. */
  datatype Fields = Fields(text: string, options: seq<string>, placeholder: string)

  // `options: optionLines.map(l => l.replace(/^\s*-\s*/, "").trim())`
  function Options(body: string): seq<string> {
    MapSeq(OptionLines(body), OptionText)
  }

  /** `text: textLines.join("\n").trim()` */
  function Text(kind: string, body: string): string {
    Trim(JoinWith(TextLines(kind, body), '\n'))
  }

  function BodyFields(kind: string, body: string): Fields {
    Fields(Text(kind, body), Options(body), Placeholder(kind, body))
  }

  /**
   * The reading of a body as the loaders write it: `placeholder` and
   * `textLines` start as "" and the non-option lines, and a textarea's first
   * placeholder line replaces both.
   */
  method ReadBody(kind: string, body: string) returns (fields: Fields)
    ensures fields == BodyFields(kind, body)
  {
    var optionLines := OptionLines(body);
    var nonOptionLines := NonOptionLines(body);
    var placeholder := "";
    var textLines := nonOptionLines;
    if kind == "textarea" {
      var pi := FirstWhere(nonOptionLines, IsPlaceholderLine);
      if pi.Some? {
        placeholder := PlaceholderText(nonOptionLines[pi.value]);
        textLines := RemoveAt(nonOptionLines, pi.value);
        PlaceholderFound(body, nonOptionLines, pi.value);
      } else {
        PlaceholderMissing(body, nonOptionLines);
      }
    } else {
      PlaceholderOther(kind, body);
    }
    fields := Fields(Trim(JoinWith(textLines, '\n')), MapSeq(optionLines, OptionText), placeholder);
  }

  lemma PlaceholderOther(kind: string, body: string)
    requires kind != "textarea"
    ensures TextLines(kind, body) == NonOptionLines(body)
    ensures Placeholder(kind, body) == ""
  {
  }

  lemma PlaceholderFound(body: string, rest: seq<string>, pi: nat)
    requires rest == NonOptionLines(body) && FirstWhere(rest, IsPlaceholderLine) == Some(pi)
    ensures TextLines("textarea", body) == RemoveAt(rest, pi)
    ensures Placeholder("textarea", body) == PlaceholderText(rest[pi])
  {
    FoundLines(body, rest, pi);
    FoundText(body, rest, pi);
  }

  lemma FoundLines(body: string, rest: seq<string>, pi: nat)
    requires rest == NonOptionLines(body) && FirstWhere(rest, IsPlaceholderLine) == Some(pi)
    ensures TextLines("textarea", body) == RemoveAt(rest, pi)
  {
  }

  lemma FoundText(body: string, rest: seq<string>, pi: nat)
    requires rest == NonOptionLines(body) && FirstWhere(rest, IsPlaceholderLine) == Some(pi)
    ensures Placeholder("textarea", body) == PlaceholderText(rest[pi])
  {
  }

  lemma PlaceholderMissing(body: string, rest: seq<string>)
    requires rest == NonOptionLines(body) && FirstWhere(rest, IsPlaceholderLine) == None
    ensures TextLines("textarea", body) == rest
    ensures Placeholder("textarea", body) == ""
  {
  }

  /** What `trim` keeps of a line is a prefix of what `trimStart` keeps. */
  lemma TrimmedPrefix(l: string, p: string)
    requires StartsWith(Trim(l), p)
    ensures StartsWith(TrimStart(l), p)
  {
    var a := TrimStart(l);
    var t := TrimEnd(a);
    assert |p| <= |t| <= |a|;
    assert a[..|p|] == t[..|p|];
  }

  /** An option line loses its leading whitespace and its dash, and is trimmed. */
  lemma OptionTextOfLine(l: string)
    requires IsOptionLine(l)
    ensures |TrimStart(l)| >= 2 && TrimStart(l)[0] == '-'
    ensures OptionText(l) == Trim(TrimStart(l)[1..])
  {
    var a := TrimStart(l);
    TrimmedPrefix(l, "- ");
    assert a[0] == '-';
    assert StartsWith(a, "-");
    assert StripLead(l, "-") == TrimStart(a[1..]);
    TrimStartNoSpace(a[1..]);
  }

  /** `trimStart` has nothing more to remove from a string it produced, so the extra `\s*` of the pattern is subsumed by the final trim. */
  lemma TrimStartNoSpace(s: string)
    ensures Trim(TrimStart(s)) == Trim(s)
  {
    assert TrimStart(TrimStart(s)) == TrimStart(s);
  }

  /** A placeholder line loses its leading whitespace and its `placeholder:` prefix, and is trimmed. */
  lemma PlaceholderTextOfLine(l: string)
    requires IsPlaceholderLine(l)
    ensures |TrimStart(l)| >= 12
    ensures PlaceholderText(l) == Trim(TrimStart(l)[12..])
  {
    TrimmedPrefix(l, "placeholder:");
    TrimStartNoSpace(TrimStart(l)[12..]);
  }

  /**
   * The options are the option lines of the body, every one and in order,
   * each without its leading whitespace and dash.
   */
  lemma OptionsOfBody(body: string)
    ensures |Options(body)| == |OptionLines(body)|
    ensures forall j :: 0 <= j < |OptionLines(body)| ==>
      |TrimStart(OptionLines(body)[j])| >= 2 && Options(body)[j] == Trim(TrimStart(OptionLines(body)[j])[1..])
  {
    var opts := OptionLines(body);
    AllKept(Lines(body), IsOptionLine);
    OptionTexts(opts);
  }

  /** Every element a filter keeps passes its test. */
  lemma AllKept(s: seq<string>, p: string -> bool)
    ensures forall j :: 0 <= j < |Filter(s, p)| ==> p(Filter(s, p)[j])
  {
    var r := Filter(s, p);
    forall j | 0 <= j < |r| ensures p(r[j]) {
      assert r[j] in r;
    }
  }

  lemma OptionTexts(opts: seq<string>)
    requires forall j :: 0 <= j < |opts| ==> IsOptionLine(opts[j])
    ensures forall j :: 0 <= j < |opts| ==> |TrimStart(opts[j])| >= 2 && MapSeq(opts, OptionText)[j] == Trim(TrimStart(opts[j])[1..])
  {
    forall j | 0 <= j < |opts| ensures |TrimStart(opts[j])| >= 2 && MapSeq(opts, OptionText)[j] == Trim(TrimStart(opts[j])[1..]) {
      OptionTextOfLine(opts[j]);
    }
  }

  /** Option lines and blank lines never reach the text: it is joined from lines of the body that are neither. */
  lemma TextLinesClean(kind: string, body: string)
    ensures forall l :: l in TextLines(kind, body) ==> l in Lines(body) && !IsOptionLine(l) && Trim(l) != ""
  {
    var rest := NonOptionLines(body);
    assert forall l :: l in rest ==> l in Lines(body) && IsTextLine(l);
    if kind == "textarea" {
      match FirstWhere(rest, IsPlaceholderLine)
      case None =>
      case Some(pi) => RemoveAtWithin(rest, pi);
    }
  }

  lemma RemoveAtWithin(s: seq<string>, k: nat)
    requires k < |s|
    ensures forall x :: x in RemoveAt(s, k) ==> x in s
  {
    assert RemoveAt(s, k) == s[..k] + s[k + 1..];
  }

  /** Outside a textarea, or without a placeholder line, the placeholder is "" and the text takes every non-option line. */
  lemma PlaceholderAbsent(kind: string, body: string)
    requires kind != "textarea" || forall j :: 0 <= j < |NonOptionLines(body)| ==> !IsPlaceholderLine(NonOptionLines(body)[j])
    ensures Placeholder(kind, body) == ""
    ensures TextLines(kind, body) == NonOptionLines(body)
  {
    var rest := NonOptionLines(body);
    if kind == "textarea" {
      assert FirstWhere(rest, IsPlaceholderLine) == None;
    }
  }

  /**
   * In a textarea the first placeholder line among the non-option lines
   * gives the placeholder and is the one line left out of the text.
   */
  lemma PlaceholderFirst(kind: string, body: string, j: nat)
    requires kind == "textarea"
    requires j < |NonOptionLines(body)| && IsPlaceholderLine(NonOptionLines(body)[j])
    requires forall j' :: 0 <= j' < j ==> !IsPlaceholderLine(NonOptionLines(body)[j'])
    ensures |TrimStart(NonOptionLines(body)[j])| >= 12
    ensures Placeholder(kind, body) == Trim(TrimStart(NonOptionLines(body)[j])[12..])
    ensures TextLines(kind, body) == NonOptionLines(body)[..j] + NonOptionLines(body)[j + 1..]
  {
    FirstIs(NonOptionLines(body), IsPlaceholderLine, j);
    FirstPlaceholderText(body, NonOptionLines(body), j);
    FirstPlaceholderLines(body, NonOptionLines(body), j);
  }

  lemma FirstPlaceholderText(body: string, rest: seq<string>, j: nat)
    requires rest == NonOptionLines(body) && FirstWhere(rest, IsPlaceholderLine) == Some(j)
    ensures |TrimStart(rest[j])| >= 12
    ensures Placeholder("textarea", body) == Trim(TrimStart(rest[j])[12..])
  {
    FoundText(body, rest, j);
    PlaceholderTextOfLine(rest[j]);
  }

  lemma FirstPlaceholderLines(body: string, rest: seq<string>, j: nat)
    requires rest == NonOptionLines(body) && FirstWhere(rest, IsPlaceholderLine) == Some(j)
    ensures TextLines("textarea", body) == rest[..j] + rest[j + 1..]
  {
  }

  /** The first position passing a test is the one `findIndex` reports. */
  lemma FirstIs(s: seq<string>, p: string -> bool, j: nat)
    requires j < |s| && p(s[j])
    requires forall j' :: 0 <= j' < j ==> !p(s[j'])
    ensures FirstWhere(s, p) == Some(j)
  {
  }
}
