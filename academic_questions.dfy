/**
 * The loader of the academic questionnaire: a markdown text whose
 * `<!-- … -->` comments head the intro, the outro and the questions, each
 * question header carrying `id`, `type`, `depends-on`, `depends-values` and
 * `max-select` attributes.
 */
module AcademicQuestions {
  import opened Wrappers
  import opened Decimal
  import opened Seqs
  import opened JsStrings
  import opened Patterns
  import opened QuestionBlocks

  /** A question record; the `Option` fields are `null` when absent. */
  datatype Question = Question(
    id: string,
    kind: string,
    text: string,
    options: seq<string>,
    placeholder: string,
    dependsOn: Option<string>,
    dependsValues: Option<seq<string>>,
    maxSelect: Option<nat>)

  /** The loader's `result`: `{ intro, outro, questions }`. */
  datatype Survey = Survey(intro: string, outro: string, questions: seq<Question>)

  /** `header.match(/depends-values="([^"]+)"/)?.[1]?.split(",").map(s => s.trim()) ?? null` */
  function DependsValues(header: string): Option<seq<string>> {
    match MatchAttr(header, "depends-values=\"", false)
    case None => None
    case Some(v) => Some(MapSeq(Split(v, ','), Trim))
  }

  /** `… ? parseInt(header.match(/max-select="(\d+)"/)[1]) : null`; the capture is never empty, so never falsy. */
  function MaxSelect(header: string): Option<nat> {
    match MatchAttr(header, "max-select=\"", true)
    case None => None
    case Some(v) =>
      assert AllDigits(v) by {
        assert forall j :: 0 <= j < |v| ==> ValueChar(v[j], true);
      }
      Some(DigitsValue(v))
  }

  /** The question a `question…` header and its body yield. */
  function BuildQuestion(sec: Section): Question {
    var kind := KindOf(sec);
    var fields := BodyFields(kind, sec.body);
    Question(IdOf(sec), kind, fields.text, fields.options, fields.placeholder,
      MatchAttr(sec.header, "depends-on=\"", false), DependsValues(sec.header), MaxSelect(sec.header))
  }

  /** What a pair adds to `questions`: a question exactly when its header starts with "question". */
  function QuestionOf(sec: Section): (q: Option<Question>)
    ensures q.Some? <==> IsQuestion(sec)
  {
    if IsQuestion(sec) then Some(BuildQuestion(sec)) else None
  }

  /** The result after reading the pairs `secs`, as the loop builds it. */
  function Expected(secs: seq<Section>): Survey {
    Survey(LastBody(secs, "intro"), LastBody(secs, "outro"), Collect(secs, QuestionOf))
  }

  /**
   * The loader: split the text on its comments, then walk the captures at
   * indices 1, 3, 5, … with their bodies. "intro" and "outro" set their
   * field, so the last one wins; a header starting with "question" appends
   * one question; any other header changes nothing.
   */
  method Parse(src: string) returns (result: Survey)
    ensures result.intro == LastBody(Sections(SplitComments(src)), "intro")
    ensures result.outro == LastBody(Sections(SplitComments(src)), "outro")
    ensures result.questions == MapSeq(Filter(Sections(SplitComments(src)), IsQuestion), BuildQuestion)
  {
    var parts := SplitComments(src);
    ghost var secs := Sections(parts);
    assert forall j :: 0 <= j < |secs| ==> secs[j] == SectionAt(parts, j);
    result := Walk(parts, secs);
    CollectAsMap(secs, IsQuestion, QuestionOf, BuildQuestion);
  }

  /** The loop over the split parts, whose pairs are `secs`. */
  method Walk(parts: seq<string>, ghost secs: seq<Section>) returns (result: Survey)
    requires |parts| == 2 * |secs| + 1
    requires forall j :: 0 <= j < |secs| ==> secs[j] == SectionAt(parts, j)
    ensures result == Expected(secs)
  {
    result := Survey("", "", []);
    var i := 1;
    ghost var k := 0;
    while i < |parts|
      invariant i == 2 * k + 1 && k <= |secs|
      invariant result == Expected(secs[..k])
    {
      result := ReadPair(result, parts, i, k, secs);
      i, k := i + 2, k + 1;
    }
    assert secs[..k] == secs;
  }

  /** One pass of the loop body: the pair `k` read into the result of the pairs before it. */
  method ReadPair(result: Survey, parts: seq<string>, i: nat, ghost k: nat, ghost secs: seq<Section>) returns (next: Survey)
    requires i == 2 * k + 1 && |parts| == 2 * |secs| + 1 && i < |parts|
    requires secs[k] == SectionAt(parts, k)
    requires result == Expected(secs[..k])
    ensures next == Expected(secs[..k + 1])
  {
    var header := Trim(parts[i]);
    var body := Trim(PartOrEmpty(parts, i + 1));
    var ordinal := (i - 1) / 2;
    SectionRead(parts, k, i);
    LastBodyStep(secs, "intro", k);
    LastBodyStep(secs, "outro", k);
    CollectStep(secs, QuestionOf, k);
    next := result;
    if header == "intro" {
      next := next.(intro := body);
    } else if header == "outro" {
      next := next.(outro := body);
    } else if StartsWith(header, "question") {
      var id := MatchAttr(header, "id=\"", false).GetOr(DefaultId(ordinal));
      var kind := MatchAttr(header, "type=\"", false).GetOr("radio");
      var dependsOn := MatchAttr(header, "depends-on=\"", false);
      var dependsValues := DependsValues(header);
      var maxSelect := MaxSelect(header);
      var fields := ReadBody(kind, body);
      var question := Question(id, kind, fields.text, fields.options, fields.placeholder, dependsOn, dependsValues, maxSelect);
      assert question == BuildQuestion(secs[k]);
      next := next.(questions := next.questions + [question]);
    }
  }

  /**
   * `dependsValues` is null exactly when the header has no
   * `depends-values="…"`; otherwise it lists the comma-separated pieces of
   * the value, each trimmed, and the pieces rebuild the value.
   */
  lemma DependsValuesOfCapture(header: string)
    ensures DependsValues(header).None? <==> MatchAttr(header, "depends-values=\"", false).None?
    ensures DependsValues(header).Some? ==>
      var v := MatchAttr(header, "depends-values=\"", false).value;
      && JoinWith(Split(v, ','), ',') == v
      && |DependsValues(header).value| == |Split(v, ',')|
      && forall k :: 0 <= k < |Split(v, ',')| ==> ',' !in Split(v, ',')[k] && DependsValues(header).value[k] == Trim(Split(v, ',')[k])
  {
    match MatchAttr(header, "depends-values=\"", false)
    case None =>
    case Some(v) =>
      JoinSplit(v, ',');
      SplitPieces(v, ',');
  }

  /**
   * A question header with `depends-values="a,b,…"` of trimmed, comma-free
   * values, after a text in which no earlier `depends-values="` starts,
   * yields exactly those values.
   */
  lemma DependsValuesWritten(pre: string, values: seq<string>, rest: string)
    requires |values| >= 1 && JoinWith(values, ',') != ""
    requires forall k :: 0 <= k < |values| ==> ',' !in values[k] && '"' !in values[k] && Trim(values[k]) == values[k]
    requires NoEarlierLit("question" + pre, "depends-values=\"")
    ensures DependsValues("question" + pre + "depends-values=\"" + JoinWith(values, ',') + "\"" + rest) == Some(values)
  {
    var v := JoinWith(values, ',');
    var header := "question" + pre + "depends-values=\"" + v + "\"" + rest;
    JoinNoQuote(values, ',');
    QuotedAfter("question" + pre, "depends-values=\"", v, rest);
    DependsValuesOf(header, values);
  }

  /** A captured `a,b,…` of trimmed, comma-free values splits back into those values. */
  lemma DependsValuesOf(header: string, values: seq<string>)
    requires |values| >= 1
    requires forall k :: 0 <= k < |values| ==> ',' !in values[k] && Trim(values[k]) == values[k]
    requires MatchAttr(header, "depends-values=\"", false) == Some(JoinWith(values, ','))
    ensures DependsValues(header) == Some(values)
  {
    SplitJoin(values, ',');
    TrimmedAll(values);
  }

  lemma TrimmedAll(values: seq<string>)
    requires forall k :: 0 <= k < |values| ==> Trim(values[k]) == values[k]
    ensures MapSeq(values, Trim) == values
  {
  }

  /** A join of quote-free pieces on a separator other than '"' holds no quote. */
  lemma {:induction false} JoinNoQuote(parts: seq<string>, sep: char)
    requires sep != '"'
    requires forall k :: 0 <= k < |parts| ==> '"' !in parts[k]
    ensures '"' !in JoinWith(parts, sep)
  {
    if |parts| > 1 {
      JoinNoQuote(parts[1..], sep);
    }
  }

  /**
   * `maxSelect` is null exactly when no `max-select="…"` with only digits
   * appears, and otherwise the decimal value of the leftmost such digits.
   */
  lemma MaxSelectOfCapture(header: string)
    ensures MaxSelect(header).None? <==> MatchAttr(header, "max-select=\"", true).None?
    ensures MaxSelect(header).Some? ==>
      AllDigits(MatchAttr(header, "max-select=\"", true).value)
      && MaxSelect(header).value == DigitsValue(MatchAttr(header, "max-select=\"", true).value)
  {
    match MatchAttr(header, "max-select=\"", true)
    case None =>
    case Some(v) =>
      assert forall j :: 0 <= j < |v| ==> ValueChar(v[j], true);
  }

  /**
   * Writing a number as `max-select="n"` in a question header, after a text
   * in which no earlier `max-select="` starts, reads back as n.
   */
  lemma MaxSelectWritten(pre: string, n: nat, rest: string)
    requires NoEarlierLit("question" + pre, "max-select=\"")
    ensures MaxSelect("question" + pre + "max-select=\"" + NatToDigits(n) + "\"" + rest) == Some(n)
  {
    var v := NatToDigits(n);
    assert forall j :: 0 <= j < |v| ==> ValueChar(v[j], true);
    AttrAfter("question" + pre, "max-select=\"", v, rest, true);
    DigitsRoundTrip(n);
  }

  /** A question header carries the id, the type and the body fields of its pair, with the defaults when absent. */
  lemma QuestionDefaults(sec: Section)
    requires IsQuestion(sec)
    ensures QuestionOf(sec).value.id == (if MatchAttr(sec.header, "id=\"", false).None? then DefaultId(sec.ordinal) else MatchAttr(sec.header, "id=\"", false).value)
    ensures QuestionOf(sec).value.kind == (if MatchAttr(sec.header, "type=\"", false).None? then "radio" else MatchAttr(sec.header, "type=\"", false).value)
    ensures MatchAttr(sec.header, "depends-on=\"", false).None? ==> QuestionOf(sec).value.dependsOn.None?
    ensures QuestionOf(sec).value.placeholder != "" ==> QuestionOf(sec).value.kind == "textarea"
  {
  }
}
