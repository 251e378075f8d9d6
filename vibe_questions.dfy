/**
 * The loader of the vibe questionnaire: the same walk over the
 * `<!-- … -->` headers as the academic one, with questions carrying only
 * `id`, `type`, text, options and placeholder.
 */
module VibeQuestions {
  import opened Wrappers
  import opened Seqs
  import opened JsStrings
  import opened Patterns
  import opened QuestionBlocks
  import AcademicQuestions

  /** A question record with exactly the fields id, type, text, options and placeholder. */
  datatype VibeQuestion = VibeQuestion(id: string, kind: string, text: string, options: seq<string>, placeholder: string)

  datatype VibeSurvey = VibeSurvey(intro: string, outro: string, questions: seq<VibeQuestion>)

  /** The question a `question…` header and its body yield. */
  function BuildQuestion(sec: Section): VibeQuestion {
    var kind := KindOf(sec);
    var fields := BodyFields(kind, sec.body);
    VibeQuestion(IdOf(sec), kind, fields.text, fields.options, fields.placeholder)
  }

  /** What a pair adds to `questions`: a question exactly when its header starts with "question". */
  function QuestionOf(sec: Section): (q: Option<VibeQuestion>)
    ensures q.Some? <==> IsQuestion(sec)
  {
    if IsQuestion(sec) then Some(BuildQuestion(sec)) else None
  }

  /** The result after reading the pairs `secs`, as the loop builds it. */
  function Expected(secs: seq<Section>): VibeSurvey {
    VibeSurvey(LastBody(secs, "intro"), LastBody(secs, "outro"), Collect(secs, QuestionOf))
  }

  /**
   * The loader: the last "intro" and "outro" bodies, and one question per
   * header starting with "question", in document order.
   */
  method Parse(src: string) returns (result: VibeSurvey)
    ensures result.intro == LastBody(Sections(SplitComments(src)), "intro")
    ensures result.outro == LastBody(Sections(SplitComments(src)), "outro")
    ensures result.questions == MapSeq(Filter(Sections(SplitComments(src)), IsQuestion), BuildQuestion)
  {
    var parts := SplitComments(src);
    ghost var secs := Sections(parts);
    assert forall j :: 0 <= j < |secs| ==> secs[j] == SectionAt(parts, j);
    result := Walk(parts, secs);
    CollectAsMap(secs, IsQuestion, QuestionOf, BuildQuestion);
  }

  /** The loop over the split parts, whose pairs are `secs`. */
  method Walk(parts: seq<string>, ghost secs: seq<Section>) returns (result: VibeSurvey)
    requires |parts| == 2 * |secs| + 1
    requires forall j :: 0 <= j < |secs| ==> secs[j] == SectionAt(parts, j)
    ensures result == Expected(secs)
  {
    result := VibeSurvey("", "", []);
    var i := 1;
    ghost var k := 0;
    while i < |parts|
      invariant i == 2 * k + 1 && k <= |secs|
      invariant result == Expected(secs[..k])
    {
      result := ReadPair(result, parts, i, k, secs);
      i, k := i + 2, k + 1;
    }
    assert secs[..k] == secs;
  }

  /** One pass of the loop body: the pair `k` read into the result of the pairs before it. */
  method ReadPair(result: VibeSurvey, parts: seq<string>, i: nat, ghost k: nat, ghost secs: seq<Section>) returns (next: VibeSurvey)
    requires i == 2 * k + 1 && |parts| == 2 * |secs| + 1 && i < |parts|
    requires secs[k] == SectionAt(parts, k)
    requires result == Expected(secs[..k])
    ensures next == Expected(secs[..k + 1])
  {
    var header := Trim(parts[i]);
    var body := Trim(PartOrEmpty(parts, i + 1));
    var ordinal := (i - 1) / 2;
    SectionRead(parts, k, i);
    LastBodyStep(secs, "intro", k);
    LastBodyStep(secs, "outro", k);
    CollectStep(secs, QuestionOf, k);
    next := result;
    if header == "intro" {
      next := next.(intro := body);
    } else if header == "outro" {
      next := next.(outro := body);
    } else if StartsWith(header, "question") {
      var id := MatchAttr(header, "id=\"", false).GetOr(DefaultId(ordinal));
      var kind := MatchAttr(header, "type=\"", false).GetOr("radio");
      var fields := ReadBody(kind, body);
      var question := VibeQuestion(id, kind, fields.text, fields.options, fields.placeholder);
      assert question == BuildQuestion(secs[k]);
      next := next.(questions := next.questions + [question]);
    }
  }

  /**
   * The two loaders agree on everything the vibe one reads: the same intro
   * and outro, as many questions, and the same id, type, text, options and
   * placeholder for each; the academic one only adds the dependency and
   * max-select attributes.
   */
  lemma AgreesWithAcademic(secs: seq<Section>)
    ensures Expected(secs).intro == AcademicQuestions.Expected(secs).intro
    ensures Expected(secs).outro == AcademicQuestions.Expected(secs).outro
    ensures |Expected(secs).questions| == |AcademicQuestions.Expected(secs).questions|
    ensures forall j :: 0 <= j < |Expected(secs).questions| ==>
      Shared(AcademicQuestions.Expected(secs).questions[j]) == Expected(secs).questions[j]
  {
    CollectAsMap(secs, IsQuestion, QuestionOf, BuildQuestion);
    CollectAsMap(secs, IsQuestion, AcademicQuestions.QuestionOf, AcademicQuestions.BuildQuestion);
  }

  /** The fields of an academic question the vibe loader also produces. */
  function Shared(q: AcademicQuestions.Question): VibeQuestion {
    VibeQuestion(q.id, q.kind, q.text, q.options, q.placeholder)
  }
}
