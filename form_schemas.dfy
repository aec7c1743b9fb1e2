/**
 * The request-body schemas of the backend, each written as a parser from a
 * decoded JSON value to the typed record it yields, `None` where the schema
 * rejects the value. Object schemas read only their own keys and drop the
 * rest, as a zod object schema does. The URL check of `urlSchema` is a
 * parameter (`isUrl`).
 */
module FormSchemas {
  import opened JsLib

  /** A decoded request body, as far as the schemas tell values apart. */
  datatype Value =
    | Undefined
    | Null
    | Bool(b: bool)
    | Num(x: real)
    | Str(s: string)
    | Arr(items: seq<Value>)
    | Obj(fields: map<string, Value>)

  /** The property `key` of an object; `undefined` when it has none. */
  function Get(v: Value, key: string): Value
    requires v.Obj?
  {
    if key in v.fields then v.fields[key] else Undefined
  }

  /** `Number.isInteger` on a finite number. */
  predicate IsInteger(x: real) {
    x.Floor as real == x
  }

  // ---------------------------------------------------------------------------
  // Building blocks
  // ---------------------------------------------------------------------------

  /** `z.string().min(minLength)`; `minLength` 0 is a plain `z.string()`. */
  function ParseString(v: Value, minLength: nat): (r: Option<string>)
    ensures r.Some? ==> |r.value| >= minLength && v == Str(r.value)
  {
    if v.Str? && |v.s| >= minLength then Some(v.s) else None
  }

  /** `idSchema` (and `slugSchema`, `dateStringSchema`): a non-empty string. */
  function ParseId(v: Value): (r: Option<string>)
    ensures r.Some? ==> |r.value| >= 1 && v == Str(r.value)
  {
    ParseString(v, 1)
  }

  /** `urlSchema`: a string the URL check accepts. */
  function ParseUrl(v: Value, isUrl: string -> bool): (r: Option<string>)
    ensures r.Some? ==> isUrl(r.value) && v == Str(r.value)
  {
    if v.Str? && isUrl(v.s) then Some(v.s) else None
  }

  /** `z.number().int()` with an optional `.min(lo)` and `.max(hi)`. */
  function ParseInt(v: Value, lo: Option<int>, hi: Option<int>): (r: Option<int>)
    ensures r.Some? ==> v == Num(r.value as real)
    ensures r.Some? && lo.Some? ==> r.value >= lo.value
    ensures r.Some? && hi.Some? ==> r.value <= hi.value
  {
    if v.Num? && IsInteger(v.x)
       && (lo.None? || v.x >= lo.value as real)
       && (hi.None? || v.x <= hi.value as real)
    then Some(v.x.Floor)
    else None
  }

  /** `z.boolean()`. */
  function ParseBool(v: Value): Option<bool> {
    if v.Bool? then Some(v.b) else None
  }

  /** `.optional()`: `undefined` is accepted as absent; anything else must parse. */
  function ParseOptional<T>(v: Value, parse: Value -> Option<T>): (r: Option<Option<T>>)
    ensures v == Undefined ==> r == Some(None)
    ensures v != Undefined ==> (r.Some? <==> parse(v).Some?)
    ensures v != Undefined && r.Some? ==> r.value == Some(parse(v).value)
  {
    if v == Undefined then Some(None)
    else if parse(v).Some? then Some(Some(parse(v).value))
    else None
  }

  /** `.nullable()`: `null` is accepted as absent; anything else must parse. */
  function ParseNullable<T>(v: Value, parse: Value -> Option<T>): (r: Option<Option<T>>)
    ensures v == Null ==> r == Some(None)
    ensures v != Null ==> (r.Some? <==> parse(v).Some?)
    ensures v != Null && r.Some? ==> r.value == Some(parse(v).value)
  {
    if v == Null then Some(None)
    else if parse(v).Some? then Some(Some(parse(v).value))
    else None
  }

  /** `z.array(item)`: every element must parse; the result keeps the order. */
  function ParseArray<T>(items: seq<Value>, parse: Value -> Option<T>): (r: Option<seq<T>>)
    ensures r.Some? <==> forall i :: 0 <= i < |items| ==> parse(items[i]).Some?
    ensures r.Some? ==> |r.value| == |items| && forall i :: 0 <= i < |items| ==> parse(items[i]) == Some(r.value[i])
  {
    if items == [] then Some([])
    else
      var head := parse(items[0]);
      var tail := ParseArray(items[1..], parse);
      assert forall i :: 1 <= i < |items| ==> items[i] == items[1..][i - 1];
      if head.Some? && tail.Some? then Some([head.value] + tail.value) else None
  }

  /** `z.array(item)` applied to a value: it must be an array. */
  function ParseArrayValue<T>(v: Value, parse: Value -> Option<T>): Option<seq<T>> {
    if v.Arr? then ParseArray(v.items, parse) else None
  }

  /** `w` is an array value holding exactly the strings `xs`, in order. */
  predicate HoldsStrings(w: Value, xs: seq<string>) {
    w.Arr? && |w.items| == |xs| && forall i :: 0 <= i < |xs| ==> w.items[i] == Str(xs[i])
  }

  /** A string as a JSON value. */
  function StrValue(s: string): Value {
    Str(s)
  }

  /** The array value of a list of records. */
  function Encoded<T>(xs: seq<T>, encode: T -> Value): (r: seq<Value>)
    ensures |r| == |xs|
  {
    if xs == [] then [] else [encode(xs[0])] + Encoded(xs[1..], encode)
  }

  /** An array of encoded records parses back to the records when each one does. */
  lemma {:induction false} ArrayRoundTrip<T>(xs: seq<T>, encode: T -> Value, parse: Value -> Option<T>)
    requires forall i :: 0 <= i < |xs| ==> parse(encode(xs[i])) == Some(xs[i])
    ensures ParseArray(Encoded(xs, encode), parse) == Some(xs)
  {
    if xs != [] {
      assert forall i :: 0 <= i < |xs[1..]| ==> xs[1..][i] == xs[i + 1];
      ArrayRoundTrip(xs[1..], encode, parse);
      assert Encoded(xs, encode)[1..] == Encoded(xs[1..], encode);
      assert [xs[0]] + xs[1..] == xs;
    }
  }

  // ---------------------------------------------------------------------------
  // Enumerations
  // ---------------------------------------------------------------------------

  /** `courseLevelSchema`. */
  datatype CourseLevel = Beginner | Intermediate | Expert

  function LevelName(l: CourseLevel): string {
    match l
    case Beginner => "beginner"
    case Intermediate => "intermediate"
    case Expert => "expert"
  }

  function ParseCourseLevel(v: Value): Option<CourseLevel> {
    if v == Str("beginner") then Some(Beginner)
    else if v == Str("intermediate") then Some(Intermediate)
    else if v == Str("expert") then Some(Expert)
    else None
  }

  /** The level schema accepts exactly the three level names, each as its own level. */
  lemma CourseLevelAcceptsExactly(v: Value, l: CourseLevel)
    ensures ParseCourseLevel(v) == Some(l) <==> v == Str(LevelName(l))
    ensures ParseCourseLevel(v).Some? <==> v in {Str("beginner"), Str("intermediate"), Str("expert")}
  {
  }

  /** The content kind of `courseSectionContentSchema`. */
  datatype ContentKind = ArticleContent | AssessmentContent

  function KindName(k: ContentKind): string {
    match k
    case ArticleContent => "article"
    case AssessmentContent => "assessment"
  }

  function ParseContentKind(v: Value): Option<ContentKind> {
    if v == Str("article") then Some(ArticleContent)
    else if v == Str("assessment") then Some(AssessmentContent)
    else None
  }

  /** The answer type of `questionSchema`. */
  datatype AnswerType = MultipleChoice | MultipleAnswer

  function AnswerTypeName(t: AnswerType): string {
    match t
    case MultipleChoice => "multiple_choice"
    case MultipleAnswer => "multiple_answer"
  }

  function ParseAnswerType(v: Value): Option<AnswerType> {
    if v == Str("multiple_choice") then Some(MultipleChoice)
    else if v == Str("multiple_answer") then Some(MultipleAnswer)
    else None
  }

  /** The status of `markLessonSchema`. */
  datatype LessonStatus = Done | NotDone

  function StatusName(s: LessonStatus): string {
    match s
    case Done => "done"
    case NotDone => "none"
  }

  function ParseLessonStatus(v: Value): Option<LessonStatus> {
    if v == Str("done") then Some(Done)
    else if v == Str("none") then Some(NotDone)
    else None
  }

  // ---------------------------------------------------------------------------
  // Course schemas
  // ---------------------------------------------------------------------------

  /** `tagSchema`. */
  datatype Tag = Tag(id: string, name: string)

  function ParseTag(v: Value): (r: Option<Tag>)
    ensures r.Some? ==> v.Obj? && Get(v, "id") == Str(r.value.id) && Get(v, "name") == Str(r.value.name)
    ensures r.Some? ==> |r.value.id| >= 1
  {
    if !v.Obj? then None
    else
      var id, name := ParseId(Get(v, "id")), ParseString(Get(v, "name"), 0);
      if id.Some? && name.Some? then Some(Tag(id.value, name.value)) else None
  }

  function TagValue(t: Tag): Value {
    Obj(map["id" := Str(t.id), "name" := Str(t.name)])
  }

  /** Every tag with an id is accepted and read back unchanged; the name may be empty. */
  lemma TagRoundTrip(t: Tag)
    requires |t.id| >= 1
    ensures ParseTag(TagValue(t)) == Some(t)
  {
    var v := TagValue(t);
    assert Get(v, "id") == Str(t.id) && Get(v, "name") == Str(t.name);
  }

  /** `courseCreateSchema`; `instructorId` is absent for `courseUpdateSchema`. */
  datatype CourseForm = CourseForm(name: string, description: string, tags: seq<string>,
                                   level: CourseLevel, instructorId: Option<string>)

  predicate ValidCourse(c: CourseForm) {
    && |c.name| >= 1
    && |c.description| >= 1
    && (forall i :: 0 <= i < |c.tags| ==> |c.tags[i]| >= 1)
    && (c.instructorId.Some? ==> |c.instructorId.value| >= 1)
  }

  /** The fields every course schema reads, as they stand in `v`. */
  predicate CourseFieldsOf(v: Value, c: CourseForm)
    requires v.Obj?
  {
    && Get(v, "name") == Str(c.name)
    && Get(v, "description") == Str(c.description)
    && HoldsStrings(Get(v, "tags"), c.tags)
    && Get(v, "level") == Str(LevelName(c.level))
  }

  function ParseCourseCreate(v: Value): (r: Option<CourseForm>)
    ensures r.Some? ==> v.Obj? && CourseFieldsOf(v, r.value)
                        && r.value.instructorId.Some? && Get(v, "instructor_id") == Str(r.value.instructorId.value)
    ensures r.Some? ==> ValidCourse(r.value)
  {
    if !v.Obj? then None
    else
      var name, description := ParseString(Get(v, "name"), 1), ParseString(Get(v, "description"), 1);
      var tags, level := ParseArrayValue(Get(v, "tags"), ParseId), ParseCourseLevel(Get(v, "level"));
      var instructor := ParseId(Get(v, "instructor_id"));
      if name.Some? && description.Some? && tags.Some? && level.Some? && instructor.Some? then
        assert forall i :: 0 <= i < |tags.value| ==> ParseId(Get(v, "tags").items[i]) == Some(tags.value[i]);
        Some(CourseForm(name.value, description.value, tags.value, level.value, Some(instructor.value)))
      else None
  }

  function ParseCourseUpdate(v: Value): (r: Option<CourseForm>)
    ensures r.Some? ==> v.Obj? && CourseFieldsOf(v, r.value) && r.value.instructorId.None?
    ensures r.Some? ==> ValidCourse(r.value)
  {
    if !v.Obj? then None
    else
      var name, description := ParseString(Get(v, "name"), 1), ParseString(Get(v, "description"), 1);
      var tags, level := ParseArrayValue(Get(v, "tags"), ParseId), ParseCourseLevel(Get(v, "level"));
      if name.Some? && description.Some? && tags.Some? && level.Some? then
        assert forall i :: 0 <= i < |tags.value| ==> ParseId(Get(v, "tags").items[i]) == Some(tags.value[i]);
        Some(CourseForm(name.value, description.value, tags.value, level.value, None))
      else None
  }

  function CourseValue(c: CourseForm): Value {
    var m := map["name" := Str(c.name), "description" := Str(c.description),
                 "tags" := Arr(Encoded(c.tags, StrValue)), "level" := Str(LevelName(c.level))];
    Obj(if c.instructorId.Some? then m["instructor_id" := Str(c.instructorId.value)] else m)
  }

  /** A list of ids encoded as strings parses back to itself. */
  lemma IdsRoundTrip(ids: seq<string>)
    requires forall i :: 0 <= i < |ids| ==> |ids[i]| >= 1
    ensures ParseArrayValue(Arr(Encoded(ids, StrValue)), ParseId) == Some(ids)
  {
    ArrayRoundTrip(ids, StrValue, ParseId);
  }

  /** Every valid course is accepted unchanged: with an instructor by the
      creation schema, without one by the update schema. The update schema also
      accepts a course with an instructor and drops the instructor. */
  lemma CourseRoundTrip(c: CourseForm)
    requires ValidCourse(c)
    ensures c.instructorId.Some? ==> ParseCourseCreate(CourseValue(c)) == Some(c)
    ensures ParseCourseUpdate(CourseValue(c)) == Some(c.(instructorId := None))
  {
    var v := CourseValue(c);
    IdsRoundTrip(c.tags);
    assert Get(v, "name") == Str(c.name) && Get(v, "description") == Str(c.description);
    assert Get(v, "tags") == Arr(Encoded(c.tags, StrValue));
    assert Get(v, "level") == Str(LevelName(c.level));
    assert c.instructorId.Some? ==> Get(v, "instructor_id") == Str(c.instructorId.value);
  }

  /** `courseSectionContentSchema`. */
  datatype SectionContent = SectionContent(kind: ContentKind, refId: string)

  function ParseSectionContent(v: Value): (r: Option<SectionContent>)
    ensures r.Some? ==> v.Obj? && Get(v, "type") == Str(KindName(r.value.kind)) && Get(v, "ref_id") == Str(r.value.refId)
    ensures r.Some? ==> |r.value.refId| >= 1
  {
    if !v.Obj? then None
    else
      var kind, refId := ParseContentKind(Get(v, "type")), ParseId(Get(v, "ref_id"));
      if kind.Some? && refId.Some? then Some(SectionContent(kind.value, refId.value)) else None
  }

  function SectionContentValue(c: SectionContent): Value {
    Obj(map["type" := Str(KindName(c.kind)), "ref_id" := Str(c.refId)])
  }

  lemma SectionContentRoundTrip(c: SectionContent)
    requires |c.refId| >= 1
    ensures ParseSectionContent(SectionContentValue(c)) == Some(c)
  {
    var v := SectionContentValue(c);
    assert Get(v, "type") == Str(KindName(c.kind)) && Get(v, "ref_id") == Str(c.refId);
  }

  /** `courseSectionCreateSchema`, which `courseSectionUpdateSchema` is. */
  datatype SectionForm = SectionForm(name: string, description: string, contents: seq<SectionContent>)

  predicate ValidSection(s: SectionForm) {
    |s.name| >= 1 && |s.description| >= 1 && forall i :: 0 <= i < |s.contents| ==> |s.contents[i].refId| >= 1
  }

  function ParseSection(v: Value): (r: Option<SectionForm>)
    ensures r.Some? ==> && v.Obj? && Get(v, "name") == Str(r.value.name)
                        && Get(v, "description") == Str(r.value.description)
                        && Get(v, "contents").Arr? && |Get(v, "contents").items| == |r.value.contents|
                        && forall i :: 0 <= i < |r.value.contents| ==>
                             ParseSectionContent(Get(v, "contents").items[i]) == Some(r.value.contents[i])
    ensures r.Some? ==> ValidSection(r.value)
  {
    if !v.Obj? then None
    else
      var name, description := ParseString(Get(v, "name"), 1), ParseString(Get(v, "description"), 1);
      var contents := ParseArrayValue(Get(v, "contents"), ParseSectionContent);
      if name.Some? && description.Some? && contents.Some? then
        assert forall i :: 0 <= i < |contents.value| ==>
          ParseSectionContent(Get(v, "contents").items[i]) == Some(contents.value[i]);
        Some(SectionForm(name.value, description.value, contents.value))
      else None
  }

  /** A list of content references with ids, encoded, parses back to itself. */
  lemma ContentsRoundTrip(cs: seq<SectionContent>)
    requires forall i :: 0 <= i < |cs| ==> |cs[i].refId| >= 1
    ensures ParseArrayValue(Arr(Encoded(cs, SectionContentValue)), ParseSectionContent) == Some(cs)
  {
    forall i | 0 <= i < |cs| ensures ParseSectionContent(SectionContentValue(cs[i])) == Some(cs[i]) {
      SectionContentRoundTrip(cs[i]);
    }
    ArrayRoundTrip(cs, SectionContentValue, ParseSectionContent);
  }

  function SectionValue(s: SectionForm): Value {
    Obj(map["name" := Str(s.name), "description" := Str(s.description),
            "contents" := Arr(Encoded(s.contents, SectionContentValue))])
  }

  /** Every valid section is accepted and read back unchanged, including one with no contents. */
  lemma SectionRoundTrip(s: SectionForm)
    requires ValidSection(s)
    ensures ParseSection(SectionValue(s)) == Some(s)
  {
    ContentsRoundTrip(s.contents);
    var v := SectionValue(s);
    assert Get(v, "name") == Str(s.name) && Get(v, "description") == Str(s.description);
    assert Get(v, "contents") == Arr(Encoded(s.contents, SectionContentValue));
  }

  // ---------------------------------------------------------------------------
  // Article schema
  // ---------------------------------------------------------------------------

  /** `articleCreateSchema`, which `articleUpdateSchema` is. */
  datatype ArticleForm = ArticleForm(name: string, contentTimeLength: int, contentUrl: string)

  predicate ValidArticle(a: ArticleForm, isUrl: string -> bool) {
    |a.name| >= 1 && a.contentTimeLength >= 1 && isUrl(a.contentUrl)
  }

  function ParseArticle(v: Value, isUrl: string -> bool): (r: Option<ArticleForm>)
    ensures r.Some? ==> ValidArticle(r.value, isUrl)
  {
    if !v.Obj? then None
    else
      var name := ParseString(Get(v, "name"), 1);
      var length := ParseInt(Get(v, "content_time_length"), Some(1), None);
      var url := ParseUrl(Get(v, "content_url"), isUrl);
      if name.Some? && length.Some? && url.Some? then Some(ArticleForm(name.value, length.value, url.value))
      else None
  }

  function ArticleValue(a: ArticleForm): Value {
    Obj(map["name" := Str(a.name), "content_time_length" := Num(a.contentTimeLength as real),
            "content_url" := Str(a.contentUrl)])
  }

  /** Every valid article is accepted, and read back unchanged. */
  lemma ArticleRoundTrip(a: ArticleForm, isUrl: string -> bool)
    requires ValidArticle(a, isUrl)
    ensures ParseArticle(ArticleValue(a), isUrl) == Some(a)
  {
    var v := ArticleValue(a);
    assert Get(v, "content_time_length") == Num(a.contentTimeLength as real);
  }

  /** A duration is accepted exactly when it is a whole number of at least 1. */
  lemma ArticleDurationAccepted(name: string, x: real, url: string, isUrl: string -> bool)
    requires |name| >= 1 && isUrl(url)
    ensures var v := Obj(map["name" := Str(name), "content_time_length" := Num(x), "content_url" := Str(url)]);
      ParseArticle(v, isUrl).Some? <==> IsInteger(x) && x >= 1.0
  {
  }

  // ---------------------------------------------------------------------------
  // Assessment schemas
  // ---------------------------------------------------------------------------

  /** `answerSchema`. */
  datatype AnswerForm = AnswerForm(content: string, correct: Option<bool>)

  function ParseAnswer(v: Value): (r: Option<AnswerForm>)
    ensures r.Some? ==> |r.value.content| >= 1
  {
    if !v.Obj? then None
    else
      var content, correct := ParseString(Get(v, "content"), 1), ParseOptional(Get(v, "correct"), ParseBool);
      if content.Some? && correct.Some? then Some(AnswerForm(content.value, correct.value)) else None
  }

  function AnswerValue(a: AnswerForm): Value {
    var m := map["content" := Str(a.content)];
    Obj(if a.correct.Some? then m["correct" := Bool(a.correct.value)] else m)
  }

  lemma AnswerRoundTrip(a: AnswerForm)
    requires |a.content| >= 1
    ensures ParseAnswer(AnswerValue(a)) == Some(a)
  {
  }

  /** `questionSchema`. */
  datatype QuestionForm = QuestionForm(content: string, answerType: AnswerType, answers: seq<AnswerForm>,
                                       explanation: string)

  predicate ValidQuestion(q: QuestionForm) {
    && |q.content| >= 1
    && |q.explanation| >= 1
    && forall i :: 0 <= i < |q.answers| ==> |q.answers[i].content| >= 1
  }

  function ParseQuestion(v: Value): (r: Option<QuestionForm>)
    ensures r.Some? ==> ValidQuestion(r.value)
  {
    if !v.Obj? then None
    else
      var content, answerType := ParseString(Get(v, "content"), 1), ParseAnswerType(Get(v, "answer_type"));
      var answers := ParseArrayValue(Get(v, "answers"), ParseAnswer);
      var explanation := ParseString(Get(v, "explanation"), 1);
      if content.Some? && answerType.Some? && answers.Some? && explanation.Some? then
        assert forall i :: 0 <= i < |answers.value| ==> ParseAnswer(Get(v, "answers").items[i]) == Some(answers.value[i]);
        Some(QuestionForm(content.value, answerType.value, answers.value, explanation.value))
      else None
  }

  function QuestionValue(q: QuestionForm): Value {
    Obj(map["content" := Str(q.content), "answer_type" := Str(AnswerTypeName(q.answerType)),
            "answers" := Arr(Encoded(q.answers, AnswerValue)), "explanation" := Str(q.explanation)])
  }

  /** Every valid question is accepted and read back unchanged; in particular
      a question with no answers, or with answers that leave `correct` out. */
  lemma QuestionRoundTrip(q: QuestionForm)
    requires ValidQuestion(q)
    ensures ParseQuestion(QuestionValue(q)) == Some(q)
  {
    forall i | 0 <= i < |q.answers| ensures ParseAnswer(AnswerValue(q.answers[i])) == Some(q.answers[i]) {
      AnswerRoundTrip(q.answers[i]);
    }
    ArrayRoundTrip(q.answers, AnswerValue, ParseAnswer);
    var v := QuestionValue(q);
    assert Get(v, "answers") == Arr(Encoded(q.answers, AnswerValue));
    assert Get(v, "answer_type") == Str(AnswerTypeName(q.answerType));
  }

  /** `assessmentCreateSchema`, which `assessmentUpdateSchema` is. */
  datatype AssessmentForm = AssessmentForm(name: string, contentTimeLength: int, questions: seq<QuestionForm>)

  predicate ValidAssessment(a: AssessmentForm) {
    |a.name| >= 1 && a.contentTimeLength >= 1 && forall i :: 0 <= i < |a.questions| ==> ValidQuestion(a.questions[i])
  }

  function ParseAssessment(v: Value): (r: Option<AssessmentForm>)
    ensures r.Some? ==> && v.Obj? && Get(v, "name") == Str(r.value.name)
                        && Get(v, "content_time_length") == Num(r.value.contentTimeLength as real)
                        && Get(v, "questions").Arr? && |Get(v, "questions").items| == |r.value.questions|
                        && forall i :: 0 <= i < |r.value.questions| ==>
                             ParseQuestion(Get(v, "questions").items[i]) == Some(r.value.questions[i])
    ensures r.Some? ==> ValidAssessment(r.value)
  {
    if !v.Obj? then None
    else
      var name := ParseString(Get(v, "name"), 1);
      var length := ParseInt(Get(v, "content_time_length"), Some(1), None);
      var questions := ParseArrayValue(Get(v, "questions"), ParseQuestion);
      if name.Some? && length.Some? && questions.Some? then
        assert forall i :: 0 <= i < |questions.value| ==>
          ParseQuestion(Get(v, "questions").items[i]) == Some(questions.value[i]);
        Some(AssessmentForm(name.value, length.value, questions.value))
      else None
  }

  /** A list of valid questions, encoded, parses back to itself. */
  lemma QuestionsRoundTrip(qs: seq<QuestionForm>)
    requires forall i :: 0 <= i < |qs| ==> ValidQuestion(qs[i])
    ensures ParseArrayValue(Arr(Encoded(qs, QuestionValue)), ParseQuestion) == Some(qs)
  {
    forall i | 0 <= i < |qs| ensures ParseQuestion(QuestionValue(qs[i])) == Some(qs[i]) {
      QuestionRoundTrip(qs[i]);
    }
    ArrayRoundTrip(qs, QuestionValue, ParseQuestion);
  }

  function AssessmentValue(a: AssessmentForm): Value {
    Obj(map["name" := Str(a.name), "content_time_length" := Num(a.contentTimeLength as real),
            "questions" := Arr(Encoded(a.questions, QuestionValue))])
  }

  /** Every valid assessment is accepted and read back unchanged, including one with no questions. */
  lemma AssessmentRoundTrip(a: AssessmentForm)
    requires ValidAssessment(a)
    ensures ParseAssessment(AssessmentValue(a)) == Some(a)
  {
    QuestionsRoundTrip(a.questions);
    var v := AssessmentValue(a);
    assert Get(v, "name") == Str(a.name);
    assert ParseString(Get(v, "name"), 1) == Some(a.name);
    assert Get(v, "content_time_length") == Num(a.contentTimeLength as real);
    assert ParseInt(Get(v, "content_time_length"), Some(1), None) == Some(a.contentTimeLength);
    assert Get(v, "questions") == Arr(Encoded(a.questions, QuestionValue));
    assert ParseArrayValue(Get(v, "questions"), ParseQuestion) == Some(a.questions);
  }

  // ---------------------------------------------------------------------------
  // Enrollment, certificate and user schemas
  // ---------------------------------------------------------------------------

  /** `enrollmentUpdateSchema`: the progress percentage. */
  function ParseEnrollmentUpdate(v: Value): (r: Option<int>)
    ensures r.Some? ==> 0 <= r.value <= 100
  {
    if !v.Obj? then None else ParseInt(Get(v, "progress"), Some(0), Some(100))
  }

  /** A progress number is accepted exactly when it is a whole number from 0 to
      100, and then as that number. */
  lemma EnrollmentAcceptsExactly(x: real)
    ensures var r := ParseEnrollmentUpdate(Obj(map["progress" := Num(x)]));
      && (r.Some? <==> IsInteger(x) && 0.0 <= x <= 100.0)
      && (r.Some? ==> r.value as real == x)
  {
  }

  /** Every percentage from 0 to 100 is accepted as itself. */
  lemma EnrollmentRoundTrip(p: int)
    requires 0 <= p <= 100
    ensures ParseEnrollmentUpdate(Obj(map["progress" := Num(p as real)])) == Some(p)
  {
  }

  /** `certificateCreateSchema`. */
  datatype CertificateForm = CertificateForm(userId: string, courseId: string, dateIssued: Option<string>)

  predicate ValidCertificate(c: CertificateForm) {
    |c.userId| >= 1 && |c.courseId| >= 1 && (c.dateIssued.Some? ==> |c.dateIssued.value| >= 1)
  }

  function ParseCertificate(v: Value): (r: Option<CertificateForm>)
    ensures r.Some? ==> && v.Obj? && Get(v, "userId") == Str(r.value.userId) && Get(v, "courseId") == Str(r.value.courseId)
                        && Get(v, "date_issued") == (if r.value.dateIssued.Some? then Str(r.value.dateIssued.value) else Undefined)
    ensures r.Some? ==> ValidCertificate(r.value)
  {
    if !v.Obj? then None
    else
      var user, course := ParseId(Get(v, "userId")), ParseId(Get(v, "courseId"));
      var date := ParseOptional(Get(v, "date_issued"), ParseId);
      if user.Some? && course.Some? && date.Some? then Some(CertificateForm(user.value, course.value, date.value))
      else None
  }

  function CertificateValue(c: CertificateForm): Value {
    var m := map["userId" := Str(c.userId), "courseId" := Str(c.courseId)];
    Obj(if c.dateIssued.Some? then m["date_issued" := Str(c.dateIssued.value)] else m)
  }

  /** Every valid certificate is accepted and read back unchanged, with or without a date. */
  lemma CertificateRoundTrip(c: CertificateForm)
    requires ValidCertificate(c)
    ensures ParseCertificate(CertificateValue(c)) == Some(c)
  {
  }

  /** `userUpdateSchema`: the occupation, `null` allowed but not a missing key. */
  function ParseUserUpdate(v: Value): (r: Option<Option<string>>)
    ensures !v.Obj? ==> r.None?
    ensures v.Obj? && "occupation" !in v.fields ==> r.None?
    ensures v.Obj? && Get(v, "occupation") == Null ==> r == Some(None)
    ensures v.Obj? && Get(v, "occupation").Str? ==> r == Some(Some(Get(v, "occupation").s))
    ensures v.Obj? && Get(v, "occupation") != Null && !Get(v, "occupation").Str? ==> r.None?
  {
    if !v.Obj? then None else ParseNullable(Get(v, "occupation"), (w: Value) => ParseString(w, 0))
  }

  function UserUpdateValue(occupation: Option<string>): Value {
    Obj(map["occupation" := if occupation.Some? then Str(occupation.value) else Null])
  }

  /** Every occupation, the empty string included, and `null` are accepted and read back unchanged. */
  lemma UserUpdateRoundTrip(occupation: Option<string>)
    ensures ParseUserUpdate(UserUpdateValue(occupation)) == Some(occupation)
  {
    var v := UserUpdateValue(occupation);
    assert Get(v, "occupation") == if occupation.Some? then Str(occupation.value) else Null;
  }

  // ---------------------------------------------------------------------------
  // Discussion, lesson status and answer status schemas
  // ---------------------------------------------------------------------------

  /** `postDiscussionSchema` and `replyDiscussionSchema`; `parent` is set only for a reply. */
  datatype DiscussionForm = DiscussionForm(parent: Option<string>, user: string, content: string)

  predicate ValidDiscussion(d: DiscussionForm) {
    |d.user| >= 1 && |d.content| >= 1 && (d.parent.Some? ==> |d.parent.value| >= 1)
  }

  function ParsePostDiscussion(v: Value): (r: Option<DiscussionForm>)
    ensures r.Some? ==> ValidDiscussion(r.value) && r.value.parent.None?
  {
    if !v.Obj? then None
    else
      var user, content := ParseId(Get(v, "user")), ParseString(Get(v, "content"), 1);
      if user.Some? && content.Some? then Some(DiscussionForm(None, user.value, content.value)) else None
  }

  function ParseReplyDiscussion(v: Value): (r: Option<DiscussionForm>)
    ensures r.Some? ==> ValidDiscussion(r.value) && r.value.parent.Some?
  {
    if !v.Obj? then None
    else
      var parent, user := ParseId(Get(v, "parent")), ParseId(Get(v, "user"));
      var content := ParseString(Get(v, "content"), 1);
      if parent.Some? && user.Some? && content.Some? then
        Some(DiscussionForm(Some(parent.value), user.value, content.value))
      else None
  }

  function DiscussionValue(d: DiscussionForm): Value {
    var m := map["user" := Str(d.user), "content" := Str(d.content)];
    Obj(if d.parent.Some? then m["parent" := Str(d.parent.value)] else m)
  }

  /** Every valid post and reply is accepted and read back unchanged, each by its own schema. */
  lemma DiscussionRoundTrip(d: DiscussionForm)
    requires ValidDiscussion(d)
    ensures d.parent.None? ==> ParsePostDiscussion(DiscussionValue(d)) == Some(d)
    ensures d.parent.Some? ==> ParseReplyDiscussion(DiscussionValue(d)) == Some(d)
  {
  }

  /** A blank comment, which the comment form refuses to submit, passes the
      discussion schema: only its length is checked. */
  lemma DiscussionAcceptsBlankContent(user: string)
    requires |user| >= 1
    ensures IsBlank(" ")
    ensures ParsePostDiscussion(Obj(map["user" := Str(user), "content" := Str(" ")]))
         == Some(DiscussionForm(None, user, " "))
  {
    assert IsJsWhitespace(" "[0]);
  }

  /** `markLessonSchema`. */
  datatype MarkLessonForm = MarkLessonForm(userId: string, status: LessonStatus)

  function ParseMarkLesson(v: Value): (r: Option<MarkLessonForm>)
    ensures r.Some? ==> |r.value.userId| >= 1
    ensures r.Some? ==> v.Obj? && Get(v, "status") == Str(StatusName(r.value.status))
  {
    if !v.Obj? then None
    else
      var user, status := ParseId(Get(v, "userId")), ParseLessonStatus(Get(v, "status"));
      if user.Some? && status.Some? then Some(MarkLessonForm(user.value, status.value)) else None
  }

  /** Only "done" and "none" are statuses; with a user id each is accepted as itself. */
  lemma MarkLessonAcceptsExactly(userId: string, status: Value)
    requires |userId| >= 1
    ensures var r := ParseMarkLesson(Obj(map["userId" := Str(userId), "status" := status]));
      && (r.Some? <==> status == Str("done") || status == Str("none"))
      && (status == Str("done") ==> r == Some(MarkLessonForm(userId, Done)))
      && (status == Str("none") ==> r == Some(MarkLessonForm(userId, NotDone)))
  {
  }

  /** `assessmentAnswerStatusSchema`: both fields optional. */
  datatype AnswerStatusForm = AnswerStatusForm(answerId: Option<string>, flag: Option<bool>)

  function ParseAnswerStatus(v: Value): (r: Option<AnswerStatusForm>)
    ensures r.Some? && r.value.answerId.Some? ==> |r.value.answerId.value| >= 1
  {
    if !v.Obj? then None
    else
      var answer, flag := ParseOptional(Get(v, "answerId"), ParseId), ParseOptional(Get(v, "flag"), ParseBool);
      if answer.Some? && flag.Some? then Some(AnswerStatusForm(answer.value, flag.value)) else None
  }

  function AnswerStatusValue(s: AnswerStatusForm): Value {
    var m: map<string, Value> := map[];
    var m := if s.answerId.Some? then m["answerId" := Str(s.answerId.value)] else m;
    Obj(if s.flag.Some? then m["flag" := Bool(s.flag.value)] else m)
  }

  /** Every answer status is accepted and read back unchanged; the empty object
      is the status with neither field. */
  lemma AnswerStatusRoundTrip(s: AnswerStatusForm)
    requires s.answerId.Some? ==> |s.answerId.value| >= 1
    ensures ParseAnswerStatus(AnswerStatusValue(s)) == Some(s)
    ensures s == AnswerStatusForm(None, None) ==> AnswerStatusValue(s) == Obj(map[])
  {
  }
}
