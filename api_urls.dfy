/**
 * The request paths of the backend API client: the query-string helper
 * `toQuery` and the `getUrl` of the request classes that use it.
 * `encodeURIComponent` is the ECMAScript built-in; it is a parameter here.
 */
module ApiUrls {
  import opened JsLib

  /** A value of an options object, as far as `toQuery` tells values apart. */
  datatype QueryValue =
    | Undefined
    | Null
    | Str(s: string)
    | Num(n: int)
    | Bool(b: bool)
    | Arr(items: seq<string>)

  /** One own property of an options object, in `Object.entries` order. */
  type Entry = (string, QueryValue)

  /** `v !== undefined && v !== null`: the entry reaches the query string. */
  predicate IsPresent(v: QueryValue) {
    !v.Undefined? && !v.Null?
  }

  /** `String(n)` for an integer. */
  function IntText(n: int): (r: string)
    ensures |r| >= 1
  {
    if n < 0 then "-" + NatToString(-n) else NatToString(n)
  }

  /** The string a scalar value becomes before it is encoded. */
  function ScalarText(v: QueryValue): string
    requires v.Str? || v.Num? || v.Bool?
  {
    match v
    case Str(s) => s
    case Num(n) => IntText(n)
    case Bool(b) => FlagText(b)
  }

  /** The right-hand side of a pair: arrays are comma-joined without
      encoding, scalars are encoded. */
  function PairText(v: QueryValue, encode: string -> string): string
    requires IsPresent(v)
  {
    if v.Arr? then Join(v.items, ',') else encode(ScalarText(v))
  }

  /** One `k=v` pair; the key is never encoded. */
  function Pair(k: string, v: QueryValue, encode: string -> string): (r: string)
    requires IsPresent(v)
    ensures |r| > |k| && r[..|k| + 1] == k + "="
    ensures r[|k| + 1..] == PairText(v, encode)
  {
    var text := PairText(v, encode);
    assert (k + "=" + text)[..|k| + 1] == k + "=";
    assert (k + "=" + text)[|k| + 1..] == text;
    k + "=" + text
  }

  /** The entry reaches the query string. */
  predicate Survives(e: Entry) {
    IsPresent(e.1)
  }

  /** The pairs of the entries that survive the filter, in entry order. */
  function Pairs(entries: seq<Entry>, encode: string -> string): (r: seq<string>)
    ensures |r| <= |entries|
  {
    if entries == [] then []
    else
      var (k, v) := entries[0];
      (if IsPresent(v) then [Pair(k, v, encode)] else []) + Pairs(entries[1..], encode)
  }

  /** Pair `i` is built from the `i`-th surviving entry, from its key and its value. */
  lemma {:induction false} PairsOfSurvivors(entries: seq<Entry>, encode: string -> string)
    ensures var kept := Filter(Survives, entries);
      && |Pairs(entries, encode)| == |kept|
      && forall i :: 0 <= i < |kept| ==> Pairs(entries, encode)[i] == Pair(kept[i].0, kept[i].1, encode)
  {
    if entries != [] {
      var e, tail := entries[0], entries[1..];
      PairsOfSurvivors(tail, encode);
      var ps, rest := Pairs(entries, encode), Pairs(tail, encode);
      var kept, keptRest := Filter(Survives, entries), Filter(Survives, tail);
      assert entries == [e] + tail;
      FilterCons(Survives, e, tail);
      if Survives(e) {
        assert kept == [e] + keptRest;
        assert ps == [Pair(e.0, e.1, encode)] + rest;
        forall i | 1 <= i < |kept| ensures ps[i] == Pair(kept[i].0, kept[i].1, encode) {
          assert kept[i] == keptRest[i - 1] && ps[i] == rest[i - 1];
        }
      } else {
        assert kept == keptRest;
        assert ps == rest;
      }
    }
  }

  /** `toQuery(params)`: "" when no entry survives, otherwise "?" and the pairs joined by "&". */
  function ToQuery(entries: seq<Entry>, encode: string -> string): string {
    var q := Join(Pairs(entries, encode), '&');
    if q == "" then "" else "?" + q
  }

  /** The keys of the entries that reach the query string, in order. */
  function QueryKeys(entries: seq<Entry>): (r: seq<string>)
    ensures forall k :: k in r <==> exists i :: 0 <= i < |entries| && entries[i].0 == k && IsPresent(entries[i].1)
  {
    if entries == [] then []
    else
      var rest := QueryKeys(entries[1..]);
      assert forall i :: 0 <= i < |entries[1..]| ==> entries[1..][i] == entries[i + 1];
      (if IsPresent(entries[0].1) then [entries[0].0] else []) + rest
  }

  /** Exactly the surviving entries produce pairs, one each, with their own keys. */
  lemma {:induction false} PairsFollowKeys(entries: seq<Entry>, encode: string -> string)
    ensures |Pairs(entries, encode)| == |QueryKeys(entries)|
    ensures forall i :: 0 <= i < |Pairs(entries, encode)| ==>
      |QueryKeys(entries)[i]| < |Pairs(entries, encode)[i]| &&
      Pairs(entries, encode)[i][..|QueryKeys(entries)[i]| + 1] == QueryKeys(entries)[i] + "="
  {
    if entries != [] {
      PairsFollowKeys(entries[1..], encode);
      var (k, v) := entries[0];
      if IsPresent(v) {
        var p := Pair(k, v, encode);
        assert Pairs(entries, encode) == [p] + Pairs(entries[1..], encode);
        assert QueryKeys(entries) == [k] + QueryKeys(entries[1..]);
      } else {
        assert Pairs(entries, encode) == Pairs(entries[1..], encode);
        assert QueryKeys(entries) == QueryKeys(entries[1..]);
      }
    }
  }

  /** An entry is dropped exactly when its value is `undefined` or `null`:
      `false`, `0` and `""` all produce a pair. */
  lemma DropsOnlyNullish(k: string, v: QueryValue, encode: string -> string)
    ensures Pairs([(k, v)], encode) == [] <==> v == Undefined || v == Null
    ensures v == Bool(false) || v == Num(0) || v == Str("") ==>
      Pairs([(k, v)], encode) == [k + "=" + encode(ScalarText(v))]
  {
    assert [(k, v)][1..] == [];
  }

  /** The query string is empty exactly when no entry survives the filter. */
  lemma ToQueryEmptyIff(entries: seq<Entry>, encode: string -> string)
    ensures ToQuery(entries, encode) == "" <==> forall i :: 0 <= i < |entries| ==> !IsPresent(entries[i].1)
  {
    var ps := Pairs(entries, encode);
    PairsFollowKeys(entries, encode);
    if ps != [] {
      JoinStartsWithFirst(ps, '&');
      assert QueryKeys(entries)[0] in QueryKeys(entries);
    } else {
      assert QueryKeys(entries) == [];
      forall i | 0 <= i < |entries| ensures !IsPresent(entries[i].1) {
        assert entries[i].0 !in QueryKeys(entries);
      }
    }
  }

  /** When no pair contains "&" (keys and array items free of it, and the
      encoder never emitting it, as `encodeURIComponent` does not), splitting
      the query string after its "?" on "&" gives back the pairs. */
  lemma ToQuerySplits(entries: seq<Entry>, encode: string -> string)
    requires forall i :: 0 <= i < |Pairs(entries, encode)| ==> '&' !in Pairs(entries, encode)[i]
    requires exists i :: 0 <= i < |entries| && IsPresent(entries[i].1)
    ensures |ToQuery(entries, encode)| >= 1 && ToQuery(entries, encode)[0] == '?'
    ensures Split(ToQuery(entries, encode)[1..], '&') == Pairs(entries, encode)
  {
    ToQueryEmptyIff(entries, encode);
    var ps := Pairs(entries, encode);
    var q := Join(ps, '&');
    assert ps != [];
    assert ("?" + q)[1..] == q;
    SplitJoin(ps, '&');
  }

  // ---------------------------------------------------------------------------
  // getUrl of the requests that build a query string
  // ---------------------------------------------------------------------------

  /** `QueryCourseList.getUrl`: every option goes into the query string. */
  function CourseListUrl(options: seq<Entry>, encode: string -> string): string {
    "/api/v1/courses" + ToQuery(options, encode)
  }

  /** The course list path is bare exactly when no option is set. */
  lemma CourseListUrlBare(options: seq<Entry>, encode: string -> string)
    ensures CourseListUrl(options, encode) == "/api/v1/courses"
        <==> forall i :: 0 <= i < |options| ==> !IsPresent(options[i].1)
  {
    ToQueryEmptyIff(options, encode);
    var q := ToQuery(options, encode);
    assert "/api/v1/courses" + q == "/api/v1/courses" <==> q == "" by {
      assert |"/api/v1/courses" + q| == |"/api/v1/courses"| + |q|;
    }
  }

  /** The value `const { courseId } = options` reads: the property's value,
      `undefined` when there is none. */
  function Lookup(options: seq<Entry>, key: string): QueryValue {
    if options == [] then Undefined
    else if options[0].0 == key then options[0].1
    else Lookup(options[1..], key)
  }

  /** `const { courseId, ...rest } = options`: the other properties, in order. */
  function Without(options: seq<Entry>, key: string): (r: seq<Entry>)
    ensures forall i :: 0 <= i < |r| ==> r[i].0 != key && r[i] in options
    ensures forall e :: e in options && e.0 != key ==> e in r
  {
    Filter((e: Entry) => e.0 != key, options)
  }

  /** How a template literal renders an interpolated value. */
  function TemplateText(v: QueryValue): string {
    match v
    case Undefined => "undefined"
    case Null => "null"
    case Str(s) => s
    case Num(n) => IntText(n)
    case Bool(b) => if b then "true" else "false"
    case Arr(items) => Join(items, ',')
  }

  /** `QueryCourseDetail.getUrl`: the course id goes into the path, every other
      option into the query string. */
  function CourseDetailUrl(options: seq<Entry>, encode: string -> string): string {
    "/api/v1/courses/" + TemplateText(Lookup(options, "courseId")) + ToQuery(Without(options, "courseId"), encode)
  }

  /** In the course detail request the course id never reaches the query
      string, and every other option that is present does. */
  lemma CourseDetailQueryKeys(options: seq<Entry>, key: string)
    ensures "courseId" !in QueryKeys(Without(options, "courseId"))
    ensures key != "courseId" && (exists i :: 0 <= i < |options| && options[i].0 == key && IsPresent(options[i].1))
            ==> key in QueryKeys(Without(options, "courseId"))
  {
    var rest := Without(options, "courseId");
    if key != "courseId" && exists i :: 0 <= i < |options| && options[i].0 == key && IsPresent(options[i].1) {
      var i :| 0 <= i < |options| && options[i].0 == key && IsPresent(options[i].1);
      assert options[i] in rest;
      var j :| 0 <= j < |rest| && rest[j] == options[i];
    }
  }

  /** A pair is its key, "=", and its text. */
  lemma PairIs(k: string, v: QueryValue, encode: string -> string)
    requires IsPresent(v)
    ensures Pair(k, v, encode) == k + "=" + PairText(v, encode)
  {
    var p := Pair(k, v, encode);
    assert p == p[..|k| + 1] + p[|k| + 1..];
  }

  /** The pairs of two properties are those of each, in order. */
  lemma PairsTwo(k1: string, v1: QueryValue, k2: string, v2: QueryValue, encode: string -> string)
    ensures Pairs([(k1, v1), (k2, v2)], encode)
         == (if IsPresent(v1) then [Pair(k1, v1, encode)] else [])
            + (if IsPresent(v2) then [Pair(k2, v2, encode)] else [])
  {
    var q := [(k1, v1), (k2, v2)];
    assert q[1..] == [(k2, v2)] && q[1..][1..] == [];
  }

  lemma JoinTwo(a: string, b: string, sep: char)
    ensures Join([a, b], sep) == a + [sep] + b
  {
    assert [a, b][1..] == [b];
  }

  /** One present property gives its pair alone. */
  lemma ToQuerySingle(k: string, v: QueryValue, encode: string -> string)
    requires IsPresent(v)
    ensures ToQuery([(k, v)], encode) == "?" + (k + "=" + PairText(v, encode))
  {
    assert [(k, v)][1..] == [];
    PairIs(k, v, encode);
    assert Join([Pair(k, v, encode)], '&') == Pair(k, v, encode);
  }

  /** Two present properties give both pairs, the first first. */
  lemma ToQueryBoth(k1: string, v1: QueryValue, k2: string, v2: QueryValue, encode: string -> string)
    requires IsPresent(v1) && IsPresent(v2)
    ensures ToQuery([(k1, v1), (k2, v2)], encode) == "?" + (k1 + "=" + PairText(v1, encode)) + "&" + (k2 + "=" + PairText(v2, encode))
  {
    assert [(k1, v1), (k2, v2)] == [(k1, v1)] + [(k2, v2)];
    ToQueryCons(k1, v1, [(k2, v2)], encode);
    ToQuerySingle(k2, v2, encode);
    var a, b := k1 + "=" + PairText(v1, encode), k2 + "=" + PairText(v2, encode);
    DropMark(b);
    assert "?" + a + ("&" + b) == "?" + a + "&" + b;
  }

  /** Only one present property gives its pair alone. */
  lemma ToQueryOnly(k1: string, v1: QueryValue, k2: string, v2: QueryValue, encode: string -> string)
    requires IsPresent(v1) != IsPresent(v2)
    ensures IsPresent(v1) ==> ToQuery([(k1, v1), (k2, v2)], encode) == "?" + (k1 + "=" + PairText(v1, encode))
    ensures IsPresent(v2) ==> ToQuery([(k1, v1), (k2, v2)], encode) == "?" + (k2 + "=" + PairText(v2, encode))
  {
    PairsTwo(k1, v1, k2, v2, encode);
    if IsPresent(v1) {
      PairIs(k1, v1, encode);
      assert Join([Pair(k1, v1, encode)], '&') == Pair(k1, v1, encode);
    } else {
      PairIs(k2, v2, encode);
      assert Join([Pair(k2, v2, encode)], '&') == Pair(k2, v2, encode);
    }
  }

  /** No present property gives no query string at all. */
  lemma ToQueryNeither(k1: string, v1: QueryValue, k2: string, v2: QueryValue, encode: string -> string)
    requires !IsPresent(v1) && !IsPresent(v2)
    ensures ToQuery([(k1, v1), (k2, v2)], encode) == ""
  {
    PairsTwo(k1, v1, k2, v2, encode);
  }

  /** `QueryLessonData.getUrl`: only the user id reaches the query string. */
  function LessonDataUrl(courseId: string, lessonId: string, userId: string, encode: string -> string): string {
    "/api/v1/courses/" + courseId + "/lessons/" + lessonId + ToQuery([("userId", Str(userId))], encode)
  }

  /** The lesson data path always carries the encoded user id, and nothing else, as its query. */
  lemma LessonDataUrlIs(courseId: string, lessonId: string, userId: string, encode: string -> string)
    ensures LessonDataUrl(courseId, lessonId, userId, encode)
         == "/api/v1/courses/" + courseId + "/lessons/" + lessonId + "?userId=" + encode(userId)
  {
    var q := [("userId", Str(userId))];
    assert q[1..] == [];
    PairIs("userId", Str(userId), encode);
  }

  /** An optional string property: `undefined` when absent. */
  function OptionalStr(s: Option<string>): QueryValue {
    if s.Some? then Str(s.value) else Undefined
  }

  /** An optional boolean property: `undefined` when absent. */
  function OptionalBool(b: Option<bool>): QueryValue {
    if b.Some? then Bool(b.value) else Undefined
  }

  /** `PutAssessmentAnswerStatus.getUrl`: the question index goes into the path,
      the answer id and the flag into the query string. */
  function AnswerStatusUrl(assessmentId: string, index: int, answerId: Option<string>, flag: Option<bool>,
                           encode: string -> string): string {
    "/api/v1/assessments/" + assessmentId + "/questions/" + IntText(index)
      + ToQuery(AnswerStatusQuery(answerId, flag), encode)
  }

  /** The options of an answer-status request, as entries. */
  function AnswerStatusQuery(answerId: Option<string>, flag: Option<bool>): seq<Entry> {
    [("answerId", OptionalStr(answerId)), ("flag", OptionalBool(flag))]
  }

  /** The text a flag is encoded from. */
  function FlagText(b: bool): string {
    if b then "true" else "false"
  }

  /** With both given, the answer id comes first, then the flag. */
  lemma AnswerStatusQueryBoth(answerId: string, flag: bool, encode: string -> string)
    ensures ToQuery(AnswerStatusQuery(Some(answerId), Some(flag)), encode)
         == "?answerId=" + encode(answerId) + "&flag=" + encode(FlagText(flag))
  {
    ToQueryBoth("answerId", Str(answerId), "flag", Bool(flag), encode);
    var x, y := encode(answerId), encode(FlagText(flag));
    assert "?" + ("answerId" + "=" + x) + "&" + ("flag" + "=" + y) == "?answerId=" + x + "&flag=" + y;
  }

  /** With only the answer id given, the query holds it alone. */
  lemma AnswerStatusQueryAnswerOnly(answerId: string, encode: string -> string)
    ensures ToQuery(AnswerStatusQuery(Some(answerId), None), encode) == "?answerId=" + encode(answerId)
  {
    ToQueryOnly("answerId", Str(answerId), "flag", Undefined, encode);
    var x := encode(answerId);
    assert "?" + ("answerId" + "=" + x) == "?answerId=" + x;
  }

  /** With only the flag given, the query holds it alone. */
  lemma AnswerStatusQueryFlagOnly(flag: bool, encode: string -> string)
    ensures ToQuery(AnswerStatusQuery(None, Some(flag)), encode) == "?flag=" + encode(FlagText(flag))
  {
    ToQueryOnly("answerId", Undefined, "flag", Bool(flag), encode);
    var y := encode(FlagText(flag));
    assert "?" + ("flag" + "=" + y) == "?flag=" + y;
  }

  /** With neither given, there is no query string and no "?". */
  lemma AnswerStatusQueryNeither(encode: string -> string)
    ensures ToQuery(AnswerStatusQuery(None, None), encode) == ""
  {
    ToQueryNeither("answerId", Undefined, "flag", Undefined, encode);
  }

  /** `QueryDiscussion.getUrl`: the user id and the cursor go into the query string. */
  function DiscussionUrl(courseId: string, lessonId: string, userId: string, after: Option<string>,
                         encode: string -> string): string {
    "/api/v1/courses/" + courseId + "/lessons/" + lessonId + "/discussions"
      + ToQuery([("userId", Str(userId)), ("after", OptionalStr(after))], encode)
  }

  /** The discussion query always carries the user id, then the cursor when one is given. */
  lemma DiscussionUrlIs(courseId: string, lessonId: string, userId: string, after: Option<string>,
                        encode: string -> string)
    ensures var base := "/api/v1/courses/" + courseId + "/lessons/" + lessonId + "/discussions";
      DiscussionUrl(courseId, lessonId, userId, after, encode)
        == base + "?userId=" + encode(userId) + (if after.Some? then "&after=" + encode(after.value) else "")
  {
    if after.Some? {
      ToQueryBoth("userId", Str(userId), "after", OptionalStr(after), encode);
    } else {
      ToQueryOnly("userId", Str(userId), "after", OptionalStr(after), encode);
    }
  }

  // ---------------------------------------------------------------------------
  // getUrl of the other requests that build a query string
  // ---------------------------------------------------------------------------

  /** A query of the user id alone. */
  lemma UserIdQuery(userId: string, encode: string -> string)
    ensures ToQuery([("userId", Str(userId))], encode) == "?userId=" + encode(userId)
  {
    ToQuerySingle("userId", Str(userId), encode);
  }

  /** A query of the user id and a cursor: the cursor only when one is given. */
  lemma UserIdAfterQuery(userId: string, after: Option<string>, encode: string -> string)
    ensures ToQuery([("userId", Str(userId)), ("after", OptionalStr(after))], encode)
         == "?userId=" + encode(userId) + (if after.Some? then "&after=" + encode(after.value) else "")
  {
    if after.Some? {
      ToQueryBoth("userId", Str(userId), "after", OptionalStr(after), encode);
    } else {
      ToQueryOnly("userId", Str(userId), "after", OptionalStr(after), encode);
    }
  }

  /** A present first property gives the first pair; the pairs of the other
      properties, if any, follow after "&". */
  lemma ToQueryCons(k: string, v: QueryValue, rest: seq<Entry>, encode: string -> string)
    requires IsPresent(v)
    ensures var tail := ToQuery(rest, encode);
      ToQuery([(k, v)] + rest, encode)
        == "?" + (k + "=" + PairText(v, encode)) + (if tail == "" then "" else "&" + tail[1..])
  {
    var p, ps := Pair(k, v, encode), Pairs(rest, encode);
    PairsCons(k, v, rest, encode);
    PairIs(k, v, encode);
    JoinCons(p, ps, '&');
    JoinPairsEmpty(rest, encode);
    var x := if ps == [] then "" else "&" + Join(ps, '&');
    ConsQuery(p, x, Join([p] + ps, '&'));
    if ps != [] {
      DropMark(Join(ps, '&'));
    }
  }

  /** The pairs of a list that starts with a present property. */
  lemma PairsCons(k: string, v: QueryValue, rest: seq<Entry>, encode: string -> string)
    requires IsPresent(v)
    ensures Pairs([(k, v)] + rest, encode) == [Pair(k, v, encode)] + Pairs(rest, encode)
  {
    var es := [(k, v)] + rest;
    assert es[0] == (k, v) && es[1..] == rest;
  }

  /** A non-empty joined query `j` is `p` followed by `x`. */
  lemma ConsQuery(p: string, x: string, j: string)
    requires |p| > 0 && j == p + x
    ensures (if j == "" then "" else "?" + j) == "?" + p + x
  {
  }

  lemma DropMark(q: string)
    ensures ("?" + q)[1..] == q
  {
  }

  /** No pair is empty, so the pairs join to "" only when there are none. */
  lemma {:induction false} JoinPairsEmpty(entries: seq<Entry>, encode: string -> string)
    ensures Join(Pairs(entries, encode), '&') == "" <==> Pairs(entries, encode) == []
  {
    if entries != [] {
      var e, tail := entries[0], entries[1..];
      var ps := Pairs(entries, encode);
      if IsPresent(e.1) {
        assert ps == [Pair(e.0, e.1, encode)] + Pairs(tail, encode);
        JoinStartsWithFirst(ps, '&');
      } else {
        JoinPairsEmpty(tail, encode);
        assert ps == Pairs(tail, encode);
      }
    }
  }

  /** Joining a head onto a list puts the separator between them only when the list is not empty. */
  lemma JoinCons(p: string, ps: seq<string>, sep: char)
    ensures Join([p] + ps, sep) == p + (if ps == [] then "" else [sep] + Join(ps, sep))
  {
    assert ([p] + ps)[0] == p && ([p] + ps)[1..] == ps;
  }

  /** `QueryAssessmentData.getUrl`: the question index goes into the path, the
      user id into the query string. */
  function AssessmentDataUrl(assessmentId: string, index: int, userId: string, encode: string -> string): string {
    "/api/v1/assessments/" + assessmentId + "/questions/" + IntText(index) + ToQuery([("userId", Str(userId))], encode)
  }

  /** The question path always ends in the encoded user id, and nothing else. */
  lemma AssessmentDataUrlIs(assessmentId: string, index: int, userId: string, encode: string -> string)
    ensures AssessmentDataUrl(assessmentId, index, userId, encode)
         == "/api/v1/assessments/" + assessmentId + "/questions/" + IntText(index) + "?userId=" + encode(userId)
  {
    UserIdQuery(userId, encode);
  }

  /** `ReviewAssessment.getUrl`: the user id, which the options may leave out,
      goes into the query string. */
  function ReviewAssessmentUrl(assessmentId: string, userId: Option<string>, encode: string -> string): string {
    "/api/v1/assessments/" + assessmentId + "/review" + ToQuery([("userId", OptionalStr(userId))], encode)
  }

  /** The review path ends in the encoded user id when one is given, and is
      bare, with no "?", when none is. */
  lemma ReviewAssessmentUrlIs(assessmentId: string, userId: Option<string>, encode: string -> string)
    ensures ReviewAssessmentUrl(assessmentId, userId, encode)
         == "/api/v1/assessments/" + assessmentId + "/review"
            + (if userId.Some? then "?userId=" + encode(userId.value) else "")
  {
    if userId.Some? {
      UserIdQuery(userId.value, encode);
    } else {
      ToQueryEmptyIff([("userId", OptionalStr(userId))], encode);
    }
  }

  /** `MarkLesson.getUrl`: the user id and the status go into the query string. */
  function MarkLessonUrl(courseId: string, lessonId: string, userId: string, status: string,
                         encode: string -> string): string {
    "/api/v1/courses/" + courseId + "/lessons/" + lessonId + "/status"
      + ToQuery([("userId", Str(userId)), ("status", Str(status))], encode)
  }

  /** The mark path carries the user id, then the status, both encoded. */
  lemma MarkLessonUrlIs(courseId: string, lessonId: string, userId: string, status: string,
                        encode: string -> string)
    ensures MarkLessonUrl(courseId, lessonId, userId, status, encode)
         == "/api/v1/courses/" + courseId + "/lessons/" + lessonId + "/status"
            + "?userId=" + encode(userId) + "&status=" + encode(status)
  {
    ToQueryBoth("userId", Str(userId), "status", Str(status), encode);
  }

  /** `QueryCertificates.getUrl`: every option goes into the query string. */
  function CertificatesUrl(options: seq<Entry>, encode: string -> string): string {
    "/api/v1/certificates" + ToQuery(options, encode)
  }

  /** Certificate options written in the order their type declares them. */
  function CertificatesOptions(userId: string, query: Option<string>, after: Option<string>): seq<Entry> {
    [("userId", Str(userId)), ("query", OptionalStr(query)), ("after", OptionalStr(after))]
  }

  /** What two optional string properties add after a first pair: each one
      that is given, as "&", its key, "=" and its encoded value. */
  lemma OptionalPairsAfter(k1: string, a: Option<string>, k2: string, b: Option<string>, encode: string -> string)
    ensures var t := ToQuery([(k1, OptionalStr(a)), (k2, OptionalStr(b))], encode);
      (if t == "" then "" else "&" + t[1..])
        == (if a.Some? then "&" + k1 + "=" + encode(a.value) else "")
           + (if b.Some? then "&" + k2 + "=" + encode(b.value) else "")
  {
    if a.Some? && b.Some? {
      BothAfter(k1, a.value, k2, b.value, encode);
    } else if a.Some? {
      OneAfter(k1, a.value, encode);
      ToQueryOnly(k1, OptionalStr(a), k2, OptionalStr(b), encode);
    } else if b.Some? {
      OneAfter(k2, b.value, encode);
      ToQueryOnly(k1, OptionalStr(a), k2, OptionalStr(b), encode);
    } else {
      ToQueryNeither(k1, OptionalStr(a), k2, OptionalStr(b), encode);
    }
  }

  lemma OneAfter(k: string, s: string, encode: string -> string)
    ensures var t := "?" + (k + "=" + PairText(Str(s), encode));
      t != "" && "&" + t[1..] == "&" + k + "=" + encode(s)
  {
    var p := k + "=" + encode(s);
    DropMark(p);
  }

  lemma BothAfter(k1: string, s1: string, k2: string, s2: string, encode: string -> string)
    ensures var t := ToQuery([(k1, Str(s1)), (k2, Str(s2))], encode);
      t != "" && "&" + t[1..] == ("&" + k1 + "=" + encode(s1)) + ("&" + k2 + "=" + encode(s2))
  {
    ToQueryBoth(k1, Str(s1), k2, Str(s2), encode);
    var p1, p2 := k1 + "=" + encode(s1), k2 + "=" + encode(s2);
    assert "?" + p1 + "&" + p2 == "?" + (p1 + "&" + p2);
    DropMark(p1 + "&" + p2);
    assert "&" + (p1 + "&" + p2) == ("&" + p1) + ("&" + p2);
  }

  /** The certificate query is the user id, then the search text and the cursor
      each only when given. */
  lemma CertificatesUrlIs(userId: string, query: Option<string>, after: Option<string>, encode: string -> string)
    ensures CertificatesUrl(CertificatesOptions(userId, query, after), encode)
         == "/api/v1/certificates" + "?userId=" + encode(userId)
            + (if query.Some? then "&query=" + encode(query.value) else "")
            + (if after.Some? then "&after=" + encode(after.value) else "")
  {
    CertificatesQuery(userId, query, after, encode);
  }

  /** A present first property followed by two optional string properties. */
  lemma ToQueryThenOptional(k0: string, v0: QueryValue, k1: string, a: Option<string>, k2: string, b: Option<string>,
                            encode: string -> string)
    requires IsPresent(v0)
    ensures ToQuery([(k0, v0), (k1, OptionalStr(a)), (k2, OptionalStr(b))], encode)
         == "?" + (k0 + "=" + PairText(v0, encode))
            + ((if a.Some? then "&" + k1 + "=" + encode(a.value) else "")
               + (if b.Some? then "&" + k2 + "=" + encode(b.value) else ""))
  {
    var rest := [(k1, OptionalStr(a)), (k2, OptionalStr(b))];
    assert [(k0, v0), (k1, OptionalStr(a)), (k2, OptionalStr(b))] == [(k0, v0)] + rest;
    ToQueryCons(k0, v0, rest, encode);
    OptionalPairsAfter(k1, a, k2, b, encode);
  }

  lemma CertificatesQuery(userId: string, query: Option<string>, after: Option<string>, encode: string -> string)
    ensures ToQuery(CertificatesOptions(userId, query, after), encode)
         == "?userId=" + encode(userId)
            + (if query.Some? then "&query=" + encode(query.value) else "")
            + (if after.Some? then "&after=" + encode(after.value) else "")
  {
    ToQueryThenOptional("userId", Str(userId), "query", query, "after", after, encode);
    var u := encode(userId);
    var x := if query.Some? then "&query=" + encode(query.value) else "";
    var y := if after.Some? then "&after=" + encode(after.value) else "";
    assert PairText(Str(userId), encode) == u;
    assert "&" + "query" + "=" == "&query=";
    assert "&" + "after" + "=" == "&after=";
    assert "?" + ("userId" + "=" + u) == "?userId=" + u;
    assert "?userId=" + u + (x + y) == "?userId=" + u + x + y;
  }

  /** `QueryDiscussionReplies.getUrl`: the user id and the cursor go into the query string. */
  function DiscussionRepliesUrl(discussionId: string, userId: string, after: Option<string>,
                                encode: string -> string): string {
    "/api/v1/discussions/" + discussionId + ToQuery([("userId", Str(userId)), ("after", OptionalStr(after))], encode)
  }

  /** The replies query is the user id, then `&after=` only when a cursor is given. */
  lemma DiscussionRepliesUrlIs(discussionId: string, userId: string, after: Option<string>,
                               encode: string -> string)
    ensures DiscussionRepliesUrl(discussionId, userId, after, encode)
         == "/api/v1/discussions/" + discussionId + "?userId=" + encode(userId)
            + (if after.Some? then "&after=" + encode(after.value) else "")
  {
    UserIdAfterQuery(userId, after, encode);
  }

  /** `BlockadeVisit.getUrl`: every option goes into the query string. */
  function BlockadeVisitUrl(options: seq<Entry>, encode: string -> string): string {
    "/api/v1/check" + ToQuery(options, encode)
  }

  /** With its one option, the user id, the check path ends in the encoded id. */
  lemma BlockadeVisitUrlIs(userId: string, encode: string -> string)
    ensures BlockadeVisitUrl([("userId", Str(userId))], encode) == "/api/v1/check?userId=" + encode(userId)
  {
    UserIdQuery(userId, encode);
  }

  /** `QueryNotifications.getUrl`: every option goes into the query string. */
  function NotificationsUrl(options: seq<Entry>, encode: string -> string): string {
    "/api/v1/notifications" + ToQuery(options, encode)
  }

  /** With the user id and an optional cursor, in that order, the cursor
      follows only when given. */
  lemma NotificationsUrlIs(userId: string, after: Option<string>, encode: string -> string)
    ensures NotificationsUrl([("userId", Str(userId)), ("after", OptionalStr(after))], encode)
         == "/api/v1/notifications?userId=" + encode(userId)
            + (if after.Some? then "&after=" + encode(after.value) else "")
  {
    UserIdAfterQuery(userId, after, encode);
  }
}
