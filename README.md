# codeleap core, modelled in Dafny

This project models the logic of the codeleap learning platform and proves properties of that model. The logic covered is:

- **The lesson comment store** (`src/data/comments.ts`). Two module arrays hold the comments and the comment votes. `addComment` appends a comment and bumps its parent's reply counter. `voteOnComment` adds, retracts or switches a user's vote and moves the comment's `upvotes`/`downvotes` counters with it. The query helpers filter and look up by id.
  - The store is the class `CommentStore.CommentRepository`, whose methods reassign two sequences.
  - The transitions are specified by the functions `AddedTo` and `CastVote`.
- **The comment section component** (`src/components/comment-section.tsx`).
  - The sort comparator: pinned first, then the selected key.
  - The `totalComments` reduce.
  - `handleVote`, the optimistic local copy of the vote transition. It is the class `CommentItemView`.
  - The blank-content guard of the comment form. It is the class `CommentFormView`.
- **Course progress** (`src/services/helpers.ts`, `calculateCourseProgress`). This covers the content total, the completion counts and the rounded percentage. It also covers the nested-loop search for the next lesson: sections in order, and within a section all articles before any assessment.
- **Request URLs** (`src/types/api.ts`): `toQuery`, and the `getUrl` of every request that builds a query string with it. These are the course list, course detail, lesson data, assessment question, answer status, assessment review, mark lesson, certificate list, discussion, discussion replies, visit check and notification requests.
- **Request-body schemas** (`src/types/form.ts`). Each zod schema becomes a parser from a decoded JSON value to a typed record, or `None` when the schema rejects the value.
- **The admin list editors** (`src/app/admin/assessments/new/page.tsx`, `src/app/admin/learning-materials/new/page.tsx`).
  - The question list and the section list are classes holding a sequence.
  - Each handler is a method whose contract says what changes and that nothing else does.
  - The multiple-answer checkbox toggles an option index in a comma-joined string.

The JavaScript built-ins the code relies on are written out in `JsLib`. These are `filter`, `find`/`findIndex`, `splice(i, 1)`, `join`, `split`, `trim`, `includes`, and number-to-string.

Behaviour of the code that a reader might not expect; the model follows the code as written:

- `addComment` validates nothing and has no error path.
  - A reply whose parent does not resolve is still stored.
  - The parent is looked up after the new comment is pushed. So a draft naming the new comment's own id as its parent makes the comment count itself as its own reply (`SelfReplyAccepted`).
- `voteOnComment` on an unknown comment silently does nothing.
- The sort has no secondary key. Ties keep their input order (`SortedListingStable`); they are not ordered by `createdAt`.
- Voting twice with the same type restores the counters and the set of votes only when the first click added or removed a vote. When the first click switched an opposite vote, the second click leaves no vote, and the opposite counter ends one lower (`VoteTwice`).
- The completion counts of `calculateCourseProgress` count progress rows of the whole course in the database, not the items of the given sections. So the percentage is bounded by 100 only when the count does not exceed the item total.
- The discussion schemas accept whitespace-only content, which the comment form refuses (`DiscussionAcceptsBlankContent`).

## Model

| member | source | states |
|---|---|---|
| CommentStore.CommentsByLesson | src/data/comments.ts:473-475 | the result holds exactly the stored comments of the lesson |
| CommentStore.TopLevelComments | src/data/comments.ts:477-481 | the result holds exactly the comments of the lesson whose `parentCommentId` is falsy |
| CommentStore.TopLevelAppend | src/data/comments.ts:477-481 | the result keeps store order: appending a comment appends it to the result exactly when it is top-level in the lesson |
| CommentStore.Replies | src/data/comments.ts:483-487 | the result holds exactly the comments whose parent is the given id (direct children only) |
| CommentStore.CommentIndex | src/data/comments.ts:489-491 | finds the first comment with the id; `None` exactly when no comment has it |
| CommentStore.CommentById | src/data/comments.ts:489-491 | returns a stored comment with the id, the first one; `None` exactly when there is none |
| CommentStore.VoteIndex | src/data/comments.ts:497-499 | the position of the user's first vote on the comment; `None` exactly when the user has none |
| CommentStore.UserVoteForComment | src/data/comments.ts:493-500 | returns the user's first stored vote on the comment; `None` exactly when there is none |
| CommentStore.CommentVotes | src/data/comments.ts:502-504 | the result holds exactly the votes on the comment |
| CommentStore.AddedTo | src/data/comments.ts:510-529 | the list grows by one at the end with a zero-counter, unedited copy of the draft. A resolved parent (looked up after the push) gets exactly one more reply and nothing else changes. With no parent, or an unresolved one, the old comments are untouched |
| CommentStore.NewComment | src/data/comments.ts:510-520 | the comment `addComment` builds; `AddedTo` and `AddedAt` state it: the draft's fields, the given id, both timestamps now, zero counters, not edited |
| CommentStore.BumpReplies | src/data/comments.ts:521-528 | one more reply on the parent; `AddedTo` and `AddedAt` state that only `replyCount` changes, by exactly 1 |
| CommentStore.AddedAt | src/data/comments.ts:521-528 | each comment after `addComment` differs from before only in `replyCount`, which rises by 1 exactly for the draft's parent |
| CommentStore.RepliesAppend | src/data/comments.ts:483-487 | appending a comment adds one reply to its parent's reply list and to no other |
| CommentStore.RepliesIgnoreCounters | src/data/comments.ts:483-487 | reply lists do not depend on counter fields |
| CommentStore.NoRepliesToUnknownId | src/data/comments.ts:483-487 | when every parent resolves, an id not in the store has no replies |
| CommentStore.AddCommentKeepsReplyCounts | src/data/comments.ts:507-532 | if every `replyCount` equals the number of direct replies and every parent resolves, `addComment` with a resolving parent keeps both true |
| CommentStore.SelfReplyAccepted | src/data/comments.ts:521-528 | a draft naming the new comment's own id as parent is stored as its own parent with `replyCount` 1 |
| CommentStore.Retract | src/data/comments.ts:545-559 | retracting changes only the vote counters, and only those of the voted comment |
| CommentStore.Record | src/data/comments.ts:567-583 | recording changes only the vote counters, and only those of the voted comment |
| CommentStore.CastVote | src/data/comments.ts:535-584 | an unknown comment leaves everything unchanged; otherwise only the voted comment's counters change |
| CommentStore.VoteIndexById | src/data/comments.ts:547-549 | with unique vote ids, looking the found vote up again by id gives back its own position |
| CommentStore.VoteIdIndex | src/data/comments.ts:547-549 | the position of the first vote with the id; `None` exactly when no vote has it |
| CommentStore.DriftAfterRetract | src/data/comments.ts:545-559 | removing a vote on comment `ci` and taking one off its counter keeps every comment's drift |
| CommentStore.DriftAfterRecord | src/data/comments.ts:567-583 | pushing a vote on comment `ci` and adding one to its counter keeps every comment's drift |
| CommentStore.RetractRecorded | src/data/comments.ts:545-583 | retracting a vote that was just recorded with a fresh id restores both arrays exactly |
| CommentStore.CastVoteShape | src/data/comments.ts:545-583 | the three cases. No prior vote: the new vote is appended and its counter goes up 1. Same type: the vote is spliced out and its counter goes down 1. Opposite type: spliced out, new vote appended, old counter down 1 and new counter up 1 |
| CommentStore.CountAfterSplice | src/data/comments.ts:551 | splicing out a vote lowers its (comment, type) count by one and no other |
| CommentStore.CountAfterPush | src/data/comments.ts:576 | pushing a vote raises its (comment, type) count by one and no other |
| CommentStore.VoteTransitionTable | src/data/comments.ts:545-583 | the same three transitions stated by the vote found and the counters: one more, one fewer, or swapped (as multisets of votes) |
| CommentStore.SpliceKeepsIds | src/data/comments.ts:551 | splicing keeps vote ids unique and adds no vote |
| CommentStore.SpliceKeepsPairs | src/data/comments.ts:551 | splicing keeps at most one vote per (user, comment) and removes the spliced pair entirely |
| CommentStore.VoteKeepsOneVotePerPair | src/data/comments.ts:535-584 | with a fresh vote id, at most one vote per (user, comment) and unique vote ids survive every call |
| CommentStore.VoteKeepsOneVotePerPairIds | src/data/comments.ts:535-584 | comment ids stay unique and vote ids stay unique across a call |
| CommentStore.VoteKeepsDrift | src/data/comments.ts:535-584 | for every comment and type, counter minus stored votes of that type is unchanged |
| CommentStore.VoteLeavesOthersAlone | src/data/comments.ts:535-584 | votes of other (user, comment) pairs keep their multiplicity |
| CommentStore.BallotsAppend | src/data/comments.ts:576 | the (user, comment, type) multiset of a concatenation is the sum of the parts |
| CommentStore.BallotsSplice | src/data/comments.ts:551 | splicing removes exactly the spliced vote's (user, comment, type) |
| CommentStore.SecondClickSetup | src/data/comments.ts:535-584 | after one call the comment keeps its position and the store invariants hold |
| CommentStore.VoteIndexAfterPush | src/data/comments.ts:576 | a pushed vote of a pair that had none is found at the end |
| CommentStore.VoteTwiceFromNone | src/data/comments.ts:561-583 | from no vote, two clicks restore the whole store |
| CommentStore.VoteTwiceFromSame | src/data/comments.ts:561-583 | from a vote of the clicked type, two clicks restore the comments and the (user, comment, type) multiset |
| CommentStore.VoteTwiceFromOpposite | src/data/comments.ts:561-583 | from an opposite vote, two clicks leave no vote; the clicked counter is restored and the other ends 1 lower |
| CommentStore.VoteTwice | src/data/comments.ts:561-583 | the three cases together; the clicked counter is always restored |
| CommentStore.AdjustBack | src/data/comments.ts:555-582 | a comment whose two counters are restored after counter-only changes is the original comment |
| CommentStore.CommentRepository.constructor | src/data/comments.ts:3-470 | the store starts from the given seed arrays |
| CommentStore.CommentRepository.AddComment | src/data/comments.ts:507-532 | the comments become `AddedTo` of the old ones; the votes are unchanged; the returned comment is the one appended |
| CommentStore.CommentRepository.VoteOnComment | src/data/comments.ts:535-584 | the comments and votes become `CastVote` of the old ones |
| CommentTypes.Opposite | src/types/comment.ts:27 | the other vote type differs from the given one |
| CommentTypes.AdjustCounter | src/data/comments.ts:555-582 | only the counter of the given type moves, by the given amount |
| CommentSection.CompareTrans | src/components/comment-section.tsx:51-64 | the comparator's order is transitive |
| CommentSection.Insert | src/components/comment-section.tsx:51-64 | inserting keeps every element (as a multiset) |
| CommentSection.InsertSorted | src/components/comment-section.tsx:51-64 | inserting into a sorted list keeps it sorted |
| CommentSection.Compare | src/components/comment-section.tsx:51-64 | the comparator; `CompareTrans`, `SortedListingOrder` and `SortedListingStable` state that it puts pinned comments first, then orders by the selected key, with no secondary key |
| CommentSection.SortComments | src/components/comment-section.tsx:51-64 | the sorted copy is a permutation of the comments and is ordered by the comparator |
| CommentSection.SortedListingOrder | src/components/comment-section.tsx:51-64 | pinned comments precede unpinned ones. Within each group the order is `createdAt` ascending for "oldest", `upvotes` descending for "most_upvoted", and `createdAt` descending otherwise |
| CommentSection.InsertKeepsTies | src/components/comment-section.tsx:51-64 | insertion puts a new element after the elements it ties with |
| CommentSection.SortedListingStable | src/components/comment-section.tsx:51-64 | comments that tie keep their input order: there is no secondary key |
| CommentSection.TotalComments | src/components/comment-section.tsx:66-69 | with no negative reply count, the total is at least the number of comments; `TotalAppend` and the `LessonTotal…` lemmas give its exact value after each store change |
| CommentSection.TotalAppend | src/components/comment-section.tsx:66-69 | the total of a concatenation is the sum of the totals |
| CommentSection.LessonTotalUpdate | src/components/comment-section.tsx:66-69 | changing one comment's reply count moves the lesson total by the same amount exactly when the comment is top-level in the lesson |
| CommentSection.LessonTotalPush | src/components/comment-section.tsx:66-69 | a new top-level comment of the lesson adds 1 plus its replies; any other comment adds nothing |
| CommentSection.LessonTotalAfterReply | src/components/comment-section.tsx:66-69 | a reply raises the lesson total by 1 exactly when its parent, as found in the old list, is a top-level comment of the lesson |
| CommentSection.LessonTotalAfterAdd | src/components/comment-section.tsx:66-69 | after `addComment` the lesson total rises by 1 for a new top-level comment of the lesson, or by 1 for a reply to a top-level comment of the lesson, and is otherwise unchanged: replies to replies are not counted |
| CommentSection.StoredVote | src/components/comment-section.tsx:243-247 | the vote type read on mount is `null` exactly when the user has no stored vote on the comment |
| CommentSection.LocalVote | src/components/comment-section.tsx:249-267 | the local state after one click; `LocalVoteTransition`, `LocalVoteTwice` and `OptimisticAgrees` state its effect |
| CommentSection.LocalVoteTransition | src/components/comment-section.tsx:249-267 | the new vote is `null` exactly when the clicked type was the current vote, else the clicked type; the clicked counter moves by one and the other drops only if it was the previous vote |
| CommentSection.LocalVoteTwice | src/components/comment-section.tsx:249-267 | two clicks restore vote and counters from no vote or the same vote; from the opposite vote they leave no vote and the opposite counter 1 lower |
| CommentSection.OptimisticAgrees | src/components/comment-section.tsx:249-270 | when the local vote equals the stored one, the local counter changes equal the store's, and the new local vote equals the new stored vote |
| CommentSection.CommentItemView.constructor | src/components/comment-section.tsx:239-247 | local counters start from the comment's, the vote from the store |
| CommentSection.CommentItemView.HandleVote | src/components/comment-section.tsx:249-271 | the local state takes the local transition and the store takes `voteOnComment` for the same click |
| CommentSection.HasContent | src/components/comment-section.tsx:159 | `content.trim()` is non-empty exactly when the content is not all whitespace |
| CommentSection.CommentFormView.constructor | src/components/comment-section.tsx:154-155 | empty content, not submitting |
| CommentSection.CommentFormView.SubmitEnabled | src/components/comment-section.tsx:202 | the button is enabled exactly when the content is not blank and no submission is running |
| CommentSection.CommentFormView.HandleSubmit | src/components/comment-section.tsx:157-180 | blank content changes nothing and submits nothing; otherwise the content is cleared and submitting ends false |
| CourseProgress.Tag | src/services/helpers.ts:59 | each item of a list carries that list's type tag, in order |
| CourseProgress.ItemsAppend | src/services/helpers.ts:53-74 | the walk over a concatenation of sections is the walk over each part |
| CourseProgress.TotalContents | src/services/helpers.ts:14-16 | the content total; `TotalContentsCountsItems` states that it is the number of items the walk visits |
| CourseProgress.TotalContentsCountsItems | src/services/helpers.ts:14-16 | the content total is the number of items the walk visits, i.e. the sum of articles and assessments |
| CourseProgress.ItemsTagged | src/services/helpers.ts:59 | every visited item comes from the list its type tag names |
| CourseProgress.CountCompleted | src/services/helpers.ts:26-44 | at most the number of progress rows, and 0 exactly when no row of the user, kind and course has `completedAt` set |
| CourseProgress.RoundPercent | src/services/helpers.ts:47 | the half-up rounding of 100·c/t: `2t·r <= 200c+t < 2t·(r+1)`, non-negative, at most 100 when `c <= t` |
| CourseProgress.FindProgress | src/services/helpers.ts:55-57 | returns a row of the user for the item, and `None` exactly when there is none |
| CourseProgress.FirstIncomplete | src/services/helpers.ts:51-74 | `None` exactly when every item is complete; otherwise an incomplete item preceded only by complete ones |
| CourseProgress.FirstIncompleteAppend | src/services/helpers.ts:53-74 | the search over a concatenation looks in the second part only when the first is all complete |
| CourseProgress.ItemsSplit | src/services/helpers.ts:53-74 | the walk is the sections before `i`, then section `i`'s articles and assessments, then the rest |
| CourseProgress.FirstIncompleteOfPrefix | src/services/helpers.ts:60-73 | an incomplete item found in a prefix is the answer for the whole walk |
| CourseProgress.StopInSection | src/services/helpers.ts:60-73 | breaking inside section `i` after complete earlier sections gives the answer for the whole course |
| CourseProgress.PassSection | src/services/helpers.ts:53-74 | a section with no incomplete item (including an empty one) is passed without stopping |
| CourseProgress.FindIncomplete | src/services/helpers.ts:54-62 | the inner loop finds the first incomplete item of one list, tagged with that list's type |
| CourseProgress.FirstIncompleteIs | src/services/helpers.ts:51-74 | the first incomplete position determines the answer |
| CourseProgress.FindNextLesson | src/services/helpers.ts:51-74 | the nested loops return the first incomplete item in walking order |
| CourseProgress.CalculateCourseProgress | src/services/helpers.ts:9-87 | total 0 gives zero counts and no next lesson. Otherwise the counts are the completed rows, the progress is 0 when none is completed and else the rounded percentage, and `next_lesson` is the first incomplete item. Progress is never negative, at most 100 when the counts do not exceed the total, and `next_lesson` is absent exactly when every item is complete |
| ApiUrls.IntText | src/types/api.ts:331 | the rendering of an integer is never empty |
| ApiUrls.Pair | src/types/api.ts:47 | a pair starts with the unencoded key and `=`, then the text of its value |
| ApiUrls.Pairs | src/types/api.ts:45-47 | at most one pair per entry |
| ApiUrls.PairsOfSurvivors | src/types/api.ts:45-47 | there is one pair per entry that is neither `undefined` nor `null`, in entry order, and pair i is built from the key and value of the i-th such entry |
| ApiUrls.ToQuery | src/types/api.ts:44-50 | the query string; `ToQueryEmptyIff`, `ToQuerySplits` and `ToQueryCons` state its value |
| ApiUrls.ToQueryCons | src/types/api.ts:44-50 | a set first property gives the first pair, and the pairs of the remaining properties, if any, follow after `&` |
| ApiUrls.QueryKeys | src/types/api.ts:45-46 | a key is listed exactly when some entry with it has a value that is neither `undefined` nor `null` |
| ApiUrls.PairsFollowKeys | src/types/api.ts:45-47 | the pairs are the surviving entries, one each, in entry order, each starting with its own key |
| ApiUrls.DropsOnlyNullish | src/types/api.ts:46 | an entry is dropped exactly when its value is `undefined` or `null`; `false`, `0` and `""` produce a pair |
| ApiUrls.ToQueryEmptyIff | src/types/api.ts:48-49 | the query string is `""` exactly when no entry survives |
| ApiUrls.ToQuerySplits | src/types/api.ts:48-49 | a non-empty query is `?` followed by the pairs joined by `&`: splitting it on `&` gives the pairs back |
| ApiUrls.CourseListUrl | src/types/api.ts:80 | the course list path; `CourseListUrlBare` states when it has a query |
| ApiUrls.CourseListUrlBare | src/types/api.ts:80 | the course list path has no query exactly when no option is set |
| ApiUrls.Without | src/types/api.ts:183 | the rest of the options holds exactly the entries not named `courseId` |
| ApiUrls.CourseDetailUrl | src/types/api.ts:182-185 | the course detail path; `Without` and `CourseDetailQueryKeys` state which options reach its query |
| ApiUrls.CourseDetailQueryKeys | src/types/api.ts:182-185 | `courseId` never reaches the query string; every other set option does |
| ApiUrls.ToQueryBoth | src/types/api.ts:44-50 | two set properties give `?k1=v1&k2=v2`, in that order |
| ApiUrls.ToQuerySingle | src/types/api.ts:44-50 | a single set property gives `?k=v` |
| ApiUrls.ToQueryOnly | src/types/api.ts:44-50 | one set property gives `?k=v` alone |
| ApiUrls.ToQueryNeither | src/types/api.ts:44-50 | no set property gives no query string |
| ApiUrls.LessonDataUrl | src/types/api.ts:260-263 | the lesson data path; `LessonDataUrlIs` states it exactly |
| ApiUrls.LessonDataUrlIs | src/types/api.ts:260-263 | the lesson data path always ends in `?userId=` and the encoded user id, and nothing else |
| ApiUrls.AnswerStatusUrl | src/types/api.ts:329-332 | the answer status path; the four `AnswerStatusQuery…` lemmas state its query for each combination of options |
| ApiUrls.AnswerStatusQueryBoth | src/types/api.ts:329-332 | with both given, the query is `?answerId=…&flag=…` |
| ApiUrls.AnswerStatusQueryAnswerOnly | src/types/api.ts:329-332 | with only the answer id given, the query is `?answerId=…` |
| ApiUrls.AnswerStatusQueryFlagOnly | src/types/api.ts:329-332 | with only the flag given, the query is `?flag=…` |
| ApiUrls.AnswerStatusQueryNeither | src/types/api.ts:329-332 | with neither given, there is no query string |
| ApiUrls.DiscussionUrl | src/types/api.ts:519-522 | the discussion path; `DiscussionUrlIs` states it exactly |
| ApiUrls.DiscussionUrlIs | src/types/api.ts:519-522 | the discussion query is the user id, then `&after=` only when a cursor is given |
| ApiUrls.UserIdQuery | src/types/api.ts:44-50 | a query of the user id alone is `?userId=` and the encoded id |
| ApiUrls.UserIdAfterQuery | src/types/api.ts:44-50 | a query of the user id and a cursor is `?userId=…`, then `&after=…` only when a cursor is given |
| ApiUrls.OptionalPairsAfter | src/types/api.ts:44-50 | two optional string properties after a first pair add `&k=v` for each one that is given, in order |
| ApiUrls.ToQueryThenOptional | src/types/api.ts:44-50 | a set first property followed by two optional strings gives its pair, then each given string's pair |
| ApiUrls.AssessmentDataUrl | src/types/api.ts:293-296 | the assessment question path; `AssessmentDataUrlIs` states it exactly |
| ApiUrls.AssessmentDataUrlIs | src/types/api.ts:293-296 | the question index is in the path, and the query is the encoded user id alone |
| ApiUrls.ReviewAssessmentUrl | src/types/api.ts:364-367 | the assessment review path with the optional `userId` of `ReviewAssessmentOptions` as its only query entry; `ReviewAssessmentUrlIs` states it exactly |
| ApiUrls.ReviewAssessmentUrlIs | src/types/api.ts:364-367 | with a user id the review path ends in `?userId=` and the encoded id; without one it is the bare review path, with no `?` |
| ApiUrls.MarkLessonUrl | src/types/api.ts:407-410 | the mark lesson path; `MarkLessonUrlIs` states it exactly |
| ApiUrls.MarkLessonUrlIs | src/types/api.ts:407-410 | the query is `?userId=…&status=…`, both encoded, in that order |
| ApiUrls.CertificatesUrl | src/types/api.ts:465 | the certificate list path; `CertificatesUrlIs` states it for options in declaration order |
| ApiUrls.CertificatesQuery | src/types/api.ts:465 | the certificate query: the user id, then the search text and the cursor, each only when given |
| ApiUrls.CertificatesUrlIs | src/types/api.ts:465 | the certificate list URL is the path, `?userId=…`, then `&query=…` and `&after=…`, each only when given |
| ApiUrls.DiscussionRepliesUrl | src/types/api.ts:580-583 | the discussion replies path; `DiscussionRepliesUrlIs` states it exactly |
| ApiUrls.DiscussionRepliesUrlIs | src/types/api.ts:580-583 | the replies query is the user id, then `&after=` only when a cursor is given |
| ApiUrls.BlockadeVisitUrl | src/types/api.ts:726 | the visit check path; `BlockadeVisitUrlIs` states it exactly |
| ApiUrls.BlockadeVisitUrlIs | src/types/api.ts:726 | with the user id as its one option, the path ends in `?userId=` and the encoded id |
| ApiUrls.NotificationsUrl | src/types/api.ts:754 | the notification path; `NotificationsUrlIs` states it exactly |
| ApiUrls.NotificationsUrlIs | src/types/api.ts:754 | with the user id and a cursor, the query is `?userId=…`, then `&after=…` only when a cursor is given |
| FormSchemas.ParseString | src/types/form.ts:4 | an accepted string is the value itself and at least the minimum length |
| FormSchemas.ParseId | src/types/form.ts:4 | an accepted id is a non-empty string |
| FormSchemas.ParseUrl | src/types/form.ts:6 | an accepted URL is a string the URL check accepts |
| FormSchemas.ParseInt | src/types/form.ts:42 | an accepted number is a whole number within the given bounds |
| FormSchemas.ParseOptional | src/types/form.ts:50 | `undefined` is accepted as absent; any other value only if the inner schema accepts it |
| FormSchemas.ParseNullable | src/types/form.ts:79 | `null` is accepted as absent; any other value only if the inner schema accepts it, and then as the inner schema's value |
| FormSchemas.ParseArray | src/types/form.ts:18 | an array is accepted exactly when every element is, and the result is the parsed elements in order |
| FormSchemas.ArrayRoundTrip | src/types/form.ts:18 | an array of encoded records parses back to the records |
| FormSchemas.CourseLevelAcceptsExactly | src/types/form.ts:10 | exactly "beginner", "intermediate" and "expert" are accepted, each as its own level |
| FormSchemas.ParseTag | src/types/form.ts:11-14 | an accepted tag is the input's `id` and `name` strings, and its id is non-empty |
| FormSchemas.TagRoundTrip | src/types/form.ts:11-14 | every tag with a non-empty id is accepted and read back unchanged; the name may be empty |
| FormSchemas.ParseCourseCreate | src/types/form.ts:15-21 | an accepted course is the input's name, description, tag ids, level and instructor id, each field as it stands in the input; all of them are non-empty |
| FormSchemas.ParseCourseUpdate | src/types/form.ts:22-27 | as creation, without an instructor |
| FormSchemas.IdsRoundTrip | src/types/form.ts:18 | a list of non-empty ids, encoded as strings, parses back to itself |
| FormSchemas.CourseRoundTrip | src/types/form.ts:15-27 | every valid course with an instructor is accepted unchanged by the creation schema; the update schema accepts every valid course and drops its instructor |
| FormSchemas.ParseSectionContent | src/types/form.ts:28-31 | an accepted content reference is the input's type name and `ref_id`, and the id is non-empty |
| FormSchemas.SectionContentRoundTrip | src/types/form.ts:28-31 | every content reference with a non-empty id is accepted unchanged |
| FormSchemas.ParseSection | src/types/form.ts:32-37 | an accepted section is the input's name and description, and its contents are the input's array elements, each parsed in place; all are valid |
| FormSchemas.SectionRoundTrip | src/types/form.ts:32-37 | every valid section is accepted unchanged, including one with no contents |
| FormSchemas.ParseArticle | src/types/form.ts:40-45 | an accepted article has a non-empty name, a whole duration of at least 1 and a URL |
| FormSchemas.ArticleRoundTrip | src/types/form.ts:40-45 | every valid article is accepted and read back unchanged |
| FormSchemas.ArticleDurationAccepted | src/types/form.ts:42 | a duration is accepted exactly when it is a whole number of at least 1 |
| FormSchemas.ParseAnswer | src/types/form.ts:48-51 | an accepted answer has non-empty content |
| FormSchemas.AnswerRoundTrip | src/types/form.ts:48-51 | every answer with content, with or without `correct`, is accepted unchanged |
| FormSchemas.ParseQuestion | src/types/form.ts:52-57 | an accepted question has content, one of the two answer types, valid answers and a non-empty explanation |
| FormSchemas.QuestionRoundTrip | src/types/form.ts:52-57 | every valid question is accepted unchanged, including one with no answers |
| FormSchemas.ParseAssessment | src/types/form.ts:58-63 | an accepted assessment is the input's name and duration, and its questions are the input's array elements, each parsed in place; the name is non-empty, the duration at least 1, every question valid |
| FormSchemas.AssessmentRoundTrip | src/types/form.ts:58-63 | every valid assessment is accepted unchanged, including one with no questions |
| FormSchemas.ParseEnrollmentUpdate | src/types/form.ts:66-68 | an accepted progress lies in 0..100 |
| FormSchemas.EnrollmentAcceptsExactly | src/types/form.ts:66-68 | a progress number is accepted exactly when it is a whole number from 0 to 100, and as that number |
| FormSchemas.EnrollmentRoundTrip | src/types/form.ts:66-68 | every percentage from 0 to 100 is accepted as itself |
| FormSchemas.ParseCertificate | src/types/form.ts:71-75 | an accepted certificate is the input's user id, course id and date; the ids are non-empty, and the date is absent exactly when the key is missing, and non-empty otherwise |
| FormSchemas.CertificateRoundTrip | src/types/form.ts:71-75 | every valid certificate is accepted unchanged, with or without a date |
| FormSchemas.ParseUserUpdate | src/types/form.ts:78-80 | a string occupation is accepted as itself and `null` as absent; a missing occupation, any other value and a non-object are rejected |
| FormSchemas.UserUpdateRoundTrip | src/types/form.ts:78-80 | every occupation, the empty string included, and `null` are accepted and read back unchanged |
| FormSchemas.ParsePostDiscussion | src/types/form.ts:83-86 | an accepted post has a non-empty user and content of length at least 1 |
| FormSchemas.ParseReplyDiscussion | src/types/form.ts:87-91 | an accepted reply also has a non-empty parent |
| FormSchemas.DiscussionRoundTrip | src/types/form.ts:83-91 | every valid post and reply is accepted unchanged by its own schema |
| FormSchemas.DiscussionAcceptsBlankContent | src/types/form.ts:85 | whitespace-only content, which the comment form rejects, passes the schema |
| FormSchemas.ParseMarkLesson | src/types/form.ts:94-97 | an accepted mark has a non-empty user id and the status named in the input |
| FormSchemas.MarkLessonAcceptsExactly | src/types/form.ts:94-97 | exactly "done" and "none" are accepted as statuses, each as itself |
| FormSchemas.ParseAnswerStatus | src/types/form.ts:100-103 | a given answer id is non-empty |
| FormSchemas.AnswerStatusRoundTrip | src/types/form.ts:100-103 | every answer status is accepted unchanged; the empty object is the status with neither field |
| AssessmentEditor.WithField | src/app/admin/assessments/new/page.tsx:61 | the spread sets only the named field; the other fields, options and test cases are kept |
| AssessmentEditor.WithTestCaseField | src/app/admin/assessments/new/page.tsx:103 | only the named test-case field changes |
| AssessmentEditor.AnswerList | src/app/admin/assessments/new/page.tsx:457-459 | no listed answer contains a comma |
| AssessmentEditor.AnswerListOfJoin | src/app/admin/assessments/new/page.tsx:457-471 | joining non-empty comma-free entries and reading them back loses nothing |
| AssessmentEditor.CheckAppends | src/app/admin/assessments/new/page.tsx:460-464 | checking appends the option index to the list and changes nothing else |
| AssessmentEditor.ToggleAnswer | src/app/admin/assessments/new/page.tsx:456-472 | the toggled string; `CheckAppends`, `UncheckRemoves`, `UncheckKeepsOtherOptions` and `CheckThenUncheckRestores` state its effect on the list |
| AssessmentEditor.UncheckRemoves | src/app/admin/assessments/new/page.tsx:465-467 | unchecking removes every occurrence of the index and keeps the other entries in order |
| AssessmentEditor.UncheckKeepsOtherOptions | src/app/admin/assessments/new/page.tsx:456-472 | unchecking an option leaves every other option listed exactly when it was before |
| AssessmentEditor.CheckThenUncheckRestores | src/app/admin/assessments/new/page.tsx:456-472 | checking then unchecking an unlisted option restores the stored string |
| AssessmentEditor.CharInJoin | src/app/admin/assessments/new/page.tsx:471 | a non-comma character occurs in the joined string exactly when it occurs in an entry |
| AssessmentEditor.IncludesChar | src/app/admin/assessments/new/page.tsx:453-455 | `includes` of one character is membership |
| AssessmentEditor.IsChecked | src/app/admin/assessments/new/page.tsx:453-455 | the checked state shown; `CheckedIffListed` states when it agrees with list membership |
| AssessmentEditor.CheckedIffListed | src/app/admin/assessments/new/page.tsx:453-459 | for single-digit indices the displayed checked state is membership in the split list |
| AssessmentEditor.AssessmentDraft.constructor | src/app/admin/assessments/new/page.tsx:32-39 | one multiple-choice question with four empty options and an empty answer |
| AssessmentEditor.AssessmentDraft.AddQuestion | src/app/admin/assessments/new/page.tsx:41-51 | one default question is appended; earlier questions are unchanged |
| AssessmentEditor.AssessmentDraft.RemoveQuestion | src/app/admin/assessments/new/page.tsx:53-57 | exactly question `i` is removed, the rest keep their order, and at least one question remains |
| AssessmentEditor.AssessmentDraft.ChangeQuestion | src/app/admin/assessments/new/page.tsx:59-63 | only field `f` of question `i` changes |
| AssessmentEditor.AssessmentDraft.ChangeOption | src/app/admin/assessments/new/page.tsx:65-73 | only option `o` of question `q` changes |
| AssessmentEditor.AssessmentDraft.CheckAnswer | src/app/admin/assessments/new/page.tsx:456-472 | only the question's `correctAnswer` changes, to the toggled string |
| AssessmentEditor.AssessmentDraft.AddTestCase | src/app/admin/assessments/new/page.tsx:75-85 | the list is created when absent and one empty test case is appended; nothing else changes |
| AssessmentEditor.AssessmentDraft.RemoveTestCase | src/app/admin/assessments/new/page.tsx:87-94 | exactly the indexed test case is removed and the rest keep their order |
| AssessmentEditor.AssessmentDraft.ChangeTestCase | src/app/admin/assessments/new/page.tsx:96-105 | only the named field of the indexed test case changes |
| SectionEditor.WithField | src/app/admin/learning-materials/new/page.tsx:52 | only the named field of the section changes |
| SectionEditor.LearningMaterialDraft.constructor | src/app/admin/learning-materials/new/page.tsx:35 | one empty section |
| SectionEditor.LearningMaterialDraft.AddSection | src/app/admin/learning-materials/new/page.tsx:40-42 | one empty section is appended; earlier sections are unchanged |
| SectionEditor.LearningMaterialDraft.RemoveSection | src/app/admin/learning-materials/new/page.tsx:44-48 | exactly section `i` is removed, the rest keep their order, and at least one section remains |
| SectionEditor.LearningMaterialDraft.ChangeSection | src/app/admin/learning-materials/new/page.tsx:50-54 | only field `f` of section `i` changes |

## Left out

- I/O, the network and timers: `ApiRequest.fetch`, the `fetchDummy` responses, and the 500 ms delay of the comment form.
- The Prisma calls of `calculateCourseProgress`. The database is a value passed in: the progress rows plus the course each content item belongs to.
  - `count` becomes `CountCompleted`.
  - `findFirst` becomes `FindProgress`. It returns the first matching row; which row a real database returns first is not modelled.
- Clocks and ids. `Date.now()` ids and `new Date()` timestamps are parameters. The contracts that need them ask for fresh, unique ids.
- `encodeURIComponent` is a function parameter, and the URL check of `urlSchema` is a predicate parameter.
- Floating point. The percentage is computed with integer half-up rounding (`RoundPercent`), not with JavaScript numbers. Schema numbers are exact reals, so `NaN` and the infinities are not represented.
- React state plumbing. Each `setX` is an assignment to a field. The two-render timing of state updates is not modelled, and neither are rendering, `formatDistanceToNow` and navigation.
- The comment form's commented-out `addComment` call. Submitting adds nothing.
- Aliasing. The page handlers copy arrays shallowly, so `handleOptionChange` and the test-case handlers write into arrays shared with the previous state. The model holds values, so it does not show that the previous state also changes.
- Indices the pages never pass. The question and section handlers require an index of a rendered row. Removing requires more than one row, since the remove control is only rendered then. `handleRemoveTestCase` also requires that the question has test cases.
- The other request classes of `src/types/api.ts`: `QueryCertificate`, `PostDiscussion`, `ReplyDiscussion`, `QueryUserData` and `UpdateUserData`. Their `getUrl` is a template with no query string, and their request bodies are not modelled.
- `toQuery` arrays are arrays of strings. Other element types are not represented.
- A `getUrl` path segment that is a number is rendered as an integer. Non-integer numbers are not represented.
- CourseProgress.CalculateCourseProgress: the bound `progress <= 100` is proved only when the completed counts do not exceed the item total. The counts come from database rows of the whole course, not from the given sections, so nothing in the code guarantees this.
- CommentStore.AddCommentKeepsReplyCounts: stated for a parent that resolves (or no parent). A draft naming an unknown parent stores a reply whose parent does not resolve, and then the invariant that every parent resolves no longer holds.
- The mock seed data of `src/data/comments.ts`. Its counters do not match its stored votes, so the model proves that counter drift is preserved rather than that it is zero.
