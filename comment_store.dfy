/**
 * The in-memory comment store of `src/data/comments.ts`: two module-level
 * arrays, the comments and the votes, the query helpers over them, and the two
 * operations that change them, `addComment` and `voteOnComment`.
 *
 * The query helpers take the current contents of the arrays as arguments.
 * The two operations are specified by pure functions over a `Board` (both
 * arrays together); the class `CommentRepository` holds the arrays and
 * applies those transitions in place. The clock and `Date.now()` ids become
 * parameters.
 */
module CommentStore {
  import opened JsLib
  import opened CommentTypes

  // ---------------------------------------------------------------------------
  // Query helpers
  // ---------------------------------------------------------------------------

  /** `getCommentsByLesson`: every comment posted under the lesson, in store order. */
  function CommentsByLesson(cs: seq<Comment>, lessonId: string): (r: seq<Comment>)
    ensures forall c :: c in r <==> c in cs && c.lessonId == lessonId
  {
    Filter((c: Comment) => c.lessonId == lessonId, cs)
  }

  predicate IsTopLevelOf(c: Comment, lessonId: string) {
    c.lessonId == lessonId && !HasParent(c)
  }

  /** `getTopLevelComments`: the comments of the lesson that are not replies. */
  function TopLevelComments(cs: seq<Comment>, lessonId: string): (r: seq<Comment>)
    ensures forall c :: c in r <==> c in cs && c.lessonId == lessonId && !HasParent(c)
  {
    Filter((c: Comment) => IsTopLevelOf(c, lessonId), cs)
  }

  /** The top-level listing follows store order: a comment appended to the
      store is appended to the listing when it qualifies, and nothing else moves. */
  lemma TopLevelAppend(cs: seq<Comment>, c: Comment, lessonId: string)
    ensures TopLevelComments(cs + [c], lessonId)
         == TopLevelComments(cs, lessonId) + (if IsTopLevelOf(c, lessonId) then [c] else [])
  {
    var p := (x: Comment) => IsTopLevelOf(x, lessonId);
    FilterAppend(p, cs, [c]);
    FilterSingleton(p, c);
  }

  /** `getRepliesByComment`: the direct replies of a comment, one level only. */
  function Replies(cs: seq<Comment>, commentId: string): (r: seq<Comment>)
    ensures forall c :: c in r <==> c in cs && c.parentCommentId == Some(commentId)
  {
    Filter((c: Comment) => c.parentCommentId == Some(commentId), cs)
  }

  /** The position `find` stops at when looking a comment up by id. */
  function CommentIndex(cs: seq<Comment>, id: string): (r: Option<nat>)
    ensures r.Some? ==> r.value < |cs| && cs[r.value].id == id
    ensures r.Some? ==> forall j :: 0 <= j < r.value ==> cs[j].id != id
    ensures r.None? <==> forall j :: 0 <= j < |cs| ==> cs[j].id != id
  {
    FindIndex((c: Comment) => c.id == id, cs)
  }

  /** `getCommentById`: the first comment with the id, or undefined. */
  function CommentById(cs: seq<Comment>, id: string): (r: Option<Comment>)
    ensures r.Some? ==> r.value in cs && r.value.id == id
    ensures r.None? <==> forall c :: c in cs ==> c.id != id
    ensures r.Some? ==> r.value == cs[CommentIndex(cs, id).value]
  {
    match CommentIndex(cs, id)
    case None => None
    case Some(i) => Some(cs[i])
  }

  predicate IsVoteOf(v: CommentVote, userId: string, commentId: string) {
    v.userId == userId && v.commentId == commentId
  }

  /** The position of the user's first vote on the comment. */
  function VoteIndex(vs: seq<CommentVote>, userId: string, commentId: string): (r: Option<nat>)
    ensures r.Some? ==> r.value < |vs| && IsVoteOf(vs[r.value], userId, commentId)
    ensures r.Some? ==> forall j :: 0 <= j < r.value ==> !IsVoteOf(vs[j], userId, commentId)
    ensures r.None? <==> forall j :: 0 <= j < |vs| ==> !IsVoteOf(vs[j], userId, commentId)
  {
    FindIndex((v: CommentVote) => IsVoteOf(v, userId, commentId), vs)
  }

  /** `getUserVoteForComment`: the first vote the user cast on the comment, or undefined. */
  function UserVoteForComment(vs: seq<CommentVote>, userId: string, commentId: string): (r: Option<CommentVote>)
    ensures r.Some? ==> r.value in vs && IsVoteOf(r.value, userId, commentId)
    ensures r.None? <==> forall v :: v in vs ==> !IsVoteOf(v, userId, commentId)
    ensures r.Some? ==> r.value == vs[VoteIndex(vs, userId, commentId).value]
  {
    match VoteIndex(vs, userId, commentId)
    case None => None
    case Some(k) => Some(vs[k])
  }

  /** The position `findIndex` reports when looking a vote up by its id. */
  function VoteIdIndex(vs: seq<CommentVote>, id: string): (r: Option<nat>)
    ensures r.Some? ==> r.value < |vs| && vs[r.value].id == id
    ensures r.Some? ==> forall j :: 0 <= j < r.value ==> vs[j].id != id
    ensures r.None? <==> forall j :: 0 <= j < |vs| ==> vs[j].id != id
  {
    FindIndex((v: CommentVote) => v.id == id, vs)
  }

  /** `getCommentVotes`: every vote cast on the comment, in store order. */
  function CommentVotes(vs: seq<CommentVote>, commentId: string): (r: seq<CommentVote>)
    ensures forall v :: v in r <==> v in vs && v.commentId == commentId
  {
    Filter((v: CommentVote) => v.commentId == commentId, vs)
  }

  // ---------------------------------------------------------------------------
  // Store-wide predicates
  // ---------------------------------------------------------------------------

  ghost predicate UniqueCommentIds(cs: seq<Comment>) {
    forall i, j :: 0 <= i < j < |cs| ==> cs[i].id != cs[j].id
  }

  ghost predicate UniqueVoteIds(vs: seq<CommentVote>) {
    forall i, j :: 0 <= i < j < |vs| ==> vs[i].id != vs[j].id
  }

  ghost predicate FreshVoteId(vs: seq<CommentVote>, id: string) {
    forall i :: 0 <= i < |vs| ==> vs[i].id != id
  }

  /** At most one stored vote per (user, comment) pair. */
  ghost predicate AtMostOneVotePerPair(vs: seq<CommentVote>) {
    forall i, j :: 0 <= i < j < |vs| ==> !IsVoteOf(vs[j], vs[i].userId, vs[i].commentId)
  }

  /** The stored votes of type `t` on the comment with id `commentId`. */
  function CountVotes(vs: seq<CommentVote>, commentId: string, t: VoteType): nat {
    |Filter((v: CommentVote) => v.commentId == commentId && v.kind == t, vs)|
  }

  /** How far comment `i`'s counter for `t` is from the number of stored votes
      behind it. The seed data does not keep this at zero, so what the
      operations promise is that they leave it where it was. */
  function Drift(cs: seq<Comment>, vs: seq<CommentVote>, i: nat, t: VoteType): int
    requires i < |cs|
  {
    Counter(cs[i], t) - CountVotes(vs, cs[i].id, t)
  }

  /** The (user, comment, type) content of the vote list, ignoring ids, times and order. */
  function Ballots(vs: seq<CommentVote>): multiset<(string, string, VoteType)> {
    if vs == [] then multiset{}
    else multiset{(vs[0].userId, vs[0].commentId, vs[0].kind)} + Ballots(vs[1..])
  }

  // ---------------------------------------------------------------------------
  // addComment
  // ---------------------------------------------------------------------------

  /** The comment `addComment` builds: the caller's fields, a fresh id, both
      timestamps set to now, zero counters and `isEdited` false. */
  function NewComment(d: CommentDraft, id: string, now: int): Comment {
    Comment(id, d.lessonId, d.courseId, d.userId, d.userName, d.userAvatar, d.content,
            now, now, 0, 0, 0, d.parentCommentId, false, d.isPinned)
  }

  function BumpReplies(c: Comment): Comment {
    c.(replyCount := c.replyCount + 1)
  }

  /** The comment list after `addComment`: the new comment is pushed first, and
      then, when the caller's `parentCommentId` is truthy, the first comment
      with that id (looked up in the list that already holds the new one) gets
      one more reply. */
  function AddedTo(cs: seq<Comment>, d: CommentDraft, id: string, now: int): (r: seq<Comment>)
    ensures |r| == |cs| + 1
    ensures r[|cs|] == NewComment(d, id, now).(replyCount := r[|cs|].replyCount)
    ensures !IsTruthy(d.parentCommentId) ==> r == cs + [NewComment(d, id, now)]
    ensures IsTruthy(d.parentCommentId) ==>
      match CommentIndex(cs, d.parentCommentId.value)
      case Some(k) =>
        && r[k] == BumpReplies(cs[k])
        && (forall i :: 0 <= i < |cs| && i != k ==> r[i] == cs[i])
        && r[|cs|] == NewComment(d, id, now)
      case None =>
        if d.parentCommentId.value == id then r == cs + [BumpReplies(NewComment(d, id, now))]
        else r == cs + [NewComment(d, id, now)]
  {
    var pushed := cs + [NewComment(d, id, now)];
    if IsTruthy(d.parentCommentId) then
      match CommentIndex(pushed, d.parentCommentId.value)
      case Some(p) => pushed[p := BumpReplies(pushed[p])]
      case None => pushed
    else pushed
  }

  /** Every comment's `replyCount` equals the number of its direct replies. */
  ghost predicate ReplyCountsMatch(cs: seq<Comment>) {
    forall i :: 0 <= i < |cs| ==> cs[i].replyCount == |Replies(cs, cs[i].id)|
  }

  /** Every reply names a comment that is in the store. */
  ghost predicate ParentsResolve(cs: seq<Comment>) {
    forall i :: 0 <= i < |cs| && cs[i].parentCommentId.Some? ==>
      exists j :: 0 <= j < |cs| && cs[j].id == cs[i].parentCommentId.value
  }

  lemma RepliesAppend(cs: seq<Comment>, c: Comment, id: string)
    ensures |Replies(cs + [c], id)| == |Replies(cs, id)| + if c.parentCommentId == Some(id) then 1 else 0
  {
    var p := (x: Comment) => x.parentCommentId == Some(id);
    FilterAppend(p, cs, [c]);
    FilterSingleton(p, c);
  }

  lemma RepliesIgnoreCounters(cs: seq<Comment>, cs': seq<Comment>, id: string)
    requires |cs| == |cs'|
    requires forall i :: 0 <= i < |cs| ==> cs'[i] == cs[i].(replyCount := cs'[i].replyCount)
    ensures |Replies(cs', id)| == |Replies(cs, id)|
  {
    var p := (x: Comment) => x.parentCommentId == Some(id);
    FilterLengthAgree(p, cs', cs);
  }

  /** Comment `i` after `addComment` when the parent, if any, is an existing
      comment: only its reply count may change, and it goes up by one exactly
      when the comment is the new comment's parent. */
  lemma AddedAt(cs: seq<Comment>, d: CommentDraft, id: string, now: int, i: nat)
    requires UniqueCommentIds(cs)
    requires forall j :: 0 <= j < |cs| ==> cs[j].id != "" && cs[j].id != id
    requires d.parentCommentId.Some? ==> exists j :: 0 <= j < |cs| && cs[j].id == d.parentCommentId.value
    requires i <= |cs|
    ensures var r, before := AddedTo(cs, d, id, now), (cs + [NewComment(d, id, now)])[i];
      && r[i] == before.(replyCount := r[i].replyCount)
      && r[i].replyCount == before.replyCount + if d.parentCommentId == Some(r[i].id) then 1 else 0
  {
    var r := AddedTo(cs, d, id, now);
    if i < |cs| && d.parentCommentId == Some(cs[i].id) {
      assert IsTruthy(d.parentCommentId);
      assert CommentIndex(cs, cs[i].id) == Some(i);
    } else if IsTruthy(d.parentCommentId) {
      var j :| 0 <= j < |cs| && cs[j].id == d.parentCommentId.value;
      assert CommentIndex(cs, d.parentCommentId.value).Some?;
    }
  }

  /** A comment whose id no stored comment has, has no stored replies when
      every reply's parent is in the store. */
  lemma NoRepliesToUnknownId(cs: seq<Comment>, id: string)
    requires ParentsResolve(cs)
    requires forall j :: 0 <= j < |cs| ==> cs[j].id != id
    ensures |Replies(cs, id)| == 0
  {
    forall c | c in cs ensures c.parentCommentId != Some(id) {
      var k :| 0 <= k < |cs| && cs[k] == c;
    }
    FilterNone((x: Comment) => x.parentCommentId == Some(id), cs);
  }

  /** When every reply count is accurate and every reply's parent exists,
      posting a top-level comment or a reply to an existing comment keeps every
      reply count accurate (ids are non-empty, as the generated ids are). */
  lemma {:induction false} AddCommentKeepsReplyCounts(cs: seq<Comment>, d: CommentDraft, id: string, now: int)
    requires UniqueCommentIds(cs) && ReplyCountsMatch(cs) && ParentsResolve(cs)
    requires forall i :: 0 <= i < |cs| ==> cs[i].id != "" && cs[i].id != id
    requires id != ""
    requires d.parentCommentId.Some? ==> exists j :: 0 <= j < |cs| && cs[j].id == d.parentCommentId.value
    ensures ReplyCountsMatch(AddedTo(cs, d, id, now))
    ensures ParentsResolve(AddedTo(cs, d, id, now))
  {
    var n := NewComment(d, id, now);
    var pushed := cs + [n];
    var r := AddedTo(cs, d, id, now);
    forall i | 0 <= i < |r| ensures r[i] == pushed[i].(replyCount := r[i].replyCount) {
      AddedAt(cs, d, id, now, i);
    }
    forall i | 0 <= i < |r| ensures r[i].replyCount == |Replies(r, r[i].id)| {
      AddedAt(cs, d, id, now, i);
      var x := r[i].id;
      RepliesIgnoreCounters(pushed, r, x);
      RepliesAppend(cs, n, x);
      if i == |cs| {
        NoRepliesToUnknownId(cs, id);
      }
    }
    forall i | 0 <= i < |r| && r[i].parentCommentId.Some?
      ensures exists j :: 0 <= j < |r| && r[j].id == r[i].parentCommentId.value
    {
      AddedAt(cs, d, id, now, i);
      var j :| 0 <= j < |cs| && cs[j].id == pushed[i].parentCommentId.value;
      AddedAt(cs, d, id, now, j);
    }
  }

  /** As written, nothing stops a comment from being posted as a reply to
      itself: when `parentCommentId` equals the id the new comment receives,
      the lookup (which runs after the push) finds the new comment, which then
      is its own parent and counts itself as a reply. */
  lemma SelfReplyAccepted(cs: seq<Comment>, d: CommentDraft, id: string, now: int)
    requires id != "" && d.parentCommentId == Some(id)
    requires forall i :: 0 <= i < |cs| ==> cs[i].id != id
    ensures var r := AddedTo(cs, d, id, now);
      && r[|cs|].parentCommentId == Some(r[|cs|].id)
      && r[|cs|].replyCount == 1
  {
  }

  // ---------------------------------------------------------------------------
  // voteOnComment
  // ---------------------------------------------------------------------------

  /** Both arrays of the store. */
  datatype Board = Board(comments: seq<Comment>, votes: seq<CommentVote>)

  /** The vote `voteOnComment` pushes, with its `Date.now()` id and time given. */
  function NewVote(userId: string, commentId: string, t: VoteType, voteId: string, now: int): CommentVote {
    CommentVote(voteId, userId, commentId, t, now)
  }

  /** Only the vote counters of the comments may differ between `a` and `b`. */
  ghost predicate SameButCounters(a: seq<Comment>, b: seq<Comment>) {
    && |a| == |b|
    && forall i :: 0 <= i < |a| ==> b[i] == a[i].(upvotes := b[i].upvotes, downvotes := b[i].downvotes)
  }

  /** First half of `voteOnComment` on the comment at `ci`: the user's existing
      vote, if any, is found again by its id and spliced out of the votes, and
      the counter of its type goes down by one. */
  function Retract(b: Board, ci: nat, existing: Option<CommentVote>): (r: Board)
    requires ci < |b.comments|
    ensures SameButCounters(b.comments, r.comments)
    ensures forall i :: 0 <= i < |b.comments| && i != ci ==> r.comments[i] == b.comments[i]
  {
    if existing.None? then b
    else
      match VoteIdIndex(b.votes, existing.value.id)
      case None => b
      case Some(vi) =>
        Board(b.comments[ci := AdjustCounter(b.comments[ci], existing.value.kind, -1)],
              SpliceOne(b.votes, vi))
  }

  /** Second half: the new vote is pushed and the counter of its type goes up by one. */
  function Record(b: Board, ci: nat, nv: CommentVote): (r: Board)
    requires ci < |b.comments|
    ensures SameButCounters(b.comments, r.comments)
    ensures forall i :: 0 <= i < |b.comments| && i != ci ==> r.comments[i] == b.comments[i]
  {
    Board(b.comments[ci := AdjustCounter(b.comments[ci], nv.kind, 1)], b.votes + [nv])
  }

  /** The store after `voteOnComment(userId, commentId, t)`, where the vote it
      may create gets id `voteId` and timestamp `now`. A comment that does not
      exist leaves the store as it is. Otherwise the user's existing vote is
      retracted; a vote of the same type ends there (toggle off), and otherwise
      the new vote is recorded. Only the voted comment's counters change. */
  function CastVote(b: Board, userId: string, commentId: string, t: VoteType, voteId: string, now: int): (r: Board)
    ensures CommentIndex(b.comments, commentId).None? ==> r == b
    ensures SameButCounters(b.comments, r.comments)
    ensures forall i :: 0 <= i < |b.comments| && b.comments[i].id != commentId ==> r.comments[i] == b.comments[i]
  {
    match CommentIndex(b.comments, commentId)
    case None => b
    case Some(ci) =>
      var existing := UserVoteForComment(b.votes, userId, commentId);
      var retracted := Retract(b, ci, existing);
      if existing.Some? && existing.value.kind == t then retracted
      else Record(retracted, ci, NewVote(userId, commentId, t, voteId, now))
  }

  /** With unique vote ids, looking the user's vote up again by its id finds
      the same position. */
  lemma VoteIndexById(vs: seq<CommentVote>, userId: string, commentId: string)
    requires UniqueVoteIds(vs)
    requires VoteIndex(vs, userId, commentId).Some?
    ensures var k := VoteIndex(vs, userId, commentId).value;
      VoteIdIndex(vs, vs[k].id) == Some(k)
  {
    var k := VoteIndex(vs, userId, commentId).value;
    var f := VoteIdIndex(vs, vs[k].id);
    assert vs[f.value].id == vs[k].id;
  }

  /** What `voteOnComment` does to the votes and to the voted comment, by the
      position `k` of the user's earlier vote. */
  lemma CastVoteShape(b: Board, userId: string, commentId: string, t: VoteType, voteId: string, now: int)
    requires UniqueVoteIds(b.votes)
    requires CommentIndex(b.comments, commentId).Some?
    ensures var ci := CommentIndex(b.comments, commentId).value;
      var r := CastVote(b, userId, commentId, t, voteId, now);
      var nv := NewVote(userId, commentId, t, voteId, now);
      match VoteIndex(b.votes, userId, commentId)
      case None =>
        r.votes == b.votes + [nv] && r.comments[ci] == AdjustCounter(b.comments[ci], t, 1)
      case Some(k) =>
        if b.votes[k].kind == t then
          r.votes == SpliceOne(b.votes, k) && r.comments[ci] == AdjustCounter(b.comments[ci], t, -1)
        else
          && r.votes == SpliceOne(b.votes, k) + [nv]
          && r.comments[ci] == AdjustCounter(AdjustCounter(b.comments[ci], Opposite(t), -1), t, 1)
  {
    if VoteIndex(b.votes, userId, commentId).Some? {
      VoteIndexById(b.votes, userId, commentId);
      var k := VoteIndex(b.votes, userId, commentId).value;
      assert b.votes[k].kind != t ==> b.votes[k].kind == Opposite(t);
    }
  }

  /** Counting through a splice: the removed vote no longer counts. */
  lemma CountAfterSplice(vs: seq<CommentVote>, k: nat, commentId: string, t: VoteType)
    requires k < |vs|
    ensures CountVotes(SpliceOne(vs, k), commentId, t)
         == CountVotes(vs, commentId, t) - if vs[k].commentId == commentId && vs[k].kind == t then 1 else 0
  {
    var p := (v: CommentVote) => v.commentId == commentId && v.kind == t;
    assert vs == vs[..k] + [vs[k]] + vs[k + 1..];
    FilterAppend(p, vs[..k] + [vs[k]], vs[k + 1..]);
    FilterAppend(p, vs[..k], [vs[k]]);
    FilterAppend(p, vs[..k], vs[k + 1..]);
    FilterSingleton(p, vs[k]);
  }

  /** Counting through a push: the pushed vote counts when it matches. */
  lemma CountAfterPush(vs: seq<CommentVote>, v: CommentVote, commentId: string, t: VoteType)
    ensures CountVotes(vs + [v], commentId, t)
         == CountVotes(vs, commentId, t) + if v.commentId == commentId && v.kind == t then 1 else 0
  {
    var p := (w: CommentVote) => w.commentId == commentId && w.kind == t;
    FilterAppend(p, vs, [v]);
    FilterSingleton(p, v);
  }

  /** The transition table of `voteOnComment` on an existing comment: with no
      earlier vote one is added; an earlier vote of the same type is removed
      and nothing is added; an earlier vote of the other type is replaced.
      Each removal takes one off that vote's counter and each addition puts
      one on the new vote's counter. */
  lemma VoteTransitionTable(b: Board, userId: string, commentId: string, t: VoteType, voteId: string, now: int)
    requires UniqueVoteIds(b.votes)
    requires CommentIndex(b.comments, commentId).Some?
    ensures var ci := CommentIndex(b.comments, commentId).value;
      var r := CastVote(b, userId, commentId, t, voteId, now);
      var nv := NewVote(userId, commentId, t, voteId, now);
      var before, after := b.comments[ci], r.comments[ci];
      match UserVoteForComment(b.votes, userId, commentId)
      case None =>
        && r.votes == b.votes + [nv]
        && Counter(after, t) == Counter(before, t) + 1
        && Counter(after, Opposite(t)) == Counter(before, Opposite(t))
      case Some(prior) =>
        if prior.kind == t then
          && |r.votes| == |b.votes| - 1
          && multiset(r.votes) + multiset{prior} == multiset(b.votes)
          && Counter(after, t) == Counter(before, t) - 1
          && Counter(after, Opposite(t)) == Counter(before, Opposite(t))
        else
          && |r.votes| == |b.votes|
          && multiset(r.votes) + multiset{prior} == multiset(b.votes) + multiset{nv}
          && r.votes[|r.votes| - 1] == nv
          && Counter(after, t) == Counter(before, t) + 1
          && Counter(after, Opposite(t)) == Counter(before, Opposite(t)) - 1
  {
    CastVoteShape(b, userId, commentId, t, voteId, now);
  }

  /** Splicing out a vote keeps vote ids unique and adds no vote. */
  lemma SpliceKeepsIds(vs: seq<CommentVote>, k: nat)
    requires k < |vs| && UniqueVoteIds(vs)
    ensures var s := SpliceOne(vs, k);
      && UniqueVoteIds(s)
      && (forall i :: 0 <= i < |s| ==> exists j :: 0 <= j < |vs| && s[i] == vs[j])
  {
    var s := SpliceOne(vs, k);
    forall i, j | 0 <= i < j < |s| ensures s[i].id != s[j].id {
      var i' := if i < k then i else i + 1;
      var j' := if j < k then j else j + 1;
      assert s[i] == vs[i'] && s[j] == vs[j'];
    }
    forall i | 0 <= i < |s| ensures exists j :: 0 <= j < |vs| && s[i] == vs[j] {
      var i' := if i < k then i else i + 1;
      assert s[i] == vs[i'];
    }
  }

  /** Splicing out a vote keeps ids unique and keeps at most one vote per
      pair, and leaves no vote of the removed vote's pair behind. */
  lemma SpliceKeepsPairs(vs: seq<CommentVote>, k: nat)
    requires k < |vs| && UniqueVoteIds(vs) && AtMostOneVotePerPair(vs)
    ensures var s := SpliceOne(vs, k);
      && UniqueVoteIds(s) && AtMostOneVotePerPair(s)
      && (forall i :: 0 <= i < |s| ==> !IsVoteOf(s[i], vs[k].userId, vs[k].commentId))
      && (forall i :: 0 <= i < |s| ==> exists j :: 0 <= j < |vs| && s[i] == vs[j])
  {
    SpliceKeepsIds(vs, k);
    var s := SpliceOne(vs, k);
    forall i, j | 0 <= i < j < |s|
      ensures !IsVoteOf(s[j], s[i].userId, s[i].commentId)
    {
      var i' := if i < k then i else i + 1;
      var j' := if j < k then j else j + 1;
      assert s[i] == vs[i'] && s[j] == vs[j'] && i' < j';
    }
    forall i | 0 <= i < |s|
      ensures !IsVoteOf(s[i], vs[k].userId, vs[k].commentId)
    {
      var i' := if i < k then i else i + 1;
      assert s[i] == vs[i'];
      if i' < k {
        assert !IsVoteOf(vs[k], vs[i'].userId, vs[i'].commentId);
      } else {
        assert !IsVoteOf(vs[i'], vs[k].userId, vs[k].commentId);
      }
    }
  }

  /** An id no stored vote has stays unused after a splice. */
  lemma SpliceKeepsFresh(vs: seq<CommentVote>, k: nat, id: string)
    requires k < |vs| && FreshVoteId(vs, id)
    ensures FreshVoteId(SpliceOne(vs, k), id)
  {
    var s := SpliceOne(vs, k);
    forall i | 0 <= i < |s| ensures s[i].id != id {
      var i' := if i < k then i else i + 1;
      assert s[i] == vs[i'];
    }
  }

  /** Pushing a vote with a fresh id keeps vote ids unique. */
  lemma PushKeepsIds(vs: seq<CommentVote>, nv: CommentVote)
    requires UniqueVoteIds(vs) && FreshVoteId(vs, nv.id)
    ensures UniqueVoteIds(vs + [nv])
  {
    var r := vs + [nv];
    forall i, j | 0 <= i < j < |r| ensures r[i].id != r[j].id {
      assert r[i] == vs[i];
    }
  }

  /** Pushing a vote of a pair that has none keeps one vote per pair. */
  lemma PushKeepsPairs(vs: seq<CommentVote>, nv: CommentVote)
    requires AtMostOneVotePerPair(vs)
    requires forall j :: 0 <= j < |vs| ==> !IsVoteOf(vs[j], nv.userId, nv.commentId)
    ensures AtMostOneVotePerPair(vs + [nv])
  {
    var r := vs + [nv];
    forall i, j | 0 <= i < j < |r| ensures !IsVoteOf(r[j], r[i].userId, r[i].commentId) {
      assert r[i] == vs[i];
      if j < |vs| {
        assert r[j] == vs[j];
      } else {
        assert !IsVoteOf(vs[i], nv.userId, nv.commentId);
      }
    }
  }

  /** `voteOnComment` keeps vote ids unique and at most one vote per
      (user, comment), when the new vote's id is fresh. */
  lemma VoteKeepsOneVotePerPair(b: Board, userId: string, commentId: string, t: VoteType, voteId: string, now: int)
    requires UniqueVoteIds(b.votes) && FreshVoteId(b.votes, voteId)
    requires AtMostOneVotePerPair(b.votes)
    ensures var r := CastVote(b, userId, commentId, t, voteId, now);
      AtMostOneVotePerPair(r.votes) && UniqueVoteIds(r.votes)
  {
    if CommentIndex(b.comments, commentId).Some? {
      var nv := NewVote(userId, commentId, t, voteId, now);
      CastVoteShape(b, userId, commentId, t, voteId, now);
      match VoteIndex(b.votes, userId, commentId)
      case None =>
        PushKeepsIds(b.votes, nv);
        PushKeepsPairs(b.votes, nv);
      case Some(k) =>
        SpliceKeepsPairs(b.votes, k);
        var s := SpliceOne(b.votes, k);
        SpliceKeepsFresh(b.votes, k, voteId);
        PushKeepsIds(s, nv);
        PushKeepsPairs(s, nv);
    }
  }

  /** `voteOnComment` moves each counter exactly as far as the number of stored
      votes behind it moves, so every comment's drift is unchanged. */
  lemma VoteKeepsDrift(b: Board, userId: string, commentId: string, t: VoteType, voteId: string, now: int)
    requires UniqueCommentIds(b.comments) && UniqueVoteIds(b.votes)
    ensures var r := CastVote(b, userId, commentId, t, voteId, now);
      forall i, k :: 0 <= i < |b.comments| ==> Drift(r.comments, r.votes, i, k) == Drift(b.comments, b.votes, i, k)
  {
    var r := CastVote(b, userId, commentId, t, voteId, now);
    forall i, k | 0 <= i < |b.comments|
      ensures Drift(r.comments, r.votes, i, k) == Drift(b.comments, b.votes, i, k)
    {
      DriftKept(b, userId, commentId, t, voteId, now, i, k);
    }
  }

  /** Recording a vote on comment `ci` leaves every comment's drift as it was. */
  lemma DriftAfterRecord(b: Board, ci: nat, nv: CommentVote, i: nat, k: VoteType)
    requires UniqueCommentIds(b.comments)
    requires ci < |b.comments| && i < |b.comments| && b.comments[ci].id == nv.commentId
    ensures Drift(Record(b, ci, nv).comments, Record(b, ci, nv).votes, i, k) == Drift(b.comments, b.votes, i, k)
  {
    var x := b.comments[i].id;
    CountAfterPush(b.votes, nv, x, k);
    if i != ci {
      assert x != nv.commentId;
    }
  }

  /** Retracting the vote at `j`, a vote on comment `ci`, leaves every
      comment's drift as it was. */
  lemma DriftAfterRetract(b: Board, ci: nat, j: nat, i: nat, k: VoteType)
    requires UniqueCommentIds(b.comments) && UniqueVoteIds(b.votes)
    requires ci < |b.comments| && i < |b.comments| && j < |b.votes|
    requires b.comments[ci].id == b.votes[j].commentId
    ensures var r := Retract(b, ci, Some(b.votes[j]));
      Drift(r.comments, r.votes, i, k) == Drift(b.comments, b.votes, i, k)
  {
    var x := b.comments[i].id;
    var f := VoteIdIndex(b.votes, b.votes[j].id);
    assert f == Some(j) by {
      assert b.votes[f.value].id == b.votes[j].id;
    }
    CountAfterSplice(b.votes, j, x, k);
    if i != ci {
      assert x != b.votes[j].commentId;
    }
  }

  /** One comment and one vote type of `VoteKeepsDrift`. */
  lemma DriftKept(b: Board, userId: string, commentId: string, t: VoteType, voteId: string, now: int, i: nat, k: VoteType)
    requires UniqueCommentIds(b.comments) && UniqueVoteIds(b.votes)
    requires i < |b.comments|
    ensures var r := CastVote(b, userId, commentId, t, voteId, now);
      Drift(r.comments, r.votes, i, k) == Drift(b.comments, b.votes, i, k)
  {
    var nv := NewVote(userId, commentId, t, voteId, now);
    if CommentIndex(b.comments, commentId).Some? {
      var ci := CommentIndex(b.comments, commentId).value;
      match VoteIndex(b.votes, userId, commentId)
      case None =>
        DriftAfterRecord(b, ci, nv, i, k);
      case Some(j) =>
        var mid := Retract(b, ci, Some(b.votes[j]));
        DriftAfterRetract(b, ci, j, i, k);
        if b.votes[j].kind != t {
          SameButCountersKeepsIds(b.comments, mid.comments);
          DriftAfterRecord(mid, ci, nv, i, k);
        }
    }
  }

  /** Votes of other (user, comment) pairs are untouched by `voteOnComment`. */
  lemma VoteLeavesOthersAlone(b: Board, userId: string, commentId: string, t: VoteType, voteId: string, now: int)
    requires UniqueVoteIds(b.votes)
    ensures var r := CastVote(b, userId, commentId, t, voteId, now);
      forall v :: !IsVoteOf(v, userId, commentId) ==> multiset(r.votes)[v] == multiset(b.votes)[v]
  {
    var r := CastVote(b, userId, commentId, t, voteId, now);
    if CommentIndex(b.comments, commentId).Some? {
      var nv := NewVote(userId, commentId, t, voteId, now);
      CastVoteShape(b, userId, commentId, t, voteId, now);
      match VoteIndex(b.votes, userId, commentId)
      case None =>
        assert multiset(r.votes) == multiset(b.votes) + multiset{nv};
      case Some(k) =>
        var s := SpliceOne(b.votes, k);
        assert multiset(s) + multiset{b.votes[k]} == multiset(b.votes);
        assert multiset(r.votes) == multiset(s) || multiset(r.votes) == multiset(s) + multiset{nv};
    }
  }

  lemma BallotsAppend(a: seq<CommentVote>, c: seq<CommentVote>)
    ensures Ballots(a + c) == Ballots(a) + Ballots(c)
  {
    if a == [] {
      assert a + c == c;
    } else {
      assert (a + c)[1..] == a[1..] + c;
      assert (a + c)[0] == a[0];
      BallotsAppend(a[1..], c);
    }
  }

  lemma BallotsSplice(vs: seq<CommentVote>, k: nat)
    requires k < |vs|
    ensures Ballots(SpliceOne(vs, k)) + multiset{(vs[k].userId, vs[k].commentId, vs[k].kind)} == Ballots(vs)
  {
    var pre, post := vs[..k], vs[k + 1..];
    SplitAt(vs, k);
    assert SpliceOne(vs, k) == pre + post;
    BallotsAppend(pre + [vs[k]], post);
    BallotsAppend(pre, [vs[k]]);
    BallotsAppend(pre, post);
    assert Ballots([vs[k]]) == multiset{(vs[k].userId, vs[k].commentId, vs[k].kind)} by {
      assert [vs[k]][1..] == [];
    }
  }

  /** After one `voteOnComment` the voted comment sits where it was and the
      store still satisfies what a second click needs. */
  lemma SecondClickSetup(b: Board, userId: string, commentId: string, t: VoteType, id1: string, now1: int)
    requires UniqueVoteIds(b.votes) && AtMostOneVotePerPair(b.votes) && FreshVoteId(b.votes, id1)
    requires CommentIndex(b.comments, commentId).Some?
    ensures var b1 := CastVote(b, userId, commentId, t, id1, now1);
      && CommentIndex(b1.comments, commentId) == CommentIndex(b.comments, commentId)
      && UniqueVoteIds(b1.votes) && AtMostOneVotePerPair(b1.votes)
  {
    var b1 := CastVote(b, userId, commentId, t, id1, now1);
    VoteKeepsOneVotePerPair(b, userId, commentId, t, id1, now1);
    assert forall j :: 0 <= j < |b1.comments| ==> b1.comments[j].id == b.comments[j].id;
  }

  /** The user's vote sits at the end after it was pushed onto a list holding
      none of theirs. */
  lemma VoteIndexAfterPush(vs: seq<CommentVote>, nv: CommentVote, userId: string, commentId: string)
    requires VoteIndex(vs, userId, commentId).None? && IsVoteOf(nv, userId, commentId)
    ensures VoteIndex(vs + [nv], userId, commentId) == Some(|vs|)
  {
    assert forall j :: 0 <= j < |vs| ==> (vs + [nv])[j] == vs[j];
    assert (vs + [nv])[|vs|] == nv;
  }

  /** First click with no earlier vote, second click undoes it. */
  lemma VoteTwiceFromNone(b: Board, userId: string, commentId: string, t: VoteType,
                          id1: string, now1: int, id2: string, now2: int)
    requires UniqueVoteIds(b.votes) && AtMostOneVotePerPair(b.votes)
    requires FreshVoteId(b.votes, id1) && FreshVoteId(b.votes, id2) && id1 != id2
    requires CommentIndex(b.comments, commentId).Some?
    requires VoteIndex(b.votes, userId, commentId).None?
    ensures CastVote(CastVote(b, userId, commentId, t, id1, now1), userId, commentId, t, id2, now2) == b
  {
    var ci := CommentIndex(b.comments, commentId).value;
    var nv1 := NewVote(userId, commentId, t, id1, now1);
    var b1 := CastVote(b, userId, commentId, t, id1, now1);
    var b2 := CastVote(b1, userId, commentId, t, id2, now2);
    assert b1 == Record(b, ci, nv1);
    SecondClickSetup(b, userId, commentId, t, id1, now1);
    VoteIndexAfterPush(b.votes, nv1, userId, commentId);
    assert UserVoteForComment(b1.votes, userId, commentId) == Some(nv1);
    assert b2 == Retract(b1, ci, Some(nv1));
    RetractRecorded(b, ci, nv1);
  }

  /** Retracting a just-recorded vote with a fresh id restores the store. */
  lemma RetractRecorded(b: Board, ci: nat, nv: CommentVote)
    requires ci < |b.comments| && FreshVoteId(b.votes, nv.id)
    ensures Retract(Record(b, ci, nv), ci, Some(nv)) == b
  {
    var b1 := Record(b, ci, nv);
    var b2 := Retract(b1, ci, Some(nv));
    assert VoteIdIndex(b1.votes, nv.id) == Some(|b.votes|) by {
      assert forall j :: 0 <= j < |b.votes| ==> b1.votes[j] == b.votes[j];
    }
    assert b1.votes[..|b.votes|] == b.votes;
    assert b2.votes == b.votes;
    AdjustBack(b.comments[ci], b1.comments[ci], b2.comments[ci], nv.kind);
    CommentsRestored(b.comments, b2.comments, ci);
  }

  /** A comment list whose only changed entry is restored equals the original. */
  lemma CommentsRestored(cs: seq<Comment>, cs2: seq<Comment>, ci: nat)
    requires |cs2| == |cs| && ci < |cs| && cs2[ci] == cs[ci]
    requires forall i :: 0 <= i < |cs| && i != ci ==> cs2[i] == cs[i]
    ensures cs2 == cs
  {
  }

  /** First click retracts an earlier vote of the same type, second click
      casts it again. */
  lemma VoteTwiceFromSame(b: Board, userId: string, commentId: string, t: VoteType,
                          id1: string, now1: int, id2: string, now2: int)
    requires UniqueVoteIds(b.votes) && AtMostOneVotePerPair(b.votes)
    requires FreshVoteId(b.votes, id1) && FreshVoteId(b.votes, id2) && id1 != id2
    requires CommentIndex(b.comments, commentId).Some?
    requires VoteIndex(b.votes, userId, commentId).Some?
    requires b.votes[VoteIndex(b.votes, userId, commentId).value].kind == t
    ensures var b2 := CastVote(CastVote(b, userId, commentId, t, id1, now1), userId, commentId, t, id2, now2);
      b2.comments == b.comments && Ballots(b2.votes) == Ballots(b.votes)
  {
    var ci := CommentIndex(b.comments, commentId).value;
    var k := VoteIndex(b.votes, userId, commentId).value;
    var b1 := CastVote(b, userId, commentId, t, id1, now1);
    var b2 := CastVote(b1, userId, commentId, t, id2, now2);
    var nv2 := NewVote(userId, commentId, t, id2, now2);
    CastVoteShape(b, userId, commentId, t, id1, now1);
    SecondClickSetup(b, userId, commentId, t, id1, now1);
    CastVoteShape(b1, userId, commentId, t, id2, now2);
    SpliceKeepsPairs(b.votes, k);
    assert VoteIndex(b1.votes, userId, commentId).None?;
    assert b2.votes == b1.votes + [nv2];
    BallotsAppend(b1.votes, [nv2]);
    assert Ballots([nv2]) == multiset{(userId, commentId, t)} by { assert [nv2][1..] == []; }
    BallotsSplice(b.votes, k);
    AdjustBack(b.comments[ci], b1.comments[ci], b2.comments[ci], t);
    assert b2.comments == b.comments;
  }

  /** First click switches an earlier vote of the other type, second click
      retracts the new one. */
  lemma VoteTwiceFromOpposite(b: Board, userId: string, commentId: string, t: VoteType,
                              id1: string, now1: int, id2: string, now2: int)
    requires UniqueVoteIds(b.votes) && AtMostOneVotePerPair(b.votes)
    requires FreshVoteId(b.votes, id1) && FreshVoteId(b.votes, id2) && id1 != id2
    requires CommentIndex(b.comments, commentId).Some?
    requires VoteIndex(b.votes, userId, commentId).Some?
    requires b.votes[VoteIndex(b.votes, userId, commentId).value].kind != t
    ensures var ci := CommentIndex(b.comments, commentId).value;
      var b2 := CastVote(CastVote(b, userId, commentId, t, id1, now1), userId, commentId, t, id2, now2);
      && VoteIndex(b2.votes, userId, commentId).None?
      && Counter(b2.comments[ci], t) == Counter(b.comments[ci], t)
      && Counter(b2.comments[ci], Opposite(t)) == Counter(b.comments[ci], Opposite(t)) - 1
  {
    var k := VoteIndex(b.votes, userId, commentId).value;
    var b1 := CastVote(b, userId, commentId, t, id1, now1);
    var b2 := CastVote(b1, userId, commentId, t, id2, now2);
    CastVoteShape(b, userId, commentId, t, id1, now1);
    SecondClickSetup(b, userId, commentId, t, id1, now1);
    CastVoteShape(b1, userId, commentId, t, id2, now2);
    SpliceKeepsPairs(b.votes, k);
    var s := SpliceOne(b.votes, k);
    VoteIndexAfterPush(s, NewVote(userId, commentId, t, id1, now1), userId, commentId);
    assert b1.votes[..|s|] == s;
    assert b2.votes == s;
  }

  /** Clicking the same vote twice. The clicked type's counter always ends where
      it started. With no earlier vote the whole store is restored; with an
      earlier vote of the same type the counters and the (user, comment, type)
      votes are restored (the vote comes back with a new id and time); with an
      earlier vote of the other type the user ends with no vote and that other
      counter ends one lower. */
  lemma VoteTwice(b: Board, userId: string, commentId: string, t: VoteType,
                  id1: string, now1: int, id2: string, now2: int)
    requires UniqueVoteIds(b.votes) && AtMostOneVotePerPair(b.votes)
    requires FreshVoteId(b.votes, id1) && FreshVoteId(b.votes, id2) && id1 != id2
    requires CommentIndex(b.comments, commentId).Some?
    ensures var ci := CommentIndex(b.comments, commentId).value;
      var b1 := CastVote(b, userId, commentId, t, id1, now1);
      var b2 := CastVote(b1, userId, commentId, t, id2, now2);
      && |b2.comments| == |b.comments|
      && Counter(b2.comments[ci], t) == Counter(b.comments[ci], t)
      && match UserVoteForComment(b.votes, userId, commentId)
         case None => b2 == b
         case Some(prior) =>
           if prior.kind == t then
             b2.comments == b.comments && Ballots(b2.votes) == Ballots(b.votes)
           else
             && UserVoteForComment(b2.votes, userId, commentId).None?
             && Counter(b2.comments[ci], Opposite(t)) == Counter(b.comments[ci], Opposite(t)) - 1
  {
    match VoteIndex(b.votes, userId, commentId)
    case None =>
      VoteTwiceFromNone(b, userId, commentId, t, id1, now1, id2, now2);
    case Some(k) =>
      if b.votes[k].kind == t {
        VoteTwiceFromSame(b, userId, commentId, t, id1, now1, id2, now2);
      } else {
        VoteTwiceFromOpposite(b, userId, commentId, t, id1, now1, id2, now2);
      }
  }

  /** Taking one off a counter and then putting one back restores the comment. */
  lemma AdjustBack(c: Comment, c1: Comment, c2: Comment, t: VoteType)
    requires c1 == c.(upvotes := c1.upvotes, downvotes := c1.downvotes)
    requires c2 == c1.(upvotes := c2.upvotes, downvotes := c2.downvotes)
    requires Counter(c2, t) == Counter(c, t) && Counter(c2, Opposite(t)) == Counter(c, Opposite(t))
    ensures c2 == c
  {
    assert c2.upvotes == c.upvotes && c2.downvotes == c.downvotes by {
      if t == Upvote { assert Opposite(t) == Downvote; } else { assert Opposite(t) == Upvote; }
    }
  }

  // ---------------------------------------------------------------------------
  // The two module arrays, updated in place
  // ---------------------------------------------------------------------------

  class CommentRepository {
    var comments: seq<Comment>
    var votes: seq<CommentVote>

    /** Comment ids and vote ids are unique (the source gets this from
        `Date.now()`, here the caller supplies fresh ids), and no user has two
        votes on one comment, which the `find` lookups of `voteOnComment` rely on. */
    ghost predicate Valid()
      reads this
    {
      UniqueCommentIds(comments) && UniqueVoteIds(votes) && AtMostOneVotePerPair(votes)
    }

    constructor (seedComments: seq<Comment>, seedVotes: seq<CommentVote>)
      requires UniqueCommentIds(seedComments) && UniqueVoteIds(seedVotes) && AtMostOneVotePerPair(seedVotes)
      ensures Valid() && comments == seedComments && votes == seedVotes
    {
      comments := seedComments;
      votes := seedVotes;
    }

    /** `addComment`: push the new comment, then bump the parent's reply count. */
    method AddComment(d: CommentDraft, newId: string, now: int) returns (added: Comment)
      requires Valid()
      requires forall i :: 0 <= i < |comments| ==> comments[i].id != newId
      modifies this
      ensures Valid()
      ensures comments == AddedTo(old(comments), d, newId, now) && votes == old(votes)
      ensures added == comments[|old(comments)|]
    {
      var newComment := NewComment(d, newId, now);
      comments := comments + [newComment];
      if IsTruthy(d.parentCommentId) {
        var parent := CommentIndex(comments, d.parentCommentId.value);
        if parent.Some? {
          comments := comments[parent.value := BumpReplies(comments[parent.value])];
        }
      }
      added := comments[|comments| - 1];
    }

    /** `voteOnComment`: add, retract or switch the user's vote. */
    method VoteOnComment(userId: string, commentId: string, t: VoteType, voteId: string, now: int)
      requires Valid() && FreshVoteId(votes, voteId)
      modifies this
      ensures Valid()
      ensures Board(comments, votes) == CastVote(old(Board(comments, votes)), userId, commentId, t, voteId, now)
    {
      ghost var b := Board(comments, votes);
      VoteKeepsOneVotePerPairIds(b, userId, commentId, t, voteId, now);
      VoteKeepsOneVotePerPair(b, userId, commentId, t, voteId, now);
      var existing := UserVoteForComment(votes, userId, commentId);
      var ci := CommentIndex(comments, commentId);
      if ci.None? {
        return;
      }
      var i := ci.value;
      if existing.Some? {
        var voteIndex := VoteIdIndex(votes, existing.value.id);
        if voteIndex.Some? {
          votes := SpliceOne(votes, voteIndex.value);
          comments := comments[i := AdjustCounter(comments[i], existing.value.kind, -1)];
        }
        if existing.value.kind == t {
          return;
        }
      }
      votes := votes + [CommentVote(voteId, userId, commentId, t, now)];
      comments := comments[i := AdjustCounter(comments[i], t, 1)];
    }
  }

  /** Vote ids stay unique and comment ids are untouched by `voteOnComment`. */
  lemma VoteKeepsOneVotePerPairIds(b: Board, userId: string, commentId: string, t: VoteType, voteId: string, now: int)
    requires UniqueCommentIds(b.comments) && UniqueVoteIds(b.votes) && FreshVoteId(b.votes, voteId)
    ensures var r := CastVote(b, userId, commentId, t, voteId, now);
      UniqueCommentIds(r.comments) && UniqueVoteIds(r.votes)
  {
    var r := CastVote(b, userId, commentId, t, voteId, now);
    SameButCountersKeepsIds(b.comments, r.comments);
    if CommentIndex(b.comments, commentId).Some? {
      var nv := NewVote(userId, commentId, t, voteId, now);
      CastVoteShape(b, userId, commentId, t, voteId, now);
      match VoteIndex(b.votes, userId, commentId)
      case None =>
        PushKeepsIds(b.votes, nv);
      case Some(k) =>
        SpliceKeepsIds(b.votes, k);
        SpliceKeepsFresh(b.votes, k, voteId);
        PushKeepsIds(SpliceOne(b.votes, k), nv);
    }
  }

  /** Changing only vote counters keeps comment ids unique. */
  lemma SameButCountersKeepsIds(a: seq<Comment>, b: seq<Comment>)
    requires SameButCounters(a, b) && UniqueCommentIds(a)
    ensures UniqueCommentIds(b)
  {
    forall i, j | 0 <= i < j < |b| ensures b[i].id != b[j].id {
      assert b[i].id == a[i].id && b[j].id == a[j].id;
    }
  }
}
