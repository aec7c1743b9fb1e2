/**
 * The lesson comment section as the page computes it: the sorted listing of
 * top-level comments, the comment total in the header, the optimistic vote
 * buttons of one comment, and the blank-content guard of the comment form.
 */
module CommentSection {
  import opened JsLib
  import opened CommentTypes
  import opened CommentStore

  // ---------------------------------------------------------------------------
  // sortedComments
  // ---------------------------------------------------------------------------

  /** The comparator handed to `sort`: negative when `a` goes first. Pinned
      comments come first; then "oldest" orders by creation time ascending,
      "most_upvoted" by upvotes descending, and any other key (the default is
      "newest") by creation time descending. There is no secondary key. */
  function Compare(a: Comment, b: Comment, sortBy: string): int {
    if IsPinned(a) && !IsPinned(b) then -1
    else if !IsPinned(a) && IsPinned(b) then 1
    else if sortBy == "oldest" then a.createdAt - b.createdAt
    else if sortBy == "most_upvoted" then b.upvotes - a.upvotes
    else b.createdAt - a.createdAt
  }

  /** Within one pinned group, `a` may come before `b` under the selected key. */
  predicate InKeyOrder(a: Comment, b: Comment, sortBy: string) {
    if sortBy == "oldest" then a.createdAt <= b.createdAt
    else if sortBy == "most_upvoted" then a.upvotes >= b.upvotes
    else a.createdAt >= b.createdAt
  }

  ghost predicate Sorted(s: seq<Comment>, sortBy: string) {
    forall i, j :: 0 <= i < j < |s| ==> Compare(s[i], s[j], sortBy) <= 0
  }

  lemma CompareTrans(a: Comment, b: Comment, c: Comment, sortBy: string)
    requires Compare(a, b, sortBy) <= 0 && Compare(b, c, sortBy) <= 0
    ensures Compare(a, c, sortBy) <= 0
  {
  }

  /** Insertion of `x` before the first element it does not sort after. */
  function Insert(x: Comment, t: seq<Comment>, sortBy: string): (r: seq<Comment>)
    ensures multiset(r) == multiset(t) + multiset{x}
  {
    if t == [] || Compare(x, t[0], sortBy) <= 0 then [x] + t
    else
      assert t == [t[0]] + t[1..];
      [t[0]] + Insert(x, t[1..], sortBy)
  }

  /** A sorted list stays sorted under a new head that sorts before all of it. */
  lemma ConsSorted(h: Comment, t: seq<Comment>, sortBy: string)
    requires Sorted(t, sortBy)
    requires forall y :: y in t ==> Compare(h, y, sortBy) <= 0
    ensures Sorted([h] + t, sortBy)
  {
    var r := [h] + t;
    forall i, j | 0 <= i < j < |r| ensures Compare(r[i], r[j], sortBy) <= 0 {
      if i == 0 {
        assert r[j] == t[j - 1];
      } else {
        assert r[i] == t[i - 1] && r[j] == t[j - 1];
      }
    }
  }

  /** The head of a sorted list sorts before every element of the tail with
      `x` inserted, when `x` does not go before the head. */
  lemma HeadBeforeInserted(x: Comment, t: seq<Comment>, sortBy: string)
    requires t != [] && Sorted(t, sortBy) && Compare(x, t[0], sortBy) > 0
    ensures forall y :: y in Insert(x, t[1..], sortBy) ==> Compare(t[0], y, sortBy) <= 0
  {
    var rest := Insert(x, t[1..], sortBy);
    forall y | y in rest ensures Compare(t[0], y, sortBy) <= 0 {
      assert y in multiset(rest);
      if y != x {
        assert y in multiset(t[1..]);
        var k :| 0 <= k < |t[1..]| && t[1..][k] == y;
        assert t[k + 1] == y;
      }
    }
  }

  lemma {:induction false} InsertSorted(x: Comment, t: seq<Comment>, sortBy: string)
    requires Sorted(t, sortBy)
    ensures Sorted(Insert(x, t, sortBy), sortBy)
  {
    if t == [] {
    } else if Compare(x, t[0], sortBy) <= 0 {
      forall y | y in t ensures Compare(x, y, sortBy) <= 0 {
        var j :| 0 <= j < |t| && t[j] == y;
        if j > 0 {
          CompareTrans(x, t[0], y, sortBy);
        }
      }
      ConsSorted(x, t, sortBy);
    } else {
      InsertSorted(x, t[1..], sortBy);
      assert Sorted(t[1..], sortBy);
      HeadBeforeInserted(x, t, sortBy);
      ConsSorted(t[0], Insert(x, t[1..], sortBy), sortBy);
    }
  }

  /** `[...comments].sort(compare)`: the listing the page renders. The sort
      works on a copy, so the `comments` state itself keeps store order. */
  function SortComments(cs: seq<Comment>, sortBy: string): (r: seq<Comment>)
    ensures multiset(r) == multiset(cs)
    ensures Sorted(r, sortBy)
  {
    if cs == [] then []
    else
      assert cs == [cs[0]] + cs[1..];
      var tail := SortComments(cs[1..], sortBy);
      InsertSorted(cs[0], tail, sortBy);
      Insert(cs[0], tail, sortBy)
  }

  /** What sortedness under the comparator means for the page: every pinned
      comment precedes every unpinned one, and within each group the selected
      key is in order, whatever `sortBy` holds. */
  lemma SortedListingOrder(cs: seq<Comment>, sortBy: string)
    ensures var r := SortComments(cs, sortBy);
      && |r| == |cs|
      && (forall i, j :: 0 <= i < j < |r| && IsPinned(r[j]) ==> IsPinned(r[i]))
      && (forall i, j :: 0 <= i < j < |r| && IsPinned(r[i]) == IsPinned(r[j]) ==> InKeyOrder(r[i], r[j], sortBy))
  {
    var r := SortComments(cs, sortBy);
    assert |multiset(r)| == |multiset(cs)|;
    forall i, j | 0 <= i < j < |r|
      ensures IsPinned(r[j]) ==> IsPinned(r[i])
      ensures IsPinned(r[i]) == IsPinned(r[j]) ==> InKeyOrder(r[i], r[j], sortBy)
    {
      assert Compare(r[i], r[j], sortBy) <= 0;
    }
  }

  /** The comparator returns 0: neither comment goes first. */
  predicate Tied(a: Comment, b: Comment, sortBy: string) {
    Compare(a, b, sortBy) == 0
  }

  function TiedWith(k: Comment, sortBy: string): Comment -> bool {
    (c: Comment) => Tied(c, k, sortBy)
  }

  /** Two comments tied with the same comment are tied with each other. */
  lemma TiedTogether(a: Comment, b: Comment, k: Comment, sortBy: string)
    ensures Tied(a, k, sortBy) && Tied(b, k, sortBy) ==> Compare(a, b, sortBy) == 0
  {
  }

  /** Past a head that `x` sorts after, insertion goes on in the tail. */
  lemma InsertPastHead(x: Comment, t: seq<Comment>, sortBy: string)
    requires t != [] && Compare(x, t[0], sortBy) > 0
    ensures Insert(x, t, sortBy) == [t[0]] + Insert(x, t[1..], sortBy)
  {
  }

  /** Two prefixes of which at most one is non-empty commute. */
  lemma SwapPrefixes(a: seq<Comment>, b: seq<Comment>, rest: seq<Comment>)
    requires a == [] || b == []
    ensures a + (b + rest) == b + (a + rest)
  {
  }

  lemma {:induction false} InsertKeepsTies(x: Comment, t: seq<Comment>, sortBy: string, k: Comment)
    ensures Filter(TiedWith(k, sortBy), Insert(x, t, sortBy))
         == (if Tied(x, k, sortBy) then [x] else []) + Filter(TiedWith(k, sortBy), t)
  {
    var p := TiedWith(k, sortBy);
    if t == [] || Compare(x, t[0], sortBy) <= 0 {
      FilterCons(p, x, t);
    } else {
      var fx := if Tied(x, k, sortBy) then [x] else [];
      var f0 := if Tied(t[0], k, sortBy) then [t[0]] else [];
      var rest := Insert(x, t[1..], sortBy);
      InsertPastHead(x, t, sortBy);
      FilterCons(p, t[0], rest);
      InsertKeepsTies(x, t[1..], sortBy, k);
      assert Filter(p, Insert(x, t, sortBy)) == f0 + (fx + Filter(p, t[1..]));
      TiedTogether(x, t[0], k, sortBy);
      SwapPrefixes(f0, fx, Filter(p, t[1..]));
      FilterCons(p, t[0], t[1..]);
      assert [t[0]] + t[1..] == t;
    }
  }

  /** The sort is stable: comments the comparator ties keep their store order
      relative to each other (ECMAScript requires `Array.prototype.sort` to
      be stable). */
  lemma {:induction false} SortedListingStable(cs: seq<Comment>, sortBy: string, k: Comment)
    ensures Filter(TiedWith(k, sortBy), SortComments(cs, sortBy)) == Filter(TiedWith(k, sortBy), cs)
  {
    var p := TiedWith(k, sortBy);
    if cs != [] {
      SortedListingStable(cs[1..], sortBy, k);
      InsertKeepsTies(cs[0], SortComments(cs[1..], sortBy), sortBy, k);
      assert [cs[0]] + cs[1..] == cs;
      FilterCons(p, cs[0], cs[1..]);
    }
  }

  // ---------------------------------------------------------------------------
  // totalComments
  // ---------------------------------------------------------------------------

  /** `comments.reduce((total, c) => total + 1 + c.replyCount, 0)`. */
  function TotalComments(cs: seq<Comment>): (r: int)
    ensures (forall i :: 0 <= i < |cs| ==> cs[i].replyCount >= 0) ==> r >= |cs|
  {
    if cs == [] then 0
    else TotalComments(cs[..|cs| - 1]) + 1 + cs[|cs| - 1].replyCount
  }

  lemma {:induction false} TotalAppend(a: seq<Comment>, b: seq<Comment>)
    ensures TotalComments(a + b) == TotalComments(a) + TotalComments(b)
  {
    if b == [] {
      assert a + b == a;
    } else {
      TotalAppend(a, b[..|b| - 1]);
      assert (a + b)[..|a + b| - 1] == a + b[..|b| - 1];
    }
  }

  /** The header count of a lesson: its top-level comments and their reply counts. */
  function LessonTotal(cs: seq<Comment>, lessonId: string): int {
    TotalComments(TopLevelComments(cs, lessonId))
  }

  /** Changing the reply count of one stored comment moves the lesson total by
      the same amount when that comment is top-level in the lesson, and not at
      all otherwise. */
  lemma {:induction false} LessonTotalUpdate(cs: seq<Comment>, k: nat, c: Comment, lessonId: string)
    requires k < |cs|
    requires c == cs[k].(replyCount := c.replyCount)
    ensures LessonTotal(cs[k := c], lessonId)
         == LessonTotal(cs, lessonId) + if IsTopLevelOf(cs[k], lessonId) then c.replyCount - cs[k].replyCount else 0
  {
    var n := |cs| - 1;
    var front := cs[..n];
    assert cs == front + [cs[n]];
    TopLevelAppend(front, cs[n], lessonId);
    if k == n {
      assert cs[k := c] == front + [c];
      TopLevelAppend(front, c, lessonId);
      TotalAppend(TopLevelComments(front, lessonId), if IsTopLevelOf(c, lessonId) then [c] else []);
    } else {
      LessonTotalUpdate(front, k, c, lessonId);
      assert cs[k := c] == front[k := c] + [cs[n]];
      TopLevelAppend(front[k := c], cs[n], lessonId);
      TotalAppend(TopLevelComments(front[k := c], lessonId), if IsTopLevelOf(cs[n], lessonId) then [cs[n]] else []);
    }
    TotalAppend(TopLevelComments(front, lessonId), if IsTopLevelOf(cs[n], lessonId) then [cs[n]] else []);
  }

  /** The stored comment `addComment` bumps is top-level in the lesson. */
  predicate ParentIsTopLevel(cs: seq<Comment>, parentId: string, lessonId: string) {
    match CommentById(cs, parentId)
    case Some(p) => IsTopLevelOf(p, lessonId)
    case None => false
  }

  /** Pushing a comment adds one plus its reply count when it is top-level in the lesson. */
  lemma LessonTotalPush(cs: seq<Comment>, c: Comment, lessonId: string)
    ensures LessonTotal(cs + [c], lessonId)
         == LessonTotal(cs, lessonId) + if IsTopLevelOf(c, lessonId) then 1 + c.replyCount else 0
  {
    TopLevelAppend(cs, c, lessonId);
    TotalAppend(TopLevelComments(cs, lessonId), if IsTopLevelOf(c, lessonId) then [c] else []);
    assert [c][..0] == [];
  }

  /** Where the parent lookup of `addComment` lands: an old comment, found
      where the old list would find it, or (with a fresh id) nowhere. */
  lemma ParentLookup(cs: seq<Comment>, n: Comment, pid: string)
    requires forall j :: 0 <= j < |cs| ==> cs[j].id != n.id
    ensures match CommentIndex(cs + [n], pid)
      case Some(p) => if p < |cs| then CommentIndex(cs, pid) == Some(p) else CommentIndex(cs, pid).None?
      case None => CommentIndex(cs, pid).None?
  {
    var pushed := cs + [n];
    assert forall j :: 0 <= j < |cs| ==> pushed[j] == cs[j];
  }

  /** The reply case of `LessonTotalAfterAdd`. */
  lemma LessonTotalAfterReply(cs: seq<Comment>, d: CommentDraft, id: string, now: int, lessonId: string)
    requires forall j :: 0 <= j < |cs| ==> cs[j].id != id
    requires IsTruthy(d.parentCommentId)
    ensures LessonTotal(AddedTo(cs, d, id, now), lessonId)
         == LessonTotal(cs, lessonId) + (if ParentIsTopLevel(cs, d.parentCommentId.value, lessonId) then 1 else 0)
  {
    var n := NewComment(d, id, now);
    var pushed := cs + [n];
    var pid := d.parentCommentId.value;
    LessonTotalPush(cs, n, lessonId);
    ParentLookup(cs, n, pid);
    match CommentIndex(pushed, pid)
    case Some(p) =>
      LessonTotalUpdate(pushed, p, BumpReplies(pushed[p]), lessonId);
      if p < |cs| {
        assert pushed[p] == cs[p];
      }
    case None =>
  }

  /** After `addComment` with a fresh id, the lesson's header count goes up by
      one for a new top-level comment of the lesson and by one for a reply to
      a top-level comment of the lesson; a reply to a reply, a reply whose
      parent is missing, and a comment of another lesson leave it unchanged. */
  lemma LessonTotalAfterAdd(cs: seq<Comment>, d: CommentDraft, id: string, now: int, lessonId: string)
    requires forall j :: 0 <= j < |cs| ==> cs[j].id != id
    ensures LessonTotal(AddedTo(cs, d, id, now), lessonId)
         == LessonTotal(cs, lessonId)
            + (if d.lessonId == lessonId && !IsTruthy(d.parentCommentId) then 1 else 0)
            + (if IsTruthy(d.parentCommentId) && ParentIsTopLevel(cs, d.parentCommentId.value, lessonId) then 1 else 0)
  {
    if IsTruthy(d.parentCommentId) {
      LessonTotalAfterReply(cs, d, id, now, lessonId);
    } else {
      LessonTotalPush(cs, NewComment(d, id, now), lessonId);
    }
  }

  // ---------------------------------------------------------------------------
  // CommentItem.handleVote
  // ---------------------------------------------------------------------------

  /** The vote buttons' local state: the user's vote and the two displayed counters. */
  datatype LocalVoteState = LocalVoteState(userVote: Option<VoteType>, upvotes: int, downvotes: int)

  /** `existingVote?.type || null`: the type of the user's stored vote, if any. */
  function StoredVote(vs: seq<CommentVote>, userId: string, commentId: string): (r: Option<VoteType>)
    ensures r.None? <==> forall v :: v in vs ==> !IsVoteOf(v, userId, commentId)
  {
    match UserVoteForComment(vs, userId, commentId)
    case None => None
    case Some(v) => Some(v.kind)
  }

  /** The optimistic update of one click on the `t` button: the vote becomes
      `null` when it already was `t` and `t` otherwise; the previous vote's
      counter goes down and the new vote's counter goes up. */
  function LocalVote(s: LocalVoteState, t: VoteType): LocalVoteState {
    var newVote := if s.userVote == Some(t) then None else Some(t);
    var up := s.upvotes - (if s.userVote == Some(Upvote) then 1 else 0) + (if newVote == Some(Upvote) then 1 else 0);
    var down := s.downvotes - (if s.userVote == Some(Downvote) then 1 else 0) + (if newVote == Some(Downvote) then 1 else 0);
    LocalVoteState(newVote, up, down)
  }

  /** The local counter the `t` button shows. */
  function LocalCounter(s: LocalVoteState, t: VoteType): int {
    if t == Upvote then s.upvotes else s.downvotes
  }

  /** One click toggles the `t` vote on or off, moving the counters by one each. */
  lemma LocalVoteTransition(s: LocalVoteState, t: VoteType)
    ensures var r := LocalVote(s, t);
      && (r.userVote.None? <==> s.userVote == Some(t))
      && (r.userVote.Some? ==> r.userVote == Some(t))
      && LocalCounter(r, t) == LocalCounter(s, t) + (if s.userVote == Some(t) then -1 else 1)
      && LocalCounter(r, Opposite(t)) == LocalCounter(s, Opposite(t)) - (if s.userVote == Some(Opposite(t)) then 1 else 0)
  {
    if t == Upvote { assert Opposite(t) == Downvote; } else { assert Opposite(t) == Upvote; }
  }

  /** Clicking the same button twice restores the local state when there was
      no vote or a vote of that type before; after a vote of the other type it
      ends with no vote, the clicked counter restored and the other one lower. */
  lemma LocalVoteTwice(s: LocalVoteState, t: VoteType)
    ensures var r := LocalVote(LocalVote(s, t), t);
      && (s.userVote.None? || s.userVote == Some(t) ==> r == s)
      && (s.userVote == Some(Opposite(t)) ==>
            && r.userVote.None?
            && LocalCounter(r, t) == LocalCounter(s, t)
            && LocalCounter(r, Opposite(t)) == LocalCounter(s, Opposite(t)) - 1)
  {
    LocalVoteTransition(s, t);
    LocalVoteTransition(LocalVote(s, t), t);
  }

  /** When the local vote is the stored vote of an existing comment, the
      optimistic update moves each local counter exactly as `voteOnComment`
      moves the stored counter for the same click, and the new local vote is
      again the stored vote. */
  lemma OptimisticAgrees(s: LocalVoteState, b: Board, userId: string, commentId: string,
                         t: VoteType, voteId: string, now: int)
    requires UniqueVoteIds(b.votes) && AtMostOneVotePerPair(b.votes)
    requires CommentIndex(b.comments, commentId).Some?
    requires s.userVote == StoredVote(b.votes, userId, commentId)
    ensures var ci := CommentIndex(b.comments, commentId).value;
      var r := CastVote(b, userId, commentId, t, voteId, now);
      var s' := LocalVote(s, t);
      && s'.userVote == StoredVote(r.votes, userId, commentId)
      && s'.upvotes - s.upvotes == r.comments[ci].upvotes - b.comments[ci].upvotes
      && s'.downvotes - s.downvotes == r.comments[ci].downvotes - b.comments[ci].downvotes
  {
    var ci := CommentIndex(b.comments, commentId).value;
    var r := CastVote(b, userId, commentId, t, voteId, now);
    var nv := NewVote(userId, commentId, t, voteId, now);
    CastVoteShape(b, userId, commentId, t, voteId, now);
    match VoteIndex(b.votes, userId, commentId)
    case None =>
      VoteIndexAfterPush(b.votes, nv, userId, commentId);
    case Some(k) =>
      SpliceKeepsPairs(b.votes, k);
      if b.votes[k].kind != t {
        VoteIndexAfterPush(SpliceOne(b.votes, k), nv, userId, commentId);
      }
  }

  /** One `CommentItem`: the comment and user it shows, and its vote state. */
  class CommentItemView {
    const commentId: string
    const currentUserId: string
    var userVote: Option<VoteType>
    var localUpvotes: int
    var localDownvotes: int

    function State(): LocalVoteState
      reads this
    {
      LocalVoteState(userVote, localUpvotes, localDownvotes)
    }

    /** Mounting: the counters start from the comment, and the effect that runs
        on mount reads the user's stored vote. */
    constructor (comment: Comment, currentUserId: string, votes: seq<CommentVote>)
      ensures this.commentId == comment.id && this.currentUserId == currentUserId
      ensures userVote == StoredVote(votes, currentUserId, comment.id)
      ensures localUpvotes == comment.upvotes && localDownvotes == comment.downvotes
    {
      this.commentId := comment.id;
      this.currentUserId := currentUserId;
      localUpvotes := comment.upvotes;
      localDownvotes := comment.downvotes;
      userVote := StoredVote(votes, currentUserId, comment.id);
    }

    /** `handleVote(t)`: the optimistic local update, then the store update. */
    method HandleVote(t: VoteType, repo: CommentRepository, voteId: string, now: int)
      requires repo.Valid() && FreshVoteId(repo.votes, voteId)
      modifies this, repo
      ensures State() == LocalVote(old(State()), t)
      ensures repo.Valid()
      ensures Board(repo.comments, repo.votes)
           == CastVote(old(Board(repo.comments, repo.votes)), currentUserId, commentId, t, voteId, now)
    {
      var previousVote := userVote;
      var newVote := if userVote == Some(t) then None else Some(t);
      var up, down := localUpvotes, localDownvotes;
      if previousVote == Some(Upvote) {
        up := up - 1;
      } else if previousVote == Some(Downvote) {
        down := down - 1;
      }
      if newVote == Some(Upvote) {
        up := up + 1;
      } else if newVote == Some(Downvote) {
        down := down + 1;
      }
      assert LocalVoteState(newVote, up, down) == LocalVote(State(), t);
      userVote, localUpvotes, localDownvotes := newVote, up, down;
      repo.VoteOnComment(currentUserId, commentId, t, voteId, now);
    }
  }

  // ---------------------------------------------------------------------------
  // CommentForm.handleSubmit
  // ---------------------------------------------------------------------------

  /** `content.trim()` is truthy: the guard the form's submit handler and its
      submit button both apply. */
  function HasContent(content: string): (r: bool)
    ensures r <==> !IsBlank(content)
  {
    TrimEmptyIffBlank(content);
    Trim(content) != ""
  }

  /** The comment form's own state. Posting itself is not wired up: the
      store call in the handler is commented out, so a submission only clears
      the field and notifies the parent, which refetches. */
  class CommentFormView {
    var content: string
    var isSubmitting: bool

    constructor ()
      ensures content == "" && !isSubmitting
    {
      content := "";
      isSubmitting := false;
    }

    /** The submit button is enabled only for non-blank content while idle. */
    function SubmitEnabled(): (r: bool)
      reads this
      ensures r <==> !IsBlank(content) && !isSubmitting
    {
      HasContent(content) && !isSubmitting
    }

    /** `handleSubmit`: blank content returns at once with nothing changed;
        otherwise the field is cleared, the form is idle again and `onSubmit`
        is called, which `submitted` reports. */
    method HandleSubmit() returns (submitted: bool)
      modifies this
      ensures submitted <==> !IsBlank(old(content))
      ensures !submitted ==> content == old(content) && isSubmitting == old(isSubmitting)
      ensures submitted ==> content == "" && !isSubmitting
    {
      if !HasContent(content) {
        return false;
      }
      isSubmitting := true;
      content := "";
      isSubmitting := false;
      submitted := true;
    }
  }
}
