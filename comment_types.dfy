/**
 * The records of the lesson comment system: a comment, a vote on a comment,
 * and the fields a caller supplies when posting a comment. Timestamps are
 * milliseconds since the epoch.
 */
module CommentTypes {
  import opened JsLib

  datatype VoteType = Upvote | Downvote

  /** The other vote type. */
  function Opposite(t: VoteType): (r: VoteType)
    ensures r != t
  {
    if t == Upvote then Downvote else Upvote
  }

  datatype Comment = Comment(
    id: string,
    lessonId: string,
    courseId: string,
    userId: string,
    userName: string,
    userAvatar: Option<string>,
    content: string,
    createdAt: int,
    updatedAt: int,
    upvotes: int,
    downvotes: int,
    replyCount: int,
    parentCommentId: Option<string>,  // absent for a top-level comment
    isEdited: bool,
    isPinned: Option<bool>)

  datatype CommentVote = CommentVote(
    id: string,
    userId: string,
    commentId: string,
    kind: VoteType,
    createdAt: int)

  /** What `addComment` receives: a comment without its id and timestamps. */
  datatype CommentDraft = CommentDraft(
    lessonId: string,
    courseId: string,
    userId: string,
    userName: string,
    userAvatar: Option<string>,
    content: string,
    upvotes: int,
    downvotes: int,
    replyCount: int,
    parentCommentId: Option<string>,
    isEdited: bool,
    isPinned: Option<bool>)

  /** JavaScript truthiness of an optional string: absent and "" are both false. */
  predicate IsTruthy(s: Option<string>) {
    s.Some? && s.value != ""
  }

  /** The comment is a reply: its `parentCommentId` is truthy. */
  predicate HasParent(c: Comment) {
    IsTruthy(c.parentCommentId)
  }

  /** JavaScript truthiness of `isPinned`: absent and `false` are both unpinned. */
  predicate IsPinned(c: Comment) {
    c.isPinned == Some(true)
  }

  /** The vote counter of `c` that votes of type `t` feed. */
  function Counter(c: Comment, t: VoteType): int {
    if t == Upvote then c.upvotes else c.downvotes
  }

  /** `c` with the counter for `t` moved by `delta`, everything else as it was. */
  function AdjustCounter(c: Comment, t: VoteType, delta: int): (r: Comment)
    ensures Counter(r, t) == Counter(c, t) + delta
    ensures Counter(r, Opposite(t)) == Counter(c, Opposite(t))
    ensures r == c.(upvotes := r.upvotes, downvotes := r.downvotes)
  {
    if t == Upvote then c.(upvotes := c.upvotes + delta)
    else c.(downvotes := c.downvotes + delta)
  }
}
