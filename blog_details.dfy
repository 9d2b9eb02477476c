/** The logic of react/src/BlogDetails.jsx: the related-post selection, the
    comment-count label, and submitComment's guarded updates of the page
    state. The colour lookup is Cards.CategoryColor. */
module BlogDetails {
  import opened Text
  import opened Cards
  import BlogApi

  /** `p._id !== id && p.category === category`: strict equality, so case
      matters and two absent categories are equal. */
  predicate IsRelated(p: Card, id: string, category: Option<string>)
    ensures IsRelated(p, id, category) ==> CategoryColor(p.category) == CategoryColor(category)
  {
    p.id != id && p.category == category
  }

  function RelatedCandidates(all: seq<Card>, id: string, category: Option<string>): (r: seq<Card>)
    ensures |r| <= |all|
    ensures forall i :: 0 <= i < |r| ==> IsRelated(r[i], id, category) && r[i] in all
    ensures forall p :: p in all && IsRelated(p, id, category) ==> p in r
  {
    if all == [] then []
    else
      var rest := RelatedCandidates(all[1..], id, category);
      if IsRelated(all[0], id, category) then [all[0]] + rest else rest
  }

  /** `.filter(...).slice(0, 3)`: the first three candidates in fetched order. */
  function RelatedPosts(all: seq<Card>, id: string, category: Option<string>): (r: seq<Card>)
    ensures |r| <= 3
    ensures forall i :: 0 <= i < |r| ==> r[i].id != id && r[i].category == category && r[i] in all
    ensures IsPrefix(r, RelatedCandidates(all, id, category))
    ensures |r| == if |RelatedCandidates(all, id, category)| < 3 then |RelatedCandidates(all, id, category)| else 3
  {
    var candidates := RelatedCandidates(all, id, category);
    if |candidates| <= 3 then candidates else candidates[..3]
  }

  /** `.filter` keeps the fetched order: a post fetched last is a candidate
      after all the earlier ones, or not at all. */
  lemma {:induction false} RelatedCandidatesSnoc(all: seq<Card>, p: Card, id: string, category: Option<string>)
    ensures RelatedCandidates(all + [p], id, category)
              == RelatedCandidates(all, id, category) + (if IsRelated(p, id, category) then [p] else [])
  {
    if all != [] {
      assert (all + [p])[1..] == all[1..] + [p];
      RelatedCandidatesSnoc(all[1..], p, id, category);
    } else {
      assert [p][1..] == [];
    }
  }

  /** The category test is case-sensitive: a post whose category differs from
      the viewed one only in case is never related. */
  lemma RelatedIsCaseSensitive(all: seq<Card>, id: string, c: string, d: string)
    requires SameIgnoringCase(c, d) && c != d
    ensures forall p :: p in RelatedPosts(all, id, Some(c)) ==> p.category != Some(d)
  {
  }

  /** `{n} {n === 1 ? 'comment' : 'comments'}`: the noun after the count. */
  function CommentCountNoun(count: nat): (noun: string)
    ensures noun == "comment" <==> count == 1
    ensures noun == "comments" <==> count != 1
  {
    if count == 1 then "comment" else "comments"
  }

  /** The request submitComment sends: the post, the typed body untrimmed,
      and the header `Bearer <token>`. */
  datatype CommentRequest = CommentRequest(postId: string, body: string, authorization: string)

  /** What the request yields: the created comment, or an error whose
      response may carry a message. */
  datatype Reply = Posted(comment: BlogApi.Comment) | Rejected(message: Option<string>)

  const LoginPrompt := "Please login to post a comment"

  /** `err.response?.data?.message || 'Failed to post comment'`. */
  function FailureAlert(message: Option<string>): (a: string)
    ensures a != ""
    ensures message.Some? && message.value != "" ==> a == message.value
    ensures !(message.Some? && message.value != "") ==> a == "Failed to post comment"
  {
    if message.Some? && message.value != "" then message.value else "Failed to post comment"
  }

  /** The page state submitComment works on. */
  class DetailsPage {
    /** The `id` route parameter. */
    const postId: string
    /** `post.comments`. */
    var comments: seq<BlogApi.Comment>
    var commentBody: string
    var submittingComment: bool

    constructor (postId: string, comments: seq<BlogApi.Comment>)
      ensures this.postId == postId && this.comments == comments
      ensures commentBody == "" && !submittingComment
    {
      this.postId := postId;
      this.comments := comments;
      commentBody := "";
      submittingComment := false;
    }

    /** submitComment: with no stored token it only alerts; with a blank body
        it does nothing; otherwise it sends the body and, on success, appends
        the returned comment and clears the input, or else alerts. `storedToken`
        is what localStorage holds and `reply` what the request yields. */
    method SubmitComment(storedToken: Option<string>, reply: Reply)
      returns (sent: Option<CommentRequest>, alert: Option<string>)
      modifies this
      ensures (storedToken.None? || storedToken.value == "") ==>
                sent == None && alert == Some(LoginPrompt) && unchanged(this)
      ensures storedToken.Some? && storedToken.value != "" && Trim(old(commentBody)) == "" ==>
                sent == None && alert == None && unchanged(this)
      ensures sent.Some? <==> storedToken.Some? && storedToken.value != "" && Trim(old(commentBody)) != ""
      ensures sent.Some? ==>
                && sent.value == CommentRequest(postId, old(commentBody), "Bearer " + storedToken.value)
                && !submittingComment
                && match reply
                   case Posted(c) =>
                     comments == old(comments) + [c] && commentBody == "" && alert == None
                   case Rejected(m) =>
                     comments == old(comments) && commentBody == old(commentBody) && alert == Some(FailureAlert(m))
    {
      sent, alert := None, None;
      if storedToken.None? || storedToken.value == "" {
        alert := Some(LoginPrompt);
        return;
      }
      if Trim(commentBody) == "" {
        return;
      }
      submittingComment := true;
      sent := Some(CommentRequest(postId, commentBody, "Bearer " + storedToken.value));
      match reply {
        case Posted(c) =>
          comments := comments + [c];
          commentBody := "";
        case Rejected(m) =>
          alert := Some(FailureAlert(m));
      }
      submittingComment := false;
    }
  }

  /** What the page sends passes the server's body check, and a token the
      server issued reaches the server's guard unchanged. */
  lemma SentRequestPassesServerChecks(req: CommentRequest, token: string)
    requires Trim(req.body) != ""
    requires req.authorization == "Bearer " + token && ' ' !in token
    ensures BlogApi.ValidBody(Some(req.body))
    ensures BlogApi.BearerToken(Some(req.authorization)) == Some(token)
  {
    BlogApi.SchemeIgnored("Bearer", token);
  }
}
