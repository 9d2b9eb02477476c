# Personal blog: a Dafny model of the API server and the two blog pages

The system is a personal blog. It has three parts:

- An Express server keeps users and posts. Each post holds its comments. The server registers users, logs them in with a one-day JWT, and lets authenticated users publish posts, comment on any post, and edit or delete their own posts.
- The "all blogs" page filters the fetched posts by a search term and a category.
- The "blog details" page shows a post with up to three related posts and lets a logged-in reader add a comment.

The model has six modules:

- `Text` (text.dfy): the JavaScript string operations the code relies on. These are `trim` with the JavaScript whitespace set, ASCII `toLowerCase`, `includes`, and `split` on one character.
- `BlogApi` (blog_api.dfy): the stored records, the bearer-token guard, and the class `BlogServer`. The class holds the two collections as maps and has one method per route handler. Every handler answers either with its success value or with the failure status and message the code sends. The class invariant `Valid` says:
  - ids are the map keys;
  - required fields are non-empty;
  - emails are unique;
  - every stored comment body is trimmed and non-empty.
- `Scenarios` (scenarios.dfy): sequences of requests proved from the handlers' contracts. They cover a duplicate registration, login followed by token expiry, author-only editing, and newest-first listing.
- `Cards` (cards.dfy): a post as the pages receive it (every field but `_id` may be absent), and the category colour lookup the two pages share.
- `AllBlogs` (all_blogs.dfy): `categories` and `filteredPosts`.
- `BlogDetails` (blog_details.dfy): the related-post selection, the comment-count label, and `submitComment` as a method on the page state.

The environment is handled as follows:

- bcrypt and jsonwebtoken are function values inside a `Crypto` value. Three laws about them are part of the server invariant:
  - a password matches its own hash;
  - a signed token is non-empty and contains no space;
  - a token verifies with its own claims exactly while the clock is before `exp`, as section 4.1.4 of RFC 7519 requires.
- `Date.now()`, the salt, the ids the database assigns, the stored token and the reply to the comment request are all parameters.

## Model

| member | source | states |
|---|---|---|
| Text.TrimStart | expressjs/server.js:188 | the result is a suffix of the input, every dropped character is JavaScript whitespace, and the result does not start with whitespace |
| Text.TrimEnd | expressjs/server.js:198 | the result is a prefix of the input, every dropped character is whitespace, and the result does not end with whitespace |
| Text.Trim | expressjs/server.js:198 | a non-empty result starts and ends with a non-whitespace character |
| Text.TrimIsInfix | expressjs/server.js:198 | `trim()` removes only whitespace, from both ends: the result is the input with whitespace-only ends cut off |
| Text.TrimEmptyIffAllSpace | react/src/BlogDetails.jsx:45 | a body trims to the empty string exactly when it is whitespace only |
| Text.TrimIdempotent | expressjs/server.js:198 | trimming a trimmed body changes nothing, so the stored comment body stays trimmed |
| Text.TrimStartStops | expressjs/server.js:198 | a string that does not start with whitespace loses nothing at the front |
| Text.TrimEndStops | expressjs/server.js:198 | a string that does not end with whitespace loses nothing at the back |
| Text.Lower | react/src/AllBlogs.jsx:41-46 | `toLowerCase` keeps the length and leaves no upper-case ASCII letter |
| Text.LowerChar | react/src/AllBlogs.jsx:44-46 | ASCII upper-case letters map to their lower-case letter, and every other character is kept |
| Text.LowerIsLower | react/src/AllBlogs.jsx:41 | a lowercased string has no upper-case ASCII letter |
| Text.LowerIdempotent | react/src/AllBlogs.jsx:46 | lowercasing twice equals lowercasing once |
| Text.Contains | react/src/AllBlogs.jsx:44-45 | `includes`: a string can only include a term no longer than itself |
| Text.ContainsAt | react/src/AllBlogs.jsx:44-45 | `includes` holds exactly when the term occurs at some offset |
| Text.ContainsEmpty | react/src/AllBlogs.jsx:44 | every string includes the empty term |
| Text.Split | expressjs/server.js:57 | `split(" ")` yields at least one field, and no field contains the separator |
| Text.JoinSplit | expressjs/server.js:57 | joining the fields of `split` with the separator gives back the input |
| Text.SplitNoSep | expressjs/server.js:57 | a string without the separator splits into itself alone |
| Text.SplitTwoWords | expressjs/server.js:57 | two separator-free words joined by one separator split back into exactly those two words |
| Text.SplitWordSep | expressjs/server.js:57 | a separator-free word followed by the separator is the first field, and the fields of what follows come after it |
| BlogApi.Status.Code | expressjs/server.js:58-274 | the handlers answer failures with 400, 401, 403, 404 or 500, and 500 only for server errors |
| BlogApi.Lawful | expressjs/server.js:61-116 | the laws of bcrypt and jsonwebtoken the model relies on; in particular a signed token no longer verifies once the clock reaches its `exp` |
| BlogApi.IssuedClaims | expressjs/server.js:116 | the token's `exp` is one day (86400 s) after its `iat`, and `iat` is the signing time in whole seconds |
| BlogApi.BearerToken | expressjs/server.js:57 | the token is the second space-separated field of the header, so it contains no space and is shorter than the header |
| BlogApi.SchemeIgnored | expressjs/server.js:57 | the first word of the header is never checked: any space-free word, one space and a token yields that token |
| BlogApi.SecondWord | expressjs/server.js:57 | the token is the second word even when more words follow after another space (`Bearer tok extra` yields `tok`) |
| BlogApi.BareHeaderHasNoToken | expressjs/server.js:57-58 | a header without a space, such as a bare token, carries no token |
| BlogApi.Emails | expressjs/server.js:79 | the set holds exactly the emails of the stored users |
| BlogApi.ValidBodyIffNotBlank | expressjs/server.js:188 | the comment-body guard accepts a body exactly when it is present and has a character that is not white space |
| BlogApi.DisplayName | expressjs/server.js:195-200 | the comment name is the author's stored name, or "Anonymous" when the user is missing or the name is empty |
| BlogApi.PutKeepsPostStore | expressjs/server.js:36-51 | storing a well-formed post under its own id keeps the post store valid |
| BlogApi.AppendKeepsWellFormed | expressjs/server.js:203-204 | appending a trimmed, non-empty comment keeps a post well formed |
| BlogApi.InsertPos | expressjs/server.js:156 | a post is inserted after every post at least as new and before every older one |
| BlogApi.Insert | expressjs/server.js:156 | insertion puts the post at that position and shifts the later posts by one |
| BlogApi.InsertKeepsListing | expressjs/server.js:154-156 | inserting a stored, unlisted post into a newest-first listing gives a newest-first listing with one more key |
| BlogApi.BlogServer.constructor | expressjs/server.js:9-53 | the server starts with no users and no posts, and its invariant holds |
| BlogApi.BlogServer.Authenticate | expressjs/server.js:56-67 | 401 "Unauthorized: No Token Provided" when the header has no second field or it is empty; otherwise Ok exactly when `jwt.verify` at the current second returns claims, which become the caller's identity, and 401 "Invalid or Expired Token" when it does not |
| BlogApi.BlogServer.IssuedTokenAuthenticates | expressjs/server.js:56-116 | a token issued at time t authenticates as its user exactly while the clock's seconds are below t's seconds plus 86400 |
| BlogApi.BlogServer.Register | expressjs/server.js:75-98 | a taken email gives 400 and no change; a missing password, name or email gives 500 and no change; otherwise exactly one user is added, storing the hash of the password; the invariant is kept |
| BlogApi.BlogServer.Login | expressjs/server.js:104-125 | an unknown email and a wrong password give the same 400; a missing password gives 500; the right password gives a token signed over the user's id with a one-day expiry, plus only id, name and email |
| BlogApi.BlogServer.CreatePost | expressjs/server.js:131-146 | 401 from the guard; 500 when title or description is missing; otherwise exactly one post is added, authored by the token's user, with no comments and the current time |
| BlogApi.BlogServer.Listing | expressjs/server.js:154-156 | the result lists exactly the stored posts with the requested ids, once each, as stored, newest first |
| BlogApi.BlogServer.ListPosts | expressjs/server.js:152-162 | every stored post appears exactly once, newest first |
| BlogApi.BlogServer.ListPostsByUser | expressjs/server.js:220-230 | exactly the posts by that author appear, once each, newest first |
| BlogApi.BlogServer.GetPost | expressjs/server.js:168-179 | the stored post when the id is stored, else 404 "Post not found" |
| BlogApi.BlogServer.AddComment | expressjs/server.js:185-214 | 401, then 400 for a missing or blank body (before the post lookup), then 404; otherwise one comment with the trimmed body, the author's frozen display name and the current time is appended to that post alone; the invariant is kept |
| BlogApi.BlogServer.UpdatePost | expressjs/server.js:236-256 | 401, 404, then 403 for a non-author, then 500 for a missing title or description, with no change on any failure; the author's edit replaces the four editable fields and keeps author, createdAt and comments |
| BlogApi.BlogServer.DeletePost | expressjs/server.js:262-276 | 401, 404, then 403 for a non-author, with no change; the author's request removes exactly that post |
| BlogApi.PostsBy | expressjs/server.js:222 | the ids of exactly the stored posts with that author |
| BlogApi.ListingLength | expressjs/server.js:154-157 | a listing has one entry per listed id |
| BlogApi.ByAuthor | expressjs/server.js:222-224 | only that author's posts, each taken from the input |
| BlogApi.ByAuthorIsListing | expressjs/server.js:220-230 | filtering the full listing by author gives a listing of that author's posts |
| BlogApi.ConsIsListing | expressjs/server.js:156 | a stored, unlisted post at least as new as every listed one can head the listing |
| BlogApi.ListingUnique | expressjs/server.js:156 | when no two posts share a creation time, the sorted listing of a set of ids is unique |
| BlogApi.TailIsListing | expressjs/server.js:156 | dropping the newest post of a listing leaves a listing of the other ids |
| BlogApi.ByUserIsFilteredListing | expressjs/server.js:152-230 | with distinct creation times, the by-user listing equals the full listing filtered to that author |
| Scenarios.RegisterTwice | expressjs/server.js:79-81 | a second registration with the same email is refused with 400 and stores no second user |
| Scenarios.RegisterThenLogin | expressjs/server.js:75-125 | a fresh user logs in with the registered password; the token authenticates as that user one second before the day is over and is rejected once the day has passed |
| Scenarios.SecondsAfter | expressjs/server.js:61 | adding k whole seconds to the millisecond clock adds k to the seconds `jwt.verify` compares |
| Scenarios.OwnershipScenario | expressjs/server.js:131-256 | another user's edit of a post is refused with 403; the author's edit changes the content and keeps author, creation time and comments |
| Scenarios.NewestFirstScenario | expressjs/server.js:131-162 | three posts created one after another are listed newest first |
| Scenarios.ThreeListed | expressjs/server.js:156 | a listing of three posts with increasing creation times lists them in the reverse order |
| Cards.TableEntry | react/src/AllBlogs.jsx:31-37 | exactly the five known categories have an own entry, and none of those entries is the slate fallback |
| Cards.ColorKey | react/src/AllBlogs.jsx:38 | the key read is the category lowercased, of the same length and without upper-case letters; it is "undefined" for a present category only when that category is "undefined" in some case |
| Cards.PropertyRead | react/src/AllBlogs.jsx:38 | own entries are found; only "constructor" and "__proto__" can reach an inherited member |
| Cards.CategoryColorAsWritten | react/src/AllBlogs.jsx:38 | the lookup as written returns an inherited prototype member exactly for the lowercased keys "constructor" and "__proto__" |
| Cards.ConstructorCategoryEscapesFallback | react/src/AllBlogs.jsx:38 | the category "Constructor" gets `Object.prototype.constructor`, not the slate classes |
| Cards.CategoryColor | react/src/BlogDetails.jsx:66-75 | (corrected; see Findings) a known category, in any case, gets its table classes; anything else, including an absent category, gets slate |
| Cards.CategoryColorIgnoresCase | react/src/AllBlogs.jsx:38 | categories equal up to ASCII case get the same colour |
| Cards.CategoryColorRefinesAsWritten | react/src/AllBlogs.jsx:30-39 | the corrected lookup agrees with the code wherever the code yields a class string, and gives slate where the code leaks a prototype member |
| AllBlogs.MatchesSearch | react/src/AllBlogs.jsx:44-45 | a post matches a search only if it has a title or a description, and one that is at least as long as the term |
| AllBlogs.MatchesCategory | react/src/AllBlogs.jsx:46 | a selection with an upper-case letter matches nothing, and a post without a category matches only "all" |
| AllBlogs.FilteredPosts | react/src/AllBlogs.jsx:43-48 | a post is kept exactly when its title or description includes the term, ignoring case, and its category matches the selection |
| AllBlogs.FilteredIsSubsequence | react/src/AllBlogs.jsx:43 | filtering keeps the fetched order |
| AllBlogs.SubsequenceOfTail | react/src/AllBlogs.jsx:43 | a subsequence of the tail is a subsequence of the whole |
| AllBlogs.SubsequenceCons | react/src/AllBlogs.jsx:43 | putting an element in front keeps a subsequence a subsequence |
| AllBlogs.SubsequenceDropHead | react/src/AllBlogs.jsx:43 | dropping the first element of a subsequence keeps it a subsequence |
| AllBlogs.AllKeepsEverySearchHit | react/src/AllBlogs.jsx:46 | with "all" selected, the filter is the search alone |
| AllBlogs.SearchOnly | react/src/AllBlogs.jsx:44-45 | a post is kept exactly when it matches the search |
| AllBlogs.NamedCategoryFilter | react/src/AllBlogs.jsx:46 | with a named category selected, only posts whose lowercased category equals it survive, and never a post without a category |
| AllBlogs.EmptySearchMatchesTitled | react/src/AllBlogs.jsx:44-45 | an empty search matches exactly the posts that have a title or a description |
| AllBlogs.SearchIgnoresCase | react/src/AllBlogs.jsx:44-45 | search terms that differ only in ASCII case select the same posts |
| AllBlogs.LoweredCategories | react/src/AllBlogs.jsx:41 | the values collected are exactly the non-empty lowercased categories of the posts, each in lower case |
| AllBlogs.LoweredCategoriesSnoc | react/src/AllBlogs.jsx:41 | the categories keep the posts' order: a post fetched last adds its lowercased category at the end, or nothing if its category is absent or empty |
| AllBlogs.Dedup | react/src/AllBlogs.jsx:41 | the Set keeps exactly the values not seen before |
| AllBlogs.DedupDistinct | react/src/AllBlogs.jsx:41 | the Set's values are distinct |
| AllBlogs.DedupSnoc | react/src/AllBlogs.jsx:41 | adding a value at the end adds it to the Set only when it is new |
| AllBlogs.DedupIsFirstAppearances | react/src/AllBlogs.jsx:41 | the Set keeps each value at its first appearance, in order |
| AllBlogs.Categories | react/src/AllBlogs.jsx:41 | "all" comes first, and the rest are exactly the non-empty lowercased categories of the posts |
| AllBlogs.CategoriesInFirstAppearanceOrder | react/src/AllBlogs.jsx:41 | the categories after "all" are distinct and in first-appearance order of the collected categories, whose order follows the posts (LoweredCategoriesSnoc) |
| BlogDetails.IsRelated | react/src/BlogDetails.jsx:25 | a related post shows the same category colour as the viewed post |
| BlogDetails.RelatedCandidates | react/src/BlogDetails.jsx:24-25 | exactly the fetched posts with another id and a strictly equal category |
| BlogDetails.RelatedCandidatesSnoc | react/src/BlogDetails.jsx:24-25 | the candidates keep the fetched order: a post fetched last is appended after the earlier candidates exactly when it is related |
| BlogDetails.RelatedPosts | react/src/BlogDetails.jsx:24-26 | the first min(3, n) related candidates in fetched order, each with another id and the same category |
| BlogDetails.RelatedIsCaseSensitive | react/src/BlogDetails.jsx:25 | a post whose category differs from the viewed one only in ASCII case is never among the related posts |
| BlogDetails.CommentCountNoun | react/src/BlogDetails.jsx:240 | "comment" exactly for a count of one, "comments" otherwise |
| BlogDetails.FailureAlert | react/src/BlogDetails.jsx:60 | the server's message when it has a non-empty one, else "Failed to post comment"; never empty |
| BlogDetails.DetailsPage.constructor | react/src/BlogDetails.jsx:12-13 | the comment input starts empty and no submission is in progress |
| BlogDetails.DetailsPage.SubmitComment | react/src/BlogDetails.jsx:38-64 | no token: a login alert and no change; blank body: nothing happens; otherwise the untrimmed body is sent with "Bearer " and the token, and a reply either appends the comment and clears the input or raises the failure alert |
| BlogDetails.SentRequestPassesServerChecks | react/src/BlogDetails.jsx:45-52 | a request the page sends passes the server's body check, and a server-issued token reaches the guard unchanged |

## Left out

- MongoDB persistence, connection, indexes and populate are not modelled. The stores are maps. `populate("author", "name email")` only changes how responses render, so the model returns the stored author id.
- Ids (ObjectIds), `Date.now()` and the bcrypt salt are parameters. A malformed ObjectId, which makes `findById` throw and the handler answer 500, is not modelled.
- Every storage failure that becomes a 500 in a catch block is not modelled: a failed find, save or delete, and a duplicate-key race on email.
- The JSON field types are simplified. A non-string field is treated as absent. `age` is an integer, not a JavaScript number.
- BlogApi.BlogServer.Register: takes `email` as a string. The Mongo semantics of registering or logging in with no email at all are not modelled.
- BlogApi.BlogServer.Login: takes `email` as a string, for the same reason.
- Success bodies carry the created or fetched value only. The 200/201 codes and the "... successfully" messages are not carried.
- bcrypt's and jsonwebtoken's internals are not modelled. Their behaviour is the three laws in `BlogApi.Lawful`. A token that verifies but was not issued by `Login` is allowed by the model as by the code.
- `toLowerCase` is modelled on ASCII letters only. Unicode case mapping is not modelled.
- Both pages' fetching, loading flags, navigation and rendering are not modelled, apart from the comment-count label. `localStorage` is a parameter.
- BlogDetails.DetailsPage.SubmitComment: the request's asynchrony is not modelled. `submittingComment` is true only during the call, and the reply is given up front.
- The default route, server start-up and the other pages are not part of this model.
- Every handler is one atomic step. The code awaits the database several times per request: addComment reads the post and later saves it (expressjs/server.js:192-204), updatePost does the same (expressjs/server.js:238-250), and deletePost checks the author before `findByIdAndDelete` (expressjs/server.js:264-270). Requests that interleave between those awaits, and the lost updates they can cause, are not modelled.

Behaviours of the code that the model keeps as written:

- `createPost` does not check that the token's user still exists.
- A comment body is checked (400) before the post is looked up (404).
- Missing required fields in register, create and update fail Mongoose validation and are answered with 500, not 400.
- The register reply carries the stored user record, bcrypt hash included (expressjs/server.js:93); `BlogApi.BlogServer.Register` returns that record.

## Findings

| source | as written | input that shows it | evidently intended | confidence | as-written member | corrected member |
|---|---|---|---|---|---|---|
| react/src/AllBlogs.jsx:38 (the copy in react/src/BlogDetails.jsx:74 is identical) | `colors[category?.toLowerCase()] || slate` reads a property of a plain object literal, so lowercased keys naming inherited members of `Object.prototype` are found | a post with category "Constructor" (or "__proto__") gets the `Object` constructor function (or the prototype object) as its class name | an unknown category gets the slate classes | not executed | Cards.ConstructorCategoryEscapesFallback | Cards.CategoryColor |
