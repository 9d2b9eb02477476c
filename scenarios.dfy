/** Request sequences against the blog server, each proved from the
    handlers' contracts alone. */
module Scenarios {
  import opened Text
  import opened BlogApi

  /** Registering the same email twice: the second attempt is refused with
      400 and no second user is stored. */
  method RegisterTwice(s: BlogServer, name: string, email: string, password: string,
                       salt1: string, salt2: string, id1: UserId, id2: UserId)
    returns (first: Result<User>, second: Result<User>)
    requires s.Valid()
    requires id1 != id2 && id1 !in s.users && id2 !in s.users
    requires email !in Emails(s.users) && name != "" && email != ""
    modifies s
    ensures first.Ok? && first.value.email == email
    ensures second == Err(BadRequest, "User already exists with this email")
    ensures s.users == old(s.users)[id1 := first.value]
    ensures id2 !in s.users
  {
    first := s.Register(Some(name), email, None, None, None, Some(password), salt1, id1);
    assert email in Emails(s.users) by { assert s.users[id1].email == email; }
    second := s.Register(Some(name), email, None, None, None, Some(password), salt2, id2);
  }

  /** A registered user can log in with the same password, and the token
      received authenticates as that user until a day has passed. */
  method RegisterThenLogin(s: BlogServer, name: string, email: string, password: string,
                           salt: string, id: UserId, now: Millis)
    returns (session: Result<Session>)
    requires s.Valid()
    requires id !in s.users && email !in Emails(s.users) && name != "" && email != ""
    modifies s
    ensures s.Valid()
    ensures session.Ok? && session.value.user == Profile(id, name, email)
    ensures s.Authenticate(Some("Bearer " + session.value.token), now + 1000 * (TokenLifetime - 1))
              == Ok(IssuedClaims(id, now))
    ensures s.Authenticate(Some("Bearer " + session.value.token), now + 1000 * TokenLifetime)
              == Err(Unauthorized, "Invalid or Expired Token")
  {
    var reg := s.Register(Some(name), email, None, None, None, Some(password), salt, id);
    assert s.users[id].email == email && s.users[id].password == s.crypto.hash(password, salt);
    session := s.Login(email, Some(password), now);
    assert session == Ok(Session(s.crypto.sign(IssuedClaims(id, now), s.secret), Profile(id, name, email)));
    SecondsAfter(now, TokenLifetime - 1);
    SecondsAfter(now, TokenLifetime);
    s.IssuedTokenAuthenticates(id, now, now + 1000 * (TokenLifetime - 1), "Bearer");
    s.IssuedTokenAuthenticates(id, now, now + 1000 * TokenLifetime, "Bearer");
    assert "Bearer" + " " + session.value.token == "Bearer " + session.value.token;
  }

  /** Adding k whole seconds to a clock adds k to its seconds count. */
  lemma SecondsAfter(now: Millis, k: nat)
    ensures (now + 1000 * k) / 1000 == now / 1000 + k
  {
    var q, m := now / 1000, now % 1000;
    assert now + 1000 * k == 1000 * (q + k) + m;
  }

  /** Only a post's author may edit it: another user's edit is refused with
      403 and changes nothing; the author's edit replaces the content and
      keeps the author, the creation time and the comments. `asA` and `asB`
      are headers that authenticate as a and b. */
  method OwnershipScenario(s: BlogServer, asA: string, asB: string, a: UserId, b: UserId,
                           postId: PostId, now: Millis)
    returns (denied: Result<Post>, edited: Result<Post>)
    requires s.Valid() && postId !in s.posts && a != b
    requires forall t: Millis :: now <= t <= now + 2 ==>
               && s.Authenticate(Some(asA), t).Ok? && s.Authenticate(Some(asA), t).value.id == a
               && s.Authenticate(Some(asB), t).Ok? && s.Authenticate(Some(asB), t).value.id == b
    modifies s
    ensures s.Valid()
    ensures denied == Err(Forbidden, "Not authorized")
    ensures edited == Ok(Post(postId, "Hello v2", "First post", None, None, a, [], now))
    ensures s.GetPost(postId) == edited
  {
    var created := s.CreatePost(Some(asA), now, Some("Hello"), Some("First post"), None, None, postId);
    denied := s.UpdatePost(Some(asB), now + 1, postId, Some("Hijacked"), Some("First post"), None, None);
    edited := s.UpdatePost(Some(asA), now + 2, postId, Some("Hello v2"), Some("First post"), None, None);
  }

  /** Posts created one after another are listed newest first. `header`
      authenticates throughout. */
  method NewestFirstScenario(s: BlogServer, header: string, p1: PostId, p2: PostId, p3: PostId, t: Millis)
    returns (listing: seq<Post>)
    requires s.Valid() && s.posts == map[]
    requires s.Authenticate(Some(header), t).Ok? && s.Authenticate(Some(header), t + 1).Ok?
    requires s.Authenticate(Some(header), t + 2).Ok?
    requires p1 != p2 && p2 != p3 && p1 != p3
    modifies s
    ensures s.Valid()
    ensures |listing| == 3
    ensures listing[0].id == p3 && listing[1].id == p2 && listing[2].id == p1
  {
    var r1 := s.CreatePost(Some(header), t, Some("P1"), Some("one"), None, None, p1);
    var q1 := r1.value;
    assert s.posts == map[p1 := q1];
    var r2 := s.CreatePost(Some(header), t + 1, Some("P2"), Some("two"), None, None, p2);
    var q2 := r2.value;
    assert s.posts == map[p1 := q1, p2 := q2];
    var r3 := s.CreatePost(Some(header), t + 2, Some("P3"), Some("three"), None, None, p3);
    var q3 := r3.value;
    assert s.posts == map[p1 := q1, p2 := q2, p3 := q3];
    listing := s.ListPosts();
    ThreeListed(listing, s.posts, q1, q2, q3);
  }

  /** A listing of three posts created at increasing times is the newest,
      then the middle one, then the oldest. */
  lemma ThreeListed(s: seq<Post>, store: map<PostId, Post>, x: Post, y: Post, z: Post)
    requires IsListing(s, store, {x.id, y.id, z.id})
    requires x.createdAt < y.createdAt < z.createdAt
    requires forall p :: p in {x, y, z} ==> p.id in store && store[p.id] == p
    ensures s == [z, y, x]
  {
    ListingLength(s, {x.id, y.id, z.id});
    assert Ids(s) == {x.id, y.id, z.id};
    assert x.id in Ids(s) && y.id in Ids(s) && z.id in Ids(s);
    var i :| 0 <= i < |s| && s[i].id == x.id;
    var j :| 0 <= j < |s| && s[j].id == y.id;
    var k :| 0 <= k < |s| && s[k].id == z.id;
    assert s[i] == x && s[j] == y && s[k] == z;
    assert k < j < i;
  }
}
