/** The blog API of expressjs/server.js: a user store and a post store (each
    post embedding its comments), the bearer-token guard, and one method per
    route handler. bcrypt and jsonwebtoken are injected as a `Crypto` value
    whose laws are part of the server's invariant; Date.now() and the ids the
    database would assign are parameters. */
module BlogApi {
  import opened Text

  type UserId = string
  type PostId = string

  /** Milliseconds since the epoch, as Date.now() returns them. */
  type Millis = nat

  /** A stored user (userSchema); `password` holds the bcrypt hash. */
  datatype User = User(
    id: UserId,
    name: string,
    email: string,
    phone: Option<string>,
    age: Option<int>,
    region: Option<string>,
    password: string)

  /** A comment embedded in a post; `name` is the author's name frozen at comment time. */
  datatype Comment = Comment(body: string, author: UserId, name: string, createdAt: Millis)

  /** A stored post (postSchema). */
  datatype Post = Post(
    id: PostId,
    title: string,
    description: string,
    imageUrl: Option<string>,
    category: Option<string>,
    author: UserId,
    comments: seq<Comment>,
    createdAt: Millis)

  /** A JWT payload: the signed {id} and the iat/exp claims (in seconds) that
      jsonwebtoken adds when it signs. */
  datatype Claims = Claims(id: UserId, iat: nat, exp: nat)

  /** The user part of a login reply: id, name and email only. */
  datatype Profile = Profile(id: UserId, name: string, email: string)

  datatype Session = Session(token: string, user: Profile)

  /** The failure statuses the handlers answer with. */
  datatype Status = BadRequest | Unauthorized | Forbidden | NotFound | ServerError {
    function Code(): (c: int)
      ensures c in {400, 401, 403, 404, 500}
      ensures (c == 500) == ServerError?
    {
      match this
      case BadRequest => 400
      case Unauthorized => 401
      case Forbidden => 403
      case NotFound => 404
      case ServerError => 500
    }
  }

  /** A handler's outcome: the success body, or a failure status with the
      JSON `message` the handler sends. */
  datatype Result<T> = Ok(value: T) | Err(status: Status, message: string)

  /** expiresIn: "1d", in seconds. */
  const TokenLifetime: nat := 86400

  /** bcrypt and jsonwebtoken as opaque functions:
      hash(password, salt) is bcrypt.hash with a fresh salt; compare is
      bcrypt.compare; sign(claims, key) is jwt.sign; verify(token, key, nowSeconds)
      is jwt.verify, None when it throws. */
  datatype Crypto = Crypto(
    hash: (string, string) -> string,
    compare: (string, string) -> bool,
    sign: (Claims, string) -> string,
    verify: (string, string, nat) -> Option<Claims>)

  /** The laws the model relies on: a password matches its own hash; a signed
      token is a non-empty string without spaces (base64url parts and dots);
      verifying a token with the key that signed it gives back its claims
      exactly while the clock is before `exp`, and fails from `exp` on
      (section 4.1.4 of RFC 7519). */
  ghost predicate Lawful(c: Crypto)
    ensures Lawful(c) ==> forall cl: Claims, key: string, now: nat :: cl.exp <= now ==> c.verify(c.sign(cl, key), key, now) == None
  {
    && (forall p, salt :: c.compare(p, c.hash(p, salt)))
    && (forall cl, key :: c.sign(cl, key) != [] && ' ' !in c.sign(cl, key))
    && (forall cl, key, now: nat :: c.verify(c.sign(cl, key), key, now) == if now < cl.exp then Some(cl) else None)
  }

  /** The claims jwt.sign({ id }, key, { expiresIn: "1d" }) embeds when called at `now`. */
  function IssuedClaims(id: UserId, now: Millis): (c: Claims)
    ensures c.id == id && c.exp - c.iat == TokenLifetime
    ensures c.iat * 1000 <= now < (c.iat + 1) * 1000
  {
    Claims(id, now / 1000, now / 1000 + TokenLifetime)
  }

  /** `authorization?.split(" ")[1]`: the second space-separated field of the
      header, whatever the first one says. */
  function BearerToken(authorization: Option<string>): (t: Option<string>)
    ensures t.Some? ==> authorization.Some? && ' ' !in t.value
    ensures t.Some? ==> |t.value| < |authorization.value|
  {
    match authorization
    case None => None
    case Some(h) =>
      var fields := Split(h, ' ');
      if |fields| >= 2 then
        JoinSplit(h, ' ');
        Some(fields[1])
      else None
  }

  /** The first word of the header is never looked at: any space-free word
      followed by one space and a space-free token yields that token. */
  lemma SchemeIgnored(scheme: string, token: string)
    requires ' ' !in scheme && ' ' !in token
    ensures BearerToken(Some(scheme + " " + token)) == Some(token)
    ensures BearerToken(Some("Bearer " + token)) == Some(token)
  {
    SplitTwoWords(scheme, token, ' ');
    SplitTwoWords("Bearer", token, ' ');
    assert "Bearer " + token == "Bearer" + [' '] + token;
  }

  /** Whatever follows the token after a further space is ignored:
      `split(" ")[1]` is the second word however many words follow. */
  lemma SecondWord(w: string, t: string, rest: string)
    requires ' ' !in w && ' ' !in t && (rest == [] || rest[0] == ' ')
    ensures BearerToken(Some(w + " " + t + rest)) == Some(t)
  {
    if rest == [] {
      assert w + " " + t + rest == w + [' '] + t;
      SplitTwoWords(w, t, ' ');
    } else {
      assert w + " " + t + rest == w + [' '] + (t + [' '] + rest[1..]);
      SplitWordSep(w, t + [' '] + rest[1..], ' ');
      SplitWordSep(t, rest[1..], ' ');
    }
  }

  /** A header with no space in it (a bare token) carries no token. */
  lemma BareHeaderHasNoToken(h: string)
    requires ' ' !in h
    ensures BearerToken(Some(h)) == None
  {
    SplitNoSep(h, ' ');
  }

  /** Emails already registered. */
  function Emails(users: map<UserId, User>): (e: set<string>)
    ensures forall id :: id in users ==> users[id].email in e
    ensures forall m :: m in e ==> exists id :: id in users && users[id].email == m
  {
    set id | id in users :: users[id].email
  }

  /** `user?.name || 'Anonymous'`: the name frozen into a new comment. */
  function DisplayName(users: map<UserId, User>, id: UserId): (n: string)
    ensures n != ""
    ensures id in users && users[id].name != "" ==> n == users[id].name
    ensures (id !in users || users[id].name == "") ==> n == "Anonymous"
  {
    if id in users && users[id].name != "" then users[id].name else "Anonymous"
  }

  /** A required string field as Mongoose validates it: present and non-empty. */
  predicate Given(field: Option<string>) {
    field.Some? && field.value != ""
  }

  /** The comment-body guard: present, a string, and not blank after trim. */
  predicate ValidBody(body: Option<string>) {
    body.Some? && Trim(body.value) != ""
  }

  /** The body guard accepts exactly the bodies with a non-white-space character. */
  lemma ValidBodyIffNotBlank(body: Option<string>)
    ensures ValidBody(body) <==> body.Some? && exists k :: 0 <= k < |body.value| && !IsSpace(body.value[k])
  {
    if body.Some? {
      TrimEmptyIffAllSpace(body.value);
    }
  }

  /** A stored comment's body is trimmed and non-empty. */
  predicate WellFormedComment(c: Comment) {
    c.body != "" && Trim(c.body) == c.body
  }

  predicate WellFormedPost(p: Post) {
    && p.title != "" && p.description != ""
    && forall i :: 0 <= i < |p.comments| ==> WellFormedComment(p.comments[i])
  }

  /** Ids are the keys, required fields are non-empty, emails are unique (the
      `unique` index on email). */
  predicate UserStore(users: map<UserId, User>) {
    && (forall id :: id in users ==> users[id].id == id && users[id].name != "" && users[id].email != "")
    && (forall a, b :: a in users && b in users && users[a].email == users[b].email ==> a == b)
  }

  /** Ids are the keys and every post is well formed. */
  predicate PostStore(posts: map<PostId, Post>) {
    forall id :: id in posts ==> posts[id].id == id && WellFormedPost(posts[id])
  }

  /** Storing a well-formed post under its own id keeps the post store valid. */
  lemma PutKeepsPostStore(posts: map<PostId, Post>, p: Post)
    requires PostStore(posts) && WellFormedPost(p)
    ensures PostStore(posts[p.id := p])
  {
  }

  /** Appending a well-formed comment keeps a post well formed. */
  lemma AppendKeepsWellFormed(p: Post, c: Comment)
    requires WellFormedPost(p) && WellFormedComment(c)
    ensures WellFormedPost(p.(comments := p.comments + [c]))
  {
  }

  /** Posts ordered by createdAt, newest first (`sort({ createdAt: -1 })`). */
  predicate NewestFirst(s: seq<Post>) {
    forall i, j :: 0 <= i < j < |s| ==> s[i].createdAt >= s[j].createdAt
  }

  function Ids(s: seq<Post>): set<PostId> {
    set i | 0 <= i < |s| :: s[i].id
  }

  predicate DistinctIds(s: seq<Post>) {
    forall i, j :: 0 <= i < j < |s| ==> s[i].id != s[j].id
  }

  /** s lists the stored posts whose ids are `keys`, each exactly once, as
      stored, newest first. */
  predicate IsListing(s: seq<Post>, store: map<PostId, Post>, keys: set<PostId>) {
    && NewestFirst(s)
    && DistinctIds(s)
    && Ids(s) == keys
    && forall i :: 0 <= i < |s| ==> s[i].id in store && store[s[i].id] == s[i]
  }

  /** Where p goes in a newest-first list: after every post at least as new. */
  function InsertPos(p: Post, s: seq<Post>): (k: nat)
    ensures k <= |s|
    ensures forall i :: 0 <= i < k ==> s[i].createdAt >= p.createdAt
    ensures NewestFirst(s) ==> forall i :: k <= i < |s| ==> s[i].createdAt < p.createdAt
  {
    if s == [] || s[0].createdAt < p.createdAt then 0 else 1 + InsertPos(p, s[1..])
  }

  function Insert(p: Post, s: seq<Post>): (r: seq<Post>)
    ensures |r| == |s| + 1
    ensures r[InsertPos(p, s)] == p
    ensures forall i :: 0 <= i < InsertPos(p, s) ==> r[i] == s[i]
    ensures forall i :: InsertPos(p, s) < i < |r| ==> r[i] == s[i - 1]
  {
    var k := InsertPos(p, s);
    s[..k] + [p] + s[k..]
  }

  /** Inserting a stored post that is not listed yet keeps a listing a listing. */
  lemma InsertKeepsListing(s: seq<Post>, p: Post, store: map<PostId, Post>, keys: set<PostId>)
    requires IsListing(s, store, keys)
    requires p.id !in keys && p.id in store && store[p.id] == p
    ensures IsListing(Insert(p, s), store, keys + {p.id})
  {
    var r := Insert(p, s);
    var k := InsertPos(p, s);
    forall i, j | 0 <= i < j < |r| ensures r[i].createdAt >= r[j].createdAt && r[i].id != r[j].id {
      if j < k {
      } else if j == k {
        assert r[i] == s[i];
        assert s[i].id in Ids(s);
      } else if i < k {
        assert r[j] == s[j - 1];
      } else if i == k {
        assert r[j] == s[j - 1];
        assert s[j - 1].id in Ids(s);
      } else {
        assert r[i] == s[i - 1] && r[j] == s[j - 1];
      }
    }
    assert Ids(r) == keys + {p.id} by {
      forall x | x in Ids(r) ensures x in keys + {p.id} {
        var i :| 0 <= i < |r| && r[i].id == x;
        if i < k { assert r[i] == s[i]; } else if i > k { assert r[i] == s[i - 1]; }
      }
      forall x | x in keys + {p.id} ensures x in Ids(r) {
        if x == p.id {
          assert r[k].id == x;
        } else {
          var i :| 0 <= i < |s| && s[i].id == x;
          if i < k { assert r[i] == s[i]; } else { assert r[i + 1] == s[i]; }
        }
      }
    }
  }

  /** The blog server's state: the two collections and the process-wide
      configuration (hashing and token functions, signing key). */
  class BlogServer {
    const crypto: Crypto
    /** The JWT signing key ("secretkey" in the source). */
    const secret: string
    var users: map<UserId, User>
    var posts: map<PostId, Post>

    /** Ids are the map keys, required fields are non-empty, emails are
        unique (the `unique` index), stored comments are trimmed and non-empty. */
    ghost predicate Valid()
      reads this
    {
      Lawful(crypto) && UserStore(users) && PostStore(posts)
    }

    constructor (crypto: Crypto, secret: string)
      requires Lawful(crypto)
      ensures Valid()
      ensures this.crypto == crypto && this.secret == secret
      ensures users == map[] && posts == map[]
    {
      this.crypto := crypto;
      this.secret := secret;
      users := map[];
      posts := map[];
    }

    /** authMiddleware: 401 when the header carries no (or an empty) second
        field, 401 when jwt.verify rejects it, else the decoded claims. */
    function Authenticate(authorization: Option<string>, now: Millis): (r: Result<Claims>)
      ensures r.Err? ==> r.status == Unauthorized
      ensures (BearerToken(authorization).None? || BearerToken(authorization).value == "") ==>
                r == Err(Unauthorized, "Unauthorized: No Token Provided")
      ensures BearerToken(authorization).Some? && BearerToken(authorization).value != "" ==>
                && (r.Ok? <==> crypto.verify(BearerToken(authorization).value, secret, now / 1000).Some?)
                && (r.Err? ==> r.message == "Invalid or Expired Token")
      ensures r.Ok? ==>
                && BearerToken(authorization).Some?
                && crypto.verify(BearerToken(authorization).value, secret, now / 1000) == Some(r.value)
    {
      match BearerToken(authorization)
      case None => Err(Unauthorized, "Unauthorized: No Token Provided")
      case Some(token) =>
        if token == "" then Err(Unauthorized, "Unauthorized: No Token Provided")
        else match crypto.verify(token, secret, now / 1000)
          case None => Err(Unauthorized, "Invalid or Expired Token")
          case Some(claims) => Ok(claims)
    }

    /** A token issued at `issuedAt`, presented after any space-free scheme word,
        authenticates as its user exactly until one day after issue. */
    lemma IssuedTokenAuthenticates(id: UserId, issuedAt: Millis, now: Millis, scheme: string)
      requires Valid()
      requires ' ' !in scheme
      ensures Authenticate(Some(scheme + " " + crypto.sign(IssuedClaims(id, issuedAt), secret)), now)
                == if now / 1000 < issuedAt / 1000 + TokenLifetime then Ok(IssuedClaims(id, issuedAt))
                   else Err(Unauthorized, "Invalid or Expired Token")
    {
      var token := crypto.sign(IssuedClaims(id, issuedAt), secret);
      SchemeIgnored(scheme, token);
    }

    /** POST /api/register. */
    method Register(name: Option<string>, email: string, phone: Option<string>, age: Option<int>,
                    region: Option<string>, password: Option<string>, salt: string, newId: UserId)
      returns (r: Result<User>)
      requires Valid()
      requires newId !in users
      modifies this`users
      ensures Valid()
      ensures email in Emails(old(users)) ==>
                r == Err(BadRequest, "User already exists with this email") && users == old(users)
      ensures email !in Emails(old(users)) && (password.None? || !Given(name) || email == "") ==>
                r == Err(ServerError, "Server Error") && users == old(users)
      ensures r.Ok? <==> email !in Emails(old(users)) && password.Some? && Given(name) && email != ""
      ensures r.Ok? ==>
                && r.value == User(newId, name.value, email, phone, age, region, crypto.hash(password.value, salt))
                && users == old(users)[newId := r.value]
    {
      if email in Emails(users) {
        return Err(BadRequest, "User already exists with this email");
      }
      if password.None? {
        // bcrypt.hash rejects a non-string password
        return Err(ServerError, "Server Error");
      }
      var hashed := crypto.hash(password.value, salt);
      if !Given(name) || email == "" {
        // User.create fails schema validation
        return Err(ServerError, "Server Error");
      }
      var user := User(newId, name.value, email, phone, age, region, hashed);
      users := users[newId := user];
      r := Ok(user);
    }

    /** POST /api/login: an unknown email and a wrong password give the same answer. */
    method Login(email: string, password: Option<string>, now: Millis) returns (r: Result<Session>)
      requires Valid()
      ensures email !in Emails(users) ==> r == Err(BadRequest, "Invalid email or password")
      ensures forall id | id in users && users[id].email == email ::
                match password
                case None => r == Err(ServerError, "Server Error")
                case Some(p) =>
                  if crypto.compare(p, users[id].password) then
                    r == Ok(Session(crypto.sign(IssuedClaims(id, now), secret), Profile(id, users[id].name, email)))
                  else r == Err(BadRequest, "Invalid email or password")
    {
      if email !in Emails(users) {
        return Err(BadRequest, "Invalid email or password");
      }
      var id :| id in users && users[id].email == email;
      var user := users[id];
      if password.None? {
        // bcrypt.compare rejects a non-string password
        return Err(ServerError, "Server Error");
      }
      if !crypto.compare(password.value, user.password) {
        return Err(BadRequest, "Invalid email or password");
      }
      var token := crypto.sign(IssuedClaims(id, now), secret);
      r := Ok(Session(token, Profile(id, user.name, user.email)));
    }

    /** POST /api/posts: the author is whoever the token names; missing title or
        description fails validation, which the handler reports as 500. */
    method CreatePost(authorization: Option<string>, now: Millis, title: Option<string>,
                      description: Option<string>, imageUrl: Option<string>, category: Option<string>,
                      newId: PostId)
      returns (r: Result<Post>)
      requires Valid()
      requires newId !in posts
      modifies this`posts
      ensures Valid()
      ensures Authenticate(authorization, now).Err? ==>
                r == Err(Unauthorized, Authenticate(authorization, now).message) && posts == old(posts)
      ensures Authenticate(authorization, now).Ok? && !(Given(title) && Given(description)) ==>
                r == Err(ServerError, "Failed to create post") && posts == old(posts)
      ensures r.Ok? <==> Authenticate(authorization, now).Ok? && Given(title) && Given(description)
      ensures r.Ok? ==>
                && r.value == Post(newId, title.value, description.value, imageUrl, category,
                                   Authenticate(authorization, now).value.id, [], now)
                && posts == old(posts)[newId := r.value]
    {
      var auth := Authenticate(authorization, now);
      if auth.Err? {
        return Err(auth.status, auth.message);
      }
      if !(Given(title) && Given(description)) {
        return Err(ServerError, "Failed to create post");
      }
      var post := Post(newId, title.value, description.value, imageUrl, category, auth.value.id, [], now);
      posts := posts[newId := post];
      r := Ok(post);
    }

    /** The stored posts with ids in `keys`, newest first (the store's sorted query). */
    method Listing(keys: set<PostId>) returns (r: seq<Post>)
      requires Valid()
      requires keys <= posts.Keys
      ensures IsListing(r, posts, keys)
    {
      r := [];
      var rest := keys;
      while rest != {}
        invariant rest <= keys
        invariant IsListing(r, posts, keys - rest)
        decreases rest
      {
        var k :| k in rest;
        InsertKeepsListing(r, posts[k], posts, keys - rest);
        r := Insert(posts[k], r);
        assert (keys - rest) + {k} == keys - (rest - {k});
        rest := rest - {k};
      }
    }

    /** GET /api/posts: every stored post once, newest first. */
    method ListPosts() returns (r: seq<Post>)
      requires Valid()
      ensures IsListing(r, posts, posts.Keys)
      ensures |r| == |posts|
    {
      r := Listing(posts.Keys);
      ListingLength(r, posts.Keys);
    }

    /** GET /api/posts/user/:userId: exactly that author's posts, newest first. */
    method ListPostsByUser(userId: UserId) returns (r: seq<Post>)
      requires Valid()
      ensures IsListing(r, posts, PostsBy(posts, userId))
      ensures forall i :: 0 <= i < |r| ==> r[i].author == userId
    {
      r := Listing(PostsBy(posts, userId));
    }

    /** GET /api/posts/:id. */
    function GetPost(id: PostId): (r: Result<Post>)
      reads this
      requires Valid()
      ensures r.Ok? <==> id in posts
      ensures r.Ok? ==> r.value == posts[id] && r.value.id == id
      ensures r.Err? ==> r == Err(NotFound, "Post not found")
    {
      if id in posts then Ok(posts[id]) else Err(NotFound, "Post not found")
    }

    /** POST /api/posts/:id/comments: 401, then 400 for a bad body (before the
        post is looked up), then 404; otherwise one comment is appended. */
    method AddComment(authorization: Option<string>, now: Millis, postId: PostId, body: Option<string>)
      returns (r: Result<Comment>)
      requires Valid()
      modifies this`posts
      ensures Valid()
      ensures Authenticate(authorization, now).Err? ==>
                r == Err(Unauthorized, Authenticate(authorization, now).message) && posts == old(posts)
      ensures Authenticate(authorization, now).Ok? && !ValidBody(body) ==>
                r == Err(BadRequest, "Comment body is required") && posts == old(posts)
      ensures Authenticate(authorization, now).Ok? && ValidBody(body) && postId !in old(posts) ==>
                r == Err(NotFound, "Post not found") && posts == old(posts)
      ensures r.Ok? <==> Authenticate(authorization, now).Ok? && ValidBody(body) && postId in old(posts)
      ensures r.Ok? ==>
                && r.value == Comment(Trim(body.value), Authenticate(authorization, now).value.id,
                                      DisplayName(users, Authenticate(authorization, now).value.id), now)
                && posts == old(posts)[postId := old(posts)[postId].(comments := old(posts)[postId].comments + [r.value])]
    {
      var auth := Authenticate(authorization, now);
      if auth.Err? {
        return Err(auth.status, auth.message);
      }
      if !ValidBody(body) {
        return Err(BadRequest, "Comment body is required");
      }
      if postId !in posts {
        return Err(NotFound, "Post not found");
      }
      var post := posts[postId];
      var comment := Comment(Trim(body.value), auth.value.id, DisplayName(users, auth.value.id), now);
      TrimIdempotent(body.value);
      AppendKeepsWellFormed(post, comment);
      post := post.(comments := post.comments + [comment]);
      PutKeepsPostStore(posts, post);
      posts := posts[postId := post];
      // the response is the last element of the comment list
      r := Ok(post.comments[|post.comments| - 1]);
    }

    /** PUT /api/posts/:id: 401, 404, then 403 for a non-author; the author's
        request overwrites title, description, imageUrl and category, and a
        missing title or description fails validation (500). */
    method UpdatePost(authorization: Option<string>, now: Millis, postId: PostId, title: Option<string>,
                      description: Option<string>, imageUrl: Option<string>, category: Option<string>)
      returns (r: Result<Post>)
      requires Valid()
      modifies this`posts
      ensures Valid()
      ensures Authenticate(authorization, now).Err? ==>
                r == Err(Unauthorized, Authenticate(authorization, now).message) && posts == old(posts)
      ensures Authenticate(authorization, now).Ok? && postId !in old(posts) ==>
                r == Err(NotFound, "Post not found") && posts == old(posts)
      ensures Authenticate(authorization, now).Ok? && postId in old(posts)
              && old(posts)[postId].author != Authenticate(authorization, now).value.id ==>
                r == Err(Forbidden, "Not authorized") && posts == old(posts)
      ensures Authenticate(authorization, now).Ok? && postId in old(posts)
              && old(posts)[postId].author == Authenticate(authorization, now).value.id
              && !(Given(title) && Given(description)) ==>
                r == Err(ServerError, "Failed to update post")
      ensures r.Err? ==> posts == old(posts)
      ensures r.Ok? <==> Authenticate(authorization, now).Ok? && postId in old(posts)
                         && old(posts)[postId].author == Authenticate(authorization, now).value.id
                         && Given(title) && Given(description)
      ensures r.Ok? ==>
                && r.value == old(posts)[postId].(title := title.value, description := description.value,
                                                  imageUrl := imageUrl, category := category)
                && posts == old(posts)[postId := r.value]
    {
      var auth := Authenticate(authorization, now);
      if auth.Err? {
        return Err(auth.status, auth.message);
      }
      if postId !in posts {
        return Err(NotFound, "Post not found");
      }
      var post := posts[postId];
      if post.author != auth.value.id {
        return Err(Forbidden, "Not authorized");
      }
      if !(Given(title) && Given(description)) {
        // post.save() fails schema validation
        return Err(ServerError, "Failed to update post");
      }
      post := post.(title := title.value, description := description.value, imageUrl := imageUrl, category := category);
      posts := posts[postId := post];
      r := Ok(post);
    }

    /** DELETE /api/posts/:id: 401, 404, then 403 for a non-author; the author's
        request removes that post (and its comments) and nothing else. */
    method DeletePost(authorization: Option<string>, now: Millis, postId: PostId) returns (r: Result<()>)
      requires Valid()
      modifies this`posts
      ensures Valid()
      ensures Authenticate(authorization, now).Err? ==>
                r == Err(Unauthorized, Authenticate(authorization, now).message) && posts == old(posts)
      ensures Authenticate(authorization, now).Ok? && postId !in old(posts) ==>
                r == Err(NotFound, "Post not found") && posts == old(posts)
      ensures Authenticate(authorization, now).Ok? && postId in old(posts)
              && old(posts)[postId].author != Authenticate(authorization, now).value.id ==>
                r == Err(Forbidden, "Not authorized") && posts == old(posts)
      ensures r.Ok? <==> Authenticate(authorization, now).Ok? && postId in old(posts)
                         && old(posts)[postId].author == Authenticate(authorization, now).value.id
      ensures r.Ok? ==> posts == old(posts) - {postId}
    {
      var auth := Authenticate(authorization, now);
      if auth.Err? {
        return Err(auth.status, auth.message);
      }
      if postId !in posts {
        return Err(NotFound, "Post not found");
      }
      if posts[postId].author != auth.value.id {
        return Err(Forbidden, "Not authorized");
      }
      posts := posts - {postId};
      r := Ok(());
    }
  }

  /** The ids of the posts written by `author`. */
  function PostsBy(posts: map<PostId, Post>, author: UserId): (keys: set<PostId>)
    ensures keys <= posts.Keys
    ensures forall k :: k in keys <==> k in posts && posts[k].author == author
  {
    set k | k in posts && posts[k].author == author
  }

  /** A listing of `keys` has one entry per key. */
  lemma ListingLength(s: seq<Post>, keys: set<PostId>)
    requires DistinctIds(s) && Ids(s) == keys
    ensures |s| == |keys|
  {
    if s != [] {
      var last := s[|s| - 1];
      var front := s[..|s| - 1];
      assert Ids(front) == keys - {last.id} by {
        forall x | x in Ids(front) ensures x in keys - {last.id} {
          var i :| 0 <= i < |front| && front[i].id == x;
          assert s[i].id == x;
        }
        forall x | x in keys - {last.id} ensures x in Ids(front) {
          var i :| 0 <= i < |s| && s[i].id == x;
          assert front[i].id == x;
        }
      }
      ListingLength(front, keys - {last.id});
    }
  }

  /** The posts of `s` written by `author`, in the order of `s`. */
  function ByAuthor(s: seq<Post>, author: UserId): (r: seq<Post>)
    ensures |r| <= |s|
    ensures forall i :: 0 <= i < |r| ==> r[i].author == author && r[i] in s
  {
    if s == [] then []
    else (if s[0].author == author then [s[0]] else []) + ByAuthor(s[1..], author)
  }

  /** Filtering a listing of the whole store by author gives a listing of
      that author's posts: listPostsByUser is listPosts restricted to one
      author, in the same order. */
  lemma {:induction false} ByAuthorIsListing(s: seq<Post>, store: map<PostId, Post>, keys: set<PostId>, author: UserId)
    requires IsListing(s, store, keys)
    ensures IsListing(ByAuthor(s, author), store, OwnKeys(store, keys, author))
  {
    if s != [] {
      var tailKeys := keys - {s[0].id};
      TailIsListing(s, store, keys);
      ByAuthorIsListing(s[1..], store, tailKeys, author);
      var rest := ByAuthor(s[1..], author);
      if s[0].author == author {
        forall j | 0 <= j < |rest| ensures s[0].createdAt >= rest[j].createdAt {
          var i :| 0 <= i < |s[1..]| && s[1..][i] == rest[j];
          assert s[i + 1] == rest[j];
        }
        ConsIsListing(s[0], rest, store, OwnKeys(store, tailKeys, author));
        assert OwnKeys(store, keys, author) == OwnKeys(store, tailKeys, author) + {s[0].id};
      } else {
        assert OwnKeys(store, keys, author) == OwnKeys(store, tailKeys, author);
      }
    }
  }

  /** The keys among `keys` whose stored post is by `author`. */
  function OwnKeys(store: map<PostId, Post>, keys: set<PostId>, author: UserId): set<PostId> {
    set k | k in keys && k in store && store[k].author == author
  }

  /** A stored post newer than every listed one, not listed yet, can head the listing. */
  lemma ConsIsListing(x: Post, s: seq<Post>, store: map<PostId, Post>, keys: set<PostId>)
    requires IsListing(s, store, keys)
    requires x.id !in keys && x.id in store && store[x.id] == x
    requires forall j :: 0 <= j < |s| ==> x.createdAt >= s[j].createdAt
    ensures IsListing([x] + s, store, keys + {x.id})
  {
    var r := [x] + s;
    forall i, j | 0 <= i < j < |r| ensures r[i].createdAt >= r[j].createdAt && r[i].id != r[j].id {
      assert r[j] == s[j - 1];
      if i == 0 { assert s[j - 1].id in Ids(s); } else { assert r[i] == s[i - 1]; }
    }
    forall y | y in Ids(r) ensures y in keys + {x.id} {
      var i :| 0 <= i < |r| && r[i].id == y;
      if i > 0 { assert s[i - 1].id == y; }
    }
    forall y | y in keys + {x.id} ensures y in Ids(r) {
      if y == x.id { assert r[0].id == y; }
      else {
        var i :| 0 <= i < |s| && s[i].id == y;
        assert r[i + 1].id == y;
      }
    }
  }

  /** No two posts in the store were created at the same instant. */
  predicate DistinctTimes(store: map<PostId, Post>) {
    forall a, b :: a in store && b in store && a != b ==> store[a].createdAt != store[b].createdAt
  }

  /** When creation times are distinct, a listing is determined by its keys. */
  lemma {:induction false} ListingUnique(s1: seq<Post>, s2: seq<Post>, store: map<PostId, Post>, keys: set<PostId>)
    requires IsListing(s1, store, keys) && IsListing(s2, store, keys)
    requires DistinctTimes(store)
    ensures s1 == s2
    decreases |s1|
  {
    ListingLength(s1, keys);
    ListingLength(s2, keys);
    if s1 != [] {
      var x, y := s1[0], s2[0];
      // each head is at least as new as everything listed, so both are the newest post
      assert x.id in Ids(s2);
      var j :| 0 <= j < |s2| && s2[j].id == x.id;
      assert y.id in Ids(s1);
      var i :| 0 <= i < |s1| && s1[i].id == y.id;
      assert s2[j] == x && s1[i] == y;
      assert y.createdAt >= x.createdAt >= y.createdAt;
      assert x == y;
      TailIsListing(s1, store, keys);
      TailIsListing(s2, store, keys);
      ListingUnique(s1[1..], s2[1..], store, keys - {x.id});
      assert s1 == [x] + s1[1..] && s2 == [y] + s2[1..];
    }
  }

  lemma TailIsListing(s: seq<Post>, store: map<PostId, Post>, keys: set<PostId>)
    requires IsListing(s, store, keys) && s != []
    ensures IsListing(s[1..], store, keys - {s[0].id})
  {
    var tail := s[1..];
    forall x | x in Ids(tail) ensures x in keys - {s[0].id} {
      var i :| 0 <= i < |tail| && tail[i].id == x;
      assert s[i + 1].id == x;
    }
    forall x | x in keys - {s[0].id} ensures x in Ids(tail) {
      var i :| 0 <= i < |s| && s[i].id == x;
      assert i != 0 && tail[i - 1].id == x;
    }
  }

  /** With distinct creation times, the by-user listing is exactly the full
      listing filtered to that author. */
  lemma ByUserIsFilteredListing(all: seq<Post>, mine: seq<Post>, store: map<PostId, Post>, author: UserId)
    requires IsListing(all, store, store.Keys)
    requires IsListing(mine, store, PostsBy(store, author))
    requires DistinctTimes(store)
    ensures mine == ByAuthor(all, author)
  {
    ByAuthorIsListing(all, store, store.Keys, author);
    assert PostsBy(store, author) == OwnKeys(store, store.Keys, author);
    ListingUnique(mine, ByAuthor(all, author), store, PostsBy(store, author));
  }
}
