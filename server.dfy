/**
 * The Express backend's route handlers over an in-memory store: a users
 * table keyed by username and a posts collection. Each handler runs to
 * completion before the next one starts.
 */
module Server {
  import opened Optional
  import opened Fields
  import opened Reactions
  import opened Posts
  import Jwt
  import Bcrypt

  /** The secret passed to both `jwt.sign` and `jwt.verify`. */
  const SigningSecret := "your-secret-key"

  /** The schema default of `profilePicture`. */
  const DefaultProfilePicture := "https://raw.githubusercontent.com/identicons/identicons/master/default.png"

  /** A user document: the password field holds only the bcrypt hash. */
  datatype User = User(username: string, password: Bcrypt.PasswordHash, profilePicture: string, bio: string)

  /** The fields of a user that leave the server apart from the profile route: no password. */
  datatype PublicUser = PublicUser(username: string, profilePicture: string, bio: string)

  function Public(u: User): PublicUser
  {
    PublicUser(u.username, u.profilePicture, u.bio)
  }

  /** A user created by registration: schema defaults for picture and bio. */
  function NewUser(username: string, password: Bcrypt.PasswordHash): User
  {
    User(username, password, DefaultProfilePicture, "")
  }

  /** An HTTP reply: a status with a JSON body, or a status with `{ error: message }`. */
  datatype Response<T> = Ok(status: nat, body: T) | Err(status: nat, message: string)

  /** The outcome of `authenticateToken`: proceed with `req.user`, or reply at once. */
  datatype Auth = Authorized(claims: Jwt.Claims) | Rejected(status: nat, message: string)

  datatype LoginReply = LoginReply(token: string, user: PublicUser)
  datatype ReactionReply = ReactionReply(message: string, post: Post)
  datatype UserInfoReply = UserInfoReply(user: PublicUser, posts: seq<Post>)

  /** A body field whose JSON type the route checks: missing, a string, or any other JSON value. */
  datatype JsonField = Absent | JsonString(text: string) | JsonOther

  /** `if (value)` on an optional string: present and non-empty. */
  predicate Truthy(value: Option<string>)
  {
    value.Some? && value.value != ""
  }

  /** `!type || typeof type !== 'string'` fails exactly for a non-empty string. */
  predicate ValidReactionType(kind: JsonField)
  {
    kind.JsonString? && kind.text != ""
  }

  /** `authHeader && authHeader.split(' ')[1]`, kept only when truthy. */
  function BearerToken(authorization: Option<string>): (token: Option<string>)
    ensures token.Some? ==> token.value != "" && ' ' !in token.value
  {
    match authorization
    case None => None
    case Some(header) =>
      var fields := Split(header, ' ');
      if |fields| >= 2 && fields[1] != "" then Some(fields[1]) else None
  }

  /** The second field is the token, whatever the first field says. */
  lemma BearerTokenOf(scheme: string, token: string)
    requires ' ' !in scheme && ' ' !in token && token != ""
    ensures BearerToken(Some(scheme + " " + token)) == Some(token)
  {
    assert Join([scheme, token], ' ') == scheme + " " + token;
    SplitJoin([scheme, token], ' ');
  }

  /** A missing header, a header of one field, and an empty second field carry no token. */
  lemma NoBearerToken(scheme: string)
    requires ' ' !in scheme
    ensures BearerToken(None) == None
    ensures BearerToken(Some(scheme)) == None
    ensures BearerToken(Some(scheme + " ")) == None
  {
    SplitWithoutSeparator(scheme, ' ');
    assert Join([scheme, ""], ' ') == scheme + " ";
    SplitJoin([scheme, ""], ' ');
  }

  /** `authenticateToken`: 401 without a token, 403 for a token that fails verification. */
  function Authenticate(authorization: Option<string>): (a: Auth)
    ensures a.Rejected? ==> a.status == 401 || a.status == 403
    ensures a.Rejected? && a.status == 401 <==> BearerToken(authorization).None?
  {
    match BearerToken(authorization)
    case None => Rejected(401, "Access token required")
    case Some(token) =>
      match Jwt.Verify(SigningSecret, token)
      case None => Rejected(403, "Invalid token")
      case Some(claims) => Authorized(claims)
  }

  /** A request gets through only with a token in field 1 that verifies under the server's secret to its claims. */
  lemma AuthorizedOnlyBySigned(authorization: Option<string>)
    requires Authenticate(authorization).Authorized?
    ensures BearerToken(authorization).Some?
    ensures Jwt.Verify(SigningSecret, BearerToken(authorization).value) == Some(Authenticate(authorization).claims)
  {
  }

  /** A header carrying a token signed by this server authenticates its claims, under any scheme word. */
  lemma AuthenticateSigned(scheme: string, c: Jwt.Claims)
    requires ' ' !in scheme
    ensures Authenticate(Some(scheme + " " + Jwt.Sign(SigningSecret, c))) == Authorized(c)
  {
    BearerTokenOf(scheme, Jwt.Sign(SigningSecret, c));
    Jwt.VerifySign(SigningSecret, c);
  }

  /** A token signed under another secret is refused with 403. */
  lemma AuthenticateForeign(scheme: string, key: string, c: Jwt.Claims)
    requires ' ' !in scheme && key != SigningSecret
    ensures Authenticate(Some(scheme + " " + Jwt.Sign(key, c))) == Rejected(403, "Invalid token")
  {
    BearerTokenOf(scheme, Jwt.Sign(key, c));
    Jwt.VerifyOtherKey(key, SigningSecret, c);
  }

  /** The stored fields of a post that the schema marks `required`, and one reaction per user. */
  predicate WellFormedPost(p: Post)
  {
    p.username != "" && p.profilePicture != "" && p.image != "" && UniqueReactors(p.reactions)
  }

  class Store {
    var users: map<string, User>
    var posts: seq<Post>
    /** The id the next created post receives. */
    var nextId: nat

    ghost predicate Valid()
      reads this
    {
      && (forall name :: name in users ==>
            users[name].username == name && name != "" && users[name].profilePicture != "")
      && (forall i :: 0 <= i < |posts| ==> WellFormedPost(posts[i]) && posts[i].id < nextId)
      && IdsIncreasing(posts)
    }

    constructor ()
      ensures Valid()
      ensures users == map[] && posts == [] && nextId == 0
    {
      users := map[];
      posts := [];
      nextId := 0;
    }

    /** POST /api/register. */
    method Register(username: string, password: string, salt: nat) returns (r: Response<string>)
      requires Valid()
      modifies this
      ensures Valid()
      ensures posts == old(posts) && nextId == old(nextId)
      ensures username in old(users) ==>
                r == Err(400, "Username already exists") && users == old(users)
      ensures username !in old(users) && username == "" ==>
                r == Err(500, "Error registering user") && users == old(users)
      ensures username !in old(users) && username != "" ==>
                && r == Ok(201, "User registered successfully")
                && users == old(users)[username := NewUser(username, Bcrypt.Hash(password, salt))]
    {
      if username in users {
        return Err(400, "Username already exists");
      }
      if username == "" {
        // the schema's `required` validator refuses an empty username at save
        return Err(500, "Error registering user");
      }
      var hashed := Bcrypt.Hash(password, salt);
      users := users[username := NewUser(username, hashed)];
      r := Ok(201, "User registered successfully");
    }

    /** POST /api/login: reads the users table only. */
    function Login(username: string, password: string): (r: Response<LoginReply>)
      reads this
      requires Valid()
      ensures username !in users ==> r == Err(400, "User not found")
      ensures username in users && !Bcrypt.Compare(password, users[username].password) ==>
                r == Err(400, "Invalid password")
      ensures r.Ok? <==> username in users && Bcrypt.Compare(password, users[username].password)
      ensures r.Ok? ==>
                && r.status == 200
                && r.body.user == Public(users[username])
                && r.body.token == Jwt.Sign(SigningSecret, Jwt.Claims(username))
    {
      if username !in users then Err(400, "User not found")
      else
        var user := users[username];
        if !Bcrypt.Compare(password, user.password) then Err(400, "Invalid password")
        else
          Ok(200, LoginReply(Jwt.Sign(SigningSecret, Jwt.Claims(user.username)), Public(user)))
    }

    /** POST /api/posts. `now` is the clock reading that `Date.now` supplies. */
    method CreatePost(authorization: Option<string>, image: Option<string>, caption: Option<string>, now: int)
      returns (r: Response<Post>)
      requires Valid()
      modifies this
      ensures Valid()
      ensures users == old(users)
      ensures Authenticate(authorization).Rejected? ==>
                && r == Err(Authenticate(authorization).status, Authenticate(authorization).message)
                && posts == old(posts) && nextId == old(nextId)
      ensures Authenticate(authorization).Authorized? && Authenticate(authorization).claims.username !in users ==>
                r == Err(404, "User not found") && posts == old(posts) && nextId == old(nextId)
      ensures Authenticate(authorization).Authorized? && Authenticate(authorization).claims.username in users
              && !Truthy(image) ==>
                r == Err(500, "Error creating post") && posts == old(posts) && nextId == old(nextId)
      ensures Authenticate(authorization).Authorized? && Authenticate(authorization).claims.username in users
              && Truthy(image) ==>
                var author := users[Authenticate(authorization).claims.username];
                && r == Ok(201, Post(old(nextId), author.username, author.profilePicture, image.value,
                                     caption.GetOr(""), [], now))
                && posts == old(posts) + [r.body]
                && nextId == old(nextId) + 1
    {
      var auth := Authenticate(authorization);
      if auth.Rejected? {
        return Err(auth.status, auth.message);
      }
      var user := auth.claims.username;
      if user !in users {
        return Err(404, "User not found");
      }
      var author := users[user];
      if !Truthy(image) {
        // the schema's `required` validator refuses a missing or empty image at save
        return Err(500, "Error creating post");
      }
      var post := Post(nextId, author.username, author.profilePicture, image.value, caption.GetOr(""), [], now);
      posts := posts + [post];
      nextId := nextId + 1;
      r := Ok(201, post);
    }

    /** GET /api/posts. */
    function GetPosts(authorization: Option<string>): (r: Response<seq<Post>>)
      reads this
      ensures Authenticate(authorization).Rejected? ==>
                r == Err(Authenticate(authorization).status, Authenticate(authorization).message)
      ensures r.Ok? <==> Authenticate(authorization).Authorized?
      ensures r.Ok? ==> r.status == 200 && multiset(r.body) == multiset(posts) && NewestFirstOrder(r.body)
    {
      match Authenticate(authorization)
      case Rejected(status, message) => Err(status, message)
      case Authorized(_) => Ok(200, NewestFirst(posts))
    }

    /** `Post.findById`, as the linear search the store performs. */
    method FindPost(id: nat) returns (found: bool, k: nat)
      ensures found ==> k < |posts| && Lookup(posts, id) == Some(posts[k])
      ensures !found ==> Lookup(posts, id) == None
    {
      k := 0;
      while k < |posts|
        invariant k <= |posts|
        invariant forall i :: 0 <= i < k ==> posts[i].id != id
      {
        if posts[k].id == id {
          LookupFirst(posts, id, k);
          return true, k;
        }
        k := k + 1;
      }
      found := false;
    }

    /** POST /api/posts/:postId/reactions. */
    method React(authorization: Option<string>, postId: nat, kind: JsonField) returns (r: Response<ReactionReply>)
      requires Valid()
      modifies this
      ensures Valid()
      ensures users == old(users) && nextId == old(nextId)
      ensures Authenticate(authorization).Rejected? ==>
                r == Err(Authenticate(authorization).status, Authenticate(authorization).message)
                && posts == old(posts)
      ensures Authenticate(authorization).Authorized? && !ValidReactionType(kind) ==>
                r == Err(400, "Invalid reaction type") && posts == old(posts)
      ensures Authenticate(authorization).Authorized? && ValidReactionType(kind)
              && Lookup(old(posts), postId).None? ==>
                r == Err(404, "Post not found") && posts == old(posts)
      ensures Authenticate(authorization).Authorized? && ValidReactionType(kind)
              && Lookup(old(posts), postId).Some? ==>
                var reacted := Lookup(old(posts), postId).value;
                var updated := reacted.(reactions :=
                  Upsert(reacted.reactions, Authenticate(authorization).claims.username, kind.text));
                && r == Ok(200, ReactionReply("Reaction added successfully", updated))
                && |posts| == |old(posts)|
                && forall i :: 0 <= i < |posts| ==>
                     posts[i] == if old(posts)[i].id == postId then updated else old(posts)[i]
    {
      var auth := Authenticate(authorization);
      if auth.Rejected? {
        return Err(auth.status, auth.message);
      }
      if !ValidReactionType(kind) {
        return Err(400, "Invalid reaction type");
      }
      var found, k := FindPost(postId);
      if !found {
        return Err(404, "Post not found");
      }
      var post := posts[k];
      var user := auth.claims.username;
      var reactions := post.reactions;
      var existing, j := FindReaction(reactions, user);
      if existing {
        UpsertReplacesFirst(reactions, user, kind.text, j);
        reactions := reactions[j := reactions[j].(kind := kind.text)];
      } else {
        UpsertAppends(reactions, user, kind.text);
        reactions := reactions + [Reaction(user, kind.text)];
      }
      UpsertKeepsUnique(post.reactions, user, kind.text);
      post := post.(reactions := reactions);
      posts := posts[k := post];
      r := Ok(200, ReactionReply("Reaction added successfully", post));
    }

    /** PUT /api/users/profile: replies with the whole saved document. */
    method UpdateProfile(authorization: Option<string>, profilePicture: Option<string>, bio: Option<string>)
      returns (r: Response<User>)
      requires Valid()
      modifies this
      ensures Valid()
      ensures posts == old(posts) && nextId == old(nextId)
      ensures Authenticate(authorization).Rejected? ==>
                r == Err(Authenticate(authorization).status, Authenticate(authorization).message)
                && users == old(users)
      ensures Authenticate(authorization).Authorized? && Authenticate(authorization).claims.username !in old(users) ==>
                r == Err(404, "User not found") && users == old(users)
      ensures Authenticate(authorization).Authorized? && Authenticate(authorization).claims.username in old(users) ==>
                var name := Authenticate(authorization).claims.username;
                var before := old(users)[name];
                && users.Keys == old(users).Keys
                && (forall other :: other in users && other != name ==> users[other] == old(users)[other])
                && users[name].username == before.username
                && users[name].password == before.password
                && users[name].profilePicture == (if Truthy(profilePicture) then profilePicture.value else before.profilePicture)
                && users[name].bio == (if Truthy(bio) then bio.value else before.bio)
                && r == Ok(200, users[name])
    {
      var auth := Authenticate(authorization);
      if auth.Rejected? {
        return Err(auth.status, auth.message);
      }
      var name := auth.claims.username;
      if name !in users {
        return Err(404, "User not found");
      }
      var user := users[name];
      if Truthy(profilePicture) {
        user := user.(profilePicture := profilePicture.value);
      }
      if Truthy(bio) {
        user := user.(bio := bio.value);
      }
      users := users[name := user];
      r := Ok(200, user);
    }

    /** DELETE /api/posts/:postId. */
    method DeletePost(authorization: Option<string>, postId: nat) returns (r: Response<string>)
      requires Valid()
      modifies this
      ensures Valid()
      ensures users == old(users) && nextId == old(nextId)
      ensures Authenticate(authorization).Rejected? ==>
                r == Err(Authenticate(authorization).status, Authenticate(authorization).message)
                && posts == old(posts)
      ensures Authenticate(authorization).Authorized? && Lookup(old(posts), postId).None? ==>
                r == Err(404, "Post not found") && posts == old(posts)
      ensures Authenticate(authorization).Authorized? && Lookup(old(posts), postId).Some?
              && Lookup(old(posts), postId).value.username != Authenticate(authorization).claims.username ==>
                r == Err(403, "You can only delete your own posts") && posts == old(posts)
      ensures Authenticate(authorization).Authorized? && Lookup(old(posts), postId).Some?
              && Lookup(old(posts), postId).value.username == Authenticate(authorization).claims.username ==>
                r == Ok(200, "Post deleted successfully") && posts == WithoutPost(old(posts), postId)
    {
      var auth := Authenticate(authorization);
      if auth.Rejected? {
        return Err(auth.status, auth.message);
      }
      var found, k := FindPost(postId);
      if !found {
        return Err(404, "Post not found");
      }
      if posts[k].username != auth.claims.username {
        return Err(403, "You can only delete your own posts");
      }
      RemoveAt(posts, k);
      RemoveAtIndices(posts, k);
      posts := posts[..k] + posts[k + 1..];
      r := Ok(200, "Post deleted successfully");
    }

    /** GET /api/users/posts: the caller's own posts, newest first. */
    function UserPosts(authorization: Option<string>): (r: Response<seq<Post>>)
      reads this
      ensures Authenticate(authorization).Rejected? ==>
                r == Err(Authenticate(authorization).status, Authenticate(authorization).message)
      ensures r.Ok? <==> Authenticate(authorization).Authorized?
      ensures r.Ok? ==>
                && r.status == 200
                && NewestFirstOrder(r.body)
                && forall p :: p in r.body <==> p in posts && p.username == Authenticate(authorization).claims.username
      ensures r.Ok? ==>
                forall p :: multiset(r.body)[p] ==
                  if p.username == Authenticate(authorization).claims.username then multiset(posts)[p] else 0
    {
      match Authenticate(authorization)
      case Rejected(status, message) => Err(status, message)
      case Authorized(claims) =>
        var mine := PostsBy(posts, claims.username);
        var listing := NewestFirst(mine);
        assert forall p :: p in listing <==> p in mine by {
          assert forall p :: p in listing <==> p in multiset(listing);
        }
        Ok(200, listing)
    }

    /** GET /api/users/:username: the public profile and that user's posts, newest first. */
    function UserInfo(authorization: Option<string>, username: string): (r: Response<UserInfoReply>)
      reads this
      requires Valid()
      ensures Authenticate(authorization).Rejected? ==>
                r == Err(Authenticate(authorization).status, Authenticate(authorization).message)
      ensures Authenticate(authorization).Authorized? && username !in users ==> r == Err(404, "User not found")
      ensures r.Ok? <==> Authenticate(authorization).Authorized? && username in users
      ensures r.Ok? ==>
                && r.status == 200
                && r.body.user == Public(users[username])
                && NewestFirstOrder(r.body.posts)
                && forall p :: p in r.body.posts <==> p in posts && p.username == username
      ensures r.Ok? ==> forall p :: multiset(r.body.posts)[p] == if p.username == username then multiset(posts)[p] else 0
    {
      match Authenticate(authorization)
      case Rejected(status, message) => Err(status, message)
      case Authorized(_) =>
        if username !in users then Err(404, "User not found")
        else
          var user := users[username];
          var theirs := PostsBy(posts, user.username);
          var listing := NewestFirst(theirs);
          assert forall p :: p in listing <==> p in theirs by {
            assert forall p :: p in listing <==> p in multiset(listing);
          }
          Ok(200, UserInfoReply(Public(user), listing))
    }
  }

  /**
   * The token handed out at login authenticates its holder as the user who
   * logged in, sent after `Bearer ` or after any other scheme word.
   */
  lemma LoginTokenAuthenticates(s: Store, username: string, password: string, scheme: string)
    requires s.Valid() && s.Login(username, password).Ok?
    requires ' ' !in scheme
    ensures Authenticate(Some(scheme + " " + s.Login(username, password).body.token)) == Authorized(Jwt.Claims(username))
  {
    AuthenticateSigned(scheme, Jwt.Claims(username));
  }

  /** A user whose stored hash was made from `password` logs in with it. */
  lemma RegisteredUserLogsIn(s: Store, username: string, password: string, salt: nat)
    requires s.Valid() && username in s.users && s.users[username].password == Bcrypt.Hash(password, salt)
    ensures s.Login(username, password).Ok?
    ensures s.Login(username, password).body.user.username == username
  {
    Bcrypt.CompareHash(password, salt);
  }

  /**
   * A password that differs from the registered one within its first 72
   * characters is refused as invalid, not as an unknown user.
   */
  lemma WrongPasswordRefused(s: Store, username: string, password: string, attempt: string, salt: nat)
    requires s.Valid() && username in s.users && s.users[username].password == Bcrypt.Hash(password, salt)
    requires Bcrypt.Truncated(attempt) != Bcrypt.Truncated(password)
    ensures s.Login(username, attempt) == Err(400, "Invalid password")
  {
    Bcrypt.CompareOnlyHashed(password, attempt, salt);
  }

  /**
   * A password that agrees with the registered one on the first 72
   * characters logs in, whatever follows them.
   */
  lemma LongPasswordLogsIn(s: Store, username: string, prefix: string, password: string, attempt: string, salt: nat)
    requires s.Valid() && username in s.users && s.users[username].password == Bcrypt.Hash(prefix + password, salt)
    requires |prefix| == Bcrypt.MaxPasswordLength
    ensures s.Login(username, prefix + attempt).Ok?
  {
    Bcrypt.LongPasswordsCollide(prefix, password, attempt, salt);
  }
}
