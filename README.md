# Pawgram backend core, modelled in Dafny

This project models the request-handling core of the Pawgram backend
(`backend/server.js`): the Express route handlers over a users table and a
posts collection. It also models the output-size rule of the client's
`compressImage` (`backend/Project_Folder/script.js`).

- `optional.dfy`: module `Optional`, the `Option` type.
- `fields.dfy`: module `Fields`. This is `String.prototype.split` on one
  separator character, with `Join` as its inverse.
- `jwt.dfy`: module `Jwt`, a stand-in for `jsonwebtoken`. A token is the
  escaped `username` claim, a dot, and the escaped secret. Escaping removes
  every space and dot. `Verify(key, Sign(key, c)) == Some(c)` holds, and a
  token signed under another secret fails. The real library adds an `iat`
  claim, so it issues many tokens for one username. The token the model
  issues at login is the abstract `Sign`; only the facts stated through
  `Verify` carry over to a real token with `iat`. An attacker who knows this encoding could forge a token, so
  unforgeability is not modelled.
- `bcrypt.dfy`: module `Bcrypt`, a stand-in for `bcryptjs`. The salt is
  passed in, because `genSalt` is randomness. As in bcrypt, only the first
  72 characters of a password are hashed. On those the digest is
  injective, so a hash accepts exactly the passwords that agree with the
  hashed one on the first 72 characters.
- `reactions.dfy`: module `Reactions`. It has the reaction upsert as a
  reference function `Upsert`, and the linear `find` as the loop
  `FindReaction`.
- `posts.dfy`: module `Posts`. It has `findById` (`Lookup`), deletion by id
  (`WithoutPost`), `sort({ createdAt: -1 })` (`NewestFirst`, an insertion
  sort) and `find({ username })` (`PostsBy`).
- `server.dfy`: module `Server`. It has token extraction (`BearerToken`),
  the `authenticateToken` middleware (`Authenticate`), and the class
  `Store`. `Store` has the fields `users: map<string, User>`,
  `posts: seq<Post>` and `nextId`, the id source for new posts.
  - Handlers that change the store are methods with `modifies this`:
    `Register`, `CreatePost`, `React`, `UpdateProfile` and `DeletePost`.
  - Read-only handlers are `reads this` functions: `Login`, `GetPosts`,
    `UserPosts` and `UserInfo`.
  - Every method keeps the invariant `Valid()`:
    - each user is stored under its own name, which is non-empty;
    - every profile picture is non-empty;
    - every post has the fields the schema marks `required`;
    - each post has at most one reaction per username;
    - post ids are strictly increasing, and so distinct.
- `resize.dfy`: module `ImageResize`, the width/height rule of
  `compressImage` as a pure function.

Each protected handler takes the raw `Authorization` header. It runs
`Authenticate` first, so its contract covers the 401 and 403 replies as
well as its own. A reply is `Ok(status, body)` or `Err(status, message)`,
with the source's status codes and messages. The store is an abstract
in-memory map and sequence. Each operation is atomic, and operations run
one after another.

The model follows the code in these details, which a reader might not
expect:
- The reaction route checks the reaction type (400) before it looks up the
  post (404).
- `PUT /api/users/profile` replies with the whole saved user document,
  password hash included. It does not reply with a public view.
- Registration stores the default profile picture URL. It does not store
  an empty avatar.
- The scheme word of the `Authorization` header is never checked. Any
  non-empty first field works (`AuthenticateSigned`). The handler would
  accept an empty one too, but Node drops leading whitespace from header
  values, so a header that starts with a space never reaches it.

Mongoose's `required` validators run on save and throw, which the catch
block turns into a 500 reply. The model includes the two cases reachable
from typed input: an empty username at registration, and a missing or
empty image at post creation. The other required fields can never be
empty under `Valid()`.

## Model

| member | source | states |
|---|---|---|
| `Fields.Split` | backend/server.js:55 | `header.split(' ')`: at least one field, no field contains the separator, and joining the fields with it gives back the input |
| `Fields.SplitJoin` | backend/server.js:55 | the converse: splitting a join of separator-free fields gives back the fields |
| `Fields.SplitAtFirstSeparator` | backend/server.js:55 | the first separator ends the first field; the rest splits independently |
| `Jwt.Sign` | backend/server.js:122 | a signed token is non-empty and has no space, so it survives in a space-separated header |
| `Jwt.VerifySign` | backend/server.js:61-65 | `verify(sign(u)) = Some(u)` under the same secret |
| `Jwt.VerifyOtherKey` | backend/server.js:61-64 | a token signed under another secret fails verification |
| `Bcrypt.CompareHash` | backend/server.js:116 | `compare(p, hash(p))` holds for every salt |
| `Bcrypt.CompareOnlyHashed` | backend/server.js:116-119 | `compare` accepts a password exactly when its first 72 characters equal those of the hashed one |
| `Bcrypt.CompareShortPasswords` | backend/server.js:116-119 | among passwords of at most 72 characters, `compare` accepts the hashed one and no other |
| `Bcrypt.LongPasswordsCollide` | backend/server.js:116 | two passwords with the same first 72 characters are accepted by each other's hash, whatever follows |
| `Reactions.Upsert` | backend/server.js:203-218 | the result contains `(user, type)`; its length is unchanged when the user had reacted, and one more otherwise |
| `Reactions.FindReaction` | backend/server.js:203-205 | the loop returns the first entry of the user, or reports correctly that there is none |
| `Reactions.UpsertReplacesFirst` | backend/server.js:207-210 | assigning the type to the first matching entry in place is the upsert |
| `Reactions.UpsertAppends` | backend/server.js:211-217 | pushing `(user, type)` when the user has no entry is the upsert |
| `Reactions.UpsertKeepsOthers` | backend/server.js:203-218 | entries of other users keep their position and value, and no entry of another user is added |
| `Reactions.UpsertEntryHoldsKind` | backend/server.js:207-217 | afterwards every entry of the reacting user holds the new type |
| `Reactions.UpsertKeepsUnique` | backend/server.js:203-218 | at most one reaction per username is preserved |
| `Reactions.UpsertTwice` | backend/server.js:203-218 | reacting as X with a and then with b equals reacting once with b, hence one entry for X that holds b |
| `Reactions.DistinctReactorsCoexist` | backend/server.js:203-218 | reactions from two different users both remain |
| `Posts.Lookup` | backend/server.js:194-198 | `findById` returns a post of the collection with that id, or none exists |
| `Posts.LookupFirst` | backend/server.js:194 | the post found is the first with that id |
| `Posts.WithoutPostMembers` | backend/server.js:273 | deleting by id keeps exactly the posts with other ids |
| `Posts.RemoveAt` | backend/server.js:262-273 | with distinct ids, removing the found index equals removing that id |
| `Posts.InsertByDate` | backend/server.js:171 | insertion adds exactly one element and keeps a newest-first list newest-first |
| `Posts.NewestFirst` | backend/server.js:171 | `sort({ createdAt: -1 })` returns a permutation of the posts, ordered by `createdAt` descending |
| `Posts.NewestFirstLatest` | backend/server.js:171 | a post created after all others is listed first, ahead of the earlier posts in their order |
| `Posts.PostsBy` | backend/server.js:284 | `find({ username })` keeps each post of that username as many times as the collection holds it, and no other post |
| `Server.BearerToken` | backend/server.js:54-55 | an extracted token is non-empty, contains no space, and is field 1 of the header split on spaces |
| `Server.BearerTokenOf` | backend/server.js:55 | for `scheme + " " + token`, the extracted token is `token`, whatever the scheme |
| `Server.NoBearerToken` | backend/server.js:54-59 | a missing header, a one-field header and an empty second field give no token |
| `Server.Authenticate` | backend/server.js:53-68 | rejection is 401 exactly when there is no token, and 403 otherwise |
| `Server.AuthorizedOnlyBySigned` | backend/server.js:55-66 | a request is authorized only when field 1 of its header is a token that verifies under the server's secret to exactly the claims it proceeds with |
| `Server.AuthenticateSigned` | backend/server.js:61-66 | a header carrying a token signed with the server's secret proceeds with exactly the signed claims |
| `Server.AuthenticateForeign` | backend/server.js:61-64 | a token signed with another secret gets 403 "Invalid token" |
| `Server.Store.constructor` | backend/server.js:26-50 | an empty, valid store |
| `Server.Store.Register` | backend/server.js:78-99 | a taken username gives 400 and no change; an empty one gives 500 and no change; otherwise exactly one user is added with the hashed password, the default picture and an empty bio, and usernames stay unique |
| `Server.Store.Login` | backend/server.js:110-130 | unknown user gives 400 "User not found"; a failed compare gives 400 "Invalid password"; success returns the public fields, never the hash, and the token signed for that username |
| `Server.LoginTokenAuthenticates` | backend/server.js:61-66 | the token from a successful login authenticates as that username under any scheme word |
| `Server.RegisteredUserLogsIn` | backend/server.js:84-85 | a user stored with the hash of `p` logs in with `p` |
| `Server.WrongPasswordRefused` | backend/server.js:116-119 | a password that differs from the registered one within its first 72 characters gives 400 "Invalid password" |
| `Server.LongPasswordLogsIn` | backend/server.js:116-129 | a password that agrees with the registered one on its first 72 characters logs in, whatever follows them |
| `Server.Store.CreatePost` | backend/server.js:142-160 | a missing user gives 404; a missing or empty image gives 500; otherwise one post is appended with the author's current username and picture copied in, the default caption, no reactions and the given time |
| `Server.Store.GetPosts` | backend/server.js:168-173 | an authenticated request gets all posts, newest first; otherwise the middleware's 401/403 |
| `Server.Store.FindPost` | backend/server.js:194 | the loop returns the index of the post `findById` finds, or reports that there is none |
| `Server.Store.React` | backend/server.js:183-223 | an invalid type gives 400 before the lookup and a missing post gives 404, both with nothing changed; otherwise exactly that post's reactions become the upsert, and every other post and the users are unchanged |
| `Server.Store.UpdateProfile` | backend/server.js:237-253 | only the caller's record changes (404 if missing); the picture and the bio are each replaced only by a truthy value, and the username, the hash, the other users and all posts, with their author snapshots, stay unchanged |
| `Server.Store.DeletePost` | backend/server.js:262-274 | a missing post gives 404; a non-owner gets 403 and the post remains; the owner removes exactly that post |
| `Server.Store.UserPosts` | backend/server.js:282-285 | the caller's posts, newest first, each as many times as the collection holds it, and no other post |
| `Server.Store.UserInfo` | backend/server.js:295-309 | an unknown user gives 404; otherwise the public fields, without the password, and that user's posts, newest first, each as many times as the collection holds it, and no other post |
| `ImageResize.RoundDiv` | backend/Project_Folder/script.js:865 | `Math.round(a / b)` on non-negative values: the nearest integer, halves rounded up |
| `ImageResize.Resize` | backend/Project_Folder/script.js:859-871 | within bounds the size is unchanged; a landscape image that exceeds a bound gets width `maxWidth` and the rounded proportional height, and a portrait or square one gets height `maxHeight` and the rounded proportional width |
| `ImageResize.SquareBoxFits` | backend/Project_Folder/script.js:859-871 | in a square box both sides end up within the box and neither grows |
| `ImageResize.DefaultBoxFits` | backend/Project_Folder/script.js:850-871 | with the default 800 by 800 bounds both sides are at most 800 and at most the input's |
| `ImageResize.OblongBoxCanOverflow` | backend/Project_Folder/script.js:863-870 | with a box that is not square the rule can exceed the box and enlarge the image (500x400 in 1000x100 becomes 1000x800); every caller uses the square default |

## Left out

- The browser client: DOM rendering, page functions, `fetch` wrappers, `localStorage` session handling, the stray
  mongoose connection in the client script, and the FileReader/canvas/`toBlob`/JPEG-quality parts of `compressImage`.
  None of this is request-handling logic.
- `Project_Folder/script.js` is not part of this model. It has no logic beyond a floating-point resize (`height *=
  MAX_WIDTH / width`), and floating point is not modelled.
- The mongoose connection, schema machinery, Express middleware, CORS, static serving and the global error handler;
  only the schema defaults and `required` fields appear, as model data and in `Valid()`.
- The internals of bcrypt and jsonwebtoken: both are stand-ins with the round-trip properties above; one-wayness,
  unforgeability, the `iat` claim and token expiry are not modelled.
- `Jwt.VerifyExactlySigned` and `Jwt.EscapeUnescape`: one token per set of claims holds only for the stand-in encoding.
  `jwt.sign` adds an `iat` timestamp, so two logins give different tokens that both verify to the same username. No
  fact about the server rests on these two lemmas.
- `Bcrypt.Truncated`: keeps the first 72 characters. bcryptjs works on UTF-8 bytes instead. For `$2a$`/`$2b$` salts
  it appends a NUL byte and repeats the key bytes until it has the 72 it reads. So "a" and "a\u0000a" hash alike, and
  so do two non-ASCII passwords that share their first 72 bytes. The model matches bcryptjs only for ASCII passwords
  without NUL characters.
- `Bcrypt.CompareOnlyHashed`: its rejection direction holds of bcryptjs only for ASCII passwords without NUL
  characters.
- `Bcrypt.CompareShortPasswords`: "no other password" holds of bcryptjs only for ASCII passwords without NUL
  characters; a NUL character or a multi-byte character can make two distinct passwords collide.
- `Server.WrongPasswordRefused`: the 400 "Invalid password" reply is promised only for ASCII passwords without NUL
  characters; bcryptjs accepts "a\u0000a" for a user registered with "a".
- `Server.LongPasswordLogsIn`: holds of bcryptjs for any passwords, since 72 shared characters cover at least the 72
  bytes bcrypt reads; only the model's reason is in characters.
- `Reactions.Upsert`: reaction entries are modelled as the handler treats them, as `{ username, type }` objects. The
  schema at backend/server.js:43-46 names the entry's field `type`, which Mongoose reads by default as the type of
  the array element, declaring an array of strings. Read that way, the `find` at :203 never matches and the `push`
  at :214 fails to cast and ends in the 500 "Error adding reaction" reply; the model does not capture that reading.
- Store failures and concurrency: the duplicate-key race (error code 11000), lost updates between concurrent
  reactions, and every other 500 branch caused by the store. Each handler is atomic.
- Untyped request bodies: usernames, passwords, captions, images and profile fields are strings (or absent); only the
  reaction `type` is modelled as any JSON value, because that route checks `typeof`. A non-string body field elsewhere,
  malformed post ids (a cast error, 500) and `findOne({ username: undefined })` are not modelled.
- Route matching: `GET /api/users/posts` is declared before `GET /api/users/:username`, so in the source a user named
  `posts` cannot be fetched by name; the model offers the two handlers separately.
- `console.log` output, the unused `likes` counter, and `Date.now`, which is a parameter `now`; ids are a counter
  standing in for ObjectIds.
- `ImageResize.RoundDiv`: models `Math.round` on the exact rational quotient; the source divides in floating point,
  which agrees for image sizes well below 2^26 pixels.
- `Posts.NewestFirst`: for posts with equal `createdAt` the store's order is unspecified; the model keeps collection
  order among ties.
