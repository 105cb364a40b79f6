/**
 * The posts collection as a sequence in insertion order, and the queries
 * the routes run on it: `findById`, `deleteOne`, `find({ username })` and
 * `sort({ createdAt: -1 })`.
 */
module Posts {
  import opened Optional
  import opened Reactions

  /**
   * A post document. `id` stands for the store-assigned `_id`; `username`
   * and `profilePicture` are copies of the author's record at creation;
   * `createdAt` is the creation time in milliseconds.
   */
  datatype Post = Post(
    id: nat,
    username: string,
    profilePicture: string,
    image: string,
    caption: string,
    reactions: seq<Reaction>,
    createdAt: int)

  /** `Post.findById(id)`: the first post with that id, if any. */
  function Lookup(ps: seq<Post>, id: nat): (r: Option<Post>)
    ensures r.Some? ==> r.value in ps && r.value.id == id
    ensures r.None? ==> forall k :: 0 <= k < |ps| ==> ps[k].id != id
    decreases |ps|
  {
    if ps == [] then None
    else if ps[0].id == id then Some(ps[0])
    else Lookup(ps[1..], id)
  }

  lemma {:induction false} LookupFirst(ps: seq<Post>, id: nat, k: nat)
    requires k < |ps| && ps[k].id == id
    requires forall i :: 0 <= i < k ==> ps[i].id != id
    ensures Lookup(ps, id) == Some(ps[k])
    decreases k
  {
    if k > 0 {
      LookupFirst(ps[1..], id, k - 1);
    }
  }

  /** Ids strictly increase along the collection: the order in which they were assigned. */
  predicate IdsIncreasing(ps: seq<Post>)
  {
    forall i, j :: 0 <= i < j < |ps| ==> ps[i].id < ps[j].id
  }

  /** The collection without the post of that id, in collection order. */
  function WithoutPost(ps: seq<Post>, id: nat): seq<Post>
    decreases |ps|
  {
    if ps == [] then []
    else if ps[0].id == id then WithoutPost(ps[1..], id)
    else [ps[0]] + WithoutPost(ps[1..], id)
  }

  /** Removal keeps every other post and drops every post with that id. */
  lemma {:induction false} WithoutPostMembers(ps: seq<Post>, id: nat)
    ensures forall p :: p in WithoutPost(ps, id) <==> p in ps && p.id != id
    decreases |ps|
  {
    if ps != [] {
      WithoutPostMembers(ps[1..], id);
      assert ps == [ps[0]] + ps[1..];
    }
  }

  lemma {:induction false} WithoutAbsentPost(ps: seq<Post>, id: nat)
    requires forall k :: 0 <= k < |ps| ==> ps[k].id != id
    ensures WithoutPost(ps, id) == ps
    decreases |ps|
  {
    if ps != [] {
      WithoutAbsentPost(ps[1..], id);
    }
  }

  lemma {:induction false} WithoutPostConcat(a: seq<Post>, b: seq<Post>, id: nat)
    ensures WithoutPost(a + b, id) == WithoutPost(a, id) + WithoutPost(b, id)
    decreases |a|
  {
    if a == [] {
      assert a + b == b;
    } else {
      assert (a + b)[1..] == a[1..] + b;
      WithoutPostConcat(a[1..], b, id);
    }
  }

  // The two lemmas below take the slice as a parameter equal to `ps[..k]` or
  // `ps[k + 1..]`, so that their quantifiers index the slice itself; a
  // quantifier over `ps[k + 1..][i]` has no trigger the verifier accepts.
  lemma IdsBeforeDiffer(ps: seq<Post>, k: nat, before: seq<Post>)
    requires IdsIncreasing(ps) && k < |ps| && before == ps[..k]
    ensures forall i :: 0 <= i < |before| ==> before[i].id != ps[k].id
  {
    forall i | 0 <= i < |before|
      ensures before[i].id != ps[k].id
    {
      assert before[i] == ps[i];
    }
  }

  lemma IdsAfterDiffer(ps: seq<Post>, k: nat, after: seq<Post>)
    requires IdsIncreasing(ps) && k < |ps| && after == ps[k + 1..]
    ensures forall i :: 0 <= i < |after| ==> after[i].id != ps[k].id
  {
    forall i | 0 <= i < |after|
      ensures after[i].id != ps[k].id
    {
      assert after[i] == ps[k + 1 + i];
    }
  }

  lemma RemoveBetween(before: seq<Post>, p: Post, after: seq<Post>)
    requires WithoutPost(before, p.id) == before && WithoutPost(after, p.id) == after
    ensures WithoutPost(before + [p] + after, p.id) == before + after
  {
    assert before + [p] + after == before + ([p] + after);
    WithoutPostConcat(before, [p] + after, p.id);
    WithoutPostConcat([p], after, p.id);
    assert WithoutPost([p], p.id) == [];
  }

  /** With distinct ids, deleting the document at index `k` is removing its id. */
  lemma RemoveAt(ps: seq<Post>, k: nat)
    requires IdsIncreasing(ps) && k < |ps|
    ensures WithoutPost(ps, ps[k].id) == ps[..k] + ps[k + 1..]
  {
    IdsBeforeDiffer(ps, k, ps[..k]);
    WithoutAbsentPost(ps[..k], ps[k].id);
    IdsAfterDiffer(ps, k, ps[k + 1..]);
    WithoutAbsentPost(ps[k + 1..], ps[k].id);
    RemoveBetween(ps[..k], ps[k], ps[k + 1..]);
    assert ps == ps[..k] + [ps[k]] + ps[k + 1..];
  }

  /** Removing one index shifts the later posts down by one and keeps the ids increasing. */
  lemma RemoveAtIndices(ps: seq<Post>, k: nat)
    requires IdsIncreasing(ps) && k < |ps|
    ensures |ps[..k] + ps[k + 1..]| == |ps| - 1
    ensures forall i :: 0 <= i < |ps| - 1 ==> (ps[..k] + ps[k + 1..])[i] == if i < k then ps[i] else ps[i + 1]
    ensures IdsIncreasing(ps[..k] + ps[k + 1..])
  {
    var r := ps[..k] + ps[k + 1..];
    assert forall i :: 0 <= i < |r| ==> r[i] == if i < k then ps[i] else ps[i + 1];
  }

  /** Newest first: no post precedes a post created after it. */
  predicate NewestFirstOrder(ps: seq<Post>)
  {
    forall i, j :: 0 <= i < j < |ps| ==> ps[i].createdAt >= ps[j].createdAt
  }

  /** Inserts `p` ahead of every post created no later than it. */
  function InsertByDate(p: Post, ps: seq<Post>): (r: seq<Post>)
    ensures multiset(r) == multiset(ps) + multiset{p}
    ensures NewestFirstOrder(ps) ==> NewestFirstOrder(r)
    decreases |ps|
  {
    if ps == [] then [p]
    else if p.createdAt >= ps[0].createdAt then [p] + ps
    else
      var rest := InsertByDate(p, ps[1..]);
      assert ps == [ps[0]] + ps[1..];
      InsertBehindHead(p, ps, rest);
      [ps[0]] + rest
  }

  /** The step of `InsertByDate` that keeps the head of `ps` in front. */
  lemma InsertBehindHead(p: Post, ps: seq<Post>, rest: seq<Post>)
    requires ps != [] && p.createdAt < ps[0].createdAt
    requires multiset(rest) == multiset(ps[1..]) + multiset{p}
    requires NewestFirstOrder(ps[1..]) ==> NewestFirstOrder(rest)
    ensures NewestFirstOrder(ps) ==> NewestFirstOrder([ps[0]] + rest)
  {
    if NewestFirstOrder(ps) {
      assert NewestFirstOrder(ps[1..]) by {
        assert forall k :: 0 <= k < |ps[1..]| ==> ps[1..][k] == ps[k + 1];
      }
      forall q | q in rest
        ensures q.createdAt <= ps[0].createdAt
      {
        assert q in multiset(rest);
        if q != p {
          assert q in ps[1..];
        }
      }
      var r := [ps[0]] + rest;
      forall i, j | 0 <= i < j < |r|
        ensures r[i].createdAt >= r[j].createdAt
      {
        assert r[j] == rest[j - 1];
        if i > 0 {
          assert r[i] == rest[i - 1];
        }
      }
    }
  }

  /** `sort({ createdAt: -1 })`: a newest-first permutation of `ps`. */
  function NewestFirst(ps: seq<Post>): (r: seq<Post>)
    ensures multiset(r) == multiset(ps)
    ensures NewestFirstOrder(r)
    decreases |ps|
  {
    if ps == [] then []
    else
      assert ps == [ps[0]] + ps[1..];
      InsertByDate(ps[0], NewestFirst(ps[1..]))
  }

  /** A post created after every other one heads the listing. */
  lemma {:induction false} NewestFirstLatest(ps: seq<Post>, p: Post)
    requires forall q :: q in ps ==> q.createdAt < p.createdAt
    ensures NewestFirst(ps + [p]) == [p] + NewestFirst(ps)
    decreases |ps|
  {
    if ps != [] {
      assert (ps + [p])[1..] == ps[1..] + [p];
      assert (ps + [p])[0] == ps[0];
      NewestFirstLatest(ps[1..], p);
      assert ([p] + NewestFirst(ps[1..]))[1..] == NewestFirst(ps[1..]);
    }
  }

  /** `find({ username })`: the posts of one author, in collection order. */
  function PostsBy(ps: seq<Post>, username: string): (r: seq<Post>)
    ensures forall p :: p in r <==> p in ps && p.username == username
    ensures forall p :: multiset(r)[p] == if p.username == username then multiset(ps)[p] else 0
    ensures |r| <= |ps|
    decreases |ps|
  {
    assert ps != [] ==> ps == [ps[0]] + ps[1..];
    if ps == [] then []
    else if ps[0].username == username then [ps[0]] + PostsBy(ps[1..], username)
    else PostsBy(ps[1..], username)
  }
}
