/**
 * A post's reaction list and the upsert the reaction route performs on it:
 * the first entry of the reacting user has its type replaced, and a user
 * without an entry gets one appended.
 */
module Reactions {

  /** One `{ username, type }` entry; `kind` holds the free-form `type` symbol. */
  datatype Reaction = Reaction(username: string, kind: string)

  /** At most one entry per username. */
  predicate UniqueReactors(rs: seq<Reaction>)
  {
    forall i, j :: 0 <= i < j < |rs| ==> rs[i].username != rs[j].username
  }

  predicate HasReacted(rs: seq<Reaction>, username: string)
  {
    exists k :: 0 <= k < |rs| && rs[k].username == username
  }

  /** Reference definition of the upsert, one entry at a time. */
  function Upsert(rs: seq<Reaction>, username: string, kind: string): (r: seq<Reaction>)
    ensures Reaction(username, kind) in r
    ensures |r| == if HasReacted(rs, username) then |rs| else |rs| + 1
    decreases |rs|
  {
    if rs == [] then [Reaction(username, kind)]
    else if rs[0].username == username then [Reaction(username, kind)] + rs[1..]
    else
      assert HasReacted(rs, username) <==> HasReacted(rs[1..], username) by {
        if HasReacted(rs, username) {
          var k :| 0 <= k < |rs| && rs[k].username == username;
          assert rs[1..][k - 1] == rs[k];
        }
        if HasReacted(rs[1..], username) {
          var k :| 0 <= k < |rs[1..]| && rs[1..][k].username == username;
          assert rs[k + 1] == rs[1..][k];
        }
      }
      [rs[0]] + Upsert(rs[1..], username, kind)
  }

  /** `reactions.find(r => r.username === username)`: the first entry of that user, if any. */
  method FindReaction(rs: seq<Reaction>, username: string) returns (found: bool, j: nat)
    ensures found ==> j < |rs| && rs[j].username == username
    ensures found ==> forall k :: 0 <= k < j ==> rs[k].username != username
    ensures !found ==> !HasReacted(rs, username)
  {
    j := 0;
    while j < |rs|
      invariant j <= |rs|
      invariant forall k :: 0 <= k < j ==> rs[k].username != username
    {
      if rs[j].username == username {
        return true, j;
      }
      j := j + 1;
    }
    found := false;
  }

  /** Assigning the new type to the first entry of the user is the upsert. */
  lemma {:induction false} UpsertReplacesFirst(rs: seq<Reaction>, username: string, kind: string, j: nat)
    requires j < |rs| && rs[j].username == username
    requires forall k :: 0 <= k < j ==> rs[k].username != username
    ensures Upsert(rs, username, kind) == rs[j := Reaction(username, kind)]
    decreases j
  {
    if j > 0 {
      UpsertReplacesFirst(rs[1..], username, kind, j - 1);
      assert [rs[0]] + rs[1..][j - 1 := Reaction(username, kind)] == rs[j := Reaction(username, kind)];
    }
  }

  /** Pushing a new entry for a user without one is the upsert. */
  lemma {:induction false} UpsertAppends(rs: seq<Reaction>, username: string, kind: string)
    requires !HasReacted(rs, username)
    ensures Upsert(rs, username, kind) == rs + [Reaction(username, kind)]
    decreases |rs|
  {
    if rs != [] {
      assert rs[0].username != username;
      assert forall k :: 0 <= k < |rs[1..]| ==> rs[1..][k] == rs[k + 1];
      UpsertAppends(rs[1..], username, kind);
      assert rs == [rs[0]] + rs[1..];
    }
  }

  /** Entries of other users keep their position and value, and no entry of another user appears. */
  lemma {:induction false} UpsertKeepsOthers(rs: seq<Reaction>, username: string, kind: string)
    ensures forall k :: 0 <= k < |rs| && rs[k].username != username ==> Upsert(rs, username, kind)[k] == rs[k]
    ensures forall k :: 0 <= k < |Upsert(rs, username, kind)| && Upsert(rs, username, kind)[k].username != username ==>
              k < |rs| && Upsert(rs, username, kind)[k] == rs[k]
    decreases |rs|
  {
    if rs != [] && rs[0].username != username {
      UpsertKeepsOthers(rs[1..], username, kind);
      var r := Upsert(rs, username, kind);
      assert r == [rs[0]] + Upsert(rs[1..], username, kind);
      forall k | 0 < k < |r| && r[k].username != username
        ensures k < |rs| && r[k] == rs[k]
      {
        assert r[k] == Upsert(rs[1..], username, kind)[k - 1];
      }
    }
  }

  /** Every entry of the reacting user afterwards holds the new type. */
  lemma {:induction false} UpsertEntryHoldsKind(rs: seq<Reaction>, username: string, kind: string)
    requires UniqueReactors(rs)
    ensures forall k :: 0 <= k < |Upsert(rs, username, kind)| && Upsert(rs, username, kind)[k].username == username ==>
              Upsert(rs, username, kind)[k] == Reaction(username, kind)
    decreases |rs|
  {
    if rs != [] {
      if rs[0].username == username {
        var r := Upsert(rs, username, kind);
        forall k | 0 < k < |r|
          ensures r[k].username != username
        {
          assert r[k] == rs[k];
        }
      } else {
        UpsertEntryHoldsKind(rs[1..], username, kind);
        var r := Upsert(rs, username, kind);
        forall k | 0 < k < |r| && r[k].username == username
          ensures r[k] == Reaction(username, kind)
        {
          assert r[k] == Upsert(rs[1..], username, kind)[k - 1];
        }
      }
    }
  }

  /** The upsert keeps the list free of duplicate reactors. */
  lemma UpsertKeepsUnique(rs: seq<Reaction>, username: string, kind: string)
    requires UniqueReactors(rs)
    ensures UniqueReactors(Upsert(rs, username, kind))
  {
    if HasReacted(rs, username) {
      var j :| 0 <= j < |rs| && rs[j].username == username;
      UpsertReplacesFirst(rs, username, kind, j);
    } else {
      UpsertAppends(rs, username, kind);
    }
  }

  /** Reacting twice as the same user, with `a` then `b`, is one reaction with `b`. */
  lemma {:induction false} UpsertTwice(rs: seq<Reaction>, username: string, a: string, b: string)
    ensures Upsert(Upsert(rs, username, a), username, b) == Upsert(rs, username, b)
    decreases |rs|
  {
    if rs == [] {
    } else if rs[0].username == username {
      assert ([Reaction(username, a)] + rs[1..])[1..] == rs[1..];
    } else {
      UpsertTwice(rs[1..], username, a, b);
      assert ([rs[0]] + Upsert(rs[1..], username, a))[1..] == Upsert(rs[1..], username, a);
    }
  }

  /** Reactions of two different users coexist. */
  lemma DistinctReactorsCoexist(rs: seq<Reaction>, x: string, a: string, y: string, b: string)
    requires x != y
    ensures Reaction(x, a) in Upsert(Upsert(rs, x, a), y, b)
    ensures Reaction(y, b) in Upsert(Upsert(rs, x, a), y, b)
  {
    var once := Upsert(rs, x, a);
    var k :| 0 <= k < |once| && once[k] == Reaction(x, a);
    UpsertKeepsOthers(once, y, b);
    assert Upsert(once, y, b)[k] == Reaction(x, a);
  }
}
