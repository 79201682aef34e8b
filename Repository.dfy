/**
 * The user repository as the account code sees it: a sequence of stored
 * `User` entities and the derived query `findByUsernameIgnoreCase`, which
 * returns, in stored order, every user whose username equals the query
 * under the case fold.
 */
module Repository {
  import opened JavaText
  import opened Entities

  /** `findByUsernameIgnoreCase(name)` over the stored users. */
  function FindByUsernameIgnoreCase(users: seq<User>, name: string): (found: seq<User>)
    reads users`username
    ensures |found| <= |users|
    ensures forall k :: 0 <= k < |found| ==> EqualsIgnoreCase(found[k].username, name)
    ensures forall k :: 0 <= k < |users| && EqualsIgnoreCase(users[k].username, name) ==> users[k] in found
  {
    if users == [] then []
    else
      var init, last := users[..|users| - 1], users[|users| - 1];
      FindByUsernameIgnoreCase(init, name) + (if EqualsIgnoreCase(last.username, name) then [last] else [])
  }

  /** Every user the lookup finds is a stored user. */
  lemma {:induction false} FoundAreStored(users: seq<User>, name: string)
    ensures forall k :: 0 <= k < |FindByUsernameIgnoreCase(users, name)| ==>
      FindByUsernameIgnoreCase(users, name)[k] in users
  {
    if users != [] {
      var init := users[..|users| - 1];
      FoundAreStored(init, name);
      assert forall u :: u in init ==> u in users;
    }
  }

  /** Storing one more user extends the lookup by that user exactly when it matches. */
  lemma FindAfterAppend(users: seq<User>, u: User, name: string)
    ensures FindByUsernameIgnoreCase(users + [u], name)
      == FindByUsernameIgnoreCase(users, name) + (if EqualsIgnoreCase(u.username, name) then [u] else [])
  {
    assert (users + [u])[..|users|] == users;
  }

  /** Storing a user whose name no stored user has keeps both invariants,
      and the user's name then finds exactly that user. */
  lemma AppendUnmatched(users: seq<User>, u: User)
    requires FindByUsernameIgnoreCase(users, u.username) == []
    ensures FindByUsernameIgnoreCase(users + [u], u.username) == [u]
    ensures Distinct(users) ==> Distinct(users + [u])
    ensures UniqueUsernames(users) ==> UniqueUsernames(users + [u])
  {
    FindAfterAppend(users, u, u.username);
    FindNone(users, u.username);
    AppendNew(users, u);
    if UniqueUsernames(users) {
      AppendUnique(users, u);
    }
  }

  lemma AppendNew(users: seq<User>, u: User)
    requires forall k :: 0 <= k < |users| ==> !EqualsIgnoreCase(users[k].username, u.username)
    ensures Distinct(users) ==> Distinct(users + [u])
  {
    forall k | 0 <= k < |users|
      ensures users[k] != u
    {
      assert !EqualsIgnoreCase(users[k].username, u.username);
    }
  }

  lemma AppendUnique(users: seq<User>, u: User)
    requires forall k :: 0 <= k < |users| ==> !EqualsIgnoreCase(users[k].username, u.username)
    requires UniqueUsernames(users)
    ensures UniqueUsernames(users + [u])
  {
    var all := users + [u];
    forall i, j | 0 <= i < j < |all|
      ensures !NameClash(all, i, j)
    {
      assert all[i] == users[i];
      if j < |users| {
        assert all[j] == users[j];
        assert !NameClash(users, i, j);
      }
    }
  }

  /** No entity is stored twice. */
  ghost predicate Distinct(users: seq<User>)
  {
    forall i, j :: 0 <= i < j < |users| ==> users[i] != users[j]
  }

  /** The users at positions `i` and `j` have usernames equal under the case fold. */
  ghost predicate NameClash(users: seq<User>, i: int, j: int)
    requires 0 <= i < |users| && 0 <= j < |users|
    reads users`username
  {
    EqualsIgnoreCase(users[i].username, users[j].username)
  }

  /** No two stored users have usernames equal under the case fold. */
  ghost predicate UniqueUsernames(users: seq<User>)
    reads users`username
  {
    forall i, j :: 0 <= i < j < |users| ==> !NameClash(users, i, j)
  }

  lemma UniqueUsernamesAreDistinct(users: seq<User>)
    requires UniqueUsernames(users)
    ensures Distinct(users)
  {
    forall i, j | 0 <= i < j < |users|
      ensures users[i] != users[j]
    {
      assert !NameClash(users, i, j);
    }
  }

  /** Uniqueness holds of every prefix, and the last stored name clashes
      with none before it. */
  lemma UniqueSplit(users: seq<User>)
    requires UniqueUsernames(users) && users != []
    ensures UniqueUsernames(users[..|users| - 1])
    ensures forall k :: 0 <= k < |users| - 1 ==>
      !EqualsIgnoreCase(users[k].username, users[|users| - 1].username)
  {
    var init := users[..|users| - 1];
    forall i, j | 0 <= i < j < |init|
      ensures !NameClash(init, i, j)
    {
      assert !NameClash(users, i, j);
    }
    forall k | 0 <= k < |users| - 1
      ensures !EqualsIgnoreCase(users[k].username, users[|users| - 1].username)
    {
      assert !NameClash(users, k, |users| - 1);
    }
  }

  /** Under the uniqueness invariant a lookup finds at most one user, and it
      finds one exactly when some stored username matches. */
  lemma {:induction false} UniqueLookup(users: seq<User>, name: string)
    requires UniqueUsernames(users)
    ensures |FindByUsernameIgnoreCase(users, name)| <= 1
    ensures |FindByUsernameIgnoreCase(users, name)| == 1 <==>
      exists u :: u in users && EqualsIgnoreCase(u.username, name)
  {
    if users != [] {
      var init, last := users[..|users| - 1], users[|users| - 1];
      UniqueSplit(users);
      UniqueLookup(init, name);
      var rest := FindByUsernameIgnoreCase(init, name);
      if EqualsIgnoreCase(last.username, name) {
        forall k | 0 <= k < |init|
          ensures !EqualsIgnoreCase(init[k].username, name)
        {
          assert users[k] == init[k];
        }
        assert rest == [];
      }
    }
  }

  /** The store with every occurrence of one entity taken out, the rest in order. */
  function Without(users: seq<User>, gone: User): (rest: seq<User>)
    ensures |rest| <= |users|
    ensures forall k :: 0 <= k < |rest| ==> rest[k] != gone
    ensures forall k :: 0 <= k < |users| && users[k] != gone ==> users[k] in rest
  {
    if users == [] then []
    else
      var init, last := users[..|users| - 1], users[|users| - 1];
      Without(init, gone) + (if last == gone then [] else [last])
  }

  /** Every entity left after the removal was stored before it. */
  lemma {:induction false} WithoutWithin(users: seq<User>, gone: User)
    ensures forall k :: 0 <= k < |Without(users, gone)| ==> Without(users, gone)[k] in users
  {
    if users != [] {
      var init := users[..|users| - 1];
      WithoutWithin(init, gone);
      assert forall u :: u in init ==> u in users;
    }
  }

  /** Deleting the one user a lookup found removes exactly one entry, and the
      same lookup then finds nothing. */
  lemma {:induction false} DeleteSingleMatch(users: seq<User>, name: string, gone: User)
    requires FindByUsernameIgnoreCase(users, name) == [gone]
    ensures |Without(users, gone)| == |users| - 1
    ensures FindByUsernameIgnoreCase(Without(users, gone), name) == []
  {
    var init, last := users[..|users| - 1], users[|users| - 1];
    var rest := FindByUsernameIgnoreCase(init, name);
    assert users == init + [last];
    assert FindByUsernameIgnoreCase(users, name)
      == rest + (if EqualsIgnoreCase(last.username, name) then [last] else []);
    if last == gone {
      assert rest == [];
      assert gone !in init;
      WithoutAbsent(init, gone);
      assert Without(users, gone) == init;
    } else {
      assert !EqualsIgnoreCase(last.username, name);
      DeleteSingleMatch(init, name, gone);
      var shorter := Without(init, gone);
      assert Without(users, gone) == shorter + [last];
      FindAfterAppend(shorter, last, name);
    }
  }

  lemma {:induction false} WithoutAbsent(users: seq<User>, gone: User)
    requires gone !in users
    ensures Without(users, gone) == users
  {
    if users != [] {
      WithoutAbsent(users[..|users| - 1], gone);
      assert users == users[..|users| - 1] + [users[|users| - 1]];
    }
  }

  /** Taking users out keeps both invariants. */
  lemma {:induction false} WithoutPreserves(users: seq<User>, gone: User)
    ensures Distinct(users) ==> Distinct(Without(users, gone))
    ensures UniqueUsernames(users) ==> UniqueUsernames(Without(users, gone))
  {
    if users != [] {
      var init, last := users[..|users| - 1], users[|users| - 1];
      if UniqueUsernames(users) {
        UniqueSplit(users);
      }
      WithoutPreserves(init, gone);
      var rest := Without(init, gone);
      if last != gone {
        assert Without(users, gone) == rest + [last];
        WithoutWithin(init, gone);
        if Distinct(users) {
          assert Distinct(init);
          assert last !in init;
        }
        if UniqueUsernames(users) {
          forall k | 0 <= k < |rest|
            ensures !EqualsIgnoreCase(rest[k].username, last.username)
          {
            var i :| 0 <= i < |init| && init[i] == rest[k];
            assert users[i] == rest[k];
          }
          AppendUnique(rest, last);
        }
      } else {
        assert Without(users, gone) == rest;
      }
    }
  }

  /** A stored entity that matches a name is the whole lookup result exactly
      when no other stored user matches that name. */
  lemma {:induction false} FindOnly(users: seq<User>, u: User, name: string)
    requires Distinct(users)
    requires u in users && EqualsIgnoreCase(u.username, name)
    ensures FindByUsernameIgnoreCase(users, name) == [u] <==>
      forall k :: 0 <= k < |users| && users[k] != u ==> !EqualsIgnoreCase(users[k].username, name)
  {
    var init, last := users[..|users| - 1], users[|users| - 1];
    assert users == init + [last];
    var rest := FindByUsernameIgnoreCase(init, name);
    assert Distinct(init);
    if last == u {
      assert u !in init;
      FindNone(init, name);
      assert (forall k :: 0 <= k < |users| && users[k] != u ==> !EqualsIgnoreCase(users[k].username, name))
        <==> (forall k :: 0 <= k < |init| ==> !EqualsIgnoreCase(init[k].username, name));
    } else {
      FindOnly(init, u, name);
      assert (forall k :: 0 <= k < |users| && users[k] != u ==> !EqualsIgnoreCase(users[k].username, name))
        <==> (forall k :: 0 <= k < |init| && init[k] != u ==> !EqualsIgnoreCase(init[k].username, name))
             && !EqualsIgnoreCase(last.username, name);
      assert u in rest;
    }
  }

  /** A lookup is empty exactly when no stored username matches. */
  lemma FindNone(users: seq<User>, name: string)
    ensures FindByUsernameIgnoreCase(users, name) == [] <==>
      forall k :: 0 <= k < |users| ==> !EqualsIgnoreCase(users[k].username, name)
  {
    var found := FindByUsernameIgnoreCase(users, name);
    if found != [] {
      FoundAreStored(users, name);
      assert found[0] in users;
    }
  }
}
