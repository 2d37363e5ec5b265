/** Follow and unfollow as a two-state machine per (user, author) pair: repeating a
    transition changes nothing, a transition touches only its own pair, and the
    following feed moves with it. */
module FollowMachine {
  import opened Results
  import opened Models
  import opened Views

  /** The follow edges of a store, forgetting their row keys. */
  function Pairs(s: Store): set<Follow>
  {
    s.follows.Values
  }

  /** Following the same author again is the get of get-or-create: nothing changes. */
  lemma {:induction false} FollowIdempotent(s: Store, actor: UserName, username: UserName)
    requires Valid(s)
    requires actor in s.users
    requires ProfileFollow(s, actor, username).Success?
    ensures ProfileFollow(ProfileFollow(s, actor, username).value, actor, username)
         == ProfileFollow(s, actor, username)
  {
    var t := ProfileFollow(s, actor, username).value;
    if actor != username {
      FollowRowsExist(t, actor, username);
    }
  }

  /** Unfollowing an author no longer followed changes nothing. */
  lemma {:induction false} UnfollowIdempotent(s: Store, actor: UserName, username: UserName)
    requires Valid(s)
    requires actor in s.users
    requires ProfileUnfollow(s, actor, username).Success?
    ensures ProfileUnfollow(ProfileUnfollow(s, actor, username).value, actor, username)
         == ProfileUnfollow(s, actor, username)
  {
  }

  /** Following changes the state of no other pair. */
  lemma {:induction false} FollowKeepsOtherPairs(s: Store, actor: UserName, username: UserName, u: UserName, a: UserName)
    requires Valid(s)
    requires actor in s.users
    requires ProfileFollow(s, actor, username).Success?
    requires u != actor || a != username
    ensures IsFollowing(ProfileFollow(s, actor, username).value, u, a) <==> IsFollowing(s, u, a)
  {
    var t := ProfileFollow(s, actor, username).value;
    if IsFollowing(t, u, a) {
      var f :| f in t.follows && t.follows[f] == Follow(u, a);
      assert f in s.follows;
    }
  }

  /** Unfollowing changes the state of no other pair. */
  lemma {:induction false} UnfollowKeepsOtherPairs(s: Store, actor: UserName, username: UserName, u: UserName, a: UserName)
    requires Valid(s)
    requires actor in s.users
    requires ProfileUnfollow(s, actor, username).Success?
    requires u != actor || a != username
    ensures IsFollowing(ProfileUnfollow(s, actor, username).value, u, a) <==> IsFollowing(s, u, a)
  {
    var t := ProfileUnfollow(s, actor, username).value;
    if IsFollowing(s, u, a) {
      var f :| f in s.follows && s.follows[f] == Follow(u, a);
      assert f in t.follows;
    }
  }

  /** `s` with the edge `pair` stored under the next follow key. */
  function WithFollow(s: Store, pair: Follow): Store
  {
    s.(follows := s.follows[s.nextFollow := pair], nextFollow := s.nextFollow + 1)
  }

  /** Following a new author appends one row under the next key. */
  lemma FollowAppends(s: Store, actor: UserName, username: UserName)
    requires Valid(s)
    requires actor in s.users && username in s.users && actor != username
    requires !IsFollowing(s, actor, username)
    ensures ProfileFollow(s, actor, username) == Success(WithFollow(s, Follow(actor, username)))
  {
    var t := CreateFollow(s, actor, username).value;
    assert t.follows == s.follows[s.nextFollow := Follow(actor, username)];
  }

  /** The appended row is the pair's only one, and removing it leaves the old rows. */
  lemma RemoveAppended(s: Store, pair: Follow)
    requires KeysBelowCounters(s)
    requires !IsFollowing(s, pair.user, pair.author)
    ensures FollowRows(WithFollow(s, pair), pair.user, pair.author) == {s.nextFollow}
    ensures WithFollow(s, pair).(follows := WithFollow(s, pair).follows - {s.nextFollow}) == s.(nextFollow := s.nextFollow + 1)
  {
    var t := WithFollow(s, pair);
    assert forall f :: f in s.follows ==> s.follows[f] != pair;
    assert t.follows - {s.nextFollow} == s.follows;
  }

  /** Unfollowing a followed author drops that pair's rows. */
  lemma UnfollowDrops(s: Store, actor: UserName, username: UserName)
    requires Valid(s)
    requires actor in s.users && username in s.users
    requires IsFollowing(s, actor, username)
    ensures ProfileUnfollow(s, actor, username) == Success(s.(follows := s.follows - FollowRows(s, actor, username)))
  {
    FollowRowsExist(s, actor, username);
  }

  /** Following a new author and unfollowing them again restores every row; only the
      key counter has moved on. */
  lemma {:induction false} FollowThenUnfollow(s: Store, actor: UserName, username: UserName)
    requires Valid(s)
    requires actor in s.users && username in s.users && actor != username
    requires !IsFollowing(s, actor, username)
    ensures ProfileUnfollow(ProfileFollow(s, actor, username).value, actor, username)
         == Success(s.(nextFollow := s.nextFollow + 1))
  {
    var pair := Follow(actor, username);
    FollowAppends(s, actor, username);
    RemoveAppended(s, pair);
    var t := WithFollow(s, pair);
    FollowRowsExist(t, actor, username);
    UnfollowDrops(t, actor, username);
  }

  /** Storing `v` under a fresh key adds `v` to the edges and nothing else. */
  lemma ValuesWithKey(m: map<Id, Follow>, k: Id, v: Follow)
    requires k !in m
    ensures m[k := v].Values == m.Values + {v}
  {
    forall p | p in m.Values ensures p in m[k := v].Values {
      var f :| f in m && m[f] == p;
      assert m[k := v][f] == p;
    }
    assert m[k := v][k] == v;
  }

  /** Removing key `k` takes `m[k]` out of the edges when no other key holds it. */
  lemma ValuesWithoutKey(m: map<Id, Follow>, k: Id)
    requires k in m
    ensures m.Values == (m - {k}).Values + {m[k]}
  {
    forall p | p in m.Values ensures p in (m - {k}).Values + {m[k]} {
      var f :| f in m && m[f] == p;
      if f != k {
        assert (m - {k})[f] == p;
      }
    }
  }

  /** Unfollowing a followed author and following them again leaves the same pairs. */
  lemma {:induction false} UnfollowThenFollow(s: Store, actor: UserName, username: UserName)
    requires Valid(s)
    requires actor in s.users && username in s.users
    requires IsFollowing(s, actor, username)
    ensures Pairs(ProfileFollow(ProfileUnfollow(s, actor, username).value, actor, username).value) == Pairs(s)
  {
    var pair := Follow(actor, username);
    var rows := FollowRows(s, actor, username);
    UnfollowDrops(s, actor, username);
    var t := s.(follows := s.follows - rows);
    assert t == ProfileUnfollow(s, actor, username).value;
    FollowRowsOfPair(s, actor, username);
    var id :| id in rows;
    assert rows == {id};
    ValuesWithoutKey(s.follows, id);
    assert actor != username;
    FollowAppends(t, actor, username);
    assert s.nextFollow !in t.follows;
    ValuesWithKey(t.follows, t.nextFollow, pair);
  }

  /** After following, the reader's feed gains exactly the author's posts. */
  lemma FollowGrowsFeed(s: Store, actor: UserName, username: UserName)
    requires Valid(s)
    requires actor in s.users && username in s.users
    ensures forall x :: x in FollowIndex(ProfileFollow(s, actor, username).value, actor) <==>
      x in FollowIndex(s, actor) || (x in s.posts && s.posts[x].author == username && username != actor)
  {
    var t := ProfileFollow(s, actor, username).value;
    forall x ensures x in FollowIndex(t, actor) <==>
      x in FollowIndex(s, actor) || (x in s.posts && s.posts[x].author == username && username != actor)
    {
      if x in s.posts {
        var a := s.posts[x].author;
        if a != username {
          FollowKeepsOtherPairs(s, actor, username, actor, a);
        } else if username != actor {
          FollowRowsExist(t, actor, username);
        }
      }
    }
  }

  /** After unfollowing, the reader's feed loses exactly the author's posts. */
  lemma UnfollowShrinksFeed(s: Store, actor: UserName, username: UserName)
    requires Valid(s)
    requires actor in s.users && username in s.users
    ensures forall x :: x in FollowIndex(ProfileUnfollow(s, actor, username).value, actor) <==>
      x in FollowIndex(s, actor) && s.posts[x].author != username
  {
    var t := ProfileUnfollow(s, actor, username).value;
    forall x ensures x in FollowIndex(t, actor) <==> x in FollowIndex(s, actor) && s.posts[x].author != username
    {
      if x in s.posts && s.posts[x].author != username {
        UnfollowKeepsOtherPairs(s, actor, username, actor, s.posts[x].author);
      }
    }
  }

  /** Without the pair constraint the following feed's join would list a post once per
      duplicate row: two rows for one pair put the author's post in the feed twice. */
  lemma DuplicateRowsRepeatPosts()
    ensures var s := Store({"reader", "author"}, map[],
                           map[0 := Post("text", "author", None, "", 1)], map[],
                           map[0 := Follow("reader", "author"), 1 := Follow("reader", "author")],
                           0, 1, 0, 2);
            !PairsUnique(s.follows) && multiset(Feed(s, FollowedBy("reader")))[0] == 2
  {
    var s := Store({"reader", "author"}, map[],
                   map[0 := Post("text", "author", None, "", 1)], map[],
                   map[0 := Follow("reader", "author"), 1 := Follow("reader", "author")],
                   0, 1, 0, 2);
    assert FollowRows(s, "reader", "author") == {0, 1};
    assert QueryRows(s, FollowedBy("reader"), 0) == 2;
    assert s.follows[0] == s.follows[1];
  }
}
