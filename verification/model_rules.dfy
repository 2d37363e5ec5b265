/** Every write the store performs keeps the database's constraints. */
module ModelRules {
  import opened Results
  import opened Models

  /** Inserting under a fresh key adds exactly one row. */
  lemma InsertedAddsOne<V>(before: map<Id, V>, after: map<Id, V>, id: Id, v: V)
    requires id !in before
    requires Inserted(before, after, id, v)
    ensures |after| == |before| + 1
  {
    assert after.Keys == before.Keys + {id};
    assert |after.Keys| == |before.Keys| + 1;
  }

  lemma InsertGroupPreservesValid(s: Store, g: Group)
    requires Valid(s)
    ensures InsertGroup(s, g).Success? ==> Valid(InsertGroup(s, g).value)
  {
  }

  lemma InsertPostPreservesValid(s: Store, p: Post)
    requires Valid(s)
    ensures InsertPost(s, p).Success? ==> Valid(InsertPost(s, p).value)
  {
  }

  lemma InsertCommentPreservesValid(s: Store, c: Comment)
    requires Valid(s)
    ensures InsertComment(s, c).Success? ==> Valid(InsertComment(s, c).value)
  {
  }

  lemma InsertFollowPreservesValid(s: Store, f: Follow)
    requires Valid(s)
    ensures InsertFollow(s, f).Success? ==> Valid(InsertFollow(s, f).value)
  {
  }

  /** Changing a post's text, group and image in place keeps every constraint when the
      new group is null or exists. */
  lemma EditPostPreservesValid(s: Store, id: Id, text: string, group: Option<Id>, image: string)
    requires Valid(s)
    requires id in s.posts
    requires group.Some? ==> group.value in s.groups
    ensures Valid(s.(posts := s.posts[id := s.posts[id].(text := text, group := group, image := image)]))
  {
  }

  lemma DeleteFollowPreservesValid(s: Store, id: Id)
    requires Valid(s)
    ensures Valid(DeleteFollow(s, id))
  {
  }

  lemma DeleteGroupPreservesValid(s: Store, g: Id)
    requires Valid(s)
    ensures Valid(DeleteGroup(s, g))
  {
  }

  lemma DeletePostPreservesValid(s: Store, id: Id)
    requires Valid(s)
    ensures Valid(DeletePost(s, id))
  {
  }

  lemma DeleteUserPreservesValid(s: Store, u: UserName)
    requires Valid(s)
    ensures Valid(DeleteUser(s, u))
  {
  }
}
