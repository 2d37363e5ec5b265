/** The posts app's data store: groups, posts, comments and follow edges over a set
    of users, with the constraints and deletion rules the model classes declare. */
module Models {
  import opened Results
  import Text

  /** Primary keys; every table allocates them from its own counter. */
  type Id = nat

  /** A user, identified by their username (unique across users). */
  type UserName = string

  /** Length of the display form of posts and comments. */
  const DisplayLength: nat := 15

  datatype Group = Group(title: string, slug: string, description: string)

  /** `image` is the stored path of the attachment, empty when there is none;
      `pubDate` is the creation timestamp. */
  datatype Post = Post(text: string, author: UserName, group: Option<Id>, image: string, pubDate: nat)

  datatype Comment = Comment(post: Id, author: UserName, text: string, pubDate: nat)

  /** `user` receives the posts of `author` in their following feed. */
  datatype Follow = Follow(user: UserName, author: UserName)

  datatype Store = Store(
    users: set<UserName>,
    groups: map<Id, Group>,
    posts: map<Id, Post>,
    comments: map<Id, Comment>,
    follows: map<Id, Follow>,
    nextGroup: Id,
    nextPost: Id,
    nextComment: Id,
    nextFollow: Id)

  // ----- Integrity rules -----

  /** `Group.slug` is declared unique. */
  ghost predicate SlugsUnique(groups: map<Id, Group>)
  {
    forall g, h :: g in groups && h in groups && groups[g].slug == groups[h].slug ==> g == h
  }

  /** The `user_author_unique` constraint: one row per (user, author) pair. */
  ghost predicate PairsUnique(follows: map<Id, Follow>)
  {
    forall f, h :: f in follows && h in follows && follows[f] == follows[h] ==> f == h
  }

  /** The `user_author_different` check constraint. */
  ghost predicate NoSelfFollow(follows: map<Id, Follow>)
  {
    forall f :: f in follows ==> follows[f].user != follows[f].author
  }

  /** Every foreign key points at an existing row; only a post's group may be null. */
  ghost predicate ReferencesExist(s: Store)
  {
    && (forall p :: p in s.posts ==>
          s.posts[p].author in s.users && (s.posts[p].group.Some? ==> s.posts[p].group.value in s.groups))
    && (forall c :: c in s.comments ==> s.comments[c].post in s.posts && s.comments[c].author in s.users)
    && (forall f :: f in s.follows ==> s.follows[f].user in s.users && s.follows[f].author in s.users)
  }

  /** Every key lies below its table's counter, so the counter is a fresh key. */
  ghost predicate KeysBelowCounters(s: Store)
  {
    && (forall g :: g in s.groups ==> g < s.nextGroup)
    && (forall p :: p in s.posts ==> p < s.nextPost)
    && (forall c :: c in s.comments ==> c < s.nextComment)
    && (forall f :: f in s.follows ==> f < s.nextFollow)
  }

  /** The states the database admits. */
  ghost predicate Valid(s: Store)
  {
    && SlugsUnique(s.groups)
    && PairsUnique(s.follows)
    && NoSelfFollow(s.follows)
    && ReferencesExist(s)
    && KeysBelowCounters(s)
  }

  /** `after` is `before` with one more row `v` under key `id`, every other row untouched. */
  ghost predicate Inserted<V>(before: map<Id, V>, after: map<Id, V>, id: Id, v: V)
  {
    && after.Keys == before.Keys + {id}
    && after[id] == v
    && forall k :: k in before && k != id ==> after[k] == before[k]
  }

  /** A store with the given users and nothing else. */
  function Initial(users: set<UserName>): (s: Store)
    ensures Valid(s)
    ensures s.users == users && s.groups == map[] && s.posts == map[] && s.comments == map[] && s.follows == map[]
  {
    Store(users, map[], map[], map[], map[], 0, 0, 0, 0)
  }

  // ----- Lookups -----

  /** Keys of the follow rows for the pair (user, author). */
  function FollowRows(s: Store, user: UserName, author: UserName): set<Id>
  {
    set f | f in s.follows && s.follows[f] == Follow(user, author)
  }

  /** `Follow.objects.filter(user=user, author=author).exists()`. */
  predicate IsFollowing(s: Store, user: UserName, author: UserName)
  {
    exists f :: f in s.follows && s.follows[f] == Follow(user, author)
  }

  /** A pair is followed exactly when it has a row. */
  lemma FollowRowsExist(s: Store, user: UserName, author: UserName)
    ensures IsFollowing(s, user, author) <==> FollowRows(s, user, author) != {}
  {
    if IsFollowing(s, user, author) {
      var f :| f in s.follows && s.follows[f] == Follow(user, author);
      assert f in FollowRows(s, user, author);
    }
  }

  /** The pair constraint leaves at most one row per pair; there is one exactly when the pair is followed. */
  lemma FollowRowsOfPair(s: Store, user: UserName, author: UserName)
    requires PairsUnique(s.follows)
    ensures |FollowRows(s, user, author)| <= 1
    ensures |FollowRows(s, user, author)| == 1 <==> IsFollowing(s, user, author)
  {
    var rows := FollowRows(s, user, author);
    if f :| f in rows {
      assert rows == {f};
    } else {
      assert forall f :: f in s.follows && s.follows[f] == Follow(user, author) ==> f in rows;
    }
  }

  predicate SlugTaken(s: Store, slug: string)
  {
    exists g :: g in s.groups && s.groups[g].slug == slug
  }

  /** Searches the group keys below `n` for one with the given slug. */
  function GroupBySlugBelow(s: Store, slug: string, n: nat): (r: Option<Id>)
    ensures r.Some? ==> r.value < n && r.value in s.groups && s.groups[r.value].slug == slug
    ensures r.None? ==> forall g :: g in s.groups && g < n ==> s.groups[g].slug != slug
  {
    if n == 0 then None
    else if n - 1 in s.groups && s.groups[n - 1].slug == slug then Some(n - 1)
    else GroupBySlugBelow(s, slug, n - 1)
  }

  /** `Group.objects.get(slug=slug)`: the one group with that slug, if any. */
  function GroupBySlug(s: Store, slug: string): (r: Option<Id>)
    requires Valid(s)
    ensures r.None? <==> !SlugTaken(s, slug)
    ensures r.Some? ==> forall g :: g in s.groups && s.groups[g].slug == slug <==> g == r.value
  {
    GroupBySlugBelow(s, slug, s.nextGroup)
  }

  // ----- Inserts (`objects.create` / `save` of a new row) -----

  /** Adds a group; a slug already in use violates the unique constraint. */
  function InsertGroup(s: Store, g: Group): (r: Result<Store>)
    ensures r.Failure? <==> SlugTaken(s, g.slug)
    ensures r.Failure? ==> r.error == IntegrityError
    ensures r.Success? ==> r.value == s.(groups := r.value.groups, nextGroup := s.nextGroup + 1)
    ensures r.Success? ==> Inserted(s.groups, r.value.groups, s.nextGroup, g)
  {
    if SlugTaken(s, g.slug) then Failure(IntegrityError)
    else Success(s.(groups := s.groups[s.nextGroup := g], nextGroup := s.nextGroup + 1))
  }

  /** Adds a post; its author must exist and its group must be null or exist. */
  function InsertPost(s: Store, p: Post): (r: Result<Store>)
    ensures r.Failure? <==> p.author !in s.users || (p.group.Some? && p.group.value !in s.groups)
    ensures r.Failure? ==> r.error == IntegrityError
    ensures r.Success? ==> r.value == s.(posts := r.value.posts, nextPost := s.nextPost + 1)
    ensures r.Success? ==> Inserted(s.posts, r.value.posts, s.nextPost, p)
  {
    if p.author !in s.users || (p.group.Some? && p.group.value !in s.groups) then Failure(IntegrityError)
    else Success(s.(posts := s.posts[s.nextPost := p], nextPost := s.nextPost + 1))
  }

  /** Adds a comment; its post and its author must exist. */
  function InsertComment(s: Store, c: Comment): (r: Result<Store>)
    ensures r.Failure? <==> c.post !in s.posts || c.author !in s.users
    ensures r.Failure? ==> r.error == IntegrityError
    ensures r.Success? ==> r.value == s.(comments := r.value.comments, nextComment := s.nextComment + 1)
    ensures r.Success? ==> Inserted(s.comments, r.value.comments, s.nextComment, c)
  {
    if c.post !in s.posts || c.author !in s.users then Failure(IntegrityError)
    else Success(s.(comments := s.comments[s.nextComment := c], nextComment := s.nextComment + 1))
  }

  /** Adds a follow edge; a self-follow, a second row for the pair or a missing user
      violates a constraint. */
  function InsertFollow(s: Store, f: Follow): (r: Result<Store>)
    ensures r.Failure? <==>
      f.user == f.author || IsFollowing(s, f.user, f.author) || f.user !in s.users || f.author !in s.users
    ensures r.Failure? ==> r.error == IntegrityError
    ensures r.Success? ==> r.value == s.(follows := r.value.follows, nextFollow := s.nextFollow + 1)
    ensures r.Success? ==> Inserted(s.follows, r.value.follows, s.nextFollow, f)
  {
    if f.user == f.author || IsFollowing(s, f.user, f.author) || f.user !in s.users || f.author !in s.users then
      Failure(IntegrityError)
    else
      Success(s.(follows := s.follows[s.nextFollow := f], nextFollow := s.nextFollow + 1))
  }

  // ----- Deletes, with the `on_delete` rules -----

  /** Removes one follow row. */
  function DeleteFollow(s: Store, id: Id): (r: Store)
    ensures r == s.(follows := r.follows)
    ensures r.follows.Keys == s.follows.Keys - {id}
    ensures forall f :: f in r.follows ==> r.follows[f] == s.follows[f]
  {
    s.(follows := s.follows - {id})
  }

  /** Removes a group; the posts that referred to it stay, with their group set to null. */
  function DeleteGroup(s: Store, g: Id): (r: Store)
    ensures r == s.(groups := r.groups, posts := r.posts)
    ensures r.groups.Keys == s.groups.Keys - {g}
    ensures forall h :: h in r.groups ==> r.groups[h] == s.groups[h]
    ensures r.posts.Keys == s.posts.Keys
    ensures forall p :: p in s.posts && s.posts[p].group == Some(g) ==> r.posts[p].group == None
    ensures forall p :: p in s.posts && s.posts[p].group != Some(g) ==> r.posts[p] == s.posts[p]
    ensures forall p :: p in s.posts ==> r.posts[p] == s.posts[p].(group := r.posts[p].group)
  {
    var posts := map p | p in s.posts ::
      if s.posts[p].group == Some(g) then s.posts[p].(group := None) else s.posts[p];
    s.(groups := s.groups - {g}, posts := posts)
  }

  /** Removes a post together with every comment on it. */
  function DeletePost(s: Store, id: Id): (r: Store)
    ensures r == s.(posts := r.posts, comments := r.comments)
    ensures r.posts.Keys == s.posts.Keys - {id}
    ensures forall p :: p in r.posts ==> r.posts[p] == s.posts[p]
    ensures forall c :: c in r.comments <==> c in s.comments && s.comments[c].post != id
    ensures forall c :: c in r.comments ==> r.comments[c] == s.comments[c]
  {
    var comments := map c | c in s.comments && s.comments[c].post != id :: s.comments[c];
    s.(posts := s.posts - {id}, comments := comments)
  }

  /** Comment `c` hangs off a post written by `u`. */
  predicate OnPostBy(s: Store, c: Comment, u: UserName)
  {
    c.post in s.posts && s.posts[c.post].author == u
  }

  /** Removes a user with everything that cascades from it: their posts (and every
      comment on those posts), their comments, and the follow rows on either end. */
  function DeleteUser(s: Store, u: UserName): (r: Store)
    ensures r == s.(users := s.users - {u}, posts := r.posts, comments := r.comments, follows := r.follows)
    ensures forall p :: p in r.posts <==> p in s.posts && s.posts[p].author != u
    ensures forall p :: p in r.posts ==> r.posts[p] == s.posts[p]
    ensures forall c :: c in r.comments <==>
      c in s.comments && s.comments[c].author != u && !OnPostBy(s, s.comments[c], u)
    ensures forall c :: c in r.comments ==> r.comments[c] == s.comments[c]
    ensures forall f :: f in r.follows <==>
      f in s.follows && s.follows[f].user != u && s.follows[f].author != u
    ensures forall f :: f in r.follows ==> r.follows[f] == s.follows[f]
  {
    var posts := map p | p in s.posts && s.posts[p].author != u :: s.posts[p];
    var comments := map c | c in s.comments && s.comments[c].author != u && !OnPostBy(s, s.comments[c], u)
      :: s.comments[c];
    var follows := map f | f in s.follows && s.follows[f].user != u && s.follows[f].author != u :: s.follows[f];
    s.(users := s.users - {u}, posts := posts, comments := comments, follows := follows)
  }

  // ----- Display forms (`__str__`) -----

  /** A post displays as the first 15 characters of its text. */
  function PostStr(p: Post): (r: string)
    ensures |p.text| <= DisplayLength ==> r == p.text
    ensures |p.text| > DisplayLength ==> r == p.text[..DisplayLength]
  {
    Text.Truncate(p.text, DisplayLength)
  }

  /** A comment displays as the first 15 characters of its text. */
  function CommentStr(c: Comment): (r: string)
    ensures |c.text| <= DisplayLength ==> r == c.text
    ensures |c.text| > DisplayLength ==> r == c.text[..DisplayLength]
  {
    Text.Truncate(c.text, DisplayLength)
  }

  /** A group displays as its title. */
  function GroupStr(g: Group): string
  {
    g.title
  }

  /** A follow edge displays as `relation: <user> - <author>`; for a follower username
      without spaces the pair can be read back from it. */
  function FollowStr(f: Follow): (r: string)
    ensures Text.RelationPrefix <= r
    ensures Text.NoSpace(f.user) ==> Text.ParseRelation(r) == Some((f.user, f.author))
  {
    Text.RelationReadsBack(f.user, f.author);
    Text.Relation(f.user, f.author)
  }
}
