/** The posts app's views as pure functions over the store: the four feeds, the
    profile and post pages, and the writes behind posting, commenting and following.
    The request's user is a parameter; a missing post, group or user is `NotFound`. */
module Views {
  import opened Results
  import opened Models
  import Ordering
  import ModelRules
  import Text

  // ----- Listings -----

  /** The four post listings: every post, a group's, an author's, and the following feed of a reader. */
  datatype FeedKind = Everything | InGroup(group: Id) | ByAuthor(author: UserName) | FollowedBy(reader: UserName)

  function PubDate(s: Store, id: Id): nat
  {
    if id in s.posts then s.posts[id].pubDate else 0
  }

  function CommentDate(s: Store, id: Id): nat
  {
    if id in s.comments then s.comments[id].pubDate else 0
  }

  /** `posts` is ordered newest-first, the declared `ordering = ('-pub_date',)`. */
  ghost predicate PostsNewestFirst(s: Store, posts: seq<Id>)
  {
    Ordering.NewestFirst(posts, id => PubDate(s, id))
  }

  /** `comments` is ordered newest-first, the comments' declared ordering. */
  ghost predicate CommentsNewestFirst(s: Store, comments: seq<Id>)
  {
    Ordering.NewestFirst(comments, id => CommentDate(s, id))
  }

  /** Post `p` belongs to the listing. */
  predicate Matches(s: Store, k: FeedKind, p: Post)
  {
    match k
    case Everything => true
    case InGroup(g) => p.group == Some(g)
    case ByAuthor(u) => p.author == u
    case FollowedBy(u) => IsFollowing(s, u, p.author)
  }

  /** How many rows of the listing's query yield post `id`. The following feed joins
      posts to follow rows, so a post comes once for every follow row linking the
      reader to its author. */
  function QueryRows(s: Store, k: FeedKind, id: Id): nat
  {
    if id !in s.posts then 0
    else match k
      case FollowedBy(u) => |FollowRows(s, u, s.posts[id].author)|
      case _ => if Matches(s, k, s.posts[id]) then 1 else 0
  }

  /** The rows of the listing's query, newest-first. */
  function Feed(s: Store, k: FeedKind): (r: seq<Id>)
    ensures PostsNewestFirst(s, r)
    ensures forall x: nat :: multiset(r)[x] == if x < s.nextPost then QueryRows(s, k, x) else 0
  {
    Ordering.Select(s.nextPost, id => QueryRows(s, k, id), id => PubDate(s, id))
  }

  /** In a valid store a post is yielded by at most one row, and by one exactly when
      it matches; for the following feed this is the pair constraint. */
  lemma RowsOfPost(s: Store, k: FeedKind, x: Id)
    requires Valid(s)
    ensures QueryRows(s, k, x) <= 1
    ensures QueryRows(s, k, x) > 0 <==> x in s.posts && Matches(s, k, s.posts[x])
  {
    if x in s.posts && k.FollowedBy? {
      FollowRowsOfPair(s, k.reader, s.posts[x].author);
    }
  }

  /** In a valid store every listing holds exactly its matching posts, each once. The
      following feed owes the "once" to the pair constraint on follow rows. */
  lemma FeedContents(s: Store, k: FeedKind)
    requires Valid(s)
    ensures forall x :: x in Feed(s, k) <==> x in s.posts && Matches(s, k, s.posts[x])
    ensures Ordering.Distinct(Feed(s, k))
  {
    var r: seq<nat> := Feed(s, k);
    forall x: Id
      ensures multiset(r)[x] <= 1
      ensures multiset(r)[x] > 0 <==> x in s.posts && Matches(s, k, s.posts[x])
    {
      RowsOfPost(s, k, x);
      assert x in s.posts ==> x < s.nextPost;
    }
    Ordering.CountsDistinct(r);
  }

  function FeedOf(s: Store, k: FeedKind): (r: seq<Id>)
    requires Valid(s)
    ensures forall x :: x in r <==> x in s.posts && Matches(s, k, s.posts[x])
    ensures Ordering.Distinct(r)
    ensures PostsNewestFirst(s, r)
  {
    FeedContents(s, k);
    Feed(s, k)
  }

  /** `index`: every post, newest-first. */
  function Index(s: Store): (r: seq<Id>)
    requires Valid(s)
    ensures forall x :: x in r <==> x in s.posts
    ensures Ordering.Distinct(r)
    ensures PostsNewestFirst(s, r)
  {
    FeedOf(s, Everything)
  }

  datatype GroupPage = GroupPage(id: Id, group: Group, posts: seq<Id>)

  /** `group_posts`: the group with the slug and its posts, newest-first. */
  function GroupPosts(s: Store, slug: string): (r: Result<GroupPage>)
    requires Valid(s)
    ensures r.Failure? <==> !SlugTaken(s, slug)
    ensures r.Failure? ==> r.error == NotFound
    ensures r.Success? ==>
      r.value.id in s.groups && s.groups[r.value.id] == r.value.group && r.value.group.slug == slug
    ensures r.Success? ==> forall x :: x in r.value.posts <==> x in s.posts && s.posts[x].group == Some(r.value.id)
    ensures r.Success? ==> Ordering.Distinct(r.value.posts) && PostsNewestFirst(s, r.value.posts)
  {
    match GroupBySlug(s, slug)
    case None => Failure(NotFound)
    case Some(g) => Success(GroupPage(g, s.groups[g], FeedOf(s, InGroup(g))))
  }

  /** `following` is present exactly when the request is authenticated. */
  datatype ProfilePage = ProfilePage(author: UserName, posts: seq<Id>, following: Option<bool>)

  /** `profile`: the user's posts, newest-first, and whether the viewer follows them. */
  function Profile(s: Store, viewer: Option<UserName>, username: UserName): (r: Result<ProfilePage>)
    requires Valid(s)
    ensures r.Failure? <==> username !in s.users
    ensures r.Failure? ==> r.error == NotFound
    ensures r.Success? ==> r.value.author == username
    ensures r.Success? ==> forall x :: x in r.value.posts <==> x in s.posts && s.posts[x].author == username
    ensures r.Success? ==> Ordering.Distinct(r.value.posts) && PostsNewestFirst(s, r.value.posts)
    ensures r.Success? ==> (r.value.following.Some? <==> viewer.Some?)
    ensures r.Success? && viewer.Some? ==>
      (r.value.following.value <==> exists f :: f in s.follows && s.follows[f] == Follow(viewer.value, username))
  {
    if username !in s.users then Failure(NotFound)
    else
      var following := match viewer
        case None => None
        case Some(u) => Some(IsFollowing(s, u, username));
      Success(ProfilePage(username, FeedOf(s, ByAuthor(username)), following))
  }

  /** `follow_index`: the posts of the authors the reader follows, newest-first. */
  function FollowIndex(s: Store, reader: UserName): (r: seq<Id>)
    requires Valid(s)
    requires reader in s.users
    ensures forall x :: x in r <==> x in s.posts && IsFollowing(s, reader, s.posts[x].author)
    ensures Ordering.Distinct(r)
    ensures PostsNewestFirst(s, r)
  {
    var r := FeedOf(s, FollowedBy(reader));
    assert forall x :: x in r <==> x in s.posts && Matches(s, FollowedBy(reader), s.posts[x]);
    r
  }

  /** Comment `c` is on `post`: once in that post's listing, never in another's. */
  function CommentRows(s: Store, post: Id, c: Id): nat
  {
    if c in s.comments && s.comments[c].post == post then 1 else 0
  }

  /** The rows of `post.comments`, newest-first. */
  function CommentListing(s: Store, post: Id): (r: seq<Id>)
    ensures CommentsNewestFirst(s, r)
    ensures forall x: nat :: multiset(r)[x] == if x < s.nextComment then CommentRows(s, post, x) else 0
  {
    Ordering.Select(s.nextComment, c => CommentRows(s, post, c), c => CommentDate(s, c))
  }

  /** The comments on `post`, newest-first. */
  function CommentsOf(s: Store, post: Id): (r: seq<Id>)
    requires Valid(s)
    ensures forall c :: c in r <==> c in s.comments && s.comments[c].post == post
    ensures Ordering.Distinct(r)
    ensures CommentsNewestFirst(s, r)
  {
    CommentListingContents(s, post);
    CommentListing(s, post)
  }

  lemma CommentListingContents(s: Store, post: Id)
    requires KeysBelowCounters(s)
    ensures forall c :: c in CommentListing(s, post) <==> c in s.comments && s.comments[c].post == post
    ensures Ordering.Distinct(CommentListing(s, post))
  {
    var r: seq<nat> := CommentListing(s, post);
    forall x: Id
      ensures multiset(r)[x] <= 1
      ensures multiset(r)[x] > 0 <==> x in s.comments && s.comments[x].post == post
    {
    }
    Ordering.CountsDistinct(r);
  }

  /** The keys of the posts written by `author`. */
  function PostsBy(s: Store, author: UserName): set<Id>
  {
    set p | p in s.posts && s.posts[p].author == author
  }

  datatype DetailPage = DetailPage(post: Post, comments: seq<Id>, postsCount: nat)

  /** `post_detail`: the post, its comments newest-first, and how many posts its author has. */
  function PostDetail(s: Store, id: Id): (r: Result<DetailPage>)
    requires Valid(s)
    ensures r.Failure? <==> id !in s.posts
    ensures r.Failure? ==> r.error == NotFound
    ensures r.Success? ==> r.value.post == s.posts[id]
    ensures r.Success? ==> forall c :: c in r.value.comments <==> c in s.comments && s.comments[c].post == id
    ensures r.Success? ==> Ordering.Distinct(r.value.comments) && CommentsNewestFirst(s, r.value.comments)
    ensures r.Success? ==> r.value.postsCount == |Profile(s, None, s.posts[id].author).value.posts|
  {
    if id !in s.posts then Failure(NotFound)
    else
      var author := s.posts[id].author;
      var listed := Profile(s, None, author).value.posts;
      Ordering.DistinctLength(listed, PostsBy(s, author));
      Success(DetailPage(s.posts[id], CommentsOf(s, id), |PostsBy(s, author)|))
  }

  // ----- Writes -----

  /** A submitted post form: the raw text, the chosen group key, and the stored image
      path, empty for none. */
  datatype PostForm = PostForm(text: string, group: Option<Id>, image: string)

  /** A post form validates when its text, stripped as a form's text field strips it,
      is not empty, holds no NUL character, and its group is empty or exists. */
  predicate PostFormValid(s: Store, form: PostForm)
  {
    && Text.Strip(form.text) != []
    && '\0' !in form.text
    && (form.group.Some? ==> form.group.value in s.groups)
  }

  /** A submitted comment form: the raw text. */
  datatype CommentForm = CommentForm(text: string)

  /** A comment form validates when its stripped text is not empty and holds no NUL. */
  predicate CommentFormValid(form: CommentForm)
  {
    Text.Strip(form.text) != [] && '\0' !in form.text
  }

  /** `post_create` on a submitted form: a valid form becomes a new post by the request's
      user, stamped `now`; an invalid one is shown again and nothing is stored. */
  function PostCreate(s: Store, actor: UserName, form: PostForm, now: nat): (r: Store)
    requires Valid(s)
    requires actor in s.users
    ensures Valid(r)
    ensures !PostFormValid(s, form) ==> r == s
    ensures PostFormValid(s, form) ==>
      && r == s.(posts := r.posts, nextPost := s.nextPost + 1)
      && Inserted(s.posts, r.posts, s.nextPost, Post(Text.Strip(form.text), actor, form.group, form.image, now))
      && |r.posts| == |s.posts| + 1
  {
    if !PostFormValid(s, form) then s
    else
      var post := Post(Text.Strip(form.text), actor, form.group, form.image, now);
      var result := InsertPost(s, post);
      assert result.Success?;
      assert s.nextPost !in s.posts;
      ModelRules.InsertPostPreservesValid(s, post);
      ModelRules.InsertedAddsOne(s.posts, result.value.posts, s.nextPost, post);
      result.value
  }

  /** `post_edit` on a submitted form: only the post's author may change it, and only
      its text, group and image; anyone else is sent to the post and nothing changes. */
  function PostEdit(s: Store, actor: UserName, id: Id, form: PostForm): (r: Result<Store>)
    requires Valid(s)
    requires actor in s.users
    ensures r.Failure? <==> id !in s.posts
    ensures r.Failure? ==> r.error == NotFound
    ensures r.Success? ==> Valid(r.value)
    ensures id in s.posts && (actor != s.posts[id].author || !PostFormValid(s, form)) ==> r == Success(s)
    ensures id in s.posts && actor == s.posts[id].author && PostFormValid(s, form) ==>
      && r.Success?
      && r.value == s.(posts := r.value.posts)
      && r.value.posts.Keys == s.posts.Keys
      && (forall p :: p in s.posts && p != id ==> r.value.posts[p] == s.posts[p])
      && r.value.posts[id].text == Text.Strip(form.text)
      && r.value.posts[id].group == form.group
      && r.value.posts[id].image == form.image
      && r.value.posts[id].author == s.posts[id].author
      && r.value.posts[id].pubDate == s.posts[id].pubDate
  {
    if id !in s.posts then Failure(NotFound)
    else if actor != s.posts[id].author || !PostFormValid(s, form) then Success(s)
    else
      var edited := s.posts[id].(text := Text.Strip(form.text), group := form.group, image := form.image);
      ModelRules.EditPostPreservesValid(s, id, Text.Strip(form.text), form.group, form.image);
      Success(s.(posts := s.posts[id := edited]))
  }

  /** `add_comment`: a valid form becomes a comment by the request's user on the post;
      an invalid one stores nothing. */
  function AddComment(s: Store, actor: UserName, id: Id, form: CommentForm, now: nat): (r: Result<Store>)
    requires Valid(s)
    requires actor in s.users
    ensures r.Failure? <==> id !in s.posts
    ensures r.Failure? ==> r.error == NotFound
    ensures r.Success? ==> Valid(r.value)
    ensures id in s.posts && !CommentFormValid(form) ==> r == Success(s)
    ensures id in s.posts && CommentFormValid(form) ==>
      && r.Success?
      && r.value == s.(comments := r.value.comments, nextComment := s.nextComment + 1)
      && Inserted(s.comments, r.value.comments, s.nextComment, Comment(id, actor, Text.Strip(form.text), now))
      && |r.value.comments| == |s.comments| + 1
  {
    if id !in s.posts then Failure(NotFound)
    else if !CommentFormValid(form) then Success(s)
    else
      var comment := Comment(id, actor, Text.Strip(form.text), now);
      var result := InsertComment(s, comment);
      assert result.Success?;
      assert s.nextComment !in s.comments;
      ModelRules.InsertCommentPreservesValid(s, comment);
      ModelRules.InsertedAddsOne(s.comments, result.value.comments, s.nextComment, comment);
      result
  }

  /** The create half of get-or-create: the new row is the pair's only one. */
  function CreateFollow(s: Store, actor: UserName, username: UserName): (r: Result<Store>)
    requires Valid(s)
    requires actor in s.users && username in s.users
    requires actor != username && !IsFollowing(s, actor, username)
    ensures r.Success? && Valid(r.value)
    ensures r.value == s.(follows := r.value.follows, nextFollow := s.nextFollow + 1)
    ensures Inserted(s.follows, r.value.follows, s.nextFollow, Follow(actor, username))
    ensures FollowRows(r.value, actor, username) == {s.nextFollow}
  {
    var result := InsertFollow(s, Follow(actor, username));
    ModelRules.InsertFollowPreservesValid(s, Follow(actor, username));
    assert result.Success?;
    var t := result.value;
    assert FollowRows(t, actor, username) == {s.nextFollow} by {
      assert forall f :: f in s.follows ==> s.follows[f] != Follow(actor, username);
    }
    result
  }

  /** `profile_follow`: get-or-create of the edge from the request's user to the author;
      following oneself is ignored. */
  function ProfileFollow(s: Store, actor: UserName, username: UserName): (r: Result<Store>)
    requires Valid(s)
    requires actor in s.users
    ensures r.Failure? <==> username !in s.users
    ensures r.Failure? ==> r.error == NotFound
    ensures r.Success? ==> Valid(r.value)
    ensures r.Success? ==> r.value == s.(follows := r.value.follows, nextFollow := r.value.nextFollow)
    ensures username in s.users && (actor == username || IsFollowing(s, actor, username)) ==> r == Success(s)
    ensures username in s.users && actor != username ==> r.Success? && |FollowRows(r.value, actor, username)| == 1
    ensures r.Success? ==> forall f :: f in s.follows ==> f in r.value.follows && r.value.follows[f] == s.follows[f]
    ensures r.Success? ==> forall f :: f in r.value.follows && f !in s.follows ==> r.value.follows[f] == Follow(actor, username)
  {
    if username !in s.users then Failure(NotFound)
    else if actor == username || IsFollowing(s, actor, username) then
      FollowRowsOfPair(s, actor, username);
      Success(s)
    else
      CreateFollow(s, actor, username)
  }

  /** Dropping the rows of a followed pair is deleting its single row: the store stays
      valid, the pair is no longer followed, and one row fewer remains. */
  lemma DropPair(s: Store, actor: UserName, username: UserName)
    requires Valid(s)
    requires IsFollowing(s, actor, username)
    ensures var t := s.(follows := s.follows - FollowRows(s, actor, username));
      && Valid(t)
      && !IsFollowing(t, actor, username)
      && |t.follows| == |s.follows| - 1
  {
    var rows := FollowRows(s, actor, username);
    var t := s.(follows := s.follows - rows);
    FollowRowsOfPair(s, actor, username);
    var id :| id in rows;
    assert rows == {id};
    assert t == DeleteFollow(s, id);
    ModelRules.DeleteFollowPreservesValid(s, id);
    assert t.follows.Keys == s.follows.Keys - {id};
    assert |t.follows.Keys| == |s.follows.Keys| - 1;
  }

  /** `profile_unfollow`: deletes the edge from the request's user to the author when
      there is one, and otherwise does nothing. */
  function ProfileUnfollow(s: Store, actor: UserName, username: UserName): (r: Result<Store>)
    requires Valid(s)
    requires actor in s.users
    ensures r.Failure? <==> username !in s.users
    ensures r.Failure? ==> r.error == NotFound
    ensures r.Success? ==> Valid(r.value)
    ensures r.Success? ==> r.value == s.(follows := r.value.follows)
    ensures r.Success? ==> !IsFollowing(r.value, actor, username)
    ensures username in s.users && !IsFollowing(s, actor, username) ==> r == Success(s)
    ensures r.Success? ==> forall f :: f in r.value.follows ==> f in s.follows && r.value.follows[f] == s.follows[f]
    ensures r.Success? ==> forall f :: f in s.follows && s.follows[f] != Follow(actor, username) ==> f in r.value.follows
    ensures r.Success? && IsFollowing(s, actor, username) ==> |r.value.follows| == |s.follows| - 1
  {
    if username !in s.users then Failure(NotFound)
    else
      var rows := FollowRows(s, actor, username);
      FollowRowsExist(s, actor, username);
      if rows == {} then Success(s)
      else
        DropPair(s, actor, username);
        Success(s.(follows := s.follows - rows))
  }
}
