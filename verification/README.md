# Yatube posts: a verified model of the data store and its views

Yatube is a small blogging site. Users write text posts, optionally filed under a
topic group and carrying an image; they comment on posts; and they follow other
authors so that those authors' posts show up in a personal feed. This project models
the posts app's core in Dafny:

* the **store** (`models.dfy`, module `Models`): users, groups, posts, comments and
  follow rows held as maps from primary key to row, each table with its own key
  counter. The database's rules become the `Valid` invariant: group slugs are unique,
  a (user, author) follow pair has at most one row, nobody follows themselves, every
  foreign key resolves, and every key lies below its counter. Inserts enforce the
  constraints and report an `IntegrityError`. Deletes apply the `on_delete` rules:
  deleting a group sets its posts' group to null, deleting a post deletes its
  comments, and deleting a user deletes their posts (with the comments on them),
  their comments and their follow rows on either end. The display forms (`__str__`)
  are here too: a post or comment shows its first 15 characters, a group its title (`GroupStr`, a plain definition), and a follow edge `relation: <user> - <author>`.
* the **views** (`views.dfy`, module `Views`) as pure functions over the store:
  * the four listings: every post, a group's, an author's, and a reader's following feed;
  * the profile and post-detail pages;
  * the writes behind creating and editing a post, adding a comment, and following or
    unfollowing an author.
  A missing post, group or user is `Failure(NotFound)`. A redirect that changes
  nothing is `Success(s)` with the store unchanged. A listing here is a view's whole
  `post_list`. The page the view renders as `page_obj` is `Paging.Page(listing, N, p)`
  of it, where N is the page size and p the requested page.
* the **follow state machine** (`follow_machine.dfy`, module `FollowMachine`):
  following and unfollowing can be repeated without effect. Each touches only its own
  pair. Following and then unfollowing restores the rows. The following feed gains or
  loses exactly the author's posts.
* the **listing order** (`ordering.dfy`): a post listing is the query's result rows
  sorted newest-first by publication date. The following feed is a join of posts
  with follow rows, so a post appears once per follow row linking the reader to its
  author. The pair constraint is what keeps every post to one appearance:
  `FollowMachine.DuplicateRowsRepeatPosts` shows a post listed twice when the
  constraint is dropped.
* the **paginator arithmetic** (`paging.dfy`): the page count, what each page holds,
  and the fact that the pages together give back the whole listing in order.
* the **text handling** (`text.dfy`): truncation to 15 characters, the
  `relation: <user> - <author>` form of a follow edge with its parser, and the
  whitespace stripping a form's text field applies before validating and saving.

A user is identified by their username, which is unique. Timestamps are natural
numbers passed in as `now`. A submitted form is its raw text together with the cleaned group key and image path. The request's user
is the `actor` parameter. Views behind a login require `actor in s.users`. Every view
requires `Valid(s)`, because the database only ever shows the views a state that
meets its constraints.

Two behaviours of the views worth stating:
* `profile_follow` for oneself does nothing and reports success. Only the store-level
  insert (`Models.InsertFollow`) rejects a self-follow.
* `profile_unfollow` for an absent edge is a silent no-op.

## Model

| member | source | states |
|---|---|---|
| `Text.Truncate` | yatube/posts/models.py:65-66 | the result is a prefix of the text, of length min(15, \|text\|) for n = 15: Python's `text[:15]` |
| `Text.Strip` | yatube/posts/views.py:84-88 | the text a form field cleans and saves: empty exactly when the input is all whitespace in Python's sense, otherwise starting and ending with a non-space, and cut from the input with only whitespace removed on either side |
| `Text.StripIdempotent` | yatube/posts/views.py:105-116 | stripping cleaned text again changes nothing: resubmitting text a form has already cleaned stores it unchanged |
| `Text.FirstSpace` | yatube/posts/models.py:128-132 | the index of the first space, or the length when there is none; used to split a relation string |
| `Text.ParseRelation` | yatube/posts/models.py:128-132 | any pair it reads back prints to the very string parsed, with a space-free follower name |
| `Text.SplitRejoins` | yatube/posts/models.py:128-132 | cutting after the prefix at the first space gives a space-free user and an author that print back to the string |
| `Text.ParseRelationInverts` | yatube/posts/models.py:128-132 | parsing `relation: u - a` gives back (u, a) whenever username u has no space |
| `Ordering.Gather` | yatube/posts/views.py:135-137 | each id below n occurs exactly weight(id) times: the rows a query yields, with join multiplicity |
| `Ordering.Insert` | yatube/posts/models.py:60-61 | inserting into a newest-first listing keeps it newest-first and adds exactly one occurrence of the id |
| `Ordering.Sort` | yatube/posts/models.py:60-61 | the result is newest-first by the key and is a permutation of the input |
| `Ordering.Select` | yatube/posts/models.py:91-92 | a listing is newest-first and holds each id exactly as many times as the query yields it |
| `Ordering.CountsDistinct` | yatube/posts/views.py:135-137 | a listing in which every id occurs at most once has no duplicates |
| `Ordering.DistinctLength` | yatube/posts/views.py:64 | a duplicate-free listing of a set has as many entries as the set has elements |
| `Paging.NumPages` | yatube/posts/views.py:16-18 | the page count is the ceiling of count / perPage, and 1 for an empty listing |
| `Paging.Page` | yatube/posts/tests/test_views.py:255-264 | page p holds min(N, T - N*(p-1)) items: the items from index N*(p-1) on, contiguous and in order |
| `Paging.PageBounds` | yatube/posts/views.py:16-18 | each page starts within the listing; the next page starts one page size later and still inside it, or this is the last page and reaches the end |
| `Paging.PagesFromSuffix` | yatube/posts/views.py:16-18 | pages p through the last, concatenated, are the listing from page p's first index on |
| `Paging.PagesCoverListing` | yatube/posts/views.py:16-18 | walking all pages gives back the whole listing: nothing lost, repeated or reordered |
| `Paging.ItemOnPage` | yatube/posts/views.py:16-18 | item k is on page k / N + 1, at position k % N, and that page exists |
| `Paging.TwentyThreeItemsExample` | yatube/posts/tests/test_views.py:241-264 | 23 posts at 10 per page give 3 pages holding 10, 10 and 3 posts |
| `Models.Initial` | yatube/posts/models.py:10-125 | an empty store over any set of users meets every constraint |
| `Models.FollowRowsExist` | yatube/posts/views.py:161 | a pair is followed exactly when it has a follow row |
| `Models.FollowRowsOfPair` | yatube/posts/models.py:117-121 | under the unique-pair constraint a pair has at most one row, and one exactly when it is followed |
| `Models.GroupBySlugBelow` | yatube/posts/views.py:27 | the search finds a group with the slug among keys below n, or shows there is none there |
| `Models.GroupBySlug` | yatube/posts/models.py:15-19 | the lookup fails exactly when no group has the slug; otherwise it names the only such group |
| `Models.InsertGroup` | yatube/posts/models.py:15-19 | a group is added under a fresh key unless its slug is taken, which is an IntegrityError |
| `Models.InsertPost` | yatube/posts/models.py:37-53 | a post is added unless its author is missing or its group is set but missing; nothing else changes |
| `Models.InsertComment` | yatube/posts/models.py:73-86 | a comment is added unless its post or author is missing; nothing else changes |
| `Models.InsertFollow` | yatube/posts/models.py:116-125 | a follow row is added unless it is a self-follow, duplicates a pair or names a missing user; each is an IntegrityError |
| `Models.DeleteFollow` | yatube/posts/views.py:162-163 | exactly that row goes; every other row and table is untouched |
| `Models.DeleteGroup` | yatube/posts/models.py:44-53 | the group goes, every post stays, those that pointed at it now have a null group, and no other field changes |
| `Models.DeletePost` | yatube/posts/models.py:73-79 | the post goes with exactly the comments on it; every other comment is untouched |
| `Models.DeleteUser` | yatube/posts/models.py:37-114 | the user goes with their posts, every comment on those posts, their own comments, and every follow row where they are user or author; all else stays |
| `Models.PostStr` | yatube/posts/models.py:65-66 | a post displays as its text when at most 15 characters long, else its first 15 characters |
| `Models.CommentStr` | yatube/posts/models.py:96-97 | a comment displays as its text when at most 15 characters long, else its first 15 characters |
| `Models.FollowStr` | yatube/posts/models.py:128-132 | a follow edge displays with the `relation: ` prefix; when the follower's username has no space, as Django's username validator ensures, the (user, author) pair can be read back from it |
| `ModelRules.InsertedAddsOne` | yatube/posts/tests/test_forms.py:70 | inserting under a fresh key grows the table by exactly one row |
| `ModelRules.InsertGroupPreservesValid` | yatube/posts/models.py:15-19 | adding a group keeps every constraint |
| `ModelRules.InsertPostPreservesValid` | yatube/posts/models.py:37-53 | adding a post keeps every constraint |
| `ModelRules.InsertCommentPreservesValid` | yatube/posts/models.py:73-86 | adding a comment keeps every constraint |
| `ModelRules.InsertFollowPreservesValid` | yatube/posts/models.py:116-125 | adding a follow row keeps every constraint, pair uniqueness and no self-follow included |
| `ModelRules.EditPostPreservesValid` | yatube/posts/views.py:105-116 | changing a post's text, group and image in place keeps every constraint when the new group is null or exists |
| `ModelRules.DeleteFollowPreservesValid` | yatube/posts/views.py:162-163 | deleting a follow row keeps every constraint |
| `ModelRules.DeleteGroupPreservesValid` | yatube/posts/models.py:44-53 | nulling the group of its posts leaves no dangling group reference |
| `ModelRules.DeletePostPreservesValid` | yatube/posts/models.py:73-79 | the comment cascade leaves no comment on a missing post |
| `ModelRules.DeleteUserPreservesValid` | yatube/posts/models.py:37-114 | the user cascade leaves no post, comment or follow row naming the deleted user |
| `Views.Feed` | yatube/posts/views.py:135-137 | a listing is newest-first and holds each post once per row of its query; for the following feed that is once per follow row joining reader and author |
| `Views.RowsOfPost` | yatube/posts/models.py:117-121 | in a valid store a post is yielded by at most one row of any listing's query, and by one exactly when it matches |
| `Views.FeedContents` | yatube/posts/views.py:135-137 | in a valid store each listing holds exactly its matching posts, each once; the following feed owes this to pair uniqueness |
| `Views.FeedOf` | yatube/posts/views.py:28 | a listing holds exactly the matching posts, once each, newest-first |
| `Views.Index` | yatube/posts/views.py:15 | the global feed holds every post exactly once, newest-first |
| `Views.GroupPosts` | yatube/posts/views.py:25-36 | an unknown slug is NotFound; otherwise the page names the only group with that slug and lists exactly its posts, once each, newest-first |
| `Views.Profile` | yatube/posts/views.py:39-56 | an unknown user is NotFound; the page lists exactly that user's posts, once each, newest-first; `following` is present only for an authenticated viewer and is true iff Follow(viewer, user) exists |
| `Views.FollowIndex` | yatube/posts/views.py:132-144 | the following feed holds exactly the posts whose author the reader follows, once each, newest-first |
| `Views.CommentListing` | yatube/posts/views.py:63 | the comments of a post are listed newest-first, each comment on it once |
| `Views.CommentListingContents` | yatube/posts/models.py:73-79 | the listing holds exactly the comments whose post is that post, without duplicates |
| `Views.CommentsOf` | yatube/posts/models.py:91-92 | a post's comments: exactly those on it, once each, newest-first |
| `Views.PostDetail` | yatube/posts/views.py:59-71 | an unknown post is NotFound; the page shows the post and exactly its comments, newest-first; posts_count equals the length of the author's profile listing |
| `Views.PostCreate` | yatube/posts/views.py:74-89 | a form whose stripped text is empty, or whose group is missing, stores nothing; a valid one adds exactly one post by the request's user with the stripped text and the form's group and image; the store stays valid |
| `Views.PostEdit` | yatube/posts/views.py:92-117 | an unknown post is NotFound; a non-author or an invalid form changes nothing; the author's valid form sets only that post's text (stripped), group and image, keeping its key, author, date and the post count |
| `Views.AddComment` | yatube/posts/views.py:120-129 | an unknown post is NotFound; a comment whose stripped text is empty changes nothing; a valid one adds exactly one comment by the request's user on that post with the stripped text |
| `Views.CreateFollow` | yatube/posts/views.py:151-154 | creating a missing edge stores it under a fresh key as the pair's only row and keeps the store valid |
| `Views.DropPair` | yatube/posts/views.py:161-163 | deleting a followed pair's rows removes exactly one row, ends the follow and keeps the store valid |
| `Views.ProfileFollow` | yatube/posts/views.py:147-155 | an unknown author is NotFound; self-follow and an existing edge change nothing; otherwise exactly one row for the pair exists afterwards and no other row changes |
| `Views.ProfileUnfollow` | yatube/posts/views.py:158-164 | an unknown author is NotFound; afterwards the pair is not followed; an absent edge changes nothing; a present one removes exactly one row and keeps all others |
| `FollowMachine.FollowIdempotent` | yatube/posts/views.py:150-154 | following twice equals following once (get-or-create) |
| `FollowMachine.UnfollowIdempotent` | yatube/posts/views.py:161-163 | unfollowing twice equals unfollowing once |
| `FollowMachine.FollowKeepsOtherPairs` | yatube/posts/views.py:150-154 | following leaves the followed state of every other pair as it was |
| `FollowMachine.UnfollowKeepsOtherPairs` | yatube/posts/views.py:161-163 | unfollowing leaves the followed state of every other pair as it was |
| `FollowMachine.FollowAppends` | yatube/posts/views.py:151-154 | following a new author is exactly appending its row under the next follow key |
| `FollowMachine.RemoveAppended` | yatube/posts/views.py:163 | the appended row is the pair's only one, and removing it restores the old rows |
| `FollowMachine.UnfollowDrops` | yatube/posts/views.py:161-163 | unfollowing a followed author removes that pair's rows and nothing else |
| `FollowMachine.FollowThenUnfollow` | yatube/posts/tests/test_views.py:370-386 | following a new author then unfollowing gives back the original store, except that the key counter has moved on |
| `FollowMachine.UnfollowThenFollow` | yatube/posts/views.py:147-164 | unfollowing a followed author then following again leaves the same set of follow pairs |
| `FollowMachine.FollowGrowsFeed` | yatube/posts/tests/test_views.py:167-175 | after following, the reader's feed is the old feed plus exactly the author's posts, unless the author is the reader |
| `FollowMachine.UnfollowShrinksFeed` | yatube/posts/tests/test_views.py:177-184 | after unfollowing, the reader's feed is the old feed minus exactly the author's posts |
| `FollowMachine.DuplicateRowsRepeatPosts` | yatube/posts/models.py:117-121 | without the unique-pair constraint the following feed's join lists a post twice |

## Left out

- The full-page cache on `index` is not modelled. It is a framework TTL cache with no logic of its own, and the listings are computed fresh.
- The paginator's page-number resolution is not modelled. That is turning a missing, non-numeric or out-of-range `?page=` into a valid page, and it lives in library code outside this model. `Paging.Page` takes a page number between 1 and the page count, which is what that resolution hands on.
- `Paging.NumPages`, `Paging.Page`: the page size is a parameter, because the `POSTS_ON_PAGE` setting is not part of this model. The tests' 23 posts over three pages fit a size of 10.
- HTTP is not modelled: requests, responses, templates, redirect targets and rendering the blank form on a GET. A view's effect on the store is its whole result here.
- Authentication is not modelled. `login_required` becomes the precondition `actor in s.users`. The anonymous viewer of `profile` is `viewer == None`.
- Signup and user creation are not modelled. The set of users is part of the state and changes only by `Models.DeleteUser`.
- Form validation is modelled only for what the views rely on. `PostForm` and `CommentForm` are not part of this model. A form is the submitted text, group key and image path. Its text is cleaned the way Django's text field cleans it: Python's `str.strip()` over the characters `str.isspace()` accepts. The form is valid when the stripped text is not empty, the text holds no NUL character (the null-character validator every form text field carries), and the group, if given, exists. Only these checks are modelled; any further validators the form classes declare are left out. The stripped text is what gets stored. The image is the stored path string; image validation and upload storage are left out.
- Models.FollowStr: the read-back of the (user, author) pair from the display string is proved only for follower usernames without spaces, the only ones Django's username validator admits. `create_user` also saves names with spaces, and for those the model promises only the `relation: ` prefix.
- `pub_date` comes from a base model that is not part of this model. It is the `now` argument of the writes.
- Among posts with equal `pub_date` the database's order is unspecified. The model's sort is stable over keys taken from largest to smallest, which puts the newer key first.
- The `MultipleObjectsReturned` outcome of `get` and `get_or_create` is left out. It cannot occur under the unique-pair invariant, so `ProfileUnfollow` removes the pair's rows and `ProfileFollow` creates only when there are none.
- Concurrency and transactions are left out. This covers two racing `get_or_create` calls and the gap between `exists()` and `get()` in unfollow. Each view is one atomic step.
- Verbose names, help texts, `index_together` and `get_absolute_url` are left out. They are metadata and routing with no effect on the store.
- The `max_length` limits on `Group.title` (200) and on `Group.slug` (the slug field's default of 50) are left out. Only forms and some database backends enforce them, so `Models.InsertGroup` fails only on a taken slug.
