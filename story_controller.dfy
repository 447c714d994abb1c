/** The story HTTP handlers (backend/src/controllers/story.controller.js):
    create, the friends' feed grouped by author, the caller's own stories,
    view, soft delete and the expiry sweep. The clock (`new Date()`), the
    caller's id and the id the database gives a new story are parameters. */
module StoryController {
  import opened Common
  import opened StoryModel
  import Users

  datatype Failure = ContentOrMediaRequired | StoryNotFound | StoryExpired | InternalError

  /** An error reply: HTTP status and what went wrong. */
  datatype StoryError = StoryError(status: nat, failure: Failure)

  /** Anything thrown inside a handler (a failed validation, a property
      read on null) is caught and answered with 500. */
  const Internal := StoryError(500, InternalError)

  // ---------------------------------------------------------------- create

  /** The body of a create request; an absent key is None. */
  datatype StoryInput = StoryInput(content: Option<string>, mediaType: Option<string>, mediaUrl: Option<string>,
                                   thumbnail: Option<string>, duration: Option<int>, size: Option<int>)

  /** The `!content && !mediaUrl` guard. */
  predicate NothingToPost(input: StoryInput) {
    !Truthy(input.content) && !Truthy(input.mediaUrl)
  }

  /** The outcome of createStory for a new story with id `id`: the guard
      (400), then `Story.create` with the defaults filled in, whose
      validation can still fail (500): `content` is required and at most
      500 units, and `media.type` must be one of the three names. */
  function NewStory(id: StoryId, author: UserId, input: StoryInput, now: Millis): (r: Result<Story, StoryError>)
    ensures NothingToPost(input) ==> r == Err(StoryError(400, ContentOrMediaRequired))
    ensures !NothingToPost(input) ==>
      (r.Ok? <==> ContentValid(input.content.GetOr("")) && ParseMediaKind(input.mediaType.GetOr("text")).Some?)
    ensures r.Err? && !NothingToPost(input) ==> r == Err(Internal)
    ensures r.Ok? ==>
      && r.value.id == id && r.value.author == author
      && Truthy(input.content) && r.value.content == input.content.value
      && KindName(r.value.media.kind) == input.mediaType.GetOr("text")
      && r.value.media.url == input.mediaUrl.GetOr("") && r.value.media.thumbnail == input.thumbnail.GetOr("")
      && r.value.media.duration == input.duration.GetOr(0) && r.value.media.size == input.size.GetOr(0)
      && r.value.views == [] && r.value.isActive
      && r.value.createdAt == now && r.value.updatedAt == now && r.value.expiresAt == r.value.createdAt + DayMillis
  {
    if NothingToPost(input) then Err(StoryError(400, ContentOrMediaRequired))
    else
      var content := input.content.GetOr("");
      var kind := ParseMediaKind(input.mediaType.GetOr("text"));
      if !ContentValid(content) || kind.None? then Err(Internal)
      else
        var media := Media(kind.value, input.mediaUrl.GetOr(""), input.thumbnail.GetOr(""),
                           input.duration.GetOr(0), input.size.GetOr(0));
        Ok(Story(id, author, content, media, [], now + DayMillis, true, now, now))
  }

  /** The handler's own check refuses a request exactly when it carries
      neither content nor a media URL. */
  lemma CreateGuardIff(id: StoryId, author: UserId, input: StoryInput, now: Millis)
    ensures NewStory(id, author, input, now) == Err(StoryError(400, ContentOrMediaRequired))
        <==> !Truthy(input.content) && !Truthy(input.mediaUrl)
  {
  }

  /** A media-only story passes the handler's check but not the schema,
      which requires `content`: it is answered with 500 and not stored. */
  lemma MediaOnlyStoryRejected(id: StoryId, author: UserId, input: StoryInput, now: Millis)
    requires Truthy(input.mediaUrl) && !Truthy(input.content)
    ensures NewStory(id, author, input, now) == Err(Internal)
  {
  }

  /** A request naming only content gets a text story with empty media. */
  lemma TextStoryDefaults(id: StoryId, author: UserId, content: string, now: Millis)
    requires ContentValid(content)
    ensures NewStory(id, author, StoryInput(Some(content), None, None, None, None, None), now)
         == Ok(Story(id, author, content, Media(Text, "", "", 0, 0), [], now + DayMillis, true, now, now))
  {
  }

  /** createStory: the new story is appended to the collection when it is
      created; otherwise nothing is stored. `id` stands for the fresh
      ObjectId. */
  method CreateStory(store: StoryCollection, author: UserId, input: StoryInput, now: Millis, id: StoryId)
    returns (r: Result<Story, StoryError>)
    requires store.Valid()
    requires forall i :: 0 <= i < |store.stories| ==> store.stories[i].id != id
    modifies store
    ensures r == NewStory(id, author, input, now)
    ensures r.Ok? ==> store.stories == old(store.stories) + [r.value]
    ensures r.Err? ==> store.stories == old(store.stories)
    ensures store.Valid()
  {
    r := NewStory(id, author, input, now);
    if r.Ok? {
      store.stories := store.stories + [r.value];
    }
  }

  // ------------------------------------------------------------ the feed

  /** The feed query: an author among the viewer's friends, active, and
      expiring strictly after now. */
  predicate Visible(s: Story, friends: seq<UserId>, now: Millis) {
    s.author in friends && s.isActive && s.expiresAt > now
  }

  function FeedQuery(stories: seq<Story>, friends: seq<UserId>, now: Millis): (r: seq<Story>)
    ensures forall s :: s in r <==> s in stories && Visible(s, friends, now)
    ensures |r| <= |stories|
  {
    Filter(stories, (s: Story) => Visible(s, friends, now))
  }

  /** The feed holds a story exactly when it is in the collection and
      visible: a friend's, active and not yet expired. */
  lemma FeedQueryExact(stories: seq<Story>, friends: seq<UserId>, now: Millis)
    ensures forall s :: s in FeedQuery(stories, friends, now) <==>
      s in stories && s.author in friends && s.isActive && s.expiresAt > now
  {
  }

  /** `.sort({ createdAt: -1 })`. */
  predicate NewestFirst(s: seq<Story>) {
    forall i, j :: 0 <= i < j < |s| ==> s[i].createdAt >= s[j].createdAt
  }

  function InsertNewest(x: Story, s: seq<Story>): (r: seq<Story>)
    requires NewestFirst(s)
    ensures multiset(r) == multiset(s) + multiset{x}
    ensures NewestFirst(r)
  {
    if s == [] then [x]
    else
      HeadIsNewest(s);
      if x.createdAt >= s[0].createdAt then
        NewestCons(x, s);
        [x] + s
      else
        var rest := InsertNewest(x, s[1..]);
        assert s == [s[0]] + s[1..];
        NoNewerAfterInsert(s[0].createdAt, x, s[1..], rest);
        NewestCons(s[0], rest);
        [s[0]] + rest
  }

  /** The head of a newest-first list is at least as new as every element
      of it, and the rest is newest-first too. */
  lemma HeadIsNewest(s: seq<Story>)
    requires s != [] && NewestFirst(s)
    ensures forall y :: y in s ==> y.createdAt <= s[0].createdAt
    ensures NewestFirst(s[1..])
  {
  }

  /** A story at least as new as every element of a newest-first list can
      go in front of it. */
  lemma NewestCons(y: Story, t: seq<Story>)
    requires NewestFirst(t)
    requires forall z :: z in t ==> z.createdAt <= y.createdAt
    ensures NewestFirst([y] + t)
  {
    var r := [y] + t;
    forall i, j | 0 <= i < j < |r| ensures r[i].createdAt >= r[j].createdAt {
      assert r[j] == t[j - 1];
      if i > 0 {
        assert r[i] == t[i - 1];
      }
    }
  }

  /** Inserting a story no newer than `top` into a list of such stories
      keeps every element no newer than `top`. */
  lemma NoNewerAfterInsert(top: Millis, x: Story, t: seq<Story>, rest: seq<Story>)
    requires multiset(rest) == multiset(t) + multiset{x}
    requires x.createdAt <= top && forall z :: z in t ==> z.createdAt <= top
    ensures forall z :: z in rest ==> z.createdAt <= top
  {
    forall z | z in rest ensures z.createdAt <= top {
      assert z in multiset(rest);
      if z != x {
        assert z in multiset(t);
      }
    }
  }

  /** The sort of the query, newest first; stories made at the same
      millisecond keep their collection order, one of the orders the
      database may return. */
  function SortNewestFirst(s: seq<Story>): (r: seq<Story>)
    ensures multiset(r) == multiset(s)
    ensures NewestFirst(r)
  {
    if s == [] then []
    else
      assert s == [s[0]] + s[1..];
      InsertNewest(s[0], SortNewestFirst(s[1..]))
  }

  /** One story as the feed shows it: with `hasViewed` for the viewer. */
  datatype FeedItem = FeedItem(story: Story, hasViewed: bool)

  /** One value of `storiesByAuthor`. */
  datatype AuthorStories = AuthorStories(author: UserId, stories: seq<FeedItem>, hasUnviewed: bool)

  function Item(s: Story, viewer: UserId): FeedItem {
    FeedItem(s, HasUserViewed(s.views, viewer))
  }

  /** Authors in the order the loop first meets them, each once. */
  function AuthorsInOrder(found: seq<Story>): (r: seq<UserId>)
    ensures NoDuplicates(r)
    ensures forall a :: a in r <==> exists i :: 0 <= i < |found| && found[i].author == a
  {
    if found == [] then []
    else
      var init := found[..|found| - 1];
      var a := found[|found| - 1].author;
      var prev := AuthorsInOrder(init);
      assert forall i :: 0 <= i < |init| ==> init[i] == found[i];
      assert found[|found| - 1].author == a;
      if a in prev then prev else prev + [a]
  }

  /** The stories the loop pushes for author a, as feed items, in order. */
  function ItemsBy(found: seq<Story>, a: UserId, viewer: UserId): (r: seq<FeedItem>)
    ensures forall j :: 0 <= j < |r| ==> r[j].story.author == a && r[j].story in found && r[j] == Item(r[j].story, viewer)
    ensures r == [] <==> forall i :: 0 <= i < |found| ==> found[i].author != a
  {
    if found == [] then []
    else
      var init := found[..|found| - 1];
      var x := found[|found| - 1];
      var prev := ItemsBy(init, a, viewer);
      assert forall s :: s in init ==> s in found;
      prev + (if x.author == a then [Item(x, viewer)] else [])
  }

  /** Some item has not been viewed (the `hasUnviewed` flag). */
  function Unviewed(items: seq<FeedItem>): (b: bool)
    ensures b <==> exists j :: 0 <= j < |items| && !items[j].hasViewed
  {
    if items == [] then false
    else
      var init := items[..|items| - 1];
      assert forall j :: 0 <= j < |init| ==> init[j] == items[j];
      Unviewed(init) || !items[|items| - 1].hasViewed
  }

  function Entry(found: seq<Story>, a: UserId, viewer: UserId): AuthorStories {
    AuthorStories(a, ItemsBy(found, a, viewer), Unviewed(ItemsBy(found, a, viewer)))
  }

  /** The groups for the authors in A, in that order. */
  function FeedOver(found: seq<Story>, A: seq<UserId>, viewer: UserId): (r: seq<AuthorStories>)
    ensures |r| == |A|
    ensures forall i :: 0 <= i < |A| ==> r[i] == Entry(found, A[i], viewer)
  {
    if A == [] then [] else [Entry(found, A[0], viewer)] + FeedOver(found, A[1..], viewer)
  }

  /** `Object.values(storiesByAuthor)`: ObjectId keys are never
      integer-like, so the values come in insertion order. */
  function Feed(found: seq<Story>, viewer: UserId): seq<AuthorStories> {
    FeedOver(found, AuthorsInOrder(found), viewer)
  }

  /** One more story extends its author's group by one item and leaves
      every other group as it was. */
  lemma EntryStep(found: seq<Story>, x: Story, a: UserId, viewer: UserId)
    ensures Entry(found + [x], a, viewer) ==
      if a == x.author then
        AuthorStories(a, ItemsBy(found, a, viewer) + [Item(x, viewer)],
                      Unviewed(ItemsBy(found, a, viewer)) || !Item(x, viewer).hasViewed)
      else Entry(found, a, viewer)
  {
    ItemsBySnoc(found, x, a, viewer);
  }

  /** Storing the extended group of the story's author keeps every group
      of the dictionary equal to its definition. */
  lemma GroupsStep(m: map<UserId, AuthorStories>, seen: seq<Story>, story: Story, viewer: UserId, group: AuthorStories)
    requires forall b :: b in m ==> m[b] == Entry(seen, b, viewer)
    requires group == Entry(seen + [story], story.author, viewer)
    ensures forall b :: b in m[story.author := group] ==>
      m[story.author := group][b] == Entry(seen + [story], b, viewer)
  {
    forall b | b in m && b != story.author
      ensures m[b] == Entry(seen + [story], b, viewer)
    {
      EntryStep(seen, story, b, viewer);
    }
  }

  lemma PrefixSnoc(s: seq<Story>, k: nat)
    requires k < |s|
    ensures s[..k + 1] == s[..k] + [s[k]]
  {
  }

  /** One more story adds its author to the list unless already there. */
  lemma AuthorsInOrderSnoc(found: seq<Story>, x: Story)
    ensures AuthorsInOrder(found + [x]) ==
      if x.author in AuthorsInOrder(found) then AuthorsInOrder(found) else AuthorsInOrder(found) + [x.author]
  {
    assert (found + [x])[..|found|] == found;
  }

  /** An author the loop has not met has an empty group. */
  lemma EntryOfNewAuthor(found: seq<Story>, a: UserId, viewer: UserId)
    requires a !in AuthorsInOrder(found)
    ensures Entry(found, a, viewer) == AuthorStories(a, [], false)
  {
  }

  /** The state of `storiesByAuthor` after the stories of `seen`: the keys
      in insertion order, and each author's group as `Entry` defines it. */
  ghost predicate Grouped(byAuthor: map<UserId, AuthorStories>, order: seq<UserId>, seen: seq<Story>, viewer: UserId) {
    && order == AuthorsInOrder(seen)
    && (forall a :: a in byAuthor <==> a in order)
    && (forall a :: a in byAuthor ==> byAuthor[a] == Entry(seen, a, viewer))
  }

  /** The `forEach` callback for one story: open the author's group if it
      is new, push the story with its `hasViewed`, and raise
      `hasUnviewed` when the viewer has not seen it. */
  method AddToGroups(byAuthor: map<UserId, AuthorStories>, order: seq<UserId>, story: Story, viewer: UserId,
                     ghost seen: seq<Story>)
    returns (byAuthor': map<UserId, AuthorStories>, order': seq<UserId>)
    requires Grouped(byAuthor, order, seen, viewer)
    ensures Grouped(byAuthor', order', seen + [story], viewer)
  {
    var a := story.author;
    OpenGroup(byAuthor, order, seen, story, viewer);
    byAuthor', order' := byAuthor, order;
    if a !in byAuthor' {
      byAuthor' := byAuthor'[a := AuthorStories(a, [], false)];
      order' := order' + [a];
    }
    var hasViewed := HasUserViewed(story.views, viewer);
    var group := byAuthor'[a];
    PushedGroup(group, seen, story, viewer);
    group := group.(stories := group.stories + [FeedItem(story, hasViewed)]);
    if !hasViewed {
      group := group.(hasUnviewed := true);
    }
    GroupsStep(byAuthor', seen, story, viewer, group);
    byAuthor' := byAuthor'[a := group];
  }

  /** Opening the group of a new author (and nothing for a known one)
      gives the keys of one more story while every group still describes
      the earlier stories. */
  lemma OpenGroup(byAuthor: map<UserId, AuthorStories>, order: seq<UserId>, seen: seq<Story>, story: Story, viewer: UserId)
    requires Grouped(byAuthor, order, seen, viewer)
    ensures var a := story.author;
      var m := if a in byAuthor then byAuthor else byAuthor[a := AuthorStories(a, [], false)];
      var o := if a in byAuthor then order else order + [a];
      && o == AuthorsInOrder(seen + [story])
      && (forall b :: b in m <==> b in o)
      && (forall b :: b in m ==> m[b] == Entry(seen, b, viewer))
  {
    AuthorsInOrderSnoc(seen, story);
    if story.author !in byAuthor {
      EntryOfNewAuthor(seen, story.author, viewer);
    }
  }

  /** Pushing the story and updating `hasUnviewed` turns its author's
      group into the group after that story. */
  lemma PushedGroup(g: AuthorStories, seen: seq<Story>, story: Story, viewer: UserId)
    requires g == Entry(seen, story.author, viewer)
    ensures var hasViewed := HasUserViewed(story.views, viewer);
      var pushed := g.(stories := g.stories + [FeedItem(story, hasViewed)]);
      (if !hasViewed then pushed.(hasUnviewed := true) else pushed) == Entry(seen + [story], story.author, viewer)
  {
    EntryStep(seen, story, story.author, viewer);
  }

  /** The `forEach` of getStoriesFeed over the sorted query result, then
      `Object.values`: the groups in the order their keys were inserted. */
  method GroupByAuthor(found: seq<Story>, viewer: UserId) returns (groups: seq<AuthorStories>)
    ensures groups == Feed(found, viewer)
  {
    var byAuthor: map<UserId, AuthorStories> := map[];
    var order: seq<UserId> := [];
    ghost var seen: seq<Story> := [];
    var k := 0;
    while k < |found|
      invariant 0 <= k <= |found| && seen == found[..k]
      invariant Grouped(byAuthor, order, seen, viewer)
    {
      byAuthor, order := AddToGroups(byAuthor, order, found[k], viewer, seen);
      PrefixSnoc(found, k);
      seen := seen + [found[k]];
      k := k + 1;
    }
    assert found[..k] == found;
    groups := seq(|order|, i requires 0 <= i < |order| => byAuthor[order[i]]);
  }

  /** getStoriesFeed: the viewer's friend list (a missing viewer makes
      `user.friends` throw: 500), the visible stories newest first, and
      their grouping. A story whose author document is gone populates to
      null and makes `story.author._id` throw, also 500. */
  method GetStoriesFeed(users: Users.UserCollection, store: StoryCollection, viewer: UserId, now: Millis)
    returns (r: Result<seq<AuthorStories>, StoryError>)
    ensures users.FindById(viewer).None? ==> r == Err(Internal)
    ensures users.FindById(viewer).Some? ==>
      var found := SortNewestFirst(FeedQuery(store.stories, users.FindById(viewer).value.friends, now));
      r == if exists i :: 0 <= i < |found| && users.FindById(found[i].author).None? then Err(Internal)
           else Ok(Feed(found, viewer))
  {
    var user := users.FindById(viewer);
    if user.None? {
      return Err(Internal);
    }
    var found := SortNewestFirst(FeedQuery(store.stories, user.value.friends, now));
    if exists i :: 0 <= i < |found| && users.FindById(found[i].author).None? {
      return Err(Internal);
    }
    var groups := GroupByAuthor(found, viewer);
    r := Ok(groups);
  }

  /** Each author gets one group. */
  lemma FeedAuthorsDistinct(found: seq<Story>, viewer: UserId)
    ensures forall i, j :: 0 <= i < j < |Feed(found, viewer)| ==>
      Feed(found, viewer)[i].author != Feed(found, viewer)[j].author
  {
    var A := AuthorsInOrder(found);
    var F := Feed(found, viewer);
    assert forall i :: 0 <= i < |F| ==> F[i].author == A[i];
  }

  /** Every group's author wrote one of the stories. */
  lemma FeedAuthorsFromStories(found: seq<Story>, viewer: UserId)
    ensures forall i :: 0 <= i < |Feed(found, viewer)| ==>
      exists j :: 0 <= j < |found| && found[j].author == Feed(found, viewer)[i].author
  {
    var A := AuthorsInOrder(found);
    var F := Feed(found, viewer);
    forall i | 0 <= i < |F| ensures exists j :: 0 <= j < |found| && found[j].author == F[i].author {
      assert F[i].author == A[i] && A[i] in A;
    }
  }

  /** Every author of a story has a group. */
  lemma FeedCoversAuthors(found: seq<Story>, viewer: UserId)
    ensures forall j :: 0 <= j < |found| ==>
      exists i :: 0 <= i < |Feed(found, viewer)| && Feed(found, viewer)[i].author == found[j].author
  {
    var A := AuthorsInOrder(found);
    var F := Feed(found, viewer);
    forall j | 0 <= j < |found| ensures exists i :: 0 <= i < |F| && F[i].author == found[j].author {
      var a := found[j].author;
      assert a in A;
      var i :| 0 <= i < |A| && A[i] == a;
      assert F[i].author == a;
    }
  }

  /** Every item of a group is a story by the group's author, with
      `hasViewed` telling whether the viewer is among its viewers; the
      group's `hasUnviewed` holds iff one of its stories is unviewed. */
  lemma FeedGroupContents(found: seq<Story>, viewer: UserId)
    ensures forall i, j :: 0 <= i < |Feed(found, viewer)| && 0 <= j < |Feed(found, viewer)[i].stories| ==>
      var item := Feed(found, viewer)[i].stories[j];
      && item.story in found
      && item.story.author == Feed(found, viewer)[i].author
      && (item.hasViewed <==> HasUserViewed(item.story.views, viewer))
    ensures forall i :: 0 <= i < |Feed(found, viewer)| ==>
      (Feed(found, viewer)[i].hasUnviewed <==>
        exists j :: 0 <= j < |Feed(found, viewer)[i].stories| &&
                    !HasUserViewed(Feed(found, viewer)[i].stories[j].story.views, viewer))
  {
    var F := Feed(found, viewer);
    forall i | 0 <= i < |F|
      ensures F[i].hasUnviewed <==> exists j :: 0 <= j < |F[i].stories| && !HasUserViewed(F[i].stories[j].story.views, viewer)
    {
      var items := F[i].stories;
      assert forall j :: 0 <= j < |items| ==> (items[j].hasViewed <==> HasUserViewed(items[j].story.views, viewer));
    }
  }

  /** Inside a group the stories keep the order of the query result, so a
      newest-first result gives newest-first groups. */
  lemma {:induction false} ItemsByKeepOrder(found: seq<Story>, a: UserId, viewer: UserId)
    requires NewestFirst(found)
    ensures forall j, l :: 0 <= j < l < |ItemsBy(found, a, viewer)| ==>
      ItemsBy(found, a, viewer)[j].story.createdAt >= ItemsBy(found, a, viewer)[l].story.createdAt
  {
    if found != [] {
      var init := found[..|found| - 1];
      var x := found[|found| - 1];
      assert NewestFirst(init);
      ItemsByKeepOrder(init, a, viewer);
      var prev := ItemsBy(init, a, viewer);
      forall j | 0 <= j < |prev| ensures prev[j].story.createdAt >= x.createdAt {
        var s := prev[j].story;
        var i :| 0 <= i < |init| && init[i] == s;
        assert found[i] == s;
      }
    }
  }

  /** The groups of the feed are each newest first. */
  lemma FeedKeepsOrder(found: seq<Story>, viewer: UserId)
    requires NewestFirst(found)
    ensures forall i, j, l :: 0 <= i < |Feed(found, viewer)| && 0 <= j < l < |Feed(found, viewer)[i].stories| ==>
      Feed(found, viewer)[i].stories[j].story.createdAt >= Feed(found, viewer)[i].stories[l].story.createdAt
  {
    var A := AuthorsInOrder(found);
    forall i | 0 <= i < |A| {
      ItemsByKeepOrder(found, A[i], viewer);
    }
  }

  // ------------------------------------------------------ the partition

  function StoriesOf(items: seq<FeedItem>): (r: seq<Story>)
    ensures |r| == |items| && forall j :: 0 <= j < |items| ==> r[j] == items[j].story
  {
    seq(|items|, j requires 0 <= j < |items| => items[j].story)
  }

  /** All the stories of the feed, group after group. */
  function FeedStories(groups: seq<AuthorStories>): seq<Story> {
    if groups == [] then [] else StoriesOf(groups[0].stories) + FeedStories(groups[1..])
  }

  lemma {:induction false} FeedStoriesAppend(groups: seq<AuthorStories>, g: AuthorStories)
    ensures FeedStories(groups + [g]) == FeedStories(groups) + StoriesOf(g.stories)
  {
    if groups != [] {
      assert (groups + [g])[1..] == groups[1..] + [g];
      FeedStoriesAppend(groups[1..], g);
    }
  }

  /** One more story adds it to the group of its author when that author
      is among A, and changes nothing otherwise. */
  lemma {:induction false} FeedOverAppendStory(found: seq<Story>, x: Story, A: seq<UserId>, viewer: UserId)
    requires NoDuplicates(A)
    ensures multiset(FeedStories(FeedOver(found + [x], A, viewer)))
         == multiset(FeedStories(FeedOver(found, A, viewer))) + (if x.author in A then multiset{x} else multiset{})
  {
    if A != [] {
      var a, rest := A[0], A[1..];
      var y: multiset<Story> := if x.author == a then multiset{x} else multiset{};
      var yRest: multiset<Story> := if x.author in rest then multiset{x} else multiset{};
      assert NoDuplicates(rest) && (if x.author in A then multiset{x} else multiset{}) == y + yRest by {
        assert A == [a] + rest;
        assert a !in rest;
      }
      FeedOverAppendStory(found, x, rest, viewer);
      FeedStoriesCons(found, A, viewer);
      FeedStoriesCons(found + [x], A, viewer);
      StoriesStep(found, x, a, viewer);
    }
  }

  /** One more story adds itself to the stories of its author's items. */
  lemma StoriesStep(found: seq<Story>, x: Story, a: UserId, viewer: UserId)
    ensures multiset(StoriesOf(ItemsBy(found + [x], a, viewer)))
         == multiset(StoriesOf(ItemsBy(found, a, viewer))) + (if x.author == a then multiset{x} else multiset{})
  {
    var items := ItemsBy(found, a, viewer);
    ItemsBySnoc(found, x, a, viewer);
    if x.author == a {
      StoriesOfSnoc(items, Item(x, viewer));
      var S := StoriesOf(items);
      assert multiset(S + [x]) == multiset(S) + multiset{x};
    } else {
      assert items + [] == items;
    }
  }

  /** The stories of the groups for A: those of A's first author, then
      those of the rest. */
  lemma FeedStoriesCons(found: seq<Story>, A: seq<UserId>, viewer: UserId)
    requires A != []
    ensures multiset(FeedStories(FeedOver(found, A, viewer)))
         == multiset(StoriesOf(ItemsBy(found, A[0], viewer))) + multiset(FeedStories(FeedOver(found, A[1..], viewer)))
  {
    var F := FeedOver(found, A, viewer);
    assert F[1..] == FeedOver(found, A[1..], viewer);
    assert F[0].stories == ItemsBy(found, A[0], viewer);
  }

  /** One more story adds its item to its author's items only. */
  lemma ItemsBySnoc(found: seq<Story>, x: Story, a: UserId, viewer: UserId)
    ensures ItemsBy(found + [x], a, viewer) ==
      ItemsBy(found, a, viewer) + (if x.author == a then [Item(x, viewer)] else [])
  {
    assert (found + [x])[..|found|] == found;
  }

  lemma StoriesOfSnoc(items: seq<FeedItem>, it: FeedItem)
    ensures StoriesOf(items + [it]) == StoriesOf(items) + [it.story]
  {
  }

  /** Listing one more author appends that author's group. */
  lemma FeedOverSnoc(found: seq<Story>, A: seq<UserId>, a: UserId, viewer: UserId)
    ensures FeedOver(found, A + [a], viewer) == FeedOver(found, A, viewer) + [Entry(found, a, viewer)]
  {
    var l := FeedOver(found, A + [a], viewer);
    var r := FeedOver(found, A, viewer) + [Entry(found, a, viewer)];
    forall i | 0 <= i < |l| ensures l[i] == r[i] {
      assert (A + [a])[i] == if i < |A| then A[i] else a;
    }
  }

  /** A story by an author not met before opens a group of its own at
      the end. */
  lemma NewAuthorStep(init: seq<Story>, x: Story, viewer: UserId)
    requires x.author !in AuthorsInOrder(init)
    ensures multiset(FeedStories(Feed(init + [x], viewer)))
         == multiset(FeedStories(FeedOver(init + [x], AuthorsInOrder(init), viewer))) + multiset{x}
  {
    var found := init + [x];
    var A := AuthorsInOrder(init);
    AuthorsInOrderSnoc(init, x);
    var e := Entry(found, x.author, viewer);
    FeedOverSnoc(found, A, x.author, viewer);
    FeedStoriesAppend(FeedOver(found, A, viewer), e);
    NewAuthorEntry(init, x, viewer);
  }

  /** The group a new author opens holds just that story. */
  lemma NewAuthorEntry(init: seq<Story>, x: Story, viewer: UserId)
    requires x.author !in AuthorsInOrder(init)
    ensures StoriesOf(Entry(init + [x], x.author, viewer).stories) == [x]
  {
    EntryStep(init, x, x.author, viewer);
    assert ItemsBy(init, x.author, viewer) == [];
    var items := Entry(init + [x], x.author, viewer).stories;
    assert items == [Item(x, viewer)];
    assert StoriesOf(items)[0] == x;
  }

  /** The groups of the feed partition the query result: every story lies
      in exactly one group, as often as it occurs in the result. */
  lemma {:induction false} FeedPartition(found: seq<Story>, viewer: UserId)
    ensures multiset(FeedStories(Feed(found, viewer))) == multiset(found)
  {
    if found != [] {
      var init := found[..|found| - 1];
      var x := found[|found| - 1];
      assert found == init + [x];
      FeedPartition(init, viewer);
      var A := AuthorsInOrder(init);
      FeedOverAppendStory(init, x, A, viewer);
      if x.author !in A {
        NewAuthorStep(init, x, viewer);
      } else {
        assert AuthorsInOrder(found) == A;
      }
    }
  }

  /** The feed holds exactly the visible stories of the collection. */
  lemma FeedExactlyVisible(stories: seq<Story>, friends: seq<UserId>, viewer: UserId, now: Millis)
    ensures forall s :: s in FeedStories(Feed(SortNewestFirst(FeedQuery(stories, friends, now)), viewer)) <==>
      s in stories && Visible(s, friends, now)
  {
    var found := SortNewestFirst(FeedQuery(stories, friends, now));
    FeedPartition(found, viewer);
    forall s ensures s in FeedStories(Feed(found, viewer)) <==> s in found {
      assert s in FeedStories(Feed(found, viewer)) <==> s in multiset(FeedStories(Feed(found, viewer)));
      assert s in found <==> s in multiset(found);
    }
    forall s ensures s in found <==> s in FeedQuery(stories, friends, now) {
      assert s in found <==> s in multiset(found);
      assert s in FeedQuery(stories, friends, now) <==> s in multiset(FeedQuery(stories, friends, now));
    }
  }

  // ------------------------------------------------------- my stories

  /** The query of getMyStories: by the caller, active, and expiring
      strictly after now. */
  predicate Mine(s: Story, u: UserId, now: Millis) {
    s.author == u && s.isActive && s.expiresAt > now
  }

  /** getMyStories: the caller's active, unexpired stories, newest first,
      each as often as the collection holds it. */
  function MyStories(stories: seq<Story>, u: UserId, now: Millis): (r: seq<Story>)
    ensures NewestFirst(r)
    ensures multiset(r) == multiset(Filter(stories, (s: Story) => Mine(s, u, now)))
    ensures forall s :: s in r <==> s in stories && s.author == u && s.isActive && s.expiresAt > now
  {
    var mine := Filter(stories, (s: Story) => Mine(s, u, now));
    var r := SortNewestFirst(mine);
    assert forall s :: s in r <==> s in multiset(r);
    assert forall s :: s in mine <==> s in multiset(mine);
    r
  }

  // ------------------------------------------------------------- view

  /** The guard of viewStory: refused when inactive or when `expiresAt`
      lies strictly before now. */
  predicate Viewable(s: Story, now: Millis) {
    s.isActive && !(s.expiresAt < now)
  }

  /** Every story the feed can show is viewable; at the instant
      `expiresAt == now` an active story can still be viewed but is
      already gone from the feed and from the caller's own list. */
  lemma ExpiryBoundary(s: Story, friends: seq<UserId>, now: Millis)
    ensures Visible(s, friends, now) ==> Viewable(s, now)
    ensures s.isActive && s.expiresAt == now ==>
      Viewable(s, now) && !Visible(s, friends, now) && s !in MyStories([s], s.author, now)
  {
  }

  /** viewStory: 404 for an unknown id, 400 for a story that is no longer
      viewable, otherwise `addView` on it. */
  method ViewStory(store: StoryCollection, storyId: StoryId, u: UserId, now: Millis)
    returns (r: Result<(), StoryError>)
    requires store.Valid()
    modifies store
    ensures old(store.IndexOf(storyId)).None? ==> r == Err(StoryError(404, StoryNotFound))
    ensures old(store.IndexOf(storyId)).Some? ==>
      var i := old(store.IndexOf(storyId)).value;
      (r.Ok? <==> Viewable(old(store.stories)[i], now)) &&
      (r.Err? ==> r == Err(StoryError(400, StoryExpired))) &&
      (r.Ok? ==> store.stories == old(store.stories)[i := StoryWithView(old(store.stories)[i], u, now)])
    ensures r.Err? ==> store.stories == old(store.stories)
    ensures store.Valid()
  {
    var i := store.IndexOf(storyId);
    if i.None? {
      return Err(StoryError(404, StoryNotFound));
    }
    var story := store.stories[i.value];
    if !story.isActive || story.expiresAt < now {
      return Err(StoryError(400, StoryExpired));
    }
    store.AddView(i.value, u, now);
    r := Ok(());
  }

  // ----------------------------------------------------------- delete

  /** deleteStory: `findOne({ _id, author })`, so a story by someone else
      is as missing as an unknown one (404); a soft delete that clears
      `isActive` and keeps content and views. The save stamps `updatedAt`
      only when `isActive` actually changes. */
  method DeleteStory(store: StoryCollection, storyId: StoryId, u: UserId, now: Millis) returns (r: Result<(), StoryError>)
    requires store.Valid()
    modifies store
    ensures r.Ok? <==> exists i :: 0 <= i < |old(store.stories)| && old(store.stories)[i].id == storyId && old(store.stories)[i].author == u
    ensures r.Err? ==> r == Err(StoryError(404, StoryNotFound)) && store.stories == old(store.stories)
    ensures r.Ok? ==>
      var i := old(store.IndexOf(storyId)).value;
      var s := old(store.stories)[i];
      store.stories == old(store.stories)[i := s.(isActive := false, updatedAt := if s.isActive then now else s.updatedAt)]
    ensures store.Valid()
  {
    var i := FirstIndex(store.stories, (s: Story) => s.id == storyId && s.author == u);
    if i.None? {
      return Err(StoryError(404, StoryNotFound));
    }
    assert store.IndexOf(storyId) == i;
    var story := store.stories[i.value];
    var stamp := if story.isActive then now else story.updatedAt;
    store.stories := store.stories[i.value := story.(isActive := false, updatedAt := stamp)];
    r := Ok(());
  }

  // ---------------------------------------------------------- cleanup

  /** `updateMany({ expiresAt: { $lt: now } }, { isActive: false })` on a
      schema with timestamps, which adds `updatedAt: now` to the update:
      every story expired strictly before now is deactivated and stamped;
      nothing else about any story changes. */
  function Sweep(stories: seq<Story>, now: Millis): (r: seq<Story>)
    ensures |r| == |stories|
    ensures forall i :: 0 <= i < |r| ==>
      && r[i] == stories[i].(isActive := r[i].isActive, updatedAt := r[i].updatedAt)
      && (r[i].isActive <==> stories[i].isActive && !(stories[i].expiresAt < now))
      && r[i].updatedAt == (if stories[i].expiresAt < now then now else stories[i].updatedAt)
  {
    seq(|stories|, i requires 0 <= i < |stories| =>
      if stories[i].expiresAt < now then stories[i].(isActive := false, updatedAt := now) else stories[i])
  }

  /** A matched story the update actually changes: every expired story,
      except one already inactive whose `updatedAt` is this very instant. */
  predicate SweepModifies(s: Story, now: Millis) {
    s.expiresAt < now && (s.isActive || s.updatedAt != now)
  }

  /** `modifiedCount`: the matched stories the update changes. */
  function ModifiedCount(stories: seq<Story>, now: Millis): (n: nat)
    ensures n <= |stories|
  {
    if stories == [] then 0
    else ModifiedCount(stories[1..], now) + (if SweepModifies(stories[0], now) then 1 else 0)
  }

  /** The number of stories that expired strictly before now. */
  function ExpiredCount(stories: seq<Story>, now: Millis): (n: nat)
    ensures n <= |stories|
    ensures n == 0 <==> forall i :: 0 <= i < |stories| ==> !(stories[i].expiresAt < now)
  {
    if stories == [] then 0
    else
      var rest := ExpiredCount(stories[1..], now);
      assert forall i :: 1 <= i < |stories| ==> stories[i] == stories[1..][i - 1];
      rest + (if stories[0].expiresAt < now then 1 else 0)
  }

  /** When no stored timestamp is this very instant, as for a cleanup run
      after the last write, the count is the number of expired stories,
      active or not, and it is zero exactly when none has expired. */
  lemma {:induction false} ModifiedCountIsExpired(stories: seq<Story>, now: Millis)
    requires forall i :: 0 <= i < |stories| ==> stories[i].updatedAt != now
    ensures ModifiedCount(stories, now) == ExpiredCount(stories, now)
    ensures ModifiedCount(stories, now) == 0 <==> forall i :: 0 <= i < |stories| ==> !(stories[i].expiresAt < now)
  {
    if stories != [] {
      assert forall i :: 1 <= i < |stories[1..]| + 1 ==> stories[1..][i - 1] == stories[i];
      ModifiedCountIsExpired(stories[1..], now);
    }
  }

  /** The count is zero exactly when the sweep changes nothing. */
  lemma {:induction false} ModifiedCountZeroIff(stories: seq<Story>, now: Millis)
    ensures ModifiedCount(stories, now) == 0 <==> Sweep(stories, now) == stories
  {
    if stories != [] {
      ModifiedCountZeroIff(stories[1..], now);
      assert Sweep(stories, now)[1..] == Sweep(stories[1..], now);
      if Sweep(stories, now) == stories {
        assert Sweep(stories, now)[0] == stories[0];
      }
    }
  }

  /** The positions whose story the sweep changes. */
  ghost function Changed(stories: seq<Story>, now: Millis): set<nat> {
    set i: nat | i < |stories| && Sweep(stories, now)[i] != stories[i]
  }

  /** The reported count is the number of stories the sweep changes. */
  lemma {:induction false} ModifiedCountIsChanged(stories: seq<Story>, now: Millis)
    ensures ModifiedCount(stories, now) == |Changed(stories, now)|
  {
    if stories == [] {
      assert Changed(stories, now) == {};
    } else {
      ModifiedCountIsChanged(stories[1..], now);
      ChangedStep(stories, now);
      ShiftedCard(Changed(stories[1..], now));
    }
  }

  /** The changed positions: the first one when its story is expired and
      still active, then the changed positions of the rest, one further on. */
  lemma ChangedStep(stories: seq<Story>, now: Millis)
    requires stories != []
    ensures Changed(stories, now) ==
      (if SweepModifies(stories[0], now) then {0} else {}) + Shift(Changed(stories[1..], now))
    ensures 0 !in Shift(Changed(stories[1..], now))
  {
    var rest := stories[1..];
    var sw, swRest := Sweep(stories, now), Sweep(rest, now);
    assert sw[1..] == swRest;
    forall i: nat | 0 < i < |stories|
      ensures i in Changed(stories, now) <==> i - 1 in Changed(rest, now)
    {
      assert sw[i] == swRest[i - 1] && stories[i] == rest[i - 1];
    }
    forall i: nat ensures i in Shift(Changed(rest, now)) <==> i >= 1 && i - 1 in Changed(rest, now) {
      ShiftMember(Changed(rest, now), i);
    }
  }

  /** A set of positions moved one further on. */
  ghost function Shift(a: set<nat>): set<nat> {
    set i: nat | i in a :: i + 1
  }

  lemma ShiftMember(a: set<nat>, y: nat)
    ensures y in Shift(a) <==> y >= 1 && y - 1 in a
  {
    if y >= 1 && y - 1 in a {
      assert (y - 1) + 1 in Shift(a);
    }
  }

  /** Shifting a set of positions keeps its size. */
  lemma {:induction false} ShiftedCard(a: set<nat>)
    ensures |Shift(a)| == |a|
    decreases |a|
  {
    if a != {} {
      var x :| x in a;
      var b := a - {x};
      ShiftedCard(b);
      forall y: nat ensures y in Shift(a) <==> y in Shift(b) + {x + 1} {
        ShiftMember(a, y);
        ShiftMember(b, y);
      }
      assert Shift(a) == Shift(b) + {x + 1};
      ShiftMember(b, x + 1);
    }
  }

  /** Sweeping twice within the same millisecond is sweeping once; the
      second sweep modifies nothing. */
  lemma SweepIdempotent(stories: seq<Story>, now: Millis)
    ensures Sweep(Sweep(stories, now), now) == Sweep(stories, now)
    ensures ModifiedCount(Sweep(stories, now), now) == 0
  {
    ModifiedCountZeroIff(Sweep(stories, now), now);
  }

  /** A later cleanup reports every story expired by then again, the ones
      the first cleanup deactivated included, since each gets a new
      `updatedAt`. */
  lemma SweepAgainLater(stories: seq<Story>, first: Millis, later: Millis)
    requires first < later
    requires forall i :: 0 <= i < |stories| ==> stories[i].updatedAt < later
    ensures ModifiedCount(Sweep(stories, first), later) == ExpiredCount(stories, later)
  {
    var swept := Sweep(stories, first);
    ModifiedCountIsExpired(swept, later);
    ExpiredSameDeadlines(swept, stories, later);
  }

  /** The expired count depends only on the deadlines. */
  lemma {:induction false} ExpiredSameDeadlines(a: seq<Story>, b: seq<Story>, now: Millis)
    requires |a| == |b| && forall i :: 0 <= i < |a| ==> a[i].expiresAt == b[i].expiresAt
    ensures ExpiredCount(a, now) == ExpiredCount(b, now)
  {
    if a != [] {
      assert forall i :: 1 <= i < |a| ==> a[1..][i - 1] == a[i] && b[1..][i - 1] == b[i];
      ExpiredSameDeadlines(a[1..], b[1..], now);
    }
  }

  /** cleanupExpiredStories. */
  method CleanupExpiredStories(store: StoryCollection, now: Millis) returns (updatedCount: nat)
    requires store.Valid()
    modifies store
    ensures store.stories == Sweep(old(store.stories), now)
    ensures updatedCount == ModifiedCount(old(store.stories), now) == |Changed(old(store.stories), now)|
    ensures store.Valid()
  {
    ModifiedCountIsChanged(store.stories, now);
    updatedCount := ModifiedCount(store.stories, now);
    store.stories := Sweep(store.stories, now);
  }
}
