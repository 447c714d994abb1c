/** A story document (backend/src/models/Story.js): a post that expires a
    day after it is made, with its media sub-document and the list of who
    has viewed it; and the story collection the handlers query and update. */
module StoryModel {
  import opened Common

  /** The `media.type` enum. */
  datatype MediaKind = Text | Image | Video

  function KindName(k: MediaKind): string {
    match k
    case Text => "text"
    case Image => "image"
    case Video => "video"
  }

  /** Enum validation of `media.type`: only the three names are accepted. */
  function ParseMediaKind(s: string): (r: Option<MediaKind>)
    ensures r.Some? <==> s == "text" || s == "image" || s == "video"
    ensures r.Some? ==> KindName(r.value) == s
  {
    if s == "text" then Some(Text)
    else if s == "image" then Some(Image)
    else if s == "video" then Some(Video)
    else None
  }

  /** Every kind's name parses back to the kind. */
  lemma KindNameRoundTrip(k: MediaKind)
    ensures ParseMediaKind(KindName(k)) == Some(k)
  {
  }

  /** `duration` is in seconds and `size` in bytes. */
  datatype Media = Media(kind: MediaKind, url: string, thumbnail: string, duration: int, size: int)

  /** One `views` entry: who viewed, and when. */
  datatype View = View(user: UserId, viewedAt: Millis)

  datatype Story = Story(
    id: StoryId,
    author: UserId,
    content: string,
    media: Media,
    views: seq<View>,
    expiresAt: Millis,
    isActive: bool,
    createdAt: Millis,
    updatedAt: Millis)

  /** The lifetime of a story: 24 hours, in milliseconds. */
  const DayMillis := 24 * 60 * 60 * 1000
  const MaxContentLength := 500

  /** `content` is required (so not empty) and at most 500 UTF-16 units. */
  predicate ContentValid(content: string) {
    0 < Utf16Length(content) <= MaxContentLength
  }

  /** `hasUserViewed(u)`: some view entry names u. */
  function HasUserViewed(views: seq<View>, u: UserId): (b: bool)
    ensures b <==> exists i :: 0 <= i < |views| && views[i].user == u
  {
    if views == [] then false
    else views[0].user == u || HasUserViewed(views[1..], u)
  }

  /** No user has two view entries. */
  predicate DistinctViewers(views: seq<View>) {
    forall i, j :: 0 <= i < j < |views| ==> views[i].user != views[j].user
  }

  function Viewers(views: seq<View>): set<UserId> {
    set i | 0 <= i < |views| :: views[i].user
  }

  /** The `viewCount` virtual: the number of view entries, which is the
      number of distinct viewers while no user has two entries. */
  function ViewCount(s: Story): (n: nat)
    ensures DistinctViewers(s.views) ==> n == |Viewers(s.views)|
  {
    if DistinctViewers(s.views) then DistinctViewerCount(s.views); |s.views| else |s.views|
  }

  lemma {:induction false} DistinctViewerCount(views: seq<View>)
    requires DistinctViewers(views)
    ensures |Viewers(views)| == |views|
  {
    if views != [] {
      var init := views[..|views| - 1];
      var last := views[|views| - 1];
      DistinctViewerCount(init);
      assert Viewers(views) == Viewers(init) + {last.user} by {
        forall v ensures v in Viewers(views) <==> v in Viewers(init) + {last.user} {
          if v in Viewers(views) {
            var i :| 0 <= i < |views| && views[i].user == v;
            if i < |views| - 1 { assert init[i].user == v; }
          }
          if v in Viewers(init) {
            var i :| 0 <= i < |init| && init[i].user == v;
            assert views[i].user == v;
          }
        }
      }
      assert last.user !in Viewers(init);
    }
  }

  /** The `views` list after `addView(u)` at time `now`: a first view by u
      is appended; a repeat view changes nothing. */
  function WithView(views: seq<View>, u: UserId, now: Millis): (r: seq<View>)
    ensures HasUserViewed(r, u)
    ensures |r| == |views| + (if HasUserViewed(views, u) then 0 else 1)
    ensures r[..|views|] == views
    ensures |r| > |views| ==> r[|views|] == View(u, now)
    ensures forall v :: v != u ==> (HasUserViewed(r, v) <==> HasUserViewed(views, v))
    ensures DistinctViewers(views) ==> DistinctViewers(r)
  {
    if HasUserViewed(views, u) then views
    else
      var r := views + [View(u, now)];
      assert r[|views|].user == u;
      r
  }

  /** The story document after `addView(u)` at time `now`: a first view is
      pushed and the save stamps `updatedAt`; a repeat view leaves the
      document as it was, so nothing is written. */
  function StoryWithView(s: Story, u: UserId, now: Millis): (r: Story)
    ensures r.views == WithView(s.views, u, now)
    ensures HasUserViewed(s.views, u) ==> r == s
    ensures !HasUserViewed(s.views, u) ==> r.updatedAt == now
    ensures r == s.(views := r.views, updatedAt := r.updatedAt)
  {
    if HasUserViewed(s.views, u) then s else s.(views := WithView(s.views, u, now), updatedAt := now)
  }

  /** `addView(u)` called once per time in `nows`, in order. */
  function AddViews(views: seq<View>, u: UserId, nows: seq<Millis>): seq<View>
    decreases |nows|
  {
    if nows == [] then views else AddViews(WithView(views, u, nows[0]), u, nows[1..])
  }

  /** Once u has viewed, further views by u change nothing. */
  lemma {:induction false} AddViewsAfterViewed(views: seq<View>, u: UserId, nows: seq<Millis>)
    requires HasUserViewed(views, u)
    ensures AddViews(views, u, nows) == views
    decreases |nows|
  {
    if nows != [] {
      AddViewsAfterViewed(WithView(views, u, nows[0]), u, nows[1..]);
    }
  }

  /** addView is idempotent: viewing N >= 1 times gives the list a single
      view gives, stamped with the first view's time. */
  lemma AddViewIdempotent(views: seq<View>, u: UserId, nows: seq<Millis>)
    requires |nows| >= 1
    ensures AddViews(views, u, nows) == WithView(views, u, nows[0])
  {
    AddViewsAfterViewed(WithView(views, u, nows[0]), u, nows[1..]);
  }

  /** The stories collection. */
  class StoryCollection {
    var stories: seq<Story>

    /** Ids are unique, every stored story passed schema validation, and
        nobody appears twice among a story's viewers. */
    ghost predicate Valid()
      reads this
    {
      && (forall i, j :: 0 <= i < j < |stories| ==> stories[i].id != stories[j].id)
      && (forall i :: 0 <= i < |stories| ==> ContentValid(stories[i].content))
      && (forall i :: 0 <= i < |stories| ==> DistinctViewers(stories[i].views))
    }

    constructor ()
      ensures stories == [] && Valid()
    {
      stories := [];
    }

    /** `Story.findById`: the position of the story with this id. */
    function IndexOf(id: StoryId): (r: Option<nat>)
      reads this
      ensures r.Some? ==> r.value < |stories| && stories[r.value].id == id
      ensures r.None? <==> forall j :: 0 <= j < |stories| ==> stories[j].id != id
    {
      FirstIndex(stories, (s: Story) => s.id == id)
    }

    /** `story.addView(u)` followed by its save: the story at position i
        gets u's view appended and `updatedAt` stamped unless u has viewed
        it already; no other story changes. */
    method AddView(i: nat, u: UserId, now: Millis)
      requires i < |stories|
      requires Valid()
      modifies this
      ensures stories == old(stories)[i := StoryWithView(old(stories)[i], u, now)]
      ensures HasUserViewed(stories[i].views, u)
      ensures Valid()
    {
      var s := stories[i];
      if !HasUserViewed(s.views, u) {
        stories := stories[i := s.(views := s.views + [View(u, now)], updatedAt := now)];
      }
    }
  }
}
