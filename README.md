# InstaChat backend domain rules in Dafny

This project models the domain rules of the InstaChat backend, an
Express/Mongoose server for a language-exchange social app. The database is
replaced by in-memory collections. Document ids are natural numbers
compared only for equality. Dates are integer milliseconds. The following
are parameters of the operations:

- the random draws (OTP, avatar index, filename suffix);
- the clock;
- the bcrypt comparison;
- the fresh ids the database would assign.

The modules follow the source files:

- `Common` holds the JavaScript behaviour the handlers rely on:
  - truthiness of optional body fields;
  - `String.prototype.length` in UTF-16 code units;
  - `trim` with the ECMAScript whitespace set;
  - number printing;
  - `find`/`findOne` as "first match" and `find(filter)` as an order-keeping filter;
  - `$addToSet` and `Array.prototype.filter(x => x !== v)`.
- `GroupModel` (`Group.js`) is a class `Group` whose methods `AddMember`,
  `RemoveMember` and `UpdateMemberRole` update `members`, `admins` and
  `moderators` in place. The virtuals `memberCount`/`adminCount` and the
  tests `isMember`/`isAdmin`/`isModerator` are functions reading the
  object. `IsAdmin` and `IsModerator` are plain list membership, as in the
  source. `Group.Valid` states the invariant the handlers keep:
  - the document passes schema validation;
  - at most one active entry per user;
  - `admins` and `moderators` hold exactly the active entries with that
    role, without repeats;
  - an active group's creator is an admin.
- `GroupController` (`group.controller.js`) holds the handlers as methods
  on a `Group?`, where `null` is the 404 of `findById`.
- `StoryModel` (`Story.js`) covers the story document, `viewCount`,
  `hasUserViewed`, `addView`, and a `StoryCollection` class.
- `StoryController` (`story.controller.js`) covers:
  - creation;
  - the feed query and its newest-first sort;
  - the `forEach` loop that groups the feed by author, as a method with
    loop invariants proved against a functional definition `Feed`;
  - own stories, view, soft delete, and the expiry sweep.
- `Users` (`User.js`) covers the user document, `$addToSet` on friend
  lists, and a `UserCollection` class. `matchPassword` is `MatchPassword`,
  with bcrypt as a parameter.
- `Friends` (`user.controller.js`) covers friend requests, accepting,
  the request listings, recommendations and mutual friends. FriendRequest.js
  is not part of this model: its shape (sender, recipient, pending or
  accepted status) is taken from the way the handlers use it.
- `Auth` (`auth.controller.js`) covers:
  - the signup guards, including the email regex as a string predicate;
  - account creation;
  - the login gate;
  - the OTP verification cascade, resend, and the onboarding missing-fields
    list.
- `Upload` (`upload.js`) covers:
  - Node's POSIX `path.extname`;
  - `toLowerCase`;
  - the unanchored allow-list regex of `fileFilter`;
  - `getFileInfo`'s classification, `getFileUrl`, and the story filename
    generator.

Where the schema and the controller disagree, the code decides:

- `Story.js` requires a non-empty `content`. `createStory` accepts a
  media-only request and stores `content || ""`, so that save fails with
  500. The controller's own 400 check and the schema rule are modelled
  separately (`CreateGuardIff`, `MediaOnlyStoryRejected`).
- `onboard` asks for `nativeLanguage` and `learningLanguage`, but the user
  schema has no such paths, so Mongoose drops them on save.
- `updateMemberRole` edits the first entry for the user, which can be an
  inactive entry left by an earlier leave.

## Model

| member | source | states |
|---|---|---|
| Common.Utf16Length | backend/src/controllers/auth.controller.js:14 | a string's JavaScript length is between its code-point count and twice it, and zero only for the empty string |
| Common.TrimStart | backend/src/controllers/group.controller.js:11-13 | the result is a suffix of the input that does not start with whitespace, and the cut-off prefix is all whitespace |
| Common.TrimEnd | backend/src/controllers/group.controller.js:11-13 | the result is a prefix of the input that does not end with whitespace, and the cut-off suffix is all whitespace |
| Common.Trim | backend/src/controllers/group.controller.js:11-13 | `trim` yields the contiguous piece of the input that starts where the leading whitespace ends, everything cut off on either side is whitespace, and the result is empty or neither starts nor ends with whitespace |
| Common.CoreOfSuffix | backend/src/controllers/group.controller.js:11-13 | cutting whitespace off the front and then off the back leaves a piece of the input with only whitespace around it |
| Common.TrimEmptyIff | backend/src/controllers/group.controller.js:11-13 | a name trims to the empty string exactly when it is all whitespace |
| Common.TrimIdempotent | backend/src/controllers/group.controller.js:15-19 | trimming an already trimmed name changes nothing |
| Common.NatToString | backend/src/lib/upload.js:23-25 | a number prints as a non-empty string of decimal digits with no leading zero |
| Common.NatToStringRoundTrip | backend/src/lib/upload.js:23-25 | reading back the printed digits gives the number |
| Common.NatToStringInjective | backend/src/lib/upload.js:23-25 | different numbers print differently |
| Common.NatToStringLength | backend/src/controllers/auth.controller.js:33-34 | a number with k decimal digits prints as exactly k characters |
| Common.DistinctCardinality | backend/src/models/Group.js:112-114 | a list without repeats has as many distinct values as entries |
| Common.Without | backend/src/models/Group.js:162-164 | removing an id keeps exactly the other elements, keeps a repeat-free list repeat-free, and leaves a list without the id unchanged |
| Common.WithoutConcat | backend/src/controllers/group.controller.js:188-191 | removing an id keeps the order of the other elements: it distributes over concatenation, drops the id itself and keeps every other element |
| Common.WithoutHead | backend/src/controllers/group.controller.js:188-191 | the first element left after removing an id is the first element of the list that is not that id |
| Common.AddToSet | backend/src/controllers/user.controller.js:103-109 | `$addToSet` ends with the value present, adds nothing else, and never creates a repeat |
| Common.Filter | backend/src/controllers/story.controller.js:50-56 | `find(filter)` returns exactly the elements that satisfy the filter |
| Common.FilterConcat | backend/src/controllers/story.controller.js:50-56 | filtering keeps relative order: it distributes over concatenation |
| Common.FilterNoDuplicates | backend/src/controllers/user.controller.js:205-209 | filtering a list without repeats gives a list without repeats |
| Common.FirstIndex | backend/src/models/Group.js:171-173 | `find`/`findOne` returns the first position that matches, or nothing exactly when no position matches |
| GroupModel.ActiveCount | backend/src/models/Group.js:107-109 | the active count never exceeds the number of entries |
| GroupModel.ActiveCountIsActiveEntries | backend/src/models/Group.js:107-109 | the active count equals the number of entries with `isActive`; inactive entries never count |
| GroupModel.HasActiveEntry | backend/src/models/Group.js:117-121 | true exactly when some entry is for the user and active |
| GroupModel.DeactivateNonMember | backend/src/models/Group.js:155-161 | deactivating a user without an active entry leaves the entries unchanged |
| GroupModel.DeactivateCount | backend/src/models/Group.js:155-161 | with one active entry per user, deactivating a member lowers the active count by one and deactivating a non-member by zero |
| GroupModel.ActiveCountAppend | backend/src/models/Group.js:136-141 | appending an entry raises the active count by one exactly when the entry is active |
| GroupModel.FounderOnly | backend/src/controllers/group.controller.js:15-27 | a group holding only its creator as admin has consistent roles and one active member |
| GroupModel.Group.constructor | backend/src/models/Group.js:3-98 | a new group stores the given fields, no moderators, and `isActive` true by default |
| GroupModel.Group.AdminCount | backend/src/models/Group.js:112-114 | in a valid group `adminCount` is the number of distinct admins |
| GroupModel.Group.MemberCount | backend/src/models/Group.js:107-109 | `memberCount` is the number of active entries and at most the number of entries |
| GroupModel.Group.IsMember | backend/src/models/Group.js:117-121 | `isMember(u)` holds exactly when some entry has user u and is active |
| GroupModel.Group.IsAdmin | backend/src/models/Group.js:124-126 | in a valid group `isAdmin(u)` holds exactly when u has an active entry with role admin |
| GroupModel.Group.IsModerator | backend/src/models/Group.js:129-131 | in a valid group `isModerator(u)` holds exactly when u has an active entry with role moderator |
| GroupModel.Group.AddMember | backend/src/models/Group.js:134-152 | an active member changes nothing; otherwise exactly one active entry with the role is appended, `admins`/`moderators` grow only for those roles, `memberCount` grows by one, and no other user's membership changes |
| GroupModel.Group.RemoveMember | backend/src/models/Group.js:155-167 | every entry of the user is deactivated and the user leaves `admins` and `moderators`; other users' entries, memberships and roles are unchanged |
| GroupModel.Group.UpdateMemberRole | backend/src/models/Group.js:170-194 | without an entry nothing changes; otherwise the user's first entry gets the role, and the user ends in `admins`, `moderators` or neither as the role says, without repeats |
| GroupController.NameMissingIff | backend/src/controllers/group.controller.js:11-13 | a name counts as missing exactly when it is absent or all whitespace |
| GroupController.CreateGroup | backend/src/controllers/group.controller.js:5-45 | a missing name gives 400; otherwise the save succeeds iff the schema limits hold; the new group has the trimmed name, the creator as its sole active admin member and sole admin, invites and file sharing on, and capacity 100 |
| GroupController.GetGroupDetails | backend/src/controllers/group.controller.js:114-138 | 404 for a missing group, 403 for a non-member, otherwise the group |
| GroupController.JoinGroup | backend/src/controllers/group.controller.js:141-170 | the checks already-member (400), private (403) and full (400) come in this order, and a refusal changes nothing; on success one active member entry is appended; membership consistency holds; capacity is never exceeded when it held before |
| GroupController.AddPlainMember | backend/src/models/Group.js:134-152 | adding a non-member with role member appends one entry, keeps the role lists, and keeps the group consistent |
| GroupController.LeaveGroup | backend/src/controllers/group.controller.js:173-205 | a non-member gets 400 and nothing changes; a leaving creator hands the group to the first other admin, or the group is deactivated when there is none; the leaver is removed, other entries are untouched, and `memberCount` drops by one |
| GroupController.RemoveFromGroup | backend/src/models/Group.js:155-167 | `removeMember` keeps the admin and moderator lists in agreement with the active entries |
| GroupController.InviteToGroup | backend/src/controllers/group.controller.js:208-247 | the checks inviter is a member, inviter is an admin when member invites are off, invitee exists, invitee is not a member, and the group is not full come in this order; only then is the invitee appended as a member; capacity is preserved |
| GroupController.MergeSettings | backend/src/controllers/group.controller.js:270-272 | each setting is the provided value when given, the current one otherwise |
| GroupController.MergeSettingsLaws | backend/src/controllers/group.controller.js:270-272 | an empty patch changes nothing, and merging the same patch twice equals merging it once |
| GroupController.UpdateGroupSettings | backend/src/controllers/group.controller.js:250-281 | non-admins get 403 and nothing changes; for admins only the provided fields change, with settings merged key by key; members, roles, creator and status are kept |
| GroupController.ApplyUpdate | backend/src/controllers/group.controller.js:261-274 | the update writes exactly the provided name, description, tags, avatar and merged settings |
| GroupController.UpdatedName | backend/src/controllers/group.controller.js:266 | a falsy name keeps the current one; a given name is stored trimmed, with no whitespace at either end, and is empty exactly when it was all whitespace |
| GroupController.UpdatedDescription | backend/src/controllers/group.controller.js:267 | an absent description keeps the current one; a given one is stored trimmed, with no whitespace at either end, and is empty exactly when it was all whitespace |
| GroupController.DeleteGroup | backend/src/controllers/group.controller.js:284-306 | only the creator may delete (403 otherwise, nothing changes); deletion only clears `isActive`, and memberships are retained |
| GroupController.JoinLeaveRestores | backend/src/models/Group.js:136-141 | adding a non-member as member and then removing them restores `memberCount` and the role lists |
| GroupController.AdminCountIsDistinctAdmins | backend/src/models/Group.js:112-114 | in a consistent group `adminCount` is the number of distinct admins, and every admin is an active member |
| StoryModel.ParseMediaKind | backend/src/models/Story.js:16-20 | a media type is accepted exactly when it is text, image or video, and its name is kept |
| StoryModel.KindNameRoundTrip | backend/src/models/Story.js:16-20 | every media kind's name parses back to that kind |
| StoryModel.HasUserViewed | backend/src/models/Story.js:72-74 | true exactly when some view is by the user |
| StoryModel.ViewCount | backend/src/models/Story.js:67-69 | with views deduplicated, `viewCount` is the number of distinct viewers |
| StoryModel.DistinctViewerCount | backend/src/models/Story.js:67-69 | a view list without repeated viewers has as many viewers as entries |
| StoryModel.WithView | backend/src/models/Story.js:77-83 | afterwards the user has viewed; a new viewer adds exactly one view at the end and old views keep their order and times; other users' viewed status is unchanged; distinct viewers stay distinct |
| StoryModel.StoryWithView | backend/src/models/Story.js:77-83 | the story's views become the list after the view; a repeat viewer leaves the document untouched, and a new viewer's save stamps `updatedAt` with now; no other field changes |
| StoryModel.AddViewsAfterViewed | backend/src/models/Story.js:77-83 | once the user has viewed, any further `addView` calls leave the views unchanged |
| StoryModel.AddViewIdempotent | backend/src/models/Story.js:77-83 | calling `addView` N ≥ 1 times for the same user gives the same views as calling it once |
| StoryModel.StoryCollection.constructor | backend/src/models/Story.js:85-87 | an empty story collection is valid |
| StoryModel.StoryCollection.IndexOf | backend/src/controllers/story.controller.js:114 | `findById` finds the first story with the id, or nothing exactly when there is none |
| StoryModel.StoryCollection.AddView | backend/src/models/Story.js:77-83 | only the chosen story changes, as `addView` and its save change it; afterwards the user has viewed it and ids stay unique |
| StoryController.NewStory | backend/src/controllers/story.controller.js:6-38 | an empty body gives 400; otherwise the save succeeds iff content is present and within limits and the media type is valid; the story has defaults text, "", "", 0, 0, no views, is active, and is timestamped now for both creation and update |
| StoryController.CreateGuardIff | backend/src/controllers/story.controller.js:12-16 | the 400 refusal happens exactly when both content and media URL are empty |
| StoryController.MediaOnlyStoryRejected | backend/src/models/Story.js:10-14 | a media-only story passes the handler's check but fails the schema's required content |
| StoryController.TextStoryDefaults | backend/src/models/Story.js:50-59 | a text-only story gets empty media, expiry 24 hours after creation, both timestamps now, and is active |
| StoryController.CreateStory | backend/src/controllers/story.controller.js:18-28 | a created story is appended to the collection; a refused one stores nothing |
| StoryController.FeedQuery | backend/src/controllers/story.controller.js:50-56 | the query returns exactly the collection's stories that are visible to the caller, and no more entries than the collection has |
| StoryController.FeedQueryExact | backend/src/controllers/story.controller.js:50-56 | the feed query holds exactly the stories by friends that are active and expire after now |
| StoryController.InsertNewest | backend/src/controllers/story.controller.js:56 | inserting into a newest-first list keeps it newest-first and adds exactly that story |
| StoryController.HeadIsNewest | backend/src/controllers/story.controller.js:56 | in a newest-first list the first story is at least as new as every other, and the rest is newest-first |
| StoryController.NewestCons | backend/src/controllers/story.controller.js:56 | putting a story in front of a newest-first list of older-or-equal stories keeps it newest-first |
| StoryController.NoNewerAfterInsert | backend/src/controllers/story.controller.js:56 | inserting a story no newer than a bound into a list of stories no newer than the bound keeps every story within the bound |
| StoryController.SortNewestFirst | backend/src/controllers/story.controller.js:56 | the sort is a permutation and newest-first |
| StoryController.AuthorsInOrder | backend/src/controllers/story.controller.js:60-79 | each author of a story is listed once, and only authors of stories are listed |
| StoryController.ItemsBy | backend/src/controllers/story.controller.js:60-79 | a group's items are the author's stories marked with the viewer's `hasViewed`, and the group is empty exactly when the author wrote none |
| StoryController.Unviewed | backend/src/controllers/story.controller.js:66-78 | `hasUnviewed` holds exactly when some item is unviewed |
| StoryController.FeedOver | backend/src/controllers/story.controller.js:81 | there is one group per listed author, in the listed order |
| StoryController.EntryStep | backend/src/controllers/story.controller.js:60-79 | one more story extends its author's group by one item and updates `hasUnviewed`; other groups are unchanged |
| StoryController.EntryOfNewAuthor | backend/src/controllers/story.controller.js:62-68 | an author not yet met starts with an empty group and `hasUnviewed` false |
| StoryController.AuthorsInOrderSnoc | backend/src/controllers/story.controller.js:60-68 | one more story lists its author at the end exactly when the author was not listed before |
| StoryController.ItemsBySnoc | backend/src/controllers/story.controller.js:70-73 | one more story appends its item to its author's items and to no one else's |
| StoryController.OpenGroup | backend/src/controllers/story.controller.js:61-68 | opening a group for an author not yet met extends the key order by that author and leaves every existing group as it was |
| StoryController.PushedGroup | backend/src/controllers/story.controller.js:70-78 | pushing the item and raising `hasUnviewed` for an unviewed story gives the author's group over one more story |
| StoryController.GroupsStep | backend/src/controllers/story.controller.js:60-79 | replacing the author's group by its extension makes every group that of the longer story prefix |
| StoryController.AddToGroups | backend/src/controllers/story.controller.js:60-79 | one pass of the `forEach` callback turns the groups of a story prefix into the groups of that prefix plus the story |
| StoryController.GroupByAuthor | backend/src/controllers/story.controller.js:58-81 | the `forEach` loop builds exactly the feed groups of `Feed` |
| StoryController.GetStoriesFeed | backend/src/controllers/story.controller.js:41-86 | the feed is the grouping of the sorted, filtered stories of the viewer's friends; an unknown viewer or author is a 500 |
| StoryController.FeedAuthorsDistinct | backend/src/controllers/story.controller.js:60-79 | no author has two groups |
| StoryController.FeedAuthorsFromStories | backend/src/controllers/story.controller.js:60-79 | every group's author wrote one of the stories |
| StoryController.FeedCoversAuthors | backend/src/controllers/story.controller.js:60-79 | every story's author has a group |
| StoryController.FeedGroupContents | backend/src/controllers/story.controller.js:66-78 | each group holds only its author's stories with the viewer's `hasViewed`, and its `hasUnviewed` holds exactly when one of them is unviewed |
| StoryController.ItemsByKeepOrder | backend/src/controllers/story.controller.js:56-79 | within a group, stories stay newest-first |
| StoryController.FeedKeepsOrder | backend/src/controllers/story.controller.js:56-79 | in every group, stories appear newest-first |
| StoryController.StoriesOf | backend/src/controllers/story.controller.js:81 | the stories of a group, position by position |
| StoryController.FeedStoriesAppend | backend/src/controllers/story.controller.js:81 | the stories of a feed with one more group are the old ones followed by that group's |
| StoryController.FeedStoriesCons | backend/src/controllers/story.controller.js:81 | the stories of the groups are those of the first group followed by those of the rest |
| StoryController.StoriesStep | backend/src/controllers/story.controller.js:70-73 | one more story adds exactly that story to its author's stories and nothing to anyone else's |
| StoryController.FeedOverSnoc | backend/src/controllers/story.controller.js:81 | listing one more author appends that author's group after the others |
| StoryController.NewAuthorEntry | backend/src/controllers/story.controller.js:62-73 | the group a new author opens holds just that story |
| StoryController.FeedOverAppendStory | backend/src/controllers/story.controller.js:60-79 | one more story adds exactly that story to the groups' contents |
| StoryController.NewAuthorStep | backend/src/controllers/story.controller.js:62-68 | a story by a new author adds exactly that story to the feed's contents |
| StoryController.FeedPartition | backend/src/controllers/story.controller.js:60-81 | the groups together hold every input story exactly once (the grouping is a partition) |
| StoryController.FeedExactlyVisible | backend/src/controllers/story.controller.js:46-81 | a story is in the feed exactly when it is by a friend, active and not yet expired |
| StoryController.MyStories | backend/src/controllers/story.controller.js:89-106 | own stories are the caller's active, unexpired stories, newest first, each as often as the collection holds it |
| StoryController.ExpiryBoundary | backend/src/controllers/story.controller.js:114-123 | a story in the feed is viewable; at exactly `expiresAt = now` a story is still viewable but no longer in the feed or the caller's own list |
| StoryController.ViewStory | backend/src/controllers/story.controller.js:109-130 | 404 for an unknown id; 400 for an inactive story or one that expired before now; otherwise only that story changes, by the view and its save |
| StoryController.DeleteStory | backend/src/controllers/story.controller.js:133-155 | succeeds exactly when a story with the id is by the caller, otherwise 404 and nothing changes; deletion only clears `isActive`, stamping `updatedAt` when the flag actually changed, and content and views are kept |
| StoryController.Sweep | backend/src/controllers/story.controller.js:179-186 | exactly the stories that expired before now become inactive, and each of them gets `updatedAt` now from the schema's timestamps; nothing else about any story changes |
| StoryController.ModifiedCount | backend/src/controllers/story.controller.js:179-186 | the reported count never exceeds the number of stories |
| StoryController.ExpiredCount | backend/src/controllers/story.controller.js:179-181 | the number of stories matched by `expiresAt < now` is at most the collection size and zero exactly when none has expired |
| StoryController.ModifiedCountIsExpired | backend/src/controllers/story.controller.js:179-186 | when no stored `updatedAt` is this very instant, `modifiedCount` is the number of expired stories, active or already inactive, and zero exactly when none has expired |
| StoryController.ExpiredSameDeadlines | backend/src/controllers/story.controller.js:179-181 | the expired count depends only on the stories' deadlines |
| StoryController.ModifiedCountZeroIff | backend/src/controllers/story.controller.js:179-186 | the count is zero exactly when the update changes no story, that is when every expired story is already inactive and stamped at this instant |
| StoryController.SweepIdempotent | backend/src/controllers/story.controller.js:179-186 | a second sweep within the same millisecond changes nothing and reports zero |
| StoryController.SweepAgainLater | backend/src/controllers/story.controller.js:179-186 | a later cleanup reports again every story expired by then, including the ones an earlier cleanup deactivated |
| StoryController.ModifiedCountIsChanged | backend/src/controllers/story.controller.js:179-186 | `modifiedCount` is the number of stories the update actually changes, counting the `updatedAt` stamp as a change |
| StoryController.ChangedStep | backend/src/controllers/story.controller.js:179-186 | the changed positions of a collection are its first story, when the update modifies it, plus the changed positions of the rest shifted by one |
| StoryController.ShiftMember | backend/src/controllers/story.controller.js:179-186 | a position is in a shifted set exactly when the position before it is in the set |
| StoryController.ShiftedCard | backend/src/controllers/story.controller.js:179-186 | shifting a set of positions keeps its size |
| StoryController.CleanupExpiredStories | backend/src/controllers/story.controller.js:177-192 | the collection becomes the swept one, and the returned count is the number of stories the update changed, which includes expired stories that were already inactive |
| Users.AddFriend | backend/src/controllers/user.controller.js:103-109 | only the named user's friend list changes; it gains the friend and nothing else, and a repeat-free list stays repeat-free |
| Users.AddFriendIdempotent | backend/src/controllers/user.controller.js:103-109 | repeating the `$addToSet` update changes nothing |
| Users.EmailIndex | backend/src/controllers/auth.controller.js:24-27 | `findOne({ email })` finds the first user with the email, or nothing exactly when there is none |
| Users.MatchPassword | backend/src/models/User.js:108-115 | an account without a password never matches; otherwise the match is the bcrypt comparison of the entered password with the stored hash |
| Users.UserCollection.constructor | backend/src/models/User.js:4-92 | an empty user collection is valid |
| Users.UserCollection.IndexOfId | backend/src/controllers/user.controller.js:47-50 | `findById` finds the user with the id, or nothing exactly when there is none |
| Users.UserCollection.AddToFriends | backend/src/controllers/user.controller.js:103-109 | the friend-list update keeps ids and emails unique and friend lists repeat-free |
| Users.UserCollection.FindById | backend/src/controllers/user.controller.js:197-202 | a user is returned exactly when one has the id, and it is that user |
| Friends.RequestCollection.constructor | backend/src/controllers/user.controller.js:71-74 | an empty request collection is valid |
| Friends.RequestCollection.IndexOf | backend/src/controllers/user.controller.js:89-91 | `findById` finds the request with the id, or nothing exactly when there is none |
| Friends.SendRefusal | backend/src/controllers/user.controller.js:43-69 | a request is allowed exactly when it is not to oneself, the recipient exists and does not list the sender, and no request between the two exists in either direction; the refusals come in that order: self-request 400, unknown recipient 404, already friends 400, existing request 400 |
| Friends.SendKeepsOnePerPair | backend/src/controllers/user.controller.js:58-74 | if each unordered pair had at most one request before an allowed send, the same holds after it |
| Friends.SendFriendRequest | backend/src/controllers/user.controller.js:37-81 | a refused request changes nothing; otherwise exactly one pending request from sender to recipient is appended, and the one-request-per-pair invariant is kept |
| Friends.Befriend | backend/src/controllers/user.controller.js:103-109 | after accepting, each party lists the other, friend lists stay repeat-free, only friend lists change and nobody else is touched |
| Friends.BefriendIdempotent | backend/src/controllers/user.controller.js:103-109 | accepting the same pair again adds nothing |
| Friends.AcceptFriendRequest | backend/src/controllers/user.controller.js:83-116 | 404 for an unknown request and 403 for anyone but the recipient, with nothing changed; otherwise the request becomes accepted and both parties are added to each other's friends |
| Friends.IncomingRequests | backend/src/controllers/user.controller.js:120-123 | the incoming list holds exactly the pending requests to the caller |
| Friends.AcceptedRequests | backend/src/controllers/user.controller.js:125-128 | the accepted list holds exactly the accepted requests from the caller |
| Friends.OutgoingRequests | backend/src/controllers/user.controller.js:139-142 | the outgoing list holds exactly the pending requests from the caller |
| Friends.ListingsClassify | backend/src/controllers/user.controller.js:118-149 | a pending request is outgoing for its sender and incoming for its recipient only; an accepted one is listed as accepted for its sender and in neither pending list |
| Friends.AcceptMovesRequest | backend/src/controllers/user.controller.js:98-99 | accepting moves a request from the recipient's incoming list and the sender's outgoing list into the sender's accepted list |
| Friends.Recommended | backend/src/controllers/user.controller.js:5-22 | recommendations are exactly the onboarded users other than the caller who are not in the caller's friend list |
| Friends.AcceptedNotRecommended | backend/src/controllers/user.controller.js:10-16 | after accepting, neither party is recommended to the other |
| Friends.MutualFriendIds | backend/src/controllers/user.controller.js:205-209 | mutual friends are exactly the ids in both friend lists |
| Friends.MutualFriendIdsInMyOrder | backend/src/controllers/user.controller.js:205-209 | mutual friends follow the caller's order: the filter distributes over concatenation and keeps a single id exactly when the target lists it |
| Friends.MutualFriendsProperties | backend/src/controllers/user.controller.js:205-209 | mutual friendship is symmetric as a set, no longer than the caller's list, and free of repeats when that list is |
| Friends.GetMutualFriends | backend/src/controllers/user.controller.js:191-221 | an unknown caller or target gives 500; otherwise the result holds exactly the users whose ids are in both friend lists |
| Auth.EmailValidIff | backend/src/controllers/auth.controller.js:18-22 | the scanning check accepts exactly the strings matching `^[^\s@]+@[^\s@]+\.[^\s@]+$` |
| Auth.EmailValidMatches | backend/src/controllers/auth.controller.js:18-22 | every address the scanning check accepts splits at its `@` and a later dot into three non-empty parts without whitespace or `@` |
| Auth.MatchIsValid | backend/src/controllers/auth.controller.js:18-22 | every address made of three such parts joined by `@` and a dot passes the scanning check |
| Auth.UserByEmail | backend/src/controllers/auth.controller.js:24-27 | an account is found exactly when one has the email, and it has that email |
| Auth.SignupRefusal | backend/src/controllers/auth.controller.js:10-27 | the refusals come in this order, each with its own status and reason: a missing field (400), a password shorter than 6 (400), an email not matching the regex (400), an existing email (409); when none applies signup is allowed |
| Auth.OtpCode | backend/src/controllers/auth.controller.js:33-34 | the OTP is six decimal digits without a leading zero whose value is 100000 plus the draw |
| Auth.AvatarUrl | backend/src/controllers/auth.controller.js:29-30 | the avatar URL is the service's public base, the index in decimal digits that read back as the index, and `.png` |
| Auth.AvatarUrlInjective | backend/src/controllers/auth.controller.js:29-30 | different indices give different avatar URLs |
| Auth.NewAccount | backend/src/controllers/auth.controller.js:29-44 | a new account is unverified and not onboarded, has no friends, a six-digit OTP expiring 10 minutes later, and one of the 100 avatars |
| Auth.Signup | backend/src/controllers/auth.controller.js:6-70 | a refusal changes nothing; otherwise exactly the new account is stored, and the reply carries its id and no session |
| Auth.Login | backend/src/controllers/auth.controller.js:72-110 | missing fields give 400; a session is issued exactly when the account exists, the password matches and no verification is pending; 403 happens exactly when the password matches and verification is pending |
| Auth.MustVerify | backend/src/controllers/auth.controller.js:86-92 | the login gate holds back exactly the unverified accounts that have an OTP or an expiry pending; a verified account is never held |
| Auth.LoginHidesUnknownAccount | backend/src/controllers/auth.controller.js:80-84 | an unknown email and a wrong password get the same 401 |
| Auth.NoLoginBeforeVerification | backend/src/controllers/auth.controller.js:86-92 | a freshly signed-up account cannot log in with any password |
| Auth.Verify | backend/src/controllers/auth.controller.js:127-146 | already verified gives 200 with no change; otherwise the refusals come in order, each a 400 that changes nothing: no OTP pending, OTP expired, wrong code; success happens exactly when none applies, and then the account is verified and both OTP fields are cleared |
| Auth.VerifyIdempotent | backend/src/controllers/auth.controller.js:127-129 | a second verification after success takes the already-verified branch and changes nothing |
| Auth.VerifiedPassesGate | backend/src/controllers/auth.controller.js:86-92 | a verified account is no longer held at the login gate |
| Auth.VerifyEmailOtp | backend/src/controllers/auth.controller.js:117-164 | missing input gives 400 and an unknown email 404; otherwise the account is updated by the verification cascade and no other account changes |
| Auth.Reissue | backend/src/controllers/auth.controller.js:177-181 | a resend replaces only the OTP and its expiry, with a new six-digit code valid for 10 minutes |
| Auth.ResendThenVerify | backend/src/controllers/auth.controller.js:177-181 | the freshly sent code verifies the account at any time up to its expiry |
| Auth.ResendEmailOtp | backend/src/controllers/auth.controller.js:166-194 | missing email gives 400 and unknown email 404, changing nothing; a verified account is left unchanged; an unverified one gets a new code and expiry |
| Auth.MissingFields | backend/src/controllers/auth.controller.js:202-213 | the list holds exactly the falsy fields, in the fixed order fullName, bio, nativeLanguage, learningLanguage, location |
| Auth.OnboardGuardIff | backend/src/controllers/auth.controller.js:202-213 | nothing is missing exactly when all five fields are present and non-empty |
| Auth.Onboard | backend/src/controllers/auth.controller.js:196-242 | missing fields give 400 with their names; an unknown caller gives 404; otherwise only the caller's name, bio and location change and the account is marked onboarded |
| Upload.StripTrailingSlashes | backend/src/lib/upload.js:24 | a prefix of the path that does not end in `/`, with only slashes cut off |
| Upload.AfterLastSlash | backend/src/lib/upload.js:24 | a suffix of the path with no `/`, preceded by a `/` when it is shorter than the path |
| Upload.LastDot | backend/src/lib/upload.js:24 | the position of the last `.`, or nothing exactly when there is none |
| Upload.Extname | backend/src/lib/upload.js:24 | the extension is empty or a dot followed by no other dot and no slash, and it ends the path |
| Upload.ExtOfBase | backend/src/lib/upload.js:24 | from the last dot of a slash-free final component to its end is a dot-led, dot-free, slash-free suffix of the path |
| Upload.LastDotAt | backend/src/lib/upload.js:24 | a dot with no dot after it is the last dot |
| Upload.LastDotOfDotted | backend/src/lib/upload.js:24 | in `stem.suffix` with a dot-free suffix the last dot is the one after the stem |
| Upload.ExtnameOfPlainName | backend/src/lib/upload.js:24 | for a name without slashes the extension is taken from the name itself |
| Upload.ExtnameOfDottedName | backend/src/lib/upload.js:24 | a name `stem.suffix` without slashes, whose suffix has no dot, has extension `.suffix` |
| Upload.NoExtnameWithoutInnerDot | backend/src/lib/upload.js:24 | a name with no dot after its first character has no extension |
| Upload.NoSlashBase | backend/src/lib/upload.js:24 | a name without slashes is its own base name |
| Upload.LowerChar | backend/src/lib/upload.js:32 | lowercasing a character yields at least one character |
| Upload.ToLowerCase | backend/src/lib/upload.js:32 | lowercasing never shortens a string |
| Upload.ToLowerCaseIsLower | backend/src/lib/upload.js:32 | a lowercased string has no letter that lowercases further |
| Upload.LowerUnchanged | backend/src/lib/upload.js:32 | lowercasing an already lower-case string changes nothing |
| Upload.ToLowerCaseIdempotent | backend/src/lib/upload.js:32 | lowercasing twice is lowercasing once |
| Upload.ContainsAt | backend/src/lib/upload.js:31-33 | true exactly when the word occurs at or after the position |
| Upload.FileFilter | backend/src/lib/upload.js:30-40 | a file is accepted exactly when both its lowercased extension and its MIME type contain one of the eight allowed words as a substring |
| Upload.TestAllowed | backend/src/lib/upload.js:31-33 | the regex test holds exactly when the string contains an allowed word |
| Upload.BaseUrl | backend/src/lib/upload.js:57 | the base URL is the configured one when set, the default `http://localhost:5001` otherwise, and never empty |
| Upload.GetFileUrl | backend/src/lib/upload.js:55-59 | an empty filename gives ""; otherwise the URL is exactly the base, then `/uploads/stories/`, then the filename, with nothing else in it |
| Upload.StoryFilename | backend/src/lib/upload.js:21-26 | a generated name starts with `story-` and ends with the original file's extension |
| Upload.Framed | backend/src/lib/upload.js:25 | the name `story-<suffix><ext>` starts with `story-`, ends with the extension, and the suffix is recovered between them |
| Upload.FirstDash | backend/src/lib/upload.js:23 | in `<digits>-<rest>` the first dash is the one right after the digits |
| Upload.DashSplit | backend/src/lib/upload.js:23 | a digit string before the first dash is recovered uniquely |
| Upload.StoryFilenameInjective | backend/src/lib/upload.js:21-26 | for the same extension, different times or draws give different names |
| Upload.Classify | backend/src/lib/upload.js:74-79 | image exactly for a .jpg, .jpeg, .png or .gif ending, otherwise video exactly for .mp4, .mov, .avi or .webm, otherwise unknown |
| Upload.GetFileInfo | backend/src/lib/upload.js:71-85 | no file gives null; otherwise the info has the classification of the lowercased extension, the size, filename and original name unchanged, and the URL of `getFileUrl` |
| Upload.ClassifiedPassesExtensionCheck | backend/src/lib/upload.js:30-40 | a name classified as image or video passes the filter's extension test |
| Upload.ClassifiedMentionsAllowed | backend/src/lib/upload.js:74-79 | every image or video extension contains an allowed word |
| Upload.FilterWiderThanClassification | backend/src/lib/upload.js:31-35 | the unanchored filter accepts `.jpgx`, which `getFileInfo` classifies as unknown |

## Left out

- The frontend, the Stream chat and video wrappers (`stream.js`, the chat
  controller), the mailer, Passport/Google OAuth, and the server and route
  wiring. None of it is core logic. The OTP email and the Stream user
  upsert after signup and onboard are left out with them.
- JWT signing and cookies: a login or verification yields a `Session`
  value (user id and 7-day lifetime) in place of a signed token.
- bcrypt hashing in the pre-save hook: the hash is a parameter of `Signup`,
  and the comparison is a parameter of `Login`.
- Randomness and the clock: the OTP draw, the avatar index, the filename
  suffix, `Date.now` and fresh ObjectIds are parameters.
- Mongo-specific behaviour:
  - `populate` of authors and users (the feed only checks that each author
    exists);
  - the `$regex` search and pagination of `getPublicGroups`;
  - the sorts of `getMyGroups`;
  - ObjectId cast errors on malformed ids.
- The order of stories created in the same millisecond: the model keeps
  collection order, which is one order the database may return.
- `getMyGroups`, `getPublicGroups`, `getMyFriends`, `getUserProfile`,
  `uploadProfilePicture`, `uploadStoryMedia`, `logout`, and the
  notification preference handlers: these are queries, file plumbing or
  blind overwrites without domain rules.
- The upload directory creation, `deleteFile`, the multer destination and
  the 50 MB size limit, which are filesystem and library behaviour.
- The `createdAt`/`updatedAt` timestamps of users and groups: no group or
  user rule reads them. Stories keep both, because the feed sorts on
  `createdAt` and the cleanup's `modifiedCount` depends on `updatedAt`.
- StoryController.CleanupExpiredStories: the filter's `new Date()` and the
  timestamp Mongoose adds to the update are taken as the same instant
  `now`.
- Request bodies: each field is modelled as absent or a string (or a
  number or boolean where the handler expects one). JSON `null` and values
  of another type are not modelled. So the model leaves out:
  - the 500 from `null.trim()` when `description` is `null` in
    `updateGroup`;
  - the 500 from a truthy non-string `name` there;
  - the OTP check's strict `!==`, which never matches a numeric `code`.
- Concurrency: all operations are sequential. Concurrent joins near
  `maxMembers` and concurrent accepts are not modelled.
- Upload.ToLowerCase: maps only A–Z, U+0130 and U+212A, the characters
  whose lower case contains an ASCII letter. Other Unicode case mappings
  cannot change the result of the ASCII allow-list tests and are not
  modelled.
- Upload.Extname: follows Node's POSIX `path.extname`; the Windows variant
  is not modelled.
- Auth.Onboard: `...req.body` can also write arbitrary other user fields.
  Only the five named fields are modelled.
- GroupController.CreateGroup: schema validation of the name, description
  and tags is `SchemaValid` (required, length limits); Mongoose's other
  casting failures are not modelled.
- Auth.EmailValidIff: relates the scanning check to the regex written as a
  predicate over index splits, not to a regular-expression engine.
