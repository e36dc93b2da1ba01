# Places endpoints: a verified model of the business rules

This project models the place endpoints of a social "places" backend
(`place/views.py`). A place post has a title, an address, a category and a
creator. It also has two relations to users: who bookmarked it and who liked
it. Places carry images and comments, and a comment may have replies one
level deep. The handlers are thin layers over a database. The model keeps
only their rules: who may do what, which rows each request inserts, updates
or removes, and which places a listing selects.

The database is an in-memory `Store` value (`domain.dfy`). It holds one map
per table, keyed by id, and a next-id counter per table that stands for the
auto-increment key. Users and profiles belong to the user subsystem; these
handlers only read them. Each handler's response is a `Status`: 200, 400,
403, 404, or `NoResponse` for the one handler path that returns nothing.
Serializer validation is not visible, so it is the boolean parameter
`valid`. The logged-in user is a `Requester` with an id and a staff flag.

Layout:

- `domain.dfy` (`Domain`): the records, the store, and the invariant `Valid`.
  `Valid` says every key is below its table's next id. It also says every
  comment is either top-level with depth 0, or a depth-1 reply to an existing
  comment of depth 0.
- `rules.dfy` (`Rules`): one pure step function per state-changing handler,
  from the store before to the store after plus the status. Their `ensures`
  give every error case with an unchanged store, and say exactly what the
  success case changes. Lemmas prove that each step keeps `Valid` and that
  two toggles in a row are the identity.
- `requests.dfy` (`Requests`): the handlers as one request type, and runs of
  requests. A rejected request never changes the store. Every reachable
  store keeps replies one level deep.
- `views.dfy` (`Views`): class `PlaceDb` holds the tables as fields. Each
  handler is a method that updates the fields step by step as the handler
  does: membership test then add or remove, delete then re-create, one insert
  per uploaded file in a loop. Each method is proved to reach its step
  function's store and status.
- `listings.dfy` (`Listings`): the read-only endpoints as functions. These
  are the newest-first place listing with its pagination, the four-place
  bookmark preview, the top-level comment selection, and the category view's
  region filter.
- `text.dfy` (`Text`): the substring tests behind the `contains` and
  `icontains` lookups.

The model keeps these behaviours of the code as written:

- A reply checks that the parent comment and the place in the URL exist. It
  does not check that the parent belongs to that place: `Rules.ReplyAcrossPlaces`
  shows a reply landing on another place than its parent.
- Deleting a comment that is on the place, as a user who is not its author,
  takes neither branch of the author test and returns nothing. The model
  gives `NoResponse` and leaves the store unchanged.
- Image deletion never looks the place up. An unknown place gives 400 when
  the image is on another place, not 404.
- The category filter always reads the profile of user 3, whoever is logged
  in. A missing user 3 is an error, because the lookup is outside the `try`.
  A missing profile is an error too: the `except` branch passes, and the
  return then reads a name that was never assigned. When both regions are
  set, a missing `search` parameter is an error as well: the ORM refuses
  `None` as an `icontains` value.
- Place deletion looks the place up (404) before it checks the staff flag
  (403).

The listings require `IdsFresh`: every key is below its table's counter.
This holds in every store reached from an empty one (`Requests.RunKeepsValid`),
and lets the newest-first order be built by counting down from the counter.

## Model

| member | source | states |
|---|---|---|
| `Rules.Toggle` | place/views.py:80-85 | the user's membership is flipped and every other user's membership is kept |
| `Rules.ToggleTwice` | place/views.py:80-85 | toggling the same user twice gives back the original set |
| `Rules.ToggleBookmark` | place/views.py:76-85 | unknown place: 404 and the store is unchanged; otherwise 200, only that place's bookmark set changes, and the requester's membership in it is flipped |
| `Rules.ToggleBookmarkTwice` | place/views.py:76-85 | two bookmark requests by the same user on the same place restore the store |
| `Rules.ToggleLike` | place/views.py:151-158 | unknown place: 404 and the store is unchanged; otherwise 200, only that place's like set changes, and the requester's membership in it is flipped |
| `Rules.ToggleLikeTwice` | place/views.py:151-158 | two like requests by the same user on the same place restore the store |
| `Rules.CreatePlace` | place/views.py:48-58 | non-staff: 403 and no change; invalid data: 400 and no change; otherwise 200 and exactly one new place under a fresh id, created by the requester with no bookmarks or likes; every other place is kept |
| `Rules.UpdatePlace` | place/views.py:88-99 | 404 for an unknown place, then 403 for a non-staff user, then 400 for invalid data, each with no change; otherwise only that place changes, each given field is replaced, and its creator, bookmarks and likes are kept |
| `Rules.DeletePlace` | place/views.py:102-110 | an unknown place gives 404 even for a non-staff user; a non-staff user gets 403 and no change; staff: that one place row is removed and nothing else changes |
| `Rules.AddImageRows` | place/views.py:120-121 | one new image row per file, in order, under consecutive fresh ids, each on the given place; every existing image and every other table is kept |
| `Rules.AddImages` | place/views.py:118-122 | unknown place: 404 and no change; otherwise 200 and the rows of `AddImageRows` |
| `Rules.ReplaceImage` | place/views.py:125-135 | 404 for an unknown place or image; 400 and no change when the image is not the place's; 200 exactly when it is, and then the image keeps its id and place, takes the new file, and every other image is unchanged |
| `Rules.DeleteImage` | place/views.py:138-146 | 404 for an unknown image; 400 and no change when it is not on the given place; 200 exactly when it is, and then only that image row is removed |
| `Rules.Reply` | place/views.py:215-228 | 404 for an unknown comment or place; invalid data gives 400 before the depth test; a parent of depth 1 or more gives 403 and no change; otherwise exactly one comment is added, with the parent as `main_comment`, depth one more than the parent's, and the URL's place |
| `Rules.EditComment` | place/views.py:231-242 | 404 for an unknown comment; anyone but the author gets 403 and the comment is unchanged; invalid data gives 400; the author's valid edit changes only that comment's content |
| `Rules.DeleteComment` | place/views.py:245-263 | 404 for an unknown comment or place; 403 and no change when the comment is not on the place; a non-author gets no response and no change; the author's delete with invalid data gives 400 and no change; an author's valid delete of a comment with replies keeps the row and clears its content; one without replies removes exactly that row |
| `Rules.CreatePlaceKeepsValid` | place/views.py:48-58 | place creation keeps the store invariant |
| `Rules.AddImagesKeepsValid` | place/views.py:118-122 | image upload keeps the store invariant (fresh ids included) |
| `Rules.ReplyKeepsValid` | place/views.py:219-226 | an accepted reply sits under a depth-0 comment, so it gets depth 1 and the comment rules still hold |
| `Rules.EditCommentKeepsValid` | place/views.py:231-240 | an edit keeps the comment rules |
| `Rules.DeleteCommentKeepsValid` | place/views.py:250-259 | soft deletion keeps the rows replies point to; hard deletion removes only a comment nothing replies to, so every reply's parent still exists |
| `Rules.ReplyAcrossPlaces` | place/views.py:215-226 | a concrete store where a reply is accepted on place 2 although its parent is on place 1 |
| `Domain.ReplyParentIsTopLevel` | place/views.py:221-225 | in a valid store every reply has depth 1 and its parent is top-level |
| `Requests.RejectionLeavesStore` | place/views.py:48-263 | every request that does not get 200 leaves the store as it was |
| `Requests.PlacesChangeOnlyForStaff` | place/views.py:48-110 | place create, update and delete by a non-staff user leave the store unchanged |
| `Requests.ApplyKeepsValid` | place/views.py:48-263 | every handler keeps the store invariant |
| `Requests.RunKeepsValid` | place/views.py:48-263 | any run of requests keeps the store invariant |
| `Requests.RepliesStayOneLevel` | place/views.py:219-226 | after any run of requests from a valid store, every comment has depth at most 1 and no reply has a reply |
| `Text.ContainsAt` | place/views.py:309 | the `contains` test holds exactly when the needle starts at some position of the text |
| `Text.LowerChar` | place/views.py:313 | the folded character is never an upper-case ASCII letter, and any other character is kept |
| `Text.Lower` | place/views.py:313 | folding keeps the length and leaves no upper-case ASCII letter |
| `Text.LowerCharIdempotent` | place/views.py:313 | folding a character twice is the same as folding it once |
| `Text.LowerIdempotent` | place/views.py:313 | a folded string is its own fold |
| `Text.IContainsIgnoresNeedleCase` | place/views.py:313 | the case-insensitive test gives the same answer for a search term and its folded form |
| `Text.ContainsImpliesIContains` | place/views.py:309-313 | an exact occurrence is also a case-insensitive one |
| `Listings.DescendingBelow` | place/views.py:41 | the result is strictly decreasing and holds exactly the given ids below the bound (`order_by('-id')`) |
| `Listings.DescendingCovers` | place/views.py:41 | the descending listing has one entry per id |
| `Listings.PageCount` | place/views.py:42-43 | the paginator counts at least one page |
| `Listings.Page` | place/views.py:42-43 | a page exists exactly when its number is between 1 and the page count; it then holds the next `size` items (or the rest of the list) from its start |
| `Listings.PageBound` | place/views.py:42-43 | a page number is within the page count exactly when it is 1 or its page starts inside the list |
| `Listings.EveryItemOnItsPage` | place/views.py:42-43 | item `i` is at position `i % size` of page `i / size + 1` |
| `Listings.PlaceListing` | place/views.py:40-45 | a page of the place listing is the slice of the newest-first order of all places that starts at the page's start; it has at most 20 places, all existing, highest id first; page 1 always exists and is full when there are 20 places or more |
| `Listings.FirstPageIsNewest` | place/views.py:40-45 | every place left off page 1 is older than every place on it, and then page 1 holds 20 places |
| `Listings.BookmarkPreview` | place/views.py:163-167 | unknown user: 404; otherwise at most 4 places, all bookmarked by the user, highest id first, and any bookmarked place not shown has a smaller id than all four shown |
| `Listings.TopLevelComments` | place/views.py:181-187 | the selection is missing (404) exactly when the place is unknown |
| `Listings.TopLevelIsDepthZero` | place/views.py:184 | in a valid store the top-level comments of a place are exactly its comments of depth 0 |
| `Listings.DeleteCommentAndListing` | place/views.py:254-258 | a soft-deleted comment stays in the top-level listing; removing a leaf takes exactly it out |
| `Listings.CategoryQueryset` | place/views.py:296-324 | missing user 3 or profile: an error; a missing region: all places; with both regions and a search term: the places matching both regions and the term, or the places in region 1 when none match; with both regions and no term: an error |
| `Listings.CategoryStaysInRegion1` | place/views.py:308-316 | with both regions set, every selected place, in either tier, has region 1 in its address |
| `Listings.CategoryReadsOnlyUser3` | place/views.py:298 | the selection depends only on user 3's profile, the user table and the places |
| `Views.PlaceDb.CreatePlace` | place/views.py:48-58 | the new tables and status are those of `Rules.CreatePlace`; the invariant is kept |
| `Views.PlaceDb.ToggleBookmark` | place/views.py:76-85 | membership test, then remove or add in place; ends as `Rules.ToggleBookmark` |
| `Views.PlaceDb.UpdatePlace` | place/views.py:88-99 | ends as `Rules.UpdatePlace` |
| `Views.PlaceDb.DeletePlace` | place/views.py:102-110 | ends as `Rules.DeletePlace` |
| `Views.PlaceDb.AddImages` | place/views.py:118-122 | one insert per file in a loop; ends as `Rules.AddImages` |
| `Views.PlaceDb.ReplaceImage` | place/views.py:125-135 | delete, then re-create under the same id; ends as `Rules.ReplaceImage` |
| `Views.PlaceDb.DeleteImage` | place/views.py:138-146 | ends as `Rules.DeleteImage` |
| `Views.PlaceDb.ToggleLike` | place/views.py:151-158 | membership test, then remove or add in place; ends as `Rules.ToggleLike` |
| `Views.PlaceDb.Reply` | place/views.py:215-228 | ends as `Rules.Reply`; the invariant is kept |
| `Views.PlaceDb.EditComment` | place/views.py:231-242 | ends as `Rules.EditComment` |
| `Views.PlaceDb.DeleteComment` | place/views.py:245-263 | looks for replies first, then runs the handler's checks in order; ends as `Rules.DeleteComment` |
| `Views.BookmarkTwice` | place/views.py:76-85 | two bookmark calls on the object leave its tables as they were |

## Left out

- `user/urls.py` is only a routing table, and the views it names are not part of this model.
- Serializers are not modelled. Validation is the boolean `valid`. A place carries title, address and category as given. A comment edit and a soft delete change only the comment's content.
- The `IsAuthenticated` and `IsAdminUser` permission classes run before a handler and are not modelled. The image handlers are modelled as if called by an admin. `PlaceLikeView` declares no permission class; an anonymous requester is not modelled.
- `PlaceDetailView.get` is not modelled as its own endpoint. Its comment part is `Listings.TopLevelComments`.
- `PlaceCommentDetailView.get` is not modelled.
- `PlaceCommentView.post` (top-level comment creation) is not modelled. The depth a new top-level comment gets comes from a model default that is not part of this model. `Valid` assumes it is 0.
- `PlaceSearchView` is not modelled: its search and ordering backends and its comment-count annotation are framework behaviour.
- In the category view, the search and ordering filter backends and the pagination (100 per page) are not modelled. `Listings.CategoryQueryset` gives the selected set of places, without an order.
- Pagination keeps the page size and the rule for which pages exist. Parsing the `page` parameter (`last`, or text that is not a number) is left out.
- Contains: ASCII letters only, because database collation is not modelled. `contains` is an exact substring test. `icontains` folds only ASCII letters.
- Rules.DeletePlace: removes only the place row, because cascade deletion of its images and comments is a storage-layer detail. A deleted place's images and comments therefore stay reachable by id, so later image and comment requests on them can succeed where the program would no longer find them.
- Rules.ReplaceImage: a missing `image` field in the request (a key error) is not modelled, because the new file is a parameter.
- Image files and response bodies are opaque. Localised messages and serialized payloads are not modelled.
- Transactions, concurrency and persistence are not modelled. Each request runs alone on the store.
