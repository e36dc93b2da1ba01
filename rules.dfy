/** One pure step function per state-changing endpoint of place/views.py:
    the store afterwards and the response status, as a function of the store
    before and the request. Serializer validation is the boolean `valid`. */
module Rules {
  import opened Domain

  // ---------------------------------------------------------------- toggles

  /** `after` is `before` with the membership of `u` flipped and nobody else's. */
  ghost predicate Flipped(before: set<UserId>, after: set<UserId>, u: UserId)
  {
    && (u in after <==> u !in before)
    && (forall v :: v != u ==> (v in after <==> v in before))
  }

  /** Remove `u` when present, add it when absent. */
  function Toggle(xs: set<UserId>, u: UserId): (r: set<UserId>)
    ensures Flipped(xs, r, u)
  {
    if u in xs then xs - {u} else xs + {u}
  }

  lemma ToggleTwice(xs: set<UserId>, u: UserId)
    ensures Toggle(Toggle(xs, u), u) == xs
  {
  }

  /** PlaceDetailView.post: the bookmark toggle. */
  function ToggleBookmark(s: Store, u: UserId, pid: PlaceId): (r: Outcome)
    ensures pid !in s.places ==> r == Outcome(s, NotFound404)
    ensures pid in s.places ==>
      && r.status == Ok200
      && OnlyPlaceChanged(s, r.store, pid)
      && r.store.places[pid] == s.places[pid].(bookmark := r.store.places[pid].bookmark)
      && Flipped(s.places[pid].bookmark, r.store.places[pid].bookmark, u)
  {
    if pid !in s.places then Outcome(s, NotFound404)
    else
      var p := s.places[pid];
      Outcome(s.(places := s.places[pid := p.(bookmark := Toggle(p.bookmark, u))]), Ok200)
  }

  lemma ToggleBookmarkTwice(s: Store, u: UserId, pid: PlaceId)
    ensures ToggleBookmark(ToggleBookmark(s, u, pid).store, u, pid).store == s
  {
    if pid in s.places {
      ToggleTwice(s.places[pid].bookmark, u);
    }
  }

  /** PlaceLikeView.post: the like toggle. */
  function ToggleLike(s: Store, u: UserId, pid: PlaceId): (r: Outcome)
    ensures pid !in s.places ==> r == Outcome(s, NotFound404)
    ensures pid in s.places ==>
      && r.status == Ok200
      && OnlyPlaceChanged(s, r.store, pid)
      && r.store.places[pid] == s.places[pid].(like := r.store.places[pid].like)
      && Flipped(s.places[pid].like, r.store.places[pid].like, u)
  {
    if pid !in s.places then Outcome(s, NotFound404)
    else
      var p := s.places[pid];
      Outcome(s.(places := s.places[pid := p.(like := Toggle(p.like, u))]), Ok200)
  }

  lemma ToggleLikeTwice(s: Store, u: UserId, pid: PlaceId)
    ensures ToggleLike(ToggleLike(s, u, pid).store, u, pid).store == s
  {
    if pid in s.places {
      ToggleTwice(s.places[pid].like, u);
    }
  }

  // ------------------------------------------------------------ place posts

  /** The fields a partial place update may carry. */
  datatype PlacePatch = PlacePatch(title: Option<string>, address: Option<string>, category: Option<string>)

  /** The new value of a field: the given one, or the current one when absent. */
  function Patched(o: Option<string>, current: string): string
  {
    if o.Some? then o.value else current
  }

  /** PlaceView.post: staff-only creation of a place, owned by the requester. */
  function CreatePlace(s: Store, req: Requester, valid: bool, title: string, address: string, category: string): (r: Outcome)
    ensures !req.isStaff ==> r == Outcome(s, Forbidden403)
    ensures req.isStaff && !valid ==> r == Outcome(s, BadRequest400)
    ensures req.isStaff && valid ==>
      && r.status == Ok200
      && r.store.places.Keys == s.places.Keys + {s.nextPlaceId}
      && r.store.places[s.nextPlaceId] == Place(title, address, category, req.id, {}, {})
      && (forall p :: p in s.places && p != s.nextPlaceId ==> r.store.places[p] == s.places[p])
      && r.store.nextPlaceId > s.nextPlaceId
      && r.store == s.(places := r.store.places, nextPlaceId := r.store.nextPlaceId)
  {
    if !req.isStaff then Outcome(s, Forbidden403)
    else if !valid then Outcome(s, BadRequest400)
    else
      var p := Place(title, address, category, req.id, {}, {});
      Outcome(s.(places := s.places[s.nextPlaceId := p], nextPlaceId := s.nextPlaceId + 1), Ok200)
  }

  /** PlaceDetailView.patch: staff-only partial update of an existing place. */
  function UpdatePlace(s: Store, req: Requester, pid: PlaceId, valid: bool, patch: PlacePatch): (r: Outcome)
    ensures pid !in s.places ==> r == Outcome(s, NotFound404)
    ensures pid in s.places && !req.isStaff ==> r == Outcome(s, Forbidden403)
    ensures pid in s.places && req.isStaff && !valid ==> r == Outcome(s, BadRequest400)
    ensures pid in s.places && req.isStaff && valid ==>
      && r.status == Ok200
      && OnlyPlaceChanged(s, r.store, pid)
      && var old_, new_ := s.places[pid], r.store.places[pid];
         && new_.title == Patched(patch.title, old_.title)
         && new_.address == Patched(patch.address, old_.address)
         && new_.category == Patched(patch.category, old_.category)
         && new_.creator == old_.creator && new_.bookmark == old_.bookmark && new_.like == old_.like
  {
    if pid !in s.places then Outcome(s, NotFound404)
    else if !req.isStaff then Outcome(s, Forbidden403)
    else if !valid then Outcome(s, BadRequest400)
    else
      var p := s.places[pid];
      var q := p.(title := Patched(patch.title, p.title),
                  address := Patched(patch.address, p.address),
                  category := Patched(patch.category, p.category));
      Outcome(s.(places := s.places[pid := q]), Ok200)
  }

  /** PlaceDetailView.delete: the existence check comes before the staff check. */
  function DeletePlace(s: Store, req: Requester, pid: PlaceId): (r: Outcome)
    ensures pid !in s.places ==> r == Outcome(s, NotFound404)
    ensures pid in s.places && !req.isStaff ==> r == Outcome(s, Forbidden403)
    ensures pid in s.places && req.isStaff ==>
      && r.status == Ok200
      && r.store.places.Keys == s.places.Keys - {pid}
      && (forall p :: p in r.store.places ==> r.store.places[p] == s.places[p])
      && r.store == s.(places := r.store.places)
  {
    if pid !in s.places then Outcome(s, NotFound404)
    else if !req.isStaff then Outcome(s, Forbidden403)
    else Outcome(s.(places := s.places - {pid}), Ok200)
  }

  // ----------------------------------------------------------------- images

  /** One new image row per file, numbered from the next image id on. */
  function AddImageRows(s: Store, pid: PlaceId, files: seq<ImageFile>): (t: Store)
    ensures t.nextImageId == s.nextImageId + |files|
    ensures forall i :: i in t.images <==> i in s.images || s.nextImageId <= i < t.nextImageId
    ensures forall k :: 0 <= k < |files| ==> t.images[s.nextImageId + k] == Image(pid, files[k])
    ensures forall i :: i in s.images && !(s.nextImageId <= i < t.nextImageId) ==> t.images[i] == s.images[i]
    ensures t == s.(images := t.images, nextImageId := t.nextImageId)
    decreases |files|
  {
    if files == [] then s
    else
      var t0 := AddImageRows(s, pid, files[..|files| - 1]);
      t0.(images := t0.images[t0.nextImageId := Image(pid, files[|files| - 1])],
          nextImageId := t0.nextImageId + 1)
  }

  /** PlaceImageView.post: one image per uploaded file. */
  function AddImages(s: Store, pid: PlaceId, files: seq<ImageFile>): (r: Outcome)
    ensures pid !in s.places ==> r == Outcome(s, NotFound404)
    ensures pid in s.places ==> r.status == Ok200 && r.store == AddImageRows(s, pid, files)
  {
    if pid !in s.places then Outcome(s, NotFound404)
    else Outcome(AddImageRows(s, pid, files), Ok200)
  }

  /** PlaceImageView.patch: the image is deleted and re-created under the same
      id with the new file, when it belongs to the place. */
  function ReplaceImage(s: Store, pid: PlaceId, iid: ImageId, file: ImageFile): (r: Outcome)
    ensures pid !in s.places || iid !in s.images ==> r == Outcome(s, NotFound404)
    ensures pid in s.places && iid in s.images && s.images[iid].place != pid ==> r == Outcome(s, BadRequest400)
    ensures r.status == Ok200 <==> pid in s.places && iid in s.images && s.images[iid].place == pid
    ensures r.status == Ok200 ==>
      && r.store.images.Keys == s.images.Keys
      && r.store.images[iid] == Image(pid, file)
      && (forall i :: i in s.images && i != iid ==> r.store.images[i] == s.images[i])
      && r.store == s.(images := r.store.images)
  {
    if pid !in s.places || iid !in s.images then Outcome(s, NotFound404)
    else if s.images[iid].place == pid then
      Outcome(s.(images := (s.images - {iid})[iid := Image(pid, file)]), Ok200)
    else Outcome(s, BadRequest400)
  }

  /** PlaceImageView.delete: does not look the place up. */
  function DeleteImage(s: Store, pid: PlaceId, iid: ImageId): (r: Outcome)
    ensures iid !in s.images ==> r == Outcome(s, NotFound404)
    ensures iid in s.images && s.images[iid].place != pid ==> r == Outcome(s, BadRequest400)
    ensures r.status == Ok200 <==> iid in s.images && s.images[iid].place == pid
    ensures r.status == Ok200 ==>
      && r.store.images.Keys == s.images.Keys - {iid}
      && (forall i :: i in r.store.images ==> r.store.images[i] == s.images[i])
      && r.store == s.(images := r.store.images)
  {
    if iid !in s.images then Outcome(s, NotFound404)
    else if s.images[iid].place == pid then Outcome(s.(images := s.images - {iid}), Ok200)
    else Outcome(s, BadRequest400)
  }

  // --------------------------------------------------------------- comments

  /** PlaceCommentDetailView.post: a reply to comment `cid`, posted on place
      `pid`. Whether the parent belongs to `pid` is not checked. */
  function Reply(s: Store, req: Requester, pid: PlaceId, cid: CommentId, valid: bool, content: string): (r: Outcome)
    ensures cid !in s.comments || pid !in s.places ==> r == Outcome(s, NotFound404)
    ensures cid in s.comments && pid in s.places && !valid ==> r == Outcome(s, BadRequest400)
    ensures cid in s.comments && pid in s.places && valid && s.comments[cid].deep >= 1 ==>
      r == Outcome(s, Forbidden403)
    ensures r.status == Ok200 <==> cid in s.comments && pid in s.places && valid && s.comments[cid].deep < 1
    ensures r.status == Ok200 ==>
      && r.store.comments.Keys == s.comments.Keys + {s.nextCommentId}
      && r.store.comments[s.nextCommentId]
         == Comment(pid, req.id, Some(content), Some(cid), s.comments[cid].deep + 1)
      && (forall c :: c in s.comments && c != s.nextCommentId ==> r.store.comments[c] == s.comments[c])
      && r.store.nextCommentId > s.nextCommentId
      && r.store == s.(comments := r.store.comments, nextCommentId := r.store.nextCommentId)
  {
    if cid !in s.comments || pid !in s.places then Outcome(s, NotFound404)
    else if !valid then Outcome(s, BadRequest400)
    else
      var parent := s.comments[cid];
      if parent.deep >= 1 then Outcome(s, Forbidden403)
      else
        var k := Comment(pid, req.id, Some(content), Some(cid), parent.deep + 1);
        Outcome(s.(comments := s.comments[s.nextCommentId := k], nextCommentId := s.nextCommentId + 1), Ok200)
  }

  /** PlaceCommentDetailView.put: author-only edit of a comment's content. */
  function EditComment(s: Store, req: Requester, cid: CommentId, valid: bool, content: string): (r: Outcome)
    ensures cid !in s.comments ==> r == Outcome(s, NotFound404)
    ensures cid in s.comments && req.id != s.comments[cid].user ==> r == Outcome(s, Forbidden403)
    ensures cid in s.comments && req.id == s.comments[cid].user && !valid ==> r == Outcome(s, BadRequest400)
    ensures r.status == Ok200 <==> cid in s.comments && req.id == s.comments[cid].user && valid
    ensures r.status == Ok200 ==>
      && OnlyCommentChanged(s, r.store, cid)
      && r.store.comments[cid] == s.comments[cid].(content := Some(content))
  {
    if cid !in s.comments then Outcome(s, NotFound404)
    else
      var k := s.comments[cid];
      if req.id != k.user then Outcome(s, Forbidden403)
      else if !valid then Outcome(s, BadRequest400)
      else Outcome(s.(comments := s.comments[cid := k.(content := Some(content))]), Ok200)
  }

  /** PlaceCommentDetailView.delete: a comment with replies is soft-deleted
      (content cleared), one without is removed; a non-author gets no response. */
  function DeleteComment(s: Store, req: Requester, pid: PlaceId, cid: CommentId, valid: bool): (r: Outcome)
    ensures cid !in s.comments || pid !in s.places ==> r == Outcome(s, NotFound404)
    ensures cid in s.comments && pid in s.places && s.comments[cid].place != pid ==> r == Outcome(s, Forbidden403)
    ensures cid in s.comments && pid in s.places && s.comments[cid].place == pid && req.id != s.comments[cid].user ==>
      r == Outcome(s, NoResponse)
    ensures cid in s.comments && pid in s.places && s.comments[cid].place == pid && req.id == s.comments[cid].user && !valid ==>
      r == Outcome(s, BadRequest400)
    ensures r.status == Ok200 <==>
      cid in s.comments && pid in s.places && s.comments[cid].place == pid && req.id == s.comments[cid].user && valid
    ensures r.status != Ok200 ==> r.store == s
    ensures r.status == Ok200 && HasReplies(s, cid) ==>
      && OnlyCommentChanged(s, r.store, cid)
      && r.store.comments[cid] == s.comments[cid].(content := None)
    ensures r.status == Ok200 && !HasReplies(s, cid) ==>
      && r.store.comments.Keys == s.comments.Keys - {cid}
      && (forall c :: c in r.store.comments ==> r.store.comments[c] == s.comments[c])
      && r.store == s.(comments := r.store.comments)
  {
    if cid !in s.comments || pid !in s.places then Outcome(s, NotFound404)
    else
      var writer := s.comments[cid];
      if writer.place != pid then Outcome(s, Forbidden403)
      else if req.id != writer.user then Outcome(s, NoResponse)
      else if !valid then Outcome(s, BadRequest400)
      else if HasReplies(s, cid) then
        Outcome(s.(comments := s.comments[cid := writer.(content := None)]), Ok200)
      else Outcome(s.(comments := s.comments - {cid}), Ok200)
  }

  // ---------------------------------------------- the invariant is preserved

  lemma CreatePlaceKeepsValid(s: Store, req: Requester, valid: bool, title: string, address: string, category: string)
    requires Valid(s)
    ensures Valid(CreatePlace(s, req, valid, title, address, category).store)
  {
    var t := CreatePlace(s, req, valid, title, address, category).store;
    assert t.comments == s.comments;
  }

  lemma AddImagesKeepsValid(s: Store, pid: PlaceId, files: seq<ImageFile>)
    requires Valid(s)
    ensures Valid(AddImages(s, pid, files).store)
  {
    var t := AddImages(s, pid, files).store;
    assert t.comments == s.comments;
  }

  /** A reply is accepted only under a top-level comment, so it gets depth 1. */
  lemma ReplyKeepsValid(s: Store, req: Requester, pid: PlaceId, cid: CommentId, valid: bool, content: string)
    requires Valid(s)
    ensures Valid(Reply(s, req, pid, cid, valid, content).store)
  {
    var r := Reply(s, req, pid, cid, valid, content);
    if r.status == Ok200 {
      var t := r.store;
      forall c | c in t.comments
        ensures CommentOk(t, t.comments[c])
      {
        if c != s.nextCommentId {
          assert CommentOk(s, s.comments[c]);
        }
      }
    }
  }

  lemma EditCommentKeepsValid(s: Store, req: Requester, cid: CommentId, valid: bool, content: string)
    requires Valid(s)
    ensures Valid(EditComment(s, req, cid, valid, content).store)
  {
    var r := EditComment(s, req, cid, valid, content);
    if r.status == Ok200 {
      var t := r.store;
      forall c | c in t.comments
        ensures CommentOk(t, t.comments[c])
      {
        assert CommentOk(s, s.comments[c]);
      }
    }
  }

  /** Soft deletion keeps the row its replies point to; hard deletion only
      removes a comment no other comment replies to. */
  lemma DeleteCommentKeepsValid(s: Store, req: Requester, pid: PlaceId, cid: CommentId, valid: bool)
    requires Valid(s)
    ensures Valid(DeleteComment(s, req, pid, cid, valid).store)
  {
    var r := DeleteComment(s, req, pid, cid, valid);
    if r.status == Ok200 {
      var t := r.store;
      forall c | c in t.comments
        ensures CommentOk(t, t.comments[c])
      {
        assert CommentOk(s, s.comments[c]);
        if !HasReplies(s, cid) && s.comments[c].mainComment.Some? {
          assert s.comments[c].mainComment.value != cid;
        }
      }
    }
  }

  // --------------------------------------------------------------- examples

  /** A reply may sit on another place than its parent: the parent is never
      compared with the place in the URL. */
  lemma ReplyAcrossPlaces()
    ensures
      var p := Place("t", "a", "c", 0, {}, {});
      var parent := Comment(1, 7, Some("hi"), None, 0);
      var s := Store({7}, map[], map[1 := p, 2 := p], map[0 := parent], map[], 3, 1, 0);
      var r := Reply(s, Requester(7, false), 2, 0, true, "re");
      && r.status == Ok200
      && r.store.comments[1].place == 2
      && r.store.comments[r.store.comments[1].mainComment.value].place == 1
  {
  }
}
