/** Requests to the state-changing place endpoints, their dispatch to the step
    functions, and properties of every run of requests. */
module Requests {
  import opened Domain
  import opened Rules

  datatype Request =
    | CreatePlaceReq(req: Requester, valid: bool, title: string, address: string, category: string)
    | BookmarkReq(req: Requester, pid: PlaceId)
    | UpdatePlaceReq(req: Requester, pid: PlaceId, valid: bool, patch: PlacePatch)
    | DeletePlaceReq(req: Requester, pid: PlaceId)
    | AddImagesReq(pid: PlaceId, files: seq<ImageFile>)
    | ReplaceImageReq(pid: PlaceId, iid: ImageId, file: ImageFile)
    | DeleteImageReq(pid: PlaceId, iid: ImageId)
    | LikeReq(req: Requester, pid: PlaceId)
    | ReplyReq(req: Requester, pid: PlaceId, cid: CommentId, valid: bool, content: string)
    | EditCommentReq(req: Requester, cid: CommentId, valid: bool, content: string)
    | DeleteCommentReq(req: Requester, pid: PlaceId, cid: CommentId, valid: bool)

  function Apply(s: Store, q: Request): Outcome
  {
    match q
    case CreatePlaceReq(req, valid, title, address, category) => CreatePlace(s, req, valid, title, address, category)
    case BookmarkReq(req, pid) => ToggleBookmark(s, req.id, pid)
    case UpdatePlaceReq(req, pid, valid, patch) => UpdatePlace(s, req, pid, valid, patch)
    case DeletePlaceReq(req, pid) => DeletePlace(s, req, pid)
    case AddImagesReq(pid, files) => AddImages(s, pid, files)
    case ReplaceImageReq(pid, iid, file) => ReplaceImage(s, pid, iid, file)
    case DeleteImageReq(pid, iid) => DeleteImage(s, pid, iid)
    case LikeReq(req, pid) => ToggleLike(s, req.id, pid)
    case ReplyReq(req, pid, cid, valid, content) => Reply(s, req, pid, cid, valid, content)
    case EditCommentReq(req, cid, valid, content) => EditComment(s, req, cid, valid, content)
    case DeleteCommentReq(req, pid, cid, valid) => DeleteComment(s, req, pid, cid, valid)
  }

  /** The store after serving `qs` one after another. */
  function Run(s: Store, qs: seq<Request>): Store
    decreases |qs|
  {
    if qs == [] then s else Run(Apply(s, qs[0]).store, qs[1..])
  }

  /** Every rejected request leaves the store as it was. */
  lemma RejectionLeavesStore(s: Store, q: Request)
    ensures Apply(s, q).status != Ok200 ==> Apply(s, q).store == s
  {
  }

  /** Only the staff can change the places table through the place endpoints. */
  lemma PlacesChangeOnlyForStaff(s: Store, q: Request)
    requires q.CreatePlaceReq? || q.UpdatePlaceReq? || q.DeletePlaceReq?
    requires !q.req.isStaff
    ensures Apply(s, q).store == s
  {
  }

  lemma ApplyKeepsValid(s: Store, q: Request)
    requires Valid(s)
    ensures Valid(Apply(s, q).store)
  {
    match q
    case CreatePlaceReq(req, valid, title, address, category) =>
      CreatePlaceKeepsValid(s, req, valid, title, address, category);
    case AddImagesReq(pid, files) => AddImagesKeepsValid(s, pid, files);
    case ReplyReq(req, pid, cid, valid, content) => ReplyKeepsValid(s, req, pid, cid, valid, content);
    case EditCommentReq(req, cid, valid, content) => EditCommentKeepsValid(s, req, cid, valid, content);
    case DeleteCommentReq(req, pid, cid, valid) => DeleteCommentKeepsValid(s, req, pid, cid, valid);
    case _ =>
  }

  lemma {:induction false} RunKeepsValid(s: Store, qs: seq<Request>)
    requires Valid(s)
    ensures Valid(Run(s, qs))
    decreases |qs|
  {
    if qs != [] {
      ApplyKeepsValid(s, qs[0]);
      RunKeepsValid(Apply(s, qs[0]).store, qs[1..]);
    }
  }

  /** Starting from a store whose comments all keep the depth rule (top-level
      comments at depth 0), every comment after any run of requests has depth
      at most 1 and no reply has a reply of its own. */
  lemma RepliesStayOneLevel(s: Store, qs: seq<Request>)
    requires Valid(s)
    ensures var t := Run(s, qs);
      forall c :: c in t.comments ==>
        && t.comments[c].deep <= 1
        && (t.comments[c].mainComment.Some? ==>
              && t.comments[c].mainComment.value in t.comments
              && t.comments[t.comments[c].mainComment.value].mainComment.None?)
  {
    RunKeepsValid(s, qs);
    var t := Run(s, qs);
    forall c | c in t.comments
      ensures t.comments[c].deep <= 1
      ensures t.comments[c].mainComment.Some? ==>
        t.comments[c].mainComment.value in t.comments && t.comments[t.comments[c].mainComment.value].mainComment.None?
    {
      assert CommentOk(t, t.comments[c]);
      if t.comments[c].mainComment.Some? {
        ReplyParentIsTopLevel(t, c);
      }
    }
  }
}
