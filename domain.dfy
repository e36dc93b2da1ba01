/** The records of the places application, the in-memory store that stands
    for the database tables, and the invariants the endpoints keep. */
module Domain {

  datatype Option<T> = None | Some(value: T)

  type UserId = nat
  type PlaceId = nat
  type CommentId = nat
  type ImageId = nat

  /** An uploaded image file; its contents are never inspected. */
  type ImageFile = seq<bv8>

  /** The status of a handler's response. NoResponse is a handler that falls
      off its end without returning a response. */
  datatype Status = Ok200 | BadRequest400 | Forbidden403 | NotFound404 | NoResponse

  /** The authenticated user making a request. */
  datatype Requester = Requester(id: UserId, isStaff: bool)

  /** A place post with its bookmark and like relations (sets of user ids). */
  datatype Place = Place(
    title: string,
    address: string,
    category: string,
    creator: UserId,
    bookmark: set<UserId>,
    like: set<UserId>)

  /** A comment; `content == None` marks a soft-deleted comment, `mainComment`
      is the comment it replies to, `deep` its nesting level. */
  datatype Comment = Comment(
    place: PlaceId,
    user: UserId,
    content: Option<string>,
    mainComment: Option<CommentId>,
    deep: nat)

  datatype Image = Image(place: PlaceId, file: ImageFile)

  /** The two region fields of a user's profile. */
  datatype Profile = Profile(region1: Option<string>, region2: Option<string>)

  /** All tables the place endpoints read or write. Users and profiles belong
      to the user subsystem and are only read here. The next-id counters stand
      for the database's auto-increment keys. */
  datatype Store = Store(
    users: set<UserId>,
    profiles: map<UserId, Profile>,
    places: map<PlaceId, Place>,
    comments: map<CommentId, Comment>,
    images: map<ImageId, Image>,
    nextPlaceId: nat,
    nextCommentId: nat,
    nextImageId: nat)

  /** A handler's effect: the store afterwards and the response status. */
  datatype Outcome = Outcome(store: Store, status: Status)

  /** Every key is below its table's next id, so a new row never overwrites one. */
  predicate IdsFresh(s: Store)
  {
    && (forall p :: p in s.places ==> p < s.nextPlaceId)
    && (forall c :: c in s.comments ==> c < s.nextCommentId)
    && (forall i :: i in s.images ==> i < s.nextImageId)
  }

  /** Some comment names `cid` as the comment it replies to. */
  predicate HasReplies(s: Store, cid: CommentId)
  {
    exists c :: c in s.comments && s.comments[c].mainComment == Some(cid)
  }

  /** A comment is top-level with depth 0, or a reply with depth 1 to an
      existing comment whose depth is one less. */
  predicate CommentOk(s: Store, k: Comment)
  {
    && k.deep <= 1
    && (k.mainComment.None? ==> k.deep == 0)
    && (k.mainComment.Some? ==>
          k.mainComment.value in s.comments && k.deep == s.comments[k.mainComment.value].deep + 1)
  }

  predicate CommentsWellFormed(s: Store)
  {
    forall c :: c in s.comments ==> CommentOk(s, s.comments[c])
  }

  /** The invariant every endpoint keeps. */
  predicate Valid(s: Store)
  {
    IdsFresh(s) && CommentsWellFormed(s)
  }

  /** `t` differs from `s` at most in the record of place `pid`. */
  predicate OnlyPlaceChanged(s: Store, t: Store, pid: PlaceId)
  {
    pid in s.places && pid in t.places && t == s.(places := s.places[pid := t.places[pid]])
  }

  /** `t` differs from `s` at most in the record of comment `cid`. */
  predicate OnlyCommentChanged(s: Store, t: Store, cid: CommentId)
  {
    cid in s.comments && cid in t.comments && t == s.(comments := s.comments[cid := t.comments[cid]])
  }

  /** In a valid store no reply has replies of its own: the parent of a reply
      is a top-level comment. */
  lemma ReplyParentIsTopLevel(s: Store, c: CommentId)
    requires Valid(s)
    requires c in s.comments && s.comments[c].mainComment.Some?
    ensures s.comments[s.comments[c].mainComment.value].mainComment.None?
    ensures s.comments[c].deep == 1
  {
    var p := s.comments[c].mainComment.value;
    assert CommentOk(s, s.comments[c]);
    assert CommentOk(s, s.comments[p]);
  }
}
