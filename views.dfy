/** The state-changing handlers of place/views.py as methods on an object
    that holds the tables. Each method changes the tables step by step as the
    handler does and is proved to end in the store its step function in Rules
    describes, with the same status. */
module Views {
  import opened Domain
  import Rules

  class PlaceDb {
    /** Users and profiles belong to the user subsystem, and these handlers only read them. */
    const users: set<UserId>
    const profiles: map<UserId, Profile>
    var places: map<PlaceId, Place>
    var comments: map<CommentId, Comment>
    var images: map<ImageId, Image>
    var nextPlaceId: nat
    var nextCommentId: nat
    var nextImageId: nat

    /** The tables as one store value. */
    function Model(): Store
      reads this
    {
      Store(users, profiles, places, comments, images, nextPlaceId, nextCommentId, nextImageId)
    }

    ghost predicate Valid()
      reads this
    {
      Domain.Valid(Model())
    }

    constructor (users: set<UserId>, profiles: map<UserId, Profile>)
      ensures Valid()
      ensures Model() == Store(users, profiles, map[], map[], map[], 0, 0, 0)
    {
      this.users := users;
      this.profiles := profiles;
      places, comments, images := map[], map[], map[];
      nextPlaceId, nextCommentId, nextImageId := 0, 0, 0;
    }

    /** PlaceView.post */
    method CreatePlace(user: Requester, valid: bool, title: string, address: string, category: string)
      returns (status: Status)
      requires Valid()
      modifies this
      ensures Valid()
      ensures Outcome(Model(), status) == Rules.CreatePlace(old(Model()), user, valid, title, address, category)
    {
      if !user.isStaff {
        return Forbidden403;
      }
      if !valid {
        return BadRequest400;
      }
      places := places[nextPlaceId := Place(title, address, category, user.id, {}, {})];
      nextPlaceId := nextPlaceId + 1;
      status := Ok200;
      Rules.CreatePlaceKeepsValid(old(Model()), user, valid, title, address, category);
    }

    /** PlaceDetailView.post */
    method ToggleBookmark(user: Requester, placeId: PlaceId) returns (status: Status)
      requires Valid()
      modifies this
      ensures Valid()
      ensures Outcome(Model(), status) == Rules.ToggleBookmark(old(Model()), user.id, placeId)
    {
      if placeId !in places {
        return NotFound404;
      }
      var place := places[placeId];
      if user.id in place.bookmark {
        places := places[placeId := place.(bookmark := place.bookmark - {user.id})];
      } else {
        places := places[placeId := place.(bookmark := place.bookmark + {user.id})];
      }
      status := Ok200;
    }

    /** PlaceDetailView.patch */
    method UpdatePlace(user: Requester, placeId: PlaceId, valid: bool, patch: Rules.PlacePatch)
      returns (status: Status)
      requires Valid()
      modifies this
      ensures Valid()
      ensures Outcome(Model(), status) == Rules.UpdatePlace(old(Model()), user, placeId, valid, patch)
    {
      if placeId !in places {
        return NotFound404;
      }
      if !user.isStaff {
        return Forbidden403;
      }
      if !valid {
        return BadRequest400;
      }
      var place := places[placeId];
      if patch.title.Some? {
        place := place.(title := patch.title.value);
      }
      if patch.address.Some? {
        place := place.(address := patch.address.value);
      }
      if patch.category.Some? {
        place := place.(category := patch.category.value);
      }
      places := places[placeId := place];
      status := Ok200;
    }

    /** PlaceDetailView.delete */
    method DeletePlace(user: Requester, placeId: PlaceId) returns (status: Status)
      requires Valid()
      modifies this
      ensures Valid()
      ensures Outcome(Model(), status) == Rules.DeletePlace(old(Model()), user, placeId)
    {
      if placeId !in places {
        return NotFound404;
      }
      if !user.isStaff {
        return Forbidden403;
      }
      places := places - {placeId};
      status := Ok200;
    }

    /** PlaceImageView.post: one row per uploaded file, in upload order. */
    method AddImages(placeId: PlaceId, files: seq<ImageFile>) returns (status: Status)
      requires Valid()
      modifies this
      ensures Valid()
      ensures Outcome(Model(), status) == Rules.AddImages(old(Model()), placeId, files)
    {
      if placeId !in places {
        return NotFound404;
      }
      for i := 0 to |files|
        invariant Model() == Rules.AddImageRows(old(Model()), placeId, files[..i])
      {
        images := images[nextImageId := Image(placeId, files[i])];
        nextImageId := nextImageId + 1;
        assert files[..i + 1][..i] == files[..i];
      }
      assert files[..|files|] == files;
      status := Ok200;
      Rules.AddImagesKeepsValid(old(Model()), placeId, files);
    }

    /** PlaceImageView.patch */
    method ReplaceImage(placeId: PlaceId, imageId: ImageId, file: ImageFile) returns (status: Status)
      requires Valid()
      modifies this
      ensures Valid()
      ensures Outcome(Model(), status) == Rules.ReplaceImage(old(Model()), placeId, imageId, file)
    {
      if placeId !in places {
        return NotFound404;
      }
      if imageId !in images {
        return NotFound404;
      }
      if images[imageId].place == placeId {
        images := images - {imageId};
        images := images[imageId := Image(placeId, file)];
        return Ok200;
      }
      return BadRequest400;
    }

    /** PlaceImageView.delete */
    method DeleteImage(placeId: PlaceId, imageId: ImageId) returns (status: Status)
      requires Valid()
      modifies this
      ensures Valid()
      ensures Outcome(Model(), status) == Rules.DeleteImage(old(Model()), placeId, imageId)
    {
      if imageId !in images {
        return NotFound404;
      }
      if images[imageId].place == placeId {
        images := images - {imageId};
        return Ok200;
      }
      return BadRequest400;
    }

    /** PlaceLikeView.post */
    method ToggleLike(user: Requester, placeId: PlaceId) returns (status: Status)
      requires Valid()
      modifies this
      ensures Valid()
      ensures Outcome(Model(), status) == Rules.ToggleLike(old(Model()), user.id, placeId)
    {
      if placeId !in places {
        return NotFound404;
      }
      var place := places[placeId];
      if user.id in place.like {
        places := places[placeId := place.(like := place.like - {user.id})];
      } else {
        places := places[placeId := place.(like := place.like + {user.id})];
      }
      status := Ok200;
    }

    /** PlaceCommentDetailView.post */
    method Reply(user: Requester, placeId: PlaceId, commentId: CommentId, valid: bool, content: string)
      returns (status: Status)
      requires Valid()
      modifies this
      ensures Valid()
      ensures Outcome(Model(), status) == Rules.Reply(old(Model()), user, placeId, commentId, valid, content)
    {
      if commentId !in comments {
        return NotFound404;
      }
      var upside := comments[commentId];
      if placeId !in places {
        return NotFound404;
      }
      if !valid {
        return BadRequest400;
      }
      if upside.deep >= 1 {
        return Forbidden403;
      }
      comments := comments[nextCommentId := Comment(placeId, user.id, Some(content), Some(commentId), upside.deep + 1)];
      nextCommentId := nextCommentId + 1;
      status := Ok200;
      Rules.ReplyKeepsValid(old(Model()), user, placeId, commentId, valid, content);
    }

    /** PlaceCommentDetailView.put */
    method EditComment(user: Requester, commentId: CommentId, valid: bool, content: string)
      returns (status: Status)
      requires Valid()
      modifies this
      ensures Valid()
      ensures Outcome(Model(), status) == Rules.EditComment(old(Model()), user, commentId, valid, content)
    {
      if commentId !in comments {
        return NotFound404;
      }
      var comment := comments[commentId];
      if user.id != comment.user {
        return Forbidden403;
      }
      if !valid {
        return BadRequest400;
      }
      comments := comments[commentId := comment.(content := Some(content))];
      status := Ok200;
      Rules.EditCommentKeepsValid(old(Model()), user, commentId, valid, content);
    }

    /** PlaceCommentDetailView.delete */
    method DeleteComment(login: Requester, placeId: PlaceId, commentId: CommentId, valid: bool)
      returns (status: Status)
      requires Valid()
      modifies this
      ensures Valid()
      ensures Outcome(Model(), status) == Rules.DeleteComment(old(Model()), login, placeId, commentId, valid)
    {
      var replied := exists c :: c in comments && comments[c].mainComment == Some(commentId);
      if commentId !in comments {
        return NotFound404;
      }
      var writer := comments[commentId];
      if placeId !in places {
        return NotFound404;
      }
      if writer.place != placeId {
        return Forbidden403;
      }
      if login.id != writer.user {
        return NoResponse;
      }
      if !valid {
        return BadRequest400;
      }
      if replied {
        comments := comments[commentId := writer.(content := None)];
      } else {
        comments := comments - {commentId};
      }
      status := Ok200;
      Rules.DeleteCommentKeepsValid(old(Model()), login, placeId, commentId, valid);
    }
  }

  /** A bookmark followed by an un-bookmark leaves the tables as they were. */
  method BookmarkTwice(db: PlaceDb, user: Requester, placeId: PlaceId)
    requires db.Valid()
    modifies db
    ensures db.Model() == old(db.Model())
  {
    var first := db.ToggleBookmark(user, placeId);
    var second := db.ToggleBookmark(user, placeId);
    Rules.ToggleBookmarkTwice(old(db.Model()), user.id, placeId);
  }
}
