/** The read-only endpoints of place/views.py: ordered and paginated place
    listings, the bookmark preview, the top-level comment selection and the
    region and category filter. */
module Listings {
  import opened Domain
  import opened Text
  import Rules

  /** PlaceBookPagination.page_size, used by the place listing. */
  const PlacePageSize: nat := 20
  /** How many bookmarked places the bookmark preview shows. */
  const BookmarkPreviewSize: nat := 4
  /** The user whose profile the category filter reads, whoever is logged in. */
  const CategoryUser: UserId := 3

  ghost predicate StrictlyDescending(xs: seq<nat>)
  {
    forall i, j :: 0 <= i < j < |xs| ==> xs[i] > xs[j]
  }

  /** The members of `ids` below `n`, largest first: `order_by('-id')`. */
  function DescendingBelow(ids: set<nat>, n: nat): (r: seq<nat>)
    ensures StrictlyDescending(r)
    ensures forall x :: x in r <==> x in ids && x < n
    decreases n
  {
    if n == 0 then []
    else
      var rest := DescendingBelow(ids, n - 1);
      if n - 1 in ids then
        var r := [n - 1] + rest;
        assert StrictlyDescending(r) by {
          forall i, j | 0 <= i < j < |r| ensures r[i] > r[j] {
            assert r[j] == rest[j - 1] && rest[j - 1] in rest;
          }
        }
        r
      else rest
  }

  /** The number of pages Django's paginator counts (an empty list has one page). */
  function PageCount(count: nat, size: nat): (n: nat)
    requires size > 0
    ensures n >= 1
  {
    if count == 0 then 1 else (count + size - 1) / size
  }

  /** The index of the first item of page `page`. */
  function PageStart(page: nat, size: nat): nat
    requires page >= 1
  {
    (page - 1) * size
  }

  /** Page number `page` of `xs`; None is the paginator's "invalid page" (404).
      The guard is the paginator's `page > num_pages` test, restated by PageBound. */
  function Page<T>(xs: seq<T>, page: nat, size: nat): (r: Option<seq<T>>)
    requires size > 0
    ensures r.Some? <==> page == 1 || (1 <= page && PageStart(page, size) < |xs|)
    ensures r.Some? <==> 1 <= page <= PageCount(|xs|, size)
    ensures r.Some? ==>
      && |r.value| == (if PageStart(page, size) + size <= |xs| then size else |xs| - PageStart(page, size))
      && forall k :: 0 <= k < |r.value| ==> r.value[k] == xs[PageStart(page, size) + k]
  {
    if page < 1 then None
    else if !(page == 1 || PageStart(page, size) < |xs|) then
      PageBound(|xs|, page, size);
      None
    else
      PageBound(|xs|, page, size);
      var lo := PageStart(page, size);
      assert lo <= |xs|;
      var hi := if lo + size <= |xs| then lo + size else |xs|;
      Some(xs[lo..hi])
  }

  lemma MulMonotone(a: nat, b: nat, c: nat)
    requires a <= b
    ensures a * c <= b * c
  {
  }

  /** A page number is within the page count exactly when the page starts
      inside the list, or it is the first page. */
  lemma PageBound(count: nat, page: nat, size: nat)
    requires size > 0 && page >= 1
    ensures page <= PageCount(count, size) <==> page == 1 || PageStart(page, size) < count
  {
    var m := page - 1;
    assert PageStart(page, size) == m * size;
    if count == 0 {
      assert page == 1 ==> m * size == 0;
    } else {
      var q := count + size - 1;
      var n := q / size;
      assert n == PageCount(count, size);
      assert q == n * size + q % size && 0 <= q % size < size;
      assert count <= n * size;
      if page <= n {
        MulMonotone(m, n - 1, size);
        assert (n - 1) * size == n * size - size;
      } else {
        MulMonotone(n, m, size);
      }
    }
  }

  /** Every element of a list is on exactly the page its index says. */
  lemma EveryItemOnItsPage<T>(xs: seq<T>, size: nat, i: nat)
    requires size > 0 && i < |xs|
    ensures var r := Page(xs, i / size + 1, size);
      r.Some? && i % size < |r.value| && r.value[i % size] == xs[i]
  {
    var q, m := i / size, i % size;
    assert i == q * size + m && 0 <= m < size;
    assert PageStart(q + 1, size) == q * size;
  }

  /** PlaceView.get: the places newest (highest id) first, 20 to a page. */
  function PlaceListing(s: Store, page: nat): (r: Option<seq<PlaceId>>)
    requires IdsFresh(s)
    ensures r.Some? ==>
      && |r.value| <= PlacePageSize
      && StrictlyDescending(r.value)
      && forall p :: p in r.value ==> p in s.places
    ensures page == 1 ==> r.Some? && |r.value| == (if |s.places| < PlacePageSize then |s.places| else PlacePageSize)
    ensures r.Some? ==>
      && page >= 1
      && PageStart(page, PlacePageSize) + |r.value| <= |DescendingBelow(s.places.Keys, s.nextPlaceId)|
      && forall k :: 0 <= k < |r.value| ==>
        r.value[k] == DescendingBelow(s.places.Keys, s.nextPlaceId)[PageStart(page, PlacePageSize) + k]
  {
    var all := DescendingBelow(s.places.Keys, s.nextPlaceId);
    var r := Page(all, page, PlacePageSize);
    if r.Some? then
      assert StrictlyDescending(r.value) by {
        forall i, j | 0 <= i < j < |r.value| ensures r.value[i] > r.value[j] {
          assert r.value[i] == all[PageStart(page, PlacePageSize) + i];
          assert r.value[j] == all[PageStart(page, PlacePageSize) + j];
        }
      }
      assert forall p :: p in r.value ==> p in all by {
        forall p | p in r.value ensures p in all {
          var k :| 0 <= k < |r.value| && r.value[k] == p;
          assert r.value[k] == all[PageStart(page, PlacePageSize) + k];
        }
      }
      DescendingCovers(s.places.Keys, s.nextPlaceId, all);
      assert PageStart(page, PlacePageSize) + |r.value| <= |all|;
      r
    else r
  }

  /** The first page shows the newest places: every place left off it is
      older than every place on it, and then the page is full. */
  lemma FirstPageIsNewest(s: Store)
    requires IdsFresh(s)
    ensures var r := PlaceListing(s, 1);
      r.Some? && forall p :: p in s.places && p !in r.value ==>
        |r.value| == PlacePageSize && forall k :: 0 <= k < |r.value| ==> p < r.value[k]
  {
    var all := DescendingBelow(s.places.Keys, s.nextPlaceId);
    var r := PlaceListing(s, 1).value;
    assert PageStart(1, PlacePageSize) == 0;
    forall p | p in s.places && p !in r
      ensures |r| == PlacePageSize && forall k :: 0 <= k < |r| ==> p < r[k]
    {
      var j :| 0 <= j < |all| && all[j] == p;
      assert j >= |r| by {
        assert forall i :: 0 <= i < |r| ==> all[i] in r;
      }
      assert |r| == PlacePageSize;
      forall k | 0 <= k < |r| ensures p < r[k] {
        assert r[k] == all[k];
      }
    }
  }

  /** `DescendingBelow` lists each key once, so its length is the number of keys. */
  lemma DescendingCovers(ids: set<nat>, n: nat, xs: seq<nat>)
    requires forall x :: x in ids ==> x < n
    requires xs == DescendingBelow(ids, n)
    ensures |xs| == |ids|
  {
    DistinctLength(xs, ids);
  }

  lemma {:induction false} DistinctLength(xs: seq<nat>, ids: set<nat>)
    requires StrictlyDescending(xs)
    requires forall x :: x in xs <==> x in ids
    ensures |xs| == |ids|
    decreases |xs|
  {
    if xs != [] {
      var rest := xs[1..];
      assert xs[0] !in rest by {
        forall k | 0 <= k < |rest| ensures rest[k] != xs[0] {
          assert rest[k] == xs[k + 1];
        }
      }
      forall x ensures x in rest <==> x in ids - {xs[0]} {
        if x in ids - {xs[0]} {
          assert x in xs;
          var k :| 0 <= k < |xs| && xs[k] == x;
          assert k != 0;
          assert rest[k - 1] == x;
        }
      }
      assert StrictlyDescending(rest) by {
        forall i, j | 0 <= i < j < |rest| ensures rest[i] > rest[j] {
          assert rest[i] == xs[i + 1] && rest[j] == xs[j + 1];
        }
      }
      DistinctLength(rest, ids - {xs[0]});
    }
  }

  /** The places user `uid` has bookmarked. */
  function Bookmarked(s: Store, uid: UserId): set<PlaceId>
  {
    set p | p in s.places && uid in s.places[p].bookmark
  }

  /** PlaceBookView.get: at most four bookmarked places, highest id first;
      None is the 404 for an unknown user. */
  function BookmarkPreview(s: Store, uid: UserId): (r: Option<seq<PlaceId>>)
    requires IdsFresh(s)
    ensures r.None? <==> uid !in s.users
    ensures r.Some? ==>
      && |r.value| <= BookmarkPreviewSize
      && StrictlyDescending(r.value)
      && (forall p :: p in r.value ==> p in s.places && uid in s.places[p].bookmark)
      && (forall p :: p in s.places && uid in s.places[p].bookmark && p !in r.value ==>
            |r.value| == BookmarkPreviewSize && p < r.value[BookmarkPreviewSize - 1])
  {
    if uid !in s.users then None
    else
      var all := DescendingBelow(Bookmarked(s, uid), s.nextPlaceId);
      var shown := if |all| <= BookmarkPreviewSize then all else all[..BookmarkPreviewSize];
      assert forall p :: p in shown ==> p in all;
      assert forall p :: p in s.places && uid in s.places[p].bookmark && p !in shown ==>
               |shown| == BookmarkPreviewSize && p < shown[BookmarkPreviewSize - 1] by {
        forall p | p in s.places && uid in s.places[p].bookmark && p !in shown
          ensures |shown| == BookmarkPreviewSize && p < shown[BookmarkPreviewSize - 1]
        {
          assert p in Bookmarked(s, uid);
          var j :| 0 <= j < |all| && all[j] == p;
          assert j >= BookmarkPreviewSize;
        }
      }
      Some(shown)
  }

  /** PlaceCommentView.get (and the comment part of PlaceDetailView.get): the
      comments of a place that reply to nothing; None is the 404 for an
      unknown place. */
  function TopLevelComments(s: Store, pid: PlaceId): (r: Option<set<CommentId>>)
    ensures r.None? <==> pid !in s.places
  {
    if pid !in s.places then None
    else Some(set c | c in s.comments && s.comments[c].place == pid && s.comments[c].mainComment.None?)
  }

  /** In a valid store the top-level comments of a place are exactly its
      comments of depth 0, so no reply is listed twice. */
  lemma TopLevelIsDepthZero(s: Store, pid: PlaceId)
    requires Valid(s) && pid in s.places
    ensures forall c :: c in TopLevelComments(s, pid).value <==>
      c in s.comments && s.comments[c].place == pid && s.comments[c].deep == 0
  {
    forall c | c in s.comments
      ensures s.comments[c].mainComment.None? <==> s.comments[c].deep == 0
    {
      assert CommentOk(s, s.comments[c]);
    }
  }

  /** Soft-deleting a comment with replies keeps it in the place's thread;
      removing a leaf takes exactly it out of the top-level listing. */
  lemma DeleteCommentAndListing(s: Store, req: Requester, pid: PlaceId, cid: CommentId, valid: bool)
    requires pid in s.places
    ensures var r := Rules.DeleteComment(s, req, pid, cid, valid);
      && (r.status == Ok200 && HasReplies(s, cid) ==> TopLevelComments(r.store, pid) == TopLevelComments(s, pid))
      && (r.status == Ok200 && !HasReplies(s, cid) ==>
            TopLevelComments(r.store, pid).value == TopLevelComments(s, pid).value - {cid})
  {
    var r := Rules.DeleteComment(s, req, pid, cid, valid);
    if r.status == Ok200 && HasReplies(s, cid) {
      assert TopLevelComments(r.store, pid).value == TopLevelComments(s, pid).value;
    }
  }

  // ------------------------------------------------------ the category filter

  datatype QueryError =
    | UserMissing      // User.objects.get(id=3) raises
    | QuerysetUnbound  // the profile is missing: the name is never assigned
    | NoneSearchValue  // the `search` parameter is absent: None is refused as an icontains value

  datatype Result<T> = Ok(value: T) | Err(error: QueryError)

  /** The address holds both regions and the category holds the search term. */
  predicate MatchesBoth(p: Place, region1: string, region2: string, search: string)
  {
    Contains(p.address, region1) && Contains(p.address, region2) && IContains(p.category, search)
  }

  /** PlaceCategoryView.get_queryset, as the set of place ids it selects. */
  function CategoryQueryset(s: Store, search: Option<string>): (r: Result<set<PlaceId>>)
    ensures CategoryUser !in s.users ==> r == Err(UserMissing)
    ensures CategoryUser in s.users && CategoryUser !in s.profiles ==> r == Err(QuerysetUnbound)
    ensures CategoryUser in s.users && CategoryUser in s.profiles ==>
      var pr := s.profiles[CategoryUser];
      && (pr.region1.None? || pr.region2.None? ==> r == Ok(s.places.Keys))
      && (pr.region1.Some? && pr.region2.Some? && search.None? ==> r == Err(NoneSearchValue))
      && (pr.region1.Some? && pr.region2.Some? && search.Some? ==>
            && r.Ok?
            && ((exists p :: p in s.places && MatchesBoth(s.places[p], pr.region1.value, pr.region2.value, search.value)) ==>
                  forall p :: p in r.value <==>
                    p in s.places && MatchesBoth(s.places[p], pr.region1.value, pr.region2.value, search.value))
            && (!(exists p :: p in s.places && MatchesBoth(s.places[p], pr.region1.value, pr.region2.value, search.value)) ==>
                  forall p :: p in r.value <==> p in s.places && Contains(s.places[p].address, pr.region1.value)))
  {
    if CategoryUser !in s.users then Err(UserMissing)
    else if CategoryUser !in s.profiles then Err(QuerysetUnbound)
    else
      var pr := s.profiles[CategoryUser];
      if pr.region1.Some? && pr.region2.Some? then
        if search.None? then Err(NoneSearchValue)
        else
          var both := set p | p in s.places && MatchesBoth(s.places[p], pr.region1.value, pr.region2.value, search.value);
          if both != {} then
            assert exists p :: p in s.places && MatchesBoth(s.places[p], pr.region1.value, pr.region2.value, search.value) by {
              var p :| p in both;
            }
            Ok(both)
          else
            assert !exists p :: p in s.places && MatchesBoth(s.places[p], pr.region1.value, pr.region2.value, search.value) by {
              forall p | p in s.places ensures !MatchesBoth(s.places[p], pr.region1.value, pr.region2.value, search.value) {
                assert p !in both;
              }
            }
            Ok(set p | p in s.places && Contains(s.places[p].address, pr.region1.value))
      else Ok(s.places.Keys)
  }

  /** With both regions set, whichever tier is taken, every selected place
      lies in the first region. */
  lemma CategoryStaysInRegion1(s: Store, search: Option<string>)
    requires CategoryUser in s.profiles
    requires s.profiles[CategoryUser].region1.Some? && s.profiles[CategoryUser].region2.Some?
    requires CategoryQueryset(s, search).Ok?
    ensures forall p :: p in CategoryQueryset(s, search).value ==>
      p in s.places && Contains(s.places[p].address, s.profiles[CategoryUser].region1.value)
  {
  }

  /** The filter never looks at who is asking: two stores that differ only in
      profiles other than user 3's give the same selection. */
  lemma CategoryReadsOnlyUser3(s: Store, t: Store, search: Option<string>)
    requires s.users == t.users && s.places == t.places
    requires CategoryUser in s.profiles <==> CategoryUser in t.profiles
    requires CategoryUser in s.profiles ==> s.profiles[CategoryUser] == t.profiles[CategoryUser]
    ensures CategoryQueryset(s, search) == CategoryQueryset(t, search)
  {
  }
}
