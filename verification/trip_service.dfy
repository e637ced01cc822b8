/** Trips: creation (legacy explicit-author paths and the current-user path),
    the ownership guard on update and delete, the JSON and multipart update
    rules with the photo-list merge, and the query filters. The current
    identity is an explicit argument (`None` when no authenticated principal
    carries a user id); photo uploads go through the storage oracle. */
module TripService {
  import opened Wrappers
  import opened Entities
  import opened JavaText
  import opened StorageService

  /** Body of the trip endpoints. */
  datatype TripRequest = TripRequest(
    title: Option<string>,
    description: Option<string>,
    photos: Option<seq<string>>,
    tags: Option<seq<string>>,
    latitude: Option<Coordinate>,
    longitude: Option<Coordinate>,
    authorId: Option<UserId>)

  /** `new TripRequest()`: photos and tags start as empty lists, not null. */
  const EmptyTripRequest: TripRequest := TripRequest(None, None, Some([]), Some([]), None, None, None)

  /** What the service returns about a trip. */
  datatype TripResponse = TripResponse(
    id: TripId,
    title: Option<string>,
    description: Option<string>,
    photos: seq<string>,
    tags: seq<string>,
    latitude: Option<Coordinate>,
    longitude: Option<Coordinate>,
    authorId: Option<UserId>)

  /** `mapToResponse`: null photo and tag lists are reported as empty. */
  function MapToResponse(t: Trip): (r: TripResponse)
    ensures r.id == t.id && r.title == t.title && r.description == t.description
    ensures r.photos == t.photos.GetOr([]) && r.tags == t.tags.GetOr([])
    ensures r.latitude == t.latitude && r.longitude == t.longitude && r.authorId == t.authorId
  {
    TripResponse(t.id, t.title, t.description,
                 if t.photos.Some? then t.photos.value else [],
                 if t.tags.Some? then t.tags.value else [],
                 t.latitude, t.longitude, t.authorId)
  }

  /** A client cannot tell a null photo or tag list from an empty one, and the
      response loses nothing else: trips that differ elsewhere answer differently. */
  lemma MapToResponseNullIsEmpty(t: Trip, u: Trip)
    ensures MapToResponse(t.(photos := None, tags := None)) == MapToResponse(t.(photos := Some([]), tags := Some([])))
    ensures MapToResponse(t) == MapToResponse(u) <==>
              && t.(photos := Some(t.photos.GetOr([])), tags := Some(t.tags.GetOr([])))
                 == u.(photos := Some(u.photos.GetOr([])), tags := Some(u.tags.GetOr([])))
  {
  }

  // ---------------------------------------------------------------------------
  // The ownership guard
  // ---------------------------------------------------------------------------

  /** The caller owns trip `id`. */
  predicate IsOwner(trips: TripStore, id: TripId, current: Option<UserId>) {
    id in trips.byId && current.Some? && trips.byId[id].authorId == current
  }

  /** `getCurrentUserId` followed by the author comparison of update and delete:
      no identity, a null author or another author is an access denial. */
  function CheckOwner(trip: Trip, current: Option<UserId>): (r: Result<UserId, Error>)
    ensures r.Success? <==> current.Some? && trip.authorId == current
    ensures r.Success? ==> r.value == current.value
    ensures current.None? ==> r == Failure(AccessDenied(AuthenticationRequired))
    ensures current.Some? && r.Failure? ==> r == Failure(AccessDenied(NotOwner))
  {
    match current
    case None => Failure(AccessDenied(AuthenticationRequired))
    case Some(uid) => if trip.authorId == Some(uid) then Success(uid) else Failure(AccessDenied(NotOwner))
  }

  /** Stores a new trip under the next identity value. */
  function InsertTrip(trips: TripStore, t: Trip): (r: TripStore)
    requires t.id == trips.nextId
    ensures r.nextId == trips.nextId + 1
    ensures r.byId.Keys == trips.byId.Keys + {t.id} && r.byId[t.id] == t
    ensures forall id :: id in trips.byId && id != t.id ==> r.byId[id] == trips.byId[id]
    ensures TripKeysValid(trips) ==> TripKeysValid(r)
  {
    TripStore(trips.byId[t.id := t], trips.nextId + 1)
  }

  /** Only trip `id` may differ between the two stores; no trip appears or disappears. */
  predicate OnlyTripChanged(before: TripStore, after: TripStore, id: TripId) {
    && after.byId.Keys == before.byId.Keys
    && after.nextId == before.nextId
    && forall other :: other in before.byId && other != id ==> after.byId[other] == before.byId[other]
  }

  // ---------------------------------------------------------------------------
  // Creation
  // ---------------------------------------------------------------------------

  /** `createTrip`: the legacy path. The author named in the request must exist;
      no check relates it to the caller. Null photo and tag lists become empty. */
  function CreateTrip(users: UserStore, trips: TripStore, req: TripRequest): (r: Step<TripStore, TripResponse>)
    ensures req.authorId.None? ==> r == Step(trips, Failure(NullId))
    ensures req.authorId.Some? && req.authorId.value !in users.byId ==> r == Step(trips, Failure(UserNotFound))
    ensures r.result.Success? <==> req.authorId.Some? && req.authorId.value in users.byId
    ensures r.result.Failure? ==> r.state == trips
    ensures r.result.Success? ==>
              && r.state.byId.Keys == trips.byId.Keys + {trips.nextId}
              && r.state.byId[trips.nextId] == Trip(trips.nextId, req.title, req.description,
                                                    Some(req.photos.GetOr([])), Some(req.tags.GetOr([])),
                                                    req.latitude, req.longitude, req.authorId)
              && r.result.value.authorId == req.authorId
    ensures TripKeysValid(trips) ==> TripKeysValid(r.state)
  {
    if req.authorId.None? then Step(trips, Failure(NullId))
    else if req.authorId.value !in users.byId then Step(trips, Failure(UserNotFound))
    else
      var t := Trip(trips.nextId, req.title, req.description, Some(req.photos.GetOr([])),
                    Some(req.tags.GetOr([])), req.latitude, req.longitude, req.authorId);
      Step(InsertTrip(trips, t), Success(MapToResponse(t)))
  }

  /** `createTripWithUploads`: uploads every usable file, then `createTrip` with
      the uploaded URLs as the photo list. */
  function CreateTripWithUploads(users: UserStore, trips: TripStore, req: TripRequest,
                                 photos: Option<seq<Option<Upload>>>,
                                 uploader: Uploader): (r: Step<TripStore, TripResponse>)
    ensures r.result.Failure? ==> r.state == trips
    // the uploads run before the author is looked up
    ensures UploadTripPhotos(photos, uploader, 0).Failure? ==> r == Step(trips, Failure(UploadFailed))
    ensures r.result.Success? <==>
              && UploadTripPhotos(photos, uploader, 0).Success?
              && req.authorId.Some? && req.authorId.value in users.byId
    ensures r.result.Success? ==>
              && trips.nextId in r.state.byId
              && r.state.byId[trips.nextId].photos == Some(UploadTripPhotos(photos, uploader, 0).value)
              && r.state.byId[trips.nextId].authorId == req.authorId
  {
    match UploadTripPhotos(photos, uploader, 0)
    case Failure(e) => Step(trips, Failure(e))
    case Success(urls) => CreateTrip(users, trips, req.(photos := Some(urls)))
  }

  /** Without files the upload path is `createTrip` with an empty photo list,
      whatever photos the request named and whatever the uploader would do. */
  lemma UploadsWithoutFilesIsCreateTrip(users: UserStore, trips: TripStore, req: TripRequest,
                                        photos: Option<seq<Option<Upload>>>, uploader: Uploader)
    requires photos.None? || |UsableFiles(photos.value)| == 0
    ensures CreateTripWithUploads(users, trips, req, photos, uploader) == CreateTrip(users, trips, req.(photos := Some([])))
  {
  }

  /** Presents a list of files as a multipart file list. */
  function Wrap(files: seq<Upload>): (r: seq<Option<Upload>>)
    ensures |r| == |files| && forall k :: 0 <= k < |files| ==> r[k] == Some(files[k])
  {
    seq(|files|, k requires 0 <= k < |files| => Some(files[k]))
  }

  lemma {:induction false} UsableFilesWrap(files: seq<Upload>)
    requires forall k :: 0 <= k < |files| ==> files[k].size > 0
    ensures UsableFiles(Wrap(files)) == files
  {
    if |files| > 0 {
      UsableFilesWrap(files[1..]);
      assert Wrap(files)[1..] == Wrap(files[1..]);
      assert IsUsable(Wrap(files)[0]);
      assert UsableFiles(Wrap(files)) == [files[0]] + UsableFiles(Wrap(files[1..]));
    }
  }

  /** Uploading already-filtered files as a multipart list uploads exactly those files. */
  lemma UploadWrapped(files: seq<Upload>, uploader: Uploader, first: nat)
    requires forall k :: 0 <= k < |files| ==> files[k].size > 0
    ensures UploadTripPhotos(Some(Wrap(files)), uploader, first) == UploadAll(files, uploader, first)
  {
    UsableFilesWrap(files);
  }

  lemma UsableFilesSingle(f: Option<Upload>)
    ensures UsableFiles([f]) == if IsUsable(f) then [f.value] else []
  {
    assert [f][1..] == [];
  }

  /** The files the current-user and explicit-author paths upload: a usable
      primary image first, then the usable additional images in order. */
  function FilesToUpload(primary: Option<Upload>, additional: Option<seq<Option<Upload>>>): (r: seq<Upload>)
    ensures forall k :: 0 <= k < |r| ==> r[k].size > 0
    ensures UsableFiles(Wrap(r)) == r
  {
    var r := (if IsUsable(primary) then [primary.value] else []) + UsableFiles(additional.GetOr([]));
    UsableFilesWrap(r);
    r
  }

  /** `createTripForAuthorWithUploads`: the path variable becomes the author; the
      files are uploaded, then `createTrip` runs. */
  function CreateTripForAuthorWithUploads(users: UserStore, trips: TripStore, authorId: UserId, req: TripRequest,
                                          primary: Option<Upload>, additional: Option<seq<Option<Upload>>>,
                                          uploader: Uploader): (r: Step<TripStore, TripResponse>)
    ensures r.result.Failure? ==> r.state == trips
    ensures r.result.Success? <==>
              authorId in users.byId &&
              AllUploadsSucceed(FilesToUpload(primary, additional), uploader, 0)
    // the path variable is the author, and the photos are the selected files' uploads in order
    ensures r.result.Success? ==>
              var uploaded := UploadAll(FilesToUpload(primary, additional), uploader, 0);
              && uploaded.Success?
              && trips.nextId in r.state.byId
              && r.state.byId[trips.nextId].authorId == Some(authorId)
              && r.state.byId[trips.nextId].photos == Some(uploaded.value)
  {
    var files := FilesToUpload(primary, additional);
    UploadWrapped(files, uploader, 0);
    match UploadTripPhotos(Some(Wrap(files)), uploader, 0)
    case Failure(e) => Step(trips, Failure(e))
    case Success(urls) => CreateTrip(users, trips, req.(authorId := Some(authorId), photos := Some(urls)))
  }

  /** `createTripForCurrentUser`: the caller must be authenticated and exist;
      the photos are the uploads of the usable primary image followed by the
      usable additional images; the caller is always the author. */
  function CreateTripForCurrentUser(users: UserStore, trips: TripStore, current: Option<UserId>, req: TripRequest,
                                    primary: Option<Upload>, additional: Option<seq<Option<Upload>>>,
                                    uploader: Uploader): (r: Step<TripStore, TripResponse>)
    ensures current.None? ==> r == Step(trips, Failure(AccessDenied(AuthenticationRequired)))
    ensures current.Some? && current.value !in users.byId ==> r == Step(trips, Failure(UserNotFound))
    ensures r.result.Failure? ==> r.state == trips
    ensures var files := FilesToUpload(primary, additional);
            r.result.Success? <==>
              && current.Some? && current.value in users.byId
              && AllUploadsSucceed(files, uploader, 0)
    ensures r.result.Success? ==> trips.nextId in r.state.byId
    ensures r.result.Success? ==>
              var files := FilesToUpload(primary, additional);
              var t := r.state.byId[trips.nextId];
              && r.state.byId.Keys == trips.byId.Keys + {trips.nextId}
              && t.authorId == current
              && t.title == req.title && t.description == req.description
              && t.latitude == req.latitude && t.longitude == req.longitude
              && t.tags == Some(req.tags.GetOr([]))
              && t.photos.Some? && |t.photos.value| == |files|
              && (forall k :: 0 <= k < |files| ==> t.photos.value[k] == uploader(k, files[k]).value)
              && r.result.value == MapToResponse(t)
    ensures TripKeysValid(trips) ==> TripKeysValid(r.state)
  {
    match current
    case None => Step(trips, Failure(AccessDenied(AuthenticationRequired)))
    case Some(uid) =>
      if uid !in users.byId then Step(trips, Failure(UserNotFound))
      else
        var files := FilesToUpload(primary, additional);
        var uploaded := if |files| == 0 then Success([]) else UploadTripPhotos(Some(Wrap(files)), uploader, 0);
        match uploaded
        case Failure(e) => Step(trips, Failure(e))
        case Success(urls) =>
          var t := Trip(trips.nextId, req.title, req.description, Some(urls), Some(req.tags.GetOr([])),
                        req.latitude, req.longitude, Some(uid));
          Step(InsertTrip(trips, t), Success(MapToResponse(t)))
  }

  /** The photos of a trip created on the current-user path are the result of
      one batch upload of the selected files. */
  lemma CurrentUserPathStoresBatch(users: UserStore, trips: TripStore, current: Option<UserId>, req: TripRequest,
                                   primary: Option<Upload>, additional: Option<seq<Option<Upload>>>,
                                   uploader: Uploader)
    ensures var r := CreateTripForCurrentUser(users, trips, current, req, primary, additional, uploader);
            var uploaded := UploadAll(FilesToUpload(primary, additional), uploader, 0);
            r.result.Success? ==>
              && uploaded.Success?
              && trips.nextId in r.state.byId
              && r.state.byId[trips.nextId].photos == Some(uploaded.value)
  {
    var r := CreateTripForCurrentUser(users, trips, current, req, primary, additional, uploader);
    var files := FilesToUpload(primary, additional);
    if r.result.Success? {
      var photos := r.state.byId[trips.nextId].photos.value;
      var uploaded := UploadAll(files, uploader, 0);
      assert uploaded.Success?;
      assert photos == uploaded.value;
    }
  }

  /** For an existing author the explicit-author path creates exactly what the
      current-user path creates for that author as the caller. */
  lemma ExplicitAuthorMatchesCurrentUser(users: UserStore, trips: TripStore, authorId: UserId, req: TripRequest,
                                         primary: Option<Upload>, additional: Option<seq<Option<Upload>>>,
                                         uploader: Uploader)
    requires authorId in users.byId
    ensures CreateTripForAuthorWithUploads(users, trips, authorId, req, primary, additional, uploader)
         == CreateTripForCurrentUser(users, trips, Some(authorId), req, primary, additional, uploader)
  {
    var files := FilesToUpload(primary, additional);
    UploadWrapped(files, uploader, 0);
    if |files| == 0 {
      assert UploadAll(files, uploader, 0) == Success([]);
    }
  }

  /** The author a client puts in the request is ignored on the current-user path. */
  lemma CurrentUserPathIgnoresRequestedAuthor(users: UserStore, trips: TripStore, current: Option<UserId>,
                                              req: TripRequest, claimed: Option<UserId>, primary: Option<Upload>,
                                              additional: Option<seq<Option<Upload>>>,
                                              uploader: Uploader)
    ensures CreateTripForCurrentUser(users, trips, current, req.(authorId := claimed), primary, additional, uploader)
         == CreateTripForCurrentUser(users, trips, current, req, primary, additional, uploader)
  {
  }

  /** The current-user path sees the files only through `FilesToUpload`:
      two file arguments that select the same files create the same trip. */
  lemma CurrentUserPathDependsOnlyOnFiles(users: UserStore, trips: TripStore, current: Option<UserId>,
                                          req: TripRequest, p1: Option<Upload>, a1: Option<seq<Option<Upload>>>,
                                          p2: Option<Upload>, a2: Option<seq<Option<Upload>>>,
                                          uploader: Uploader)
    requires FilesToUpload(p1, a1) == FilesToUpload(p2, a2)
    ensures CreateTripForCurrentUser(users, trips, current, req, p1, a1, uploader)
         == CreateTripForCurrentUser(users, trips, current, req, p2, a2, uploader)
  {
  }

  /** Without a usable file the uploader is never consulted. */
  lemma CurrentUserPathWithoutFilesUploadsNothing(users: UserStore, trips: TripStore, current: Option<UserId>,
                                                  req: TripRequest, primary: Option<Upload>,
                                                  additional: Option<seq<Option<Upload>>>,
                                                  up1: Uploader,
                                                  up2: Uploader)
    requires !IsUsable(primary) && (additional.None? || |UsableFiles(additional.value)| == 0)
    ensures CreateTripForCurrentUser(users, trips, current, req, primary, additional, up1)
         == CreateTripForCurrentUser(users, trips, current, req, primary, additional, up2)
    ensures var r := CreateTripForCurrentUser(users, trips, current, req, primary, additional, up1);
            r.result.Success? ==> r.result.value.photos == []
  {
  }

  // ---------------------------------------------------------------------------
  // Queries
  // ---------------------------------------------------------------------------

  /** `getTripById`. */
  function GetTripById(trips: TripStore, id: TripId): (r: Result<TripResponse, Error>)
    ensures r.Success? <==> id in trips.byId
    ensures r.Success? ==> r.value == MapToResponse(trips.byId[id])
    ensures r.Failure? ==> r.error == TripNotFound
  {
    if id in trips.byId then Success(MapToResponse(trips.byId[id])) else Failure(TripNotFound)
  }

  /** The ids of the trips `keep` accepts, in increasing order. */
  method SelectTrips(trips: TripStore, keep: Trip -> bool) returns (ids: seq<TripId>)
    ensures forall k :: 0 <= k < |ids| ==> ids[k] in trips.byId && keep(trips.byId[ids[k]])
    ensures forall i, j :: 0 <= i < j < |ids| ==> ids[i] < ids[j]
    ensures TripKeysValid(trips) ==> forall id :: id in trips.byId && keep(trips.byId[id]) ==> id in ids
  {
    ids := [];
    var i := 0;
    while i < trips.nextId
      invariant 0 <= i <= trips.nextId
      invariant forall k :: 0 <= k < |ids| ==> ids[k] in trips.byId && keep(trips.byId[ids[k]]) && ids[k] < i
      invariant forall a, b :: 0 <= a < b < |ids| ==> ids[a] < ids[b]
      invariant forall id :: 0 <= id < i && id in trips.byId && keep(trips.byId[id]) ==> id in ids
    {
      if i in trips.byId && keep(trips.byId[i]) {
        ids := ids + [i];
      }
      i := i + 1;
    }
  }

  /** `findByAuthorId`'s condition. */
  predicate AuthoredBy(t: Trip, authorId: UserId) {
    t.authorId == Some(authorId)
  }

  /** `findByTitleContainingIgnoreCase`'s condition: a null title never matches. */
  predicate TitleContains(t: Trip, query: string) {
    t.title.Some? && ContainsIgnoreCase(t.title.value, query)
  }

  /** `getTripsByAuthorId`: every trip of that author, and only those. */
  method GetTripsByAuthorId(trips: TripStore, authorId: UserId) returns (found: seq<TripResponse>)
    requires TripKeysValid(trips)
    ensures forall k :: 0 <= k < |found| ==>
              found[k].id in trips.byId && found[k].authorId == Some(authorId)
              && found[k] == MapToResponse(trips.byId[found[k].id])
    ensures forall id :: id in trips.byId && trips.byId[id].authorId == Some(authorId) ==>
                exists k :: 0 <= k < |found| && found[k].id == id
  {
    var ids := SelectTrips(trips, t => AuthoredBy(t, authorId));
    found := seq(|ids|, k requires 0 <= k < |ids| => MapToResponse(trips.byId[ids[k]]));
    forall k | 0 <= k < |found| ensures found[k].authorId == Some(authorId) {
      assert AuthoredBy(trips.byId[ids[k]], authorId);
    }
    {
      forall id | id in trips.byId && trips.byId[id].authorId == Some(authorId)
        ensures exists k :: 0 <= k < |found| && found[k].id == id
      {
        assert AuthoredBy(trips.byId[id], authorId);
        var k :| 0 <= k < |ids| && ids[k] == id;
        assert found[k].id == id;
      }
    }
  }

  /** `searchTripsByTitle`: every trip whose title contains the query, ignoring
      ASCII case, and only those. */
  method SearchTripsByTitle(trips: TripStore, query: string) returns (found: seq<TripResponse>)
    requires TripKeysValid(trips)
    ensures forall k :: 0 <= k < |found| ==>
              found[k].id in trips.byId && TitleContains(trips.byId[found[k].id], query)
              && found[k] == MapToResponse(trips.byId[found[k].id])
    ensures forall id :: id in trips.byId && TitleContains(trips.byId[id], query) ==>
                exists k :: 0 <= k < |found| && found[k].id == id
  {
    var ids := SelectTrips(trips, t => TitleContains(t, query));
    found := seq(|ids|, k requires 0 <= k < |ids| => MapToResponse(trips.byId[ids[k]]));
    assert forall k :: 0 <= k < |found| ==> found[k].id == ids[k];
    {
      forall id | id in trips.byId && TitleContains(trips.byId[id], query)
        ensures exists k :: 0 <= k < |found| && found[k].id == id
      {
        var k :| 0 <= k < |ids| && ids[k] == id;
        assert found[k].id == id;
      }
    }
  }

  // ---------------------------------------------------------------------------
  // Update and delete
  // ---------------------------------------------------------------------------

  /** `updateTrip` (the JSON path): after the guard, title, description and the
      coordinates are overwritten unconditionally; photos, tags and the author
      only when the request carries them; a new author must exist. */
  function UpdateTrip(users: UserStore, trips: TripStore, current: Option<UserId>, id: TripId,
                      req: TripRequest): (r: Step<TripStore, TripResponse>)
    ensures id !in trips.byId ==> r == Step(trips, Failure(TripNotFound))
    ensures id in trips.byId && !IsOwner(trips, id, current) ==>
              r.state == trips && r.result.Failure? && r.result.error.AccessDenied?
    ensures r.result.Failure? ==> r.state == trips
    ensures r.result.Success? <==>
              && IsOwner(trips, id, current)
              && (req.authorId.Some? && req.authorId != current ==> req.authorId.value in users.byId)
    ensures r.result.Success? ==> id in r.state.byId
    ensures r.result.Success? ==>
              var before := trips.byId[id];
              var after := r.state.byId[id];
              && OnlyTripChanged(trips, r.state, id)
              && after.id == before.id
              && after.title == req.title && after.description == req.description
              && after.latitude == req.latitude && after.longitude == req.longitude
              && after.photos == (if req.photos.Some? then req.photos else before.photos)
              && after.tags == (if req.tags.Some? then req.tags else before.tags)
              && after.authorId == (if req.authorId.Some? then req.authorId else before.authorId)
              && r.result.value == MapToResponse(after)
    ensures TripKeysValid(trips) ==> TripKeysValid(r.state)
  {
    if id !in trips.byId then Step(trips, Failure(TripNotFound))
    else
      var trip := trips.byId[id];
      match CheckOwner(trip, current)
      case Failure(e) => Step(trips, Failure(e))
      case Success(uid) =>
        if req.authorId.Some? && trip.authorId != req.authorId && req.authorId.value !in users.byId then
          Step(trips, Failure(UserNotFound))
        else
          var t := trip.(title := req.title, description := req.description,
                         photos := if req.photos.Some? then req.photos else trip.photos,
                         tags := if req.tags.Some? then req.tags else trip.tags,
                         latitude := req.latitude, longitude := req.longitude,
                         authorId := if req.authorId.Some? then req.authorId else trip.authorId);
          Step(TripStore(trips.byId[id := t], trips.nextId), Success(MapToResponse(t)))
  }

  /** The list the merge starts from: the photos the request asks to keep when
      it names any, otherwise the trip's current photos. */
  function BasePhotos(requested: Option<seq<string>>, existing: Option<seq<string>>): (r: seq<string>)
    ensures requested.Some? && |requested.value| > 0 ==> r == requested.value
    ensures !(requested.Some? && |requested.value| > 0) ==> r == existing.GetOr([])
  {
    if requested.Some? && |requested.value| > 0 then requested.value
    else if existing.Some? && |existing.value| > 0 then existing.value
    else []
  }

  /** An uploaded primary image replaces the first photo, or becomes the only
      one when there is none. */
  function ReplacePrimary(photos: seq<string>, primary: Option<string>): (r: seq<string>)
    ensures primary.None? ==> r == photos
    ensures primary.Some? ==>
              && |r| == (if |photos| == 0 then 1 else |photos|)
              && r[0] == primary.value
              && r[1..] == (if |photos| == 0 then [] else photos[1..])
  {
    match primary
    case None => photos
    case Some(url) => if |photos| > 0 then photos[0 := url] else [url]
  }

  /** Position of the first occurrence of `x` in `s`. */
  function IndexOf(s: seq<string>, x: string): (k: nat)
    requires x in s
    ensures k < |s| && s[k] == x
  {
    if s[0] == x then 0 else 1 + IndexOf(s[1..], x)
  }

  /** Membership in a non-empty list splits into its head and its tail. */
  lemma InHeadOrTail(s: seq<string>)
    requires |s| > 0
    ensures forall x :: x in s <==> x == s[0] || x in s[1..]
  {
    assert s == [s[0]] + s[1..];
  }

  /** Past the head, positions in the list are one more than in its tail. */
  lemma IndexOfTail(s: seq<string>, x: string)
    requires |s| > 0 && x in s[1..] && x != s[0]
    ensures x in s && IndexOf(s, x) == 1 + IndexOf(s[1..], x)
  {
    InHeadOrTail(s);
  }

  /** Appends each URL not yet in the list, left to right (the list grows as it
      goes, so repeated URLs are appended once). */
  function AppendNew(photos: seq<string>, urls: seq<string>): (r: seq<string>)
    // the existing list is kept as a prefix
    ensures |photos| <= |r| && r[..|photos|] == photos
    // nothing is lost and nothing foreign appears
    ensures forall x :: x in r <==> x in photos || x in urls
    // what is appended is new and without repetition
    ensures forall i :: |photos| <= i < |r| ==> r[i] !in photos && r[i] in urls
    ensures forall i, j :: |photos| <= i < j < |r| ==> r[i] != r[j]
    // and keeps the order in which the URLs first appear
    ensures forall i, j :: |photos| <= i < j < |r| ==> IndexOf(urls, r[i]) < IndexOf(urls, r[j])
    decreases |urls|
  {
    if |urls| == 0 then photos
    else if urls[0] in photos then
      var r := AppendNew(photos, urls[1..]);
      AppendKnownStep(photos, urls, r);
      r
    else
      var r := AppendNew(photos + [urls[0]], urls[1..]);
      AppendFreshStep(photos, urls, r);
      r
  }

  /** The step of `AppendNew` that skips a URL already present. */
  lemma AppendKnownStep(photos: seq<string>, urls: seq<string>, r: seq<string>)
    requires |urls| > 0 && urls[0] in photos
    requires |photos| <= |r| && r[..|photos|] == photos
    requires forall x :: x in r <==> x in photos || x in urls[1..]
    requires forall i :: |photos| <= i < |r| ==> r[i] !in photos && r[i] in urls[1..]
    requires forall i, j :: |photos| <= i < j < |r| ==> IndexOf(urls[1..], r[i]) < IndexOf(urls[1..], r[j])
    ensures forall x :: x in r <==> x in photos || x in urls
    ensures forall i :: |photos| <= i < |r| ==> r[i] in urls
    ensures forall i, j :: |photos| <= i < j < |r| ==> IndexOf(urls, r[i]) < IndexOf(urls, r[j])
  {
    InHeadOrTail(urls);
    forall i | |photos| <= i < |r| ensures r[i] in urls && IndexOf(urls, r[i]) == 1 + IndexOf(urls[1..], r[i]) {
      IndexOfTail(urls, r[i]);
    }
  }

  /** The step of `AppendNew` that appends a new URL. */
  lemma AppendFreshStep(photos: seq<string>, urls: seq<string>, r: seq<string>)
    requires |urls| > 0 && urls[0] !in photos
    requires |photos + [urls[0]]| <= |r| && r[..|photos + [urls[0]]|] == photos + [urls[0]]
    requires forall x :: x in r <==> x in photos + [urls[0]] || x in urls[1..]
    requires forall i :: |photos| + 1 <= i < |r| ==> r[i] !in photos + [urls[0]] && r[i] in urls[1..]
    requires forall i, j :: |photos| + 1 <= i < j < |r| ==> r[i] != r[j]
    requires forall i, j :: |photos| + 1 <= i < j < |r| ==> IndexOf(urls[1..], r[i]) < IndexOf(urls[1..], r[j])
    ensures |photos| <= |r| && r[..|photos|] == photos
    ensures forall x :: x in r <==> x in photos || x in urls
    ensures forall i :: |photos| <= i < |r| ==> r[i] !in photos && r[i] in urls
    ensures forall i, j :: |photos| <= i < j < |r| ==> r[i] != r[j]
    ensures forall i, j :: |photos| <= i < j < |r| ==> IndexOf(urls, r[i]) < IndexOf(urls, r[j])
  {
    var n := |photos|;
    var u := urls[0];
    FreshHeadOfResult(photos, u, r);
    FreshTailOfResult(photos, urls, r);
    InHeadOrTail(urls);
    FreshPairs(photos, urls, r);
  }

  /** With the new URL first and the tail's URLs after it, the appended part
      is without repetition and in the order the URLs first appear. */
  lemma FreshPairs(photos: seq<string>, urls: seq<string>, r: seq<string>)
    requires |urls| > 0 && |photos| < |r| && r[|photos|] == urls[0]
    requires forall i :: |photos| + 1 <= i < |r| ==>
               && r[i] != urls[0] && r[i] in urls && r[i] in urls[1..]
               && IndexOf(urls, r[i]) == 1 + IndexOf(urls[1..], r[i])
    requires forall i, j :: |photos| + 1 <= i < j < |r| ==> r[i] != r[j]
    requires forall i, j :: |photos| + 1 <= i < j < |r| ==> IndexOf(urls[1..], r[i]) < IndexOf(urls[1..], r[j])
    ensures forall i, j :: |photos| <= i < j < |r| ==> r[i] != r[j] && IndexOf(urls, r[i]) < IndexOf(urls, r[j])
  {
    assert IndexOf(urls, urls[0]) == 0;
  }

  /** A result that starts with the extended list starts with the list, then the new URL. */
  lemma FreshHeadOfResult(photos: seq<string>, u: string, r: seq<string>)
    requires |photos + [u]| <= |r| && r[..|photos + [u]|] == photos + [u]
    ensures r[..|photos|] == photos && r[|photos|] == u
    ensures forall x :: x in photos + [u] <==> x in photos || x == u
  {
    var n := |photos|;
    assert r[..n] == r[..n + 1][..n];
    assert r[n] == r[..n + 1][n];
  }

  /** Past the new URL, the result holds only URLs of the tail that are new. */
  lemma FreshTailOfResult(photos: seq<string>, urls: seq<string>, r: seq<string>)
    requires |urls| > 0
    requires forall i :: |photos| + 1 <= i < |r| ==> r[i] !in photos + [urls[0]] && r[i] in urls[1..]
    ensures forall i :: |photos| + 1 <= i < |r| ==>
              && r[i] != urls[0] && r[i] !in photos && r[i] in urls
              && IndexOf(urls, r[i]) == 1 + IndexOf(urls[1..], r[i])
  {
    forall i | |photos| + 1 <= i < |r|
      ensures r[i] != urls[0] && r[i] !in photos && r[i] in urls && IndexOf(urls, r[i]) == 1 + IndexOf(urls[1..], r[i])
    {
      assert r[i] !in photos + [urls[0]];
      IndexOfTail(urls, r[i]);
    }
  }

  /** The photo list `updateTripWithUploads` stores. */
  function MergePhotos(requested: Option<seq<string>>, existing: Option<seq<string>>,
                       primary: Option<string>, additional: seq<string>): (r: seq<string>)
    ensures var base := BasePhotos(requested, existing);
            var head := ReplacePrimary(base, primary);
            && |head| <= |r| && r[..|head|] == head
            && (primary.Some? ==> r[0] == primary.value)
            && (primary.None? ==> r[..|base|] == base)
            && (primary.Some? && |base| > 0 ==> |head| == |base| && r[1..|base|] == base[1..])
            && (forall u :: u in additional ==> u in r)
            && (forall x :: x in r ==> x in base || primary == Some(x) || x in additional)
            && (forall i :: |head| <= i < |r| ==> r[i] !in head && r[i] in additional)
            && (forall i, j :: |head| <= i < j < |r| ==> r[i] != r[j])
            && (forall i, j :: |head| <= i < j < |r| ==> IndexOf(additional, r[i]) < IndexOf(additional, r[j]))
  {
    var base := BasePhotos(requested, existing);
    var head := ReplacePrimary(base, primary);
    var r := AppendNew(head, additional);
    ReplacePrimaryFacts(base, primary, r);
    r
  }

  /** What the head of the merged list holds when a primary image replaces the first photo. */
  lemma ReplacePrimaryFacts(base: seq<string>, primary: Option<string>, r: seq<string>)
    requires var head := ReplacePrimary(base, primary); |head| <= |r| && r[..|head|] == head
    ensures primary.Some? ==> r[0] == primary.value
    ensures forall x :: x in ReplacePrimary(base, primary) ==> x in base || primary == Some(x)
    ensures primary.Some? && |base| > 0 ==> r[1..|base|] == base[1..]
  {
    var head := ReplacePrimary(base, primary);
    if primary.Some? {
      assert r[0] == r[..|head|][0] == head[0];
      forall x | x in head ensures x in base || primary == Some(x) {
        var i :| 0 <= i < |head| && head[i] == x;
        if i > 0 { assert head[i] == head[1..][i - 1]; }
      }
      if |base| > 0 {
        assert r[1..|base|] == r[..|head|][1..] == head[1..];
      }
    }
  }

  /** The URLs of the images a multipart update uploads. */
  datatype UploadedImages = UploadedImages(primaryUrl: Option<string>, additionalUrls: seq<string>)

  /** The number of the first additional-image upload of an update: it
      follows the primary image's upload, if there is one. */
  function AdditionalStart(primary: Option<Upload>): nat {
    if IsUsable(primary) then 1 else 0
  }

  /** The primary image of an update: a usable one is uploaded alone, as
      the request's first upload, and its URL kept. */
  function UploadPrimary(primary: Option<Upload>, uploader: Uploader): (r: Result<Option<string>, Error>)
    ensures r.Success? <==> (IsUsable(primary) ==> uploader(0, primary.value).Success?)
    ensures r.Success? ==> r.value == (if IsUsable(primary) then Some(uploader(0, primary.value).value) else None)
    ensures r.Failure? ==> r.error == UploadFailed
  {
    UsableFilesSingle(primary);
    if !IsUsable(primary) then Success(None)
    else
      match UploadTripPhotos(Some([primary]), uploader, 0)
      case Failure(e) => Failure(e)
      case Success(urls) => if |urls| > 0 then Success(Some(urls[0])) else Success(None)
  }

  /** The additional images of an update: the usable ones, uploaded as one
      batch numbered from `start`; nothing is uploaded when none is usable. */
  function UploadAdditional(additional: Option<seq<Option<Upload>>>, uploader: Uploader, start: nat): (r: Result<seq<string>, Error>)
    ensures r == UploadAll(UsableFiles(additional.GetOr([])), uploader, start)
  {
    var extraFiles := UsableFiles(additional.GetOr([]));
    UploadWrapped(extraFiles, uploader, start);
    if additional.Some? && |additional.value| > 0 && |extraFiles| > 0
    then UploadTripPhotos(Some(Wrap(extraFiles)), uploader, start)
    else Success([])
  }

  /** The upload half of `updateTripWithUploads`: a usable primary image is
      uploaded alone, first; the usable additional images follow as one batch.
      Any failed upload aborts the update. */
  function UploadUpdateImages(primary: Option<Upload>, additional: Option<seq<Option<Upload>>>,
                              uploader: Uploader): (r: Result<UploadedImages, Error>)
    ensures r.Success? <==>
              && (IsUsable(primary) ==> uploader(0, primary.value).Success?)
              && AllUploadsSucceed(UsableFiles(additional.GetOr([])), uploader, AdditionalStart(primary))
    ensures r.Success? ==>
              && r.value.primaryUrl == (if IsUsable(primary) then Some(uploader(0, primary.value).value) else None)
              && var extra := UsableFiles(additional.GetOr([]));
                 && |r.value.additionalUrls| == |extra|
                 && forall k :: 0 <= k < |extra| ==>
                      r.value.additionalUrls[k] == uploader(AdditionalStart(primary) + k, extra[k]).value
    // the additional images are uploaded as one batch
    ensures r.Success? ==>
              UploadAll(UsableFiles(additional.GetOr([])), uploader, AdditionalStart(primary)) == Success(r.value.additionalUrls)
    ensures r.Failure? ==> r.error == UploadFailed
  {
    match UploadPrimary(primary, uploader)
    case Failure(e) => Failure(e)
    case Success(primaryUrl) =>
      match UploadAdditional(additional, uploader, AdditionalStart(primary))
      case Failure(e) => Failure(e)
      case Success(urls) => Success(UploadedImages(primaryUrl, urls))
  }

  /** Distinct URLs that are all new to the list are all appended, in order. */
  lemma {:induction false} AppendNewDistinct(photos: seq<string>, urls: seq<string>)
    requires forall i, j :: 0 <= i < j < |urls| ==> urls[i] != urls[j]
    requires forall i :: 0 <= i < |urls| ==> urls[i] !in photos
    ensures AppendNew(photos, urls) == photos + urls
    decreases |urls|
  {
    if |urls| > 0 {
      DistinctTailStaysNew(photos, urls);
      AppendNewFreshHead(photos, urls);
      assert photos + urls == photos + [urls[0]] + urls[1..] by { ConcatHead(photos, urls); }
      AppendNewDistinct(photos + [urls[0]], urls[1..]);
    }
  }

  /** One step of `AppendNew` on a new first URL. */
  lemma AppendNewFreshHead(photos: seq<string>, urls: seq<string>)
    requires |urls| > 0 && urls[0] !in photos
    ensures AppendNew(photos, urls) == AppendNew(photos + [urls[0]], urls[1..])
  {
    var r := AppendNew(photos, urls);
    assert urls[0] !in photos;
  }

  lemma ConcatHead(photos: seq<string>, urls: seq<string>)
    requires |urls| > 0
    ensures photos + urls == photos + [urls[0]] + urls[1..]
  {
    assert urls == [urls[0]] + urls[1..];
  }

  /** Past its first URL, a distinct list of new URLs stays distinct and new
      to the list extended by that first URL. */
  lemma DistinctTailStaysNew(photos: seq<string>, urls: seq<string>)
    requires |urls| > 0
    requires forall i, j :: 0 <= i < j < |urls| ==> urls[i] != urls[j]
    requires forall i :: 0 <= i < |urls| ==> urls[i] !in photos
    ensures urls[0] !in photos
    ensures forall i, j :: 0 <= i < j < |urls[1..]| ==> urls[1..][i] != urls[1..][j]
    ensures forall i :: 0 <= i < |urls[1..]| ==> urls[1..][i] !in photos + [urls[0]]
  {
    var rest := urls[1..];
    forall i, j | 0 <= i < j < |rest| ensures rest[i] != rest[j] {
      assert rest[i] == urls[i + 1] && rest[j] == urls[j + 1];
    }
    forall i | 0 <= i < |rest| ensures rest[i] !in photos + [urls[0]] {
      assert rest[i] == urls[i + 1] != urls[0];
    }
  }

  /** URLs that are neither in the list nor the new primary are not in the list's new head. */
  lemma NotInReplacedHead(base: seq<string>, primary: Option<string>, urls: seq<string>)
    requires forall i :: 0 <= i < |urls| ==> urls[i] !in base && primary != Some(urls[i])
    ensures forall i :: 0 <= i < |urls| ==> urls[i] !in ReplacePrimary(base, primary)
  {
    ReplacePrimaryFacts(base, primary, ReplacePrimary(base, primary));
  }

  /** How many uploads a multipart update makes: the usable primary image
      and the usable additional images. */
  function UpdateUploadCount(primary: Option<Upload>, additional: Option<seq<Option<Upload>>>): (n: nat)
    ensures n == |UsableFiles([primary])| + |UsableFiles(additional.GetOr([]))|
  {
    UsableFilesSingle(primary);
    AdditionalStart(primary) + |UsableFiles(additional.GetOr([]))|
  }

  /** With fresh URLs that are not yet among the photos the merge starts from,
      a multipart update keeps every uploaded image: the additional URLs are
      appended in full, one per usable file, however alike the files are. */
  lemma FreshUploadsAllStored(trip: Trip, req: TripRequest, primary: Option<Upload>,
                              additional: Option<seq<Option<Upload>>>, uploader: Uploader)
    requires FreshUrlsBelow(uploader, UpdateUploadCount(primary, additional))
    requires forall k: nat, f: Upload :: k < UpdateUploadCount(primary, additional) && uploader(k, f).Success? ==>
               uploader(k, f).value !in BasePhotos(req.photos, trip.photos)
    requires UploadUpdateImages(primary, additional, uploader).Success?
    ensures var images := UploadUpdateImages(primary, additional, uploader).value;
            var head := ReplacePrimary(BasePhotos(req.photos, trip.photos), images.primaryUrl);
            && |images.additionalUrls| == |UsableFiles(additional.GetOr([]))|
            && MergePhotos(req.photos, trip.photos, images.primaryUrl, images.additionalUrls) == head + images.additionalUrls
  {
    var images := UploadUpdateImages(primary, additional, uploader).value;
    var base := BasePhotos(req.photos, trip.photos);
    var extra := UsableFiles(additional.GetOr([]));
    var start := AdditionalStart(primary);
    var urls := images.additionalUrls;
    FreshBatchAppended(base, images.primaryUrl, primary, extra, urls, uploader, start);
  }

  /** The merge step behind `FreshUploadsAllStored`: a batch of fresh uploads
      that avoid the list and the primary URL is appended in full. */
  lemma FreshBatchAppended(base: seq<string>, primaryUrl: Option<string>, primary: Option<Upload>,
                           files: seq<Upload>, urls: seq<string>, uploader: Uploader, first: nat)
    requires FreshUrlsBelow(uploader, first + |files|)
    requires forall k: nat, f: Upload :: k < first + |files| && uploader(k, f).Success? ==> uploader(k, f).value !in base
    requires UploadAll(files, uploader, first) == Success(urls)
    requires primaryUrl.Some? ==> 0 < first && primary.Some? && uploader(0, primary.value) == Success(primaryUrl.value)
    ensures AppendNew(ReplacePrimary(base, primaryUrl), urls) == ReplacePrimary(base, primaryUrl) + urls
  {
    var n := first + |files|;
    BatchUrlsDistinct(files, urls, uploader, first);
    BatchUrlsNotIn(base, files, urls, uploader, first, n);
    if primaryUrl.Some? {
      BatchUrlsDifferFromEarlier(primary.value, files, urls, uploader, first, n);
    }
    NotInReplacedHead(base, primaryUrl, urls);
    AppendNewDistinct(ReplacePrimary(base, primaryUrl), urls);
  }

  /** The URLs of a batch among the first `n` uploads avoid a list that no
      such upload publishes into. */
  lemma BatchUrlsNotIn(base: seq<string>, files: seq<Upload>, urls: seq<string>, uploader: Uploader, first: nat, n: nat)
    requires first + |files| <= n
    requires forall k: nat, f: Upload :: k < n && uploader(k, f).Success? ==> uploader(k, f).value !in base
    requires |urls| == |files|
    requires forall k :: 0 <= k < |files| ==>
               uploader(first + k, files[k]).Success? && urls[k] == uploader(first + k, files[k]).value
    ensures forall i :: 0 <= i < |urls| ==> urls[i] !in base
  {
    forall i | 0 <= i < |urls| ensures urls[i] !in base {
      assert uploader(first + i, files[i]).Success?;
    }
  }

  /** Under fresh URLs a batch never republishes the URL of the request's
      first upload, made before the batch. */
  lemma BatchUrlsDifferFromEarlier(g: Upload, files: seq<Upload>, urls: seq<string>, uploader: Uploader, first: nat, n: nat)
    requires FreshUrlsBelow(uploader, n)
    requires 0 < first && first + |files| <= n
    requires uploader(0, g).Success?
    requires |urls| == |files|
    requires forall k :: 0 <= k < |files| ==>
               uploader(first + k, files[k]).Success? && urls[k] == uploader(first + k, files[k]).value
    ensures forall i :: 0 <= i < |urls| ==> Some(uploader(0, g).value) != Some(urls[i])
  {
    forall i | 0 <= i < |urls| ensures uploader(0, g).value != urls[i] {
      assert uploader(first + i, files[i]).Success?;
    }
  }

  /** The trip a multipart update stores: a field changes only when the
      request supplies it (the title only when not blank); the author never
      changes; the photos are merged with the uploaded images. */
  function MultipartUpdated(trip: Trip, req: TripRequest, images: UploadedImages): (t: Trip)
    ensures t.id == trip.id && t.authorId == trip.authorId
    ensures t.title == (if req.title.Some? && !IsBlank(req.title.value) then req.title else trip.title)
    ensures req.description.Some? ==> t.description == req.description
    ensures req.description.None? ==> t.description == trip.description
    ensures req.tags.Some? ==> t.tags == req.tags
    ensures req.tags.None? ==> t.tags == trip.tags
    ensures t.latitude == (if req.latitude.Some? then req.latitude else trip.latitude)
    ensures t.longitude == (if req.longitude.Some? then req.longitude else trip.longitude)
    ensures t.photos == Some(MergePhotos(req.photos, trip.photos, images.primaryUrl, images.additionalUrls))
  {
    trip.(
      title := if req.title.Some? && !IsBlank(req.title.value) then req.title else trip.title,
      description := if req.description.Some? then req.description else trip.description,
      tags := if req.tags.Some? then req.tags else trip.tags,
      latitude := if req.latitude.Some? then req.latitude else trip.latitude,
      longitude := if req.longitude.Some? then req.longitude else trip.longitude,
      photos := Some(MergePhotos(req.photos, trip.photos, images.primaryUrl, images.additionalUrls)))
  }

  /** `updateTripWithUploads` (the multipart path): after the guard, the
      images are uploaded; a field changes only when the request supplies it
      (the title only when not blank); the author never changes; the photos
      are merged. */
  function UpdateTripWithUploads(trips: TripStore, current: Option<UserId>, id: TripId, req: TripRequest,
                                 primary: Option<Upload>, additional: Option<seq<Option<Upload>>>,
                                 uploader: Uploader): (r: Step<TripStore, TripResponse>)
    ensures id !in trips.byId ==> r == Step(trips, Failure(TripNotFound))
    ensures id in trips.byId && !IsOwner(trips, id, current) ==>
              r.state == trips && r.result.Failure? && r.result.error.AccessDenied?
    ensures r.result.Failure? ==> r.state == trips
    ensures r.result.Success? <==>
              IsOwner(trips, id, current) && UploadUpdateImages(primary, additional, uploader).Success?
    ensures r.result.Success? ==> id in r.state.byId
    ensures r.result.Success? ==>
              && OnlyTripChanged(trips, r.state, id)
              && r.state.byId[id] == MultipartUpdated(trips.byId[id], req, UploadUpdateImages(primary, additional, uploader).value)
              && r.result.value == MapToResponse(r.state.byId[id])
    ensures TripKeysValid(trips) ==> TripKeysValid(r.state)
  {
    if id !in trips.byId then Step(trips, Failure(TripNotFound))
    else
      var trip := trips.byId[id];
      match CheckOwner(trip, current)
      case Failure(e) => Step(trips, Failure(e))
      case Success(_) =>
        match UploadUpdateImages(primary, additional, uploader)
        case Failure(e) => Step(trips, Failure(e))
        case Success(images) =>
          var t := MultipartUpdated(trip, req, images);
          Step(TripStore(trips.byId[id := t], trips.nextId), Success(MapToResponse(t)))
  }

  /** `updateTripWithUploads` handed the null request that the JSON text
      `null` parses to: the lookup, the guard and the uploads run as usual,
      then reading the request's title fails. Nothing is stored. */
  function UpdateTripWithNullRequest(trips: TripStore, current: Option<UserId>, id: TripId,
                                     primary: Option<Upload>, additional: Option<seq<Option<Upload>>>,
                                     uploader: Uploader): (r: Step<TripStore, TripResponse>)
    ensures r.state == trips && r.result.Failure?
    ensures id !in trips.byId ==> r.result.error == TripNotFound
    ensures id in trips.byId && !IsOwner(trips, id, current) ==> r.result.error.AccessDenied?
    ensures r.result.error == NullRequest <==>
              IsOwner(trips, id, current) && UploadUpdateImages(primary, additional, uploader).Success?
  {
    if id !in trips.byId then Step(trips, Failure(TripNotFound))
    else
      match CheckOwner(trips.byId[id], current)
      case Failure(e) => Step(trips, Failure(e))
      case Success(_) =>
        match UploadUpdateImages(primary, additional, uploader)
        case Failure(e) => Step(trips, Failure(e))
        case Success(_) => Step(trips, Failure(NullRequest))
  }

  /** The null request fails exactly where a real request would succeed, and
      everywhere else fails as any request does. */
  lemma NullRequestFailsWhereUpdateSucceeds(trips: TripStore, current: Option<UserId>, id: TripId, req: TripRequest,
                                            primary: Option<Upload>, additional: Option<seq<Option<Upload>>>,
                                            uploader: Uploader)
    ensures var actual := UpdateTripWithUploads(trips, current, id, req, primary, additional, uploader);
            var none := UpdateTripWithNullRequest(trips, current, id, primary, additional, uploader);
            && (actual.result.Failure? ==> none == actual)
            && (actual.result.Success? ==> none == Step(trips, Failure(NullRequest)))
  {
  }

  /** `deleteTrip`: after the guard, exactly that trip is removed. */
  function DeleteTrip(trips: TripStore, current: Option<UserId>, id: TripId): (r: Step<TripStore, ()>)
    ensures id !in trips.byId ==> r == Step(trips, Failure(TripNotFound))
    ensures r.result.Failure? ==> r.state == trips
    ensures r.result.Success? <==> IsOwner(trips, id, current)
    ensures id in trips.byId && !IsOwner(trips, id, current) ==> r.result.error.AccessDenied?
    ensures r.result.Success? ==>
              && r.state.byId.Keys == trips.byId.Keys - {id}
              && r.state.nextId == trips.nextId
              && forall other :: other in r.state.byId ==> r.state.byId[other] == trips.byId[other]
    ensures TripKeysValid(trips) ==> TripKeysValid(r.state)
  {
    if id !in trips.byId then Step(trips, Failure(TripNotFound))
    else
      match CheckOwner(trips.byId[id], current)
      case Failure(e) => Step(trips, Failure(e))
      case Success(_) => Step(TripStore(trips.byId - {id}, trips.nextId), Success(()))
  }

  /** Only the author changes a trip: whenever update or delete changes the
      store, the caller was authenticated and was the trip's author. */
  lemma OnlyOwnerMutates(users: UserStore, trips: TripStore, current: Option<UserId>, id: TripId,
                         req: TripRequest, primary: Option<Upload>, additional: Option<seq<Option<Upload>>>,
                         uploader: Uploader)
    ensures UpdateTrip(users, trips, current, id, req).state != trips ==> IsOwner(trips, id, current)
    ensures UpdateTripWithUploads(trips, current, id, req, primary, additional, uploader).state != trips ==>
              IsOwner(trips, id, current)
    ensures DeleteTrip(trips, current, id).state != trips ==> IsOwner(trips, id, current)
  {
  }
}
