/** The multipart trip endpoints: the optional JSON `trip` part is parsed
    first and individual form fields override it; creation refuses a missing
    title; uploaded files are distributed between the primary image and the
    additional images; an access denial becomes 401 on the endpoints that
    catch it. The JSON parser is an oracle; the JSON text `null` parses to a
    null request, on which the endpoints fail. */
module TripController {
  import opened Wrappers
  import opened Entities
  import opened JavaText
  import opened StorageService
  import opened TripService

  /** The individual multipart form fields; each may be absent. */
  datatype FormFields = FormFields(
    title: Option<string>,
    description: Option<string>,
    tags: Option<string>,
    latitude: Option<Coordinate>,
    longitude: Option<Coordinate>)

  const NoFields: FormFields := FormFields(None, None, None, None, None)

  /** The separator of the `tags` form field. */
  const TagSeparator: char := ','

  /** What `readValue` makes of a text: a request, the null request (for the
      JSON text `null`), or a parse error. */
  datatype JsonParse = Parsed(req: TripRequest) | NullDocument | Malformed

  /** The `trip` part: parsed when it has non-blank text; an absent, blank or
      unparsable part leaves a fresh request (empty photo and tag lists).
      `None` is the null request. */
  function ParseOrEmpty(tripJson: Option<string>, parse: string -> JsonParse): (r: Option<TripRequest>)
    ensures tripJson.None? || IsBlank(tripJson.value) ==> r == Some(EmptyTripRequest)
    ensures r.None? <==> tripJson.Some? && !IsBlank(tripJson.value) && parse(tripJson.value).NullDocument?
    ensures tripJson.Some? && !IsBlank(tripJson.value) ==>
              && (parse(tripJson.value).Parsed? ==> r == Some(parse(tripJson.value).req))
              && (parse(tripJson.value).Malformed? ==> r == Some(EmptyTripRequest))
  {
    if tripJson.Some? && !IsBlank(tripJson.value) then
      match parse(tripJson.value)
      case Parsed(req) => Some(req)
      case NullDocument => None
      case Malformed => Some(EmptyTripRequest)
    else Some(EmptyTripRequest)
  }

  /** `tags.split(",")`: pieces are not trimmed, and trailing empty pieces are
      dropped, so the pieces joined back give a prefix of the field followed
      only by separators. */
  function ParseTags(tags: string): (r: seq<string>)
    ensures forall k :: 0 <= k < |r| ==> TagSeparator !in r[k]
    ensures Join(r, TagSeparator) <= tags
    ensures forall i :: |Join(r, TagSeparator)| <= i < |tags| ==> tags[i] == TagSeparator
    ensures TagSeparator !in tags ==> r == [tags]
    // trailing empty pieces are dropped
    ensures TagSeparator in tags ==> |r| == 0 || r[|r| - 1] != ""
  {
    SplitJoinsToPrefix(tags, TagSeparator);
    Split(tags, TagSeparator)
  }

  /** The form fields that override the JSON: a title or tag field only when
      it is not blank, the other fields whenever present. */
  function ApplyForm(req: TripRequest, form: FormFields): (r: TripRequest)
    ensures r.photos == req.photos && r.authorId == req.authorId
    ensures form.title.Some? && !IsBlank(form.title.value) ==> r.title == form.title
    ensures form.title.None? || IsBlank(form.title.value) ==> r.title == req.title
    ensures form.tags.Some? && !IsBlank(form.tags.value) ==> r.tags == Some(ParseTags(form.tags.value))
    ensures form.tags.None? || IsBlank(form.tags.value) ==> r.tags == req.tags
    ensures r.description == (if form.description.Some? then form.description else req.description)
    ensures r.latitude == (if form.latitude.Some? then form.latitude else req.latitude)
    ensures r.longitude == (if form.longitude.Some? then form.longitude else req.longitude)
  {
    req.(
      title := if form.title.Some? && !IsBlank(form.title.value) then form.title else req.title,
      description := if form.description.Some? then form.description else req.description,
      tags := if form.tags.Some? && !IsBlank(form.tags.value) then Some(ParseTags(form.tags.value)) else req.tags,
      latitude := if form.latitude.Some? then form.latitude else req.latitude,
      longitude := if form.longitude.Some? then form.longitude else req.longitude)
  }

  /** The form calls at least one setter on the request: a non-blank title
      or tag field, or any description or coordinate. */
  predicate SetsAnyField(form: FormFields) {
    || (form.title.Some? && !IsBlank(form.title.value))
    || form.description.Some?
    || (form.tags.Some? && !IsBlank(form.tags.value))
    || form.latitude.Some? || form.longitude.Some?
  }

  /** A form that calls no setter leaves the JSON request as parsed. */
  lemma NoFormKeepsJson(req: TripRequest, form: FormFields)
    requires !SetsAnyField(form)
    ensures ApplyForm(req, form) == req
  {
  }

  /** Form values take precedence: whatever the JSON said, a supplied form
      field decides the result. */
  lemma FormTakesPrecedence(a: TripRequest, b: TripRequest, form: FormFields)
    requires form.title.Some? && !IsBlank(form.title.value)
    requires form.tags.Some? && !IsBlank(form.tags.value)
    requires form.description.Some? && form.latitude.Some? && form.longitude.Some?
    requires a.photos == b.photos && a.authorId == b.authorId
    ensures ApplyForm(a, form) == ApplyForm(b, form)
  {
  }

  /** Applying the same form twice changes nothing more. */
  lemma ApplyFormIdempotent(req: TripRequest, form: FormFields)
    ensures ApplyForm(ApplyForm(req, form), form) == ApplyForm(req, form)
  {
  }

  /** The title check of the create endpoints: present and not blank. */
  predicate HasTitle(req: TripRequest) {
    req.title.Some? && !IsBlank(req.title.value)
  }

  /** The request the multipart endpoints act on: the `trip` part, overridden
      by the form fields; `None` when the part is the null request. */
  function MergeRequest(tripJson: Option<string>, form: FormFields, parse: string -> JsonParse): (r: Option<TripRequest>)
    // only the JSON document `null` leaves no request to merge into
    ensures r.None? <==> ParseOrEmpty(tripJson, parse).None?
    // without a JSON part the form fills a fresh request
    ensures tripJson.None? || IsBlank(tripJson.value) ==> r == Some(ApplyForm(EmptyTripRequest, form))
    // without form fields the JSON request is used as parsed
    ensures !SetsAnyField(form) ==> r == ParseOrEmpty(tripJson, parse)
    // photos and author always come from the JSON
    ensures r.Some? ==>
              && r.value.photos == ParseOrEmpty(tripJson, parse).value.photos
              && r.value.authorId == ParseOrEmpty(tripJson, parse).value.authorId
  {
    match ParseOrEmpty(tripJson, parse)
    case None => None
    case Some(req) => Some(ApplyForm(req, form))
  }

  /** The files `createTripWithUploads` hands to the service. */
  datatype FileChoice = FileChoice(primary: Option<Upload>, additional: seq<Upload>)

  /** The loop over the `photos` part: each usable file becomes the primary
      image if none is chosen yet, and is otherwise appended to the additional
      images. */
  function DistributePhotos(choice: FileChoice, photos: seq<Option<Upload>>): (r: FileChoice)
    decreases |photos|
  {
    if |photos| == 0 then choice
    else if !IsUsable(photos[0]) then DistributePhotos(choice, photos[1..])
    else if choice.primary.None? then DistributePhotos(FileChoice(photos[0], choice.additional), photos[1..])
    else DistributePhotos(FileChoice(choice.primary, choice.additional + [photos[0].value]), photos[1..])
  }

  /** What `DistributePhotos` computes, stated without the loop: with a primary
      image already chosen every usable photo is appended; otherwise the first
      usable photo becomes primary and the rest are appended. */
  lemma {:induction false} DistributePhotosSpec(choice: FileChoice, photos: seq<Option<Upload>>)
    ensures choice.primary.Some? ==>
              DistributePhotos(choice, photos) == FileChoice(choice.primary, choice.additional + UsableFiles(photos))
    ensures choice.primary.None? && |UsableFiles(photos)| == 0 ==> DistributePhotos(choice, photos) == choice
    ensures choice.primary.None? && |UsableFiles(photos)| > 0 ==>
              DistributePhotos(choice, photos) ==
                FileChoice(Some(UsableFiles(photos)[0]), choice.additional + UsableFiles(photos)[1..])
    decreases |photos|
  {
    if |photos| > 0 {
      var rest := UsableFiles(photos[1..]);
      if !IsUsable(photos[0]) {
        assert UsableFiles(photos) == rest;
        DistributePhotosSpec(choice, photos[1..]);
      } else if choice.primary.None? {
        assert UsableFiles(photos) == [photos[0].value] + rest;
        DistributePhotosSpec(FileChoice(photos[0], choice.additional), photos[1..]);
      } else {
        assert UsableFiles(photos) == [photos[0].value] + rest;
        DistributePhotosSpec(FileChoice(choice.primary, choice.additional + [photos[0].value]), photos[1..]);
        ConcatAssoc(choice.additional, [photos[0].value], rest);
      }
    }
  }

  /** Priority `primaryImage` > `additionalImages` > `photos`. */
  function SelectFiles(primary: Option<Upload>, additional: Option<seq<Option<Upload>>>,
                       photos: Option<seq<Option<Upload>>>): (r: FileChoice)
    ensures r.primary.Some? ==> r.primary.value.size > 0
    ensures forall k :: 0 <= k < |r.additional| ==> r.additional[k].size > 0
  {
    var start := FileChoice(if IsUsable(primary) then primary else None, UsableFiles(additional.GetOr([])));
    DistributePhotosSpec(start, photos.GetOr([]));
    DistributePhotos(start, photos.GetOr([]))
  }

  /** Every usable file, in priority order. */
  function AllUsableFiles(primary: Option<Upload>, additional: Option<seq<Option<Upload>>>,
                          photos: Option<seq<Option<Upload>>>): seq<Upload>
  {
    (if IsUsable(primary) then [primary.value] else []) + UsableFiles(additional.GetOr([])) + UsableFiles(photos.GetOr([]))
  }

  /** The order in which the selected files are uploaded: the primary image
      (the explicit one, or else the first usable photo), then the additional
      images, then the remaining photos. */
  function UploadOrder(primary: Option<Upload>, additional: Option<seq<Option<Upload>>>,
                       photos: Option<seq<Option<Upload>>>): seq<Upload>
  {
    var extra := UsableFiles(additional.GetOr([]));
    var p := UsableFiles(photos.GetOr([]));
    if IsUsable(primary) then [primary.value] + (extra + p)
    else if |p| > 0 then [p[0]] + (extra + p[1..])
    else extra
  }

  /** A choice listed primary first. */
  function Flatten(c: FileChoice): seq<Upload> {
    (if c.primary.Some? then [c.primary.value] else []) + c.additional
  }

  /** The selection keeps every usable file exactly once, in upload order. A
      usable explicit primary image stays primary, and otherwise the first
      usable photo is promoted. */
  lemma SelectFilesKeepsEveryFile(primary: Option<Upload>, additional: Option<seq<Option<Upload>>>,
                                  photos: Option<seq<Option<Upload>>>)
    ensures Flatten(SelectFiles(primary, additional, photos)) == UploadOrder(primary, additional, photos)
    ensures IsUsable(primary) ==> SelectFiles(primary, additional, photos).primary == primary
    ensures var p := UsableFiles(photos.GetOr([]));
            !IsUsable(primary) && |p| > 0 ==> SelectFiles(primary, additional, photos).primary == Some(p[0])
    ensures SelectFiles(primary, additional, photos).primary.None? <==>
              !IsUsable(primary) && |UsableFiles(photos.GetOr([]))| == 0
  {
    var start := FileChoice(if IsUsable(primary) then primary else None, UsableFiles(additional.GetOr([])));
    var p := UsableFiles(photos.GetOr([]));
    var extra := UsableFiles(additional.GetOr([]));
    DistributePhotosSpec(start, photos.GetOr([]));
    var c := SelectFiles(primary, additional, photos);
    assert c == DistributePhotos(start, photos.GetOr([]));
    if IsUsable(primary) {
      assert c == FileChoice(primary, extra + p);
    } else if |p| == 0 {
      assert c == FileChoice(None, extra);
    } else {
      assert c == FileChoice(Some(p[0]), extra + p[1..]);
    }
  }

  /** Moves the element at `i` to the front, keeping the others in order. */
  function MoveToFront(s: seq<Upload>, i: nat): (r: seq<Upload>)
    requires i < |s|
    ensures |r| == |s| && r[0] == s[i]
    ensures multiset(r) == multiset(s)
  {
    assert s == s[..i] + [s[i]] + s[i + 1..];
    [s[i]] + s[..i] + s[i + 1..]
  }

  /** Without a promotion the upload order is the priority order. */
  lemma UploadOrderWithoutPromotion(primary: Option<Upload>, additional: Option<seq<Option<Upload>>>,
                                    photos: Option<seq<Option<Upload>>>)
    requires IsUsable(primary) || |UsableFiles(photos.GetOr([]))| == 0
    ensures UploadOrder(primary, additional, photos) == AllUsableFiles(primary, additional, photos)
  {
    var p := UsableFiles(photos.GetOr([]));
    var extra := UsableFiles(additional.GetOr([]));
    if IsUsable(primary) {
      ConcatAssoc([primary.value], extra, p);
    } else {
      ConcatEmptyEnds([], extra, p);
    }
  }

  lemma ConcatAssoc<T>(a: seq<T>, b: seq<T>, c: seq<T>)
    ensures a + b + c == a + (b + c)
  {
  }

  lemma ConcatEmptyEnds<T>(a: seq<T>, b: seq<T>, c: seq<T>)
    requires |a| == 0 && |c| == 0
    ensures a + b + c == b
  {
    assert a == [] && c == [];
  }

  /** A promoted photo is the priority order's first photo moved to the front. */
  lemma PromotionMovesToFront(primary: Option<Upload>, additional: Option<seq<Option<Upload>>>,
                              photos: Option<seq<Option<Upload>>>)
    requires !IsUsable(primary) && |UsableFiles(photos.GetOr([]))| > 0
    ensures |UsableFiles(additional.GetOr([]))| < |AllUsableFiles(primary, additional, photos)|
    ensures UploadOrder(primary, additional, photos) ==
              MoveToFront(AllUsableFiles(primary, additional, photos), |UsableFiles(additional.GetOr([]))|)
  {
    var p := UsableFiles(photos.GetOr([]));
    var extra := UsableFiles(additional.GetOr([]));
    assert AllUsableFiles(primary, additional, photos) == [] + extra + p == extra + p;
    MoveToFrontOfConcat(extra, p);
  }

  /** Moving the first element of the second part to the front. */
  lemma MoveToFrontOfConcat(extra: seq<Upload>, p: seq<Upload>)
    requires |p| > 0
    ensures |extra| < |extra + p| && MoveToFront(extra + p, |extra|) == [p[0]] + (extra + p[1..])
  {
    var all := extra + p;
    assert all[..|extra|] == extra;
    assert all[|extra| + 1..] == p[1..];
  }

  /** Either way the upload order is a rearrangement of the priority order. */
  lemma UploadOrderPermutesPriority(primary: Option<Upload>, additional: Option<seq<Option<Upload>>>,
                                    photos: Option<seq<Option<Upload>>>)
    ensures multiset(UploadOrder(primary, additional, photos)) == multiset(AllUsableFiles(primary, additional, photos))
  {
    if !IsUsable(primary) && |UsableFiles(photos.GetOr([]))| > 0 {
      PromotionMovesToFront(primary, additional, photos);
    } else {
      UploadOrderWithoutPromotion(primary, additional, photos);
    }
  }

  /** The additional images as the endpoint passes them: `null` when empty. */
  function PassedAdditional(c: FileChoice): Option<seq<Option<Upload>>> {
    if |c.additional| == 0 then None else Some(Wrap(c.additional))
  }

  /** The service uploads the selected files in upload order. */
  lemma SelectedFilesReachService(primary: Option<Upload>, additional: Option<seq<Option<Upload>>>,
                                  photos: Option<seq<Option<Upload>>>)
    ensures var c := SelectFiles(primary, additional, photos);
            FilesToUpload(c.primary, PassedAdditional(c)) == UploadOrder(primary, additional, photos)
  {
    var c := SelectFiles(primary, additional, photos);
    SelectFilesKeepsEveryFile(primary, additional, photos);
    UsableFilesWrap(c.additional);
  }

  /** The status codes the endpoints answer with. */
  datatype HttpStatus = Created | Ok | BadRequest | Unauthorized

  /** An answer the endpoint itself builds; a `Failure` of the step instead is
      an exception that propagates to the global handler. */
  datatype Reply = Reply(status: HttpStatus, body: Option<TripResponse>)

  /** The try/catch of the multipart endpoints: an access denial becomes 401
      with no body, any other failure propagates, success gets `status`. */
  function CatchAccessDenied(step: Step<TripStore, TripResponse>, status: HttpStatus): (r: Step<TripStore, Reply>)
    ensures r.state == step.state
    ensures step.result.Success? ==> r.result == Success(Reply(status, Some(step.result.value)))
    ensures step.result.Failure? && step.result.error.AccessDenied? ==> r.result == Success(Reply(Unauthorized, None))
    ensures step.result.Failure? && !step.result.error.AccessDenied? ==> r.result == Failure(step.result.error)
  {
    match step.result
    case Success(resp) => Step(step.state, Success(Reply(status, Some(resp))))
    case Failure(e) => if e.AccessDenied? then Step(step.state, Success(Reply(Unauthorized, None)))
                       else Step(step.state, Failure(e))
  }

  /** `POST /api/trips` (multipart) from the title check on, given the merged
      request: file selection, then creation for the current user. */
  function CreateMergedTrip(users: UserStore, trips: TripStore, current: Option<UserId>, req: TripRequest,
                            primary: Option<Upload>, additional: Option<seq<Option<Upload>>>,
                            photos: Option<seq<Option<Upload>>>,
                            uploader: Uploader): (r: Step<TripStore, Reply>)
    // the title is checked before the caller's identity
    ensures !HasTitle(req) ==> r == Step(trips, Success(Reply(BadRequest, None)))
    ensures HasTitle(req) && current.None? ==> r == Step(trips, Success(Reply(Unauthorized, None)))
    ensures !(r.result.Success? && r.result.value.status == Created) ==> r.state == trips
    ensures r.result.Success? && r.result.value.status == Created <==>
              && HasTitle(req)
              && current.Some? && current.value in users.byId
              && AllUploadsSucceed(UploadOrder(primary, additional, photos), uploader, 0)
    // the created trip: the caller's, with the request's fields, and as photos
    // the uploads of the selected files in upload order
    ensures r.result.Success? && r.result.value.status == Created ==>
              var uploaded := UploadAll(UploadOrder(primary, additional, photos), uploader, 0);
              && uploaded.Success?
              && trips.nextId in r.state.byId
              && var t := r.state.byId[trips.nextId];
                 && t.authorId == current
                 && t.title == req.title && t.description == req.description
                 && t.tags == Some(req.tags.GetOr([]))
                 && t.photos == Some(uploaded.value)
  {
    if !HasTitle(req) then Step(trips, Success(Reply(BadRequest, None)))
    else
      var choice := SelectFiles(primary, additional, photos);
      SelectedFilesReachService(primary, additional, photos);
      CurrentUserPathStoresBatch(users, trips, current, req, choice.primary, PassedAdditional(choice), uploader);
      CatchAccessDenied(
        CreateTripForCurrentUser(users, trips, current, req, choice.primary, PassedAdditional(choice), uploader),
        Created)
  }

  /** `POST /api/trips` (multipart): merge the form over the JSON part, then
      proceed as `CreateMergedTrip`. The null request fails in the merge or
      at the title check, before anything is uploaded or stored. */
  function CreateTripWithUploads(users: UserStore, trips: TripStore, current: Option<UserId>,
                                 tripJson: Option<string>, form: FormFields, primary: Option<Upload>,
                                 additional: Option<seq<Option<Upload>>>, photos: Option<seq<Option<Upload>>>,
                                 parse: string -> JsonParse,
                                 uploader: Uploader): (r: Step<TripStore, Reply>)
    ensures ParseOrEmpty(tripJson, parse).None? ==> r == Step(trips, Failure(NullRequest))
  {
    match MergeRequest(tripJson, form, parse)
    case None => Step(trips, Failure(NullRequest))
    case Some(req) => CreateMergedTrip(users, trips, current, req, primary, additional, photos, uploader)
  }

  /** `POST /api/trips/my`: the JSON part is required, the title is checked,
      and nothing is caught (an access denial propagates). */
  function CreateMyTripWithImages(users: UserStore, trips: TripStore, current: Option<UserId>, req: TripRequest,
                                  primary: Option<Upload>, additional: Option<seq<Option<Upload>>>,
                                  uploader: Uploader): (r: Step<TripStore, Reply>)
    ensures !HasTitle(req) ==> r == Step(trips, Success(Reply(BadRequest, None)))
    ensures HasTitle(req) && current.None? ==> r == Step(trips, Failure(AccessDenied(AuthenticationRequired)))
    ensures r.result.Success? && r.result.value.status == Created <==>
              HasTitle(req) && CreateTripForCurrentUser(users, trips, current, req, primary, additional, uploader).result.Success?
    ensures r.result.Failure? ==> r.state == trips
  {
    if !HasTitle(req) then Step(trips, Success(Reply(BadRequest, None)))
    else
      var step := CreateTripForCurrentUser(users, trips, current, req, primary, additional, uploader);
      match step.result
      case Success(resp) => Step(step.state, Success(Reply(Created, Some(resp))))
      case Failure(e) => Step(step.state, Failure(e))
  }

  /** `POST /api/destinations` from the title check on, given the merged
      request: no `photos` part, and the additional images are passed on as
      received. */
  function CreateMergedDestination(users: UserStore, trips: TripStore, current: Option<UserId>, req: TripRequest,
                                   primary: Option<Upload>, additional: Option<seq<Option<Upload>>>,
                                   uploader: Uploader): (r: Step<TripStore, Reply>)
    ensures !HasTitle(req) ==> r == Step(trips, Success(Reply(BadRequest, None)))
    ensures HasTitle(req) && current.None? ==> r == Step(trips, Success(Reply(Unauthorized, None)))
    ensures r.result.Success? && r.result.value.status == Created <==>
              && HasTitle(req)
              && current.Some? && current.value in users.byId
              && AllUploadsSucceed(FilesToUpload(primary, additional), uploader, 0)
  {
    if !HasTitle(req) then Step(trips, Success(Reply(BadRequest, None)))
    else CatchAccessDenied(CreateTripForCurrentUser(users, trips, current, req, primary, additional, uploader), Created)
  }

  /** `POST /api/destinations`: merge, then proceed as `CreateMergedDestination`;
      the null request fails before anything is stored. */
  function CreateDestination(users: UserStore, trips: TripStore, current: Option<UserId>,
                             tripJson: Option<string>, form: FormFields, primary: Option<Upload>,
                             additional: Option<seq<Option<Upload>>>, parse: string -> JsonParse,
                             uploader: Uploader): (r: Step<TripStore, Reply>)
    ensures ParseOrEmpty(tripJson, parse).None? ==> r == Step(trips, Failure(NullRequest))
  {
    match MergeRequest(tripJson, form, parse)
    case None => Step(trips, Failure(NullRequest))
    case Some(req) => CreateMergedDestination(users, trips, current, req, primary, additional, uploader)
  }

  /** Without a `photos` part the service uploads the files in priority order. */
  lemma NoPhotosPart(primary: Option<Upload>, additional: Option<seq<Option<Upload>>>)
    ensures FilesToUpload(primary, additional) == UploadOrder(primary, additional, None)
                                               == AllUsableFiles(primary, additional, None)
  {
    assert UsableFiles([]) == [];
  }

  /** The destination alias creates what the trip endpoint creates when no
      `photos` part is sent. */
  lemma DestinationMatchesTripEndpoint(users: UserStore, trips: TripStore, current: Option<UserId>, req: TripRequest,
                                       primary: Option<Upload>, additional: Option<seq<Option<Upload>>>,
                                       uploader: Uploader)
    ensures CreateMergedDestination(users, trips, current, req, primary, additional, uploader)
         == CreateMergedTrip(users, trips, current, req, primary, additional, None, uploader)
  {
    if HasTitle(req) {
      var choice := SelectFiles(primary, additional, None);
      SelectedFilesReachService(primary, additional, None);
      NoPhotosPart(primary, additional);
      CurrentUserPathDependsOnlyOnFiles(users, trips, current, req, primary, additional,
                                        choice.primary, PassedAdditional(choice), uploader);
    }
  }

  /** `PUT /api/trips/{id}` and `PUT /api/destinations/{id}` (multipart):
      merge, then the service update; an access denial becomes 401. The null
      request fails at the first form setter, or, when the form sets nothing,
      inside the service after its guard and uploads. */
  function UpdateTripWithUploads(trips: TripStore, current: Option<UserId>, id: TripId,
                                 tripJson: Option<string>, form: FormFields, primary: Option<Upload>,
                                 additional: Option<seq<Option<Upload>>>, parse: string -> JsonParse,
                                 uploader: Uploader): (r: Step<TripStore, Reply>)
    ensures ParseOrEmpty(tripJson, parse).None? && SetsAnyField(form) ==> r == Step(trips, Failure(NullRequest))
    ensures !(ParseOrEmpty(tripJson, parse).None? && SetsAnyField(form)) ==>
              && (id in trips.byId && !IsOwner(trips, id, current) ==>
                    r == Step(trips, Success(Reply(Unauthorized, None))))
              && (id !in trips.byId ==> r == Step(trips, Failure(TripNotFound)))
    ensures r.state != trips ==> IsOwner(trips, id, current) && r.result.Success? && r.result.value.status == Ok
    ensures r.result.Success? && r.result.value.status == Ok <==>
              && ParseOrEmpty(tripJson, parse).Some?
              && IsOwner(trips, id, current) && UploadUpdateImages(primary, additional, uploader).Success?
  {
    match ParseOrEmpty(tripJson, parse)
    case None =>
      if SetsAnyField(form) then Step(trips, Failure(NullRequest))
      else CatchAccessDenied(UpdateTripWithNullRequest(trips, current, id, primary, additional, uploader), Ok)
    case Some(parsed) =>
      var req := ApplyForm(parsed, form);
      CatchAccessDenied(TripService.UpdateTripWithUploads(trips, current, id, req, primary, additional, uploader), Ok)
  }

  /** As written, a multipart update that carries neither a JSON part nor a
      `tags` field still replaces the trip's tags, by the empty list of a
      fresh request; the description, by contrast, is kept. */
  lemma UpdateWithoutTagsClearsTags(trips: TripStore, current: Option<UserId>, id: TripId, form: FormFields,
                                    primary: Option<Upload>, additional: Option<seq<Option<Upload>>>,
                                    parse: string -> JsonParse, uploader: Uploader)
    requires form.tags.None? && form.description.None?
    requires var r := UpdateTripWithUploads(trips, current, id, None, form, primary, additional, parse, uploader);
             r.result.Success? && r.result.value.status == Ok
    ensures var after := UpdateTripWithUploads(trips, current, id, None, form, primary, additional, parse, uploader).state;
            id in after.byId && after.byId[id].tags == Some([]) && after.byId[id].description == trips.byId[id].description
  {
  }
}
