# Travel-App core in Dafny

A model of the service layer of a Spring travel-journal backend: user
registration and profile maintenance, password login with rotating refresh
tokens, trips (creation on three paths, ownership-guarded update and delete,
the multipart photo merge, the author and title queries), the multipart trip
endpoints that merge form fields over a JSON part and choose which uploaded
files become the primary image, and the object-storage client that names,
posts and publishes trip photos.

Every repository is a pure value: users and trips are maps from identity to
row plus the next identity value, and refresh tokens are a map from token value
to row. Each mutating operation returns a `Step(state, result)`, so a failure
still reports the store it leaves behind. This matters because token expiry
deletes the row before refusing it, and the old token is deleted before an
insert that can fail. Identity, clocks, token generators, password hashing,
the authentication manager, the JSON parser, UUIDs and the HTTP exchange with
storage are parameters.

An uploader takes the number of an upload within the request together with
the file. The number stands for the random UUID the storage client draws for
that upload. Batches are numbered from a given start: the create paths from 0,
and the update from 0 for the primary image and from the next number for the
additional images. `StorageService.FreshUrlsBelow(uploader, n)` says that,
among the first `n` uploads of a request, two different uploads never publish
the same URL. The bound `n` is the number of uploads the request makes.
`StorageService.DistinctUuidsGiveFreshUrls` derives it for the storage client
when those `n` uploads draw different 36-character UUIDs.
`StorageService.SerialUuidsGiveFreshUrls` shows that one such UUID source
exists for every request of up to 10^36 uploads.

Files:

- `wrappers.dfy`: `Option` and `Result`.
- `entities.dfy`: the rows, the error kinds, the stores and their invariants.
- `java_text.dfy`: Java's `trim`, `hasText` and `split`, and case-insensitive
  search.
- `refresh_token_service.dfy`, `user_service.dfy` and
  `authentication_service.dfy`: the account side.
- `storage_service.dfy`, `trip_service.dfy` and `trip_controller.dfy`: the
  trip side.

Each multipart create endpoint (`TripController.CreateTripWithUploads`,
`TripController.CreateDestination`) is the composition of the form merge,
`TripController.MergeRequest`, with the handling of the merged request,
`CreateMergedTrip` or `CreateMergedDestination`. The contracts are stated on
the two parts.

## Model

| member | source | states |
|---|---|---|
| RefreshTokenService.RemoveTokensOf | src/main/java/com/techup/travel_app/service/RefreshTokenService.java:40 | the user keeps no token; every other row is kept unchanged, and nothing else is |
| RefreshTokenService.Save | src/main/java/com/techup/travel_app/entity/RefreshToken.java:23-31 | the insert succeeds exactly when the value fits 500 characters, is not stored yet and the owner holds no row; a refused insert changes nothing; the table invariant is kept |
| RefreshTokenService.AtMostOneToken | src/main/java/com/techup/travel_app/entity/RefreshToken.java:23-25 | under the one-to-one owner column a user holds at most one token |
| RefreshTokenService.CreateRefreshToken | src/main/java/com/techup/travel_app/service/RefreshTokenService.java:33-51 | unknown owner fails and changes nothing; success exactly when the value fits and is not held by another user; the row expires `durationMs` after `now`; afterwards the owner holds exactly the new token, or none if the insert failed; other users' tokens are untouched |
| RefreshTokenService.VerifyExpiration | src/main/java/com/techup/travel_app/service/RefreshTokenService.java:53-59 | refusal exactly when the expiry lies strictly before `now`; a refused token is deleted and nothing else is; an accepted token leaves the store unchanged |
| RefreshTokenService.Refresh | src/main/java/com/techup/travel_app/service/RefreshTokenService.java:61-79 | unknown value fails without change; expired value is purged and refused; success returns the new "Bearer" pair for the old owner and removes the old value; a live token of an existing owner is always rotated when the new value is free; the invariant is kept |
| RefreshTokenService.ReplayRejected | src/main/java/com/techup/travel_app/service/RefreshTokenService.java:61-79 | a value that was rotated out is refused on reuse and the store stays as it was |
| RefreshTokenService.ExpiredTokenUnobservable | src/main/java/com/techup/travel_app/service/RefreshTokenService.java:53-59 | after a refresh with an expired token, that token can no longer be found |
| RefreshTokenService.DeleteByUserId | src/main/java/com/techup/travel_app/service/RefreshTokenService.java:81-86 | unknown user fails; otherwise all of the user's tokens go, the count removed is returned (at most one under the invariant), and other rows stay |
| RefreshTokenService.DeleteByToken | src/main/java/com/techup/travel_app/service/RefreshTokenService.java:88-91 | the value is gone afterwards, every other row stays, and an absent value changes nothing |
| RefreshTokenService.SequentialIssuesLeaveOneToken | src/main/java/com/techup/travel_app/service/RefreshTokenService.java:38-49 | however many tokens are issued to a user in sequence, at most one is stored, and it is the last one when the last issue succeeded |
| RefreshTokenService.IssueAllValid | src/main/java/com/techup/travel_app/service/RefreshTokenService.java:33-51 | issuing any sequence of tokens keeps the table invariant |
| UserService.MapToResponse | src/main/java/com/techup/travel_app/service/UserService.java:105-112 | the response carries the id, email, display name and creation time of the user, and no password hash |
| UserService.MapToResponseHidesHash | src/main/java/com/techup/travel_app/service/UserService.java:105-112 | two users give the same response exactly when they differ at most in the password hash |
| UserService.FindByEmail | src/main/java/com/techup/travel_app/service/UserService.java:64-68 | a found id holds the email; nothing is found exactly when no user has it; with unique emails the found user is the only holder |
| UserService.CreateUser | src/main/java/com/techup/travel_app/service/UserService.java:24-39 | a taken email fails and changes nothing; otherwise exactly one row is added with the hashed password and no display name, the others are kept, and unique emails stay unique |
| UserService.CreateUserWithProfile | src/main/java/com/techup/travel_app/service/UserService.java:41-56 | as registration, with the display name stored; a null password is refused after the email check |
| UserService.UpdateUser | src/main/java/com/techup/travel_app/service/UserService.java:76-95 | unknown user and a changed email that is taken fail without change; success exactly otherwise; email and display name are overwritten, the hash only for a non-empty password; id, creation time and other rows stay; unique emails stay unique |
| UserService.DeleteUser | src/main/java/com/techup/travel_app/service/UserService.java:97-103 | unknown user fails; otherwise exactly that row is removed |
| UserService.GetUserById | src/main/java/com/techup/travel_app/service/UserService.java:58-62 | success exactly for a stored id, and the answer is that user's response |
| UserService.GetUserByEmail | src/main/java/com/techup/travel_app/service/UserService.java:64-68 | success exactly when some user holds the email, and the answer is the response of a stored user holding it |
| UserService.DuplicateRegistrationKeepsAccount | src/main/java/com/techup/travel_app/service/UserService.java:26-28 | registering a taken email fails and leaves the holder's account as it was |
| AuthenticationService.Login | src/main/java/com/techup/travel_app/service/AuthenticationService.java:27-62 | a credential failure gives one error and changes nothing, and that error means exactly a credential failure; a missing user after authentication is reported as such; success returns a "Bearer" pair whose refresh token is the one token the user now holds; other users' tokens are untouched |
| AuthenticationService.StoreBackedLoginCollapsesFailures | src/main/java/com/techup/travel_app/service/AuthenticationService.java:28-34 | with a store-backed check, an unknown email and a wrong password give the same error, and an authenticated user is always found |
| AuthenticationService.LoginReplacesEarlierToken | src/main/java/com/techup/travel_app/service/AuthenticationService.java:42-45 | a successful login removes the user's earlier refresh token |
| JavaText.Trim | src/main/java/com/techup/travel_app/service/SupabaseStorageService.java:135-136 | the result is the contiguous slice of the input left after dropping characters up to U+0020 from both ends; it is empty exactly when the whole input is such characters |
| JavaText.TrimIdempotent | src/main/java/com/techup/travel_app/service/SupabaseStorageService.java:148 | trimming twice is trimming once |
| JavaText.HasTextDiffersFromNotBlank | src/main/java/com/techup/travel_app/service/SupabaseStorageService.java:142-144 | the text test of the configuration check and the blank test of the trim-based checks disagree on U+0000 and U+2003 |
| JavaText.SplitJoinsToPrefix | src/main/java/com/techup/travel_app/controller/TripController.java:66 | the pieces of a split, joined back with the separator, give a prefix of the input that is followed only by separators |
| JavaText.ContainsIgnoreCaseFacts | src/main/java/com/techup/travel_app/repository/TripRepository.java:14 | the empty query matches every title, and lower-casing title and query first does not change the answer |
| StorageService.Sanitize | src/main/java/com/techup/travel_app/service/SupabaseStorageService.java:137-138 | length is kept; each character outside `[a-zA-Z0-9.-]` becomes `_` and each one inside is kept |
| StorageService.SanitizeFacts | src/main/java/com/techup/travel_app/service/SupabaseStorageService.java:137-138 | only allowed characters and `_` remain, and sanitising again changes nothing |
| StorageService.ObjectFileName | src/main/java/com/techup/travel_app/service/SupabaseStorageService.java:133-138 | a null or textless file name becomes "photo", otherwise the trimmed name; the result holds only allowed characters and `_` |
| StorageService.BuildObjectName | src/main/java/com/techup/travel_app/service/SupabaseStorageService.java:132-139 | the name starts with "trips/", the uuid and "-"; the rest is the file's object name, so every character after that prefix is an allowed object-name character or `_` |
| StorageService.ObjectNameDistinguishesUuids | src/main/java/com/techup/travel_app/service/SupabaseStorageService.java:132-139 | two object names built from uuids of one length coincide only when the uuids and the sanitised file names do |
| StorageService.NormalizeBaseUrl | src/main/java/com/techup/travel_app/service/SupabaseStorageService.java:147-153 | appending one '/' to the result gives back the trimmed URL exactly when that ends in '/'; otherwise the result is the trimmed URL |
| StorageService.NormalizeStripsOneSlash | src/main/java/com/techup/travel_app/service/SupabaseStorageService.java:147-153 | a URL ending in "//" keeps one trailing slash |
| StorageService.PublicUrlInsertsPublicSegment | src/main/java/com/techup/travel_app/service/SupabaseStorageService.java:71-113 | the public URL is the upload URL with "public/" inserted after the object path |
| StorageService.UploadPhoto | src/main/java/com/techup/travel_app/service/SupabaseStorageService.java:66-123 | a misconfigured store fails before any request; success exactly when the post to the upload URL succeeds, returning the public URL of the same object |
| StorageService.PublicUrlDeterminesUuid | src/main/java/com/techup/travel_app/service/SupabaseStorageService.java:113 | two public URLs of one store coincide only when the uuids in their object names do |
| StorageService.DistinctUuidsGiveFreshUrls | src/main/java/com/techup/travel_app/service/SupabaseStorageService.java:138 | when the first `n` uploads of a request draw different 36-character uuids, no two of them publish the same URL |
| StorageService.SerialUuidsGiveFreshUrls | src/main/java/com/techup/travel_app/service/SupabaseStorageService.java:138 | with 36-digit serial uuids, any request of up to 10^36 uploads publishes pairwise different URLs, whatever the configuration and the store's answers |
| StorageService.UsableFiles | src/main/java/com/techup/travel_app/service/SupabaseStorageService.java:44-48 | only non-null, non-empty files of the list remain |
| StorageService.UsableFilesAppend | src/main/java/com/techup/travel_app/service/SupabaseStorageService.java:44-48 | filtering a concatenation is concatenating the filtered halves |
| StorageService.UploadAll | src/main/java/com/techup/travel_app/service/SupabaseStorageService.java:44-63 | success exactly when every upload succeeds, with one URL per file in order, file k being upload number first + k; any failure fails the batch |
| StorageService.UploadTripPhotos | src/main/java/com/techup/travel_app/service/SupabaseStorageService.java:37-64 | a null or empty list uploads nothing; otherwise success exactly when every usable file uploads, with their URLs in order |
| StorageService.FreshBatchIsDistinct | src/main/java/com/techup/travel_app/service/SupabaseStorageService.java:46-60 | when no two of the uploads up to the end of the batch share a URL, the URLs of the batch are pairwise distinct |
| StorageService.NoUsableFileNoUpload | src/main/java/com/techup/travel_app/service/SupabaseStorageService.java:38-40 | without a usable file the uploader is never consulted |
| StorageService.MisconfiguredStorageFailsAnyUpload | src/main/java/com/techup/travel_app/service/SupabaseStorageService.java:141-145 | with the store misconfigured a batch fails exactly when it holds a usable file |
| TripService.MapToResponse | src/main/java/com/techup/travel_app/service/TripService.java:306-331 | every field is carried over, with null photo and tag lists reported as empty |
| TripService.MapToResponseNullIsEmpty | src/main/java/com/techup/travel_app/service/TripService.java:306-312 | a null photo or tag list answers like an empty one, and two trips answer alike exactly when they agree once null lists are read as empty |
| TripService.CheckOwner | src/main/java/com/techup/travel_app/service/TripService.java:157-159 | passes exactly for an authenticated caller who is the trip's author; a missing identity and another author are both access denials |
| TripService.InsertTrip | src/main/java/com/techup/travel_app/service/TripService.java:47 | exactly one row is added under the next identity, and the rest are kept |
| TripService.CreateTrip | src/main/java/com/techup/travel_app/service/TripService.java:32-49 | a null author id and an unknown author fail without change; success exactly otherwise, storing the request with null lists made empty |
| TripService.CreateTripWithUploads | src/main/java/com/techup/travel_app/service/TripService.java:51-56 | the uploads run first and a failed one aborts with nothing stored; success exactly when every usable file uploads and the request's author exists; the stored trip has the request's author and the uploaded URLs as photos |
| TripService.UploadsWithoutFilesIsCreateTrip | src/main/java/com/techup/travel_app/service/TripService.java:51-56 | without a usable file the upload path is plain creation with an empty photo list |
| TripService.UsableFilesWrap | src/main/java/com/techup/travel_app/service/TripService.java:94-102 | filtering already-usable files keeps them all |
| TripService.FilesToUpload | src/main/java/com/techup/travel_app/service/TripService.java:94-102 | the files sent are usable, and filtering them again keeps them all |
| TripService.CreateTripForAuthorWithUploads | src/main/java/com/techup/travel_app/service/TripService.java:58-79 | success exactly when the path author exists and every upload succeeds; the stored trip belongs to the path author and its photos are the uploads of the usable primary and additional images, in order |
| TripService.CreateTripForCurrentUser | src/main/java/com/techup/travel_app/service/TripService.java:81-126 | no identity is an access denial and an unknown caller fails, both without change; success exactly when every selected upload succeeds; the trip belongs to the caller and its photos are the uploads, in order |
| TripService.ExplicitAuthorMatchesCurrentUser | src/main/java/com/techup/travel_app/service/TripService.java:58-126 | for an existing author, creating under a path author gives the same store and answer as creating for that author as the current user |
| TripService.CurrentUserPathIgnoresRequestedAuthor | src/main/java/com/techup/travel_app/service/TripService.java:114-122 | the author id in the request has no effect on the current-user path |
| TripService.CurrentUserPathDependsOnlyOnFiles | src/main/java/com/techup/travel_app/service/TripService.java:94-102 | two file arguments that select the same files create the same trip |
| TripService.CurrentUserPathStoresBatch | src/main/java/com/techup/travel_app/service/TripService.java:104-118 | the photos of a trip created for the current user are exactly the result of one batch upload of the selected files |
| TripService.CurrentUserPathWithoutFilesUploadsNothing | src/main/java/com/techup/travel_app/service/TripService.java:104-112 | without a usable file the uploader is not consulted and the trip has no photos |
| TripService.GetTripById | src/main/java/com/techup/travel_app/service/TripService.java:128-132 | success exactly for a stored id, returning that trip |
| TripService.SelectTrips | src/main/java/com/techup/travel_app/repository/TripRepository.java:12-14 | the ids returned are exactly the stored trips the condition accepts, in increasing order |
| TripService.GetTripsByAuthorId | src/main/java/com/techup/travel_app/service/TripService.java:140-144 | every returned trip has that author, and every trip of that author is returned |
| TripService.SearchTripsByTitle | src/main/java/com/techup/travel_app/service/TripService.java:146-150 | every returned trip's title contains the query ignoring case, and every such trip is returned |
| TripService.UpdateTrip | src/main/java/com/techup/travel_app/service/TripService.java:152-184 | unknown trip, non-owner and an unknown new author fail without change; success exactly otherwise; title, description and coordinates are overwritten, and photos, tags and author only when supplied; only that trip changes |
| TripService.BasePhotos | src/main/java/com/techup/travel_app/service/TripService.java:248-260 | the request's photo list when it is non-empty, otherwise the trip's current photos |
| TripService.ReplacePrimary | src/main/java/com/techup/travel_app/service/TripService.java:262-273 | an uploaded primary URL replaces the first photo or becomes the only one; the rest of the list is kept |
| TripService.IndexOf | src/main/java/com/techup/travel_app/service/TripService.java:278 | the position found holds the element |
| TripService.AppendNew | src/main/java/com/techup/travel_app/service/TripService.java:275-284 | the existing list stays a prefix; the result holds exactly the old photos and the URLs; appended URLs are new, distinct, and in the order they first appear |
| TripService.AppendNewDistinct | src/main/java/com/techup/travel_app/service/TripService.java:275-284 | pairwise distinct URLs that are all new to the list are all appended, in order |
| TripService.MergePhotos | src/main/java/com/techup/travel_app/service/TripService.java:248-286 | the merged list starts with the base list after the primary replacement; every additional URL ends up in it; nothing else appears; the tail is new, repetition-free and in upload order |
| TripService.UploadUpdateImages | src/main/java/com/techup/travel_app/service/TripService.java:200-223 | success exactly when a usable primary image uploads, as upload 0, and every usable additional image uploads, numbered after it; the URLs are those uploads, in order |
| TripService.MultipartUpdated | src/main/java/com/techup/travel_app/service/TripService.java:225-286 | a field changes only when supplied, the title only when not blank; the author and id never change; the photos are the merge |
| TripService.UpdateTripWithUploads | src/main/java/com/techup/travel_app/service/TripService.java:186-291 | unknown trip and non-owner fail without change, and so does a failed upload; success exactly for the owner whose uploads succeed; only that trip changes |
| TripService.FreshUploadsAllStored | src/main/java/com/techup/travel_app/service/TripService.java:200-284 | when no two of the update's uploads share a URL and none of them is in the base list, every additional upload is stored: the merged list is the base list after the primary replacement followed by one URL per usable additional file |
| TripService.UpdateTripWithNullRequest | src/main/java/com/techup/travel_app/service/TripService.java:186-226 | a null request never changes the store: an unknown trip, a non-owner and a failed upload fail as usual, and the null dereference happens exactly for the owner whose uploads succeed |
| TripService.NullRequestFailsWhereUpdateSucceeds | src/main/java/com/techup/travel_app/service/TripService.java:186-226 | a null request fails as a real one does where that fails, and fails on the null request where that succeeds |
| TripService.DeleteTrip | src/main/java/com/techup/travel_app/service/TripService.java:293-304 | unknown trip fails; success exactly for the owner; then exactly that trip is removed |
| TripService.OnlyOwnerMutates | src/main/java/com/techup/travel_app/service/TripService.java:152-304 | update, multipart update and delete change the store only when the caller is the trip's author |
| TripController.ParseOrEmpty | src/main/java/com/techup/travel_app/controller/TripController.java:46-56 | an absent, blank or unparsable JSON part gives a fresh request; the JSON document `null` gives no request at all; otherwise the parsed one |
| TripController.MergeRequest | src/main/java/com/techup/travel_app/controller/TripController.java:46-73 | only the JSON document `null` leaves no request; without a JSON part the form fills a fresh request; without form fields the parsed request is used as is; photos and author always come from the JSON |
| TripController.ParseTags | src/main/java/com/techup/travel_app/controller/TripController.java:64-67 | the pieces contain no comma; joined back they give a prefix of the field followed only by commas; trailing empty pieces are dropped; a field without a comma is one tag |
| TripController.ApplyForm | src/main/java/com/techup/travel_app/controller/TripController.java:58-73 | a non-blank title or tag field overrides the JSON; description and coordinates override whenever present; photos and author come from the JSON |
| TripController.NoFormKeepsJson | src/main/java/com/techup/travel_app/controller/TripController.java:58-73 | when no form field is set, the JSON request is used as parsed |
| TripController.FormTakesPrecedence | src/main/java/com/techup/travel_app/controller/TripController.java:58-73 | when every form field is supplied the JSON values of those fields do not matter |
| TripController.ApplyFormIdempotent | src/main/java/com/techup/travel_app/controller/TripController.java:58-73 | applying the same form twice is applying it once |
| TripController.DistributePhotosSpec | src/main/java/com/techup/travel_app/controller/TripController.java:98-108 | the loop over the photos makes the first usable photo primary if none is chosen and appends the rest, in order |
| TripController.SelectFiles | src/main/java/com/techup/travel_app/controller/TripController.java:83-108 | every chosen file is usable |
| TripController.SelectFilesKeepsEveryFile | src/main/java/com/techup/travel_app/controller/TripController.java:83-108 | the choice holds every usable file once, primary first; a usable explicit primary stays primary, otherwise the first usable photo is promoted |
| TripController.UploadOrderWithoutPromotion | src/main/java/com/techup/travel_app/controller/TripController.java:83-108 | with a usable explicit primary image, or no usable photo, the files are uploaded in priority order: primary, then additional images, then photos |
| TripController.PromotionMovesToFront | src/main/java/com/techup/travel_app/controller/TripController.java:98-108 | when a photo is promoted, the upload order is the priority order with that first usable photo moved to the front |
| TripController.UploadOrderPermutesPriority | src/main/java/com/techup/travel_app/controller/TripController.java:83-108 | in every case the upload order is a rearrangement of the priority order: the same files, each as often |
| TripController.SelectedFilesReachService | src/main/java/com/techup/travel_app/controller/TripController.java:110-113 | the files the service uploads are exactly the chosen files in upload order |
| TripController.CatchAccessDenied | src/main/java/com/techup/travel_app/controller/TripController.java:116-122 | an access denial becomes 401 with no body, other failures propagate, and success gets the endpoint's status |
| TripController.CreateMergedTrip | src/main/java/com/techup/travel_app/controller/TripController.java:75-123 | given the merged request: a missing title is 400 before identity is checked; no identity is 401; 201 exactly for an existing caller whose uploads all succeed, and the stored trip belongs to the caller, carries the request's fields, and has as photos the batch upload of the selected files in upload order; otherwise nothing changes |
| TripController.CreateTripWithUploads | src/main/java/com/techup/travel_app/controller/TripController.java:46-123 | a JSON part holding `null` fails on the null request and changes nothing |
| TripController.CreateMyTripWithImages | src/main/java/com/techup/travel_app/controller/TripController.java:135-146 | a missing title is 400; an access denial propagates instead of becoming 401; 201 exactly when the service creates the trip |
| TripController.CreateMergedDestination | src/main/java/com/techup/travel_app/controller/TripController.java:149-207 | given the merged request: a missing title is 400, no identity is 401, and 201 exactly for an existing caller whose uploads succeed |
| TripController.CreateDestination | src/main/java/com/techup/travel_app/controller/TripController.java:149-207 | a JSON part holding `null` fails on the null request and changes nothing |
| TripController.NoPhotosPart | src/main/java/com/techup/travel_app/controller/TripController.java:83-96 | without a photos part the service sends the files in priority order |
| TripController.DestinationMatchesTripEndpoint | src/main/java/com/techup/travel_app/controller/TripController.java:149-207 | for the same merged request, the destination endpoint behaves as the trip endpoint called without a photos part |
| TripController.UpdateTripWithUploads | src/main/java/com/techup/travel_app/controller/TripController.java:241-298 | a JSON `null` document with a form field fails before the trip is looked up; otherwise an unknown trip propagates and a non-owner gets 401 with nothing changed; 200 exactly for a non-null request from the owner whose uploads succeed; a change happens only then |
| TripController.UpdateWithoutTagsClearsTags | src/main/java/com/techup/travel_app/controller/TripController.java:241-298 | an update with neither a JSON part nor a tags field replaces the tags by the empty list, while the description is kept |

## Left out

- HTTP routing, request binding and bean validation are not modelled. The
  validation annotations make a null author id unreachable on the JSON create
  path; `CreateTrip` still models the repository's refusal of a null id.
- JSON parsing (Jackson) is a parameter `parse` with three outcomes: a parsed
  request, the document `null`, or a parse error. Every dereference of the
  resulting null request is reported as the error `NullRequest`, which the
  exception handler turns into a server error.
- The HTTP request to storage is a parameter `post`, which says whether the
  exchange returned a 2xx status. Media-type resolution and request headers
  are not modelled.
- Storage failures are collapsed into `UploadFailed`. The source uses several
  distinct messages for them.
- Access-token generation, password hashing, the authentication manager and
  the refresh-token generator are parameters: `accessToken`, `encode`,
  `authenticate` and `newValue`.
- `UUID.randomUUID()` is not modelled as a random source. Each upload has a
  number instead, and distinct numbers stand for distinct UUIDs.
- FreshUploadsAllStored: assumes the URL freshness of the request's uploads,
  `FreshUrlsBelow`. Random UUIDs can repeat in principle, and then two
  uploads of one request publish the same URL and only one is stored.
- FreshBatchIsDistinct: assumes the same per-request freshness, for the same
  reason.
- Each call reads the clock once, as `now`. The source reads the clock more
  than once during a refresh.
- Transactions, concurrency and lazy loading are not modelled. A transactional
  failure is modelled as leaving the store unchanged.
- The current-user lookup is reduced to its outcome: an `Option<UserId>`,
  which is `None` when no authenticated `CustomUserDetails` principal exists.
- A `CustomUserDetails` principal whose user id is null is not modelled. On
  the ownership checks it would be denied, like `None`. On the current-user
  create path the source would instead fail in `findById(null)` with an
  `IllegalArgumentException`.
- Coordinates are `real`, not `Double`. Identities are unbounded naturals, so
  `Long` overflow is not modelled.
- Trip creation and update timestamps are not modelled.
- Logging is not modelled.
- Listing all users and listing all trips are not modelled. They are plain
  repository reads.
- Deleting a user does not cascade to its tokens or trips. The database
  foreign keys decide that, and they are not part of this model.
- Case-insensitive title search folds ASCII letters only. Java's full Unicode
  case folding is not modelled.
- The query results come in ascending id order. The repositories do not
  promise any order.
- `Trip.java` and `User.java` are not part of this model beyond the fields the
  services read and write.
- RefreshTokenService.ReplayRejected: requires the generator to produce a
  value different from the rotated one, because the generator is not part of
  this model and could repeat a value.
- RefreshTokenService.RemoveTokensOf: removes every token of the user. The
  source deletes the one token it finds. The two agree under the one-token
  invariant.
- TripService.GetTripsByAuthorId: requires every trip to be stored under its
  own id, the repository invariant that the store representation does not
  enforce by itself.
- TripService.SearchTripsByTitle: requires every trip to be stored under its
  own id, for the same reason.
