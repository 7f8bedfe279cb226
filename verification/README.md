# ReelOn social core, modelled in Dafny

ReelOn is a short-video ("reels") web application. Its server keeps users,
videos, comments, follow edges and like edges in a document store. Its request
handlers follow and unfollow users, toggle likes on videos and comments, list
and post comments, register users, and list and create videos. Each user,
video and comment caches counters of its edges (followers, following, likes,
comments). The handlers are meant to move those counters along with the
edges. For users and comments they do. The video counters move only once
the video schema declares them, which it does not as written (see
"## Findings").

This project models that core as pure Dafny functions over an immutable store.
Each handler is one transition `(session, request, store) -> Step(response,
store')`. The two listings are methods, because they sort the map's entries.
The model also covers:

- the validity rules and defaults of the five document schemas;
- the unique indexes of the follow and like collections;
- the middleware's `authorized` predicate;
- the client-side rules of the upload form, the reels navigation, the home
  feed's optimistic like state and the video player's time display.

Modules, one per file:

| file | module | models |
|---|---|---|
| common.dfy | Common | `Option`, the session, JavaScript truthiness of a string, ASCII `trim` and `toLowerCase`, JavaScript string length |
| schema.dfy | Schema | the user, video, comment, follow and like schemas, their setters, validators, defaults, the pre-save hook and the unique indexes |
| store.dfy | Store | the store, the response bodies, email lookups, the `$inc` counter updates, and the invariant that every cached counter equals its edge count |
| follow.dfy | FollowRoutes | `POST`/`DELETE /api/follow` and `GET /api/follow/check` |
| like.dfy | LikeRoutes | `POST /api/like` (the toggle) and `GET /api/like/check` |
| listing.dfy | Listing | newest-first ordering of a map's entries, with an optional limit |
| comment.dfy | CommentRoutes | `GET`/`POST /api/comment` |
| videos.dfy | VideoRoutes | `GET`/`POST /api/videos` |
| register.dfy | RegisterRoute | `POST /api/auth/register`, as written and as evidently intended |
| counters.dfy | VideoCounters | the video counter updates under the video schema as written and as evidently intended |
| middleware.dfy | Middleware | the route-authorisation predicate |
| upload.dfy | Upload | `validateFile`, `handleFileSelect`, the `handleUpload` guard chain, `resetUpload`, the upload button condition |
| reels.dfy | Reels | wheel, touch and key navigation with clamping, and slide positions |
| feed.dfy | Feed | `handleLike` and `checkLikeStatuses` of the home page |
| timefmt.dfy | TimeFormat | the video player's `formatTime` |

Modelling choices:

- A session is `NoSession` or `Session(email)`. The video upload handler checks
  only that a session exists. The other handlers also need its email.
- An optional string parameter counts as given only when it is present and
  non-empty, as JavaScript truthiness has it.
- An email lookup normalises its query value with the email path's setters
  (`lowercase`, `trim`). The document store applies schema setters to query
  filters.
- Generated ids and timestamps (`newId`, `now`) are parameters. An insert under
  an id already in use fails like any other insert, into the handler's error
  branch.
- The unique indexes make each follow edge and each like edge occur at most
  once. Edges are therefore sets. `Schema.FollowClashIsEquality` and
  `Schema.LikeClashIsEquality` justify this.
- The main handlers (`LikeRoutes.Toggle`, `CommentRoutes.CommentPost`,
  `VideoRoutes.VideoPost`) run under the corrected video schema, which
  declares `likesCount` and `commentsCount` with default 0. The schema as
  written, which drops their updates, is modelled separately in
  `VideoCounters`.
- `Store.CountersAgree` is the invariant that every cached counter equals the
  number of edges or comments it caches. Under the corrected video schema,
  every handler keeps it. The handlers
  that create a document assume that the new id is not referenced anywhere
  (`Store.Unused`), which is what a fresh ObjectId guarantees.
- The schemas' `minlength`/`maxlength` limits compare JavaScript string
  length, which counts UTF-16 code units (`Common.JsLength`): a character
  outside the Basic Multilingual Plane counts twice.
- The portrait frame size `Schema.VideoDimensions` is the constant 1080 x 1920.

## Model

| member | source | states |
|---|---|---|
| Common.TrimEmptyIffAllSpace | app/components/FileUpload.tsx:174-182 | a title or description is blank after trimming exactly when every character is whitespace |
| Schema.CreateVideo | models/video.ts:26-35 | a video is created exactly when title, description, video URL and thumbnail URL are all non-empty; it keeps those four values, `controls` is true unless given as false, and (under the corrected schema) its counters start at zero |
| Common.Trim | app/components/FileUpload.tsx:174-182 | the trimmed string is an infix of the input with only whitespace cut from either end, and it neither starts nor ends with whitespace |
| Common.JsLength | models/user.ts:29-32 | JavaScript's `length` counts code units: at least the number of characters and at most twice it |
| Schema.NormalizeKey | models/user.ts:28-29 | the email/username setters yield the value with the whitespace at both ends cut off, lower-cased; no upper-case letter and no blank at either end is left |
| Schema.NormalizeKeyIgnoresCaseAndBlanks | models/user.ts:28-29 | two spellings of a key that differ only in letter case or in blanks around them normalise to the same value, and normalising twice is normalising once |
| Schema.CreateUser | models/user.ts:27-51 | a user is created exactly when the set values pass every validator (required email; username of 5 to 20 UTF-16 code units; password of at least 6; display name at most 50; bio at most 150); it stores the normalised email and username and the hashed password; all counters start at 0, unverified and active |
| Schema.SaveUser | models/user.ts:46-51 | saving hashes the password exactly when it was modified and changes nothing else |
| Schema.SaveUnmodifiedKeepsPassword | models/user.ts:46-51 | a second save without a password change never hashes the stored hash again |
| Schema.CreateComment | models/comment.ts:15-34 | a comment is created exactly when the content is present and at most 200 UTF-16 code units long and both references are given; `likesCount` starts at 0 |
| Schema.CommentLimitCountsCodeUnits | models/comment.ts:15-19 | 101 characters outside the Basic Multilingual Plane exceed the 200 limit, while 200 plain characters do not |
| Schema.UserLimitsCountCodeUnits | models/user.ts:29-30 | a four-character username with one character outside the Basic Multilingual Plane is five units and meets the minimum, and a password of three such characters meets the minimum of six |
| Schema.StrictInc | models/video.ts:26-35 | an increment of an undeclared path is dropped; a declared path moves by exactly the increment |
| Schema.InsertFollow | models/follow.ts:12-28 | a follow document is accepted exactly when both references are present and no stored document has the same ordered pair; acceptance appends it and keeps the index intact |
| Schema.InsertLike | models/like.ts:13-45 | a like document is accepted exactly when the user is present and it clashes with no stored document on either partial index; acceptance keeps both indexes intact |
| Schema.SelfFollowPassesSchema | models/follow.ts:12-28 | the schema alone accepts a self-follow |
| Schema.ReverseFollowNotBlocked | models/follow.ts:28 | the pair is ordered: an edge (a, b) never blocks inserting (b, a) |
| Schema.CommentLikeIgnoresVideoLikes | models/like.ts:32-45 | the two like indexes are independent: video likes never block a user's first like of a comment |
| Schema.FollowClashIsEquality | models/follow.ts:28 | two follow edges collide on the index exactly when they are the same edge |
| Schema.LikeClashIsEquality | models/like.ts:32-45 | two like edges collide on an index exactly when they are the same edge |
| Store.FindUser | app/api/follow/route.ts:20-23 | the lookup finds a user exactly when some stored email equals the normalised query, and the user it finds has that email |
| Store.BumpFollowing | app/api/follow/route.ts:53 | the update moves the following count of the named user by exactly the increment and leaves every other user, and an absent id, alone |
| Store.BumpFollowers | app/api/follow/route.ts:54 | the update moves the follower count of the named user by exactly the increment and leaves every other user, and an absent id, alone |
| Store.BumpUsersUndo | app/api/follow/route.ts:98-99 | the unfollow's decrements undo the follow's increments exactly |
| Store.BumpLikes | app/api/like/route.ts:35-75 | the update moves only the like count of the like's target, video or comment, by exactly the increment; users, edges and every other document stay as they were |
| Store.BumpLikesUndo | app/api/like/route.ts:35-75 | a like count decrement undoes the increment exactly |
| Store.BumpComments | app/api/comment/route.ts:63 | the update moves only the named video's comment count, by exactly the increment |
| Store.BumpCommentsUndo | app/api/comment/route.ts:63 | an opposite update of the comment count restores the videos exactly |
| Store.FindUserIgnoresCounters | app/api/follow/route.ts:53-54 | counter updates never change which user an email lookup finds |
| FollowRoutes.ShiftFollowCounters | app/api/follow/route.ts:53-54 | the two counter writes move the caller's following count and the target's follower count by the same amount, and change nothing else |
| FollowRoutes.FollowPost | app/api/follow/route.ts:8-63 | the checks fail in the source's order with their fixed statuses (401, 404 caller, 400 self, 404 target, 200 already following), none of them writing; a fresh follow adds exactly the edge (caller, target) and moves both counters by one |
| FollowRoutes.FollowDelete | app/api/follow/route.ts:66-110 | 401 without a session, 400 on a missing id before the caller lookup, 404 for an unknown caller, 400 "Not Following" without the edge; otherwise removes exactly that edge and moves both counters down by one |
| FollowRoutes.FollowCheck | app/api/follow/check/route.ts:8-63 | read-only; 401 without a session, 404 for a missing `userId` and for an unknown caller; otherwise `isFollowing` holds exactly when the edge (caller, userId) is stored |
| FollowRoutes.FollowIdempotent | app/api/follow/route.ts:39-46 | repeating a follow that succeeded answers "Already following" and changes nothing |
| FollowRoutes.UnfollowUndoesFollow | app/api/follow/route.ts:48-54 | a fresh follow followed by an unfollow gives back the original store exactly |
| FollowRoutes.CheckSeesFollow | app/api/follow/check/route.ts:42-51 | after either 200 answer of a follow, the check reports the edge |
| FollowRoutes.CheckSeesUnfollow | app/api/follow/check/route.ts:42-51 | after a successful unfollow, the check reports no edge |
| FollowRoutes.FollowPostKeepsCounters | app/api/follow/route.ts:48-54 | every follow request keeps each follower and following count equal to its edge count |
| FollowRoutes.FollowDeleteKeepsCounters | app/api/follow/route.ts:88-99 | every unfollow request keeps each follower and following count equal to its edge count |
| LikeRoutes.ChosenTarget | app/api/like/route.ts:26-83 | `videoId` wins when given; otherwise `commentId`; no target exactly when neither is given |
| LikeRoutes.Toggle | app/api/like/route.ts:26-79 | an existing like is removed and its target's count drops by one (`liked: false`); a missing like is added and the count rises by one (`liked: true`) |
| LikeRoutes.LikePost | app/api/like/route.ts:10-93 | 401 without a session, 404 for an unknown caller before the target is inspected, 400 without a target, none writing; otherwise the toggle on the chosen target, whose answer says whether the like now exists |
| LikeRoutes.LikeCheck | app/api/like/check/route.ts:8-76 | read-only; 401 without a session, 404 without a target before the caller lookup, 404 for an unknown caller; otherwise `isLiked` holds exactly when the caller's like of the chosen target is stored |
| LikeRoutes.VideoIdTakesPrecedence | app/api/like/route.ts:26-54 | when `videoId` is given, toggle and check ignore `commentId` |
| LikeRoutes.ToggleInvolution | app/api/like/route.ts:26-79 | toggling the same pair twice gives back the store, and the two answers are opposite |
| LikeRoutes.ToggleTwiceRestores | app/api/like/route.ts:10-93 | two identical like requests in a row leave the store as it was |
| LikeRoutes.TargetsIndependent | app/api/like/route.ts:35-74 | a request without `videoId` changes no video; one with `videoId` changes no comment |
| LikeRoutes.CheckAgreesWithToggle | app/api/like/check/route.ts:43-65 | after a successful toggle, the check on the same target reports what the toggle answered |
| LikeRoutes.ToggleKeepsCounters | app/api/like/route.ts:26-79 | a toggle keeps every like count equal to its number of like edges |
| LikeRoutes.LikePostKeepsCounters | app/api/like/route.ts:10-93 | every like request keeps all counters equal to their edge counts |
| Listing.SortNewestFirst | app/api/videos/route.ts:10 | every entry of the map appears exactly once, in non-increasing timestamp order |
| Listing.ListAll | app/api/videos/route.ts:10-13 | every entry of the map with its document, each once, newest first, and nothing else |
| Listing.TakeNewest | app/api/comment/route.ts:21-24 | at most `n` entries, each from the map and each once, newest first; the list is short only when it holds every entry, and no entry left out is newer than one listed |
| CommentRoutes.CommentGet | app/api/comment/route.ts:10-31 | 400 for a missing `videoId`, with no session needed; otherwise at most 50 comments, only of that video, each once, newest first, and no comment of the video newer than a listed one left out |
| CommentRoutes.CommentPost | app/api/comment/route.ts:34-77 | 401, 400 for missing content or video before the caller lookup, 404, and 500 for a schema or insert failure, none writing; otherwise exactly one new comment by the caller on that video, and that video's comment count rises by one |
| CommentRoutes.WideCommentRefused | app/api/comment/route.ts:53-75 | a comment of 101 characters outside the Basic Multilingual Plane fails the 200-unit limit and is answered with the 500 server error, storing nothing |
| CommentRoutes.CommentPostKeepsCounters | app/api/comment/route.ts:56-63 | posting a comment under a fresh id keeps every counter equal to its edge count |
| CommentRoutes.OnlyThatVideoCounts | app/api/comment/route.ts:63 | only the named video's comment count moves, by exactly one, and no like count moves |
| VideoRoutes.VideoGet | app/api/videos/route.ts:7-23 | every stored video exactly once, newest first, as many entries as videos (an empty list when there are none) |
| VideoRoutes.DefaultControls | app/api/videos/route.ts:48-51 | an absent or null `controls` becomes true, and an explicit false stays false |
| VideoRoutes.VideoPost | app/api/videos/route.ts:25-63 | 401 without a session, 400 when a required field is empty, 400 when the insert fails, none writing; otherwise the new video holds the body's fields, the `controls` default and zero counters |
| VideoRoutes.VideoPostKeepsCounters | app/api/videos/route.ts:52-53 | a new video under a fresh id keeps every counter equal to its edge count |
| VideoRoutes.ListedAfterCreate | app/api/videos/route.ts:7-63 | a video created by the upload handler appears in the next listing, and nothing else new does |
| RegisterRoute.CreateAndInsert | app/api/auth/register/route.ts:32-55 | 201 exactly when the schema accepts the input and the unique indexes accept the new user; every other outcome is 500 "Failed to register" with no change |
| RegisterRoute.RegisterAsWritten | app/api/auth/register/route.ts:5-57 | 400 for a missing email or password, 400 for an email already on file (compared after normalisation) |
| RegisterRoute.AsWrittenNeverRegisters | app/api/auth/register/route.ts:32-35 | the handler as written never answers 201 and never changes the store: past its two checks it always answers 500 |
| RegisterRoute.Register | app/api/auth/register/route.ts:5-57 | the same checks; a 201 answer carries the message in `error` and adds exactly the created user under the fresh id; anything else is 500 with no change |
| RegisterRoute.RegisteredUserFindable | app/api/auth/register/route.ts:32-44 | the stored user holds the normalised email and username, the hashed password, zero counters, active and unverified, and a lookup by the email as typed finds it |
| RegisterRoute.RegisterSucceedsIff | app/api/auth/register/route.ts:5-57 | registration succeeds exactly when email and password are given, the fields pass the schema, the id is free, and no user holds the normalised email or username |
| RegisterRoute.NoDoubleRegistration | app/api/auth/register/route.ts:21-31 | after a registration, a second one with any email of the same normalised form answers "Email already registered" and changes nothing |
| RegisterRoute.NoDoubleRegistrationRecased | app/api/auth/register/route.ts:21-31 | the same email retyped in any letter case and with blanks around it is refused as already registered |
| RegisterRoute.RegisterKeepsCounters | app/api/auth/register/route.ts:32-44 | a new user has zero counters and no edges, so every counter still agrees |
| VideoCounters.IncVideo | models/video.ts:26-35 | a counter update touches at most the named video, and none at all when the schema does not declare the counter |
| VideoCounters.LikeVideo | app/api/like/route.ts:26-53 | the video branch of the like handler toggles the caller's like edge and touches no user, comment or follow |
| VideoCounters.AsWrittenLikeNeverCounted | models/video.ts:26-35 | under the video schema as written, a like never changes any stored video |
| VideoCounters.AsWrittenCountDrifts | app/api/like/route.ts:39-51 | a concrete store whose counters agree stops agreeing after one like under the schema as written |
| VideoCounters.CorrectedLikeIsToggle | app/api/like/route.ts:26-53 | with the counters declared, the video branch is the toggle of the main model and keeps every counter in agreement |
| VideoCounters.CorrectedCommentCountIsBump | app/api/comment/route.ts:63 | with the counters declared, the comment count update is the increment the main model uses |
| Middleware.Authorized | middleware.ts:10-27 | a request with a token is always authorised; the public paths always are; any other path is authorised exactly when it carries a token |
| Middleware.PrefixesArePublic | middleware.ts:13-23 | any extension of "/api/auth" or "/api/videos", "/api/authX" included, is public |
| Middleware.SignInPagesAreExact | middleware.ts:15-16 | "/login" and "/register" are public but a path below them is not |
| Middleware.PrivateNeedsToken | middleware.ts:25 | a non-public path is reachable with a token and refused without one |
| Upload.ValidateFile | app/components/FileUpload.tsx:64-86 | a file is accepted exactly when its type is one of the five and its size is at most 100 MiB; a rejection names the first failing check in the order prefix, size, whitelist |
| Upload.WhitelistIsVideo | app/components/FileUpload.tsx:68-83 | every whitelisted type passes the `video/` prefix check |
| Upload.SelectFile | app/components/FileUpload.tsx:88-96 | the validation result becomes the error; an accepted file is selected and previewed, a rejected one leaves the selection as it was |
| Upload.HandleUpload | app/components/FileUpload.tsx:168-188 | the guards run in order (file, trimmed title, trimmed description, validation) and the first failure sets its message and changes nothing else; the upload starts exactly when all pass, setting `uploading` and clearing error and progress |
| Upload.ResetUpload | app/components/FileUpload.tsx:118-130 | every field is back at its initial value |
| Upload.ShowUploadButton | app/components/FileUpload.tsx:446 | when the button is offered, pressing it starts the upload exactly when the selected file passes validation, and otherwise shows the validation's message |
| Upload.SizeLimitInclusive | app/components/FileUpload.tsx:73-76 | exactly 104857600 bytes is accepted and 104857601 is refused as too large |
| Upload.RejectionOrder | app/components/FileUpload.tsx:68-83 | an unlisted `video/` type is refused for size before format, and a non-video type is refused first whatever its size |
| Upload.SelectionStaysValid | app/components/FileUpload.tsx:88-130 | selecting files and resetting never leave an invalid file selected |
| Upload.ButtonStartsUpload | app/components/FileUpload.tsx:446 | pressing the upload button on a validated selection always starts the upload, which then hides the button |
| Upload.ResetNeedsNewFile | app/components/FileUpload.tsx:118-130 | after a reset there is no button, and a start attempt halts asking for a file |
| Reels.Clamp | app/components/ReelsView.tsx:93-100 | one step in the direction, but never below 0 and never past the last index |
| Reels.Wheel | app/components/ReelsView.tsx:80-101 | ignored while the gate is set; otherwise sets the gate and steps down for a positive `deltaY`, up for any other |
| Reels.Touch | app/components/ReelsView.tsx:104-130 | a move of at most 50 pixels, or one while the gate is set, changes nothing; a longer one sets the gate and steps down for an upward swipe, up otherwise |
| Reels.Key | app/components/ReelsView.tsx:155-170 | ArrowDown or space step down unless at the last video, ArrowUp steps up unless at the first, other keys do nothing, and the gate plays no part |
| Reels.SlidePosition | app/components/ReelsView.tsx:236-240 | a slide is on screen exactly when it is the current one, above exactly when earlier, below exactly when later |
| Reels.StepStaysInRange | app/components/ReelsView.tsx:80-170 | on a non-empty list every event keeps an in-range index in range and moves it by at most one |
| Reels.RunStaysInRange | app/components/ReelsView.tsx:80-170 | any sequence of events keeps the index in range and moves it by at most the number of events |
| Reels.ZeroDeltaMovesUp | app/components/ReelsView.tsx:91 | a zero `deltaY` scrolls up |
| Reels.GateAbsorbsBurst | app/components/ReelsView.tsx:83-85 | while the gate is set, any burst of wheel events leaves the navigation unchanged |
| Reels.OneSlideOnScreen | app/components/ReelsView.tsx:236-240 | exactly one slide is on screen, with every earlier slide above it |
| Feed.NewCount | app/page.tsx:56-65 | a like adds one to the count (a missing count counts as 0); an unlike subtracts one but never goes below zero |
| Feed.BeginLike | app/page.tsx:33-39 | nothing happens without a signed-in user or while the same id is in flight; otherwise the id joins the in-flight set |
| Feed.RecountVideos | app/page.tsx:56-65 | the list keeps its length, order and ids; only the videos carrying the id get the new count |
| Feed.FinishLike | app/page.tsx:41-76 | without a `liked` field, videos and liked set are unchanged; `liked` adds or removes the id and recounts; the id always leaves the in-flight set |
| Feed.LikedField | lib/api-action-helpers.ts:33-48 | the answer carries `liked` exactly when it is a toggle answer |
| Feed.IsLikedField | app/page.tsx:86-91 | only a like-check answer reads as liked, and then exactly when its `isLiked` is true; an error answer reads as not liked |
| Feed.RebuildLiked | app/page.tsx:98-100 | an id is in the rebuilt set exactly when some status carries it with `isLiked` true |
| Feed.CheckAll | app/page.tsx:83-96 | one status per video, absent exactly for videos without an id, otherwise the like check's answer for that id |
| Feed.CheckLikeStatuses | app/page.tsx:80-104 | for a signed-in user with a non-empty feed the liked set becomes exactly the liked statuses; otherwise nothing changes |
| Feed.BeginFinishRestoresInFlight | app/page.tsx:38-75 | a like request leaves the in-flight set as it found it, and a second one for the same id meanwhile is refused |
| Feed.RebuiltSetMatchesStore | app/page.tsx:80-104 | the rebuilt liked set is exactly the feed's non-empty ids that the caller has liked in the store |
| Feed.OptimisticCountMatchesServer | app/page.tsx:32-77 | when the feed showed the stored count, after a like the feed shows the count the store now holds, and marks the video liked exactly when the store holds the caller's like |
| TimeFormat.FormatTime | app/components/VideoPlayer.tsx:111-117 | a non-finite time shows "0:00"; a non-negative time shows minutes, a colon and two-digit seconds that read back as its whole seconds split at 60 |
| TimeFormat.ClockFields | app/components/VideoPlayer.tsx:114-115 | for t >= 0 the seconds field is below 60 and minutes times 60 plus seconds is floor(t) |
| TimeFormat.ParseShowClock | app/components/VideoPlayer.tsx:116 | the displayed string reads back as the minutes and the seconds it was built from |
| TimeFormat.SameDisplayIffSameSecond | app/components/VideoPlayer.tsx:111-117 | two non-negative times show the same string exactly when they agree on their whole seconds |
| TimeFormat.ExampleMinuteFive | app/components/VideoPlayer.tsx:111-117 | 65.7 seconds shows as "1:05" |
| TimeFormat.ExampleTenMinutes | app/components/VideoPlayer.tsx:111-117 | 600 seconds shows as "10:00" |

## Left out

- Network and database I/O, the database connection cache (lib/db.ts), and the JSON parsing of request bodies. Handlers take their parameters already parsed.
- next-auth session resolution and the JWT callbacks (lib/auth.ts). The session is given as `NoSession` or `Session(email)`.
- bcrypt. The hash is an arbitrary function parameter.
- Malformed ObjectIds. Casting one throws into the handler's error branch; ids here are arbitrary strings, and an unknown id is simply not found.
- `populate` projections of the comment listing's author and the follow/like documents' own `_id`s and timestamps: they add fields to answers but decide nothing.
- Concurrency and partial failure. The source writes the edge and the counters in separate, non-transactional steps. Each handler is one atomic step here, so a failure between those writes is not modelled.
- The catch branches of `GET /api/videos` and `GET /api/comment`. They fire only on a database fault, which the model has no way to raise. The other handlers' 500 branches are modelled where an insert can fail (schema validation, a used id, a unique index).
- `videosCount` on users. It is declared with default 0 and no handler updates it, so it is kept at 0 and has no invariant.
- Extra fields that the video upload body spreads into `Video.create`. The schema drops undeclared paths. A `createdAt` or `_id` in the body is covered by the `now` and `newId` parameters, which may take any value.
- Schema.CreateVideo: declares `likesCount` and `commentsCount` with default 0, as the corrected schema in "## Findings" does; models/video.ts:26-35 declares neither. An explicit null `controls` is treated as absent and becomes true, whereas the schema's default applies only to an undefined value and would keep null. The upload handler always passes a boolean (`?? true`), so no request reaches that case.
- Common.Trim and Common.Lower: ASCII only. The source's `trim` also removes the other Unicode space characters, and its `toLowerCase` maps all Unicode letters.
- TimeFormat.FormatTime: its contract covers non-finite and non-negative times only. For negative times the model computes the source's formula (floor of the quotient, truncating remainder) but states no display property. Numbers from 1e21 up, which JavaScript prints in exponent form, are shown as plain digits.
- RegisterRoute.Register: requires a non-empty id, which a generated ObjectId always is.
- CommentRoutes.CommentPostKeepsCounters, VideoRoutes.VideoPostKeepsCounters, RegisterRoute.RegisterKeepsCounters: require the new id to be unused anywhere in the store, as a freshly generated ObjectId is.
- Feed.IsLikedField: a network failure of the like check is folded into "not liked", as the source's catch does. Fetch failures of `likeVideo` are the error body without `liked`.
- The ImageKit upload, its signing route and the upload progress. Only the form's guards, validation and state resets are modelled; progress is reset to 0 and its percentages are not tracked.
- The 800 ms timer that clears the reels scrolling gate. The gate is a boolean that the model never clears; an event sequence models the gate staying set.
- Rendering, animation and DOM behaviour (video playback, observers, object URLs), and the UI-only components.
- The middleware's route matcher (middleware.ts:41). The predicate is modelled for every path.

## Findings

| source | as written | input that shows it | evidently intended | confidence | as-written member | corrected member |
|---|---|---|---|---|---|---|
| app/api/auth/register/route.ts:32-35 | `User.create` receives only `email` and `password`, but the user schema requires `username` (models/user.ts:29), so validation throws and the handler answers 500 | any new email with a password, e.g. `{ "email": "a@b.c", "password": "secret1" }` on an empty store | pass the body's `username` as well, so a valid registration answers 201 | medium, not executed | RegisterRoute.AsWrittenNeverRegisters | RegisterRoute.RegisterSucceedsIff |
| models/video.ts:26-35 | the video schema declares neither `likesCount` nor `commentsCount`, so under the default strict mode the like and comment handlers' `$inc` updates of them are dropped and the stored counts never move | a store with one video whose counts are 0 and no likes; one `POST /api/like` with its `videoId` adds the like edge while `likesCount` stays 0 | declare both counters with default 0, so each update moves the count with its edges | medium, not executed; assumes the default strict mode and that the installed store library drops updates of undeclared paths | VideoCounters.AsWrittenCountDrifts | VideoCounters.CorrectedLikeIsToggle |
