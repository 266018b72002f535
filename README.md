# Testimonial store, route gate and collector helpers, in Dafny

This project models the core of a testimonial-collection service. Owners sign
in and create *spaces*. Visitors submit *testimonials* to a space through a
public collector form. Owners publish chosen testimonials, and a public *wall*
and a REST endpoint show the published ones, newest first.

What is modelled:

- `schema.dfy` (module `Schema`): the `space` and `testimonial` tables as
  records, with their NOT NULL and nullable columns, defaults, primary keys and
  cascading foreign keys. The database is a pair of maps from primary key to
  row. `WellFormed` states referential integrity. `DeleteSpaceCascade` and
  `DeleteUserCascade` give the effect of `ON DELETE CASCADE`. Fresh ids come
  from a counter of issued ids.
- `listing.dfy` (module `Listing`): the one query behind the wall and the REST
  endpoint. It keeps the published testimonials of one space and orders them
  by `createdAt` descending, using an insertion sort whose contract is
  "newest first and a permutation".
- `space_router.dfy` (module `SpaceRouter`): the nine procedures of the space
  router. `getOne`, `getAll`, `getWall` and `getCollectorConfig` are functions
  of the database contents. `create`, `delete`, `createTestimonial`, `edit` and
  `publishTestimonial` are methods of class `Store`, which holds the two
  tables as map fields and keeps `Valid()` (integrity, primary keys, issued
  ids). Every method also keeps `LifecycleStep`: a new testimonial starts
  unpublished, and an existing one either stays as it is or only becomes
  published.
- `testimonials_route.dfy` (module `TestimonialsRoute`): `GET` of the public
  REST endpoint, as a function of the testimonial rows and the `spaceId` query
  parameter.
- `middleware.dfy` (module `Middleware`): the route gate, as a function from
  "has a session cookie" and the path to redirect-to-dashboard,
  redirect-to-login or pass.
- `collector_form.dfy` (module `CollectorForm`): the collector form as a class
  with its two text fields, the submit handler (trim, check, send) and the
  success and error handlers.
- `testimonial_card.dfy` (module `TestimonialCard`): the display handle taken
  from the social URL (`split("/")` then `pop()`) and the avatar's fallback
  initial.

Three behaviours are modelled as the code has them:

- `create` accepts an empty name and custom message, because the input
  schema is a plain `z.string()`.
- `delete` and `publishTestimonial` check that the caller is signed in and
  that the row exists. They do not check that the caller owns it.
- `edit` on a missing or foreign space changes nothing and reports success,
  not NOT_FOUND.

Each of these is stated in the corresponding method's contract.

Session lookup, the clock, id generation and URL syntax are inputs:

- The session is an optional user id. A missing id and an empty id both count
  as signed out, as the `!userId` test in `space.ts` does.
- Timestamps are a `now: nat` argument.
- URL validity is a predicate argument `isUrl`.

`SpaceRouter.Lifecycle` is a worked example, not a model of one source
function: it creates a space, submits a testimonial, checks that the wall is
empty before publication and shows the testimonial on the wall after it.

## Model

| member | source | states |
|---|---|---|
| Schema.InsertedRow | src/server/db/schema/space.ts:12-24 | a new testimonial row has NULL imageUrl/position/companyName unless given, both timestamps equal to the insert time, and isPublished false |
| Schema.DeleteSpaceCascade | src/server/db/schema/space.ts:25-29 | deleting a space removes it and every testimonial referencing it, keeps every other row unchanged, leaves only original rows, and preserves referential integrity |
| Schema.DeleteUserCascade | src/server/db/schema/space.ts:56-60 | deleting a user removes all of that user's spaces, keeps every other space, keeps only original testimonial rows, and preserves referential integrity |
| Schema.DeleteUserRemovesTestimonials | src/server/db/schema/space.ts:56-60 | after a user is deleted no testimonial of any of that user's spaces remains |
| Schema.DeleteUserKeepsOtherTestimonials | src/server/db/schema/space.ts:25-29 | a testimonial survives a user's deletion exactly when its space's owner is someone else |
| Schema.FreshId | src/server/db/schema/space.ts:9-11 | the n-th generated id is longer than every id issued before it |
| Schema.FreshIdIsUnused | src/server/db/schema/space.ts:44-46 | the next generated id is not a key of either table, so primary keys stay unique |
| Listing.PublishedOf | src/app/api/testimonials/route.ts:17-19 | the result holds exactly the rows with the requested spaceId and isPublished true, each as often as in the table |
| Listing.Insert | src/app/api/testimonials/route.ts:20 | inserting into a newest-first sequence keeps it newest-first and adds exactly that row |
| Listing.PrependNewest | src/app/api/testimonials/route.ts:20 | a row at least as new as every row of a newest-first sequence may be put in front |
| Listing.SortNewestFirst | src/app/api/testimonials/route.ts:20 | the result is ordered by createdAt descending and is a permutation of the input |
| Listing.Listed | src/app/api/testimonials/route.ts:17-21 | the listing is newest-first and holds exactly the published rows of the space with their multiplicities |
| Listing.ListedEmpty | src/app/api/testimonials/route.ts:17-24 | when no row is a published row of the space, the listing is empty |
| Listing.LaterComesFirst | src/server/api/routers/space.ts:144 | of two listed rows with different creation times the newer one comes first |
| SpaceRouter.CallerId | src/server/api/routers/space.ts:18-21 | a caller is identified only by a present, non-empty session user id |
| SpaceRouter.TestimonialsOf | src/server/api/routers/space.ts:34-36 | the related testimonials of a space are exactly the rows whose spaceId is that space, published or not |
| SpaceRouter.GetOne | src/server/api/routers/space.ts:29-43 | NOT_FOUND exactly for an unknown id; otherwise the space row with all its testimonials, published or not |
| SpaceRouter.GetAll | src/server/api/routers/space.ts:44-59 | UNAUTHORIZED exactly when signed out; otherwise exactly the spaces whose userId is the caller, each with all its testimonials |
| SpaceRouter.GetWall | src/server/api/routers/space.ts:134-155 | NOT_FOUND exactly for an unknown space; otherwise the space row with exactly its published testimonials, newest first |
| SpaceRouter.GetCollectorConfig | src/server/api/routers/space.ts:157-180 | NOT_FOUND exactly for an unknown space; otherwise only its name, logo and customMessage |
| SpaceRouter.WallIsPublishedPartOfDetail | src/server/api/routers/space.ts:139-147 | a testimonial is on the wall exactly when getOne lists it for that space and it is published |
| SpaceRouter.GetAllAgreesWithGetOne | src/server/api/routers/space.ts:51-56 | every space getAll returns is found by getOne with the same detail |
| SpaceRouter.Edited | src/server/api/routers/space.ts:125-132 | an edit sets name and customMessage, sets logo only when one is given, and leaves id, owner and timestamps alone |
| SpaceRouter.LifecycleStepKeepsPublished | src/server/api/routers/space.ts:194-199 | a step that follows the testimonial lifecycle never unpublishes a testimonial |
| SpaceRouter.Store.constructor | src/server/db/schema/space.ts:6-67 | an empty database is valid |
| SpaceRouter.Store.NewId | src/server/db/schema/space.ts:9-11 | the generator returns an id that no row of either table has and keeps the store valid |
| SpaceRouter.Store.Create | src/server/api/routers/space.ts:9-28 | UNAUTHORIZED when signed out and BAD_REQUEST for an invalid logo URL, both with no change; otherwise adds exactly one space, under a fresh id, owned by the caller with the given name, customMessage and logo; no other row changes |
| SpaceRouter.Store.Delete | src/server/api/routers/space.ts:60-76 | UNAUTHORIZED when signed out and NOT_FOUND for an unknown id, both with no change; otherwise the cascade delete of that space, whoever owns it |
| SpaceRouter.Store.CreateTestimonial | src/server/api/routers/space.ts:77-110 | BAD_REQUEST with no insert for empty text or authorName, an invalid image URL or an unknown space; otherwise adds exactly one unpublished testimonial under a fresh id, with socialUrl "" when none is given; spaces unchanged |
| SpaceRouter.Store.Edit | src/server/api/routers/space.ts:111-133 | UNAUTHORIZED when signed out; otherwise success, updating only the space that matches both the id and the caller, and changing nothing for a missing or foreign space |
| SpaceRouter.Store.PublishTestimonial | src/server/api/routers/space.ts:181-203 | UNAUTHORIZED when signed out and NOT_FOUND for an unknown id, both with no change; otherwise sets isPublished on that row only and returns it, whoever owns the space; on an already published row nothing changes |
| SpaceRouter.PublishTwice | src/server/api/routers/space.ts:188-202 | publishing the same testimonial twice succeeds both times with the same row, the old row with isPublished set, and leaves the store as one publish does |
| SpaceRouter.NothingPublishedEmptyWall | src/server/api/routers/space.ts:142-145 | while no testimonial is published every existing space's wall is empty |
| TestimonialsRoute.Get | src/app/api/testimonials/route.ts:3-24 | 400 "Space ID is required" exactly when spaceId is missing or empty; otherwise 200 with exactly the published testimonials of that space, newest first |
| TestimonialsRoute.MissingSpaceIdIgnoresTable | src/app/api/testimonials/route.ts:6-16 | without a spaceId the answer does not depend on the table, so no query is needed |
| TestimonialsRoute.UnknownSpaceIsEmpty | src/app/api/testimonials/route.ts:17-24 | for an unknown spaceId the endpoint answers 200 with an empty list where getWall answers NOT_FOUND |
| TestimonialsRoute.AgreesWithWall | src/app/api/testimonials/route.ts:17-21 | for an existing space the endpoint lists the same testimonials in the same order as getWall |
| Middleware.Decide | src/middleware.ts:9-36 | every path gets one outcome; a redirect to "/dashboard" happens only with a session and a redirect to "/login" only without one |
| Middleware.SignedInRedirectsOnlyAuthPages | src/middleware.ts:14-16 | with a session exactly "/login" and "/signup" are redirected, to "/dashboard", and every other path passes |
| Middleware.ProtectedPrefixRedirects | src/middleware.ts:19-21 | without a session every path starting with "/dashboard" or "/sandbox" is redirected to "/login" |
| Middleware.ProtectedPrefixIsEither | src/middleware.ts:5 | the prefix test holds exactly for paths starting with "/dashboard" or "/sandbox" |
| Middleware.OneSegmentIsNeverUnderSpaces | src/middleware.ts:24-26 | a path matching the one-segment pattern never starts with "/spaces/", so that exclusion never changes the outcome |
| Middleware.OneSegmentRedirects | src/middleware.ts:23-33 | without a session a one-segment path other than "/login" and "/signup" is redirected to "/login" |
| Middleware.AuthPagesPassWithoutSession | src/middleware.ts:6 | without a session "/login" and "/signup" pass |
| Middleware.AnonymousRedirectIff | src/middleware.ts:19-33 | without a session a path is redirected to "/login" exactly when it starts with a protected prefix or is a one-segment path that is not a public root path |
| Middleware.MultiSegmentPasses | src/middleware.ts:23-35 | a path with a "/" after its first character and outside the protected prefixes passes, with or without a session |
| Middleware.CollectorPagePasses | src/middleware.ts:23-35 | "/spaces/<id>/collector" passes for every id, with or without a session |
| CollectorForm.TrimStart | src/components/spaces/collector-form.tsx:43 | the result is a suffix of the input that starts with a non-whitespace character or is empty, and only whitespace was dropped |
| CollectorForm.TrimEnd | src/components/spaces/collector-form.tsx:43 | the result is a prefix of the input that ends with a non-whitespace character or is empty, and only whitespace was dropped |
| CollectorForm.Trim | src/components/spaces/collector-form.tsx:43 | the input is a run of whitespace, then the trimmed string, then another run of whitespace |
| CollectorForm.TrimEdges | src/components/spaces/collector-form.tsx:43 | a trimmed string is empty or begins and ends with a non-whitespace character, so with Trim it is the input less its leading and trailing whitespace |
| CollectorForm.TrimEmptyIffBlank | src/components/spaces/collector-form.tsx:43 | a field trims to "" exactly when it holds only whitespace |
| CollectorForm.TrimIdempotent | src/components/spaces/collector-form.tsx:49-50 | trimming an already trimmed field changes nothing |
| CollectorForm.Form.constructor | src/components/spaces/collector-form.tsx:16-17 | both fields start as "" |
| CollectorForm.Form.ChangeAuthorName | src/components/spaces/collector-form.tsx:69 | typing in the name input sets authorName |
| CollectorForm.Form.ChangeText | src/components/spaces/collector-form.tsx:81 | typing in the testimonial input sets text |
| CollectorForm.Form.HandleSubmit | src/components/spaces/collector-form.tsx:41-52 | nothing is sent exactly when either field is blank; otherwise the space id with both fields trimmed is sent, and both are non-empty |
| CollectorForm.Form.OnSuccess | src/components/spaces/collector-form.tsx:21-29 | after a successful submission both fields are "" |
| CollectorForm.Form.OnError | src/components/spaces/collector-form.tsx:30-37 | after a failed submission both fields keep what was typed |
| CollectorForm.SubmissionPassesServerCheck | src/components/spaces/collector-form.tsx:47-51 | what the form sends always passes createTestimonial's non-empty input check |
| TestimonialCard.Split | src/components/spaces/testimonial-card.tsx:24 | a split always has at least one piece |
| TestimonialCard.Cons | src/components/spaces/testimonial-card.tsx:24 | one scanning step of split keeps at least one piece |
| TestimonialCard.ConsAppend | src/components/spaces/testimonial-card.tsx:24 | a scanning step of split touches only the first piece |
| TestimonialCard.PiecesHaveNoSep | src/components/spaces/testimonial-card.tsx:24 | no piece of a split contains the separator |
| TestimonialCard.JoinSplit | src/components/spaces/testimonial-card.tsx:24 | joining the pieces of a split with the separator gives back the string |
| TestimonialCard.SplitJoin | src/components/spaces/testimonial-card.tsx:24 | splitting the join of separator-free pieces gives back the pieces |
| TestimonialCard.SplitWithoutSep | src/components/spaces/testimonial-card.tsx:24 | a string without the separator splits into itself alone |
| TestimonialCard.SplitCons | src/components/spaces/testimonial-card.tsx:24 | splitting a string with one more leading character is one scanning step on the split of the rest |
| TestimonialCard.SplitAround | src/components/spaces/testimonial-card.tsx:24 | splitting a + sep + b gives the pieces of a followed by the pieces of b |
| TestimonialCard.SplitAroundStep | src/components/spaces/testimonial-card.tsx:24 | the inductive step of SplitAround for a first part with one more leading character |
| TestimonialCard.LastPart | src/components/spaces/testimonial-card.tsx:24 | the last piece of a split contains no separator |
| TestimonialCard.DisplayHandle | src/components/spaces/testimonial-card.tsx:23-25 | no handle exactly for an empty social URL; otherwise "@" followed by text without "/" |
| TestimonialCard.DisplayHandleAfterLastSlash | src/components/spaces/testimonial-card.tsx:24 | for a URL whose last "/" is followed by h the handle is "@" + h, so a URL ending in "/" gives "@" |
| TestimonialCard.DisplayHandleWithoutSlash | src/components/spaces/testimonial-card.tsx:24 | a URL without "/" gives "@" followed by the whole URL |
| TestimonialCard.UpperAscii | src/components/spaces/testimonial-card.tsx:41 | an ASCII lower-case letter becomes its upper-case letter; every other character is unchanged |
| TestimonialCard.AvatarInitial | src/components/spaces/testimonial-card.tsx:41 | "" exactly for an empty name; otherwise the name's first character upper-cased |

## Left out

- The ORM, SQL and the Postgres driver are replaced by two in-memory maps. The cuid2 generator is a counter of issued ids. `CURRENT_TIMESTAMP` is a `now` argument.
- SpaceRouter.Store.Create: returns the new space's id rather than the driver's raw insert result; `createTestimonial`, `delete` and `edit` likewise return the new id or `()` in place of driver results.
- SpaceRouter.Store.CreateTestimonial: the `catch` that turns a failed insert into BAD_REQUEST (space.ts:106-109) is not modelled; in the model the insert cannot fail once the space exists and the id is fresh, and a concurrent delete between the check and the insert is out of scope.
- Zod validation other than `min(1)` and the URL checks is left to the types; URL syntax is the `isUrl` argument, not a URL parser.
- The `protectedProcedure` middleware (`../trpc`) is not part of this model. The model assumes that this middleware rejects a signed-out caller with UNAUTHORIZED before the input parser runs. The handlers' own `!userId` checks sit in the resolvers, which tRPC runs after the parser, so this assumption is what puts UNAUTHORIZED ahead of the logo URL check in `Store.Create` and ahead of any input error in the other protected procedures.
- The `user` table belongs to the authentication schema and is not part of this model. Its foreign key appears only as the cascade `DeleteUserCascade`; that a space's userId names an existing user is not checked.
- SpaceRouter.GetWall: is a ghost function because the rows of a map have no built-in order. The order of testimonials with equal `createdAt` is left unspecified, as in the database.
- The REST endpoint's 500 path and error-message forwarding (route.ts:25-35), all `console` logging, and datastore failures.
- The middleware's `matcher` configuration; the session cookie is reduced to "present or not".
- `window.parent.postMessage`, toasts, and the inputs being disabled while a submission is pending.
- `photoBase64` in the card does not exist in the schema and is ignored, so the avatar image is not modelled.
- TestimonialsRoute.AgreesWithWall: in the model both listings sort the one shared enumeration `Rows` of the table, so rows with equal createdAt come out in the same order in both; the two source queries (route.ts:17-21 and space.ts:139-147) promise only the same rows, newest first, and not that tie order.
- TestimonialCard.AvatarInitial: upper-cases ASCII letters only; `toUpperCase` on other characters (for example "ß" to "SS") is not modelled. It also takes the first Unicode character, where `charAt(0)` takes the first UTF-16 code unit: for a name starting with a character outside the Basic Multilingual Plane (an emoji, say) the source shows a lone surrogate and the model the whole character.
- CollectorForm.SubmissionPassesServerCheck: the form submits through an `orpc.space.createTestimonial` client whose server procedure is not part of this model; the lemma assumes that endpoint applies the same `min(1)` checks on text and authorName as the tRPC router's `createTestimonial` (space.ts:81-82).
- TestimonialCard.Split: works on Unicode characters, while JavaScript strings are UTF-16; a character outside the Basic Multilingual Plane is one character here and two code units there.
- CollectorForm.Trim: uses the ECMAScript whitespace and line-terminator characters as a fixed list.
- No procedure sets `position` or `companyName`, so they stay NULL on every row the model inserts.
- Rate limiting does not appear in the router and is not modelled.
