/** The space router (src/server/api/routers/space.ts): the read queries as
    functions of the database contents and the mutations as methods of a
    store object that holds the two tables. */
module SpaceRouter {
  import opened Schema
  import Listing

  /** The tRPC error codes the procedures raise. */
  datatype ErrorCode = Unauthorized | NotFound | BadRequest

  datatype Result<+T> = Ok(value: T) | Err(code: ErrorCode)

  /** `ctx.session?.user.id` checked for truthiness: no session and an empty
      user id both leave the caller anonymous. */
  function CallerId(session: Option<UserId>): (r: Option<UserId>)
    ensures r.Some? ==> session == r && r.value != ""
    ensures r.None? ==> session.None? || session.value == ""
  {
    if session.Some? && session.value != "" then session else None
  }

  /** A space together with its related testimonials (`with: { testimonials: true }`). */
  datatype SpaceDetail = SpaceDetail(space: Space, testimonials: map<Id, Testimonial>)

  /** What the wall receives: the space row and its published testimonials,
      newest first. */
  datatype Wall = Wall(space: Space, testimonials: seq<Testimonial>)

  /** The columns `getCollectorConfig` selects. */
  datatype CollectorConfig = CollectorConfig(name: string, logo: Option<string>, customMessage: string)

  /** The testimonial rows related to space `id`, published or not. */
  function TestimonialsOf(db: Tables, id: Id): (r: map<Id, Testimonial>)
    ensures forall k :: k in r <==> k in db.testimonials && db.testimonials[k].spaceId == id
    ensures forall k :: k in r ==> r[k] == db.testimonials[k]
  {
    map k | k in db.testimonials && db.testimonials[k].spaceId == id :: db.testimonials[k]
  }

  /** `getOne`: public; the space with every one of its testimonials, or
      NOT_FOUND. */
  function GetOne(db: Tables, id: Id): (r: Result<SpaceDetail>)
    ensures r.Err? <==> id !in db.spaces
    ensures r.Err? ==> r.code == NotFound
    ensures r.Ok? ==> r.value.space == db.spaces[id]
    ensures r.Ok? ==> forall k :: k in r.value.testimonials <==>
      k in db.testimonials && db.testimonials[k].spaceId == id
    ensures r.Ok? ==> forall k :: k in r.value.testimonials ==> r.value.testimonials[k] == db.testimonials[k]
  {
    if id !in db.spaces then Err(NotFound)
    else Ok(SpaceDetail(db.spaces[id], TestimonialsOf(db, id)))
  }

  /** `getAll`: the caller's own spaces, each with all its testimonials. */
  function GetAll(db: Tables, session: Option<UserId>): (r: Result<map<Id, SpaceDetail>>)
    ensures r.Err? <==> CallerId(session).None?
    ensures r.Err? ==> r.code == Unauthorized
    ensures r.Ok? ==> forall k :: k in r.value <==>
      k in db.spaces && db.spaces[k].userId == CallerId(session).value
    ensures r.Ok? ==> forall k :: k in r.value ==>
      r.value[k].space == db.spaces[k] && r.value[k].testimonials == TestimonialsOf(db, k)
  {
    match CallerId(session)
    case None => Err(Unauthorized)
    case Some(u) =>
      Ok(map k | k in db.spaces && db.spaces[k].userId == u :: SpaceDetail(db.spaces[k], TestimonialsOf(db, k)))
  }

  /** `getWall`: public; the space with only its published testimonials,
      newest first, or NOT_FOUND. */
  ghost function GetWall(db: Tables, spaceId: Id): (r: Result<Wall>)
    ensures r.Err? <==> spaceId !in db.spaces
    ensures r.Err? ==> r.code == NotFound
    ensures r.Ok? ==> r.value.space == db.spaces[spaceId]
    ensures r.Ok? ==> Listing.NewestFirst(r.value.testimonials)
    ensures r.Ok? ==> forall t :: t in r.value.testimonials <==>
      t in db.testimonials.Values && t.spaceId == spaceId && t.isPublished
  {
    if spaceId !in db.spaces then Err(NotFound)
    else Ok(Wall(db.spaces[spaceId], Listing.Listed(Rows(db.testimonials), spaceId)))
  }

  /** `getCollectorConfig`: public; name, logo and customMessage of the space
      and nothing else, or NOT_FOUND. */
  function GetCollectorConfig(db: Tables, spaceId: Id): (r: Result<CollectorConfig>)
    ensures r.Err? <==> spaceId !in db.spaces
    ensures r.Err? ==> r.code == NotFound
    ensures r.Ok? ==> r.value.name == db.spaces[spaceId].name
    ensures r.Ok? ==> r.value.logo == db.spaces[spaceId].logo
    ensures r.Ok? ==> r.value.customMessage == db.spaces[spaceId].customMessage
  {
    if spaceId !in db.spaces then Err(NotFound)
    else
      var s := db.spaces[spaceId];
      Ok(CollectorConfig(s.name, s.logo, s.customMessage))
  }

  /** The wall of a space is exactly the published part of what `getOne`
      returns for it. */
  lemma WallIsPublishedPartOfDetail(db: Tables, spaceId: Id, t: Testimonial)
    requires spaceId in db.spaces
    ensures t in GetWall(db, spaceId).value.testimonials <==>
      t in GetOne(db, spaceId).value.testimonials.Values && t.isPublished
  {
    var d := GetOne(db, spaceId).value.testimonials;
    if t in d.Values {
      var k :| k in d && d[k] == t;
      assert t in db.testimonials.Values by { assert db.testimonials[k] == t; }
    }
    if t in db.testimonials.Values && t.spaceId == spaceId {
      var k :| k in db.testimonials && db.testimonials[k] == t;
      assert d[k] == t;
    }
  }

  /** Every space `getAll` lists is one `getOne` finds, with the same detail. */
  lemma GetAllAgreesWithGetOne(db: Tables, session: Option<UserId>, k: Id)
    requires GetAll(db, session).Ok? && k in GetAll(db, session).value
    ensures GetOne(db, k) == Ok(GetAll(db, session).value[k])
  {
  }

  /** The fields the edit form may change. A logo left undefined is skipped by
      the update, so the stored logo stays. */
  function Edited(s: Space, name: string, customMessage: string, logo: Option<string>): (r: Space)
    ensures r.name == name && r.customMessage == customMessage
    ensures r.logo == if logo.Some? then logo else s.logo
    ensures r.id == s.id && r.userId == s.userId && r.createdAt == s.createdAt && r.updatedAt == s.updatedAt
  {
    s.(name := name, customMessage := customMessage, logo := if logo.Some? then logo else s.logo)
  }

  /** The server-side input check of `createTestimonial`: `min(1)` on text and
      authorName, and a URL check on a supplied imageUrl. */
  predicate TestimonialInputValid(text: string, authorName: string, imageUrl: Option<string>, isUrl: string -> bool) {
    |text| >= 1 && |authorName| >= 1 && (imageUrl.None? || isUrl(imageUrl.value))
  }

  /** The lifecycle of a testimonial across one step of the store: a new row
      starts unpublished; an existing row either stays as it was or only
      becomes published. */
  predicate LifecycleStep(before: Tables, after: Tables) {
    forall k :: k in after.testimonials ==>
      if k in before.testimonials then
        after.testimonials[k] == before.testimonials[k]
        || after.testimonials[k] == before.testimonials[k].(isPublished := true)
      else !after.testimonials[k].isPublished
  }

  /** Steps that respect the lifecycle never unpublish a testimonial. */
  lemma LifecycleStepKeepsPublished(before: Tables, after: Tables, k: Id)
    requires LifecycleStep(before, after)
    requires k in before.testimonials && k in after.testimonials && before.testimonials[k].isPublished
    ensures after.testimonials[k].isPublished
  {
  }

  /** The database behind the router: the two tables and the id generator. */
  class Store {
    var spaces: map<Id, Space>
    var testimonials: map<Id, Testimonial>
    /** How many ids the generator has handed out. */
    var issued: nat

    function State(): Tables
      reads this
    {
      Tables(spaces, testimonials)
    }

    /** Primary keys, the foreign key, and every key already issued. */
    ghost predicate Valid()
      reads this
    {
      WellFormed(State()) && IssuedBefore(State(), issued)
    }

    constructor ()
      ensures Valid()
      ensures spaces == map[] && testimonials == map[]
    {
      spaces, testimonials, issued := map[], map[], 0;
    }

    /** The generator: an id no row of either table has. */
    method NewId() returns (id: Id)
      requires Valid()
      modifies this`issued
      ensures Valid()
      ensures id !in spaces && id !in testimonials
      ensures forall k :: k in spaces ==> |k| < |id|
      ensures forall k :: k in testimonials ==> |k| < |id|
      ensures |id| <= issued
    {
      FreshIdIsUnused(State(), issued);
      id := FreshId(issued);
      issued := issued + 1;
    }

    /** `create`: inserts a space owned by the caller. */
    method Create(session: Option<UserId>, name: string, customMessage: string, logo: Option<string>,
                  isUrl: string -> bool, now: Timestamp) returns (r: Result<Id>)
      requires Valid()
      modifies this
      ensures Valid() && LifecycleStep(old(State()), State())
      ensures CallerId(session).None? ==> r == Err(Unauthorized)
      ensures CallerId(session).Some? && logo.Some? && !isUrl(logo.value) ==> r == Err(BadRequest)
      ensures CallerId(session).Some? && (logo.None? || isUrl(logo.value)) ==> r.Ok?
      ensures r.Err? ==> State() == old(State())
      ensures r.Ok? ==> r.value !in old(spaces) && testimonials == old(testimonials)
      ensures r.Ok? ==>
        spaces == old(spaces)[r.value := Space(r.value, name, customMessage, logo, now, now, CallerId(session).value)]
    {
      var caller := CallerId(session);
      if caller.None? {
        return Err(Unauthorized);
      }
      if logo.Some? && !isUrl(logo.value) {
        return Err(BadRequest);
      }
      var id := NewId();
      spaces := spaces[id := Space(id, name, customMessage, logo, now, now, caller.value)];
      r := Ok(id);
    }

    /** `delete`: removes a space by id, cascading to its testimonials. The
        caller must be signed in but need not own the space. */
    method Delete(session: Option<UserId>, id: Id) returns (r: Result<()>)
      requires Valid()
      modifies this
      ensures Valid() && LifecycleStep(old(State()), State())
      ensures CallerId(session).None? ==> r == Err(Unauthorized)
      ensures CallerId(session).Some? && id !in old(spaces) ==> r == Err(NotFound)
      ensures CallerId(session).Some? && id in old(spaces) ==> r.Ok?
      ensures r.Err? ==> State() == old(State())
      ensures r.Ok? ==> State() == DeleteSpaceCascade(old(State()), id)
    {
      if CallerId(session).None? {
        return Err(Unauthorized);
      }
      if id !in spaces {
        return Err(NotFound);
      }
      var db := DeleteSpaceCascade(State(), id);
      spaces, testimonials := db.spaces, db.testimonials;
      r := Ok(());
    }

    /** `createTestimonial`: public; validates the input, checks that the
        space exists, then inserts an unpublished testimonial. */
    method CreateTestimonial(spaceId: Id, text: string, authorName: string, socialUrl: Option<string>,
                             imageUrl: Option<string>, isUrl: string -> bool, now: Timestamp)
      returns (r: Result<Id>)
      requires Valid()
      modifies this
      ensures Valid() && LifecycleStep(old(State()), State())
      ensures !TestimonialInputValid(text, authorName, imageUrl, isUrl) ==> r == Err(BadRequest)
      ensures spaceId !in old(spaces) ==> r == Err(BadRequest)
      ensures TestimonialInputValid(text, authorName, imageUrl, isUrl) && spaceId in old(spaces) ==> r.Ok?
      ensures r.Err? ==> State() == old(State())
      ensures r.Ok? ==> r.value !in old(testimonials) && spaces == old(spaces)
      ensures r.Ok? ==>
        var social := if socialUrl.Some? then socialUrl.value else "";
        testimonials == old(testimonials)[r.value := InsertedRow(r.value, NewTestimonial(spaceId, text, authorName, social, imageUrl), now)]
    {
      if !TestimonialInputValid(text, authorName, imageUrl, isUrl) {
        return Err(BadRequest);
      }
      if spaceId !in spaces {
        return Err(BadRequest);
      }
      var id := NewId();
      var social := if socialUrl.Some? then socialUrl.value else "";
      testimonials := testimonials[id := InsertedRow(id, NewTestimonial(spaceId, text, authorName, social, imageUrl), now)];
      r := Ok(id);
    }

    /** `edit`: updates the space matching both the id and the caller. A
        missing or foreign space matches no row: nothing changes and no error
        is raised. */
    method Edit(session: Option<UserId>, id: Id, name: string, customMessage: string, logo: Option<string>)
      returns (r: Result<()>)
      requires Valid()
      modifies this
      ensures Valid() && LifecycleStep(old(State()), State())
      ensures r.Err? <==> CallerId(session).None?
      ensures r.Err? ==> r.code == Unauthorized
      ensures testimonials == old(testimonials)
      ensures CallerId(session).Some? && id in old(spaces) && old(spaces)[id].userId == CallerId(session).value ==>
        spaces == old(spaces)[id := Edited(old(spaces)[id], name, customMessage, logo)]
      ensures !(CallerId(session).Some? && id in old(spaces) && old(spaces)[id].userId == CallerId(session).value) ==>
        spaces == old(spaces)
    {
      var caller := CallerId(session);
      if caller.None? {
        return Err(Unauthorized);
      }
      if id in spaces && spaces[id].userId == caller.value {
        spaces := spaces[id := Edited(spaces[id], name, customMessage, logo)];
      }
      r := Ok(());
    }

    /** `publishTestimonial`: sets isPublished on an existing testimonial and
        returns the updated row. The caller must be signed in but need not own
        the testimonial's space. */
    method PublishTestimonial(session: Option<UserId>, id: Id) returns (r: Result<Testimonial>)
      requires Valid()
      modifies this
      ensures Valid() && LifecycleStep(old(State()), State())
      ensures CallerId(session).None? ==> r == Err(Unauthorized)
      ensures CallerId(session).Some? && id !in old(testimonials) ==> r == Err(NotFound)
      ensures CallerId(session).Some? && id in old(testimonials) ==> r.Ok?
      ensures r.Err? ==> State() == old(State())
      ensures r.Ok? ==> r.value == old(testimonials)[id].(isPublished := true)
      ensures r.Ok? ==> spaces == old(spaces) && testimonials == old(testimonials)[id := r.value]
      ensures r.Ok? && old(testimonials)[id].isPublished ==> State() == old(State())
    {
      if CallerId(session).None? {
        return Err(Unauthorized);
      }
      if id !in testimonials {
        return Err(NotFound);
      }
      var updated := testimonials[id].(isPublished := true);
      testimonials := testimonials[id := updated];
      r := Ok(updated);
    }
  }

  /** Publishing twice leaves the store as publishing once does, and the
      second call succeeds with the same row. */
  method PublishTwice(store: Store, session: Option<UserId>, id: Id) returns (first: Result<Testimonial>, second: Result<Testimonial>)
    requires store.Valid()
    requires CallerId(session).Some? && id in store.testimonials
    modifies store
    ensures store.Valid()
    ensures first.Ok? && second == first && first.value.isPublished
    ensures first.value == old(store.testimonials[id]).(isPublished := true)
    ensures store.spaces == old(store.spaces)
    ensures store.testimonials == old(store.testimonials)[id := first.value]
  {
    first := store.PublishTestimonial(session, id);
    second := store.PublishTestimonial(session, id);
  }

  /** While no testimonial is published, every wall is empty. */
  lemma NothingPublishedEmptyWall(db: Tables, spaceId: Id)
    requires spaceId in db.spaces
    requires forall t :: t in db.testimonials.Values ==> !t.isPublished
    ensures GetWall(db, spaceId).value.testimonials == []
  {
  }

  /** A walk through the lifecycle: a submitted testimonial stays off the
      wall until it is published, and then appears on it. */
  method Lifecycle(owner: UserId, name: string, customMessage: string, authorName: string, text: string,
                   isUrl: string -> bool)
    requires owner != "" && authorName != "" && text != ""
  {
    var store := new Store();
    var s := store.Create(Some(owner), name, customMessage, None, isUrl, 1);
    var sid := s.value;
    var t := store.CreateTestimonial(sid, text, authorName, None, None, isUrl, 2);
    var tid := t.value;
    var submitted := store.State();
    var p := store.PublishTestimonial(Some(owner), tid);
    var published := store.State();
    assert submitted.testimonials.Values == {submitted.testimonials[tid]};
    NothingPublishedEmptyWall(submitted, sid);
    var shown := published.testimonials[tid];
    assert shown.isPublished && shown.authorName == authorName;
    assert shown in published.testimonials.Values;
    assert shown in GetWall(published, sid).value.testimonials;
  }
}
