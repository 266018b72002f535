/** The public REST endpoint `GET /api/testimonials?spaceId=<id>`
    (src/app/api/testimonials/route.ts). */
module TestimonialsRoute {
  import opened Schema
  import Listing
  import SpaceRouter

  datatype Body = Error(error: string) | Testimonials(testimonials: seq<Testimonial>)

  datatype Response = Response(status: nat, body: Body)

  const SpaceIdRequired := "Space ID is required"

  /** `GET`: the query parameter is absent or empty, a 400; otherwise the
      published testimonials of that space, newest first. `rows` is the whole
      testimonial table. */
  function Get(rows: seq<Testimonial>, spaceId: Option<string>): (r: Response)
    ensures r.status == 400 <==> spaceId.None? || spaceId.value == ""
    ensures r.status == 400 ==> r.body == Error(SpaceIdRequired)
    ensures r.status != 400 ==> r.status == 200 && r.body.Testimonials?
    ensures r.status == 200 ==> Listing.NewestFirst(r.body.testimonials)
    ensures r.status == 200 ==> forall t :: t in r.body.testimonials <==>
      t in rows && t.spaceId == spaceId.value && t.isPublished
    ensures r.status == 200 ==> forall t :: t in rows && t.spaceId == spaceId.value && t.isPublished ==>
      multiset(r.body.testimonials)[t] == multiset(rows)[t]
  {
    if spaceId.None? || spaceId.value == "" then Response(400, Error(SpaceIdRequired))
    else Response(200, Testimonials(Listing.Listed(rows, spaceId.value)))
  }

  /** A request without a space id is answered without looking at the table. */
  lemma MissingSpaceIdIgnoresTable(rows1: seq<Testimonial>, rows2: seq<Testimonial>, spaceId: Option<string>)
    requires spaceId.None? || spaceId.value == ""
    ensures Get(rows1, spaceId) == Get(rows2, spaceId)
  {
  }

  /** An unknown space id gets 200 and an empty list, where `getWall` answers
      NOT_FOUND. */
  lemma UnknownSpaceIsEmpty(db: Tables, spaceId: Id)
    requires WellFormed(db)
    requires spaceId != "" && spaceId !in db.spaces
    ensures Get(Rows(db.testimonials), Some(spaceId)) == Response(200, Testimonials([]))
    ensures SpaceRouter.GetWall(db, spaceId) == SpaceRouter.Err(SpaceRouter.NotFound)
  {
    var rows := Rows(db.testimonials);
    forall t | t in rows ensures !Listing.IsListed(t, spaceId) {
      var k :| k in db.testimonials && db.testimonials[k] == t;
    }
    Listing.ListedEmpty(rows, spaceId);
  }

  /** For a space that exists the endpoint lists the same testimonials as the
      wall. */
  lemma AgreesWithWall(db: Tables, spaceId: Id)
    requires spaceId != "" && spaceId in db.spaces
    ensures Get(Rows(db.testimonials), Some(spaceId)).body.testimonials
         == SpaceRouter.GetWall(db, spaceId).value.testimonials
  {
  }
}
