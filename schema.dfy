/** The two tables of the testimonial store, `space` and `testimonial`, with
    their nullability, defaults, primary keys and cascading foreign keys
    (src/server/db/schema/space.ts). */
module Schema {

  datatype Option<+T> = None | Some(value: T)

  /** Primary keys are opaque text ids; owners are identified by a user id. */
  type Id = string
  type UserId = string
  /** `CURRENT_TIMESTAMP`, as a reading of a natural-number clock. */
  type Timestamp = nat

  /** A row of `space`: name and customMessage are NOT NULL, logo is nullable,
      userId is a NOT NULL reference to the owning user. */
  datatype Space = Space(
    id: Id,
    name: string,
    customMessage: string,
    logo: Option<string>,
    createdAt: Timestamp,
    updatedAt: Timestamp,
    userId: UserId)

  /** A row of `testimonial`: authorName, text and socialUrl are NOT NULL,
      imageUrl, position and companyName are nullable, isPublished is NOT NULL
      and spaceId is a NOT NULL reference to a space. */
  datatype Testimonial = Testimonial(
    id: Id,
    authorName: string,
    text: string,
    socialUrl: string,
    imageUrl: Option<string>,
    position: Option<string>,
    companyName: Option<string>,
    createdAt: Timestamp,
    updatedAt: Timestamp,
    isPublished: bool,
    spaceId: Id)

  /** The default of `is_published`. */
  const DefaultIsPublished := false

  /** The fields a caller supplies when inserting a testimonial; the others
      come from column defaults. */
  datatype NewTestimonial = NewTestimonial(
    spaceId: Id,
    text: string,
    authorName: string,
    socialUrl: string,
    imageUrl: Option<string>)

  /** The row an INSERT of `n` produces under key `id` at time `now`: the
      nullable columns not supplied are NULL, both timestamps are the current
      time and isPublished takes its default. */
  function InsertedRow(id: Id, n: NewTestimonial, now: Timestamp): (t: Testimonial)
    ensures t.id == id && t.spaceId == n.spaceId
    ensures t.authorName == n.authorName && t.text == n.text && t.socialUrl == n.socialUrl
    ensures t.imageUrl == n.imageUrl && t.position.None? && t.companyName.None?
    ensures !t.isPublished
    ensures t.createdAt == now && t.updatedAt == now
  {
    Testimonial(id, n.authorName, n.text, n.socialUrl, n.imageUrl, None, None,
                now, now, DefaultIsPublished, n.spaceId)
  }

  /** The contents of both tables, each keyed by primary key. */
  datatype Tables = Tables(spaces: map<Id, Space>, testimonials: map<Id, Testimonial>)

  /** Each row is stored under its own primary key. */
  predicate KeysAreIds(db: Tables) {
    && (forall k :: k in db.spaces ==> db.spaces[k].id == k)
    && (forall k :: k in db.testimonials ==> db.testimonials[k].id == k)
  }

  /** The foreign key `testimonial.space_id -> space.id`. */
  predicate ForeignKeysHold(db: Tables) {
    forall k :: k in db.testimonials ==> db.testimonials[k].spaceId in db.spaces
  }

  predicate WellFormed(db: Tables) {
    KeysAreIds(db) && ForeignKeysHold(db)
  }

  /** Deleting a space with ON DELETE CASCADE: the space goes, and so does
      every testimonial that references it; no other row changes. */
  function DeleteSpaceCascade(db: Tables, id: Id): (r: Tables)
    ensures id !in r.spaces
    ensures forall k :: k in r.testimonials ==> r.testimonials[k].spaceId != id
    ensures forall k :: k in r.testimonials ==> k in db.testimonials && r.testimonials[k] == db.testimonials[k]
    ensures forall k :: k in db.spaces && k != id ==> k in r.spaces && r.spaces[k] == db.spaces[k]
    ensures forall k :: k in db.testimonials && db.testimonials[k].spaceId != id ==>
      k in r.testimonials && r.testimonials[k] == db.testimonials[k]
    ensures r.spaces.Keys <= db.spaces.Keys && r.testimonials.Keys <= db.testimonials.Keys
    ensures WellFormed(db) ==> WellFormed(r)
  {
    Tables(db.spaces - {id},
           map k | k in db.testimonials && db.testimonials[k].spaceId != id :: db.testimonials[k])
  }

  /** Deleting a user: `space.user_id` cascades, so the user's spaces go, and
      through `testimonial.space_id` their testimonials go with them. */
  function DeleteUserCascade(db: Tables, u: UserId): (r: Tables)
    ensures forall k :: k in r.spaces ==> r.spaces[k].userId != u
    ensures forall k :: k in db.spaces && db.spaces[k].userId == u ==> k !in r.spaces
    ensures forall k :: k in r.spaces ==> k in db.spaces && r.spaces[k] == db.spaces[k]
    ensures forall k :: k in db.spaces && db.spaces[k].userId != u ==>
      k in r.spaces && r.spaces[k] == db.spaces[k]
    ensures forall k :: k in r.testimonials ==> k in db.testimonials && r.testimonials[k] == db.testimonials[k]
    ensures r.spaces.Keys <= db.spaces.Keys
    ensures WellFormed(db) ==> WellFormed(r)
  {
    var kept := map k | k in db.spaces && db.spaces[k].userId != u :: db.spaces[k];
    Tables(kept, map k | k in db.testimonials && db.testimonials[k].spaceId in kept :: db.testimonials[k])
  }

  /** After a user is deleted no testimonial of any of that user's spaces
      remains. */
  lemma DeleteUserRemovesTestimonials(db: Tables, u: UserId, k: Id)
    requires WellFormed(db)
    requires k in db.testimonials && db.spaces[db.testimonials[k].spaceId].userId == u
    ensures k !in DeleteUserCascade(db, u).testimonials
  {
  }

  /** A testimonial survives a user's deletion exactly when its space does. */
  lemma DeleteUserKeepsOtherTestimonials(db: Tables, u: UserId, k: Id)
    requires WellFormed(db)
    requires k in db.testimonials
    ensures k in DeleteUserCascade(db, u).testimonials <==> db.spaces[db.testimonials[k].spaceId].userId != u
  {
  }

  /** Fresh primary keys. The generator is modelled as a counter of the ids
      it has issued so far; the n-th id is the string of n + 1 copies of 'c'. */
  function FreshId(n: nat): (id: Id)
    ensures |id| == n + 1
  {
    seq(n + 1, _ => 'c')
  }

  /** Every key of both tables was issued before the counter reached `issued`. */
  predicate IssuedBefore(db: Tables, issued: nat) {
    && (forall k :: k in db.spaces ==> |k| <= issued)
    && (forall k :: k in db.testimonials ==> |k| <= issued)
  }

  /** The next id the generator hands out names no row of either table. */
  lemma FreshIdIsUnused(db: Tables, issued: nat)
    requires IssuedBefore(db, issued)
    ensures FreshId(issued) !in db.spaces && FreshId(issued) !in db.testimonials
  {
  }

  /** The rows of the testimonial table in some order: one entry per key, and
      exactly the table's values; when every row carries its own key as id,
      no row appears twice. */
  ghost function Rows(m: map<Id, Testimonial>): (r: seq<Testimonial>)
    ensures |r| == |m|
    ensures forall t :: t in r <==> t in m.Values
    ensures (forall k :: k in m ==> m[k].id == k) ==> forall i, j :: 0 <= i < j < |r| ==> r[i] != r[j]
    decreases |m|
  {
    if m == map[] then []
    else
      var k :| k in m;
      var rest := m - {k};
      assert m.Values == rest.Values + {m[k]} by {
        forall t | t in m.Values ensures t in rest.Values + {m[k]} {
          var j :| j in m && m[j] == t;
          if j != k { assert rest[j] == t; }
        }
      }
      assert (forall k :: k in m ==> m[k].id == k) ==> m[k] !in rest.Values;
      [m[k]] + Rows(rest)
  }
}
