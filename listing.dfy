/** The public listing query shared by the wall (`getWall`) and the REST
    endpoint (`GET /api/testimonials`): keep the published testimonials of one
    space, newest first. */
module Listing {
  import opened Schema

  /** The row belongs to the space and is visible to the public. */
  predicate IsListed(t: Testimonial, spaceId: Id) {
    t.spaceId == spaceId && t.isPublished
  }

  /** `WHERE space_id = spaceId AND is_published = true`, keeping row order. */
  function PublishedOf(rows: seq<Testimonial>, spaceId: Id): (r: seq<Testimonial>)
    ensures forall t :: t in r <==> t in rows && IsListed(t, spaceId)
    ensures forall t :: multiset(r)[t] == if IsListed(t, spaceId) then multiset(rows)[t] else 0
  {
    if rows == [] then []
    else
      assert rows == [rows[0]] + rows[1..];
      if IsListed(rows[0], spaceId) then [rows[0]] + PublishedOf(rows[1..], spaceId)
      else PublishedOf(rows[1..], spaceId)
  }

  /** `ORDER BY created_at DESC`. */
  predicate NewestFirst(s: seq<Testimonial>) {
    forall i, j :: 0 <= i < j < |s| ==> s[i].createdAt >= s[j].createdAt
  }

  /** Places `t` into a newest-first sequence. */
  function Insert(t: Testimonial, s: seq<Testimonial>): (r: seq<Testimonial>)
    requires NewestFirst(s)
    ensures NewestFirst(r)
    ensures multiset(r) == multiset(s) + multiset{t}
    ensures forall x :: x in r ==> x == t || x in s
  {
    if s == [] || t.createdAt >= s[0].createdAt then
      PrependNewest(t, s);
      [t] + s
    else
      var rest := Insert(t, s[1..]);
      assert s == [s[0]] + s[1..];
      forall x | x in rest ensures x.createdAt <= s[0].createdAt {
        if x != t { assert x in s; }
      }
      PrependNewest(s[0], rest);
      [s[0]] + rest
  }

  /** A row no older than any row of a newest-first sequence may go in front. */
  lemma PrependNewest(x: Testimonial, s: seq<Testimonial>)
    requires NewestFirst(s)
    requires forall y :: y in s ==> y.createdAt <= x.createdAt
    ensures NewestFirst([x] + s)
  {
    forall i, j | 0 <= i < j < |[x] + s| ensures ([x] + s)[i].createdAt >= ([x] + s)[j].createdAt {
      if i == 0 {
        assert ([x] + s)[j] == s[j - 1] && s[j - 1] in s;
      }
    }
  }

  /** The rows reordered newest first. */
  function SortNewestFirst(s: seq<Testimonial>): (r: seq<Testimonial>)
    ensures NewestFirst(r)
    ensures multiset(r) == multiset(s)
  {
    if s == [] then []
    else
      assert s == [s[0]] + s[1..];
      Insert(s[0], SortNewestFirst(s[1..]))
  }

  /** The listing of one space: its published rows, newest first. */
  function Listed(rows: seq<Testimonial>, spaceId: Id): (r: seq<Testimonial>)
    ensures NewestFirst(r)
    ensures forall t :: t in r <==> t in rows && IsListed(t, spaceId)
    ensures forall t :: multiset(r)[t] == if IsListed(t, spaceId) then multiset(rows)[t] else 0
  {
    var p := PublishedOf(rows, spaceId);
    var r := SortNewestFirst(p);
    assert forall t :: t in r <==> t in multiset(p);
    r
  }

  /** A space with no published rows lists nothing. */
  lemma ListedEmpty(rows: seq<Testimonial>, spaceId: Id)
    requires forall t :: t in rows ==> !IsListed(t, spaceId)
    ensures Listed(rows, spaceId) == []
  {
  }

  /** Two published rows of the space created at different times come out
      with the later one first. */
  lemma LaterComesFirst(rows: seq<Testimonial>, spaceId: Id, i: nat, j: nat)
    requires i < |Listed(rows, spaceId)| && j < |Listed(rows, spaceId)|
    requires Listed(rows, spaceId)[i].createdAt > Listed(rows, spaceId)[j].createdAt
    ensures i < j
  {
  }
}
