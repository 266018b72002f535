/** The strings the testimonial card derives from a row
    (src/components/spaces/testimonial-card.tsx): the social handle shown
    under the author's name and the avatar's fallback initial. */
module TestimonialCard {
  import opened Schema

  /** `s.split(sep)` for a one-character separator: the pieces between the
      separators, always at least one. */
  function Split(s: string, sep: char): (parts: seq<string>)
    ensures |parts| >= 1
  {
    if s == [] then [""] else Cons(s[0], Split(s[1..], sep), sep)
  }

  /** Puts character `c` in front of the pieces `rest` of a split: a separator
      starts a new, empty first piece, any other character joins the first
      piece. */
  function Cons(c: char, rest: seq<string>, sep: char): (parts: seq<string>)
    requires |rest| >= 1
    ensures |parts| >= 1
  {
    if c == sep then [""] + rest else [[c] + rest[0]] + rest[1..]
  }

  /** Putting a character in front only touches the first piece. */
  lemma ConsAppend(c: char, front: seq<string>, back: seq<string>, sep: char)
    requires |front| >= 1
    ensures Cons(c, front + back, sep) == Cons(c, front, sep) + back
  {
    if c != sep {
      assert (front + back)[1..] == front[1..] + back;
    }
  }

  /** No piece of a split holds the separator. */
  lemma {:induction false} PiecesHaveNoSep(s: string, sep: char)
    ensures forall i :: 0 <= i < |Split(s, sep)| ==> sep !in Split(s, sep)[i]
  {
    if s != [] {
      PiecesHaveNoSep(s[1..], sep);
      var rest := Split(s[1..], sep);
      if s[0] != sep {
        var parts := [[s[0]] + rest[0]] + rest[1..];
        assert forall i :: 1 <= i < |parts| ==> parts[i] == rest[i];
      }
    }
  }

  /** `parts.join(sep)`. */
  function Join(parts: seq<string>, sep: char): string
    requires |parts| >= 1
  {
    if |parts| == 1 then parts[0] else parts[0] + [sep] + Join(parts[1..], sep)
  }

  /** Joining the pieces of a split gives back the string. */
  lemma {:induction false} JoinSplit(s: string, sep: char)
    ensures Join(Split(s, sep), sep) == s
  {
    if s != [] {
      JoinSplit(s[1..], sep);
      assert s == [s[0]] + s[1..];
      var rest := Split(s[1..], sep);
      if s[0] == sep {
        assert ([""] + rest)[1..] == rest;
      } else {
        var parts := [[s[0]] + rest[0]] + rest[1..];
        if |rest| > 1 {
          assert parts[1..] == rest[1..];
        }
      }
    }
  }

  /** Splitting undoes joining pieces that hold no separator. */
  lemma {:induction false} SplitJoin(parts: seq<string>, sep: char)
    requires |parts| >= 1
    requires forall i :: 0 <= i < |parts| ==> sep !in parts[i]
    ensures Split(Join(parts, sep), sep) == parts
  {
    PiecesHaveNoSep(Join(parts, sep), sep);
    if |parts| == 1 {
      SplitWithoutSep(parts[0], sep);
    } else {
      SplitJoin(parts[1..], sep);
      SplitAround(parts[0], Join(parts[1..], sep), sep);
      SplitWithoutSep(parts[0], sep);
      assert parts == [parts[0]] + parts[1..];
    }
  }

  /** A string without the separator splits into itself. */
  lemma {:induction false} SplitWithoutSep(s: string, sep: char)
    requires sep !in s
    ensures Split(s, sep) == [s]
  {
    if s != [] {
      SplitWithoutSep(s[1..], sep);
      assert s == [s[0]] + s[1..];
    }
  }

  /** One step of the split: the first character either ends the first piece
      (a separator) or is prepended to it. */
  lemma SplitCons(c: char, t: string, sep: char)
    ensures Split([c] + t, sep) == Cons(c, Split(t, sep), sep)
  {
    assert ([c] + t)[0] == c && ([c] + t)[1..] == t;
  }

  /** Splitting around one separator splits each side. */
  lemma {:induction false} SplitAround(a: string, b: string, sep: char)
    ensures Split(a + [sep] + b, sep) == Split(a, sep) + Split(b, sep)
  {
    if a == [] {
      assert a + [sep] + b == [sep] + b;
      SplitCons(sep, b, sep);
    } else {
      SplitAround(a[1..], b, sep);
      SplitAroundStep(a[0], a[1..], b, sep);
      assert a == [a[0]] + a[1..];
    }
  }

  /** The inductive step of SplitAround, for a first part `[c] + t`. */
  lemma SplitAroundStep(c: char, t: string, b: string, sep: char)
    requires Split(t + [sep] + b, sep) == Split(t, sep) + Split(b, sep)
    ensures Split([c] + t + [sep] + b, sep) == Split([c] + t, sep) + Split(b, sep)
  {
    assert [c] + t + [sep] + b == [c] + (t + [sep] + b);
    SplitCons(c, t + [sep] + b, sep);
    SplitCons(c, t, sep);
    ConsAppend(c, Split(t, sep), Split(b, sep), sep);
  }

  /** `parts.pop()` on a split, which is never empty. */
  function LastPart(s: string, sep: char): (r: string)
    ensures sep !in r
  {
    PiecesHaveNoSep(s, sep);
    var parts := Split(s, sep);
    parts[|parts| - 1]
  }

  /** `displayHandle`: no handle for an empty social URL, otherwise "@"
      followed by what comes after the URL's last "/". */
  function DisplayHandle(socialUrl: string): (r: Option<string>)
    ensures r.None? <==> socialUrl == ""
    ensures r.Some? ==> |r.value| >= 1 && r.value[0] == '@' && '/' !in r.value[1..]
  {
    if socialUrl == "" then None else Some("@" + LastPart(socialUrl, '/'))
  }

  /** For a URL whose last "/" is followed by `handle`, the display handle is
      "@" + handle; in particular a URL ending in "/" shows just "@". */
  lemma DisplayHandleAfterLastSlash(prefix: string, handle: string)
    requires '/' !in handle
    ensures DisplayHandle(prefix + "/" + handle) == Some("@" + handle)
  {
    SplitAround(prefix, handle, '/');
    SplitWithoutSep(handle, '/');
  }

  /** A URL with no "/" at all is shown whole. */
  lemma DisplayHandleWithoutSlash(socialUrl: string)
    requires socialUrl != "" && '/' !in socialUrl
    ensures DisplayHandle(socialUrl) == Some("@" + socialUrl)
  {
    SplitWithoutSep(socialUrl, '/');
  }

  /** `c.toUpperCase()` for ASCII letters. */
  function UpperAscii(c: char): (u: char)
    ensures !('a' <= u <= 'z')
    ensures 'a' <= c <= 'z' ==> u as int == c as int - 32
    ensures !('a' <= c <= 'z') ==> u == c
  {
    if 'a' <= c <= 'z' then (c as int - 32) as char else c
  }

  /** The avatar fallback: `authorName.charAt(0).toUpperCase()`, which is ""
      for an empty name. */
  function AvatarInitial(authorName: string): (r: string)
    ensures |r| <= 1
    ensures r == "" <==> authorName == ""
    ensures r != "" ==> !('a' <= r[0] <= 'z')
    ensures r != "" && 'a' <= authorName[0] <= 'z' ==> r[0] as int == authorName[0] as int - 32
    ensures r != "" && !('a' <= authorName[0] <= 'z') ==> r[0] == authorName[0]
  {
    if authorName == "" then "" else [UpperAscii(authorName[0])]
  }
}
