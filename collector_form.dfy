/** The public collector form (src/components/spaces/collector-form.tsx): two
    text fields, a submit handler that trims and checks them before sending
    the mutation, and the success handler that clears them. */
module CollectorForm {
  import opened Schema
  import SpaceRouter

  /** The characters `String.prototype.trim` strips: the ECMAScript
      WhiteSpace and LineTerminator characters. */
  predicate IsJsWhitespace(c: char) {
    || c == '\t' || c == '\n' || c == '\U{000B}' || c == '\U{000C}' || c == '\r' || c == ' '
    || c == '\U{00A0}' || c == '\U{1680}' || ('\U{2000}' <= c <= '\U{200A}')
    || c == '\U{2028}' || c == '\U{2029}' || c == '\U{202F}' || c == '\U{205F}'
    || c == '\U{3000}' || c == '\U{FEFF}'
  }

  predicate AllWhitespace(s: string) {
    forall i :: 0 <= i < |s| ==> IsJsWhitespace(s[i])
  }

  /** Drops the leading whitespace. */
  function TrimStart(s: string): (r: string)
    ensures |r| <= |s| && r == s[|s| - |r|..]
    ensures AllWhitespace(s[..|s| - |r|])
    ensures r == [] || !IsJsWhitespace(r[0])
  {
    if s != [] && IsJsWhitespace(s[0]) then TrimStart(s[1..]) else s
  }

  /** Drops the trailing whitespace. */
  function TrimEnd(s: string): (r: string)
    ensures |r| <= |s| && r == s[..|r|]
    ensures AllWhitespace(s[|r|..])
    ensures r == [] || !IsJsWhitespace(r[|r| - 1])
  {
    if s != [] && IsJsWhitespace(s[|s| - 1]) then TrimEnd(s[..|s| - 1]) else s
  }

  /** `s.trim()`: the input is some whitespace, then the result, then some
      more whitespace. */
  function Trim(s: string): (r: string)
    ensures exists lead, trail :: s == lead + r + trail && AllWhitespace(lead) && AllWhitespace(trail)
  {
    var a := TrimStart(s);
    var r := TrimEnd(a);
    Sandwich(s, s[..|s| - |a|], a, r);
    r
  }

  /** A trimmed string neither starts nor ends with whitespace. */
  lemma TrimEdges(s: string)
    ensures Trim(s) == [] || (!IsJsWhitespace(Trim(s)[0]) && !IsJsWhitespace(Trim(s)[|Trim(s)| - 1]))
  {
    var a := TrimStart(s);
    var r := TrimEnd(a);
    assert r != [] ==> r[0] == a[0];
  }

  /** Peeling whitespace off the front of `s` and then off the back of what
      is left leaves `r` between two whitespace runs. */
  lemma Sandwich(s: string, front: string, a: string, r: string)
    requires s == front + a && AllWhitespace(front)
    requires |r| <= |a| && r == a[..|r|] && AllWhitespace(a[|r|..])
    ensures exists lead, trail :: s == lead + r + trail && AllWhitespace(lead) && AllWhitespace(trail)
  {
    assert s == front + r + a[|r|..];
  }

  /** A field trims to "" exactly when it holds nothing but whitespace. */
  lemma TrimEmptyIffBlank(s: string)
    ensures Trim(s) == [] <==> AllWhitespace(s)
  {
    var a := TrimStart(s);
    var n := |s| - |a|;
    assert a[0..] == a && s[..|s|] == s;
    assert a != [] ==> !AllWhitespace(a);
    assert a != [] ==> a[0] == s[n];
  }

  /** Trimming twice is trimming once. */
  lemma TrimIdempotent(s: string)
    ensures Trim(Trim(s)) == Trim(s)
  {
    var t := Trim(s);
    if t != [] {
      assert TrimStart(t) == t;
      assert TrimEnd(t) == t;
    }
  }

  /** What `handleSubmit` sends to `createTestimonial`. */
  datatype Submission = Submission(spaceId: Id, authorName: string, text: string)

  /** The form's state: the space it collects for and the two input fields. */
  class Form {
    const spaceId: Id
    var authorName: string
    var text: string

    constructor (spaceId: Id)
      ensures this.spaceId == spaceId && authorName == "" && text == ""
    {
      this.spaceId := spaceId;
      authorName, text := "", "";
    }

    /** The name input's `onChange`. */
    method ChangeAuthorName(value: string)
      modifies this`authorName
      ensures authorName == value
    {
      authorName := value;
    }

    /** The testimonial input's `onChange`. */
    method ChangeText(value: string)
      modifies this`text
      ensures text == value
    {
      text := value;
    }

    /** `handleSubmit`: refuses when either field is blank after trimming;
        otherwise sends the space id with both fields trimmed. The fields
        themselves are not touched. */
    method HandleSubmit() returns (sent: Option<Submission>)
      ensures sent.None? <==> AllWhitespace(authorName) || AllWhitespace(text)
      ensures sent.Some? ==> sent.value == Submission(spaceId, Trim(authorName), Trim(text))
      ensures sent.Some? ==> sent.value.authorName != [] && sent.value.text != []
    {
      TrimEmptyIffBlank(authorName);
      TrimEmptyIffBlank(text);
      var name, body := Trim(authorName), Trim(text);
      if name == [] || body == [] {
        return None;
      }
      sent := Some(Submission(spaceId, name, body));
    }

    /** The mutation's `onSuccess`: both fields are cleared. */
    method OnSuccess()
      modifies this
      ensures authorName == "" && text == ""
    {
      authorName, text := "", "";
    }

    /** The mutation's `onError`: only a toast; the fields keep what the
        visitor typed. */
    method OnError()
      ensures unchanged(this)
    {
    }
  }

  /** A submission the form sends always passes the server's own input check
      (it carries no image URL). */
  lemma SubmissionPassesServerCheck(authorName: string, text: string, isUrl: string -> bool)
    requires !AllWhitespace(authorName) && !AllWhitespace(text)
    ensures SpaceRouter.TestimonialInputValid(Trim(text), Trim(authorName), None, isUrl)
  {
    TrimEmptyIffBlank(authorName);
    TrimEmptyIffBlank(text);
  }
}
