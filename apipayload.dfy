/** The HTTP-facing shapes of internal/model/http-cake.go: the listing query
    and the create/update body with its in-place `Validate`. */
module ApiPayload {
  import opened Wrappers
  import opened GoStrings

  /** The bound query of `GET /cakes`: `page` and `page_size`. */
  datatype ApiGetCakesQuery = ApiGetCakesQuery(page: int, pageSize: int)

  /** The four ways a body can fail validation, one per checked field. */
  datatype ValidationError = TitleEmpty | DescriptionEmpty | ImageEmpty | RatingOutOfRange
  {
    /** The name of the checked field; the four names start with different letters. */
    function FieldName(): (name: string)
      ensures |name| > 0
      ensures name[0] == match this
        case TitleEmpty => 't' case DescriptionEmpty => 'd' case ImageEmpty => 'i' case RatingOutOfRange => 'r'
    {
      match this
      case TitleEmpty => "title"
      case DescriptionEmpty => "description"
      case ImageEmpty => "image"
      case RatingOutOfRange => "rating"
    }

    /** The error text: "field '<name>'" and the complaint, "must be on range
        0-5" for the rating and "cannot be empty" for the others. */
    function Message(): (m: string)
      ensures |m| > 8 + |FieldName()| && m[..7] == "field '"
      ensures m[7..8 + |FieldName()|] == FieldName() + "'"
    {
      var head := "field '" + FieldName() + "'";
      var complaint := if RatingOutOfRange? then " must be on range 0-5" else " cannot be empty";
      assert (head + complaint)[..|head|] == head;
      assert head[..7] == "field '" && head[7..] == FieldName() + "'";
      head + complaint
    }
  }

  /** Each failure has its own message. */
  lemma MessagesDistinct(a: ValidationError, b: ValidationError)
    requires a.Message() == b.Message()
    ensures a == b
  {
    assert a.Message()[7] == a.FieldName()[0];
    assert b.Message()[7] == b.FieldName()[0];
  }

  /** The field values of a create/update body. */
  datatype Payload = Payload(
    title: string,
    description: Option<string>,
    rating: real,
    image: Option<string>)

  /** The body as `Validate` leaves it, and the error it returned (None is nil). */
  datatype Validation = Validation(after: Payload, err: Option<ValidationError>)

  /** An optional text field is acceptable when absent or not blank. */
  predicate OptionalAcceptable(o: Option<string>) {
    o.None? || !IsBlank(o.value)
  }

  /** What the API accepts, stated without reference to trimming. */
  predicate Acceptable(p: Payload) {
    && !IsBlank(p.title)
    && OptionalAcceptable(p.description)
    && OptionalAcceptable(p.image)
    && 0.0 <= p.rating <= 5.0
  }

  function TrimOptional(o: Option<string>): Option<string> {
    match o
    case None => None
    case Some(s) => Some(TrimSpace(s))
  }

  /** A text that starts and ends with a non-space character. */
  predicate Trimmed(s: string) {
    s != [] && !IsSpace(s[0]) && !IsSpace(s[|s| - 1])
  }

  /** A body in the form that passed validation: every present text trimmed
      and non-empty, the rating within range. */
  predicate Normal(p: Payload) {
    && Trimmed(p.title)
    && (p.description.Some? ==> Trimmed(p.description.value))
    && (p.image.Some? ==> Trimmed(p.image.value))
    && 0.0 <= p.rating <= 5.0
  }

  /** The effect of `Validate` on a body. The title is trimmed first and
      always; the description and image are trimmed only once the checks
      before theirs have passed; the rating is never changed. The body is
      accepted exactly when it is Acceptable (ValidatedNormal says what an
      accepted body becomes). */
  function Validated(p: Payload): (v: Validation)
    ensures v.after.title == TrimSpace(p.title) && v.after.rating == p.rating
    ensures v.err.None? <==> Acceptable(p)
  {
    var title := TrimSpace(p.title);
    var withTitle := p.(title := title);
    if |title| <= 0 then Validation(withTitle, Some(TitleEmpty))
    else if p.description.Some? && |TrimSpace(p.description.value)| <= 0 then
      Validation(withTitle, Some(DescriptionEmpty))
    else
      var withDescription := withTitle.(description := TrimOptional(p.description));
      if p.image.Some? && |TrimSpace(p.image.value)| <= 0 then
        Validation(withDescription, Some(ImageEmpty))
      else
        var withImage := withDescription.(image := TrimOptional(p.image));
        if p.rating < 0.0 || p.rating > 5.0 then Validation(withImage, Some(RatingOutOfRange))
        else Validation(withImage, None)
  }

  /** An accepted body is left Normal, with the same texts up to white space
      at either end. */
  lemma ValidatedNormal(p: Payload)
    requires Validated(p).err.None?
    ensures Normal(Validated(p).after)
    ensures Validated(p).after.description == TrimOptional(p.description)
    ensures Validated(p).after.image == TrimOptional(p.image)
  {
  }

  /** The checks run title, description, image, rating, and the first one that
      fails decides the error. */
  lemma ValidationCheckOrder(p: Payload)
    ensures IsBlank(p.title) ==> Validated(p).err == Some(TitleEmpty)
    ensures !IsBlank(p.title) && !OptionalAcceptable(p.description) ==>
      Validated(p).err == Some(DescriptionEmpty)
    ensures !IsBlank(p.title) && OptionalAcceptable(p.description) && !OptionalAcceptable(p.image) ==>
      Validated(p).err == Some(ImageEmpty)
    ensures (!IsBlank(p.title) && OptionalAcceptable(p.description) && OptionalAcceptable(p.image)
             && !(0.0 <= p.rating <= 5.0)) ==> Validated(p).err == Some(RatingOutOfRange)
  {
  }

  /** What a failed validation leaves behind. The title is always replaced by
      its trim, even when it is the failing field. When the description or
      image check fails, that field and every later one are untouched, and the
      fields before it are already trimmed. */
  lemma ValidationLeavesEarlierFieldsTrimmed(p: Payload)
    ensures Validated(p).err == Some(TitleEmpty) ==>
      Validated(p).after == p.(title := TrimSpace(p.title))
    ensures Validated(p).err == Some(DescriptionEmpty) ==>
      Validated(p).after == p.(title := TrimSpace(p.title))
    ensures Validated(p).err == Some(ImageEmpty) ==>
      Validated(p).after == p.(title := TrimSpace(p.title), description := TrimOptional(p.description))
    ensures Validated(p).err == Some(RatingOutOfRange) ==>
      Validated(p).after == p.(title := TrimSpace(p.title), description := TrimOptional(p.description),
                               image := TrimOptional(p.image))
  {
  }

  /** A Normal body passes validation unchanged. */
  lemma NormalIsFixed(p: Payload)
    requires Normal(p)
    ensures Validated(p) == Validation(p, None)
  {
    TrimmedIsFixed(p.title);
    if p.description.Some? {
      TrimmedIsFixed(p.description.value);
    }
    if p.image.Some? {
      TrimmedIsFixed(p.image.value);
    }
  }

  /** Validating a body that already passed validation succeeds again and
      changes nothing. */
  lemma ValidatedIdempotent(p: Payload)
    requires Validated(p).err.None?
    ensures Validated(Validated(p).after) == Validated(p)
  {
    ValidatedNormal(p);
    NormalIsFixed(Validated(p).after);
  }

  /** The accepted cases of internal/model/http-cake_test.go, and both ends
      of the rating range. */
  lemma AcceptedExamples(rating: real)
    requires rating in {0.0, 4.5, 5.0}
    ensures Validated(Payload("title", Some("desctiption"), rating, Some("image"))).err == None
    ensures Validated(Payload("title", None, rating, None)).err == None
  {
    assert !IsBlank("title") by { assert !IsSpace("title"[0]); }
    assert !IsBlank("desctiption") by { assert !IsSpace("desctiption"[0]); }
    assert !IsBlank("image") by { assert !IsSpace("image"[0]); }
    assert Acceptable(Payload("title", Some("desctiption"), rating, Some("image")));
    assert Acceptable(Payload("title", None, rating, None));
  }

  /** The rejected cases of internal/model/http-cake_test.go, a blank title,
      and a rating just below the range. */
  lemma RejectedExamples()
    ensures Validated(Payload("title", None, 5.5, None)).err == Some(RatingOutOfRange)
    ensures Validated(Payload("title", None, -0.1, None)).err == Some(RatingOutOfRange)
    ensures Validated(Payload("", None, 4.5, None)).err == Some(TitleEmpty)
    ensures Validated(Payload("   ", None, 4.5, None)).err == Some(TitleEmpty)
    ensures Validated(Payload("title", Some(""), 4.5, None)).err == Some(DescriptionEmpty)
    ensures Validated(Payload("title", None, 4.5, Some(""))).err == Some(ImageEmpty)
  {
    assert !IsBlank("title") by { assert !IsSpace("title"[0]); }
    assert IsBlank("   ");
    ValidationCheckOrder(Payload("title", None, 5.5, None));
    ValidationCheckOrder(Payload("title", None, -0.1, None));
    ValidationCheckOrder(Payload("", None, 4.5, None));
    ValidationCheckOrder(Payload("   ", None, 4.5, None));
    ValidationCheckOrder(Payload("title", Some(""), 4.5, None));
    ValidationCheckOrder(Payload("title", None, 4.5, Some("")));
  }

  /** Surrounding white space is dropped from the stored title. */
  lemma TitleTrimExample()
    ensures Validated(Payload(" T ", None, 4.3, None)) == Validation(Payload("T", None, 4.3, None), None)
  {
    assert TrimSpace(" T ") == TrimSpace("T ") by { assert " T "[1..] == "T "; }
    assert TrimSpace("T ") == TrimRight("T ") by { assert !IsSpace("T "[0]); }
    assert TrimRight("T ") == "T" by { assert "T "[..1] == "T"; }
  }

  /** ApiMutationCakePayload: the body object, whose `Validate` overwrites its
      own text fields as it goes. */
  class ApiMutationCakePayload {
    var title: string
    var description: Option<string>
    var rating: real
    var image: Option<string>

    function Value(): Payload
      reads this
    {
      Payload(title, description, rating, image)
    }

    constructor (p: Payload)
      ensures Value() == p
    {
      title, description, rating, image := p.title, p.description, p.rating, p.image;
    }

    /** Trims and checks the fields in order; returns at the first failure,
        with the fields before it already overwritten. */
    method Validate() returns (err: Option<ValidationError>)
      modifies this
      ensures Validation(Value(), err) == Validated(old(Value()))
    {
      title := TrimSpace(title);
      if |title| <= 0 {
        return Some(TitleEmpty);
      }
      if description.Some? {
        var trimmed := TrimSpace(description.value);
        if |trimmed| <= 0 {
          return Some(DescriptionEmpty);
        }
        description := Some(trimmed);
      }
      if image.Some? {
        var trimmed := TrimSpace(image.value);
        if |trimmed| <= 0 {
          return Some(ImageEmpty);
        }
        image := Some(trimmed);
      }
      if rating < 0.0 || rating > 5.0 {
        return Some(RatingOutOfRange);
      }
      return None;
    }
  }
}
