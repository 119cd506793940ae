/** The input check that the create and update handlers run, word for word
    the same in both, before they read the stored collection. */
module Validation {
  import opened Text
  import opened Events

  /** The fields an input event must carry, in the order they are checked. */
  const RequiredFields: seq<string> := ["title", "description", "date", "time", "image", "location"]

  /** `event.f?.trim()` is truthy: the field is there and is not blank. */
  predicate Filled(e: Record, f: string)
  {
    f in e && Trim(e[f]) != []
  }

  /** Every required field of `e` is filled. */
  predicate AllFilled(e: Record)
  {
    Filled(e, "title") && Filled(e, "description") && Filled(e, "date")
    && Filled(e, "time") && Filled(e, "image") && Filled(e, "location")
  }

  datatype Outcome = Pass | Fail(failure: Failure)

  /** The checks of one handler: no body is `EventRequired`, a body with a
      missing or blank required field is `InvalidData`. */
  function Validate(body: Option<Record>): (r: Outcome)
    ensures r == Fail(EventRequired) <==> body.None?
    ensures r == Pass <==> body.Some? && AllFilled(body.value)
    ensures r.Pass? || r == Fail(EventRequired) || r == Fail(InvalidData)
  {
    match body
    case None => Fail(EventRequired)
    case Some(e) =>
      if !Filled(e, "title") || !Filled(e, "description") || !Filled(e, "date")
        || !Filled(e, "time") || !Filled(e, "image") || !Filled(e, "location")
      then Fail(InvalidData)
      else Pass
  }

  /** Six checks, one per required field, are one check per entry of
      `RequiredFields`. */
  lemma SixChecks(p: string -> bool)
    ensures (p("title") && p("description") && p("date") && p("time") && p("image") && p("location"))
      <==> forall f :: f in RequiredFields ==> p(f)
  {
    assert RequiredFields[0] in RequiredFields && RequiredFields[1] in RequiredFields;
    assert RequiredFields[2] in RequiredFields && RequiredFields[3] in RequiredFields;
    assert RequiredFields[4] in RequiredFields && RequiredFields[5] in RequiredFields;
  }

  /** `AllFilled` checks exactly the fields of `RequiredFields`. */
  lemma AllFilledIffRequired(e: Record)
    ensures AllFilled(e) <==> forall f :: f in RequiredFields ==> Filled(e, f)
  {
    SixChecks(f => Filled(e, f));
  }

  /** Validation in terms of characters: an input passes exactly when
      every required field is present and holds a non-whitespace character. */
  lemma ValidateIffNonBlank(e: Record)
    ensures Validate(Some(e)) == Pass <==>
      forall f :: f in RequiredFields ==> f in e && !IsBlank(e[f])
  {
    AllFilledIffRequired(e);
    forall f | f in e {
      TrimEmptyIffBlank(e[f]);
    }
  }

  /** A blank `title` with every other field filled is rejected, and the
      same input with a non-blank title is accepted. */
  lemma ValidationBoundary()
    ensures var good := map["title" := "x", "description" := "x", "date" := "x", "time" := "x",
                            "image" := "x", "location" := "x"];
      Validate(Some(good["title" := ""])) == Fail(InvalidData) && Validate(Some(good)) == Pass
  {
    var good := map["title" := "x", "description" := "x", "date" := "x", "time" := "x",
                    "image" := "x", "location" := "x"];
    assert Trim("x") == "x";
    assert Trim("") == [];
    assert good["title" := ""]["title"] == "";
    assert Filled(good, "title") && Filled(good, "description") && Filled(good, "date");
    assert Filled(good, "time") && Filled(good, "image") && Filled(good, "location");
  }
}
