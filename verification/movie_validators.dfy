/**
  The movie form validators: one rule per known field, each with fixed error
  messages; `validateFormData`, which checks every field present in a form and
  collects the messages of those that fail; and the size test on a poster image.
 */
module MovieValidators {
  import opened Js

  /** A field check returns `true` or `{error: true, errorMessage}`. */
  datatype Verdict = Valid | Invalid(errorMessage: string)

  /** `validateFormData` returns `true` or an object mapping each failing field to its message. */
  datatype FormVerdict = AllValid | FieldErrors(errors: map<string, string>)

  /** The entries of the `validateMethods` table. */
  datatype Rule = TitleRule | DirectorRule | DistributorRule | RatingRule | VotesRule

  /** The fields `validateMethods` has a rule for. */
  const ValidatedFields: set<string> := {"title", "director", "distributor", "imdbRating", "imdbVotes"}

  /** `validateMethods[name]`: the rule for a field, None when the table has no entry. */
  function RuleFor(name: string): (rule: Option<Rule>)
    ensures rule.Some? <==> name in ValidatedFields
  {
    if name == "title" then Some(TitleRule)
    else if name == "director" then Some(DirectorRule)
    else if name == "distributor" then Some(DistributorRule)
    else if name == "imdbRating" then Some(RatingRule)
    else if name == "imdbVotes" then Some(VotesRule)
    else None
  }

  const CouldNotValidate := "Could not validate field"
  const RatingNotNumber := "IMDB Rating must be a number"
  const RatingRange := "IMDB Rating must be between 1 and 10"
  const VotesNotNumber := "IMDB Votes must be a number"
  const VotesTooLow := "IMDB Votes must be greater than 1"
  const InvalidFormat := "Invalid file format"
  const PosterTooSmall := "Movie poster must be at least 480 pixels wide and 580 pixels tall"

  /** The characters `.` does not match in a regular expression without the `s` flag. */
  predicate IsLineTerminator(c: char)
  {
    c == '\n' || c == '\r' || c == '\U{2028}' || c == '\U{2029}'
  }

  /** `.+` matches at position `i`: one character that is not a line terminator
      (greedily extending the match does not change whether it exists). */
  predicate MatchesAt(s: string, i: nat)
  {
    i < |s| && !IsLineTerminator(s[i])
  }

  /** `/.+/.test(s)` from position `start` on: tries each position in turn. */
  function SearchFrom(s: string, start: nat): (found: bool)
    requires start <= |s|
    ensures found <==> exists j :: start <= j < |s| && !IsLineTerminator(s[j])
    decreases |s| - start
  {
    if start == |s| then false
    else if MatchesAt(s, start) then true
    else SearchFrom(s, start + 1)
  }

  /** The string has a character `.` matches. */
  predicate HasVisibleLine(v: JsValue)
  {
    v.JsString? && exists j :: 0 <= j < |v.text| && !IsLineTerminator(v.text[j])
  }

  /** The check shared by title, director and distributor. */
  function CheckText(v: JsValue, notString: string, empty: string): (r: Verdict)
    ensures r.Valid? <==> HasVisibleLine(v)
    ensures !v.JsString? ==> r == Invalid(notString)
    ensures v.JsString? && r.Invalid? ==> r == Invalid(empty)
  {
    if TypeOf(v) != "string" then Invalid(notString)
    else if SearchFrom(v.text, 0) then Valid
    else Invalid(empty)
  }

  function CheckRating(v: JsValue): (r: Verdict)
    ensures r.Valid? <==> NumberValue(v).Some? && 1.0 <= NumberValue(v).value <= 10.0
    ensures r.Invalid? ==> r.errorMessage == RatingRange
  {
    var n := ToNumber(v);
    if TypeOf(n) != "number" then Invalid(RatingNotNumber)
    else if AtLeast(n.num, 1.0) && AtMost(n.num, 10.0) then Valid
    else Invalid(RatingRange)
  }

  function CheckVotes(v: JsValue): (r: Verdict)
    ensures r.Valid? <==> NumberValue(v).Some? && NumberValue(v).value >= 1.0
    ensures r.Invalid? ==> r.errorMessage == VotesTooLow
  {
    var n := ToNumber(v);
    if TypeOf(n) != "number" then Invalid(VotesNotNumber)
    else if AtLeast(n.num, 1.0) then Valid
    else Invalid(VotesTooLow)
  }

  function Check(rule: Rule, v: JsValue): Verdict
  {
    match rule
    case TitleRule =>
      CheckText(v, "Title must be a string", "Title must contain at least one character")
    case DirectorRule =>
      CheckText(v, "Director name must be a string", "Director name must contain at least one character")
    case DistributorRule =>
      CheckText(v, "Distributor name must be a string", "Distributor name must contain at least one character")
    case RatingRule => CheckRating(v)
    case VotesRule => CheckVotes(v)
  }

  /** `validateField`: the verdict of the field's rule, or a failure for a field
      without one. */
  function ValidateField(name: string, v: JsValue): (r: Verdict)
    ensures name !in ValidatedFields ==> r == Invalid(CouldNotValidate)
    ensures name in ValidatedFields && r.Invalid? ==> r.errorMessage != CouldNotValidate
    ensures name in {"title", "director", "distributor"} ==> (r.Valid? <==> HasVisibleLine(v))
    ensures name == "imdbRating" ==> (r.Valid? <==> AtLeast(NumberValue(v), 1.0) && AtMost(NumberValue(v), 10.0))
    ensures name == "imdbVotes" ==> (r.Valid? <==> AtLeast(NumberValue(v), 1.0))
    ensures name == "title" && r.Invalid? ==>
      r.errorMessage == (if v.JsString? then "Title must contain at least one character" else "Title must be a string")
    ensures name == "director" && r.Invalid? ==>
      r.errorMessage == (if v.JsString? then "Director name must contain at least one character" else "Director name must be a string")
    ensures name == "distributor" && r.Invalid? ==>
      r.errorMessage == (if v.JsString? then "Distributor name must contain at least one character" else "Distributor name must be a string")
    ensures name == "imdbRating" && r.Invalid? ==> r.errorMessage == RatingRange
    ensures name == "imdbVotes" && r.Invalid? ==> r.errorMessage == VotesTooLow
    ensures r != Invalid(RatingNotNumber) && r != Invalid(VotesNotNumber)
  {
    match RuleFor(name)
    case None => Invalid(CouldNotValidate)
    case Some(rule) => Check(rule, v)
  }

  /** `validateFormData`: checks every field present in `form`, in any order, and
      reports all of the failing ones. */
  method ValidateFormData(form: map<string, JsValue>) returns (r: FormVerdict)
    ensures r.AllValid? <==> forall field :: field in form ==> ValidateField(field, form[field]).Valid?
    ensures form == map[] ==> r == AllValid
    ensures r.FieldErrors? ==> r.errors != map[]
    ensures r.FieldErrors? ==> forall field :: field in r.errors <==> field in form && ValidateField(field, form[field]).Invalid?
    ensures r.FieldErrors? ==> forall field :: field in r.errors ==> r.errors[field] == ValidateField(field, form[field]).errorMessage
  {
    var errors: map<string, string> := map[];
    var allValid := true;
    var pending := form.Keys;
    while pending != {}
      invariant pending <= form.Keys
      invariant forall k :: k in errors <==> k in form && k !in pending && ValidateField(k, form[k]).Invalid?
      invariant forall k :: k in errors ==> errors[k] == ValidateField(k, form[k]).errorMessage
      invariant allValid <==> errors == map[]
      decreases pending
    {
      var field :| field in pending;
      var result := ValidateField(field, form[field]);
      if result != Valid {
        errors := errors[field := result.errorMessage];
        allValid := false;
      }
      pending := pending - {field};
    }
    if allValid {
      r := AllValid;
    } else {
      r := FieldErrors(errors);
    }
  }

  /** The uploaded poster as `validatePoster` sees it: the `sharp(...)` call threw, or
      the size its metadata reports. */
  datatype Poster = Unreadable | Decoded(width: int, height: int)

  /** `validatePoster`: wider than 480 pixels and more than 100 pixels taller than wide. */
  function ValidatePoster(p: Poster): (r: Verdict)
    ensures p.Unreadable? ==> r == Invalid(InvalidFormat)
    ensures p.Decoded? && r.Invalid? ==> r == Invalid(PosterTooSmall)
    ensures r.Valid? <==> p.Decoded? && p.width >= 481 && p.height - p.width >= 101
    ensures r.Valid? ==> p.width >= 481 && p.height >= 582
  {
    match p
    case Unreadable => Invalid(InvalidFormat)
    case Decoded(width, height) =>
      if width > 480 && height > width + 100 then Valid else Invalid(PosterTooSmall)
  }

  // ---------------------------------------------------------------------------
  // Consequences

  /** Text fields reject the empty string and a lone line break. */
  lemma EmptyTextRejected()
    ensures ValidateField("title", JsString("", None)) == Invalid("Title must contain at least one character")
    ensures ValidateField("director", JsString("\n", None)) == Invalid("Director name must contain at least one character")
  {
  }

  /** A line break followed by text passes; a number in a text field does not. */
  lemma TextTypeAndLineBreak()
    ensures ValidateField("distributor", JsString("\nX", None)) == Valid
    ensures ValidateField("title", JsNumber(Some(7.0))) == Invalid("Title must be a string")
  {
  }

  /** The bounds as written: a rating of exactly 1 or 10 and a vote count of
      exactly 1 pass, although the votes message says "greater than 1"; NaN fails. */
  lemma NumericBoundaries()
    ensures ValidateField("imdbRating", JsNumber(Some(1.0))) == Valid
    ensures ValidateField("imdbRating", JsNumber(Some(10.0))) == Valid
    ensures ValidateField("imdbRating", JsString("abc", None)) == Invalid(RatingRange)
    ensures ValidateField("imdbVotes", JsNumber(Some(1.0))) == Valid
    ensures ValidateField("imdbVotes", JsUndefined) == Invalid(VotesTooLow)
  {
  }

  /** The smallest accepted poster is 481 by 582; a 480 by 580 image, the size the
      message names, is refused, and so is any poster at most 100 pixels taller than wide. */
  lemma PosterBoundaries(w: int)
    ensures ValidatePoster(Decoded(481, 582)) == Valid
    ensures ValidatePoster(Decoded(481, 581)) == Invalid(PosterTooSmall)
    ensures ValidatePoster(Decoded(480, 10000)) == Invalid(PosterTooSmall)
    ensures ValidatePoster(Decoded(480, 580)) == Invalid(PosterTooSmall)
    ensures ValidatePoster(Decoded(w, w + 100)) == Invalid(PosterTooSmall)
  {
  }
}
