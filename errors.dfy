/** The two user-facing failures of the pipeline and the one-line message
    each is reported with. */
module Errors {
  import opened Schema

  /** Both failures carry the facility query exactly as the user typed it. */
  datatype MensarError = FacilityNotFound(query: string) | NoDailyMeals(query: string)

  datatype Result<+T> = Ok(value: T) | Err(error: MensarError)

  const Program := "mensar: "
  const NotFoundLead := "could not find facility `"
  const NoMealsLead := "no daily meals for `"
  const Quote := "`"

  /** The message printed for an error, tagged with the program name. */
  function Message(e: MensarError): (m: string)
    ensures Program <= m && m[|m| - 1] == '`'
    ensures |m| == |Program| + |if e.FacilityNotFound? then NotFoundLead else NoMealsLead| + |e.query| + 1
  {
    match e
    case FacilityNotFound(q) => Program + NotFoundLead + q + Quote
    case NoDailyMeals(q) => Program + NoMealsLead + q + Quote
  }

  /** Reads an error back from its message: the inverse of `Message`. */
  function ParseMessage(m: string): Option<MensarError>
  {
    var nf, nm := Program + NotFoundLead, Program + NoMealsLead;
    if |m| > |nf| && nf <= m && m[|m| - 1] == '`' then
      Some(FacilityNotFound(m[|nf|..|m| - 1]))
    else if |m| > |nm| && nm <= m && m[|m| - 1] == '`' then
      Some(NoDailyMeals(m[|nm|..|m| - 1]))
    else
      None
  }

  /** Every message names its kind and its query unambiguously. */
  lemma MessageRoundTrip(e: MensarError)
    ensures ParseMessage(Message(e)) == Some(e)
  {
    var m := Message(e);
    var nf, nm := Program + NotFoundLead, Program + NoMealsLead;
    match e
    case FacilityNotFound(q) =>
      assert m == nf + q + Quote;
      assert m[|nf|..|m| - 1] == q;
    case NoDailyMeals(q) =>
      assert m == nm + q + Quote;
      assert m[|nm|..|m| - 1] == q;
      assert m[8] == 'n' && nf[8] == 'c';
  }

  /** Different errors are never reported with the same message. */
  lemma MessageInjective(e1: MensarError, e2: MensarError)
    requires Message(e1) == Message(e2)
    ensures e1 == e2
  {
    MessageRoundTrip(e1);
    MessageRoundTrip(e2);
  }
}
