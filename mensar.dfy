/** The program's decision path once both payloads are parsed: list the
    catalog, or resolve the query, navigate to today's lines and print them,
    stopping at the first failure with its message and exit status. */
module Mensar {
  import opened Schema
  import opened Text
  import opened Errors
  import opened Catalog
  import Navigator
  import opened Renderer

  /** The options the program reads: the facility query, the language of the
      schedule (used only when fetching it), and the two flags. */
  datatype Options = Options(mensa: string, lang: string, prices: bool, list: bool)

  /** What the process leaves behind: its standard output and its exit status. */
  datatype Outcome = Outcome(stdout: string, status: int)

  /** The exit status of a process whose main thread panics. */
  const PanicStatus := 101

  /** Reporting an error prints its message on a line of its own and exits with status 1. */
  function Failure(e: MensarError): (o: Outcome)
    ensures o.status == 1
    ensures |o.stdout| > 0 && o.stdout[|o.stdout| - 1] == '\n'
    ensures ParseMessage(o.stdout[..|o.stdout| - 1]) == Some(e)
  {
    MessageRoundTrip(e);
    var text := Message(e) + "\n";
    assert text[..|text| - 1] == Message(e);
    Outcome(text, 1)
  }

  /** One run of the program on an already fetched catalog and rota list,
      for the date `today` whose weekday number (Monday = 1) is `weekday`. */
  method Run(opts: Options, facilities: Facilities, rotas: seq<WeeklyRota>, today: Date, weekday: nat, st: Style)
    returns (o: Outcome)
    ensures opts.list ==> o == Outcome(Unlines(Listed(facilities.items)), 0)
    ensures !opts.list && Resolve(facilities.items, opts.mensa).Err? ==>
              o == Failure(FacilityNotFound(opts.mensa))
    ensures !opts.list && Resolve(facilities.items, opts.mensa).Ok? ==>
              var facility := Resolve(facilities.items, opts.mensa).value;
              match Navigator.ResolveMenu(rotas, facility.facilityId, today, weekday)
              case NoDailyMeals => o == Failure(MensarError.NoDailyMeals(opts.mensa))
              case IndexOutOfBounds => o == Outcome("", PanicStatus)
              case Lines(lines) => o == Outcome(Unlines(PrintAll(Layout(lines, opts.prices), st)), 0)
  {
    if opts.list {
      var text := FormatFacilities(facilities);
      return Outcome(text, 0);
    }
    match Resolve(facilities.items, opts.mensa)
    case Err(e) =>
      o := Failure(e);
    case Ok(facility) =>
      match Navigator.ResolveMenu(rotas, facility.facilityId, today, weekday)
      case NoDailyMeals =>
        o := Failure(MensarError.NoDailyMeals(opts.mensa));
      case IndexOutOfBounds =>
        o := Outcome("", PanicStatus);
      case Lines(lines) =>
        var text := RenderMenu(lines, opts.prices, st);
        o := Outcome(text, 0);
  }
}
