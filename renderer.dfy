/** Menu rendering: the lines printed for each line element, in order, with
    the meal's name, wrapped description and, on request, its joined prices. */
module Renderer {
  import opened Schema
  import opened Text

  /** The terminal-formatting collaborators, left uninterpreted: bold styling,
      word-wrapping to a column width, and prefixing the lines of a text. */
  datatype Style = Style(bold: string -> string, fill: (string, nat) -> string, indent: (string, string) -> string)

  const WrapWidth: nat := 40
  const MealIndent := "    "
  const PriceIndent := "\t\t\t\t"
  const PriceSeparator := " / "

  /** One printed line, before styling. */
  datatype Line = Station(name: string) | MealName(name: string) | Description(text: string) | Prices(tiers: seq<string>)

  /** The meal's price texts, in price-array order. */
  function PriceTexts(m: Meal): seq<string>
  {
    seq(|m.mealPriceArray|, t requires 0 <= t < |m.mealPriceArray| => m.mealPriceArray[t].price)
  }

  /** The lines printed for one line element. */
  function ElementLayout(e: LineElement, showPrices: bool): (ls: seq<Line>)
    ensures |ls| > 0 && ls[0] == Station(e.name)
    ensures forall t :: 0 < t < |ls| ==> !ls[t].Station?
    ensures |ls| == 1 <==> e.meal.None?
    ensures e.meal.Some? ==>
              |ls| == (if showPrices then 4 else 3)
              && ls[1] == MealName(e.meal.value.name) && ls[2] == Description(e.meal.value.description)
              && (showPrices ==> ls[3] == Prices(PriceTexts(e.meal.value)))
  {
    [Station(e.name)]
    + match e.meal
      case None => []
      case Some(m) =>
        [MealName(m.name), Description(m.description)]
        + (if showPrices then [Prices(PriceTexts(m))] else [])
  }

  /** The lines printed for a whole menu, element after element. */
  function Layout(es: seq<LineElement>, showPrices: bool): seq<Line>
  {
    if |es| == 0 then [] else ElementLayout(es[0], showPrices) + Layout(es[1..], showPrices)
  }

  /** The text of one line as it reaches the terminal. */
  function Print(l: Line, st: Style): string
  {
    match l
    case Station(name) => st.bold(name)
    case MealName(name) => st.indent(name, MealIndent)
    case Description(text) => st.indent(st.fill(text, WrapWidth), MealIndent)
    case Prices(tiers) => st.indent(Join(tiers, PriceSeparator), PriceIndent)
  }

  function PrintAll(ls: seq<Line>, st: Style): seq<string>
  {
    seq(|ls|, t requires 0 <= t < |ls| => Print(ls[t], st))
  }

  /** Rendering a menu piecewise renders it in one go: element order is kept. */
  lemma {:induction false} LayoutAppend(a: seq<LineElement>, b: seq<LineElement>, showPrices: bool)
    ensures Layout(a + b, showPrices) == Layout(a, showPrices) + Layout(b, showPrices)
  {
    if |a| == 0 {
      assert a + b == b;
    } else {
      calc {
        Layout(a + b, showPrices);
        { assert (a + b)[0] == a[0]; assert (a + b)[1..] == a[1..] + b; }
        ElementLayout(a[0], showPrices) + Layout(a[1..] + b, showPrices);
        { LayoutAppend(a[1..], b, showPrices); }
        ElementLayout(a[0], showPrices) + (Layout(a[1..], showPrices) + Layout(b, showPrices));
      }
    }
  }

  /** The station names, one per element, in element order. */
  function StationNames(ls: seq<Line>): seq<string>
  {
    if |ls| == 0 then [] else (if ls[0].Station? then [ls[0].name] else []) + StationNames(ls[1..])
  }

  lemma {:induction false} StationNamesAppend(a: seq<Line>, b: seq<Line>)
    ensures StationNames(a + b) == StationNames(a) + StationNames(b)
  {
    if |a| == 0 {
      assert a + b == b;
    } else {
      var head := if a[0].Station? then [a[0].name] else [];
      calc {
        StationNames(a + b);
        { assert (a + b)[0] == a[0]; assert (a + b)[1..] == a[1..] + b; }
        head + StationNames(a[1..] + b);
        { StationNamesAppend(a[1..], b); }
        head + (StationNames(a[1..]) + StationNames(b));
      }
    }
  }

  /** Every element prints its station name, and the station lines come in
      element order, one per element. */
  lemma {:induction false} EveryStationPrinted(es: seq<LineElement>, showPrices: bool)
    ensures StationNames(Layout(es, showPrices)) == seq(|es|, t requires 0 <= t < |es| => es[t].name)
  {
    if |es| > 0 {
      var e := es[0];
      var rest := ElementLayout(e, showPrices)[1..];
      assert ElementLayout(e, showPrices) == [Station(e.name)] + rest;
      NoStations(rest);
      assert StationNames([Station(e.name)]) == [e.name];
      StationNamesAppend([Station(e.name)], rest);
      StationNamesAppend(ElementLayout(e, showPrices), Layout(es[1..], showPrices));
      EveryStationPrinted(es[1..], showPrices);
    }
  }

  lemma {:induction false} NoStations(ls: seq<Line>)
    requires forall t :: 0 <= t < |ls| ==> !ls[t].Station?
    ensures StationNames(ls) == []
  {
    if |ls| > 0 {
      NoStations(ls[1..]);
    }
  }

  /** An element without a meal prints its station name and nothing else. */
  lemma NoMealOnlyStation(e: LineElement, showPrices: bool)
    requires e.meal.None?
    ensures ElementLayout(e, showPrices) == [Station(e.name)]
  {
  }

  /** Without the prices flag no price line is ever printed. */
  lemma {:induction false} NoPricesWithoutFlag(es: seq<LineElement>)
    ensures forall t :: 0 <= t < |Layout(es, false)| ==> !Layout(es, false)[t].Prices?
  {
    if |es| > 0 {
      NoPricesWithoutFlag(es[1..]);
      var head := ElementLayout(es[0], false);
      assert forall t :: 0 <= t < |head| ==> !head[t].Prices?;
    }
  }

  /** The lines left once price lines are removed. */
  function DropPrices(ls: seq<Line>): seq<Line>
  {
    if |ls| == 0 then [] else (if ls[0].Prices? then [] else [ls[0]]) + DropPrices(ls[1..])
  }

  /** The prices flag only adds price lines: the layout without it is the
      layout with it, less its price lines. Where each one stands, after its
      meal's description, is stated by `ElementLayout`. */
  lemma {:induction false} PricesOnlyAddPriceLines(es: seq<LineElement>)
    ensures DropPrices(Layout(es, true)) == Layout(es, false)
  {
    if |es| > 0 {
      var a, b := ElementLayout(es[0], true), Layout(es[1..], true);
      DropPricesAppend(a, b);
      PricesOnlyAddPriceLines(es[1..]);
      match es[0].meal
      case None =>
        NoPriceLines(a);
      case Some(m) =>
        var kept := [Station(es[0].name), MealName(m.name), Description(m.description)];
        assert a == kept + [Prices(PriceTexts(m))];
        DropPricesAppend(kept, [Prices(PriceTexts(m))]);
        NoPriceLines(kept);
        assert DropPrices([Prices(PriceTexts(m))]) == [];
    }
  }

  lemma {:induction false} NoPriceLines(ls: seq<Line>)
    requires forall t :: 0 <= t < |ls| ==> !ls[t].Prices?
    ensures DropPrices(ls) == ls
  {
    if |ls| > 0 {
      NoPriceLines(ls[1..]);
    }
  }

  lemma {:induction false} DropPricesAppend(a: seq<Line>, b: seq<Line>)
    ensures DropPrices(a + b) == DropPrices(a) + DropPrices(b)
  {
    if |a| == 0 {
      assert a + b == b;
    } else {
      var head := if a[0].Prices? then [] else [a[0]];
      calc {
        DropPrices(a + b);
        { assert (a + b)[0] == a[0]; assert (a + b)[1..] == a[1..] + b; }
        head + DropPrices(a[1..] + b);
        { DropPricesAppend(a[1..], b); }
        head + (DropPrices(a[1..]) + DropPrices(b));
      }
    }
  }

  /** With the prices flag, a meal's price line is its price texts in
      price-array order, each pair separated by " / ". */
  lemma PriceLineOrder(m: Meal, st: Style, p: MealPrice)
    requires |m.mealPriceArray| > 0
    ensures Print(Prices(PriceTexts(m.(mealPriceArray := m.mealPriceArray + [p]))), st)
            == st.indent(Join(PriceTexts(m), PriceSeparator) + PriceSeparator + p.price, PriceIndent)
  {
    var m' := m.(mealPriceArray := m.mealPriceArray + [p]);
    assert PriceTexts(m') == PriceTexts(m) + [p.price];
    JoinSnoc(PriceTexts(m), p.price, PriceSeparator);
  }

  lemma PrintAllAppend(a: seq<Line>, b: seq<Line>, st: Style)
    ensures PrintAll(a + b, st) == PrintAll(a, st) + PrintAll(b, st)
  {
  }

  /** Prints one line element: its station, then, when it has a meal, the
      meal's name, its wrapped description and, on request, its prices. */
  method RenderElement(e: LineElement, showPrices: bool, st: Style) returns (out: string)
    ensures out == Unlines(PrintAll(ElementLayout(e, showPrices), st))
  {
    ghost var printed := [st.bold(e.name)];
    out := st.bold(e.name) + "\n";
    if e.meal.Some? {
      var details := e.meal.value;
      var name := st.indent(details.name, MealIndent);
      var description := st.indent(st.fill(details.description, WrapWidth), MealIndent);
      UnlinesSnoc(printed, name);
      out, printed := out + name + "\n", printed + [name];
      UnlinesSnoc(printed, description);
      out, printed := out + description + "\n", printed + [description];
      if showPrices {
        var prices := st.indent(Join(PriceTexts(details), PriceSeparator), PriceIndent);
        UnlinesSnoc(printed, prices);
        out, printed := out + prices + "\n", printed + [prices];
      }
    }
    assert printed == PrintAll(ElementLayout(e, showPrices), st);
  }

  /** Prints the menu: every element's lines, element after element. */
  method RenderMenu(es: seq<LineElement>, showPrices: bool, st: Style) returns (out: string)
    ensures out == Unlines(PrintAll(Layout(es, showPrices), st))
  {
    out := "";
    for i := 0 to |es|
      invariant out == Unlines(PrintAll(Layout(es[..i], showPrices), st))
    {
      var text := RenderElement(es[i], showPrices, st);
      ghost var done, next := Layout(es[..i], showPrices), ElementLayout(es[i], showPrices);
      assert es[..i + 1] == es[..i] + [es[i]];
      assert Layout([es[i]], showPrices) == next;
      LayoutAppend(es[..i], [es[i]], showPrices);
      PrintAllAppend(done, next, st);
      UnlinesAppend(PrintAll(done, st), PrintAll(next, st));
      out := out + text;
    }
    assert es[..|es|] == es;
  }
}
