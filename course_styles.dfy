/**
 * `colors_and_hatches_by_course` and its module-level state: a memo from
 * course code to the (color, hatch) pair its bars are drawn with, and the
 * pool of colors still free for codes the memo does not know yet.
 */
module Styles {
  import opened Wrappers

  /** How a course's bars are drawn. */
  datatype Style = Style(color: string, hatch: string)

  datatype Error = EmptyPool  // `available.pop()` on an empty list raises IndexError

  /** The hatch a newly met course gets. */
  const NewHatch: string := "\\\\"

  /** The colors of the default matplotlib cycle that the memo and the pool draw from. */
  const Palette: set<string> := {
    "#1f77b4", "#ff7f0e", "#2ca02c", "#d62728", "#9467bd",
    "#8c564b", "#e377c2", "#7f7f7f", "#bcbd22", "#17becf"
  }

  /** The hatches that occur in the memo. */
  const Hatches: set<string> := {" ", "**", "//", NewHatch}

  /** The memo as the program starts. */
  const InitialStyles: map<string, Style> := map[
    "MM2001" := Style("#1f77b4", " "),
    "MM2003" := Style("#1f77b4", "**"),
    "MM5012" := Style("#ff7f0e", " "),
    "DA2004" := Style("#2ca02c", " "),
    "DA2005" := Style("#2ca02c", " "),
    "MM5013" := Style("#d62728", " "),
    "DA3018" := Style("#9467bd", "**"),
    "DA4006" := Style("#9467bd", " "),
    "MM5016" := Style("#8c564b", " "),
    "MM5010" := Style("#e377c2", " "),
    "MM5011" := Style("#e377c2", "//"),
    "MM5015" := Style("#1f77b4", "//"),
    "MT3001" := Style("#7f7f7f", " "),
    "MT4001" := Style("#bcbd22", " "),
    "MT4007" := Style("#17becf", " ")
  ]

  /** The pool as the program starts; colors are taken from its end. */
  const InitialColors: seq<string> := [
    "#1f77b4", "#1f77b4", "#ff7f0e", "#2ca02c", "#d62728", "#9467bd", "#9467bd",
    "#8c564b", "#e377c2", "#e377c2", "#7f7f7f", "#bcbd22", "#17becf"
  ]

  class CourseStyles {
    /** `course_color_and_hatch` */
    var memo: map<string, Style>
    /** `available` */
    var available: seq<string>

    /** Every style and every free color comes from the palette. */
    predicate Valid()
      reads this
    {
      && (forall code :: code in memo ==> memo[code].color in Palette && memo[code].hatch in Hatches)
      && (forall i :: 0 <= i < |available| ==> available[i] in Palette)
    }

    /** The memo and the pool as the module defines them. */
    constructor ()
      ensures memo == InitialStyles && available == InitialColors
      ensures Valid()
    {
      memo := InitialStyles;
      available := InitialColors;
    }

    /**
     * `colors_and_hatches_by_course(code)`: the stored pair of a known code,
     * leaving the state alone; for a new code, the last free color with hatch
     * `\\`, taken out of the pool and stored; an error when the pool is empty.
     */
    method ColorAndHatchFor(code: string) returns (r: Result<Style, Error>)
      requires Valid()
      modifies this
      ensures Valid()
      ensures code in old(memo) ==>
        r == Success(old(memo)[code]) && memo == old(memo) && available == old(available)
      ensures code !in old(memo) && old(available) == [] ==>
        r == Failure(EmptyPool) && memo == old(memo) && available == old(available)
      ensures code !in old(memo) && old(available) != [] ==>
        var n := |old(available)| - 1;
        && r == Success(Style(old(available)[n], NewHatch))
        && available == old(available)[..n]
        && memo == old(memo)[code := r.value]
      ensures r.Success? ==> code in memo && memo[code] == r.value
      ensures r.Success? ==> r.value.color in Palette && r.value.hatch in Hatches
      ensures |memo| + |available| == old(|memo| + |available|)
    {
      if code in memo {
        return Success(memo[code]);
      }
      if available == [] {
        return Failure(EmptyPool);
      }
      var n := |available| - 1;
      var color := available[n];
      available := available[..n];
      var hatch := NewHatch;
      memo := memo[code := Style(color, hatch)];
      return Success(Style(color, hatch));
    }
  }

  /** Asking twice for the same code gives the same pair, and the second call takes no color. */
  method AskTwice(table: CourseStyles, code: string) returns (first: Result<Style, Error>, second: Result<Style, Error>)
    requires table.Valid()
    modifies table
    ensures first.Success? ==> second == first
    ensures first.Success? ==> first.value.color in Palette && first.value.hatch in Hatches
    ensures first.Success? ==> |table.available| == |old(table.available)| - (if code in old(table.memo) then 0 else 1)
  {
    first := table.ColorAndHatchFor(code);
    second := table.ColorAndHatchFor(code);
  }
}
