/**
 * The closed set of algorithms the visualizer offers, under the display
 * names its algorithm selector lists, and the lookup that the run
 * dispatch performs on the selected name.
 */
module Algorithms {

  datatype Option<T> = None | Some(value: T)

  datatype Algorithm = Bubble | Selection | Insertion | Merge | Quick

  /** The display name of each algorithm, as listed in the selector. */
  function Name(a: Algorithm): (r: string)
    ensures |r| > 5 && r[|r| - 5..] == " Sort"
  {
    match a
    case Bubble => "Bubble Sort"
    case Selection => "Selection Sort"
    case Insertion => "Insertion Sort"
    case Merge => "Merge Sort"
    case Quick => "Quick Sort"
  }

  /**
   * The algorithm a selected name stands for; a name that matches none of
   * the five cases selects nothing.
   */
  function Selected(name: string): (r: Option<Algorithm>)
    ensures r.Some? ==> Name(r.value) == name
    ensures r.None? <==> forall a :: Name(a) != name
  {
    if name == "Bubble Sort" then Some(Bubble)
    else if name == "Selection Sort" then Some(Selection)
    else if name == "Insertion Sort" then Some(Insertion)
    else if name == "Merge Sort" then Some(Merge)
    else if name == "Quick Sort" then Some(Quick)
    else None
  }

  /** Every display name selects its own algorithm, so the five names are distinct. */
  lemma SelectedName(a: Algorithm)
    ensures Selected(Name(a)) == Some(a)
  {
    match a
    case Bubble =>
    case Selection =>
    case Insertion =>
    case Merge =>
    case Quick =>
  }
}
