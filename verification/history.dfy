/**
 * `load_processed_posts` (main.py): the ids of the posts narrated by earlier
 * runs. The history file is an abstract input: it may be missing, fail to
 * open or read, fail to decode as JSON, or decode to a list of ids.
 */
module History {

  datatype HistoryFile =
    | Missing
    | Unreadable
    | Undecodable
    | Decoded(ids: seq<string>)

  /** `load_processed_posts()`: the decoded ids as a set; a missing, unreadable
      or undecodable file gives the empty set. */
  function LoadProcessed(f: HistoryFile): (r: set<string>)
    ensures forall id :: id in r <==> f.Decoded? && id in f.ids
    ensures !f.Decoded? ==> r == {}
    ensures f.Decoded? ==> |r| <= |f.ids|
  {
    match f
    case Decoded(ids) => SetOf(ids)
    case _ => {}
  }

  /** `set(xs)` */
  function SetOf(xs: seq<string>): (r: set<string>)
    ensures forall x :: x in r <==> x in xs
    ensures |r| <= |xs|
  {
    if xs == [] then {}
    else {xs[0]} + SetOf(xs[1..])
  }
}
