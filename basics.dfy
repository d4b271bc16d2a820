/** Small value types shared by the modules of the model. */
module Basics {

  /** An optional value, as `Option<T>` in the modelled code. */
  datatype Option<+T> = None | Some(value: T)

  /** The three outcomes of a total comparison; a partial comparison returns
      `Option<Ordering>`, with `None` meaning "no relation". */
  datatype Ordering = Less | Equal | Greater

  /** The comparison seen from the other side (`Ordering::reverse`). */
  function Reverse(o: Ordering): (r: Ordering)
    ensures (r == Equal) <==> (o == Equal)
    ensures (r == Less) <==> (o == Greater)
  {
    match o
    case Less => Greater
    case Equal => Equal
    case Greater => Less
  }

  /** A partial comparison seen from the other side: no relation stays no relation. */
  function Flip(c: Option<Ordering>): (r: Option<Ordering>)
    ensures r.None? <==> c.None?
    ensures c.Some? ==> r == Some(Reverse(c.value))
  {
    match c
    case None => None
    case Some(o) => Some(Reverse(o))
  }

  /** A non-empty sequence is its front followed by its last element. */
  lemma LastSplit<T>(s: seq<T>)
    requires s != []
    ensures s == s[..|s| - 1] + [s[|s| - 1]]
  {
  }

  /** A prefix one element longer. */
  lemma PrefixSnoc<T>(s: seq<T>, k: nat)
    requires k < |s|
    ensures s[..k + 1] == s[..k] + [s[k]]
  {
  }
}
