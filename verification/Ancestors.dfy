/** Trees given by the parent of each element, where parents come before their children. */
module Ancestors {
  import opened Common

  type Parents = seq<Option<nat>>

  /** i is top or below it. Parents stand before their children. */
  ghost predicate Under(par: Parents, i: nat, top: nat)
    decreases i
  {
    i == top || (i < |par| && par[i].Some? && par[i].value < i && Under(par, par[i].value, top))
  }

  lemma {:induction false} UnderIsLater(par: Parents, i: nat, top: nat)
    requires Under(par, i, top)
    ensures i >= top
    decreases i
  {
    if i != top { UnderIsLater(par, par[i].value, top); }
  }

  lemma {:induction false} UnderParent(par: Parents, i: nat, c: nat)
    requires c < |par| && par[c].Some? && par[c].value < c && Under(par, i, c)
    ensures Under(par, i, par[c].value) && i != par[c].value
    decreases i
  {
    UnderIsLater(par, i, c);
    if i != c { UnderParent(par, par[i].value, c); }
  }

  /** Subtrees of different children of one parent, or of different roots, have nothing in common. */
  lemma {:induction false} SiblingsApart(par: Parents, i: nat, c: nat, d: nat)
    requires c < |par| && d < |par| && c != d && par[c] == par[d]
    requires par[c].Some? ==> par[c].value < c && par[c].value < d
    requires Under(par, i, c)
    ensures !Under(par, i, d)
    decreases i
  {
    if i == c {
      if Under(par, c, d) && par[c].Some? { UnderIsLater(par, par[c].value, d); }
    } else if i == d {
      UnderIsLater(par, par[d].value, c);
    } else {
      SiblingsApart(par, par[i].value, c, d);
    }
  }
}
