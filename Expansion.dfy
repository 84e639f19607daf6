/** The expand/collapse policy of a rendered tree node (src/App.js,
    `TreeNode`): a user choice that is unset, true or false, and the
    expansion shown when it is unset. */
module Expansion {
  import opened Wrappers
  import opened OrgChart
  import opened Search

  /** Whether the node's reports are shown: the user's choice when there is
      one, otherwise open for roots, exact matches and highlighted nodes. */
  function Effective(stored: Option<bool>, isRoot: bool, isExactMatch: bool, isHighlighted: bool): (open: bool)
    ensures stored.Some? ==> open == stored.value
    ensures stored.None? ==> (open <==> isRoot || isExactMatch || isHighlighted)
  {
    if stored.Some? then stored.value else isRoot || isExactMatch || isHighlighted
  }

  /** The user choice after one click: the negation of the stored choice, or
      `!isRoot` when none was stored, whatever the match flags say. */
  function Toggled(stored: Option<bool>, isRoot: bool): (r: Option<bool>)
    ensures r.Some?
  {
    match stored
    case None => Some(!isRoot)
    case Some(open) => Some(!open)
  }

  /** Once the user has chosen, two clicks restore the choice. */
  lemma ToggleTwiceRestores(stored: Option<bool>, isRoot: bool)
    requires stored.Some?
    ensures Toggled(Toggled(stored, isRoot), isRoot) == stored
  {
  }

  /** From the unset state, two clicks leave the node open exactly when it
      is a root. */
  lemma ToggleTwiceFromUnset(isRoot: bool)
    ensures Toggled(Toggled(None, isRoot), isRoot) == Some(isRoot)
  {
  }

  /** Once the user has chosen, every click flips what is shown. */
  lemma ToggleFlipsChosen(stored: Option<bool>, isRoot: bool, isExactMatch: bool, isHighlighted: bool)
    requires stored.Some?
    ensures Effective(Toggled(stored, isRoot), isRoot, isExactMatch, isHighlighted)
         == !Effective(stored, isRoot, isExactMatch, isHighlighted)
  {
  }

  /** The first click flips what is shown unless the node is a matched or
      highlighted non-root node, which stays open on its first click. */
  lemma FirstToggleFlipsUnlessMatched(isRoot: bool, isExactMatch: bool, isHighlighted: bool)
    ensures Effective(Toggled(None, isRoot), isRoot, isExactMatch, isHighlighted)
         != Effective(None, isRoot, isExactMatch, isHighlighted)
      <==> isRoot || !(isExactMatch || isHighlighted)
  {
  }

  /** On a search result the exact-match flag adds nothing to the default: a
      node opens by default when it is a root or highlighted. */
  lemma DefaultOpenOnSearchResult(f: Filtered, isRoot: bool)
    requires WellFormed(f)
    ensures Effective(None, isRoot, f.isExactMatch, f.isHighlighted) == (isRoot || f.isHighlighted)
  {
  }

  /** With an empty search term every node the search keeps opens by default. */
  lemma EmptyTermOpensAll(e: Employee, dept: string, grade: string, isRoot: bool)
    requires SearchTree(e, "", dept, grade).Some?
    ensures var f := SearchTree(e, "", dept, grade).value;
      Effective(None, isRoot, f.isExactMatch, f.isHighlighted)
  {
  }
}
