/** One rendered node of the org chart (src/App.js, `TreeNode`): the
    search result it shows, whether it is a root, the user's expansion
    choice, and the reports array it sorts in place when it shows them. */
module TreeNodes {
  import opened Wrappers
  import opened OrgChart
  import opened ChildOrder
  import opened Expansion

  class TreeNode {
    const node: Filtered
    const isRoot: bool
    /** The node's own reports array, which rendering sorts in place. */
    const reports: array<Filtered>
    /** The user's expansion choice; None until the first click. */
    var isExpandedByUser: Option<bool>

    /** The reports array always holds the node's reports, in some order. */
    ghost predicate Valid()
      reads this, reports
    {
      multiset(reports[..]) == multiset(node.reports)
    }

    constructor (node: Filtered, isRoot: bool)
      ensures this.node == node && this.isRoot == isRoot
      ensures fresh(reports) && reports[..] == node.reports
      ensures isExpandedByUser == None
      ensures Valid()
    {
      this.node := node;
      this.isRoot := isRoot;
      this.reports := new Filtered[|node.reports|](i requires 0 <= i < |node.reports| => node.reports[i]);
      isExpandedByUser := None;
      new;
      assert reports[..] == node.reports;
    }

    /** `isExpanded`: whether the node's reports are shown. */
    function IsExpanded(): (open: bool)
      reads this
      ensures isExpandedByUser.Some? ==> open == isExpandedByUser.value
      ensures isExpandedByUser.None? ==> (open <==> isRoot || node.isExactMatch || node.isHighlighted)
    {
      Effective(isExpandedByUser, isRoot, node.isExactMatch, node.isHighlighted)
    }

    /** `toggleExpand`: one click on the node's expand button. */
    method ToggleExpand()
      requires Valid()
      modifies this
      ensures Valid()
      ensures isExpandedByUser == Toggled(old(isExpandedByUser), isRoot)
      ensures isExpandedByUser.Some?
    {
      isExpandedByUser := Toggled(isExpandedByUser, isRoot);
    }

    /** The reports rendered under the node: none when it is collapsed,
        otherwise the reports array after sorting it in place, exact
        matches first. */
    method ShownReports() returns (shown: seq<Filtered>)
      requires Valid()
      modifies reports
      ensures Valid()
      ensures IsExpanded() ==> reports[..] == ExactFirst(old(reports[..])) && shown == reports[..]
      ensures !IsExpanded() ==> reports[..] == old(reports[..]) && shown == []
    {
      if IsExpanded() {
        ExactFirstPermutation(reports[..]);
        SortExactFirst(reports);
        shown := reports[..];
      } else {
        shown := [];
      }
    }
  }
}
