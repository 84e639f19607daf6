/** The search over the org chart (src/App.js, `searchTree` and the forest
    filter in `App`): per-node match predicates, the post-order rebuild that
    prunes subtrees without a match, and what the rebuilt tree satisfies. */
module Search {
  import opened Wrappers
  import opened Text
  import opened Grades
  import opened OrgChart

  /** The search term selects `name`: an empty term selects every name,
      otherwise the lower-cased name must contain the lower-cased term. */
  predicate NameMatch(name: string, term: string)
    ensures term == [] ==> NameMatch(name, term)
    ensures NameMatch(name, term) ==> |term| <= |name|
  {
    term == [] || Contains(ToLower(name), ToLower(term))
  }

  /** The department filter: "All", the very same department (compared
      exactly, case included), or an "Executive", who passes every filter. */
  predicate DepartmentMatch(department: string, filter: string)
    ensures filter == "All" ==> DepartmentMatch(department, filter)
    ensures department == "Executive" ==> DepartmentMatch(department, filter)
    ensures DepartmentMatch(department, filter) && department != "Executive" && filter != "All" ==> department == filter
  {
    filter == "All" || department == filter || department == "Executive"
  }

  /** The grade filter: "All", or the grade of the rating equals the filter. */
  predicate GradeMatch(rating: real, filter: string)
    ensures filter == "All" ==> GradeMatch(rating, filter)
    ensures GradeMatch(rating, filter) ==> filter in {"All", "A", "B", "C", "D"}
  {
    filter == "All" || GetGrade(rating) == filter
  }

  /** The node itself passes all three filters. */
  predicate IsMatch(e: Employee, term: string, dept: string, grade: string)
    ensures term == [] && dept == "All" && grade == "All" ==> IsMatch(e, term, dept, grade)
    ensures IsMatch(e, term, dept, grade) ==> |term| <= |e.name|
  {
    NameMatch(e.name, term) && DepartmentMatch(e.department, dept) && GradeMatch(e.metrics.rating, grade)
  }

  /** The values among `s`, in order: `.filter((x) => x)` over search results. */
  function Compact<T>(s: seq<Option<T>>): (r: seq<T>)
    ensures |r| <= |s|
    ensures r == [] <==> forall i :: 0 <= i < |s| ==> s[i].None?
  {
    if s == [] then []
    else (if s[0].Some? then [s[0].value] else []) + Compact(s[1..])
  }

  /** `Compact` keeps exactly the values that are present. */
  lemma {:induction false} CompactMembers<T(!new)>(s: seq<Option<T>>)
    ensures forall x :: x in Compact(s) <==> Some(x) in s
  {
    if s != [] {
      CompactMembers(s[1..]);
      assert s == [s[0]] + s[1..];
    }
  }

  /** `Compact` distributes over concatenation, so it keeps the order of the values. */
  lemma {:induction false} CompactAppend<T>(s: seq<Option<T>>, t: seq<Option<T>>)
    ensures Compact(s + t) == Compact(s) + Compact(t)
  {
    if s != [] {
      assert (s + t)[0] == s[0];
      assert (s + t)[1..] == s[1..] + t;
      CompactAppend(s[1..], t);
      assert Compact(s + t) == (if s[0].Some? then [s[0].value] else []) + Compact(s[1..] + t);
    } else {
      assert s + t == t;
    }
  }

  /** When every entry is a value, `Compact` drops nothing. */
  lemma {:induction false} CompactAllSome<T>(s: seq<Option<T>>)
    requires forall i :: 0 <= i < |s| ==> s[i].Some?
    ensures Compact(s) == seq(|s|, i requires 0 <= i < |s| => s[i].value)
  {
    if s != [] {
      CompactAllSome(s[1..]);
    }
  }

  /** The search results of the direct reports of `e`, one per report, in order. */
  function SearchReports(e: Employee, term: string, dept: string, grade: string): (r: seq<Option<Filtered>>)
    ensures |r| == |Children(e)|
    decreases e, 0
  {
    var kids := Children(e);
    seq(|kids|, i requires 0 <= i < |kids| => SearchTree(kids[i], term, dept, grade))
  }

  /** `searchTree`: the filtered copy of `e`, or None when neither `e` nor
      any of its reports' subtrees match. */
  function SearchTree(e: Employee, term: string, dept: string, grade: string): (r: Option<Filtered>)
    ensures r.Some? ==> r.value.isExactMatch || r.value.reports != []
    ensures r.Some? ==> |r.value.reports| <= |Children(e)|
    decreases e, 1
  {
    var filteredReports := Compact(SearchReports(e, term, dept, grade));
    var isMatch := IsMatch(e, term, dept, grade);
    if isMatch || |filteredReports| > 0 then
      Some(Filtered(e.name, e.position, e.department, e.image, e.metrics,
                    NameMatch(e.name, term), isMatch, filteredReports))
    else
      None
  }

  /** The forest filter: every root searched, the ones without a match dropped. */
  function FilterForest(roots: seq<Employee>, term: string, dept: string, grade: string): (r: seq<Filtered>)
    ensures |r| <= |roots|
    ensures forall f :: f in r <==> exists i :: 0 <= i < |roots| && SearchTree(roots[i], term, dept, grade) == Some(f)
  {
    var results := seq(|roots|, i requires 0 <= i < |roots| => SearchTree(roots[i], term, dept, grade));
    assert forall i :: 0 <= i < |roots| ==> results[i] == SearchTree(roots[i], term, dept, grade);
    CompactMembers(results);
    Compact(results)
  }

  // ---------------------------------------------------------------------
  // The match predicates

  /** Lower-casing the name or the term before matching changes nothing. */
  lemma NameMatchIgnoresCase(name: string, term: string)
    ensures NameMatch(ToLower(name), term) == NameMatch(name, term)
    ensures NameMatch(name, ToLower(term)) == NameMatch(name, term)
  {
    ToLowerIdempotent(name);
    ToLowerIdempotent(term);
  }

  /** Names and terms that differ only in ASCII case match alike. */
  lemma NameMatchCaseBlind(name: string, name': string, term: string, term': string)
    requires SameUpToCase(name, name') && SameUpToCase(term, term')
    ensures NameMatch(name, term) == NameMatch(name', term')
  {
    ToLowerCaseBlind(name, name');
    ToLowerCaseBlind(term, term');
  }

  /** A non-empty term matches exactly when its lower-cased form occurs at
      some offset of the lower-cased name. */
  lemma NameMatchIffOccurs(name: string, term: string)
    ensures NameMatch(name, term) <==> term == [] || Occurs(ToLower(term), ToLower(name))
  {
    ContainsIffOccurs(ToLower(name), ToLower(term));
  }

  /** An executive passes every department filter; any other department
      passes a filter other than "All" only when it is spelled identically. */
  lemma DepartmentMatchCases(department: string, filter: string)
    ensures department == "Executive" ==> DepartmentMatch(department, filter)
    ensures filter != "All" && department != "Executive" ==> (DepartmentMatch(department, filter) <==> department == filter)
    ensures !DepartmentMatch("Sales", "sales")
  {
  }

  /** The grade filter selects exactly one rating band per letter, and a
      filter that is neither "All" nor a grade letter selects nothing. */
  lemma GradeMatchBands(rating: real, filter: string)
    ensures GradeMatch(rating, filter) <==>
      || filter == "All"
      || (filter == "A" && rating >= 4.0)
      || (filter == "B" && 3.0 <= rating < 4.0)
      || (filter == "C" && 2.0 <= rating < 3.0)
      || (filter == "D" && rating < 2.0)
  {
  }

  // ---------------------------------------------------------------------
  // One step of the search

  /** `searchTree` keeps `e` exactly when `e` matches all three filters or the
      search of at least one of its reports keeps that report. */
  lemma SearchTreeSurvives(e: Employee, term: string, dept: string, grade: string)
    ensures SearchTree(e, term, dept, grade).Some? <==>
      || IsMatch(e, term, dept, grade)
      || exists i :: 0 <= i < |Children(e)| && SearchTree(Children(e)[i], term, dept, grade).Some?
  {
    var m := SearchReports(e, term, dept, grade);
    assert forall i :: 0 <= i < |m| ==> m[i] == SearchTree(Children(e)[i], term, dept, grade);
  }

  /** A kept node is a copy of `e` whose highlight is the name match, whose
      exact-match flag is the conjunction of the three matches, and whose
      reports are the kept searches of its reports, in their original order. */
  lemma SearchTreeCopies(e: Employee, term: string, dept: string, grade: string)
    requires SearchTree(e, term, dept, grade).Some?
    ensures var f := SearchTree(e, term, dept, grade).value;
      && f.name == e.name && f.position == e.position && f.department == e.department
      && f.image == e.image && f.metrics == e.metrics
      && f.isHighlighted == NameMatch(e.name, term)
      && f.isExactMatch == (NameMatch(e.name, term) && DepartmentMatch(e.department, dept) && GradeMatch(e.metrics.rating, grade))
      && (f.isExactMatch ==> f.isHighlighted)
      && f.reports == Compact(seq(|Children(e)|, i requires 0 <= i < |Children(e)| => SearchTree(Children(e)[i], term, dept, grade)))
  {
    var m := SearchReports(e, term, dept, grade);
    assert m == seq(|Children(e)|, i requires 0 <= i < |Children(e)| => SearchTree(Children(e)[i], term, dept, grade));
  }

  // ---------------------------------------------------------------------
  // The whole tree

  /** Some node of the subtree rooted at `e` matches all three filters. */
  ghost predicate HasMatch(e: Employee, term: string, dept: string, grade: string)
    decreases e
  {
    || IsMatch(e, term, dept, grade)
    || exists i :: 0 <= i < |Children(e)| && HasMatch(Children(e)[i], term, dept, grade)
  }

  /** The pruning invariant: a node survives the search exactly when its
      subtree holds a node that matches all three filters. */
  lemma {:induction false} SurvivesIffSubtreeMatch(e: Employee, term: string, dept: string, grade: string)
    ensures SearchTree(e, term, dept, grade).Some? <==> HasMatch(e, term, dept, grade)
    decreases e
  {
    var kids := Children(e);
    forall i | 0 <= i < |kids|
      ensures SearchTree(kids[i], term, dept, grade).Some? <==> HasMatch(kids[i], term, dept, grade)
    {
      SurvivesIffSubtreeMatch(kids[i], term, dept, grade);
    }
    SearchTreeSurvives(e, term, dept, grade);
  }

  /** What every node of a search result satisfies: an exact match is
      highlighted, and a node that is not an exact match keeps at least one
      report (so every kept leaf is an exact match). */
  ghost predicate WellFormed(f: Filtered)
  {
    && (f.isExactMatch ==> f.isHighlighted)
    && (f.isExactMatch || f.reports != [])
    && forall i :: 0 <= i < |f.reports| ==> WellFormed(f.reports[i])
  }

  /** Every tree the search returns is well formed. */
  lemma {:induction false} SearchTreeWellFormed(e: Employee, term: string, dept: string, grade: string)
    requires SearchTree(e, term, dept, grade).Some?
    ensures WellFormed(SearchTree(e, term, dept, grade).value)
    decreases e
  {
    var f := SearchTree(e, term, dept, grade).value;
    var m := SearchReports(e, term, dept, grade);
    forall j | 0 <= j < |f.reports| ensures WellFormed(f.reports[j]) {
      CompactMembers(m);
      assert f.reports[j] in Compact(m);
      var i :| 0 <= i < |m| && m[i] == Some(f.reports[j]);
      SearchTreeWellFormed(Children(e)[i], term, dept, grade);
    }
  }

  /** The subtree of `e` with every node kept and both flags set on every node. */
  function Unfiltered(e: Employee): (f: Filtered)
    ensures f.name == e.name && |f.reports| == |Children(e)|
    decreases e
  {
    var kids := Children(e);
    Filtered(e.name, e.position, e.department, e.image, e.metrics, true, true,
             seq(|kids|, i requires 0 <= i < |kids| => Unfiltered(kids[i])))
  }

  /** With an empty term and both filters "All", nothing is pruned: the result
      has the input's shape and child order, every node flagged as an exact match. */
  lemma {:induction false} NoFilterKeepsAll(e: Employee)
    ensures SearchTree(e, "", "All", "All") == Some(Unfiltered(e))
    decreases e
  {
    var kids := Children(e);
    var m := SearchReports(e, "", "All", "All");
    forall i | 0 <= i < |kids| ensures m[i] == Some(Unfiltered(kids[i])) {
      NoFilterKeepsAll(kids[i]);
    }
    CompactAllSome(m);
    assert Compact(m) == seq(|kids|, i requires 0 <= i < |kids| => Unfiltered(kids[i]));
    assert IsMatch(e, "", "All", "All");
  }

  /** Every node of a highlighted tree is highlighted. */
  ghost predicate AllHighlighted(f: Filtered)
  {
    f.isHighlighted && forall i :: 0 <= i < |f.reports| ==> AllHighlighted(f.reports[i])
  }

  /** With an empty search term every kept node is highlighted, whatever the
      department and grade filters. */
  lemma {:induction false} EmptyTermHighlightsAll(e: Employee, dept: string, grade: string)
    requires SearchTree(e, "", dept, grade).Some?
    ensures AllHighlighted(SearchTree(e, "", dept, grade).value)
    decreases e
  {
    var f := SearchTree(e, "", dept, grade).value;
    var m := SearchReports(e, "", dept, grade);
    forall j | 0 <= j < |f.reports| ensures AllHighlighted(f.reports[j]) {
      CompactMembers(m);
      assert f.reports[j] in Compact(m);
      var i :| 0 <= i < |m| && m[i] == Some(f.reports[j]);
      EmptyTermHighlightsAll(Children(e)[i], dept, grade);
    }
  }

  // ---------------------------------------------------------------------
  // The forest

  /** The forest filter keeps the order of the roots: filtering a
      concatenation concatenates the filtered parts. */
  lemma FilterForestAppend(roots: seq<Employee>, more: seq<Employee>, term: string, dept: string, grade: string)
    ensures FilterForest(roots + more, term, dept, grade) ==
      FilterForest(roots, term, dept, grade) + FilterForest(more, term, dept, grade)
  {
    var a := seq(|roots|, i requires 0 <= i < |roots| => SearchTree(roots[i], term, dept, grade));
    var b := seq(|more|, i requires 0 <= i < |more| => SearchTree(more[i], term, dept, grade));
    var all := roots + more;
    assert seq(|all|, i requires 0 <= i < |all| => SearchTree(all[i], term, dept, grade)) == a + b;
    CompactAppend(a, b);
  }

  /** The result forest is empty exactly when no root's subtree holds a
      match, and every tree in it is well formed. */
  lemma FilterForestSurvivors(roots: seq<Employee>, term: string, dept: string, grade: string)
    ensures FilterForest(roots, term, dept, grade) == [] <==>
      forall i :: 0 <= i < |roots| ==> !HasMatch(roots[i], term, dept, grade)
    ensures forall f :: f in FilterForest(roots, term, dept, grade) ==> WellFormed(f)
  {
    var r := FilterForest(roots, term, dept, grade);
    forall i | 0 <= i < |roots|
      ensures SearchTree(roots[i], term, dept, grade).Some? <==> HasMatch(roots[i], term, dept, grade)
    {
      SurvivesIffSubtreeMatch(roots[i], term, dept, grade);
    }
    forall f | f in r ensures WellFormed(f) {
      var i :| 0 <= i < |roots| && SearchTree(roots[i], term, dept, grade) == Some(f);
      SearchTreeWellFormed(roots[i], term, dept, grade);
    }
    if r != [] {
      var i :| 0 <= i < |roots| && SearchTree(roots[i], term, dept, grade) == Some(r[0]);
    }
  }

  /** A forest of one root filters to that root's search result, if any. */
  lemma FilterForestSingle(root: Employee, term: string, dept: string, grade: string)
    ensures FilterForest([root], term, dept, grade) ==
      match SearchTree(root, term, dept, grade)
      case Some(f) => [f]
      case None => []
  {
    var results := seq(1, i requires 0 <= i < 1 => SearchTree([root][i], term, dept, grade));
    assert results == [SearchTree(root, term, dept, grade)];
  }

  /** With no search term and no filter the forest comes back whole, in order. */
  lemma FilterForestNoFilter(roots: seq<Employee>)
    ensures FilterForest(roots, "", "All", "All") == seq(|roots|, i requires 0 <= i < |roots| => Unfiltered(roots[i]))
  {
    var results := seq(|roots|, i requires 0 <= i < |roots| => SearchTree(roots[i], "", "All", "All"));
    forall i | 0 <= i < |roots| ensures results[i] == Some(Unfiltered(roots[i])) {
      NoFilterKeepsAll(roots[i]);
    }
    CompactAllSome(results);
  }

  // ---------------------------------------------------------------------
  // A worked example

  /** An executive with a single report in Sales. */
  const Dan := Employee("Dan", "Sales Rep", "Sales", "", Metrics(2.5, "", "", ""), Present([]))
  const Carol := Employee("Carol", "CEO", "Executive", "", Metrics(4.5, "", "", ""), Present([Dan]))

  /** A case-insensitive name search: "ali" and "ALI" both find "Alice". */
  lemma NameMatchExample()
    ensures NameMatch("Alice", "ali") && NameMatch("Alice", "ALI")
  {
    assert ToLower("Alice") == "alice" && ToLower("ALI") == "ali";
    assert IsPrefix("ali", "alice");
  }

  /** "dan" finds "Dan". */
  lemma DanNameMatches()
    ensures NameMatch("Dan", "dan")
  {
    assert ToLower("Dan") == "dan" && ToLower("dan") == "dan";
    assert IsPrefix("dan", "dan");
  }

  /** "dan" does not find "Carol". */
  lemma CarolNameMisses()
    ensures !NameMatch("Carol", "dan")
  {
    assert ToLower("Carol") == "carol" && ToLower("dan") == "dan";
    ContainsIffOccurs("carol", "dan");
    forall i | 0 <= i <= 2 ensures !IsPrefix("dan", "carol"[i..]) {
      assert "carol"[i..][0] != 'd';
    }
  }

  /** Searching "dan" keeps Dan as a highlighted exact match. */
  lemma DanExample()
    ensures SearchTree(Dan, "dan", "All", "All") ==
      Some(Filtered("Dan", "Sales Rep", "Sales", "", Metrics(2.5, "", "", ""), true, true, []))
  {
    DanNameMatches();
    assert SearchReports(Dan, "dan", "All", "All") == [];
  }

  /** Searching "dan" keeps Carol only as the path to Dan: unflagged,
      holding Dan as her one report. */
  lemma CarolExample()
    ensures SearchTree(Carol, "dan", "All", "All") ==
      Some(Filtered("Carol", "CEO", "Executive", "", Metrics(4.5, "", "", ""), false, false,
        [Filtered("Dan", "Sales Rep", "Sales", "", Metrics(2.5, "", "", ""), true, true, [])]))
  {
    var danOut := Filtered("Dan", "Sales Rep", "Sales", "", Metrics(2.5, "", "", ""), true, true, []);
    assert !IsMatch(Carol, "dan", "All", "All") by {
      CarolNameMisses();
    }
    assert Compact(SearchReports(Carol, "dan", "All", "All")) == [danOut] by {
      DanExample();
      assert SearchReports(Carol, "dan", "All", "All") == [Some(danOut)];
      assert Compact([Some(danOut)]) == [danOut];
    }
  }

  /** The forest holding only the executive, searched for "dan". */
  lemma SearchExample()
    ensures FilterForest([Carol], "dan", "All", "All") ==
      [Filtered("Carol", "CEO", "Executive", "", Metrics(4.5, "", "", ""), false, false,
         [Filtered("Dan", "Sales Rep", "Sales", "", Metrics(2.5, "", "", ""), true, true, [])])]
  {
    var carolOut := Filtered("Carol", "CEO", "Executive", "", Metrics(4.5, "", "", ""), false, false,
      [Filtered("Dan", "Sales Rep", "Sales", "", Metrics(2.5, "", "", ""), true, true, [])]);
    CarolExample();
    FilterForestSingle(Carol, "dan", "All", "All");
  }
}
