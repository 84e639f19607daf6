/** The org-chart records: employees as loaded, and the annotated copies the
    search builds from them. */
module OrgChart {

  /** An employee's metrics. Only `rating` takes part in filtering; the other
      fields are carried as opaque display text. */
  datatype Metrics = Metrics(
    rating: real,
    targetAchievement: string,
    engagementScore: string,
    feedback: string)

  /** The `reports` property of a loaded employee, which may be missing. */
  datatype Reports = Absent | Present(list: seq<Employee>)

  /** An employee as loaded: a node of the org-chart tree. */
  datatype Employee = Employee(
    name: string,
    position: string,
    department: string,
    image: string,
    metrics: Metrics,
    reports: Reports)

  /** An employee after the search: the same fields, the two match flags,
      and the surviving reports (always present). */
  datatype Filtered = Filtered(
    name: string,
    position: string,
    department: string,
    image: string,
    metrics: Metrics,
    isHighlighted: bool,
    isExactMatch: bool,
    reports: seq<Filtered>)

  /** The direct reports of `e`, a missing list read as empty; each is
      structurally smaller than `e`. */
  function Children(e: Employee): (r: seq<Employee>)
    ensures forall i :: 0 <= i < |r| ==> r[i] < e
    ensures e.reports.Absent? ==> r == []
  {
    match e.reports
    case Present(rs) => rs
    case Absent => []
  }
}
