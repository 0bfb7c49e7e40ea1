/** Issue rows and their version numbers.  A writer raises the version of each row it changes, with four
    exceptions: deleting a status moves its issues to another one, merging portal customers renames the
    reporter, a label rule adds a label, and purging an issue takes its id out of its children.  What is
    left is a version that stands for one content, on which copies taken earlier can rely. */
module Issues {
  import opened Wrappers

  type Id = int
  type Fields = map<Id, string>

  datatype Priority = Urgent | High | Medium | Low

  datatype Issue = Issue(
    project: Id, version: nat, summary: string, description: string, priority: Priority, statusId: Id,
    assigneeId: Option<Id>, reporterId: Id, issueTypeId: Id, hierarchyLevelId: Option<Id>, parentId: Option<Id>,
    estimate: Option<int>, dueDate: Option<int>, resolution: Option<string>, completedAt: Option<int>,
    archived: bool, labels: set<string>, fields: Fields)

  type Table = map<Id, Issue>

  /** What the parent column still says once issues were purged: a parent that is gone reads as none. */
  function Kept(issues: Table, parentId: Option<Id>): Option<Id> {
    if parentId.Some? && parentId.value in issues then parentId else None
  }

  /** `b` is `a` but for what changes without a new version: the status if it was deleted, the reporter,
      the labels, and a parent that is no longer among the issues. */
  predicate SameContent(statuses: set<Id>, issues: Table, a: Issue, b: Issue) {
    && a.(statusId := b.statusId, reporterId := b.reporterId, labels := b.labels,
          parentId := Kept(issues, a.parentId)) == b
    && (b.statusId == a.statusId || a.statusId !in statuses)
  }

  /** A row that is still there has the same content or a greater version.  `statuses` are the ids of
      the statuses afterwards. */
  ghost predicate Disciplined(before: Table, statuses: set<Id>, after: Table) {
    forall id <- before :: id in after ==>
      SameContent(statuses, after, before[id], after[id]) || after[id].version > before[id].version
  }

  /** Every parent is an issue that is there. */
  ghost predicate ParentsStored(issues: Table) {
    forall id <- issues :: issues[id].parentId.Some? ==> issues[id].parentId.value in issues
  }
}
