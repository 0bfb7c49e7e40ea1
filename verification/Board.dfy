/** A project's statuses and board columns, and the editor that changes them. */
module Board {
  import opened Wrappers
  import opened Issues

  datatype Category = Todo | InProgress | Done
  datatype StatusRow = StatusRow(project: Id, category: Category)
  datatype Column = Column(id: Id, project: Id, statusId: Id, wipLimit: Option<int>)

  type Statuses = map<Id, StatusRow>

  predicate StatusKnown(statuses: Statuses, project: Id, statusId: Id) {
    statusId in statuses && statuses[statusId].project == project
  }

  /** The limit of the first column found for the status. */
  function LimitOf(columns: seq<Column>, project: Id, statusId: Id): Option<int> {
    if columns == [] then None
    else if columns[0].project == project && columns[0].statusId == statusId then columns[0].wipLimit
    else LimitOf(columns[1..], project, statusId)
  }

  // ---- The column editor

  /** What the request holds under the limit: null or the empty text clears it, anything else is read as
      a number, which for a missing key is none. */
  datatype LimitInput = Cleared | Number(value: int) | NotWhole

  /** The limit to store, or None when the request is refused. */
  function ReadLimit(input: LimitInput): (r: Option<Option<int>>)
    ensures r == Some(None) <==> input.Cleared?
    ensures r.Some? && r.value.Some? ==> 1 <= r.value.value <= 999 && input == Number(r.value.value)
    ensures r.None? <==> input.NotWhole? || (input.Number? && !(1 <= input.value <= 999))
  {
    match input
    case Cleared => Some(None)
    case Number(n) => if n < 1 || n > 999 then None else Some(Some(n))
    case NotWhole => None
  }

  function Place(columns: seq<Column>, project: Id, id: Id): (i: int)
    ensures -1 <= i < |columns|
    ensures 0 <= i ==> columns[i].id == id && columns[i].project == project
    ensures i < 0 ==> forall c <- columns :: c.id != id || c.project != project
  {
    assert columns != [] ==> forall c <- columns :: c in columns[..|columns| - 1] || c == columns[|columns| - 1];
    if columns == [] then -1
    else if columns[|columns| - 1].id == id && columns[|columns| - 1].project == project then |columns| - 1
    else Place(columns[..|columns| - 1], project, id)
  }

  function Limited(columns: seq<Column>, project: Id, id: Id, nameOk: bool, input: LimitInput): seq<Column> {
    var i, limit := Place(columns, project, id), ReadLimit(input);
    if i < 0 || !nameOk || limit.None? then columns else columns[i := columns[i].(wipLimit := limit.value)]
  }

  /** The limits the editor can leave behind. */
  predicate Storable(columns: seq<Column>) {
    forall c <- columns :: c.wipLimit.Some? ==> 1 <= c.wipLimit.value <= 999
  }

  lemma EditsStayStorable(columns: seq<Column>, project: Id, id: Id, nameOk: bool, input: LimitInput)
    requires Storable(columns)
    ensures Storable(Limited(columns, project, id, nameOk, input))
  {
    var after := Limited(columns, project, id, nameOk, input);
    forall c <- after ensures c.wipLimit.Some? ==> 1 <= c.wipLimit.value <= 999 {
      var k :| 0 <= k < |after| && after[k] == c;
      assert columns[k] in columns;
    }
  }

  lemma {:induction false} StorableLimit(columns: seq<Column>, project: Id, statusId: Id)
    requires Storable(columns)
    ensures var limit := LimitOf(columns, project, statusId); limit.Some? ==> 1 <= limit.value <= 999
    decreases |columns|
  {
    if columns != [] {
      assert columns[0] in columns && forall c <- columns[1..] :: c in columns;
      StorableLimit(columns[1..], project, statusId);
    }
  }

  // ---- Deleting a status

  predicate Replaces(statuses: Statuses, project: Id, statusId: Id, replacementId: Id) {
    && StatusKnown(statuses, project, statusId) && StatusKnown(statuses, project, replacementId)
    && statusId != replacementId
  }

  function WithoutStatus(columns: seq<Column>, statusId: Id): (r: seq<Column>)
    ensures forall c :: c in r <==> c in columns && c.statusId != statusId
  {
    if columns == [] then []
    else
      var rest := WithoutStatus(columns[1..], statusId);
      if columns[0].statusId == statusId then rest else [columns[0]] + rest
  }

  class BoardSettings {
    var columns: seq<Column>

    constructor ()
      ensures columns == [] && Storable(columns)
    {
      columns := [];
    }

    /** Sets or clears one limit; every other column stays, and no limit outside 1 to 999 is ever stored. */
    method UpdateColumn(project: Id, id: Id, nameOk: bool, input: LimitInput) returns (status: int)
      modifies this
      ensures columns == Limited(old(columns), project, id, nameOk, input)
      ensures |columns| == |old(columns)|
      ensures forall k :: 0 <= k < |columns| && k != Place(old(columns), project, id) ==> columns[k] == old(columns)[k]
      ensures status == 404 <==> forall c <- old(columns) :: c.id != id || c.project != project
      ensures status == 400 <==>
        (&& (exists c <- old(columns) :: c.id == id && c.project == project)
         && (!nameOk || input == NotWhole || (input.Number? && !(1 <= input.value <= 999))))
      ensures status == 200 || status == 400 || status == 404
      ensures status == 200 ==> LimitOfColumn(columns, project, id) == ReadLimit(input)
      ensures status != 200 ==> columns == old(columns)
      ensures Storable(old(columns)) ==> Storable(columns)
    {
      if Storable(columns) { EditsStayStorable(columns, project, id, nameOk, input); }
      var i, limit := Place(columns, project, id), ReadLimit(input);
      if i < 0 { return 404; }
      if !nameOk || limit.None? { return 400; }
      PlaceStays(columns, project, id, limit.value);
      columns := columns[i := columns[i].(wipLimit := limit.value)];
      status := 200;
    }
  }

  function LimitOfColumn(columns: seq<Column>, project: Id, id: Id): Option<Option<int>> {
    var i := Place(columns, project, id);
    if i < 0 then None else Some(columns[i].wipLimit)
  }

  lemma {:induction false} PlaceStays(columns: seq<Column>, project: Id, id: Id, limit: Option<int>)
    requires Place(columns, project, id) >= 0
    ensures var i := Place(columns, project, id);
      Place(columns[i := columns[i].(wipLimit := limit)], project, id) == i
    decreases |columns|
  {
    var n, i := |columns| - 1, Place(columns, project, id);
    var after := columns[i := columns[i].(wipLimit := limit)];
    if i < n {
      assert after[..n] == columns[..n][i := columns[i].(wipLimit := limit)];
      PlaceStays(columns[..n], project, id, limit);
    }
  }
}
