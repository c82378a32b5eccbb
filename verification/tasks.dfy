/** The task records of the to-do list and the list transformations the
    handlers of `TodoApp` (src/App.jsx) apply to them. */
module Tasks {
  import opened Seqs

  /** Task identity. The application draws ids from the millisecond clock,
      which is not part of this model: new ids are supplied by the caller. */
  type Id = int

  datatype Option<T> = None | Some(value: T)

  /** One to-do item, with the four fields the application stores. */
  datatype Task = Task(id: Id, text: string, category: string, completed: bool)

  /** The ids of `ts`, position by position. */
  function Ids(ts: seq<Task>): (r: seq<Id>)
    ensures |r| == |ts| && forall i :: 0 <= i < |ts| ==> r[i] == ts[i].id
  {
    seq(|ts|, i requires 0 <= i < |ts| => ts[i].id)
  }

  /** Some task of `ts` has id `id`. */
  predicate HasId(ts: seq<Task>, id: Id) {
    exists i :: 0 <= i < |ts| && ts[i].id == id
  }

  /** No two tasks of `ts` share an id. */
  ghost predicate UniqueIds(ts: seq<Task>) {
    forall i, j :: 0 <= i < j < |ts| ==> ts[i].id != ts[j].id
  }

  /** `Array.prototype.find` on the id: the position of the FIRST task with
      id `id`, or None when there is none. */
  function FindFirst(ts: seq<Task>, id: Id): (r: Option<nat>)
    ensures r.None? <==> !HasId(ts, id)
    ensures r.Some? ==> r.value < |ts| && ts[r.value].id == id
                        && forall j :: 0 <= j < r.value ==> ts[j].id != id
  {
    if ts == [] then None
    else if ts[0].id == id then Some(0)
    else
      assert forall i :: 1 <= i < |ts| ==> ts[i] == ts[1..][i - 1];
      match FindFirst(ts[1..], id)
      case None => None
      case Some(k) => Some(k + 1)
  }

  /** The filter of the remove handler: the tasks whose id differs from `id`. */
  function WithoutId(ts: seq<Task>, id: Id): (r: seq<Task>)
    ensures SubsequenceOf(r, ts)
    ensures forall t :: multiset(r)[t] == if t.id != id then multiset(ts)[t] else 0
    ensures forall t :: t in r <==> t in ts && t.id != id
    ensures !HasId(r, id)
    ensures !HasId(ts, id) <==> r == ts
    ensures HasId(ts, id) <==> |r| < |ts|
  {
    var keep := (t: Task) => t.id != id;
    FilterCounts(ts, keep);
    FilterIsSubsequence(ts, keep);
    FilterKeepsAll(ts, keep);
    Filter(ts, keep)
  }

  /** The filter of the visible list when completed tasks are hidden. */
  function Pending(ts: seq<Task>): (r: seq<Task>)
    ensures SubsequenceOf(r, ts)
    ensures forall t :: multiset(r)[t] == if t.completed then 0 else multiset(ts)[t]
    ensures forall t :: t in r <==> t in ts && !t.completed
    ensures forall i :: 0 <= i < |r| ==> !r[i].completed
    ensures (forall i :: 0 <= i < |ts| ==> !ts[i].completed) <==> r == ts
  {
    var keep := (t: Task) => !t.completed;
    FilterCounts(ts, keep);
    FilterIsSubsequence(ts, keep);
    FilterKeepsAll(ts, keep);
    Filter(ts, keep)
  }

  /** The map of the toggle handler: tasks with id `id` get the opposite
      `completed` flag; every other field, and every other task, is kept. */
  function ToggleWhere(ts: seq<Task>, id: Id): (r: seq<Task>)
    ensures |r| == |ts| && Ids(r) == Ids(ts)
    ensures forall i :: 0 <= i < |ts| ==>
              && r[i].text == ts[i].text
              && r[i].category == ts[i].category
              && (r[i].completed <==> (ts[i].completed != (ts[i].id == id)))
  {
    seq(|ts|, i requires 0 <= i < |ts| =>
      if ts[i].id == id then ts[i].(completed := !ts[i].completed) else ts[i])
  }

  /** The map of the save handler: tasks with id `id` get `text`; every other
      field, and every other task, is kept. */
  function RetextWhere(ts: seq<Task>, id: Id, text: string): (r: seq<Task>)
    ensures |r| == |ts| && Ids(r) == Ids(ts)
    ensures forall i :: 0 <= i < |ts| ==>
              && r[i].text == (if ts[i].id == id then text else ts[i].text)
              && r[i].category == ts[i].category
              && r[i].completed == ts[i].completed
  {
    seq(|ts|, i requires 0 <= i < |ts| =>
      if ts[i].id == id then ts[i].(text := text) else ts[i])
  }

  /** Toggling twice with the same id restores the list. */
  lemma ToggleTwice(ts: seq<Task>, id: Id)
    ensures ToggleWhere(ToggleWhere(ts, id), id) == ts
  {
  }

  /** Toggling an id no task carries changes nothing. */
  lemma ToggleAbsent(ts: seq<Task>, id: Id)
    requires !HasId(ts, id)
    ensures ToggleWhere(ts, id) == ts
  {
  }

  /** Retexting an id no task carries changes nothing. */
  lemma RetextAbsent(ts: seq<Task>, id: Id, text: string)
    requires !HasId(ts, id)
    ensures RetextWhere(ts, id, text) == ts
  {
  }

  /** With unique ids, writing back the text `find` returns is the identity. */
  lemma RetextWithOwnText(ts: seq<Task>, id: Id)
    requires UniqueIds(ts)
    requires FindFirst(ts, id).Some?
    ensures RetextWhere(ts, id, ts[FindFirst(ts, id).value].text) == ts
  {
  }

  /** A task appended under a fresh id is exactly what removing that id takes
      away again. */
  lemma RemoveAppended(ts: seq<Task>, t: Task)
    requires !HasId(ts, t.id)
    ensures WithoutId(ts + [t], t.id) == ts
  {
    var keep := (u: Task) => u.id != t.id;
    FilterAppend(ts, [t], keep);
    assert Filter([t], keep) == [];
    FilterKeepsAll(ts, keep);
    assert Filter(ts, keep) == ts;
  }

  /** Putting a task with an id no other task carries in front keeps ids unique. */
  lemma UniqueCons(t: Task, rest: seq<Task>)
    requires UniqueIds(rest)
    requires forall u :: u in rest ==> u.id != t.id
    ensures UniqueIds([t] + rest)
  {
    var r := [t] + rest;
    forall i, j | 0 <= i < j < |r| ensures r[i].id != r[j].id {
      assert r[j] == rest[j - 1];
      if i > 0 {
        assert r[i] == rest[i - 1];
      }
    }
  }

  /** Removing tasks keeps the remaining ids unique. */
  lemma {:induction false} FilterKeepsIdsUnique(ts: seq<Task>, keep: Task -> bool)
    requires UniqueIds(ts)
    ensures UniqueIds(Filter(ts, keep))
  {
    if ts != [] {
      var rest := Filter(ts[1..], keep);
      FilterKeepsIdsUnique(ts[1..], keep);
      FilterCounts(ts[1..], keep);
      if keep(ts[0]) {
        forall u | u in rest ensures u.id != ts[0].id {
          assert u in ts[1..];
          var k :| 0 <= k < |ts[1..]| && ts[1..][k] == u;
          assert ts[k + 1] == u;
        }
        UniqueCons(ts[0], rest);
      }
    }
  }
}
