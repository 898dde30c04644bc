/**
 * The task list of the to-do screen as a value: an ordered sequence of {id, task}
 * records, and the three list computations its handlers perform (the spread-append of
 * addTask, the map of saveEditTask and the filter of deleteTask).
 */
module TaskList {
  import opened Wrappers

  /** One entry of the list; `task` is the entry's text, as the record field is named. */
  datatype Task = Task(id: string, task: string)

  /** Some entry of `tasks` carries `id`. */
  predicate HasId(tasks: seq<Task>, id: string) {
    exists i :: 0 <= i < |tasks| && tasks[i].id == id
  }

  /** No two entries share an id (what a fresh id per added entry would keep). */
  predicate DistinctIds(tasks: seq<Task>) {
    forall i, j :: 0 <= i < j < |tasks| ==> tasks[i].id != tasks[j].id
  }

  /** The ids of the entries, in list order. */
  function Ids(tasks: seq<Task>): (r: seq<string>)
    ensures |r| == |tasks|
    ensures forall i :: 0 <= i < |tasks| ==> r[i] == tasks[i].id
  {
    if tasks == [] then [] else [tasks[0].id] + Ids(tasks[1..])
  }

  /** The entry with `id` is the one being edited: a null edit id matches no entry. */
  predicate IsEdited(t: Task, editId: Option<string>) {
    editId == Some(t.id)
  }

  /** `[...tasks, { id, task }]`: the new entry goes last and every earlier entry keeps
      its place. */
  function AddEntry(tasks: seq<Task>, id: string, task: string): (r: seq<Task>)
    ensures |r| == |tasks| + 1
    ensures r[..|tasks|] == tasks
    ensures r[|tasks|].id == id && r[|tasks|].task == task
    ensures forall x :: HasId(r, x) <==> HasId(tasks, x) || x == id
  {
    var r := tasks + [Task(id, task)];
    assert forall x :: HasId(tasks, x) ==> HasId(r, x) by {
      forall x | HasId(tasks, x) ensures HasId(r, x) {
        var i :| 0 <= i < |tasks| && tasks[i].id == x;
        assert r[i].id == x;
      }
    }
    assert r[|tasks|].id == id;
    r
  }

  /** `tasks.map(item => item.id === editId ? { ...item, task: text } : item)`: every
      position keeps its id, an edited entry takes `text`, every other keeps its own. */
  function EditEntries(tasks: seq<Task>, editId: Option<string>, text: string): (r: seq<Task>)
    ensures |r| == |tasks|
    ensures forall i :: 0 <= i < |tasks| ==> r[i].id == tasks[i].id
    ensures forall i :: 0 <= i < |tasks| ==>
      r[i].task == (if IsEdited(tasks[i], editId) then text else tasks[i].task)
  {
    if tasks == [] then []
    else
      var head := if IsEdited(tasks[0], editId) then Task(tasks[0].id, text) else tasks[0];
      [head] + EditEntries(tasks[1..], editId, text)
  }

  /** `tasks.filter(item => item.id !== id)`: an entry survives exactly when its id
      differs from `id`, so no entry with `id` is left. */
  function RemoveId(tasks: seq<Task>, id: string): (r: seq<Task>)
    ensures |r| <= |tasks|
    ensures forall t :: t in r <==> t in tasks && t.id != id
    ensures !HasId(r, id)
  {
    if tasks == [] then []
    else if tasks[0].id != id then [tasks[0]] + RemoveId(tasks[1..], id)
    else RemoveId(tasks[1..], id)
  }

  /** `a` is `b` with some entries left out and the others in their original order. */
  predicate Subsequence(a: seq<Task>, b: seq<Task>)
    decreases |b|
  {
    if b == [] then a == []
    else (a != [] && a[0] == b[0] && Subsequence(a[1..], b[1..])) || Subsequence(a, b[1..])
  }

  // ---------------------------------------------------------------- editing

  /** Saving an edit whose id no entry has, or with no edit id at all, changes nothing. */
  lemma {:induction false} EditEntriesUnknownId(tasks: seq<Task>, editId: Option<string>, text: string)
    requires editId.None? || !HasId(tasks, editId.value)
    ensures EditEntries(tasks, editId, text) == tasks
  {
    var r := EditEntries(tasks, editId, text);
    forall i | 0 <= i < |tasks| ensures r[i] == tasks[i] {
      assert !IsEdited(tasks[i], editId);
    }
  }

  /** Saving the same edit twice is the same as saving it once. */
  lemma {:induction false} EditEntriesIdempotent(tasks: seq<Task>, editId: Option<string>, text: string)
    ensures EditEntries(EditEntries(tasks, editId, text), editId, text) == EditEntries(tasks, editId, text)
  {
    var once := EditEntries(tasks, editId, text);
    var twice := EditEntries(once, editId, text);
    forall i | 0 <= i < |tasks| ensures twice[i] == once[i] {
      assert once[i].id == tasks[i].id;
    }
  }

  /** Editing keeps the ids and their order, hence keeps them distinct. */
  lemma {:induction false} EditEntriesKeepsIds(tasks: seq<Task>, editId: Option<string>, text: string)
    ensures Ids(EditEntries(tasks, editId, text)) == Ids(tasks)
    ensures DistinctIds(tasks) ==> DistinctIds(EditEntries(tasks, editId, text))
  {
    var r := EditEntries(tasks, editId, text);
    assert forall i :: 0 <= i < |tasks| ==> Ids(r)[i] == Ids(tasks)[i];
  }

  // ---------------------------------------------------------------- deleting

  /** Deleting an id no entry has leaves the list as it was. */
  lemma {:induction false} RemoveIdAbsent(tasks: seq<Task>, id: string)
    requires !HasId(tasks, id)
    ensures RemoveId(tasks, id) == tasks
  {
    if tasks != [] {
      assert tasks[0].id != id;
      assert forall i :: 0 <= i < |tasks| - 1 ==> tasks[1..][i] == tasks[i + 1];
      RemoveIdAbsent(tasks[1..], id);
      assert tasks == [tasks[0]] + tasks[1..];
    }
  }

  /** Deleting the same id twice is the same as deleting it once. */
  lemma RemoveIdIdempotent(tasks: seq<Task>, id: string)
    ensures RemoveId(RemoveId(tasks, id), id) == RemoveId(tasks, id)
  {
    RemoveIdAbsent(RemoveId(tasks, id), id);
  }

  /** Deleting keeps the surviving entries in their relative order. */
  lemma {:induction false} RemoveIdSubsequence(tasks: seq<Task>, id: string)
    ensures Subsequence(RemoveId(tasks, id), tasks)
  {
    if tasks != [] {
      RemoveIdSubsequence(tasks[1..], id);
      var rest := RemoveId(tasks[1..], id);
      if tasks[0].id != id {
        assert ([tasks[0]] + rest)[1..] == rest;
      }
    }
  }

  /** Deleting works entry by entry: it distributes over concatenation. */
  lemma {:induction false} RemoveIdConcat(a: seq<Task>, b: seq<Task>, id: string)
    ensures RemoveId(a + b, id) == RemoveId(a, id) + RemoveId(b, id)
  {
    if a != [] {
      assert (a + b)[1..] == a[1..] + b;
      RemoveIdConcat(a[1..], b, id);
    } else {
      assert a + b == b;
    }
  }

  /** With distinct ids, deleting an id that is present drops exactly one entry. */
  lemma {:induction false} RemoveIdPresent(tasks: seq<Task>, id: string)
    requires DistinctIds(tasks) && HasId(tasks, id)
    ensures |RemoveId(tasks, id)| == |tasks| - 1
  {
    if tasks[0].id == id {
      assert forall i :: 0 <= i < |tasks| - 1 ==> tasks[1..][i] == tasks[i + 1];
      RemoveIdAbsent(tasks[1..], id);
    } else {
      var i :| 0 <= i < |tasks| && tasks[i].id == id;
      assert tasks[1..][i - 1].id == id;
      RemoveIdPresent(tasks[1..], id);
    }
  }

  /** Deleting keeps the ids distinct. */
  lemma {:induction false} RemoveIdKeepsDistinct(tasks: seq<Task>, id: string)
    requires DistinctIds(tasks)
    ensures DistinctIds(RemoveId(tasks, id))
  {
    if tasks != [] {
      RemoveIdKeepsDistinct(tasks[1..], id);
      var rest := RemoveId(tasks[1..], id);
      if tasks[0].id != id {
        var r := [tasks[0]] + rest;
        forall j | 1 <= j < |r| ensures r[j].id != tasks[0].id {
          assert r[j] in rest;
          var k :| 0 <= k < |tasks| - 1 && tasks[1..][k] == r[j];
          assert tasks[k + 1] == r[j];
        }
      }
    }
  }

  // ---------------------------------------------------------------- adding

  /** Adding an entry under an id no entry has keeps the ids distinct. */
  lemma AddEntryKeepsDistinct(tasks: seq<Task>, id: string, task: string)
    requires DistinctIds(tasks) && !HasId(tasks, id)
    ensures DistinctIds(AddEntry(tasks, id, task))
  {
    var r := AddEntry(tasks, id, task);
    forall i, j | 0 <= i < j < |r| ensures r[i].id != r[j].id {
      if j == |tasks| {
        assert tasks[i] == r[i];
      } else {
        assert tasks[i] == r[i] && tasks[j] == r[j];
      }
    }
  }

  /** Deleting a freshly added entry by its id undoes the add. */
  lemma RemoveAddedEntry(tasks: seq<Task>, id: string, task: string)
    requires !HasId(tasks, id)
    ensures RemoveId(AddEntry(tasks, id, task), id) == tasks
  {
    RemoveIdConcat(tasks, [Task(id, task)], id);
    RemoveIdAbsent(tasks, id);
  }
}
