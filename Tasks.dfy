/**
 * The task list of the Home screen and the pure list transformations behind
 * its four state updates: adding a task, toggling one, deleting one and
 * loading the stored list, plus the pending count shown in the header.
 */
module Tasks {
  import opened JsString

  datatype Option<T> = None | Some(value: T)

  /** One to-do entry: `{id, text, completed}`. */
  datatype Task = Task(id: string, text: string, completed: bool)

  /** The alert each operation raises, reported as a value. */
  datatype Event = TaskAdded | TaskCompleted | TaskPending | TaskDeleted

  /** Some entry of the list carries this id. */
  predicate HasId(tasks: seq<Task>, id: string) {
    exists k :: 0 <= k < |tasks| && tasks[k].id == id
  }

  /** No two entries share an id. */
  predicate UniqueIds(tasks: seq<Task>) {
    forall i, j :: 0 <= i < j < |tasks| ==> tasks[i].id != tasks[j].id
  }

  // ---------------------------------------------------------------- add

  /**
   * The list addTask leaves behind: blank input changes nothing; otherwise a
   * new incomplete task holding the trimmed input goes in front of the old
   * list.
   */
  function Added(tasks: seq<Task>, input: string, freshId: string): (r: seq<Task>)
    ensures AllSpace(input) ==> r == tasks
    ensures !AllSpace(input) ==> |r| == |tasks| + 1 && r[1..] == tasks
    ensures !AllSpace(input) ==> r[0].id == freshId && !r[0].completed && r[0].text == Trim(input)
    ensures !AllSpace(input) ==> r[0].text != [] && !IsSpace(r[0].text[0]) && !IsSpace(r[0].text[|r[0].text| - 1])
  {
    if |Trim(input)| == 0 then tasks else [Task(freshId, Trim(input), false)] + tasks
  }

  /** A fresh id keeps the ids distinct. */
  lemma AddKeepsIdsUnique(tasks: seq<Task>, input: string, freshId: string)
    requires UniqueIds(tasks) && !HasId(tasks, freshId)
    ensures UniqueIds(Added(tasks, input, freshId))
    ensures forall t :: t in tasks ==> t in Added(tasks, input, freshId)
  {
  }

  // ---------------------------------------------------------------- toggle

  /** Array.prototype.find: the first entry with this id, if any. */
  function Find(tasks: seq<Task>, id: string): (r: Option<Task>)
    ensures r.None? <==> !HasId(tasks, id)
    ensures r.Some? ==> r.value in tasks && r.value.id == id
  {
    if tasks == [] then None
    else if tasks[0].id == id then Some(tasks[0])
    else Find(tasks[1..], id)
  }

  /** Find returns the entry at the first position that carries the id. */
  lemma {:induction false} FindFirst(tasks: seq<Task>, id: string, k: nat)
    requires k < |tasks| && tasks[k].id == id
    requires forall j :: 0 <= j < k ==> tasks[j].id != id
    ensures Find(tasks, id) == Some(tasks[k])
  {
    if k > 0 {
      FindFirst(tasks[1..], id, k - 1);
    }
  }

  /** With distinct ids, Find returns the one entry with that id. */
  lemma FindUnique(tasks: seq<Task>, id: string, k: nat)
    requires UniqueIds(tasks)
    requires k < |tasks| && tasks[k].id == id
    ensures Find(tasks, id) == Some(tasks[k])
  {
  }

  /** Array.prototype.map giving every entry with this id the flag c. */
  function SetCompleted(tasks: seq<Task>, id: string, c: bool): (r: seq<Task>)
    ensures |r| == |tasks|
    ensures forall k :: 0 <= k < |tasks| ==>
      r[k] == if tasks[k].id == id then tasks[k].(completed := c) else tasks[k]
  {
    if tasks == [] then []
    else [if tasks[0].id == id then tasks[0].(completed := c) else tasks[0]] + SetCompleted(tasks[1..], id, c)
  }

  /**
   * The list toggleTask leaves behind. An unknown id changes nothing;
   * otherwise the first entry with the id decides the new flag, its
   * negation, and every entry with that id receives it in place.
   */
  function Toggled(tasks: seq<Task>, id: string): (r: seq<Task>)
    ensures |r| == |tasks|
    ensures !HasId(tasks, id) ==> r == tasks
    ensures forall k :: 0 <= k < |tasks| ==> r[k].id == tasks[k].id && r[k].text == tasks[k].text
    ensures forall k :: 0 <= k < |tasks| && tasks[k].id != id ==> r[k] == tasks[k]
    ensures forall k :: 0 <= k < |tasks| && tasks[k].id == id ==> r[k].completed == !Find(tasks, id).value.completed
  {
    match Find(tasks, id)
    case None => tasks
    case Some(t) => SetCompleted(tasks, id, !t.completed)
  }

  /** The alert toggleTask raises: none for an unknown id, else the new state of the task. */
  function ToggleEvent(tasks: seq<Task>, id: string): (e: Option<Event>)
    ensures e.None? <==> !HasId(tasks, id)
    ensures e.Some? ==> (e.value == TaskCompleted <==> !Find(tasks, id).value.completed)
    ensures e.Some? ==> e.value == TaskCompleted || e.value == TaskPending
  {
    match Find(tasks, id)
    case None => None
    case Some(t) => Some(if !t.completed then TaskCompleted else TaskPending)
  }

  /**
   * With distinct ids, toggling a present id flips exactly that entry in
   * place, and the alert reports the flag it now has.
   */
  lemma ToggleFlipsOne(tasks: seq<Task>, id: string, k: nat)
    requires UniqueIds(tasks)
    requires k < |tasks| && tasks[k].id == id
    ensures Toggled(tasks, id) == tasks[..k] + [tasks[k].(completed := !tasks[k].completed)] + tasks[k + 1..]
    ensures ToggleEvent(tasks, id) == Some(if Toggled(tasks, id)[k].completed then TaskCompleted else TaskPending)
  {
  }

  /** Toggling never changes the ids, so it keeps them distinct. */
  lemma ToggleKeepsIdsUnique(tasks: seq<Task>, id: string)
    requires UniqueIds(tasks)
    ensures UniqueIds(Toggled(tasks, id))
  {
  }

  /** With distinct ids, toggling the same id twice restores the list. */
  lemma ToggleTwice(tasks: seq<Task>, id: string)
    requires UniqueIds(tasks)
    ensures Toggled(Toggled(tasks, id), id) == tasks
  {
  }

  /**
   * Without distinct ids the pair does not cancel: both entries end up with
   * the negation of the first one's flag, and toggling again makes both false.
   */
  lemma ToggleTwiceWithDuplicateIds()
    ensures var tasks := [Task("1", "a", false), Task("1", "b", true)];
      Toggled(tasks, "1") == [Task("1", "a", true), Task("1", "b", true)] &&
      Toggled(Toggled(tasks, "1"), "1") == [Task("1", "a", false), Task("1", "b", false)]
  {
  }

  // ---------------------------------------------------------------- delete

  /** Array.prototype.filter keeping the entries whose id differs. */
  function Deleted(tasks: seq<Task>, id: string): (r: seq<Task>)
    ensures |r| <= |tasks|
  {
    if tasks == [] then []
    else (if tasks[0].id == id then [] else [tasks[0]]) + Deleted(tasks[1..], id)
  }

  /** The survivors of a deletion are exactly the entries with another id. */
  lemma {:induction false} DeleteMembers(tasks: seq<Task>, id: string)
    ensures forall t :: t in Deleted(tasks, id) <==> t in tasks && t.id != id
  {
    if tasks != [] {
      DeleteMembers(tasks[1..], id);
      assert tasks == [tasks[0]] + tasks[1..];
    }
  }

  /** Deletion works piecewise, so survivors keep their relative order. */
  lemma {:induction false} DeleteConcat(a: seq<Task>, b: seq<Task>, id: string)
    ensures Deleted(a + b, id) == Deleted(a, id) + Deleted(b, id)
  {
    if a == [] {
      assert a + b == b;
    } else {
      assert (a + b)[1..] == a[1..] + b;
      DeleteConcat(a[1..], b, id);
    }
  }

  /** Deleting an id no entry carries returns the list as it was. */
  lemma {:induction false} DeleteAbsent(tasks: seq<Task>, id: string)
    requires !HasId(tasks, id)
    ensures Deleted(tasks, id) == tasks
  {
    if tasks != [] {
      assert !HasId(tasks[1..], id) by {
        forall i | 0 <= i < |tasks| - 1 ensures tasks[1..][i].id != id {
          assert tasks[1..][i] == tasks[i + 1];
        }
      }
      DeleteAbsent(tasks[1..], id);
    }
  }

  /** Deleting a present id shortens the list. */
  lemma DeletePresentShrinks(tasks: seq<Task>, id: string)
    requires HasId(tasks, id)
    ensures |Deleted(tasks, id)| < |tasks|
  {
  }

  /**
   * With distinct ids, deleting a present id removes exactly that one entry
   * and leaves the others in their order.
   */
  lemma {:induction false} DeleteUnique(tasks: seq<Task>, id: string, k: nat)
    requires UniqueIds(tasks)
    requires k < |tasks| && tasks[k].id == id
    ensures Deleted(tasks, id) == tasks[..k] + tasks[k + 1..]
    ensures |Deleted(tasks, id)| == |tasks| - 1
  {
    var rest := tasks[1..];
    if k == 0 {
      assert !HasId(rest, id) by {
        forall i | 0 <= i < |rest| ensures rest[i].id != id {
          assert rest[i] == tasks[i + 1];
        }
      }
      DeleteAbsent(rest, id);
    } else {
      assert UniqueIds(rest) by {
        forall i, j | 0 <= i < j < |rest| ensures rest[i].id != rest[j].id {
          assert rest[i] == tasks[i + 1] && rest[j] == tasks[j + 1];
        }
      }
      DeleteUnique(rest, id, k - 1);
      assert tasks[..k] == [tasks[0]] + rest[..k - 1];
      assert tasks[k + 1..] == rest[k..];
    }
  }

  /** Putting an entry in front of a list whose ids all differ from its own keeps the ids distinct. */
  lemma ConsKeepsIdsUnique(t: Task, rest: seq<Task>)
    requires UniqueIds(rest)
    requires forall u :: u in rest ==> u.id != t.id
    ensures UniqueIds([t] + rest)
  {
  }

  /** Deletion keeps the ids distinct. */
  lemma {:induction false} DeleteKeepsIdsUnique(tasks: seq<Task>, id: string)
    requires UniqueIds(tasks)
    ensures UniqueIds(Deleted(tasks, id))
  {
    if tasks != [] {
      var rest := tasks[1..];
      assert UniqueIds(rest) by {
        forall i, j | 0 <= i < j < |rest| ensures rest[i].id != rest[j].id {
          assert rest[i] == tasks[i + 1] && rest[j] == tasks[j + 1];
        }
      }
      DeleteKeepsIdsUnique(rest, id);
      DeleteMembers(rest, id);
      if tasks[0].id != id {
        forall u | u in Deleted(rest, id) ensures u.id != tasks[0].id {
          var i :| 0 <= i < |rest| && rest[i] == u;
          assert u == tasks[i + 1];
        }
        ConsKeepsIdsUnique(tasks[0], Deleted(rest, id));
      } else {
        assert Deleted(tasks, id) == Deleted(rest, id);
      }
    }
  }

  // ---------------------------------------------------------------- pending count

  /** Array.prototype.filter keeping the entries not yet completed. */
  function Pending(tasks: seq<Task>): (r: seq<Task>)
    ensures |r| <= |tasks|
  {
    if tasks == [] then []
    else (if tasks[0].completed then [] else [tasks[0]]) + Pending(tasks[1..])
  }

  /** The number shown as "N pending" in the header. */
  function PendingCount(tasks: seq<Task>): (n: nat)
    ensures n <= |tasks|
  {
    |Pending(tasks)|
  }

  /** The positions of the entries not yet completed. */
  ghost function PendingPositions(tasks: seq<Task>): set<nat> {
    set k: nat | k < |tasks| && !tasks[k].completed
  }

  lemma {:induction false} PendingConcat(a: seq<Task>, b: seq<Task>)
    ensures Pending(a + b) == Pending(a) + Pending(b)
  {
    if a == [] {
      assert a + b == b;
    } else {
      assert (a + b)[1..] == a[1..] + b;
      PendingConcat(a[1..], b);
    }
  }

  /** The pending count counts exactly the positions whose task is not completed. */
  lemma {:induction false} PendingCountIsCount(tasks: seq<Task>)
    ensures PendingCount(tasks) == |PendingPositions(tasks)|
    decreases |tasks|
  {
    if tasks != [] {
      var init, last := tasks[..|tasks| - 1], tasks[|tasks| - 1];
      assert tasks == init + [last];
      PendingConcat(init, [last]);
      PendingCountIsCount(init);
      var n := |init|;
      if last.completed {
        assert PendingPositions(tasks) == PendingPositions(init);
      } else {
        assert PendingPositions(tasks) == PendingPositions(init) + {n};
        assert n !in PendingPositions(init);
      }
    }
  }

  /**
   * With distinct ids, toggling a pending task lowers the count by one and
   * toggling a completed task raises it by one.
   */
  lemma ToggleMovesPendingCount(tasks: seq<Task>, id: string, k: nat)
    requires UniqueIds(tasks)
    requires k < |tasks| && tasks[k].id == id
    ensures tasks[k].completed ==> PendingCount(Toggled(tasks, id)) == PendingCount(tasks) + 1
    ensures !tasks[k].completed ==> PendingCount(Toggled(tasks, id)) == PendingCount(tasks) - 1
  {
    ToggleFlipsOne(tasks, id, k);
    var flipped := tasks[k].(completed := !tasks[k].completed);
    assert tasks == tasks[..k] + [tasks[k]] + tasks[k + 1..];
    PendingConcat(tasks[..k] + [tasks[k]], tasks[k + 1..]);
    PendingConcat(tasks[..k], [tasks[k]]);
    PendingConcat(tasks[..k] + [flipped], tasks[k + 1..]);
    PendingConcat(tasks[..k], [flipped]);
  }

  /** Adding a task adds one pending task. */
  lemma AddRaisesPendingCount(tasks: seq<Task>, input: string, freshId: string)
    ensures !AllSpace(input) ==> PendingCount(Added(tasks, input, freshId)) == PendingCount(tasks) + 1
    ensures AllSpace(input) ==> PendingCount(Added(tasks, input, freshId)) == PendingCount(tasks)
  {
  }

  // ---------------------------------------------------------------- load

  /**
   * The list loadTasks leaves behind. `stored` is what storage returned for
   * the key (None when nothing is stored) and `parse` the decoder, None on a
   * decoding failure. Only a non-empty stored value that decodes replaces the
   * list; anything else leaves it as it was.
   */
  function Loaded(tasks: seq<Task>, stored: Option<string>, parse: string -> Option<seq<Task>>): (r: seq<Task>)
    ensures r != tasks ==> stored.Some? && stored.value != "" && parse(stored.value) == Some(r)
    ensures stored.Some? && stored.value != "" && parse(stored.value).Some? ==> r == parse(stored.value).value
    ensures stored.None? || stored.value == "" || parse(stored.value).None? ==> r == tasks
  {
    match stored
    case None => tasks
    case Some(blob) =>
      if blob == "" then tasks
      else match parse(blob)
        case None => tasks
        case Some(decoded) => decoded
  }

  /**
   * Write-through then load. This only instantiates Loaded: the codec
   * round-trip is assumed (the decoder inverts the encoder and encodings are
   * never empty), and under it loading what was saved yields the saved list,
   * whatever list was live before.
   */
  lemma LoadAfterSave(saved: seq<Task>, live: seq<Task>,
                      encode: seq<Task> -> string, parse: string -> Option<seq<Task>>)
    requires encode(saved) != "" && parse(encode(saved)) == Some(saved)
    ensures Loaded(live, Some(encode(saved)), parse) == saved
  {
  }
}
