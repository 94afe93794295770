/**
 * The app's state and the handlers that change it: the `demands` list and
 * the `nextId` counter, with the form's create and edit, the completion
 * dialog, the delete button and the recreation of routines at load.
 * The current instant is a parameter wherever the app reads the clock.
 */
module Store {
  import opened Wrappers
  import opened WorkCalendar
  import opened Demands
  import opened Routines

  /** Why a handler refused: an empty form field, an empty closing comment, an unknown id. */
  datatype Error = MissingField | CommentRequired | NotFound

  datatype Outcome = Saved | Rejected(error: Error)

  /**
   * The store invariant on plain values: the counter is above every id in
   * the list and every id ever handed out, and the list's ids are all
   * among those handed out.
   */
  ghost predicate Counted(ds: seq<Demand>, issued: set<int>, next: int) {
    && IdsBelow(ds, next)
    && (forall i | 0 <= i < |ds| :: ds[i].id in issued)
    && (forall x | x in issued :: x < next)
  }

  /** Handing out the counter as a new record's id keeps the invariant with the counter moved on. */
  lemma IssueNext(ds: seq<Demand>, issued: set<int>, next: int, d: Demand)
    requires Counted(ds, issued, next) && d.id == next
    ensures Counted(ds + [d], issued + {next}, next + 1)
    ensures next !in issued
    ensures UniqueIds(ds) ==> UniqueIds(ds + [d])
  {
    var ds' := ds + [d];
    assert forall i | 0 <= i < |ds'| :: ds'[i] == if i < |ds| then ds[i] else d;
  }

  /** The ids of a run of records. */
  function IdsOf(run: seq<Demand>): set<int> {
    set k | 0 <= k < |run| :: run[k].id
  }

  /** Handing out a run of consecutive ids from the counter keeps the invariant. */
  lemma IssueRun(ds: seq<Demand>, issued: set<int>, next: int, run: seq<Demand>)
    requires Counted(ds, issued, next)
    requires forall k | 0 <= k < |run| :: run[k].id == next + k
    ensures Counted(ds + run, issued + IdsOf(run), next + |run|)
    ensures UniqueIds(ds) ==> UniqueIds(ds + run)
  {
    var all := ds + run;
    forall i | |ds| <= i < |all|
      ensures all[i].id in IdsOf(run)
    {
      assert all[i] == run[i - |ds|];
    }
  }

  class DemandStore {
    var demands: seq<Demand>
    var nextId: int
    /** Every id this session has seen or handed out, deleted ones included. */
    ghost var issued: set<int>

    /** The counter is above every id in the list and every id ever handed out. */
    ghost predicate Valid()
      reads this
    {
      Counted(demands, issued, nextId)
    }

    /** The start of a session: the saved list, and the counter one above its largest id. */
    constructor Load(snapshot: seq<Demand>)
      ensures Valid()
      ensures demands == snapshot && nextId == InitialNextId(snapshot)
    {
      demands := snapshot;
      nextId := InitialNextId(snapshot);
      issued := set i | 0 <= i < |snapshot| :: snapshot[i].id;
    }

    /**
     * The submit handler when no record is being edited: with a complete form
     * it appends one pending record with the counter as id, the trimmed
     * texts and an empty comment, and moves the counter on.
     */
    method Create(title: string, description: string, kind: string, received: Option<Instant>)
      returns (outcome: Outcome)
      requires Valid()
      modifies this
      ensures Valid()
      ensures outcome == if FormComplete(title, description, received) then Saved else Rejected(MissingField)
      ensures outcome.Rejected? ==> demands == old(demands) && nextId == old(nextId) && issued == old(issued)
      ensures outcome.Saved? ==>
        && demands == old(demands) + [Demand(old(nextId), Trim(title), Trim(description), kind, received.value, None, "", false)]
        && nextId == old(nextId) + 1
        && old(nextId) !in old(issued)
        && issued == old(issued) + {old(nextId)}
      ensures old(UniqueIds(demands)) ==> UniqueIds(demands)
    {
      var t, desc := Trim(title), Trim(description);
      if t == [] || desc == [] || received.None? {
        return Rejected(MissingField);
      }
      var newD := Demand(nextId, t, desc, kind, received.value, None, "", false);
      IssueNext(demands, issued, nextId, newD);
      issued := issued + {nextId};
      nextId := nextId + 1;
      demands := demands + [newD];
      return Saved;
    }

    /**
     * The submit handler while record `editingId` is being edited: with a
     * complete form it sets the title, description, type and reception date
     * of the first record with that id; the completion fields and all other
     * records stay as they were. An unknown id changes nothing.
     */
    method Update(editingId: int, title: string, description: string, kind: string, received: Option<Instant>)
      returns (outcome: Outcome)
      requires Valid()
      modifies this
      ensures Valid()
      ensures nextId == old(nextId) && issued == old(issued)
      ensures outcome ==
        if !FormComplete(title, description, received) then Rejected(MissingField)
        else if IndexOf(old(demands), editingId).None? then Rejected(NotFound)
        else Saved
      ensures outcome.Rejected? ==> demands == old(demands)
      ensures outcome.Saved? ==>
        var i := IndexOf(old(demands), editingId).value;
        demands == old(demands)[i := old(demands)[i].(title := Trim(title), description := Trim(description),
                                                      kind := kind, received := received.value)]
      ensures old(UniqueIds(demands)) ==> UniqueIds(demands)
    {
      var t, desc := Trim(title), Trim(description);
      if t == [] || desc == [] || received.None? {
        return Rejected(MissingField);
      }
      var found := IndexOf(demands, editingId);
      if found.None? {
        return Rejected(NotFound);
      }
      var i := found.value;
      var d := demands[i];
      demands := demands[i := d.(title := t, description := desc, kind := kind, received := received.value)];
      return Saved;
    }

    /**
     * The confirm button of the completion dialog: a comment that is empty
     * once trimmed is refused, an unknown id changes nothing, and otherwise
     * the first record with that id gets `now` as completion date and the
     * trimmed comment, and nothing else changes.
     */
    method Complete(pendingCompleteId: int, comment: string, now: Instant) returns (outcome: Outcome)
      requires Valid()
      modifies this
      ensures Valid()
      ensures nextId == old(nextId) && issued == old(issued)
      ensures outcome ==
        if Trim(comment) == [] then Rejected(CommentRequired)
        else if IndexOf(old(demands), pendingCompleteId).None? then Rejected(NotFound)
        else Saved
      ensures outcome.Rejected? ==> demands == old(demands)
      ensures outcome.Saved? ==>
        var i := IndexOf(old(demands), pendingCompleteId).value;
        demands == old(demands)[i := old(demands)[i].(completed := Some(now), comment := Trim(comment))]
      ensures old(UniqueIds(demands)) ==> UniqueIds(demands)
    {
      var c := Trim(comment);
      if c == [] {
        return Rejected(CommentRequired);
      }
      var found := IndexOf(demands, pendingCompleteId);
      if found.None? {
        return Rejected(NotFound);
      }
      var i := found.value;
      demands := demands[i := demands[i].(completed := Some(now), comment := c)];
      return Saved;
    }

    /** The delete button: every record with that id goes, the others stay in order. */
    method Delete(id: int)
      requires Valid()
      modifies this
      ensures Valid()
      ensures demands == Without(old(demands), id)
      ensures nextId == old(nextId) && issued == old(issued)
      ensures old(UniqueIds(demands)) ==> UniqueIds(demands)
    {
      demands := Without(demands, id);
    }

    /**
     * `recreateRoutinesForToday`: appends the copies of the routines due for
     * one, with consecutive ids from the counter; the records already there
     * are not touched.
     */
    method RecreateRoutines(now: Instant)
      requires Valid()
      modifies this
      ensures Valid()
      ensures demands == old(demands) + Copies(old(demands), |old(demands)|, old(nextId), now)
      ensures nextId == old(nextId) + |Copies(old(demands), |old(demands)|, old(nextId), now)|
      ensures old(UniqueIds(demands)) ==> UniqueIds(demands)
    {
      var today := Day(now);
      var toAdd: seq<Demand> := [];
      ghost var id0 := nextId;
      for i := 0 to |demands|
        invariant demands == old(demands) && issued == old(issued)
        invariant toAdd == Copies(demands, i, id0, now)
        invariant nextId == id0 + |toAdd|
      {
        var d := demands[i];
        if d.kind == ROUTINE && d.completed.Some? {
          var completedDay := Day(d.completed.value);
          if completedDay < today {
            var existsToday := exists x | x in demands ::
              x.kind == ROUTINE && x.title == d.title && Day(x.received) == today && !x.recreated;
            if !existsToday {
              toAdd := toAdd + [Demand(nextId, d.title, d.description, ROUTINE, now, None, "", true)];
              nextId := nextId + 1;
            }
          }
        }
      }
      CopiesShape(demands, |demands|, id0, now);
      IssueRun(demands, issued, id0, toAdd);
      issued := issued + IdsOf(toAdd);
      if |toAdd| > 0 {
        demands := demands + toAdd;
      } else {
        assert demands + toAdd == demands;
      }
    }
  }
}
