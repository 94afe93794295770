/**
 * `recreateRoutinesForToday` of app.js: once per page load, every routine
 * completed before today gets a fresh pending copy, unless a routine with the
 * same title that the form made (one without the `_recreated` mark) was
 * received today.
 */
module Routines {
  import opened Wrappers
  import opened WorkCalendar
  import opened Seqs
  import opened Demands

  /** `existsToday`: a routine with this title, received on `today` and not itself a copy. */
  predicate ExistsToday(ds: seq<Demand>, title: string, today: int) {
    exists x | x in ds :: x.kind == ROUTINE && x.title == title && Day(x.received) == today && !x.recreated
  }

  /** Whether the pass over `ds` copies `d`. */
  predicate DueForCopy(d: Demand, ds: seq<Demand>, today: int) {
    d.kind == ROUTINE && d.completed.Some? && Day(d.completed.value) < today
    && !ExistsToday(ds, d.title, today)
  }

  /** The copy of `d` the pass pushes: a pending routine received now, marked as recreated. */
  function Copy(d: Demand, id: int, now: Instant): Demand {
    Demand(id, d.title, d.description, ROUTINE, now, None, "", true)
  }

  /**
   * `toAdd` after the loop has looked at the first `n` demands, when the id
   * counter stood at `id0` before it.
   */
  function Copies(ds: seq<Demand>, n: nat, id0: int, now: Instant): (r: seq<Demand>)
    requires n <= |ds|
    ensures |r| <= n
  {
    if n == 0 then []
    else
      var prev := Copies(ds, n - 1, id0, now);
      if DueForCopy(ds[n - 1], ds, Day(now)) then prev + [Copy(ds[n - 1], id0 + |prev|, now)]
      else prev
  }

  /** `c` carries the title and description of a demand of `ds` that was due for a copy. */
  predicate CopiedFromDue(c: Demand, ds: seq<Demand>, today: int) {
    exists j | 0 <= j < |ds| ::
      DueForCopy(ds[j], ds, today) && c.title == ds[j].title && c.description == ds[j].description
  }

  /** The shape of an added record: a pending "rotina" copy received now and marked as recreated. */
  predicate FreshCopy(c: Demand, now: Instant) {
    c.kind == ROUTINE && c.completed.None? && c.comment == ""
    && c.recreated && c.received == now
  }

  /**
   * Every record the pass adds is a fresh pending copy with the counter's next
   * id, of the title and description of a completed routine that was due.
   */
  lemma {:induction false} CopiesShape(ds: seq<Demand>, n: nat, id0: int, now: Instant)
    requires n <= |ds|
    ensures forall k | 0 <= k < |Copies(ds, n, id0, now)| ::
      && Copies(ds, n, id0, now)[k].id == id0 + k
      && FreshCopy(Copies(ds, n, id0, now)[k], now)
      && CopiedFromDue(Copies(ds, n, id0, now)[k], ds, Day(now))
  {
    if n > 0 {
      CopiesShape(ds, n - 1, id0, now);
      var prev := Copies(ds, n - 1, id0, now);
      var cs := Copies(ds, n, id0, now);
      forall k | 0 <= k < |cs|
        ensures cs[k].id == id0 + k && FreshCopy(cs[k], now) && CopiedFromDue(cs[k], ds, Day(now))
      {
        if k < |prev| {
          assert cs[k] == prev[k];
        } else {
          assert cs[k] == Copy(ds[n - 1], id0 + |prev|, now);
          assert DueForCopy(ds[n - 1], ds, Day(now));
        }
      }
    }
  }

  /** The pass adds one copy per due demand, no more and no fewer. */
  lemma {:induction false} CopiesCount(ds: seq<Demand>, n: nat, id0: int, now: Instant)
    requires n <= |ds|
    ensures |Copies(ds, n, id0, now)| == |Filter(ds[..n], (d: Demand) => DueForCopy(d, ds, Day(now)))|
  {
    var p := (d: Demand) => DueForCopy(d, ds, Day(now));
    if n > 0 {
      CopiesCount(ds, n - 1, id0, now);
      assert ds[..n] == ds[..n - 1] + [ds[n - 1]];
      FilterConcat(ds[..n - 1], [ds[n - 1]], p);
      FilterOne(ds[n - 1], p);
    }
  }

  /**
   * The pass copies the due demands one to one, in their order in the list:
   * copy `k` is the copy of the `k`-th due demand, with id `id0 + k`.
   */
  lemma {:induction false} CopiesAreDueInOrder(ds: seq<Demand>, n: nat, id0: int, now: Instant)
    requires n <= |ds|
    ensures var due := Filter(ds[..n], (d: Demand) => DueForCopy(d, ds, Day(now)));
      |Copies(ds, n, id0, now)| == |due|
      && forall k | 0 <= k < |due| :: Copies(ds, n, id0, now)[k] == Copy(due[k], id0 + k, now)
  {
    var p := (d: Demand) => DueForCopy(d, ds, Day(now));
    CopiesCount(ds, n, id0, now);
    if n > 0 {
      CopiesAreDueInOrder(ds, n - 1, id0, now);
      CopiesCount(ds, n - 1, id0, now);
      assert ds[..n] == ds[..n - 1] + [ds[n - 1]];
      FilterSnoc(ds[..n - 1], ds[n - 1], p);
      var prevDue := Filter(ds[..n - 1], p);
      var due := Filter(ds[..n], p);
      var prev := Copies(ds, n - 1, id0, now);
      var cs := Copies(ds, n, id0, now);
      forall k | 0 <= k < |due|
        ensures cs[k] == Copy(due[k], id0 + k, now)
      {
        if k < |prevDue| {
          assert due[k] == prevDue[k] && cs[k] == prev[k];
        } else {
          assert due[k] == ds[n - 1] && cs[k] == Copy(ds[n - 1], id0 + |prev|, now);
        }
      }
    }
  }

  /** Copies are marked as recreated, so they never count as a routine that exists today. */
  lemma ExistsTodayIgnoresCopies(ds: seq<Demand>, cs: seq<Demand>, title: string, today: int)
    requires forall c | c in cs :: c.recreated
    ensures ExistsToday(ds + cs, title, today) <==> ExistsToday(ds, title, today)
  {
    if ExistsToday(ds + cs, title, today) {
      var x :| x in ds + cs && x.kind == ROUTINE && x.title == title && Day(x.received) == today && !x.recreated;
      assert x in ds;
    }
  }

  /**
   * The pass does not stop itself: run again on the same day over the list it
   * produced (as a second page load does), it adds as many copies again.
   */
  lemma ReloadRecreatesAgain(ds: seq<Demand>, id0: int, id1: int, now: Instant)
    ensures var cs := Copies(ds, |ds|, id0, now);
      var ds2 := ds + cs;
      |Copies(ds2, |ds2|, id1, now)| == |cs|
  {
    var today := Day(now);
    var cs := Copies(ds, |ds|, id0, now);
    var ds2 := ds + cs;
    CopiesShape(ds, |ds|, id0, now);
    CopiesCount(ds, |ds|, id0, now);
    CopiesCount(ds2, |ds2|, id1, now);
    var p := (d: Demand) => DueForCopy(d, ds, today);
    var p2 := (d: Demand) => DueForCopy(d, ds2, today);
    assert forall c | c in cs :: c.recreated && c.completed.None? by {
      forall c | c in cs ensures c.recreated && c.completed.None? {
        var k :| 0 <= k < |cs| && cs[k] == c;
      }
    }
    forall x | x in ds ensures p(x) == p2(x) {
      ExistsTodayIgnoresCopies(ds, cs, x.title, today);
    }
    assert ds2[..|ds2|] == ds + cs && ds[..|ds|] == ds;
    FilterConcat(ds, cs, p2);
    FilterAgree(ds, p, p2);
    FilterKeepsNone(cs, p2);
  }
}
