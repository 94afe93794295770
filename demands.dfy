/**
 * The demand record of app.js and the pure computations over the list of
 * demands: trimming and validating the form, finding a record by id, the list
 * filters and their order, and the dashboard figures.
 */
module Demands {
  import opened Wrappers
  import opened WorkCalendar
  import opened Seqs

  /** The two values of a demand's `type` the app offers and tests for. */
  const ROUTINE: string := "rotina"
  const SPORADIC: string := "esporadica"

  /**
   * One demand. `kind` is the record's `type`; `received` its `receivedDate`;
   * `completed` its `completedDate`, `None` for `null`; `recreated` its
   * `_recreated` mark (absent, hence false, on records made by the form).
   */
  datatype Demand = Demand(
    id: int,
    title: string,
    description: string,
    kind: string,
    received: Instant,
    completed: Option<Instant>,
    comment: string,
    recreated: bool)

  predicate IsPending(d: Demand) { d.completed.None? }

  // ---------- Identifiers ----------

  predicate UniqueIds(ds: seq<Demand>) {
    forall i, j | 0 <= i < j < |ds| :: ds[i].id != ds[j].id
  }

  predicate IdsBelow(ds: seq<Demand>, bound: int) {
    forall i | 0 <= i < |ds| :: ds[i].id < bound
  }

  /** The largest id in a non-empty list. */
  function MaxId(ds: seq<Demand>): (m: int)
    requires ds != []
    ensures forall i | 0 <= i < |ds| :: ds[i].id <= m
    ensures exists i | 0 <= i < |ds| :: ds[i].id == m
  {
    if |ds| == 1 then ds[0].id
    else
      var rest := MaxId(ds[1..]);
      assert forall i | 1 <= i < |ds| :: ds[i] == ds[1..][i - 1];
      if ds[0].id < rest then rest else ds[0].id
  }

  /**
   * The counter a loaded list starts from: one more than its largest id, 1
   * for an empty list. It is the least bound above every id.
   */
  function InitialNextId(ds: seq<Demand>): (n: int)
    ensures IdsBelow(ds, n)
    ensures ds == [] ==> n == 1
    ensures ds != [] ==> exists i | 0 <= i < |ds| :: ds[i].id == n - 1
  {
    if ds == [] then 1 else MaxId(ds) + 1
  }

  /** A record whose id is above every id present keeps the ids unique. */
  lemma AppendKeepsIdsUnique(ds: seq<Demand>, d: Demand, bound: int)
    requires UniqueIds(ds) && IdsBelow(ds, bound) && bound <= d.id
    ensures UniqueIds(ds + [d]) && IdsBelow(ds + [d], d.id + 1)
  {
  }

  /**
   * `demands.find(x => x.id === id)`: the position of the first record with
   * that id, if any.
   */
  function IndexOf(ds: seq<Demand>, id: int): (r: Option<nat>)
    ensures r.Some? ==> r.value < |ds| && ds[r.value].id == id
    ensures r.Some? ==> forall j | 0 <= j < r.value :: ds[j].id != id
    ensures r.None? <==> forall j | 0 <= j < |ds| :: ds[j].id != id
  {
    if ds == [] then None
    else if ds[0].id == id then Some(0)
    else match IndexOf(ds[1..], id)
      case None => None
      case Some(k) => Some(k + 1)
  }

  /** With unique ids, the found record is the only one with that id. */
  lemma IndexOfUnique(ds: seq<Demand>, id: int)
    requires UniqueIds(ds) && IndexOf(ds, id).Some?
    ensures forall j | 0 <= j < |ds| && ds[j].id == id :: j == IndexOf(ds, id).value
  {
  }

  // ---------- Trimming and the form check ----------

  /**
   * What `String.prototype.trim` strips: ECMAScript's WhiteSpace and
   * LineTerminator characters (tab to carriage return, space, no-break
   * space, the Unicode space separators, line and paragraph separators and
   * the byte order mark).
   */
  predicate IsSpace(c: char) {
    || '\t' <= c <= '\r'
    || c == ' '
    || c == '\U{A0}'
    || c == '\U{1680}'
    || '\U{2000}' <= c <= '\U{200A}'
    || c == '\U{2028}' || c == '\U{2029}'
    || c == '\U{202F}' || c == '\U{205F}' || c == '\U{3000}'
    || c == '\U{FEFF}'
  }

  /** The first position at or after `i` that does not hold white space (`|s|` if none). */
  function SkipSpaces(s: string, i: nat): (j: nat)
    requires i <= |s|
    ensures i <= j <= |s|
    ensures forall k | i <= k < j :: IsSpace(s[k])
    ensures j == |s| || !IsSpace(s[j])
    decreases |s| - i
  {
    if i < |s| && IsSpace(s[i]) then SkipSpaces(s, i + 1) else i
  }

  /** Going back from `j` no further than `lo`: the start of the white space that ends at `j`. */
  function BackOverSpaces(s: string, lo: nat, j: nat): (i: nat)
    requires lo <= j <= |s|
    ensures lo <= i <= j
    ensures forall k | i <= k < j :: IsSpace(s[k])
    ensures i == lo || !IsSpace(s[i - 1])
  {
    if lo < j && IsSpace(s[j - 1]) then BackOverSpaces(s, lo, j - 1) else j
  }

  /**
   * `String.prototype.trim`: the slice of `s` between its leading and its
   * trailing white space. Everything outside the slice is white space, the
   * slice neither starts nor ends with white space, and it is empty exactly
   * when `s` holds white space only.
   */
  function Trim(s: string): (r: string)
    ensures var i := SkipSpaces(s, 0);
      && i + |r| <= |s| && r == s[i..i + |r|]
      && (forall k | 0 <= k < i :: IsSpace(s[k]))
      && (forall k | i + |r| <= k < |s| :: IsSpace(s[k]))
    ensures (r == []) <==> (forall k | 0 <= k < |s| :: IsSpace(s[k]))
    ensures r == [] || (!IsSpace(r[0]) && !IsSpace(r[|r| - 1]))
    ensures |r| <= |s|
  {
    var i := SkipSpaces(s, 0);
    var j := BackOverSpaces(s, i, |s|);
    assert i < j ==> s[i..j][0] == s[i] && s[i..j][j - i - 1] == s[j - 1];
    s[i..j]
  }

  /**
   * The submit handler's check: after trimming, the title and the
   * description are non-empty, and a reception date was given (`None` is an
   * empty date field).
   */
  predicate FormComplete(title: string, description: string, received: Option<Instant>) {
    Trim(title) != [] && Trim(description) != [] && received.Some?
  }

  // ---------- Delete ----------

  /** `demands.filter(x => x.id !== id)`. */
  function Without(ds: seq<Demand>, id: int): (r: seq<Demand>)
    ensures forall d | d in r :: d in ds && d.id != id
    ensures forall d | d in ds && d.id != id :: d in r
    ensures UniqueIds(ds) ==> UniqueIds(r)
  {
    var r := Filter(ds, (d: Demand) => d.id != id);
    assert UniqueIds(ds) ==> UniqueIds(r) by {
      if UniqueIds(ds) {
        WithoutKeepsUnique(ds, id);
      }
    }
    r
  }

  lemma {:induction false} WithoutKeepsUnique(ds: seq<Demand>, id: int)
    requires UniqueIds(ds)
    ensures UniqueIds(Filter(ds, (d: Demand) => d.id != id))
    decreases |ds|
  {
    if ds != [] {
      var p := (d: Demand) => d.id != id;
      var rest := ds[1..];
      assert forall i | 0 <= i < |rest| :: rest[i] == ds[i + 1];
      WithoutKeepsUnique(rest, id);
      var tail := Filter(rest, p);
      var r := Filter(ds, p);
      if p(ds[0]) {
        assert r == [ds[0]] + tail;
        forall i, j | 0 <= i < j < |r|
          ensures r[i].id != r[j].id
        {
          assert r[j] == tail[j - 1];
          if i == 0 {
            assert r[j] in tail;
            assert r[j] in rest;
            var k :| 0 <= k < |rest| && rest[k] == r[j];
            assert ds[k + 1] == r[j];
          } else {
            assert r[i] == tail[i - 1];
          }
        }
      } else {
        assert r == tail;
      }
    }
  }

  /**
   * Delete removes exactly the records with the given id and keeps the others
   * in their order: it works record by record.
   */
  lemma DeleteKeepsOrder(a: seq<Demand>, b: seq<Demand>, id: int, x: Demand)
    ensures Without(a + b, id) == Without(a, id) + Without(b, id)
    ensures Without([x], id) == if x.id == id then [] else [x]
  {
    FilterConcat(a, b, (d: Demand) => d.id != id);
    FilterOne(x, (d: Demand) => d.id != id);
  }

  // ---------- Filters and order of the list ----------

  const ALL: string := "all"
  const PENDING: string := "pending"
  const COMPLETED: string := "completed"

  /** The predicate of `renderList`'s filter; an unrecognised filter shows everything. */
  predicate Shown(d: Demand, filter: string) {
    if filter == ALL then true
    else if filter == PENDING then d.completed.None?
    else if filter == COMPLETED then d.completed.Some?
    else if filter == ROUTINE then d.kind == ROUTINE
    else if filter == SPORADIC then d.kind == SPORADIC
    else true
  }

  function Listed(ds: seq<Demand>, filter: string): seq<Demand> {
    Filter(ds, (d: Demand) => Shown(d, filter))
  }

  /** A record added at the end shows at the end of the list exactly when the filter shows it. */
  lemma ListedSnoc(ds: seq<Demand>, x: Demand, filter: string)
    ensures Listed(ds + [x], filter) == Listed(ds, filter) + (if Shown(x, filter) then [x] else [])
  {
    FilterSnoc(ds, x, (d: Demand) => Shown(d, filter));
  }

  /** "all" and any filter the app does not know show the whole list, in order. */
  lemma UnknownFilterShowsAll(ds: seq<Demand>, filter: string)
    requires filter !in [PENDING, COMPLETED, ROUTINE, SPORADIC]
    ensures Listed(ds, filter) == ds
  {
    FilterKeepsAll(ds, (d: Demand) => Shown(d, filter));
  }

  /** "pending" and "completed" split the list: each demand is in exactly one of them. */
  lemma PendingCompletedPartition(ds: seq<Demand>)
    ensures |Listed(ds, PENDING)| + |Listed(ds, COMPLETED)| == |ds|
    ensures multiset(Listed(ds, PENDING)) + multiset(Listed(ds, COMPLETED)) == multiset(ds)
    ensures forall d | d in Listed(ds, PENDING) :: d.completed.None?
    ensures forall d | d in Listed(ds, COMPLETED) :: d.completed.Some?
  {
    FilterPartition(ds, (d: Demand) => Shown(d, PENDING), (d: Demand) => Shown(d, COMPLETED));
  }

  /** Most recent `receivedDate` first. */
  predicate NewestFirst(ds: seq<Demand>) {
    forall i, j | 0 <= i < j < |ds| :: ds[i].received >= ds[j].received
  }

  /** A record no older than the head of a newest-first list can go in front of it. */
  lemma ConsNewestFirst(x: Demand, ds: seq<Demand>)
    requires NewestFirst(ds) && (ds == [] || ds[0].received <= x.received)
    ensures NewestFirst([x] + ds)
  {
    var r := [x] + ds;
    forall i, j | 0 <= i < j < |r|
      ensures r[i].received >= r[j].received
    {
      if i == 0 && j > 1 {
        assert r[1] == ds[0] && r[j] == ds[j - 1];
      }
    }
  }

  /** Places `d` in a newest-first list before the first record not newer than it. */
  function Insert(d: Demand, ds: seq<Demand>): (r: seq<Demand>)
    requires NewestFirst(ds)
    ensures NewestFirst(r)
    ensures multiset(r) == multiset(ds) + multiset{d}
    ensures |r| == |ds| + 1 && (r[0] == d || (ds != [] && r[0] == ds[0]))
  {
    if ds == [] || ds[0].received <= d.received then
      ConsNewestFirst(d, ds);
      [d] + ds
    else
      var rest := Insert(d, ds[1..]);
      assert ds == [ds[0]] + ds[1..];
      assert rest[0].received <= ds[0].received;
      ConsNewestFirst(ds[0], rest);
      [ds[0]] + rest
  }

  /**
   * The order `renderList` shows: `sort` with comparator
   * `b.receivedDate - a.receivedDate`. The result holds the same records,
   * each as often, newest first.
   */
  function SortNewestFirst(ds: seq<Demand>): (r: seq<Demand>)
    ensures NewestFirst(r)
    ensures multiset(r) == multiset(ds)
  {
    if ds == [] then []
    else
      assert ds == [ds[0]] + ds[1..];
      Insert(ds[0], SortNewestFirst(ds[1..]))
  }

  /** What the list shows for a filter: the demands it shows, newest first. */
  function Listing(ds: seq<Demand>, filter: string): (r: seq<Demand>)
    ensures NewestFirst(r)
    ensures multiset(r) == multiset(Listed(ds, filter))
    ensures forall d | d in r :: d in ds && Shown(d, filter)
    ensures forall d | d in ds && Shown(d, filter) :: d in r
  {
    var r := SortNewestFirst(Listed(ds, filter));
    SameElements(r, Listed(ds, filter));
    r
  }

  // ---------- Dashboard ----------

  /** `updateCharts`' counts: completed, pending, routine and sporadic demands. */
  datatype Tally = Tally(completed: int, pending: int, routine: int, sporadic: int)

  /**
   * Pending is computed as the total minus the completed, yet it is exactly
   * the number of demands the "pending" filter shows.
   */
  function Tallies(ds: seq<Demand>): (t: Tally)
    ensures t.completed + t.pending == |ds|
    ensures t.pending == |Listed(ds, PENDING)|
    ensures 0 <= t.completed && 0 <= t.pending
    ensures t.routine + t.sporadic <= |ds|
  {
    PendingCompletedPartition(ds);
    FilterPartition(ds, (d: Demand) => Shown(d, ROUTINE), (d: Demand) => !Shown(d, ROUTINE));
    FilterMonotone(ds, (d: Demand) => Shown(d, SPORADIC), (d: Demand) => !Shown(d, ROUTINE));
    var completed := |Listed(ds, COMPLETED)|;
    Tally(completed, |ds| - completed, |Listed(ds, ROUTINE)|, |Listed(ds, SPORADIC)|)
  }

  /** The completion of a pending demand moves one count from pending to completed. */
  lemma CompletionMovesOneCount(ds: seq<Demand>, i: nat, now: Instant, comment: string)
    requires i < |ds| && ds[i].completed.None?
    ensures var after := ds[i := ds[i].(completed := Some(now), comment := comment)];
      Tallies(after).completed == Tallies(ds).completed + 1
      && Tallies(after).pending == Tallies(ds).pending - 1
      && Tallies(after).routine == Tallies(ds).routine
      && Tallies(after).sporadic == Tallies(ds).sporadic
  {
    var y := ds[i].(completed := Some(now), comment := comment);
    FilterUpdateGains(ds, i, y, (d: Demand) => Shown(d, COMPLETED));
    FilterUpdateKeeps(ds, i, y, (d: Demand) => Shown(d, ROUTINE));
    FilterUpdateKeeps(ds, i, y, (d: Demand) => Shown(d, SPORADIC));
  }

  /** The business time a demand has taken: to its completion, or to `now` while pending. */
  function DemandMs(d: Demand, now: Instant): (ms: int)
    ensures 0 <= ms <= Max(0, d.completed.GetOr(now) - d.received)
  {
    WorkMsAtMostElapsed(d.received, d.completed.GetOr(now));
    WorkMs(Some(d.received), Some(d.completed.GetOr(now)))
  }

  /** Business time summed over all demands. */
  function TotalMs(ds: seq<Demand>, now: Instant): (ms: int)
    ensures 0 <= ms
  {
    if ds == [] then 0 else TotalMs(ds[..|ds| - 1], now) + DemandMs(ds[|ds| - 1], now)
  }

  /** Business time of the demands of type "rotina". */
  function RoutineMs(ds: seq<Demand>, now: Instant): int {
    if ds == [] then 0
    else
      var last := ds[|ds| - 1];
      RoutineMs(ds[..|ds| - 1], now) + (if last.kind == ROUTINE then DemandMs(last, now) else 0)
  }

  /** Business time of every other demand: the sporadic bucket takes all types but "rotina". */
  function SporadicMs(ds: seq<Demand>, now: Instant): int {
    if ds == [] then 0
    else
      var last := ds[|ds| - 1];
      SporadicMs(ds[..|ds| - 1], now) + (if last.kind == ROUTINE then 0 else DemandMs(last, now))
  }

  /** The two buckets share out the total: each demand lands in exactly one. */
  lemma {:induction false} BucketsShareTotal(ds: seq<Demand>, now: Instant)
    ensures RoutineMs(ds, now) + SporadicMs(ds, now) == TotalMs(ds, now)
    ensures 0 <= RoutineMs(ds, now) && 0 <= SporadicMs(ds, now)
    decreases |ds|
  {
    if ds != [] {
      BucketsShareTotal(ds[..|ds| - 1], now);
    }
  }

  lemma TotalMsSnoc(ds: seq<Demand>, d: Demand, now: Instant)
    ensures TotalMs(ds + [d], now) == TotalMs(ds, now) + DemandMs(d, now)
  {
    assert (ds + [d])[..|ds|] == ds;
  }

  /** The routine bucket is the total over what the "rotina" filter shows. */
  lemma {:induction false} RoutineBucketIsRoutineTotal(ds: seq<Demand>, now: Instant)
    ensures RoutineMs(ds, now) == TotalMs(Listed(ds, ROUTINE), now)
    decreases |ds|
  {
    if ds != [] {
      var init, last := ds[..|ds| - 1], ds[|ds| - 1];
      assert ds == init + [last];
      RoutineBucketIsRoutineTotal(init, now);
      ListedSnoc(init, last, ROUTINE);
      var l := Listed(init, ROUTINE);
      assert Shown(last, ROUTINE) <==> last.kind == ROUTINE;
      assert RoutineMs(ds, now) == RoutineMs(init, now) + (if last.kind == ROUTINE then DemandMs(last, now) else 0);
      if last.kind == ROUTINE {
        TotalMsSnoc(l, last, now);
      } else {
        assert l + [] == l;
      }
    }
  }

  /**
   * The hours loop of `updateCharts`, in milliseconds and without the float
   * rounding: "rotina" demands go to the routine bucket, every other type to
   * the sporadic one.
   */
  method HoursByType(ds: seq<Demand>, now: Instant) returns (hoursRotina: int, hoursEspo: int)
    ensures hoursRotina == RoutineMs(ds, now) && hoursEspo == SporadicMs(ds, now)
    ensures hoursRotina + hoursEspo == TotalMs(ds, now)
    ensures 0 <= hoursRotina && 0 <= hoursEspo
  {
    hoursRotina, hoursEspo := 0, 0;
    for i := 0 to |ds|
      invariant hoursRotina == RoutineMs(ds[..i], now)
      invariant hoursEspo == SporadicMs(ds[..i], now)
    {
      var d := ds[i];
      var h := CalculateWorkMs(Some(d.received), Some(d.completed.GetOr(now)));
      assert ds[..i + 1][..i] == ds[..i];
      if d.kind == ROUTINE {
        hoursRotina := hoursRotina + h;
      } else {
        hoursEspo := hoursEspo + h;
      }
    }
    assert ds[..|ds|] == ds;
    BucketsShareTotal(ds, now);
  }
}
