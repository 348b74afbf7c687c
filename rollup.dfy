/**
 * The rollup reducer: over a stream of groups sorted by their key, it tells
 * the handler where each rollup level closes and opens, hands it each group,
 * and drains what the handler left, so that closes see the group's last record.
 */
module Rollup {
  import opened Results
  import opened Tuples

  /** A record's key: its values in common-schema order, the group-by fields first. */
  type Key = seq<Value>

  /** A call the reducer makes on its handler. */
  datatype Event =
    | Open(depth: int, field: string, key: Key)              // onOpenGroup
    | Close(depth: int, field: string, last: Option<Key>)    // onCloseGroup
    | Elements(group: Key)                                   // onGroupElements, with the group-by view

  /**
   * Where a run stands: whether the next group is the first, the record the
   * stream is at, the handler calls so far, and whether the run is still going
   * (false once an index outside the group-by fields was asked for).
   */
  datatype RunState = RunState(first: bool, current: Option<Key>, events: seq<Event>, ok: bool)

  /** Every record of a group has all the group-by fields, and a group has at least one record. */
  ghost predicate GroupFits(fields: seq<string>, group: seq<Key>)
  {
    |group| >= 1 && forall r | 0 <= r < |group| :: |group[r]| >= |fields|
  }

  ghost predicate GroupsFit(fields: seq<string>, groups: seq<seq<Key>>)
  {
    forall g | 0 <= g < |groups| :: GroupFits(fields, groups[g])
  }

  /** The state has a record to compare with once the first group is behind it. */
  ghost predicate StateFits(fields: seq<string>, s: RunState)
  {
    && (s.current.Some? ==> |s.current.value| >= |fields|)
    && (!s.first ==> s.current.Some?)
  }

  function Last(group: seq<Key>): Key
    requires |group| >= 1
  {
    group[|group| - 1]
  }

  /** FilteredReadOnlyTuple: the record seen through the group-by fields only. */
  function GroupView(fields: seq<string>, key: Key): (view: Key)
    requires |key| >= |fields|
    ensures |view| == |fields| && view <= key
  {
    key[..|fields|]
  }

  /**
   * The smallest depth in [lo, hi] at which two keys differ, or -1 when they
   * agree on all of them.
   */
  function FirstMismatch(k1: Key, k2: Key, lo: nat, hi: int): (r: int)
    requires hi < |k1| && hi < |k2|
    ensures r == -1 || lo <= r <= hi
    decreases hi - lo
  {
    if lo > hi then -1
    else if k1[lo] != k2[lo] then lo
    else FirstMismatch(k1, k2, lo + 1, hi)
  }

  /**
   * FirstMismatch is -1 exactly when the keys agree on every depth in
   * [lo, hi]; otherwise the keys differ there and agree on every depth before it.
   */
  lemma {:induction false} FirstMismatchSpec(k1: Key, k2: Key, lo: nat, hi: int)
    requires hi < |k1| && hi < |k2|
    ensures FirstMismatch(k1, k2, lo, hi) == -1 <==> forall i | lo <= i <= hi :: k1[i] == k2[i]
    ensures var r := FirstMismatch(k1, k2, lo, hi);
            r != -1 ==> k1[r] != k2[r] && forall i | lo <= i < r :: k1[i] == k2[i]
    decreases hi - lo
  {
    if lo <= hi && k1[lo] == k2[lo] {
      FirstMismatchSpec(k1, k2, lo + 1, hi);
    }
  }

  /**
   * indexMismatch as written: depths lo up to hi are scanned with the previous
   * key's `equals`, so the scan returns the first depth where the keys differ,
   * -1 when there is none, or None when it throws: on a depth below 0 (the
   * common schema's field lookup) or on a null in the previous key.
   */
  function ScanMismatch(k1: Key, k2: Key, lo: int, hi: int): (r: Option<int>)
    requires hi < |k1| && hi < |k2|
    ensures r.Some? ==> r.value == -1 || 0 <= lo <= r.value <= hi
    decreases hi - lo
  {
    if lo > hi then Some(-1)
    else if lo < 0 then None
    else if k1[lo].Null? then None
    else if k1[lo] != k2[lo] then Some(lo)
    else ScanMismatch(k1, k2, lo + 1, hi)
  }

  /** The previous key has a null at the depth `i` the scan reaches, all depths before it in [lo, i) being equal. */
  ghost predicate NullReached(k1: Key, k2: Key, lo: int, i: int)
  {
    0 <= i < |k1| && k1[i].Null? && forall j | lo <= j < i && 0 <= j < |k2| :: j < |k1| && k1[j] == k2[j]
  }

  /**
   * The scan throws exactly when it reaches a null in the previous key;
   * otherwise it finds the first depth where the keys differ.
   */
  lemma {:induction false} ScanMismatchSpec(k1: Key, k2: Key, lo: nat, hi: int)
    requires hi < |k1| && hi < |k2|
    ensures ScanMismatch(k1, k2, lo, hi).None? <==> exists i | lo <= i <= hi :: NullReached(k1, k2, lo, i)
    ensures ScanMismatch(k1, k2, lo, hi).Some? ==> ScanMismatch(k1, k2, lo, hi).value == FirstMismatch(k1, k2, lo, hi)
    decreases hi - lo
  {
    if lo > hi {
    } else if k1[lo].Null? {
      assert NullReached(k1, k2, lo, lo);
    } else if k1[lo] != k2[lo] {
      forall i | lo <= i <= hi
        ensures !NullReached(k1, k2, lo, i)
      {
        if i > lo {
          assert !(k1[lo] == k2[lo]);
        }
      }
    } else {
      ScanMismatchSpec(k1, k2, lo + 1, hi);
      if ScanMismatch(k1, k2, lo, hi).None? {
        var i :| lo + 1 <= i <= hi && NullReached(k1, k2, lo + 1, i);
        assert NullReached(k1, k2, lo, i);
      } else {
        forall i | lo <= i <= hi
          ensures !NullReached(k1, k2, lo, i)
        {
          if i > lo && NullReached(k1, k2, lo, i) {
            assert NullReached(k1, k2, lo + 1, i);
          }
        }
      }
    }
  }

  /** Closes of depths hi down to lo, deepest first. */
  function CloseRun(fields: seq<string>, hi: int, lo: nat, key: Option<Key>): (r: seq<Event>)
    requires hi < |fields|
    decreases hi - lo
  {
    if lo > hi then [] else CloseRun(fields, hi, lo + 1, key) + [Close(lo, fields[lo], key)]
  }

  /** Opens of depths lo up to hi, shallowest first. */
  function OpenRun(fields: seq<string>, lo: nat, hi: int, key: Key): (r: seq<Event>)
    requires hi < |fields|
    decreases hi - lo
  {
    if hi < lo then [] else OpenRun(fields, lo, hi - 1, key) + [Open(hi, fields[hi], key)]
  }

  /**
   * `reduce` for one group. The first group opens minDepth..maxDepth; with a
   * negative minDepth (no partitioner fields) its first open asks for depth -1
   * and fails. A later group scans [minDepth, maxDepth] against the previous
   * record and fails when the scan throws; otherwise it closes maxDepth down
   * to the first depth where the two differ, then reopens from there. A later
   * group that agrees with the previous record on every depth scanned closes
   * maxDepth down to 0 and then fails on depth -1. The handler then gets the
   * group, and the stream ends up at the group's last record.
   */
  function ReduceStep(fields: seq<string>, minDepth: int, s: RunState, group: seq<Key>): (r: RunState)
    requires StateFits(fields, s) && GroupFits(fields, group)
    ensures StateFits(fields, r) && !r.first
  {
    var key := group[0];
    var maxDepth := |fields| - 1;
    if s.first then
      if minDepth < 0 then RunState(false, Some(key), s.events, false)
      else RunState(false, Some(Last(group)), s.events + OpenRun(fields, minDepth, maxDepth, key) + [Elements(GroupView(fields, key))], true)
    else
      match ScanMismatch(s.current.value, key, minDepth, maxDepth)
      case None => RunState(false, Some(key), s.events, false)
      case Some(mismatch) =>
        if mismatch == -1 then
          RunState(false, Some(key), s.events + CloseRun(fields, maxDepth, 0, s.current), false)
        else
          RunState(false, Some(Last(group)),
                   s.events + CloseRun(fields, maxDepth, mismatch, s.current) + OpenRun(fields, mismatch, maxDepth, key)
                   + [Elements(GroupView(fields, key))], true)
  }

  /** The first n groups reduced in turn; a failed run stays as it failed. */
  function ReduceAll(fields: seq<string>, minDepth: int, groups: seq<seq<Key>>, n: nat): (r: RunState)
    requires n <= |groups| && GroupsFit(fields, groups)
    ensures StateFits(fields, r)
  {
    if n == 0 then RunState(true, None, [], true)
    else
      var s := ReduceAll(fields, minDepth, groups, n - 1);
      if !s.ok then s else ReduceStep(fields, minDepth, s, groups[n - 1])
  }

  /**
   * Between groups of a run still going, the reducer waits for its first group
   * only before any group, and after a group the stream is at its last record
   * (drained).
   */
  lemma {:induction false} ReduceAllPosition(fields: seq<string>, minDepth: int, groups: seq<seq<Key>>, n: nat)
    requires n <= |groups| && GroupsFit(fields, groups)
    requires ReduceAll(fields, minDepth, groups, n).ok
    ensures ReduceAll(fields, minDepth, groups, n).first <==> n == 0
    ensures n > 0 ==> ReduceAll(fields, minDepth, groups, n).current == Some(Last(groups[n - 1]))
  {
    if n > 0 {
      ReduceAllPosition(fields, minDepth, groups, n - 1);
    }
  }

  /**
   * `run`: every group reduced, then maxDepth down to minDepth closed with the
   * record the stream is at; with a negative minDepth the closes go down to 0
   * and then fail on depth -1.
   */
  function RunAll(fields: seq<string>, minDepth: int, groups: seq<seq<Key>>): RunState
    requires GroupsFit(fields, groups)
  {
    var s := ReduceAll(fields, minDepth, groups, |groups|);
    if !s.ok then s
    else if minDepth < 0 then s.(events := s.events + CloseRun(fields, |fields| - 1, 0, s.current), ok := false)
    else s.(events := s.events + CloseRun(fields, |fields| - 1, minDepth, s.current))
  }

  /** One more group, on a run still going, is one more ReduceStep. */
  lemma ReduceAllNext(fields: seq<string>, minDepth: int, groups: seq<seq<Key>>, n: nat)
    requires n < |groups| && GroupsFit(fields, groups)
    requires ReduceAll(fields, minDepth, groups, n).ok
    ensures ReduceAll(fields, minDepth, groups, n + 1) == ReduceStep(fields, minDepth, ReduceAll(fields, minDepth, groups, n), groups[n])
  {
  }

  /** Depths lo up to hi. */
  function Depths(lo: int, hi: int): (r: seq<int>)
    ensures |r| == if hi < lo then 0 else hi - lo + 1
    decreases hi - lo
  {
    if hi < lo then [] else Depths(lo, hi - 1) + [hi]
  }

  /**
   * The handler's view of one call, given the depths open so far: an open
   * must be one level deeper than the innermost open depth (minDepth when none
   * is), a close must close the innermost one, and a group must come with
   * every depth up to maxDepth open.
   */
  function Apply(minDepth: int, maxDepth: int, open: seq<int>, e: Event): Option<seq<int>>
  {
    match e
    case Open(d, _, _) =>
      if d == (if open == [] then minDepth else open[|open| - 1] + 1) then Some(open + [d]) else None
    case Close(d, _, _) =>
      if open != [] && open[|open| - 1] == d then Some(open[..|open| - 1]) else None
    case Elements(_) =>
      if open != [] && open[|open| - 1] == maxDepth then Some(open) else None
  }

  /** The depths open after a sequence of calls, or None when a call breaks the nesting. */
  function Replay(minDepth: int, maxDepth: int, open: seq<int>, events: seq<Event>): Option<seq<int>>
  {
    if events == [] then Some(open)
    else
      match Replay(minDepth, maxDepth, open, events[..|events| - 1])
      case None => None
      case Some(o) => Apply(minDepth, maxDepth, o, events[|events| - 1])
  }

  /** Replaying one more call is applying it to the depths the others leave open. */
  lemma ReplaySnoc(minDepth: int, maxDepth: int, open: seq<int>, events: seq<Event>, e: Event)
    ensures Replay(minDepth, maxDepth, open, events + [e])
         == match Replay(minDepth, maxDepth, open, events)
            case None => None
            case Some(o) => Apply(minDepth, maxDepth, o, e)
  {
    assert (events + [e])[..|events|] == events;
  }

  /** Replaying two sequences of calls is replaying the first, then the second from where it left. */
  lemma {:induction false} ReplayAppend(minDepth: int, maxDepth: int, open: seq<int>, a: seq<Event>, b: seq<Event>)
    ensures Replay(minDepth, maxDepth, open, a + b)
         == match Replay(minDepth, maxDepth, open, a)
            case None => None
            case Some(o) => Replay(minDepth, maxDepth, o, b)
    decreases |b|
  {
    if b == [] {
      assert a + b == a;
    } else {
      var init, e := b[..|b| - 1], b[|b| - 1];
      assert b == init + [e];
      assert a + b == (a + init) + [e];
      ReplaySnoc(minDepth, maxDepth, open, a + init, e);
      ReplayAppend(minDepth, maxDepth, open, a, init);
      var r := Replay(minDepth, maxDepth, open, a);
      if r.Some? {
        ReplaySnoc(minDepth, maxDepth, r.value, init, e);
      }
    }
  }

  /** Calls that lead from open to mid, followed by calls that lead from mid to end, lead from open to end. */
  lemma ReplayThrough(minDepth: int, maxDepth: int, open: seq<int>, a: seq<Event>, b: seq<Event>, mid: seq<int>, end: seq<int>)
    requires Replay(minDepth, maxDepth, open, a) == Some(mid)
    requires Replay(minDepth, maxDepth, mid, b) == Some(end)
    ensures Replay(minDepth, maxDepth, open, a + b) == Some(end)
  {
    ReplayAppend(minDepth, maxDepth, open, a, b);
  }

  /** A group handed over with every depth minDepth..maxDepth open leaves them open. */
  lemma HandOverAllOpen(minDepth: int, maxDepth: int, e: Event)
    requires minDepth <= maxDepth && e.Elements?
    ensures Replay(minDepth, maxDepth, Depths(minDepth, maxDepth), [e]) == Some(Depths(minDepth, maxDepth))
  {
    ReplaySnoc(minDepth, maxDepth, Depths(minDepth, maxDepth), [], e);
    assert [] + [e] == [e];
    assert Depths(minDepth, maxDepth) == Depths(minDepth, maxDepth - 1) + [maxDepth];
  }

  /** Opening depth d with minDepth..d - 1 open leaves minDepth..d open. */
  lemma OpenNext(minDepth: int, maxDepth: int, d: int, e: Event)
    requires minDepth <= d && e.Open? && e.depth == d
    ensures Apply(minDepth, maxDepth, Depths(minDepth, d - 1), e) == Some(Depths(minDepth, d))
  {
    if d > minDepth {
      assert Depths(minDepth, d - 1) == Depths(minDepth, d - 2) + [d - 1];
    }
  }

  /** Closing depth d with minDepth..d open leaves minDepth..d - 1 open. */
  lemma CloseLast(minDepth: int, maxDepth: int, d: int, e: Event)
    requires minDepth <= d && e.Close? && e.depth == d
    ensures Apply(minDepth, maxDepth, Depths(minDepth, d), e) == Some(Depths(minDepth, d - 1))
  {
    var after := Depths(minDepth, d);
    assert after == Depths(minDepth, d - 1) + [d];
    assert after[..|after| - 1] == Depths(minDepth, d - 1);
  }

  /** Closing hi down to lo, with minDepth..hi open, leaves minDepth..lo - 1 open. */
  lemma {:induction false} ReplayCloses(minDepth: nat, maxDepth: int, fields: seq<string>, hi: int, lo: nat, key: Option<Key>)
    requires hi < |fields| && minDepth <= lo <= hi + 1
    ensures Replay(minDepth, maxDepth, Depths(minDepth, hi), CloseRun(fields, hi, lo, key)) == Some(Depths(minDepth, lo - 1))
    decreases hi - lo
  {
    if lo <= hi {
      var e := Close(lo, fields[lo], key);
      assert CloseRun(fields, hi, lo, key) == CloseRun(fields, hi, lo + 1, key) + [e];
      ReplayCloses(minDepth, maxDepth, fields, hi, lo + 1, key);
      ReplaySnoc(minDepth, maxDepth, Depths(minDepth, hi), CloseRun(fields, hi, lo + 1, key), e);
      CloseLast(minDepth, maxDepth, lo, e);
    }
  }

  /** Opening lo up to hi, with minDepth..lo - 1 open, leaves minDepth..hi open. */
  lemma {:induction false} ReplayOpens(minDepth: nat, maxDepth: int, fields: seq<string>, lo: nat, hi: int, key: Key)
    requires hi < |fields| && minDepth <= lo <= hi + 1
    ensures Replay(minDepth, maxDepth, Depths(minDepth, lo - 1), OpenRun(fields, lo, hi, key)) == Some(Depths(minDepth, hi))
    decreases hi - lo
  {
    if lo <= hi {
      var e := Open(hi, fields[hi], key);
      assert OpenRun(fields, lo, hi, key) == OpenRun(fields, lo, hi - 1, key) + [e];
      ReplayOpens(minDepth, maxDepth, fields, lo, hi - 1, key);
      ReplaySnoc(minDepth, maxDepth, Depths(minDepth, lo - 1), OpenRun(fields, lo, hi - 1, key), e);
      OpenNext(minDepth, maxDepth, hi, e);
    }
  }

  /** A run in progress has every depth minDepth..maxDepth open between groups. */
  ghost predicate AllOpen(fields: seq<string>, minDepth: nat, s: RunState)
  {
    && s.ok
    && (s.first ==> s.events == [])
    && (!s.first ==> Replay(minDepth, |fields| - 1, [], s.events) == Some(Depths(minDepth, |fields| - 1)))
  }

  /**
   * One group keeps the nesting: a group differing from the previous record
   * somewhere in [minDepth, maxDepth] closes and reopens down to that depth,
   * and is handed over with every depth open.
   */
  lemma ReduceStepNests(fields: seq<string>, minDepth: nat, s: RunState, group: seq<Key>)
    requires minDepth <= |fields| - 1
    requires StateFits(fields, s) && GroupFits(fields, group) && AllOpen(fields, minDepth, s)
    requires !s.first ==> Succeeds(s.current.value, group[0], minDepth, |fields| - 1)
    ensures AllOpen(fields, minDepth, ReduceStep(fields, minDepth, s, group))
  {
    var maxDepth := |fields| - 1;
    var key := group[0];
    if !s.first {
      DifferFindsMismatch(s.current.value, key, minDepth, maxDepth);
    }
    var lo: nat := if s.first then minDepth else ScanMismatch(s.current.value, key, minDepth, maxDepth).value;
    var closes := if s.first then [] else CloseRun(fields, maxDepth, lo, s.current);
    var opens := OpenRun(fields, lo, maxDepth, key);
    var handed := Elements(GroupView(fields, key));
    var r := ReduceStep(fields, minDepth, s, group);
    assert r.ok && r.events == s.events + closes + opens + [handed];
    ReduceStepEventsNest(fields, minDepth, s.events, lo, s.current, key, closes, opens, handed);
  }

  /**
   * The events of one group nest: from every depth open, closing down to lo
   * and reopening up to maxDepth leaves every depth open, ready for the group.
   */
  lemma ReduceStepEventsNest(fields: seq<string>, minDepth: nat, before: seq<Event>, lo: nat, previous: Option<Key>, key: Key,
                             closes: seq<Event>, opens: seq<Event>, handed: Event)
    requires minDepth <= lo <= |fields| - 1
    requires before == [] ==> closes == [] && lo == minDepth
    requires before != [] ==> Replay(minDepth, |fields| - 1, [], before) == Some(Depths(minDepth, |fields| - 1))
    requires before != [] ==> closes == CloseRun(fields, |fields| - 1, lo, previous)
    requires opens == OpenRun(fields, lo, |fields| - 1, key)
    requires handed.Elements?
    ensures Replay(minDepth, |fields| - 1, [], before + closes + opens + [handed]) == Some(Depths(minDepth, |fields| - 1))
  {
    var maxDepth := |fields| - 1;
    var all := Depths(minDepth, maxDepth);
    var reopened := Depths(minDepth, lo - 1);
    var e1 := before + closes;
    assert Replay(minDepth, maxDepth, [], e1) == Some(reopened) by {
      if before == [] {
        assert e1 == [];
      } else {
        ReplayCloses(minDepth, maxDepth, fields, maxDepth, lo, previous);
        ReplayThrough(minDepth, maxDepth, [], before, closes, all, reopened);
      }
    }
    assert Replay(minDepth, maxDepth, reopened, opens) == Some(all) by {
      ReplayOpens(minDepth, maxDepth, fields, lo, maxDepth, key);
    }
    ReplayThrough(minDepth, maxDepth, [], e1, opens, reopened, all);
    HandOverAllOpen(minDepth, maxDepth, handed);
    ReplayThrough(minDepth, maxDepth, [], e1 + opens, [handed], all, all);
  }

  /**
   * Consecutive groups differ somewhere in [minDepth, maxDepth]: the last
   * record of one and the first of the next; and the earlier one holds no
   * null there, where the scan would call `equals` on it.
   */
  ghost predicate ConsecutiveGroupsDiffer(fields: seq<string>, minDepth: nat, groups: seq<seq<Key>>)
    requires GroupsFit(fields, groups)
  {
    forall g | 0 < g < |groups| :: Succeeds(Last(groups[g - 1]), groups[g][0], minDepth, |fields| - 1)
  }

  /** The record next may follow the record previous: they differ in [lo, hi], where previous holds no null. */
  ghost predicate Succeeds(previous: Key, next: Key, lo: int, hi: int)
  {
    Differ(previous, next, lo, hi) && NonNullIn(previous, lo, hi)
  }

  /** The key holds no null at any depth in [lo, hi]. */
  ghost predicate NonNullIn(k: Key, lo: int, hi: int)
  {
    forall i | lo <= i <= hi && 0 <= i < |k| :: !k[i].Null?
  }

  /** Two keys differ at some depth in [lo, hi]. */
  ghost predicate Differ(k1: Key, k2: Key, lo: int, hi: int)
  {
    exists i | lo <= i <= hi && 0 <= i < |k1| && i < |k2| :: k1[i] != k2[i]
  }

  /** Keys that differ somewhere in [lo, hi], the first without nulls there, make the scan find a depth. */
  lemma DifferFindsMismatch(k1: Key, k2: Key, lo: nat, hi: int)
    requires hi < |k1| && hi < |k2|
    requires Succeeds(k1, k2, lo, hi)
    ensures ScanMismatch(k1, k2, lo, hi).Some? && ScanMismatch(k1, k2, lo, hi).value != -1
  {
    FirstMismatchSpec(k1, k2, lo, hi);
    ScanMismatchSpec(k1, k2, lo, hi);
    forall i | lo <= i <= hi
      ensures !NullReached(k1, k2, lo, i)
    {
      assert !k1[i].Null?;
    }
  }

  lemma {:induction false} ReduceAllNests(fields: seq<string>, minDepth: nat, groups: seq<seq<Key>>, n: nat)
    requires n <= |groups| && GroupsFit(fields, groups)
    requires minDepth <= |fields| - 1
    requires ConsecutiveGroupsDiffer(fields, minDepth, groups)
    ensures ReduceAll(fields, minDepth, groups, n).ok
    ensures AllOpen(fields, minDepth, ReduceAll(fields, minDepth, groups, n))
  {
    if n > 0 {
      var s := ReduceAll(fields, minDepth, groups, n - 1);
      ReduceAllNests(fields, minDepth, groups, n - 1);
      assert s.ok;
      var group := groups[n - 1];
      assert GroupFits(fields, group);
      if !s.first {
        ReduceAllPosition(fields, minDepth, groups, n - 1);
        assert Succeeds(Last(groups[n - 2]), group[0], minDepth, |fields| - 1);
      }
      ReduceStepNests(fields, minDepth, s, group);
      ReduceAllNext(fields, minDepth, groups, n - 1);
    }
  }

  /**
   * Over a whole run whose consecutive groups differ in [minDepth, maxDepth],
   * nothing fails, every open depth is closed later, innermost first, and
   * each group is handed over with all its depths open.
   */
  lemma RunNests(fields: seq<string>, minDepth: nat, groups: seq<seq<Key>>)
    requires GroupsFit(fields, groups)
    requires minDepth <= |fields| - 1
    requires |groups| > 0
    requires ConsecutiveGroupsDiffer(fields, minDepth, groups)
    ensures RunAll(fields, minDepth, groups).ok
    ensures Replay(minDepth, |fields| - 1, [], RunAll(fields, minDepth, groups).events) == Some([])
  {
    var maxDepth := |fields| - 1;
    var s := ReduceAll(fields, minDepth, groups, |groups|);
    var closes := CloseRun(fields, maxDepth, minDepth, s.current);
    ReduceAllNests(fields, minDepth, groups, |groups|);
    ReduceAllPosition(fields, minDepth, groups, |groups|);
    assert s.ok && !s.first;
    assert Replay(minDepth, maxDepth, [], s.events) == Some(Depths(minDepth, maxDepth));
    assert RunAll(fields, minDepth, groups).events == s.events + closes;
    ReplayAppend(minDepth, maxDepth, [], s.events, closes);
    ReplayCloses(minDepth, maxDepth, fields, maxDepth, minDepth, s.current);
    assert Depths(minDepth, minDepth - 1) == [];
  }

  /** The first of a run of closes is the deepest. */
  lemma {:induction false} CloseRunFirst(fields: seq<string>, hi: int, lo: nat, key: Option<Key>)
    requires hi < |fields| && lo <= hi
    ensures CloseRun(fields, hi, lo, key) != [] && CloseRun(fields, hi, lo, key)[0] == Close(hi, fields[hi], key)
    decreases hi - lo
  {
    if lo < hi {
      CloseRunFirst(fields, hi, lo + 1, key);
    }
  }

  /**
   * A run over no groups still closes maxDepth down to minDepth, with no
   * record, so the handler sees closes of depths that were never opened.
   */
  lemma EmptyRunClosesUnopened(fields: seq<string>, minDepth: nat)
    requires minDepth <= |fields| - 1
    ensures RunAll(fields, minDepth, []).ok
    ensures RunAll(fields, minDepth, []).events == CloseRun(fields, |fields| - 1, minDepth, None)
    ensures Replay(minDepth, |fields| - 1, [], RunAll(fields, minDepth, []).events) == None
  {
    var maxDepth := |fields| - 1;
    var events := CloseRun(fields, maxDepth, minDepth, None);
    CloseRunFirst(fields, maxDepth, minDepth, None);
    assert events == [events[0]] + events[1..];
    ReplayAppend(minDepth, maxDepth, [], [events[0]], events[1..]);
    assert [events[0]][..0] == [];
  }

  /**
   * A group agreeing with the previous record on every depth in
   * [minDepth, maxDepth] closes maxDepth down to 0, including depths below
   * minDepth that were never opened, and then fails.
   */
  lemma MismatchOutsideRangeFails(fields: seq<string>, minDepth: nat, s: RunState, group: seq<Key>)
    requires StateFits(fields, s) && GroupFits(fields, group) && !s.first
    requires forall i | minDepth <= i <= |fields| - 1 :: s.current.value[i] == group[0][i]
    ensures !ReduceStep(fields, minDepth, s, group).ok
    ensures ReduceStep(fields, minDepth, s, group).events
            == s.events + if NonNullIn(s.current.value, minDepth, |fields| - 1) then CloseRun(fields, |fields| - 1, 0, s.current) else []
  {
    var k1, k2, maxDepth := s.current.value, group[0], |fields| - 1;
    ScanAgreeing(k1, k2, minDepth, maxDepth);
  }

  /** Keys agreeing on all of [lo, hi] make the scan find no depth, or throw on a null of the first. */
  lemma ScanAgreeing(k1: Key, k2: Key, lo: nat, hi: int)
    requires hi < |k1| && hi < |k2|
    requires forall i | lo <= i <= hi :: k1[i] == k2[i]
    ensures ScanMismatch(k1, k2, lo, hi) == if NonNullIn(k1, lo, hi) then Some(-1) else None
  {
    FirstMismatchSpec(k1, k2, lo, hi);
    ScanMismatchSpec(k1, k2, lo, hi);
    if NonNullIn(k1, lo, hi) {
      forall i | lo <= i <= hi
        ensures !NullReached(k1, k2, lo, i)
      {
        assert !k1[i].Null?;
      }
    } else {
      var i :| lo <= i <= hi && 0 <= i < |k1| && k1[i].Null?;
      assert NullReached(k1, k2, lo, i);
    }
  }

  /**
   * A previous record holding a null at a depth the scan reaches makes the
   * group fail before any close: `equals` is called on the null.
   */
  lemma NullInPreviousKeyFails(fields: seq<string>, minDepth: nat, s: RunState, group: seq<Key>, i: nat)
    requires StateFits(fields, s) && GroupFits(fields, group) && !s.first
    requires minDepth <= i <= |fields| - 1 && s.current.value[i].Null?
    requires forall j | minDepth <= j < i :: s.current.value[j] == group[0][j]
    ensures !ReduceStep(fields, minDepth, s, group).ok
    ensures ReduceStep(fields, minDepth, s, group).events == s.events
  {
    ScanMismatchSpec(s.current.value, group[0], minDepth, |fields| - 1);
    assert NullReached(s.current.value, group[0], minDepth, i);
  }

  /**
   * With no partitioner fields minDepth is -1: the first group fails on its
   * first open, at depth -1, and a run over no groups closes maxDepth down to
   * 0 and then fails on depth -1.
   */
  lemma NoPartitionerFieldsFails(fields: seq<string>, groups: seq<seq<Key>>)
    requires GroupsFit(fields, groups)
    ensures !RunAll(fields, -1, groups).ok
    ensures RunAll(fields, -1, groups).events == if groups == [] then CloseRun(fields, |fields| - 1, 0, None) else []
  {
    if groups != [] {
      FirstGroupFailsWithoutPartitioner(fields, groups);
      FailureSticks(fields, -1, groups, 1, |groups|);
    }
  }

  /** With minDepth -1 the first group fails before any event. */
  lemma FirstGroupFailsWithoutPartitioner(fields: seq<string>, groups: seq<seq<Key>>)
    requires GroupsFit(fields, groups) && groups != []
    ensures ReduceAll(fields, -1, groups, 1) == RunState(false, Some(groups[0][0]), [], false)
  {
    var s0 := ReduceAll(fields, -1, groups, 0);
    assert s0 == RunState(true, None, [], true);
    ReduceAllNext(fields, -1, groups, 0);
  }

  /**
   * More partitioner fields than group-by fields put minDepth past maxDepth:
   * nothing is ever opened, and the first group is handed over with no close.
   * With one group the run ends there, closing nothing. A second group's scan
   * finds no depth, so it closes maxDepth down to 0 with the first group's
   * last record and then fails on depth -1; the run stands there for good.
   */
  lemma PartitionerBeyondGroupBy(fields: seq<string>, minDepth: nat, groups: seq<seq<Key>>)
    requires GroupsFit(fields, groups)
    requires minDepth > |fields| - 1
    ensures RunAll(fields, minDepth, groups).ok <==> |groups| <= 1
    ensures |groups| >= 1 ==> Handed(RunAll(fields, minDepth, groups).events) == 1
    ensures |groups| == 1 ==> RunAll(fields, minDepth, groups).events == [Elements(GroupView(fields, groups[0][0]))]
    ensures |groups| >= 2 ==> RunAll(fields, minDepth, groups) == ReduceAll(fields, minDepth, groups, 2)
    ensures |groups| >= 2 ==>
              ReduceAll(fields, minDepth, groups, 2).events
              == [Elements(GroupView(fields, groups[0][0]))] + CloseRun(fields, |fields| - 1, 0, Some(Last(groups[0])))
  {
    var maxDepth := |fields| - 1;
    if |groups| >= 1 {
      var s0 := ReduceAll(fields, minDepth, groups, 0);
      assert s0 == RunState(true, None, [], true);
      var first := groups[0];
      var e1 := Elements(GroupView(fields, first[0]));
      assert OpenRun(fields, minDepth, maxDepth, first[0]) == [];
      ReduceAllNext(fields, minDepth, groups, 0);
      var s1 := ReduceAll(fields, minDepth, groups, 1);
      assert s1 == RunState(false, Some(Last(first)), [] + [] + [e1], true);
      assert [] + [] + [e1] == [e1];
      HandedSnoc([], e1);
      if |groups| >= 2 {
        var closes := CloseRun(fields, maxDepth, 0, s1.current);
        assert ScanMismatch(Last(first), groups[1][0], minDepth, maxDepth) == Some(-1);
        ReduceAllNext(fields, minDepth, groups, 1);
        var s2 := ReduceAll(fields, minDepth, groups, 2);
        assert s2 == ReduceStep(fields, minDepth, s1, groups[1]);
        assert s2 == RunState(false, Some(groups[1][0]), [e1] + closes, false);
        HandedCloses(fields, maxDepth, 0, s1.current);
        HandedAppend([e1], closes);
        FailureSticks(fields, minDepth, groups, 2, |groups|);
      } else {
        assert CloseRun(fields, maxDepth, minDepth, s1.current) == [];
        assert [e1] + [] == [e1];
      }
    }
  }

  /** How many groups the handler was handed. */
  function Handed(events: seq<Event>): nat
  {
    if events == [] then 0
    else Handed(events[..|events| - 1]) + (if events[|events| - 1].Elements? then 1 else 0)
  }

  lemma HandedSnoc(a: seq<Event>, e: Event)
    ensures Handed(a + [e]) == Handed(a) + if e.Elements? then 1 else 0
  {
    assert (a + [e])[..|a|] == a;
  }

  lemma {:induction false} HandedAppend(a: seq<Event>, b: seq<Event>)
    ensures Handed(a + b) == Handed(a) + Handed(b)
    decreases |b|
  {
    if b == [] {
      assert a + b == a;
    } else {
      var init, e := b[..|b| - 1], b[|b| - 1];
      assert b == init + [e];
      assert a + b == (a + init) + [e];
      HandedAppend(a, init);
      HandedSnoc(a + init, e);
      HandedSnoc(init, e);
    }
  }

  lemma {:induction false} HandedCloses(fields: seq<string>, hi: int, lo: nat, key: Option<Key>)
    requires hi < |fields|
    ensures Handed(CloseRun(fields, hi, lo, key)) == 0
    decreases hi - lo
  {
    if lo <= hi {
      var e := Close(lo, fields[lo], key);
      assert CloseRun(fields, hi, lo, key) == CloseRun(fields, hi, lo + 1, key) + [e];
      HandedCloses(fields, hi, lo + 1, key);
      HandedSnoc(CloseRun(fields, hi, lo + 1, key), e);
    }
  }

  lemma {:induction false} HandedOpens(fields: seq<string>, lo: nat, hi: int, key: Key)
    requires hi < |fields|
    ensures Handed(OpenRun(fields, lo, hi, key)) == 0
    decreases hi - lo
  {
    if lo <= hi {
      var e := Open(hi, fields[hi], key);
      assert OpenRun(fields, lo, hi, key) == OpenRun(fields, lo, hi - 1, key) + [e];
      HandedOpens(fields, lo, hi - 1, key);
      HandedSnoc(OpenRun(fields, lo, hi - 1, key), e);
    }
  }

  /** Closes and opens hand nothing over; the group call hands over one group. */
  lemma HandedOneGroup(before: seq<Event>, closes: seq<Event>, opens: seq<Event>, handed: Event)
    requires Handed(closes) == 0 && Handed(opens) == 0 && handed.Elements?
    ensures Handed(before + closes + opens + [handed]) == Handed(before) + 1
  {
    HandedAppend(before, closes);
    HandedAppend(before + closes, opens);
    HandedSnoc(before + closes + opens, handed);
  }

  /** A group that does not fail is handed to the handler once. */
  lemma ReduceStepHandsOne(fields: seq<string>, minDepth: int, s: RunState, group: seq<Key>)
    requires StateFits(fields, s) && GroupFits(fields, group)
    requires ReduceStep(fields, minDepth, s, group).ok
    ensures Handed(ReduceStep(fields, minDepth, s, group).events) == Handed(s.events) + 1
  {
    var maxDepth := |fields| - 1;
    var key := group[0];
    var lo: nat := if s.first then minDepth else ScanMismatch(s.current.value, key, minDepth, maxDepth).value;
    var closes := if s.first then [] else CloseRun(fields, maxDepth, lo, s.current);
    var opens := OpenRun(fields, lo, maxDepth, key);
    var handed := Elements(GroupView(fields, key));
    assert ReduceStep(fields, minDepth, s, group).events == s.events + closes + opens + [handed];
    assert Handed(closes) == 0 by {
      if !s.first {
        HandedCloses(fields, maxDepth, lo, s.current);
      }
    }
    HandedOpens(fields, lo, maxDepth, key);
    HandedOneGroup(s.events, closes, opens, handed);
  }

  /** Each reduced group is handed to the handler exactly once. */
  lemma {:induction false} ReduceAllHandsEachGroup(fields: seq<string>, minDepth: int, groups: seq<seq<Key>>, n: nat)
    requires n <= |groups| && GroupsFit(fields, groups)
    requires ReduceAll(fields, minDepth, groups, n).ok
    ensures Handed(ReduceAll(fields, minDepth, groups, n).events) == n
  {
    if n > 0 {
      var s := ReduceAll(fields, minDepth, groups, n - 1);
      assert s.ok;
      ReduceAllHandsEachGroup(fields, minDepth, groups, n - 1);
      ReduceStepHandsOne(fields, minDepth, s, groups[n - 1]);
    }
  }

  /** Over a run that does not fail, the handler is handed every group exactly once. */
  lemma RunHandsEachGroup(fields: seq<string>, minDepth: int, groups: seq<seq<Key>>)
    requires GroupsFit(fields, groups)
    requires RunAll(fields, minDepth, groups).ok
    ensures Handed(RunAll(fields, minDepth, groups).events) == |groups|
  {
    assert minDepth >= 0;
    var s := ReduceAll(fields, minDepth, groups, |groups|);
    ReduceAllHandsEachGroup(fields, minDepth, groups, |groups|);
    HandedCloses(fields, |fields| - 1, minDepth, s.current);
    HandedAppend(s.events, CloseRun(fields, |fields| - 1, minDepth, s.current));
  }

  /** Once a run has failed, further groups change nothing. */
  lemma {:induction false} FailureSticks(fields: seq<string>, minDepth: int, groups: seq<seq<Key>>, k: nat, n: nat)
    requires k <= n <= |groups| && GroupsFit(fields, groups)
    requires !ReduceAll(fields, minDepth, groups, k).ok
    ensures ReduceAll(fields, minDepth, groups, n) == ReduceAll(fields, minDepth, groups, k)
    decreases n - k
  {
    if k < n {
      FailureSticks(fields, minDepth, groups, k, n - 1);
    }
  }

  /** RollupReducer: the depth bounds from setup, the first-iteration flag, the stream's current record and the handler calls. */
  class RollupReducer {
    const groupByFields: seq<string>
    const minDepth: int
    const maxDepth: int
    var firstIteration: bool
    /** context.getCurrentKey(): the record the stream is at. */
    var currentKey: Option<Key>
    /** The calls made on the handler, in order. */
    var events: seq<Event>

    ghost predicate Valid()
    {
      maxDepth == |groupByFields| - 1 && minDepth >= -1
    }

    /** The run as far as it has got, with ok telling whether it is still going. */
    function Snapshot(ok: bool): RunState
      reads this
    {
      RunState(firstIteration, currentKey, events, ok)
    }

    /**
     * setup: maxDepth is the last group-by field, minDepth the last
     * partitioner field (-1 when there is none).
     */
    constructor(groupByFields: seq<string>, partitionerFields: seq<string>)
      ensures Valid()
      ensures this.groupByFields == groupByFields
      ensures maxDepth == |groupByFields| - 1 && minDepth == |partitionerFields| - 1
      ensures firstIteration && currentKey == None && events == []
    {
      this.groupByFields := groupByFields;
      maxDepth := |groupByFields| - 1;
      minDepth := |partitionerFields| - 1;
      firstIteration := true;
      currentKey := None;
      events := [];
    }

    /**
     * indexMismatch: the first depth in [minFieldIndex, maxFieldIndex] where
     * the keys differ, or -1; None where it throws (a negative depth, or a
     * null in tuple1).
     */
    method IndexMismatch(tuple1: Key, tuple2: Key, minFieldIndex: int, maxFieldIndex: int) returns (r: Option<int>)
      requires maxFieldIndex < |tuple1| && maxFieldIndex < |tuple2|
      ensures r == ScanMismatch(tuple1, tuple2, minFieldIndex, maxFieldIndex)
    {
      var i := minFieldIndex;
      while i <= maxFieldIndex
        invariant minFieldIndex <= i
        invariant i <= maxFieldIndex + 1 || i == minFieldIndex
        invariant ScanMismatch(tuple1, tuple2, minFieldIndex, maxFieldIndex) == ScanMismatch(tuple1, tuple2, i, maxFieldIndex)
        decreases maxFieldIndex - i
      {
        if i < 0 || tuple1[i].Null? {
          return None;
        }
        if tuple1[i] != tuple2[i] {
          return Some(i);
        }
        i := i + 1;
      }
      return Some(-1);
    }

    /**
     * handler.onCloseGroup for depths maxDepth down to lo, with the given
     * record; a close asked for at depth -1 fails instead (groupByFields.get(-1)).
     */
    method CloseDepths(lo: int, key: Option<Key>) returns (ok: bool)
      requires Valid() && -1 <= lo
      modifies this`events
      ensures ok == (lo >= 0)
      ensures events == old(events) + CloseRun(groupByFields, maxDepth, if lo >= 0 then lo else 0, key)
    {
      var i := maxDepth;
      while i >= lo
        invariant (lo - 1 <= i || i == maxDepth) && i <= maxDepth && -1 <= i
        invariant events == old(events) + CloseRun(groupByFields, maxDepth, i + 1, key)
        decreases i + 1
      {
        if i < 0 {
          return false;
        }
        events := events + [Close(i, groupByFields[i], key)];
        i := i - 1;
      }
      ok := lo >= 0;
    }

    /**
     * handler.onOpenGroup for depths lo up to maxDepth, with the group's first
     * record; an open asked for at depth -1 fails instead (groupByFields.get(-1)).
     */
    method OpenDepths(lo: int, key: Key) returns (ok: bool)
      requires Valid() && -1 <= lo
      modifies this`events
      ensures ok == (lo >= 0)
      ensures events == old(events) + if lo >= 0 then OpenRun(groupByFields, lo, maxDepth, key) else []
    {
      if lo < 0 {
        return false;
      }
      var i := lo;
      while i <= maxDepth
        invariant lo <= i && (i <= maxDepth + 1 || i == lo)
        invariant i <= maxDepth + 1 ==> events == old(events) + OpenRun(groupByFields, lo, i - 1, key)
        invariant i > maxDepth + 1 ==> events == old(events)
        decreases maxDepth - i
      {
        events := events + [Open(i, groupByFields[i], key)];
        i := i + 1;
      }
      ok := true;
    }

    /**
     * After the handler has read `taken` values past the first, the rest of
     * the group is read and dropped, so the stream ends at the group's last record.
     */
    method Drain(group: seq<Key>, taken: nat)
      requires |group| >= 1
      modifies this`currentKey
      ensures currentKey == Some(Last(group))
    {
      var position := 1 + if taken < |group| - 1 then taken else |group| - 1;
      currentKey := Some(group[position - 1]);
      while position < |group|
        invariant 1 <= position <= |group|
        invariant currentKey == Some(group[position - 1])
        decreases |group| - position
      {
        currentKey := Some(group[position]);
        position := position + 1;
      }
    }

    /**
     * reduce: one group, of which the handler consumes `taken` values beyond
     * the first; ok is false when the scan throws (a null in the previous
     * record) or a close or open asks for depth -1.
     */
    method Reduce(group: seq<Key>, taken: nat) returns (ok: bool)
      requires Valid() && GroupFits(groupByFields, group) && StateFits(groupByFields, Snapshot(true))
      modifies this
      ensures Snapshot(ok) == ReduceStep(groupByFields, minDepth, old(Snapshot(true)), group)
    {
      var previousKey := currentKey;
      var key := group[0];
      currentKey := Some(key);
      var indexMismatch: int;
      if firstIteration {
        indexMismatch := minDepth;
        firstIteration := false;
      } else {
        var found := IndexMismatch(previousKey.value, key, minDepth, maxDepth);
        if found.None? {
          return false;
        }
        indexMismatch := found.value;
        ok := CloseDepths(indexMismatch, previousKey);
        if !ok {
          return;
        }
      }
      ok := OpenDepths(indexMismatch, key);
      if !ok {
        return;
      }
      events := events + [Elements(GroupView(groupByFields, key))];
      Drain(group, taken);
      ok := true;
    }

    /** run: the groups in turn, then the closes of the last one; ok is false when a group failed. */
    method Run(groups: seq<seq<Key>>, taken: seq<nat>) returns (ok: bool)
      requires Valid() && |taken| == |groups| && GroupsFit(groupByFields, groups)
      modifies this
      ensures Snapshot(ok) == RunAll(groupByFields, minDepth, groups)
    {
      firstIteration := true;
      currentKey := None;
      events := [];
      var g := 0;
      while g < |groups|
        invariant 0 <= g <= |groups|
        invariant Snapshot(true) == ReduceAll(groupByFields, minDepth, groups, g)
      {
        ok := Reduce(groups[g], taken[g]);
        ReduceAllNext(groupByFields, minDepth, groups, g);
        if !ok {
          FailureSticks(groupByFields, minDepth, groups, g + 1, |groups|);
          return;
        }
        g := g + 1;
      }
      ok := CloseDepths(minDepth, currentKey);
    }
  }
}
