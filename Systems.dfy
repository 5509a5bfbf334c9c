/**
 * Systems and their scheduling: a system has a fixed type tag and priority
 * and a mutable enabled flag. The scene keeps its systems sorted by
 * ascending priority, and one update pass runs every system that is enabled
 * when its turn comes, in that order.
 *
 * A system's own update is client code. Its effect on the schedule is
 * abstracted as an optional Toggle that enables or disables one system of
 * the scene when the update runs.
 */
module Systems {
  import opened Types

  /** A system type, named by an integer tag. */
  type SystemTag = nat

  /** The sort key of a system type; lower values run first. */
  type SystemPriority = int

  class System {
    const tag: SystemTag
    const priority: SystemPriority
    var enabled: bool

    /** A new system is enabled. */
    constructor (tag: SystemTag, priority: SystemPriority)
      ensures this.tag == tag && this.priority == priority && enabled
    {
      this.tag, this.priority := tag, priority;
      enabled := true;
    }

    function IsEnabled(): (r: bool)
      reads this
    {
      enabled
    }

    /** Afterwards the system is enabled exactly when `b` is; repeating the call changes nothing more. */
    method SetEnabled(b: bool)
      modifies this
      ensures enabled == b && IsEnabled() == b
    {
      enabled := b;
    }
  }

  /** The enabled flag of each system of `s`, in order. */
  function EnabledFlags(s: seq<System>): (f: seq<bool>)
    reads s
    ensures |f| == |s| && forall i :: 0 <= i < |s| ==> f[i] == s[i].enabled
  {
    seq(|s|, i requires 0 <= i < |s| reads s => s[i].enabled)
  }

  // ---------------------------------------------------------------------
  // The systems vector: its order and its tags.
  // ---------------------------------------------------------------------

  /** The priorities never decrease along `s`. */
  predicate SortedByPriority(s: seq<System>)
  {
    forall i, j :: 0 <= i < j < |s| ==> s[i].priority <= s[j].priority
  }

  /** The tags of the systems of `s`, in order. */
  function Tags(s: seq<System>): (r: seq<SystemTag>)
    ensures |r| == |s| && forall i :: 0 <= i < |s| ==> r[i] == s[i].tag
  {
    seq(|s|, i requires 0 <= i < |s| => s[i].tag)
  }

  /** No two systems of `s` share a tag. */
  predicate DistinctTags(s: seq<System>)
  {
    forall i, j :: 0 <= i < j < |s| ==> s[i].tag != s[j].tag
  }

  /** No system of `s` has the tag `t`. */
  predicate TagAbsent(s: seq<System>, t: SystemTag)
  {
    forall i :: 0 <= i < |s| ==> s[i].tag != t
  }

  /**
   * `x` inserted into the sorted `s` before the first system of higher
   * priority; a tag that is new keeps the tags distinct.
   */
  function Insert(x: System, s: seq<System>): (r: seq<System>)
    requires SortedByPriority(s)
    ensures SortedByPriority(r)
    ensures multiset(r) == multiset(s) + multiset{x}
    ensures DistinctTags(s) && TagAbsent(s, x.tag) ==> DistinctTags(r)
  {
    if s == [] || x.priority <= s[0].priority then
      [x] + s
    else
      var rest := Insert(x, s[1..]);
      assert s == [s[0]] + s[1..];
      InsertStep(x, s, rest);
      [s[0]] + rest
  }

  /** Consing the smallest system back in front of the insertion into the tail. */
  lemma InsertStep(x: System, s: seq<System>, rest: seq<System>)
    requires s != [] && SortedByPriority(s) && s[0].priority < x.priority
    requires SortedByPriority(rest) && multiset(rest) == multiset(s[1..]) + multiset{x}
    requires DistinctTags(s[1..]) && TagAbsent(s[1..], x.tag) ==> DistinctTags(rest)
    ensures SortedByPriority([s[0]] + rest)
    ensures DistinctTags(s) && TagAbsent(s, x.tag) ==> DistinctTags([s[0]] + rest)
  {
    forall j | 0 <= j < |rest|
      ensures s[0].priority <= rest[j].priority
      ensures rest[j] == x || rest[j] in s[1..]
    {
      assert rest[j] in multiset(rest);
    }
    if DistinctTags(s) && TagAbsent(s, x.tag) {
      forall j | 0 <= j < |rest|
        ensures s[0].tag != rest[j].tag
      {
        if rest[j] != x {
          var i :| 0 <= i < |s[1..]| && s[1..][i] == rest[j];
          assert s[i + 1] == rest[j];
        }
      }
    }
  }

  /**
   * The systems of `s` sorted by ascending priority: a permutation of `s`
   * that keeps distinct tags distinct. Nothing is promised about the order
   * of systems of equal priority.
   */
  function SortByPriority(s: seq<System>): (r: seq<System>)
    ensures SortedByPriority(r)
    ensures multiset(r) == multiset(s)
    ensures DistinctTags(s) ==> DistinctTags(r)
  {
    if s == [] then []
    else
      var rest := SortByPriority(s[1..]);
      assert s == [s[0]] + s[1..];
      TailTagsAbsent(s, rest);
      Insert(s[0], rest)
  }

  /** With distinct tags, no system of a permutation of the tail has the head's tag. */
  lemma TailTagsAbsent(s: seq<System>, rest: seq<System>)
    requires s != [] && multiset(rest) == multiset(s[1..])
    ensures DistinctTags(s) ==> TagAbsent(rest, s[0].tag)
  {
    if DistinctTags(s) {
      forall j | 0 <= j < |rest|
        ensures rest[j].tag != s[0].tag
      {
        assert rest[j] in multiset(s[1..]);
        var i :| 0 <= i < |s[1..]| && s[1..][i] == rest[j];
        assert s[i + 1] == rest[j];
      }
    }
  }

  /** A permutation has the systems, hence the tags, of the original. */
  lemma PermutationTags(s: seq<System>, r: seq<System>, t: SystemTag)
    requires multiset(r) == multiset(s)
    ensures t in Tags(r) <==> t in Tags(s)
  {
    if t in Tags(r) {
      var i :| 0 <= i < |r| && Tags(r)[i] == t;
      assert r[i] in multiset(s);
      var j :| 0 <= j < |s| && s[j] == r[i];
      assert Tags(s)[j] == t;
    }
    if t in Tags(s) {
      var i :| 0 <= i < |s| && Tags(s)[i] == t;
      assert s[i] in multiset(r);
      var j :| 0 <= j < |r| && r[j] == s[i];
      assert Tags(r)[j] == t;
    }
  }

  // ---------------------------------------------------------------------
  // One update pass.
  // ---------------------------------------------------------------------

  /** What a system's update does to the schedule: enable or disable the system `target`. */
  datatype Effect = Toggle(target: SystemTag, enable: bool)

  /** The indices of the systems whose update ran, the final flags, and how the pass ended. */
  datatype Run = Run(ran: seq<nat>, flags: seq<bool>, outcome: Outcome)

  /** `r` with `ran` run before it. */
  function After(ran: seq<nat>, r: Run): Run
  {
    Run(ran + r.ran, r.flags, r.outcome)
  }

  /**
   * The rest of an update pass from position `i`, over systems with tags
   * `tags` and enabled flags `flags`, where `index` maps a tag to its
   * position and `effects` gives the effect of each system's update. The
   * flag of a system is read when its turn comes. An effect naming a system
   * that is not in the scene ends the pass with MissingSystem, after the
   * system whose update raised it has run.
   */
  function Schedule(tags: seq<SystemTag>, index: map<SystemTag, nat>, effects: map<SystemTag, Effect>,
                    flags: seq<bool>, i: nat): (r: Run)
    requires |tags| == |flags| && i <= |flags|
    ensures |r.flags| == |flags|
    ensures forall a :: 0 <= a < |r.ran| ==> i <= r.ran[a] < |flags|
    decreases |flags| - i
  {
    if i == |flags| then Run([], flags, Pass)
    else if !flags[i] then Schedule(tags, index, effects, flags, i + 1)
    else if tags[i] !in effects then After([i], Schedule(tags, index, effects, flags, i + 1))
    else
      var e := effects[tags[i]];
      if e.target in index && index[e.target] < |flags| then
        After([i], Schedule(tags, index, effects, flags[index[e.target] := e.enable], i + 1))
      else
        Run([i], flags, Fail(MissingSystem))
  }

  /** Running `a` and then `b` before `r` is running `a + b` before it. */
  lemma AfterAfter(a: seq<nat>, b: seq<nat>, r: Run)
    ensures After(a, After(b, r)) == After(a + b, r)
  {
    assert a + (b + r.ran) == (a + b) + r.ran;
  }

  /** The indices of `ran` strictly increase: each position at most once, in order. */
  predicate Increasing(ran: seq<nat>)
  {
    forall a, b :: 0 <= a < b < |ran| ==> ran[a] < ran[b]
  }

  lemma ConsIncreasing(i: nat, ran: seq<nat>)
    requires forall a :: 0 <= a < |ran| ==> i < ran[a]
    requires Increasing(ran)
    ensures Increasing([i] + ran)
  {
  }

  /** The systems of a pass run in strictly increasing vector order, each at most once. */
  lemma {:induction false} ScheduleInOrder(tags: seq<SystemTag>, index: map<SystemTag, nat>,
                                           effects: map<SystemTag, Effect>, flags: seq<bool>, i: nat)
    requires |tags| == |flags| && i <= |flags|
    ensures Increasing(Schedule(tags, index, effects, flags, i).ran)
    decreases |flags| - i
  {
    if i == |flags| {
    } else if !flags[i] {
      ScheduleInOrder(tags, index, effects, flags, i + 1);
      assert Schedule(tags, index, effects, flags, i) == Schedule(tags, index, effects, flags, i + 1);
    } else if tags[i] !in effects {
      ScheduleInOrder(tags, index, effects, flags, i + 1);
      var rest := Schedule(tags, index, effects, flags, i + 1);
      assert Schedule(tags, index, effects, flags, i).ran == [i] + rest.ran;
      ConsIncreasing(i, rest.ran);
    } else {
      var e := effects[tags[i]];
      if e.target in index && index[e.target] < |flags| {
        var flags' := flags[index[e.target] := e.enable];
        ScheduleInOrder(tags, index, effects, flags', i + 1);
        var rest := Schedule(tags, index, effects, flags', i + 1);
        assert Schedule(tags, index, effects, flags, i).ran == [i] + rest.ran;
        ConsIncreasing(i, rest.ran);
      } else {
        assert Schedule(tags, index, effects, flags, i).ran == [i];
      }
    }
  }

  /**
   * With no system affecting the schedule, a pass runs exactly the systems
   * enabled at its start and changes no flag.
   */
  lemma {:induction false} ScheduleWithoutEffects(tags: seq<SystemTag>, index: map<SystemTag, nat>,
                                                  flags: seq<bool>, i: nat)
    requires |tags| == |flags| && i <= |flags|
    ensures var r := Schedule(tags, index, map[], flags, i);
            && r.flags == flags && r.outcome == Pass
            && forall j :: j in r.ran <==> i <= j < |flags| && flags[j]
    decreases |flags| - i
  {
    if i < |flags| {
      ScheduleWithoutEffects(tags, index, flags, i + 1);
    }
  }

  /**
   * The flag of system `j` is read when its turn comes: if system `i`, which
   * runs, toggles `j` to `b`, and no system between them affects the
   * schedule, then `j` runs in that pass exactly when `b` is true, whatever
   * its flag was when the pass began.
   */
  lemma ToggleReadAtTurn(tags: seq<SystemTag>, index: map<SystemTag, nat>, effects: map<SystemTag, Effect>,
                         flags: seq<bool>, i: nat, j: nat, b: bool)
    requires |tags| == |flags| && i < j < |flags| && flags[i]
    requires tags[i] in effects && effects[tags[i]] == Toggle(tags[j], b)
    requires tags[j] in index && index[tags[j]] == j
    requires forall k :: i < k < j ==> tags[k] !in effects
    ensures j in Schedule(tags, index, effects, flags, i).ran <==> b
  {
    var flags' := flags[j := b];
    assert Schedule(tags, index, effects, flags, i) == After([i], Schedule(tags, index, effects, flags', i + 1));
    RunsAtTurn(tags, index, effects, flags', i + 1, j);
  }

  /**
   * From position `k` up to `j`, with no system in between affecting the
   * schedule, system `j` runs exactly when its flag is set.
   */
  lemma {:induction false} RunsAtTurn(tags: seq<SystemTag>, index: map<SystemTag, nat>,
                                      effects: map<SystemTag, Effect>, flags: seq<bool>, k: nat, j: nat)
    requires |tags| == |flags| && k <= j < |flags|
    requires forall x :: k <= x < j ==> tags[x] !in effects
    ensures j in Schedule(tags, index, effects, flags, k).ran <==> flags[j]
    decreases j - k
  {
    var r := Schedule(tags, index, effects, flags, k);
    if k == j {
      if flags[j] {
        assert r.ran[0] == j;
      } else {
        var rest := Schedule(tags, index, effects, flags, k + 1);
        assert r == rest;
        assert forall a :: 0 <= a < |rest.ran| ==> rest.ran[a] != j;
      }
    } else {
      RunsAtTurn(tags, index, effects, flags, k + 1, j);
      var rest := Schedule(tags, index, effects, flags, k + 1);
      if flags[k] {
        assert r.ran == [k] + rest.ran;
      } else {
        assert r == rest;
      }
    }
  }

  /** Systems sorted by priority run in non-decreasing priority order. */
  lemma RunsByPriority(s: seq<System>, ran: seq<nat>)
    requires SortedByPriority(s)
    requires forall a :: 0 <= a < |ran| ==> ran[a] < |s|
    requires Increasing(ran)
    ensures forall a, b :: 0 <= a < b < |ran| ==> s[ran[a]].priority <= s[ran[b]].priority
  {
  }
}
