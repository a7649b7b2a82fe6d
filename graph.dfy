/**
 * The dependency graph: a set of ordered pairs (dependee, dependent), where
 * (s, t) says that t depends on s.  It is stored twice, as a map from each
 * dependee to the set of its dependents and as a map from each dependent to
 * the set of its dependees; the two maps mirror each other.  Sets emptied by
 * removals stay behind as map entries, as they do in the source.
 *
 * The source removes elements from a hash set while enumerating it (the .NET
 * hash set allows removal during enumeration); the model enumerates a copy of
 * the set, which visits the same elements.
 *
 * Sets are values here: `GetDependents` and `GetDependees` return a set, not
 * the graph's own hash set, and the `Replace` methods take their new sets by
 * value.  In the source, replacing a node's dependents by its own
 * `GetDependents` empties them, since the removal loop clears the set that is
 * enumerated next; the model does not capture that aliasing.
 */
module DependencyGraphs {

  /** The set a map holds for `k`; empty for a key it does not hold. */
  function Get(m: map<string, set<string>>, k: string): set<string> {
    if k in m then m[k] else {}
  }

  /** The ordered pairs (k, v) with v in the set a map holds for k. */
  ghost function PairsOf(m: map<string, set<string>>): set<(string, string)> {
    set s, t | s in m && t in m[s] :: (s, t)
  }

  /** The pairs whose first component lies in `keys`. */
  ghost function PairsFrom(m: map<string, set<string>>, keys: set<string>): set<(string, string)> {
    set s, t | s in keys && s in m && t in m[s] :: (s, t)
  }

  /** Two maps that index the same pairs, one by first and one by second component. */
  ghost predicate Mirror(forward: map<string, set<string>>, backward: map<string, set<string>>) {
    forall s, t :: t in Get(forward, s) <==> s in Get(backward, t)
  }

  /** Pairs made of one fixed dependee and each member of a set of dependents. */
  ghost function Fan(s: string, ts: set<string>): set<(string, string)> {
    set t | t in ts :: (s, t)
  }

  /** Pairs made of each member of a set of dependees and one fixed dependent. */
  ghost function FanIn(ss: set<string>, t: string): set<(string, string)> {
    set s | s in ss :: (s, t)
  }

  lemma InPairsOf(m: map<string, set<string>>, s: string, t: string)
    ensures (s, t) in PairsOf(m) <==> t in Get(m, s)
  {
    if t in Get(m, s) {
      assert (s, t) in PairsOf(m);
    }
  }

  /** Adding `t` to the set held for `s` adds exactly the pair (s, t). */
  lemma PairsOfAdd(m: map<string, set<string>>, s: string, t: string)
    ensures PairsOf(m[s := Get(m, s) + {t}]) == PairsOf(m) + {(s, t)}
  {
    var m' := m[s := Get(m, s) + {t}];
    forall p | p in PairsOf(m') ensures p in PairsOf(m) + {(s, t)} {
      InPairsOf(m', p.0, p.1);
      InPairsOf(m, p.0, p.1);
    }
    forall p | p in PairsOf(m) + {(s, t)} ensures p in PairsOf(m') {
      InPairsOf(m', p.0, p.1);
      InPairsOf(m, p.0, p.1);
    }
  }

  /** Removing `t` from the set held for `s` removes exactly the pair (s, t). */
  lemma PairsOfRemove(m: map<string, set<string>>, s: string, t: string)
    ensures PairsOf(if s in m then m[s := m[s] - {t}] else m) == PairsOf(m) - {(s, t)}
  {
    var m' := if s in m then m[s := m[s] - {t}] else m;
    forall p | p in PairsOf(m') ensures p in PairsOf(m) - {(s, t)} {
      InPairsOf(m', p.0, p.1);
      InPairsOf(m, p.0, p.1);
    }
    forall p | p in PairsOf(m) - {(s, t)} ensures p in PairsOf(m') {
      InPairsOf(m', p.0, p.1);
      InPairsOf(m, p.0, p.1);
    }
  }

  /** Adding a pair to both indices keeps them mirrored. */
  lemma MirrorAdd(forward: map<string, set<string>>, backward: map<string, set<string>>, s: string, t: string)
    requires Mirror(forward, backward)
    ensures Mirror(forward[s := Get(forward, s) + {t}], backward[t := Get(backward, t) + {s}])
  {
    var f', b' := forward[s := Get(forward, s) + {t}], backward[t := Get(backward, t) + {s}];
    forall a, c ensures c in Get(f', a) <==> a in Get(b', c) {
      assert c in Get(forward, a) <==> a in Get(backward, c);
    }
  }

  /** Removing a pair from both indices keeps them mirrored. */
  lemma MirrorRemove(forward: map<string, set<string>>, backward: map<string, set<string>>, s: string, t: string)
    requires Mirror(forward, backward)
    ensures Mirror(if s in forward then forward[s := forward[s] - {t}] else forward,
                   if t in backward then backward[t := backward[t] - {s}] else backward)
  {
    var f' := if s in forward then forward[s := forward[s] - {t}] else forward;
    var b' := if t in backward then backward[t := backward[t] - {s}] else backward;
    forall a, c ensures c in Get(f', a) <==> a in Get(b', c) {
      assert c in Get(forward, a) <==> a in Get(backward, c);
    }
  }

  /** Counting the pairs key by key: one more key adds the size of its set. */
  lemma PairsFromAdd(m: map<string, set<string>>, keys: set<string>, s: string)
    requires s in m && s !in keys
    ensures |PairsFrom(m, keys + {s})| == |PairsFrom(m, keys)| + |m[s]|
  {
    assert PairsFrom(m, keys + {s}) == PairsFrom(m, keys) + Fan(s, m[s]) by {
      forall p | p in PairsFrom(m, keys + {s}) ensures p in PairsFrom(m, keys) + Fan(s, m[s]) {
        if p.0 == s {
          assert p in Fan(s, m[s]);
        }
      }
    }
    assert PairsFrom(m, keys) !! Fan(s, m[s]);
    FanSize(s, m[s]);
  }

  lemma PairsFromAll(m: map<string, set<string>>)
    ensures PairsFrom(m, m.Keys) == PairsOf(m)
  {
  }

  lemma {:induction false} FanSize(s: string, ts: set<string>)
    ensures |Fan(s, ts)| == |ts|
    decreases |ts|
  {
    if ts != {} {
      var t :| t in ts;
      assert Fan(s, ts) == Fan(s, ts - {t}) + {(s, t)};
      FanSize(s, ts - {t});
    } else {
      assert Fan(s, ts) == {};
    }
  }

  lemma FanGrow(s: string, ts: set<string>, t: string)
    ensures Fan(s, ts + {t}) == Fan(s, ts) + {(s, t)}
  {
  }

  lemma FanInGrow(ss: set<string>, s: string, t: string)
    ensures FanIn(ss + {s}, t) == FanIn(ss, t) + {(s, t)}
  {
  }

  /** One more dependent removed from `s`: the removed fan grows by one pair. */
  lemma FanRemoveStep(now: set<(string, string)>, prev: set<(string, string)>, before: set<(string, string)>,
                      s: string, removed: set<string>, d: string)
    requires prev == before - Fan(s, removed) && now == prev - {(s, d)}
    ensures now == before - Fan(s, removed + {d})
  {
    FanGrow(s, removed, d);
  }

  /** One more dependent added to `s`: the added fan grows by one pair. */
  lemma FanAddStep(now: set<(string, string)>, prev: set<(string, string)>, cleared: set<(string, string)>,
                   s: string, added: set<string>, d: string)
    requires prev == cleared + Fan(s, added) && now == prev + {(s, d)}
    ensures now == cleared + Fan(s, added + {d})
  {
    FanGrow(s, added, d);
  }

  /** One more dependee removed from `t`. */
  lemma FanInRemoveStep(now: set<(string, string)>, prev: set<(string, string)>, before: set<(string, string)>,
                        removed: set<string>, d: string, t: string)
    requires prev == before - FanIn(removed, t) && now == prev - {(d, t)}
    ensures now == before - FanIn(removed + {d}, t)
  {
    FanInGrow(removed, d, t);
  }

  /** One more dependee added to `t`. */
  lemma FanInAddStep(now: set<(string, string)>, prev: set<(string, string)>, cleared: set<(string, string)>,
                     added: set<string>, d: string, t: string)
    requires prev == cleared + FanIn(added, t) && now == prev + {(d, t)}
    ensures now == cleared + FanIn(added + {d}, t)
  {
    FanInGrow(added, d, t);
  }

  class DependencyGraph {
    /** For each dependee, the set of its dependents. */
    var dependents: map<string, set<string>>
    /** For each dependent, the set of its dependees. */
    var dependees: map<string, set<string>>
    /** Written by the size computation. */
    var size: int

    /** The dependents of `s`; empty for a node never mentioned. */
    function Dependents(s: string): set<string>
      reads this
    {
      Get(dependents, s)
    }

    /** The dependees of `t`; empty for a node never mentioned. */
    function Dependees(t: string): set<string>
      reads this
    {
      Get(dependees, t)
    }

    /** The abstract value: the set of ordered pairs. */
    ghost function Pairs(): set<(string, string)>
      reads this
    {
      PairsOf(dependents)
    }

    /** The two indices describe the same set of pairs. */
    ghost predicate Valid()
      reads this
    {
      Mirror(dependents, dependees)
    }

    constructor ()
      ensures Valid() && Pairs() == {}
      ensures dependents == map[] && dependees == map[] && size == 0
    {
      dependents := map[];
      dependees := map[];
      size := 0;
    }

    /**
     * The `Size` getter: recounts the pairs by adding up the sizes of the
     * dependent sets, storing the running total in `size`.
     */
    method Size() returns (n: int)
      modifies this
      ensures n == |Pairs()| && size == n
      ensures dependents == old(dependents) && dependees == old(dependees)
    {
      size := 0;
      var todo := dependents.Keys;
      ghost var done: set<string> := {};
      while todo != {}
        invariant dependents == old(dependents) && dependees == old(dependees)
        invariant todo !! done && todo + done == dependents.Keys
        invariant size == |PairsFrom(dependents, done)|
        decreases |todo|
      {
        var s :| s in todo;
        PairsFromAdd(dependents, done, s);
        size := size + |dependents[s]|;
        todo := todo - {s};
        done := done + {s};
      }
      PairsFromAll(dependents);
      n := size;
    }

    /** Whether `s` has at least one dependent. */
    function HasDependents(s: string): (r: bool)
      reads this
      ensures r <==> exists t :: (s, t) in Pairs()
    {
      InPairsFor(s);
      s in dependents && |dependents[s]| > 0
    }

    lemma InPairsFor(s: string)
      ensures (exists t :: (s, t) in Pairs()) <==> (s in dependents && |dependents[s]| > 0)
    {
      if s in dependents && |dependents[s]| > 0 {
        var t :| t in dependents[s];
        InPairsOf(dependents, s, t);
      }
      if exists t :: (s, t) in Pairs() {
        var t :| (s, t) in Pairs();
        InPairsOf(dependents, s, t);
      }
    }

    /** Whether `t` has at least one dependee. */
    function HasDependees(t: string): (r: bool)
      requires Valid()
      reads this
      ensures r <==> exists s :: (s, t) in Pairs()
    {
      InPairsTo(t);
      t in dependees && |dependees[t]| > 0
    }

    lemma InPairsTo(t: string)
      requires Valid()
      ensures (exists s :: (s, t) in Pairs()) <==> (t in dependees && |dependees[t]| > 0)
    {
      if t in dependees && |dependees[t]| > 0 {
        var s :| s in dependees[t];
        assert s in Dependees(t);
        assert t in Dependents(s);
        InPairsOf(dependents, s, t);
      }
      if exists s :: (s, t) in Pairs() {
        var s :| (s, t) in Pairs();
        InPairsOf(dependents, s, t);
        assert s in Dependees(t);
      }
    }

    /** The dependents of `s`: exactly the second components of the pairs starting at `s`. */
    function GetDependents(s: string): (r: set<string>)
      reads this
      ensures forall t :: t in r <==> (s, t) in Pairs()
      ensures s !in dependents ==> r == {}
    {
      forall t ensures t in Dependents(s) <==> (s, t) in Pairs() { InPairsOf(dependents, s, t); }
      Dependents(s)
    }

    /** The dependees of `t`: exactly the first components of the pairs ending at `t`. */
    function GetDependees(t: string): (r: set<string>)
      requires Valid()
      reads this
      ensures forall s :: s in r <==> (s, t) in Pairs()
      ensures t !in dependees ==> r == {}
    {
      forall s ensures s in Dependees(t) <==> (s, t) in Pairs() { InPairsOf(dependents, s, t); }
      Dependees(t)
    }

    /** Adds the pair (s, t), creating the map entries it needs. */
    method AddDependency(s: string, t: string)
      requires Valid()
      modifies this
      ensures Valid()
      ensures Pairs() == old(Pairs()) + {(s, t)}
      ensures dependents == old(dependents)[s := old(Dependents(s)) + {t}]
      ensures dependees == old(dependees)[t := old(Dependees(t)) + {s}]
      ensures size == old(size)
    {
      MirrorAdd(dependents, dependees, s, t);
      PairsOfAdd(dependents, s, t);
      ghost var forward, backward := dependents[s := Dependents(s) + {t}], dependees[t := Dependees(t) + {s}];
      if t !in dependees {
        dependees := dependees[t := {}];
      }
      dependees := dependees[t := dependees[t] + {s}];
      assert dependees == backward;
      if s !in dependents {
        dependents := dependents[s := {}];
      }
      dependents := dependents[s := dependents[s] + {t}];
      assert dependents == forward;
    }

    /** Removes the pair (s, t) if present; emptied sets stay as map entries. */
    method RemoveDependency(s: string, t: string)
      requires Valid()
      modifies this
      ensures Valid()
      ensures Pairs() == old(Pairs()) - {(s, t)}
      ensures dependents == if s in old(dependents) then old(dependents)[s := old(dependents)[s] - {t}] else old(dependents)
      ensures dependees == if t in old(dependees) then old(dependees)[t := old(dependees)[t] - {s}] else old(dependees)
      ensures size == old(size)
    {
      MirrorRemove(dependents, dependees, s, t);
      PairsOfRemove(dependents, s, t);
      if t in dependees {
        dependees := dependees[t := dependees[t] - {s}];
      }
      if s in dependents {
        dependents := dependents[s := dependents[s] - {t}];
      }
    }

    /** Makes `newDependents` the whole set of dependents of `s`. */
    method ReplaceDependents(s: string, newDependents: set<string>)
      requires Valid()
      modifies this
      ensures Valid()
      ensures Pairs() == (old(Pairs()) - Fan(s, old(Dependents(s)))) + Fan(s, newDependents)
      ensures size == old(size)
    {
      RemoveDependents(s);
      AddDependents(s, newDependents);
    }

    /** The first half of `ReplaceDependents`: removes each current dependent of `s` in turn. */
    method RemoveDependents(s: string)
      requires Valid()
      modifies this
      ensures Valid() && size == old(size)
      ensures Pairs() == old(Pairs()) - Fan(s, old(Dependents(s)))
    {
      ghost var before := Pairs();
      ghost var initial := Dependents(s);
      if s in dependents {
        var remaining := dependents[s];
        ghost var removed: set<string> := {};
        while remaining != {}
          invariant Valid() && size == old(size) && removed + remaining == initial
          invariant Pairs() == before - Fan(s, removed)
          decreases |remaining|
        {
          var d :| d in remaining;
          ghost var prev := Pairs();
          RemoveDependency(s, d);
          FanRemoveStep(Pairs(), prev, before, s, removed, d);
          remaining, removed := remaining - {d}, removed + {d};
        }
      } else {
        assert Fan(s, initial) == {};
      }
    }

    /** The second half of `ReplaceDependents`: adds each new dependent of `s` in turn. */
    method AddDependents(s: string, newDependents: set<string>)
      requires Valid()
      modifies this
      ensures Valid() && size == old(size)
      ensures Pairs() == old(Pairs()) + Fan(s, newDependents)
    {
      ghost var before := Pairs();
      var toAdd := newDependents;
      ghost var added: set<string> := {};
      while toAdd != {}
        invariant Valid() && size == old(size) && added + toAdd == newDependents
        invariant Pairs() == before + Fan(s, added)
        decreases |toAdd|
      {
        var d :| d in toAdd;
        ghost var prev := Pairs();
        AddDependency(s, d);
        FanAddStep(Pairs(), prev, before, s, added, d);
        toAdd, added := toAdd - {d}, added + {d};
      }
    }

    /** Makes `newDependees` the whole set of dependees of `t`. */
    method ReplaceDependees(t: string, newDependees: set<string>)
      requires Valid()
      modifies this
      ensures Valid()
      ensures Pairs() == (old(Pairs()) - FanIn(old(Dependees(t)), t)) + FanIn(newDependees, t)
      ensures size == old(size)
    {
      RemoveDependees(t);
      AddDependees(t, newDependees);
    }

    /** The first half of `ReplaceDependees`: removes each current dependee of `t` in turn. */
    method RemoveDependees(t: string)
      requires Valid()
      modifies this
      ensures Valid() && size == old(size)
      ensures Pairs() == old(Pairs()) - FanIn(old(Dependees(t)), t)
    {
      ghost var before := Pairs();
      ghost var initial := Dependees(t);
      if t in dependees {
        var remaining := dependees[t];
        ghost var removed: set<string> := {};
        while remaining != {}
          invariant Valid() && size == old(size) && removed + remaining == initial
          invariant Pairs() == before - FanIn(removed, t)
          decreases |remaining|
        {
          var d :| d in remaining;
          ghost var prev := Pairs();
          RemoveDependency(d, t);
          FanInRemoveStep(Pairs(), prev, before, removed, d, t);
          remaining, removed := remaining - {d}, removed + {d};
        }
      } else {
        assert FanIn(initial, t) == {};
      }
    }

    /** The second half of `ReplaceDependees`: adds each new dependee of `t` in turn. */
    method AddDependees(t: string, newDependees: set<string>)
      requires Valid()
      modifies this
      ensures Valid() && size == old(size)
      ensures Pairs() == old(Pairs()) + FanIn(newDependees, t)
    {
      ghost var before := Pairs();
      var toAdd := newDependees;
      ghost var added: set<string> := {};
      while toAdd != {}
        invariant Valid() && size == old(size) && added + toAdd == newDependees
        invariant Pairs() == before + FanIn(added, t)
        decreases |toAdd|
      {
        var d :| d in toAdd;
        ghost var prev := Pairs();
        AddDependency(d, t);
        FanInAddStep(Pairs(), prev, before, added, d, t);
        toAdd, added := toAdd - {d}, added + {d};
      }
    }
  }
}
