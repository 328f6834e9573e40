/**
  The canonical collection of LR(1) item sets: what it means for a sequence of states,
  indexed densely from 0, to be that collection, and why it is determined by the grammar.
*/
module Collection {
  import opened Entities
  import opened FirstFollow
  import opened Lr1Items

  /** State 0: the closure of the augmented start item with lookahead END. */
  ghost function InitialState(rules: seq<Rule>, first: FirstMap): State {
    ClosureFn(rules, first, {Item(0, 0, END)})
  }

  function Elements(states: seq<State>): set<State> {
    set s | s in states
  }

  /** The index of a state in the collection; 0 when the state is not collected. */
  function IndexOf(states: seq<State>, s: State): (j: nat)
    ensures s in states ==> j < |states| && states[j] == s
    ensures s !in states ==> j == 0
  {
    if states == [] || states[0] == s then 0
    else if s in states[1..] then 1 + IndexOf(states[1..], s)
    else 0
  }

  ghost predicate Distinct(states: seq<State>) {
    forall i, j :: 0 <= i < j < |states| ==> states[i] != states[j]
  }

  /** Every non-empty goto of a collected state over a vocabulary token is collected. */
  ghost predicate ClosedUnderGoto(rules: seq<Rule>, first: FirstMap, tokens: set<Token>, states: seq<State>) {
    forall k, x :: 0 <= k < |states| && x in tokens && GotoFn(rules, first, states[k], x) != {} ==>
      GotoFn(rules, first, states[k], x) in states
  }

  /** `s` is the goto of some state of `states` over a vocabulary token. */
  ghost predicate IsGotoOf(rules: seq<Rule>, first: FirstMap, tokens: set<Token>, states: seq<State>, s: State) {
    exists j, x :: 0 <= j < |states| && x in tokens && s == GotoFn(rules, first, states[j], x)
  }

  /** Every state after state 0 is the goto of a state with a smaller index. */
  ghost predicate Discovered(rules: seq<Rule>, first: FirstMap, tokens: set<Token>, states: seq<State>) {
    forall k :: 0 < k < |states| ==> IsGotoOf(rules, first, tokens, states[..k], states[k])
  }

  /** Appending states that are gotos of already collected states keeps every state discovered. */
  lemma DiscoveredAppend(rules: seq<Rule>, first: FirstMap, tokens: set<Token>, base: seq<State>, r: seq<State>)
    requires Discovered(rules, first, tokens, base)
    requires |base| <= |r| && r[..|base|] == base
    requires forall k :: |base| <= k < |r| ==> IsGotoOf(rules, first, tokens, base, r[k])
    ensures Discovered(rules, first, tokens, r)
  {
    forall k | 0 < k < |r| ensures IsGotoOf(rules, first, tokens, r[..k], r[k]) {
      var j, x;
      if k < |base| {
        assert r[k] == base[k] && r[..k] == base[..k];
      } else {
        assert IsGotoOf(rules, first, tokens, base, r[k]);
        j, x :| 0 <= j < |base| && x in tokens && r[k] == GotoFn(rules, first, base[j], x);
        assert r[..k][j] == base[j];
      }
    }
  }

  ghost predicate IsCanonical(rules: seq<Rule>, first: FirstMap, tokens: set<Token>, states: seq<State>) {
    && |states| > 0
    && states[0] == InitialState(rules, first)
    && Distinct(states)
    && ClosedUnderGoto(rules, first, tokens, states)
    && Discovered(rules, first, tokens, states)
    && (forall k :: 0 <= k < |states| ==> states[k] != {})
  }

  lemma {:induction false} CollectedInOther(rules: seq<Rule>, first: FirstMap, tokens: set<Token>,
                                            a: seq<State>, b: seq<State>, k: nat)
    requires IsCanonical(rules, first, tokens, a) && IsCanonical(rules, first, tokens, b)
    requires k < |a|
    ensures a[k] in b
    decreases k
  {
    if k > 0 {
      assert IsGotoOf(rules, first, tokens, a[..k], a[k]);
      var j, x :| 0 <= j < k && x in tokens && a[k] == GotoFn(rules, first, a[..k][j], x);
      assert a[..k][j] == a[j];
      CollectedInOther(rules, first, tokens, a, b, j);
      var m :| 0 <= m < |b| && b[m] == a[j];
      assert GotoFn(rules, first, b[m], x) != {};
    }
  }

  lemma {:induction false} DistinctSize(states: seq<State>)
    requires Distinct(states)
    ensures |Elements(states)| == |states|
    decreases |states|
  {
    if states != [] {
      var init := states[..|states| - 1];
      assert Distinct(init);
      DistinctSize(init);
      assert Elements(states) == Elements(init) + {states[|states| - 1]};
      assert states[|states| - 1] !in Elements(init);
    }
  }

  /**
    Two canonical collections of one grammar hold the same states and have the same
    size: only the numbering of states after state 0 can differ.
  */
  lemma CanonicalUnique(rules: seq<Rule>, first: FirstMap, tokens: set<Token>, a: seq<State>, b: seq<State>)
    requires IsCanonical(rules, first, tokens, a) && IsCanonical(rules, first, tokens, b)
    ensures Elements(a) == Elements(b)
    ensures |a| == |b|
  {
    forall s | s in Elements(a) ensures s in Elements(b) {
      var k :| 0 <= k < |a| && a[k] == s;
      CollectedInOther(rules, first, tokens, a, b, k);
    }
    forall s | s in Elements(b) ensures s in Elements(a) {
      var k :| 0 <= k < |b| && b[k] == s;
      CollectedInOther(rules, first, tokens, b, a, k);
    }
    DistinctSize(a);
    DistinctSize(b);
  }

  /** All subsets of `u`; its only use is to bound the number of distinct states. */
  ghost function PowerSet(u: set<Item>): (p: set<set<Item>>)
    ensures forall s | s <= u :: s in p
  {
    if u == {} then
      PowerSetEmpty();
      {{}}
    else
      var x :| x in u;
      var p' := PowerSet(u - {x});
      PowerSetStep(u, x, p');
      p' + set s | s in p' :: s + {x}
  }

  lemma PowerSetEmpty()
    ensures forall s: set<Item> | s <= {} :: s in {{}}
  {
    forall s: set<Item> | s <= {} ensures s == {} {
      assert s == s * {};
    }
  }

  lemma PowerSetStep(u: set<Item>, x: Item, p': set<set<Item>>)
    requires x in u
    requires forall s | s <= u - {x} :: s in p'
    ensures forall s | s <= u :: s in p' + set s | s in p' :: s + {x}
  {
    forall s | s <= u ensures s in p' + set s | s in p' :: s + {x} {
      if x in s {
        assert s - {x} in p';
        assert s == (s - {x}) + {x};
      }
    }
  }
}
