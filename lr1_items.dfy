/**
  Closure and goto over sets of LR(1) items, as mathematical functions, with the
  properties the canonical-collection construction relies on.
*/
module Lr1Items {
  import opened Entities
  import opened Sets
  import opened FirstFollow

  /**
    The symbols whose FIRST gives the lookaheads of the items an item `A -> alpha . B beta, la`
    adds: beta followed by la, where an empty beta is written as [EPSILON].
  */
  function LookaheadSeq(rules: seq<Rule>, it: Item): seq<Token>
    requires it.rule < |rules| && it.dot < |rules[it.rule].prod|
  {
    var beta := rules[it.rule].prod[it.dot + 1..];
    (if beta == [] then [T(EPSILON)] else beta) + [T(it.la)]
  }

  /** The items one item adds to a closure: `B -> . gamma, t` for each rule of B and each t in FIRST(beta la). */
  ghost function Derived(rules: seq<Rule>, first: FirstMap, it: Item): set<Item> {
    if it.rule < |rules| && it.dot < |rules[it.rule].prod| && rules[it.rule].prod[it.dot].NT? then
      var b := rules[it.rule].prod[it.dot].nt;
      var las := FirstOfSeq(first, LookaheadSeq(rules, it));
      set i, t | 0 <= i < |rules| && rules[i].lhs == b && t in las :: Item(i, 0, t)
    else
      {}
  }

  /** Everything one pass over `s` adds. */
  ghost function Step(rules: seq<Rule>, first: FirstMap, s: set<Item>): set<Item> {
    set it, d | it in s && d in Derived(rules, first, it) :: d
  }

  /** The finite pool of items a closure can add: dot 0, an existing rule, a known lookahead. */
  ghost function FreshItems(rules: seq<Rule>, first: FirstMap): set<Item> {
    set i, t | 0 <= i < |rules| && t in Vals(first) + {EPSILON} :: Item(i, 0, t)
  }

  /** Items over existing rules with dots inside their productions and lookaheads from `las`. */
  ghost function ItemsOver(rules: seq<Rule>, las: set<Terminal>): set<Item> {
    set r, d, t | 0 <= r < |rules| && 0 <= d <= |rules[r].prod| && t in las :: Item(r, d, t)
  }

  lemma StepFresh(rules: seq<Rule>, first: FirstMap, s: set<Item>)
    ensures Step(rules, first, s) <= FreshItems(rules, first)
  {
    forall d | d in Step(rules, first, s) ensures d in FreshItems(rules, first) {
      var it :| it in s && d in Derived(rules, first, it);
      FirstOfSeqWithin(first, LookaheadSeq(rules, it));
    }
  }

  lemma StepAdd(rules: seq<Rule>, first: FirstMap, s: set<Item>, it: Item)
    ensures Step(rules, first, s + {it}) == Step(rules, first, s) + Derived(rules, first, it)
  {
  }

  lemma StepMono(rules: seq<Rule>, first: FirstMap, s: set<Item>, c: set<Item>)
    requires s <= c
    ensures Step(rules, first, s) <= Step(rules, first, c)
  {
  }

  /** The closure: repeat passes until a pass adds nothing. */
  ghost function ClosureFn(rules: seq<Rule>, first: FirstMap, s: set<Item>): set<Item>
    decreases FreshItems(rules, first) - s
  {
    var n := Step(rules, first, s);
    if n <= s then s
    else
      StepFresh(rules, first, s);
      ClosureFn(rules, first, s + n)
  }

  /** The closure contains the items it was given. */
  lemma {:induction false} ClosureContains(rules: seq<Rule>, first: FirstMap, s: set<Item>)
    ensures s <= ClosureFn(rules, first, s)
    decreases FreshItems(rules, first) - s
  {
    var n := Step(rules, first, s);
    if !(n <= s) {
      StepFresh(rules, first, s);
      ClosureContains(rules, first, s + n);
    }
  }

  lemma {:induction false} ClosureIsFixpoint(rules: seq<Rule>, first: FirstMap, s: set<Item>)
    ensures Step(rules, first, ClosureFn(rules, first, s)) <= ClosureFn(rules, first, s)
    decreases FreshItems(rules, first) - s
  {
    var n := Step(rules, first, s);
    if !(n <= s) {
      StepFresh(rules, first, s);
      ClosureIsFixpoint(rules, first, s + n);
    }
  }

  /**
    The closure is closed: for every item `A -> alpha . B beta, la` in it, every rule i of B
    and every t in FIRST(beta la) (FIRST([EPSILON, la]) when beta is empty), `(i, 0, t)` is in it.
  */
  lemma ClosureClosed(rules: seq<Rule>, first: FirstMap, s: set<Item>)
    ensures var c := ClosureFn(rules, first, s);
      forall it, i, t ::
        it in c && it.rule < |rules| && it.dot < |rules[it.rule].prod| &&
        rules[it.rule].prod[it.dot].NT? &&
        0 <= i < |rules| && rules[i].lhs == rules[it.rule].prod[it.dot].nt &&
        t in FirstOfSeq(first, LookaheadSeq(rules, it))
        ==> Item(i, 0, t) in c
  {
    var c := ClosureFn(rules, first, s);
    ClosureIsFixpoint(rules, first, s);
    forall it, i, t |
      it in c && it.rule < |rules| && it.dot < |rules[it.rule].prod| &&
      rules[it.rule].prod[it.dot].NT? &&
      0 <= i < |rules| && rules[i].lhs == rules[it.rule].prod[it.dot].nt &&
      t in FirstOfSeq(first, LookaheadSeq(rules, it))
      ensures Item(i, 0, t) in c
    {
      assert Item(i, 0, t) in Derived(rules, first, it);
    }
  }

  /** The closure is the least closed superset. */
  lemma {:induction false} ClosureLeast(rules: seq<Rule>, first: FirstMap, s: set<Item>, c: set<Item>)
    requires s <= c && Step(rules, first, c) <= c
    ensures ClosureFn(rules, first, s) <= c
    decreases FreshItems(rules, first) - s
  {
    var n := Step(rules, first, s);
    if !(n <= s) {
      StepMono(rules, first, s, c);
      StepFresh(rules, first, s);
      ClosureLeast(rules, first, s + n, c);
    }
  }

  /** Every item the closure adds has its dot at position 0 of an existing rule. */
  lemma ClosureAddsDotZero(rules: seq<Rule>, first: FirstMap, s: set<Item>)
    ensures forall it :: it in ClosureFn(rules, first, s) && it !in s ==> it.dot == 0 && it.rule < |rules|
    ensures ClosureFn(rules, first, s) <= s + FreshItems(rules, first)
  {
    var c := s + FreshItems(rules, first);
    StepFresh(rules, first, c);
    ClosureLeast(rules, first, s, c);
  }

  lemma ClosureIdempotent(rules: seq<Rule>, first: FirstMap, s: set<Item>)
    ensures ClosureFn(rules, first, ClosureFn(rules, first, s)) == ClosureFn(rules, first, s)
  {
    ClosureIsFixpoint(rules, first, s);
  }

  lemma ClosureMono(rules: seq<Rule>, first: FirstMap, s: set<Item>, u: set<Item>)
    requires s <= u
    ensures ClosureFn(rules, first, s) <= ClosureFn(rules, first, u)
  {
    ClosureContains(rules, first, u);
    ClosureIsFixpoint(rules, first, u);
    ClosureLeast(rules, first, s, ClosureFn(rules, first, u));
  }

  /** An item whose dot is at the end contributes only itself to a closure. */
  lemma CompletedItemAddsNothing(rules: seq<Rule>, first: FirstMap, s: set<Item>, it: Item)
    requires it.rule < |rules| && DotAtEnd(rules, it)
    ensures ClosureFn(rules, first, s + {it}) == ClosureFn(rules, first, s) + {it}
  {
    var c := ClosureFn(rules, first, s) + {it};
    ClosureContains(rules, first, s);
    ClosureIsFixpoint(rules, first, s);
    assert Derived(rules, first, it) == {};
    assert Step(rules, first, c) <= c by {
      forall d | d in Step(rules, first, c) ensures d in c {
        var it' :| it' in c && d in Derived(rules, first, it');
        if it' != it {
          assert d in Step(rules, first, ClosureFn(rules, first, s));
        }
      }
    }
    ClosureLeast(rules, first, s + {it}, c);
    ClosureMono(rules, first, s, s + {it});
    ClosureContains(rules, first, s + {it});
  }

  /** Closures stay within a universe of items that holds every lookahead FIRST can produce. */
  lemma ClosureWithin(rules: seq<Rule>, first: FirstMap, s: set<Item>, las: set<Terminal>)
    requires Vals(first) + {EPSILON} <= las
    requires s <= ItemsOver(rules, las)
    ensures ClosureFn(rules, first, s) <= ItemsOver(rules, las)
  {
    ClosureAddsDotZero(rules, first, s);
    forall it | it in FreshItems(rules, first) ensures it in ItemsOver(rules, las) {
    }
  }

  /** The items of `s` with the dot moved over `x`, lookaheads unchanged. */
  ghost function Kernel(rules: seq<Rule>, s: State, x: Token): State {
    set it | it in s && it.rule < |rules| && NextToken(rules, it) == Some(x) :: Item(it.rule, it.dot + 1, it.la)
  }

  lemma KernelAdd(rules: seq<Rule>, s: State, x: Token, it: Item)
    requires it.rule < |rules|
    ensures Kernel(rules, s + {it}, x) ==
      Kernel(rules, s, x) + (if NextToken(rules, it) == Some(x) then {Item(it.rule, it.dot + 1, it.la)} else {})
  {
  }

  ghost function GotoFn(rules: seq<Rule>, first: FirstMap, s: State, x: Token): State {
    ClosureFn(rules, first, Kernel(rules, s, x))
  }

  /**
    Goto holds the advanced items of `s`; every item in it with a dot past position 0
    is one of them, so all others were added by the closure at position 0.
  */
  lemma GotoShape(rules: seq<Rule>, first: FirstMap, s: State, x: Token)
    ensures Kernel(rules, s, x) <= GotoFn(rules, first, s, x)
    ensures forall it :: it in GotoFn(rules, first, s, x) && it.dot > 0 ==>
              it.rule < |rules| && Item(it.rule, it.dot - 1, it.la) in s && NextToken(rules, Item(it.rule, it.dot - 1, it.la)) == Some(x)
  {
    ClosureContains(rules, first, Kernel(rules, s, x));
    ClosureAddsDotZero(rules, first, Kernel(rules, s, x));
  }

  /** Goto is empty exactly when no item of `s` has `x` after its dot. */
  lemma GotoEmpty(rules: seq<Rule>, first: FirstMap, s: State, x: Token)
    ensures GotoFn(rules, first, s, x) == {} <==>
              forall it :: it in s && it.rule < |rules| ==> NextToken(rules, it) != Some(x)
  {
    var k := Kernel(rules, s, x);
    ClosureContains(rules, first, k);
    forall it | it in s && it.rule < |rules| && NextToken(rules, it) == Some(x)
      ensures Item(it.rule, it.dot + 1, it.la) in k
    {
    }
    if k == {} {
      assert Step(rules, first, k) == {};
    } else {
      var it' :| it' in k;
    }
  }

  /** Goto keeps a state of valid items valid and within an item universe containing FIRST's terminals. */
  lemma GotoWithin(rules: seq<Rule>, first: FirstMap, s: State, x: Token, las: set<Terminal>)
    requires Vals(first) + {EPSILON} <= las
    requires s <= ItemsOver(rules, las)
    ensures GotoFn(rules, first, s, x) <= ItemsOver(rules, las)
  {
    forall it | it in Kernel(rules, s, x) ensures it in ItemsOver(rules, las) {
      var it0 :| it0 in s && it0.rule < |rules| && NextToken(rules, it0) == Some(x) &&
                 it == Item(it0.rule, it0.dot + 1, it0.la);
    }
    ClosureWithin(rules, first, Kernel(rules, s, x), las);
  }

  lemma ItemsOverValid(rules: seq<Rule>, las: set<Terminal>, s: State)
    requires s <= ItemsOver(rules, las)
    ensures ValidState(rules, s)
  {
  }

  lemma ClosureValid(rules: seq<Rule>, first: FirstMap, s: State)
    requires ValidState(rules, s)
    ensures ValidState(rules, ClosureFn(rules, first, s))
  {
    ClosureAddsDotZero(rules, first, s);
  }
}
