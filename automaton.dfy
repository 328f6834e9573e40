/**
  The LR(1) table generator: a grammar plus the tables it derives, built stage by stage
  (FIRST, FOLLOW, the canonical collection, ACTION, GOTO), each stage proved against the
  specification functions of the other modules.
*/
module Automaton {
  import opened Entities
  import opened Sets
  import opened FirstFollow
  import opened Lr1Items
  import opened Collection
  import opened Tables

  /** GOTO table: state index, then non-terminal, to the target state index. */
  type GotoTable = map<nat, map<NonTerminal, nat>>

  function Entry(row: map<NonTerminal, nat>, n: NonTerminal): Option<nat> {
    if n in row then Some(row[n]) else None
  }

  function Lookup(t: GotoTable, i: nat, n: NonTerminal): Option<nat> {
    if i in t then Entry(t[i], n) else None
  }

  /** The GOTO entry of state `s` on `n`: the index of the goto state when it is collected. */
  ghost function GotoTarget(rules: seq<Rule>, first: FirstMap, tokens: set<Token>, states: seq<State>,
                            s: State, n: NonTerminal): Option<nat>
  {
    if NT(n) in tokens && GotoFn(rules, first, s, NT(n)) in states
    then Some(IndexOf(states, GotoFn(rules, first, s, NT(n))))
    else None
  }

  /**
    Over the canonical collection the GOTO entry of a state on a non-terminal of the
    vocabulary is present exactly when the goto is non-empty, and then names that goto.
  */
  lemma GotoTargetOfCanonical(rules: seq<Rule>, first: FirstMap, tokens: set<Token>, states: seq<State>,
                              i: nat, n: NonTerminal)
    requires IsCanonical(rules, first, tokens, states) && i < |states| && NT(n) in tokens
    ensures GotoFn(rules, first, states[i], NT(n)) != {} ==>
      var t := GotoTarget(rules, first, tokens, states, states[i], n);
      t.Some? && t.value < |states| && states[t.value] == GotoFn(rules, first, states[i], NT(n))
    ensures GotoFn(rules, first, states[i], NT(n)) == {} ==> GotoTarget(rules, first, tokens, states, states[i], n) == None
  {
    if GotoFn(rules, first, states[i], NT(n)) == {} {
      assert GotoFn(rules, first, states[i], NT(n)) !in states;
    }
  }

  /**
    Append to the collection, in some order, each state of `newStates` it does not hold
    yet; the states already collected keep their indices.
  */
  method AppendNew(base: seq<State>, newStates: set<State>) returns (r: seq<State>)
    ensures |base| <= |r| && r[..|base|] == base
    ensures forall k :: |base| <= k < |r| ==> r[k] in newStates
    ensures Elements(r) == Elements(base) + newStates
    ensures Distinct(base) ==> Distinct(r)
  {
    r := base;
    var rest := newStates;
    while rest != {}
      invariant rest <= newStates
      invariant |base| <= |r| && r[..|base|] == base
      invariant forall k :: |base| <= k < |r| ==> r[k] in newStates
      invariant Elements(r) == Elements(base) + (newStates - rest)
      invariant Distinct(base) ==> Distinct(r)
      decreases rest
    {
      var s :| s in rest;
      if s !in r {
        assert Elements(r + [s]) == Elements(r) + {s};
        r := r + [s];
      }
      rest := rest - {s};
    }
  }

  class ParserGenerator {
    const g: Grammar
    var first: FirstMap
    var follow: FollowMap
    /** The canonical collection; a state's index is its position. */
    var states: seq<State>
    var action: seq<Row>
    var gotoTable: GotoTable

    /** Takes the grammar and adds END to its vocabulary. */
    constructor(grammar: Grammar)
      ensures g == Grammar(grammar.rules, grammar.tokens + {T(END)})
      ensures first == map[] && follow == map[] && states == [] && action == [] && gotoTable == map[]
    {
      g := Grammar(grammar.rules, grammar.tokens + {T(END)});
      first, follow, states, action, gotoTable := map[], map[], [], [], map[];
    }

    /** FIRST of a symbol sequence from the current FIRST table. */
    method FirstForSequence(s: seq<Token>) returns (r: set<Terminal>)
      ensures r == FirstOfSeq(first, s)
    {
      if |s| == 0 {
        return {EPSILON};
      }
      r := {};
      var epsInPrev := true;
      var i := 0;
      while epsInPrev && i < |s|
        invariant 0 <= i <= |s|
        invariant FirstOfSeq(first, s) == r + (if epsInPrev then FirstOfSeq(first, s[i..]) else {})
      {
        var tokenFirst := Get(first, s[i]);
        var epsInToken := EPSILON in tokenFirst;
        if epsInToken {
          tokenFirst := tokenFirst - {EPSILON};
        }
        assert s[i..][0] == s[i] && s[i..][1..] == s[i + 1..];
        r := r + tokenFirst;
        epsInPrev := epsInToken;
        i := i + 1;
      }
      if epsInPrev {
        r := r + {EPSILON};
      }
    }

    /**
      Add FIRST(from) minus EPSILON to FIRST(lhs), reporting whether FIRST(from) held
      EPSILON and whether FIRST(lhs) grew, the latter detected by its size.
    */
    method AddFirstOf(lhs: Token, from: Token) returns (eps: bool, grew: bool)
      modifies this`first
      ensures eps <==> EPSILON in Get(old(first), from)
      ensures Get(first, lhs) == Get(old(first), lhs) + (Get(old(first), from) - {EPSILON})
      ensures forall tok :: tok != lhs ==> Get(first, tok) == Get(old(first), tok)
      ensures grew <==> !(Get(old(first), from) - {EPSILON} <= Get(old(first), lhs))
    {
      var prevSize := |Get(first, lhs)|;
      var tokenFirst := Get(first, from);
      eps := EPSILON in tokenFirst;
      if eps {
        tokenFirst := tokenFirst - {EPSILON};
      } else {
        assert tokenFirst == tokenFirst - {EPSILON};
      }
      ghost var before := Get(first, lhs);
      first := Add(first, lhs, tokenFirst);
      grew := |Get(first, lhs)| != prevSize;
      if !grew {
        SubsetOfSameSize(before, Get(first, lhs));
      }
    }

    /**
      One rule's contribution to FIRST: scan the production, adding FIRST of each symbol
      minus EPSILON to FIRST(lhs) until a symbol that is not nullable, and add EPSILON
      when every symbol is nullable.
    */
    method FirstRule(k: nat) returns (grew: bool)
      requires k < |g.rules|
      modifies this`first
      ensures Get(first, NT(g.rules[k].lhs)) == Get(old(first), NT(g.rules[k].lhs)) + FirstOfSeq(old(first), g.rules[k].prod)
      ensures forall tok :: tok != NT(g.rules[k].lhs) ==> Get(first, tok) == Get(old(first), tok)
      ensures grew <==> !(FirstOfSeq(old(first), g.rules[k].prod) <= Get(old(first), NT(g.rules[k].lhs)))
    {
      var rule := g.rules[k];
      var lhs := NT(rule.lhs);
      ghost var f0 := first;
      ghost var total := Get(f0, lhs) + FirstOfSeq(f0, rule.prod);
      grew := false;
      var includeEps := true;
      var j := 0;
      ghost var tail := FirstOfSeq(f0, rule.prod);
      while j < |rule.prod|
        invariant 0 <= j <= |rule.prod|
        invariant forall tok :: tok != lhs ==> Get(first, tok) == Get(f0, tok)
        invariant Get(f0, lhs) <= Get(first, lhs)
        invariant EPSILON in Get(first, lhs) <==> EPSILON in Get(f0, lhs)
        invariant tail == FirstOfSeq(f0, rule.prod[j..])
        invariant Get(first, lhs) + tail == total
        invariant grew <==> !(Get(first, lhs) <= Get(f0, lhs))
      {
        ghost var pre := Get(first, lhs);
        ScanStep(f0, Get(first, rule.prod[j]), pre, lhs, rule.prod, j, total);
        var eps, grewHere := AddFirstOf(lhs, rule.prod[j]);
        grew := grew || grewHere;
        if !eps {
          includeEps := false;
          break;
        }
        tail := FirstOfSeq(f0, rule.prod[j + 1..]);
        j := j + 1;
      }
      if includeEps {
        assert rule.prod[j..] == [];
        if EPSILON !in Get(first, lhs) {
          grew := true;
        }
        first := Add(first, lhs, {EPSILON});
      }
    }

    /** The seeding of FIRST: FIRST(t) = {t} and FIRST(N) = {} for every vocabulary token, then FIRST(EPSILON) = {EPSILON}. */
    method SeedFirst()
      modifies this`first
      ensures FirstSeeded(g.tokens, first)
      ensures forall tok :: tok in g.tokens && tok != T(EPSILON) ==> Get(first, tok) == if tok.T? then {tok.t} else {}
      ensures forall tok :: tok !in g.tokens && tok != T(EPSILON) ==> Get(first, tok) == Get(old(first), tok)
      ensures Vals(first) <= (set tok | tok in g.tokens && tok.T? :: tok.t) + {EPSILON} + Vals(old(first))
    {
      ghost var bound := (set tok | tok in g.tokens && tok.T? :: tok.t) + {EPSILON} + Vals(old(first));
      var rest := g.tokens;
      while rest != {}
        invariant rest <= g.tokens
        invariant forall tok :: tok in g.tokens && tok !in rest ==> Get(first, tok) == if tok.T? then {tok.t} else {}
        invariant forall tok :: tok !in g.tokens ==> Get(first, tok) == Get(old(first), tok)
        invariant Vals(first) <= bound
        decreases rest
      {
        var tok :| tok in rest;
        ValsUpdate(first, tok, if IsTerminal(tok) then {tok.t} else {});
        if IsTerminal(tok) {
          first := first[tok := {tok.t}];
        } else {
          first := first[tok := {}];
        }
        rest := rest - {tok};
      }
      ValsUpdate(first, T(EPSILON), {EPSILON});
      first := first[T(EPSILON) := {EPSILON}];
    }

    /**
      One pass of the FIRST loop: every rule in turn. FIRST only grows; the pass reports a
      change exactly when some rule added a terminal, and a pass without change finds
      every rule's condition met.
    */
    method FirstPass(ghost lhss: set<Token>, ghost univ: set<Terminal>) returns (changed: bool)
      requires forall k :: 0 <= k < |g.rules| ==> NT(g.rules[k].lhs) in lhss
      requires FirstSeeded(g.tokens, first) && Within(first, univ)
      modifies this`first
      ensures FirstSeeded(g.tokens, first) && Within(first, univ)
      ensures Grows(old(first), first)
      ensures changed ==> Pairs(lhss, univ, old(first)) < Pairs(lhss, univ, first)
      ensures !changed ==> SameSets(old(first), first) && FirstClosed(g.rules, first)
    {
      changed := false;
      ghost var before := first;
      var k := 0;
      while k < |g.rules|
        invariant 0 <= k <= |g.rules|
        invariant FirstSeeded(g.tokens, first)
        invariant Within(first, univ)
        invariant Grows(before, first)
        invariant !changed ==> SameSets(before, first)
        invariant !changed ==> forall j :: 0 <= j < k ==> FirstOfSeq(before, g.rules[j].prod) <= Get(before, NT(g.rules[j].lhs))
        invariant changed ==> Pairs(lhss, univ, before) < Pairs(lhss, univ, first)
      {
        ghost var prev := first;
        ValsWithin(first, univ);
        FirstOfSeqWithin(first, g.rules[k].prod);
        var grew := FirstRule(k);
        assert Grows(prev, first);
        PairsMono(lhss, univ, before, prev);
        PairsMono(lhss, univ, prev, first);
        if grew {
          ghost var v :| v in FirstOfSeq(prev, g.rules[k].prod) && v !in Get(prev, NT(g.rules[k].lhs));
          PairsGrow(lhss, univ, prev, first, NT(g.rules[k].lhs), v);
          changed := true;
        } else if !changed {
          FirstOfSeqSame(before, prev, g.rules[k].prod);
        }
        k := k + 1;
      }
      if !changed {
        forall j | 0 <= j < |g.rules| ensures FirstOfSeq(first, g.rules[j].prod) <= Get(first, NT(g.rules[j].lhs)) {
          FirstOfSeqSame(before, first, g.rules[j].prod);
        }
      }
    }

    /**
      FIRST: seed every vocabulary token (FIRST(t) = {t}, FIRST(N) = {}) and
      FIRST(EPSILON) = {EPSILON}, then apply every rule until a full pass changes nothing.
    */
    method ComputeFirst()
      modifies this`first
      ensures FirstSeeded(g.tokens, first)
      ensures FirstClosed(g.rules, first)
      ensures forall tok :: tok !in g.tokens && tok != T(EPSILON) ==> Get(old(first), tok) <= Get(first, tok)
      ensures Vals(first) <= (set tok | tok in g.tokens && tok.T? :: tok.t) + {EPSILON} + Vals(old(first))
    {
      SeedFirst();
      ghost var f1 := first;
      ghost var univ := Vals(first);
      ghost var lhss := set k | 0 <= k < |g.rules| :: NT(g.rules[k].lhs);
      forall tok ensures Get(first, tok) <= univ { ValsCover(first, tok); }
      var changed := true;
      while changed
        invariant FirstSeeded(g.tokens, first)
        invariant Within(first, univ)
        invariant Grows(f1, first)
        invariant !changed ==> FirstClosed(g.rules, first)
        decreases AllPairs(lhss, univ) - Pairs(lhss, univ, first), changed
      {
        ghost var before := first;
        changed := FirstPass(lhss, univ);
        forall tok ensures Get(f1, tok) <= Get(first, tok) {
          assert Get(before, tok) <= Get(first, tok);
        }
        if changed {
          PairsProgress(lhss, univ, before, first);
        } else {
          PairsSame(lhss, univ, before, first);
        }
      }
      ValsWithin(first, univ);
    }

    /**
      What position i of rule k adds to FOLLOW(B) when a non-terminal B stands there:
      FIRST(beta) minus EPSILON for the rest beta of the production, and FOLLOW(lhs)
      when beta is empty or FIRST(beta) holds EPSILON.
    */
    method FollowAddition(k: nat, i: nat) returns (toAdd: set<Terminal>)
      requires k < |g.rules| && i < |g.rules[k].prod|
      ensures toAdd == FollowGain(first, follow, g.rules[k], i)
    {
      var rule := g.rules[k];
      if i != |rule.prod| - 1 {
        var beta := rule.prod[i + 1..];
        toAdd := FirstForSequence(beta);
        if EPSILON in toAdd {
          toAdd := (toAdd - {EPSILON}) + Get(follow, rule.lhs);
        }
      } else {
        toAdd := Get(follow, rule.lhs);
      }
    }

    /**
      The FOLLOW update for position i of rule k when the symbol there is a non-terminal B:
      add what the position contributes to FOLLOW(B), and report whether FOLLOW(B) grew,
      detected by its size.
    */
    method FollowAt(k: nat, i: nat) returns (grew: bool)
      requires k < |g.rules| && i < |g.rules[k].prod|
      modifies this`follow
      ensures FollowOk(first, follow, g.rules[k], i)
      ensures Grows(old(follow), follow)
      ensures g.rules[k].prod[i].T? ==> grew == false
      ensures forall n :: (g.rules[k].prod[i].T? || n != g.rules[k].prod[i].nt) ==> Get(follow, n) == Get(old(follow), n)
      ensures g.rules[k].prod[i].NT? ==>
        Get(follow, g.rules[k].prod[i].nt) <= Get(old(follow), g.rules[k].prod[i].nt) + Get(old(follow), g.rules[k].lhs) + Vals(first)
      ensures grew <==> !SameSets(old(follow), follow)
    {
      var rule := g.rules[k];
      if IsTerminal(rule.prod[i]) {
        return false;
      }
      var b := rule.prod[i].nt;
      var prevSize := |Get(follow, b)|;
      ghost var f0 := follow;
      var toAdd := FollowAddition(k, i);
      follow := Add(follow, b, toAdd);
      FollowGainOk(first, f0, follow, rule, i);
      GrewAtOne(f0, follow, b);
      grew := |Get(follow, b)| != prevSize;
      if !grew {
        SubsetOfSameSize(Get(f0, b), Get(follow, b));
      }
    }

    /** Every position of rule k in turn; `grew` when some FOLLOW set changed. */
    method FollowRule(k: nat, ghost keys: set<NonTerminal>, ghost univ: set<Terminal>) returns (grew: bool)
      requires k < |g.rules|
      requires Within(follow, univ) && Vals(first) <= univ
      requires forall i :: 0 <= i < |g.rules[k].prod| && g.rules[k].prod[i].NT? ==> g.rules[k].prod[i].nt in keys
      modifies this`follow
      ensures Within(follow, univ) && Grows(old(follow), follow)
      ensures grew ==> Pairs(keys, univ, old(follow)) < Pairs(keys, univ, follow)
      ensures !grew ==> SameSets(old(follow), follow)
      ensures !grew ==> forall i :: 0 <= i < |g.rules[k].prod| ==> FollowOk(first, follow, g.rules[k], i)
    {
      ghost var f0 := follow;
      grew := false;
      var i := 0;
      while i < |g.rules[k].prod|
        invariant 0 <= i <= |g.rules[k].prod|
        invariant Within(follow, univ) && Grows(f0, follow)
        invariant grew ==> Pairs(keys, univ, f0) < Pairs(keys, univ, follow)
        invariant !grew ==> SameSets(f0, follow)
        invariant !grew ==> forall j :: 0 <= j < i ==> FollowOk(first, follow, g.rules[k], j)
      {
        ghost var prev := follow;
        var g1 := FollowAt(k, i);
        PairsMono(keys, univ, f0, prev);
        PairsMono(keys, univ, prev, follow);
        if g1 {
          var b := g.rules[k].prod[i].nt;
          assert Get(prev, b) != Get(follow, b);
          ghost var v :| v in Get(follow, b) && v !in Get(prev, b);
          ValsWithin(prev, univ);
          PairsGrow(keys, univ, prev, follow, b, v);
          grew := true;
        } else if !grew {
          FollowOkPrefixSame(first, prev, follow, g.rules[k], i);
        }
        i := i + 1;
      }
    }

    /**
      One pass of the FOLLOW loop: every rule in turn. FOLLOW only grows; the pass reports
      a change exactly when some set grew, and a pass without change finds every FOLLOW
      condition met.
    */
    method FollowPass(ghost keys: set<NonTerminal>, ghost univ: set<Terminal>) returns (changed: bool)
      requires forall k, i :: 0 <= k < |g.rules| && 0 <= i < |g.rules[k].prod| && g.rules[k].prod[i].NT? ==>
                 g.rules[k].prod[i].nt in keys
      requires Within(follow, univ) && Vals(first) <= univ
      modifies this`follow
      ensures Within(follow, univ) && Grows(old(follow), follow)
      ensures changed ==> Pairs(keys, univ, old(follow)) < Pairs(keys, univ, follow)
      ensures !changed ==> SameSets(old(follow), follow) && FollowClosed(g.rules, first, follow)
    {
      changed := false;
      ghost var before := follow;
      var k := 0;
      while k < |g.rules|
        invariant 0 <= k <= |g.rules|
        invariant Within(follow, univ) && Grows(before, follow)
        invariant !changed ==> SameSets(before, follow)
        invariant !changed ==> forall j, i :: 0 <= j < k && 0 <= i < |g.rules[j].prod| ==> FollowOk(first, follow, g.rules[j], i)
        invariant changed ==> Pairs(keys, univ, before) < Pairs(keys, univ, follow)
      {
        ghost var prev := follow;
        var grew := FollowRule(k, keys, univ);
        PairsMono(keys, univ, before, prev);
        PairsMono(keys, univ, prev, follow);
        if grew {
          changed := true;
        } else if !changed {
          FollowRulesSame(first, prev, follow, g.rules, k);
        }
        k := k + 1;
      }
    }

    /** FOLLOW: FOLLOW(start) = {END}, then apply every position of every rule until nothing changes. */
    method ComputeFollow()
      requires |g.rules| > 0
      modifies this`follow
      ensures END in Get(follow, g.rules[0].lhs)
      ensures FollowClosed(g.rules, first, follow)
      ensures forall n :: n != g.rules[0].lhs ==> Get(old(follow), n) <= Get(follow, n)
      ensures Vals(follow) <= Vals(old(follow)) + {END} + Vals(first)
    {
      ValsUpdate(follow, g.rules[0].lhs, {END});
      follow := follow[g.rules[0].lhs := {END}];
      ghost var f1 := follow;
      ghost var univ := Vals(follow) + Vals(first);
      ghost var keys := set k, i | 0 <= k < |g.rules| && 0 <= i < |g.rules[k].prod| && g.rules[k].prod[i].NT? :: g.rules[k].prod[i].nt;
      forall n ensures Get(follow, n) <= univ { ValsCover(follow, n); }
      var changed := true;
      while changed
        invariant Within(follow, univ) && Grows(f1, follow)
        invariant !changed ==> FollowClosed(g.rules, first, follow)
        decreases AllPairs(keys, univ) - Pairs(keys, univ, follow), changed
      {
        ghost var before := follow;
        changed := FollowPass(keys, univ);
        forall n ensures Get(f1, n) <= Get(follow, n) {
          assert Get(before, n) <= Get(follow, n);
        }
        if changed {
          PairsProgress(keys, univ, before, follow);
        } else {
          PairsSame(keys, univ, before, follow);
        }
      }
      ValsWithin(follow, univ);
    }

    /** The items `it` adds to a closure: `(i, 0, t)` for each rule i of the non-terminal after its dot. */
    method Expand(it: Item) returns (r: set<Item>)
      requires it.rule < |g.rules|
      ensures r == Derived(g.rules, first, it)
    {
      r := {};
      if DotAtEnd(g.rules, it) {
        return;
      }
      var p := g.rules[it.rule].prod;
      var next := p[it.dot];
      if IsNonTerminal(next) {
        var nt := next.nt;
        ghost var las := FirstOfSeq(first, LookaheadSeq(g.rules, it));
        var i := 0;
        while i < |g.rules|
          invariant 0 <= i <= |g.rules|
          invariant r == set j, t | 0 <= j < i && g.rules[j].lhs == nt && t in las :: Item(j, 0, t)
        {
          if g.rules[i].lhs == nt {
            var firstSeq := p[it.dot + 1..];
            if |firstSeq| == 0 {
              firstSeq := [T(EPSILON)];
            }
            firstSeq := firstSeq + [T(it.la)];
            var result := FirstForSequence(firstSeq);
            r := r + set t | t in result :: Item(i, 0, t);
          }
          i := i + 1;
        }
      }
    }

    /** One pass of the closure loop: everything the items of `closure` add. */
    method ClosurePass(closure: State) returns (newItems: set<Item>)
      requires ValidState(g.rules, closure)
      ensures newItems == Step(g.rules, first, closure)
    {
      newItems := {};
      var rest := closure;
      while rest != {}
        invariant rest <= closure
        invariant newItems == Step(g.rules, first, closure - rest)
        decreases rest
      {
        var it :| it in rest;
        var d := Expand(it);
        StepAdd(g.rules, first, closure - rest, it);
        assert closure - (rest - {it}) == (closure - rest) + {it};
        newItems := newItems + d;
        rest := rest - {it};
      }
    }

    /** Closure: add passes until the closure stops growing. */
    method Closure(items: State) returns (closure: State)
      requires ValidState(g.rules, items)
      ensures closure == ClosureFn(g.rules, first, items)
    {
      closure := items;
      var changed := true;
      ghost var pool := FreshItems(g.rules, first);
      while changed
        invariant ValidState(g.rules, closure)
        invariant ClosureFn(g.rules, first, closure) == ClosureFn(g.rules, first, items)
        invariant !changed ==> Step(g.rules, first, closure) <= closure
        decreases pool - closure, changed
      {
        changed := false;
        var newItems := ClosurePass(closure);
        StepFresh(g.rules, first, closure);
        ghost var prevSet := closure;
        var prev := |closure|;
        closure := closure + newItems;
        if |closure| != prev {
          changed := true;
          PoolShrinks(pool, prevSet, closure);
        } else {
          SubsetOfSameSize(prevSet, closure);
        }
      }
    }

    /** Goto: advance the dot over `next` in every item that allows it, then close. */
    method Goto(state: State, next: Token) returns (r: State)
      requires ValidState(g.rules, state)
      ensures r == GotoFn(g.rules, first, state, next)
    {
      var newState: State := {};
      var rest := state;
      while rest != {}
        invariant rest <= state
        invariant newState == Kernel(g.rules, state - rest, next)
        decreases rest
      {
        var it :| it in rest;
        KernelAdd(g.rules, state - rest, next, it);
        assert state - (rest - {it}) == (state - rest) + {it};
        var nextToken := NextToken(g.rules, it);
        if nextToken.Some? && nextToken.value == next {
          newState := newState + {Item(it.rule, it.dot + 1, it.la)};
        }
        rest := rest - {it};
      }
      assert state - rest == state;
      r := Closure(newState);
    }

    /** The non-empty gotos of state k over every vocabulary token. */
    method StateSuccessors(k: nat) returns (r: set<State>)
      requires k < |states| && ValidState(g.rules, states[k])
      ensures forall s :: s in r ==> s != {} && IsGotoOf(g.rules, first, g.tokens, states, s)
      ensures forall s :: s in r ==> exists x :: x in g.tokens && s == GotoFn(g.rules, first, states[k], x)
      ensures forall x :: x in g.tokens && GotoFn(g.rules, first, states[k], x) != {} ==>
                GotoFn(g.rules, first, states[k], x) in r
    {
      r := {};
      var rest := g.tokens;
      while rest != {}
        invariant rest <= g.tokens
        invariant forall s :: s in r ==> s != {} && exists x :: x in g.tokens && s == GotoFn(g.rules, first, states[k], x)
        invariant forall x :: x in g.tokens && x !in rest && GotoFn(g.rules, first, states[k], x) != {} ==>
                    GotoFn(g.rules, first, states[k], x) in r
        decreases rest
      {
        var x :| x in rest;
        var next := Goto(states[k], x);
        if next != {} {
          r := r + {next};
        }
        rest := rest - {x};
      }
      forall s | s in r ensures IsGotoOf(g.rules, first, g.tokens, states, s) {
        var x :| x in g.tokens && s == GotoFn(g.rules, first, states[k], x);
      }
    }

    /** Every non-empty goto of a collected state over a vocabulary token. */
    method Successors() returns (r: set<State>)
      requires forall k :: 0 <= k < |states| ==> ValidState(g.rules, states[k])
      ensures forall s :: s in r ==> s != {} && IsGotoOf(g.rules, first, g.tokens, states, s)
      ensures forall k, x :: 0 <= k < |states| && x in g.tokens && GotoFn(g.rules, first, states[k], x) != {} ==>
                GotoFn(g.rules, first, states[k], x) in r
    {
      r := {};
      var i := 0;
      while i < |states|
        invariant 0 <= i <= |states|
        invariant forall s :: s in r ==> s != {} && IsGotoOf(g.rules, first, g.tokens, states, s)
        invariant forall k, x :: 0 <= k < i && x in g.tokens && GotoFn(g.rules, first, states[k], x) != {} ==>
                    GotoFn(g.rules, first, states[k], x) in r
      {
        var next := StateSuccessors(i);
        forall k, x | 0 <= k < i + 1 && x in g.tokens && GotoFn(g.rules, first, states[k], x) != {}
          ensures GotoFn(g.rules, first, states[k], x) in r + next
        {
          if k < i {
            assert GotoFn(g.rules, first, states[k], x) in r;
          }
        }
        r := r + next;
        i := i + 1;
      }
    }

    /**
      One pass of the collection loop: the non-empty gotos of every collected state over
      every vocabulary token, appended when not yet collected. The pass reports a change
      exactly when it appended a state; a pass without change finds the collection closed
      under goto.
    */
    method CollectionPass(ghost las: set<Terminal>) returns (changed: bool)
      requires Vals(first) + {EPSILON} <= las
      requires |states| > 0 && Distinct(states) && Discovered(g.rules, first, g.tokens, states)
      requires forall k :: 0 <= k < |states| ==> states[k] != {} && states[k] <= ItemsOver(g.rules, las)
      modifies this`states
      ensures |old(states)| <= |states| && states[..|old(states)|] == old(states)
      ensures Distinct(states) && Discovered(g.rules, first, g.tokens, states)
      ensures forall k :: 0 <= k < |states| ==> states[k] != {} && states[k] <= ItemsOver(g.rules, las)
      ensures changed ==> PowerSet(ItemsOver(g.rules, las)) - Elements(states) < PowerSet(ItemsOver(g.rules, las)) - Elements(old(states))
      ensures !changed ==> states == old(states) && ClosedUnderGoto(g.rules, first, g.tokens, states)
    {
      ghost var univ := ItemsOver(g.rules, las);
      changed := false;
      forall k | 0 <= k < |states| ensures ValidState(g.rules, states[k]) {
        ItemsOverValid(g.rules, las, states[k]);
      }
      var newStates := Successors();
      forall s | s in newStates ensures s <= univ {
        var k, x :| 0 <= k < |states| && x in g.tokens && s == GotoFn(g.rules, first, states[k], x);
        GotoWithin(g.rules, first, states[k], x, las);
      }
      ghost var old0 := states;
      var prev := |states|;
      var next := AppendNew(states, newStates);
      DiscoveredAppend(g.rules, first, g.tokens, old0, next);
      forall k | 0 <= k < |next| ensures next[k] != {} && next[k] <= univ {
        if k < |old0| {
          assert next[k] == old0[k];
        } else {
          assert next[k] in newStates;
        }
      }
      if |next| != prev {
        changed := true;
        assert next[|old0|] !in Elements(old0);
        assert next[|old0|] in PowerSet(univ);
      } else {
        assert next == old0;
      }
      states := next;
    }

    /**
      The canonical collection: state 0 is the closure of the start item; each pass
      collects the non-empty gotos of every state over every token and appends those not
      yet present, until a pass appends nothing.
    */
    method BuildCanonicalCollection()
      requires |g.rules| > 0
      modifies this`states
      ensures IsCanonical(g.rules, first, g.tokens, states)
      ensures forall k, it :: 0 <= k < |states| && it in states[k] ==> it.rule < |g.rules|
    {
      ghost var las := Vals(first) + {EPSILON, END};
      ghost var univ := ItemsOver(g.rules, las);
      assert {Item(0, 0, END)} <= univ;
      var initial := Closure({Item(0, 0, END)});
      ClosureWithin(g.rules, first, {Item(0, 0, END)}, las);
      ClosureContains(g.rules, first, {Item(0, 0, END)});
      states := [initial];
      var changed := true;
      while changed
        invariant |states| > 0 && states[0] == InitialState(g.rules, first)
        invariant Distinct(states)
        invariant Discovered(g.rules, first, g.tokens, states)
        invariant forall k :: 0 <= k < |states| ==> states[k] != {} && states[k] <= univ
        invariant !changed ==> ClosedUnderGoto(g.rules, first, g.tokens, states)
        decreases PowerSet(univ) - Elements(states), changed
      {
        ghost var prev := states;
        changed := CollectionPass(las);
        assert states[0] == states[..|prev|][0];
      }
      forall k, it | 0 <= k < |states| && it in states[k] ensures it.rule < |g.rules| {
        ItemsOverValid(g.rules, las, states[k]);
      }
    }

    /** The entry item `it` of state `s` demands; the goto of a shift is computed as the source does. */
    method ItemAction(s: State, it: Item) returns (r: Option<Insertion>)
      requires ValidState(g.rules, s) && it in s
      ensures r == Demand(g.rules, first, states, s, it)
    {
      var next := NextToken(g.rules, it);
      if next.Some? {
        if IsTerminal(next.value) {
          var nextState := Goto(s, next.value);
          var j := IndexOf(states, nextState);
          if next.value.t != EPSILON {
            r := Some(Insertion(ShiftSite, QualName(next.value), Action(Shift, j)));
          } else {
            r := Some(Insertion(EpsilonSite, QualName(T(it.la)), Action(Reduce, it.rule)));
          }
        } else {
          r := None;
        }
      } else if it.rule != 0 {
        r := Some(Insertion(EndSite, QualName(T(it.la)), Action(Reduce, it.rule)));
      } else {
        r := Some(Insertion(EndSite, QualName(T(END)), Action(Accept, 0)));
      }
    }

    /**
      The entries of state i inserted one item at a time into `row`, in the order in which
      the state's set is visited, until the first conflict. `last` is the row as it stands
      then; `order` records the items visited.
    */
    method InsertItems(i: nat, row: Row) returns (res: Result<Row>, last: Row, ghost order: seq<Item>)
      requires i < |states| && ValidState(g.rules, states[i])
      ensures forall it :: it in order ==> it in states[i]
      ensures res == Fold(row, Demands(g.rules, first, states, states[i], order))
      ensures last == Partial(row, Demands(g.rules, first, states, states[i], order))
      ensures res.Ok? ==> Enumerates(order, states[i])
    {
      var s := states[i];
      var rest := s;
      order := [];
      var cur := row;
      while rest != {}
        invariant rest <= s
        invariant forall it :: it in order <==> it in s && it !in rest
        invariant forall a, b :: 0 <= a < b < |order| ==> order[a] != order[b]
        invariant Fold(row, Demands(g.rules, first, states, s, order)) == Ok(cur)
        decreases rest
      {
        var it :| it in rest;
        var ins := ItemAction(s, it);
        ghost var ds := Demands(g.rules, first, states, s, order);
        DemandsSnoc(g.rules, first, states, s, order, it);
        order := order + [it];
        if ins.Some? {
          FoldSnoc(row, ds, ins.value);
          var r := Insert(cur, ins.value);
          if r.Err? {
            return r, cur, order;
          }
          cur := r.value;
        }
        rest := rest - {it};
      }
      PartialOfSuccess(row, Demands(g.rules, first, states, s, order));
      return Ok(cur), cur, order;
    }

    /** The row of state i, filled from `row`: a success exactly when the entries of the state agree. */
    method FillRow(i: nat, row: Row) returns (res: Result<Row>, last: Row, ghost order: seq<Item>)
      requires i < |states| && ValidState(g.rules, states[i])
      ensures RowFilled(g.rules, first, states, states[i], row, res, last, order)
    {
      res, last, order := InsertItems(i, row);
      if res.Err? {
        ConflictShowsDisagreement(g.rules, first, states, states[i], row, order);
      } else {
        RowOfState(g.rules, first, states, states[i], row, order);
      }
    }

    /**
      ACTION: resize to one row per state, then fill each state's row in turn, stopping
      at the first conflict. `orders` records the order in which the items of each
      visited state were taken.
    */
    method BuildActionTable() returns (r: Outcome, ghost orders: seq<seq<Item>>)
      requires forall k, it :: 0 <= k < |states| && it in states[k] ==> it.rule < |g.rules|
      modifies this`action
      ensures |action| == |states|
      ensures r.Success? <==> AllAgree(Resize(old(action), |states|))
      ensures ActionBuilt(r, Resize(old(action), |states|), orders)
    {
      var rows := Resize(action, |states|);
      ghost var base := rows;
      orders := [];
      var i := 0;
      while i < |states|
        invariant TablePrefix(g.rules, first, states, base, orders, rows, i)
      {
        var res, last, order := FillRow(i, rows[i]);
        if res.Err? {
          TableStepErr(g.rules, first, states, base, orders, rows, i, res, last, order);
          action := rows[i := last];
          return Ambiguity(res.conflict), orders + [order];
        }
        TableStepOk(g.rules, first, states, base, orders, rows, i, res, last, order);
        rows := rows[i := last];
        orders := orders + [order];
        i := i + 1;
      }
      TableDone(g.rules, first, states, base, orders, rows);
      r := Success;
      action := rows;
    }

    /**
      The GOTO row of state i: starting from `start`, for every non-terminal of the
      vocabulary whose goto from state i is collected, the index of that state.
    */
    method GotoRow(i: nat, start: map<NonTerminal, nat>) returns (row: map<NonTerminal, nat>)
      requires i < |states| && ValidState(g.rules, states[i])
      ensures forall n ::
        Entry(row, n) ==
        if GotoTarget(g.rules, first, g.tokens, states, states[i], n).Some?
        then GotoTarget(g.rules, first, g.tokens, states, states[i], n)
        else Entry(start, n)
    {
      row := start;
      var rest := g.tokens;
      while rest != {}
        invariant rest <= g.tokens
        invariant forall n ::
          Entry(row, n) ==
          if NT(n) !in rest && GotoTarget(g.rules, first, g.tokens, states, states[i], n).Some?
          then GotoTarget(g.rules, first, g.tokens, states, states[i], n)
          else Entry(start, n)
        decreases rest
      {
        var token :| token in rest;
        rest := rest - {token};
        if IsTerminal(token) {
          continue;
        }
        var nt := token.nt;
        var state := Goto(states[i], NT(nt));
        if state in states {
          row := row[nt := IndexOf(states, state)];
        }
      }
    }

    /** GOTO: the GOTO row of every state in turn. */
    method BuildGotoTable()
      requires forall k, it :: 0 <= k < |states| && it in states[k] ==> it.rule < |g.rules|
      modifies this`gotoTable
      ensures GotoRows(old(gotoTable))
    {
      var i := 0;
      while i < |states|
        invariant 0 <= i <= |states|
        invariant forall i': nat, n ::
          Lookup(gotoTable, i', n) ==
          if i' < i && GotoTarget(g.rules, first, g.tokens, states, states[i'], n).Some?
          then GotoTarget(g.rules, first, g.tokens, states, states[i'], n)
          else Lookup(old(gotoTable), i', n)
      {
        var row := GotoRow(i, if i in gotoTable then gotoTable[i] else map[]);
        gotoTable := gotoTable[i := row];
        i := i + 1;
      }
    }

    /**
      What the three analysis stages establish: FIRST and FOLLOW satisfy their defining
      conditions and `states` is the canonical collection of LR(1) item sets.
    */
    ghost predicate Analysed()
      reads this`first, this`follow, this`states
    {
      && FirstSeeded(g.tokens, first) && FirstClosed(g.rules, first)
      && |g.rules| > 0 && END in Get(follow, g.rules[0].lhs) && FollowClosed(g.rules, first, follow)
      && IsCanonical(g.rules, first, g.tokens, states)
      && (forall k, it :: 0 <= k < |states| && it in states[k] ==> it.rule < |g.rules|)
    }

    /** The demands of every state agree with each other and with its row in `start`. */
    ghost predicate AllAgree(start: seq<Row>)
      reads this`first, this`states
    {
      StatesAgree(g.rules, first, states, start, |states|)
    }

    /**
      ACTION has one row per state, holding every entry the state's items demand and no
      key but those and the keys of its row in `start`.
    */
    ghost predicate ActionRows(start: seq<Row>)
      reads this`first, this`states, this`action
    {
      && |action| == |states|
      && RowsHold(g.rules, first, states, start, action)
    }

    /**
      How ACTION was filled from `start`: the rows of the states visited were built by
      inserting their items' entries in the recorded orders; after a conflict, the last
      visited row is as it stood when the conflict arose and the later rows are untouched.
    */
    ghost predicate ActionBuilt(r: Outcome, start: seq<Row>, orders: seq<seq<Item>>)
      reads this`first, this`states, this`action
    {
      TableBuilt(g.rules, first, states, start, orders, action, r)
    }

    /** GOTO holds the target of every state and non-terminal whose goto is collected, and `prev` elsewhere. */
    ghost predicate GotoRows(prev: GotoTable)
      reads this`first, this`states, this`gotoTable
    {
      forall i: nat, n ::
        Lookup(gotoTable, i, n) ==
        if i < |states| && GotoTarget(g.rules, first, g.tokens, states, states[i], n).Some?
        then GotoTarget(g.rules, first, g.tokens, states, states[i], n)
        else Lookup(prev, i, n)
    }

    /** ACTION and, when ACTION met no conflict, GOTO, over the collected states. */
    method BuildTables() returns (r: Outcome, ghost orders: seq<seq<Item>>)
      requires forall k, it :: 0 <= k < |states| && it in states[k] ==> it.rule < |g.rules|
      modifies this`action, this`gotoTable
      ensures |action| == |states|
      ensures r.Success? <==> AllAgree(Resize(old(action), |states|))
      ensures r.Success? ==> ActionRows(Resize(old(action), |states|))
      ensures r.Success? ==> GotoRows(old(gotoTable))
      ensures r.Ambiguity? ==> gotoTable == old(gotoTable)
      ensures r.Ambiguity? ==> ConflictExplained(g.rules, first, states, Resize(old(action), |states|), r.conflict)
      ensures r.Ambiguity? ==> ActionBuilt(r, Resize(old(action), |states|), orders)
    {
      ghost var start := Resize(action, |states|);
      r, orders := BuildActionTable();
      if r.Ambiguity? {
        TableConflictExplained(g.rules, first, states, start, orders, action, r.conflict);
        return;
      }
      TableRowsHold(g.rules, first, states, start, orders, action);
      BuildGotoTable();
    }

    /** The three analysis stages: FIRST, FOLLOW and the canonical collection. */
    method Analyse()
      requires |g.rules| > 0
      modifies this`first, this`follow, this`states
      ensures Analysed()
    {
      ComputeFirst();
      ComputeFollow();
      BuildCanonicalCollection();
    }

    /**
      The pipeline: FIRST, FOLLOW, the canonical collection, ACTION and, when ACTION met
      no conflict, GOTO.
    */
    method Generate() returns (r: Outcome, ghost orders: seq<seq<Item>>)
      requires |g.rules| > 0
      modifies this`first, this`follow, this`states, this`action, this`gotoTable
      ensures Analysed()
      ensures |action| == |states|
      ensures r.Success? <==> AllAgree(Resize(old(action), |states|))
      ensures r.Success? ==> ActionRows(Resize(old(action), |states|))
      ensures r.Success? ==> GotoRows(old(gotoTable))
      ensures r.Ambiguity? ==> gotoTable == old(gotoTable)
      ensures r.Ambiguity? ==> ConflictExplained(g.rules, first, states, Resize(old(action), |states|), r.conflict)
      ensures r.Ambiguity? ==> ActionBuilt(r, Resize(old(action), |states|), orders)
    {
      ghost var action0 := action;
      Analyse();
      assert action == action0;
      r, orders := BuildTables();
    }
  }
}
