/**
  FIRST of a symbol sequence, and the conditions that the FIRST and FOLLOW tables
  satisfy once their fixpoint loops have stopped.
*/
module FirstFollow {
  import opened Entities
  import opened Sets

  type FirstMap = map<Token, set<Terminal>>
  type FollowMap = map<NonTerminal, set<Terminal>>

  /**
    FIRST of a sequence: scan left to right, collecting FIRST(X) minus EPSILON and
    stopping after the first symbol whose FIRST lacks EPSILON; EPSILON belongs to the
    result only when every symbol is nullable (in particular for the empty sequence).
  */
  function FirstOfSeq(first: FirstMap, s: seq<Token>): set<Terminal>
    decreases |s|
  {
    if s == [] then {EPSILON}
    else
      var f := Get(first, s[0]);
      (f - {EPSILON}) + (if EPSILON in f then FirstOfSeq(first, s[1..]) else {})
  }

  /** FIRST of a sequence depends only on the sets stored, not on which keys are present. */
  lemma {:induction false} FirstOfSeqSame(f1: FirstMap, f2: FirstMap, s: seq<Token>)
    requires SameSets(f1, f2)
    ensures FirstOfSeq(f1, s) == FirstOfSeq(f2, s)
    decreases |s|
  {
    if s != [] {
      assert Get(f1, s[0]) == Get(f2, s[0]);
      FirstOfSeqSame(f1, f2, s[1..]);
    }
  }

  /**
    One step of the scan that adds FIRST of a production to FIRST(lhs): adding `tf`,
    the current FIRST of symbol j, minus EPSILON, to the scanned set `cur` keeps the
    total the scan reaches, and reaches it when the symbol is not nullable. The scanned
    table may already differ from `f0` at `lhs`, by terminals other than EPSILON drawn
    from FIRST of the production.
  */
  lemma ScanStep(f0: FirstMap, tf: set<Terminal>, cur: set<Terminal>, lhs: Token, s: seq<Token>, j: nat,
                 total: set<Terminal>)
    requires j < |s|
    requires s[j] != lhs ==> tf == Get(f0, s[j])
    requires s[j] == lhs ==> tf == cur
    requires Get(f0, lhs) <= cur
    requires EPSILON in cur <==> EPSILON in Get(f0, lhs)
    requires cur + FirstOfSeq(f0, s[j..]) == total
    requires total == Get(f0, lhs) + FirstOfSeq(f0, s)
    ensures EPSILON in tf <==> EPSILON in Get(f0, s[j])
    ensures EPSILON !in tf ==> cur + (tf - {EPSILON}) == total
    ensures EPSILON in tf ==> cur + (tf - {EPSILON}) + FirstOfSeq(f0, s[j + 1..]) == total
  {
    assert s[j..][0] == s[j] && s[j..][1..] == s[j + 1..];
    if s[j] == lhs {
      assert Get(f0, lhs) - {EPSILON} <= cur;
    }
  }

  ghost predicate AllNullable(first: FirstMap, s: seq<Token>) {
    forall i :: 0 <= i < |s| ==> EPSILON in Get(first, s[i])
  }

  /** EPSILON is in FIRST of a sequence exactly when every symbol of it is nullable. */
  lemma {:induction false} FirstOfSeqEpsilon(first: FirstMap, s: seq<Token>)
    ensures EPSILON in FirstOfSeq(first, s) <==> AllNullable(first, s)
    decreases |s|
  {
    if s != [] {
      FirstOfSeqEpsilon(first, s[1..]);
      if EPSILON in Get(first, s[0]) {
        assert AllNullable(first, s) <==> AllNullable(first, s[1..]) by {
          forall i | 0 <= i < |s[1..]| ensures s[1..][i] == s[i + 1] {}
        }
      } else {
        assert !AllNullable(first, s);
      }
    }
  }

  /**
    A terminal other than EPSILON is in FIRST of a sequence exactly when it is in FIRST
    of some symbol of the sequence all of whose predecessors are nullable.
  */
  lemma {:induction false} FirstOfSeqMembers(first: FirstMap, s: seq<Token>, t: Terminal)
    requires t != EPSILON
    ensures t in FirstOfSeq(first, s) <==>
              exists i :: 0 <= i < |s| && AllNullable(first, s[..i]) && t in Get(first, s[i])
    decreases |s|
  {
    if s != [] {
      FirstOfSeqMembers(first, s[1..], t);
      var f := Get(first, s[0]);
      assert AllNullable(first, s[..0]);
      if t in FirstOfSeq(first, s) {
        if t !in f {
          var j :| 0 <= j < |s[1..]| && AllNullable(first, s[1..][..j]) && t in Get(first, s[1..][j]);
          assert s[..j + 1] == [s[0]] + s[1..][..j];
          assert AllNullable(first, s[..j + 1]);
        }
      }
      if exists i :: 0 <= i < |s| && AllNullable(first, s[..i]) && t in Get(first, s[i]) {
        var i :| 0 <= i < |s| && AllNullable(first, s[..i]) && t in Get(first, s[i]);
        if i > 0 {
          assert EPSILON in Get(first, s[..i][0]);
          assert s[1..][..i - 1] == s[1..i];
          assert t in Get(first, s[1..][i - 1]);
        }
      }
    }
  }

  /** Every terminal in FIRST of a sequence is EPSILON or is stored somewhere in `first`. */
  lemma {:induction false} FirstOfSeqWithin(first: FirstMap, s: seq<Token>)
    ensures FirstOfSeq(first, s) <= Vals(first) + {EPSILON}
    decreases |s|
  {
    if s != [] {
      ValsCover(first, s[0]);
      FirstOfSeqWithin(first, s[1..]);
    }
  }

  /**
    A set that receives FIRST(X) minus EPSILON for every symbol X reached by the scan,
    and EPSILON when every symbol is nullable, contains FIRST of the sequence.
  */
  lemma {:induction false} FirstOfSeqBound(first: FirstMap, s: seq<Token>, bound: set<Terminal>)
    requires forall i :: 0 <= i < |s| && AllNullable(first, s[..i]) ==> Get(first, s[i]) - {EPSILON} <= bound
    requires AllNullable(first, s) ==> EPSILON in bound
    ensures FirstOfSeq(first, s) <= bound
    decreases |s|
  {
    if s != [] {
      assert AllNullable(first, s[..0]);
      if EPSILON in Get(first, s[0]) {
        forall i | 0 <= i < |s[1..]| && AllNullable(first, s[1..][..i])
          ensures Get(first, s[1..][i]) - {EPSILON} <= bound
        {
          assert AllNullable(first, s[..i + 1]) by {
            forall j | 0 <= j < i + 1 ensures EPSILON in Get(first, s[j]) {
              if j > 0 { assert s[j] == s[1..][..i][j - 1]; }
            }
          }
          assert s[1..][i] == s[i + 1];
        }
        assert AllNullable(first, s[1..]) ==> AllNullable(first, s) by {
          if AllNullable(first, s[1..]) {
            forall j | 0 <= j < |s| ensures EPSILON in Get(first, s[j]) {
              if j > 0 { assert s[j] == s[1..][j - 1]; }
            }
          }
        }
        FirstOfSeqBound(first, s[1..], bound);
      }
    }
  }

  /** FIRST(t) = {t} for every terminal of the vocabulary, and FIRST(EPSILON) = {EPSILON}. */
  ghost predicate FirstSeeded(tokens: set<Token>, first: FirstMap) {
    && (forall t :: T(t) in tokens ==> Get(first, T(t)) == {t})
    && Get(first, T(EPSILON)) == {EPSILON}
  }

  /** Every rule's production contributes its FIRST to the FIRST of its left-hand side. */
  ghost predicate FirstClosed(rules: seq<Rule>, first: FirstMap) {
    forall k :: 0 <= k < |rules| ==> FirstOfSeq(first, rules[k].prod) <= Get(first, NT(rules[k].lhs))
  }

  /**
    The FIRST rule for one production, stated symbol by symbol: each terminal that can
    begin the production is in FIRST(lhs), and so is EPSILON when every symbol is nullable.
  */
  lemma FirstClosedRule(rules: seq<Rule>, first: FirstMap, k: nat)
    requires FirstClosed(rules, first) && k < |rules|
    ensures AllNullable(first, rules[k].prod) ==> EPSILON in Get(first, NT(rules[k].lhs))
    ensures forall i, t :: 0 <= i < |rules[k].prod| && AllNullable(first, rules[k].prod[..i]) &&
                           t in Get(first, rules[k].prod[i]) && t != EPSILON
                           ==> t in Get(first, NT(rules[k].lhs))
  {
    FirstOfSeqEpsilon(first, rules[k].prod);
    forall i, t | 0 <= i < |rules[k].prod| && AllNullable(first, rules[k].prod[..i]) &&
                  t in Get(first, rules[k].prod[i]) && t != EPSILON
      ensures t in Get(first, NT(rules[k].lhs))
    {
      FirstOfSeqMembers(first, rules[k].prod, t);
    }
  }

  /**
    The FOLLOW conditions for the symbol at position `i` of `rule` when it is a
    non-terminal B with suffix beta: FIRST(beta) minus EPSILON is in FOLLOW(B) when
    beta is non-empty, and FOLLOW(lhs) is in FOLLOW(B) when beta is empty or nullable.
  */
  ghost predicate FollowOk(first: FirstMap, follow: FollowMap, rule: Rule, i: nat)
    requires i < |rule.prod|
  {
    rule.prod[i].NT? ==>
      var b := rule.prod[i].nt;
      var beta := rule.prod[i + 1..];
      && (beta != [] ==> FirstOfSeq(first, beta) - {EPSILON} <= Get(follow, b))
      && (beta == [] || EPSILON in FirstOfSeq(first, beta) ==> Get(follow, rule.lhs) <= Get(follow, b))
  }

  /**
    What position i of `rule` adds to FOLLOW(B) when B, a non-terminal, stands there:
    FIRST(beta) minus EPSILON for a non-empty suffix beta, and FOLLOW(lhs) when beta is
    empty or nullable.
  */
  ghost function FollowGain(first: FirstMap, follow: FollowMap, rule: Rule, i: nat): set<Terminal>
    requires i < |rule.prod|
  {
    var beta := rule.prod[i + 1..];
    if beta == [] then Get(follow, rule.lhs)
    else
      (FirstOfSeq(first, beta) - {EPSILON}) +
      (if EPSILON in FirstOfSeq(first, beta) then Get(follow, rule.lhs) else {})
  }

  /** Adding the gain of position i to FOLLOW(B) and changing nothing else meets the FOLLOW conditions there. */
  lemma FollowGainOk(first: FirstMap, f: FollowMap, f': FollowMap, rule: Rule, i: nat)
    requires i < |rule.prod| && rule.prod[i].NT?
    requires Get(f', rule.prod[i].nt) == Get(f, rule.prod[i].nt) + FollowGain(first, f, rule, i)
    requires forall n :: n != rule.prod[i].nt ==> Get(f', n) == Get(f, n)
    ensures FollowOk(first, f', rule, i)
    ensures Get(f', rule.prod[i].nt) <= Get(f, rule.prod[i].nt) + Get(f, rule.lhs) + Vals(first)
  {
    var beta := rule.prod[i + 1..];
    if rule.lhs != rule.prod[i].nt {
      assert Get(f', rule.lhs) == Get(f, rule.lhs);
    }
    FirstOfSeqWithin(first, beta);
  }

  /** The FOLLOW conditions depend only on the sets stored, not on which keys are present. */
  lemma FollowOkSame(first: FirstMap, f1: FollowMap, f2: FollowMap, rule: Rule, i: nat)
    requires i < |rule.prod|
    requires SameSets(f1, f2)
    ensures FollowOk(first, f1, rule, i) <==> FollowOk(first, f2, rule, i)
  {
    if rule.prod[i].NT? {
      assert Get(f1, rule.prod[i].nt) == Get(f2, rule.prod[i].nt);
      assert Get(f1, rule.lhs) == Get(f2, rule.lhs);
    }
  }

  /** The FOLLOW conditions at the first `n` positions of a rule carry over to a table storing the same sets. */
  lemma FollowOkPrefixSame(first: FirstMap, f1: FollowMap, f2: FollowMap, rule: Rule, n: nat)
    requires n <= |rule.prod| && SameSets(f1, f2)
    requires forall j :: 0 <= j < n ==> FollowOk(first, f1, rule, j)
    ensures forall j :: 0 <= j < n ==> FollowOk(first, f2, rule, j)
  {
    forall j | 0 <= j < n ensures FollowOk(first, f2, rule, j) {
      FollowOkSame(first, f1, f2, rule, j);
    }
  }

  /** The FOLLOW conditions of the first `n` rules carry over to a table storing the same sets. */
  lemma FollowRulesSame(first: FirstMap, f1: FollowMap, f2: FollowMap, rules: seq<Rule>, n: nat)
    requires n <= |rules| && SameSets(f1, f2)
    requires forall j, i :: 0 <= j < n && 0 <= i < |rules[j].prod| ==> FollowOk(first, f1, rules[j], i)
    ensures forall j, i :: 0 <= j < n && 0 <= i < |rules[j].prod| ==> FollowOk(first, f2, rules[j], i)
  {
    forall j, i | 0 <= j < n && 0 <= i < |rules[j].prod| ensures FollowOk(first, f2, rules[j], i) {
      FollowOkSame(first, f1, f2, rules[j], i);
    }
  }

  ghost predicate FollowClosed(rules: seq<Rule>, first: FirstMap, follow: FollowMap) {
    forall k, i :: 0 <= k < |rules| && 0 <= i < |rules[k].prod| ==> FollowOk(first, follow, rules[k], i)
  }
}
