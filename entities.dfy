/**
  The vocabulary of a context-free grammar as the LR(1) table generator sees it:
  terminals, non-terminals, rules, dotted LR(1) items and parser actions, together
  with the helpers that inspect an item and the key derivation of the ACTION table.
*/
module Entities {

  datatype Option<T> = None | Some(value: T)

  /** A terminal: `name` is the semantic identifier, `repr` the lexical pattern (may be empty). */
  datatype Terminal = Terminal(name: string, repr: string)

  datatype NonTerminal = NonTerminal(name: string)

  /** A grammar symbol: a terminal or a non-terminal. */
  datatype Token = T(t: Terminal) | NT(nt: NonTerminal)

  /** The empty string. */
  const EPSILON: Terminal := Terminal("", "")

  /** End of input, injected into the vocabulary when a generator is built. */
  const END: Terminal := Terminal("$", "$")

  datatype Rule = Rule(lhs: NonTerminal, prod: seq<Token>)

  /** Rules (rule 0 is the augmented start rule) and the vocabulary used for enumeration. */
  datatype Grammar = Grammar(rules: seq<Rule>, tokens: set<Token>)

  /** An LR(1) item: a rule index, a dot position in its production and a lookahead terminal. */
  datatype Item = Item(rule: nat, dot: nat, la: Terminal)

  type State = set<Item>

  datatype ActionType = Shift | Reduce | Accept | Error

  /** `value` is the target state of a SHIFT or the rule of a REDUCE; 0 for ACCEPT. */
  datatype Action = Action(kind: ActionType, value: nat)

  /** A token is a terminal exactly when its key is a plain or a pattern terminal key. */
  predicate IsTerminal(tok: Token)
    ensures IsTerminal(tok) <==> KindOf(tok) != NonTerminalKey
  {
    tok.T?
  }

  /** Every token is exactly one of a terminal and a non-terminal. */
  predicate IsNonTerminal(tok: Token)
    ensures IsNonTerminal(tok) <==> !IsTerminal(tok)
  {
    tok.NT?
  }

  /** The string key under which a token is entered in the ACTION table. */
  function QualName(tok: Token): string {
    match tok
    case T(t) => if t.repr == "" then "T_" + t.name else "R_" + t.name
    case NT(n) => "NT_" + n.name
  }

  /** The three kinds of keys QualName produces. */
  datatype KeyKind = PlainTerminal | PatternTerminal | NonTerminalKey

  function KindOf(tok: Token): KeyKind {
    match tok
    case T(t) => if t.repr == "" then PlainTerminal else PatternTerminal
    case NT(_) => NonTerminalKey
  }

  function NameOf(tok: Token): string {
    match tok
    case T(t) => t.name
    case NT(n) => n.name
  }

  /**
    Two tokens share an ACTION key exactly when they are of the same kind and carry
    the same name, so keys of different kinds never collide; END has the key "R_$".
  */
  lemma QualNameKeys(a: Token, b: Token)
    ensures QualName(a) == QualName(b) <==> KindOf(a) == KindOf(b) && NameOf(a) == NameOf(b)
    ensures QualName(T(END)) == "R_$"
  {
    var qa, qb := QualName(a), QualName(b);
    var pa := if KindOf(a) == NonTerminalKey then 3 else 2;
    var pb := if KindOf(b) == NonTerminalKey then 3 else 2;
    assert qa[pa..] == NameOf(a);
    assert qb[pb..] == NameOf(b);
    if qa == qb {
      assert qa[0] == qb[0];
      assert KindOf(a) == KindOf(b);
    }
  }

  /** Every item refers to an existing rule, the one thing the generator demands of an item. */
  ghost predicate ValidState(rules: seq<Rule>, s: State) {
    forall it :: it in s ==> it.rule < |rules|
  }

  /** Nothing of the production remains to the right of the dot. */
  predicate DotAtEnd(rules: seq<Rule>, it: Item)
    requires it.rule < |rules|
  {
    it.dot >= |rules[it.rule].prod|
  }

  /** The symbol right after the dot, if any. */
  function NextToken(rules: seq<Rule>, it: Item): (r: Option<Token>)
    requires it.rule < |rules|
    ensures r.Some? <==> it.dot < |rules[it.rule].prod|
  {
    if !DotAtEnd(rules, it) then Some(rules[it.rule].prod[it.dot]) else None
  }
}
