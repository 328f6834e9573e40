/**
  The ACTION table: which entry each LR(1) item demands, how an entry is inserted into a
  row with the conflict checks of the three insertion points, and what a row built by
  inserting the demands of every item of a state contains.
*/
module Tables {
  import opened Entities
  import opened FirstFollow
  import opened Lr1Items
  import opened Collection
  import opened Sets

  /** One row of the ACTION table, keyed by the QualName of a terminal. */
  type Row = map<string, Action>

  /** The insertion point of an entry: a shift over a terminal, a reduce triggered by an EPSILON after the dot, or a completed item. */
  datatype Site = ShiftSite | EpsilonSite | EndSite

  datatype Insertion = Insertion(site: Site, key: string, action: Action)

  /** Ambiguous is the generic "conflict in action table" reported for completed items. */
  datatype ConflictKind = ShiftReduce | ShiftShift | ReduceReduce | Ambiguous

  datatype Conflict = Conflict(kind: ConflictKind, key: string)

  datatype Result<T> = Ok(value: T) | Err(conflict: Conflict)

  /** What BuildActionTable reports: success, or the first conflict it met. */
  datatype Outcome = Success | Ambiguity(conflict: Conflict)

  /** The only pairings of insertion point and action that the table builder produces. */
  predicate WellFormed(ins: Insertion) {
    && (ins.site == ShiftSite ==> ins.action.kind == Shift)
    && (ins.site == EpsilonSite ==> ins.action == Action(Reduce, ins.action.value))
    && (ins.site == EndSite ==> ins.action.kind == Reduce || ins.action == Action(Accept, 0))
  }

  /** The message category an insertion point reports for a clash with `existing`. */
  function KindFor(site: Site, existing: Action): ConflictKind {
    match site
    case ShiftSite => if existing.kind == Reduce then ShiftReduce else if existing.kind == Shift then ShiftShift else Ambiguous
    case EpsilonSite => if existing.kind == Shift then ShiftReduce else if existing.kind == Reduce then ReduceReduce else Ambiguous
    case EndSite => Ambiguous
  }

  /**
    Insertion as the source writes it: the shift point rejects an existing REDUCE and a
    SHIFT to another state, the EPSILON point rejects an existing SHIFT and a REDUCE of
    another rule, the completion point rejects an existing SHIFT and a REDUCE whose value
    differs; every other case overwrites the entry.
  */
  function InsertAsWritten(row: Row, ins: Insertion): (r: Result<Row>)
    ensures r.Ok? ==> r.value == row[ins.key := ins.action]
    ensures r.Err? ==> ins.key in row && row[ins.key].kind != Accept && r.conflict.key == ins.key
    ensures ins.key in row && row[ins.key].kind == Accept ==> r.Ok?
  {
    var key := ins.key;
    if key !in row then Ok(row[key := ins.action])
    else
      var existing := row[key];
      var clash := match ins.site
        case ShiftSite =>
          existing.kind == Reduce || (existing.kind == Shift && existing.value != ins.action.value)
        case EpsilonSite =>
          existing.kind == Shift || (existing.kind == Reduce && existing.value != ins.action.value)
        case EndSite =>
          existing.kind == Shift || (existing.kind == Reduce && existing.value != ins.action.value);
      if clash then Err(Conflict(KindFor(ins.site, existing), key)) else Ok(row[key := ins.action])
  }

  /** Insertion with a conflict whenever the key already holds a different action. */
  function Insert(row: Row, ins: Insertion): (r: Result<Row>)
    ensures r.Ok? <==> ins.key !in row || row[ins.key] == ins.action
    ensures r.Ok? ==> r.value == row[ins.key := ins.action]
    ensures r.Err? ==> r.conflict == Conflict(KindFor(ins.site, row[ins.key]), ins.key)
  {
    if ins.key in row && row[ins.key] != ins.action then Err(Conflict(KindFor(ins.site, row[ins.key]), ins.key))
    else Ok(row[ins.key := ins.action])
  }

  /**
    The two insertions coincide, conflict kind included, whenever neither the existing
    entry nor the new action is an ACCEPT.
  */
  lemma InsertCorrectionScope(row: Row, ins: Insertion)
    requires WellFormed(ins) && ins.action.kind != Accept
    requires ins.key in row ==> row[ins.key].kind == Shift || row[ins.key].kind == Reduce
    ensures InsertAsWritten(row, ins) == Insert(row, ins)
  {
  }

  /** Inserts a sequence of entries left to right, stopping at the first conflict. */
  function Fold(row: Row, ins: seq<Insertion>): (r: Result<Row>)
    ensures r.Err? ==> exists i :: 0 <= i < |ins| && ins[i].key == r.conflict.key
    decreases |ins|
  {
    if ins == [] then Ok(row)
    else
      match Fold(row, ins[..|ins| - 1])
      case Err(c) => Err(c)
      case Ok(m) => Insert(m, ins[|ins| - 1])
  }

  /**
    A fold that fails stops at the first insertion that finds a different action under
    its key; the conflict names that key and the kind its insertion point reports for
    the action found.
  */
  lemma {:induction false} FoldConflictKind(row: Row, ins: seq<Insertion>)
    requires Fold(row, ins).Err?
    ensures exists i :: 0 <= i < |ins| && Fold(row, ins[..i]).Ok? &&
              var m := Fold(row, ins[..i]).value;
              ins[i].key in m && m[ins[i].key] != ins[i].action &&
              Fold(row, ins).conflict == Conflict(KindFor(ins[i].site, m[ins[i].key]), ins[i].key)
    decreases |ins|
  {
    var n := |ins| - 1;
    var xs := ins[..n];
    if Fold(row, xs).Err? {
      FoldConflictKind(row, xs);
      var i :| 0 <= i < |xs| && Fold(row, xs[..i]).Ok? &&
                var m := Fold(row, xs[..i]).value;
                xs[i].key in m && m[xs[i].key] != xs[i].action &&
                Fold(row, xs).conflict == Conflict(KindFor(xs[i].site, m[xs[i].key]), xs[i].key);
      assert xs[..i] == ins[..i] && xs[i] == ins[i];
    } else {
      assert ins[..n] == xs;
    }
  }

  /** The row as it stands when Fold stops: complete on success, just before the clashing entry otherwise. */
  function Partial(row: Row, ins: seq<Insertion>): Row
    decreases |ins|
  {
    if ins == [] then row
    else
      match Fold(row, ins[..|ins| - 1])
      case Err(_) => Partial(row, ins[..|ins| - 1])
      case Ok(m) => if Insert(m, ins[|ins| - 1]).Ok? then Insert(m, ins[|ins| - 1]).value else m
  }

  lemma PartialOfSuccess(row: Row, ins: seq<Insertion>)
    requires Fold(row, ins).Ok?
    ensures Partial(row, ins) == Fold(row, ins).value
  {
  }

  /** No two entries for one key disagree, and none disagrees with what the row already holds. */
  ghost predicate Agree(row: Row, ins: seq<Insertion>) {
    && (forall i, j :: 0 <= i < |ins| && 0 <= j < |ins| && ins[i].key == ins[j].key ==> ins[i].action == ins[j].action)
    && (forall i :: 0 <= i < |ins| && ins[i].key in row ==> row[ins[i].key] == ins[i].action)
  }

  lemma AgreeSnoc(row: Row, xs: seq<Insertion>, x: Insertion)
    ensures Agree(row, xs + [x]) <==>
      && Agree(row, xs)
      && (forall i :: 0 <= i < |xs| && xs[i].key == x.key ==> xs[i].action == x.action)
      && (x.key in row ==> row[x.key] == x.action)
  {
    var ins := xs + [x];
    assert forall i :: 0 <= i < |xs| ==> ins[i] == xs[i];
    assert ins[|xs|] == x;
    if Agree(row, xs) && (forall i :: 0 <= i < |xs| && xs[i].key == x.key ==> xs[i].action == x.action) &&
       (x.key in row ==> row[x.key] == x.action) {
      forall i, j | 0 <= i < |ins| && 0 <= j < |ins| && ins[i].key == ins[j].key
        ensures ins[i].action == ins[j].action
      {
        if i < |xs| && j < |xs| {
          assert ins[i] == xs[i] && ins[j] == xs[j];
        }
      }
    }
  }

  /**
    The row of a successful fold holds every entry, keeps every old entry and has no
    other key.
  */
  lemma {:induction false} FoldContents(row: Row, ins: seq<Insertion>)
    requires Fold(row, ins).Ok?
    ensures var f := Fold(row, ins).value;
      && (forall i :: 0 <= i < |ins| ==> ins[i].key in f && f[ins[i].key] == ins[i].action)
      && (forall k :: k in row ==> k in f && f[k] == row[k])
      && (forall k :: k in f ==> k in row || exists i :: 0 <= i < |ins| && ins[i].key == k)
    decreases |ins|
  {
    if ins != [] {
      var xs, x := ins[..|ins| - 1], ins[|ins| - 1];
      FoldContents(row, xs);
      var m := Fold(row, xs).value;
      var f := Fold(row, ins).value;
      assert f == m[x.key := x.action];
      forall i | 0 <= i < |ins| ensures ins[i].key in f && f[ins[i].key] == ins[i].action {
        if i < |xs| { assert ins[i] == xs[i]; }
      }
      forall k | k in f ensures k in row || exists i :: 0 <= i < |ins| && ins[i].key == k {
        if k == x.key {
          assert ins[|ins| - 1].key == k;
        } else if k !in row {
          var i :| 0 <= i < |xs| && xs[i].key == k;
          assert ins[i] == xs[i];
        }
      }
    }
  }

  /** A fold succeeds exactly when its entries agree, so success does not depend on their order. */
  lemma {:induction false} FoldAgree(row: Row, ins: seq<Insertion>)
    ensures Fold(row, ins).Ok? <==> Agree(row, ins)
    decreases |ins|
  {
    if ins != [] {
      var xs, x := ins[..|ins| - 1], ins[|ins| - 1];
      assert ins == xs + [x];
      FoldAgree(row, xs);
      AgreeSnoc(row, xs, x);
      if Fold(row, xs).Ok? {
        FoldContents(row, xs);
        var m := Fold(row, xs).value;
        if x.key in m && m[x.key] != x.action && x.key !in row {
          var i :| 0 <= i < |xs| && xs[i].key == x.key;
        }
        if !(forall i :: 0 <= i < |xs| && xs[i].key == x.key ==> xs[i].action == x.action) {
          var i :| 0 <= i < |xs| && xs[i].key == x.key && xs[i].action != x.action;
          assert m[x.key] == xs[i].action;
        }
      }
    }
  }

  /**
    The entry an item demands, if any. A completed item reduces by its rule on its
    lookahead, except the start rule, which accepts on END. An item before a terminal t
    other than EPSILON shifts on t to the index of its goto state (0 when that state is
    not collected). An item before EPSILON reduces by its rule on its lookahead. An item
    before a non-terminal demands nothing.
  */
  ghost function Demand(rules: seq<Rule>, first: FirstMap, states: seq<State>, s: State, it: Item): (r: Option<Insertion>)
    requires it.rule < |rules|
    ensures r.Some? ==> WellFormed(r.value)
  {
    match NextToken(rules, it)
    case None =>
      if it.rule != 0 then Some(Insertion(EndSite, QualName(T(it.la)), Action(Reduce, it.rule)))
      else Some(Insertion(EndSite, QualName(T(END)), Action(Accept, 0)))
    case Some(NT(_)) => None
    case Some(T(t)) =>
      if t != EPSILON then Some(Insertion(ShiftSite, QualName(T(t)), Action(Shift, IndexOf(states, GotoFn(rules, first, s, T(t))))))
      else Some(Insertion(EpsilonSite, QualName(T(it.la)), Action(Reduce, it.rule)))
  }

  /** The entries demanded by the items of `order`, in that order. */
  ghost function Demands(rules: seq<Rule>, first: FirstMap, states: seq<State>, s: State, order: seq<Item>): seq<Insertion>
    requires forall it :: it in order ==> it.rule < |rules|
    decreases |order|
  {
    if order == [] then []
    else
      var it := order[|order| - 1];
      Demands(rules, first, states, s, order[..|order| - 1]) +
        (match Demand(rules, first, states, s, it) case Some(d) => [d] case None => [])
  }

  /** Demands of one more item: the demands so far, then that item's entry if it demands one. */
  lemma DemandsSnoc(rules: seq<Rule>, first: FirstMap, states: seq<State>, s: State, order: seq<Item>, it: Item)
    requires forall x :: x in order ==> x.rule < |rules|
    requires it.rule < |rules|
    ensures Demand(rules, first, states, s, it).None? ==>
      Demands(rules, first, states, s, order + [it]) == Demands(rules, first, states, s, order)
    ensures Demand(rules, first, states, s, it).Some? ==>
      Demands(rules, first, states, s, order + [it]) ==
      Demands(rules, first, states, s, order) + [Demand(rules, first, states, s, it).value]
  {
    assert (order + [it])[..|order|] == order;
  }

  /** Inserting one more entry into a row reached without conflict goes through Insert. */
  lemma FoldSnoc(row: Row, ins: seq<Insertion>, x: Insertion)
    requires Fold(row, ins).Ok?
    ensures Fold(row, ins + [x]) == Insert(Fold(row, ins).value, x)
    ensures Insert(Fold(row, ins).value, x).Err? ==> Partial(row, ins + [x]) == Fold(row, ins).value
  {
    assert (ins + [x])[..|ins|] == ins;
  }

  /** The demanded entries are exactly the demands of the listed items. */
  lemma {:induction false} DemandsContent(rules: seq<Rule>, first: FirstMap, states: seq<State>, s: State, order: seq<Item>)
    requires forall it :: it in order ==> it.rule < |rules|
    ensures forall x :: x in Demands(rules, first, states, s, order) <==>
              exists it :: it in order && Demand(rules, first, states, s, it) == Some(x)
    decreases |order|
  {
    if order != [] {
      var init := order[..|order| - 1];
      DemandsContent(rules, first, states, s, init);
      forall it | it in init ensures it in order { }
      forall it | it in order ensures it in init || it == order[|order| - 1] {
        var k :| 0 <= k < |order| && order[k] == it;
        if k < |order| - 1 { assert init[k] == it; }
      }
    }
  }

  /** `order` lists the items of `s`, each once. */
  ghost predicate Enumerates(order: seq<Item>, s: State) {
    && (forall it :: it in order <==> it in s)
    && (forall i, j :: 0 <= i < j < |order| ==> order[i] != order[j])
  }

  /**
    The items of a state demand compatible entries: equal actions for equal keys, and
    the action a key of the starting row already holds.
  */
  ghost predicate StateAgrees(rules: seq<Rule>, first: FirstMap, states: seq<State>, s: State, start: Row)
    requires ValidState(rules, s)
  {
    && (forall a, b :: a in s && b in s &&
          Demand(rules, first, states, s, a).Some? && Demand(rules, first, states, s, b).Some? &&
          Demand(rules, first, states, s, a).value.key == Demand(rules, first, states, s, b).value.key
          ==> Demand(rules, first, states, s, a).value.action == Demand(rules, first, states, s, b).value.action)
    && (forall a :: a in s && Demand(rules, first, states, s, a).Some? && Demand(rules, first, states, s, a).value.key in start
          ==> start[Demand(rules, first, states, s, a).value.key] == Demand(rules, first, states, s, a).value.action)
  }

  /** The demands of items drawn from an agreeing state agree. */
  lemma AgreeFromState(rules: seq<Rule>, first: FirstMap, states: seq<State>, s: State, start: Row, order: seq<Item>)
    requires ValidState(rules, s) && (forall it :: it in order ==> it in s)
    requires StateAgrees(rules, first, states, s, start)
    ensures Agree(start, Demands(rules, first, states, s, order))
  {
    var ds := Demands(rules, first, states, s, order);
    DemandsContent(rules, first, states, s, order);
    forall i, j | 0 <= i < |ds| && 0 <= j < |ds| && ds[i].key == ds[j].key
      ensures ds[i].action == ds[j].action
    {
      assert ds[i] in ds && ds[j] in ds;
    }
    forall i | 0 <= i < |ds| && ds[i].key in start ensures start[ds[i].key] == ds[i].action {
      assert ds[i] in ds;
    }
  }

  /** When every item of a state is listed, agreeing demands make the state agree. */
  lemma StateFromAgree(rules: seq<Rule>, first: FirstMap, states: seq<State>, s: State, start: Row, order: seq<Item>)
    requires ValidState(rules, s) && (forall it :: it in s ==> it in order)
    requires forall it :: it in order ==> it.rule < |rules|
    requires Agree(start, Demands(rules, first, states, s, order))
    ensures StateAgrees(rules, first, states, s, start)
  {
    var ds := Demands(rules, first, states, s, order);
    DemandsContent(rules, first, states, s, order);
    forall a, b | a in s && b in s &&
        Demand(rules, first, states, s, a).Some? && Demand(rules, first, states, s, b).Some? &&
        Demand(rules, first, states, s, a).value.key == Demand(rules, first, states, s, b).value.key
      ensures Demand(rules, first, states, s, a).value.action == Demand(rules, first, states, s, b).value.action
    {
      var da, db := Demand(rules, first, states, s, a).value, Demand(rules, first, states, s, b).value;
      assert da in ds && db in ds;
      var i :| 0 <= i < |ds| && ds[i] == da;
      var j :| 0 <= j < |ds| && ds[j] == db;
    }
    forall a | a in s && Demand(rules, first, states, s, a).Some? && Demand(rules, first, states, s, a).value.key in start
      ensures start[Demand(rules, first, states, s, a).value.key] == Demand(rules, first, states, s, a).value.action
    {
      var da := Demand(rules, first, states, s, a).value;
      assert da in ds;
      var i :| 0 <= i < |ds| && ds[i] == da;
    }
  }

  /** `row` is what inserting the demands of all items of `s`, visited in `order`, into `start` yields. */
  ghost predicate RowBuilt(rules: seq<Rule>, first: FirstMap, states: seq<State>, s: State, start: Row,
                           order: seq<Item>, row: Row)
    requires ValidState(rules, s)
  {
    Enumerates(order, s) && Fold(start, Demands(rules, first, states, s, order)) == Ok(row)
  }

  /** The entries demanded by each of the first `n` states agree with each other and with its row of `start`. */
  ghost predicate StatesAgree(rules: seq<Rule>, first: FirstMap, states: seq<State>, start: seq<Row>, n: nat) {
    forall j :: 0 <= j < n && j < |states| && j < |start| && ValidState(rules, states[j]) ==>
      StateAgrees(rules, first, states, states[j], start[j])
  }

  lemma StatesAgreeStep(rules: seq<Rule>, first: FirstMap, states: seq<State>, start: seq<Row>, n: nat)
    requires StatesAgree(rules, first, states, start, n)
    requires n < |states| && n < |start| && ValidState(rules, states[n])
    requires StateAgrees(rules, first, states, states[n], start[n])
    ensures StatesAgree(rules, first, states, start, n + 1)
  {
  }

  /** One state whose entries disagree is enough to make the whole table disagree. */
  lemma StatesDisagree(rules: seq<Rule>, first: FirstMap, states: seq<State>, start: seq<Row>, n: nat, m: nat)
    requires n < m && n < |states| && n < |start| && ValidState(rules, states[n])
    requires !StateAgrees(rules, first, states, states[n], start[n])
    ensures !StatesAgree(rules, first, states, start, m)
  {
  }

  /** The first `n` rows of `rows` were built from `start` by inserting their states' entries in the orders recorded. */
  ghost predicate RowsBuilt(rules: seq<Rule>, first: FirstMap, states: seq<State>, start: seq<Row>,
                            orders: seq<seq<Item>>, rows: seq<Row>, n: nat)
  {
    && n <= |states| && n <= |start| && n <= |orders| && n <= |rows|
    && forall j :: 0 <= j < n && ValidState(rules, states[j]) ==>
         RowBuilt(rules, first, states, states[j], start[j], orders[j], rows[j])
  }

  /** Building row n in the order `order` extends the rows built. */
  lemma RowsBuiltStep(rules: seq<Rule>, first: FirstMap, states: seq<State>, start: seq<Row>,
                      orders: seq<seq<Item>>, rows: seq<Row>, n: nat, order: seq<Item>, row: Row)
    requires RowsBuilt(rules, first, states, start, orders, rows, n)
    requires |orders| == n && n < |states| && n < |start| && n < |rows|
    requires ValidState(rules, states[n]) ==> RowBuilt(rules, first, states, states[n], start[n], order, row)
    ensures RowsBuilt(rules, first, states, start, orders + [order], rows[n := row], n + 1)
  {
    forall j | 0 <= j < n + 1 ensures (orders + [order])[j] == if j < n then orders[j] else order { }
  }

  /** Rows past a conflict keep what they held: the first `n` rows stay built when later ones change. */
  lemma RowsBuiltFrame(rules: seq<Rule>, first: FirstMap, states: seq<State>, start: seq<Row>,
                       orders: seq<seq<Item>>, rows: seq<Row>, n: nat, order: seq<Item>, row: Row)
    requires RowsBuilt(rules, first, states, start, orders, rows, n)
    requires |orders| == n && n < |rows|
    ensures RowsBuilt(rules, first, states, start, orders + [order], rows[n := row], n)
  {
    forall j | 0 <= j < n ensures (orders + [order])[j] == orders[j] { }
  }

  /**
    How the rows of a table were filled from `start`, with the outcome `r`: on success
    every row was built in its recorded order; on a conflict the rows before the last
    visited state were built, the last visited row stands as it was when its insertions
    met the conflict, and the later rows are untouched.
  */
  ghost predicate TableBuilt(rules: seq<Rule>, first: FirstMap, states: seq<State>, start: seq<Row>,
                             orders: seq<seq<Item>>, rows: seq<Row>, r: Outcome)
  {
    && |start| == |states| && |rows| == |states| && |orders| <= |states|
    && (r.Success? ==> |orders| == |states| && RowsBuilt(rules, first, states, start, orders, rows, |states|))
    && (r.Ambiguity? ==>
          0 < |orders| &&
          var k := |orders| - 1;
          && RowsBuilt(rules, first, states, start, orders, rows, k)
          && (forall it :: it in orders[k] ==> it in states[k] && it.rule < |rules|)
          && Fold(start[k], Demands(rules, first, states, states[k], orders[k])) == Err(r.conflict)
          && rows[k] == Partial(start[k], Demands(rules, first, states, states[k], orders[k]))
          && (forall i :: k < i < |states| ==> rows[i] == start[i]))
  }

  /**
    A row filled from `start` by inserting the entries of the items of `s` in the order
    `order`: `res` is the outcome, `last` the row as it stands when the insertions stop;
    the outcome is a success exactly when the entries of the state agree.
  */
  ghost predicate RowFilled(rules: seq<Rule>, first: FirstMap, states: seq<State>, s: State, start: Row,
                            res: Result<Row>, last: Row, order: seq<Item>)
    requires ValidState(rules, s)
  {
    && (forall it :: it in order ==> it in s)
    && res == Fold(start, Demands(rules, first, states, s, order))
    && last == Partial(start, Demands(rules, first, states, s, order))
    && (res.Ok? ==> Enumerates(order, s) && StateAgrees(rules, first, states, s, start))
    && (res.Err? ==> !StateAgrees(rules, first, states, s, start))
  }

  /** The first `i` rows are filled without conflict and the later rows still hold `start`. */
  ghost predicate TablePrefix(rules: seq<Rule>, first: FirstMap, states: seq<State>, start: seq<Row>,
                              orders: seq<seq<Item>>, rows: seq<Row>, i: nat)
  {
    && i <= |states| && |start| == |states| && |rows| == |states| && |orders| == i
    && RowsBuilt(rules, first, states, start, orders, rows, i)
    && StatesAgree(rules, first, states, start, i)
    && (forall j :: i <= j < |states| ==> rows[j] == start[j])
  }

  /** Filling row i without conflict extends the prefix. */
  lemma TableStepOk(rules: seq<Rule>, first: FirstMap, states: seq<State>, start: seq<Row>,
                    orders: seq<seq<Item>>, rows: seq<Row>, i: nat, res: Result<Row>, last: Row, order: seq<Item>)
    requires TablePrefix(rules, first, states, start, orders, rows, i) && i < |states|
    requires ValidState(rules, states[i])
    requires RowFilled(rules, first, states, states[i], start[i], res, last, order) && res.Ok?
    ensures TablePrefix(rules, first, states, start, orders + [order], rows[i := last], i + 1)
  {
    PartialOfSuccess(start[i], Demands(rules, first, states, states[i], order));
    StatesAgreeStep(rules, first, states, start, i);
    RowsBuiltStep(rules, first, states, start, orders, rows, i, order, last);
  }

  /** A conflict in row i ends the table, and the table's entries then disagree. */
  lemma TableStepErr(rules: seq<Rule>, first: FirstMap, states: seq<State>, start: seq<Row>,
                     orders: seq<seq<Item>>, rows: seq<Row>, i: nat, res: Result<Row>, last: Row, order: seq<Item>)
    requires TablePrefix(rules, first, states, start, orders, rows, i) && i < |states|
    requires ValidState(rules, states[i]) && (forall it :: it in states[i] ==> it.rule < |rules|)
    requires RowFilled(rules, first, states, states[i], start[i], res, last, order) && res.Err?
    ensures TableBuilt(rules, first, states, start, orders + [order], rows[i := last], Ambiguity(res.conflict))
    ensures !StatesAgree(rules, first, states, start, |states|)
  {
    var os, rs := orders + [order], rows[i := last];
    RowsBuiltFrame(rules, first, states, start, orders, rows, i, order, last);
    StatesDisagree(rules, first, states, start, i, |states|);
    assert |os| - 1 == i && os[i] == order && rs[i] == last;
    assert forall j :: i < j < |states| ==> rs[j] == start[j];
    TableOfConflict(rules, first, states, start, os, rs, i, res.conflict);
  }

  /** The facts a conflict in the last visited row leaves behind make up a table built with that conflict. */
  lemma TableOfConflict(rules: seq<Rule>, first: FirstMap, states: seq<State>, start: seq<Row>,
                        orders: seq<seq<Item>>, rows: seq<Row>, k: nat, c: Conflict)
    requires |start| == |states| && |rows| == |states| && |orders| == k + 1 && k < |states|
    requires RowsBuilt(rules, first, states, start, orders, rows, k)
    requires forall it :: it in orders[k] ==> it in states[k] && it.rule < |rules|
    requires Fold(start[k], Demands(rules, first, states, states[k], orders[k])) == Err(c)
    requires rows[k] == Partial(start[k], Demands(rules, first, states, states[k], orders[k]))
    requires forall j :: k < j < |states| ==> rows[j] == start[j]
    ensures TableBuilt(rules, first, states, start, orders, rows, Ambiguity(c))
  {
  }

  /** A prefix covering every state is a table built without conflict. */
  lemma TableDone(rules: seq<Rule>, first: FirstMap, states: seq<State>, start: seq<Row>,
                  orders: seq<seq<Item>>, rows: seq<Row>)
    requires TablePrefix(rules, first, states, start, orders, rows, |states|)
    ensures TableBuilt(rules, first, states, start, orders, rows, Success)
    ensures StatesAgree(rules, first, states, start, |states|)
  {
  }

  /** A row holding every entry the items of `s` demand and no key but those and the keys of `start`. */
  ghost predicate RowHolds(rules: seq<Rule>, first: FirstMap, states: seq<State>, s: State, start: Row, row: Row)
    requires ValidState(rules, s)
  {
    && (forall it :: it in s && Demand(rules, first, states, s, it).Some? ==>
          var d := Demand(rules, first, states, s, it).value; d.key in row && row[d.key] == d.action)
    && (forall k :: k in row ==>
          (k in start ||
           exists it :: it in s && Demand(rules, first, states, s, it).Some? && Demand(rules, first, states, s, it).value.key == k))
  }

  /**
    The row built from a state, whatever order its items are visited in: the build
    succeeds exactly when the state's demands agree, and then every demanded entry is in
    the row, the starting row's entries are kept, and no other key appears.
  */
  lemma RowOfState(rules: seq<Rule>, first: FirstMap, states: seq<State>, s: State, start: Row, order: seq<Item>)
    requires ValidState(rules, s) && Enumerates(order, s)
    ensures var res := Fold(start, Demands(rules, first, states, s, order));
      && (res.Ok? <==> StateAgrees(rules, first, states, s, start))
      && (res.Ok? ==>
            && (forall it :: it in s && Demand(rules, first, states, s, it).Some? ==>
                  var d := Demand(rules, first, states, s, it).value; d.key in res.value && res.value[d.key] == d.action)
            && (forall k :: k in start ==> k in res.value && res.value[k] == start[k])
            && (forall k :: k in res.value ==>
                  (k in start ||
                   exists it :: it in s && Demand(rules, first, states, s, it).Some? && Demand(rules, first, states, s, it).value.key == k)))
  {
    var ds := Demands(rules, first, states, s, order);
    FoldAgree(start, ds);
    if StateAgrees(rules, first, states, s, start) {
      AgreeFromState(rules, first, states, s, start, order);
    }
    if Agree(start, ds) {
      StateFromAgree(rules, first, states, s, start, order);
      FoldContents(start, ds);
      DemandsContent(rules, first, states, s, order);
      var f := Fold(start, ds).value;
      forall it | it in s && Demand(rules, first, states, s, it).Some?
        ensures var d := Demand(rules, first, states, s, it).value; d.key in f && f[d.key] == d.action
      {
        var d := Demand(rules, first, states, s, it).value;
        assert d in ds;
        var i :| 0 <= i < |ds| && ds[i] == d;
      }
      forall k | k in f ensures k in start ||
          exists it :: it in s && Demand(rules, first, states, s, it).Some? && Demand(rules, first, states, s, it).value.key == k
      {
        if k !in start {
          var i :| 0 <= i < |ds| && ds[i].key == k;
          assert ds[i] in ds;
        }
      }
    }
  }


  /** Every row of `rows` holds what its state demands, on top of its row in `start`. */
  ghost predicate RowsHold(rules: seq<Rule>, first: FirstMap, states: seq<State>, start: seq<Row>, rows: seq<Row>) {
    forall i :: 0 <= i < |states| && i < |start| && i < |rows| && ValidState(rules, states[i]) ==>
      RowHolds(rules, first, states, states[i], start[i], rows[i])
  }

  /** A table built without conflict holds, in every row, exactly what its state demands. */
  lemma TableRowsHold(rules: seq<Rule>, first: FirstMap, states: seq<State>, start: seq<Row>,
                      orders: seq<seq<Item>>, rows: seq<Row>)
    requires TableBuilt(rules, first, states, start, orders, rows, Success)
    ensures RowsHold(rules, first, states, start, rows)
  {
    forall i | 0 <= i < |states| && i < |start| && i < |rows| && ValidState(rules, states[i])
      ensures RowHolds(rules, first, states, states[i], start[i], rows[i])
    {
      RowOfState(rules, first, states, states[i], start[i], orders[i]);
    }
  }
  /**
    A conflict met after visiting only some items of a state already shows that the
    state's demands disagree, on the key the conflict names.
  */
  lemma ConflictShowsDisagreement(rules: seq<Rule>, first: FirstMap, states: seq<State>, s: State, start: Row, order: seq<Item>)
    requires ValidState(rules, s) && (forall it :: it in order ==> it in s)
    requires Fold(start, Demands(rules, first, states, s, order)).Err?
    ensures !StateAgrees(rules, first, states, s, start)
    ensures exists it :: it in s && Demand(rules, first, states, s, it).Some? &&
              Demand(rules, first, states, s, it).value.key == Fold(start, Demands(rules, first, states, s, order)).conflict.key
  {
    var ds := Demands(rules, first, states, s, order);
    DemandsContent(rules, first, states, s, order);
    FoldAgree(start, ds);
    var i :| 0 <= i < |ds| && ds[i].key == Fold(start, ds).conflict.key;
    assert ds[i] in ds;
    if StateAgrees(rules, first, states, s, start) {
      AgreeFromState(rules, first, states, s, start, order);
    }
  }

  /** Some item of `s` demands an entry under `key`. */
  ghost predicate DemandsKey(rules: seq<Rule>, first: FirstMap, states: seq<State>, s: State, key: string)
    requires ValidState(rules, s)
  {
    exists it :: it in s && Demand(rules, first, states, s, it).Some? && Demand(rules, first, states, s, it).value.key == key
  }

  /** State k's entries disagree, and one of its items demands an entry under the conflict's key. */
  ghost predicate ExplainedAt(rules: seq<Rule>, first: FirstMap, states: seq<State>, start: seq<Row>, c: Conflict, k: nat) {
    && k < |states| && k < |start| && ValidState(rules, states[k])
    && !StateAgrees(rules, first, states, states[k], start[k])
    && DemandsKey(rules, first, states, states[k], c.key)
  }

  /** A reported conflict is explained by some collected state. */
  ghost predicate ConflictExplained(rules: seq<Rule>, first: FirstMap, states: seq<State>, start: seq<Row>, c: Conflict) {
    exists k: nat :: ExplainedAt(rules, first, states, start, c, k)
  }

  /** The conflict an ambiguous table reports arises in a state whose entries disagree, on a key it demands. */
  lemma TableConflictExplained(rules: seq<Rule>, first: FirstMap, states: seq<State>, start: seq<Row>,
                               orders: seq<seq<Item>>, rows: seq<Row>, c: Conflict)
    requires forall k, it :: 0 <= k < |states| && it in states[k] ==> it.rule < |rules|
    requires TableBuilt(rules, first, states, start, orders, rows, Ambiguity(c))
    ensures ConflictExplained(rules, first, states, start, c)
  {
    var k := |orders| - 1;
    ConflictShowsDisagreement(rules, first, states, states[k], start[k], orders[k]);
    assert ExplainedAt(rules, first, states, start, c, k);
  }

  /** std::vector::resize: the first n rows, padded with empty rows. */
  function Resize(rows: seq<Row>, n: nat): (r: seq<Row>)
    ensures |r| == n
    ensures forall i :: 0 <= i < n ==> r[i] == if i < |rows| then rows[i] else map[]
    decreases n
  {
    if n == 0 then []
    else Resize(rows, n - 1) + [if n - 1 < |rows| then rows[n - 1] else map[]]
  }

  /** A row holding only SHIFT and REDUCE entries. */
  predicate NoAcceptRow(row: Row) {
    forall k :: k in row ==> row[k].kind == Shift || row[k].kind == Reduce
  }

  /** Well-formed insertions of SHIFT and REDUCE entries only. */
  predicate NoAcceptInsertions(ins: seq<Insertion>) {
    forall i :: 0 <= i < |ins| ==> WellFormed(ins[i]) && ins[i].action.kind != Accept
  }

  /**
    Fold with the insertion of the source. Without ACCEPT entries it coincides with the
    corrected fold and leaves a row of SHIFT and REDUCE entries only.
  */
  function FoldAsWritten(row: Row, ins: seq<Insertion>): (r: Result<Row>)
    ensures NoAcceptRow(row) && NoAcceptInsertions(ins) ==>
              r == Fold(row, ins) && (r.Ok? ==> NoAcceptRow(r.value))
    decreases |ins|
  {
    if ins == [] then Ok(row)
    else
      match FoldAsWritten(row, ins[..|ins| - 1])
      case Err(c) => Err(c)
      case Ok(m) =>
        if NoAcceptRow(row) && NoAcceptInsertions(ins) then
          assert NoAcceptInsertions(ins[..|ins| - 1]);
          InsertCorrectionScope(m, ins[|ins| - 1]);
          InsertAsWritten(m, ins[|ins| - 1])
        else
          InsertAsWritten(m, ins[|ins| - 1])
  }

  /**
    With the source's insertion, an ACCEPT entry on END followed by a REDUCE on the same
    key is accepted silently, while the same two entries in the other order conflict;
    likewise for an ACCEPT followed by a SHIFT.
  */
  lemma AcceptCollisionDependsOnOrder(red: nat, target: nat)
    requires red != 0
    ensures var acc := Insertion(EndSite, "R_$", Action(Accept, 0));
            var rd := Insertion(EndSite, "R_$", Action(Reduce, red));
            var sh := Insertion(ShiftSite, "R_$", Action(Shift, target));
      && FoldAsWritten(map[], [acc, rd]) == Ok(map["R_$" := Action(Reduce, red)])
      && FoldAsWritten(map[], [rd, acc]) == Err(Conflict(Ambiguous, "R_$"))
      && FoldAsWritten(map[], [acc, sh]) == Ok(map["R_$" := Action(Shift, target)])
      && FoldAsWritten(map[], [sh, acc]) == Err(Conflict(Ambiguous, "R_$"))
      && Fold(map[], [acc, rd]).Err? && Fold(map[], [rd, acc]).Err?
      && Fold(map[], [acc, sh]).Err? && Fold(map[], [sh, acc]).Err?
  {
    var acc := Insertion(EndSite, "R_$", Action(Accept, 0));
    var rd := Insertion(EndSite, "R_$", Action(Reduce, red));
    var sh := Insertion(ShiftSite, "R_$", Action(Shift, target));
    var ma, mr, ms := map["R_$" := acc.action], map["R_$" := rd.action], map["R_$" := sh.action];
    assert [acc, rd][..1] == [acc] && [rd, acc][..1] == [rd];
    assert [acc, sh][..1] == [acc] && [sh, acc][..1] == [sh];
    assert [acc][..0] == [] && [rd][..0] == [] && [sh][..0] == [];
    assert FoldAsWritten(map[], [acc]) == Ok(ma);
    assert FoldAsWritten(map[], [rd]) == Ok(mr);
    assert FoldAsWritten(map[], [sh]) == Ok(ms);
    assert ma["R_$" := rd.action] == mr;
    assert ma["R_$" := sh.action] == ms;
  }

  /** The grammar S' -> S, S -> A, A -> S, A -> id. */
  function CyclicRules(): seq<Rule> {
    var sp, S, A := NonTerminal("S'"), NonTerminal("S"), NonTerminal("A");
    [Rule(sp, [NT(S)]), Rule(S, [NT(A)]), Rule(A, [NT(S)]), Rule(A, [T(Terminal("id", ""))])]
  }

  /**
    In the cyclic grammar, the completed items (0, 1, END) and (2, 1, END) demand ACCEPT
    and REDUCE 2 on the same key "R_$".
  */
  lemma CyclicGrammarDemands(first: FirstMap, states: seq<State>, s: State)
    ensures Demand(CyclicRules(), first, states, s, Item(0, 1, END)) == Some(Insertion(EndSite, "R_$", Action(Accept, 0)))
    ensures Demand(CyclicRules(), first, states, s, Item(2, 1, END)) == Some(Insertion(EndSite, "R_$", Action(Reduce, 2)))
  {
    QualNameKeys(T(END), T(END));
  }

  /**
    Both items sit in one collected state: the goto of state 0 over S. FIRST(EPSILON) is
    {EPSILON} and FIRST(END) holds END, as seeding leaves them.
  */
  lemma CyclicGrammarCollected(first: FirstMap, tokens: set<Token>, states: seq<State>)
    requires Get(first, T(EPSILON)) == {EPSILON} && END in Get(first, T(END))
    requires NT(NonTerminal("S")) in tokens && IsCanonical(CyclicRules(), first, tokens, states)
    ensures exists k :: 0 <= k < |states| && Item(0, 1, END) in states[k] && Item(2, 1, END) in states[k]
  {
    var rules, S := CyclicRules(), NT(NonTerminal("S"));
    var i0, i1, i2 := Item(0, 0, END), Item(1, 0, END), Item(2, 0, END);
    ClosureContains(rules, first, {i0});
    ClosureClosed(rules, first, {i0});
    assert LookaheadSeq(rules, i0) == [T(EPSILON), T(END)];
    assert LookaheadSeq(rules, i1) == [T(EPSILON), T(END)];
    assert [T(EPSILON), T(END)][1..] == [T(END)] && [T(END)][1..] == [];
    assert END in FirstOfSeq(first, [T(EPSILON), T(END)]);
    var c := InitialState(rules, first);
    assert i1 in c;
    assert i2 in c;
    assert Item(0, 1, END) in Kernel(rules, c, S);
    assert Item(2, 1, END) in Kernel(rules, c, S);
    GotoShape(rules, first, c, S);
    assert GotoFn(rules, first, states[0], S) in states;
  }
}
