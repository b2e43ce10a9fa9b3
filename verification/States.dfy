/** The sale state machine: transitions as data, the bucket each state's value sits in, and a sale's history. */
module States {
  import opened Wrappers

  datatype TransactionState =
    | Created
    | Validated
    | Reserved
    | Submitted
    | Processing
    | Pending
    | UnderReview
    | ReversalRequired
    | Successful
    | Failed
    | Reversed
    | Rejected

  datatype ValueDisposition = NoValue | InReserved | InReview | Debited | Released

  datatype TransitionError =
    | IllegalTransition(from: TransactionState, to: TransactionState)
    | TerminalState(from: TransactionState, to: TransactionState)

  const TERMINAL_STATES := {Successful, Failed, Reversed, Rejected}

  function ValidTransitions(from: TransactionState): set<TransactionState> {
    match from
    case Created => {Validated, Rejected}
    case Validated => {Reserved, Rejected}
    case Reserved => {Submitted, Processing}
    case Submitted => {Processing}
    case Processing => {Successful, Failed, Pending}
    case Pending => {Successful, Failed, UnderReview, ReversalRequired}
    case UnderReview => {Successful, Failed, ReversalRequired}
    case ReversalRequired => {Reversed}
    case _ => {}
  }

  function Disposition(state: TransactionState): ValueDisposition {
    match state
    case Created => NoValue
    case Validated => NoValue
    case Reserved => InReserved
    case Submitted => InReserved
    case Processing => InReserved
    case Pending => InReserved
    case UnderReview => InReview
    case ReversalRequired => InReview
    case Successful => Debited
    case Failed => ValueDisposition.Released
    case Reversed => ValueDisposition.Released
    case Rejected => ValueDisposition.Released
  }

  predicate IsTerminal(state: TransactionState) {
    state in TERMINAL_STATES
  }

  function AssertTransition(from: TransactionState, to: TransactionState): Result<(), TransitionError> {
    if to in ValidTransitions(from) then Success(())
    else if IsTerminal(from) then Failure(TerminalState(from, to))
    else Failure(IllegalTransition(from, to))
  }

  datatype Move = Move(from: TransactionState, to: TransactionState)

  datatype Transaction = Transaction(
    id: string, merchant: string, amount: int, state: TransactionState, history: seq<Move>)

  datatype CreateError = NegativeAmount

  function CreateTransaction(id: string, merchant: string, amount: int): Result<Transaction, CreateError> {
    if amount <= 0 then Failure(NegativeAmount) else Success(Transaction(id, merchant, amount, Created, []))
  }

  /** A new record with the move appended, or the error that names the refused move. */
  function TransitionTo(t: Transaction, to: TransactionState): Result<Transaction, TransitionError> {
    match AssertTransition(t.state, to)
    case Failure(e) => Failure(e)
    case Success(_) => Success(t.(state := to, history := t.history + [Move(t.state, to)]))
  }

  /** Offer a sale a list of moves; a refused one leaves it as it is. */
  function Walk(t: Transaction, targets: seq<TransactionState>): Transaction
    decreases |targets|
  {
    if targets == [] then t
    else
      var r := TransitionTo(t, targets[0]);
      Walk(if r.Success? then r.value else t, targets[1..])
  }

  // --- the table -----------------------------------------------------------------------

  /** Every legal move climbs this rank, so no sale returns to a state it left. */
  function Rank(state: TransactionState): nat {
    match state
    case Created => 0
    case Validated => 1
    case Reserved => 2
    case Submitted => 3
    case Processing => 4
    case Pending => 5
    case UnderReview => 6
    case ReversalRequired => 7
    case _ => 8
  }

  /** The two lists of terminal states, the table's and the named one, are the same. */
  lemma TerminalExactly(state: TransactionState)
    ensures IsTerminal(state) <==> ValidTransitions(state) == {}
    ensures IsTerminal(state) <==> Rank(state) == 8
  {
  }

  /** The table read from the other end: where each state can be come to from. */
  lemma TableExactly(from: TransactionState, to: TransactionState)
    ensures to in ValidTransitions(from) <==>
            match to
            case Created => false
            case Validated => from == Created
            case Rejected => from in {Created, Validated}
            case Reserved => from == Validated
            case Submitted => from == Reserved
            case Processing => from in {Reserved, Submitted}
            case Pending => from == Processing
            case UnderReview => from == Pending
            case ReversalRequired => from in {Pending, UnderReview}
            case Reversed => from == ReversalRequired
            case _ => from in {Processing, Pending, UnderReview}
  {
    assert Successful in ValidTransitions(Processing) && Failed in ValidTransitions(Processing);
    assert Successful in ValidTransitions(Pending) && Failed in ValidTransitions(Pending);
  }

  /** A refused move names the two states, and is told apart from one out of a state that has no moves. */
  lemma RefusalNamesTheMove(t: Transaction, to: TransactionState)
    ensures TransitionTo(t, to) == Failure(TerminalState(t.state, to)) <==> Rank(t.state) == 8
    ensures TransitionTo(t, to) == Failure(IllegalTransition(t.state, to)) <==>
            Rank(t.state) < 8 && to !in ValidTransitions(t.state)
    ensures TransitionTo(t, to).Success? ==>
              TransitionTo(t, to).value == t.(state := to, history := t.history + [Move(t.state, to)])
  {
    TerminalExactly(t.state);
  }

  /** A sale's value is nowhere, then reserved, then in review as the rank climbs; only success takes it for good. */
  lemma DispositionByRank(state: TransactionState)
    ensures Disposition(state) == NoValue <==> Rank(state) < 2
    ensures Disposition(state) == InReserved <==> 2 <= Rank(state) <= 5
    ensures Disposition(state) == InReview <==> 6 <= Rank(state) <= 7
    ensures Disposition(state) == Debited <==> state == Successful
  {
  }

  /** Where a move may take a sale's value: out of nowhere, through the held buckets, to one final place. */
  predicate MayFlow(from: ValueDisposition, to: ValueDisposition) {
    match from
    case NoValue => to in {NoValue, InReserved, ValueDisposition.Released}
    case InReserved => to in {InReserved, InReview, Debited, ValueDisposition.Released}
    case InReview => to in {InReview, Debited, ValueDisposition.Released}
    case _ => false
  }

  lemma MovesClimbAndFlow(from: TransactionState, to: TransactionState)
    requires to in ValidTransitions(from)
    ensures Rank(from) < Rank(to)
    ensures MayFlow(Disposition(from), Disposition(to))
    ensures to == Failed ==> from in {Processing, Pending, UnderReview}
  {
  }

  // --- the history ---------------------------------------------------------------------------

  /** A sale of a positive amount is created with no past; no other sale is created at all. */
  lemma CreationExactly(id: string, merchant: string, amount: int)
    ensures var r := CreateTransaction(id, merchant, amount);
            if amount > 0 then r == Success(Transaction(id, merchant, amount, Created, [])) else r == Failure(NegativeAmount)
  {
  }

  /** Each move is legal, starts where the one before it ended, and the last ends in the sale's state. */
  ghost predicate Chained(t: Transaction) {
    && (forall i :: 0 <= i < |t.history| ==> t.history[i].to in ValidTransitions(t.history[i].from))
    && (forall i :: 0 < i < |t.history| ==> t.history[i].from == t.history[i - 1].to)
    && (if t.history == [] then t.state == Created
        else t.history[0].from == Created && t.history[|t.history| - 1].to == t.state)
  }

  lemma {:induction false} WalkKeepsChain(t: Transaction, targets: seq<TransactionState>)
    requires Chained(t) && |t.history| <= Rank(t.state)
    ensures var u := Walk(t, targets);
            && Chained(u) && t.history <= u.history && |u.history| <= Rank(u.state) <= 8
            && u.id == t.id && u.merchant == t.merchant && u.amount == t.amount
            && (IsTerminal(t.state) ==> u == t)
    decreases |targets|
  {
    if targets != [] {
      var r := TransitionTo(t, targets[0]);
      if r.Success? {
        MovesClimbAndFlow(t.state, targets[0]);
        TerminalExactly(t.state);
        WalkKeepsChain(r.value, targets[1..]);
      } else {
        WalkKeepsChain(t, targets[1..]);
      }
    }
  }

  /** Whatever moves are asked of a new sale, its history is a linked chain of at most eight legal moves. */
  lemma HistoryIsBounded(id: string, merchant: string, amount: int, targets: seq<TransactionState>)
    requires amount > 0
    ensures var u := Walk(CreateTransaction(id, merchant, amount).value, targets);
            Chained(u) && |u.history| <= 8
  {
    WalkKeepsChain(CreateTransaction(id, merchant, amount).value, targets);
  }

  /** A list of moves each legal after the one before it is taken whole. */
  predicate LegalPath(from: TransactionState, path: seq<TransactionState>)
    decreases |path|
  {
    path == [] || (path[0] in ValidTransitions(from) && LegalPath(path[0], path[1..]))
  }

  lemma Prepend(from: TransactionState, next: TransactionState, rest: seq<TransactionState>)
    requires next in ValidTransitions(from) && LegalPath(next, rest)
    ensures LegalPath(from, [next] + rest)
  {
    assert ([next] + rest)[1..] == rest;
  }

  lemma {:induction false} LongWalk(t: Transaction, path: seq<TransactionState>)
    requires LegalPath(t.state, path)
    ensures var u := Walk(t, path);
            |u.history| == |t.history| + |path| && (path != [] ==> u.state == path[|path| - 1])
    decreases |path|
  {
    if path != [] {
      LongWalk(TransitionTo(t, path[0]).value, path[1..]);
    }
  }

  /** The long way through review to a reversal. */
  const LONGEST := [Validated, Reserved, Submitted, Processing, Pending, UnderReview, ReversalRequired, Reversed]

  lemma LongestIsLegal()
    ensures LegalPath(Created, LONGEST) && |LONGEST| == 8 && LONGEST[7] == Reversed
  {
    Prepend(Pending, UnderReview, [ReversalRequired, Reversed]);
    Prepend(Processing, Pending, [UnderReview, ReversalRequired, Reversed]);
    Prepend(Submitted, Processing, [Pending, UnderReview, ReversalRequired, Reversed]);
    Prepend(Reserved, Submitted, [Processing, Pending, UnderReview, ReversalRequired, Reversed]);
    Prepend(Validated, Reserved, [Submitted, Processing, Pending, UnderReview, ReversalRequired, Reversed]);
    Prepend(Created, Validated, [Reserved, Submitted, Processing, Pending, UnderReview, ReversalRequired, Reversed]);
    assert LONGEST == [Validated] + [Reserved, Submitted, Processing, Pending, UnderReview, ReversalRequired, Reversed];
  }

  /** A new sale takes any legal path whole, and the longest has eight moves: the bound is reached. */
  lemma EightMovesHappen(id: string, merchant: string, amount: int, path: seq<TransactionState>)
    requires amount > 0 && LegalPath(Created, path)
    ensures |Walk(CreateTransaction(id, merchant, amount).value, path).history| == |path|
    ensures LegalPath(Created, LONGEST) && |LONGEST| == 8
  {
    LongWalk(CreateTransaction(id, merchant, amount).value, path);
    LongestIsLegal();
  }

  // --- what the table lets a sale become ----------------------------------------------------------

  /** Some list of legal moves leads from one state to the other. */
  ghost predicate Reaches(from: TransactionState, to: TransactionState) {
    from == to || exists path :: path != [] && LegalPath(from, path) && path[|path| - 1] == to
  }

  /** The reachability a caller can read off two states. */
  predicate Upward(from: TransactionState, to: TransactionState) {
    || from == to
    || (&& Rank(from) < Rank(to)
        && (to == Rejected ==> from in {Created, Validated})
        && (to in {Successful, Failed} ==> from != ReversalRequired))
  }

  lemma {:induction false} PathsClimb(from: TransactionState, path: seq<TransactionState>)
    requires path != [] && LegalPath(from, path)
    ensures Upward(from, path[|path| - 1]) && Rank(from) < Rank(path[|path| - 1])
    decreases |path|
  {
    MovesClimbAndFlow(from, path[0]);
    if |path| > 1 {
      PathsClimb(path[0], path[1..]);
    }
  }

  lemma {:induction false} PathsJoin(from: TransactionState, path: seq<TransactionState>, more: seq<TransactionState>)
    requires LegalPath(from, path)
    requires LegalPath(if path == [] then from else path[|path| - 1], more)
    ensures LegalPath(from, path + more)
    decreases |path|
  {
    if path == [] {
      assert path + more == more;
    } else {
      assert (path + more)[1..] == path[1..] + more;
      PathsJoin(path[0], path[1..], more);
    }
  }

  lemma ReachesOnward(a: TransactionState, b: TransactionState, c: TransactionState)
    requires Reaches(a, b) && Reaches(b, c)
    ensures Reaches(a, c)
  {
    if a != b && b != c {
      var path :| path != [] && LegalPath(a, path) && path[|path| - 1] == b;
      var more :| more != [] && LegalPath(b, more) && more[|more| - 1] == c;
      PathsJoin(a, path, more);
      assert (path + more)[|path + more| - 1] == c;
    }
  }

  lemma OneMoveReaches(from: TransactionState, to: TransactionState)
    requires to in ValidTransitions(from)
    ensures Reaches(from, to)
  {
    assert LegalPath(from, [to]) by {
      assert [to][1..] == [];
    }
    assert [to][|[to]| - 1] == to;
  }

  /** The longest chain of states that are not final, and the move into each. */
  function Before(state: TransactionState): TransactionState
    requires 0 < Rank(state) < 8
  {
    match state
    case Validated => Created
    case Reserved => Validated
    case Submitted => Reserved
    case Processing => Submitted
    case Pending => Processing
    case UnderReview => Pending
    case ReversalRequired => UnderReview
  }

  lemma {:induction false} ClimbsTo(from: TransactionState, to: TransactionState)
    requires Rank(from) <= Rank(to) < 8
    ensures Reaches(from, to)
    decreases Rank(to)
  {
    if from != to {
      ClimbsTo(from, Before(to));
      OneMoveReaches(Before(to), to);
      ReachesOnward(from, Before(to), to);
    }
  }

  /** Which states a legal path can lead to, both ways. */
  lemma ReachesExactly(from: TransactionState, to: TransactionState)
    ensures Reaches(from, to) <==> Upward(from, to)
  {
    if from != to && Reaches(from, to) {
      var path :| path != [] && LegalPath(from, path) && path[|path| - 1] == to;
      PathsClimb(from, path);
    }
    if from != to && Upward(from, to) {
      if Rank(to) < 8 {
        ClimbsTo(from, to);
      } else {
        var last := match to
          case Reversed => ReversalRequired
          case Rejected => from
          case _ => if from == UnderReview then UnderReview else Pending;
        ClimbsTo(from, last);
        OneMoveReaches(last, to);
        ReachesOnward(from, last, to);
      }
    }
  }
}
