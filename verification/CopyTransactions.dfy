// Transactions are kept or dropped as a whole: what a message that cannot be retrieved or inserted undoes.
module CopyTransactions {
  import opened Arithmetic
  import opened CopyMove

  // The state of the databases before a batch.
  ghost predicate BeforeBatch(g: Globals, idents: seq<Ident>, move: bool, ept: nat)
  {
    0 < |idents| <= ept && (g.db.inTransaction || ept == 1) && (move ==> |idents| < DELETE_TBL_SIZE)
  }

  // Handling a message in the middle of a transaction only adds to what is pending.
  lemma HandleInside(g: Globals, id: Ident, tbl: seq<Ident>, eventNo: nat, move: bool, ept: nat, env: Env)
    requires eventNo + 1 < ept && g.db.inTransaction && (move ==> |tbl| + 1 < DELETE_TBL_SIZE)
    ensures var h := Handle(g, id, tbl, eventNo, move, ept, env);
            if env.ok(g.db.clock) && env.ok(g.db.clock + 1) then
              && h.Go? && h.eventNo == eventNo + 1 && h.g.db.clock == g.db.clock + 2 && h.g.curCount == g.curCount
              && h.g.db.durable == g.db.durable && h.g.db.src == g.db.src && h.g.db.inTransaction
              && |h.tbl| == |tbl| + if move then 1 else 0
            else h.GivenUp?
  {
  }

  lemma HandleFails(g: Globals, id: Ident, tbl: seq<Ident>, eventNo: nat, move: bool, ept: nat, env: Env)
    requires !env.ok(g.db.clock) || !env.ok(g.db.clock + 1)
    ensures var h := Handle(g, id, tbl, eventNo, move, ept, env);
            && h.GivenUp? && h.b.ret < 0 && h.b.g.curCount == g.curCount
            && h.b.g.db.durable == g.db.durable && h.b.g.db.src == g.db.src
  {
  }

  // If message j of a batch cannot be retrieved or inserted, and nothing has failed before, the batch counts nothing,
  // and leaves nothing in the databases that lasts. Every message takes three calls: one for its ident, one to retrieve
  // it and one to insert it.
  lemma {:induction false} FailedMessageUndoes(g: Globals, idents: seq<Ident>, i: nat, tbl: seq<Ident>, j: nat,
                                               move: bool, ept: nat, env: Env)
    requires BeforeBatch(g, idents, move, ept) && i <= j < |idents| && |tbl| == if move then i else 0
    requires forall t :: g.db.clock <= t <= g.db.clock + 3 * (j - i) ==> env.ok(t)
    requires !env.ok(g.db.clock + 3 * (j - i) + 1) || !env.ok(g.db.clock + 3 * (j - i) + 2)
    ensures var b := Iterate(g, idents, i, tbl, i, move, ept, env);
            b.ret < 0 && b.g.curCount == g.curCount && b.g.db.durable == g.db.durable && b.g.db.src == g.db.src
    decreases j - i
  {
    hide Handle;
    var g1 := g.(db := Tick(g.db));
    if i == j {
      HandleFails(g1, idents[i], tbl, i, move, ept, env);
    } else {
      HandleInside(g1, idents[i], tbl, i, move, ept, env);
      var h := Handle(g1, idents[i], tbl, i, move, ept, env);
      FailedMessageUndoes(h.g, idents, i + 1, h.tbl, j, move, ept, env);
    }
  }

  // ------------------------------------------------------------------------------------ whole commands

  // The batch ends because a message cannot be retrieved or inserted.
  predicate GivesUp(g: Globals, idents: seq<Ident>, i: nat, tbl: seq<Ident>, eventNo: nat, move: bool, ept: nat,
                    env: Env)
    requires i <= |idents|
    decreases |idents| - i
  {
    env.ok(g.db.clock) && i < |idents| &&
    match Handle(g.(db := Tick(g.db)), idents[i], tbl, eventNo, move, ept, env) {
      case GivenUp(_) => true
      case Go(h, tbl', n) => GivesUp(h, idents, i + 1, tbl', n, move, ept, env)
    }
  }

  lemma {:induction false} GivingUpUndoes(g: Globals, idents: seq<Ident>, i: nat, tbl: seq<Ident>, move: bool, ept: nat,
                                          env: Env)
    requires BeforeBatch(g, idents, move, ept) && i <= |idents| && |tbl| == (if move then i else 0)
    requires i == |idents| || GivesUp(g, idents, i, tbl, i, move, ept, env)
    ensures i < |idents| ==>
              var b := Iterate(g, idents, i, tbl, i, move, ept, env);
              b.ret < 0 && b.g.curCount == g.curCount && b.g.db.durable == g.db.durable && b.g.db.src == g.db.src
    decreases |idents| - i
  {
    hide Handle;
    if i < |idents| {
      var g1 := g.(db := Tick(g.db));
      if env.ok(g1.db.clock) && env.ok(g1.db.clock + 1) {
        if i + 1 < |idents| {
          HandleInside(g1, idents[i], tbl, i, move, ept, env);
          var h := Handle(g1, idents[i], tbl, i, move, ept, env);
          GivingUpUndoes(h.g, idents, i + 1, h.tbl, move, ept, env);
        } else {
          LastDoesNotGiveUp(g1, idents[i], tbl, i, move, ept, env);
        }
      } else {
        HandleFails(g1, idents[i], tbl, i, move, ept, env);
      }
    }
  }

  lemma LastDoesNotGiveUp(g: Globals, id: Ident, tbl: seq<Ident>, eventNo: nat, move: bool, ept: nat, env: Env)
    requires env.ok(g.db.clock) && env.ok(g.db.clock + 1)
    ensures Handle(g, id, tbl, eventNo, move, ept, env).Go?
  {
  }

  // The loop ends because a message cannot be retrieved or inserted.
  predicate LoopGivesUp(g: Globals, s: Settings, env: Env)
    decreases Remaining(g, s)
  {
    var g1, idents := Counted(g, |Fetched(g, s)|), Fetched(g, s);
    env.ok(g.db.clock) && idents != [] &&
    (GivesUp(g1, idents, 0, [], 0, s.move, s.ept, env) ||
     var b := Iterate(g1, idents, 0, [], 0, s.move, s.ept, env);
     BatchProgress(g, s, env);
     b.ret >= 0 && !env.stop(b.g.db.clock) && LoopGivesUp(b.g, s, env))
  }

  predicate CommandGivesUp(db: Db, s: Settings, limit: int, env: Env)
  {
    LoopGivesUp(Globals(if s.ept > 1 then Begin(db) else db, 0, limit), s, env)
  }

  lemma {:induction false} LoopKeepsWholeTransactions(g: Globals, s: Settings, env: Env, base: seq<Ident>,
                                                      src: seq<Ident>, limit: int)
    requires 0 < s.ept && (s.move ==> s.ept < DELETE_TBL_SIZE && Distinct(src)) && Allowed(g, limit)
    requires g.db.src == Left(src, s, g.curCount)
    requires CopiedSoFar(g, 0, Whole(base, src, s.offset), |base|, s.ept)
    requires g.curCount % s.ept == 0 && LoopGivesUp(g, s, env)
    ensures Loop(g, s, env).ret < 0 && Loop(g, s, env).g.curCount % s.ept == 0
    decreases Remaining(g, s)
  {
    hide Iterate, CopiedSoFar, Left, Distinct, Whole, GivesUp, Fetched;
    var total, b, idents := Whole(base, src, s.offset), |base|, Fetched(g, s);
    var g1 := Counted(g, |idents|);
    FetchedIsNext(g, s, base, src);
    InTransaction(g, 0, total, b, s.ept);
    if GivesUp(g1, idents, 0, [], 0, s.move, s.ept, env) {
      GivingUpUndoes(g1, idents, 0, [], s.move, s.ept, env);
      BatchProgress(g, s, env);
    } else {
      CountedCopies(g, |idents|, s.ept, total, b);
      assert idents[0..] == idents && idents[..0] == [];
      IterateCopies(g1, idents, 0, [], 0, s.move, s.ept, env, total, b);
      BatchProgress(g, s, env);
      var x := Iterate(g1, idents, 0, [], 0, s.move, s.ept, env);
      if s.move {
        LeftShrinks(src, s, g.curCount, |idents|);
      } else {
        IterateDone(g1, idents, 0, [], 0, false, s.ept, env);
      }
      LeftOfCopy(src, s, g.curCount, x.g.curCount);
      IterateLimit(g1, idents, 0, [], 0, s.move, s.ept, env);
      FetchedIsNext(x.g, s, base, src);
      if |idents| == s.ept {
        OneMore(g.curCount, s.ept);
        LoopKeepsWholeTransactions(x.g, s, env, base, src, limit);
      } else {
        assert false;
      }
    }
  }

  lemma OneMore(n: nat, ept: nat)
    requires ept > 0 && n % ept == 0
    ensures (n + ept) % ept == 0
  {
    var q, k, r := n / ept, (n + ept) / ept, (n + ept) % ept;
    WholeMultiple(n, ept, q);
    assert n + ept == ept * k + r;
    Split(k, k - q - 1, q + 1, ept);
    if k > q + 1 { MulMono(ept, 1, k - q - 1); }
    if k < q + 1 { MulMono(ept, k - q - 1, -1); }
  }

  lemma WholeMultiple(n: nat, ept: nat, q: int)
    requires ept > 0 && n % ept == 0 && q == n / ept
    ensures n == ept * q && n + ept == ept * (q + 1)
  {
  }

  lemma InTransaction(g: Globals, eventNo: nat, total: seq<Ident>, b: nat, ept: nat)
    requires CopiedSoFar(g, eventNo, total, b, ept)
    ensures g.db.inTransaction || ept == 1
  {
  }

  // A copy that ends because a message could not be retrieved or inserted has kept whole transactions, and nothing of
  // the one it was in.
  lemma CopyKeepsWholeTransactions(db: Db, ept: nat, offset: nat, limit: int, env: Env)
    requires Closed(db) && ept > 0 && CommandGivesUp(db, Settings(ept, offset, false), limit, env)
    ensures var x := Command(db, Settings(ept, offset, false), limit, env);
            && x.ret < 0 && x.g.curCount % ept == 0
            && x.g.db.durable == db.durable + Slice(db.src, x.g.curCount, offset)
  {
    var s := Settings(ept, offset, false);
    var g := Globals(if ept > 1 then Begin(db) else db, 0, limit);
    StartCopies(g, ept, db.durable, Whole(db.durable, db.src, offset));
    CopiesSlice(db, ept, offset, limit, env);
    hide Loop, LoopGivesUp, CopiedSoFar, Whole, Slice;
    LoopKeepsWholeTransactions(g, s, env, db.durable, db.src, limit);
  }

  // So has a move of distinct messages.
  lemma MoveKeepsWholeTransactions(db: Db, ept: nat, offset: nat, limit: int, env: Env)
    requires Closed(db) && Distinct(db.src) && 0 < ept < DELETE_TBL_SIZE
    requires CommandGivesUp(db, Settings(ept, offset, true), limit, env)
    ensures var x := Command(db, Settings(ept, offset, true), limit, env);
            && x.ret < 0 && x.g.curCount % ept == 0
            && x.g.db.durable == db.durable + Slice(db.src, x.g.curCount, offset)
  {
    var s := Settings(ept, offset, true);
    var g := Globals(if ept > 1 then Begin(db) else db, 0, limit);
    StartCopies(g, ept, db.durable, Whole(db.durable, db.src, offset));
    LeftAtStart(db.src, s);
    MovesSlice(db, ept, offset, limit, env);
    hide Loop, LoopGivesUp, CopiedSoFar, Whole, Slice, Left, Distinct;
    LoopKeepsWholeTransactions(g, s, env, db.durable, db.src, limit);
  }
}
