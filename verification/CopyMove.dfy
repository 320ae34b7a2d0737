// Copying and moving messages between two databases, in batches and transactions.
module CopyMove {
  import opened Arithmetic

  type Ident = int

  // What survives if the run stops now: an open transaction is lost.
  datatype Snapshot = Snapshot(src: seq<Ident>, durable: seq<Ident>)

  // The two databases: the selected messages of the source in order, and the destination with what its open
  // transaction has added. Every change is noted in the log.
  datatype Db = Db(src: seq<Ident>, durable: seq<Ident>, pending: seq<Ident>, inTransaction: bool, clock: nat,
                   log: seq<Snapshot>)

  // What the outside world decides: which calls succeed, what a failed deletion removes all the same, and whether a
  // signal has asked to stop.
  datatype Env = Env(ok: nat -> bool, gone: (nat, Ident) -> bool, stop: nat -> bool)

  function Tick(db: Db): Db { db.(clock := db.clock + 1) }

  function Noted(db: Db): Db { db.(clock := db.clock + 1, log := db.log + [Snapshot(db.src, db.durable)]) }

  // At most limit messages of the source, from an offset on.
  function Slice(src: seq<Ident>, limit: nat, offset: nat): seq<Ident>
  {
    if offset >= |src| then [] else src[offset..Min(offset + limit, |src|)]
  }

  function Insert(db: Db, id: Ident): Db
  {
    Noted(if db.inTransaction then db.(pending := db.pending + [id]) else db.(durable := db.durable + [id]))
  }

  function Without(src: seq<Ident>, tbl: seq<Ident>, all: bool, gone: Ident -> bool): seq<Ident>
  {
    if src == [] then []
    else (if src[0] in tbl && (all || gone(src[0])) then [] else [src[0]]) + Without(src[1..], tbl, all, gone)
  }

  function Delete(db: Db, tbl: seq<Ident>, env: Env): Db
  {
    Noted(db.(src := Without(db.src, tbl, env.ok(db.clock), id => env.gone(db.clock, id))))
  }

  function Begin(db: Db): Db { Tick(db).(inTransaction := true) }

  // Without an open transaction this fails and changes nothing.
  function Commit(db: Db): Db
  {
    Noted(if db.inTransaction then db.(durable := db.durable + db.pending, pending := [], inTransaction := false)
          else db)
  }

  function Abort(db: Db): Db
  {
    Noted(if db.inTransaction then db.(pending := [], inTransaction := false) else db)
  }

  // ------------------------------------------------------------------------------------ one batch

  const DELETE_TBL_SIZE: nat := 1024

  // The databases, and the globals that count.
  datatype Globals = Globals(db: Db, curCount: nat, limitCopy: int)

  function Flush(g: Globals, eventNo: nat, increment: nat, ept: nat): (Globals, nat)
  {
    if ept == 0 then (g, eventNo)
    else
      var n := eventNo + increment;
      if n >= ept || (increment == 0 && n != 0) then (g.(db := Begin(Commit(g.db)), curCount := g.curCount + n), 0)
      else (g, n)
  }

  datatype Batch = Batch(g: Globals, eventNo: nat, ret: int)

  // After the loop: what is left is committed, and then the messages still to be deleted are.
  function Finish(g: Globals, tbl: seq<Ident>, eventNo: nat, ret: int, ept: nat, env: Env): Batch
  {
    var (f, n) := Flush(g, eventNo, 0, ept);
    if tbl == [] then Batch(f, n, ret)
    else Batch(f.(db := Delete(f.db, tbl, env)), n, if env.ok(f.db.clock) then ret else -1)
  }

  // What one message makes of the loop: it goes on, or the batch is given up.
  datatype Handled = Go(g: Globals, tbl: seq<Ident>, eventNo: nat) | GivenUp(b: Batch)

  // Copies a message, and deletes from the source when the table is full. Here the table can take any number of
  // messages; module CopyTable tells when it would need more than it has room for.
  function Handle(g: Globals, id: Ident, tbl: seq<Ident>, eventNo: nat, move: bool, ept: nat, env: Env): Handled
  {
    var g2 := g.(db := Tick(g.db));
    if !env.ok(g.db.clock) then GivenUp(Batch(g2, eventNo, -1))
    else if !env.ok(g2.db.clock) then GivenUp(Batch(g2.(db := Tick(g2.db)), eventNo, -1))
    else
      var g3 := g2.(db := Insert(g2.db, id));
      var tbl3 := if move then tbl + [id] else tbl;
      if move && ((ept != 0 && eventNo >= ept) || |tbl3| >= DELETE_TBL_SIZE) then
        var g4 := g3.(db := Delete(g3.db, tbl3, env));
        if !env.ok(g3.db.clock) then Go(g4, tbl3, eventNo)
        else
          var (g5, n) := Flush(g4, eventNo, 1, ept);
          Go(g5, [], n)
      else
        var (g4, n) := Flush(g3, eventNo, 1, ept);
        Go(g4, tbl3, n)
  }

  // The loop over the fetched idents from the i-th on; tbl holds the messages to delete from the source.
  function Iterate(g: Globals, idents: seq<Ident>, i: nat, tbl: seq<Ident>, eventNo: nat, move: bool, ept: nat,
                   env: Env): Batch
    requires i <= |idents|
    decreases |idents| - i
  {
    var g1 := g.(db := Tick(g.db));
    if !env.ok(g.db.clock) then Finish(g1, tbl, eventNo, -1, ept, env)
    else if i == |idents| then Finish(g1, tbl, eventNo, 0, ept, env)
    else
      match Handle(g1, idents[i], tbl, eventNo, move, ept, env)
      case GivenUp(b) => b
      case Go(g2, tbl2, n) => Iterate(g2, idents, i + 1, tbl2, n, move, ept, env)
  }

  // ------------------------------------------------------------------------------------ the whole command

  datatype Settings = Settings(ept: nat, offset: nat, move: bool)

  function FetchLimit(g: Globals, ept: nat): nat
  {
    if g.limitCopy < 0 then ept else Min(ept, g.limitCopy)
  }

  // The idents of the next batch, None if they could not be fetched.
  function Fetched(g: Globals, s: Settings): seq<Ident>
  {
    Slice(g.db.src, FetchLimit(g, s.ept), s.offset + if s.move then 0 else g.curCount)
  }

  function Counted(g: Globals, count: nat): Globals
  {
    g.(db := Tick(g.db), limitCopy := if g.limitCopy > 0 then g.limitCopy - count else g.limitCopy)
  }

  // How much is left to fetch.
  function Remaining(g: Globals, s: Settings): nat
  {
    if s.move then |g.db.src| else if |g.db.src| > s.offset + g.curCount then |g.db.src| - s.offset - g.curCount else 0
  }

  // Batch after batch, until nothing is left, something fails or a signal asks to stop.
  function Loop(g: Globals, s: Settings, env: Env): Batch
    decreases Remaining(g, s)
  {
    var g1, idents := Counted(g, |Fetched(g, s)|), Fetched(g, s);
    if !env.ok(g.db.clock) then Batch(g.(db := Tick(g.db)), 0, -1)
    else if idents == [] then Batch(g1, 0, 0)
    else
      var b := Iterate(g1, idents, 0, [], 0, s.move, s.ept, env);
      BatchProgress(g, s, env);
      if b.ret >= 0 && !env.stop(b.g.db.clock) then Loop(b.g, s, env) else b
  }

  // The end of the command: the open transaction is dropped after an error.
  function TransactionEnd(b: Batch, ept: nat): Batch
  {
    if ept > 1 then
      if b.ret < 0 then b.(g := b.g.(db := Abort(b.g.db)))
      else b.(g := b.g.(db := Commit(b.g.db), curCount := b.g.curCount + b.eventNo))
    else b
  }

  // The command on closed databases; a negative limit is none.
  function Command(db: Db, s: Settings, limit: int, env: Env): Batch
  {
    TransactionEnd(Loop(Globals(if s.ept > 1 then Begin(db) else db, 0, limit), s, env), s.ept)
  }

  // ------------------------------------------------------------------------------------ deletions

  lemma {:induction false} WithoutKeeps(src: seq<Ident>, tbl: seq<Ident>, all: bool, gone: Ident -> bool)
    ensures forall id :: id in src && id !in tbl ==> id in Without(src, tbl, all, gone)
    ensures forall id :: id in Without(src, tbl, all, gone) ==> id in src
    ensures all ==> forall id :: id in tbl ==> id !in Without(src, tbl, all, gone)
    ensures |Without(src, tbl, all, gone)| <= |src|
    ensures |Without(src, tbl, all, gone)| == |src| ==> Without(src, tbl, all, gone) == src
  {
    if src != [] {
      WithoutKeeps(src[1..], tbl, all, gone);
      assert src == [src[0]] + src[1..];
    }
  }

  // The source has lost messages, or is as it was.
  ghost predicate Shrunk(before: seq<Ident>, after: seq<Ident>)
  {
    |after| <= |before| && (|after| == |before| ==> after == before) && forall id :: id in after ==> id in before
  }

  lemma DeleteShrinks(db: Db, tbl: seq<Ident>, env: Env)
    ensures Shrunk(db.src, Delete(db, tbl, env).src)
    ensures env.ok(db.clock) ==> forall id :: id in tbl ==> id !in Delete(db, tbl, env).src
    ensures forall id :: id in db.src && id !in tbl ==> id in Delete(db, tbl, env).src
  {
    WithoutKeeps(db.src, tbl, env.ok(db.clock), id => env.gone(db.clock, id));
  }

  lemma HandleDone(g: Globals, id: Ident, tbl: seq<Ident>, eventNo: nat, move: bool, ept: nat, env: Env)
    requires ept > 0
    ensures match Handle(g, id, tbl, eventNo, move, ept, env)
            case GivenUp(b) => b.ret < 0 && b.g.db.src == g.db.src && b.g.curCount == g.curCount
            case Go(h, tbl', n) =>
              && Shrunk(g.db.src, h.db.src)
              && (!move ==> tbl' == tbl && h.db.src == g.db.src && h.curCount + n == g.curCount + eventNo + 1)
              && (forall x :: x in tbl || (move && x == id) ==> x in tbl' || x !in h.db.src)
  {
    DeleteShrinks(Insert(Tick(g.db), id), if move then tbl + [id] else tbl, env);
    hide Without;
  }

  lemma FinishDone(g: Globals, tbl: seq<Ident>, eventNo: nat, ret: int, ept: nat, env: Env)
    requires ept > 0
    ensures var b := Finish(g, tbl, eventNo, ret, ept, env);
            && Shrunk(g.db.src, b.g.db.src) && b.eventNo == 0 && b.g.curCount == g.curCount + eventNo
            && (tbl == [] ==> b.g.db.src == g.db.src)
            && (b.ret >= 0 ==> ret >= 0 && forall x :: x in tbl ==> x !in b.g.db.src)
  {
    DeleteShrinks(Flush(g, eventNo, 0, ept).0.db, tbl, env);
    hide Without;
  }

  // A batch that reports success has dealt with every message of it.
  lemma {:induction false} IterateDone(g: Globals, idents: seq<Ident>, i: nat, tbl: seq<Ident>, eventNo: nat,
                                       move: bool,
                                       ept: nat, env: Env)
    requires i <= |idents| && ept > 0
    ensures var b := Iterate(g, idents, i, tbl, eventNo, move, ept, env);
            && Shrunk(g.db.src, b.g.db.src)
            && (!move && tbl == [] ==> b.g.db.src == g.db.src && b.g.curCount <= g.curCount + eventNo + |idents| - i)
            && (!move && tbl == [] && b.ret >= 0 ==> b.g.curCount == g.curCount + eventNo + |idents| - i)
            && (b.ret >= 0 ==>
                  b.eventNo == 0 && forall x :: x in tbl || (move && x in idents[i..]) ==> x !in b.g.db.src)
    decreases |idents| - i
  {
    hide Handle, Finish;
    var g1 := g.(db := Tick(g.db));
    FinishDone(g1, tbl, eventNo, if env.ok(g.db.clock) then 0 else -1, ept, env);
    if env.ok(g.db.clock) && i < |idents| {
      HandleDone(g1, idents[i], tbl, eventNo, move, ept, env);
      match Handle(g1, idents[i], tbl, eventNo, move, ept, env)
      case GivenUp(b) =>
      case Go(g2, tbl2, n) =>
        IterateDone(g2, idents, i + 1, tbl2, n, move, ept, env);
        assert idents[i..] == [idents[i]] + idents[i + 1..];
    }
  }

  lemma BatchProgress(g: Globals, s: Settings, env: Env)
    requires Fetched(g, s) != []
    ensures var b := Iterate(Counted(g, |Fetched(g, s)|), Fetched(g, s), 0, [], 0, s.move, s.ept, env);
            b.ret >= 0 ==> b.eventNo == 0 && Remaining(b.g, s) < Remaining(g, s)
  {
    var idents := Fetched(g, s);
    var b := Iterate(Counted(g, |idents|), idents, 0, [], 0, s.move, s.ept, env);
    hide Iterate;
    IterateDone(Counted(g, |idents|), idents, 0, [], 0, s.move, s.ept, env);
    var at := s.offset + if s.move then 0 else g.curCount;
    assert idents[0] == g.db.src[at];
    if s.move && b.ret >= 0 {
      assert idents[0..] == idents && idents[0] in idents;
      assert idents[0] !in b.g.db.src;
      assert b.g.db.src != g.db.src;
    }
  }

  // ------------------------------------------------------------------------------------ moves lose nothing

  ghost predicate Kept(sel: seq<Ident>, src: seq<Ident>, durable: seq<Ident>)
  {
    forall id :: id in sel ==> id in src || id in durable
  }

  // Wherever the run had stopped, every message would be in one of the databases.
  ghost predicate AlwaysKept(sel: seq<Ident>, db: Db)
  {
    Kept(sel, db.src, db.durable) && forall k :: 0 <= k < |db.log| ==> Kept(sel, db.log[k].src, db.log[k].durable)
  }

  // Only the open transaction holds messages back, and only if some have been counted.
  ghost predicate Tidy(db: Db, eventNo: nat)
  {
    !db.inTransaction || eventNo == 0 ==> db.pending == []
  }

  ghost predicate Written(ids: seq<Ident>, db: Db)
  {
    forall id :: id in ids ==> id in db.durable || id in db.pending
  }

  lemma FlushKeeps(g: Globals, eventNo: nat, increment: nat, ept: nat, sel: seq<Ident>, tbl: seq<Ident>)
    requires ept > 0 && AlwaysKept(sel, g.db) && Written(tbl, g.db)
    requires Tidy(g.db, eventNo + increment)
    ensures var (h, n) := Flush(g, eventNo, increment, ept);
            && AlwaysKept(sel, h.db) && Written(tbl, h.db) && Tidy(h.db, n) && n < ept && h.db.src == g.db.src
            && (increment == 0 ==> h.db.pending == [] && n == 0)
  {
  }

  lemma DeleteKeeps(db: Db, tbl: seq<Ident>, env: Env, sel: seq<Ident>)
    requires AlwaysKept(sel, db) && forall id :: id in tbl ==> id in db.durable
    ensures AlwaysKept(sel, Delete(db, tbl, env))
  {
    DeleteShrinks(db, tbl, env);
    hide Without;
  }

  lemma HandleKeeps(g: Globals, id: Ident, tbl: seq<Ident>, eventNo: nat, move: bool, ept: nat, env: Env,
                    sel: seq<Ident>)
    requires AlwaysKept(sel, g.db) && Tidy(g.db, eventNo) && Written(tbl, g.db)
    requires eventNo < ept && |tbl| + 1 < DELETE_TBL_SIZE
    ensures match Handle(g, id, tbl, eventNo, move, ept, env)
            case GivenUp(b) => AlwaysKept(sel, b.g.db) && Tidy(b.g.db, b.eventNo)
            case Go(h, tbl', n) =>
              AlwaysKept(sel, h.db) && Tidy(h.db, n) && Written(tbl', h.db) && n < ept && |tbl'| <= |tbl| + 1
  {
    var g2 := g.(db := Tick(g.db));
    if env.ok(g.db.clock) && env.ok(g2.db.clock) {
      var g3 := g2.(db := Insert(g2.db, id));
      FlushKeeps(g3, eventNo, 1, ept, sel, if move then tbl + [id] else tbl);
    }
  }

  lemma FinishKeeps(g: Globals, tbl: seq<Ident>, eventNo: nat, ret: int, ept: nat, env: Env, sel: seq<Ident>)
    requires AlwaysKept(sel, g.db) && Tidy(g.db, eventNo) && Written(tbl, g.db) && ept > 0
    ensures var b := Finish(g, tbl, eventNo, ret, ept, env);
            AlwaysKept(sel, b.g.db) && Tidy(b.g.db, b.eventNo)
  {
    FlushKeeps(g, eventNo, 0, ept, sel, tbl);
    DeleteKeeps(Flush(g, eventNo, 0, ept).0.db, tbl, env, sel);
    hide Without, Flush;
  }

  lemma {:induction false} IterateKeeps(g: Globals, idents: seq<Ident>, i: nat, tbl: seq<Ident>, eventNo: nat,
                                        move: bool,
                                        ept: nat, env: Env, sel: seq<Ident>)
    requires AlwaysKept(sel, g.db) && Tidy(g.db, eventNo) && Written(tbl, g.db)
    requires eventNo < ept && i <= |idents| && |tbl| + |idents| - i < DELETE_TBL_SIZE
    ensures var b := Iterate(g, idents, i, tbl, eventNo, move, ept, env);
            AlwaysKept(sel, b.g.db) && Tidy(b.g.db, b.eventNo)
    decreases |idents| - i
  {
    hide Handle, Finish;
    var g1 := g.(db := Tick(g.db));
    FinishKeeps(g1, tbl, eventNo, if env.ok(g.db.clock) then 0 else -1, ept, env, sel);
    if env.ok(g.db.clock) && i < |idents| {
      HandleKeeps(g1, idents[i], tbl, eventNo, move, ept, env, sel);
      match Handle(g1, idents[i], tbl, eventNo, move, ept, env)
      case GivenUp(b) =>
      case Go(g2, tbl2, n) => IterateKeeps(g2, idents, i + 1, tbl2, n, move, ept, env, sel);
    }
  }

  lemma {:induction false} LoopKeeps(g: Globals, s: Settings, env: Env, sel: seq<Ident>)
    requires AlwaysKept(sel, g.db) && Tidy(g.db, 0) && s.ept < DELETE_TBL_SIZE
    ensures AlwaysKept(sel, Loop(g, s, env).g.db)
    decreases Remaining(g, s)
  {
    hide Iterate;
    var idents := Fetched(g, s);
    if env.ok(g.db.clock) && idents != [] {
      var g1 := Counted(g, |idents|);
      IterateKeeps(g1, idents, 0, [], 0, s.move, s.ept, env, sel);
      BatchProgress(g, s, env);
      var b := Iterate(g1, idents, 0, [], 0, s.move, s.ept, env);
      if b.ret >= 0 && !env.stop(b.g.db.clock) {
        LoopKeeps(b.g, s, env, sel);
      }
    }
  }

  // Databases as they are before a command.
  ghost predicate Closed(db: Db)
  {
    !db.inTransaction && db.pending == [] && db.log == []
  }

  // Every run of a move, whatever fails and wherever it stops, leaves each message in the source or committed in the
  // destination.
  ghost predicate MoveSafe(ept: nat)
  {
    forall db, offset, limit, env :: Closed(db) ==> MoveKeeps(db, ept, offset, limit, env)
  }

  ghost predicate MoveKeeps(db: Db, ept: nat, offset: nat, limit: int, env: Env)
  {
    AlwaysKept(db.src, Command(db, Settings(ept, offset, true), limit, env).g.db)
  }

  lemma SmallBatchesKeep(db: Db, ept: nat, offset: nat, limit: int, env: Env)
    requires Closed(db) && ept < DELETE_TBL_SIZE
    ensures MoveKeeps(db, ept, offset, limit, env)
  {
    hide Loop;
    var s := Settings(ept, offset, true);
    LoopKeeps(Globals(if ept > 1 then Begin(db) else db, 0, limit), s, env, db.src);
  }

  // ------------------------------------------------------------------------------------ larger batches may

  lemma {:induction false} LogGrows(g: Globals, idents: seq<Ident>, i: nat, tbl: seq<Ident>, eventNo: nat, move: bool,
                                    ept: nat, env: Env)
    requires i <= |idents|
    ensures g.db.log <= Iterate(g, idents, i, tbl, eventNo, move, ept, env).g.db.log
    decreases |idents| - i
  {
    hide Without;
    var g1 := g.(db := Tick(g.db));
    if env.ok(g.db.clock) && i < |idents| {
      match Handle(g1, idents[i], tbl, eventNo, move, ept, env)
      case GivenUp(b) =>
      case Go(g2, tbl2, n) => LogGrows(g2, idents, i + 1, tbl2, n, move, ept, env);
    }
  }

  lemma {:induction false} LoopLogGrows(g: Globals, s: Settings, env: Env)
    ensures g.db.log <= Loop(g, s, env).g.db.log
    decreases Remaining(g, s)
  {
    hide Iterate;
    var idents := Fetched(g, s);
    if env.ok(g.db.clock) && idents != [] {
      var g1 := Counted(g, |idents|);
      LogGrows(g1, idents, 0, [], 0, s.move, s.ept, env);
      BatchProgress(g, s, env);
      var b := Iterate(g1, idents, 0, [], 0, s.move, s.ept, env);
      if b.ret >= 0 && !env.stop(b.g.db.clock) {
        LoopLogGrows(b.g, s, env);
      }
    }
  }

  // At some moment id was in neither database.
  ghost predicate LostFor(id: Ident, log: seq<Snapshot>)
  {
    exists k :: 0 <= k < |log| && id !in log[k].src && id !in log[k].durable
  }

  // Everything succeeds, and nobody asks to stop.
  function Fair(): Env { Env(_ => true, (_, _) => false, _ => false) }

  // With the delete table full, messages of the open transaction are deleted from the source.
  lemma {:induction false} FullTableLoses(g: Globals, idents: seq<Ident>, i: nat, ept: nat)
    requires |idents| == DELETE_TBL_SIZE && i < DELETE_TBL_SIZE && ept >= DELETE_TBL_SIZE
    requires g.db.durable == [] && g.db.inTransaction
    ensures LostFor(idents[0], Iterate(g, idents, i, idents[..i], i, true, ept, Fair()).g.db.log)
    decreases DELETE_TBL_SIZE - i
  {
    hide Without;
    var env := Fair();
    var g1 := g.(db := Tick(g.db));
    var h := Handle(g1, idents[i], idents[..i], i, true, ept, env);
    assert idents[..i + 1] == idents[..i] + [idents[i]];
    if i + 1 < DELETE_TBL_SIZE {
      assert h.Go? && h.tbl == idents[..i + 1] && h.eventNo == i + 1;
      FullTableLoses(h.g, idents, i + 1, ept);
    } else {
      assert idents[..i + 1] == idents;
      var g3 := Insert(Tick(g1.db), idents[i]);
      var d := Delete(g3, idents, env);
      DeleteShrinks(g3, idents, env);
      var k := |g3.log|;
      assert d.log[k] == Snapshot(d.src, d.durable) && idents[0] in idents;
      assert h.Go? && d.log <= h.g.db.log;
      LogGrows(h.g, idents, i + 1, h.tbl, h.eventNo, true, ept, env);
      var b := Iterate(h.g, idents, i + 1, h.tbl, h.eventNo, true, ept, env);
      assert Iterate(g, idents, i, idents[..i], i, true, ept, env) == b;
      assert h.g.db.log <= b.g.db.log;
      assert b.g.db.log[k] == d.log[k];
    }
  }

  // The messages 0 to n - 1.
  function Numbers(n: nat): seq<Ident> { seq(n, i => i) }

  lemma LargeBatchesLose(ept: nat)
    requires ept >= DELETE_TBL_SIZE
    ensures var db := Db(Numbers(DELETE_TBL_SIZE), [], [], false, 0, []);
            Closed(db) && !MoveKeeps(db, ept, 0, -1, Fair())
  {
    var db := Db(Numbers(DELETE_TBL_SIZE), [], [], false, 0, []);
    var s, env := Settings(ept, 0, true), Fair();
    var g := Globals(Begin(db), 0, -1);
    var idents := Fetched(g, s);
    assert idents == db.src;
    var g1 := Counted(g, |idents|);
    assert idents[..0] == [];
    FullTableLoses(g1, idents, 0, ept);
    BatchProgress(g, s, env);
    var b := Iterate(g1, idents, 0, [], 0, true, ept, env);
    hide Iterate;
    if b.ret >= 0 { LoopLogGrows(b.g, s, env); }
    var all := Loop(g, s, env);
    assert b.g.db.log <= all.g.db.log;
    var k :| 0 <= k < |b.g.db.log| && idents[0] !in b.g.db.log[k].src && idents[0] !in b.g.db.log[k].durable;
    var end := Command(db, s, -1, env);
    assert end.g.db.log[k] == b.g.db.log[k];
    assert idents[0] in db.src;
  }

  // A move is safe exactly when a transaction is of less than 1024 messages; the default of 1000 is.
  lemma MoveSafeExactly(ept: nat)
    ensures MoveSafe(ept) <==> ept < DELETE_TBL_SIZE
  {
    hide MoveKeeps, Closed;
    if ept < DELETE_TBL_SIZE {
      forall db, offset, limit, env | Closed(db)
        ensures MoveKeeps(db, ept, offset, limit, env)
      {
        SmallBatchesKeep(db, ept, offset, limit, env);
      }
    } else {
      LargeBatchesLose(ept);
    }
  }

  // ------------------------------------------------------------------------------------ copies

  // What the destination holds after a whole copy from an offset.
  function Whole(base: seq<Ident>, src: seq<Ident>, offset: nat): seq<Ident>
  {
    base + if offset < |src| then src[offset..] else []
  }

  // The counted messages are durable and the others are in the open transaction, in order, from the b-th of total on.
  ghost predicate CopiedSoFar(g: Globals, eventNo: nat, total: seq<Ident>, b: nat, ept: nat)
  {
    && b + g.curCount + eventNo <= |total| && eventNo < ept
    && g.db.durable == total[..b + g.curCount]
    && g.db.pending == total[b + g.curCount..b + g.curCount + eventNo]
    && (g.db.inTransaction || ept == 1)
  }

  lemma FlushCopies(g: Globals, eventNo: nat, ept: nat, total: seq<Ident>, b: nat)
    requires CopiedSoFar(g, eventNo, total, b, ept)
    ensures var (h, n) := Flush(g, eventNo, 0, ept);
            CopiedSoFar(h, n, total, b, ept) && n == 0 && h.curCount == g.curCount + eventNo
  {
    var c := b + g.curCount;
    assert total[..c] + total[c..c + eventNo] == total[..c + eventNo];
  }

  lemma HandleCopies(g: Globals, id: Ident, tbl: seq<Ident>, eventNo: nat, move: bool, ept: nat, env: Env,
                     total: seq<Ident>, b: nat)
    requires CopiedSoFar(g, eventNo, total, b, ept) && (move ==> |tbl| + 1 < DELETE_TBL_SIZE)
    requires b + g.curCount + eventNo < |total| && id == total[b + g.curCount + eventNo]
    ensures match Handle(g, id, tbl, eventNo, move, ept, env)
            case GivenUp(x) => CopiedSoFar(x.g, x.eventNo, total, b, ept) && x.g.curCount == g.curCount && x.ret < 0
            case Go(h, tbl', n) =>
              && CopiedSoFar(h, n, total, b, ept) && h.curCount + n == g.curCount + eventNo + 1
              && h.db.src == g.db.src && tbl' == if move then tbl + [id] else tbl
  {
    var c := b + g.curCount;
    assert total[c..c + eventNo + 1] == total[c..c + eventNo] + [id];
    assert total[..c] + total[c..c + eventNo + 1] == total[..c + eventNo + 1];
  }

  // The source without the listed messages.
  function Removed(src: seq<Ident>, tbl: seq<Ident>): seq<Ident> { Without(src, tbl, true, _ => false) }

  lemma {:induction false} RemovedAnyway(src: seq<Ident>, tbl: seq<Ident>, gone: Ident -> bool)
    ensures Without(src, tbl, true, gone) == Removed(src, tbl)
  {
    if src != [] { RemovedAnyway(src[1..], tbl, gone); }
  }

  lemma FinishCopies(g: Globals, tbl: seq<Ident>, eventNo: nat, ret: int, ept: nat, env: Env, total: seq<Ident>, b: nat)
    requires CopiedSoFar(g, eventNo, total, b, ept)
    ensures var x := Finish(g, tbl, eventNo, ret, ept, env);
            && CopiedSoFar(x.g, x.eventNo, total, b, ept) && x.eventNo == 0 && x.g.curCount == g.curCount + eventNo
            && (x.ret >= 0 ==> ret >= 0 && x.g.db.src == if tbl == [] then g.db.src else Removed(g.db.src, tbl))
  {
    FlushCopies(g, eventNo, ept, total, b);
    var db := Flush(g, eventNo, 0, ept).0.db;
    RemovedAnyway(g.db.src, tbl, id => env.gone(db.clock, id));
    hide Without;
  }

  lemma TickCopies(g: Globals, eventNo: nat, ept: nat, total: seq<Ident>, b: nat)
    requires CopiedSoFar(g, eventNo, total, b, ept)
    ensures CopiedSoFar(g.(db := Tick(g.db)), eventNo, total, b, ept) && eventNo < ept
  {
  }

  // A batch adds its messages to the destination in order, as far as it gets; a move then removes them all.
  lemma {:induction false} IterateCopies(g: Globals, idents: seq<Ident>, i: nat, tbl: seq<Ident>, eventNo: nat,
                                         move: bool,
                                         ept: nat, env: Env, total: seq<Ident>, b: nat)
    requires CopiedSoFar(g, eventNo, total, b, ept) && i <= |idents|
    requires tbl == (if move then idents[..i] else []) && (move ==> |idents| < DELETE_TBL_SIZE)
    requires b + g.curCount + eventNo + |idents| - i <= |total|
    requires idents[i..] == total[b + g.curCount + eventNo..b + g.curCount + eventNo + |idents| - i]
    ensures var x := Iterate(g, idents, i, tbl, eventNo, move, ept, env);
            && CopiedSoFar(x.g, x.eventNo, total, b, ept)
            && x.g.curCount <= g.curCount + eventNo + |idents| - i
            && (x.ret >= 0 ==> x.eventNo == 0 && x.g.curCount == g.curCount + eventNo + |idents| - i)
            && (x.ret >= 0 ==> x.g.db.src == if move && idents != [] then Removed(g.db.src, idents) else g.db.src)
    decreases |idents| - i
  {
    hide Handle, Finish, CopiedSoFar, Without, Removed;
    var g1 := g.(db := Tick(g.db));
    TickCopies(g, eventNo, ept, total, b);
    FinishCopies(g1, tbl, eventNo, if env.ok(g.db.clock) then 0 else -1, ept, env, total, b);
    if i == |idents| { assert idents[..i] == idents; }
    if env.ok(g.db.clock) && i < |idents| {
      assert idents[i] == idents[i..][0];
      HandleCopies(g1, idents[i], tbl, eventNo, move, ept, env, total, b);
      match Handle(g1, idents[i], tbl, eventNo, move, ept, env)
      case GivenUp(x) =>
      case Go(g2, tbl2, n) =>
        assert idents[i + 1..] == idents[i..][1..];
        assert idents[..i + 1] == idents[..i] + [idents[i]];
        IterateCopies(g2, idents, i + 1, tbl2, n, move, ept, env, total, b);
    }
  }

  // What the count limit still allows.
  ghost predicate Allowed(g: Globals, limit: int)
  {
    if limit < 0 then g.limitCopy < 0 else g.limitCopy == limit - g.curCount >= 0
  }

  // How many messages a copy that meets no trouble copies.
  function Target(src: seq<Ident>, offset: nat, limit: int): nat
  {
    var n := if offset < |src| then |src| - offset else 0;
    if limit < 0 then n else Min(n, limit)
  }

  // What is left in the source when c messages have been dealt with: a copy leaves them all.
  function Left(src: seq<Ident>, s: Settings, c: nat): seq<Ident>
  {
    if s.move && s.offset + c <= |src| then src[..s.offset] + src[s.offset + c..] else src
  }

  ghost predicate Distinct(src: seq<Ident>)
  {
    forall i, j :: 0 <= i < j < |src| ==> src[i] != src[j]
  }

  lemma {:induction false} WithoutConcat(s: seq<Ident>, t: seq<Ident>, tbl: seq<Ident>)
    ensures Removed(s + t, tbl) == Removed(s, tbl) + Removed(t, tbl)
  {
    if s == [] {
      assert s + t == t;
    } else {
      assert (s + t)[0] == s[0] && (s + t)[1..] == s[1..] + t;
      WithoutConcat(s[1..], t, tbl);
    }
  }

  ghost predicate NoneIn(s: seq<Ident>, tbl: seq<Ident>)
  {
    forall id :: id in s ==> id !in tbl
  }

  lemma {:induction false} WithoutOthers(s: seq<Ident>, tbl: seq<Ident>)
    ensures NoneIn(s, tbl) ==> Removed(s, tbl) == s
    ensures (forall id :: id in s ==> id in tbl) ==> Removed(s, tbl) == []
  {
    if s != [] {
      WithoutOthers(s[1..], tbl);
      assert s == [s[0]] + s[1..] && forall id :: id in s <==> id == s[0] || id in s[1..];
    }
  }

  lemma NotInStretch(s: seq<Ident>, i: nat, o: nat, k: nat)
    requires Distinct(s) && o + k <= |s| && i < |s| && !(o <= i < o + k)
    ensures s[i] !in s[o..o + k]
  {
    var tbl := s[o..o + k];
    assert forall j :: 0 <= j < k ==> tbl[j] == s[o + j];
  }

  lemma OthersDiffer(s: seq<Ident>, o: nat, k: nat)
    requires Distinct(s) && o + k <= |s|
    ensures NoneIn(s[..o], s[o..o + k]) && NoneIn(s[o + k..], s[o..o + k])
  {
    hide Distinct;
    var tbl, front, back := s[o..o + k], s[..o], s[o + k..];
    forall id | id in front
      ensures id !in tbl
    {
      var i :| 0 <= i < |front| && front[i] == id;
      NotInStretch(s, i, o, k);
    }
    forall id | id in back
      ensures id !in tbl
    {
      var i :| 0 <= i < |back| && back[i] == id;
      NotInStretch(s, o + k + i, o, k);
    }
  }

  // Removing a stretch of distinct messages leaves what is before and after it.
  lemma RemovedStretch(s: seq<Ident>, o: nat, k: nat)
    requires Distinct(s) && o + k <= |s|
    ensures Removed(s, s[o..o + k]) == s[..o] + s[o + k..]
  {
    hide Removed, Distinct;
    var tbl, front, back := s[o..o + k], s[..o], s[o + k..];
    OthersDiffer(s, o, k);
    assert s == front + (tbl + back);
    WithoutConcat(front, tbl + back, tbl);
    WithoutConcat(tbl, back, tbl);
    WithoutOthers(front, tbl);
    WithoutOthers(tbl, tbl);
    WithoutOthers(back, tbl);
    assert [] + back == back;
  }

  lemma LeftShrinks(src: seq<Ident>, s: Settings, c: nat, k: nat)
    requires s.move && s.offset + c + k <= |src| && Distinct(src)
    ensures Removed(Left(src, s, c), src[s.offset + c..s.offset + c + k]) == Left(src, s, c + k)
  {
    hide Removed;
    var left, o := Left(src, s, c), s.offset;
    assert left[o..o + k] == src[o + c..o + c + k];
    assert Distinct(left);
    RemovedStretch(left, o, k);
    assert left[..o] == src[..o] && left[o + k..] == src[o + c + k..];
  }

  lemma {:induction false} LoopCopies(g: Globals, s: Settings, env: Env, base: seq<Ident>, src: seq<Ident>, limit: int)
    requires 0 < s.ept && (s.move ==> s.ept < DELETE_TBL_SIZE && Distinct(src)) && Allowed(g, limit)
    requires g.db.src == Left(src, s, g.curCount)
    requires CopiedSoFar(g, 0, Whole(base, src, s.offset), |base|, s.ept)
    ensures var x := Loop(g, s, env);
            && CopiedSoFar(x.g, x.eventNo, Whole(base, src, s.offset), |base|, s.ept)
            && x.g.curCount <= Target(src, s.offset, limit)
            && (!s.move || x.ret >= 0 ==> x.g.db.src == Left(src, s, x.g.curCount))
            && (x.ret >= 0 ==> x.eventNo == 0)
            && (x.ret >= 0 && (forall t :: !env.stop(t)) ==> x.g.curCount == Target(src, s.offset, limit))
    decreases Remaining(g, s)
  {
    hide Iterate, CopiedSoFar, Removed, Left, Distinct, Whole;
    var total, b, idents := Whole(base, src, s.offset), |base|, Fetched(g, s);
    FetchedIsNext(g, s, base, src);
    CountInTarget(g, 0, s, base, src, limit);
    TickCopies(g, 0, s.ept, total, b);
    if env.ok(g.db.clock) && idents != [] {
      var g1 := Counted(g, |idents|);
      CountedCopies(g, |idents|, s.ept, total, b);
      assert idents[0..] == idents && idents[..0] == [];
      IterateCopies(g1, idents, 0, [], 0, s.move, s.ept, env, total, b);
      BatchProgress(g, s, env);
      var x := Iterate(g1, idents, 0, [], 0, s.move, s.ept, env);
      if s.move {
        LeftShrinks(src, s, g.curCount, |idents|);
      } else {
        IterateDone(g1, idents, 0, [], 0, false, s.ept, env);
      }
      LeftOfCopy(src, s, g.curCount, x.g.curCount);
      if x.ret >= 0 && !env.stop(x.g.db.clock) {
        IterateLimit(g1, idents, 0, [], 0, s.move, s.ept, env);
        LoopCopies(x.g, s, env, base, src, limit);
      }
    } else if idents == [] {
      CountedCopies(g, 0, s.ept, total, b);
    }
  }

  lemma LeftOfCopy(src: seq<Ident>, s: Settings, c: nat, c': nat)
    ensures !s.move ==> Left(src, s, c) == Left(src, s, c')
  {
  }

  lemma CountedCopies(g: Globals, count: nat, ept: nat, total: seq<Ident>, b: nat)
    requires CopiedSoFar(g, 0, total, b, ept)
    ensures CopiedSoFar(Counted(g, count), 0, total, b, ept)
  {
  }

  // Past what is gone, the rest of the source has moved up.
  lemma SliceLeft(src: seq<Ident>, s: Settings, c: nat, limit: nat)
    requires s.move && (c == 0 || s.offset + c <= |src|)
    ensures Slice(Left(src, s, c), limit, s.offset) == Slice(src, limit, s.offset + c)
  {
    if s.offset + c <= |src| {
      var left, o := Left(src, s, c), s.offset;
      assert left[o..] == src[o + c..];
      assert limit <= |left| - o ==>
          left[o..o + limit] == left[o..][..limit] && src[o + c..o + c + limit] == src[o + c..][..limit];
    }
  }

  lemma WholeSlice(base: seq<Ident>, src: seq<Ident>, o: nat, c: nat, limit: nat)
    requires |base| + c <= |Whole(base, src, o)|
    ensures var next := Slice(src, limit, o + c);
            && |base| + c + |next| <= |Whole(base, src, o)|
            && next == Whole(base, src, o)[|base| + c..|base| + c + |next|]
            && |next| == (if o < |src| then Min(limit, |src| - o - c) else 0)
            && (next != [] ==> o + c + |next| <= |src| && next == src[o + c..o + c + |next|])
  {
  }

  lemma CountBound(g: Globals, ept: nat, base: seq<Ident>, src: seq<Ident>, o: nat)
    requires CopiedSoFar(g, 0, Whole(base, src, o), |base|, ept)
    ensures (g.curCount == 0 || o + g.curCount <= |src|) && |base| + g.curCount <= |Whole(base, src, o)|
  {
  }

  // What is fetched are the next messages, as many as the limits allow.
  lemma FetchedIsNext(g: Globals, s: Settings, base: seq<Ident>, src: seq<Ident>)
    requires g.db.src == Left(src, s, g.curCount)
    requires CopiedSoFar(g, 0, Whole(base, src, s.offset), |base|, s.ept)
    ensures var total, c, k := Whole(base, src, s.offset), |base| + g.curCount, |Fetched(g, s)|;
            && k <= s.ept && c + k <= |total| && Fetched(g, s) == total[c..c + k]
            && (k > 0 ==> s.offset + g.curCount + k <= |src|
                          && Fetched(g, s) == src[s.offset + g.curCount..s.offset + g.curCount + k])
            && k == if s.offset < |src| then Min(FetchLimit(g, s.ept), |src| - s.offset - g.curCount) else 0
  {
    hide Slice, Whole, CopiedSoFar, Left;
    var o, c, limit := s.offset, g.curCount, FetchLimit(g, s.ept);
    CountBound(g, s.ept, base, src, o);
    if s.move { SliceLeft(src, s, c, limit); } else { LeftOfCopy(src, s, c, 0); LeftAtStart(src, s); }
    WholeSlice(base, src, o, c, limit);
  }

  lemma CountInTarget(g: Globals, eventNo: nat, s: Settings, base: seq<Ident>, src: seq<Ident>, limit: int)
    requires CopiedSoFar(g, eventNo, Whole(base, src, s.offset), |base|, s.ept) && Allowed(g, limit)
    ensures g.curCount <= Target(src, s.offset, limit)
  {
  }

  lemma {:induction false} IterateLimit(g: Globals, idents: seq<Ident>, i: nat, tbl: seq<Ident>, eventNo: nat,
                                        move: bool,
                                        ept: nat, env: Env)
    requires i <= |idents|
    ensures Iterate(g, idents, i, tbl, eventNo, move, ept, env).g.limitCopy == g.limitCopy
    decreases |idents| - i
  {
    hide Without;
    var g1 := g.(db := Tick(g.db));
    if env.ok(g.db.clock) && i < |idents| {
      match Handle(g1, idents[i], tbl, eventNo, move, ept, env)
      case GivenUp(b) =>
      case Go(g2, tbl2, n) => IterateLimit(g2, idents, i + 1, tbl2, n, move, ept, env);
    }
  }

  // The end of the command keeps the counted messages and no others.
  lemma EndCopies(x: Batch, ept: nat, total: seq<Ident>, b: nat)
    requires CopiedSoFar(x.g, x.eventNo, total, b, ept) && (x.ret >= 0 ==> x.eventNo == 0)
    ensures var y := TransactionEnd(x, ept);
            && y.g.curCount == x.g.curCount && y.g.db.src == x.g.db.src && y.ret == x.ret
            && y.g.db.durable == total[..b + x.g.curCount] && y.g.db.pending == []
  {
  }

  lemma WholePrefix(base: seq<Ident>, src: seq<Ident>, offset: nat, n: nat)
    requires |base| + n <= |Whole(base, src, offset)|
    ensures Whole(base, src, offset)[..|base| + n] == base + Slice(src, n, offset)
  {
  }

  // However a copy ends, the destination has gained exactly the counted messages from the offset on, in order and
  // never more than the limit; a copy that ends well has copied all there is to copy.
  lemma CopiesSlice(db: Db, ept: nat, offset: nat, limit: int, env: Env)
    requires Closed(db) && ept > 0
    ensures var x := Command(db, Settings(ept, offset, false), limit, env);
            var n := x.g.curCount;
            && x.g.db.src == db.src && n <= Target(db.src, offset, limit)
            && x.g.db.durable == db.durable + Slice(db.src, n, offset) && x.g.db.pending == []
            && (x.ret >= 0 && (forall t :: !env.stop(t)) ==> n == Target(db.src, offset, limit))
  {
    var s := Settings(ept, offset, false);
    var g := Globals(if ept > 1 then Begin(db) else db, 0, limit);
    var total, b := Whole(db.durable, db.src, offset), |db.durable|;
    StartCopies(g, ept, db.durable, total);
    hide Loop, TransactionEnd, CopiedSoFar, Whole, Slice, Target;
    LoopCopies(g, s, env, db.durable, db.src, limit);
    var x := Loop(g, s, env);
    EndCopies(x, ept, total, b);
    CopiedFits(x, ept, total, b);
    WholePrefix(db.durable, db.src, offset, x.g.curCount);
  }

  // The source without n messages from an offset on.
  function WithoutStretch(src: seq<Ident>, offset: nat, n: nat): seq<Ident>
  {
    if offset + n <= |src| then src[..offset] + src[offset + n..] else src
  }

  // However a move ends, the destination has likewise gained exactly the counted messages, in order; if it ends well
  // the source has lost these and no others.
  lemma MovesSlice(db: Db, ept: nat, offset: nat, limit: int, env: Env)
    requires Closed(db) && Distinct(db.src) && 0 < ept < DELETE_TBL_SIZE
    ensures var x := Command(db, Settings(ept, offset, true), limit, env);
            var n := x.g.curCount;
            && n <= Target(db.src, offset, limit)
            && x.g.db.durable == db.durable + Slice(db.src, n, offset) && x.g.db.pending == []
            && (x.ret >= 0 ==> x.g.db.src == WithoutStretch(db.src, offset, n))
            && (x.ret >= 0 && (forall t :: !env.stop(t)) ==> n == Target(db.src, offset, limit))
  {
    var s := Settings(ept, offset, true);
    var g := Globals(if ept > 1 then Begin(db) else db, 0, limit);
    var total, b := Whole(db.durable, db.src, offset), |db.durable|;
    StartCopies(g, ept, db.durable, total);
    LeftAtStart(db.src, s);
    hide Loop, TransactionEnd, CopiedSoFar, Whole, Slice, Left;
    LoopCopies(g, s, env, db.durable, db.src, limit);
    var x := Loop(g, s, env);
    EndCopies(x, ept, total, b);
    CopiedFits(x, ept, total, b);
    WholePrefix(db.durable, db.src, offset, x.g.curCount);
    LeftAfter(db.src, s, x.g.curCount, limit);
  }

  lemma LeftAtStart(src: seq<Ident>, s: Settings)
    ensures Left(src, s, 0) == src
  {
    if s.offset <= |src| { assert src[..s.offset] + src[s.offset..] == src; }
  }

  lemma LeftAfter(src: seq<Ident>, s: Settings, n: nat, limit: int)
    requires s.move && n <= Target(src, s.offset, limit)
    ensures Left(src, s, n) == WithoutStretch(src, s.offset, n)
  {
  }

  lemma StartCopies(g: Globals, ept: nat, base: seq<Ident>, total: seq<Ident>)
    requires g.curCount == 0 && g.db.durable == base && g.db.pending == []
    requires ept > 0 && (g.db.inTransaction || ept == 1)
    requires base <= total
    ensures CopiedSoFar(g, 0, total, |base|, ept)
  {
  }

  lemma CopiedFits(x: Batch, ept: nat, total: seq<Ident>, b: nat)
    requires CopiedSoFar(x.g, x.eventNo, total, b, ept)
    ensures b + x.g.curCount <= |total|
  {
  }

  lemma {:induction false} IterateSucceeds(g: Globals, idents: seq<Ident>, i: nat, tbl: seq<Ident>, eventNo: nat,
                                           move: bool,
                                           ept: nat, env: Env)
    requires i <= |idents| && forall t :: env.ok(t)
    ensures Iterate(g, idents, i, tbl, eventNo, move, ept, env).ret == 0
    decreases |idents| - i
  {
    hide Without;
    var g1 := g.(db := Tick(g.db));
    if i < |idents| {
      var h := Handle(g1, idents[i], tbl, eventNo, move, ept, env);
      IterateSucceeds(h.g, idents, i + 1, h.tbl, h.eventNo, move, ept, env);
    }
  }

  // A command during which nothing fails ends well.
  lemma {:induction false} LoopSucceeds(g: Globals, s: Settings, env: Env)
    requires forall t :: env.ok(t)
    ensures Loop(g, s, env).ret == 0
    decreases Remaining(g, s)
  {
    hide Iterate;
    var idents := Fetched(g, s);
    if idents != [] {
      var g1 := Counted(g, |idents|);
      IterateSucceeds(g1, idents, 0, [], 0, s.move, s.ept, env);
      BatchProgress(g, s, env);
      var b := Iterate(g1, idents, 0, [], 0, s.move, s.ept, env);
      if !env.stop(b.g.db.clock) { LoopSucceeds(b.g, s, env); }
    }
  }

  lemma CommandSucceeds(db: Db, s: Settings, limit: int, env: Env)
    requires forall t :: env.ok(t)
    ensures Command(db, s, limit, env).ret == 0
  {
    hide Loop;
    LoopSucceeds(Globals(if s.ept > 1 then Begin(db) else db, 0, limit), s, env);
  }

  // The databases of a finished command, opened again.
  function Reopened(db: Db): Db { db.(inTransaction := false, pending := [], log := []) }

  lemma SlicesJoin(src: seq<Ident>, n: nat, m: nat, offset: nat)
    ensures Slice(src, n, offset) + Slice(src, m, offset + n) == Slice(src, n + m, offset)
  {
  }

  lemma TargetsJoin(src: seq<Ident>, offset: nat, limit: int, n: nat)
    requires n <= Target(src, offset, limit)
    ensures Target(src, offset, limit) == n + Target(src, offset + n, if limit < 0 then limit else limit - n)
  {
  }

  // Resuming at the reported offset, in a run that meets no trouble, completes the copy wherever it was interrupted.
  lemma ResumeCompletes(db: Db, ept: nat, offset: nat, limit: int, env: Env, env2: Env)
    requires Closed(db) && ept > 0 && forall t :: env2.ok(t) && !env2.stop(t)
    ensures var x := Command(db, Settings(ept, offset, false), limit, env);
            var n := x.g.curCount;
            var y := Command(Reopened(x.g.db), Settings(ept, offset + n, false),
                             if limit < 0 then limit else limit - n, env2);
            y.ret == 0 && y.g.db.durable == db.durable + Slice(db.src, Target(db.src, offset, limit), offset)
  {
    hide Command, Slice, Target;
    CopiesSlice(db, ept, offset, limit, env);
    var x := Command(db, Settings(ept, offset, false), limit, env);
    var n := x.g.curCount;
    var limit2 := if limit < 0 then limit else limit - n;
    CommandSucceeds(Reopened(x.g.db), Settings(ept, offset + n, false), limit2, env2);
    CopiesSlice(Reopened(x.g.db), ept, offset + n, limit2, env2);
    var m := Target(db.src, offset + n, limit2);
    SlicesJoin(db.src, n, m, offset);
    TargetsJoin(db.src, offset, limit, n);
  }

  // ------------------------------------------------------------------------------------ resuming a move

  // All there is to move has been added to the destination, in order, and is gone from the source.
  ghost predicate MoveComplete(before: Db, after: Db, offset: nat, limit: int)
  {
    var n := Target(before.src, offset, limit);
    after.durable == before.durable + Slice(before.src, n, offset) && after.src == WithoutStretch(before.src, offset, n)
  }

  // A move that ended well, but perhaps early, and then one that meets no trouble, at an offset of its own.
  function Resumed(db: Db, ept: nat, offset: nat, limit: int, env: Env, offset2: nat, env2: Env): Batch
  {
    var x := Command(db, Settings(ept, offset, true), limit, env);
    Command(Reopened(x.g.db), Settings(ept, offset2, true), if limit < 0 then limit else limit - x.g.curCount, env2)
  }

  lemma StretchDistinct(src: seq<Ident>, offset: nat, n: nat)
    requires Distinct(src)
    ensures Distinct(WithoutStretch(src, offset, n))
  {
  }

  // What the two runs do together.
  lemma ResumedSlices(db: Db, ept: nat, offset: nat, limit: int, env: Env, offset2: nat, env2: Env)
    requires Closed(db) && Distinct(db.src) && 0 < ept < DELETE_TBL_SIZE && forall t :: env2.ok(t) && !env2.stop(t)
    requires Command(db, Settings(ept, offset, true), limit, env).ret >= 0
    ensures var n := Command(db, Settings(ept, offset, true), limit, env).g.curCount;
            var y, rest := Resumed(db, ept, offset, limit, env, offset2, env2), WithoutStretch(db.src, offset, n);
            var m := Target(rest, offset2, if limit < 0 then limit else limit - n);
            && n <= Target(db.src, offset, limit) && y.ret == 0
            && y.g.db.durable == db.durable + Slice(db.src, n, offset) + Slice(rest, m, offset2)
            && y.g.db.src == WithoutStretch(rest, offset2, m)
  {
    hide Command, Slice, Target, Distinct, WithoutStretch;
    MovesSlice(db, ept, offset, limit, env);
    var x := Command(db, Settings(ept, offset, true), limit, env);
    var limit2 := if limit < 0 then limit else limit - x.g.curCount;
    StretchDistinct(db.src, offset, x.g.curCount);
    CommandSucceeds(Reopened(x.g.db), Settings(ept, offset2, true), limit2, env2);
    MovesSlice(Reopened(x.g.db), ept, offset2, limit2, env2);
  }

  // Taking n messages and then m more from the same place is taking n + m.
  lemma StretchesAdd(src: seq<Ident>, o: nat, n: nat, m: nat)
    requires o + n + m <= |src|
    ensures var rest := WithoutStretch(src, o, n);
            && |rest| == |src| - n && rest[o..o + m] == src[o + n..o + n + m]
            && WithoutStretch(rest, o, m) == WithoutStretch(src, o, n + m)
  {
    var front, back := src[..o], src[o + n..];
    var rest := front + back;
    assert rest[..o] == front && rest[o..o + m] == back[..m];
    assert rest[o + m..] == back[m..] == src[o + n + m..];
  }

  lemma SliceOf(src: seq<Ident>, n: nat, o: nat)
    requires o + n <= |src|
    ensures Slice(src, n, o) == src[o..o + n]
  {
  }

  // Moving n messages and then the rest from the same offset is moving all.
  lemma StretchesJoin(src: seq<Ident>, offset: nat, limit: int, n: nat)
    requires n <= Target(src, offset, limit)
    ensures var rest, t := WithoutStretch(src, offset, n), Target(src, offset, limit);
            var m := Target(rest, offset, if limit < 0 then limit else limit - n);
            && t == n + m && Slice(src, n, offset) + Slice(rest, m, offset) == Slice(src, t, offset)
            && WithoutStretch(rest, offset, m) == WithoutStretch(src, offset, t)
  {
    hide WithoutStretch, Slice;
    var rest, t := WithoutStretch(src, offset, n), Target(src, offset, limit);
    if offset < |src| {
      StretchesAdd(src, offset, n, t - n);
      SliceOf(src, n, offset);
      SliceOf(src, t, offset);
      SliceOf(rest, t - n, offset);
      assert src[offset..offset + n] + src[offset + n..offset + t] == src[offset..offset + t];
    } else {
      NothingMoved(src, offset, limit);
    }
  }

  // A move that was interrupted is completed by repeating it with the offset it had.
  lemma RepeatCompletesMove(db: Db, ept: nat, offset: nat, limit: int, env: Env, env2: Env)
    requires Closed(db) && Distinct(db.src) && 0 < ept < DELETE_TBL_SIZE && forall t :: env2.ok(t) && !env2.stop(t)
    requires Command(db, Settings(ept, offset, true), limit, env).ret >= 0
    ensures MoveComplete(db, Resumed(db, ept, offset, limit, env, offset, env2).g.db, offset, limit)
  {
    hide Command, Slice, Target, Distinct, WithoutStretch, Resumed;
    ResumedSlices(db, ept, offset, limit, env, offset, env2);
    StretchesJoin(db.src, offset, limit, Command(db, Settings(ept, offset, true), limit, env).g.curCount);
  }

  // Going on behind the messages that are gone skips as many again, unless none or all are gone.
  lemma SkipsStretch(src: seq<Ident>, offset: nat, limit: int, n: nat)
    requires Distinct(src) && 0 < n < Target(src, offset, limit)
    ensures var rest := WithoutStretch(src, offset, n);
            var m := Target(rest, offset + n, if limit < 0 then limit else limit - n);
            Slice(src, n, offset) + Slice(rest, m, offset + n) != Slice(src, Target(src, offset, limit), offset)
  {
    var rest, t := WithoutStretch(src, offset, n), Target(src, offset, limit);
    var m := Target(rest, offset + n, if limit < 0 then limit else limit - n);
    var got, all := Slice(src, n, offset) + Slice(rest, m, offset + n), Slice(src, t, offset);
    assert all[n] == src[offset + n];
    if |got| > n {
      assert got[n] == rest[offset + n] == src[offset + 2 * n];
    }
  }

  lemma NothingMoved(src: seq<Ident>, offset: nat, limit: int)
    ensures WithoutStretch(src, offset, 0) == src && Slice(src, 0, offset) == []
  {
    if offset <= |src| { assert src[..offset] + src[offset..] == src; }
  }

  // With every message gone that was to be moved, the second run finds nothing from behind them on.
  lemma AllMoved(src: seq<Ident>, offset: nat, limit: int)
    ensures var n := Target(src, offset, limit);
            Target(WithoutStretch(src, offset, n), offset + n, if limit < 0 then limit else limit - n) == 0 || n == 0
  {
  }

  // Resuming an interrupted move at the offset that is reported completes it only if nothing or everything has been
  // moved before, since the source has lost what has been moved.
  lemma ResumeMoveExactly(db: Db, ept: nat, offset: nat, limit: int, env: Env, env2: Env)
    requires Closed(db) && Distinct(db.src) && 0 < ept < DELETE_TBL_SIZE && forall t :: env2.ok(t) && !env2.stop(t)
    requires Command(db, Settings(ept, offset, true), limit, env).ret >= 0
    ensures var n := Command(db, Settings(ept, offset, true), limit, env).g.curCount;
            MoveComplete(db, Resumed(db, ept, offset, limit, env, offset + n, env2).g.db, offset, limit) <==>
            n == 0 || n == Target(db.src, offset, limit)
  {
    hide Command, Slice, Target, Distinct, WithoutStretch, Resumed;
    var n := Command(db, Settings(ept, offset, true), limit, env).g.curCount;
    ResumedSlices(db, ept, offset, limit, env, offset + n, env2);
    if n == 0 {
      StretchesJoin(db.src, offset, limit, 0);
    } else if n == Target(db.src, offset, limit) {
      AllMoved(db.src, offset, limit);
      var rest := WithoutStretch(db.src, offset, n);
      NothingMoved(rest, offset + n, limit);
      assert db.durable + Slice(db.src, n, offset) + [] == db.durable + Slice(db.src, n, offset);
    } else {
      SkipsStretch(db.src, offset, limit, n);
      var y := Resumed(db, ept, offset, limit, env, offset + n, env2);
      var rest := WithoutStretch(db.src, offset, n);
      var m := Target(rest, offset + n, if limit < 0 then limit else limit - n);
      AppendedDiffer(db.durable, Slice(db.src, n, offset), Slice(rest, m, offset + n),
                     Slice(db.src, Target(db.src, offset, limit), offset));
    }
  }

  lemma AppendedDiffer(base: seq<Ident>, a: seq<Ident>, b: seq<Ident>, c: seq<Ident>)
    requires a + b != c
    ensures base + a + b != base + c
  {
    assert (base + a + b)[|base|..] == a + b && (base + c)[|base|..] == c;
  }

  // Someone asks to stop, and nothing fails.
  function Stopping(): Env { Env(_ => true, (_, _) => false, _ => true) }

  // A batch of one message in a transaction of its own.
  lemma SingleMove(g: Globals, id: Ident, env: Env)
    requires forall t :: env.ok(t)
    ensures var b := Iterate(g, [id], 0, [], 0, true, 1, env);
            b.ret == 0 && b.g.curCount == g.curCount + 1
  {
    hide Without, Insert, Delete, Commit, Begin;
    var h := Handle(g.(db := Tick(g.db)), id, [], 0, true, 1, env);
    assert h.Go? && h.eventNo == 0 && h.g.curCount == g.curCount + 1;
    hide Handle;
    assert Iterate(g, [id], 0, [], 0, true, 1, env) == Iterate(h.g, [id], 1, h.tbl, h.eventNo, true, 1, env);
  }

  // Three messages, a move of one a transaction that is stopped after the first, and resumed as told: the second
  // message stays behind.
  lemma ResumedMoveSkips()
    ensures var db := Db([0, 1, 2], [], [], false, 0, []);
            var x := Command(db, Settings(1, 0, true), -1, Stopping());
            && Closed(db) && x.ret >= 0 && x.g.curCount == 1
            && !MoveComplete(db, Resumed(db, 1, 0, -1, Stopping(), 1, Fair()).g.db, 0, -1)
  {
    hide Iterate, MoveComplete, Resumed;
    var db := Db([0, 1, 2], [], [], false, 0, []);
    var s, env := Settings(1, 0, true), Stopping();
    var g := Globals(db, 0, -1);
    assert Fetched(g, s) == [0];
    SingleMove(Counted(g, 1), 0, env);
    var b := Iterate(Counted(g, 1), [0], 0, [], 0, true, 1, env);
    assert Command(db, s, -1, env) == b;
    hide Command, Loop;
    ResumeMoveExactly(db, 1, 0, -1, env, Fair());
  }
}
