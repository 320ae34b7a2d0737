// The table of messages to delete: where a move stores into it, and when it stays inside.
module CopyTable {
  import opened CopyMove

  // A message is stored in the table: at which index, and what the event counter is then.
  datatype Store = Store(index: nat, eventNo: nat)

  predicate Inside(stores: seq<Store>)
  {
    forall st :: st in stores ==> st.index < DELETE_TBL_SIZE
  }

  // What handling one message stores, if it gets that far.
  function StoreOne(g: Globals, tbl: seq<Ident>, eventNo: nat, move: bool, env: Env): seq<Store>
  {
    if move && env.ok(g.db.clock) && env.ok(Tick(g.db).clock) then [Store(|tbl|, eventNo)] else []
  }

  // All that a batch stores. From a store outside the table on, the batch is no longer what the program does.
  function Stores(g: Globals, idents: seq<Ident>, i: nat, tbl: seq<Ident>, eventNo: nat, move: bool, ept: nat,
                  env: Env): seq<Store>
    requires i <= |idents|
    decreases |idents| - i
  {
    var g1 := g.(db := Tick(g.db));
    if !env.ok(g.db.clock) || i == |idents| then []
    else
      StoreOne(g1, tbl, eventNo, move, env) +
      match Handle(g1, idents[i], tbl, eventNo, move, ept, env) {
        case GivenUp(_) => []
        case Go(g2, tbl2, n) => Stores(g2, idents, i + 1, tbl2, n, move, ept, env)
      }
  }

  function BatchStores(g: Globals, s: Settings, env: Env): seq<Store>
  {
    Stores(Counted(g, |Fetched(g, s)|), Fetched(g, s), 0, [], 0, s.move, s.ept, env)
  }

  // All that the loop over the batches stores.
  function LoopStores(g: Globals, s: Settings, env: Env): seq<Store>
    decreases Remaining(g, s)
  {
    if !env.ok(g.db.clock) || Fetched(g, s) == [] then []
    else
      var b := Iterate(Counted(g, |Fetched(g, s)|), Fetched(g, s), 0, [], 0, s.move, s.ept, env);
      BatchProgress(g, s, env);
      BatchStores(g, s, env) + if b.ret >= 0 && !env.stop(b.g.db.clock) then LoopStores(b.g, s, env) else []
  }

  function CommandStores(db: Db, s: Settings, limit: int, env: Env): seq<Store>
  {
    LoopStores(Globals(if s.ept > 1 then Begin(db) else db, 0, limit), s, env)
  }

  // A batch stays inside when the next message does and the rest of the batch does.
  lemma StoresStep(g: Globals, idents: seq<Ident>, i: nat, tbl: seq<Ident>, eventNo: nat, move: bool, ept: nat,
                   env: Env)
    requires i < |idents| && env.ok(g.db.clock)
    ensures var g1 := g.(db := Tick(g.db));
            var h := Handle(g1, idents[i], tbl, eventNo, move, ept, env);
            Inside(Stores(g, idents, i, tbl, eventNo, move, ept, env)) <==>
            Inside(StoreOne(g1, tbl, eventNo, move, env)) &&
            (h.Go? ==> Inside(Stores(h.g, idents, i + 1, h.tbl, h.eventNo, move, ept, env)))
  {
    hide Handle, StoreOne;
  }

  lemma LoopStoresStep(g: Globals, s: Settings, env: Env)
    requires env.ok(g.db.clock) && Fetched(g, s) != []
    ensures var b := Iterate(Counted(g, |Fetched(g, s)|), Fetched(g, s), 0, [], 0, s.move, s.ept, env);
            Inside(LoopStores(g, s, env)) <==>
            Inside(BatchStores(g, s, env)) &&
            (b.ret >= 0 && !env.stop(b.g.db.clock) ==> Inside(LoopStores(b.g, s, env)))
  {
    hide Iterate, Stores, Fetched;
  }

  // ------------------------------------------------------------------------------------ what holds at every store

  // What every store of a batch of so many messages satisfies.
  ghost predicate StoredWell(st: Store, move: bool, most: nat, ept: nat, env: Env)
  {
    && move && st.index < most
    && (ept > 0 ==> st.eventNo < ept)
    && ((forall t :: env.ok(t)) ==> st.index < DELETE_TBL_SIZE)
  }

  lemma HandleStores(g: Globals, id: Ident, tbl: seq<Ident>, eventNo: nat, move: bool, ept: nat, env: Env)
    ensures match Handle(g, id, tbl, eventNo, move, ept, env)
            case GivenUp(_) => true
            case Go(_, tbl', n) =>
              && |tbl'| <= |tbl| + 1 && (ept > 0 && eventNo < ept ==> n < ept)
              && ((forall t :: env.ok(t)) && |tbl| < DELETE_TBL_SIZE ==> |tbl'| < DELETE_TBL_SIZE)
  {
    hide Without;
  }

  lemma {:induction false} BatchStoresWell(g: Globals, idents: seq<Ident>, i: nat, tbl: seq<Ident>, eventNo: nat,
                                           move: bool, ept: nat, env: Env)
    requires i <= |idents| && (ept > 0 ==> eventNo < ept)
    requires (forall t :: env.ok(t)) ==> |tbl| < DELETE_TBL_SIZE
    ensures forall st :: st in Stores(g, idents, i, tbl, eventNo, move, ept, env) ==>
                           StoredWell(st, move, |tbl| + |idents| - i, ept, env)
    decreases |idents| - i
  {
    hide Handle;
    var g1 := g.(db := Tick(g.db));
    if env.ok(g.db.clock) && i < |idents| {
      HandleStores(g1, idents[i], tbl, eventNo, move, ept, env);
      match Handle(g1, idents[i], tbl, eventNo, move, ept, env) {
        case GivenUp(_) =>
        case Go(g2, tbl2, n) => BatchStoresWell(g2, idents, i + 1, tbl2, n, move, ept, env);
      }
    }
  }

  lemma {:induction false} LoopStoresWell(g: Globals, s: Settings, env: Env)
    ensures forall st :: st in LoopStores(g, s, env) ==> StoredWell(st, s.move, s.ept, s.ept, env)
    decreases Remaining(g, s)
  {
    hide Iterate, Stores;
    var idents := Fetched(g, s);
    if env.ok(g.db.clock) && idents != [] {
      var g1 := Counted(g, |idents|);
      BatchStoresWell(g1, idents, 0, [], 0, s.move, s.ept, env);
      BatchProgress(g, s, env);
      var b := Iterate(g1, idents, 0, [], 0, s.move, s.ept, env);
      if b.ret >= 0 && !env.stop(b.g.db.clock) {
        LoopStoresWell(b.g, s, env);
      }
    }
  }

  // The comparison of the event counter with the transaction size never comes out true: not in any run, whatever fails.
  lemma CounterNeverFull(db: Db, s: Settings, limit: int, env: Env)
    requires s.ept > 0
    ensures forall st :: st in CommandStores(db, s, limit, env) ==> st.eventNo < s.ept
  {
    hide LoopStores;
    LoopStoresWell(Globals(if s.ept > 1 then Begin(db) else db, 0, limit), s, env);
  }

  // When nothing fails the table is not overrun, however large the transactions.
  lemma FairStaysInside(db: Db, s: Settings, limit: int, env: Env)
    requires forall t :: env.ok(t)
    ensures Inside(CommandStores(db, s, limit, env))
  {
    hide LoopStores;
    LoopStoresWell(Globals(if s.ept > 1 then Begin(db) else db, 0, limit), s, env);
  }

  // ------------------------------------------------------------------------------------ when the table is too small

  lemma OverrunsOnlyLarge(g: Globals, s: Settings, env: Env)
    ensures !Inside(LoopStores(g, s, env)) ==> s.move && s.ept > DELETE_TBL_SIZE
  {
    hide LoopStores;
    LoopStoresWell(g, s, env);
  }

  // No run of a move stores outside the table.
  ghost predicate TableSafe(ept: nat)
  {
    forall db, offset, limit, env :: Closed(db) ==> MoveInside(db, ept, offset, limit, env)
  }

  ghost predicate MoveInside(db: Db, ept: nat, offset: nat, limit: int, env: Env)
  {
    Inside(CommandStores(db, Settings(ept, offset, true), limit, env))
  }

  // One call fails, and no other.
  function FailsOnceAt(clock: nat): Env { Env(t => t != clock, (_, _) => false, _ => false) }

  // While the only call that fails is the deletion that the full table forces, every message stays in the table.
  lemma TableFills(g: Globals, id: Ident, tbl: seq<Ident>, ept: nat, bad: nat)
    requires |tbl| < DELETE_TBL_SIZE < ept
    requires if |tbl| + 1 < DELETE_TBL_SIZE then g.db.clock + 2 < bad else g.db.clock + 2 == bad
    ensures var h := Handle(g, id, tbl, |tbl|, true, ept, FailsOnceAt(bad));
            && h.Go? && h.tbl == tbl + [id]
            && (|tbl| + 1 < DELETE_TBL_SIZE ==> h.eventNo == |tbl| + 1)
            && h.g.db.clock == if |tbl| + 1 < DELETE_TBL_SIZE then g.db.clock + 2 else bad + 1
  {
    hide Without;
  }

  // The next message is then stored behind it.
  lemma {:induction false} FailedDeletionOverruns(g: Globals, idents: seq<Ident>, i: nat, ept: nat, clock: nat)
    requires |idents| == DELETE_TBL_SIZE + 1 && i < DELETE_TBL_SIZE && ept > DELETE_TBL_SIZE
    requires g.db.clock == clock + 3 * i
    ensures !Inside(Stores(g, idents, i, idents[..i], i, true, ept, FailsOnceAt(clock + 3 * DELETE_TBL_SIZE)))
    decreases DELETE_TBL_SIZE - i
  {
    hide Handle;
    var bad := clock + 3 * DELETE_TBL_SIZE;
    var env, g1 := FailsOnceAt(bad), g.(db := Tick(g.db));
    TableFills(g1, idents[i], idents[..i], ept, bad);
    var h := Handle(g1, idents[i], idents[..i], i, true, ept, env);
    assert idents[..i + 1] == idents[..i] + [idents[i]];
    if i + 1 < DELETE_TBL_SIZE {
      FailedDeletionOverruns(h.g, idents, i + 1, ept, clock);
    } else {
      var last := Stores(h.g, idents, i + 1, h.tbl, h.eventNo, true, ept, env);
      assert last[0] == Store(DELETE_TBL_SIZE, h.eventNo) && last[0] in last;
    }
  }

  // With larger transactions one failed deletion is enough.
  lemma LargeBatchesOverrun(ept: nat)
    requires ept > DELETE_TBL_SIZE
    ensures var db := Db(Numbers(DELETE_TBL_SIZE + 1), [], [], false, 0, []);
            Closed(db) && !MoveInside(db, ept, 0, -1, FailsOnceAt(2 + 3 * DELETE_TBL_SIZE))
  {
    hide Iterate, Stores;
    var db := Db(Numbers(DELETE_TBL_SIZE + 1), [], [], false, 0, []);
    var s, env := Settings(ept, 0, true), FailsOnceAt(2 + 3 * DELETE_TBL_SIZE);
    var g := Globals(Begin(db), 0, -1);
    assert Fetched(g, s) == db.src && db.src[..0] == [];
    FailedDeletionOverruns(Counted(g, |db.src|), db.src, 0, ept, 2);
    var st :| st in BatchStores(g, s, env) && st.index >= DELETE_TBL_SIZE;
    assert st in LoopStores(g, s, env);
  }

  // The table of 1024 idents is large enough exactly for transactions of at most 1024 messages.
  lemma TableSafeExactly(ept: nat)
    ensures TableSafe(ept) <==> ept <= DELETE_TBL_SIZE
  {
    if ept <= DELETE_TBL_SIZE {
      forall db, offset, limit, env | Closed(db)
        ensures MoveInside(db, ept, offset, limit, env)
      {
        hide LoopStores;
        LoopStoresWell(Globals(if ept > 1 then Begin(db) else db, 0, limit), Settings(ept, offset, true), env);
      }
    } else {
      hide MoveInside, Closed;
      LargeBatchesOverrun(ept);
    }
  }
}
