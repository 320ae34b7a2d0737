// The copy and move commands: the loops, their counters and the table of messages to delete.
module CopyCommand {
  import opened Arithmetic
  import opened CopyMove
  import opened CopyTable

  class Admin {
    const env: Env
    const eventsPerTransaction: nat
    const offset: nat
    var db: Db
    var curCount: nat
    var limitCopy: int

    function State(): Globals
      reads this
    {
      Globals(db, curCount, limitCopy)
    }

    constructor (db: Db, eventsPerTransaction: nat, offset: nat, limit: int, env: Env)
      ensures State() == Globals(db, 0, limit)
      ensures this.eventsPerTransaction == eventsPerTransaction && this.offset == offset && this.env == env
    {
      this.db, this.eventsPerTransaction, this.offset, this.env := db, eventsPerTransaction, offset, env;
      curCount, limitCopy := 0, limit;
    }

    method FlushTransactionIfNeeded(eventNo0: nat, increment: nat) returns (eventNo: nat)
      modifies this
      ensures (State(), eventNo) == Flush(old(State()), eventNo0, increment, eventsPerTransaction)
    {
      eventNo := eventNo0;
      if eventsPerTransaction != 0 {
        eventNo := eventNo + increment;
        if eventNo >= eventsPerTransaction || (increment == 0 && eventNo != 0) {
          db := Commit(db);
          db := Begin(db);
          curCount := curCount + eventNo;
          eventNo := 0;
        }
      }
    }

    // The idents of the next batch; count is negative if they could not be fetched.
    method FetchMessageIdentsLimited(noIncrement: bool) returns (count: int, idents: seq<Ident>)
      modifies this
      ensures !env.ok(old(db).clock) ==> count == -1 && State() == old(State()).(db := Tick(old(db)))
      ensures env.ok(old(db).clock) ==>
                && count == |idents| && State() == Counted(old(State()), |idents|)
                && idents == Fetched(old(State()), Settings(eventsPerTransaction, offset, noIncrement))
    {
      var localLimit := if limitCopy < 0 then eventsPerTransaction else Min(eventsPerTransaction, limitCopy);
      var succeeded := env.ok(db.clock);
      db := Tick(db);
      if !succeeded {
        return -1, [];
      }
      idents := Slice(db.src, localLimit, offset + if noIncrement then 0 else curCount);
      count := |idents|;
      if limitCopy > 0 {
        limitCopy := limitCopy - count;
      }
    }

    // The loop over a batch. It ends where a store outside the table would follow.
    method CopyIterate(idents: seq<Ident>, dstEventNo0: nat, delete: bool)
      returns (ret: int, dstEventNo: nat, overrun: bool)
      modifies this
      ensures overrun <==> !Inside(Stores(old(State()), idents, 0, [], dstEventNo0, delete, eventsPerTransaction, env))
      ensures var b := Iterate(old(State()), idents, 0, [], dstEventNo0, delete, eventsPerTransaction, env);
              !overrun ==> Batch(State(), dstEventNo, ret) == b
    {
      hide Handle, Finish, Flush, Insert, Delete, Tick, StoreOne;
      dstEventNo, overrun := dstEventNo0, false;
      var deleteTbl := new Ident[DELETE_TBL_SIZE];
      var deleteIndex, identIdx := 0, 0;
      ghost var whole := Iterate(State(), idents, 0, [], dstEventNo, delete, eventsPerTransaction, env);
      ghost var stores := Stores(State(), idents, 0, [], dstEventNo, delete, eventsPerTransaction, env);
      while true
        invariant 0 <= identIdx <= |idents| && 0 <= deleteIndex <= DELETE_TBL_SIZE
        invariant whole == Iterate(State(), idents, identIdx, deleteTbl[..deleteIndex], dstEventNo, delete,
                                   eventsPerTransaction, env)
        invariant Inside(stores) == Inside(Stores(State(), idents, identIdx, deleteTbl[..deleteIndex], dstEventNo,
                                                  delete, eventsPerTransaction, env))
        decreases |idents| - identIdx
      {
        if env.ok(db.clock) && identIdx < |idents| {
          StoresStep(State(), idents, identIdx, deleteTbl[..deleteIndex], dstEventNo, delete, eventsPerTransaction,
                     env);
        }
        var got := env.ok(db.clock);
        db := Tick(db);
        ret := if !got then -1 else if identIdx == |idents| then 0 else 1;
        if ret <= 0 {
          break;
        }
        var ident := idents[identIdx];
        identIdx := identIdx + 1;
        var stopped: bool;
        stopped, dstEventNo, deleteIndex, overrun := HandleOne(ident, deleteTbl, deleteIndex, dstEventNo, delete);
        if overrun {
          return;
        }
        if stopped {
          return -1, dstEventNo, false;
        }
      }
      ret, dstEventNo := FinishBatch(deleteTbl, deleteIndex, dstEventNo, ret);
    }

    // The body of the loop for one message.
    method HandleOne(ident: Ident, deleteTbl: array<Ident>, deleteIndex0: nat, dstEventNo0: nat, delete: bool)
      returns (stopped: bool, dstEventNo: nat, deleteIndex: nat, overrun: bool)
      requires deleteTbl.Length == DELETE_TBL_SIZE && deleteIndex0 <= DELETE_TBL_SIZE
      modifies this, deleteTbl
      ensures deleteIndex <= DELETE_TBL_SIZE
      ensures overrun <==> !Inside(StoreOne(old(State()), old(deleteTbl[..deleteIndex0]), dstEventNo0, delete, env))
      ensures var h := Handle(old(State()), ident, old(deleteTbl[..deleteIndex0]), dstEventNo0, delete,
                              eventsPerTransaction, env);
              !overrun ==> h == if stopped then GivenUp(Batch(State(), dstEventNo, -1))
                                else Go(State(), deleteTbl[..deleteIndex], dstEventNo)
    {
      hide Flush, Insert, Delete;
      ghost var tbl := deleteTbl[..deleteIndex0];
      stopped, dstEventNo, deleteIndex, overrun := true, dstEventNo0, deleteIndex0, false;
      var fetched := env.ok(db.clock);
      db := Tick(db);
      if !fetched {
        return;
      }
      if !env.ok(db.clock) {
        db := Tick(db);
        return;
      }
      db := Insert(db, ident);
      if delete {
        if deleteIndex == deleteTbl.Length {
          overrun := true;
          return;
        }
        deleteTbl[deleteIndex] := ident;
        deleteIndex := deleteIndex + 1;
        assert deleteTbl[..deleteIndex] == tbl + [ident];
        if (eventsPerTransaction != 0 && dstEventNo >= eventsPerTransaction) || deleteIndex >= DELETE_TBL_SIZE {
          var deleted := env.ok(db.clock);
          db := Delete(db, deleteTbl[..deleteIndex], env);
          if !deleted {
            return false, dstEventNo, deleteIndex, false;
          }
          deleteIndex := 0;
        }
      }
      dstEventNo := FlushTransactionIfNeeded(dstEventNo, 1);
      stopped := false;
    }

    // What follows the loop.
    method FinishBatch(deleteTbl: array<Ident>, deleteIndex: nat, dstEventNo0: nat, ret0: int)
      returns (ret: int, dstEventNo: nat)
      requires deleteIndex <= deleteTbl.Length
      modifies this
      ensures Batch(State(), dstEventNo, ret)
           == Finish(old(State()), deleteTbl[..deleteIndex], dstEventNo0, ret0, eventsPerTransaction, env)
    {
      hide Flush, Delete;
      ret := ret0;
      dstEventNo := FlushTransactionIfNeeded(dstEventNo0, 0);
      if deleteIndex != 0 {
        var deleted := env.ok(db.clock);
        db := Delete(db, deleteTbl[..deleteIndex], env);
        if !deleted {
          ret := -1;
        }
      }
    }

    // The command; the databases are open, and closed again by the caller.
    method DoCmdCopyMove(deleteCopied: bool) returns (ret: int, overrun: bool)
      requires curCount == 0
      modifies this
      ensures var s := Settings(eventsPerTransaction, offset, deleteCopied);
              && (overrun <==> !Inside(CommandStores(old(db), s, old(limitCopy), env)))
              && (overrun ==> deleteCopied && eventsPerTransaction > DELETE_TBL_SIZE)
              && (!overrun ==> var b := Command(old(db), s, old(limitCopy), env);
                               State() == b.g && ret == b.ret)
    {
      hide Iterate, Stores, Commit, Begin, Abort, Tick;
      var s := Settings(eventsPerTransaction, offset, deleteCopied);
      var dstEventNo := 0;
      overrun := false;
      if eventsPerTransaction > 1 {
        db := Begin(db);
      }
      ghost var whole, stores := Loop(State(), s, env), LoopStores(State(), s, env);
      OverrunsOnlyLarge(State(), s, env);
      while true
        invariant dstEventNo == 0 && !overrun && whole == Loop(State(), s, env)
        invariant Inside(stores) == Inside(LoopStores(State(), s, env))
        decreases Remaining(State(), s)
      {
        ghost var g := State();
        var count, idents := FetchMessageIdentsLimited(deleteCopied);
        ret := count;
        if count > 0 {
          BatchProgress(g, s, env);
          LoopStoresStep(g, s, env);
          ret, dstEventNo, overrun := CopyIterate(idents, dstEventNo, deleteCopied);
        }
        if overrun || !(count > 0 && ret >= 0 && !env.stop(db.clock)) {
          break;
        }
      }
      if overrun {
        return;
      }
      if eventsPerTransaction > 1 {
        if ret < 0 {
          db := Abort(db);
        } else {
          curCount := curCount + dstEventNo;
          db := Commit(db);
        }
      }
    }
  }
}
