/** Whole calls: one handler run to its end, and serial histories of such calls. */
module Serial {
  import opened Models
  import opened Store
  import opened Protocol
  import opened Invariant
  import opened Ledger
  import opened Conservation

  /** A call run to its end by itself. The store answers `fuel` calls; the one after that fails. */
  function Play(db: Db, c: Call, mint: Mint, fuel: nat): (r: (Db, Call))
    ensures r.1.Ended?
    ensures Frame(c).CreateOrder? <==> r.1.last.CreateOrder?
    ensures Frame(c).CancelOrder? <==> r.1.last.CancelOrder?
    decreases fuel
  {
    if c.Ended? then (db, c)
    else if fuel == 0 then (db, Ended(c, StoreError))
    else var (db', c') := Act(db, c, mint); Play(db', c', mint, fuel - 1)
  }

  /** A request run to its end by itself, with the checks before its first store call. */
  function Serve(db: Db, c: Call, mint: Mint, fuel: nat): (r: (Db, Call))
    ensures r.1.Ended?
  {
    Play(db, Admit(c), mint, fuel)
  }

  // ---- a whole call is a run of the step system ----

  function PlayLabels(db: Db, c: Call, mint: Mint, fuel: nat, cid: nat): seq<Label>
    decreases fuel
  {
    if c.Ended? then []
    else if fuel == 0 then [Advance(cid, true, mint)]
    else var (db', c') := Act(db, c, mint); [Advance(cid, false, mint)] + PlayLabels(db', c', mint, fuel - 1, cid)
  }

  predicate FreshMint(db: Db, mint: Mint) {
    mint.id !in db.orders && mint.id !in db.records
  }

  /** Every copy that a frame holds is what the store holds. */
  predicate Current(db: Db, c: Call) {
    && (Copy(c).Some? ==> Find(db.records, Copy(c).value.id) == Copy(c))
    && (c.CancelOrder? && c.order.Some? ==> Find(db.orders, c.orderId) == c.order)
  }

  lemma CancelStaysCurrent(db: Db, c: Call)
    requires DbOk(db) && c.CancelOrder? && CallOk(db, c) && Current(db, c)
    ensures var (db', c') := ActCancelOrder(db, c); Current(db', c')
    ensures var (db', c') := ActCancelOrder(db, c);
            !c'.Ended? ==> db'.orders == db.orders && db'.records.Keys == db.records.Keys
  {
  }

  lemma RecordCallStaysCurrent(db: Db, c: Call, mint: Mint)
    requires DbOk(db) && CallOk(db, c) && Current(db, c) && (c.RestockRecord? || c.UpdateRecord? || c.ArchiveRecord?)
    ensures var (db', c') := Act(db, c, mint); Current(db', c') && (!c'.Ended? ==> db' == db)
  {
  }

  lemma ActStaysCurrent(db: Db, c: Call, mint: Mint)
    requires DbOk(db) && CallOk(db, c) && Current(db, c) && FreshMint(db, mint)
    ensures var (db', c') := Act(db, c, mint); Current(db', c') && (!c'.Ended? ==> FreshMint(db', mint))
  {
    if c.CancelOrder? {
      CancelStaysCurrent(db, c);
    } else if c.RestockRecord? || c.UpdateRecord? || c.ArchiveRecord? {
      RecordCallStaysCurrent(db, c, mint);
    }
  }

  lemma NextStaysCurrent(s: System, cid: nat, mint: Mint)
    requires Inv(s) && cid in s.calls && !s.calls[cid].Ended? && Current(s.db, s.calls[cid]) && FreshMint(s.db, mint)
    ensures var t := Next(s, Advance(cid, false, mint)); var (db, c) := Act(s.db, s.calls[cid], mint);
      && t == System(db, s.calls[cid := c]) && Inv(t)
      && Current(db, c) && (!c.Ended? ==> FreshMint(db, mint))
      && FreshSave(s.db, s.calls[cid])
  {
    NextOk(s, Advance(cid, false, mint));
    ActStaysCurrent(s.db, s.calls[cid], mint);
  }

  lemma SetTwice(calls: map<nat, Call>, cid: nat, a: Call, b: Call)
    ensures calls[cid := a][cid := b] == calls[cid := b]
  {
  }

  /** Playing a call is a schedule in which only that call advances, and every save of it is fresh. */
  lemma {:induction false} PlayIsARun(s: System, cid: nat, mint: Mint, fuel: nat)
    requires Inv(s) && cid in s.calls && Current(s.db, s.calls[cid])
    requires s.calls[cid].Ended? || FreshMint(s.db, mint)
    ensures var ls := PlayLabels(s.db, s.calls[cid], mint, fuel, cid);
            var (db, c) := Play(s.db, s.calls[cid], mint, fuel);
            Exec(s, ls) == System(db, s.calls[cid := c]) && FreshRun(s, ls)
    decreases fuel
  {
    var c := s.calls[cid];
    if c.Ended? {
      assert s.calls[cid := c] == s.calls;
    } else if fuel == 0 {
      RunCons(s, Advance(cid, true, mint), []);
      assert [Advance(cid, true, mint)] + [] == [Advance(cid, true, mint)];
    } else {
      var l := Advance(cid, false, mint);
      NextStaysCurrent(s, cid, mint);
      PlayIsARun(Next(s, l), cid, mint, fuel - 1);
      RunCons(s, l, PlayLabels(Next(s, l).db, Next(s, l).calls[cid], mint, fuel - 1, cid));
      SetTwice(s.calls, cid, Next(s, l).calls[cid], Play(s.db, c, mint, fuel).1);
    }
  }

  // ---- serial histories ----

  datatype Op = Op(cid: nat, call: Call, mint: Mint, fuel: nat)

  predicate CanRun(s: System, op: Op) {
    op.cid !in s.calls && Initial(op.call) && FreshMint(s.db, op.mint)
  }

  function RunOp(s: System, op: Op): System {
    if CanRun(s, op) then var (db, c) := Play(s.db, Admit(op.call), op.mint, op.fuel); System(db, s.calls[op.cid := c])
    else s
  }

  function RunAll(s: System, ops: seq<Op>): System
    decreases |ops|
  {
    if ops == [] then s else RunAll(RunOp(s, ops[0]), ops[1..])
  }

  function OpLabels(s: System, op: Op): seq<Label> {
    if CanRun(s, op) then [Arrive(op.cid, op.call)] + PlayLabels(s.db, Admit(op.call), op.mint, op.fuel, op.cid) else []
  }

  function SerialLabels(s: System, ops: seq<Op>): seq<Label>
    decreases |ops|
  {
    if ops == [] then [] else OpLabels(s, ops[0]) + SerialLabels(RunOp(s, ops[0]), ops[1..])
  }

  lemma OpIsARun(s: System, op: Op)
    requires Inv(s)
    ensures Exec(s, OpLabels(s, op)) == RunOp(s, op) && FreshRun(s, OpLabels(s, op))
  {
    if CanRun(s, op) {
      var l, c := Arrive(op.cid, op.call), Admit(op.call);
      NextOk(s, l);
      PlayIsARun(Next(s, l), op.cid, op.mint, op.fuel);
      RunCons(s, l, PlayLabels(s.db, c, op.mint, op.fuel, op.cid));
      SetTwice(s.calls, op.cid, c, Play(s.db, c, op.mint, op.fuel).1);
    }
  }

  /** Every serial history is a fresh run of the step system. */
  lemma {:induction false} SerialIsFresh(s: System, ops: seq<Op>)
    requires Inv(s)
    ensures Exec(s, SerialLabels(s, ops)) == RunAll(s, ops) && FreshRun(s, SerialLabels(s, ops))
    decreases |ops|
  {
    if ops != [] {
      var a, b := OpLabels(s, ops[0]), SerialLabels(RunOp(s, ops[0]), ops[1..]);
      OpIsARun(s, ops[0]);
      AlwaysOk(s, a);
      SerialIsFresh(RunOp(s, ops[0]), ops[1..]);
      ExecConcat(s, a, b);
      FreshConcat(s, a, b);
    }
  }

  /**
   * Every serial history without store errors keeps, for each record, shelf + live orders + units dropped by
   * failed orders less what was restocked and edited in.
   */
  lemma SerialConserves(s: System, ops: seq<Op>, r: string)
    requires Inv(s) && Settled(s) && Settled(RunAll(s, ops))
    ensures SettledBalance(RunAll(s, ops), r) == SettledBalance(s, r)
  {
    SerialIsFresh(s, ops);
    SettledConserves(s, SerialLabels(s, ops), r);
  }
}
