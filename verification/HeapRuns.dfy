/** Whole runs of row operations from a freshly created file. */
module HeapRuns {
  import opened Bytes
  import opened Page
  import opened HeapFile
  import opened HeapRows
  import opened HeapProofs

  datatype HeapOp =
    | Write(row: Bytes)
    | WriteNew(row: Bytes)
    | Modify(id: RowId, row: Bytes)
    | Delete(id: RowId)

  /** The file together with what each row handed out so far must read as. */
  datatype State = State(file: File, rows: map<RowId, ReadResult>)

  ghost predicate Tracks(s: State, roles: Roles) {
    && HeapOk(s.file, roles)
    && (forall p :: p in s.rows <==> IsRow(s.file, roles, p))
    && (forall p :: p in s.rows ==> ReadRow(s.file, p) == s.rows[p] && s.rows[p] != Missing)
  }

  /** The file behaves as the map `rows`. */
  ghost predicate Refines(s: State) {
    exists roles :: Tracks(s, roles)
  }

  const INIT := State(Create(), map[])

  /**
   * One operation.  Rows are named by ids earlier writes returned; a modify
   * of a deleted row is refused, and a modify to fewer bytes than an
   * unchained row has leaves zeros behind them.
   */
  ghost function Step(s: State, op: HeapOp): State
    requires Valid(s.file)
  {
    match op
    case Write(row) =>
      var (g, q) := WriteRow(s.file, row);
      State(g, s.rows[q := Row(row)])
    case WriteNew(row) =>
      var (g, q) := WriteRowNewBlock(s.file, row);
      State(g, s.rows[q := Row(row)])
    case Modify(p, row) =>
      if p !in s.rows || !IsRecord(s.file, p) then s
      else if s.rows[p] == Gone then s.(file := ModifyRow(s.file, p, row).0)
      else State(ModifyRow(s.file, p, row).0, s.rows[p := Row(Modified(s.file, p, row))])
    case Delete(p) =>
      if p !in s.rows || !IsRecord(s.file, p) then s
      else State(DeleteRow(s.file, p).0, s.rows[p := Gone])
  }

  lemma WriteTracks(s: State, roles: Roles, g: File, q: RowId, row: Bytes)
    requires Tracks(s, roles) && FileOk(g) && Wrote(s.file, g, NO_ROW, q, row)
    ensures Refines(State(g, s.rows[q := Row(row)]))
  {
    hide PageOk;
    hide FileOk;
    WriteOk(s.file, g, roles, q, row);
    assert Tracks(State(g, s.rows[q := Row(row)]), Grow(s.file, roles, q, q));
  }

  lemma ModifyTracks(s: State, roles: Roles, p: RowId, row: Bytes)
    requires Tracks(s, roles) && p in s.rows
    ensures Refines(Step(s, Modify(p, row)))
    ensures s.rows[p] == Gone ==> IsRecord(s.file, p) && ModifyRow(s.file, p, row) == (s.file, false)
  {
    hide PageOk;
    hide FileOk;
    hide Owned;
    assert IsRow(s.file, roles, p);
    if Rec(s.file, p).deleted {
      assert Step(s, Modify(p, row)) == s;
    } else {
      ModifyLiveTracks(s, roles, p, row);
    }
  }

  lemma ModifyLiveTracks(s: State, roles: Roles, p: RowId, row: Bytes)
    requires Tracks(s, roles) && p in s.rows && IsRecord(s.file, p) && !Rec(s.file, p).deleted
    ensures s.rows[p] != Gone
    ensures Refines(State(ModifyRow(s.file, p, row).0, s.rows[p := Row(Modified(s.file, p, row))]))
  {
    hide PageOk, FileOk, LinkOk, Modified, ModifyRow, Target;
    assert RoleOk(s.file, roles, p);
    RowNotGone(s.file, roles, p);
    var roles' := ModifyOk(s.file, roles, p, row);
    var g, t := ModifyRow(s.file, p, row).0, Target(s.file, p);
    forall x | x in s.rows && x != p ensures IsRecord(g, x) && ReadRow(g, x) == s.rows[x] {
      ModifyFrame(s.file, g, roles, t, x);
    }
    hide RoleOk, ReadRow;
    assert Tracks(State(g, s.rows[p := Row(Modified(s.file, p, row))]), roles');
  }

  /** Only the delete flag of its head makes a row read as deleted. */
  lemma {:induction false} RowNotGone(f: File, roles: Roles, p: RowId)
    requires HeapOk(f, roles) && IsRecord(f, p) && !Rec(f, p).deleted
    requires p == roles(p).owner || Before(roles(p).owner, p)
    ensures ReadRow(f, p).Row?
    decreases |f.blocks| - p.block, |f.blocks[p.block].records| - p.idx
  {
    hide PageOk;
    assert LinkOk(f, p) && RoleOk(f, roles, p);
    if Rec(f, p).migrated {
      assert RoleOk(f, roles, Rec(f, p).next);
      RowNotGone(f, roles, Rec(f, p).next);
    }
  }

  lemma DeleteTracks(s: State, roles: Roles, p: RowId)
    requires Tracks(s, roles) && p in s.rows
    ensures Refines(Step(s, Delete(p)))
  {
    hide PageOk;
    hide FileOk;
    assert IsRow(s.file, roles, p);
    DeleteOk(s.file, roles, p);
    var s' := Step(s, Delete(p));
    forall x | x in s'.rows ensures ReadRow(s'.file, x) == s'.rows[x] && s'.rows[x] != Missing {
      if x != p {
        ModifyFrame(s.file, s'.file, roles, p, x);
      }
    }
    assert Tracks(s', roles);
  }

  lemma StepRefines(s: State, op: HeapOp)
    requires Refines(s)
    ensures Refines(Step(s, op))
    ensures op.Modify? && op.id in s.rows && s.rows[op.id] == Gone ==>
              IsRecord(s.file, op.id) && ModifyRow(s.file, op.id, op.row) == (s.file, false)
  {
    hide PageOk;
    hide FileOk;
    var roles :| Tracks(s, roles);
    match op
    case Write(row) =>
      WriteRowWrote(s.file, row);
      WriteTracks(s, roles, WriteRow(s.file, row).0, WriteRow(s.file, row).1, row);
    case WriteNew(row) =>
      WriteRowNewBlockWrote(s.file, row);
      WriteTracks(s, roles, WriteRowNewBlock(s.file, row).0, WriteRowNewBlock(s.file, row).1, row);
    case Modify(p, row) =>
      if p in s.rows {
        ModifyTracks(s, roles, p, row);
      }
    case Delete(p) =>
      if p in s.rows {
        DeleteTracks(s, roles, p);
      }
  }

  /** After any run, every row handed out reads as the map says. */
  ghost function Run(ops: seq<HeapOp>): (s: State)
    ensures Refines(s)
  {
    if ops == [] then
      assert Tracks(INIT, p => Role(p, true));
      INIT
    else
      var s := Run(ops[..|ops| - 1]);
      StepRefines(s, ops[|ops| - 1]);
      Step(s, ops[|ops| - 1])
  }

  predicate Names(op: HeapOp, p: RowId) {
    match op
    case Write(_) => false
    case WriteNew(_) => false
    case Modify(q, _) => q == p
    case Delete(q) => q == p
  }

  /** A write hands out a new id. */
  lemma FreshId(s: State, g: File, q: RowId, row: Bytes)
    requires Refines(s) && FileOk(g) && Wrote(s.file, g, NO_ROW, q, row)
    ensures q !in s.rows
  {
    hide PageOk, FileOk, LinkOk, Owned;
    var roles :| Tracks(s, roles);
    assert q in s.rows ==> IsRow(s.file, roles, q);
  }

  lemma NewIdIsFresh(s: State, op: HeapOp)
    requires Refines(s) && (op.Write? || op.WriteNew?)
    ensures (if op.Write? then WriteRow(s.file, op.row) else WriteRowNewBlock(s.file, op.row)).1 !in s.rows
  {
    hide PageOk, FileOk, LinkOk, Owned, Wrote, WriteRow, WriteRowNewBlock;
    if op.Write? {
      WriteRowWrote(s.file, op.row);
      FreshId(s, WriteRow(s.file, op.row).0, WriteRow(s.file, op.row).1, op.row);
    } else {
      WriteRowNewBlockWrote(s.file, op.row);
      FreshId(s, WriteRowNewBlock(s.file, op.row).0, WriteRowNewBlock(s.file, op.row).1, op.row);
    }
  }

  lemma StepKeepsRow(s: State, op: HeapOp, p: RowId)
    requires Refines(s) && p in s.rows && !Names(op, p)
    ensures p in Step(s, op).rows && Step(s, op).rows[p] == s.rows[p]
  {
    hide PageOk, FileOk, LinkOk, Owned, WriteRow, WriteRowNewBlock, ModifyRow, DeleteRow, Modified;
    if op.Write? || op.WriteNew? {
      NewIdIsFresh(s, op);
    }
  }

  /** A row reads the same after any further operations that do not name it. */
  lemma {:induction false} RowSurvives(ops: seq<HeapOp>, more: seq<HeapOp>, p: RowId)
    requires p in Run(ops).rows && forall k :: 0 <= k < |more| ==> !Names(more[k], p)
    ensures var s := Run(ops + more);
            && p in s.rows && s.rows[p] == Run(ops).rows[p]
            && (exists roles :: HeapOk(s.file, roles) && IsRow(s.file, roles, p))
            && ReadRow(s.file, p) == ReadRow(Run(ops).file, p)
    decreases |more|
  {
    hide PageOk, FileOk, LinkOk, Owned, Step;
    if more == [] {
      assert ops + more == ops;
    } else {
      var init, op := more[..|more| - 1], more[|more| - 1];
      RowSurvives(ops, init, p);
      assert (ops + more)[..|ops + more| - 1] == ops + init;
      StepKeepsRow(Run(ops + init), op, p);
    }
    TracksRow(Run(ops), p);
    TracksRow(Run(ops + more), p);
  }

  lemma TracksRow(s: State, p: RowId)
    requires Refines(s) && p in s.rows
    ensures exists roles :: HeapOk(s.file, roles) && IsRow(s.file, roles, p)
    ensures ReadRow(s.file, p) == s.rows[p]
  {
    hide PageOk, FileOk, LinkOk, Owned;
    var roles :| Tracks(s, roles);
  }

  /** What a modify leaves: the new bytes, and zeros exactly where a longer unchained row was overwritten in place. */
  lemma ModifiedShape(f: File, p: RowId, row: Bytes)
    requires Valid(f) && IsRecord(f, p)
    ensures ZeroTail(row, Modified(f, p, row))
    ensures Modified(f, p, row) == row <==> Rec(f, Target(f, p)).chained || |row| >= Rec(f, Target(f, p)).len
  {
  }
}
