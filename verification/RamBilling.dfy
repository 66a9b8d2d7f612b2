/** RAM billing of database rows, tables and deferred transactions:
    libraries/chain/apply_context.cpp, controller.cpp, transaction_context.cpp and resource_limits.cpp. */
module RamBilling {
  import opened Basics
  import opened MapSums

  const NOBODY: Name := 0

  datatype TableKey = TableKey(code: Name, scope: Name, table: Name)
  datatype Table = Table(payer: Name, count: nat)
  datatype RowKey = RowKey(table: TableKey, id: nat)
  datatype Row = Row(payer: Name, size: nat)
  datatype DeferredKey = DeferredKey(sender: Name, senderId: nat)
  datatype Deferred = Deferred(payer: Name, size: nat)

  /** The fixed billable size of an object of each kind. */
  datatype Sizes = Sizes(table: nat, row: nat, deferred: nat)

  /** Everything that RAM is charged for here. */
  datatype Holdings = Holdings(
    tables: map<TableKey, Table>, rows: map<RowKey, Row>, deferred: map<DeferredKey, Deferred>)

  // ---------------------------------------------------------------- what an account owes

  ghost function TableBill(s: Sizes, a: Name): Table -> int {
    (t: Table) => if t.payer == a then s.table else 0
  }

  ghost function RowBill(s: Sizes, a: Name): Row -> int {
    (r: Row) => if r.payer == a then s.row + r.size else 0
  }

  ghost function DeferredBill(s: Sizes, a: Name): Deferred -> int {
    (d: Deferred) => if d.payer == a then s.deferred + d.size else 0
  }

  ghost function Owed(s: Sizes, h: Holdings, a: Name): int {
    Sum(h.tables, TableBill(s, a)) + Sum(h.rows, RowBill(s, a)) + Sum(h.deferred, DeferredBill(s, a))
  }

  /** Every account uses what it owes, on top of a fixed amount for everything else. */
  ghost predicate Balanced(s: Sizes, h: Holdings, base: map<Name, nat>, usage: map<Name, int>) {
    base.Keys == usage.Keys && forall a | a in usage :: usage[a] == base[a] + Owed(s, h, a) <= UINT64_MAX
  }

  /** Whoever pays for something has a usage entry. */
  ghost predicate PayersKnown(h: Holdings, usage: map<Name, int>) {
    && (forall k | k in h.tables :: h.tables[k].payer in usage)
    && (forall k | k in h.rows :: h.rows[k].payer in usage)
    && (forall k | k in h.deferred :: h.deferred[k].payer in usage)
  }

  ghost function RowsOf(rows: map<RowKey, Row>, t: TableKey): set<RowKey> { set k | k in rows && k.table == t }

  /** A table counts its rows, exists while it has one, and every row has a table. */
  ghost predicate Counted(tables: map<TableKey, Table>, rows: map<RowKey, Row>) {
    && (forall t | t in tables :: tables[t].count == |RowsOf(rows, t)| > 0)
    && (forall k | k in rows :: k.table in tables)
  }

  function Bill(a: Name, payer: Name, bytes: int): int { if a == payer then bytes else 0 }

  // ---------------------------------------------------------------- changing the holdings

  lemma OwedTable(s: Sizes, h: Holdings, k: TableKey, v: Table, a: Name)
    ensures Owed(s, h.(tables := h.tables[k := v]), a)
            == Owed(s, h, a) - (if k in h.tables then TableBill(s, a)(h.tables[k]) else 0) + TableBill(s, a)(v)
    ensures k in h.tables ==> Owed(s, h.(tables := h.tables - {k}), a) == Owed(s, h, a) - TableBill(s, a)(h.tables[k])
  {
    SumSet(h.tables, TableBill(s, a), k, v);
    if k in h.tables { SumWithout(h.tables, TableBill(s, a), k); }
  }

  lemma OwedRow(s: Sizes, h: Holdings, k: RowKey, v: Row, a: Name)
    ensures Owed(s, h.(rows := h.rows[k := v]), a)
            == Owed(s, h, a) - (if k in h.rows then RowBill(s, a)(h.rows[k]) else 0) + RowBill(s, a)(v)
    ensures k in h.rows ==> Owed(s, h.(rows := h.rows - {k}), a) == Owed(s, h, a) - RowBill(s, a)(h.rows[k])
  {
    SumSet(h.rows, RowBill(s, a), k, v);
    if k in h.rows { SumWithout(h.rows, RowBill(s, a), k); }
  }

  lemma OwedDeferred(s: Sizes, h: Holdings, k: DeferredKey, v: Deferred, a: Name)
    ensures Owed(s, h.(deferred := h.deferred[k := v]), a)
            == Owed(s, h, a) - (if k in h.deferred then DeferredBill(s, a)(h.deferred[k]) else 0) + DeferredBill(s, a)(v)
    ensures k in h.deferred ==>
              Owed(s, h.(deferred := h.deferred - {k}), a) == Owed(s, h, a) - DeferredBill(s, a)(h.deferred[k])
  {
    SumSet(h.deferred, DeferredBill(s, a), k, v);
    if k in h.deferred { SumWithout(h.deferred, DeferredBill(s, a), k); }
  }

  /** No refund exceeds what the account uses. */
  lemma Refundable(s: Sizes, h: Holdings, base: map<Name, nat>, usage: map<Name, int>, a: Name)
    requires Balanced(s, h, base, usage) && a in usage
    ensures 0 <= usage[a] <= UINT64_MAX
    ensures forall k | k in h.rows && h.rows[k].payer == a :: s.row + h.rows[k].size <= usage[a]
    ensures forall k | k in h.deferred && h.deferred[k].payer == a :: s.deferred + h.deferred[k].size <= usage[a]
    ensures forall k, l | k in h.rows && l in h.tables && h.tables[l].payer == a ::
              s.table + Bill(a, h.rows[k].payer, s.row + h.rows[k].size) <= usage[a]
  {
    SumBound(h.tables, TableBill(s, a));
    SumBound(h.rows, RowBill(s, a));
    SumBound(h.deferred, DeferredBill(s, a));
    forall k | k in h.tables && h.tables[k].payer == a ensures s.table <= Sum(h.tables, TableBill(s, a)) {
      SumAtLeast(h.tables, TableBill(s, a), k);
    }
    forall k | k in h.rows
      ensures Bill(a, h.rows[k].payer, s.row + h.rows[k].size) <= Sum(h.rows, RowBill(s, a))
    {
      SumAtLeast(h.rows, RowBill(s, a), k);
    }
    forall k | k in h.deferred && h.deferred[k].payer == a
      ensures s.deferred + h.deferred[k].size <= Sum(h.deferred, DeferredBill(s, a))
    {
      SumAtLeast(h.deferred, DeferredBill(s, a), k);
    }
  }

  lemma CountStore(rows: map<RowKey, Row>, k: RowKey, v: Row, t: TableKey)
    requires k !in rows
    ensures |RowsOf(rows[k := v], t)| == |RowsOf(rows, t)| + if k.table == t then 1 else 0
  {
    if k.table == t {
      assert RowsOf(rows[k := v], t) == RowsOf(rows, t) + {k};
    } else {
      assert RowsOf(rows[k := v], t) == RowsOf(rows, t);
    }
  }

  lemma CountRemove(rows: map<RowKey, Row>, k: RowKey, t: TableKey)
    requires k in rows
    ensures |RowsOf(rows - {k}, t)| == |RowsOf(rows, t)| - if k.table == t then 1 else 0
  {
    if k.table == t {
      assert RowsOf(rows, t) == RowsOf(rows - {k}, t) + {k};
    } else {
      assert RowsOf(rows - {k}, t) == RowsOf(rows, t);
    }
  }

  // ---------------------------------------------------------------- operations on the holdings

  ghost function Stored(h: Holdings, k: RowKey, payer: Name, size: nat): Holdings {
    var t := if k.table in h.tables then h.tables[k.table] else Table(payer, 0);
    h.(rows := h.rows[k := Row(payer, size)], tables := h.tables[k.table := t.(count := t.count + 1)])
  }

  ghost function Removed(h: Holdings, k: RowKey): Holdings
    requires k.table in h.tables && h.tables[k.table].count > 0
  {
    var t := h.tables[k.table];
    h.(rows := h.rows - {k},
       tables := if t.count == 1 then h.tables - {k.table} else h.tables[k.table := t.(count := t.count - 1)])
  }

  lemma StoredView(h: Holdings, k: RowKey, payer: Name, size: nat, with: map<TableKey, Table>)
    requires with == if k.table in h.tables then h.tables else h.tables[k.table := Table(payer, 0)]
    ensures Stored(h, k, payer, size)
            == Holdings(with[k.table := with[k.table].(count := with[k.table].count + 1)],
                        h.rows[k := Row(payer, size)], h.deferred)
  {
  }

  lemma OwedStored(s: Sizes, h: Holdings, k: RowKey, payer: Name, size: nat, a: Name)
    requires k !in h.rows
    ensures Owed(s, Stored(h, k, payer, size), a)
            == Owed(s, h, a) + Bill(a, payer, s.row + size) + if k.table in h.tables then 0 else Bill(a, payer, s.table)
  {
    var t := if k.table in h.tables then h.tables[k.table] else Table(payer, 0);
    hide Owed;
    OwedRow(s, h, k, Row(payer, size), a);
    OwedTable(s, h.(rows := h.rows[k := Row(payer, size)]), k.table, t.(count := t.count + 1), a);
  }

  lemma OwedRemoved(s: Sizes, h: Holdings, k: RowKey, a: Name)
    requires k in h.rows && k.table in h.tables && h.tables[k.table].count > 0
    ensures Owed(s, Removed(h, k), a)
            == Owed(s, h, a) - Bill(a, h.rows[k].payer, s.row + h.rows[k].size)
               - if h.tables[k.table].count == 1 then Bill(a, h.tables[k.table].payer, s.table) else 0
  {
    var t := h.tables[k.table];
    hide Owed;
    OwedRow(s, h, k, h.rows[k], a);
    OwedTable(s, h.(rows := h.rows - {k}), k.table, if t.count > 1 then t.(count := t.count - 1) else t, a);
  }

  lemma CountedStored(h: Holdings, k: RowKey, payer: Name, size: nat)
    requires Counted(h.tables, h.rows) && k !in h.rows
    ensures var h' := Stored(h, k, payer, size); Counted(h'.tables, h'.rows)
  {
    var h' := Stored(h, k, payer, size);
    if k.table !in h.tables { assert RowsOf(h.rows, k.table) == {}; }
    forall t | t in h'.tables ensures h'.tables[t].count == |RowsOf(h'.rows, t)| > 0 {
      CountStore(h.rows, k, Row(payer, size), t);
    }
  }

  lemma CountedUpdated(tables: map<TableKey, Table>, rows: map<RowKey, Row>, k: RowKey, v: Row)
    requires Counted(tables, rows) && k in rows
    ensures Counted(tables, rows[k := v])
  {
    forall t | t in tables ensures RowsOf(rows[k := v], t) == RowsOf(rows, t) { }
  }

  lemma CountedRemoved(h: Holdings, k: RowKey)
    requires Counted(h.tables, h.rows) && k in h.rows
    ensures k.table in h.tables && h.tables[k.table].count > 0
    ensures var h' := Removed(h, k); Counted(h'.tables, h'.rows)
  {
    var h' := Removed(h, k);
    forall t | t in h'.tables ensures h'.tables[t].count == |RowsOf(h'.rows, t)| > 0 {
      CountRemove(h.rows, k, t);
    }
    CountRemove(h.rows, k, k.table);
    forall j | j in h'.rows ensures j.table in h'.tables {
      assert j in RowsOf(h'.rows, j.table);
    }
  }

  // ---------------------------------------------------------------- the ledger

  class Ledger {
    const sizes: Sizes
    ghost const base: map<Name, nat>
    var usage: map<Name, int>
    var tables: map<TableKey, Table>
    var rows: map<RowKey, Row>
    var deferred: map<DeferredKey, Deferred>

    ghost function View(): Holdings
      reads this
    {
      Holdings(tables, rows, deferred)
    }

    ghost predicate Valid()
      reads this
    {
      && sizes.table > 0 && sizes.row > 0 && sizes.deferred > 0
      && Balanced(sizes, View(), base, usage) && PayersKnown(View(), usage) && Counted(tables, rows)
    }

    constructor (s: Sizes, initial: map<Name, nat>)
      requires s.table > 0 && s.row > 0 && s.deferred > 0 && forall a | a in initial :: initial[a] <= UINT64_MAX
      ensures Valid() && sizes == s && base == usage == initial && View() == Holdings(map[], map[], map[])
    {
      sizes, base, usage := s, initial, initial;
      tables, rows, deferred := map[], map[], map[];
    }

    /** Every account that pays uses the bill more than before. */
    twostate predicate Charged(a: Name, delta: int)
      reads this
    {
      usage.Keys == old(usage.Keys) && forall x | x in usage :: usage[x] == old(usage)[x] + Bill(x, a, delta)
    }

    /** update_db_usage, add_ram_usage and add_pending_ram_usage. */
    method AddUsage(a: Name, delta: int) returns (ok: bool)
      requires forall x | x in usage :: 0 <= usage[x] <= UINT64_MAX
      modifies this`usage
      ensures ok <==> delta == 0 || (a in old(usage) && 0 <= old(usage)[a] + delta <= UINT64_MAX)
      ensures if ok then Charged(a, delta) else usage == old(usage)
      ensures forall x | x in usage :: 0 <= usage[x] <= UINT64_MAX
    {
      if delta == 0 { return true; }
      if a !in usage { return false; }
      if delta > 0 && UINT64_MAX - usage[a] < delta { return false; }
      if delta < 0 && usage[a] < -delta { return false; }
      usage := usage[a := usage[a] + delta];
      return true;
    }

    /** The payer of a new row also pays for the table if there is none. */
    method FindOrCreateTable(t: TableKey, payer: Name) returns (ok: bool)
      requires sizes.table > 0 && forall x | x in usage :: 0 <= usage[x] <= UINT64_MAX
      modifies this`usage, this`tables
      ensures ok <==> t in old(tables) || (payer in old(usage) && old(usage)[payer] + sizes.table <= UINT64_MAX)
      ensures ok ==> Charged(payer, if t in old(tables) then 0 else sizes.table)
      ensures ok ==> tables == if t in old(tables) then old(tables) else old(tables)[t := Table(payer, 0)]
      ensures !ok ==> usage == old(usage) && tables == old(tables)
      ensures forall x | x in usage :: 0 <= usage[x] <= UINT64_MAX
    {
      if t in tables { return true; }
      ok := AddUsage(payer, sizes.table);
      if ok { tables := tables[t := Table(payer, 0)]; }
    }

    /** The part of db_store_i64 that can fail, which is then undone with the transaction: the table, the
        payer, a row that exists already, and the bill. */
    method BillRow(k: RowKey, payer: Name, size: nat) returns (ok: bool)
      requires sizes.table > 0 && sizes.row > 0 && forall x | x in usage :: 0 <= usage[x] <= UINT64_MAX
      modifies this`usage, this`tables
      ensures ok <==> k !in rows && payer != NOBODY && payer in old(usage)
                      && old(usage)[payer] + sizes.row + size + (if k.table in old(tables) then 0 else sizes.table) <= UINT64_MAX
      ensures ok ==> usage == old(usage)[payer := old(usage)[payer] + sizes.row + size
                                                  + if k.table in old(tables) then 0 else sizes.table]
      ensures ok ==> tables == if k.table in old(tables) then old(tables) else old(tables)[k.table := Table(payer, 0)]
      ensures !ok ==> usage == old(usage) && tables == old(tables)
      ensures forall x | x in usage :: 0 <= usage[x] <= UINT64_MAX
    {
      var usage0, tables0 := usage, tables;
      ok := FindOrCreateTable(k.table, payer);
      if !ok { return false; }
      if payer == NOBODY || k in rows {
        usage, tables := usage0, tables0;
        return false;
      }
      ok := AddUsage(payer, sizes.row + size);
      if !ok { usage, tables := usage0, tables0; }
    }

    /** db_store_i64. */
    method StoreRow(k: RowKey, payer: Name, size: nat) returns (ok: bool)
      requires Valid()
      modifies this`usage, this`tables, this`rows
      ensures Valid()
      ensures ok <==> k !in old(rows) && payer != NOBODY && payer in old(usage)
                      && old(usage)[payer] + sizes.row + size + (if k.table in old(tables) then 0 else sizes.table) <= UINT64_MAX
      ensures ok ==> View() == Stored(old(View()), k, payer, size)
      ensures ok ==>
                && rows == old(rows)[k := Row(payer, size)] && payer in old(usage)
                && tables == old(tables)[k.table := if k.table in old(tables)
                                                    then Table(old(tables)[k.table].payer, old(tables)[k.table].count + 1)
                                                    else Table(payer, 1)]
                && usage == old(usage)[payer := old(usage)[payer] + sizes.row + size
                                                + if k.table in old(tables) then 0 else sizes.table]
      ensures !ok ==> usage == old(usage) && View() == old(View())
    {
      hide Balanced, Counted, PayersKnown, Stored;
      ghost var h, usage0 := View(), usage;
      UsageRange(sizes, h, base, usage);
      ok := BillRow(k, payer, size);
      if !ok { return false; }
      StoredView(h, k, payer, size, tables);
      CountedStored(h, k, payer, size);
      StoredBalanced(sizes, h, base, usage0, k, payer, size, usage);
      rows := rows[k := Row(payer, size)];
      tables := tables[k.table := tables[k.table].(count := tables[k.table].count + 1)];
    }

    /** db_update_i64: naming nobody keeps the payer, who pays or gets back the difference; another payer
        is charged for the row, and the old one refunded. */
    method UpdateRow(k: RowKey, receiver: Name, newPayer: Name, size: nat) returns (ok: bool)
      requires Valid()
      modifies this`usage, this`rows
      ensures Valid()
      ensures ok <==> k in old(rows) && k.table.code == receiver
                      && var row := old(rows)[k];
                      if newPayer == NOBODY || newPayer == row.payer
                      then row.payer in old(usage) && old(usage)[row.payer] + size - row.size <= UINT64_MAX
                      else newPayer in old(usage) && old(usage)[newPayer] + sizes.row + size <= UINT64_MAX
      ensures ok && (newPayer == NOBODY || newPayer == old(rows)[k].payer) ==>
                var row := old(rows)[k];
                && rows == old(rows)[k := Row(row.payer, size)] && row.payer in old(usage)
                && usage == old(usage)[row.payer := old(usage)[row.payer] + size - row.size]
      ensures ok && newPayer != NOBODY && newPayer != old(rows)[k].payer ==>
                var row := old(rows)[k];
                && rows == old(rows)[k := Row(newPayer, size)] && row.payer in old(usage) && newPayer in old(usage)
                && usage == old(usage)[row.payer := old(usage)[row.payer] - sizes.row - row.size]
                                      [newPayer := old(usage)[newPayer] + sizes.row + size]
      ensures !ok ==> usage == old(usage) && rows == old(rows)
    {
      hide Balanced, Counted, PayersKnown;
      if k !in rows || k.table.code != receiver { return false; }
      ghost var h := View();
      UsageRange(sizes, h, base, usage);
      RowRefund(sizes, h, base, usage, k);
      var usage0, row := usage, rows[k];
      var payer := if newPayer == NOBODY then row.payer else newPayer;
      var oldSize, newSize := row.size + sizes.row, size + sizes.row;
      if row.payer != payer {
        ok := AddUsage(row.payer, -oldSize);
        assert ok;
        ok := AddUsage(payer, newSize);
        if !ok {
          usage := usage0;
          return false;
        }
      } else if oldSize != newSize {
        ok := AddUsage(row.payer, newSize - oldSize);
        if !ok { return false; }
      }
      rows := rows[k := Row(payer, size)];
      CountedUpdated(tables, h.rows, k, Row(payer, size));
      UpdatedBalanced(sizes, h, base, usage0, k, payer, size, usage);
      return true;
    }

    /** Refunds a row, and its table if it is the last one. */
    method RefundRow(k: RowKey)
      requires k in rows && k.table in tables && forall x | x in usage :: 0 <= usage[x] <= UINT64_MAX
      requires var row, t := rows[k], tables[k.table];
               && row.payer in usage && sizes.row + row.size <= usage[row.payer] && t.payer in usage
               && sizes.table + (if t.payer == row.payer then sizes.row + row.size else 0) <= usage[t.payer]
      modifies this`usage
      ensures usage.Keys == old(usage).Keys
      ensures forall a | a in usage ::
                0 <= usage[a] == old(usage)[a] - (if a == rows[k].payer then sizes.row + rows[k].size else 0)
                                 - (if tables[k.table].count == 1 && a == tables[k.table].payer then sizes.table else 0)
    {
      var ok := AddUsage(rows[k].payer, -(rows[k].size + sizes.row));
      assert ok;
      if tables[k.table].count == 1 {
        ok := AddUsage(tables[k.table].payer, -(sizes.table as int));
        assert ok;
      }
    }

    /** db_remove_i64: the last row takes its table with it. No refund can fail. */
    method RemoveRow(k: RowKey, receiver: Name) returns (ok: bool)
      requires Valid()
      modifies this`usage, this`rows, this`tables
      ensures Valid() && ok == (k in old(rows) && k.table.code == receiver)
      ensures ok ==> k.table in old(tables) && old(tables)[k.table].count > 0 && View() == Removed(old(View()), k)
      ensures ok ==>
                var row, t := old(rows)[k], old(tables)[k.table];
                && rows == old(rows) - {k} && usage.Keys == old(usage).Keys
                && tables == (if t.count == 1 then old(tables) - {k.table}
                              else old(tables)[k.table := Table(t.payer, t.count - 1)])
                && forall a | a in usage ::
                     usage[a] == old(usage)[a] - (if a == row.payer then sizes.row + row.size else 0)
                                 - (if t.count == 1 && a == t.payer then sizes.table else 0)
      ensures !ok ==> usage == old(usage) && View() == old(View())
    {
      hide Balanced, Counted, PayersKnown;
      if k !in rows || k.table.code != receiver { return false; }
      ghost var h, usage0 := View(), usage;
      UsageRange(sizes, h, base, usage);
      CountedRemoved(h, k);
      RowRefund(sizes, h, base, usage, k);
      RefundRow(k);
      var t := tables[k.table].(count := tables[k.table].count - 1);
      tables := tables[k.table := t];
      rows := rows - {k};
      if t.count == 0 { tables := tables - {k.table}; }
      assert View() == Removed(h, k);
      RemovedBalanced(sizes, h, base, usage0, k, usage);
      return true;
    }

    /** Refunds the deferred transaction that is replaced, if there is one, and charges the new one. */
    method BillDeferred(k: DeferredKey, payer: Name, size: nat) returns (ok: bool)
      requires sizes.deferred > 0 && forall x | x in usage :: 0 <= usage[x] <= UINT64_MAX
      requires k in deferred ==> deferred[k].payer in usage && sizes.deferred + deferred[k].size <= usage[deferred[k].payer]
      modifies this`usage
      ensures ok <==> payer in old(usage)
                      && old(usage)[payer] + sizes.deferred + size
                         - (if k in deferred && payer == deferred[k].payer then sizes.deferred + deferred[k].size else 0)
                         <= UINT64_MAX
      ensures ok ==> usage.Keys == old(usage).Keys
                     && forall a | a in usage ::
                          usage[a] == old(usage)[a] + (if a == payer then sizes.deferred + size else 0)
                                      - (if k in deferred && a == deferred[k].payer
                                         then sizes.deferred + deferred[k].size else 0)
      ensures !ok ==> usage == old(usage)
      ensures forall x | x in usage :: 0 <= usage[x] <= UINT64_MAX
    {
      var usage0 := usage;
      if k in deferred {
        ok := AddUsage(deferred[k].payer, -(sizes.deferred + deferred[k].size));
        assert ok;
      }
      ok := AddUsage(payer, sizes.deferred + size);
      if !ok { usage := usage0; }
    }

    /** schedule_deferred_transaction and, with nobody as sender, the scheduling of a delayed
        transaction. An existing one is refunded to its own payer. */
    method ScheduleDeferred(k: DeferredKey, payer: Name, size: nat, replace: bool) returns (ok: bool)
      requires Valid()
      modifies this`usage, this`deferred
      ensures Valid()
      ensures ok <==> (k in old(deferred) ==> replace) && payer in old(usage)
                      && old(usage)[payer] + sizes.deferred + size
                         - (if k in old(deferred) && payer == old(deferred)[k].payer
                            then sizes.deferred + old(deferred)[k].size else 0)
                         <= UINT64_MAX
      ensures ok ==> deferred == old(deferred)[k := Deferred(payer, size)]
      ensures ok ==> usage.Keys == old(usage).Keys
                     && forall a | a in usage ::
                          usage[a] == old(usage)[a] + (if a == payer then sizes.deferred + size else 0)
                                      - (if k in old(deferred) && a == old(deferred)[k].payer
                                         then sizes.deferred + old(deferred)[k].size else 0)
      ensures !ok ==> usage == old(usage) && deferred == old(deferred)
    {
      hide Balanced, Counted, PayersKnown;
      if k in deferred && !replace { return false; }
      ghost var h, usage0 := View(), usage;
      UsageRange(sizes, h, base, usage);
      if k in deferred { DeferredRefund(sizes, h, base, usage, k); }
      ok := BillDeferred(k, payer, size);
      if !ok { return false; }
      deferred := deferred - {k};
      deferred := deferred[k := Deferred(payer, size)];
      assert deferred == h.deferred[k := Deferred(payer, size)];
      ScheduledBalanced(sizes, h, base, usage0, k, payer, size, usage);
    }

    /** cancel_deferred_transaction and remove_scheduled_transaction: the refund cannot fail. */
    method RemoveDeferred(k: DeferredKey) returns (found: bool)
      requires Valid()
      modifies this`usage, this`deferred
      ensures Valid() && found == (k in old(deferred)) && deferred == old(deferred) - {k}
      ensures !found ==> usage == old(usage)
      ensures found ==> usage.Keys == old(usage).Keys
                        && forall a | a in usage ::
                             usage[a] == old(usage)[a]
                                         - if a == old(deferred)[k].payer then sizes.deferred + old(deferred)[k].size else 0
    {
      hide Balanced, Counted, PayersKnown;
      if k !in deferred { return false; }
      ghost var h, usage0 := View(), usage;
      UsageRange(sizes, h, base, usage);
      DeferredRefund(sizes, h, base, usage, k);
      var ok := AddUsage(deferred[k].payer, -(sizes.deferred + deferred[k].size));
      assert ok;
      deferred := deferred - {k};
      CancelledBalanced(sizes, h, base, usage0, k, usage);
      return true;
    }
  }

  lemma UsageRange(s: Sizes, h: Holdings, base: map<Name, nat>, usage: map<Name, int>)
    requires Balanced(s, h, base, usage)
    ensures forall a | a in usage :: 0 <= usage[a] <= UINT64_MAX
  {
    hide Balanced;
    forall a | a in usage ensures 0 <= usage[a] <= UINT64_MAX { Refundable(s, h, base, usage, a); }
  }

  lemma RowRefund(s: Sizes, h: Holdings, base: map<Name, nat>, usage: map<Name, int>, k: RowKey)
    requires Balanced(s, h, base, usage) && PayersKnown(h, usage) && k in h.rows
    ensures h.rows[k].payer in usage && s.row + h.rows[k].size <= usage[h.rows[k].payer]
    ensures k.table in h.tables ==>
              var t := h.tables[k.table].payer;
              t in usage && s.table + Bill(t, h.rows[k].payer, s.row + h.rows[k].size) <= usage[t]
  {
    hide Balanced;
    Refundable(s, h, base, usage, h.rows[k].payer);
    if k.table in h.tables { Refundable(s, h, base, usage, h.tables[k.table].payer); }
  }

  lemma DeferredRefund(s: Sizes, h: Holdings, base: map<Name, nat>, usage: map<Name, int>, k: DeferredKey)
    requires Balanced(s, h, base, usage) && PayersKnown(h, usage) && k in h.deferred
    ensures var d := h.deferred[k]; d.payer in usage && s.deferred + d.size <= usage[d.payer]
  {
    hide Balanced;
    Refundable(s, h, base, usage, h.deferred[k].payer);
  }

  // ---------------------------------------------------------------- balance after each operation

  /** What is charged to each account is what it owes more. */
  ghost predicate Moved(s: Sizes, h: Holdings, usage: map<Name, int>, h': Holdings, usage': map<Name, int>) {
    && usage'.Keys == usage.Keys
    && forall a | a in usage ::
         usage'[a] == usage[a] + Owed(s, h', a) - Owed(s, h, a) <= UINT64_MAX
  }

  lemma MovedBalanced(s: Sizes, h: Holdings, base: map<Name, nat>, usage: map<Name, int>, h': Holdings, usage': map<Name, int>)
    requires Balanced(s, h, base, usage) && Moved(s, h, usage, h', usage')
    ensures Balanced(s, h', base, usage')
  {
    hide Owed;
  }

  lemma StoredBalanced(s: Sizes, h: Holdings, base: map<Name, nat>, usage: map<Name, int>,
      k: RowKey, payer: Name, size: nat, usage': map<Name, int>)
    requires Balanced(s, h, base, usage) && PayersKnown(h, usage) && k !in h.rows && payer in usage
    requires usage'.Keys == usage.Keys
    requires forall a | a in usage ::
               usage'[a] == usage[a] + Bill(a, payer, s.row + size)
                            + (if k.table in h.tables then 0 else Bill(a, payer, s.table)) <= UINT64_MAX
    ensures var h' := Stored(h, k, payer, size); Balanced(s, h', base, usage') && PayersKnown(h', usage')
  {
    hide Owed, Balanced;
    forall a | a in usage { OwedStored(s, h, k, payer, size, a); }
    MovedBalanced(s, h, base, usage, Stored(h, k, payer, size), usage');
  }

  lemma UpdatedBalanced(s: Sizes, h: Holdings, base: map<Name, nat>, usage: map<Name, int>,
      k: RowKey, payer: Name, size: nat, usage': map<Name, int>)
    requires Balanced(s, h, base, usage) && PayersKnown(h, usage) && k in h.rows && payer in usage
    requires usage'.Keys == usage.Keys
    requires forall a | a in usage ::
               usage'[a] == usage[a] - Bill(a, h.rows[k].payer, s.row + h.rows[k].size)
                            + Bill(a, payer, s.row + size) <= UINT64_MAX
    ensures var h' := h.(rows := h.rows[k := Row(payer, size)]); Balanced(s, h', base, usage') && PayersKnown(h', usage')
  {
    hide Owed, Balanced;
    forall a | a in usage { OwedRow(s, h, k, Row(payer, size), a); }
    MovedBalanced(s, h, base, usage, h.(rows := h.rows[k := Row(payer, size)]), usage');
  }

  lemma RemovedBalanced(s: Sizes, h: Holdings, base: map<Name, nat>, usage: map<Name, int>, k: RowKey, usage': map<Name, int>)
    requires Balanced(s, h, base, usage) && PayersKnown(h, usage) && k in h.rows
    requires k.table in h.tables && h.tables[k.table].count > 0 && usage'.Keys == usage.Keys
    requires forall a | a in usage ::
               usage'[a] == usage[a] - Bill(a, h.rows[k].payer, s.row + h.rows[k].size)
                            - (if h.tables[k.table].count == 1 then Bill(a, h.tables[k.table].payer, s.table) else 0)
               && usage'[a] <= UINT64_MAX
    ensures var h' := Removed(h, k); Balanced(s, h', base, usage') && PayersKnown(h', usage')
  {
    hide Owed, Balanced;
    forall a | a in usage { OwedRemoved(s, h, k, a); }
    MovedBalanced(s, h, base, usage, Removed(h, k), usage');
  }

  lemma ScheduledBalanced(s: Sizes, h: Holdings, base: map<Name, nat>, usage: map<Name, int>,
      k: DeferredKey, payer: Name, size: nat, usage': map<Name, int>)
    requires Balanced(s, h, base, usage) && PayersKnown(h, usage) && payer in usage && usage'.Keys == usage.Keys
    requires forall a | a in usage ::
               usage'[a] == usage[a] + Bill(a, payer, s.deferred + size)
                            - (if k in h.deferred then Bill(a, h.deferred[k].payer, s.deferred + h.deferred[k].size) else 0)
               && usage'[a] <= UINT64_MAX
    ensures var h' := h.(deferred := h.deferred[k := Deferred(payer, size)]);
            Balanced(s, h', base, usage') && PayersKnown(h', usage')
  {
    hide Owed, Balanced;
    forall a | a in usage { OwedDeferred(s, h, k, Deferred(payer, size), a); }
    MovedBalanced(s, h, base, usage, h.(deferred := h.deferred[k := Deferred(payer, size)]), usage');
  }

  lemma CancelledBalanced(s: Sizes, h: Holdings, base: map<Name, nat>, usage: map<Name, int>, k: DeferredKey, usage': map<Name, int>)
    requires Balanced(s, h, base, usage) && PayersKnown(h, usage) && k in h.deferred && usage'.Keys == usage.Keys
    requires forall a | a in usage ::
               usage'[a] == usage[a] - Bill(a, h.deferred[k].payer, s.deferred + h.deferred[k].size)
               && usage'[a] <= UINT64_MAX
    ensures var h' := h.(deferred := h.deferred - {k}); Balanced(s, h', base, usage') && PayersKnown(h', usage')
  {
    hide Owed, Balanced;
    forall a | a in usage { OwedDeferred(s, h, k, h.deferred[k], a); }
    MovedBalanced(s, h, base, usage, h.(deferred := h.deferred - {k}), usage');
  }
}
