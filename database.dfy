/** The JSON-file record store: seven named tables of loosely typed records with
    one auto-increment counter per table, driven through a prepared-statement
    facade that understands a small subset of SQL. A statement reaches the
    store already taken apart into the pieces its regular expressions would
    extract (`Statement`); the interpreter over those pieces, the state
    changes and the persistence of the whole state after every write are
    modelled here. */
module Database {
  import opened JsValues
  import opened JsArrays

  // ---------------------------------------------------------------------------
  // Records and statements

  /** A row: field name to value. A field the row lacks reads as `undefined`;
      writing `undefined` into a field is modelled as removing it. Field
      lookup, comparison and the saved JSON are the same either way; a test of
      the keys (`'f' in row`, `Object.keys`, spread) would still see the field
      until the store is reopened. */
  type Record = map<string, Value>

  /** `record[f]` */
  function Field(r: Record, f: string): Value {
    if f in r then r[f] else Undefined
  }

  /** `params[i]`: `undefined` past the end. */
  function Param(params: seq<Value>, i: nat): Value {
    if i < |params| then params[i] else Undefined
  }

  /** `record[f] = v` */
  function Assign(r: Record, f: string, v: Value): (r': Record)
    ensures Field(r', f) == v
    ensures forall g :: g != f ==> Field(r', g) == Field(r, g)
  {
    if v == Undefined then r - {f} else r[f := v]
  }

  /** The tables a fresh store starts with. */
  const TableNames: seq<string> :=
    ["users", "focus_sessions", "daily_goals", "sleep_records", "app_usage", "notifications", "refresh_tokens"]

  /** One of the `AND`-separated conditions of a `WHERE` clause: `f = ?`
      (possibly with `COLLATE NOCASE`), `f >= ?`, `f <= ?`, or anything else. */
  datatype Cond = Eq(field: string, nocase: bool) | Ge(field: string) | Le(field: string) | Unrecognised

  /** One of the comma-separated clauses of `SET`: `f = ?` or anything else. */
  datatype SetClause = AssignParam(field: string) | Unassignable

  datatype Order = Order(field: string, desc: bool)

  /** What the regular expressions of the store extract from one SQL text:
      - `table`: the word after `FROM`, `INTO` or `UPDATE`;
      - `insert`, `update`, `delete`: whether the lower-cased text contains that word;
      - `columns`: the trimmed names of a `(c1, c2, ...) VALUES` list;
      - `sets`: the clauses between `SET` and `WHERE`;
      - `conditions`: the text after `WHERE`, split on `AND`;
      - `orderBy`, `limit`, `offset`: `ORDER BY f [ASC|DESC]`, `LIMIT n`, `OFFSET k` with literal digits. */
  datatype Statement = Statement(
    table: Option<string>,
    insert: bool,
    update: bool,
    delete: bool,
    columns: Option<seq<string>>,
    sets: Option<seq<SetClause>>,
    conditions: Option<seq<Cond>>,
    orderBy: Option<Order>,
    limit: Option<nat>,
    offset: Option<nat>)

  /** What `run` answers: `{ lastInsertRowid }` or `{ changes }`. */
  datatype WriteResult = LastInsertRowid(id: nat) | Changes(count: nat)

  /** The whole state of a store: the tables and their counters. */
  datatype Snapshot = Snapshot(data: map<string, seq<Record>>, counters: map<string, nat>)

  /** Every table has a counter, so an insert never meets a missing one. */
  predicate StoreOk(s: Snapshot) {
    s.data.Keys <= s.counters.Keys
  }

  function TableOf(s: Snapshot, st: Statement): Option<string> {
    if st.table.Some? && st.table.value in s.data then st.table else None
  }

  // ---------------------------------------------------------------------------
  // Reads: WHERE, then ORDER BY, then LIMIT, then OFFSET

  /** `=` of a condition: with `COLLATE NOCASE` and two strings, equality after
      lower-casing; otherwise loose equality. */
  predicate EqHolds(field: Value, param: Value, nocase: bool) {
    if nocase && field.Str? && param.Str? then ToLower(field.s) == ToLower(param.s)
    else LooseEq(field, param)
  }

  /** A record against the conditions of a read; each `=`, `>=` or `<=`
      condition takes the next parameter, starting at index `next`. */
  predicate WhereHolds(r: Record, conds: seq<Cond>, params: seq<Value>, next: nat)
    decreases |conds|
  {
    if conds == [] then true
    else match conds[0]
      case Eq(f, nocase) =>
        EqHolds(Field(r, f), Param(params, next), nocase) && WhereHolds(r, conds[1..], params, next + 1)
      case Ge(f) =>
        GreaterEq(Field(r, f), Param(params, next)) && WhereHolds(r, conds[1..], params, next + 1)
      case Le(f) =>
        LessEq(Field(r, f), Param(params, next)) && WhereHolds(r, conds[1..], params, next + 1)
      case Unrecognised =>
        WhereHolds(r, conds[1..], params, next)
  }

  /** How many parameters a list of read conditions takes. */
  function ParamsTaken(conds: seq<Cond>): nat
    decreases |conds|
  {
    if conds == [] then 0
    else (if conds[0].Unrecognised? then 0 else 1) + ParamsTaken(conds[1..])
  }

  /** Conditions are checked left to right and the parameters are taken in the
      same order: the second half of a list starts where the first one stopped,
      and an unrecognised condition takes none. */
  lemma {:induction false} WhereHoldsConcat(r: Record, c1: seq<Cond>, c2: seq<Cond>, params: seq<Value>, next: nat)
    ensures WhereHolds(r, c1 + c2, params, next)
        == (WhereHolds(r, c1, params, next) && WhereHolds(r, c2, params, next + ParamsTaken(c1)))
    decreases |c1|
  {
    if c1 == [] {
      assert c1 + c2 == c2;
    } else {
      assert (c1 + c2)[0] == c1[0];
      assert (c1 + c2)[1..] == c1[1..] + c2;
      var step := if c1[0].Unrecognised? then 0 else 1;
      WhereHoldsConcat(r, c1[1..], c2, params, next + step);
    }
  }

  /** `COLLATE NOCASE` ignores the case of ASCII letters. */
  lemma NocaseIgnoresCase(a: string)
    ensures EqHolds(Str(a), Str(ToLower(a)), true)
  {
    assert ToLower(ToLower(a)) == ToLower(a);
  }

  /** The comparator of `ORDER BY`: `a` goes first when its field is smaller
      (ascending) or greater (descending). */
  function Before(o: Order): (Record, Record) -> bool {
    (a: Record, b: Record) =>
      if o.desc then Greater(Field(a, o.field), Field(b, o.field))
      else Less(Field(a, o.field), Field(b, o.field))
  }

  function Where(rows: seq<Record>, conds: Option<seq<Cond>>, params: seq<Value>): (r: seq<Record>)
    ensures forall x :: x in r ==> x in rows
    ensures |r| <= |rows|
  {
    match conds
    case None => rows
    case Some(c) => Filter(rows, (x: Record) => WhereHolds(x, c, params, 0))
  }

  function OrderBy(rows: seq<Record>, o: Option<Order>): (r: seq<Record>)
    ensures multiset(r) == multiset(rows)
  {
    match o
    case None => rows
    case Some(ord) => SortBy(rows, Before(ord))
  }

  function Limit(rows: seq<Record>, n: Option<nat>): seq<Record> {
    match n
    case None => rows
    case Some(m) => Slice(rows, 0, m)
  }

  /** `OFFSET k` slices `[k, k + n)`, where `n` is the `LIMIT` when there is one
      and the current number of rows otherwise. */
  function Offset(rows: seq<Record>, n: Option<nat>, k: Option<nat>): seq<Record> {
    match k
    case None => rows
    case Some(off) => Slice(rows, off, off + n.GetOr(|rows|))
  }

  /** The rows `all` returns (`get` returns the first of them). */
  function ReadRows(s: Snapshot, st: Statement, params: seq<Value>): (r: seq<Record>)
    ensures TableOf(s, st).None? ==> r == []
    ensures forall x :: x in r ==>
      TableOf(s, st).Some? && x in s.data[st.table.value]
      && (st.conditions.Some? ==> WhereHolds(x, st.conditions.value, params, 0))
    ensures st.limit.Some? ==> |r| <= st.limit.value
  {
    match TableOf(s, st)
    case None => []
    case Some(t) =>
      var w := Where(s.data[t], st.conditions, params);
      var o := OrderBy(w, st.orderBy);
      var l := Limit(o, st.limit);
      var r := Offset(l, st.limit, st.offset);
      assert forall x :: x in r ==> x in multiset(o) by {
        forall x | x in r ensures x in multiset(o) { assert x in l; }
      }
      assert forall x :: x in r ==> x in w by {
        forall x | x in r ensures x in w { assert x in multiset(w); }
      }
      r
  }

  /** What `get` returns: the first row of the read, `undefined` when there is none. */
  function ReadFirst(s: Snapshot, st: Statement, params: seq<Value>): (r: Option<Record>)
    ensures r.Some? <==> |ReadRows(s, st, params)| > 0
    ensures r.Some? ==> r.value == ReadRows(s, st, params)[0]
  {
    var rows := ReadRows(s, st, params);
    if |rows| > 0 then Some(rows[0]) else None
  }

  /** How many rows a read returns: with `m` matching rows, `LIMIT n` and
      `OFFSET k`, it is `max(0, min(n, m) - k)`. */
  lemma ReadRowsCount(s: Snapshot, st: Statement, params: seq<Value>)
    requires TableOf(s, st).Some?
    ensures var m := |Where(s.data[st.table.value], st.conditions, params)|;
            var n := st.limit.GetOr(m);
            var kept := if n < m then n else m;
            var k := st.offset.GetOr(0);
            |ReadRows(s, st, params)| == (if k < kept then kept - k else 0)
  {
    var t := st.table.value;
    var w := Where(s.data[t], st.conditions, params);
    var o := OrderBy(w, st.orderBy);
    assert |o| == |w| by { assert |multiset(o)| == |multiset(w)|; }
    var l := Limit(o, st.limit);
    if st.limit.Some? { SliceNonNegative(o, 0, st.limit.value); }
    if st.offset.Some? {
      SliceNonNegative(l, st.offset.value, st.offset.value + st.limit.GetOr(|l|));
    }
  }

  /** `LIMIT` is applied before `OFFSET`: of three matching rows, `LIMIT 2
      OFFSET 1` returns one row. */
  lemma LimitBeforeOffset(rows: seq<Record>)
    requires |rows| == 3
    ensures var s := Snapshot(map["users" := rows], map["users" := |rows|]);
            var st := Statement(Some("users"), false, false, false, None, None, None, None, Some(2), Some(1));
            |ReadRows(s, st, [])| == 1
  {
    var s := Snapshot(map["users" := rows], map["users" := |rows|]);
    var st := Statement(Some("users"), false, false, false, None, None, None, None, Some(2), Some(1));
    ReadRowsCount(s, st, []);
  }

  /** A read without conditions, order, limit and offset is the whole table,
      so `get` answers its first row. */
  lemma ReadFirstWithoutWhere(s: Snapshot, st: Statement, params: seq<Value>)
    requires TableOf(s, st).Some?
    requires st.conditions.None? && st.orderBy.None? && st.limit.None? && st.offset.None?
    ensures ReadRows(s, st, params) == s.data[st.table.value]
    ensures ReadFirst(s, st, params) == if s.data[st.table.value] == [] then None else Some(s.data[st.table.value][0])
  {
  }

  /** A read is a contiguous window of the matching rows in their `ORDER BY`
      order (table order without one): `LIMIT n` keeps the first `n`, then
      `OFFSET k` drops the first `k` of those. */
  lemma ReadRowsWindow(s: Snapshot, st: Statement, params: seq<Value>)
    requires TableOf(s, st).Some?
    ensures var w := Where(s.data[st.table.value], st.conditions, params);
            var o := OrderBy(w, st.orderBy);
            var n := st.limit.GetOr(|w|);
            var kept := if n < |w| then n else |w|;
            var k := st.offset.GetOr(0);
            |o| == |w| && ReadRows(s, st, params) == o[(if k < kept then k else kept)..kept]
    ensures st.orderBy.None? ==> OrderBy(Where(s.data[st.table.value], st.conditions, params), st.orderBy)
                                 == Where(s.data[st.table.value], st.conditions, params)
  {
    var w := Where(s.data[st.table.value], st.conditions, params);
    var o := OrderBy(w, st.orderBy);
    assert |o| == |w| by { assert |multiset(o)| == |multiset(w)|; }
    var l := Limit(o, st.limit);
    if st.limit.Some? { SlicePrefix(o, st.limit.value); }
    if st.offset.Some? {
      SliceNonNegative(l, st.offset.value, st.offset.value + st.limit.GetOr(|l|));
    }
  }

  /** The sort key of every row is a number, or the sort key of every row is a string. */
  ghost predicate UniformKeys(rows: seq<Record>, f: string) {
    (forall x :: x in rows ==> Field(x, f).Num?) || (forall x :: x in rows ==> Field(x, f).Str?)
  }

  lemma BeforeStrict(rows: seq<Record>, o: Order)
    requires UniformKeys(rows, o.field)
    ensures StrictOn(rows, Before(o))
  {
    forall a | a in rows ensures !Before(o)(a, a) {
      if Field(a, o.field).Str? { StrLessIrreflexive(Field(a, o.field).s); }
    }
    forall a, b, c | a in rows && b in rows && c in rows && Before(o)(a, b) && Before(o)(b, c)
      ensures Before(o)(a, c)
    {
      var x, y, z := Field(a, o.field), Field(b, o.field), Field(c, o.field);
      if x.Str? && y.Str? && z.Str? {
        if o.desc { StrLessTransitive(z.s, y.s, x.s); } else { StrLessTransitive(x.s, y.s, z.s); }
      }
    }
  }

  /** With `ORDER BY f` over rows whose `f` values are all numbers or all
      strings, the rows come out in that order. */
  lemma ReadRowsSorted(s: Snapshot, st: Statement, params: seq<Value>)
    requires TableOf(s, st).Some? && st.orderBy.Some?
    requires UniformKeys(Where(s.data[st.table.value], st.conditions, params), st.orderBy.value.field)
    ensures SortedBy(ReadRows(s, st, params), Before(st.orderBy.value))
  {
    var o := st.orderBy.value;
    var w := Where(s.data[st.table.value], st.conditions, params);
    BeforeStrict(w, o);
    SortBySorted(w, Before(o));
    var sorted := SortBy(w, Before(o));
    var l := Limit(sorted, st.limit);
    SortedSlice(sorted, 0, st.limit.GetOr(0), Before(o));
    assert SortedBy(l, Before(o));
    if st.offset.Some? {
      SortedSlice(l, st.offset.value, st.offset.value + st.limit.GetOr(|l|), Before(o));
    }
  }

  lemma SortedSlice(s: seq<Record>, start: int, end: int, before: (Record, Record) -> bool)
    requires SortedBy(s, before)
    ensures SortedBy(Slice(s, start, end), before)
  {
    var from := ClampIndex(start, |s|);
    var to := ClampIndex(end, |s|);
    if from < to {
      var r := s[from..to];
      forall i, j | 0 <= i < j < |r| ensures !before(r[j], r[i]) {
        assert r[i] == s[from + i] && r[j] == s[from + j];
      }
    }
  }

  // ---------------------------------------------------------------------------
  // Writes: insert, update, delete

  /** The record `_parseInsert` builds from `base` and a column list: column `i`
      is set to `params[i]` when that parameter is defined, later columns
      overriding earlier ones of the same name. */
  function PutColumns(base: Record, cols: seq<string>, params: seq<Value>): Record
    decreases |cols|
  {
    if cols == [] then base
    else
      var last := |cols| - 1;
      var prev := PutColumns(base, cols[..last], params);
      if Param(params, last) != Undefined then prev[cols[last] := Param(params, last)] else prev
  }

  /** A field that no column with a defined parameter names keeps its value from `base`. */
  lemma {:induction false} PutColumnsKeeps(base: Record, cols: seq<string>, params: seq<Value>, f: string)
    requires forall i :: 0 <= i < |cols| && cols[i] == f ==> Param(params, i) == Undefined
    ensures Field(PutColumns(base, cols, params), f) == Field(base, f)
    decreases |cols|
  {
    if cols != [] {
      var last := |cols| - 1;
      assert forall i :: 0 <= i < last ==> cols[..last][i] == cols[i];
      PutColumnsKeeps(base, cols[..last], params, f);
    }
  }

  /** Column `i` with a defined parameter, and no later defined column of the
      same name, leaves `params[i]` in its field. */
  lemma {:induction false} PutColumnsSets(base: Record, cols: seq<string>, params: seq<Value>, i: nat)
    requires i < |cols| && Param(params, i) != Undefined
    requires forall j :: i < j < |cols| && cols[j] == cols[i] ==> Param(params, j) == Undefined
    ensures Field(PutColumns(base, cols, params), cols[i]) == Param(params, i)
    decreases |cols|
  {
    var last := |cols| - 1;
    if i < last {
      assert forall j :: 0 <= j < last ==> cols[..last][j] == cols[j];
      PutColumnsSets(base, cols[..last], params, i);
    }
  }

  /** The record an insert appends: just `{ id }` without a column list, else
      `id` and `createdAt` overlaid with the defined column values. */
  function InsertedRecord(columns: Option<seq<string>>, params: seq<Value>, id: nat, now: string): Record {
    match columns
    case None => map["id" := Num(id)]
    case Some(cols) => PutColumns(map["id" := Num(id), "createdAt" := Str(now)], cols, params)
  }

  /** A record against the conditions of an update or a delete: only `f = ?`
      conditions count, each loosely equal to the next parameter, starting at
      index `next`. */
  predicate WriteMatches(r: Record, conds: seq<Cond>, params: seq<Value>, next: nat)
    decreases |conds|
  {
    if conds == [] then true
    else if conds[0].Eq? then
      LooseEq(Field(r, conds[0].field), Param(params, next)) && WriteMatches(r, conds[1..], params, next + 1)
    else WriteMatches(r, conds[1..], params, next)
  }

  /** The `SET` clauses applied in order: clause `i` of the form `f = ?` sets `f`
      to `params[i]`; other clauses set nothing but still take their index. */
  function ApplySets(r: Record, sets: seq<SetClause>, params: seq<Value>): Record
    decreases |sets|
  {
    if sets == [] then r
    else
      var last := |sets| - 1;
      var prev := ApplySets(r, sets[..last], params);
      match sets[last]
      case AssignParam(f) => Assign(prev, f, Param(params, last))
      case Unassignable => prev
  }

  /** A field no clause names keeps its value. */
  lemma {:induction false} ApplySetsKeeps(r: Record, sets: seq<SetClause>, params: seq<Value>, f: string)
    requires forall i :: 0 <= i < |sets| ==> sets[i] != AssignParam(f)
    ensures Field(ApplySets(r, sets, params), f) == Field(r, f)
    decreases |sets|
  {
    if sets != [] {
      var last := |sets| - 1;
      assert forall i :: 0 <= i < last ==> sets[..last][i] == sets[i];
      ApplySetsKeeps(r, sets[..last], params, f);
    }
  }

  /** A field takes the parameter of the last clause that names it. */
  lemma {:induction false} ApplySetsLastWins(r: Record, sets: seq<SetClause>, params: seq<Value>, i: nat)
    requires i < |sets| && sets[i].AssignParam?
    requires forall j :: i < j < |sets| ==> sets[j] != AssignParam(sets[i].field)
    ensures Field(ApplySets(r, sets, params), sets[i].field) == Param(params, i)
    decreases |sets|
  {
    var last := |sets| - 1;
    if i < last {
      assert forall j :: i < j < last ==> sets[..last][j] == sets[j];
      ApplySetsLastWins(r, sets[..last], params, i);
    }
  }

  /** A matching record after an update: its `SET` fields, then `updatedAt`. */
  function UpdatedRecord(r: Record, sets: seq<SetClause>, params: seq<Value>, now: string): Record {
    Assign(ApplySets(r, sets, params), "updatedAt", Str(now))
  }

  /** An update of one row: the `WHERE` parameters follow the `SET` ones. */
  function UpdateRow(r: Record, sets: seq<SetClause>, conds: seq<Cond>, params: seq<Value>, now: string): Record {
    if WriteMatches(r, conds, params, |sets|) then UpdatedRecord(r, sets, params, now) else r
  }

  function UpdateRows(rows: seq<Record>, sets: seq<SetClause>, conds: seq<Cond>, params: seq<Value>, now: string): (r: seq<Record>)
    ensures |r| == |rows|
  {
    seq(|rows|, i requires 0 <= i < |rows| => UpdateRow(rows[i], sets, conds, params, now))
  }

  /** `UPDATE ... SET ... WHERE id = ?` run with no parameter beyond the `SET`
      clauses (a `SET` clause that is not `f = ?` still takes an index) compares
      each id with `undefined`: no row with a numeric id changes. */
  lemma ShiftedIdUpdateChangesNothing(rows: seq<Record>, sets: seq<SetClause>, params: seq<Value>, now: string)
    requires |params| <= |sets|
    requires forall i :: 0 <= i < |rows| ==> Field(rows[i], "id").Num?
    ensures UpdateRows(rows, sets, [Eq("id", false)], params, now) == rows
  {
    forall i | 0 <= i < |rows|
      ensures UpdateRow(rows[i], sets, [Eq("id", false)], params, now) == rows[i]
    {
      assert Param(params, |sets|) == Undefined;
      assert !WriteMatches(rows[i], [Eq("id", false)], params, |sets|);
    }
  }

  /** The rows a delete keeps: those that fail some `=` condition. */
  function DeleteRows(rows: seq<Record>, conds: seq<Cond>, params: seq<Value>): seq<Record> {
    Filter(rows, Survives(conds, params))
  }

  /** The test a delete keeps a row by. */
  function Survives(conds: seq<Cond>, params: seq<Value>): Record -> bool {
    (x: Record) => !WriteMatches(x, conds, params, 0)
  }

  /** Whether a statement reaches one of the three write branches (and saves). */
  predicate Writes(s: Snapshot, st: Statement) {
    TableOf(s, st).Some? && (st.insert || st.update || st.delete)
  }

  /** What `run` does to the store and what it answers. The lower-cased text is
      tested for `insert`, then `update`, then `delete`; an unknown table or a
      text with none of the three changes nothing and answers
      `{ lastInsertRowid: 0 }`. Counters only ever grow, and only by an insert. */
  function Write(s: Snapshot, st: Statement, params: seq<Value>, now: string): (res: (Snapshot, WriteResult))
    requires StoreOk(s)
    ensures StoreOk(res.0)
    ensures res.0.data.Keys == s.data.Keys && res.0.counters.Keys == s.counters.Keys
    ensures forall u :: u in s.counters ==> res.0.counters[u] >= s.counters[u]
    ensures forall u :: u in s.data && Some(u) != st.table ==> res.0.data[u] == s.data[u]
    ensures forall u :: u in s.counters && Some(u) != st.table ==> res.0.counters[u] == s.counters[u]
    ensures !Writes(s, st) ==> res == (s, LastInsertRowid(0))
  {
    match TableOf(s, st)
    case None => (s, LastInsertRowid(0))
    case Some(t) =>
      if st.insert then
        var id := s.counters[t] + 1;
        var record := InsertedRecord(st.columns, params, id, now);
        (Snapshot(s.data[t := s.data[t] + [record]], s.counters[t := id]), LastInsertRowid(id))
      else if st.update then
        match (st.sets, st.conditions)
        case (Some(sets), Some(conds)) =>
          (Snapshot(s.data[t := UpdateRows(s.data[t], sets, conds, params, now)], s.counters), Changes(1))
        case _ => (s, Changes(1))
      else if st.delete then
        match st.conditions
        case Some(conds) => (Snapshot(s.data[t := DeleteRows(s.data[t], conds, params)], s.counters), Changes(1))
        case None => (s, Changes(1))
      else (s, LastInsertRowid(0))
  }

  /** An insert into a known table takes the next id, bumps that table's
      counter to it, keeps every row it had and appends exactly one record,
      and answers with the id. */
  lemma WriteInsert(s: Snapshot, st: Statement, params: seq<Value>, now: string)
    requires StoreOk(s) && TableOf(s, st).Some? && st.insert
    ensures var t := st.table.value;
            var id := s.counters[t] + 1;
            var w := Write(s, st, params, now);
            && w.1 == LastInsertRowid(id)
            && w.0.counters[t] == id
            && |w.0.data[t]| == |s.data[t]| + 1
            && w.0.data[t][..|s.data[t]|] == s.data[t]
            && w.0.data[t][|s.data[t]|] == InsertedRecord(st.columns, params, id, now)
  {
    var t := st.table.value;
    var id := s.counters[t] + 1;
    var rows := s.data[t] + [InsertedRecord(st.columns, params, id, now)];
    assert rows[..|s.data[t]|] == s.data[t];
  }

  /** The inserted record carries its id and, with a column list, its creation
      time, unless a column of that name with a defined parameter overrides it. */
  lemma InsertedRecordStamps(columns: Option<seq<string>>, params: seq<Value>, id: nat, now: string)
    ensures columns.None? ==> InsertedRecord(columns, params, id, now) == map["id" := Num(id)]
    ensures columns.Some? && (forall i :: 0 <= i < |columns.value| && columns.value[i] == "id" ==> Param(params, i) == Undefined)
      ==> Field(InsertedRecord(columns, params, id, now), "id") == Num(id)
    ensures columns.Some? && (forall i :: 0 <= i < |columns.value| && columns.value[i] == "createdAt" ==> Param(params, i) == Undefined)
      ==> Field(InsertedRecord(columns, params, id, now), "createdAt") == Str(now)
  {
    if columns.Some? {
      var base := map["id" := Num(id), "createdAt" := Str(now)];
      if forall i :: 0 <= i < |columns.value| && columns.value[i] == "id" ==> Param(params, i) == Undefined {
        PutColumnsKeeps(base, columns.value, params, "id");
      }
      if forall i :: 0 <= i < |columns.value| && columns.value[i] == "createdAt" ==> Param(params, i) == Undefined {
        PutColumnsKeeps(base, columns.value, params, "createdAt");
      }
    }
  }

  /** An update or a delete leaves every counter alone and answers
      `{ changes: 1 }` however many rows it touched. */
  lemma WriteUpdateDeleteCounters(s: Snapshot, st: Statement, params: seq<Value>, now: string)
    requires StoreOk(s) && TableOf(s, st).Some? && !st.insert && (st.update || st.delete)
    ensures Write(s, st, params, now).0.counters == s.counters
    ensures Write(s, st, params, now).1 == Changes(1)
  {
  }

  /** An update keeps the number and the order of rows; a row that fails the
      `WHERE` is unchanged, a row that meets it gets its `SET` fields and
      `updatedAt`; without both a `SET` and a `WHERE` nothing changes. */
  lemma WriteUpdate(s: Snapshot, st: Statement, params: seq<Value>, now: string)
    requires StoreOk(s) && TableOf(s, st).Some? && !st.insert && st.update
    ensures var t := st.table.value;
            var s' := Write(s, st, params, now).0;
            && |s'.data[t]| == |s.data[t]|
            && (st.sets.None? || st.conditions.None? ==> s' == s)
            && (st.sets.Some? && st.conditions.Some? ==>
                 forall i :: 0 <= i < |s.data[t]| ==>
                   if WriteMatches(s.data[t][i], st.conditions.value, params, |st.sets.value|)
                   then Field(s'.data[t][i], "updatedAt") == Str(now)
                        && (forall f :: f != "updatedAt"
                              && (forall j :: 0 <= j < |st.sets.value| ==> st.sets.value[j] != AssignParam(f))
                              ==> Field(s'.data[t][i], f) == Field(s.data[t][i], f))
                        && (forall k :: 0 <= k < |st.sets.value| && st.sets.value[k].AssignParam?
                              && st.sets.value[k].field != "updatedAt"
                              && (forall j :: k < j < |st.sets.value| ==> st.sets.value[j] != AssignParam(st.sets.value[k].field))
                              ==> Field(s'.data[t][i], st.sets.value[k].field) == Param(params, k))
                   else s'.data[t][i] == s.data[t][i])
  {
    var t := st.table.value;
    if st.sets.Some? && st.conditions.Some? {
      var sets := st.sets.value;
      forall i, f | 0 <= i < |s.data[t]|
          && (forall j :: 0 <= j < |sets| ==> sets[j] != AssignParam(f))
        ensures Field(ApplySets(s.data[t][i], sets, params), f) == Field(s.data[t][i], f)
      {
        ApplySetsKeeps(s.data[t][i], sets, params, f);
      }
      forall i, k | 0 <= i < |s.data[t]| && 0 <= k < |sets| && sets[k].AssignParam?
          && (forall j :: k < j < |sets| ==> sets[j] != AssignParam(sets[k].field))
        ensures Field(ApplySets(s.data[t][i], sets, params), sets[k].field) == Param(params, k)
      {
        ApplySetsLastWins(s.data[t][i], sets, params, k);
      }
    }
  }

  /** A delete keeps, in their order, exactly the rows that fail some `=`
      condition; without a `WHERE` nothing changes. */
  lemma WriteDelete(s: Snapshot, st: Statement, params: seq<Value>, now: string)
    requires StoreOk(s) && TableOf(s, st).Some? && !st.insert && !st.update && st.delete
    ensures var t := st.table.value;
            var s' := Write(s, st, params, now).0;
            && (st.conditions.None? ==> s' == s)
            && (st.conditions.Some? ==>
                 && s'.data[t] == DeleteRows(s.data[t], st.conditions.value, params)
                 && |s'.data[t]| <= |s.data[t]|
                 && forall x :: x in s'.data[t] <==> x in s.data[t] && !WriteMatches(x, st.conditions.value, params, 0))
  {
  }

  /** The keep-or-drop decision of a delete is made row by row, so survivors keep their order. */
  lemma DeleteRowsConcat(a: seq<Record>, b: seq<Record>, conds: seq<Cond>, params: seq<Value>)
    ensures DeleteRows(a + b, conds, params) == DeleteRows(a, conds, params) + DeleteRows(b, conds, params)
  {
    FilterConcat(a, b, Survives(conds, params));
  }

  lemma DeleteRowsSnoc(rows: seq<Record>, x: Record, conds: seq<Cond>, params: seq<Value>)
    ensures DeleteRows(rows + [x], conds, params)
         == DeleteRows(rows, conds, params) + (if WriteMatches(x, conds, params, 0) then [] else [x])
  {
    DeleteRowsConcat(rows, [x], conds, params);
    assert [x][1..] == [];
    assert DeleteRows([x], conds, params) == (if WriteMatches(x, conds, params, 0) then [] else [x]);
  }

  /** One call of `run`. */
  datatype Call = Call(st: Statement, params: seq<Value>, now: string)

  /** The store after a series of calls of `run`. */
  function Replay(s: Snapshot, calls: seq<Call>): (s': Snapshot)
    requires StoreOk(s)
    ensures StoreOk(s') && s'.counters.Keys == s.counters.Keys
    decreases |calls|
  {
    if calls == [] then s
    else Replay(Write(s, calls[0].st, calls[0].params, calls[0].now).0, calls[1..])
  }

  /** The ids a series of calls of `run` hands out for inserts into table `t`. */
  function IssuedIds(s: Snapshot, calls: seq<Call>, t: string): seq<nat>
    requires StoreOk(s)
    decreases |calls|
  {
    if calls == [] then []
    else
      var c := calls[0];
      var (s', res) := Write(s, c.st, c.params, c.now);
      var rest := IssuedIds(s', calls[1..], t);
      if TableOf(s, c.st) == Some(t) && c.st.insert then [res.id] + rest else rest
  }

  /** Ids are never reused: those handed out for one table strictly increase,
      all exceed the counter the series started from and none exceeds the
      counter it ends with. */
  lemma {:induction false} IssuedIdsIncrease(s: Snapshot, calls: seq<Call>, t: string)
    requires StoreOk(s) && t in s.counters
    ensures forall i, j :: 0 <= i < j < |IssuedIds(s, calls, t)| ==> IssuedIds(s, calls, t)[i] < IssuedIds(s, calls, t)[j]
    ensures forall i :: 0 <= i < |IssuedIds(s, calls, t)| ==>
              s.counters[t] < IssuedIds(s, calls, t)[i] <= Replay(s, calls).counters[t]
    decreases |calls|
  {
    if calls != [] {
      var c := calls[0];
      var w := Write(s, c.st, c.params, c.now);
      var s', res := w.0, w.1;
      IssuedIdsIncrease(s', calls[1..], t);
      ReplayCountersGrow(s', calls[1..], t);
      var rest := IssuedIds(s', calls[1..], t);
      var last := Replay(s', calls[1..]).counters[t];
      assert forall i, j :: 0 <= i < j < |rest| ==> rest[i] < rest[j];
      assert forall i :: 0 <= i < |rest| ==> s'.counters[t] < rest[i] <= last;
      assert Replay(s, calls).counters[t] == last;
      assert s.counters[t] <= s'.counters[t];
      if TableOf(s, c.st) == Some(t) && c.st.insert {
        WriteInsert(s, c.st, c.params, c.now);
        assert IssuedIds(s, calls, t) == [res.id] + rest;
        PrependIssued(res.id, rest, s.counters[t], s'.counters[t], last);
      } else {
        assert IssuedIds(s, calls, t) == rest;
        WidenIssued(rest, s.counters[t], s'.counters[t], last);
      }
    }
  }

  /** The id an insert hands out, in front of the later ones. */
  lemma PrependIssued(id: nat, rest: seq<nat>, before: nat, after: nat, last: nat)
    requires before < id == after <= last
    requires forall i, j :: 0 <= i < j < |rest| ==> rest[i] < rest[j]
    requires forall i :: 0 <= i < |rest| ==> after < rest[i] <= last
    ensures forall i, j :: 0 <= i < j < |[id] + rest| ==> ([id] + rest)[i] < ([id] + rest)[j]
    ensures forall i :: 0 <= i < |[id] + rest| ==> before < ([id] + rest)[i] <= last
  {
  }

  lemma WidenIssued(ids: seq<nat>, before: nat, after: nat, last: nat)
    requires before <= after
    requires forall i :: 0 <= i < |ids| ==> after < ids[i] <= last
    ensures forall i :: 0 <= i < |ids| ==> before < ids[i] <= last
  {
  }

  lemma {:induction false} ReplayCountersGrow(s: Snapshot, calls: seq<Call>, t: string)
    requires StoreOk(s) && t in s.counters
    ensures Replay(s, calls).counters[t] >= s.counters[t]
    decreases |calls|
  {
    if calls != [] {
      var s' := Write(s, calls[0].st, calls[0].params, calls[0].now).0;
      ReplayCountersGrow(s', calls[1..], t);
    }
  }

  // ---------------------------------------------------------------------------
  // Persistence

  /** The two top-level keys of the JSON file; either may be missing (or falsy). */
  datatype FileImage = FileImage(data: Option<map<string, seq<Record>>>, counters: Option<map<string, nat>>)

  /** The file at the store's path: absent, present but not parsable as JSON
      or holding `null` (the cases that make `load` save), or parsed. A file
      holding another non-object value such as `5` or `[]` is
      `Parsed(FileImage(None, None))`. */
  datatype StoredFile = Missing | Unreadable | Parsed(image: FileImage)

  /** The state of a fresh store: the seven empty tables, every counter at 0. */
  function Fresh(): (s: Snapshot)
    ensures StoreOk(s)
    ensures s.data.Keys == s.counters.Keys == set t | t in TableNames
    ensures forall t :: t in s.data ==> s.data[t] == [] && s.counters[t] == 0
  {
    Snapshot(map t | t in TableNames :: [], map t | t in TableNames :: 0)
  }

  /** The state `load` arrives at from a fresh store: a parsed file supplies
      `data` and `counters` where it has them; otherwise the store stays fresh. */
  function Loaded(file: StoredFile): Snapshot {
    match file
    case Parsed(image) => Snapshot(image.data.GetOr(Fresh().data), image.counters.GetOr(Fresh().counters))
    case _ => Fresh()
  }

  /** The file `save` writes: `{ data, counters }`. */
  function Saved(s: Snapshot): (file: StoredFile)
    ensures Loaded(file) == s
  {
    Parsed(FileImage(Some(s.data), Some(s.counters)))
  }

  // ---------------------------------------------------------------------------
  // The store object

  /** A store bound to one file. `disk` is what that file holds: each of the
      three write branches and `close` save the whole state to it. */
  class JsonDatabase {
    var data: map<string, seq<Record>>
    var counters: map<string, nat>
    ghost var disk: StoredFile

    function State(): Snapshot
      reads this
    {
      Snapshot(data, counters)
    }

    /** Every table has a counter, and the file holds the current state:
        reopening the store on it gives the same state back. */
    ghost predicate Valid()
      reads this
    {
      StoreOk(State()) && Loaded(disk) == State()
    }

    /** `new JsonDatabase(path)`, given what the file at `path` holds: the
        fresh tables and counters, then `load`. */
    constructor (file: StoredFile)
      requires StoreOk(Loaded(file))
      ensures Valid() && State() == Loaded(file)
      ensures disk == if file.Parsed? then file else Saved(Loaded(file))
    {
      var initial := Fresh();
      data := initial.data;
      counters := initial.counters;
      disk := file;
      new;
      Load(file);
    }

    /** `load`: a parsed file supplies `data` and `counters` where it has them;
        a missing or unreadable file is replaced by the current state. */
    method Load(file: StoredFile)
      modifies this
      ensures file.Parsed? ==>
        && data == file.image.data.GetOr(old(data))
        && counters == file.image.counters.GetOr(old(counters))
        && disk == old(disk)
      ensures !file.Parsed? ==> State() == old(State()) && disk == Saved(State())
    {
      match file
      case Parsed(image) =>
        data := image.data.GetOr(data);
        counters := image.counters.GetOr(counters);
      case _ =>
        Save();
    }

    /** `save`: the file now holds `{ data, counters }`. */
    method Save()
      modifies this
      ensures State() == old(State()) && disk == Saved(State())
    {
      disk := Saved(State());
    }

    /** `close` */
    method Close()
      modifies this
      ensures State() == old(State()) && disk == Saved(State())
    {
      Save();
    }

    /** `prepare(sql)`: an object whose `run`, `get` and `all` execute the
        statement against this store. */
    method Prepare(st: Statement) returns (p: Prepared)
      ensures fresh(p) && p.db == this && p.st == st
    {
      p := new Prepared(this, st);
    }

    /** `_executeWrite` */
    method ExecuteWrite(st: Statement, params: seq<Value>, now: string) returns (res: WriteResult)
      requires Valid()
      modifies this
      ensures Valid()
      ensures (State(), res) == Write(old(State()), st, params, now)
      ensures disk == if Writes(old(State()), st) then Saved(State()) else old(disk)
    {
      if st.table.None? || st.table.value !in data {
        return LastInsertRowid(0);
      }
      var t := st.table.value;
      if st.insert {
        var id := counters[t] + 1;
        counters := counters[t := id];
        var record := ParseInsert(st.columns, params, id, now);
        data := data[t := data[t] + [record]];
        Save();
        return LastInsertRowid(id);
      }
      if st.update {
        ParseUpdate(st, params, t, now);
        Save();
        return Changes(1);
      }
      if st.delete {
        ParseDelete(st, params, t);
        Save();
        return Changes(1);
      }
      return LastInsertRowid(0);
    }

    /** `_executeRead`, as the list of rows (`get` takes the first of them). */
    method ExecuteRead(st: Statement, params: seq<Value>) returns (rows: seq<Record>)
      ensures rows == ReadRows(State(), st, params)
    {
      if st.table.None? || st.table.value !in data {
        return [];
      }
      var results := data[st.table.value];
      if st.conditions.Some? {
        results := Where(results, st.conditions, params);
      }
      assert results == Where(data[st.table.value], st.conditions, params);
      ghost var filtered := results;
      if st.orderBy.Some? {
        results := SortBy(results, Before(st.orderBy.value));
      }
      assert results == OrderBy(filtered, st.orderBy);
      ghost var ordered := results;
      if st.limit.Some? {
        results := Slice(results, 0, st.limit.value);
      }
      assert results == Limit(ordered, st.limit);
      ghost var limited := results;
      if st.offset.Some? {
        var limit := if st.limit.Some? then st.limit.value else |results|;
        var offset := st.offset.value;
        results := Slice(results, offset, offset + limit);
      }
      assert results == Offset(limited, st.limit, st.offset);
      return results;
    }

    /** `_parseInsert` */
    method ParseInsert(columns: Option<seq<string>>, params: seq<Value>, id: nat, now: string) returns (record: Record)
      ensures record == InsertedRecord(columns, params, id, now)
    {
      if columns.None? {
        return map["id" := Num(id)];
      }
      var cols := columns.value;
      var base := map["id" := Num(id), "createdAt" := Str(now)];
      record := base;
      for i := 0 to |cols|
        invariant record == PutColumns(base, cols[..i], params)
      {
        assert cols[..i + 1][..i] == cols[..i];
        if Param(params, i) != Undefined {
          record := record[cols[i] := Param(params, i)];
        }
      }
      assert cols[..|cols|] == cols;
    }

    /** The walk over the conditions of an update or a delete for one record:
        every `f = ?` condition takes the next parameter from `start` on. */
    method MatchesWhere(record: Record, conds: seq<Cond>, params: seq<Value>, start: nat) returns (matches: bool)
      ensures matches == WriteMatches(record, conds, params, start)
    {
      matches := true;
      var idx := start;
      for i := 0 to |conds|
        invariant WriteMatches(record, conds, params, start) == (matches && WriteMatches(record, conds[i..], params, idx))
      {
        assert conds[i..][1..] == conds[i + 1..];
        if conds[i].Eq? {
          if !LooseEq(Field(record, conds[i].field), Param(params, idx)) {
            matches := false;
          }
          idx := idx + 1;
        }
      }
    }

    /** The walk over the `SET` clauses of an update for one matching record. */
    method ApplySetClauses(record: Record, sets: seq<SetClause>, params: seq<Value>) returns (r: Record)
      ensures r == ApplySets(record, sets, params)
    {
      r := record;
      for i := 0 to |sets|
        invariant r == ApplySets(record, sets[..i], params)
      {
        assert sets[..i + 1][..i] == sets[..i];
        if sets[i].AssignParam? {
          r := Assign(r, sets[i].field, Param(params, i));
        }
      }
      assert sets[..|sets|] == sets;
    }

    /** `_parseUpdate` */
    method ParseUpdate(st: Statement, params: seq<Value>, t: string, now: string)
      requires t in data
      modifies this
      ensures counters == old(counters) && disk == old(disk)
      ensures st.sets.Some? && st.conditions.Some? ==>
        data == old(data)[t := UpdateRows(old(data)[t], st.sets.value, st.conditions.value, params, now)]
      ensures st.sets.None? || st.conditions.None? ==> data == old(data)
    {
      if st.sets.None? || st.conditions.None? {
        return;
      }
      var sets, conds := st.sets.value, st.conditions.value;
      var rows := data[t];
      var updated: seq<Record> := [];
      for k := 0 to |rows|
        invariant unchanged(this)
        invariant |updated| == k
        invariant forall m :: 0 <= m < k ==> updated[m] == UpdateRow(rows[m], sets, conds, params, now)
      {
        var record := rows[k];
        var matches := MatchesWhere(record, conds, params, |sets|);
        if matches {
          record := ApplySetClauses(record, sets, params);
          record := Assign(record, "updatedAt", Str(now));
        }
        updated := updated + [record];
      }
      assert updated == UpdateRows(rows, sets, conds, params, now);
      data := data[t := updated];
    }

    /** `_parseDelete` */
    method ParseDelete(st: Statement, params: seq<Value>, t: string)
      requires t in data
      modifies this
      ensures counters == old(counters) && disk == old(disk)
      ensures st.conditions.Some? ==> data == old(data)[t := DeleteRows(old(data)[t], st.conditions.value, params)]
      ensures st.conditions.None? ==> data == old(data)
    {
      if st.conditions.None? {
        return;
      }
      var kept := KeepUnmatched(data[t], st.conditions.value, params);
      data := data[t := kept];
    }

    /** The `filter` of `_parseDelete`: the rows some `=` condition rejects. */
    method KeepUnmatched(rows: seq<Record>, conds: seq<Cond>, params: seq<Value>) returns (kept: seq<Record>)
      ensures kept == DeleteRows(rows, conds, params)
    {
      kept := [];
      for k := 0 to |rows|
        invariant kept == DeleteRows(rows[..k], conds, params)
      {
        var matches := MatchesWhere(rows[k], conds, params, 0);
        assert rows[..k + 1] == rows[..k] + [rows[k]];
        DeleteRowsSnoc(rows[..k], rows[k], conds, params);
        if !matches {
          kept := kept + [rows[k]];
        }
      }
      assert rows[..|rows|] == rows;
    }
  }

  /** What `prepare` returns. */
  class Prepared {
    const db: JsonDatabase
    const st: Statement

    constructor (db: JsonDatabase, st: Statement)
      ensures this.db == db && this.st == st
    {
      this.db := db;
      this.st := st;
    }

    /** `run(...params)` */
    method Run(params: seq<Value>, now: string) returns (res: WriteResult)
      requires db.Valid()
      modifies db
      ensures db.Valid()
      ensures (db.State(), res) == Write(old(db.State()), st, params, now)
      ensures db.disk == if Writes(old(db.State()), st) then Saved(db.State()) else old(db.disk)
    {
      res := db.ExecuteWrite(st, params, now);
    }

    /** `get(...params)`: the first row, or `undefined`. */
    method Get(params: seq<Value>) returns (row: Option<Record>)
      ensures row == ReadFirst(db.State(), st, params)
    {
      var rows := db.ExecuteRead(st, params);
      row := if |rows| > 0 then Some(rows[0]) else None;
    }

    /** `all(...params)` */
    method All(params: seq<Value>) returns (rows: seq<Record>)
      ensures rows == ReadRows(db.State(), st, params)
    {
      rows := db.ExecuteRead(st, params);
    }
  }

  /** The module-level `db` that `getDatabase` and `closeDatabase` share. */
  class Connection {
    var db: JsonDatabase?

    ghost predicate Valid()
      reads this, db
    {
      db != null ==> db.Valid()
    }

    constructor ()
      ensures db == null
    {
      db := null;
    }

    /** `initDatabase`: opens a new store on the file and keeps it. */
    method InitDatabase(file: StoredFile) returns (d: JsonDatabase)
      requires StoreOk(Loaded(file))
      modifies this
      ensures fresh(d) && db == d && d.Valid() && d.State() == Loaded(file)
    {
      d := new JsonDatabase(file);
      db := d;
    }

    /** `getDatabase`: the kept store, opening one only when there is none. */
    method GetDatabase(file: StoredFile) returns (d: JsonDatabase)
      requires Valid() && (db == null ==> StoreOk(Loaded(file)))
      modifies this
      ensures Valid() && db == d
      ensures old(db) != null ==> d == old(db)
      ensures old(db) == null ==> fresh(d) && d.State() == Loaded(file)
    {
      if db == null {
        d := InitDatabase(file);
      } else {
        d := db;
      }
    }

    /** `closeDatabase`: saves the kept store, if any, and forgets it. */
    method CloseDatabase()
      requires Valid()
      modifies this, db
      ensures db == null
      ensures old(db) != null ==> old(db).State() == old(db.State()) && old(db).disk == Saved(old(db).State())
    {
      if db != null {
        db.Close();
        db := null;
      }
    }
  }
}
