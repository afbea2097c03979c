/** The hash-chained audit log: one table of rows, one chain per centre. */
module AuditLog {
  import opened ByteStrings
  import opened JsonText
  import opened CanonicalText
  import Chain = MerkleChain

  const GENESIS: Digest := ZERO_DIGEST

  datatype Row = Row(centre: Option<string>, actor: Option<string>, action: string, target: Option<string>,
                     details: Json)

  datatype Entry = Entry(seqNo: nat, row: Row, prevHash: Bytes, entryHash: Bytes)

  /** SHA-256, UTF-8, the rows the database takes, and what its JSON column makes of a value. The
      column refuses some values, such as texts with a NUL. */
  datatype Env = Env(hash: Hash, utf8: string -> Bytes, accepts: Row -> bool, store: Json -> Json)

  ghost predicate Utf8Differs(env: Env) {
    forall s, t :: env.utf8(s) == env.utf8(t) ==> s == t
  }

  /** The JSON column at most reorders the keys of what it takes. */
  ghost predicate StoreKeeps(env: Env) {
    forall row: Row :: Valid(row.details) && env.accepts(row) ==>
      Valid(env.store(row.details)) && SameVisible(env.store(row.details), row.details)
  }

  function RowJson(row: Row): Json {
    Obj([Field("center_id", TextOrNull(row.centre)), Field("actor_id", TextOrNull(row.actor)),
         Field("action", Str(row.action)), Field("target", TextOrNull(row.target)), Field("details", row.details)])
  }

  /** What is hashed for a row. */
  function Preimage(env: Env, prevHash: Bytes, row: Row): Bytes {
    prevHash + env.utf8(CanonicalJson(RowJson(row)))
  }

  /** `computeEntryHash`. */
  function EntryHash(env: Env, prevHash: Bytes, row: Row): Digest {
    env.hash(Preimage(env, prevHash, row))
  }

  /** The rows of one centre, in order. */
  function LogOf(rows: seq<Entry>, centre: Option<string>): seq<Entry> {
    if |rows| == 0 then []
    else
      var init := LogOf(rows[..|rows| - 1], centre);
      if rows[|rows| - 1].row.centre == centre then init + [rows[|rows| - 1]] else init
  }

  /** The hash entry `i` has to continue. */
  function PrevHash(log: seq<Entry>, i: nat): Bytes
    requires i <= |log|
  {
    if i == 0 then GENESIS else log[i - 1].entryHash
  }

  predicate EntryOk(env: Env, log: seq<Entry>, i: nat)
    requires i < |log|
  {
    log[i].prevHash == PrevHash(log, i) && log[i].entryHash == EntryHash(env, PrevHash(log, i), log[i].row)
  }

  predicate LogOk(env: Env, log: seq<Entry>) {
    forall i :: 0 <= i < |log| ==> EntryOk(env, log, i)
  }

  predicate FirstBroken(env: Env, log: seq<Entry>, i: int) {
    0 <= i < |log| && !EntryOk(env, log, i) && forall j :: 0 <= j < i ==> EntryOk(env, log, j)
  }

  /** What is inserted for a row: the hash covers the row as given, the table keeps it as stored. */
  function NewEntry(env: Env, seqNo: nat, row: Row, prev: Bytes): Entry {
    Entry(seqNo, row.(details := env.store(row.details)), prev, EntryHash(env, prev, row))
  }

  /** One `appendAudit`; a row that the database refuses leaves the table as it is. */
  function AppendRow(env: Env, rows: seq<Entry>, row: Row): seq<Entry> {
    var log := LogOf(rows, row.centre);
    if env.accepts(row) then rows + [NewEntry(env, |rows|, row, PrevHash(log, |log|))] else rows
  }

  /** The table of one centre database. */
  class AuditTable {
    const env: Env
    var rows: seq<Entry>

    constructor (env: Env)
      ensures this.env == env && rows == []
    {
      this.env := env;
      rows := [];
    }

    /** `appendAudit`. */
    method Append(centre: Option<string>, actor: Option<string>, action: string, target: Option<string>, details: Json)
      returns (ok: bool)
      modifies this`rows
      ensures ok <==> env.accepts(Row(centre, actor, action, target, details))
      ensures rows == AppendRow(env, old(rows), Row(centre, actor, action, target, details))
      ensures var log := LogOf(old(rows), centre);
        var prev: Bytes := if log == [] then Zeros(32) else log[|log| - 1].entryHash;
        ok ==> rows == old(rows) + [Entry(|old(rows)|, Row(centre, actor, action, target, env.store(details)), prev,
          env.hash(prev + env.utf8(RowText(Row(centre, actor, action, target, details)))))]
    {
      var log := LogOf(rows, centre);
      var prev: Bytes := if |log| > 0 then log[|log| - 1].entryHash else GENESIS;
      var row := Row(centre, actor, action, target, details);
      var entryHash := EntryHash(env, prev, row);
      if !env.accepts(row) { return false; }
      HashedText(env, prev, row);
      rows := rows + [Entry(|rows|, row.(details := env.store(details)), prev, entryHash)];
      return true;
    }

    /** `verifyAuditChain`: `None` accepts, otherwise the sequence number of the first bad row. */
    method Verify(centre: Option<string>) returns (brokenSeq: Option<nat>)
      ensures brokenSeq.None? <==> LogOk(env, LogOf(rows, centre))
      ensures brokenSeq.Some? ==>
        exists i :: FirstBroken(env, LogOf(rows, centre), i) && brokenSeq.value == LogOf(rows, centre)[i].seqNo
    {
      var log := LogOf(rows, centre);
      var prev: Bytes := GENESIS;
      for i := 0 to |log|
        invariant prev == PrevHash(log, i)
        invariant forall j :: 0 <= j < i ==> EntryOk(env, log, j)
      {
        var expected := EntryHash(env, prev, log[i].row);
        if log[i].prevHash != prev || log[i].entryHash != expected {
          assert FirstBroken(env, log, i);
          return Some(log[i].seqNo);
        }
        prev := log[i].entryHash;
      }
      return None;
    }
  }

  // ---------- Every serial run verifies ----------

  lemma RowKeysDistinct(row: Row)
    ensures DistinctKeys(RowJson(row).fields)
  {
    var fs := RowJson(row).fields;
    assert fs[0].key[0] == 'c' && fs[3].key[0] == 't' && fs[4].key[0] == 'd';
    assert fs[1].key[0] == 'a' && fs[2].key[0] == 'a' && |fs[1].key| == 8 && |fs[2].key| == 6;
  }

  lemma RowValid(row: Row)
    requires Valid(row.details)
    ensures Valid(RowJson(row))
  {
    RowKeysDistinct(row);
  }

  lemma RowJsonSame(row: Row, details: Json)
    requires SameVisible(details, row.details)
    ensures SameVisible(RowJson(row.(details := details)), RowJson(row))
  {
    RowKeysDistinct(row.(details := details));
    PointwiseSame(RowJson(row.(details := details)).fields, RowJson(row).fields);
  }

  /** Rows equal in every column, the details up to key order and `__proto__`. */
  ghost predicate SameRow(a: Row, b: Row) {
    && a.centre == b.centre && a.actor == b.actor && a.action == b.action && a.target == b.target
    && SameVisible(a.details, b.details)
  }

  /** Fields with equal, visible keys. */
  predicate KeysAlike(fs: seq<Field>, gs: seq<Field>) {
    |fs| == |gs| && forall i :: 0 <= i < |fs| ==> fs[i].key == gs[i].key != PROTO
  }

  lemma RowKeys(a: Row, b: Row)
    ensures KeysAlike(RowJson(a).fields, RowJson(b).fields)
  {
    var fs := RowJson(a).fields;
    assert PROTO[0] == '_' && fs[0].key[0] == 'c' && fs[1].key[0] == 'a' && fs[2].key[0] == 'a' && fs[3].key[0] == 't';
    assert fs[4].key[0] == 'd';
  }

  ghost predicate ValuesAlike(fs: seq<Field>, gs: seq<Field>) {
    |fs| == |gs| && forall i :: 0 <= i < |fs| ==> SameVisible(fs[i].value, gs[i].value)
  }

  lemma AlikeIff(fs: seq<Field>, gs: seq<Field>)
    requires KeysAlike(fs, gs) && DistinctKeys(fs)
    ensures SameVisible(Obj(fs), Obj(gs)) <==> ValuesAlike(fs, gs)
  {
    if SameVisible(Obj(fs), Obj(gs)) {
      forall i | 0 <= i < |fs| ensures SameVisible(fs[i].value, gs[i].value) {
        FieldSame(fs, gs, i);
      }
    }
    if ValuesAlike(fs, gs) {
      PointwiseSame(fs, gs);
    }
  }

  lemma ColumnsAlike(a: Row, b: Row)
    ensures ValuesAlike(RowJson(a).fields, RowJson(b).fields) <==> SameRow(a, b)
  {
    var fs, gs := RowJson(a).fields, RowJson(b).fields;
    if ValuesAlike(fs, gs) {
      assert SameVisible(fs[0].value, gs[0].value) && SameVisible(fs[1].value, gs[1].value);
      assert SameVisible(fs[2].value, gs[2].value) && SameVisible(fs[3].value, gs[3].value);
      assert SameVisible(fs[4].value, gs[4].value);
    }
  }

  /** What is hashed covers every column: rows look alike exactly when they are equal in all of them. */
  lemma EveryColumnCounts(a: Row, b: Row)
    ensures SameVisible(RowJson(a), RowJson(b)) <==> SameRow(a, b)
  {
    RowKeys(a, b);
    RowKeysDistinct(a);
    AlikeIff(RowJson(a).fields, RowJson(b).fields);
    ColumnsAlike(a, b);
  }

  /** The object of a row with its keys in order. */
  function ColumnFields(row: Row): (gs: seq<Field>)
    ensures |gs| == 5
  {
    [Field("action", Str(row.action)), Field("actor_id", TextOrNull(row.actor)),
     Field("center_id", TextOrNull(row.centre)), Field("details", row.details), Field("target", TextOrNull(row.target))]
  }

  lemma ColumnOrder()
    ensures Before("action", "actor_id") && Before("actor_id", "center_id") && Before("center_id", "details")
    ensures Before("details", "target")
  {
    assert PartsAt("action", "actor_id", 3);
    assert PartsAt("actor_id", "center_id", 0) && PartsAt("center_id", "details", 0) && PartsAt("details", "target", 0);
  }

  lemma ColumnsOrdinary(row: Row)
    ensures OrdinaryKeys(ColumnFields(row))
  {
  }

  lemma FivePairs(gs: seq<Field>)
    requires |gs| == 5 && Before(gs[0].key, gs[1].key) && Before(gs[1].key, gs[2].key)
    requires Before(gs[2].key, gs[3].key) && Before(gs[3].key, gs[4].key)
    ensures InOrder(gs)
  {
  }

  lemma ColumnsInOrder(row: Row)
    ensures InOrder(ColumnFields(row))
  {
    ColumnOrder();
    FivePairs(ColumnFields(row));
  }

  /** The canonical text of a row, column by column. */
  function RowText(row: Row): string {
    "{" + Joined([Keyed("action", Quoted(row.action)), Keyed("actor_id", QuotedOrNull(row.actor)),
                  Keyed("center_id", QuotedOrNull(row.centre)), Keyed("details", CanonicalJson(row.details)),
                  Keyed("target", QuotedOrNull(row.target))]) + "}"
  }

  /** The hash of a row covers the hash before it and the text of all its columns. */
  lemma HashedText(env: Env, prevHash: Bytes, row: Row)
    ensures EntryHash(env, prevHash, row) == env.hash(prevHash + env.utf8(RowText(row)))
  {
    var fs, gs := RowJson(row).fields, ColumnFields(row);
    RowKeysDistinct(row);
    ColumnsInOrder(row);
    ColumnsOrdinary(row);
    ColumnsAreFields(row);
    SortsTo(fs, gs);
    ColumnTexts(row);
  }

  lemma ColumnsAreFields(row: Row)
    ensures forall f :: f in RowJson(row).fields <==> f in ColumnFields(row)
  {
    var fs, gs := RowJson(row).fields, ColumnFields(row);
    assert gs[0] == fs[2] && gs[1] == fs[1] && gs[2] == fs[0] && gs[3] == fs[4] && gs[4] == fs[3];
  }

  lemma ColumnTexts(row: Row)
    ensures "{" + Joined(KeyedTexts(ColumnFields(row))) + "}" == RowText(row)
  {
    LeafText(row.action, row.actor);
    LeafText(row.action, row.centre);
    LeafText(row.action, row.target);
    assert KeyedTexts(ColumnFields(row)) ==
      [Keyed("action", Quoted(row.action)), Keyed("actor_id", QuotedOrNull(row.actor)),
       Keyed("center_id", QuotedOrNull(row.centre)), Keyed("details", CanonicalJson(row.details)),
       Keyed("target", QuotedOrNull(row.target))];
  }

  /** Row `i` continues the hash stored before it, 32 zero bytes at first, and its own hash is that of the
      continued hash and the text of its columns. */
  predicate Continues(env: Env, log: seq<Entry>, i: nat)
    requires i < |log|
  {
    && log[i].prevHash == (if i == 0 then Zeros(32) else log[i - 1].entryHash)
    && log[i].entryHash == env.hash(log[i].prevHash + env.utf8(RowText(log[i].row)))
  }

  /** The walk accepts exactly the logs whose rows all do so. */
  lemma AcceptedLogIs(env: Env, log: seq<Entry>)
    ensures LogOk(env, log) <==> forall i :: 0 <= i < |log| ==> Continues(env, log, i)
  {
    forall i | 0 <= i < |log| ensures EntryOk(env, log, i) <==> Continues(env, log, i) {
      HashedText(env, PrevHash(log, i), log[i].row);
    }
  }

  /** The stored row hashes like the row that was appended. */
  lemma StoredHashesAlike(env: Env, prev: Bytes, row: Row)
    requires StoreKeeps(env) && Valid(row.details) && env.accepts(row)
    ensures EntryHash(env, prev, row.(details := env.store(row.details))) == EntryHash(env, prev, row)
  {
    var row' := row.(details := env.store(row.details));
    RowValid(row);
    RowValid(row');
    RowJsonSame(row, env.store(row.details));
    CanonicalIff(RowJson(row'), RowJson(row));
  }

  lemma AppendKeepsLogs(env: Env, rows: seq<Entry>, row: Row, centre: Option<string>)
    requires StoreKeeps(env) && Valid(row.details) && LogOk(env, LogOf(rows, centre))
    ensures LogOk(env, LogOf(AppendRow(env, rows, row), centre))
  {
    var rows' := AppendRow(env, rows, row);
    if env.accepts(row) {
      assert rows'[..|rows|] == rows;
    }
    if row.centre == centre && env.accepts(row) {
      var log := LogOf(rows, centre);
      var log' := LogOf(rows', centre);
      assert log' == log + [rows'[|rows|]];
      StoredHashesAlike(env, PrevHash(log, |log|), row);
      forall i | 0 <= i < |log'| ensures EntryOk(env, log', i) {
        if i < |log| { assert EntryOk(env, log, i); }
      }
    }
  }

  /** A serial run of appends, centres interleaved as they come. */
  function Run(env: Env, appends: seq<Row>): seq<Entry> {
    if |appends| == 0 then []
    else AppendRow(env, Run(env, appends[..|appends| - 1]), appends[|appends| - 1])
  }

  lemma {:induction false} EveryRunVerifies(env: Env, appends: seq<Row>, centre: Option<string>)
    requires StoreKeeps(env) && forall i :: 0 <= i < |appends| ==> Valid(appends[i].details)
    ensures LogOk(env, LogOf(Run(env, appends), centre))
  {
    if |appends| > 0 {
      var n := |appends| - 1;
      EveryRunVerifies(env, appends[..n], centre);
      OneMoreAppend(env, Run(env, appends[..n]), appends[n], centre, Run(env, appends));
    }
  }

  /** The number that the walk reports names one row of the table. */
  lemma {:induction false} NumbersInOrder(env: Env, appends: seq<Row>, k: nat)
    requires k < |Run(env, appends)|
    ensures Run(env, appends)[k].seqNo == k
  {
    var n := |appends| - 1;
    if k < |Run(env, appends[..n])| {
      NumbersInOrder(env, appends[..n], k);
    }
  }

  lemma OneMoreAppend(env: Env, rows: seq<Entry>, row: Row, centre: Option<string>, rows': seq<Entry>)
    requires StoreKeeps(env) && Valid(row.details) && rows' == AppendRow(env, rows, row)
      && LogOk(env, LogOf(rows, centre))
    ensures LogOk(env, LogOf(rows', centre))
  {
    AppendKeepsLogs(env, rows, row, centre);
  }

  // ---------- Tampering ----------

  /** An edit of row `i` under its stored hashes shows at row `i` and nowhere else. */
  lemma EditShowsAt(env: Env, log: seq<Entry>, i: nat, row: Row)
    requires LogOk(env, log) && i < |log|
    ensures var log' := log[i := log[i].(row := row)];
      if EntryHash(env, PrevHash(log, i), row) == EntryHash(env, PrevHash(log, i), log[i].row)
      then LogOk(env, log') else FirstBroken(env, log', i)
  {
    var log' := log[i := log[i].(row := row)];
    assert EntryOk(env, log, i);
    forall j | 0 <= j < |log| && j != i ensures EntryOk(env, log', j) {
      assert EntryOk(env, log, j);
      assert PrevHash(log', j) == PrevHash(log, j);
    }
  }

  /** A stored hash that is edited, alone or with the other one, shows at its row. */
  lemma HashEditShowsAt(env: Env, log: seq<Entry>, i: nat, prevHash: Bytes, entryHash: Bytes)
    requires LogOk(env, log) && i < |log| && (prevHash != log[i].prevHash || entryHash != log[i].entryHash)
    ensures FirstBroken(env, log[i := log[i].(prevHash := prevHash, entryHash := entryHash)], i)
  {
    var log' := log[i := log[i].(prevHash := prevHash, entryHash := entryHash)];
    assert EntryOk(env, log, i) && PrevHash(log', i) == PrevHash(log, i);
    forall j | 0 <= j < i ensures EntryOk(env, log', j) {
      assert EntryOk(env, log, j);
    }
  }

  /** In one centre's log: editing a row under its stored hashes is reported at exactly that row, or
      every column is as before, the details up to key order and `__proto__`, or the two hashed strings
      collide. Such an edit passes. */
  lemma EditInLog(env: Env, log: seq<Entry>, i: nat, row: Row)
    requires Utf8Differs(env) && LogOk(env, log) && i < |log| && Valid(row.details) && Valid(log[i].row.details)
    ensures FirstBroken(env, log[i := log[i].(row := row)], i)
         || SameRow(row, log[i].row)
         || Collision(env.hash, (Preimage(env, PrevHash(log, i), row), Preimage(env, PrevHash(log, i), log[i].row)))
    ensures SameRow(row, log[i].row) ==> LogOk(env, log[i := log[i].(row := row)])
  {
    var prev := PrevHash(log, i);
    EditShowsAt(env, log, i, row);
    RowValid(row);
    RowValid(log[i].row);
    EveryColumnCounts(row, log[i].row);
    CanonicalIff(RowJson(row), RowJson(log[i].row));
    if Preimage(env, prev, row) == Preimage(env, prev, log[i].row) {
      SplitConcat(prev, env.utf8(CanonicalJson(RowJson(row))), prev, env.utf8(CanonicalJson(RowJson(log[i].row))));
    }
  }

  /** Removing a row that is not the last is reported at the row after it, unless the removed
      row's hash was a fixed point. */
  lemma RemovalIsLocated(env: Env, log: seq<Entry>, i: nat)
    requires LogOk(env, log) && i + 1 < |log|
    ensures FirstBroken(env, log[..i] + log[i + 1..], i)
         || env.hash(Preimage(env, PrevHash(log, i), log[i].row)) == PrevHash(log, i)
  {
    var log' := log[..i] + log[i + 1..];
    assert EntryOk(env, log, i) && EntryOk(env, log, i + 1);
    assert log'[i] == log[i + 1] && PrevHash(log', i) == PrevHash(log, i);
    forall j | 0 <= j < i ensures EntryOk(env, log', j) {
      assert EntryOk(env, log, j);
    }
  }

  /** Cutting rows off the end is never noticed. */
  lemma TruncationPasses(env: Env, log: seq<Entry>, n: nat)
    requires LogOk(env, log) && n <= |log|
    ensures LogOk(env, log[..n])
  {
    forall i | 0 <= i < n ensures EntryOk(env, log[..n], i) {
      assert EntryOk(env, log, i);
    }
  }

  // ---------- Any rows kept ----------

  /** Positions in order, none twice. */
  predicate Increasing(kept: seq<nat>, n: nat) {
    (forall m :: 0 <= m < |kept| ==> kept[m] < n) && forall m :: 0 < m < |kept| ==> kept[m - 1] < kept[m]
  }

  function Kept(log: seq<Entry>, kept: seq<nat>): (sub: seq<Entry>)
    requires Increasing(kept, |log|)
    ensures |sub| == |kept|
  {
    seq(|kept|, m requires 0 <= m < |kept| => log[kept[m]])
  }

  predicate IsPrefix(kept: seq<nat>) {
    forall m :: 0 <= m < |kept| ==> kept[m] == m
  }

  /** The first row that is not in its place. */
  function FirstMoved(kept: seq<nat>, m: nat): (r: nat)
    requires m <= |kept|
    ensures m <= r <= |kept|
    ensures forall i :: m <= i < r ==> kept[i] == i
    ensures r < |kept| ==> kept[r] != r
    decreases |kept| - m
  {
    if m == |kept| || kept[m] != m then m else FirstMoved(kept, m + 1)
  }

  /** Two rows continue one hash: walks back from both to two different hashed strings, or to the
      start of the log. */
  function RepeatConflict(env: Env, log: seq<Entry>, i: nat, j: nat): Chain.Conflict
    requires i < j <= |log|
    decreases i
  {
    var v := Preimage(env, PrevHash(log, j - 1), log[j - 1].row);
    if i == 0 then Chain.GenesisPreimage(v)
    else
      var u := Preimage(env, PrevHash(log, i - 1), log[i - 1].row);
      if u != v then Chain.Colliding((u, v)) else RepeatConflict(env, log, i - 1, j - 1)
  }

  lemma PreimageParts(env: Env, log: seq<Entry>, i: nat, j: nat)
    requires LogOk(env, log) && 0 < i <= |log| && 0 < j <= |log|
    requires Preimage(env, PrevHash(log, i - 1), log[i - 1].row) == Preimage(env, PrevHash(log, j - 1), log[j - 1].row)
    ensures PrevHash(log, i - 1) == PrevHash(log, j - 1)
  {
    DigestBefore(env, log, i - 1);
    DigestBefore(env, log, j - 1);
    SplitConcat(PrevHash(log, i - 1), env.utf8(CanonicalJson(RowJson(log[i - 1].row))),
                PrevHash(log, j - 1), env.utf8(CanonicalJson(RowJson(log[j - 1].row))));
  }

  lemma DigestBefore(env: Env, log: seq<Entry>, i: nat)
    requires LogOk(env, log) && i <= |log|
    ensures |PrevHash(log, i)| == 32
  {
    if i > 0 {
      assert EntryOk(env, log, i - 1);
    }
  }

  lemma {:induction false} RepeatBreaks(env: Env, log: seq<Entry>, i: nat, j: nat)
    requires LogOk(env, log) && i < j <= |log| && PrevHash(log, i) == PrevHash(log, j)
    ensures Chain.Breaks(env.hash, RepeatConflict(env, log, i, j))
    decreases i
  {
    assert EntryOk(env, log, j - 1);
    if i > 0 {
      assert EntryOk(env, log, i - 1);
      if Preimage(env, PrevHash(log, i - 1), log[i - 1].row) == Preimage(env, PrevHash(log, j - 1), log[j - 1].row) {
        PreimageParts(env, log, i, j);
        RepeatBreaks(env, log, i - 1, j - 1);
      }
    }
  }

  lemma PrefixKept(log: seq<Entry>, kept: seq<nat>)
    requires Increasing(kept, |log|) && IsPrefix(kept)
    ensures |kept| <= |log| && Kept(log, kept) == log[..|kept|]
  {
    if |kept| > 0 {
      assert kept[|kept| - 1] == |kept| - 1;
    }
  }

  lemma {:induction false} AtLeastPlace(kept: seq<nat>, n: nat, m: nat)
    requires Increasing(kept, n) && m < |kept|
    ensures kept[m] >= m
  {
    if m > 0 {
      AtLeastPlace(kept, n, m - 1);
    }
  }

  /** A row out of its place that still verifies continues the same hash at both places. */
  lemma MovedRowRepeats(env: Env, log: seq<Entry>, kept: seq<nat>, m: nat)
    requires LogOk(env, log) && Increasing(kept, |log|) && LogOk(env, Kept(log, kept))
    requires m < |kept| && forall i :: 0 <= i < m ==> kept[i] == i
    ensures m <= |log| && PrevHash(log, m) == PrevHash(log, kept[m])
  {
    var sub := Kept(log, kept);
    AtLeastPlace(kept, |log|, m);
    assert EntryOk(env, sub, m) && EntryOk(env, log, kept[m]);
    assert sub[m] == log[kept[m]];
    if m > 0 {
      assert sub[m - 1] == log[m - 1];
    }
  }

  lemma MovedRowBreaks(env: Env, log: seq<Entry>, kept: seq<nat>, m: nat)
    requires LogOk(env, log) && Increasing(kept, |log|) && LogOk(env, Kept(log, kept))
    requires m < |kept| && kept[m] != m && forall i :: 0 <= i < m ==> kept[i] == i
    ensures m < kept[m] <= |log| && Chain.Breaks(env.hash, RepeatConflict(env, log, m, kept[m]))
  {
    AtLeastPlace(kept, |log|, m);
    MovedRowRepeats(env, log, kept, m);
    RepeatBreaks(env, log, m, kept[m]);
  }

  /** The conflict of the first row that is not in its place. */
  function KeptConflict(env: Env, log: seq<Entry>, kept: seq<nat>): Chain.Conflict {
    var m := FirstMoved(kept, 0);
    if m < |kept| && m < kept[m] <= |log| then RepeatConflict(env, log, m, kept[m]) else Chain.GenesisPreimage([])
  }

  lemma KeptPrefixVerifies(env: Env, log: seq<Entry>, kept: seq<nat>)
    requires LogOk(env, log) && Increasing(kept, |log|) && IsPrefix(kept)
    ensures LogOk(env, Kept(log, kept))
  {
    PrefixKept(log, kept);
    TruncationPasses(env, log, |kept|);
  }

  /** Whatever rows are removed from an unbroken log, the rest verifies exactly if it is a beginning
      of the log; or two equal hashes in it give a collision or a string that hashes to 32 zero
      bytes. */
  lemma KeptVerifiesIff(env: Env, log: seq<Entry>, kept: seq<nat>)
    requires LogOk(env, log) && Increasing(kept, |log|)
    ensures (LogOk(env, Kept(log, kept)) <==> IsPrefix(kept)) || Chain.Breaks(env.hash, KeptConflict(env, log, kept))
  {
    if IsPrefix(kept) {
      KeptPrefixVerifies(env, log, kept);
    } else if LogOk(env, Kept(log, kept)) {
      MovedRowBreaks(env, log, kept, FirstMoved(kept, 0));
    }
  }

  // ---------- Tampering with the table ----------

  lemma {:induction false} LogOfConcat(a: seq<Entry>, b: seq<Entry>, centre: Option<string>)
    ensures LogOf(a + b, centre) == LogOf(a, centre) + LogOf(b, centre)
    decreases |b|
  {
    if |b| == 0 {
      assert a + b == a;
    } else {
      var n := |b| - 1;
      assert (a + b)[..|a| + n] == a + b[..n];
      LogOfConcat(a, b[..n], centre);
    }
  }

  /** The row by itself, if it is the centre's. */
  function One(e: Entry, centre: Option<string>): seq<Entry> {
    if e.row.centre == centre then [e] else []
  }

  /** Where row `k` of the table stands, or would stand, in the centre's log. */
  function PlaceOf(rows: seq<Entry>, k: nat, centre: Option<string>): nat
    requires k <= |rows|
  {
    |LogOf(rows[..k], centre)|
  }

  lemma LogAround(rows: seq<Entry>, k: nat, centre: Option<string>)
    requires k < |rows|
    ensures LogOf(rows, centre) == LogOf(rows[..k], centre) + One(rows[k], centre) + LogOf(rows[k + 1..], centre)
  {
    assert rows == rows[..k] + [rows[k]] + rows[k + 1..];
    LogOfConcat(rows[..k] + [rows[k]], rows[k + 1..], centre);
    LogOfConcat(rows[..k], [rows[k]], centre);
    assert [rows[k]][..0] == [];
    assert LogOf([rows[k]], centre) == One(rows[k], centre);
  }

  /** The log of a centre after row `k` of the table was replaced. */
  lemma LogAfterEdit(rows: seq<Entry>, k: nat, e: Entry, centre: Option<string>)
    requires k < |rows|
    ensures LogOf(rows[k := e], centre) == LogOf(rows[..k], centre) + One(e, centre) + LogOf(rows[k + 1..], centre)
  {
    LogAround(rows[k := e], k, centre);
    assert rows[k := e][..k] == rows[..k] && rows[k := e][k + 1..] == rows[k + 1..];
  }

  lemma LogsAround(rows: seq<Entry>, k: nat, e: Entry, centre: Option<string>)
    requires k < |rows|
    ensures var log, i := LogOf(rows, centre), PlaceOf(rows, k, centre);
      && i + |One(rows[k], centre)| <= |log|
      && (rows[k].row.centre == centre ==> log[i] == rows[k])
      && LogOf(rows[k := e], centre) == log[..i] + One(e, centre) + log[i + |One(rows[k], centre)|..]
  {
    LogAround(rows, k, centre);
    LogAfterEdit(rows, k, e, centre);
  }

  /** Editing a row of the table under its stored hashes, its centre kept, is reported by its centre's
      walk at exactly that row, or every column is as before and it passes, the details up to key order
      and `__proto__`, or the two hashed strings collide; every other centre's log is as before. */
  lemma EditIsLocated(env: Env, rows: seq<Entry>, k: nat, row: Row)
    requires Utf8Differs(env) && k < |rows| && LogOk(env, LogOf(rows, row.centre))
    requires row.centre == rows[k].row.centre && Valid(row.details) && Valid(rows[k].row.details)
    ensures var rows', i := rows[k := rows[k].(row := row)], PlaceOf(rows, k, row.centre);
      var log := LogOf(rows', row.centre);
      && i < |log| && log[i] == rows'[k] && |log| == |LogOf(rows, row.centre)|
      && (FirstBroken(env, log, i) || SameRow(row, rows[k].row)
          || Collision(env.hash, (Preimage(env, PrevHash(log, i), row), Preimage(env, PrevHash(log, i), rows[k].row))))
      && (SameRow(row, rows[k].row) ==> LogOk(env, log))
    ensures forall centre ::
      centre != row.centre ==> LogOf(rows[k := rows[k].(row := row)], centre) == LogOf(rows, centre)
  {
    var e := rows[k].(row := row);
    var log, i := LogOf(rows, row.centre), PlaceOf(rows, k, row.centre);
    LogsAround(rows, k, e, row.centre);
    assert log[..i] + [e] + log[i + 1..] == log[i := e];
    EditInLog(env, log, i, row);
    SameBefore(log, i, e);
    forall centre | centre != row.centre ensures LogOf(rows[k := e], centre) == LogOf(rows, centre) {
      LogsAround(rows, k, e, centre);
    }
  }

  lemma SameBefore(log: seq<Entry>, i: nat, e: Entry)
    requires i < |log|
    ensures PrevHash(log[i := e], i) == PrevHash(log, i)
  {
  }

  /** The values of one field of two rows that are alike. */
  lemma SameCentre(a: Row, b: Row)
    requires SameVisible(RowJson(a), RowJson(b))
    ensures a.centre == b.centre
  {
    assert RowJson(a).fields[0].key == "center_id" && "center_id"[0] == 'c' && PROTO[0] == '_';
    FieldSame(RowJson(a).fields, RowJson(b).fields, 0);
  }

  /** A row that is put among another centre's rows under its stored hashes does not verify there, or
      the two hashed strings collide. */
  lemma StrangerBreaks(env: Env, log: seq<Entry>, j: nat, e: Entry, row: Row)
    requires Utf8Differs(env) && LogOk(env, log) && j <= |log| && row.centre != e.row.centre
    requires e.entryHash == EntryHash(env, e.prevHash, e.row) && |e.prevHash| == 32
    requires Valid(RowJson(row)) && Valid(RowJson(e.row))
    ensures FirstBroken(env, log[..j] + [e.(row := row)] + log[j..], j)
         || Collision(env.hash, (Preimage(env, e.prevHash, row), Preimage(env, e.prevHash, e.row)))
  {
    var log' := log[..j] + [e.(row := row)] + log[j..];
    forall i | 0 <= i < j ensures EntryOk(env, log', i) {
      assert EntryOk(env, log, i);
    }
    if Preimage(env, e.prevHash, row) == Preimage(env, e.prevHash, e.row) {
      SplitConcat(e.prevHash, env.utf8(CanonicalJson(RowJson(row))), e.prevHash,
                  env.utf8(CanonicalJson(RowJson(e.row))));
      CanonicalIff(RowJson(row), RowJson(e.row));
      SameCentre(row, e.row);
    }
  }

  /** All places but one. */
  function AllBut(i: nat, n: nat): (kept: seq<nat>)
    requires i < n
    ensures |kept| == n - 1
    ensures forall m :: 0 <= m < n - 1 ==> kept[m] == if m < i then m else m + 1
  {
    seq(n - 1, m requires 0 <= m < n - 1 => if m < i then m else m + 1)
  }

  lemma WithoutOne(log: seq<Entry>, i: nat)
    requires i < |log|
    ensures Increasing(AllBut(i, |log|), |log|) && Kept(log, AllBut(i, |log|)) == log[..i] + log[i + 1..]
    ensures IsPrefix(AllBut(i, |log|)) <==> i == |log| - 1
  {
    if i < |log| - 1 {
      assert AllBut(i, |log|)[i] == i + 1;
    }
  }

  /** Moving a row to another centre under its stored hashes is reported by that centre's walk at
      exactly that row, or the two hashed strings collide. */
  lemma MovedRowIsLocated(env: Env, rows: seq<Entry>, k: nat, row: Row)
    requires Utf8Differs(env) && k < |rows| && row.centre != rows[k].row.centre
    requires LogOk(env, LogOf(rows, row.centre)) && LogOk(env, LogOf(rows, rows[k].row.centre))
    requires Valid(RowJson(row)) && Valid(RowJson(rows[k].row))
    ensures var rows', j := rows[k := rows[k].(row := row)], PlaceOf(rows, k, row.centre);
      var log := LogOf(rows', row.centre);
      && j < |log| && log[j] == rows'[k]
      && (FirstBroken(env, log, j)
          || Collision(env.hash, (Preimage(env, rows[k].prevHash, row), Preimage(env, rows[k].prevHash, rows[k].row))))
  {
    var e := rows[k].(row := row);
    var i := PlaceOf(rows, k, rows[k].row.centre);
    LogsAround(rows, k, e, row.centre);
    LogsAround(rows, k, e, rows[k].row.centre);
    assert EntryOk(env, LogOf(rows, rows[k].row.centre), i);
    DigestBefore(env, LogOf(rows, rows[k].row.centre), i);
    StrangerBreaks(env, LogOf(rows, row.centre), PlaceOf(rows, k, row.centre), rows[k], row);
  }

  /** The old centre's walk sees a log without the row: it passes exactly if the row was the last one,
      or the hash is broken. */
  lemma MovedRowIsMissed(env: Env, rows: seq<Entry>, k: nat, row: Row)
    requires k < |rows| && row.centre != rows[k].row.centre && LogOk(env, LogOf(rows, rows[k].row.centre))
    ensures var log, i := LogOf(rows, rows[k].row.centre), PlaceOf(rows, k, rows[k].row.centre);
      && i < |log| && LogOf(rows[k := rows[k].(row := row)], rows[k].row.centre) == log[..i] + log[i + 1..]
      && ((LogOk(env, log[..i] + log[i + 1..]) <==> i == |log| - 1)
          || Chain.Breaks(env.hash, KeptConflict(env, log, AllBut(i, |log|))))
  {
    var log := LogWithoutRow(rows, k, row);
    LosesOne(env, log, PlaceOf(rows, k, rows[k].row.centre));
  }

  lemma LogWithoutRow(rows: seq<Entry>, k: nat, row: Row) returns (log: seq<Entry>)
    requires k < |rows| && row.centre != rows[k].row.centre
    ensures var i := PlaceOf(rows, k, rows[k].row.centre);
      && log == LogOf(rows, rows[k].row.centre) && i < |log|
      && LogOf(rows[k := rows[k].(row := row)], rows[k].row.centre) == log[..i] + log[i + 1..]
  {
    log := LogOf(rows, rows[k].row.centre);
    var i := PlaceOf(rows, k, rows[k].row.centre);
    LogsAround(rows, k, rows[k].(row := row), rows[k].row.centre);
    assert log[..i] + [] + log[i + 1..] == log[..i] + log[i + 1..];
  }

  lemma LosesOne(env: Env, log: seq<Entry>, i: nat)
    requires LogOk(env, log) && i < |log|
    ensures (LogOk(env, log[..i] + log[i + 1..]) <==> i == |log| - 1)
      || Chain.Breaks(env.hash, KeptConflict(env, log, AllBut(i, |log|)))
  {
    WithoutOne(log, i);
    KeptVerifiesIff(env, log, AllBut(i, |log|));
  }

  lemma KeptAppend(log: seq<Entry>, places: seq<nat>, p: nat)
    requires Increasing(places, p) && p < |log|
    ensures Increasing(places + [p], |log|) && Kept(log, places + [p]) == Kept(log[..p], places) + [log[p]]
  {
  }

  lemma KeptBelow(log: seq<Entry>, places: seq<nat>, p: nat)
    requires Increasing(places, p) && p <= |log|
    ensures Increasing(places, |log|) && Kept(log, places) == Kept(log[..p], places)
  {
  }

  /** Whatever rows are removed from the table, each centre's log loses some rows and keeps the order
      of the others, so the theorem about kept rows applies to it. */
  lemma {:induction false} KeptInTable(rows: seq<Entry>, kept: seq<nat>, centre: Option<string>)
    returns (places: seq<nat>)
    requires Increasing(kept, |rows|)
    ensures Increasing(places, |LogOf(rows, centre)|)
    ensures LogOf(Kept(rows, kept), centre) == Kept(LogOf(rows, centre), places)
    decreases |kept|
  {
    if |kept| == 0 {
      places := [];
    } else {
      var n := |kept| - 1;
      var last := kept[n];
      BelowLast(kept, |rows|);
      places := KeptInTable(rows[..last], kept[..n], centre);
      places := KeptMore(rows, kept, centre, places);
    }
  }

  lemma KeptMore(rows: seq<Entry>, kept: seq<nat>, centre: Option<string>, earlier: seq<nat>) returns (places: seq<nat>)
    requires Increasing(kept, |rows|) && |kept| > 0
    requires Increasing(kept[..|kept| - 1], kept[|kept| - 1])
    requires Increasing(earlier, |LogOf(rows[..kept[|kept| - 1]], centre)|)
    requires LogOf(Kept(rows[..kept[|kept| - 1]], kept[..|kept| - 1]), centre)
      == Kept(LogOf(rows[..kept[|kept| - 1]], centre), earlier)
    ensures Increasing(places, |LogOf(rows, centre)|)
      && LogOf(Kept(rows, kept), centre) == Kept(LogOf(rows, centre), places)
  {
    var n := |kept| - 1;
    var last := kept[n];
    var p := |LogOf(rows[..last], centre)|;
    KeptAppend(rows, kept[..n], last);
    assert kept[..n] + [last] == kept;
    LogOfConcat(Kept(rows[..last], kept[..n]), [rows[last]], centre);
    assert [rows[last]][..0] == [];
    LogAround(rows, last, centre);
    assert LogOf(rows, centre)[..p] == LogOf(rows[..last], centre);
    if rows[last].row.centre == centre {
      KeptAppend(LogOf(rows, centre), earlier, p);
      places := earlier + [p];
    } else {
      KeptBelow(LogOf(rows, centre), earlier, p);
      places := earlier;
    }
  }

  lemma {:induction false} BelowLast(kept: seq<nat>, n: nat)
    requires Increasing(kept, n) && |kept| > 0
    ensures Increasing(kept[..|kept| - 1], kept[|kept| - 1])
    decreases |kept|
  {
    var m := |kept| - 1;
    if m > 0 {
      BelowLast(kept[..m], n);
      assert kept[..m][m - 1] == kept[m - 1];
      forall i | 0 <= i < m ensures kept[..m][i] < kept[m] {
        assert i < m - 1 ==> kept[..m][..m - 1][i] < kept[m - 1];
      }
    }
  }
}
