/** Writing a pool to a stream row by row and reading it back through the pool's own operations. */
module StorageStream {
  import opened PoolModel
  import opened SparsePool
  import opened PoolClone
  import opened EntitySlots

  /** Fixed-size fields of the stream; a component value is written as one unit. */
  datatype Token<V> = U64(n: nat) | U32(n: nat) | U8(n: nat) | Raw(v: V)

  function Bool8(b: bool): nat { if b then 1 else 0 }

  function FlagByte(f: Flags): nat { Bool8(f.dirty) + 2 * Bool8(f.destroy) }

  function RowTokens<V>(rows: seq<Row<V>>, n: nat): seq<Token<V>>
    requires n <= |rows|
  {
    if n == 0 then []
    else RowTokens(rows, n - 1)
         + [U32(rows[n - 1].index), U8(Bool8(rows[n - 1].dirty)), U8(Bool8(rows[n - 1].added)), Raw(rows[n - 1].value)]
  }

  function TombTokens<V>(entities: seq<Entity>, flags: seq<Flags>, n: nat): seq<Token<V>>
    requires n <= |entities| == |flags|
  {
    if n == 0 then [] else TombTokens(entities, flags, n - 1) + [U64(Pack(entities[n - 1])), U8(FlagByte(flags[n - 1]))]
  }

  ghost function StorageTokens<V>(c: Compact<V>): seq<Token<V>>
    requires CompactValid(c)
  {
    [U64(|c.dense|)] + RowTokens(ModelOf(c).rows, |ModelOf(c).rows|)
    + [U64(|c.tombIndices|)] + TombTokens(c.tombEntities, c.tombFlags, |c.tombEntities|)
  }

  /** The stream, field by field: the row count, for each row its index, its marks and its value, the
      tombstone count, and for each tombstone its handle and flags. */
  ghost predicate Spells<V>(out: seq<Token<V>>, c: Compact<V>)
    requires CompactValid(c)
  {
    var n, m := |c.dense|, |c.tombIndices|;
    && |out| == 2 + 4 * n + 2 * m && out[0] == U64(n) && out[1 + 4 * n] == U64(m)
    && (forall k :: 0 <= k < n ==>
          && out[1 + 4 * k] == U32(c.dense[k]) && out[1 + 4 * k + 1] == U8(if c.dirty[k] then 1 else 0)
          && out[1 + 4 * k + 2] == U8(if c.added[k] then 1 else 0) && out[1 + 4 * k + 3] == Raw(c.values[k]))
    && (forall p :: 0 <= p < m ==>
          && out[2 + 4 * n + 2 * p] == U64(c.tombEntities[p].version * 0x1_0000_0000 + c.tombEntities[p].index)
          && out[2 + 4 * n + 2 * p + 1] ==
             U8((if c.tombFlags[p].dirty then 1 else 0) + (if c.tombFlags[p].destroy then 2 else 0)))
  }

  lemma TokensSpell<V>(c: Compact<V>)
    requires CompactValid(c)
    ensures Spells(StorageTokens(c), c)
  {
    hide RowTokens, TombTokens, ListedTombs, Holds, CompactTombs;
    var out, n, m := StorageTokens(c), |c.dense|, |c.tombIndices|;
    CompactShape(c);
    StoragePieces(out, c);
    RowTokensLength(ModelOf(c).rows, n);
    TombTokensLength<V>(c.tombEntities, c.tombFlags, m);
    assert |out| == 2 + 4 * n + 2 * m;
    forall k | 0 <= k < n
      ensures out[1 + 4 * k] == U32(c.dense[k]) && out[1 + 4 * k + 1] == U8(Bool8(c.dirty[k])) &&
          out[1 + 4 * k + 2] == U8(Bool8(c.added[k])) && out[1 + 4 * k + 3] == Raw(c.values[k])
    {
      RowTokensAt(out, 1, ModelOf(c).rows, k);
    }
    forall p | 0 <= p < m
      ensures out[2 + 4 * n + 2 * p] == U64(Pack(c.tombEntities[p])) &&
          out[2 + 4 * n + 2 * p + 1] == U8(FlagByte(c.tombFlags[p]))
    {
      TombTokensAt(out, 2 + 4 * n, c.tombEntities, c.tombFlags, p);
    }
  }

  method WriteStorage<V>(c: Compact<V>) returns (out: seq<Token<V>>)
    requires CompactValid(c)
    ensures out == StorageTokens(c) && Spells(out, c)
  {
    hide CompactValid, ListedTombs, Spells;
    CompactShape(c);
    ghost var rows := ModelOf(c).rows;
    out := [U64(|c.dense|)];
    for k := 0 to |c.dense|
      invariant out == [U64(|c.dense|)] + RowTokens(rows, k)
    {
      out := out + [U32(c.dense[k]), U8(Bool8(c.dirty[k])), U8(Bool8(c.added[k])), Raw(c.values[k])];
    }
    out := out + [U64(|c.tombIndices|)];
    ghost var head := out;
    for p := 0 to |c.tombIndices|
      invariant out == head + TombTokens(c.tombEntities, c.tombFlags, p)
    {
      out := out + [U64(Pack(c.tombEntities[p])), U8(FlagByte(c.tombFlags[p]))];
    }
    TokensSpell(c);
  }

  lemma CompactShape<V>(c: Compact<V>)
    requires CompactValid(c)
    ensures |c.values| == |c.dirty| == |c.added| == |c.dense| == |ModelOf(c).rows|
    ensures |c.tombFlags| == |c.tombEntities| == |c.tombIndices|
    ensures forall k :: 0 <= k < |c.dense| ==>
        ModelOf(c).rows[k] == Row(c.dense[k], c.values[k], c.dirty[k], c.added[k])
    ensures forall k :: 0 <= k < |c.dense| ==> c.dense[k] < NPOS && (c.added[k] ==> c.dirty[k])
    ensures CompactTombs(c.tombIndices, c.tombFlags, c.tombEntities) && Distinct(ModelOf(c).rows)
  {
  }

  /** Handles a stream can carry: 32-bit index and version. */
  ghost predicate Encodable<V>(c: Compact<V>) {
    forall p :: 0 <= p < |c.tombEntities| ==> c.tombEntities[p].version < HALF
  }

  /** The row operations of the reader: insert marks the row, then marks are taken away. */
  function RowRead<V>(m: Model<V>, i: nat, v: V, dirty: nat, added: nat): Model<V> {
    var placed := Emplace(m, Entity(i, 0), v);
    if dirty == 0 then ClearDirty(placed, i) else if added == 0 then ClearAdded(placed, i) else placed
  }

  method ReadRow<V>(pool: Pool<V>, i: nat, v: V, dirty: nat, added: nat)
    requires pool.Valid() && i < NPOS
    modifies pool
    ensures pool.Valid() && pool.M() == RowRead(old(pool.M()), i, v, dirty, added)
  {
    hide Pool.Valid, Pool.M, Emplace, ClearDirty, ClearAdded;
    pool.EmplaceOrReplace(Entity(i, 0), v);
    if dirty == 0 {
      var _ := pool.ClearDirty(i);
    } else if added == 0 {
      var _ := pool.ClearAdded(i);
    }
  }

  /** A new row comes back with exactly the marks that were written. */
  lemma RowReadAppends<V>(rows: seq<Row<V>>, k: nat)
    requires k < |rows| && Distinct(rows) && (rows[k].added ==> rows[k].dirty)
    ensures RowRead(Model(rows[..k], map[]), rows[k].index, rows[k].value, Bool8(rows[k].dirty), Bool8(rows[k].added))
         == Model(rows[..k + 1], map[])
  {
    var front, x := rows[..k], rows[k];
    assert Find(front, x.index) == |front|;
    RowReadAt(front, x);
    assert rows[..k + 1] == front + [x];
  }

  lemma RowReadAt<V>(rows: seq<Row<V>>, x: Row<V>)
    requires Distinct(rows) && Find(rows, x.index) == |rows| && (x.added ==> x.dirty)
    ensures RowRead(Model(rows, map[]), x.index, x.value, Bool8(x.dirty), Bool8(x.added)) == Model(rows + [x], map[])
  {
    hide Find, Distinct;
    var marked := Row(x.index, x.value, true, true);
    AppendFinds(rows, marked, x.index);
    assert Emplace(Model(rows, map[]), Entity(x.index, 0), x.value) == Model(rows + [marked], map[]);
    assert (rows + [marked])[|rows| := x] == rows + [x];
  }

  /** The next token, if there is one. */
  function Next<V>(input: seq<Token<V>>, at: nat): Option<Token<V>> { if at < |input| then Some(input[at]) else None }

  ghost predicate Holds<V>(input: seq<Token<V>>, at: nat, part: seq<Token<V>>) {
    at + |part| <= |input| && input[at..at + |part|] == part
  }

  lemma HoldsSplit<V>(input: seq<Token<V>>, at: nat, a: seq<Token<V>>, b: seq<Token<V>>)
    requires Holds(input, at, a + b)
    ensures Holds(input, at, a) && Holds(input, at + |a|, b)
    ensures forall k :: 0 <= k < |b| ==> Next(input, at + |a| + k) == Some(b[k])
  {
    assert input[at..at + |a|] == (a + b)[..|a|];
    assert input[at + |a|..at + |a| + |b|] == (a + b)[|a|..];
    forall k | 0 <= k < |b|
      ensures Next(input, at + |a| + k) == Some(b[k])
    {
      assert input[at + |a|..at + |a| + |b|][k] == b[k];
    }
  }

  lemma {:induction false} RowTokensPrefix<V>(input: seq<Token<V>>, at: nat, rows: seq<Row<V>>, k: nat, n: nat)
    requires k <= n <= |rows| && Holds(input, at, RowTokens(rows, n))
    ensures Holds(input, at, RowTokens(rows, k)) && |RowTokens(rows, k)| == 4 * k
    decreases n
  {
    if k < n {
      HoldsSplit(input, at, RowTokens(rows, n - 1), RowTokens(rows, n)[|RowTokens(rows, n - 1)|..]);
      assert RowTokens(rows, n) == RowTokens(rows, n - 1) + RowTokens(rows, n)[|RowTokens(rows, n - 1)|..];
      RowTokensPrefix(input, at, rows, k, n - 1);
    } else {
      RowTokensLength<V>(rows, k);
    }
  }

  lemma {:induction false} RowTokensLength<V>(rows: seq<Row<V>>, k: nat)
    requires k <= |rows|
    ensures |RowTokens(rows, k)| == 4 * k
  {
    if k > 0 { RowTokensLength(rows, k - 1); }
  }

  lemma {:induction false} RowTokensAt<V>(input: seq<Token<V>>, at: nat, rows: seq<Row<V>>, k: nat)
    requires k < |rows| && Holds(input, at, RowTokens(rows, |rows|))
    ensures Next(input, at + 4 * k) == Some(U32(rows[k].index)) &&
        Next(input, at + 4 * k + 1) == Some(U8(Bool8(rows[k].dirty)))
    ensures Next(input, at + 4 * k + 2) == Some(U8(Bool8(rows[k].added))) &&
        Next(input, at + 4 * k + 3) == Some(Raw(rows[k].value))
  {
    RowTokensPrefix(input, at, rows, k + 1, |rows|);
    RowTokensLength(rows, k);
    var last := [U32(rows[k].index), U8(Bool8(rows[k].dirty)), U8(Bool8(rows[k].added)), Raw(rows[k].value)];
    HoldsSplit(input, at, RowTokens(rows, k), last);
    assert last[0] == U32(rows[k].index) && last[1] == U8(Bool8(rows[k].dirty)) &&
        last[2] == U8(Bool8(rows[k].added)) && last[3] == Raw(rows[k].value);
    assert Next(input, at + 4 * k + 0) == Some(last[0]);
  }

  /** Four fields of a row from this place on. */
  predicate RowReadable<V>(input: seq<Token<V>>, at: nat) {
    && at + 3 < |input| && input[at].U32? && input[at].n < NPOS
    && input[at + 1].U8? && input[at + 2].U8? && input[at + 3].Raw?
  }

  /** A handle and a flag byte from this place on. */
  predicate TombReadable<V>(input: seq<Token<V>>, at: nat) {
    && at + 1 < |input| && input[at].U64? && Unpack(input[at].n).index < NPOS
    && input[at + 1].U8? && input[at + 1].n <= 3
  }

  /** A stream that starts with a row count, the rows, a tombstone count and the tombstones. */
  ghost predicate Readable<V>(input: seq<Token<V>>) {
    && 0 < |input| && input[0].U64?
    && var n := input[0].n;
       && (forall k :: 0 <= k < n ==> RowReadable(input, 1 + 4 * k))
       && 1 + 4 * n < |input| && input[1 + 4 * n].U64?
       && forall p :: 0 <= p < input[1 + 4 * n].n ==> TombReadable(input, 2 + 4 * n + 2 * p)
  }

  lemma RowReadKeepsTombs<V>(m: Model<V>, i: nat, v: V, dirty: nat, added: nat)
    requires m.tombs == map[] && Distinct(m.rows)
    ensures RowRead(m, i, v, dirty, added).tombs == map[]
  {
    hide Find, Distinct;
    EmplaceLookup(m, Entity(i, 0), v, i);
  }

  /** Read the rows; a stream that is too short or ill-typed stops the reader. */
  method ReadRows<V>(input: seq<Token<V>>, at: nat, count: nat, pool: Pool<V>,
      ghost rows: seq<Row<V>>) returns (ok: bool)
    requires pool.Valid() && pool.M() == Model([], map[])
    modifies pool
    ensures pool.Valid() && pool.M().tombs == map[]
    ensures ok <==> forall k :: 0 <= k < count ==> RowReadable(input, at + 4 * k)
    ensures count == |rows| && Holds(input, at, RowTokens(rows, count)) && WellFormed(Model(rows, map[]))
            && (forall k :: 0 <= k < |rows| ==> rows[k].index < NPOS)
            ==> ok && pool.M() == Model(rows, map[])
  {
    hide Pool.Valid, Pool.M, RowTokens, RowRead;
    ghost var good := count == |rows| && Holds(input, at, RowTokens(rows, count)) && WellFormed(Model(rows, map[]))
                      && forall k :: 0 <= k < |rows| ==> rows[k].index < NPOS;
    for k := 0 to count
      invariant pool.Valid() && (good ==> pool.M() == Model(rows[..k], map[])) && pool.M().tombs == map[]
      invariant forall j :: 0 <= j < k ==> RowReadable(input, at + 4 * j)
    {
      assert RowReadable(input, at + 4 * k) <==>
          var i, d, a, v := Next(input, at + 4 * k), Next(input, at + 4 * k + 1), Next(input, at + 4 * k + 2),
              Next(input, at + 4 * k + 3);
          i.Some? && d.Some? && a.Some? && v.Some? && i.value.U32? && d.value.U8? && a.value.U8? && v.value.Raw? &&
          i.value.n < NPOS;
      if good {
        RowTokensAt(input, at, rows, k);
        RowReadAppends(rows, k);
      }
      var i, d, a, v := Next(input, at + 4 * k), Next(input, at + 4 * k + 1), Next(input, at + 4 * k + 2),
          Next(input, at + 4 * k + 3);
      if i.None? || d.None? || a.None? || v.None? || !i.value.U32? || !d.value.U8? || !a.value.U8? || !v.value.Raw? ||
          i.value.n >= NPOS {
        return false;
      }
      RowsDiffer(pool);
      RowReadKeepsTombs(pool.M(), i.value.n, v.value.v, d.value.n, a.value.n);
      ReadRow(pool, i.value.n, v.value.v, d.value.n, a.value.n);
    }
    assert good ==> rows[..count] == rows;
    return true;
  }

  lemma RowsDiffer<V>(pool: Pool<V>)
    requires pool.Valid()
    ensures Distinct(pool.M().rows)
  {
  }

  lemma {:induction false} TombTokensLength<V>(entities: seq<Entity>, flags: seq<Flags>, n: nat)
    requires n <= |entities| == |flags|
    ensures |TombTokens<V>(entities, flags, n)| == 2 * n
  {
    if n > 0 { TombTokensLength<V>(entities, flags, n - 1); }
  }

  lemma {:induction false} TombTokensPrefix<V>(input: seq<Token<V>>, at: nat, entities: seq<Entity>, flags: seq<Flags>,
      k: nat, n: nat)
    requires k <= n <= |entities| == |flags| && Holds(input, at, TombTokens(entities, flags, n))
    ensures Holds(input, at, TombTokens(entities, flags, k))
    decreases n
  {
    if k < n {
      HoldsSplit(input, at, TombTokens(entities, flags, n - 1),
          [U64(Pack(entities[n - 1])), U8(FlagByte(flags[n - 1]))]);
      TombTokensPrefix(input, at, entities, flags, k, n - 1);
    }
  }

  lemma {:induction false} TombTokensAt<V>(input: seq<Token<V>>, at: nat, entities: seq<Entity>, flags: seq<Flags>,
      p: nat)
    requires p < |entities| == |flags| && Holds(input, at, TombTokens(entities, flags, |entities|))
    ensures Next(input, at + 2 * p) == Some(U64(Pack(entities[p]))) &&
        Next(input, at + 2 * p + 1) == Some(U8(FlagByte(flags[p])))
  {
    TombTokensPrefix(input, at, entities, flags, p + 1, |entities|);
    TombTokensLength<V>(entities, flags, p);
    var last: seq<Token<V>> := [U64(Pack(entities[p])), U8(FlagByte(flags[p]))];
    HoldsSplit(input, at, TombTokens(entities, flags, p), last);
    assert last[0] == U64(Pack(entities[p])) && last[1] == U8(FlagByte(flags[p]));
    assert Next(input, at + 2 * p + 0) == Some(last[0]);
  }

  method ReadTombs<V>(input: seq<Token<V>>, at: nat, count: nat, pool: Pool<V>, ghost c: Compact<V>) returns (ok: bool)
    requires pool.Valid() && pool.M().tombs == map[]
    modifies pool
    ensures pool.Valid() && pool.M().rows == old(pool.M()).rows
    ensures ok <==> forall p :: 0 <= p < count ==> TombReadable(input, at + 2 * p)
    ensures CompactTombs(c.tombIndices, c.tombFlags, c.tombEntities) && Encodable(c) && count == |c.tombIndices|
            && Holds(input, at, TombTokens(c.tombEntities, c.tombFlags, count))
            ==> ok && pool.M().tombs == ListedTombs(c.tombIndices, c.tombFlags, c.tombEntities, count)
  {
    hide Pool.RowsValid, Pool.TombsValid, Pool.Rows, Pool.Tombs, TombTokens, Pack, Unpack;
    ghost var good := CompactTombs(c.tombIndices, c.tombFlags, c.tombEntities) && Encodable(c) &&
        count == |c.tombIndices|
                      && Holds(input, at, TombTokens(c.tombEntities, c.tombFlags, count));
    for p := 0 to count
      invariant pool.Valid() && pool.M().rows == old(pool.M()).rows
      invariant forall q :: 0 <= q < p ==> TombReadable(input, at + 2 * q)
      invariant good ==> pool.M().tombs == ListedTombs(c.tombIndices, c.tombFlags, c.tombEntities, p)
    {
      if good {
        TombTokensAt(input, at, c.tombEntities, c.tombFlags, p);
        PackRoundTrip(c.tombEntities[p], 0);
        FlagByteReads(c.tombFlags[p]);
      }
      assert TombReadable(input, at + 2 * p) <==>
          var e, f := Next(input, at + 2 * p), Next(input, at + 2 * p + 1);
          e.Some? && f.Some? && e.value.U64? && f.value.U8? && f.value.n <= 3 && Unpack(e.value.n).index < NPOS;
      var e, f := Next(input, at + 2 * p), Next(input, at + 2 * p + 1);
      if e.None? || f.None? || !e.value.U64? || !f.value.U8? || f.value.n > 3 || Unpack(e.value.n).index >= NPOS {
        return false;
      }
      pool.MarkTombstone(Unpack(e.value.n), FlagsOf(f.value.n));
    }
    return true;
  }

  function FlagsOf(n: nat): Flags { Flags(n % 2 == 1, n / 2 % 2 == 1) }

  lemma FlagByteReads(f: Flags)
    ensures FlagsOf(FlagByte(f)) == f && FlagByte(f) < 4
  {
  }

  method ReadStorage<V>(input: seq<Token<V>>, ghost c: Compact<V>) returns (pool: Option<Pool<V>>)
    ensures pool.Some? <==> Readable(input)
    ensures pool.Some? ==> fresh(pool.value) && pool.value.Valid()
    ensures CompactValid(c) && Encodable(c) && StorageTokens(c) <= input ==> pool.Some? && pool.value.M() == ModelOf(c)
  {
    hide Pool.Valid, Pool.M, RowTokens, TombTokens, CompactValid, Encodable;
    ghost var good := CompactValid(c) && Encodable(c) && StorageTokens(c) <= input;
    if good {
      StoragePieces(input, c);
      CompactShape(c);
    }
    var dense := Next(input, 0);
    if dense.None? || !dense.value.U64? {
      return None;
    }
    var p := new Pool<V>();
    var ok := ReadRows(input, 1, dense.value.n, p, if good then ModelOf(c).rows else []);
    if !ok {
      return None;
    }
    var tombs := Next(input, 1 + 4 * dense.value.n);
    if tombs.None? || !tombs.value.U64? {
      return None;
    }
    ok := ReadTombs(input, 2 + 4 * dense.value.n, tombs.value.n, p, c);
    return if ok then Some(p) else None;
  }

  lemma {:induction false} StoragePieces<V>(input: seq<Token<V>>, c: Compact<V>)
    requires CompactValid(c) && StorageTokens(c) <= input
    ensures Next(input, 0) == Some(U64(|c.dense|)) && |ModelOf(c).rows| == |c.dense|
    ensures Holds(input, 1, RowTokens(ModelOf(c).rows, |c.dense|)) &&
        Next(input, 1 + 4 * |c.dense|) == Some(U64(|c.tombIndices|))
    ensures |c.tombEntities| == |c.tombFlags| == |c.tombIndices|
    ensures Holds(input, 2 + 4 * |c.dense|, TombTokens(c.tombEntities, c.tombFlags, |c.tombIndices|))
    ensures WellFormed(Model(ModelOf(c).rows, map[])) && forall k :: 0 <= k < |ModelOf(c).rows| ==>
        ModelOf(c).rows[k].index < NPOS
  {
    hide RowTokens, TombTokens, CompactValid, Holds, ListedTombs;
    CompactShape(c);
    RowTokensLength(ModelOf(c).rows, |c.dense|);
    FourPieces(input, |c.dense|, RowTokens(ModelOf(c).rows, |c.dense|), |c.tombIndices|,
               TombTokens<V>(c.tombEntities, c.tombFlags, |c.tombIndices|));
  }

  lemma {:induction false} FourPieces<V>(input: seq<Token<V>>, a: nat, rows: seq<Token<V>>, b: nat,
      tombs: seq<Token<V>>)
    requires [U64(a)] + rows + [U64(b)] + tombs <= input
    ensures Next(input, 0) == Some(U64(a)) && Holds(input, 1, rows)
    ensures Next(input, 1 + |rows|) == Some(U64(b)) && Holds(input, 2 + |rows|, tombs)
  {
    var all := [U64(a)] + rows + [U64(b)] + tombs;
    assert input[..|all|] == all;
    assert input[0] == all[0] && input[1 + |rows|] == all[1 + |rows|];
    assert input[1..1 + |rows|] == all[1..1 + |rows|] == rows;
    assert input[2 + |rows|..2 + |rows| + |tombs|] == all[2 + |rows|..] == tombs;
  }

  /** A compact copy written and read back is a full pool with the same rows in the same order, the
      same values and marks, and the same tombstones. */
  method StorageRoundTrip<V>(c: Compact<V>, rest: seq<Token<V>>) returns (pool: Pool<V>)
    requires CompactValid(c) && Encodable(c)
    ensures fresh(pool) && pool.Valid() && pool.M() == ModelOf(c)
  {
    hide Pool.Valid, Pool.M, CompactValid, Encodable, StorageTokens;
    var out := WriteStorage(c);
    var back := ReadStorage(out + rest, c);
    pool := back.value;
  }
}
