/** `JsonToDbService`: the catalogue import. The file's entries are cut into
    batches of 1000; in each batch the invalid entries are counted, and the
    valid ones are saved unless their narrowed identifier or their name is
    already in the table or was saved earlier in the batch. */
module CatalogueImport {
  import opened Wrappers
  import opened Numbers
  import opened Seqs
  import opened SteamGame

  const BatchSize: nat := 1000

  /** An entry the batch keeps: an identifier and a non-empty name. */
  predicate IsValidDto(d: GameDto) {
    d.appId.Some? && d.name.Some? && |d.name.value| > 0
  }

  ghost predicate AllValid(ds: seq<GameDto>) {
    forall i :: 0 <= i < |ds| ==> IsValidDto(ds[i])
  }

  function ValidDtos(batch: seq<GameDto>): (valid: seq<GameDto>)
    ensures AllValid(valid)
    ensures |valid| == Count(batch, IsValidDto)
    ensures forall d :: d in valid <==> d in batch && IsValidDto(d)
  {
    Filter(batch, IsValidDto)
  }

  /** The `appid` a valid entry is saved under. */
  function AppIdOf(d: GameDto): int
    requires IsValidDto(d)
  {
    IntValue(d.appId.value)
  }

  /** The identifiers and names already in the `game` table. */
  function ExistingIds(table: seq<Game>): set<int> {
    set g | g in table && g.appid.Some? :: g.appid.value
  }

  function ExistingNames(table: seq<Game>): set<string> {
    set g | g in table && g.name.Some? :: g.name.value
  }

  // ------------------------------------------------------- the reference

  /** Which valid entries are saved, given the identifiers and names seen so
      far: the reference the batch loop is checked against. */
  function Keeps(valid: seq<GameDto>, ids: set<int>, names: set<string>): (flags: seq<bool>)
    requires AllValid(valid)
    ensures |flags| == |valid|
  {
    if |valid| == 0 then []
    else
      var d := valid[0];
      if AppIdOf(d) !in ids && d.name.value !in names then
        [true] + Keeps(valid[1..], ids + {AppIdOf(d)}, names + {d.name.value})
      else
        [false] + Keeps(valid[1..], ids, names)
  }

  /** Entry `i` is fresh: neither its identifier nor its name is among those
      seen before the batch or among the entries kept before it. */
  ghost predicate FirstOccurrence(valid: seq<GameDto>, flags: seq<bool>, ids: set<int>, names: set<string>, i: int)
    requires AllValid(valid) && |flags| == |valid| && 0 <= i < |valid|
  {
    && AppIdOf(valid[i]) !in ids
    && valid[i].name.value !in names
    && forall j :: 0 <= j < i && flags[j] ==> AppIdOf(valid[j]) != AppIdOf(valid[i]) && valid[j].name != valid[i].name
  }

  /** The first occurrence wins: an entry is saved exactly when it is fresh
      with respect to the table and to every entry saved before it. */
  lemma {:induction false} KeepsIsFirstOccurrence(valid: seq<GameDto>, ids: set<int>, names: set<string>)
    requires AllValid(valid)
    ensures forall i :: 0 <= i < |valid| ==>
              (Keeps(valid, ids, names)[i] <==> FirstOccurrence(valid, Keeps(valid, ids, names), ids, names, i))
  {
    forall i | 0 <= i < |valid|
      ensures Keeps(valid, ids, names)[i] <==> FirstOccurrence(valid, Keeps(valid, ids, names), ids, names, i)
    {
      KeepsAt(valid, ids, names, i);
    }
  }

  /** The same, for one position, by induction on the position. */
  lemma {:induction false} KeepsAt(valid: seq<GameDto>, ids: set<int>, names: set<string>, i: int)
    requires AllValid(valid) && 0 <= i < |valid|
    ensures Keeps(valid, ids, names)[i] <==> FirstOccurrence(valid, Keeps(valid, ids, names), ids, names, i)
    decreases i
  {
    var d := valid[0];
    var flags := Keeps(valid, ids, names);
    var keep := AppIdOf(d) !in ids && d.name.value !in names;
    var ids' := if keep then ids + {AppIdOf(d)} else ids;
    var names' := if keep then names + {d.name.value} else names;
    var tail := valid[1..];
    assert AllValid(tail) by {
      forall k | 0 <= k < |tail| ensures IsValidDto(tail[k]) { assert tail[k] == valid[k + 1]; }
    }
    var rest := Keeps(tail, ids', names');
    assert flags == [keep] + rest;
    if i > 0 {
      KeepsAt(tail, ids', names', i - 1);
      assert flags[i] == rest[i - 1];
      FirstOccurrenceShift(valid, flags, ids, names, keep, rest, ids', names', i);
    }
  }

  /** One step of the induction above: freshness of entry `i` in the whole
      batch is freshness of entry `i - 1` in the tail, with the first entry's
      identifier and name added when it was kept. */
  lemma {:induction false} FirstOccurrenceShift(valid: seq<GameDto>, flags: seq<bool>, ids: set<int>, names: set<string>,
                                               keep: bool, rest: seq<bool>, ids': set<int>, names': set<string>, i: int)
    requires AllValid(valid) && |flags| == |valid| && 1 <= i < |valid|
    requires AllValid(valid[1..]) && |rest| == |valid| - 1 && flags == [keep] + rest
    requires keep ==> ids' == ids + {AppIdOf(valid[0])} && names' == names + {valid[0].name.value}
    requires !keep ==> ids' == ids && names' == names
    ensures FirstOccurrence(valid[1..], rest, ids', names', i - 1) <==> FirstOccurrence(valid, flags, ids, names, i)
  {
    var tail := valid[1..];
    assert tail[i - 1] == valid[i];
    assert forall j :: 1 <= j < i ==> tail[j - 1] == valid[j] && rest[j - 1] == flags[j];
    if FirstOccurrence(tail, rest, ids', names', i - 1) {
      forall j | 0 <= j < i && flags[j] ensures AppIdOf(valid[j]) != AppIdOf(valid[i]) && valid[j].name != valid[i].name {
        if j > 0 { assert tail[j - 1] == valid[j] && rest[j - 1]; }
      }
    }
    if FirstOccurrence(valid, flags, ids, names, i) {
      forall j | 0 <= j < i - 1 && rest[j] ensures AppIdOf(tail[j]) != AppIdOf(tail[i - 1]) && tail[j].name != tail[i - 1].name {
        assert tail[j] == valid[j + 1] && flags[j + 1];
      }
    }
  }

  /** The rows saved for the kept entries, in batch order. */
  function Saved(p: DateParsers, valid: seq<GameDto>, flags: seq<bool>): (saved: seq<Game>)
    requires |flags| == |valid|
    ensures |saved| <= |valid|
  {
    if |valid| == 0 then []
    else
      var n := |valid| - 1;
      Saved(p, valid[..n], flags[..n]) + (if flags[n] then [ToEntity(p, valid[n])] else [])
  }

  /** What one batch yields: the three counts and the rows it saves. */
  datatype BatchResult = BatchResult(saved: int, skipped: int, invalid: int, rows: seq<Game>)

  function ProcessBatchRef(p: DateParsers, batch: seq<GameDto>, table: seq<Game>): BatchResult {
    var valid := ValidDtos(batch);
    var flags := Keeps(valid, ExistingIds(table), ExistingNames(table));
    var rows := Saved(p, valid, flags);
    BatchResult(|rows|, |valid| - |rows|, |batch| - |valid|, rows)
  }

  /** The counts add up to the batch size and an all-invalid batch saves
      nothing. */
  lemma {:induction false} ProcessBatchRefFacts(p: DateParsers, batch: seq<GameDto>, table: seq<Game>)
    ensures var r := ProcessBatchRef(p, batch, table);
            && r.saved + r.skipped + r.invalid == |batch|
            && r.saved >= 0 && r.skipped >= 0 && r.invalid >= 0
            && (|ValidDtos(batch)| == 0 ==> r == BatchResult(0, 0, |batch|, []))
  {
  }

  /** `g` is the conversion of a kept entry. */
  ghost predicate FromKept(p: DateParsers, valid: seq<GameDto>, flags: seq<bool>, g: Game)
    requires |flags| == |valid|
  {
    exists j :: 0 <= j < |valid| && flags[j] && g == ToEntity(p, valid[j])
  }

  /** Every saved row is the conversion of a kept entry. */
  lemma {:induction false} SavedOrigin(p: DateParsers, valid: seq<GameDto>, flags: seq<bool>)
    requires |flags| == |valid|
    ensures forall k :: 0 <= k < |Saved(p, valid, flags)| ==> FromKept(p, valid, flags, Saved(p, valid, flags)[k])
  {
    if |valid| > 0 {
      var n := |valid| - 1;
      var pv, pf := valid[..n], flags[..n];
      SavedOrigin(p, pv, pf);
      var prefix := Saved(p, pv, pf);
      var rows := Saved(p, valid, flags);
      assert rows == prefix + (if flags[n] then [ToEntity(p, valid[n])] else []);
      forall k | 0 <= k < |rows| ensures FromKept(p, valid, flags, rows[k]) {
        if k < |prefix| {
          assert FromKept(p, pv, pf, prefix[k]);
          var j :| 0 <= j < n && pf[j] && prefix[k] == ToEntity(p, pv[j]);
          assert rows[k] == prefix[k] && pv[j] == valid[j] && pf[j] == flags[j];
        } else {
          assert flags[n] && rows[k] == ToEntity(p, valid[n]);
        }
      }
    } else {
      assert Saved(p, valid, flags) == [];
    }
  }

  /** A row with an identifier and a name, neither among those given. */
  predicate Fresh(g: Game, ids: set<int>, names: set<string>) {
    g.appid.Some? && g.appid.value !in ids && g.name.Some? && g.name.value !in names
  }

  /** Kept entries that are pairwise fresh and fresh against the seen
      identifiers and names give saved rows with the same freshness. */
  lemma {:induction false} SavedFresh(p: DateParsers, valid: seq<GameDto>, flags: seq<bool>, ids: set<int>, names: set<string>)
    requires AllValid(valid) && |flags| == |valid|
    requires forall i :: 0 <= i < |valid| && flags[i] ==> AppIdOf(valid[i]) !in ids && valid[i].name.value !in names
    requires forall i, j :: 0 <= i < j < |valid| && flags[i] && flags[j] ==>
               AppIdOf(valid[i]) != AppIdOf(valid[j]) && valid[i].name != valid[j].name
    ensures forall k :: 0 <= k < |Saved(p, valid, flags)| ==> Fresh(Saved(p, valid, flags)[k], ids, names)
    ensures forall k, l :: 0 <= k < l < |Saved(p, valid, flags)| ==>
              Saved(p, valid, flags)[k].appid != Saved(p, valid, flags)[l].appid
              && Saved(p, valid, flags)[k].name != Saved(p, valid, flags)[l].name
  {
    if |valid| > 0 {
      var n := |valid| - 1;
      var pv, pf := valid[..n], flags[..n];
      assert AllValid(pv) by {
        forall k | 0 <= k < n ensures IsValidDto(pv[k]) { assert pv[k] == valid[k]; }
      }
      SavedFresh(p, pv, pf, ids, names);
      SavedOrigin(p, pv, pf);
      var prefix := Saved(p, pv, pf);
      if flags[n] {
        var rows := Saved(p, valid, flags);
        var last := ToEntity(p, valid[n]);
        assert rows == prefix + [last];
        forall k | 0 <= k < |prefix| ensures prefix[k].appid != last.appid && prefix[k].name != last.name {
          assert FromKept(p, pv, pf, prefix[k]);
          var j :| 0 <= j < n && pf[j] && prefix[k] == ToEntity(p, pv[j]);
          assert pv[j] == valid[j] && pf[j] == flags[j];
        }
      }
    }
  }

  /** No saved row shares its `appid` or its name with a row already in the
      table or with another row saved by the same batch. */
  lemma {:induction false} SavedRowsAreFresh(p: DateParsers, batch: seq<GameDto>, table: seq<Game>)
    ensures forall k, g :: 0 <= k < |ProcessBatchRef(p, batch, table).rows| && g in table && g.appid.Some? ==>
              ProcessBatchRef(p, batch, table).rows[k].appid != g.appid
    ensures forall k, g :: 0 <= k < |ProcessBatchRef(p, batch, table).rows| && g in table && g.name.Some? ==>
              ProcessBatchRef(p, batch, table).rows[k].name != g.name
    ensures forall k, l :: 0 <= k < l < |ProcessBatchRef(p, batch, table).rows| ==>
              ProcessBatchRef(p, batch, table).rows[k].appid != ProcessBatchRef(p, batch, table).rows[l].appid
              && ProcessBatchRef(p, batch, table).rows[k].name != ProcessBatchRef(p, batch, table).rows[l].name
  {
    var valid := ValidDtos(batch);
    var ids, names := ExistingIds(table), ExistingNames(table);
    var flags := Keeps(valid, ids, names);
    KeepsIsFirstOccurrence(valid, ids, names);
    assert forall i :: 0 <= i < |valid| && flags[i] ==> FirstOccurrence(valid, flags, ids, names, i);
    SavedFresh(p, valid, flags, ids, names);
    var rows := Saved(p, valid, flags);
    forall k, g | 0 <= k < |rows| && g in table && g.appid.Some? ensures rows[k].appid != g.appid {
      assert g.appid.value in ids;
    }
    forall k, g | 0 <= k < |rows| && g in table && g.name.Some? ensures rows[k].name != g.name {
      assert g.name.value in names;
    }
  }

  // -------------------------------------------------------- the batch loop

  /** `processBatch`: the loop over the valid entries with the two sets of
      identifiers and names seen so far. */
  method ProcessBatch(p: DateParsers, batch: seq<GameDto>, table: seq<Game>) returns (r: BatchResult)
    ensures r == ProcessBatchRef(p, batch, table)
  {
    var valid := ValidDtos(batch);
    var invalid := |batch| - |valid|;
    if |valid| == 0 {
      return BatchResult(0, 0, invalid, []);
    }
    var seenIds := ExistingIds(table);
    var seenNames := ExistingNames(table);
    ghost var all := Keeps(valid, seenIds, seenNames);
    ghost var flags: seq<bool> := [];
    var rows: seq<Game> := [];
    var savedCount := 0;
    var skippedCount := 0;
    var i := 0;
    while i < |valid|
      invariant 0 <= i <= |valid| && |flags| == i
      invariant AllValid(valid[i..])
      invariant flags + Keeps(valid[i..], seenIds, seenNames) == all
      invariant rows == Saved(p, valid[..i], flags)
      invariant savedCount == |rows| && skippedCount == i - |rows|
    {
      var d := valid[i];
      KeepsStep(valid, i, seenIds, seenNames);
      SavedStep(p, valid, flags, i);
      var appId := IntValue(d.appId.value);
      var name := d.name.value;
      var keep := appId !in seenIds && name !in seenNames;
      ghost var before := flags;
      if keep {
        rows := rows + [ToEntity(p, d)];
        savedCount := savedCount + 1;
        seenIds := seenIds + {appId};
        seenNames := seenNames + {name};
      } else {
        skippedCount := skippedCount + 1;
      }
      flags := flags + [keep];
      AppendOne(before, keep, Keeps(valid[i + 1..], seenIds, seenNames));
      i := i + 1;
    }
    assert valid[..i] == valid && flags == all;
    return BatchResult(savedCount, skippedCount, invalid, rows);
  }

  /** Appending one element, regrouped. */
  lemma AppendOne<T>(a: seq<T>, x: T, b: seq<T>)
    ensures a + ([x] + b) == (a + [x]) + b
  {
  }

  /** Unfolding the reference at position `i` of the loop. */
  lemma {:induction false} KeepsStep(valid: seq<GameDto>, i: int, ids: set<int>, names: set<string>)
    requires 0 <= i < |valid| && AllValid(valid[i..])
    ensures AllValid(valid[i + 1..]) && IsValidDto(valid[i])
    ensures var d := valid[i];
            var keep := AppIdOf(d) !in ids && d.name.value !in names;
            Keeps(valid[i..], ids, names)
              == if keep then [true] + Keeps(valid[i + 1..], ids + {AppIdOf(d)}, names + {d.name.value})
                 else [false] + Keeps(valid[i + 1..], ids, names)
  {
    assert valid[i..][0] == valid[i] && valid[i..][1..] == valid[i + 1..];
    forall k | i + 1 <= k < |valid| ensures IsValidDto(valid[k]) {
      assert valid[k] == valid[i..][k - i];
    }
  }

  /** Appending a decision appends its row, if any. */
  lemma {:induction false} SavedStep(p: DateParsers, valid: seq<GameDto>, flags: seq<bool>, i: int)
    requires 0 <= i < |valid| && |flags| == i
    ensures forall b :: Saved(p, valid[..i + 1], flags + [b])
                        == Saved(p, valid[..i], flags) + (if b then [ToEntity(p, valid[i])] else [])
  {
    forall b ensures Saved(p, valid[..i + 1], flags + [b]) == Saved(p, valid[..i], flags) + (if b then [ToEntity(p, valid[i])] else []) {
      assert valid[..i + 1][..i] == valid[..i] && valid[..i + 1][i] == valid[i];
      assert (flags + [b])[..i] == flags && (flags + [b])[i] == b;
    }
  }

  // --------------------------------------------------------- all batches

  /** The totals of a whole import. */
  datatype Totals = Totals(saved: int, skipped: int, invalid: int)

  function Add(t: Totals, r: BatchResult): Totals {
    Totals(t.saved + r.saved, t.skipped + r.skipped, t.invalid + r.invalid)
  }

  /** The batch starting at `start`: `subList(i, min(i + 1000, n))`. */
  function BatchAt(games: seq<GameDto>, start: nat): (batch: seq<GameDto>)
    requires start < |games|
    ensures 0 < |batch| <= BatchSize
  {
    var end := if start + BatchSize < |games| then start + BatchSize else |games|;
    games[start..end]
  }

  /** The import from batch `number` on (starting at `start`): a batch that
      fails (`fails`, since the failure comes from the database) contributes
      neither counts nor rows, and the loop goes on. */
  function ImportFrom(p: DateParsers, fails: int -> bool, games: seq<GameDto>, start: nat, number: int,
                      table: seq<Game>, acc: Totals): (r: (Totals, seq<Game>))
    decreases |games| - start
  {
    if start >= |games| then (acc, table)
    else
      var batch := BatchAt(games, start);
      if fails(number) then ImportFrom(p, fails, games, start + BatchSize, number + 1, table, acc)
      else
        var res := ProcessBatchRef(p, batch, table);
        ImportFrom(p, fails, games, start + BatchSize, number + 1, table + res.rows, Add(acc, res))
  }

  /** The size of the batches that do not fail, from `start` on. */
  function SucceededSize(fails: int -> bool, games: seq<GameDto>, start: nat, number: int): nat
    decreases |games| - start
  {
    if start >= |games| then 0
    else (if fails(number) then 0 else |BatchAt(games, start)|) + SucceededSize(fails, games, start + BatchSize, number + 1)
  }

  /** The totals count every entry of every batch that did not fail, once. */
  lemma {:induction false} ImportCountsSucceededEntries(p: DateParsers, fails: int -> bool, games: seq<GameDto>, start: nat,
                                                       number: int, table: seq<Game>, acc: Totals)
    ensures var t := ImportFrom(p, fails, games, start, number, table, acc).0;
            t.saved + t.skipped + t.invalid == acc.saved + acc.skipped + acc.invalid + SucceededSize(fails, games, start, number)
    decreases |games| - start
  {
    if start < |games| {
      var batch := BatchAt(games, start);
      if fails(number) {
        ImportCountsSucceededEntries(p, fails, games, start + BatchSize, number + 1, table, acc);
      } else {
        var res := ProcessBatchRef(p, batch, table);
        ProcessBatchRefFacts(p, batch, table);
        ImportCountsSucceededEntries(p, fails, games, start + BatchSize, number + 1, table + res.rows, Add(acc, res));
      }
    }
  }

  /** With no failing batch, every entry of the file is counted exactly once. */
  lemma {:induction false} SucceededSizeWithoutFailures(fails: int -> bool, games: seq<GameDto>, start: nat, number: int)
    requires forall k :: !fails(k)
    requires start <= |games| && start % BatchSize == 0
    ensures SucceededSize(fails, games, start, number) == |games| - start
    decreases |games| - start
  {
    if start < |games| {
      if start + BatchSize < |games| {
        SucceededSizeWithoutFailures(fails, games, start + BatchSize, number + 1);
      } else {
        assert SucceededSize(fails, games, start + BatchSize, number + 1) == 0;
      }
    }
  }

  /** Entry `j` of the file lies in batch number `j / 1000` (counting from
      zero) and in no other: the batches are consecutive slices that cover
      the file once. */
  lemma {:induction false} BatchesPartition(games: seq<GameDto>, j: nat, k: nat)
    requires j < |games| && k * BatchSize < |games|
    ensures (k * BatchSize <= j < k * BatchSize + |BatchAt(games, k * BatchSize)|) <==> k == j / BatchSize
  {
    var q := j / BatchSize;
    assert q * BatchSize <= j < q * BatchSize + BatchSize;
    if k < q {
      assert (k + 1) * BatchSize <= q * BatchSize;
    } else if k > q {
      assert (q + 1) * BatchSize <= k * BatchSize;
    }
  }

  /** `saveDataFromJsonFile` after parsing: the batching loop. */
  method ImportAll(p: DateParsers, fails: int -> bool, games: seq<GameDto>, existing: seq<Game>)
    returns (totals: Totals, table: seq<Game>)
    ensures (totals, table) == ImportFrom(p, fails, games, 0, 1, existing, Totals(0, 0, 0))
    ensures totals.saved + totals.skipped + totals.invalid == SucceededSize(fails, games, 0, 1)
  {
    ImportCountsSucceededEntries(p, fails, games, 0, 1, existing, Totals(0, 0, 0));
    totals := Totals(0, 0, 0);
    table := existing;
    var i := 0;
    var number := 1;
    while i < |games|
      invariant ImportFrom(p, fails, games, i, number, table, totals) == ImportFrom(p, fails, games, 0, 1, existing, Totals(0, 0, 0))
      decreases |games| - i
    {
      var batch := BatchAt(games, i);
      if !fails(number) {
        var res := ProcessBatch(p, batch, table);
        totals := Add(totals, res);
        table := table + res.rows;
      }
      i := i + BatchSize;
      number := number + 1;
    }
  }
}
