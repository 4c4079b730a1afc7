/**
 * The fixture insertion engine of FixtureTestTrait: `insertFixture` and
 * `addCustomAttributesToRow`.
 *
 * A fixture class is modelled by the two properties the engine reads
 * (`table`, `records`, each possibly unset) and its class name for the
 * error message. The insert primitive `insertFixtureRow` lives outside
 * the model: its answers are an input sequence, one reply per insert, read
 * in order, and every insert the engine issues is recorded in the run's
 * insert log.
 */
module Fixture {
  import opened Wrappers
  import opened Php

  /** The properties of a fixture instance; None = not set or null. */
  datatype FixtureClass = FixtureClass(name: string, table: Option<string>, records: Option<seq<PhpArray>>)

  /** What `insertFixtureRow` does with one row: the generated id (already
      passed through `(int)`), or the database exception it throws. */
  datatype InsertReply = Generated(id: int) | Rejected(reason: string)

  /** One call of `insertFixtureRow($table, $row)`. */
  datatype Insert = Insert(table: string, row: PhpArray)

  /** The two return shapes of `insertFixture`. */
  datatype Inserted = OneRow(row: PhpArray) | Rows(rows: seq<PhpArray>)

  /** The inserts issued, and what the call returned or threw. */
  datatype Run = Run(inserts: seq<Insert>, outcome: Result<Inserted, PhpError>)

  /** The state of the per-row loop when it stops: the inserts issued, the
      ids generated for them, and the exception that stopped the loop. */
  datatype Progress = Progress(inserts: seq<Insert>, ids: seq<int>, error: Option<PhpError>)

  const IdKey: Key := StrKey("id")

  function MissingPropertiesMessage(className: string): string {
    className + " must contain the properties \"records\" and \"table\"."
  }

  // ---------------------------------------------------------------------
  // Calling convention (FixtureTestTrait.php:29-39)

  /** The first variadic argument holds, at int key 0, a non-null array:
      the call passed a 2-dimensional list of attribute sets. */
  predicate IsMultiRowCall(args: seq<PhpArray>) {
    |args| > 0 && IsSet(args[0], IntKey(0)) && Get(args[0], IntKey(0)).value.Arr?
  }

  /** The attribute sets `insertFixture` iterates over, one per insert. */
  function AttributeSets(args: seq<PhpArray>): (sets: seq<Value>)
    ensures |sets| >= 1
  {
    if IsMultiRowCall(args) then Values(args[0])
    else if |args| == 0 then [Arr([])]
    else seq(|args|, i requires 0 <= i < |args| => Arr(args[i]))
  }

  // ---------------------------------------------------------------------
  // addCustomAttributesToRow (FixtureTestTrait.php:78-91)

  /** The `foreach ($attributes as $colum => $value) $row[$colum] = $value` loop. */
  function ApplyAttributes(row: PhpArray, attributes: PhpArray): (r: PhpArray)
    ensures UniqueKeys(row) ==> UniqueKeys(r)
    decreases |attributes|
  {
    if |attributes| == 0 then row
    else
      AssignKeys(row, attributes[0].key, attributes[0].val);
      ApplyAttributes(Assign(row, attributes[0].key, attributes[0].val), attributes[1..])
  }

  function AddCustomAttributesToRow(attributes: PhpArray, row: PhpArray): (r: PhpArray)
    ensures UniqueKeys(row) ==> UniqueKeys(r)
  {
    ApplyAttributes(Unset(row, IdKey), attributes)
  }

  /** Reference definition of the merge, stated without iteration: every
      base entry keeps its place and takes the override's value when there
      is one; then the override entries for keys the base lacks, in
      override order. */
  function Overwritten(base: PhpArray, attributes: PhpArray): (r: PhpArray)
    ensures |r| == |base| && Keys(r) == Keys(base)
  {
    seq(|base|, i requires 0 <= i < |base| =>
      Entry(base[i].key, Get(attributes, base[i].key).GetOr(base[i].val)))
  }

  function MergeSpec(base: PhpArray, attributes: PhpArray): PhpArray {
    Overwritten(base, attributes) + Exclude(attributes, Keys(base))
  }

  /** One step of the loop, when the key is already in the row. */
  lemma MergeStepExisting(row: PhpArray, e: Entry, rest: PhpArray)
    requires UniqueKeys(row) && e.key in Keys(row) && e.key !in Keys(rest)
    ensures MergeSpec(Assign(row, e.key, e.val), rest) == MergeSpec(row, [e] + rest)
  {
    var row' := Assign(row, e.key, e.val);
    AssignExisting(row, e.key, e.val);
    KeysCons(e, rest);
    forall i | 0 <= i < |row|
      ensures Overwritten(row', rest)[i] == Overwritten(row, [e] + rest)[i]
    {
      if row[i].key == e.key {
        assert Get([e] + rest, e.key) == Some(e.val);
      } else {
        assert ([e] + rest)[1..] == rest;
      }
    }
    assert Overwritten(row', rest) == Overwritten(row, [e] + rest);
    ExcludeCons(e, rest, Keys(row));
    assert Keys(row') == Keys(row);
    assert Exclude(rest, Keys(row')) == Exclude([e] + rest, Keys(row));
  }

  lemma OverwrittenAppend(row: PhpArray, e: Entry, rest: PhpArray)
    requires e.key !in Keys(rest)
    ensures Overwritten(row + [e], rest) == Overwritten(row, rest) + [e]
  {
    var row' := row + [e];
    forall i | 0 <= i < |row'|
      ensures Overwritten(row', rest)[i] == (Overwritten(row, rest) + [e])[i]
    {
      if i < |row| {
        assert row'[i] == row[i];
      }
    }
  }

  lemma OverwrittenSkipsForeign(row: PhpArray, e: Entry, rest: PhpArray)
    requires e.key !in Keys(row)
    ensures Overwritten(row, [e] + rest) == Overwritten(row, rest)
  {
    forall i | 0 <= i < |row|
      ensures Overwritten(row, [e] + rest)[i] == Overwritten(row, rest)[i]
    {
      assert row[i].key == Keys(row)[i];
      assert ([e] + rest)[1..] == rest;
    }
  }

  lemma ExcludeIgnoresForeign(rest: PhpArray, ks: seq<Key>, k: Key)
    requires k !in Keys(rest)
    ensures Exclude(rest, ks + [k]) == Exclude(rest, ks)
  {
    forall i | 0 <= i < |rest|
      ensures rest[i].key in ks + [k] <==> rest[i].key in ks
    {
      assert Keys(rest)[i] == rest[i].key;
    }
    ExcludeSameKeys(rest, ks + [k], ks);
  }

  /** One step of the loop, when the key is new to the row. */
  lemma MergeStepNew(row: PhpArray, e: Entry, rest: PhpArray)
    requires e.key !in Keys(row) && e.key !in Keys(rest)
    ensures MergeSpec(row + [e], rest) == MergeSpec(row, [e] + rest)
  {
    var row' := row + [e];
    calc {
      MergeSpec(row', rest);
      Overwritten(row', rest) + Exclude(rest, Keys(row'));
      { assert Keys(row') == Keys(row) + [e.key]; }
      Overwritten(row', rest) + Exclude(rest, Keys(row) + [e.key]);
      { OverwrittenAppend(row, e, rest); ExcludeIgnoresForeign(rest, Keys(row), e.key); }
      Overwritten(row, rest) + [e] + Exclude(rest, Keys(row));
      Overwritten(row, rest) + ([e] + Exclude(rest, Keys(row)));
      { ExcludeCons(e, rest, Keys(row)); }
      Overwritten(row, rest) + Exclude([e] + rest, Keys(row));
      { OverwrittenSkipsForeign(row, e, rest); }
      Overwritten(row, [e] + rest) + Exclude([e] + rest, Keys(row));
      MergeSpec(row, [e] + rest);
    }
  }

  /** The assignment loop computes the reference merge. */
  lemma {:induction false} ApplyAttributesIsMerge(row: PhpArray, attributes: PhpArray)
    requires UniqueKeys(row) && UniqueKeys(attributes)
    ensures ApplyAttributes(row, attributes) == MergeSpec(row, attributes)
    decreases |attributes|
  {
    if |attributes| == 0 {
      assert Exclude(attributes, Keys(row)) == [];
      assert Overwritten(row, attributes) == row;
    } else {
      var e, rest := attributes[0], attributes[1..];
      assert attributes == [e] + rest;
      UniqueCons(e, rest);
      AssignKeys(row, e.key, e.val);
      ApplyAttributesIsMerge(Assign(row, e.key, e.val), rest);
      if e.key in Keys(row) {
        MergeStepExisting(row, e, rest);
      } else {
        AssignNew(row, e.key, e.val);
        MergeStepNew(row, e, rest);
      }
    }
  }

  /** `addCustomAttributesToRow` drops the template's `id`, overwrites
      template keys in place, appends new keys in override order, and leaves
      every other template entry as it was. */
  lemma MergeOrder(attributes: PhpArray, template: PhpArray)
    requires UniqueKeys(attributes) && UniqueKeys(template)
    ensures AddCustomAttributesToRow(attributes, template)
         == Overwritten(Unset(template, IdKey), attributes)
          + Exclude(attributes, Keys(Unset(template, IdKey)))
  {
    ApplyAttributesIsMerge(Unset(template, IdKey), attributes);
  }

  /** Seen as a map: an override wins, otherwise the template value, and the
      template's `id` is gone unless the override sets one. */
  lemma MergeLookup(attributes: PhpArray, template: PhpArray, k: Key)
    requires UniqueKeys(attributes) && UniqueKeys(template)
    ensures Get(AddCustomAttributesToRow(attributes, template), k)
         == if k in Keys(attributes) then Get(attributes, k)
            else if k == IdKey then None
            else Get(template, k)
  {
    var base := Unset(template, IdKey);
    MergeOrder(attributes, template);
    var ov := Overwritten(base, attributes);
    var ex := Exclude(attributes, Keys(base));
    GetAppend(ov, ex, k);
    if k in Keys(base) {
      var i :| 0 <= i < |base| && Keys(base)[i] == k;
      assert ov[i].key == k;
      GetAt(ov, i);
      GetAt(base, i);
    }
  }

  // ---------------------------------------------------------------------
  // The per-row loop and insertFixture (FixtureTestTrait.php:27-68)

  /** The row returned for one insert: `['id' => $id] + $row`. The generated
      id comes first and is the row's `id`, whatever `id` the merged row
      carried; every other key keeps the merged row's value. */
  function WithId(id: int, row: PhpArray): (r: PhpArray)
    ensures |r| > 0 && r[0] == Entry(IdKey, Int(id))
    ensures Get(r, IdKey) == Some(Int(id))
    ensures forall k :: k != IdKey ==> Get(r, k) == Get(row, k)
    ensures UniqueKeys(row) ==> UniqueKeys(r)
  {
    Union([Entry(IdKey, Int(id))], row)
  }

  /** The union with a one-entry array is that entry in front of the row
      with its own `id` unset. */
  lemma WithIdIsUnsetId(id: int, row: PhpArray)
    ensures WithId(id, row) == [Entry(IdKey, Int(id))] + Unset(row, IdKey)
  {
    assert Keys([Entry(IdKey, Int(id))]) == [IdKey];
  }

  /** `addCustomAttributesToRow($attributesForOneRow, $fixture->records[0])`
      as a function of the attribute set. */
  function RowBuilder(template: PhpArray): PhpArray -> PhpArray {
    attributes => AddCustomAttributesToRow(attributes, template)
  }

  /** `foreach ($attributes as $attributesForOneRow)`: build the row and
      insert it. `build` is the row builder (`addCustomAttributesToRow` with
      the template bound). A set that is not an array is rejected by the
      builder's typed parameter; a rejected insert stops the loop. */
  function InsertRows(table: string, build: PhpArray -> PhpArray, sets: seq<Value>, replies: seq<InsertReply>): (p: Progress)
    requires |replies| >= |sets|
    ensures |p.ids| <= |p.inserts| <= |sets|
    ensures forall i :: 0 <= i < |p.ids| ==> sets[i].Arr? && replies[i] == Generated(p.ids[i])
    ensures p.error.None? ==> |p.ids| == |sets|
    ensures p.error.Some? ==>
      var n := |p.inserts|;
      (n == |p.ids| && n < |sets| && !sets[n].Arr? && p.error == Some(TypeError))
      || (n == |p.ids| + 1 && replies[n - 1].Rejected?
          && p.error == Some(PdoException(replies[n - 1].reason)))
    decreases |sets|
  {
    if |sets| == 0 then Progress([], [], None)
    else if !sets[0].Arr? then Progress([], [], Some(TypeError))
    else
      var row := build(sets[0].entries);
      match replies[0]
      case Rejected(reason) => Progress([Insert(table, row)], [], Some(PdoException(reason)))
      case Generated(id) =>
        var p := InsertRows(table, build, sets[1..], replies[1..]);
        var q := Progress([Insert(table, row)] + p.inserts, [id] + p.ids, p.error);
        assert forall i :: 1 <= i < |q.ids| ==> sets[1..][i - 1] == sets[i] && replies[1..][i - 1] == replies[i];
        assert |p.inserts| > 0 ==> replies[1..][|p.inserts| - 1] == replies[|p.inserts|];
        assert |p.inserts| < |sets| - 1 ==> sets[1..][|p.inserts|] == sets[|p.inserts| + 1];
        q
  }

  /** Insert `i` is set `i` merged into a fresh copy of the template: no
      set's overrides reach another insert. */
  lemma {:induction false} InsertRowsContents(table: string, build: PhpArray -> PhpArray, sets: seq<Value>, replies: seq<InsertReply>)
    requires |replies| >= |sets|
    ensures var p := InsertRows(table, build, sets, replies);
      forall i :: 0 <= i < |p.inserts| ==> sets[i].Arr? && p.inserts[i] == Insert(table, build(sets[i].entries))
    decreases |sets|
  {
    if |sets| > 0 && sets[0].Arr? && replies[0].Generated? {
      InsertRowsContents(table, build, sets[1..], replies[1..]);
      var p := InsertRows(table, build, sets[1..], replies[1..]);
      var q := InsertRows(table, build, sets, replies);
      forall i | 1 <= i < |q.inserts| ensures q.inserts[i] == p.inserts[i - 1] && sets[i] == sets[1..][i - 1] {
      }
    }
  }

  /** The loop stops early exactly when some set is not an array or some
      insert is rejected. */
  lemma {:induction false} InsertRowsCompletes(table: string, build: PhpArray -> PhpArray, sets: seq<Value>, replies: seq<InsertReply>)
    requires |replies| >= |sets|
    ensures InsertRows(table, build, sets, replies).error.None?
        <==> forall i :: 0 <= i < |sets| ==> sets[i].Arr? && replies[i].Generated?
    decreases |sets|
  {
    if |sets| > 0 && sets[0].Arr? && replies[0].Generated? {
      InsertRowsCompletes(table, build, sets[1..], replies[1..]);
      assert forall i :: 1 <= i < |sets| ==> sets[i] == sets[1..][i - 1] && replies[i] == replies[1..][i - 1];
    }
  }

  /** When every set is an array and every insert succeeds, the loop runs to
      the end: one insert per set, built from that set, and its reply's id. */
  lemma InsertRowsAllSucceed(table: string, build: PhpArray -> PhpArray, sets: seq<Value>, replies: seq<InsertReply>)
    requires |replies| >= |sets|
    requires forall i :: 0 <= i < |sets| ==> sets[i].Arr? && replies[i].Generated?
    ensures var p := InsertRows(table, build, sets, replies);
      && p.error.None? && |p.inserts| == |p.ids| == |sets|
      && (forall i :: 0 <= i < |sets| ==>
            p.inserts[i] == Insert(table, build(sets[i].entries)) && p.ids[i] == replies[i].id)
  {
    InsertRowsCompletes(table, build, sets, replies);
    InsertRowsContents(table, build, sets, replies);
  }

  /** The rows `insertFixture` collects: insert `i`'s row behind id `i`. */
  function Collected(p: Progress): (rows: seq<PhpArray>)
    requires |p.ids| <= |p.inserts|
    ensures |rows| == |p.ids|
  {
    seq(|p.ids|, i requires 0 <= i < |p.ids| => WithId(p.ids[i], p.inserts[i].row))
  }

  /** `insertFixture($fixture, ...$attributes)`. */
  function InsertFixture(fixture: FixtureClass, args: seq<PhpArray>, replies: seq<InsertReply>): (run: Run)
    requires |replies| >= |AttributeSets(args)|
    ensures run.outcome.Err? && run.outcome.error.InvalidArgumentException? ==> run.inserts == []
  {
    var sets := AttributeSets(args);
    if fixture.records.None? || fixture.table.None? then
      Run([], Err(InvalidArgumentException(MissingPropertiesMessage(fixture.name))))
    else if |fixture.records.value| == 0 then
      // `$fixture->records[0]` is undefined: null reaches the `array` parameter.
      Run([], Err(TypeError))
    else
      var p := InsertRows(fixture.table.value, RowBuilder(fixture.records.value[0]), sets, replies);
      if p.error.Some? then Run(p.inserts, Err(p.error.value))
      else if |sets| == 1 then Run(p.inserts, Ok(OneRow(Collected(p)[0])))
      else Run(p.inserts, Ok(Rows(Collected(p))))
  }

  // ---------------------------------------------------------------------
  // Properties of insertFixture

  /** A fixture without `records` or `table` is refused before any insert. */
  lemma MissingPropertiesRefused(fixture: FixtureClass, args: seq<PhpArray>, replies: seq<InsertReply>)
    requires |replies| >= |AttributeSets(args)|
    requires fixture.records.None? || fixture.table.None?
    ensures InsertFixture(fixture, args, replies)
         == Run([], Err(InvalidArgumentException(MissingPropertiesMessage(fixture.name))))
  {
  }

  /** A successful call issues one insert per attribute set, in order, each
      built from a fresh copy of `records[0]` and its own set only, and
      returns one row per set whose first entry is the generated id; a
      single set gives back the row itself, several give the list. */
  lemma InsertFixtureSucceeds(fixture: FixtureClass, args: seq<PhpArray>, replies: seq<InsertReply>)
    requires |replies| >= |AttributeSets(args)|
    requires fixture.table.Some? && fixture.records.Some? && |fixture.records.value| > 0
    requires forall i :: 0 <= i < |AttributeSets(args)| ==>
      AttributeSets(args)[i].Arr? && replies[i].Generated?
    ensures var run := InsertFixture(fixture, args, replies);
      var sets := AttributeSets(args);
      var template := fixture.records.value[0];
      && run.outcome.Ok?
      && |run.inserts| == |sets|
      && (forall i :: 0 <= i < |sets| ==>
            run.inserts[i] == Insert(fixture.table.value, AddCustomAttributesToRow(sets[i].entries, template)))
      && (run.outcome.value.OneRow? <==> |sets| == 1)
      && (run.outcome.value.OneRow? ==>
            run.outcome.value.row == WithId(replies[0].id, AddCustomAttributesToRow(sets[0].entries, template)))
      && (run.outcome.value.Rows? ==>
            |run.outcome.value.rows| == |sets|
            && forall i :: 0 <= i < |sets| ==>
                 run.outcome.value.rows[i] == WithId(replies[i].id, AddCustomAttributesToRow(sets[i].entries, template)))
  {
    var sets := AttributeSets(args);
    var build := RowBuilder(fixture.records.value[0]);
    InsertRowsAllSucceed(fixture.table.value, build, sets, replies);
  }

  /** Only the first template record is ever used. */
  lemma OnlyFirstRecord(fixture: FixtureClass, args: seq<PhpArray>, replies: seq<InsertReply>)
    requires |replies| >= |AttributeSets(args)|
    requires fixture.records.Some? && |fixture.records.value| > 0
    ensures InsertFixture(fixture, args, replies)
         == InsertFixture(fixture.(records := Some([fixture.records.value[0]])), args, replies)
  {
  }

  /** Calling with no overrides is the same as calling with one empty set. */
  lemma NoOverridesIsOneEmptySet(fixture: FixtureClass, replies: seq<InsertReply>)
    requires |replies| >= 1
    ensures InsertFixture(fixture, [], replies) == InsertFixture(fixture, [[]], replies)
  {
    assert AttributeSets([]) == AttributeSets([[]]);
  }

  /** A 2-dimensional first argument supplies all the sets: any further
      variadic arguments are ignored. */
  lemma ExtraArgumentsIgnored(fixture: FixtureClass, args: seq<PhpArray>, replies: seq<InsertReply>)
    requires IsMultiRowCall(args)
    requires |replies| >= |AttributeSets(args)|
    ensures InsertFixture(fixture, args, replies) == InsertFixture(fixture, [args[0]], replies)
  {
    assert AttributeSets(args) == AttributeSets([args[0]]);
  }

  /** Wrapping one attribute set in a one-element list changes nothing: the
      single row comes back, not a list of one. */
  lemma OneElementWrapperIsSingleRow(fixture: FixtureClass, overrides: PhpArray, replies: seq<InsertReply>)
    requires !IsMultiRowCall([overrides])
    requires |replies| >= 1
    ensures InsertFixture(fixture, [[Entry(IntKey(0), Arr(overrides))]], replies)
         == InsertFixture(fixture, [overrides], replies)
  {
    var wrapped: PhpArray := [Entry(IntKey(0), Arr(overrides))];
    assert Get(wrapped, IntKey(0)) == Some(Arr(overrides));
    assert AttributeSets([wrapped]) == [Arr(overrides)];
    assert AttributeSets([overrides]) == [Arr(overrides)];
  }

  /** An `id` in the override set reaches the database, but the returned row
      carries the generated id in its place. */
  lemma OverrideIdNotReturned(template: PhpArray, attributes: PhpArray, id: int, given: Value)
    requires UniqueKeys(attributes) && UniqueKeys(template)
    requires Get(attributes, IdKey) == Some(given)
    ensures Get(AddCustomAttributesToRow(attributes, template), IdKey) == Some(given)
    ensures Get(WithId(id, AddCustomAttributesToRow(attributes, template)), IdKey) == Some(Int(id))
  {
    MergeLookup(attributes, template, IdKey);
  }

  /** A row without an `id` gets the generated id put in front of it. */
  lemma WithIdFresh(id: int, row: PhpArray)
    requires IdKey !in Keys(row)
    ensures WithId(id, row) == [Entry(IdKey, Int(id))] + row
  {
    WithIdIsUnsetId(id, row);
  }

  /** The users template: an admin record with id 1. */
  function AdminTemplate(): PhpArray {
    [Entry(IdKey, Int(1)), Entry(StrKey("name"), Str("admin")), Entry(StrKey("role"), Str("admin"))]
  }

  /** Overriding the name of the users template drops the template's id
      and keeps its role. */
  lemma RenamedAdmin(who: string)
    ensures AddCustomAttributesToRow([Entry(StrKey("name"), Str(who))], AdminTemplate())
         == [Entry(StrKey("name"), Str(who)), Entry(StrKey("role"), Str("admin"))]
  {
    var name, role := StrKey("name"), StrKey("role");
    var template := AdminTemplate();
    var base := [Entry(name, Str("admin")), Entry(role, Str("admin"))];
    assert Unset(template, IdKey) == base by {
      assert template[..0] + template[1..] == base;
    }
    var attributes := [Entry(name, Str(who))];
    assert Assign(base, name, Str(who)) == [Entry(name, Str(who))] + base[1..];
    assert ApplyAttributes(base, attributes) == ApplyAttributes(Assign(base, name, Str(who)), []);
  }

  /** Two name overrides passed as two arguments are two attribute sets. */
  lemma NamedSets(first: string, second: string)
    ensures var a1 := [Entry(StrKey("name"), Str(first))];
      var a2 := [Entry(StrKey("name"), Str(second))];
      AttributeSets([a1, a2]) == [Arr(a1), Arr(a2)]
  {
    var a1 := [Entry(StrKey("name"), Str(first))];
    assert Keys(a1) == [StrKey("name")];
  }
}
