/**
 * `assertPartialJsonData` of HttpJsonTestTrait: the response data is cut
 * down to the keys the expected data names (one level into nested arrays),
 * and the result is compared with the expected data by `assertEquals`.
 */
module PartialJson {
  import opened Wrappers
  import opened Php

  /** What the filter keeps for one expected entry. When both the expected
      value and the response value are arrays, the response sub-array is cut
      down to the expected sub-array's keys; otherwise the response value is
      taken whole, or null when it is missing. */
  function Pick(expected: Value, response: PhpArray, k: Key): (v: Value)
    ensures !IsSet(response, k) ==> v == Null
    ensures IsSet(response, k) && !(expected.Arr? && Get(response, k).value.Arr?) ==> Some(v) == Get(response, k)
    ensures expected.Arr? && IsSet(response, k) && Get(response, k).value.Arr? ==>
      && v.Arr?
      && Subsequence(v.entries, Get(response, k).value.entries)
      && forall e :: e in v.entries <==> e in Get(response, k).value.entries && e.key in Keys(expected.entries)
  {
    if expected.Arr? && IsSet(response, k) && Get(response, k).value.Arr? then
      Arr(IntersectKey(Get(response, k).value.entries, expected.entries))
    else
      Coalesce(response, k)
  }

  /** The filter loop as written: for each expected entry in order,
      `$filteredResponseData[$key] = ...`, starting from `acc`. */
  function FilterLoop(expected: PhpArray, response: PhpArray, acc: PhpArray): (r: PhpArray)
    ensures Keys(acc) <= Keys(r)
    ensures forall i :: 0 <= i < |expected| ==> expected[i].key in Keys(r)
    decreases |expected|
  {
    if |expected| == 0 then acc
    else
      var k := expected[0].key;
      var acc' := Assign(acc, k, Pick(expected[0].val, response, k));
      AssignKeys(acc, k, Pick(expected[0].val, response, k));
      var r := FilterLoop(expected[1..], response, acc');
      assert k in Keys(acc') && Keys(acc') <= Keys(r);
      assert forall i :: 1 <= i < |expected| ==> expected[i] == expected[1..][i - 1];
      r
  }

  /** Reference definition of the filtered data: one entry per expected
      entry, same key, same position. */
  function Filtered(expected: PhpArray, response: PhpArray): (f: PhpArray)
    ensures |f| == |expected|
    ensures Keys(f) == Keys(expected)
  {
    seq(|expected|, i requires 0 <= i < |expected| =>
      Entry(expected[i].key, Pick(expected[i].val, response, expected[i].key)))
  }

  lemma FilteredCons(expected: PhpArray, response: PhpArray)
    requires |expected| > 0
    ensures Filtered(expected, response)
         == [Entry(expected[0].key, Pick(expected[0].val, response, expected[0].key))]
            + Filtered(expected[1..], response)
  {
    var f, t := Filtered(expected, response), Filtered(expected[1..], response);
    assert forall i :: 1 <= i < |f| ==> expected[i] == expected[1..][i - 1] && f[i] == t[i - 1];
  }

  /** The loop appends one entry per expected key to whatever it starts
      from, as long as those keys are new to it. */
  lemma {:induction false} FilterLoopAppends(expected: PhpArray, response: PhpArray, acc: PhpArray)
    requires UniqueKeys(expected)
    requires forall i :: 0 <= i < |expected| ==> expected[i].key !in Keys(acc)
    ensures FilterLoop(expected, response, acc) == acc + Filtered(expected, response)
    decreases |expected|
  {
    if |expected| > 0 {
      var k := expected[0].key;
      var e := Entry(k, Pick(expected[0].val, response, k));
      AssignNew(acc, k, e.val);
      var acc' := acc + [e];
      forall i | 0 <= i < |expected[1..]| ensures expected[1..][i].key !in Keys(acc') {
        assert expected[1..][i] == expected[i + 1];
        assert expected[0].key != expected[i + 1].key;
        assert Keys(acc') == Keys(acc) + [k];
      }
      assert UniqueKeys(expected[1..]) by {
        forall i, j | 0 <= i < j < |expected[1..]| ensures expected[1..][i].key != expected[1..][j].key {
          assert expected[1..][i] == expected[i + 1] && expected[1..][j] == expected[j + 1];
        }
      }
      FilterLoopAppends(expected[1..], response, acc');
      FilteredCons(expected, response);
    }
  }

  /** Over an array with distinct keys (every PHP array), the loop builds
      exactly the reference filtered data. */
  lemma FilterLoopIsFiltered(expected: PhpArray, response: PhpArray)
    requires UniqueKeys(expected)
    ensures FilterLoop(expected, response, []) == Filtered(expected, response)
  {
    FilterLoopAppends(expected, response, []);
  }

  /** `assertPartialJsonData($expectedJsonData, $responseJsonData)`. */
  function AssertPartialJsonData(expected: PhpArray, response: PhpArray): (r: Verdict)
    ensures r.Passed? || r.Failed?
    ensures UniqueKeys(expected) ==> (r.Passed? <==> Agrees(expected, response))
  {
    var filtered := FilterLoop(expected, response, []);
    LoopMatchIff(expected, response);
    if Equiv(Arr(expected), Arr(filtered)) then Passed else Failed
  }

  // ---------------------------------------------------------------------
  // What a partial match means

  /** Every entry of `sub` is in `actual` with an equal value; `actual` may
      hold other keys too. */
  predicate Covers(sub: PhpArray, actual: PhpArray) {
    forall j :: 0 <= j < |sub| ==>
      sub[j].key in Keys(actual) && Equiv(sub[j].val, Get(actual, sub[j].key).value)
  }

  /** The match one expected entry asks for. An expected array needs an
      array in the response that has each of its keys with an equal value
      (extra keys are ignored, one level deep); any other expected value
      must equal the response value, null standing for a missing key. */
  predicate EntryAgrees(expected: Value, response: PhpArray, k: Key) {
    match expected
    case Arr(sub) =>
      IsSet(response, k) && Get(response, k).value.Arr? && Covers(sub, Get(response, k).value.entries)
    case _ => expected == Coalesce(response, k)
  }

  predicate Agrees(expected: PhpArray, response: PhpArray) {
    forall i :: 0 <= i < |expected| ==> EntryAgrees(expected[i].val, response, expected[i].key)
  }

  /** The cut-down sub-array equals the expected sub-array exactly when the
      response sub-array covers it. */
  lemma IntersectEquiv(sub: PhpArray, actual: PhpArray)
    ensures Equiv(Arr(sub), Arr(IntersectKey(actual, sub))) <==> Covers(sub, actual)
  {
    var cut := IntersectKey(actual, sub);
    forall j | 0 <= j < |sub|
      ensures sub[j].key in Keys(cut) <==> sub[j].key in Keys(actual)
      ensures sub[j].key in Keys(actual) ==> Get(cut, sub[j].key) == Get(actual, sub[j].key)
    {
      assert Keys(sub)[j] == sub[j].key;
      assert Get(cut, sub[j].key) == Get(actual, sub[j].key);
    }
    forall j | 0 <= j < |cut| ensures cut[j].key in Keys(sub) {
      assert Keys(cut)[j] == cut[j].key;
      assert Get(cut, cut[j].key).Some?;
    }
  }

  /** One expected entry compares equal to its filtered counterpart exactly
      when it agrees with the response. */
  lemma PickEquiv(expected: Value, response: PhpArray, k: Key)
    ensures Equiv(expected, Pick(expected, response, k)) <==> EntryAgrees(expected, response, k)
  {
    if expected.Arr? && IsSet(response, k) && Get(response, k).value.Arr? {
      IntersectEquiv(expected.entries, Get(response, k).value.entries);
    }
  }

  /** The partial-match theorem: the helper's `assertEquals` passes exactly
      when every expected entry agrees with the response. */
  lemma PartialMatchIff(expected: PhpArray, response: PhpArray)
    requires UniqueKeys(expected)
    ensures Equiv(Arr(expected), Arr(Filtered(expected, response))) <==> Agrees(expected, response)
  {
    var f := Filtered(expected, response);
    assert UniqueKeys(f) by {
      forall i, j | 0 <= i < j < |f| ensures f[i].key != f[j].key {
        assert f[i].key == expected[i].key && f[j].key == expected[j].key;
      }
    }
    forall i | 0 <= i < |expected|
      ensures expected[i].key in Keys(f)
      ensures Get(f, expected[i].key) == Some(Pick(expected[i].val, response, expected[i].key))
      ensures Equiv(expected[i].val, Get(f, expected[i].key).value)
          <==> EntryAgrees(expected[i].val, response, expected[i].key)
    {
      assert Keys(f)[i] == expected[i].key;
      GetAt(f, i);
      PickEquiv(expected[i].val, response, expected[i].key);
    }
    forall j | 0 <= j < |f| ensures f[j].key in Keys(expected) {
      assert Keys(expected)[j] == f[j].key;
    }
  }

  lemma LoopMatchIff(expected: PhpArray, response: PhpArray)
    ensures UniqueKeys(expected) ==>
      (Equiv(Arr(expected), Arr(FilterLoop(expected, response, []))) <==> Agrees(expected, response))
  {
    if UniqueKeys(expected) {
      FilterLoopIsFiltered(expected, response);
      PartialMatchIff(expected, response);
    }
  }

  // ---------------------------------------------------------------------
  // Further properties of the filter

  /** An expected array meeting an array in the response keeps exactly the
      response entries, values whole, whose key the expected sub-array has:
      nothing below those values is cut. */
  lemma NestedCut(expected: PhpArray, response: PhpArray, i: int)
    requires 0 <= i < |expected| && expected[i].val.Arr?
    requires Get(response, expected[i].key).Some? && Get(response, expected[i].key).value.Arr?
    ensures var kept := Filtered(expected, response)[i].val;
      && kept.Arr?
      && Subsequence(kept.entries, Get(response, expected[i].key).value.entries)
      && forall e :: e in kept.entries <==>
           e in Get(response, expected[i].key).value.entries && e.key in Keys(expected[i].val.entries)
  {
    RestrictMembers(Get(response, expected[i].key).value.entries, Keys(expected[i].val.entries));
  }

  /** In every other case the response value is kept as it is, or null when
      the key is missing or null. */
  lemma ValueCarried(expected: PhpArray, response: PhpArray, i: int)
    requires 0 <= i < |expected|
    requires !expected[i].val.Arr? || !IsSet(response, expected[i].key) || !Get(response, expected[i].key).value.Arr?
    ensures IsSet(response, expected[i].key) ==>
      Some(Filtered(expected, response)[i].val) == Get(response, expected[i].key)
    ensures !IsSet(response, expected[i].key) ==> Filtered(expected, response)[i].val == Null
  {
  }

  /** An expected null matches a response whose key is missing or null, and
      nothing else. */
  lemma NullExpectation(response: PhpArray, k: Key)
    ensures EntryAgrees(Null, response, k) <==> !IsSet(response, k)
  {
  }

  /** Only the response entries under expected keys matter. */
  lemma OnlyExpectedKeysMatter(expected: PhpArray, r1: PhpArray, r2: PhpArray)
    requires forall i :: 0 <= i < |expected| ==> Get(r1, expected[i].key) == Get(r2, expected[i].key)
    ensures Filtered(expected, r1) == Filtered(expected, r2)
    ensures AssertPartialJsonData(expected, r1) == AssertPartialJsonData(expected, r2)
  {
    FilterLoopSameKeys(expected, r1, r2, []);
  }

  lemma {:induction false} FilterLoopSameKeys(expected: PhpArray, r1: PhpArray, r2: PhpArray, acc: PhpArray)
    requires forall i :: 0 <= i < |expected| ==> Get(r1, expected[i].key) == Get(r2, expected[i].key)
    ensures FilterLoop(expected, r1, acc) == FilterLoop(expected, r2, acc)
    decreases |expected|
  {
    if |expected| > 0 {
      assert forall i :: 0 <= i < |expected[1..]| ==> expected[1..][i] == expected[i + 1];
      var k := expected[0].key;
      assert Pick(expected[0].val, r1, k) == Pick(expected[0].val, r2, k);
      FilterLoopSameKeys(expected[1..], r1, r2, Assign(acc, k, Pick(expected[0].val, r1, k)));
    }
  }

  lemma {:induction false} RestrictTwice(a: PhpArray, ks: seq<Key>)
    ensures Restrict(Restrict(a, ks), ks) == Restrict(a, ks)
    decreases |a|
  {
    if |a| > 0 {
      RestrictTwice(a[1..], ks);
      var rest := Restrict(a[1..], ks);
      if a[0].key in ks {
        assert ([a[0]] + rest)[1..] == rest;
      }
    }
  }

  /** Filtering is a projection: filtering already-filtered data again
      changes nothing. */
  lemma FilterIdempotent(expected: PhpArray, response: PhpArray)
    requires UniqueKeys(expected)
    ensures Filtered(expected, Filtered(expected, response)) == Filtered(expected, response)
  {
    var f := Filtered(expected, response);
    assert UniqueKeys(f) by {
      forall i, j | 0 <= i < j < |f| ensures f[i].key != f[j].key {
        assert f[i].key == expected[i].key && f[j].key == expected[j].key;
      }
    }
    forall i | 0 <= i < |expected|
      ensures Pick(expected[i].val, f, expected[i].key) == f[i].val
    {
      var k := expected[i].key;
      GetAt(f, i);
      var v := expected[i].val;
      if v.Arr? && IsSet(response, k) && Get(response, k).value.Arr? {
        RestrictTwice(Get(response, k).value.entries, Keys(v.entries));
      }
    }
  }

  /** A response that IS the expected data passes. */
  lemma ExpectedMatchesItself(expected: PhpArray)
    requires WellFormed(Arr(expected))
    ensures AssertPartialJsonData(expected, expected) == Passed
  {
    forall i | 0 <= i < |expected|
      ensures EntryAgrees(expected[i].val, expected, expected[i].key)
    {
      var k := expected[i].key;
      GetAt(expected, i);
      var v := expected[i].val;
      if v.Arr? {
        assert WellFormed(v);
        EquivRefl(v);
        assert Covers(v.entries, v.entries) by {
          forall j | 0 <= j < |v.entries|
            ensures v.entries[j].key in Keys(v.entries)
                 && Equiv(v.entries[j].val, Get(v.entries, v.entries[j].key).value)
          {
            assert Keys(v.entries)[j] == v.entries[j].key;
            GetAt(v.entries, j);
            EquivRefl(v.entries[j].val);
          }
        }
      }
    }
  }

  /** Extra keys are ignored one level down: `['a' => ['c' => 1]]` matches a
      response whose `a` also holds `d`. */
  lemma ExtraKeyOneLevelDown()
    ensures AssertPartialJsonData(
              [Entry(StrKey("a"), Arr([Entry(StrKey("c"), Int(1))]))],
              [Entry(StrKey("a"), Arr([Entry(StrKey("c"), Int(1)), Entry(StrKey("d"), Int(2))]))])
         == Passed
  {
    var c1 := Entry(StrKey("c"), Int(1));
    var inner := [c1, Entry(StrKey("d"), Int(2))];
    var response := [Entry(StrKey("a"), Arr(inner))];
    var expected := [Entry(StrKey("a"), Arr([c1]))];
    assert Get(response, StrKey("a")) == Some(Arr(inner));
    assert Covers([c1], inner) by {
      assert Keys(inner)[0] == StrKey("c");
      assert Get(inner, StrKey("c")) == Some(Int(1));
    }
    assert EntryAgrees(expected[0].val, response, expected[0].key);
    assert Agrees(expected, response);
  }

  /** ... but not two levels down: `['a' => ['b' => ['c' => 1]]]` does not
      match a response whose `a.b` also holds `d`, because the sub-arrays
      under `b` are compared whole. */
  lemma ExtraKeyTwoLevelsDown()
    ensures AssertPartialJsonData(
              [Entry(StrKey("a"), Arr([Entry(StrKey("b"), Arr([Entry(StrKey("c"), Int(1))]))]))],
              [Entry(StrKey("a"), Arr([Entry(StrKey("b"), Arr([Entry(StrKey("c"), Int(1)), Entry(StrKey("d"), Int(2))]))]))])
         == Failed
  {
    var c1 := Entry(StrKey("c"), Int(1));
    var inner := [c1, Entry(StrKey("d"), Int(2))];
    var deep := [Entry(StrKey("b"), Arr(inner))];
    var response := [Entry(StrKey("a"), Arr(deep))];
    assert Get(response, StrKey("a")) == Some(Arr(deep));
    assert Get(deep, StrKey("b")) == Some(Arr(inner));
    assert !Equiv(Arr([c1]), Arr(inner)) by {
      assert inner[1].key !in Keys([c1]);
    }
    var sub := [Entry(StrKey("b"), Arr([c1]))];
    var expected := [Entry(StrKey("a"), Arr(sub))];
    assert sub[0].val == Arr([c1]) && Get(deep, sub[0].key) == Some(Arr(inner));
    assert !Covers(sub, deep);
    assert !EntryAgrees(expected[0].val, response, expected[0].key);
    assert UniqueKeys(expected);
  }
}
