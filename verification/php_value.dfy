/**
 * PHP values and PHP arrays. A PHP array is an ORDERED map: a sequence of
 * key/value entries whose keys are distinct, iterated in insertion order.
 * The operations here are the array primitives the helpers use: `$a[$k]`,
 * `isset`, `??`, `$a[$k] = $v`, `unset`, the union operator `+`,
 * `array_keys`, `array_intersect_key`, `(bool)`, `(int)`, and PHPUnit's
 * equality of arrays.
 */
module Php {
  import opened Wrappers
  import opened PhpText

  datatype Key = IntKey(i: int) | StrKey(s: string)

  datatype Value =
    | Null
    | Bool(b: bool)
    | Int(i: int)
    | Str(s: string)
    | Arr(entries: seq<Entry>)

  datatype Entry = Entry(key: Key, val: Value)

  type PhpArray = seq<Entry>

  /** The exceptions and engine errors the helpers can raise. */
  datatype PhpError =
    | InvalidArgumentException(message: string)
    | DomainException(message: string)
    | PdoException(message: string)
    | TypeError

  /** What a PHPUnit assertion helper does: return normally, fail the test,
      or let an exception out. */
  datatype Verdict = Passed | Failed | Raised(error: PhpError)

  // ---------------------------------------------------------------------
  // Keys

  /** `array_keys($a)`. */
  function Keys(a: PhpArray): (ks: seq<Key>)
    ensures |ks| == |a|
    ensures forall i {:trigger ks[i]} :: 0 <= i < |a| ==> ks[i] == a[i].key
  {
    seq(|a|, i requires 0 <= i < |a| => a[i].key)
  }

  predicate UniqueKeys(a: PhpArray) {
    forall i, j :: 0 <= i < j < |a| ==> a[i].key != a[j].key
  }

  /** A key PHP can actually store: a string key never holds the canonical
      decimal text of an integer (PHP turns "5" into the integer key 5). */
  predicate NormalKey(k: Key) {
    k.StrKey? ==> !IsCanonicalInt(k.s)
  }

  /** The invariant every PHP array keeps, at every nesting level. */
  predicate WellFormed(v: Value) {
    match v
    case Arr(a) =>
      && UniqueKeys(a)
      && (forall i :: 0 <= i < |a| ==> NormalKey(a[i].key))
      && (forall i :: 0 <= i < |a| ==> WellFormed(a[i].val))
    case _ => true
  }

  /** The text of a key where PHP converts it to a string (`implode`,
      interpolation). */
  function KeyText(k: Key): string {
    match k
    case IntKey(i) => IntToString(i)
    case StrKey(s) => s
  }

  /** The key PHP uses for a string subscript `$a["..."]`. */
  function KeyOf(s: string): (k: Key)
    ensures NormalKey(k)
  {
    if IsCanonicalInt(s) then IntKey(ParseInt(s).value) else StrKey(s)
  }

  /** Writing a stored key out as text and using that text as a subscript
      reaches the same key again. */
  lemma KeyTextRoundTrip(k: Key)
    requires NormalKey(k)
    ensures KeyOf(KeyText(k)) == k
  {
    if k.IntKey? {
      IntRoundTrip(k.i);
    }
  }

  // ---------------------------------------------------------------------
  // Reading

  /** `$a[$k]` when the key exists. */
  function Get(a: PhpArray, k: Key): (r: Option<Value>)
    ensures r.Some? <==> k in Keys(a)
    decreases |a|
  {
    if |a| == 0 then None
    else if a[0].key == k then
      assert Keys(a)[0] == k;
      Some(a[0].val)
    else
      assert Keys(a) == [a[0].key] + Keys(a[1..]);
      Get(a[1..], k)
  }

  /** With distinct keys, looking up an entry's key yields that entry's value. */
  lemma {:induction false} GetAt(a: PhpArray, i: int)
    requires UniqueKeys(a)
    requires 0 <= i < |a|
    ensures Get(a, a[i].key) == Some(a[i].val)
    decreases |a|
  {
    if i > 0 {
      assert a[0].key != a[i].key;
      assert a[1..][i - 1] == a[i];
      GetAt(a[1..], i - 1);
    }
  }

  lemma {:induction false} GetAppend(a: PhpArray, b: PhpArray, k: Key)
    ensures Get(a + b, k) == if k in Keys(a) then Get(a, k) else Get(b, k)
    decreases |a|
  {
    if |a| > 0 {
      assert (a + b)[1..] == a[1..] + b;
      assert Keys(a) == [a[0].key] + Keys(a[1..]);
      GetAppend(a[1..], b, k);
    } else {
      assert a + b == b;
    }
  }

  /** `isset($a[$k])`: the key exists and its value is not null. */
  predicate IsSet(a: PhpArray, k: Key) {
    Get(a, k).Some? && Get(a, k).value != Null
  }

  /** `$a[$k] ?? null`. */
  function Coalesce(a: PhpArray, k: Key): (v: Value)
    ensures IsSet(a, k) ==> Some(v) == Get(a, k)
    ensures !IsSet(a, k) ==> v == Null
  {
    Get(a, k).GetOr(Null)
  }

  /** The values of an array in iteration order (what `foreach` visits). */
  function Values(a: PhpArray): (vs: seq<Value>)
    ensures |vs| == |a|
    ensures forall i :: 0 <= i < |a| ==> vs[i] == a[i].val
  {
    seq(|a|, i requires 0 <= i < |a| => a[i].val)
  }

  /** `(bool)$a` for an array: true exactly when it has an entry. */
  predicate Truthy(a: PhpArray) {
    |a| > 0
  }

  // ---------------------------------------------------------------------
  // Writing

  lemma KeysCons(e: Entry, rest: PhpArray)
    ensures Keys([e] + rest) == [e.key] + Keys(rest)
  {
  }

  /** Distinct keys split into a first key absent from the rest, and a rest
      with distinct keys; and back. */
  lemma UniqueCons(e: Entry, rest: PhpArray)
    ensures UniqueKeys([e] + rest) <==> e.key !in Keys(rest) && UniqueKeys(rest)
  {
    var a := [e] + rest;
    assert a[1..] == rest;
    if UniqueKeys(a) {
      forall i | 0 <= i < |rest| ensures Keys(rest)[i] != e.key {
        assert a[i + 1] == rest[i];
        assert a[0].key != a[i + 1].key;
      }
      assert e.key !in Keys(rest);
      forall i, j | 0 <= i < j < |rest| ensures rest[i].key != rest[j].key {
        assert a[i + 1] == rest[i] && a[j + 1] == rest[j];
      }
    }
    if e.key !in Keys(rest) && UniqueKeys(rest) {
      forall i, j | 0 <= i < j < |a| ensures a[i].key != a[j].key {
        assert a[j] == rest[j - 1];
        if i == 0 {
          assert Keys(rest)[j - 1] == a[j].key;
        } else {
          assert a[i] == rest[i - 1];
        }
      }
    }
  }

  /** `$a[$k] = $v`: an existing key keeps its position and takes the new
      value; a new key is appended at the end. */
  function Assign(a: PhpArray, k: Key, v: Value): PhpArray
    decreases |a|
  {
    if |a| == 0 then [Entry(k, v)]
    else if a[0].key == k then [Entry(k, v)] + a[1..]
    else [a[0]] + Assign(a[1..], k, v)
  }

  /** The assignment adds `k` at the end when `k` is new and otherwise keeps
      the key sequence; distinct keys stay distinct. */
  lemma {:induction false} AssignKeys(a: PhpArray, k: Key, v: Value)
    ensures Keys(Assign(a, k, v)) == if k in Keys(a) then Keys(a) else Keys(a) + [k]
    ensures UniqueKeys(a) ==> UniqueKeys(Assign(a, k, v))
    decreases |a|
  {
    var r := Assign(a, k, v);
    if |a| > 0 {
      assert a == [a[0]] + a[1..];
      KeysCons(a[0], a[1..]);
      UniqueCons(a[0], a[1..]);
      if a[0].key == k {
        KeysCons(Entry(k, v), a[1..]);
        UniqueCons(Entry(k, v), a[1..]);
      } else {
        var rest := Assign(a[1..], k, v);
        AssignKeys(a[1..], k, v);
        assert r == [a[0]] + rest;
        KeysCons(a[0], rest);
        assert Keys(r) == [a[0].key] + Keys(rest);
        assert k in Keys(a) <==> k in Keys(a[1..]);
        UniqueCons(a[0], rest);
        assert a[0].key in Keys(rest) <==> a[0].key in Keys(a[1..]);
      }
    }
  }

  /** Seen as a map, the assignment changes the value at `k` only. */
  lemma {:induction false} AssignGet(a: PhpArray, k: Key, v: Value, k': Key)
    ensures Get(Assign(a, k, v), k') == if k' == k then Some(v) else Get(a, k')
    decreases |a|
  {
    if |a| > 0 && a[0].key != k {
      var rest := Assign(a[1..], k, v);
      AssignGet(a[1..], k, v, k');
      assert ([a[0]] + rest)[1..] == rest;
    } else if |a| > 0 {
      assert ([Entry(k, v)] + a[1..])[1..] == a[1..];
    }
  }

  /** Assigning to a new key appends exactly one entry. */
  lemma {:induction false} AssignNew(a: PhpArray, k: Key, v: Value)
    requires k !in Keys(a)
    ensures Assign(a, k, v) == a + [Entry(k, v)]
    decreases |a|
  {
    if |a| > 0 {
      KeysCons(a[0], a[1..]);
      assert a == [a[0]] + a[1..];
      AssignNew(a[1..], k, v);
    }
  }

  /** Assigning to an existing key replaces that entry in place and touches
      no other entry. */
  lemma {:induction false} AssignExisting(a: PhpArray, k: Key, v: Value)
    requires k in Keys(a) && UniqueKeys(a)
    ensures |Assign(a, k, v)| == |a|
    ensures forall i :: 0 <= i < |a| ==>
      Assign(a, k, v)[i] == if a[i].key == k then Entry(k, v) else a[i]
    decreases |a|
  {
    assert a == [a[0]] + a[1..];
    KeysCons(a[0], a[1..]);
    UniqueCons(a[0], a[1..]);
    var r := Assign(a, k, v);
    if a[0].key == k {
      forall i | 0 < i < |a| ensures a[i].key != k {
        assert a[0].key != a[i].key;
      }
    } else {
      AssignExisting(a[1..], k, v);
      forall i | 0 <= i < |a|
        ensures r[i] == if a[i].key == k then Entry(k, v) else a[i]
      {
        if i > 0 {
          assert r[i] == Assign(a[1..], k, v)[i - 1];
          assert a[i] == a[1..][i - 1];
        }
      }
    }
  }

  /** `r` is `a` with some entries left out: the entries it keeps stay in
      `a`'s order. */
  predicate Subsequence(r: PhpArray, a: PhpArray)
    decreases |a|
  {
    && |r| <= |a|
    && (|r| == 0
        || (r[0] == a[0] && Subsequence(r[1..], a[1..]))
        || Subsequence(r, a[1..]))
  }

  /** The entries of `a` whose key is in `ks`, in `a`'s order. */
  function Restrict(a: PhpArray, ks: seq<Key>): (r: PhpArray)
    ensures forall k :: Get(r, k) == if k in ks then Get(a, k) else None
    ensures Subsequence(r, a)
    ensures |r| <= |a|
    decreases |a|
  {
    if |a| == 0 then []
    else
      var rest := Restrict(a[1..], ks);
      if a[0].key in ks then
        assert ([a[0]] + rest)[1..] == rest;
        [a[0]] + rest
      else rest
  }

  /** Restrict keeps whole entries: exactly those of `a` with a key in `ks`. */
  lemma {:induction false} RestrictMembers(a: PhpArray, ks: seq<Key>)
    ensures forall e :: e in Restrict(a, ks) <==> e in a && e.key in ks
    decreases |a|
  {
    if |a| > 0 {
      RestrictMembers(a[1..], ks);
      assert a == [a[0]] + a[1..];
    }
  }

  /** The entries of `a` whose key is NOT in `ks`, in `a`'s order. */
  function Exclude(a: PhpArray, ks: seq<Key>): (r: PhpArray)
    ensures forall k :: Get(r, k) == if k in ks then None else Get(a, k)
    ensures UniqueKeys(a) ==> UniqueKeys(r)
    ensures |r| <= |a|
    decreases |a|
  {
    if |a| == 0 then []
    else
      var rest := Exclude(a[1..], ks);
      assert a == [a[0]] + a[1..];
      UniqueCons(a[0], a[1..]);
      if a[0].key !in ks then
        var r := [a[0]] + rest;
        UniqueCons(a[0], rest);
        assert UniqueKeys(a) ==> a[0].key !in Keys(rest) by {
          assert Get(rest, a[0].key) == Get(a[1..], a[0].key);
        }
        r
      else
        rest
  }

  /** Exclude keeps exactly the entries whose key is not excluded, in `a`'s
      order. */
  lemma {:induction false} ExcludeKeeps(a: PhpArray, ks: seq<Key>)
    ensures forall e :: e in Exclude(a, ks) <==> e in a && e.key !in ks
    ensures Subsequence(Exclude(a, ks), a)
    decreases |a|
  {
    if |a| > 0 {
      ExcludeKeeps(a[1..], ks);
      assert a == [a[0]] + a[1..];
      var r := Exclude(a, ks);
      if a[0].key !in ks {
        assert r[1..] == Exclude(a[1..], ks);
      }
    }
  }

  lemma ExcludeCons(e: Entry, rest: PhpArray, ks: seq<Key>)
    ensures Exclude([e] + rest, ks) == (if e.key in ks then [] else [e]) + Exclude(rest, ks)
  {
    assert ([e] + rest)[0] == e;
    assert ([e] + rest)[1..] == rest;
  }

  /** Exclude only looks at which of the array's own keys are excluded. */
  lemma {:induction false} ExcludeSameKeys(a: PhpArray, ks: seq<Key>, ks': seq<Key>)
    requires forall i :: 0 <= i < |a| ==> (a[i].key in ks <==> a[i].key in ks')
    ensures Exclude(a, ks) == Exclude(a, ks')
    decreases |a|
  {
    if |a| > 0 {
      assert a == [a[0]] + a[1..];
      ExcludeSameKeys(a[1..], ks, ks');
      ExcludeCons(a[0], a[1..], ks);
      ExcludeCons(a[0], a[1..], ks');
    }
  }

  /** Excluding keys the array does not have leaves it as it is. */
  lemma {:induction false} ExcludeAbsent(a: PhpArray, ks: seq<Key>)
    requires forall i :: 0 <= i < |a| ==> a[i].key !in ks
    ensures Exclude(a, ks) == a
    decreases |a|
  {
    if |a| > 0 {
      ExcludeAbsent(a[1..], ks);
      assert [a[0]] + a[1..] == a;
    }
  }

  /** Dropping entry `i > 0` commutes with taking off the first entry. */
  lemma DropAtCons(a: PhpArray, i: int)
    requires 0 < i < |a|
    ensures [a[0]] + (a[1..][..i - 1] + a[1..][i..]) == a[..i] + a[i + 1..]
  {
    assert a[1..][..i - 1] == a[1..i];
    assert a[1..][i..] == a[i + 1..];
    assert [a[0]] + a[1..i] == a[..i];
  }

  /** Unsetting the key of entry `i`, which no other entry has, removes
      exactly that entry. */
  lemma {:induction false} UnsetAt(a: PhpArray, k: Key, i: int)
    requires 0 <= i < |a| && a[i].key == k
    requires forall j :: 0 <= j < |a| && j != i ==> a[j].key != k
    ensures Exclude(a, [k]) == a[..i] + a[i + 1..]
    decreases i
  {
    var rest := a[1..];
    if i == 0 {
      assert forall j :: 0 <= j < |rest| ==> rest[j].key !in [k] by {
        assert forall j :: 0 <= j < |rest| ==> rest[j] == a[j + 1];
      }
      ExcludeAbsent(rest, [k]);
      assert Exclude(a, [k]) == Exclude(rest, [k]);
    } else {
      assert forall j :: 0 <= j < |rest| && j != i - 1 ==> rest[j].key != k by {
        assert forall j :: 0 <= j < |rest| ==> rest[j] == a[j + 1];
      }
      UnsetAt(rest, k, i - 1);
      assert a[0].key != k;
      assert Exclude(a, [k]) == [a[0]] + Exclude(rest, [k]);
      DropAtCons(a, i);
    }
  }

  /** Unsetting a key removes its one entry in place, or nothing. */
  lemma UnsetExact(a: PhpArray, k: Key)
    ensures k !in Keys(a) ==> Exclude(a, [k]) == a
    ensures UniqueKeys(a) ==>
      forall i :: 0 <= i < |a| && a[i].key == k ==> Exclude(a, [k]) == a[..i] + a[i + 1..]
  {
    if k !in Keys(a) {
      assert forall i :: 0 <= i < |a| ==> a[i].key == Keys(a)[i];
      ExcludeAbsent(a, [k]);
    }
    if UniqueKeys(a) {
      forall i | 0 <= i < |a| && a[i].key == k
        ensures Exclude(a, [k]) == a[..i] + a[i + 1..]
      {
        assert forall j :: 0 <= j < |a| && j != i ==> a[j].key != k;
        UnsetAt(a, k, i);
      }
    }
  }

  /** `unset($a[$k])`: the entry under `k` is taken out and the others stay
      where they were. */
  function Unset(a: PhpArray, k: Key): (r: PhpArray)
    ensures k !in Keys(r)
    ensures forall k' :: k' != k ==> Get(r, k') == Get(a, k')
    ensures UniqueKeys(a) ==> UniqueKeys(r)
    ensures k !in Keys(a) ==> r == a
    ensures UniqueKeys(a) ==> forall i :: 0 <= i < |a| && a[i].key == k ==> r == a[..i] + a[i + 1..]
  {
    var r := Exclude(a, [k]);
    assert Get(r, k) == None;
    UnsetExact(a, k);
    r
  }

  /** The array union `$l + $r`: all of `$l`, then the entries of `$r` whose
      key `$l` does not have. On a shared key the LEFT value wins. */
  function Union(l: PhpArray, r: PhpArray): (u: PhpArray)
    ensures l <= u
    ensures Subsequence(u[|l|..], r)
    ensures forall e :: e in u[|l|..] <==> e in r && e.key !in Keys(l)
    ensures forall k :: Get(u, k) == if k in Keys(l) then Get(l, k) else Get(r, k)
    ensures UniqueKeys(l) && UniqueKeys(r) ==> UniqueKeys(u)
  {
    var tail := Exclude(r, Keys(l));
    ExcludeKeeps(r, Keys(l));
    var u := l + tail;
    assert u[|l|..] == tail;
    assert forall k :: Get(u, k) == if k in Keys(l) then Get(l, k) else Get(tail, k) by {
      forall k ensures Get(u, k) == if k in Keys(l) then Get(l, k) else Get(tail, k) {
        GetAppend(l, tail, k);
      }
    }
    assert UniqueKeys(l) && UniqueKeys(r) ==> UniqueKeys(u) by {
      if UniqueKeys(l) && UniqueKeys(r) {
        forall i, j | 0 <= i < j < |u| ensures u[i].key != u[j].key {
          if j >= |l| {
            assert u[j] == tail[j - |l|];
            assert Keys(tail)[j - |l|] == u[j].key;
            assert Get(tail, u[j].key).Some?;
            if i < |l| {
              assert u[i].key == Keys(l)[i];
            } else {
              assert u[i] == tail[i - |l|];
            }
          }
        }
      }
    }
    u
  }

  /** `array_intersect_key($a, $b)`: the entries of `$a` whose key `$b` has,
      in `$a`'s order and with `$a`'s values. */
  function IntersectKey(a: PhpArray, b: PhpArray): (r: PhpArray)
    ensures forall k :: Get(r, k) == if k in Keys(b) then Get(a, k) else None
    ensures forall e :: e in r <==> e in a && e.key in Keys(b)
    ensures Subsequence(r, a)
  {
    RestrictMembers(a, Keys(b));
    Restrict(a, Keys(b))
  }

  // ---------------------------------------------------------------------
  // Casts and comparison

  /** PHP's `(int)` cast (strings written as sign and digits; no floats). */
  function IntCast(v: Value): (n: int)
    ensures v.Null? || v == Bool(false) || v == Arr([]) ==> n == 0
    ensures v.Int? ==> n == v.i
    ensures forall i :: v == Str(IntToString(i)) ==> n == i
  {
    assert forall i :: v == Str(IntToString(i)) ==> StringToInt(v.s) == i by {
      forall i | v == Str(IntToString(i)) ensures StringToInt(v.s) == i {
        CastRoundTrip(i);
      }
    }
    match v
    case Null => 0
    case Bool(b) => if b then 1 else 0
    case Int(i) => i
    case Str(s) => StringToInt(s)
    case Arr(a) => if Truthy(a) then 1 else 0
  }

  /** PHPUnit's `assertEquals` as it treats arrays: every expected key is
      present in the actual array with an equal value, and the actual array
      has no other key; key ORDER does not matter, at any depth. Scalars are
      compared exactly. */
  predicate Equiv(x: Value, y: Value)
    decreases x
  {
    match x
    case Arr(a) =>
      && y.Arr?
      && (forall i :: 0 <= i < |a| ==>
            a[i].key in Keys(y.entries) && Equiv(a[i].val, Get(y.entries, a[i].key).value))
      && (forall j :: 0 <= j < |y.entries| ==> y.entries[j].key in Keys(a))
    case _ => x == y
  }

  /** Every well-formed value equals itself under `assertEquals`. */
  lemma {:induction false} EquivRefl(v: Value)
    requires WellFormed(v)
    ensures Equiv(v, v)
    decreases v
  {
    if v.Arr? {
      var a := v.entries;
      forall i | 0 <= i < |a|
        ensures a[i].key in Keys(a) && Equiv(a[i].val, Get(a, a[i].key).value)
      {
        GetAt(a, i);
        EquivRefl(a[i].val);
      }
      assert forall j :: 0 <= j < |a| ==> a[j].key == Keys(a)[j];
    }
  }

  /** Reordering the entries of a well-formed array does not change it for
      `assertEquals`: the same entries in any order compare equal. */
  lemma EquivPermutation(a: PhpArray, b: PhpArray)
    requires WellFormed(Arr(a)) && WellFormed(Arr(b))
    requires forall e :: e in a <==> e in b
    ensures Equiv(Arr(a), Arr(b))
  {
    forall i | 0 <= i < |a|
      ensures a[i].key in Keys(b) && Equiv(a[i].val, Get(b, a[i].key).value)
    {
      assert a[i] in b;
      var j :| 0 <= j < |b| && b[j] == a[i];
      GetAt(b, j);
      assert Keys(b)[j] == a[i].key;
      EquivRefl(a[i].val);
    }
    forall j | 0 <= j < |b| ensures b[j].key in Keys(a) {
      assert b[j] in a;
      var i :| 0 <= i < |a| && a[i] == b[j];
      assert Keys(a)[i] == b[j].key;
    }
  }
}
