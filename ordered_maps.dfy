/**
 * PHP arrays with string keys, as the pagination code uses them: an
 * insertion-ordered map from key to value. An array is its list of entries;
 * keys are unique in every array the code builds.
 */
module OrderedMaps {
  import opened PhpStrings

  type OMap<V> = seq<(string, V)>

  /** array_keys */
  function Keys<V>(m: OMap<V>): (r: seq<string>)
    ensures |r| == |m|
    ensures forall i :: 0 <= i < |m| ==> r[i] == m[i].0
  {
    seq(|m|, i requires 0 <= i < |m| => m[i].0)
  }

  lemma KeysAppend<V>(a: OMap<V>, b: OMap<V>)
    ensures Keys(a + b) == Keys(a) + Keys(b)
  {
  }

  lemma NoDupsAppend(a: seq<string>, b: seq<string>)
    ensures NoDups(a) && NoDups(b) && (forall j :: 0 <= j < |b| ==> b[j] !in a) ==> NoDups(a + b)
  {
  }

  predicate WellFormed<V>(m: OMap<V>) {
    NoDups(Keys(m))
  }

  /** The position of the first occurrence of `k` in `keys`. */
  function IndexOf(keys: seq<string>, k: string): (r: Option<nat>)
    ensures r.Some? ==> r.value < |keys| && keys[r.value] == k
    ensures r.Some? ==> forall j :: 0 <= j < r.value ==> keys[j] != k
    ensures r.None? <==> k !in keys
    decreases |keys|
  {
    if keys == [] then None
    else if keys[0] == k then Some(0)
    else match IndexOf(keys[1..], k)
      case Some(j) => Some(j + 1)
      case None => None
  }

  /** $m[$k], for a key that is present. */
  function Get<V>(m: OMap<V>, k: string): V
    requires k in Keys(m)
  {
    m[IndexOf(Keys(m), k).value].1
  }

  /** $m[$k] = $v: overwrites the entry in place, or appends a new one. */
  function Put<V>(m: OMap<V>, k: string, v: V): (r: OMap<V>)
    ensures Keys(r) == if k in Keys(m) then Keys(m) else Keys(m) + [k]
    ensures k in Keys(r) && Get(r, k) == v
    ensures forall j :: 0 <= j < |m| && m[j].0 != k ==> r[j] == m[j]
    ensures k !in Keys(m) ==> r == m + [(k, v)]
    ensures WellFormed(m) ==> WellFormed(r)
  {
    match IndexOf(Keys(m), k)
    case Some(i) =>
      var r := m[i := (k, v)];
      assert Keys(r) == Keys(m);
      r
    case None =>
      var r := m + [(k, v)];
      assert Keys(r) == Keys(m) + [k];
      r
  }

  /** The keys of an update are those of deduplicating the old keys followed by the new one. */
  lemma PutKeys<V>(m: OMap<V>, k: string, v: V)
    requires WellFormed(m)
    ensures Keys(Put(m, k, v)) == Dedup(Keys(m) + [k])
  {
    var s := Keys(m) + [k];
    assert s[..|s| - 1] == Keys(m);
    DedupOfNoDups(Keys(m));
  }

  lemma DedupSnoc(s: seq<string>, x: string)
    ensures Dedup(s + [x]) == if x in Dedup(s) then Dedup(s) else Dedup(s) + [x]
  {
    assert (s + [x])[..|s|] == s;
  }

  /** The array that `foreach ($values as $v) { $m[$v] = $v; }` builds from an empty one. */
  function SelfMap(values: seq<string>): (r: OMap<string>)
    ensures Keys(r) == Dedup(values)
    ensures forall j :: 0 <= j < |r| ==> r[j].1 == r[j].0
    decreases |values|
  {
    if values == [] then []
    else
      var prev := SelfMap(values[..|values| - 1]);
      PutKeys(prev, values[|values| - 1], values[|values| - 1]);
      Put(prev, values[|values| - 1], values[|values| - 1])
  }

  /** Each value paired with itself. */
  function Identity(values: seq<string>): (r: OMap<string>)
    ensures Keys(r) == values
  {
    seq(|values|, i requires 0 <= i < |values| => (values[i], values[i]))
  }

  lemma {:induction false} SelfMapDistinct(values: seq<string>)
    requires NoDups(values)
    ensures SelfMap(values) == Identity(values)
    decreases |values|
  {
    if values != [] {
      var init := values[..|values| - 1];
      var x := values[|values| - 1];
      var prev := SelfMap(init);
      assert SelfMap(values) == Put(prev, x, x);
      SelfMapDistinct(init);
      assert x !in Keys(prev) by {
        assert values == init + [x];
        assert Keys(prev) == init;
      }
      assert Put(prev, x, x) == Identity(init) + [(x, x)];
      IdentitySnoc(values);
    }
  }

  lemma IdentitySnoc(values: seq<string>)
    requires values != []
    ensures Identity(values) == Identity(values[..|values| - 1]) + [(values[|values| - 1], values[|values| - 1])]
  {
  }

  /** array_merge($a, $b) for string keys: every entry of $b put into $a in turn. */
  function Merge<V>(a: OMap<V>, b: OMap<V>): (r: OMap<V>)
    decreases |b|
  {
    if b == [] then a
    else Put(Merge(a, b[..|b| - 1]), b[|b| - 1].0, b[|b| - 1].1)
  }

  lemma KeysSnoc<V>(a: OMap<V>, b: OMap<V>)
    requires b != []
    ensures Keys(a) + Keys(b) == (Keys(a) + Keys(b[..|b| - 1])) + [b[|b| - 1].0]
  {
    assert b == b[..|b| - 1] + [b[|b| - 1]];
    KeysAppend(b[..|b| - 1], [b[|b| - 1]]);
  }

  /** array_merge keeps the first position of every key: its keys are the deduplicated concatenation. */
  lemma {:induction false} MergeKeys<V>(a: OMap<V>, b: OMap<V>)
    requires WellFormed(a)
    ensures Keys(Merge(a, b)) == Dedup(Keys(a) + Keys(b))
    ensures WellFormed(Merge(a, b))
    decreases |b|
  {
    if b == [] {
      assert Keys(a) + Keys(b) == Keys(a);
      DedupOfNoDups(Keys(a));
    } else {
      var b' := b[..|b| - 1];
      var k := b[|b| - 1].0;
      MergeKeys(a, b');
      KeysSnoc(a, b);
      DedupSnoc(Keys(a) + Keys(b'), k);
      assert Merge(a, b) == Put(Merge(a, b'), k, b[|b| - 1].1);
    }
  }

  /** The keys of array_merge are those of either side. */
  lemma MergeMembers<V>(a: OMap<V>, b: OMap<V>)
    requires WellFormed(a)
    ensures WellFormed(Merge(a, b))
    ensures forall k :: k in Keys(Merge(a, b)) <==> k in Keys(a) || k in Keys(b)
  {
    MergeKeys(a, b);
    forall k ensures k in Keys(Merge(a, b)) <==> k in Keys(a) || k in Keys(b) {
      DedupMembers(Keys(a) + Keys(b), k);
    }
  }

  /** When `a` and `b` together have distinct keys, so do `a` and `b` without its last entry, and that entry's key is new to both. */
  lemma LastKeyFresh<V>(a: OMap<V>, b: OMap<V>)
    requires b != [] && NoDups(Keys(a) + Keys(b))
    ensures NoDups(Keys(a) + Keys(b[..|b| - 1]))
    ensures b[|b| - 1].0 !in Keys(a + b[..|b| - 1])
  {
    var b' := b[..|b| - 1];
    var all := Keys(a) + Keys(b);
    assert Keys(a) + Keys(b') == all[..|a| + |b'|];
    KeysAppend(a, b');
    assert b[|b| - 1].0 == all[|a| + |b'|];
  }

  /** Putting the last entry of `b`, under a new key, after `a` and the rest of `b` gives `a + b`. */
  lemma PutFreshLast<V>(a: OMap<V>, b: OMap<V>)
    requires b != [] && b[|b| - 1].0 !in Keys(a + b[..|b| - 1])
    ensures Put(a + b[..|b| - 1], b[|b| - 1].0, b[|b| - 1].1) == a + b
  {
    assert b == b[..|b| - 1] + [b[|b| - 1]];
  }

  /** With no key in common and none repeated, array_merge is concatenation. */
  lemma {:induction false} MergeDisjoint<V>(a: OMap<V>, b: OMap<V>)
    requires NoDups(Keys(a) + Keys(b))
    ensures Merge(a, b) == a + b
    decreases |b|
  {
    if b != [] {
      LastKeyFresh(a, b);
      MergeDisjoint(a, b[..|b| - 1]);
      PutFreshLast(a, b);
    }
  }

  /** The entries of `b` whose key is not among `keys`, in order. */
  function Missing<V>(keys: seq<string>, b: OMap<V>): (r: OMap<V>)
    ensures forall k :: k in Keys(r) <==> k in Keys(b) && k !in keys
    ensures (forall j :: 0 <= j < |b| ==> b[j].0 !in keys) ==> r == b
    ensures IsSubsequence(r, b)
    decreases |b|
  {
    if b == [] then []
    else
      var rest := Missing(keys, b[1..]);
      MissingStepKeys(b, rest);
      if b[0].0 in keys then
        assert IsSubsequence(rest, b) by {
          assert rest == [] || IsSubsequence(rest, b[1..]);
        }
        rest
      else
        assert ([b[0]] + rest)[0] == b[0] && ([b[0]] + rest)[1..] == rest;
        [b[0]] + rest
  }

  /** The keys of `b` and of `rest` with `b`'s first entry put back in front. */
  lemma MissingStepKeys<V>(b: OMap<V>, rest: OMap<V>)
    requires b != []
    ensures forall k :: k in Keys(b) <==> k == b[0].0 || k in Keys(b[1..])
    ensures forall k :: k in Keys([b[0]] + rest) <==> k == b[0].0 || k in Keys(rest)
  {
    assert b == [b[0]] + b[1..];
    KeysAppend([b[0]], b[1..]);
    KeysAppend([b[0]], rest);
  }

  /** Dropping entries keeps the keys distinct. */
  lemma {:induction false} MissingWellFormed<V>(keys: seq<string>, b: OMap<V>)
    ensures WellFormed(b) ==> WellFormed(Missing(keys, b))
    decreases |b|
  {
    if b != [] && WellFormed(b) {
      assert Keys(b[1..]) == Keys(b)[1..];
      MissingWellFormed(keys, b[1..]);
      if b[0].0 !in keys {
        var rest := Missing(keys, b[1..]);
        KeysAppend([b[0]], rest);
        forall j | 0 <= j < |rest| ensures Keys(rest)[j] !in Keys([b[0]]) {
          assert Keys(rest)[j] in Keys(rest);
          var i :| 0 <= i < |Keys(b[1..])| && Keys(b[1..])[i] == Keys(rest)[j];
          assert Keys(b)[i + 1] == Keys(rest)[j];
        }
        NoDupsAppend(Keys([b[0]]), Keys(rest));
      }
    }
  }

  /** $a + $b: the entries of $a, then those of $b whose key $a lacks. */
  function Union<V>(a: OMap<V>, b: OMap<V>): (r: OMap<V>)
    ensures |r| >= |a| && r[..|a|] == a
    ensures forall k :: k in Keys(r) <==> k in Keys(a) || k in Keys(b)
    ensures (forall j :: 0 <= j < |b| ==> b[j].0 !in Keys(a)) ==> r == a + b
    ensures WellFormed(a) && WellFormed(b) ==> WellFormed(r)
    ensures r[|a|..] == Missing(Keys(a), b)
  {
    var extra := Missing(Keys(a), b);
    var r := a + extra;
    KeysAppend(a, extra);
    assert r[..|a|] == a;
    assert r[|a|..] == extra;
    assert forall j :: 0 <= j < |extra| ==> Keys(extra)[j] in Keys(extra);
    MissingWellFormed(Keys(a), b);
    NoDupsAppend(Keys(a), Keys(extra));
    r
  }

  /** `["x" => 1] + ["a" => 3, "x" => 2, "b" => 4]`: the left entry wins, and the right operand's other entries follow in its order. */
  lemma UnionOverlap()
    ensures Union([("x", 1)], [("a", 3), ("x", 2), ("b", 4)]) == [("x", 1), ("a", 3), ("b", 4)]
  {
    var b := [("a", 3), ("x", 2), ("b", 4)];
    assert Keys([("x", 1)]) == ["x"];
    assert b[1..] == [("x", 2), ("b", 4)] && b[1..][1..] == [("b", 4)];
    assert Missing(["x"], [("b", 4)]) == [("b", 4)];
    assert Missing(["x"], b[1..]) == [("b", 4)];
    assert Missing(["x"], b) == [("a", 3), ("b", 4)];
  }
}
