/**
 * AlphaPagination::getCharacters (src/AlphaPagination.php) as the code runs
 * it: the value => label array built in loops, one Character object per
 * entry, prefixes enabling objects in place, the filters, the cache, and the
 * activation loop that stops at the first match. Every step is proved
 * against the specification in CharacterIndex. getLabel and getValue look
 * values up in the result.
 */
module CharacterBuilder {
  import opened PhpStrings
  import opened OrderedMaps
  import opened PagerConfig
  import opened CharacterObjects
  import opened CharacterIndex

  /** The states of a list of character objects, in order. */
  function Snapshot(chars: seq<Character>): (r: seq<CharState>)
    reads chars
    ensures |r| == |chars|
    ensures forall j :: 0 <= j < |chars| ==> r[j] == chars[j].State()
  {
    seq(|chars|, j reads chars requires 0 <= j < |chars| => chars[j].State())
  }

  /** array_keys of an array of characters: their values, which never change, so no state is read. */
  function ValuesOf(chars: seq<Character>): seq<string> {
    seq(|chars|, j requires 0 <= j < |chars| => chars[j].value)
  }

  /** The keys of the objects are the values of their states, in order. */
  lemma ValuesOfSnapshot(chars: seq<Character>)
    ensures ValuesOf(chars) == Values(Snapshot(chars))
  {
  }

  /** The objects of `chars` whose value is, or (with `keep` false) is not, among `keys`, in order. */
  function KeepByValue(chars: seq<Character>, keys: set<string>, keep: bool): (r: seq<Character>)
    ensures forall c :: c in r ==> c in chars
    decreases |chars|
  {
    if chars == [] then []
    else if (chars[0].value in keys) == keep then [chars[0]] + KeepByValue(chars[1..], keys, keep)
    else KeepByValue(chars[1..], keys, keep)
  }

  /** Selecting objects by value selects their states the same way, and keeps the objects distinct. */
  lemma {:induction false} KeepByValueSnapshot(chars: seq<Character>, keys: set<string>, keep: bool)
    requires NoDups(chars)
    ensures Snapshot(KeepByValue(chars, keys, keep)) == Select(Snapshot(chars), keys, keep)
    ensures NoDups(KeepByValue(chars, keys, keep))
    decreases |chars|
  {
    if chars != [] {
      var rest := KeepByValue(chars[1..], keys, keep);
      NoDupsTail(chars);
      KeepByValueSnapshot(chars[1..], keys, keep);
      SnapshotTail(chars);
      if (chars[0].value in keys) == keep {
        assert KeepByValue(chars, keys, keep) == [chars[0]] + rest;
        SnapshotCons(chars[0], rest);
        NoDupsCons(chars[0], rest);
      } else {
        assert KeepByValue(chars, keys, keep) == rest;
      }
    }
  }

  lemma NoDupsTail(chars: seq<Character>)
    requires chars != [] && NoDups(chars)
    ensures NoDups(chars[1..]) && chars[0] !in chars[1..]
  {
  }

  lemma NoDupsCons(c: Character, rest: seq<Character>)
    requires NoDups(rest) && c !in rest
    ensures NoDups([c] + rest)
  {
  }

  lemma SnapshotTail(chars: seq<Character>)
    requires chars != []
    ensures Snapshot(chars) == [chars[0].State()] + Snapshot(chars[1..])
  {
  }

  lemma SnapshotCons(c: Character, rest: seq<Character>)
    ensures Snapshot([c] + rest) == [c.State()] + Snapshot(rest)
  {
    assert ([c] + rest)[1..] == rest;
  }

  /** `foreach ($values as $value) { $m[$value] = $value; }` from an empty array. */
  method SelfMapLoop(values: seq<string>) returns (m: OMap<string>)
    ensures m == SelfMap(values)
  {
    m := [];
    for i := 0 to |values|
      invariant m == SelfMap(values[..i])
    {
      assert values[..i + 1][..i] == values[..i];
      m := Put(m, values[i], values[i]);
    }
    assert values[..|values|] == values;
  }

  /** The loops and merges that build the value => label array. */
  method BuildLayout(p: Pager) returns (m: OMap<string>)
    ensures m == Layout(p)
  {
    var divider: OMap<string> := if p.HasDivider() then [("-", "")] else [];
    var characters := SelfMapLoop(p.GetAlphabet(p.langcode));
    if p.NumericType() != "0" {
      var numeric: OMap<string> := [];
      if p.NumericType() == "2" {
        numeric := Put(numeric, p.NumericValue(), CheckPlain(p.NumericLabel()));
      } else {
        numeric := SelfMapLoop(p.GetNumbers(p.langcode));
      }
      assert numeric == NumericEntries(p);
      if p.GetOption("paginate_numeric_position", "") == "after" {
        characters := Merge(Merge(characters, divider), numeric);
      } else {
        characters := Merge(Merge(numeric, divider), characters);
      }
    }
    assert characters == WithNumeric(p);
    if p.AllShown() {
      if p.GetOption("paginate_all_position", "") == "before" {
        characters := Union([(p.AllValue(), p.AllLabel())], characters);
      } else {
        characters := Put(characters, p.AllValue(), p.AllLabel());
      }
    }
    m := characters;
  }

  /** One new Character per entry of the array. */
  method NewCharacters(p: Pager, m: OMap<string>) returns (chars: seq<Character>)
    ensures forall c :: c in chars ==> fresh(c) && c.pager == p
    ensures NoDups(chars)
    ensures Snapshot(chars) == Instantiate(m)
  {
    chars := [];
    for i := 0 to |m|
      invariant forall c :: c in chars ==> fresh(c) && c.pager == p
      invariant NoDups(chars)
      invariant Snapshot(chars) == Instantiate(m[..i])
    {
      var c := new Character(p, m[i].1, m[i].0);
      chars := chars + [c];
    }
    assert m[..|m|] == m;
  }

  /** The objects a cache entry holds, unserialized: new objects carrying the stored states. */
  method RestoreCharacters(p: Pager, states: seq<CharState>) returns (chars: seq<Character>)
    ensures forall c :: c in chars ==> fresh(c) && c.pager == p
    ensures NoDups(chars)
    ensures Snapshot(chars) == states
  {
    chars := [];
    for i := 0 to |states|
      invariant forall c :: c in chars ==> fresh(c) && c.pager == p
      invariant NoDups(chars)
      invariant Snapshot(chars) == states[..i]
    {
      var c := new Character(p, states[i].labelText, states[i].value);
      c := c.SetEnabled(states[i].enabled);
      c := c.SetActive(states[i].active);
      chars := chars + [c];
    }
    assert states[..|states|] == states;
  }

  /** `if (isset($characters[$value])) $characters[$value]->setEnabled(TRUE);` */
  method EnableOne(chars: seq<Character>, value: string)
    requires NoDups(chars)
    modifies set c | c in chars
    ensures Snapshot(chars) == EnableValue(old(Snapshot(chars)), value)
  {
    ghost var before := Snapshot(chars);
    ValuesOfSnapshot(chars);
    match IndexOf(ValuesOf(chars), value)
    case Some(j) =>
      var _ := chars[j].SetEnabled(true);
      forall k | 0 <= k < |chars| ensures chars[k].State() == before[j := before[j].(enabled := true)][k] {
        if k != j {
          assert chars[k] != chars[j];
        }
      }
    case None =>
  }

  /** The loop over the entity prefixes, each mapped to the sentinel when numeric in mode '2'. */
  method EnablePrefixes(p: Pager, chars: seq<Character>, prefixes: seq<string>)
    requires NoDups(chars)
    modifies set c | c in chars
    ensures Snapshot(chars) == Enable(p, old(Snapshot(chars)), prefixes)
  {
    ghost var initial := Snapshot(chars);
    for i := 0 to |prefixes|
      invariant Snapshot(chars) == Enable(p, initial, prefixes[..i])
    {
      var value := MapPrefix(p, prefixes[i]);
      EnableOne(chars, value);
      assert prefixes[..i + 1][..i] == prefixes[..i];
    }
    assert prefixes[..|prefixes|] == prefixes;
  }

  /** The activation test of the loop, read from the object. */
  predicate MatchesObject(p: Pager, c: Character, current: string) {
    if c.IsNumeric() && p.NumericType() == "2" then p.NumericValue() == current else c.value == current
  }

  /** For an object of the pager, the test agrees with the specification's test on the object's state. */
  lemma MatchesObjectIsMatches(p: Pager, c: Character, current: string)
    requires c.pager == p
    ensures MatchesObject(p, c, current) == Matches(p, c.State(), current)
  {
  }

  /** $current and the activation loop: the first object that matches becomes active and the loop stops. */
  method ActivateCurrent(p: Pager, chars: seq<Character>, args: seq<string>)
    requires NoDups(chars)
    requires forall c :: c in chars ==> c.pager == p
    modifies set c | c in chars
    ensures Snapshot(chars) == Activate(p, old(Snapshot(chars)), args)
  {
    ghost var initial := Snapshot(chars);
    ValuesOfSnapshot(chars);
    var current := if p.AllShown() then p.AllValue() else "";
    if |args| > 0 {
      var arg := args[|args| - 1];
      if Truthy(arg) && arg in ValuesOf(chars) {
        current := arg;
      }
    }
    assert current == Current(p, initial, args);
    if Truthy(current) {
      var i := 0;
      while i < |chars|
        invariant 0 <= i <= |chars|
        invariant Snapshot(chars) == initial
        invariant forall j :: 0 <= j < i ==> !Matches(p, initial[j], current)
      {
        MatchesObjectIsMatches(p, chars[i], current);
        assert chars[i].State() == initial[i];
        if MatchesObject(p, chars[i], current) {
          var _ := chars[i].SetActive(true);
          ActivateAt(p, initial, args, i);
          forall j | 0 <= j < |chars| ensures Snapshot(chars)[j] == initial[i := initial[i].(active := true)][j] {
            if j != i {
              assert chars[j] != chars[i];
            }
          }
          return;
        }
        i := i + 1;
      }
    }
    ActivateNone(p, initial, args);
  }

  /** When the `i`-th state is the first match of a non-empty selection, activation sets exactly its flag. */
  lemma ActivateAt(p: Pager, s: seq<CharState>, args: seq<string>, i: nat)
    requires i < |s| && Truthy(Current(p, s, args)) && Matches(p, s[i], Current(p, s, args))
    requires forall j :: 0 <= j < i ==> !Matches(p, s[j], Current(p, s, args))
    ensures Activate(p, s, args) == s[i := s[i].(active := true)]
  {
    var m := FirstMatch(p, s, Current(p, s, args));
    assert m.Some? && m.value <= i;
  }

  /** When the selection is empty or matches nothing, activation changes nothing. */
  lemma ActivateNone(p: Pager, s: seq<CharState>, args: seq<string>)
    requires Truthy(Current(p, s, args)) ==> forall j :: 0 <= j < |s| ==> !Matches(p, s[j], Current(p, s, args))
    ensures Activate(p, s, args) == s
  {
    if Truthy(Current(p, s, args)) {
      assert FirstMatch(p, s, Current(p, s, args)).None?;
    }
  }

  /**
   * getCharacters: the objects, in display order, and what is written to
   * the cache (nothing on a hit). The objects are new, distinct, and their
   * states are exactly the specified index.
   */
  method GetCharacters(p: Pager, cached: Option<seq<CharState>>, prefixes: seq<string>, args: seq<string>)
    returns (chars: seq<Character>, stored: Option<seq<CharState>>)
    ensures forall c :: c in chars ==> fresh(c) && c.pager == p
    ensures NoDups(chars)
    ensures Snapshot(chars) == Characters(p, cached, prefixes, args)
    ensures stored == if CacheHit(cached) then None else Some(Built(p, prefixes))
  {
    if cached.Some? && cached.value != [] {
      chars := RestoreCharacters(p, cached.value);
      stored := None;
    } else {
      chars := BuildCharacters(p, prefixes);
      stored := Some(Snapshot(chars));
    }
    ActivateCurrent(p, chars, args);
  }

  /**
   * Two requests in a row: the first misses the cache and stores its index,
   * the second is given what was stored. Both hand back objects with the
   * same states.
   */
  method CacheRoundTripObjects(p: Pager, prefixes: seq<string>, args: seq<string>)
    returns (first: seq<Character>, second: seq<Character>)
    ensures Snapshot(first) == Characters(p, None, prefixes, args)
    ensures Snapshot(second) == Snapshot(first)
  {
    var stored;
    first, stored := GetCharacters(p, None, prefixes, args);
    var snap := Snapshot(first);
    var restored;
    second, restored := GetCharacters(p, stored, prefixes, args);
    assert Snapshot(first) == snap;
    CacheRoundTrip(p, prefixes, args);
  }

  /** The cache-miss branch of getCharacters: the layout's objects, enabled by the prefixes, then filtered. */
  method BuildCharacters(p: Pager, prefixes: seq<string>) returns (chars: seq<Character>)
    ensures forall c :: c in chars ==> fresh(c) && c.pager == p
    ensures NoDups(chars)
    ensures Snapshot(chars) == Built(p, prefixes)
  {
    var m := BuildLayout(p);
    chars := NewCharacters(p, m);
    EnablePrefixes(p, chars, prefixes);
    assert Snapshot(chars) == Enabled(p, prefixes);
    if !Truthy(p.GetOption("paginate_toggle_empty", "")) {
      var keep := KeptValues(p, prefixes);
      KeepByValueSnapshot(chars, keep, true);
      chars := KeepByValue(chars, keep, true);
    }
    if Truthy(p.GetOption("paginate_numeric_hide_empty", "")) {
      var labels := NumericLabels(p);
      KeepByValueSnapshot(chars, labels, true);
      if KeepByValue(chars, labels, true) == [] {
        KeepByValueSnapshot(chars, labels, false);
        chars := KeepByValue(chars, labels, false);
      }
    }
  }

  // ---------------------------------------------------------------------------
  // getLabel and getValue

  /** A lookup's outcome: a string, or the fatal error of reading a missing sentinel entry in mode '2'. */
  datatype Lookup = Found(text: string) | MissingSentinel

  /** The branch both lookups take for numeric values in mode '2'. */
  predicate SentinelBranch(p: Pager, value: string) {
    p.NumericType() == "2" && p.IsNumeric(value)
  }

  /**
   * getLabel over the array getCharacters returned: the sentinel's label for
   * a numeric value in mode '2', the entry's label for a present value, the
   * value itself otherwise.
   */
  function GetLabel(p: Pager, chars: seq<Character>, value: string): (r: Lookup)
    ensures SentinelBranch(p, value) ==>
      (r.MissingSentinel? <==> p.NumericValue() !in ValuesOf(chars))
    ensures SentinelBranch(p, value) && r.Found? ==>
      exists j :: 0 <= j < |chars| && chars[j].value == p.NumericValue() && r.text == chars[j].labelText
    ensures !SentinelBranch(p, value) && value in ValuesOf(chars) ==>
      exists j :: 0 <= j < |chars| && chars[j].value == value && r == Found(chars[j].labelText)
    ensures !SentinelBranch(p, value) && value !in ValuesOf(chars) ==> r == Found(value)
  {
    if SentinelBranch(p, value) then
      match IndexOf(ValuesOf(chars), p.NumericValue())
      case Some(j) => Found(chars[j].labelText)
      case None => MissingSentinel
    else
      match IndexOf(ValuesOf(chars), value)
      case Some(j) => Found(chars[j].labelText)
      case None => Found(value)
  }

  /**
   * getValue: the same lookups, but the sentinel branch gives the sentinel's
   * value, and a present value gives the entry's label, not its value.
   */
  function GetValue(p: Pager, chars: seq<Character>, value: string): (r: Lookup)
    ensures SentinelBranch(p, value) ==>
      r == if p.NumericValue() in ValuesOf(chars) then Found(p.NumericValue()) else MissingSentinel
  {
    if SentinelBranch(p, value) then
      match IndexOf(ValuesOf(chars), p.NumericValue())
      case Some(j) => Found(chars[j].value)
      case None => MissingSentinel
    else
      match IndexOf(ValuesOf(chars), value)
      case Some(j) => Found(chars[j].labelText)
      case None => Found(value)
  }

  /** Outside the sentinel branch getValue agrees with getLabel: a present value gets its label back. */
  lemma GetValueIsLabel(p: Pager, chars: seq<Character>, value: string)
    requires !SentinelBranch(p, value)
    ensures GetValue(p, chars, value) == GetLabel(p, chars, value)
  {
  }

  /**
   * In single-label mode, when no prefix is literally the sentinel and
   * empty entries are filtered, every numeric lookup on a freshly built
   * index fails on the missing sentinel entry.
   */
  lemma NumericLookupFails(p: Pager, prefixes: seq<string>, args: seq<string>, chars: seq<Character>, value: string)
    requires p.NumericType() == "2" && !Truthy(p.GetOption("paginate_toggle_empty", ""))
    requires p.NumericValue() !in prefixes
    requires !(p.AllShown() && p.AllValue() == p.NumericValue())
    requires Snapshot(chars) == Characters(p, None, prefixes, args)
    requires p.IsNumeric(value)
    ensures GetLabel(p, chars, value) == MissingSentinel
    ensures GetValue(p, chars, value) == MissingSentinel
  {
    SentinelDropped(p, prefixes);
    ValuesOfSnapshot(chars);
  }
}
