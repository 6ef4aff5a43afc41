/**
 * The index that AlphaPagination::getCharacters (src/AlphaPagination.php)
 * builds, written as functions of the pager, the cache entry, the entity
 * prefixes and the view's arguments. The imperative builder is proved
 * against `Characters`; the lemmas below say what the index holds.
 *
 * An index is a list of character states in display order; the value of a
 * state is its key in the PHP array.
 */
module CharacterIndex {
  import opened PhpStrings
  import opened OrderedMaps
  import opened PagerConfig
  import opened CharacterObjects

  // ---------------------------------------------------------------------------
  // The value => label array

  /** One entry per alphabet letter, labelled with itself. */
  function AlphabetEntries(p: Pager): OMap<string> {
    SelfMap(p.GetAlphabet(p.langcode))
  }

  /** $numeric: nothing when numbers are off, the escaped single label in mode '2', else one entry per number. */
  function NumericEntries(p: Pager): OMap<string> {
    if p.NumericType() == "0" then []
    else if p.NumericType() == "2" then [(p.NumericValue(), CheckPlain(p.NumericLabel()))]
    else SelfMap(p.GetNumbers(p.langcode))
  }

  /** $numeric_divider */
  function DividerEntries(p: Pager): OMap<string> {
    if p.HasDivider() then [("-", "")] else []
  }

  /** The alphabet with the numeric entries and the divider merged in after or before it. */
  function WithNumeric(p: Pager): OMap<string> {
    var alphabet := AlphabetEntries(p);
    if p.NumericType() == "0" then alphabet
    else if p.GetOption("paginate_numeric_position", "") == "after" then
      Merge(Merge(alphabet, DividerEntries(p)), NumericEntries(p))
    else
      Merge(Merge(NumericEntries(p), DividerEntries(p)), alphabet)
  }

  function AllEntry(p: Pager): (string, string) {
    (p.AllValue(), p.AllLabel())
  }

  /** The finished value => label array, before any character object exists. */
  function Layout(p: Pager): OMap<string> {
    var m := WithNumeric(p);
    if !p.AllShown() then m
    else if p.GetOption("paginate_all_position", "") == "before" then Union([AllEntry(p)], m)
    else Put(m, p.AllValue(), p.AllLabel())
  }

  /** Which values $numeric has an entry for. */
  predicate InNumeric(p: Pager, k: string) {
    || (p.NumericType() == "2" && k == p.NumericValue())
    || (p.NumericType() != "0" && p.NumericType() != "2" && k in p.GetNumbers(p.langcode))
  }

  /** Which values the layout has an entry for. */
  predicate InLayout(p: Pager, k: string) {
    || k in p.GetAlphabet(p.langcode)
    || InNumeric(p, k)
    || (p.NumericType() != "0" && p.HasDivider() && k == "-")
    || (p.AllShown() && k == p.AllValue())
  }

  lemma AlphabetKeys(p: Pager)
    ensures WellFormed(AlphabetEntries(p))
    ensures forall k :: k in Keys(AlphabetEntries(p)) <==> k in p.GetAlphabet(p.langcode)
  {
    forall k ensures k in Keys(AlphabetEntries(p)) <==> k in p.GetAlphabet(p.langcode) {
      DedupMembers(p.GetAlphabet(p.langcode), k);
    }
  }

  lemma NumericKeys(p: Pager)
    ensures WellFormed(NumericEntries(p))
    ensures forall k :: k in Keys(NumericEntries(p)) <==> InNumeric(p, k)
  {
    if p.NumericType() == "0" {
      assert Keys(NumericEntries(p)) == [];
    } else if p.NumericType() == "2" {
      assert Keys(NumericEntries(p)) == [p.NumericValue()];
    } else {
      assert NumericEntries(p) == SelfMap(p.GetNumbers(p.langcode));
      forall k ensures k in Keys(NumericEntries(p)) <==> k in p.GetNumbers(p.langcode) {
        DedupMembers(p.GetNumbers(p.langcode), k);
      }
    }
  }

  lemma WithNumericKeys(p: Pager)
    ensures WellFormed(WithNumeric(p))
    ensures forall k :: k in Keys(WithNumeric(p)) <==>
      k in p.GetAlphabet(p.langcode) || InNumeric(p, k) || (p.NumericType() != "0" && p.HasDivider() && k == "-")
  {
    AlphabetKeys(p);
    NumericKeys(p);
    if p.NumericType() != "0" {
      var first, second := AlphabetEntries(p), NumericEntries(p);
      if p.GetOption("paginate_numeric_position", "") != "after" {
        first, second := NumericEntries(p), AlphabetEntries(p);
      }
      MergeMembers(first, DividerEntries(p));
      MergeMembers(Merge(first, DividerEntries(p)), second);
    }
  }

  /** The layout has one entry per value, and exactly the values of the letters, numbers, divider and "All" that are switched on. */
  lemma LayoutKeys(p: Pager)
    ensures WellFormed(Layout(p))
    ensures forall k :: k in Keys(Layout(p)) <==> InLayout(p, k)
  {
    WithNumericKeys(p);
    var m := WithNumeric(p);
    if p.AllShown() {
      if p.GetOption("paginate_all_position", "") == "before" {
        assert Keys([AllEntry(p)]) == [p.AllValue()];
      } else {
        forall k ensures k in Keys(Layout(p)) <==> k in Keys(m) || k == p.AllValue() {
          if p.AllValue() !in Keys(m) {
            assert Keys(Layout(p)) == Keys(m) + [p.AllValue()];
          }
        }
      }
    }
  }

  /** The numeric entries spelled out, when numbers are on. */
  function ExpectedNumeric(p: Pager): OMap<string> {
    if p.NumericType() == "2" then [(p.NumericValue(), CheckPlain(p.NumericLabel()))]
    else Identity(p.GetNumbers(p.langcode))
  }

  /** The letters with the numbers before or after them around the divider. */
  function ExpectedBody(p: Pager): OMap<string> {
    var alphabet := Identity(p.GetAlphabet(p.langcode));
    if p.NumericType() == "0" then alphabet
    else if p.GetOption("paginate_numeric_position", "") == "after" then alphabet + DividerEntries(p) + ExpectedNumeric(p)
    else ExpectedNumeric(p) + DividerEntries(p) + alphabet
  }

  /** The layout spelled out: letters labelled by themselves, numbers before or after them around the divider, "All" at either end. */
  function ExpectedLayout(p: Pager): OMap<string> {
    var body := ExpectedBody(p);
    if !p.AllShown() then body
    else if p.GetOption("paginate_all_position", "") == "before" then [AllEntry(p)] + body
    else body + [AllEntry(p)]
  }

  lemma NoDupsSplit(a: seq<string>, b: seq<string>)
    requires NoDups(a + b)
    ensures NoDups(a) && NoDups(b)
    ensures forall j :: 0 <= j < |b| ==> b[j] !in a
  {
    assert forall i :: 0 <= i < |a| ==> (a + b)[i] == a[i];
    assert forall j :: 0 <= j < |b| ==> (a + b)[|a| + j] == b[j];
  }

  /** `Merge(Merge(x, d), y)` is `x + d + y` when no value occurs twice among them; then `x` and `y` have no repeats either. */
  lemma MergeThree(x: OMap<string>, d: OMap<string>, y: OMap<string>)
    requires NoDups(Keys(x + d + y))
    ensures Merge(Merge(x, d), y) == x + d + y
    ensures NoDups(Keys(x)) && NoDups(Keys(y))
  {
    KeysAppend(x + d, y);
    KeysAppend(x, d);
    NoDupsSplit(Keys(x + d), Keys(y));
    NoDupsSplit(Keys(x), Keys(d));
    MergeDisjoint(x, d);
    MergeDisjoint(x + d, y);
  }

  lemma {:induction false} WithNumericAsExpected(p: Pager)
    requires NoDups(Keys(ExpectedBody(p)))
    ensures WithNumeric(p) == ExpectedBody(p)
  {
    var alphabet := Identity(p.GetAlphabet(p.langcode));
    var numeric := ExpectedNumeric(p);
    if p.NumericType() == "0" {
      assert Keys(alphabet) == p.GetAlphabet(p.langcode);
    } else {
      if p.GetOption("paginate_numeric_position", "") == "after" {
        MergeThree(alphabet, DividerEntries(p), numeric);
      } else {
        MergeThree(numeric, DividerEntries(p), alphabet);
      }
      if p.NumericType() != "2" {
        assert Keys(numeric) == p.GetNumbers(p.langcode);
        SelfMapDistinct(p.GetNumbers(p.langcode));
      }
    }
    assert Keys(alphabet) == p.GetAlphabet(p.langcode);
    SelfMapDistinct(p.GetAlphabet(p.langcode));
  }

  lemma EntryFirst(e: (string, string), body: OMap<string>)
    requires NoDups(Keys([e] + body))
    ensures Union([e], body) == [e] + body && NoDups(Keys(body))
  {
    KeysAppend([e], body);
    NoDupsSplit(Keys([e]), Keys(body));
    forall j | 0 <= j < |body| ensures body[j].0 !in Keys([e]) {
      assert Keys(body)[j] == body[j].0;
    }
  }

  lemma EntryLast(e: (string, string), body: OMap<string>)
    requires NoDups(Keys(body + [e]))
    ensures Put(body, e.0, e.1) == body + [e] && NoDups(Keys(body))
  {
    KeysAppend(body, [e]);
    NoDupsSplit(Keys(body), Keys([e]));
    assert Keys([e])[0] == e.0;
    assert (e.0, e.1) == e;
  }

  /** When no value occurs twice in it, the layout is exactly the spelled-out one. */
  lemma {:induction false} LayoutAsExpected(p: Pager)
    requires NoDups(Keys(ExpectedLayout(p)))
    ensures Layout(p) == ExpectedLayout(p)
  {
    if p.AllShown() {
      if p.GetOption("paginate_all_position", "") == "before" {
        EntryFirst(AllEntry(p), ExpectedBody(p));
      } else {
        EntryLast(AllEntry(p), ExpectedBody(p));
      }
    }
    WithNumericAsExpected(p);
  }

  // ---------------------------------------------------------------------------
  // Character states

  /** array_keys of an index. */
  function Values(s: seq<CharState>): (r: seq<string>)
    ensures |r| == |s|
    ensures forall j :: 0 <= j < |s| ==> r[j] == s[j].value
  {
    seq(|s|, j requires 0 <= j < |s| => s[j].value)
  }

  /** A new character object for every entry: neither enabled nor active. */
  function Instantiate(m: OMap<string>): (r: seq<CharState>)
    ensures |r| == |m|
    ensures forall j :: 0 <= j < |r| ==> r[j] == CharState(m[j].1, m[j].0, false, false)
  {
    seq(|m|, j requires 0 <= j < |m| => CharState(m[j].1, m[j].0, false, false))
  }

  /** The value a prefix enables: the sentinel for a numeric prefix in mode '2', else the prefix itself. */
  function MapPrefix(p: Pager, prefix: string): string {
    if p.IsNumeric(prefix) && p.NumericType() == "2" then p.NumericValue() else prefix
  }

  /** `if (isset($characters[$v])) $characters[$v]->setEnabled(TRUE);` */
  function EnableValue(s: seq<CharState>, v: string): (r: seq<CharState>)
    ensures |r| == |s| && Values(r) == Values(s)
    ensures forall j :: 0 <= j < |s| ==>
      r[j] == s[j].(enabled := s[j].enabled || IndexOf(Values(s), v) == Some(j))
  {
    match IndexOf(Values(s), v)
    case Some(j) => s[j := s[j].(enabled := true)]
    case None => s
  }

  /** The loop over the entity prefixes. */
  function Enable(p: Pager, s: seq<CharState>, prefixes: seq<string>): seq<CharState>
    decreases |prefixes|
  {
    if prefixes == [] then s
    else EnableValue(Enable(p, s, prefixes[..|prefixes| - 1]), MapPrefix(p, prefixes[|prefixes| - 1]))
  }

  /** The values some prefix enables. */
  function EnabledValues(p: Pager, prefixes: seq<string>): set<string> {
    set j | 0 <= j < |prefixes| :: MapPrefix(p, prefixes[j])
  }

  /** With one state per value, enabling a value enables exactly the state with that value. */
  lemma EnableValueExactly(s: seq<CharState>, v: string)
    requires NoDups(Values(s))
    ensures forall j :: 0 <= j < |s| ==> EnableValue(s, v)[j] == s[j].(enabled := s[j].enabled || s[j].value == v)
  {
    forall j | 0 <= j < |s| ensures IndexOf(Values(s), v) == Some(j) <==> s[j].value == v {
      if s[j].value == v {
        var i := IndexOf(Values(s), v);
        assert i.Some?;
        assert Values(s)[i.value] == Values(s)[j];
      }
    }
  }

  lemma EnabledValuesSnoc(p: Pager, prefixes: seq<string>)
    requires prefixes != []
    ensures EnabledValues(p, prefixes) == EnabledValues(p, prefixes[..|prefixes| - 1]) + {MapPrefix(p, prefixes[|prefixes| - 1])}
  {
    var init := prefixes[..|prefixes| - 1];
    assert forall j :: 0 <= j < |init| ==> init[j] == prefixes[j];
  }

  /** With one state per value, the loop sets `enabled` exactly on the states whose value some prefix maps to, and changes nothing else. */
  lemma {:induction false} EnableExactly(p: Pager, s: seq<CharState>, prefixes: seq<string>)
    requires NoDups(Values(s))
    ensures |Enable(p, s, prefixes)| == |s|
    ensures forall j :: 0 <= j < |s| ==>
      Enable(p, s, prefixes)[j] == s[j].(enabled := s[j].enabled || s[j].value in EnabledValues(p, prefixes))
    decreases |prefixes|
  {
    if prefixes != [] {
      var init := prefixes[..|prefixes| - 1];
      var v := MapPrefix(p, prefixes[|prefixes| - 1]);
      EnableExactly(p, s, init);
      var before := Enable(p, s, init);
      assert Values(before) == Values(s);
      EnabledValuesSnoc(p, prefixes);
      EnableValueExactly(before, v);
      forall j | 0 <= j < |s|
        ensures Enable(p, s, prefixes)[j] == s[j].(enabled := s[j].enabled || s[j].value in EnabledValues(p, prefixes))
      {
        assert Enable(p, s, prefixes)[j] == EnableValue(before, v)[j];
      }
    }
  }

  /** The states of `s` whose value is, or (with `keep` false) is not, among `keys`: array_intersect_key / array_diff_key. */
  function Select(s: seq<CharState>, keys: set<string>, keep: bool): (r: seq<CharState>)
    ensures forall x :: x in r <==> x in s && (x.value in keys) == keep
    ensures IsSubsequence(r, s)
    ensures (forall j :: 0 <= j < |s| ==> (s[j].value in keys) == keep) ==> r == s
    decreases |s|
  {
    if s == [] then []
    else
      var rest := Select(s[1..], keys, keep);
      assert s == [s[0]] + s[1..];
      if (s[0].value in keys) == keep then
        assert ([s[0]] + rest)[1..] == rest;
        [s[0]] + rest
      else rest
  }

  /** In a list with distinct values, the tail has distinct values and no later state shares the first state's value. */
  lemma HeadValueFresh(s: seq<CharState>)
    requires s != [] && NoDups(Values(s))
    ensures NoDups(Values(s[1..]))
    ensures forall x :: x in s[1..] ==> x.value != s[0].value
  {
    assert Values(s[1..]) == Values(s)[1..];
    forall x | x in s[1..] ensures x.value != s[0].value {
      var k :| 0 <= k < |s[1..]| && s[1..][k] == x;
      assert Values(s)[k + 1] == x.value;
    }
  }

  /** Putting a state in front of a list with distinct values keeps them distinct when its value is new. */
  lemma ConsNoDups(x: CharState, rest: seq<CharState>)
    requires NoDups(Values(rest))
    requires forall y :: y in rest ==> y.value != x.value
    ensures NoDups(Values([x] + rest))
  {
    assert Values([x] + rest) == [x.value] + Values(rest);
    forall j | 0 <= j < |rest| ensures Values(rest)[j] !in [x.value] {
      assert rest[j] in rest;
    }
    NoDupsAppend([x.value], Values(rest));
  }

  /** Selecting from a list with distinct values keeps the values distinct. */
  lemma {:induction false} SelectNoDups(s: seq<CharState>, keys: set<string>, keep: bool)
    requires NoDups(Values(s))
    ensures NoDups(Values(Select(s, keys, keep)))
    decreases |s|
  {
    if s != [] {
      var rest := Select(s[1..], keys, keep);
      HeadValueFresh(s);
      SelectNoDups(s[1..], keys, keep);
      if (s[0].value in keys) == keep {
        assert Select(s, keys, keep) == [s[0]] + rest;
        ConsNoDups(s[0], rest);
      } else {
        assert Select(s, keys, keep) == rest;
      }
    }
  }

  /** What the empty-prefix filter keeps: the prefixes as given, plus "All" and the divider when shown. */
  function KeptValues(p: Pager, prefixes: seq<string>): set<string> {
    (set x | x in prefixes)
      + (if p.AllShown() then {p.AllValue()} else {})
      + (if p.HasDivider() then {"-"} else {})
  }

  /**
   * The removal of empty prefixes: unless 'paginate_toggle_empty' is set,
   * exactly the states whose value is kept remain, in their order. The
   * character objects themselves are always truthy, so array_filter drops
   * nothing further.
   */
  function FilterEmpty(p: Pager, s: seq<CharState>, prefixes: seq<string>): (r: seq<CharState>)
    ensures Truthy(p.GetOption("paginate_toggle_empty", "")) ==> r == s
    ensures !Truthy(p.GetOption("paginate_toggle_empty", "")) ==>
      forall x :: x in r <==> x in s && x.value in KeptValues(p, prefixes)
    ensures IsSubsequence(r, s)
  {
    SubsequenceOfSelf(s);
    if Truthy(p.GetOption("paginate_toggle_empty", "")) then s
    else Select(s, KeptValues(p, prefixes), true)
  }

  /** The keys of array_flip($numeric): the labels of the numeric entries. */
  function NumericLabels(p: Pager): set<string> {
    var numeric := NumericEntries(p);
    set j | 0 <= j < |numeric| :: numeric[j].1
  }

  /** The removal of the numeric entries when none of them is present. */
  function HideEmptyNumeric(p: Pager, s: seq<CharState>): seq<CharState> {
    if !Truthy(p.GetOption("paginate_numeric_hide_empty", "")) then s
    else if Select(s, NumericLabels(p), true) != [] then s
    else Select(s, NumericLabels(p), false)
  }

  /**
   * The step removes what is absent, so it never changes the index: when no
   * value is among the labels there is nothing to drop, and otherwise the
   * index is left as it is.
   */
  lemma HideEmptyNumericIsIdentity(p: Pager, s: seq<CharState>)
    ensures HideEmptyNumeric(p, s) == s
  {
    var labels := NumericLabels(p);
    if Select(s, labels, true) == [] {
      forall j | 0 <= j < |s| ensures s[j].value !in labels {
        assert s[j] in s;
      }
    }
  }

  /** The index the builder caches: laid out, enabled, filtered, trimmed. */
  function Built(p: Pager, prefixes: seq<string>): seq<CharState> {
    HideEmptyNumeric(p, FilterEmpty(p, Enable(p, Instantiate(Layout(p)), prefixes), prefixes))
  }

  /** The states right after the enabling loop. */
  function Enabled(p: Pager, prefixes: seq<string>): seq<CharState> {
    Enable(p, Instantiate(Layout(p)), prefixes)
  }

  /** After the enabling loop every layout entry has its state, enabled exactly when some prefix maps to its value, and none is active. */
  lemma EnabledStates(p: Pager, prefixes: seq<string>)
    ensures |Enabled(p, prefixes)| == |Layout(p)|
    ensures forall j :: 0 <= j < |Layout(p)| ==>
      var st := Enabled(p, prefixes)[j];
      && st.value == Layout(p)[j].0 && st.labelText == Layout(p)[j].1 && !st.active
      && (st.enabled <==> st.value in EnabledValues(p, prefixes))
    ensures NoDups(Values(Enabled(p, prefixes)))
  {
    var s := Instantiate(Layout(p));
    LayoutKeys(p);
    assert Values(s) == Keys(Layout(p));
    EnableExactly(p, s, prefixes);
    assert Values(Enabled(p, prefixes)) == Values(s);
  }

  /** The built index has one state per value, none of them active, each one a state of the enabling loop, in the layout's order. */
  lemma BuiltStates(p: Pager, prefixes: seq<string>)
    ensures NoDups(Values(Built(p, prefixes)))
    ensures forall x :: x in Built(p, prefixes) ==> x in Enabled(p, prefixes) && !x.active
    ensures IsSubsequence(Built(p, prefixes), Enabled(p, prefixes))
  {
    var e := Enabled(p, prefixes);
    var f := FilterEmpty(p, e, prefixes);
    EnabledStates(p, prefixes);
    HideEmptyNumericIsIdentity(p, f);
    if !Truthy(p.GetOption("paginate_toggle_empty", "")) {
      SelectNoDups(e, KeptValues(p, prefixes), true);
    }
    forall x | x in e ensures !x.active {
      var j :| 0 <= j < |e| && e[j] == x;
    }
  }

  /**
   * In single-label mode the sentinel is enabled by any numeric prefix, yet
   * the empty-prefix filter compares against the raw prefixes, so the
   * sentinel is dropped whenever no prefix is literally equal to it.
   */
  lemma SentinelDropped(p: Pager, prefixes: seq<string>)
    requires p.NumericType() == "2" && !Truthy(p.GetOption("paginate_toggle_empty", ""))
    requires p.NumericValue() !in prefixes
    requires !(p.AllShown() && p.AllValue() == p.NumericValue())
    ensures forall x :: x in Built(p, prefixes) ==> x.value != p.NumericValue()
    ensures (exists j :: 0 <= j < |prefixes| && p.IsNumeric(prefixes[j])) ==>
      exists x :: x in Enabled(p, prefixes) && x.value == p.NumericValue() && x.enabled
  {
    var e := Enabled(p, prefixes);
    var f := FilterEmpty(p, e, prefixes);
    HideEmptyNumericIsIdentity(p, f);
    assert p.NumericValue() !in KeptValues(p, prefixes);
    if j :| 0 <= j < |prefixes| && p.IsNumeric(prefixes[j]) {
      assert MapPrefix(p, prefixes[j]) == p.NumericValue();
      LayoutKeys(p);
      EnabledStates(p, prefixes);
      assert InLayout(p, p.NumericValue());
      var i :| 0 <= i < |Layout(p)| && Keys(Layout(p))[i] == p.NumericValue();
      assert e[i] in e;
    }
  }

  // ---------------------------------------------------------------------------
  // Cache and activation

  /** A cache entry is used when it exists and is not empty. */
  predicate CacheHit(cached: Option<seq<CharState>>) {
    cached.Some? && cached.value != []
  }

  /** The index before activation: the cached one on a hit, the built one otherwise. */
  function Base(p: Pager, cached: Option<seq<CharState>>, prefixes: seq<string>): seq<CharState> {
    if CacheHit(cached) then cached.value else Built(p, prefixes)
  }

  /** $current: the last view argument when it is truthy and names an entry, else "All" when shown, else nothing. */
  function Current(p: Pager, s: seq<CharState>, args: seq<string>): string {
    var fallback := if p.AllShown() then p.AllValue() else "";
    if |args| > 0 && Truthy(args[|args| - 1]) && args[|args| - 1] in Values(s) then args[|args| - 1]
    else fallback
  }

  /** The activation test: a numeric state in mode '2' matches through the sentinel, any other through its value. */
  predicate Matches(p: Pager, st: CharState, current: string) {
    if p.IsNumeric(st.value) && p.NumericType() == "2" then p.NumericValue() == current
    else st.value == current
  }

  /** The first state that matches. */
  function FirstMatch(p: Pager, s: seq<CharState>, current: string): (r: Option<nat>)
    ensures r.Some? ==> r.value < |s| && Matches(p, s[r.value], current)
    ensures r.Some? ==> forall j :: 0 <= j < r.value ==> !Matches(p, s[j], current)
    ensures r.None? ==> forall j :: 0 <= j < |s| ==> !Matches(p, s[j], current)
    decreases |s|
  {
    if s == [] then None
    else if Matches(p, s[0], current) then Some(0)
    else match FirstMatch(p, s[1..], current)
      case Some(j) => Some(j + 1)
      case None => None
  }

  /**
   * The activation loop: when there is a current value, the first matching
   * state becomes active and the loop stops. Labels, values and enabled
   * flags are untouched.
   */
  function Activate(p: Pager, s: seq<CharState>, args: seq<string>): (r: seq<CharState>)
    ensures |r| == |s| && Values(r) == Values(s)
    ensures forall j :: 0 <= j < |s| ==>
      r[j].labelText == s[j].labelText && r[j].enabled == s[j].enabled
    ensures forall j :: 0 <= j < |s| ==>
      (r[j].active <==>
        (s[j].active || (Truthy(Current(p, s, args)) && FirstMatch(p, s, Current(p, s, args)) == Some(j))))
  {
    var current := Current(p, s, args);
    if !Truthy(current) then s
    else match FirstMatch(p, s, current)
      case Some(j) => s[j := s[j].(active := true)]
      case None => s
  }

  /** What getCharacters returns, as states. */
  function Characters(p: Pager, cached: Option<seq<CharState>>, prefixes: seq<string>, args: seq<string>): seq<CharState> {
    Activate(p, Base(p, cached, prefixes), args)
  }

  /**
   * On states, by the definition of `Base`: a miss stores `Built`, so a hit on
   * that entry gives the same index. The object-level round trip is
   * `CharacterBuilder.CacheRoundTripObjects`.
   */
  lemma CacheRoundTrip(p: Pager, prefixes: seq<string>, args: seq<string>)
    ensures Characters(p, Some(Built(p, prefixes)), prefixes, args) == Characters(p, None, prefixes, args)
  {
  }

  /** Prefix lists with the same members enable the same values and keep the same values. */
  lemma SameMembersSameValues(p: Pager, q: seq<string>, prefixes: seq<string>)
    requires forall x :: x in q <==> x in prefixes
    ensures EnabledValues(p, q) == EnabledValues(p, prefixes)
    ensures KeptValues(p, q) == KeptValues(p, prefixes)
  {
    forall v | v in EnabledValues(p, q) ensures v in EnabledValues(p, prefixes) {
      var j :| 0 <= j < |q| && v == MapPrefix(p, q[j]);
      assert q[j] in prefixes;
      var i :| 0 <= i < |prefixes| && prefixes[i] == q[j];
    }
    forall v | v in EnabledValues(p, prefixes) ensures v in EnabledValues(p, q) {
      var j :| 0 <= j < |prefixes| && v == MapPrefix(p, prefixes[j]);
      assert prefixes[j] in q;
      var i :| 0 <= i < |q| && q[i] == prefixes[j];
    }
    assert KeptValues(p, q) == KeptValues(p, prefixes);
  }

  /** The enabling loop does not depend on the order of the prefixes, nor on repeated ones. */
  lemma EnabledOrderFree(p: Pager, q: seq<string>, prefixes: seq<string>)
    requires forall x :: x in q <==> x in prefixes
    ensures Enabled(p, q) == Enabled(p, prefixes)
  {
    EnabledStates(p, q);
    EnabledStates(p, prefixes);
    SameMembersSameValues(p, q, prefixes);
  }

  /** The built index does not depend on the order of the database rows, nor on repeated prefixes. */
  lemma BuiltOrderFree(p: Pager, q: seq<string>, prefixes: seq<string>)
    requires forall x :: x in q <==> x in prefixes
    ensures Built(p, q) == Built(p, prefixes)
  {
    EnabledOrderFree(p, q, prefixes);
    SameMembersSameValues(p, q, prefixes);
    assert FilterEmpty(p, Enabled(p, q), q) == FilterEmpty(p, Enabled(p, prefixes), prefixes);
  }

  /** Starting from an index with nothing active, at most one state ends up active. */
  lemma AtMostOneActive(p: Pager, s: seq<CharState>, args: seq<string>)
    requires forall j :: 0 <= j < |s| ==> !s[j].active
    ensures forall i, j :: 0 <= i < j < |s| ==> !(Activate(p, s, args)[i].active && Activate(p, s, args)[j].active)
  {
  }

  /** In single-label mode, the only numeric value among the states is the sentinel. */
  predicate SentinelOnly(p: Pager, s: seq<CharState>) {
    forall j :: 0 <= j < |s| && p.NumericType() == "2" && p.IsNumeric(s[j].value) ==> s[j].value == p.NumericValue()
  }

  /**
   * With one state per value, nothing active and no stray numbers, the active
   * state is exactly the one whose value is the current selection: the last
   * view argument when it names an entry, else the "All" entry.
   */
  lemma {:induction false} ActiveIsCurrent(p: Pager, s: seq<CharState>, args: seq<string>)
    requires NoDups(Values(s)) && SentinelOnly(p, s)
    requires forall j :: 0 <= j < |s| ==> !s[j].active
    ensures forall j :: 0 <= j < |s| ==>
      (Activate(p, s, args)[j].active <==> Truthy(Current(p, s, args)) && s[j].value == Current(p, s, args))
  {
    var current := Current(p, s, args);
    forall j | 0 <= j < |s| ensures Matches(p, s[j], current) <==> s[j].value == current {
    }
    forall j | 0 <= j < |s| ensures FirstMatch(p, s, current) == Some(j) <==> s[j].value == current {
      var m := FirstMatch(p, s, current);
      if s[j].value == current {
        assert m.Some? && m.value <= j;
        assert Values(s)[m.value] == Values(s)[j];
      }
    }
  }

  /** A built index satisfies the activation lemma's assumptions when no letter, and not the "All" value, is also a number. */
  lemma BuiltSentinelOnly(p: Pager, prefixes: seq<string>)
    requires forall a :: a in p.GetAlphabet(p.langcode) ==> a !in p.GetNumbers(p.langcode)
    requires !(p.AllShown() && p.AllValue() in p.GetNumbers(p.langcode))
    requires !(p.NumericType() != "2" && p.HasDivider() && "-" in p.GetNumbers(p.langcode))
    ensures SentinelOnly(p, Built(p, prefixes))
  {
    var b := Built(p, prefixes);
    BuiltInLayout(p, prefixes);
    forall j | 0 <= j < |b| && p.NumericType() == "2" && p.IsNumeric(b[j].value) ensures b[j].value == p.NumericValue() {
      assert b[j] in b;
    }
  }

  /** Every built state carries a value of the layout. */
  lemma BuiltInLayout(p: Pager, prefixes: seq<string>)
    ensures forall x :: x in Built(p, prefixes) ==> InLayout(p, x.value)
  {
    BuiltStates(p, prefixes);
    EnabledInLayout(p, prefixes);
  }

  /** Every state of the enabling loop carries a value of the layout. */
  lemma EnabledInLayout(p: Pager, prefixes: seq<string>)
    ensures forall x :: x in Enabled(p, prefixes) ==> InLayout(p, x.value)
  {
    var e := Enabled(p, prefixes);
    EnabledStates(p, prefixes);
    LayoutKeys(p);
    forall x | x in e ensures InLayout(p, x.value) {
      var i :| 0 <= i < |e| && e[i] == x;
      assert Keys(Layout(p))[i] == x.value;
    }
  }
}
