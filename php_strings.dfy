/**
 * The handful of PHP string and list built-ins the pagination code relies on,
 * written out with PHP's semantics: string truthiness, strpos, explode and
 * implode on a one-character delimiter, str_replace, check_plain (that is,
 * htmlspecialchars with ENT_QUOTES) and array_unique on a list of strings.
 */
module PhpStrings {

  datatype Option<T> = None | Some(value: T)

  /** PHP's boolean reading of a string: only "" and "0" are false. */
  predicate Truthy(s: string) {
    s != "" && s != "0"
  }

  /** A one-character string holding an ASCII digit: what is_numeric accepts among one-character strings. */
  predicate IsDigitString(s: string) {
    |s| == 1 && '0' <= s[0] <= '9'
  }

  // ---------------------------------------------------------------------------
  // strpos

  predicate OccursAt(hay: string, needle: string, j: nat) {
    j + |needle| <= |hay| && hay[j..j + |needle|] == needle
  }

  /** strpos: the first position at which `needle` occurs in `hay`, if any. */
  function StrPos(hay: string, needle: string): (r: Option<nat>)
    ensures r.Some? ==> OccursAt(hay, needle, r.value)
    ensures r.Some? ==> forall j :: 0 <= j < r.value ==> !OccursAt(hay, needle, j)
    ensures r.None? ==> forall j :: 0 <= j ==> !OccursAt(hay, needle, j)
  {
    StrPosFrom(hay, needle, 0)
  }

  function StrPosFrom(hay: string, needle: string, i: nat): (r: Option<nat>)
    requires forall j :: 0 <= j < i ==> !OccursAt(hay, needle, j)
    ensures r.Some? ==> i <= r.value && OccursAt(hay, needle, r.value)
    ensures r.Some? ==> forall j :: 0 <= j < r.value ==> !OccursAt(hay, needle, j)
    ensures r.None? ==> forall j :: 0 <= j ==> !OccursAt(hay, needle, j)
    decreases |hay| - i
  {
    if i + |needle| > |hay| then None
    else if hay[i..i + |needle|] == needle then Some(i)
    else StrPosFrom(hay, needle, i + 1)
  }

  /** strpos on a one-character needle fails exactly when the character does not occur. */
  lemma StrPosChar(s: string, c: char)
    ensures StrPos(s, [c]).None? <==> c !in s
  {
    if c in s {
      var j :| 0 <= j < |s| && s[j] == c;
      assert s[j..j + 1] == [c];
      assert OccursAt(s, [c], j);
    }
    var r := StrPos(s, [c]);
    if r.Some? {
      assert s[r.value] == s[r.value..r.value + 1][0];
    }
  }

  function StartsWith(s: string, prefix: string): bool {
    |prefix| <= |s| && s[..|prefix|] == prefix
  }

  // ---------------------------------------------------------------------------
  // explode / implode on a single-character delimiter

  /** explode(sep, s): the maximal pieces of `s` between occurrences of `sep`. */
  function Explode(sep: char, s: string): (r: seq<string>)
    ensures |r| >= 1
    ensures forall k :: 0 <= k < |r| ==> sep !in r[k]
    ensures |r| >= 2 <==> sep in s
    decreases |s|
  {
    if s == [] then [[]]
    else
      var rest := Explode(sep, s[1..]);
      if s[0] == sep then [[]] + rest
      else [[s[0]] + rest[0]] + rest[1..]
  }

  /** implode(sep, parts) (PHP's join). */
  function Implode(sep: char, parts: seq<string>): string
    decreases |parts|
  {
    if |parts| == 0 then []
    else if |parts| == 1 then parts[0]
    else parts[0] + [sep] + Implode(sep, parts[1..])
  }

  lemma {:induction false} ImplodeCons(sep: char, c: char, head: string, tail: seq<string>)
    ensures Implode(sep, [[c] + head] + tail) == [c] + Implode(sep, [head] + tail)
  {
    if |tail| > 0 {
      assert ([[c] + head] + tail)[1..] == tail;
      assert ([head] + tail)[1..] == tail;
    }
  }

  /** Joining pieces that lack a character other than the separator gives a string that lacks it too. */
  lemma {:induction false} ImplodeLacks(sep: char, parts: seq<string>, c: char)
    requires c != sep
    requires forall k :: 0 <= k < |parts| ==> c !in parts[k]
    ensures c !in Implode(sep, parts)
    decreases |parts|
  {
    if |parts| > 1 {
      ImplodeLacks(sep, parts[1..], c);
    }
  }

  /** Joining one more piece appends the separator and the piece. */
  lemma {:induction false} ImplodeSnoc(sep: char, parts: seq<string>, x: string)
    requires |parts| >= 1
    ensures Implode(sep, parts + [x]) == Implode(sep, parts) + [sep] + x
    decreases |parts|
  {
    if |parts| > 1 {
      ImplodeSnoc(sep, parts[1..], x);
      assert (parts + [x])[1..] == parts[1..] + [x];
    } else {
      assert (parts + [x])[1..] == [x];
    }
  }

  /** Joining the pieces of explode with the same delimiter gives the string back. */
  lemma {:induction false} ImplodeExplode(sep: char, s: string)
    ensures Implode(sep, Explode(sep, s)) == s
    decreases |s|
  {
    if s != [] {
      var rest := Explode(sep, s[1..]);
      ImplodeExplode(sep, s[1..]);
      if s[0] == sep {
        assert ([[]] + rest)[1..] == rest;
      } else {
        ImplodeCons(sep, s[0], rest[0], rest[1..]);
        assert [rest[0]] + rest[1..] == rest;
      }
    }
  }

  /** Splitting a join of delimiter-free pieces gives the pieces back. */
  lemma {:induction false} ExplodeImplode(sep: char, parts: seq<string>)
    requires |parts| >= 1
    requires forall k :: 0 <= k < |parts| ==> sep !in parts[k]
    ensures Explode(sep, Implode(sep, parts)) == parts
    decreases |parts|, |parts[0]|
  {
    if |parts[0]| > 0 {
      var c := parts[0][0];
      var shorter := [parts[0][1..]] + parts[1..];
      assert [c] + parts[0][1..] == parts[0];
      ImplodeCons(sep, c, parts[0][1..], parts[1..]);
      assert Implode(sep, parts) == [c] + Implode(sep, shorter);
      ExplodeImplode(sep, shorter);
      assert ([c] + Implode(sep, shorter))[1..] == Implode(sep, shorter);
      assert shorter[0] == parts[0][1..];
      assert shorter[1..] == parts[1..];
    } else if |parts| > 1 {
      assert Implode(sep, parts) == [sep] + Implode(sep, parts[1..]);
      ExplodeImplode(sep, parts[1..]);
      assert ([sep] + Implode(sep, parts[1..]))[1..] == Implode(sep, parts[1..]);
      assert parts == [[]] + parts[1..];
    }
  }

  // ---------------------------------------------------------------------------
  // str_replace

  /** str_replace(search, replace, s): every non-overlapping occurrence, scanned left to right. */
  function StrReplace(search: string, replace: string, s: string): string
    decreases |s|
  {
    if search == [] || |s| < |search| then s
    else if s[..|search|] == search then replace + StrReplace(search, replace, s[|search|..])
    else [s[0]] + StrReplace(search, replace, s[1..])
  }

  /** A string that does not contain the first character of `search` is left as it is. */
  lemma {:induction false} StrReplaceAbsent(search: string, replace: string, s: string)
    requires search != [] && search[0] !in s
    ensures StrReplace(search, replace, s) == s
    decreases |s|
  {
    if |s| >= |search| {
      assert s[..|search|][0] == s[0];
      StrReplaceAbsent(search, replace, s[1..]);
      assert [s[0]] + s[1..] == s;
    }
  }

  /** Text before the first character of `search` can occur passes through unchanged. */
  lemma {:induction false} StrReplaceSkip(search: string, replace: string, t: string, u: string)
    requires search != [] && search[0] !in t
    ensures StrReplace(search, replace, t + u) == t + StrReplace(search, replace, u)
    decreases |t|
  {
    if t != [] {
      var s := t + u;
      if |s| >= |search| {
        assert t[0] != search[0];
        assert s[..|search|][0] == t[0];
        assert s[1..] == t[1..] + u;
        StrReplaceSkip(search, replace, t[1..], u);
        assert StrReplace(search, replace, s) == [t[0]] + StrReplace(search, replace, s[1..]);
        assert [t[0]] + t[1..] == t;
      } else {
        StrReplaceShort(search, replace, u);
        StrReplaceShort(search, replace, s);
        assert StrReplace(search, replace, s) == t + StrReplace(search, replace, u);
      }
    } else {
      assert t + u == u;
    }
  }

  lemma StrReplaceShort(search: string, replace: string, s: string)
    requires |s| < |search|
    ensures StrReplace(search, replace, s) == s
  {
  }

  /** An occurrence of `search` at the front is replaced. */
  lemma StrReplaceMatch(search: string, replace: string, u: string)
    requires search != []
    ensures StrReplace(search, replace, search + u) == replace + StrReplace(search, replace, u)
  {
    assert (search + u)[..|search|] == search;
    assert (search + u)[|search|..] == u;
  }

  /** A token that begins like `search` but differs from it within its own length, and holds no other start of `search`, passes through. */
  lemma StrReplaceMismatch(search: string, replace: string, x: string, u: string, i: nat)
    requires search != [] && x != [] && x[0] == search[0] && search[0] !in x[1..]
    requires 0 < i < |x| && i < |search| && x[i] != search[i]
    ensures StrReplace(search, replace, x + u) == x + StrReplace(search, replace, u)
  {
    var s := x + u;
    if |s| >= |search| {
      assert s[i] == x[i];
      assert s[..|search|] != search by {
        assert s[..|search|][i] == s[i];
      }
      assert s[1..] == x[1..] + u;
      StrReplaceSkip(search, replace, x[1..], u);
      assert StrReplace(search, replace, s) == [x[0]] + StrReplace(search, replace, s[1..]);
      assert [x[0]] + x[1..] == x;
    } else {
      StrReplaceShort(search, replace, u);
    }
  }

  /** Replacing a one-character search by a one-character replacement is explode followed by implode. */
  lemma {:induction false} StrReplaceCharIsImplodeExplode(a: char, b: char, s: string)
    ensures StrReplace([a], [b], s) == Implode(b, Explode(a, s))
    decreases |s|
  {
    if s != [] {
      var rest := Explode(a, s[1..]);
      StrReplaceCharIsImplodeExplode(a, b, s[1..]);
      if s[0] == a {
        assert s[..1] == [a];
        assert ([[]] + rest)[1..] == rest;
      } else {
        assert s[..1] != [a];
        ImplodeCons(b, s[0], rest[0], rest[1..]);
        assert [rest[0]] + rest[1..] == rest;
      }
    }
  }

  // ---------------------------------------------------------------------------
  // check_plain

  function EscapeChar(c: char): string {
    match c
    case '&' => "&amp;"
    case '"' => "&quot;"
    case '\'' => "&#039;"
    case '<' => "&lt;"
    case '>' => "&gt;"
    case _ => [c]
  }

  /** check_plain: htmlspecialchars with ENT_QUOTES, character by character. */
  function CheckPlain(s: string): (r: string)
    ensures forall k :: 0 <= k < |r| ==> r[k] !in "\"'<>"
    ensures |r| >= |s|
    decreases |s|
  {
    if s == [] then [] else EscapeChar(s[0]) + CheckPlain(s[1..])
  }

  // ---------------------------------------------------------------------------
  // array_unique over a list of strings

  predicate NoDups<T(==)>(s: seq<T>) {
    forall i, j :: 0 <= i < j < |s| ==> s[i] != s[j]
  }

  /** array_unique: the first occurrence of every element, in order. */
  function Dedup<T(==)>(s: seq<T>): (r: seq<T>)
    ensures NoDups(r)
    ensures forall k :: 0 <= k < |r| ==> r[k] in s
    ensures forall k :: 0 <= k < |s| ==> s[k] in r
    ensures |r| <= |s|
    decreases |s|
  {
    if s == [] then []
    else
      var d := Dedup(s[..|s| - 1]);
      if s[|s| - 1] in d then d else d + [s[|s| - 1]]
  }

  lemma DedupMembers<T>(s: seq<T>, x: T)
    ensures x in Dedup(s) <==> x in s
  {
    var d := Dedup(s);
    if x in d {
      var k :| 0 <= k < |d| && d[k] == x;
    }
    if x in s {
      var k :| 0 <= k < |s| && s[k] == x;
    }
  }

  lemma {:induction false} DedupOfNoDups<T>(s: seq<T>)
    requires NoDups(s)
    ensures Dedup(s) == s
    decreases |s|
  {
    if s != [] {
      DedupOfNoDups(s[..|s| - 1]);
      assert s[|s| - 1] !in s[..|s| - 1];
      assert s[..|s| - 1] + [s[|s| - 1]] == s;
    }
  }

  /** Deduplicating a concatenation keeps the deduplicated left part as its prefix. */
  lemma {:induction false} DedupAppendPrefix<T>(a: seq<T>, b: seq<T>)
    ensures |Dedup(a)| <= |Dedup(a + b)| && Dedup(a + b)[..|Dedup(a)|] == Dedup(a)
    decreases |b|
  {
    if b == [] {
      assert a + b == a;
    } else {
      var b' := b[..|b| - 1];
      assert (a + b)[..|a + b| - 1] == a + b';
      DedupAppendPrefix(a, b');
    }
  }

  /** Elements of a list are all truthy strings. */
  predicate AllTruthy(s: seq<string>) {
    forall k :: 0 <= k < |s| ==> Truthy(s[k])
  }

  /** array_filter on a list of strings: the truthy ones, in order. */
  function FilterTruthy(s: seq<string>): (r: seq<string>)
    ensures AllTruthy(r)
    ensures forall x :: x in r <==> x in s && Truthy(x)
    decreases |s|
  {
    if s == [] then []
    else if Truthy(s[0]) then [s[0]] + FilterTruthy(s[1..])
    else FilterTruthy(s[1..])
  }

  /** `a` is `b` with some elements left out, the rest in their original order. */
  predicate IsSubsequence<T(==)>(a: seq<T>, b: seq<T>)
    decreases |b|
  {
    a == [] || (b != [] && ((a[0] == b[0] && IsSubsequence(a[1..], b[1..])) || IsSubsequence(a, b[1..])))
  }

  lemma {:induction false} SubsequenceOfSelf<T>(s: seq<T>)
    ensures IsSubsequence(s, s)
    decreases |s|
  {
    if s != [] {
      SubsequenceOfSelf(s[1..]);
    }
  }
}
