/**
 * The text rewrite AlphaPagination::getEntityIds (src/AlphaPagination.php)
 * applies to the view's query before running it: a glossary SUBSTRING
 * condition is short-circuited with " 1 OR ", a trailing LIMIT line is
 * dropped, and four HTML entities are decoded. Running the query is not
 * part of this model.
 */
module QueryRewrite {
  import opened PhpStrings

  /** The text strpos looks for on each line. */
  const Needle: string := "SUBSTRING"

  /** The text inserted before it. */
  const Shortcut: string := " 1 OR "

  /**
   * One line after the loop body: when SUBSTRING first occurs at a position
   * other than 0, " 1 OR " goes right before that occurrence. strpos
   * returning 0 is falsy, so a line that starts with SUBSTRING is kept.
   */
  function PatchLine(line: string): string {
    match StrPos(line, Needle)
    case Some(pos) => if pos > 0 then line[..pos] + Shortcut + line[pos..] else line
    case None => line
  }

  /** The patch in terms of where SUBSTRING occurs. */
  lemma PatchLineCases(line: string)
    ensures OccursAt(line, Needle, 0) ==> PatchLine(line) == line
    ensures (forall j :: 0 <= j ==> !OccursAt(line, Needle, j)) ==> PatchLine(line) == line
    ensures forall pos: nat :: 0 < pos && OccursAt(line, Needle, pos) && (forall j :: 0 <= j < pos ==> !OccursAt(line, Needle, j)) ==>
      PatchLine(line) == line[..pos] + Shortcut + line[pos..]
  {
  }

  /**
   * A patched line is the original with " 1 OR " inserted right before the
   * first SUBSTRING, which now follows it; no line break is introduced.
   */
  lemma PatchLineShape(line: string)
    ensures PatchLine(line) == line ||
      exists pos :: 0 < pos <= |line| &&
        PatchLine(line) == line[..pos] + Shortcut + line[pos..] &&
        OccursAt(PatchLine(line), Needle, pos + |Shortcut|)
    ensures '\n' !in line ==> '\n' !in PatchLine(line)
  {
    match StrPos(line, Needle)
    case Some(pos) =>
      if pos > 0 {
        var r := line[..pos] + Shortcut + line[pos..];
        assert r[pos + |Shortcut|..pos + |Shortcut| + |Needle|] == line[pos..pos + |Needle|];
        if '\n' !in line {
          forall k | 0 <= k < |r| ensures r[k] != '\n' {
            if k >= pos + |Shortcut| {
              assert r[k] == line[k - |Shortcut|];
            } else if k < pos {
              assert r[k] == line[k];
            }
          }
        }
      }
    case None =>
  }

  /** Every line patched. */
  function PatchAll(lines: seq<string>): (r: seq<string>)
    ensures |r| == |lines|
    ensures forall k :: 0 <= k < |lines| ==> r[k] == PatchLine(lines[k])
  {
    seq(|lines|, k requires 0 <= k < |lines| => PatchLine(lines[k]))
  }

  /** The lines without the last one when its first five characters are "LIMIT". */
  function DropLimit(lines: seq<string>): (r: seq<string>)
    requires |lines| >= 1
    ensures |r| == |lines| - 1 <==> StartsWith(lines[|lines| - 1], "LIMIT")
    ensures |r| == |lines| <==> !StartsWith(lines[|lines| - 1], "LIMIT")
    ensures forall k :: 0 <= k < |r| ==> r[k] == lines[k]
  {
    if StartsWith(lines[|lines| - 1], "LIMIT") then lines[..|lines| - 1] else lines
  }

  /** The four str_replace calls, in order. */
  function Unescape(s: string): string {
    var s1 := StrReplace("&#039;", "'", s);
    var s2 := StrReplace("&amp;", "&", s1);
    var s3 := StrReplace("&lt;", "<", s2);
    StrReplace("&gt;", ">", s3)
  }

  /** Text without an ampersand passes through the decoding unchanged. */
  lemma UnescapeWithoutAmpersand(s: string)
    requires '&' !in s
    ensures Unescape(s) == s
  {
    StrReplaceAbsent("&#039;", "'", s);
    StrReplaceAbsent("&amp;", "&", s);
    StrReplaceAbsent("&lt;", "<", s);
    StrReplaceAbsent("&gt;", ">", s);
  }

  /** The lines patched, the LIMIT line dropped, joined again. */
  function Joined(query: string): string {
    Implode('\n', DropLimit(PatchAll(Explode('\n', query))))
  }

  /** The rewritten query, before it is run. */
  function Rewritten(query: string): string {
    Unescape(Joined(query))
  }

  /**
   * The loop of getEntityIds over the query's lines, then the LIMIT check,
   * the join and the decoding: exactly `Rewritten`.
   */
  method RewriteQuery(query: string) returns (r: string)
    ensures r == Rewritten(query)
  {
    var parts := Explode('\n', query);
    ghost var original := parts;
    for k := 0 to |parts|
      invariant |parts| == |original|
      invariant forall j :: 0 <= j < k ==> parts[j] == PatchLine(original[j])
      invariant forall j :: k <= j < |parts| ==> parts[j] == original[j]
    {
      var position := StrPos(parts[k], Needle);
      if position.Some? && position.value > 0 {
        var part := parts[k][..position.value] + Shortcut + parts[k][position.value..];
        assert part == PatchLine(original[k]);
        parts := parts[k := part];
      } else {
        assert parts[k] == PatchLine(original[k]);
      }
    }
    assert parts == PatchAll(original);
    ghost var patched := parts;
    var lastLine := parts[|parts| - 1];
    parts := parts[..|parts| - 1];
    if !StartsWith(lastLine, "LIMIT") {
      parts := parts + [lastLine];
      assert parts == patched;
    }
    assert parts == DropLimit(patched);
    var q := Implode('\n', parts);
    q := StrReplace("&#039;", "'", q);
    q := StrReplace("&amp;", "&", q);
    q := StrReplace("&lt;", "<", q);
    q := StrReplace("&gt;", ">", q);
    r := q;
  }

  /**
   * The lines of the joined query, before decoding, are the original lines
   * patched, with at most the last one removed: splitting the join gives
   * them back.
   */
  lemma {:induction false} RewrittenLines(query: string)
    ensures var lines := Explode('\n', query);
      var kept := DropLimit(PatchAll(lines));
      && (|kept| == |lines| || |kept| == |lines| - 1)
      && (forall k :: 0 <= k < |kept| ==> kept[k] == PatchLine(lines[k]))
      && (|kept| >= 1 ==> Explode('\n', Implode('\n', kept)) == kept)
  {
    var lines := Explode('\n', query);
    var kept := DropLimit(PatchAll(lines));
    forall k | 0 <= k < |kept| ensures '\n' !in kept[k] {
      PatchLineShape(lines[k]);
    }
    if |kept| >= 1 {
      ExplodeImplode('\n', kept);
    }
  }

  /** Lines the patch leaves alone stay as they are. */
  lemma PatchAllUnchanged(lines: seq<string>)
    requires forall line :: line in lines ==> PatchLine(line) == line
    ensures PatchAll(lines) == lines
  {
    var patched := PatchAll(lines);
    forall k | 0 <= k < |lines| ensures patched[k] == lines[k] {
      assert lines[k] in lines;
    }
  }

  /** Without a line to patch and without a final LIMIT line, the lines are joined back into the query itself. */
  lemma JoinedUntouched(query: string)
    requires forall line :: line in Explode('\n', query) ==> PatchLine(line) == line
    requires !StartsWith(Explode('\n', query)[|Explode('\n', query)| - 1], "LIMIT")
    ensures Joined(query) == query
  {
    var lines := Explode('\n', query);
    PatchAllUnchanged(lines);
    KeepLastLine(lines);
    assert Joined(query) == Implode('\n', lines);
    ImplodeExplode('\n', query);
  }

  lemma KeepLastLine(lines: seq<string>)
    requires |lines| >= 1 && !StartsWith(lines[|lines| - 1], "LIMIT")
    ensures DropLimit(lines) == lines
  {
  }

  /** A query with no ampersand, no SUBSTRING past the start of a line and no final LIMIT line comes out unchanged. */
  lemma UntouchedQuery(query: string)
    requires '&' !in query
    requires forall line :: line in Explode('\n', query) ==> PatchLine(line) == line
    requires !StartsWith(Explode('\n', query)[|Explode('\n', query)| - 1], "LIMIT")
    ensures Rewritten(query) == query
  {
    JoinedUntouched(query);
    UnescapeWithoutAmpersand(query);
  }

  /** One character escaped by check_plain in front of any text: the decoding gives the character back. */
  lemma UnescapeEscaped(c: char, t: string)
    requires c != '&' && c != '"'
    ensures Unescape(EscapeChar(c) + t) == [c] + Unescape(t)
  {
    if c == '\'' {
      UnescapeApostrophe(t);
    } else if c == '<' {
      UnescapeLess(t);
    } else if c == '>' {
      UnescapeGreater(t);
    } else {
      assert EscapeChar(c) == [c];
      var r1 := StrReplace("&#039;", "'", t);
      var r2 := StrReplace("&amp;", "&", r1);
      var r3 := StrReplace("&lt;", "<", r2);
      StrReplaceSkip("&#039;", "'", [c], t);
      StrReplaceSkip("&amp;", "&", [c], r1);
      StrReplaceSkip("&lt;", "<", [c], r2);
      StrReplaceSkip("&gt;", ">", [c], r3);
    }
  }

  lemma UnescapeApostrophe(t: string)
    ensures Unescape("&#039;" + t) == "'" + Unescape(t)
  {
    var r1 := StrReplace("&#039;", "'", t);
    var r2 := StrReplace("&amp;", "&", r1);
    var r3 := StrReplace("&lt;", "<", r2);
    StrReplaceMatch("&#039;", "'", t);
    StrReplaceSkip("&amp;", "&", "'", r1);
    StrReplaceSkip("&lt;", "<", "'", r2);
    StrReplaceSkip("&gt;", ">", "'", r3);
  }

  lemma UnescapeLess(t: string)
    ensures Unescape("&lt;" + t) == "<" + Unescape(t)
  {
    var r1 := StrReplace("&#039;", "'", t);
    var r2 := StrReplace("&amp;", "&", r1);
    var r3 := StrReplace("&lt;", "<", r2);
    StrReplaceMismatch("&#039;", "'", "&lt;", t, 1);
    StrReplaceMismatch("&amp;", "&", "&lt;", r1, 1);
    StrReplaceMatch("&lt;", "<", r2);
    StrReplaceSkip("&gt;", ">", "<", r3);
  }

  lemma UnescapeGreater(t: string)
    ensures Unescape("&gt;" + t) == ">" + Unescape(t)
  {
    var r1 := StrReplace("&#039;", "'", t);
    var r2 := StrReplace("&amp;", "&", r1);
    var r3 := StrReplace("&lt;", "<", r2);
    StrReplaceMismatch("&#039;", "'", "&gt;", t, 1);
    StrReplaceMismatch("&amp;", "&", "&gt;", r1, 1);
    StrReplaceMismatch("&lt;", "<", "&gt;", r2, 1);
    StrReplaceMatch("&gt;", ">", r3);
  }

  /**
   * What the decoding is for: text escaped by check_plain comes back as it
   * was, single quotes included, as long as it holds no ampersand and no
   * double quote.
   */
  lemma {:induction false} UnescapeCheckPlain(s: string)
    requires '&' !in s && '"' !in s
    ensures Unescape(CheckPlain(s)) == s
    decreases |s|
  {
    if s != [] {
      UnescapeCheckPlain(s[1..]);
      assert CheckPlain(s) == EscapeChar(s[0]) + CheckPlain(s[1..]);
      UnescapeEscaped(s[0], CheckPlain(s[1..]));
      assert [s[0]] + s[1..] == s;
    }
  }

  /** The decoding is not the inverse of check_plain: a double quote stays encoded... */
  lemma QuoteStaysEncoded()
    ensures CheckPlain("\"") == "&quot;"
    ensures Unescape(CheckPlain("\"")) == "&quot;"
  {
    var s := "&quot;";
    assert CheckPlain("\"") == EscapeChar('"') + CheckPlain("");
    assert s + "" == s;
    StrReplaceMismatch("&#039;", "'", s, "", 1);
    StrReplaceMismatch("&amp;", "&", s, "", 1);
    StrReplaceMismatch("&lt;", "<", s, "", 1);
    StrReplaceMismatch("&gt;", ">", s, "", 1);
  }

  /** ...and an encoded "&lt;" is decoded twice, down to "<". */
  lemma AmpersandDecodedTwice()
    ensures CheckPlain("&lt;") == "&amp;lt;"
    ensures Unescape(CheckPlain("&lt;")) == "<"
  {
    assert CheckPlain("&lt;") == "&amp;" + "lt;" by {
      assert CheckPlain("&lt;") == EscapeChar('&') + CheckPlain("lt;");
      assert CheckPlain("lt;") == "lt;";
    }
    StrReplaceMismatch("&#039;", "'", "&amp;", "lt;", 1);
    StrReplaceAbsent("&#039;", "'", "lt;");
    StrReplaceMatch("&amp;", "&", "lt;");
    StrReplaceAbsent("&amp;", "&", "lt;");
    assert "&" + "lt;" == "&lt;" + "";
    StrReplaceMatch("&lt;", "<", "");
    StrReplaceAbsent("&gt;", ">", "<");
  }
}
