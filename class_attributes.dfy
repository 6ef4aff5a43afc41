/**
 * AlphaPagination::addClasses (src/AlphaPagination.php): merges CSS classes,
 * given as space-separated strings, into an HTML attributes array.
 * views_clean_css_identifier is a parameter, `clean`.
 */
module ClassAttributes {
  import opened PhpStrings

  /** An attributes array: its 'class' list when the key is set, and every other attribute. */
  datatype Attributes = Attributes(classes: Option<seq<string>>, others: map<string, string>)

  /** Every piece passed through the identifier cleaner, in order. */
  function Cleaned(pieces: seq<string>, clean: string -> string): (r: seq<string>)
    ensures |r| == |pieces|
    ensures forall k :: 0 <= k < |r| ==> r[k] == clean(pieces[k])
  {
    seq(|pieces|, k requires 0 <= k < |pieces| => clean(pieces[k]))
  }

  /** The non-empty, non-"0" pieces of one class string split on spaces. */
  function Pieces(s: string): (r: seq<string>)
    ensures forall k :: 0 <= k < |r| ==> Truthy(r[k]) && ' ' !in r[k]
  {
    var parts := Explode(' ', s);
    var r := FilterTruthy(parts);
    assert forall k :: 0 <= k < |r| ==> r[k] in parts;
    r
  }

  /** The classes addClasses collects from `classes`: each string's pieces, cleaned, string after string. */
  function Processed(classes: seq<string>, clean: string -> string): seq<string>
    decreases |classes|
  {
    if classes == [] then []
    else Processed(classes[..|classes| - 1], clean) + Cleaned(Pieces(classes[|classes| - 1]), clean)
  }

  /** The attributes after the merge: untouched when nothing was collected, else the old classes then the new, without repeats. */
  function WithClasses(attributes: Attributes, processed: seq<string>): Attributes {
    if processed == [] then attributes
    else
      var existing := if attributes.classes.Some? then attributes.classes.value else [];
      attributes.(classes := Some(Dedup(existing + processed)))
  }

  /**
   * addClasses($classes, &$attributes): `classes` is `(array) $classes`; the
   * updated attributes array is returned beside the unchanged classes.
   */
  method AddClasses(classes: seq<string>, attributes: Attributes, clean: string -> string)
    returns (result: seq<string>, updated: Attributes)
    ensures result == classes
    ensures updated == WithClasses(attributes, Processed(classes, clean))
  {
    var processed := [];
    for i := 0 to |classes|
      invariant processed == Processed(classes[..i], clean)
    {
      var pieces := Pieces(classes[i]);
      ghost var before := processed;
      for j := 0 to |pieces|
        invariant processed == before + Cleaned(pieces[..j], clean)
      {
        assert Cleaned(pieces[..j + 1], clean) == Cleaned(pieces[..j], clean) + [clean(pieces[j])];
        processed := processed + [clean(pieces[j])];
      }
      assert pieces[..|pieces|] == pieces;
      assert classes[..i + 1][..i] == classes[..i];
    }
    assert classes[..|classes|] == classes;
    updated := attributes;
    if processed != [] {
      var existing := if attributes.classes.Some? then attributes.classes.value else [];
      updated := attributes.(classes := Some(Dedup(existing + processed)));
    }
    result := classes;
  }

  /** Every collected class is a cleaned, non-empty, space-free piece of one of the inputs. */
  lemma {:induction false} ProcessedFromPieces(classes: seq<string>, clean: string -> string, c: string)
    requires c in Processed(classes, clean)
    ensures exists i, piece :: 0 <= i < |classes| && piece in Pieces(classes[i]) && c == clean(piece)
    decreases |classes|
  {
    var init := classes[..|classes| - 1];
    var last := Pieces(classes[|classes| - 1]);
    if c in Processed(init, clean) {
      ProcessedFromPieces(init, clean, c);
      var i, piece :| 0 <= i < |init| && piece in Pieces(init[i]) && c == clean(piece);
      assert classes[i] == init[i];
    } else {
      var k :| 0 <= k < |last| && c == Cleaned(last, clean)[k];
      assert last[k] in Pieces(classes[|classes| - 1]);
    }
  }

  /**
   * After a merge that collected something, the class list has no repeats,
   * holds exactly the old and the new classes, and begins with the old ones
   * when those had no repeats; otherwise the attributes are untouched, so no
   * 'class' key appears for an empty input.
   */
  lemma MergedClasses(attributes: Attributes, processed: seq<string>)
    ensures processed == [] ==> WithClasses(attributes, processed) == attributes
    ensures processed != [] ==> WithClasses(attributes, processed).classes.Some?
    ensures WithClasses(attributes, processed).others == attributes.others
    ensures processed != [] ==>
      var existing := if attributes.classes.Some? then attributes.classes.value else [];
      var merged := WithClasses(attributes, processed).classes.value;
      && NoDups(merged)
      && (forall c :: c in merged <==> c in existing || c in processed)
      && (NoDups(existing) ==> |existing| <= |merged| && merged[..|existing|] == existing)
  {
    if processed != [] {
      var existing := if attributes.classes.Some? then attributes.classes.value else [];
      var merged := Dedup(existing + processed);
      forall c ensures c in merged <==> c in existing || c in processed {
        if c in existing + processed {
          var k :| 0 <= k < |existing + processed| && (existing + processed)[k] == c;
        }
        if c in merged {
          var k :| 0 <= k < |merged| && merged[k] == c;
        }
      }
      if NoDups(existing) {
        DedupAppendPrefix(existing, processed);
        DedupOfNoDups(existing);
      }
    }
  }
}
