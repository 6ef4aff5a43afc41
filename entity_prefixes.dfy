/**
 * The pure parts of AlphaPagination::getEntityPrefixes
 * (src/AlphaPagination.php): which column of which table the first
 * characters are read from, and how the rows the query returns become the
 * list of prefixes. The query itself is not part of this model; its rows
 * are an input.
 */
module EntityPrefixes {
  import opened PhpStrings

  /** The column the prefixes are read from, its table, and the column the entity ids are matched against. */
  datatype PrefixSource = PrefixSource(field: string, table: string, where: string)

  /**
   * The switch on 'paginate_view_field'. For 'name' and 'title' the column
   * comes from the base table, under the property's schema field when the
   * entity property info declares one (`schemaFields`). Any other value
   * names a field: a simple one stores its value in `<field>_value`, a
   * compound `field:column` one in `field_column`, both in
   * `field_data_<field>`, matched on entity_id.
   */
  function SourceFor(viewField: string, baseTable: string, baseField: string, schemaFields: map<string, string>): (r: PrefixSource)
    ensures viewField in {"name", "title"} ==>
      r.table == baseTable && r.where == baseField &&
      r.field == (if viewField in schemaFields then schemaFields[viewField] else viewField)
    ensures viewField !in {"name", "title"} ==> r.where == "entity_id"
    ensures viewField !in {"name", "title"} && ':' !in viewField ==>
      r.field == viewField + "_value" && r.table == "field_data_" + viewField
    ensures viewField !in {"name", "title"} && ':' in viewField ==>
      r.field == Implode('_', Explode(':', viewField)) && r.table == "field_data_" + Explode(':', viewField)[0]
  {
    StrPosChar(viewField, ':');
    if viewField == "name" || viewField == "title" then
      PrefixSource(if viewField in schemaFields then schemaFields[viewField] else viewField, baseTable, baseField)
    else if StrPos(viewField, ":").None? then
      PrefixSource(viewField + "_value", "field_data_" + viewField, "entity_id")
    else
      StrReplaceCharIsImplodeExplode(':', '_', viewField);
      PrefixSource(StrReplace(":", "_", viewField), "field_data_" + Explode(':', viewField)[0], "entity_id")
  }

  /**
   * For a field, the table is `field_data_` followed by the field's name,
   * and the column is that name, an underscore and the column part; the
   * column never keeps a colon.
   */
  lemma {:induction false} FieldColumnInTable(viewField: string, baseTable: string, baseField: string, schemaFields: map<string, string>)
    requires viewField !in {"name", "title"}
    ensures var r := SourceFor(viewField, baseTable, baseField, schemaFields);
      exists name: string :: r.table == "field_data_" + name && |name| < |r.field| && r.field[..|name| + 1] == name + "_" && ':' !in name
    ensures ':' !in SourceFor(viewField, baseTable, baseField, schemaFields).field
  {
    var r := SourceFor(viewField, baseTable, baseField, schemaFields);
    StrPosChar(viewField, ':');
    if ':' !in viewField {
      assert r.field[..|viewField| + 1] == viewField + "_";
      assert forall k :: 0 <= k < |r.field| ==> r.field[k] != ':' by {
        forall k | 0 <= k < |r.field| ensures r.field[k] != ':' {
          if k < |viewField| {
            assert r.field[k] == viewField[k];
          }
        }
      }
    } else {
      var parts := Explode(':', viewField);
      ImplodeLacks('_', parts, ':');
      var tail := Implode('_', parts[1..]);
      assert r.field == parts[0] + "_" + tail;
      assert r.field[..|parts[0]| + 1] == parts[0] + "_";
    }
  }

  /** A row's prefix as collected: kept when is_numeric (for a one-character string, a digit), else upper-cased. */
  function Normalize(row: string, upper: string -> string): string {
    if IsDigitString(row) then row else upper(row)
  }

  function NormalizeAll(rows: seq<string>, upper: string -> string): (r: seq<string>)
    ensures |r| == |rows|
    ensures forall k :: 0 <= k < |rows| ==> r[k] == Normalize(rows[k], upper)
  {
    seq(|rows|, k requires 0 <= k < |rows| => Normalize(rows[k], upper))
  }

  /**
   * No query runs without entity ids. Otherwise each row is collected,
   * then array_filter drops "" and "0", and array_unique keeps the first
   * of each: the prefixes are distinct, truthy, and exactly the truthy
   * normalized rows.
   */
  method CollectPrefixes(entityIds: seq<string>, rows: seq<string>, upper: string -> string) returns (prefixes: seq<string>)
    ensures entityIds == [] ==> prefixes == []
    ensures entityIds != [] ==> prefixes == Dedup(FilterTruthy(NormalizeAll(rows, upper)))
    ensures NoDups(prefixes) && AllTruthy(prefixes)
    ensures entityIds != [] ==> forall k :: 0 <= k < |rows| && Truthy(Normalize(rows[k], upper)) ==> Normalize(rows[k], upper) in prefixes
    ensures forall x :: x in prefixes ==> exists k :: 0 <= k < |rows| && x == Normalize(rows[k], upper)
  {
    var collected: seq<string> := [];
    if |entityIds| > 0 {
      for i := 0 to |rows|
        invariant collected == NormalizeAll(rows[..i], upper)
      {
        collected := collected + [if IsDigitString(rows[i]) then rows[i] else upper(rows[i])];
      }
      assert rows[..|rows|] == rows;
    }
    var filtered := FilterTruthy(collected);
    prefixes := Dedup(filtered);
    forall x | x in prefixes ensures exists k :: 0 <= k < |rows| && x == Normalize(rows[k], upper) {
      DedupMembers(filtered, x);
      var k :| 0 <= k < |collected| && collected[k] == x;
    }
    if entityIds != [] {
      forall k | 0 <= k < |rows| && Truthy(Normalize(rows[k], upper)) ensures Normalize(rows[k], upper) in prefixes {
        assert collected[k] in collected;
        DedupMembers(filtered, collected[k]);
      }
    }
    forall k | 0 <= k < |prefixes| ensures Truthy(prefixes[k]) {
      assert prefixes[k] in filtered;
    }
  }

  /** A digit row other than "0" becomes a prefix as it is, without upper-casing. */
  lemma DigitRowKept(entityIds: seq<string>, rows: seq<string>, upper: string -> string, prefixes: seq<string>, k: nat)
    requires entityIds != [] && prefixes == Dedup(FilterTruthy(NormalizeAll(rows, upper)))
    requires k < |rows| && IsDigitString(rows[k]) && rows[k] != "0"
    ensures rows[k] in prefixes
  {
    var normalized := NormalizeAll(rows, upper);
    assert normalized[k] == rows[k];
    DedupMembers(FilterTruthy(normalized), rows[k]);
  }

  /** Since "0" is falsy, an entity whose label starts with the digit 0 never yields the prefix "0". */
  lemma ZeroNeverAPrefix(entityIds: seq<string>, rows: seq<string>, upper: string -> string, prefixes: seq<string>)
    requires entityIds != [] && prefixes == Dedup(FilterTruthy(NormalizeAll(rows, upper)))
    ensures "0" !in prefixes
  {
    var filtered := FilterTruthy(NormalizeAll(rows, upper));
    DedupMembers(filtered, "0");
  }
}
