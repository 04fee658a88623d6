/**
 * The administration form (NegotiationHeaderForm): turning submitted rows
 * into the stored mapping table, and the rows it pre-fills from that table.
 */
module Form {
  import opened Wrappers
  import opened PhpStrings
  import opened MappingTable

  /**
   * One submitted row: header_name, header_value and drupal_langcode. A field
   * missing from the submission is None.
   */
  datatype Row = Row(headerName: Option<string>, headerValue: Option<string>, langcode: string)

  /** A submitted field as trim() sees it: a missing field reads as "". */
  function FieldText(v: Option<string>): string {
    if v.None? then "" else v.value
  }

  /**
   * getMappingKey(): FALSE (None) when header_name is empty() before any
   * trimming, otherwise "trim(name):trim(value)".
   */
  function MappingKey(row: Row): (key: Option<string>)
    ensures key.None? <==> IsEmpty(row.headerName)
    ensures IsEmpty(key) <==> IsEmpty(row.headerName)
    ensures key.Some? ==> ':' in key.value
  {
    if IsEmpty(row.headerName) then None
    else
      var key := Trim(row.headerName.value) + ":" + Trim(FieldText(row.headerValue));
      assert key[|Trim(row.headerName.value)|] == ':';
      Some(key)
  }

  /** Splitting a produced key gives back the trimmed name and value when neither holds ':'. */
  lemma MappingKeyRoundTrip(row: Row)
    requires !IsEmpty(row.headerName)
    requires ':' !in Trim(row.headerName.value) && ':' !in Trim(FieldText(row.headerValue))
    ensures MappingKey(row).Some?
    ensures SplitKey(MappingKey(row).value) == (Trim(row.headerName.value), Trim(FieldText(row.headerValue)))
  {
    SplitJoinedKey(Trim(row.headerName.value), Trim(FieldText(row.headerValue)));
  }

  /**
   * The emptiness check runs before trimming: a name of trim characters only
   * is accepted and yields a key that starts with ':'.
   */
  lemma BlankNameAccepted(row: Row)
    requires row.headerName.Some? && row.headerName.value != ""
    requires AllTrimChars(row.headerName.value)
    ensures MappingKey(row) == Some(":" + Trim(FieldText(row.headerValue)))
  {
    assert IsTrimChar(row.headerName.value[0]);
    TrimAllTrimChars(row.headerName.value);
    assert "" + ":" + Trim(FieldText(row.headerValue)) == ":" + Trim(FieldText(row.headerValue));
  }

  /**
   * The array the two foreach loops of submitForm() build: rows in order,
   * each row with a key assigning its langcode to that key, so that a later
   * row overwrites an earlier one with the same key.
   */
  function Collected(rows: seq<Row>): map<string, string>
  {
    if rows == [] then map[]
    else
      var m := Collected(rows[..|rows| - 1]);
      var last := rows[|rows| - 1];
      match MappingKey(last)
      case None => m
      case Some(k) => m[k := last.langcode]
  }

  /** Collecting one more row that has a key assigns its langcode to that key. */
  lemma CollectedSnoc(rows: seq<Row>, row: Row)
    ensures MappingKey(row).Some? ==> Collected(rows + [row]) == Collected(rows)[MappingKey(row).value := row.langcode]
    ensures MappingKey(row).None? ==> Collected(rows + [row]) == Collected(rows)
  {
    assert (rows + [row])[..|rows|] == rows;
  }

  /** The keys collected are exactly the keys the rows produce. */
  lemma {:induction false} CollectedKeys(rows: seq<Row>, k: string)
    ensures k in Collected(rows) <==> exists i :: 0 <= i < |rows| && MappingKey(rows[i]) == Some(k)
  {
    if rows != [] {
      var init := rows[..|rows| - 1];
      CollectedKeys(init, k);
      assert forall i :: 0 <= i < |init| ==> init[i] == rows[i];
    }
  }

  /** Every key of a saved table holds ':', as the negotiator needs to split it. */
  lemma SavedTableKeyed(t: Table, rows: seq<Row>)
    requires ToMap(t) == Collected(rows)
    ensures KeyedTable(t)
  {
    ToMapHasAll(t);
    forall i | 0 <= i < |t| ensures ':' in t[i].key {
      CollectedKeys(rows, t[i].key);
    }
  }

  /** Last write wins: a key takes the langcode of the last row that produces it. */
  lemma {:induction false} LastWriteWins(rows: seq<Row>, i: int)
    requires 0 <= i < |rows| && MappingKey(rows[i]).Some?
    requires forall j :: i < j < |rows| ==> MappingKey(rows[j]) != MappingKey(rows[i])
    ensures MappingKey(rows[i]).value in Collected(rows)
    ensures Collected(rows)[MappingKey(rows[i]).value] == rows[i].langcode
  {
    if i < |rows| - 1 {
      var init := rows[..|rows| - 1];
      assert init[i] == rows[i];
      LastWriteWins(init, i);
    }
  }

  /** A row whose name is empty() contributes nothing, wherever it stands. */
  lemma {:induction false} DroppedRowIgnored(before: seq<Row>, row: Row, after: seq<Row>)
    requires IsEmpty(row.headerName)
    ensures Collected(before + [row] + after) == Collected(before + after)
  {
    if after == [] {
      assert before + [row] + after == before + [row];
      assert before + after == before;
      CollectedSnoc(before, row);
    } else {
      var init := after[..|after| - 1];
      var last := after[|after| - 1];
      DroppedRowIgnored(before, row, init);
      assert before + [row] + after == (before + [row] + init) + [last];
      assert before + after == (before + init) + [last];
      CollectedSnoc(before + [row] + init, last);
      CollectedSnoc(before + init, last);
    }
  }

  /** The row buildForm() pre-fills for one stored entry: its key split back into name and value. */
  function EditRow(e: Entry): Row
    requires ':' in e.key
  {
    var (name, value) := SplitKey(e.key);
    Row(Some(name), Some(value), e.langcode)
  }

  /** The rows buildForm() pre-fills, one per stored entry in stored order. */
  function EditRows(t: Table): (rows: seq<Row>)
    requires KeyedTable(t)
    ensures |rows| == |t|
    ensures forall i :: 0 <= i < |t| ==> rows[i] == EditRow(t[i])
  {
    if t == [] then [] else EditRows(t[..|t| - 1]) + [EditRow(t[|t| - 1])]
  }

  /**
   * A key survives being shown in the form and submitted unchanged: its
   * split re-encodes to itself.
   */
  ghost predicate StableKey(key: string)
    requires ':' in key
  {
    MappingKey(EditRow(Entry(key, ""))) == Some(key)
  }

  /** The pre-filled row of an entry with a stable key produces that key again. */
  lemma EditRowKey(e: Entry)
    requires ':' in e.key && StableKey(e.key)
    ensures MappingKey(EditRow(e)) == Some(e.key)
  {
    assert EditRow(e).headerName == EditRow(Entry(e.key, "")).headerName;
    assert EditRow(e).headerValue == EditRow(Entry(e.key, "")).headerValue;
  }

  /**
   * Submitting the pre-filled rows unchanged, with an empty new row,
   * collects the stored table again when every key is stable.
   */
  lemma {:induction false} ResubmitKeepsTable(t: Table, newRow: Row)
    requires UniqueKeys(t) && KeyedTable(t) && forall i :: 0 <= i < |t| ==> StableKey(t[i].key)
    requires IsEmpty(newRow.headerName)
    ensures Collected(EditRows(t) + [newRow]) == ToMap(t)
  {
    DroppedRowIgnored(EditRows(t), newRow, []);
    assert EditRows(t) + [newRow] + [] == EditRows(t) + [newRow];
    assert EditRows(t) + [] == EditRows(t);
    CollectEditRows(t);
  }

  lemma {:induction false} CollectEditRows(t: Table)
    requires UniqueKeys(t) && KeyedTable(t) && forall i :: 0 <= i < |t| ==> StableKey(t[i].key)
    ensures Collected(EditRows(t)) == ToMap(t)
  {
    if t != [] {
      var init := t[..|t| - 1];
      var last := t[|t| - 1];
      assert forall i :: 0 <= i < |init| ==> init[i] == t[i];
      CollectEditRows(init);
      EditRowKey(last);
      CollectedSnoc(EditRows(init), EditRow(last));
      ToMapSnoc(t);
    }
  }

  /** A key built from a name and value that trim to colon-free text other than "" and "0" is stable. */
  lemma ProducedKeyStable(row: Row)
    requires MappingKey(row).Some?
    requires Trim(row.headerName.value) != "" && Trim(row.headerName.value) != "0"
    requires ':' !in Trim(row.headerName.value) && ':' !in Trim(FieldText(row.headerValue))
    ensures StableKey(MappingKey(row).value)
  {
    var name, value := Trim(row.headerName.value), Trim(FieldText(row.headerValue));
    MappingKeyRoundTrip(row);
    TrimIdempotent(row.headerName.value);
    TrimIdempotent(FieldText(row.headerValue));
  }

  /** A value holding ':' is cut at it when the stored key is split again. */
  lemma ColonInValueTruncated(row: Row, head: string, rest: string)
    requires !IsEmpty(row.headerName) && ':' !in Trim(row.headerName.value)
    requires Trim(FieldText(row.headerValue)) == head + ":" + rest && ':' !in head
    ensures SplitKey(MappingKey(row).value) == (Trim(row.headerName.value), head)
  {
    var name := Trim(row.headerName.value);
    assert MappingKey(row).value == name + ":" + head + ":" + rest;
    SplitDropsAfterSecondColon(name, head, rest);
  }

  class NegotiationHeaderForm {
    /** The `map` of config object language_header.mappings; None while that config is new. */
    var config: Option<Table>

    constructor (config: Option<Table>)
      ensures this.config == config
    {
      this.config := config;
    }

    /** getMappings(): the empty array for a new config, the stored map otherwise. */
    function GetMappings(): (t: Table)
      reads this
      ensures config.None? ==> t == []
      ensures config.Some? ==> t == config.value
    {
      if config.None? then [] else config.value
    }

    /**
     * submitForm(): collects the existing rows and then the new-mapping row,
     * sorts the result by key and saves it, unless it is empty.
     */
    method SubmitForm(mappings: seq<Row>, newMapping: Row)
      modifies this
      ensures var m := Collected(mappings + [newMapping]);
        if m == map[] then config == old(config)
        else config.Some? && StrictlySorted(GetMappings()) && ToMap(GetMappings()) == m
    {
      var result: Table := [];
      for i := 0 to |mappings|
        invariant UniqueKeys(result)
        invariant ToMap(result) == Collected(mappings[..i])
      {
        assert mappings[..i + 1][..i] == mappings[..i];
        var key := MappingKey(mappings[i]);
        if key.Some? {
          result := Put(result, key.value, mappings[i].langcode);
        }
      }
      assert mappings[..|mappings|] == mappings;
      assert (mappings + [newMapping])[..|mappings|] == mappings;
      var newKey := MappingKey(newMapping);
      if newKey.Some? {
        result := Put(result, newKey.value, newMapping.langcode);
      }
      if result != [] {
        ToMapHasAll(result);
        result := KSort(result);
        config := Some(result);
      }
    }
  }
}
