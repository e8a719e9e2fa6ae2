/**
 * The mapping logic of the backend service: reading the mapping rows
 * (parse_mapping) and building the output by column selection (transform).
 * Both take their CSV files already parsed; data row 0 is the first line
 * after the header.
 */
module Backend {
  import opened Wrappers
  import opened Tables

  /** The three rows that parse_mapping reports, each `[]` when the table is too short. */
  datatype MappingRows = MappingRows(sourceFields: Row, destinationFields: Row, customLogic: Row)

  /** Reading a data row that does not exist (positional indexing out of bounds). */
  datatype MappingError = RowOutOfBounds(row: nat)

  // ---------------------------------------------------------------------------
  // parse_mapping

  /**
   * Rows 0, 1 and 2 of the mapping, each guarded by a length test. Row k is
   * reported exactly when the mapping has more than k data rows, and then in
   * full; otherwise that entry is empty. For the source row this needs the
   * table to be rectangular: the emptiness test also fires on a table without
   * columns, whose rows are all empty anyway.
   */
  function ParseMapping(mapping: Table): (r: MappingRows)
    ensures Rectangular(mapping) ==>
      && (|mapping.rows| > 0 ==> r.sourceFields == mapping.rows[0])
      && (|mapping.rows| == 0 ==> r.sourceFields == [])
    ensures |mapping.rows| > 1 ==> r.destinationFields == mapping.rows[1]
    ensures |mapping.rows| <= 1 ==> r.destinationFields == []
    ensures |mapping.rows| > 2 ==> r.customLogic == mapping.rows[2]
    ensures |mapping.rows| <= 2 ==> r.customLogic == []
  {
    MappingRows(
      if !Empty(mapping) then mapping.rows[0] else [],
      if |mapping.rows| > 1 then mapping.rows[1] else [],
      if |mapping.rows| > 2 then mapping.rows[2] else [])
  }

  /** Every row reported is as wide as the mapping's header. */
  lemma ParseMappingWidths(mapping: Table)
    requires Rectangular(mapping)
    ensures var r := ParseMapping(mapping);
      && |r.sourceFields| == (if |mapping.rows| > 0 then |mapping.header| else 0)
      && |r.destinationFields| == (if |mapping.rows| > 1 then |mapping.header| else 0)
      && |r.customLogic| == (if |mapping.rows| > 2 then |mapping.header| else 0)
  {
  }

  // ---------------------------------------------------------------------------
  // transform: what one mapping column contributes

  /**
   * Mapping column i produces an output column: its destination cell and its
   * source cell are both present, and the source cell names a source column.
   */
  predicate Emits(source: Table, sf: Row, df: Row, i: nat)
    requires i < |sf| && i < |df|
    ensures df[i].None? ==> !Emits(source, sf, df, i)
    ensures sf[i].None? ==> !Emits(source, sf, df, i)
    ensures sf[i].Some? && sf[i].value !in source.header ==> !Emits(source, sf, df, i)
  {
    df[i].Some? && sf[i].Some? && sf[i].value in source.header
  }

  /** Mapping column i produces an output column called name. */
  predicate EmitsAs(source: Table, sf: Row, df: Row, i: nat, name: string)
    requires i < |sf| && i < |df|
  {
    Emits(source, sf, df, i) && df[i].value == name
  }

  /** The first of the mapping columns 0 .. k-1 that produces a column called name. */
  function FirstEmit(source: Table, sf: Row, df: Row, k: nat, name: string): (r: Option<nat>)
    requires |sf| == |df| && k <= |df|
    ensures r.Some? ==> r.value < k && EmitsAs(source, sf, df, r.value, name)
    ensures r.Some? ==> forall j :: 0 <= j < r.value ==> !EmitsAs(source, sf, df, j, name)
    ensures r.None? ==> forall j :: 0 <= j < k ==> !EmitsAs(source, sf, df, j, name)
  {
    if k == 0 then None
    else
      var earlier := FirstEmit(source, sf, df, k - 1, name);
      if earlier.Some? then earlier
      else if EmitsAs(source, sf, df, k - 1, name) then Some(k - 1)
      else None
  }

  /** The last of the mapping columns 0 .. k-1 that produces a column called name. */
  function LastEmit(source: Table, sf: Row, df: Row, k: nat, name: string): (r: Option<nat>)
    requires |sf| == |df| && k <= |df|
    ensures r.Some? ==> r.value < k && EmitsAs(source, sf, df, r.value, name)
    ensures r.Some? ==> forall j :: r.value < j < k ==> !EmitsAs(source, sf, df, j, name)
    ensures r.None? ==> forall j :: 0 <= j < k ==> !EmitsAs(source, sf, df, j, name)
  {
    if k == 0 then None
    else if EmitsAs(source, sf, df, k - 1, name) then Some(k - 1)
    else LastEmit(source, sf, df, k - 1, name)
  }

  /**
   * The frame after the loop has visited mapping columns 0 .. k-1: each
   * producing column assigns a copy of its source column under its
   * destination name.
   */
  function Select(source: Table, sf: Row, df: Row, k: nat): (f: Frame)
    requires Parsed(source) && |sf| == |df| && k <= |df|
    ensures Distinct(Names(f))
    decreases k
  {
    if k == 0 then []
    else
      var f := Select(source, sf, df, k - 1);
      if Emits(source, sf, df, k - 1) then Assign(f, df[k - 1].value, Column(source, sf[k - 1].value))
      else f
  }

  // ---------------------------------------------------------------------------
  // transform: the whole request

  /**
   * The frame transform builds, or the error that the unguarded reads of
   * rows 0 and 1 raise on a mapping with fewer than two data rows.
   */
  function TransformResult(source: Table, mapping: Table): (r: Result<Frame, MappingError>)
    requires Parsed(source) && Rectangular(mapping)
    ensures r.Err? <==> |mapping.rows| < 2
    ensures r.Err? ==> r.error == RowOutOfBounds(|mapping.rows|)
    ensures r.Ok? ==> Distinct(Names(r.value))
  {
    if |mapping.rows| < 2 then Err(RowOutOfBounds(|mapping.rows|))
    else Ok(Select(source, mapping.rows[0], mapping.rows[1], |mapping.rows[1]|))
  }

  /** The loop of transform, building the result frame column by column. */
  method Transform(source: Table, mapping: Table) returns (r: Result<Frame, MappingError>)
    requires Parsed(source) && Rectangular(mapping)
    ensures r == TransformResult(source, mapping)
  {
    if |mapping.rows| < 1 {
      return Err(RowOutOfBounds(0));
    }
    var sourceFields := mapping.rows[0];
    if |mapping.rows| < 2 {
      return Err(RowOutOfBounds(1));
    }
    var destinationFields := mapping.rows[1];
    // read, as the service does, and then never consulted
    var customLogic := if |mapping.rows| > 2 then mapping.rows[2] else [];
    var result: Frame := [];
    var i := 0;
    while i < |destinationFields|
      invariant 0 <= i <= |destinationFields|
      invariant result == Select(source, sourceFields, destinationFields, i)
    {
      var dest := destinationFields[i];
      if dest.Some? && sourceFields[i].Some? {
        if sourceFields[i].value in source.header {
          result := Assign(result, dest.value, Column(source, sourceFields[i].value));
        }
      }
      i := i + 1;
    }
    return Ok(result);
  }

  // ---------------------------------------------------------------------------
  // Properties of the selection

  /**
   * The output holds a column called name exactly when some visited mapping
   * column produces name: nothing else is emitted and nothing producing is lost.
   */
  lemma {:induction false} SelectNames(source: Table, sf: Row, df: Row, k: nat)
    requires Parsed(source) && |sf| == |df| && k <= |df|
    ensures forall name :: name in Names(Select(source, sf, df, k))
              <==> FirstEmit(source, sf, df, k, name).Some?
  {
    if k > 0 {
      SelectNames(source, sf, df, k - 1);
    }
  }

  /** How one more mapping column changes the frame: at most one column is added, at the right. */
  lemma SelectStep(source: Table, sf: Row, df: Row, k: nat)
    requires Parsed(source) && |sf| == |df| && 0 < k <= |df|
    ensures var g, f := Select(source, sf, df, k - 1), Select(source, sf, df, k);
      && |g| <= |f| <= |g| + 1
      && (forall p :: 0 <= p < |g| ==> f[p].name == g[p].name)
      && (forall p :: 0 <= p < |g| && !EmitsAs(source, sf, df, k - 1, g[p].name) ==> f[p] == g[p])
      && (|f| == |g| + 1 ==>
            Emits(source, sf, df, k - 1) && f[|g|].name == df[k - 1].value && df[k - 1].value !in Names(g))
      && (forall p :: 0 <= p < |f| && EmitsAs(source, sf, df, k - 1, f[p].name) ==>
            f[p].cells == Column(source, sf[k - 1].value))
  {
    var g, f := Select(source, sf, df, k - 1), Select(source, sf, df, k);
    if Emits(source, sf, df, k - 1) {
      assert forall p :: 0 <= p < |g| ==> Names(f)[p] == f[p].name && Names(g)[p] == g[p].name;
      if |f| == |g| + 1 {
        assert Names(f)[|g|] == f[|g|].name;
      }
    }
  }

  /** Name a is first produced by an earlier mapping column than name b. */
  predicate FirstBefore(source: Table, sf: Row, df: Row, k: nat, a: string, b: string)
    requires |sf| == |df| && k <= |df|
  {
    var fa, fb := FirstEmit(source, sf, df, k, a), FirstEmit(source, sf, df, k, b);
    fa.Some? && fb.Some? && fa.value < fb.value
  }

  /** Every column already in the frame has a name some mapping column produces. */
  lemma SelectNameProduced(source: Table, sf: Row, df: Row, k: nat, p: nat)
    requires Parsed(source) && |sf| == |df| && k <= |df| && p < |Select(source, sf, df, k)|
    ensures FirstEmit(source, sf, df, k, Select(source, sf, df, k)[p].name).Some?
  {
    SelectNames(source, sf, df, k);
    assert Names(Select(source, sf, df, k))[p] == Select(source, sf, df, k)[p].name;
  }

  /**
   * Output columns stand in the order in which their names are first produced
   * by the mapping columns: of two output columns, the left one's name is
   * produced first.
   */
  lemma {:induction false} SelectOrder(source: Table, sf: Row, df: Row, k: nat, p: nat, q: nat)
    requires Parsed(source) && |sf| == |df| && k <= |df| && p < q < |Select(source, sf, df, k)|
    ensures var f := Select(source, sf, df, k);
      FirstBefore(source, sf, df, k, f[p].name, f[q].name)
  {
    SelectStep(source, sf, df, k);
    var g := Select(source, sf, df, k - 1);
    var f := Select(source, sf, df, k);
    SelectNameProduced(source, sf, df, k - 1, p);
    assert FirstEmit(source, sf, df, k, f[p].name) == FirstEmit(source, sf, df, k - 1, g[p].name);
    if q < |g| {
      SelectOrder(source, sf, df, k - 1, p, q);
      SelectNameProduced(source, sf, df, k - 1, q);
      assert FirstEmit(source, sf, df, k, f[q].name) == FirstEmit(source, sf, df, k - 1, g[q].name);
    } else {
      var n := f[q].name;
      assert n !in Names(g);
      SelectNames(source, sf, df, k - 1);
      assert FirstEmit(source, sf, df, k - 1, n).None?;
      assert FirstEmit(source, sf, df, k, n) == Some(k - 1);
    }
  }

  /**
   * Each output column is a verbatim copy of a source column: the one named
   * by the last mapping column producing that output name. It has as many
   * cells as the source has rows, in the same order.
   */
  lemma {:induction false} SelectCell(source: Table, sf: Row, df: Row, k: nat, p: nat)
    requires Parsed(source) && |sf| == |df| && k <= |df| && p < |Select(source, sf, df, k)|
    ensures var f := Select(source, sf, df, k);
      var last := LastEmit(source, sf, df, k, f[p].name);
      && last.Some?
      && f[p].cells == Column(source, sf[last.value].value)
      && |f[p].cells| == |source.rows|
  {
    SelectStep(source, sf, df, k);
    var g, f := Select(source, sf, df, k - 1), Select(source, sf, df, k);
    if EmitsAs(source, sf, df, k - 1, f[p].name) {
      assert LastEmit(source, sf, df, k, f[p].name) == Some(k - 1);
    } else {
      assert LastEmit(source, sf, df, k, f[p].name) == LastEmit(source, sf, df, k - 1, f[p].name);
      assert p < |g| && f[p] == g[p];
      SelectCell(source, sf, df, k - 1, p);
    }
  }

  /** The frame over columns 0 .. k-1 depends only on those mapping columns. */
  lemma {:induction false} SelectPrefix(source: Table, sf: Row, df: Row, sf': Row, df': Row, k: nat)
    requires Parsed(source) && |sf| == |df| && |sf'| == |df'| && k <= |df| && k <= |df'|
    requires sf[..k] == sf'[..k] && df[..k] == df'[..k]
    ensures Select(source, sf, df, k) == Select(source, sf', df', k)
  {
    if k > 0 {
      assert sf[k - 1] == sf[..k][k - 1] && sf'[k - 1] == sf'[..k][k - 1];
      assert df[k - 1] == df[..k][k - 1] && df'[k - 1] == df'[..k][k - 1];
      assert sf[..k - 1] == sf[..k][..k - 1] && sf'[..k - 1] == sf'[..k][..k - 1];
      assert df[..k - 1] == df[..k][..k - 1] && df'[..k - 1] == df'[..k][..k - 1];
      SelectPrefix(source, sf, df, sf', df', k - 1);
    }
  }

  /** Removes entry i of a row. */
  function Without(s: Row, i: nat): (r: Row)
    requires i < |s|
    ensures |r| == |s| - 1
    ensures forall j :: 0 <= j < i ==> r[j] == s[j]
    ensures forall j :: i <= j < |r| ==> r[j] == s[j + 1]
  {
    s[..i] + s[i + 1..]
  }

  /**
   * A mapping column that produces nothing (missing destination, missing
   * source, or unknown source name) is dropped silently: deleting it from the
   * mapping leaves the frame over the first k columns unchanged.
   */
  lemma {:induction false} DropSilent(source: Table, sf: Row, df: Row, i: nat, k: nat)
    requires Parsed(source) && |sf| == |df| && i < k <= |df|
    requires !Emits(source, sf, df, i)
    ensures Select(source, sf, df, k) == Select(source, Without(sf, i), Without(df, i), k - 1)
  {
    var sf', df' := Without(sf, i), Without(df, i);
    if k == i + 1 {
      assert sf[..i] == sf'[..i] && df[..i] == df'[..i];
      SelectPrefix(source, sf, df, sf', df', i);
    } else {
      DropSilent(source, sf, df, i, k - 1);
      assert sf[k - 1] == sf'[k - 2] && df[k - 1] == df'[k - 2];
    }
  }

  /** The whole mapping: a column that produces nothing can be left out of it. */
  lemma DropSilentTransform(source: Table, mapping: Table, i: nat)
    requires Parsed(source) && Rectangular(mapping) && |mapping.rows| >= 2
    requires i < |mapping.header|
    requires !Emits(source, mapping.rows[0], mapping.rows[1], i)
    ensures TransformResult(source, mapping)
         == Ok(Select(source, Without(mapping.rows[0], i), Without(mapping.rows[1], i), |mapping.header| - 1))
  {
    DropSilent(source, mapping.rows[0], mapping.rows[1], i, |mapping.header|);
  }

  // ---------------------------------------------------------------------------
  // Properties of the whole request

  /**
   * The custom-logic row has no effect: replacing row 2 of the mapping by any
   * other row of the same width leaves the result as it was.
   */
  lemma CustomLogicIgnored(source: Table, mapping: Table, logic: Row)
    requires Parsed(source) && Rectangular(mapping) && |mapping.rows| > 2
    requires |logic| == |mapping.header|
    ensures Rectangular(mapping.(rows := mapping.rows[2 := logic]))
    ensures TransformResult(source, mapping.(rows := mapping.rows[2 := logic]))
         == TransformResult(source, mapping)
  {
  }

  /**
   * The output's headers are exactly the destination names produced by the
   * mapping, each once, in the order of their first producing column; each
   * column holds the source column named by the last producing column.
   */
  lemma TransformOutput(source: Table, mapping: Table)
    requires Parsed(source) && Rectangular(mapping) && |mapping.rows| >= 2
    ensures TransformResult(source, mapping).Ok?
    ensures var f := TransformResult(source, mapping).value;
      Distinct(Names(f))
    ensures var sf, df, n := mapping.rows[0], mapping.rows[1], |mapping.header|;
      var f := TransformResult(source, mapping).value;
      forall name :: name in Names(f) <==> FirstEmit(source, sf, df, n, name).Some?
    ensures var sf, df, n := mapping.rows[0], mapping.rows[1], |mapping.header|;
      var f := TransformResult(source, mapping).value;
      forall p, q :: 0 <= p < q < |f| ==> FirstBefore(source, sf, df, n, f[p].name, f[q].name)
    ensures var sf, df, n := mapping.rows[0], mapping.rows[1], |mapping.header|;
      var f := TransformResult(source, mapping).value;
      forall p :: 0 <= p < |f| ==>
        var last := LastEmit(source, sf, df, n, f[p].name);
        && last.Some?
        && f[p].cells == Column(source, sf[last.value].value)
  {
    var sf, df, n := mapping.rows[0], mapping.rows[1], |mapping.header|;
    assert |df| == n;
    var f := Select(source, sf, df, n);
    assert TransformResult(source, mapping) == Ok(f);
    SelectNames(source, sf, df, n);
    forall p, q | 0 <= p < q < |f|
      ensures FirstBefore(source, sf, df, n, f[p].name, f[q].name)
    {
      SelectOrder(source, sf, df, n, p, q);
    }
    forall p | 0 <= p < |f|
      ensures var last := LastEmit(source, sf, df, n, f[p].name);
        && last.Some?
        && f[p].cells == Column(source, sf[last.value].value)
    {
      SelectCell(source, sf, df, n, p);
    }
  }

  /**
   * parse_mapping and transform read the same rows as source and destination
   * fields, but only parse_mapping guards row 1: on a mapping with a single
   * data row it reports no destination fields while transform fails.
   */
  lemma ParseAndTransformAgree(source: Table, mapping: Table)
    requires Parsed(source) && Rectangular(mapping)
    ensures var m := ParseMapping(mapping);
      |mapping.rows| >= 2 ==>
        TransformResult(source, mapping)
          == Ok(Select(source, m.sourceFields, m.destinationFields, |m.destinationFields|))
    ensures |mapping.rows| == 1 ==>
      ParseMapping(mapping).destinationFields == [] && TransformResult(source, mapping).Err?
  {
  }
}
