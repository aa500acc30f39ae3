/** The currency table of the xe.com symbols page, and the two ways the
    lookup reads it: `xe_to_dict` turns the whole table into a symbol-to-code
    dictionary, and the query inside `from_xe` picks the code of the first row
    whose ordinal cell matches the encoded symbol. */
module XeTable {
  import opened Wrappers
  import Ordinals
  import Dicts

  /** One data row of the table (a `tr` of class "row1" or "row2"), reduced
      to the two cells that are read: the text of the second cell (the code)
      and of the sixth cell (the ordinal-encoded symbol); None when the cell
      or its text is missing. */
  datatype Row = Row(codeText: Option<string>, ordsText: Option<string>)

  /** The sixth cell, when present, decodes without a ValueError. */
  predicate WellFormedRow(row: Row) {
    row.ordsText.Some? ==> Ordinals.WellFormedOrds(row.ordsText.value)
  }

  predicate WellFormedRows(rows: seq<Row>) {
    forall i :: 0 <= i < |rows| ==> WellFormedRow(rows[i])
  }

  /** `keyval`: the decoded symbol and the code, or None when either cell is
      missing (the IndexError it catches). */
  function KeyVal(row: Row): (kv: Option<(string, string)>)
    requires WellFormedRow(row)
    ensures kv.Some? <==> row.ordsText.Some? && row.codeText.Some?
  {
    match row.ordsText
    case None => None
    case Some(cell) =>
      var symbol := Ordinals.DecodeOrds(cell);
      match row.codeText
      case None => None
      case Some(code) => Some((symbol, code))
  }

  /** The symbol a row contributes to the table, if any. */
  function RowSymbol(row: Row): (symbol: Option<string>)
    requires WellFormedRow(row)
  {
    match KeyVal(row)
    case None => None
    case Some(kv) => Some(kv.0)
  }

  /** A row written with the encoding of a non-empty symbol yields that symbol. */
  lemma EncodedRowKeyVal(symbol: string, code: string)
    requires symbol != ""
    ensures WellFormedRow(Row(Some(code), Some(Ordinals.SymbolOrds(symbol))))
    ensures KeyVal(Row(Some(code), Some(Ordinals.SymbolOrds(symbol)))) == Some((symbol, code))
  {
    Ordinals.SymbolOrdsRoundTrip(symbol);
  }

  /** `[kv for kv in map(keyval, rows) if kv]`, in row order. */
  function Entries(rows: seq<Row>): (pairs: seq<(string, string)>)
    requires WellFormedRows(rows)
    decreases |rows|
  {
    if rows == [] then []
    else
      var rest := Entries(rows[1..]);
      match KeyVal(rows[0])
      case None => rest
      case Some(kv) => [kv] + rest
  }

  lemma {:induction false} EntriesAppend(a: seq<Row>, b: seq<Row>)
    requires WellFormedRows(a) && WellFormedRows(b)
    ensures WellFormedRows(a + b)
    ensures Entries(a + b) == Entries(a) + Entries(b)
    decreases |a|
  {
    if a != [] {
      assert (a + b)[1..] == a[1..] + b;
      EntriesAppend(a[1..], b);
    } else {
      assert a + b == b;
    }
  }

  /** Each pair of Entries comes from a row, and each row with both cells gives one. */
  lemma {:induction false} EntriesFromRows(rows: seq<Row>, p: (string, string))
    requires WellFormedRows(rows)
    ensures p in Entries(rows) <==> exists i :: 0 <= i < |rows| && KeyVal(rows[i]) == Some(p)
    decreases |rows|
  {
    if rows != [] {
      EntriesFromRows(rows[1..], p);
      if exists i :: 0 <= i < |rows| && KeyVal(rows[i]) == Some(p) {
        var i :| 0 <= i < |rows| && KeyVal(rows[i]) == Some(p);
        if i > 0 {
          assert rows[1..][i - 1] == rows[i];
        }
      }
      if exists i :: 0 <= i < |rows| - 1 && KeyVal(rows[1..][i]) == Some(p) {
        var i :| 0 <= i < |rows| - 1 && KeyVal(rows[1..][i]) == Some(p);
        assert KeyVal(rows[i + 1]) == Some(p);
      }
    }
  }

  /** `xe_to_dict`: the dict comprehension over the rows' key/value pairs. */
  function XeToDict(rows: seq<Row>): (table: map<string, string>)
    requires WellFormedRows(rows)
  {
    Dicts.FromPairs(Entries(rows))
  }

  /** Row `i` is the last row with both cells whose symbol is `k`, and its code is `v`. */
  ghost predicate WinningRow(rows: seq<Row>, i: int, k: string, v: string)
    requires WellFormedRows(rows)
  {
    && 0 <= i < |rows|
    && KeyVal(rows[i]) == Some((k, v))
    && forall j :: i < j < |rows| ==> RowSymbol(rows[j]) != Some(k)
  }

  /** A row missing its sixth or its second cell adds nothing to the table:
      the table is the one built from the other rows. */
  lemma XeToDictSkipsIncomplete(rows: seq<Row>, i: int)
    requires WellFormedRows(rows)
    requires 0 <= i < |rows|
    requires rows[i].ordsText.None? || rows[i].codeText.None?
    ensures WellFormedRows(rows[..i] + rows[i + 1..])
    ensures XeToDict(rows[..i] + rows[i + 1..]) == XeToDict(rows)
  {
    assert rows == rows[..i] + ([rows[i]] + rows[i + 1..]);
    EntriesAppend([rows[i]], rows[i + 1..]);
    EntriesAppend(rows[..i], [rows[i]] + rows[i + 1..]);
    EntriesAppend(rows[..i], rows[i + 1..]);
    assert Entries([rows[i]]) == [];
  }

  /** The table maps `k` to `v` exactly when the last row whose symbol is `k`
      has code `v`: every entry comes from a row, and the later row wins. */
  lemma XeToDictEntry(rows: seq<Row>, k: string, v: string)
    requires WellFormedRows(rows)
    ensures (k in XeToDict(rows) && XeToDict(rows)[k] == v) <==> exists i :: WinningRow(rows, i, k, v)
  {
    if k in XeToDict(rows) && XeToDict(rows)[k] == v {
      var pairs := Entries(rows);
      Dicts.FromPairsSound(pairs, k);
      var n :| Dicts.IsLastFor(pairs, n) && pairs[n] == (k, v);
      EntriesFromRows(rows, (k, v));
      var i0 :| 0 <= i0 < |rows| && KeyVal(rows[i0]) == Some((k, v));
      var i := LastRowFrom(rows, i0);
      var v' := KeyVal(rows[i]).value.1;
      LastRowWins(rows, i, k, v');
    }
    if i :| WinningRow(rows, i, k, v) {
      LastRowWins(rows, i, k, v);
    }
  }

  /** The last row at or after `from` with the symbol of row `from`. */
  lemma {:induction false} LastRowFrom(rows: seq<Row>, from: int) returns (i: int)
    requires WellFormedRows(rows)
    requires 0 <= from < |rows| && RowSymbol(rows[from]).Some?
    ensures from <= i < |rows| && RowSymbol(rows[i]) == RowSymbol(rows[from])
    ensures WinningRow(rows, i, RowSymbol(rows[from]).value, KeyVal(rows[i]).value.1)
    decreases |rows| - from
  {
    var k := RowSymbol(rows[from]);
    if j :| from < j < |rows| && RowSymbol(rows[j]) == k {
      i := LastRowFrom(rows, j);
    } else {
      i := from;
    }
  }

  /** The winning row's code is the table's value. */
  lemma LastRowWins(rows: seq<Row>, i: int, k: string, v: string)
    requires WellFormedRows(rows)
    requires WinningRow(rows, i, k, v)
    ensures k in XeToDict(rows) && XeToDict(rows)[k] == v
  {
    var a, b := rows[..i], rows[i + 1..];
    assert rows == a + ([rows[i]] + b);
    EntriesAppend([rows[i]], b);
    EntriesAppend(a, [rows[i]] + b);
    var pairs := Entries(rows);
    assert Entries([rows[i]]) == [(k, v)];
    var n := |Entries(a)|;
    assert pairs == Entries(a) + [(k, v)] + Entries(b);
    forall j | n < j < |pairs| ensures pairs[j].0 != k {
      var p := pairs[j];
      assert p == Entries(b)[j - n - 1];
      EntriesFromRows(b, p);
      var m :| 0 <= m < |b| && KeyVal(b[m]) == Some(p);
      assert b[m] == rows[i + 1 + m];
      assert RowSymbol(rows[i + 1 + m]) == Some(p.0);
    }
    Dicts.FromPairsLastWins(pairs, n);
  }

  /** The symbols in the table are exactly those of the rows with both cells. */
  lemma XeToDictKeys(rows: seq<Row>, k: string)
    requires WellFormedRows(rows)
    ensures k in XeToDict(rows) <==> exists i :: 0 <= i < |rows| && RowSymbol(rows[i]) == Some(k)
  {
    if i :| 0 <= i < |rows| && RowSymbol(rows[i]) == Some(k) {
      var j := LastRowFrom(rows, i);
      LastRowWins(rows, j, k, KeyVal(rows[j]).value.1);
    }
    if k in XeToDict(rows) {
      XeToDictEntry(rows, k, XeToDict(rows)[k]);
    }
  }

  /* ---------- The query of from_xe ---------- */

  /** The row satisfies `td[6][text()="<query>"]` and has a `td[2]/text()`. */
  predicate MatchesQuery(row: Row, query: string) {
    row.ordsText == Some(query) && row.codeText.Some?
  }

  /** The XPath query of `from_xe` followed by `[0]`: the code of the first
      row, in document order, whose sixth cell is `symbol_ords(symbol)` and
      that has a second cell; IndexError when there is none. */
  function SelectCode(rows: seq<Row>, symbol: string): (r: Result<string, Error>)
    ensures r.Err? <==> forall i :: 0 <= i < |rows| ==> !MatchesQuery(rows[i], Ordinals.SymbolOrds(symbol))
    ensures r.Err? ==> r.error == IndexError
    ensures r.Ok? ==> exists i ::
      && 0 <= i < |rows|
      && MatchesQuery(rows[i], Ordinals.SymbolOrds(symbol))
      && rows[i].codeText == Some(r.value)
      && (forall j :: 0 <= j < i ==> !MatchesQuery(rows[j], Ordinals.SymbolOrds(symbol)))
    decreases |rows|
  {
    if rows == [] then Err(IndexError)
    else if MatchesQuery(rows[0], Ordinals.SymbolOrds(symbol)) then Ok(rows[0].codeText.value)
    else
      var r := SelectCode(rows[1..], symbol);
      assert forall i :: 1 <= i < |rows| ==> rows[1..][i - 1] == rows[i];
      r
  }

  /** `from_xe`, given the outcome of fetching and parsing the page. */
  function FromXe(page: Result<seq<Row>, Error>, symbol: string): (r: Result<string, Error>) {
    match page
    case Err(e) => Err(e)
    case Ok(rows) => SelectCode(rows, symbol)
  }

  /** The page's cells never hold an empty text (lxml's `text()` yields no
      empty text nodes). */
  predicate NoEmptyTexts(rows: seq<Row>) {
    forall i :: 0 <= i < |rows| ==> rows[i].codeText != Some("") && rows[i].ordsText != Some("")
  }

  /** On such a page the query for the empty symbol, `text()=""`, matches no
      row, so `from_xe("")` raises IndexError. */
  lemma EmptySymbolNotSelected(rows: seq<Row>)
    requires NoEmptyTexts(rows)
    ensures SelectCode(rows, "") == Err(IndexError)
  {
    Ordinals.EmptySymbolNotDecodable();
    assert forall i :: 0 <= i < |rows| ==> !MatchesQuery(rows[i], Ordinals.SymbolOrds(""));
  }

  /** What the query finds, the whole-table parse finds too: the selected row
      contributes the pair (symbol, code), so the symbol is in `xe_to_dict`. */
  lemma SelectedRowInTable(rows: seq<Row>, symbol: string)
    requires WellFormedRows(rows)
    requires SelectCode(rows, symbol).Ok?
    ensures exists i :: 0 <= i < |rows| && KeyVal(rows[i]) == Some((symbol, SelectCode(rows, symbol).value))
    ensures symbol in XeToDict(rows)
  {
    var q := Ordinals.SymbolOrds(symbol);
    var c := SelectCode(rows, symbol).value;
    var i :| 0 <= i < |rows| && MatchesQuery(rows[i], q) && rows[i].codeText == Some(c);
    assert WellFormedRow(rows[i]);
    Ordinals.EmptySymbolNotDecodable();
    assert symbol != "";
    Ordinals.SymbolOrdsRoundTrip(symbol);
    assert KeyVal(rows[i]) == Some((symbol, c));
    XeToDictKeys(rows, symbol);
  }
}
