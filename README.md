# Currency symbol to currency code, in Dafny

This project models `currency/symbol_dict.py` of the currency converter and proves properties of the model. The module turns a currency symbol such as `"$"` into a currency code such as `"USD"`. It has three lookup strategies:

- **babel**: a symbol-to-code table inverted from the en_US locale's code-to-symbol data. It is built on first use and kept.
- **xe**: a query against the live xe.com symbols page.
- **static**: a symbol-to-code table parsed from a bundled copy of that page. It is built on first use and kept.

Two entry points combine the strategies. `from_all` tries babel, xe and static in that order. `repr_to_code` returns a known currency code unchanged; otherwise it tries babel, then static.

The model has five modules:

- `Wrappers` (wrappers.dfy): `Option`, `Result` and the three exceptions that matter here: `KeyError`, `IndexError` and a failed fetch.
- `Ordinals` (ordinals.dfy): `symbol_ords` and the cell decoding inside `xe_to_dict`. It also models what they are built from: `str` and `int` on decimal numerals, `", ".join` and `str.split(", ")`.
- `Dicts` (dicts.dfy): a Python dict comprehension over a sequence of pairs, where a later pair overwrites an earlier one, and a dict subscript that raises `KeyError`.
- `XeTable` (xe_table.dfy): the page's data rows, `keyval`, `xe_to_dict`, and the XPath selection of `from_xe`.
- `Currency` (symbol_dict.dfy): the module's state as the class `SymbolDict`, with the two lazily built tables as `Option<map>` fields. Its methods are `from_babel`, `from_xe`, `from_static`, `from_all` and `repr_to_code`. A ghost trace records which strategies were called, and ghost counters record how often each table was built.

Pure parts of the source are functions and lemmas. The lazy caches and the `from_all` loop, which overwrites `err` on each failure, are methods of the class. Each method's `ensures` ties its result and the new state to the specification functions (`BabelDict`, `StaticDict`, `FirstSuccess`, `Attempts`), and the lemmas prove what those functions mean.

Two choices of the code that the model keeps:

- Duplicate symbols: `xe_to_dict` and the babel table keep the last row or item for a symbol. The xe query takes the first matching row.
- `repr_to_code` falls back from babel to static only. It never queries xe, and it returns `None` instead of raising.

## Model

| member | source | states |
|---|---|---|
| Ordinals.DecimalString | currency/symbol_dict.py:120 | `str(n)` is a non-empty string of ASCII digits with no leading zero unless n is 0 |
| Ordinals.DecimalRoundTrip | currency/symbol_dict.py:140 | `int(str(n)) == n`: the numeral written by `symbol_ords` parses back to the same code point |
| Ordinals.SplitJoin | currency/symbol_dict.py:139 | splitting at ", " a ", "-join of comma-free parts gives the parts back |
| Ordinals.DecodeOrds | currency/symbol_dict.py:138-140 | a decoded cell has one character per ", "-separated token |
| Ordinals.SymbolOrdsTokens | currency/symbol_dict.py:109-120 | `symbol_ords(s)` of a non-empty s splits into exactly \|s\| tokens; token k is the decimal code point of s[k] |
| Ordinals.SymbolOrdsRoundTrip | currency/symbol_dict.py:109-140 | the encoding of a non-empty symbol is a well-formed cell, and decoding it gives the symbol back |
| Ordinals.EmptySymbolNotDecodable | currency/symbol_dict.py:138-140 | the empty symbol encodes to "", and decoding "" fails (`int("")`), so the round trip needs a non-empty symbol |
| Ordinals.SymbolOrdsEmpty | currency/symbol_dict.py:120 | the encoding is empty exactly when the symbol is |
| Ordinals.SymbolOrdsInjective | currency/symbol_dict.py:102-120 | different symbols have different encodings, so the query's text match singles out one symbol |
| Ordinals.LeadingZeroValue | currency/symbol_dict.py:140 | `int` ignores a leading zero: "0" + t has the value of t |
| Ordinals.PaddedCellDecodesAlike | currency/symbol_dict.py:102-140 | a one-character cell padded with a zero decodes like the unpadded cell, but differs from the decoded symbol's encoding, so `from_xe`'s text match misses a row that `xe_to_dict` keeps |
| Ordinals.PaddedCellDecodesToDollar | currency/symbol_dict.py:138-140 | an example: cell "036" decodes to "$", whose encoding is "36", not "036" |
| Dicts.FromPairs | currency/symbol_dict.py:151 | a dict comprehension's keys are exactly the keys of its pairs |
| Dicts.FromPairsLastWins | currency/symbol_dict.py:151 | the value kept for a key is that of the key's last pair |
| Dicts.FromPairsSound | currency/symbol_dict.py:151 | every entry of the dict is the last pair with its key |
| XeTable.KeyVal | currency/symbol_dict.py:145-149 | `keyval` gives a pair exactly when both the sixth and the second cell are present |
| XeTable.EncodedRowKeyVal | currency/symbol_dict.py:138-147 | a row whose sixth cell is `symbol_ords(s)`, with s non-empty, yields the pair (s, code) |
| XeTable.EntriesAppend | currency/symbol_dict.py:151 | the pairs of two concatenated row lists are the pairs of each, in order |
| XeTable.EntriesFromRows | currency/symbol_dict.py:151 | a pair is among the comprehension's pairs exactly when some row yields it |
| XeTable.XeToDictSkipsIncomplete | currency/symbol_dict.py:145-151 | removing a row that lacks its sixth or second cell leaves `xe_to_dict` unchanged, and such a row does not stop the parse |
| XeTable.XeToDictEntry | currency/symbol_dict.py:134-151 | `xe_to_dict` maps k to v exactly when the last row with symbol k has code v |
| XeTable.LastRowWins | currency/symbol_dict.py:151 | the last row with a given symbol sets that symbol's entry |
| XeTable.LastRowFrom | currency/symbol_dict.py:151 | from any row with a symbol, a later-or-equal row is the last row with that symbol |
| XeTable.XeToDictKeys | currency/symbol_dict.py:145-151 | the symbols of `xe_to_dict` are exactly those of rows that have both cells |
| XeTable.SelectCode | currency/symbol_dict.py:102-107 | the query returns the code of the first row whose sixth cell equals `symbol_ords(symbol)` and that has a second cell; IndexError exactly when no row matches |
| XeTable.EmptySymbolNotSelected | currency/symbol_dict.py:102-107 | on a page without empty cell texts, the query for the empty symbol matches nothing and raises IndexError |
| XeTable.SelectedRowInTable | currency/symbol_dict.py:102-151 | a code the xe query finds comes from a row that also gives (symbol, code) to `xe_to_dict`, so the symbol is in that table |
| Currency.BabelDictInverts | currency/symbol_dict.py:84-85 | the babel table holds exactly the locale's symbols, and maps each to a code whose symbol it is (the last such in iteration order) |
| Currency.Attempts | currency/symbol_dict.py:63-65 | the number of strategies tried is between 1 and the number of strategies |
| Currency.FirstSuccessAt | currency/symbol_dict.py:63-67 | if the first i strategies fail and strategy i succeeds, the chain returns its result after i + 1 calls |
| Currency.AllFailed | currency/symbol_dict.py:63-69 | if every strategy fails, all are called and the last failure is raised |
| Currency.FirstSuccessSpec | currency/symbol_dict.py:63-69 | the chain succeeds exactly when some strategy does, and then with the first successful one; otherwise it raises the last failure |
| Currency.FirstOk | currency/symbol_dict.py:63-67 | if some strategy succeeds, there is a first one that does |
| Currency.ChainFailureIsKeyError | currency/symbol_dict.py:63-69 | when the whole chain fails, the error raised is the static table's KeyError for the symbol |
| Currency.SymbolDict.constructor | currency/symbol_dict.py:23-26 | at import, both tables are absent and no strategy has been called |
| Currency.SymbolDict.FromBabel | currency/symbol_dict.py:82-87 | builds the babel table only when absent, never rebuilds it (at most one build), then looks the symbol up, raising KeyError when it is missing |
| Currency.SymbolDict.FromStatic | currency/symbol_dict.py:165-169 | builds `xe_to_dict` of the bundled page only when absent, never rebuilds it (at most one build), then looks the symbol up, raising KeyError when it is missing |
| Currency.SymbolDict.FromXe | currency/symbol_dict.py:100-107 | answers from the fetched page and keeps no table |
| Currency.SymbolDict.Call | currency/symbol_dict.py:63-65 | calling one strategy of the list gives that strategy's answer and touches only its own table |
| Currency.SymbolDict.FromAll | currency/symbol_dict.py:63-69 | returns the first success among babel, xe and static without calling the later strategies (the static table is built only if reached); if all fail, the last failure |
| Currency.SymbolDict.ReprToCode | currency/symbol_dict.py:40-49 | a known code is returned unchanged and no table is consulted or built; otherwise babel, then static (never xe), and None when both miss; the babel table is then present, and the static table is kept as it was on a babel hit and present otherwise, so neither is ever rebuilt |

## Left out

- The HTTP fetch (`get` from `.helpers`) is not part of this model. `from_xe`'s page arrives as a parameter: the parsed rows, or a fetch failure.
- Row admits an empty cell text, which lxml's `text()` never produces. Only on pages without empty texts (XeTable.NoEmptyTexts) does XeTable.SelectCode give IndexError for the empty symbol, as XeTable.EmptySymbolNotSelected shows.
- lxml parsing and XPath evaluation are not modelled. A page is its sequence of data rows (`tr` of class row1 or row2 in the currency table). Each row keeps only the first text of its second and sixth cells. The query's `text()=` test compares that one text, and multiple text nodes in one cell are not modelled.
- The babel `Locale('en', 'US')` database is an input. It is a set of known codes plus the code-to-symbol items in the dictionary's iteration order.
- The location and loading of `symbols.html` (`STATIC_PATH`) are not modelled. The bundled page is given, already parsed, to the constructor. A failure to read or parse it is not modelled.
- XeTable.XeToDict: a present sixth cell must be well-formed, which is a precondition. Every ", "-separated token must be a non-empty string of ASCII digits whose value is a Unicode scalar value. The source would let a ValueError escape for a malformed cell. Python's `int` also accepts surrounding whitespace, a sign, underscores and non-ASCII digits, and its `chr` accepts surrogate code points. None of these are modelled, because Dafny's `char` has no surrogates.
- Exceptions are a `Result` with three error kinds. `repr_to_code` catches only `KeyError`, and in this model `from_babel` and `from_static` raise nothing else, so it never propagates an error.
- Concurrency of the lazy initialisation is not modelled. The code has no locking, and the model is single-threaded.
- Network I/O performed by `from_xe` appears only as the `Xe` entry in the ghost call trace.
