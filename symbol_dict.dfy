/** The resolution of a currency symbol into a currency code: three lookup
    strategies (the babel locale table, the live xe.com page and the bundled
    copy of that page) and the two entry points that combine them,
    `from_all` and `repr_to_code`. */
module Currency {
  import opened Wrappers
  import Dicts
  import XeTable

  /** The data of the en_US locale used from the locale database:
      `currencies`, the known currency codes, and `currency_symbols`, the
      (code, symbol) items of its code-to-symbol dictionary in iteration order. */
  datatype Locale = Locale(currencies: set<string>, currencySymbols: seq<(string, string)>)

  /** `(symbol, code) for code, symbol in items`. */
  function Swapped(items: seq<(string, string)>): (pairs: seq<(string, string)>) {
    seq(|items|, i requires 0 <= i < |items| => (items[i].1, items[i].0))
  }

  /** The babel table: `{symbol: code for code, symbol in currency_symbols.items()}`. */
  function BabelDict(items: seq<(string, string)>): (table: map<string, string>) {
    Dicts.FromPairs(Swapped(items))
  }

  /** The babel table inverts the locale's code-to-symbol items: it holds
      exactly the symbols of the locale, and maps each one to a code whose
      symbol it is (the last such code in iteration order). */
  lemma BabelDictInverts(items: seq<(string, string)>, symbol: string)
    ensures symbol in BabelDict(items) <==> exists i :: 0 <= i < |items| && items[i].1 == symbol
    ensures symbol in BabelDict(items) ==> exists i ::
      && 0 <= i < |items|
      && items[i] == (BabelDict(items)[symbol], symbol)
      && (forall j :: i < j < |items| ==> items[j].1 != symbol)
  {
    var pairs := Swapped(items);
    if i :| 0 <= i < |items| && items[i].1 == symbol {
      assert pairs[i].0 == symbol;
    }
    if symbol in BabelDict(items) {
      Dicts.FromPairsSound(pairs, symbol);
      var i :| Dicts.IsLastFor(pairs, i) && pairs[i] == (symbol, BabelDict(items)[symbol]);
      assert items[i] == (BabelDict(items)[symbol], symbol);
      assert forall j :: i < j < |items| ==> items[j].1 == pairs[j].0;
    }
  }

  /** The strategies, in the order `from_all` tries them. */
  datatype Strategy = Babel | Xe | Static

  /** The result of trying `results` in order: the first success, or, when
      every one failed, the last failure. */
  function FirstSuccess(results: seq<Result<string, Error>>): (r: Result<string, Error>)
    requires |results| >= 1
    decreases |results|
  {
    if results[0].Ok? || |results| == 1 then results[0] else FirstSuccess(results[1..])
  }

  /** How many of `results` are tried: up to and including the first success. */
  function Attempts(results: seq<Result<string, Error>>): (n: nat)
    requires |results| >= 1
    ensures 1 <= n <= |results|
    decreases |results|
  {
    if results[0].Ok? || |results| == 1 then 1 else 1 + Attempts(results[1..])
  }

  /** When the first `i` results failed and result `i` succeeded, the chain
      returns result `i` after `i + 1` attempts. */
  lemma {:induction false} FirstSuccessAt(results: seq<Result<string, Error>>, i: int)
    requires 0 <= i < |results| && results[i].Ok?
    requires forall j :: 0 <= j < i ==> results[j].Err?
    ensures FirstSuccess(results) == results[i]
    ensures Attempts(results) == i + 1
    decreases i
  {
    if i > 0 {
      FirstSuccessAt(results[1..], i - 1);
    }
  }

  /** When every result failed, the chain returns the last failure after
      trying them all. */
  lemma {:induction false} AllFailed(results: seq<Result<string, Error>>)
    requires |results| >= 1
    requires forall j :: 0 <= j < |results| ==> results[j].Err?
    ensures FirstSuccess(results) == results[|results| - 1]
    ensures Attempts(results) == |results|
    decreases |results|
  {
    if |results| > 1 {
      AllFailed(results[1..]);
    }
  }

  /** FirstSuccess succeeds exactly when some result does, and then with
      the first successful one. */
  lemma {:induction false} FirstSuccessSpec(results: seq<Result<string, Error>>)
    requires |results| >= 1
    ensures FirstSuccess(results).Ok? <==> exists i :: 0 <= i < |results| && results[i].Ok?
    ensures FirstSuccess(results).Ok? ==> exists i ::
      && 0 <= i < |results|
      && results[i] == FirstSuccess(results)
      && (forall j :: 0 <= j < i ==> results[j].Err?)
    ensures FirstSuccess(results).Err? ==> FirstSuccess(results) == results[|results| - 1]
  {
    if i :| 0 <= i < |results| && results[i].Ok? {
      var f := FirstOk(results, i);
      FirstSuccessAt(results, f);
    } else {
      AllFailed(results);
    }
  }

  /** The first successful index, given that index `i` succeeds. */
  lemma {:induction false} FirstOk(results: seq<Result<string, Error>>, i: int) returns (f: int)
    requires 0 <= i < |results| && results[i].Ok?
    ensures 0 <= f <= i && results[f].Ok?
    ensures forall j :: 0 <= j < f ==> results[j].Err?
    decreases i
  {
    if j :| 0 <= j < i && results[j].Ok? {
      f := FirstOk(results, j);
    } else {
      f := i;
    }
  }

  /** The state of the `currency.symbol_dict` module: the locale data, the
      bundled page, and the two tables that `from_babel` and `from_static`
      build on first use and keep (the `table` attributes of those functions). */
  class SymbolDict {
    const locale: Locale
    /** The rows of the bundled copy of the xe.com page (symbols.html). */
    const staticPage: seq<XeTable.Row>

    var babelTable: Option<map<string, string>>
    var staticTable: Option<map<string, string>>

    /** How many times each table has been built. */
    ghost var babelBuilds: nat
    ghost var staticBuilds: nat
    /** The strategies called so far, in order. */
    ghost var trace: seq<Strategy>

    ghost predicate Valid()
      reads this
    {
      && XeTable.WellFormedRows(staticPage)
      && babelBuilds == (if babelTable.Some? then 1 else 0)
      && staticBuilds == (if staticTable.Some? then 1 else 0)
      && (babelTable.Some? ==> babelTable.value == BabelDict(locale.currencySymbols))
      && (staticTable.Some? ==> staticTable.value == StaticDict())
    }

    /** The table `from_static` builds: `xe_to_dict` of the bundled page. */
    function StaticDict(): (table: map<string, string>)
      requires XeTable.WellFormedRows(staticPage)
    {
      XeTable.XeToDict(staticPage)
    }

    /** What each strategy answers for `symbol`, in the order of `from_all`;
        `xePage` is the outcome of fetching and parsing the live page. */
    function ChainResults(symbol: string, xePage: Result<seq<XeTable.Row>, Error>): (results: seq<Result<string, Error>>)
      requires XeTable.WellFormedRows(staticPage)
      ensures |results| == 3
    {
      [ Dicts.Get(BabelDict(locale.currencySymbols), symbol),
        XeTable.FromXe(xePage, symbol),
        Dicts.Get(StaticDict(), symbol) ]
    }

    constructor (locale: Locale, staticPage: seq<XeTable.Row>)
      requires XeTable.WellFormedRows(staticPage)
      ensures Valid()
      ensures this.locale == locale && this.staticPage == staticPage
      ensures babelTable == None && staticTable == None && trace == []
    {
      this.locale := locale;
      this.staticPage := staticPage;
      babelTable := None;
      staticTable := None;
      babelBuilds := 0;
      staticBuilds := 0;
      trace := [];
    }

    /** `from_babel`: builds the babel table if it is absent, then looks the symbol up. */
    method FromBabel(symbol: string) returns (r: Result<string, Error>)
      requires Valid()
      modifies this`babelTable, this`babelBuilds, this`trace
      ensures Valid()
      ensures babelTable == Some(BabelDict(locale.currencySymbols))
      ensures old(babelTable).Some? ==> babelBuilds == old(babelBuilds)
      ensures babelBuilds <= 1
      ensures r == Dicts.Get(BabelDict(locale.currencySymbols), symbol)
      ensures r.Err? ==> r.error == KeyError(symbol)
      ensures trace == old(trace) + [Babel]
    {
      if babelTable.None? {
        babelTable := Some(BabelDict(locale.currencySymbols));
        babelBuilds := babelBuilds + 1;
      }
      r := Dicts.Get(babelTable.value, symbol);
      trace := trace + [Babel];
    }

    /** `from_static`: builds the static table if it is absent, then looks the symbol up. */
    method FromStatic(symbol: string) returns (r: Result<string, Error>)
      requires Valid()
      modifies this`staticTable, this`staticBuilds, this`trace
      ensures Valid()
      ensures staticTable == Some(StaticDict())
      ensures old(staticTable).Some? ==> staticBuilds == old(staticBuilds)
      ensures staticBuilds <= 1
      ensures r == Dicts.Get(StaticDict(), symbol)
      ensures r.Err? ==> r.error == KeyError(symbol)
      ensures trace == old(trace) + [Static]
    {
      if staticTable.None? {
        staticTable := Some(XeTable.XeToDict(staticPage));
        staticBuilds := staticBuilds + 1;
      }
      r := Dicts.Get(staticTable.value, symbol);
      trace := trace + [Static];
    }

    /** `from_xe`: queries the freshly fetched page; keeps no table. */
    method FromXe(symbol: string, xePage: Result<seq<XeTable.Row>, Error>) returns (r: Result<string, Error>)
      modifies this`trace
      ensures r == XeTable.FromXe(xePage, symbol)
      ensures trace == old(trace) + [Xe]
    {
      r := XeTable.FromXe(xePage, symbol);
      trace := trace + [Xe];
    }

    method Call(strategy: Strategy, symbol: string, xePage: Result<seq<XeTable.Row>, Error>)
      returns (r: Result<string, Error>)
      requires Valid()
      modifies this`babelTable, this`babelBuilds, this`staticTable, this`staticBuilds, this`trace
      ensures Valid()
      ensures r == ChainResults(symbol, xePage)[if strategy == Babel then 0 else if strategy == Xe then 1 else 2]
      ensures trace == old(trace) + [strategy]
      ensures babelTable == (if strategy == Babel then Some(BabelDict(locale.currencySymbols)) else old(babelTable))
      ensures staticTable == (if strategy == Static then Some(StaticDict()) else old(staticTable))
    {
      match strategy
      case Babel => r := FromBabel(symbol);
      case Xe => r := FromXe(symbol, xePage);
      case Static => r := FromStatic(symbol);
    }

    /** `from_all`: tries babel, xe and static in turn and returns the first
        success without calling the later strategies; when all three fail,
        the failure of the last one. */
    method FromAll(symbol: string, xePage: Result<seq<XeTable.Row>, Error>) returns (r: Result<string, Error>)
      requires Valid()
      modifies this`babelTable, this`babelBuilds, this`staticTable, this`staticBuilds, this`trace
      ensures Valid()
      ensures r == FirstSuccess(ChainResults(symbol, xePage))
      ensures trace == old(trace) + [Babel, Xe, Static][..Attempts(ChainResults(symbol, xePage))]
      ensures babelTable == Some(BabelDict(locale.currencySymbols))
      ensures staticTable == if Attempts(ChainResults(symbol, xePage)) == 3 then Some(StaticDict()) else old(staticTable)
    {
      var strategies := [Babel, Xe, Static];
      ghost var results := ChainResults(symbol, xePage);
      var err: Error :| true;
      var i := 0;
      while i < |strategies|
        invariant 0 <= i <= 3
        invariant Valid()
        invariant forall j :: 0 <= j < i ==> results[j].Err?
        invariant i > 0 ==> err == results[i - 1].error
        invariant trace == old(trace) + strategies[..i]
        invariant babelTable == if i == 0 then old(babelTable) else Some(BabelDict(locale.currencySymbols))
        invariant staticTable == if i == 3 then Some(StaticDict()) else old(staticTable)
      {
        var res := Call(strategies[i], symbol, xePage);
        if res.Ok? {
          FirstSuccessAt(results, i);
          assert strategies[..i + 1] == strategies[..i] + [strategies[i]];
          return res;
        }
        err := res.error;
        assert strategies[..i + 1] == strategies[..i] + [strategies[i]];
        i := i + 1;
      }
      AllFailed(results);
      assert strategies[..3] == strategies;
      return Err(err);
    }

    /** `repr_to_code`: a known currency code is returned as it is, without
        consulting any table; otherwise babel, then static (never xe), and
        None when both raise KeyError. */
    method ReprToCode(codeOrSymbol: string) returns (r: Option<string>)
      requires Valid()
      modifies this`babelTable, this`babelBuilds, this`staticTable, this`staticBuilds, this`trace
      ensures Valid()
      ensures codeOrSymbol in locale.currencies ==>
        r == Some(codeOrSymbol) && trace == old(trace)
        && babelTable == old(babelTable) && staticTable == old(staticTable)
      ensures codeOrSymbol !in locale.currencies ==>
        var babel := BabelDict(locale.currencySymbols);
        && r == (if codeOrSymbol in babel then Some(babel[codeOrSymbol])
                 else if codeOrSymbol in StaticDict() then Some(StaticDict()[codeOrSymbol])
                 else None)
        && trace == old(trace) + (if codeOrSymbol in babel then [Babel] else [Babel, Static])
        && babelTable == Some(babel)
        && staticTable == (if codeOrSymbol in babel then old(staticTable) else Some(StaticDict()))
    {
      if codeOrSymbol in locale.currencies {
        return Some(codeOrSymbol);
      }
      var fromBabel := FromBabel(codeOrSymbol);
      if fromBabel.Ok? {
        return Some(fromBabel.value);
      }
      var fromStatic := FromStatic(codeOrSymbol);
      if fromStatic.Ok? {
        return Some(fromStatic.value);
      }
      return None;
    }
  }

  /** When every strategy fails, `from_all` re-raises the static lookup's
      KeyError for the symbol. */
  lemma ChainFailureIsKeyError(d: SymbolDict, symbol: string, xePage: Result<seq<XeTable.Row>, Error>)
    requires XeTable.WellFormedRows(d.staticPage)
    requires FirstSuccess(d.ChainResults(symbol, xePage)).Err?
    ensures FirstSuccess(d.ChainResults(symbol, xePage)) == Err(KeyError(symbol))
  {
    FirstSuccessSpec(d.ChainResults(symbol, xePage));
  }
}
