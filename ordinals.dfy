/** The ordinal encoding of a currency symbol (`symbol_ords`) and its inverse,
    the decoding of a table cell back into a symbol (`symbol` inside `xe_to_dict`).

    A symbol is encoded as the decimal Unicode code point of each character,
    joined by ", ": "$" becomes "36" and "R$" becomes "82, 36". */
module Ordinals {

  const Separator: string := ", "

  /* ---------- Decimal numerals: str(n) and int(s) ---------- */

  predicate IsDigit(c: char) {
    '0' <= c <= '9'
  }

  predicate IsDigits(s: string) {
    forall i :: 0 <= i < |s| ==> IsDigit(s[i])
  }

  function DigitChar(d: nat): (c: char)
    requires d < 10
    ensures IsDigit(c)
  {
    ['0', '1', '2', '3', '4', '5', '6', '7', '8', '9'][d]
  }

  function DigitValue(c: char): (d: nat)
    requires IsDigit(c)
    ensures d < 10
  {
    c as int - '0' as int
  }

  /** Python's `str(n)` for a non-negative integer: the shortest decimal numeral. */
  function DecimalString(n: nat): (s: string)
    ensures 1 <= |s| && IsDigits(s)
    ensures s[0] == '0' ==> n == 0
    decreases n
  {
    if n < 10 then [DigitChar(n)] else DecimalString(n / 10) + [DigitChar(n % 10)]
  }

  /** Python's `int(s)` on a string of ASCII digits (leading zeros allowed). */
  function DecimalValue(s: string): (n: nat)
    requires IsDigits(s)
    decreases |s|
  {
    if s == [] then 0 else 10 * DecimalValue(s[..|s| - 1]) + DigitValue(s[|s| - 1])
  }

  /** `int(str(n)) == n`. */
  lemma {:induction false} DecimalRoundTrip(n: nat)
    ensures DecimalValue(DecimalString(n)) == n
    decreases n
  {
    if n >= 10 {
      var s := DecimalString(n);
      assert s[..|s| - 1] == DecimalString(n / 10);
      DecimalRoundTrip(n / 10);
      assert DigitValue(DigitChar(n % 10)) == n % 10;
    } else {
      assert DigitValue(DigitChar(n)) == n;
    }
  }

  /* ---------- sep.join and str.split with the separator ", " ---------- */

  /** Python's `", ".join(parts)`. */
  function Join(parts: seq<string>): (s: string)
    decreases |parts|
  {
    if |parts| == 0 then ""
    else if |parts| == 1 then parts[0]
    else parts[0] + Separator + Join(parts[1..])
  }

  predicate SeparatorAt(s: string, i: int) {
    0 <= i && i + 1 < |s| && s[i] == ',' && s[i + 1] == ' '
  }

  /** The index of the first separator at or after `from`, or `|s|` if there is none. */
  function FindSeparator(s: string, from: nat): (i: nat)
    requires from <= |s|
    ensures from <= i <= |s|
    ensures i < |s| ==> SeparatorAt(s, i)
    ensures forall j :: from <= j < i ==> !SeparatorAt(s, j)
    decreases |s| - from
  {
    if from + 1 >= |s| then |s|
    else if SeparatorAt(s, from) then from
    else FindSeparator(s, from + 1)
  }

  /** Python's `s.split(", ")`: the pieces between non-overlapping separators,
      scanned left to right; always at least one piece (`"".split(", ") == [""]`). */
  function Split(s: string): (parts: seq<string>)
    ensures 1 <= |parts|
    decreases |s|
  {
    var i := FindSeparator(s, 0);
    if i < |s| then [s[..i]] + Split(s[i + 2..]) else [s]
  }

  predicate NoComma(s: string) {
    forall i :: 0 <= i < |s| ==> s[i] != ','
  }

  /** Splitting a join gives the parts back when no part contains a comma. */
  lemma {:induction false} SplitJoin(parts: seq<string>)
    requires 1 <= |parts|
    requires forall k :: 0 <= k < |parts| ==> NoComma(parts[k])
    ensures Split(Join(parts)) == parts
    decreases |parts|
  {
    var s := Join(parts);
    var i := FindSeparator(s, 0);
    if |parts| == 1 {
      assert s == parts[0];
      assert forall j :: 0 <= j < |s| ==> !SeparatorAt(s, j);
    } else {
      var p := parts[0];
      var rest := Join(parts[1..]);
      assert s == p + Separator + rest;
      assert SeparatorAt(s, |p|);
      assert forall j :: 0 <= j < |p| ==> s[j] == p[j];
      assert i == |p|;
      assert s[..i] == p;
      assert s[i + 2..] == rest;
      SplitJoin(parts[1..]);
      assert parts == [p] + parts[1..];
    }
  }

  /* ---------- symbol_ords and its inverse ---------- */

  /** A character's code point, Python's `ord`. */
  function Ord(c: char): (n: nat) {
    c as int
  }

  /** The numbers `chr` accepts here: the Unicode scalar values (code points
      that are not surrogates). */
  predicate IsScalarValue(n: int) {
    0 <= n < 0xD800 || 0xE000 <= n < 0x11_0000
  }

  /** `str(ord(x)) for x in symbol`. */
  function OrdTokens(symbol: string): (tokens: seq<string>) {
    seq(|symbol|, i requires 0 <= i < |symbol| => DecimalString(Ord(symbol[i])))
  }

  /** `symbol_ords`: the decimal code points of the symbol, joined by ", ". */
  function SymbolOrds(symbol: string): (cell: string) {
    Join(OrdTokens(symbol))
  }

  /** A token that `chr(int(token))` turns into a character. */
  predicate IsOrdToken(token: string) {
    1 <= |token| && IsDigits(token) && IsScalarValue(DecimalValue(token))
  }

  /** A cell whose every piece, split at ", ", is an ordinal token. */
  predicate WellFormedOrds(cell: string) {
    var tokens := Split(cell);
    forall k :: 0 <= k < |tokens| ==> IsOrdToken(tokens[k])
  }

  /** `''.join(chr(int(x)) for x in cell.split(', '))`. */
  function DecodeOrds(cell: string): (symbol: string)
    requires WellFormedOrds(cell)
    ensures |symbol| == |Split(cell)|
  {
    var tokens := Split(cell);
    seq(|tokens|, k requires 0 <= k < |tokens| => DecimalValue(tokens[k]) as char)
  }

  /** symbol_ords writes one numeral per character, each the character's code
      point, in the order of the characters. */
  lemma SymbolOrdsTokens(symbol: string)
    requires symbol != ""
    ensures Split(SymbolOrds(symbol)) == OrdTokens(symbol)
    ensures |Split(SymbolOrds(symbol))| == |symbol|
    ensures forall k :: 0 <= k < |symbol| ==>
      DecimalValue(Split(SymbolOrds(symbol))[k]) == Ord(symbol[k])
  {
    var tokens := OrdTokens(symbol);
    forall k | 0 <= k < |tokens| ensures NoComma(tokens[k]) {
      assert IsDigits(tokens[k]);
    }
    SplitJoin(tokens);
    forall k | 0 <= k < |symbol| ensures DecimalValue(tokens[k]) == Ord(symbol[k]) {
      DecimalRoundTrip(Ord(symbol[k]));
    }
  }

  /** Round trip: decoding the encoding of a non-empty symbol gives it back. */
  lemma SymbolOrdsRoundTrip(symbol: string)
    requires symbol != ""
    ensures WellFormedOrds(SymbolOrds(symbol))
    ensures DecodeOrds(SymbolOrds(symbol)) == symbol
  {
    SymbolOrdsTokens(symbol);
    var tokens := Split(SymbolOrds(symbol));
    forall k | 0 <= k < |tokens| ensures IsOrdToken(tokens[k]) {
      assert tokens[k] == DecimalString(Ord(symbol[k]));
    }
  }

  /** The empty symbol encodes to "", which splits into one empty token that
      `int` rejects: the round trip holds for non-empty symbols only. */
  lemma EmptySymbolNotDecodable()
    ensures SymbolOrds("") == ""
    ensures !WellFormedOrds(SymbolOrds(""))
  {
    assert OrdTokens("") == [];
    assert Split("") == [""];
    assert !IsOrdToken(Split("")[0]);
  }

  /** Different symbols have different encodings, so matching a cell against
      `symbol_ords(symbol)` singles out that one symbol. */
  lemma SymbolOrdsInjective(a: string, b: string)
    requires SymbolOrds(a) == SymbolOrds(b)
    ensures a == b
  {
    SymbolOrdsEmpty(a);
    SymbolOrdsEmpty(b);
    if a != "" && b != "" {
      SymbolOrdsRoundTrip(a);
      SymbolOrdsRoundTrip(b);
    }
  }

  /** Only the empty symbol has the empty encoding. */
  lemma {:induction false} SymbolOrdsEmpty(symbol: string)
    ensures SymbolOrds(symbol) == "" <==> symbol == ""
  {
    var tokens := OrdTokens(symbol);
    if |tokens| == 0 {
      assert symbol == "";
    } else if |tokens| == 1 {
      assert SymbolOrds(symbol) == tokens[0];
    } else {
      assert SymbolOrds(symbol) == tokens[0] + Separator + Join(tokens[1..]);
    }
  }

  /** A leading zero does not change a numeral's value. */
  lemma {:induction false} LeadingZeroValue(t: string)
    requires IsDigits(t)
    ensures IsDigits("0" + t)
    ensures DecimalValue("0" + t) == DecimalValue(t)
    decreases |t|
  {
    if t != [] {
      var init := t[..|t| - 1];
      assert ("0" + t)[..|t|] == "0" + init;
      LeadingZeroValue(init);
    }
  }

  /** Decoding ignores leading zeros: a one-character cell padded with a zero
      decodes to the same symbol as the unpadded cell, yet differs from that
      symbol's encoding, so the text match of `from_xe` misses it. */
  lemma PaddedCellDecodesAlike(token: string)
    requires IsOrdToken(token)
    ensures WellFormedOrds(token) && WellFormedOrds("0" + token)
    ensures DecodeOrds("0" + token) == DecodeOrds(token)
    ensures SymbolOrds(DecodeOrds("0" + token)) != "0" + token
  {
    LeadingZeroValue(token);
    var padded := "0" + token;
    assert NoComma(token) && NoComma(padded) by {
      assert forall i :: 0 <= i < |token| ==> IsDigit(token[i]);
      assert forall i :: 0 <= i < |padded| ==> IsDigit(padded[i]);
    }
    SplitJoin([token]);
    SplitJoin([padded]);
    assert Split(token) == [token] && Split(padded) == [padded];
    var symbol := DecodeOrds(padded);
    assert symbol == [DecimalValue(token) as char];
    assert OrdTokens(symbol) == [DecimalString(DecimalValue(token))];
    var enc := DecimalString(DecimalValue(token));
    assert SymbolOrds(symbol) == enc;
  }

  /** An instance of the above: "036" decodes to "$", whose encoding is "36". */
  lemma PaddedCellDecodesToDollar()
    ensures WellFormedOrds("036")
    ensures DecodeOrds("036") == "$"
    ensures SymbolOrds("$") == "36"
  {
    assert Split("036") == ["036"];
    assert DecimalValue("036") == 36 by {
      assert "036"[..2] == "03";
      assert "03"[..1] == "0";
      assert ""[..0] == "";
      assert "0"[..0] == "";
    }
    assert DecimalString(36) == "36";
    assert OrdTokens("$") == ["36"];
  }
}
