/** The store list: its column headers, its rows, the normalisation of the
    headers, the tokeniser for the clerk's store-number input, and the two
    queries the reply composer makes of the rows. */
module Stores {
  import opened Wrappers
  import opened Text

  /** One row of the store list. The store number is the cell already
      converted with `str` (the `astype(str)` of the lookup and the filter);
      the region code is the `str` of its cell. Whether the list has a
      region-code column at all is told by the column list, not the row. */
  datatype Row = Row(storeNumber: string, regionCode: string)

  const StoreNumberColumn: string := "store number"
  const RegionCodeColumn: string := "region code"

  // ---------------------------------------------------------------------
  // Header normalisation

  /** `col.lower().strip()`: a header with no ASCII capital and no
      whitespace at either end, made of the characters of the lower-cased
      header. */
  function NormalizeHeader(h: string): (r: string)
    ensures r == [] || (!IsSpace(r[0]) && !IsSpace(r[|r| - 1]))
    ensures forall i :: 0 <= i < |r| ==> !('A' <= r[i] <= 'Z')
    ensures forall c :: c in r ==> c in Lower(h)
  {
    StripChars(Lower(h));
    StripOfLowerHasNoCapital(h);
    Strip(Lower(h))
  }

  /** The stripped lower-cased header holds no ASCII capital. */
  lemma StripOfLowerHasNoCapital(h: string)
    ensures forall i :: 0 <= i < |Strip(Lower(h))| ==> !('A' <= Strip(Lower(h))[i] <= 'Z')
  {
    var l := Lower(h);
    var r := Strip(l);
    var a := StripStart(l);
    forall i | 0 <= i < |r| ensures !('A' <= r[i] <= 'Z') {
      assert r[i] == l[a + i];
    }
  }

  function NormalizeColumns(cols: seq<string>): (r: seq<string>)
    ensures |r| == |cols|
    ensures forall i :: 0 <= i < |cols| ==> r[i] == NormalizeHeader(cols[i])
  {
    seq(|cols|, i requires 0 <= i < |cols| => NormalizeHeader(cols[i]))
  }

  /** A normalised header is its own normal form. */
  lemma NormalizeHeaderIdempotent(h: string)
    ensures NormalizeHeader(NormalizeHeader(h)) == NormalizeHeader(h)
  {
    var y := Lower(h);
    var z := Strip(y);
    StripChars(y);
    LowerOfLowered(h, z);
    StripIdempotent(y);
  }

  /** Normalising the headers a second time (the handler does it on every
      click, on the list it keeps between clicks) changes nothing. */
  lemma NormalizeColumnsIdempotent(cols: seq<string>)
    ensures NormalizeColumns(NormalizeColumns(cols)) == NormalizeColumns(cols)
  {
    forall i | 0 <= i < |cols|
      ensures NormalizeColumns(NormalizeColumns(cols))[i] == NormalizeColumns(cols)[i]
    {
      NormalizeHeaderIdempotent(cols[i]);
    }
  }

  // ---------------------------------------------------------------------
  // Store-number input

  /** A store-number token: non-empty, no whitespace and no comma. */
  predicate IsToken(w: string) {
    IsWord(w) && ',' !in w
  }

  /** `[s.strip() for s in parts if s.strip()]`: at most as many pieces,
      each one non-empty and already stripped. */
  function StripNonBlank(parts: seq<string>): (r: seq<string>)
    ensures |r| <= |parts|
    ensures forall k :: 0 <= k < |r| ==> r[k] != [] && Strip(r[k]) == r[k]
  {
    if parts == [] then []
    else
      var t := Strip(parts[0]);
      StripIdempotent(parts[0]);
      (if t != [] then [t] else []) + StripNonBlank(parts[1..])
  }

  lemma {:induction false} StripNonBlankOfWords(parts: seq<string>)
    requires forall k :: 0 <= k < |parts| ==> IsWord(parts[k])
    ensures StripNonBlank(parts) == parts
  {
    if parts != [] {
      StripWord(parts[0]);
      StripNonBlankOfWords(parts[1..]);
      assert parts == [parts[0]] + parts[1..];
    }
  }

  /** The store numbers typed by the clerk: commas become spaces, the text
      is split on whitespace and the blank pieces are dropped. Each token is
      non-empty and holds neither whitespace nor a comma. */
  function Tokenize(input: string): (tokens: seq<string>)
    ensures forall k :: 0 <= k < |tokens| ==> IsToken(tokens[k])
  {
    var spaced := ReplaceAll(input, ",", " ");
    var words := SplitWhitespace(spaced);
    StripNonBlankOfWords(words);
    ReplaceEliminates(input, ",", " ");
    OccursSingle(spaced, ',');
    StripNonBlank(words)
  }

  lemma NoCommaInJoin(tokens: seq<string>)
    requires forall k :: 0 <= k < |tokens| ==> IsToken(tokens[k])
    ensures ',' !in JoinWith(tokens, " ")
  {
    if ',' in JoinWith(tokens, " ") {
      JoinChars(tokens, " ", ',');
    }
  }

  /** Tokens written back separated by single spaces tokenise to themselves. */
  lemma TokenizeJoin(tokens: seq<string>)
    requires forall k :: 0 <= k < |tokens| ==> IsToken(tokens[k])
    ensures Tokenize(JoinWith(tokens, " ")) == tokens
  {
    var s := JoinWith(tokens, " ");
    NoCommaInJoin(tokens);
    OccursSingle(s, ',');
    ReplaceAbsent(s, ",", " ");
    SplitJoin(tokens);
    StripNonBlankOfWords(tokens);
  }

  lemma {:induction false} StripNonBlankConcat(x: seq<string>, y: seq<string>)
    ensures StripNonBlank(x + y) == StripNonBlank(x) + StripNonBlank(y)
  {
    if x == [] {
      assert x + y == y;
    } else {
      var head := if Strip(x[0]) != [] then [Strip(x[0])] else [];
      assert (x + y)[0] == x[0];
      assert (x + y)[1..] == x[1..] + y;
      StripNonBlankConcat(x[1..], y);
      calc {
        StripNonBlank(x + y);
        head + StripNonBlank(x[1..] + y);
        head + (StripNonBlank(x[1..]) + StripNonBlank(y));
        (head + StripNonBlank(x[1..])) + StripNonBlank(y);
      }
    }
  }

  /** Every comma and every whitespace character separates tokens: the
      tokens of `a + [c] + b` are those of `a` followed by those of `b`.
      With `TokenizeEmpty` and `TokenizeSingle` this fixes the tokens of
      every input, in order. */
  lemma TokenizeAtSeparator(a: string, c: char, b: string)
    requires c == ',' || IsSpace(c)
    ensures Tokenize(a + [c] + b) == Tokenize(a) + Tokenize(b)
  {
    var d := if c == ',' then ' ' else c;
    var ra, rb := ReplaceAll(a, ",", " "), ReplaceAll(b, ",", " ");
    ReplaceCharConcat(a + [c], b, ',', " ");
    ReplaceCharConcat(a, [c], ',', " ");
    assert [c][..1] == [c] && [c][1..] == [];
    assert ReplaceAll([c], ",", " ") == [d];
    assert ReplaceAll(a + [c] + b, ",", " ") == ra + [d] + rb;
    SplitAtSpace(ra, d, rb);
    StripNonBlankConcat(SplitWhitespace(ra), SplitWhitespace(rb));
  }

  /** An empty input has no tokens. */
  lemma TokenizeEmpty()
    ensures Tokenize([]) == []
  {
    assert ReplaceAll([], ",", " ") == [];
  }

  /** A lone token is the only token. */
  lemma TokenizeSingle(w: string)
    requires IsToken(w)
    ensures Tokenize(w) == [w]
  {
    TokenizeJoin([w]);
  }

  /** Re-tokenising the space-joined tokens of any input gives them back. */
  lemma TokenizeStable(input: string)
    ensures Tokenize(JoinWith(Tokenize(input), " ")) == Tokenize(input)
  {
    TokenizeJoin(Tokenize(input));
  }

  // ---------------------------------------------------------------------
  // Queries on the rows

  /** Row `i` is the first row whose store number is `key`. */
  predicate IsFirstMatch(rows: seq<Row>, key: string, i: int) {
    && 0 <= i < |rows| && rows[i].storeNumber == key
    && forall j :: 0 <= j < i ==> rows[j].storeNumber != key
  }

  predicate HasStore(rows: seq<Row>, key: string) {
    exists i :: 0 <= i < |rows| && rows[i].storeNumber == key
  }

  /** `df[df["store number"].astype(str) == key]` followed by `iloc[0]`:
      the index of the first row with that store number, or none. */
  function FirstMatch(rows: seq<Row>, key: string): (r: Option<nat>)
    ensures r.Some? ==> IsFirstMatch(rows, key, r.value)
    ensures r.None? <==> !HasStore(rows, key)
  {
    if rows == [] then None
    else
      var init := rows[..|rows| - 1];
      assert forall j :: 0 <= j < |init| ==> init[j] == rows[j];
      match FirstMatch(init, key)
      case Some(i) => Some(i)
      case None => if rows[|rows| - 1].storeNumber == key then Some(|rows| - 1) else None
  }

  predicate Selected(row: Row, numbers: seq<string>) {
    row.storeNumber in numbers
  }

  /** `df[df["store number"].astype(str).isin(numbers)]`: the rows whose
      store number is one of `numbers`, in their original order. */
  function FilterRows(rows: seq<Row>, numbers: seq<string>): (f: seq<Row>)
    ensures |f| <= |rows|
    ensures forall k :: 0 <= k < |f| ==> f[k] in rows && Selected(f[k], numbers)
    ensures f == [] <==> forall i :: 0 <= i < |rows| ==> !Selected(rows[i], numbers)
  {
    if rows == [] then []
    else
      var init := rows[..|rows| - 1];
      var last := rows[|rows| - 1];
      assert forall j :: 0 <= j < |init| ==> init[j] == rows[j];
      FilterRows(init, numbers) + (if Selected(last, numbers) then [last] else [])
  }

  /** The positions of the selected rows, in increasing order: each one is a
      selected row, and every selected row is among them. */
  function SelectedPositions(rows: seq<Row>, numbers: seq<string>): (ps: seq<nat>)
    ensures forall k :: 0 <= k < |ps| ==> ps[k] < |rows| && Selected(rows[ps[k]], numbers)
    ensures forall k, l :: 0 <= k < l < |ps| ==> ps[k] < ps[l]
    ensures forall i :: 0 <= i < |rows| && Selected(rows[i], numbers) ==> i in ps
  {
    if rows == [] then []
    else
      var n := |rows| - 1;
      var init := rows[..n];
      assert forall j :: 0 <= j < n ==> init[j] == rows[j];
      SelectedPositions(init, numbers) + (if Selected(rows[n], numbers) then [n] else [])
  }

  /** The filter keeps exactly the selected rows, as a subsequence in row
      order: its k-th row is the row at the k-th selected position. */
  lemma {:induction false} FilterIsSubsequence(rows: seq<Row>, numbers: seq<string>)
    ensures |FilterRows(rows, numbers)| == |SelectedPositions(rows, numbers)|
    ensures forall k :: 0 <= k < |FilterRows(rows, numbers)| ==>
              FilterRows(rows, numbers)[k] == rows[SelectedPositions(rows, numbers)[k]]
  {
    if rows != [] {
      var n := |rows| - 1;
      var init := rows[..n];
      var fi, pi := FilterRows(init, numbers), SelectedPositions(init, numbers);
      FilterIsSubsequence(init, numbers);
      var f, ps := FilterRows(rows, numbers), SelectedPositions(rows, numbers);
      assert f == fi + (if Selected(rows[n], numbers) then [rows[n]] else []);
      assert ps == pi + (if Selected(rows[n], numbers) then [n] else []);
      forall k | 0 <= k < |f| ensures f[k] == rows[ps[k]] {
        if k < |fi| {
          assert f[k] == fi[k] == init[pi[k]];
          assert ps[k] == pi[k] < n;
        }
      }
    }
  }

  // ---------------------------------------------------------------------
  // The store list kept between clicks

  /** The store list held in the session: the handler lower-cases and trims
      its headers in place before reading it. */
  class StoreList {
    var columns: seq<string>
    var rows: seq<Row>

    constructor (columns: seq<string>, rows: seq<Row>)
      ensures this.columns == columns && this.rows == rows
    {
      this.columns := columns;
      this.rows := rows;
    }

    /** `df.columns = [col.lower().strip() for col in df.columns]`. */
    method NormalizeHeaders()
      modifies this
      ensures columns == NormalizeColumns(old(columns))
      ensures rows == old(rows)
    {
      columns := NormalizeColumns(columns);
    }
  }
}
