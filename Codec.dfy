/** The puzzle's text format: reading the 36 whitespace-separated tokens into
    a grid, and the text that printing and saving a grid produce. */
module Codec {
  import opened Board

  /** What reading a malformed token raises: `std::invalid_argument` from
      `std::stoi` when no digit is found, `std::out_of_range` from `std::stoi`
      when the number does not fit in an `int`. (`std::string::substr` past
      the end of a pair token would raise `std::out_of_range` too, but the
      only such token, "/", has already failed in `std::stoi`.) */
  datatype ParseError = InvalidArgument | OutOfRange

  datatype Result<T> = Ok(value: T) | Err(error: ParseError) {
    predicate IsFailure() {
      Err?
    }

    function PropagateFailure<U>(): Result<U>
      requires Err?
    {
      Err(error)
    }

    function Extract(): T
      requires Ok?
    {
      value
    }
  }

  /** Bounds of a 32-bit `int`. */
  const IntMin := -0x8000_0000
  const IntMax := 0x7fff_ffff

  predicate IsDigit(ch: char) {
    '0' <= ch <= '9'
  }

  function DigitValue(ch: char): (d: int)
    requires IsDigit(ch)
    ensures 0 <= d <= 9
  {
    ch as int - '0' as int
  }

  function DigitChar(d: int): (ch: char)
    requires 0 <= d <= 9
    ensures IsDigit(ch) && DigitValue(ch) == d
  {
    ('0' as int + d) as char
  }

  // ---------------------------------------------------------------------------
  // Numbers

  /** Length of the run of decimal digits that starts `s`. */
  function LeadingDigits(s: string): (n: nat)
    ensures n <= |s|
    ensures forall k :: 0 <= k < n ==> IsDigit(s[k])
    ensures n < |s| ==> !IsDigit(s[n])
  {
    if s == [] || !IsDigit(s[0]) then 0 else 1 + LeadingDigits(s[1..])
  }

  /** The number a string of decimal digits denotes. */
  function DecimalValue(s: string): nat
    requires forall k :: 0 <= k < |s| ==> IsDigit(s[k])
  {
    if s == [] then 0 else 10 * DecimalValue(s[..|s| - 1]) + DigitValue(s[|s| - 1])
  }

  /** Length of the optional sign that starts `s`: 1 for '+' or '-', else 0. */
  function SignLength(s: string): (n: nat)
    ensures n <= |s|
  {
    if |s| > 0 && (s[0] == '+' || s[0] == '-') then 1 else 0
  }

  /** `std::stoi` on a token: an optional sign, then the leading run of
      digits; the rest of the token is ignored. */
  function Stoi(s: string): (r: Result<int>)
    ensures r.Ok? ==> IntMin <= r.value <= IntMax
    ensures r == Err(InvalidArgument) <==> LeadingDigits(s[SignLength(s)..]) == 0
    ensures r.Ok? ==> exists k :: 0 <= k < |s| && IsDigit(s[k])
  {
    var body := s[SignLength(s)..];
    var n := LeadingDigits(body);
    if n == 0 then Err(InvalidArgument)
    else
      assert IsDigit(s[SignLength(s)]);
      var m: int := DecimalValue(body[..n]);
      var v: int := if SignLength(s) == 1 && s[0] == '-' then -m else m;
      if v < IntMin || v > IntMax then Err(OutOfRange) else Ok(v)
  }

  /** A run of n digits that nothing continues is the leading run. */
  lemma {:induction false} LeadingDigitsExact(t: string, n: nat)
    requires n <= |t| && forall k :: 0 <= k < n ==> IsDigit(t[k])
    requires n == |t| || !IsDigit(t[n])
    ensures LeadingDigits(t) == n
  {
    if n > 0 {
      LeadingDigitsExact(t[1..], n - 1);
    }
  }

  /** `std::stoi` reads the longest run of digits after the optional sign,
      leading zeros included, and negates it after a '-'; a value outside
      the `int` range raises `OutOfRange`. */
  lemma StoiValue(s: string, n: nat)
    requires SignLength(s) + n <= |s| && n >= 1
    requires forall k :: SignLength(s) <= k < SignLength(s) + n ==> IsDigit(s[k])
    requires SignLength(s) + n == |s| || !IsDigit(s[SignLength(s) + n])
    ensures var m: int := DecimalValue(s[SignLength(s)..SignLength(s) + n]);
      var v := if SignLength(s) == 1 && s[0] == '-' then -m else m;
      Stoi(s) == if IntMin <= v <= IntMax then Ok(v) else Err(OutOfRange)
  {
    var body := s[SignLength(s)..];
    LeadingDigitsExact(body, n);
    assert body[..n] == s[SignLength(s)..SignLength(s) + n];
    StoiDigits(s, n);
  }

  /** `Stoi` once the sign and the run of digits are known. */
  lemma StoiDigits(s: string, n: nat)
    requires LeadingDigits(s[SignLength(s)..]) == n > 0
    ensures var m: int := DecimalValue(s[SignLength(s)..][..n]);
      var v := if SignLength(s) == 1 && s[0] == '-' then -m else m;
      Stoi(s) == if IntMin <= v <= IntMax then Ok(v) else Err(OutOfRange)
  {
  }

  /** A token whose optional sign is not followed by a digit raises
      `InvalidArgument`. */
  lemma StoiNoDigits(sign: string, rest: string)
    requires sign == "" || sign == "+" || sign == "-"
    requires rest == [] || !IsDigit(rest[0])
    requires sign == "" && rest != [] ==> rest[0] != '+' && rest[0] != '-'
    ensures Stoi(sign + rest) == Err(InvalidArgument)
  {
    var s := sign + rest;
    if sign == "" {
      assert s == rest;
    } else {
      assert s[0] == sign[0];
      assert s[1..] == rest;
    }
  }

  /** A leading sign as `std::stoi` treats it. */
  lemma StoiSignExamples()
    ensures Stoi("+5") == Ok(5)
    ensures Stoi("-5") == Ok(-5)
  {
    StoiValue("+5", 1);
    assert "+5"[1..2] == "5";
    StoiValue("-5", 1);
    assert "-5"[1..2] == "5";
  }

  /** A leading zero does not change the value `std::stoi` reads. */
  lemma StoiLeadingZeroExample()
    ensures Stoi("07") == Ok(7)
  {
    StoiValue("07", 2);
    assert "07"[0..2] == "07" && "07"[..1] == "0";
  }

  /** `std::stoi` ignores what follows the digits, and fails on what precedes them. */
  lemma StoiTrailingExamples()
    ensures Stoi("1x") == Ok(1)
    ensures Stoi("x1") == Err(InvalidArgument)
  {
    StoiValue("1x", 1);
    assert "1x"[0..1] == "1";
    StoiNoDigits("", "x1");
  }

  /** Decimal text of a natural number, as `operator<<` writes it. */
  function NatText(n: nat): (s: string)
    ensures |s| >= 1 && forall k :: 0 <= k < |s| ==> IsDigit(s[k])
    ensures n <= 9 ==> s == [DigitChar(n)]
  {
    if n < 10 then [DigitChar(n)] else NatText(n / 10) + [DigitChar(n % 10)]
  }

  /** Decimal text of an `int`, with a leading '-' when negative. */
  function IntText(n: int): string {
    if n < 0 then "-" + NatText(-n) else NatText(n)
  }

  /** The text of an `int` is non-empty and holds only digits and '-'. */
  lemma IntTextChars(n: int)
    ensures |IntText(n)| >= 1
    ensures forall k :: 0 <= k < |IntText(n)| ==> IsDigit(IntText(n)[k]) || IntText(n)[k] == '-'
  {
    if n < 0 {
      var d := NatText(-n);
      assert forall k :: 1 <= k < |IntText(n)| ==> IntText(n)[k] == d[k - 1];
    }
  }

  lemma {:induction false} DecimalValueOfNatText(n: nat)
    ensures DecimalValue(NatText(n)) == n
  {
    if n >= 10 {
      var s := NatText(n);
      assert s[..|s| - 1] == NatText(n / 10);
      DecimalValueOfNatText(n / 10);
    }
  }

  /** Reading back the text of a number that fits in an `int` gives the number. */
  lemma StoiOfNatText(n: nat)
    requires n <= IntMax
    ensures Stoi(NatText(n)) == Ok(n)
  {
    var s := NatText(n);
    assert LeadingDigits(s) == |s|;
    assert s[..|s|] == s;
    DecimalValueOfNatText(n);
  }

  // ---------------------------------------------------------------------------
  // Tokens and cells

  /** A slot of a pair token: '-' is an open slot, anything else goes to `std::stoi`. */
  function SlotValue(piece: string): Result<int> {
    if piece == "-" then Ok(0) else Stoi(piece)
  }

  /** One token of the puzzle text as one cell. A token holding '/' is a pair
      whose slots are read from characters 0 and 2; any other token is a
      single cell, open if it holds '-', else the number `std::stoi` reads. */
  function ParseToken(tok: string): (r: Result<Cell>)
    ensures r.Ok? ==> (r.value.twoVals <==> '/' in tok)
    ensures r.Ok? && '/' in tok ==> |tok| >= 3
    ensures r.Ok? && '/' !in tok ==> r.value.second == 0
    ensures r.Ok? && '/' !in tok && '-' in tok ==> r.value.first == 0
    ensures '/' in tok && |tok| < 2 ==> r == Err(InvalidArgument)
  {
    if '/' in tok then
      var first :- SlotValue(tok[..1]);
      // unreachable: a '/' token shorter than 2 is "/", rejected just above
      if |tok| < 2 then Err(OutOfRange)
      else
        var second :- SlotValue(tok[2..if |tok| == 2 then 2 else 3]);
        Ok(Cell(first, second, true))
    else if '-' in tok then
      Ok(Cell(0, 0, false))
    else
      var first :- Stoi(tok);
      Ok(Cell(first, 0, false))
  }

  /** The characters the input format allows in a slot: a digit 1..9, or '-'
      for an open slot. */
  predicate IsSlotChar(ch: char) {
    ch == '-' || ('1' <= ch <= '9')
  }

  function SlotCharValue(ch: char): (v: int)
    requires IsSlotChar(ch)
    ensures 0 <= v <= 9
  {
    if ch == '-' then 0 else DigitValue(ch)
  }

  lemma StoiOfDigit(ch: char)
    requires IsDigit(ch)
    ensures Stoi([ch]) == Ok(DigitValue(ch))
  {
    var s := [ch];
    assert LeadingDigits(s) == 1;
    assert s[..1] == s && s[..0] == [];
    assert DecimalValue(s) == DigitValue(ch);
  }

  /** The two token forms of the input format: `D` and `D/D`. */
  lemma ParseTokenForms(a: char, b: char)
    requires IsSlotChar(a) && IsSlotChar(b)
    ensures ParseToken([a]) == Ok(Cell(SlotCharValue(a), 0, false))
    ensures ParseToken([a, '/', b]) == Ok(Cell(SlotCharValue(a), SlotCharValue(b), true))
  {
    if a != '-' {
      StoiOfDigit(a);
    }
    if b != '-' {
      StoiOfDigit(b);
    }
    var tok := [a, '/', b];
    assert '/' in tok;
    assert tok[..1] == [a] && tok[2..3] == [b];
  }

  /** Text of one cell: `first`, or `first/second` for a pair. */
  function CellText(cell: Cell): string {
    if cell.twoVals then IntText(cell.first) + "/" + IntText(cell.second) else IntText(cell.first)
  }

  /** Cells whose text reads back as the same cell: pairs of one-digit slots,
      and single cells with a non-negative `int` and the unused slot at 0. */
  predicate Storable(cell: Cell) {
    if cell.twoVals then 0 <= cell.first <= 9 && 0 <= cell.second <= 9
    else 0 <= cell.first <= IntMax && cell.second == 0
  }

  lemma CellRoundTrip(cell: Cell)
    requires Storable(cell)
    ensures ParseToken(CellText(cell)) == Ok(cell)
  {
    var tok := CellText(cell);
    if cell.twoVals {
      var a, b := DigitChar(cell.first), DigitChar(cell.second);
      assert tok == [a, '/', b];
      assert tok[..1] == [a] && tok[2..3] == [b];
      StoiOfDigit(a);
      StoiOfDigit(b);
    } else {
      assert '/' !in tok && '-' !in tok by {
        forall k | 0 <= k < |tok| ensures IsDigit(tok[k]) { }
      }
      StoiOfNatText(cell.first);
    }
  }

  // ---------------------------------------------------------------------------
  // Reading a grid

  /** What the n-th `>>` leaves in the token buffer when the text holds
      `tokens`: the n-th token while there is one; past the end the extraction
      fails and the buffer keeps the last token read, or stays empty when
      there was none. */
  function TokenAt(tokens: seq<string>, n: nat): (t: string)
    ensures n < |tokens| ==> t == tokens[n]
    ensures t in tokens || (tokens == [] && t == "")
  {
    if n < |tokens| then tokens[n] else if tokens == [] then "" else tokens[|tokens| - 1]
  }

  /** Once the text is used up, every further extraction leaves the buffer
      as the last successful one did. */
  lemma TokenAtPastEnd(tokens: seq<string>, m: nat, n: nat)
    requires |tokens| <= m && |tokens| <= n
    ensures TokenAt(tokens, m) == TokenAt(tokens, n)
    ensures tokens != [] ==> TokenAt(tokens, n) == TokenAt(tokens, |tokens| - 1)
  {
  }

  /** Each of the 36 extractions read as a cell on its own, in order. */
  function TokenResults(tokens: seq<string>): (rs: seq<Result<Cell>>)
    ensures |rs| == Size * Size
  {
    seq(Size * Size, k requires 0 <= k < Size * Size => ParseToken(TokenAt(tokens, k)))
  }

  /** The cells of the first n results taken left to right; the first
      failure decides the error. */
  function Collect(rs: seq<Result<Cell>>, n: nat): (r: Result<seq<Cell>>)
    requires n <= |rs|
    ensures r.Ok? ==> |r.value| == n
  {
    if n == 0 then Ok([])
    else
      var cells :- Collect(rs, n - 1);
      var cell :- rs[n - 1];
      Ok(cells + [cell])
  }

  /** 36 cells in row-major order as six rows of six. */
  function Rows(cells: seq<Cell>): (g: Grid)
    requires |cells| == Size * Size
    ensures WellShaped(g)
    ensures forall i, j :: 0 <= i < Size && 0 <= j < Size ==> g[i][j] == cells[Size * i + j]
  {
    seq(Size, i requires 0 <= i < Size => cells[Size * i .. Size * i + Size])
  }

  /** The grid the first 36 tokens describe; later tokens are never read. */
  function ParseGrid(tokens: seq<string>): (r: Result<Grid>)
    ensures r.Ok? ==> WellShaped(r.value)
  {
    var cells :- Collect(TokenResults(tokens), Size * Size);
    Ok(Rows(cells))
  }

  /** Cells of the rows of `g`, in row-major order. */
  function Flatten(g: seq<seq<Cell>>): seq<Cell> {
    if g == [] then [] else g[0] + Flatten(g[1..])
  }

  lemma {:induction false} FlattenAppend(a: seq<seq<Cell>>, b: seq<seq<Cell>>)
    ensures Flatten(a + b) == Flatten(a) + Flatten(b)
  {
    if a == [] {
      assert a + b == b;
    } else {
      assert (a + b)[0] == a[0];
      assert (a + b)[1..] == a[1..] + b;
      FlattenAppend(a[1..], b);
    }
  }

  lemma FlattenSnoc(g: seq<seq<Cell>>, row: seq<Cell>)
    ensures Flatten(g + [row]) == Flatten(g) + row
  {
    FlattenAppend(g, [row]);
    assert Flatten([row]) == row + Flatten([]);
  }

  lemma {:induction false} FlattenIndex(g: seq<seq<Cell>>)
    requires forall i :: 0 <= i < |g| ==> |g[i]| == Size
    ensures |Flatten(g)| == Size * |g|
    ensures forall i, j :: 0 <= i < |g| && 0 <= j < Size ==> Flatten(g)[Size * i + j] == g[i][j]
  {
    if g != [] {
      var rest := Flatten(g[1..]);
      FlattenIndex(g[1..]);
      assert Flatten(g) == g[0] + rest;
      assert Size * |g| == Size + Size * |g[1..]|;
      forall i, j | 1 <= i < |g| && 0 <= j < Size ensures Flatten(g)[Size * i + j] == g[i][j] {
        var k := Size * (i - 1) + j;
        assert Size * i + j == Size + k;
        assert rest[k] == g[1..][i - 1][j];
      }
    }
  }

  lemma RowsOfFlatten(g: Grid)
    requires WellShaped(g)
    ensures |Flatten(g)| == Size * Size && Rows(Flatten(g)) == g
  {
    FlattenIndex(g);
    var h := Rows(Flatten(g));
    forall i | 0 <= i < Size ensures h[i] == g[i] {
      assert forall j :: 0 <= j < Size ==> h[i][j] == g[i][j];
    }
  }

  /** Once a token fails, every longer prefix fails with its error. */
  lemma {:induction false} ErrorPersists(rs: seq<Result<Cell>>, n: nat, m: nat)
    requires n < m <= |rs|
    requires Collect(rs, n).Ok? && rs[n].Err?
    ensures Collect(rs, m) == Err(rs[n].error)
  {
    if m - 1 > n {
      ErrorPersists(rs, n, m - 1);
    }
  }

  /** Every result is `Ok`: the cells are collected in order. */
  lemma {:induction false} CollectAllOk(rs: seq<Result<Cell>>, cells: seq<Cell>)
    requires |rs| == |cells| && forall k :: 0 <= k < |rs| ==> rs[k] == Ok(cells[k])
    ensures Collect(rs, |rs|) == Ok(cells)
  {
    CollectPrefixOk(rs, cells, |rs|);
    assert cells[..|rs|] == cells;
  }

  lemma {:induction false} CollectPrefixOk(rs: seq<Result<Cell>>, cells: seq<Cell>, n: nat)
    requires n <= |rs| == |cells| && forall k :: 0 <= k < |rs| ==> rs[k] == Ok(cells[k])
    ensures Collect(rs, n) == Ok(cells[..n])
  {
    if n > 0 {
      CollectPrefixOk(rs, cells, n - 1);
      assert cells[..n - 1] + [cells[n - 1]] == cells[..n];
    }
  }

  /** One more cell read successfully extends the cells read so far. */
  lemma CollectExtend(rs: seq<Result<Cell>>, n: nat, cells: seq<Cell>)
    requires n < |rs| && Collect(rs, n) == Ok(cells) && rs[n].Ok?
    ensures Collect(rs, n + 1) == Ok(cells + [rs[n].value])
  {
  }

  /** Collecting succeeds exactly when every result is `Ok`, and then keeps
      the values in order. */
  lemma {:induction false} CollectSpec(rs: seq<Result<Cell>>, n: nat)
    requires n <= |rs|
    ensures Collect(rs, n).Ok? <==> forall k :: 0 <= k < n ==> rs[k].Ok?
    ensures Collect(rs, n).Ok? ==> forall k :: 0 <= k < n ==> Collect(rs, n).value[k] == rs[k].value
  {
    if n > 0 {
      CollectSpec(rs, n - 1);
    }
  }

  /** Reading the grid succeeds exactly when each of the 36 extractions reads
      as a cell, and cell (i, j) is then what extraction 6i+j read. */
  lemma ParseGridSpec(tokens: seq<string>)
    ensures ParseGrid(tokens).Ok? <==> forall k :: 0 <= k < Size * Size ==> ParseToken(TokenAt(tokens, k)).Ok?
    ensures ParseGrid(tokens).Ok? ==> forall i, j :: 0 <= i < Size && 0 <= j < Size ==>
      ParseGrid(tokens).value[i][j] == ParseToken(TokenAt(tokens, Size * i + j)).value
  {
    var rs := TokenResults(tokens);
    CollectSpec(rs, Size * Size);
    assert forall k :: 0 <= k < Size * Size ==> rs[k] == ParseToken(TokenAt(tokens, k));
  }

  /** The first token that fails decides what reading the grid raises. */
  lemma ParseGridError(tokens: seq<string>, n: nat)
    requires n < Size * Size
    requires Collect(TokenResults(tokens), n).Ok? && ParseToken(TokenAt(tokens, n)).Err?
    ensures ParseGrid(tokens) == Err(ParseToken(TokenAt(tokens, n)).error)
  {
    ErrorPersists(TokenResults(tokens), n, Size * Size);
  }

  lemma ParseGridOk(tokens: seq<string>, g: Grid)
    requires WellShaped(g)
    requires Collect(TokenResults(tokens), Size * Size) == Ok(Flatten(g))
    ensures ParseGrid(tokens) == Ok(g)
  {
    RowsOfFlatten(g);
  }

  /** One extraction of the reading loop, after the cells `cells` were read:
      a failure is the grid's error, a success extends the cells. */
  lemma ReadStep(tokens: seq<string>, n: nat, cells: seq<Cell>)
    requires n < Size * Size && Collect(TokenResults(tokens), n) == Ok(cells)
    ensures ParseToken(TokenAt(tokens, n)).Err? ==>
      ParseGrid(tokens) == Err(ParseToken(TokenAt(tokens, n)).error)
    ensures ParseToken(TokenAt(tokens, n)).Ok? ==>
      Collect(TokenResults(tokens), n + 1) == Ok(cells + [ParseToken(TokenAt(tokens, n)).value])
  {
    var rs := TokenResults(tokens);
    assert rs[n] == ParseToken(TokenAt(tokens, n));
    if rs[n].Err? {
      ParseGridError(tokens, n);
    } else {
      CollectExtend(rs, n, cells);
    }
  }

  /** Reads the first 36 tokens into six rows of six cells, stopping at the
      first token `std::stoi` rejects. */
  method ReadGrid(tokens: seq<string>) returns (r: Result<Grid>)
    ensures r == ParseGrid(tokens)
  {
    var grid: Grid := [];
    for i := 0 to Size
      invariant |grid| == i && forall k :: 0 <= k < i ==> |grid[k]| == Size
      invariant Collect(TokenResults(tokens), Size * i) == Ok(Flatten(grid))
    {
      var row := ReadRow(tokens, i, Flatten(grid));
      if row.Err? {
        return Err(row.error);
      }
      FlattenSnoc(grid, row.value);
      assert Size * i + Size == Size * (i + 1);
      grid := grid + [row.value];
    }
    ParseGridOk(tokens, grid);
    return Ok(grid);
  }

  /** The inner loop of `ReadGrid`: the six tokens of row i, read after the
      cells `before` of the rows above. */
  method ReadRow(tokens: seq<string>, i: nat, ghost before: seq<Cell>) returns (r: Result<seq<Cell>>)
    requires i < Size
    requires Collect(TokenResults(tokens), Size * i) == Ok(before)
    ensures r.Err? ==> ParseGrid(tokens) == Err(r.error)
    ensures r.Ok? ==> |r.value| == Size && Collect(TokenResults(tokens), Size * i + Size) == Ok(before + r.value)
  {
    var row: seq<Cell> := [];
    assert before + row == before;
    for j := 0 to Size
      invariant |row| == j
      invariant Collect(TokenResults(tokens), Size * i + j) == Ok(before + row)
    {
      var n := Size * i + j;
      var token := TokenAt(tokens, n);
      var cell := ParseToken(token);
      ReadStep(tokens, n, before + row);
      if cell.Err? {
        return Err(cell.error);
      }
      assert before + row + [cell.value] == before + (row + [cell.value]);
      row := row + [cell.value];
    }
    return Ok(row);
  }

  // ---------------------------------------------------------------------------
  // Writing a grid

  /** One row as `operator<<` writes it: each cell's text, followed by a
      space unless it is the row's last cell. */
  function StreamRow(row: seq<Cell>): string {
    if row == [] then "" else CellText(row[0]) + (if |row| == 1 then "" else " ") + StreamRow(row[1..])
  }

  /** The text `operator<<` writes: each row, then a newline. */
  function StreamText(g: seq<seq<Cell>>): string {
    if g == [] then "" else StreamRow(g[0]) + "\n" + StreamText(g[1..])
  }

  /** Columns j.. of one row as `Save` writes them: a space after every
      cell with index at most 4. */
  function SaveRow(row: seq<Cell>, j: nat): string
    requires |row| == Size
    decreases Size - j
  {
    if j >= Size then "" else CellText(row[j]) + (if j <= 4 then " " else "") + SaveRow(row, j + 1)
  }

  /** Rows i.. as `Save` writes them. */
  function SaveLines(g: Grid, i: nat): string
    requires WellShaped(g)
    decreases Size - i
  {
    if i >= Size then "" else SaveRow(g[i], 0) + "\n" + SaveLines(g, i + 1)
  }

  /** The text `Save` writes to its file. */
  function SaveText(g: Grid): string
    requires WellShaped(g)
  {
    SaveLines(g, 0)
  }

  lemma {:induction false} SaveRowIsStreamRow(row: seq<Cell>, j: nat)
    requires |row| == Size && j <= Size
    ensures SaveRow(row, j) == StreamRow(row[j..])
    decreases Size - j
  {
    if j < Size {
      SaveRowIsStreamRow(row, j + 1);
      assert row[j..][1..] == row[j + 1..];
    }
  }

  lemma {:induction false} SaveLinesIsStreamText(g: Grid, i: nat)
    requires WellShaped(g) && i <= Size
    ensures SaveLines(g, i) == StreamText(g[i..])
    decreases Size - i
  {
    if i < Size {
      SaveRowIsStreamRow(g[i], 0);
      assert g[i][0..] == g[i];
      SaveLinesIsStreamText(g, i + 1);
      assert g[i..][1..] == g[i + 1..];
    }
  }

  /** `Save` writes to its file the same text `operator<<` prints. */
  lemma SaveMatchesStream(g: Grid)
    requires WellShaped(g)
    ensures SaveText(g) == StreamText(g)
  {
    SaveLinesIsStreamText(g, 0);
    assert g[0..] == g;
  }

  /** Number of times `ch` occurs in `s`. */
  function Occurrences(s: string, ch: char): nat {
    if s == [] then 0 else (if s[0] == ch then 1 else 0) + Occurrences(s[1..], ch)
  }

  lemma {:induction false} OccurrencesAppend(a: string, b: string, ch: char)
    ensures Occurrences(a + b, ch) == Occurrences(a, ch) + Occurrences(b, ch)
  {
    if a == [] {
      assert a + b == b;
    } else {
      assert (a + b)[0] == a[0];
      assert (a + b)[1..] == a[1..] + b;
      OccurrencesAppend(a[1..], b, ch);
    }
  }

  lemma {:induction false} OccurrencesNone(s: string, ch: char)
    requires forall k :: 0 <= k < |s| ==> s[k] != ch
    ensures Occurrences(s, ch) == 0
  {
    if s != [] {
      OccurrencesNone(s[1..], ch);
    }
  }

  /** A cell's text holds no space and no newline. */
  lemma CellTextBlankFree(cell: Cell)
    ensures Occurrences(CellText(cell), ' ') == 0
    ensures Occurrences(CellText(cell), '\n') == 0
  {
    CellTextShape(cell);
    OccurrencesNone(CellText(cell), ' ');
    OccurrencesNone(CellText(cell), '\n');
  }

  /** Counts across one cell's text, an optional space and the rest. */
  lemma CellThenRest(cell: Cell, sep: string, rest: string)
    requires sep == "" || sep == " "
    ensures Occurrences(CellText(cell) + sep + rest, '\n') == Occurrences(rest, '\n')
    ensures Occurrences(CellText(cell) + sep + rest, ' ') == |sep| + Occurrences(rest, ' ')
  {
    CellTextBlankFree(cell);
    OccurrencesAppend(CellText(cell) + sep, rest, ' ');
    OccurrencesAppend(CellText(cell) + sep, rest, '\n');
    OccurrencesAppend(CellText(cell), sep, ' ');
    OccurrencesAppend(CellText(cell), sep, '\n');
  }

  /** Counts across one line, its newline and the rest. */
  lemma LineThenRest(line: string, rest: string, ch: char)
    ensures Occurrences(line + "\n" + rest, ch) ==
      Occurrences(line, ch) + (if ch == '\n' then 1 else 0) + Occurrences(rest, ch)
  {
    OccurrencesAppend(line + "\n", rest, ch);
    OccurrencesAppend(line, "\n", ch);
  }

  /** Counts across one saved line of five spaces, its newline and k more such lines. */
  lemma SavedLineThenRest(line: string, rest: string, k: nat)
    requires Occurrences(line, '\n') == 0 && Occurrences(line, ' ') == 5
    requires Occurrences(rest, '\n') == k && Occurrences(rest, ' ') == 5 * k
    ensures Occurrences(line + "\n" + rest, '\n') == k + 1
    ensures Occurrences(line + "\n" + rest, ' ') == 5 * (k + 1)
  {
    LineThenRest(line, rest, ' ');
    LineThenRest(line, rest, '\n');
  }

  /** Blanks in `t` are single spaces between non-blank characters: the
      only blank is ' ', `t` neither starts nor ends with one, and no two
      are adjacent. */
  predicate SingleSpaced(t: string) {
    && (forall k :: 0 <= k < |t| && IsSpace(t[k]) ==> t[k] == ' ')
    && (|t| > 0 ==> t[0] != ' ' && t[|t| - 1] != ' ')
    && (forall k :: 0 <= k < |t| - 1 ==> t[k] != ' ' || t[k + 1] != ' ')
  }

  /** A token, then either nothing or a space and a single-spaced non-empty
      text, is single-spaced. */
  lemma WordThenSpaced(a: string, sep: string, rest: string)
    requires IsWord(a) && SingleSpaced(rest)
    requires (sep == " " && rest != []) || (sep == "" && rest == [])
    ensures SingleSpaced(a + sep + rest)
  {
    var u := a + sep + rest;
    var m := |a| + |sep|;
    assert forall k :: 0 <= k < |a| ==> u[k] == a[k];
    assert forall k :: m <= k < |u| ==> u[k] == rest[k - m];
    forall k | 0 <= k < |u| && IsSpace(u[k]) ensures u[k] == ' ' {
      if m <= k {
        assert u[k] == rest[k - m];
      }
    }
    if rest != [] {
      assert u[|u| - 1] == rest[|rest| - 1];
    }
    forall k | 0 <= k < |u| - 1 ensures u[k] != ' ' || u[k + 1] != ' ' {
      if k + 1 < |a| {
        assert !IsSpace(a[k]);
      } else if k + 1 == |a| {
        assert !IsSpace(a[k]);
      } else if k == |a| {
        assert u[k + 1] == rest[0];
      } else {
        assert u[k] == rest[k - m] && u[k + 1] == rest[k + 1 - m];
      }
    }
  }

  /** `operator<<` prints a row on one line, with one space between
      consecutive cells and none after the last. */
  lemma {:induction false} StreamRowLayout(row: seq<Cell>)
    ensures Occurrences(StreamRow(row), '\n') == 0
    ensures Occurrences(StreamRow(row), ' ') == if row == [] then 0 else |row| - 1
    ensures SingleSpaced(StreamRow(row))
    ensures row != [] ==> StreamRow(row) != []
  {
    if row != [] {
      var sep: string := if |row| == 1 then "" else " ";
      StreamRowLayout(row[1..]);
      CellThenRest(row[0], sep, StreamRow(row[1..]));
      CellTextShape(row[0]);
      WordThenSpaced(CellText(row[0]), sep, StreamRow(row[1..]));
    }
  }

  /** `operator<<` ends every row, and only a row, with a newline. */
  lemma {:induction false} StreamTextLayout(g: seq<seq<Cell>>)
    ensures Occurrences(StreamText(g), '\n') == |g|
    ensures g != [] ==> StreamText(g)[|StreamText(g)| - 1] == '\n'
  {
    if g != [] {
      StreamTextLayout(g[1..]);
      StreamRowLayout(g[0]);
      LineThenRest(StreamRow(g[0]), StreamText(g[1..]), '\n');
    }
  }

  /** `Save` writes columns j.. of a row on one line, with a space after
      each cell but the last of the row. */
  lemma {:induction false} SaveRowLayout(row: seq<Cell>, j: nat)
    requires |row| == Size && j <= Size
    ensures Occurrences(SaveRow(row, j), '\n') == 0
    ensures Occurrences(SaveRow(row, j), ' ') == if j == Size then 0 else Size - 1 - j
    ensures SaveRow(row, j) == StreamRow(row[j..]) && SingleSpaced(SaveRow(row, j))
    decreases Size - j
  {
    SaveRowIsStreamRow(row, j);
    StreamRowLayout(row[j..]);
    if j < Size {
      var sep: string := if j <= 4 then " " else "";
      SaveRowLayout(row, j + 1);
      CellThenRest(row[j], sep, SaveRow(row, j + 1));
    }
  }

  /** `Save` writes rows i.. as one line each, five spaces per line. */
  lemma {:induction false} SaveLinesLayout(g: Grid, i: nat)
    requires WellShaped(g) && i <= Size
    ensures Occurrences(SaveLines(g, i), '\n') == Size - i
    ensures Occurrences(SaveLines(g, i), ' ') == 5 * (Size - i)
    decreases Size - i
  {
    if i < Size {
      var line, rest := SaveRow(g[i], 0), SaveLines(g, i + 1);
      SaveLinesLayout(g, i + 1);
      SaveRowLayout(g[i], 0);
      SavedLineThenRest(line, rest, Size - i - 1);
    }
  }

  /** The file `Save` writes has six lines with five separating spaces each. */
  lemma SaveTextLayout(g: Grid)
    requires WellShaped(g)
    ensures Occurrences(SaveText(g), '\n') == Size
    ensures Occurrences(SaveText(g), ' ') == 5 * Size
  {
    SaveLinesLayout(g, 0);
  }

  // ---------------------------------------------------------------------------
  // Reading back what was written

  /** The characters `std::isspace` accepts, at which `>>` ends a token. */
  predicate IsSpace(ch: char) {
    ch == ' ' || ch == '\t' || ch == '\n' || ch == '\r' || ch as int == 11 || ch as int == 12
  }

  /** Length of the run of non-blank characters that starts `s`. */
  function WordLength(s: string): (n: nat)
    ensures n <= |s|
    ensures forall k :: 0 <= k < n ==> !IsSpace(s[k])
    ensures n < |s| ==> IsSpace(s[n])
  {
    if s == [] || IsSpace(s[0]) then 0 else 1 + WordLength(s[1..])
  }

  /** The tokens successive `>>` extractions read from `s`: the maximal runs
      of non-blank characters, in order. */
  function Words(s: string): seq<string>
    decreases |s|
  {
    if s == [] then []
    else if IsSpace(s[0]) then Words(s[1..])
    else
      var n := WordLength(s);
      [s[..n]] + Words(s[n..])
  }

  /** Cell texts of `cells`, in order. */
  function CellTexts(cells: seq<Cell>): (ts: seq<string>)
    ensures |ts| == |cells|
  {
    seq(|cells|, k requires 0 <= k < |cells| => CellText(cells[k]))
  }

  /** The text of every cell is one token `>>` can read, and holds '/'
      exactly when the cell is a pair. */
  lemma CellTextShape(cell: Cell)
    ensures IsWord(CellText(cell))
    ensures '/' in CellText(cell) <==> cell.twoVals
  {
    var t := CellText(cell);
    var a := IntText(cell.first);
    IntTextChars(cell.first);
    if cell.twoVals {
      var b := IntText(cell.second);
      IntTextChars(cell.second);
      assert t == a + "/" + b;
      assert t[|a|] == '/';
      forall k | 0 <= k < |t| ensures !IsSpace(t[k]) {
        if k < |a| {
          assert t[k] == a[k];
        } else if k > |a| {
          assert t[k] == b[k - |a| - 1];
        }
      }
    } else {
      assert t == a;
      assert '/' !in t by {
        forall k | 0 <= k < |t| ensures t[k] != '/' {
          assert IsDigit(a[k]) || a[k] == '-';
        }
      }
    }
  }

  /** A non-empty run of non-blank characters: a token `>>` can read. */
  predicate IsWord(t: string) {
    |t| >= 1 && forall k :: 0 <= k < |t| ==> !IsSpace(t[k])
  }

  /** Every token extracted is non-empty and holds no blank. */
  lemma {:induction false} WordsAreWords(s: string)
    ensures forall k :: 0 <= k < |Words(s)| ==> IsWord(Words(s)[k])
    decreases |s|
  {
    if s != [] {
      if IsSpace(s[0]) {
        WordsAreWords(s[1..]);
      } else {
        var n := WordLength(s);
        WordsAreWords(s[n..]);
        assert Words(s) == [s[..n]] + Words(s[n..]);
      }
    }
  }

  lemma {:induction false} WordLengthBeforeSpace(t: string, ws: char, rest: string)
    requires (forall k :: 0 <= k < |t| ==> !IsSpace(t[k])) && IsSpace(ws)
    ensures WordLength(t + [ws] + rest) == |t|
    decreases |t|
  {
    var u := t + [ws] + rest;
    if t == [] {
      assert u[0] == ws;
    } else {
      assert u[0] == t[0];
      assert u[1..] == t[1..] + [ws] + rest;
      WordLengthBeforeSpace(t[1..], ws, rest);
    }
  }

  /** A token followed by a blank reads as that token, then whatever follows. */
  lemma WordThenSpace(t: string, ws: char, rest: string)
    requires IsWord(t) && IsSpace(ws)
    ensures Words(t + [ws] + rest) == [t] + Words(rest)
  {
    var u := t + [ws] + rest;
    WordLengthBeforeSpace(t, ws, rest);
    assert u[0] == t[0];
    assert u[..|t|] == t;
    assert u[|t|..] == [ws] + rest;
    assert ([ws] + rest)[1..] == rest;
  }

  /** Cell texts of `row[j..]`: the first, then the rest. */
  lemma CellTextsCons(row: seq<Cell>, j: nat)
    requires j < |row|
    ensures CellTexts(row[j..]) == [CellText(row[j])] + CellTexts(row[j + 1..])
  {
  }

  lemma {:induction false} WordsOfSaveRow(row: seq<Cell>, j: nat, rest: string)
    requires |row| == Size && j < Size
    ensures Words(SaveRow(row, j) + "\n" + rest) == CellTexts(row[j..]) + Words(rest)
    decreases Size - j
  {
    var t := CellText(row[j]);
    CellTextShape(row[j]);
    CellTextsCons(row, j);
    if j == Size - 1 {
      assert SaveRow(row, j) == t;
      calc {
        Words(SaveRow(row, j) + "\n" + rest);
        { assert SaveRow(row, j) + "\n" + rest == t + ['\n'] + rest; }
        Words(t + ['\n'] + rest);
        { WordThenSpace(t, '\n', rest); }
        [t] + Words(rest);
        { assert CellTexts(row[j..]) == [t]; }
        CellTexts(row[j..]) + Words(rest);
      }
    } else {
      var line := SaveRow(row, j + 1);
      assert SaveRow(row, j) == t + " " + line;
      WordsOfSaveRow(row, j + 1, rest);
      WordsAfterSpace(t, line, rest, CellTexts(row[j + 1..]));
    }
  }

  /** One step of reading a row back: a cell's text and a space, then the
      remaining cells of the row. */
  lemma WordsAfterSpace(t: string, line: string, rest: string, ts: seq<string>)
    requires IsWord(t) && Words(line + "\n" + rest) == ts + Words(rest)
    ensures Words(t + " " + line + "\n" + rest) == [t] + ts + Words(rest)
  {
    var tail := line + "\n" + rest;
    assert t + " " + line + "\n" + rest == t + [' '] + tail;
    WordThenSpace(t, ' ', tail);
  }

  lemma {:induction false} WordsOfSaveLines(g: Grid, i: nat)
    requires WellShaped(g) && i <= Size
    ensures Words(SaveLines(g, i)) == CellTexts(Flatten(g[i..]))
    decreases Size - i
  {
    if i == Size {
      assert g[i..] == [];
    } else {
      var row := g[i];
      var lines := SaveLines(g, i + 1);
      WordsOfSaveRow(row, 0, lines);
      WordsOfSaveLines(g, i + 1);
      assert row[0..] == row;
      FlattenCons(g, i);
      calc {
        Words(SaveLines(g, i));
        Words(SaveRow(row, 0) + "\n" + lines);
        CellTexts(row) + Words(lines);
        CellTexts(row) + CellTexts(Flatten(g[i + 1..]));
        { CellTextsAppend(row, Flatten(g[i + 1..])); }
        CellTexts(row + Flatten(g[i + 1..]));
        CellTexts(Flatten(g[i..]));
      }
    }
  }

  lemma FlattenCons(g: seq<seq<Cell>>, i: nat)
    requires i < |g|
    ensures Flatten(g[i..]) == g[i] + Flatten(g[i + 1..])
  {
    assert g[i..][0] == g[i];
    assert g[i..][1..] == g[i + 1..];
  }

  lemma CellTextsAppend(a: seq<Cell>, b: seq<Cell>)
    ensures CellTexts(a + b) == CellTexts(a) + CellTexts(b)
  {
  }

  /** Every cell of rows whose cells are all storable, in row-major order,
      is storable. */
  lemma {:induction false} FlattenStorable(g: seq<seq<Cell>>)
    requires forall i, j :: 0 <= i < |g| && 0 <= j < |g[i]| ==> Storable(g[i][j])
    ensures forall k :: 0 <= k < |Flatten(g)| ==> Storable(Flatten(g)[k])
  {
    if g != [] {
      FlattenStorable(g[1..]);
      assert Flatten(g) == g[0] + Flatten(g[1..]);
    }
  }

  /** Reading back the texts of storable cells gives back the cells. */
  lemma ReadCellTexts(cells: seq<Cell>)
    requires |cells| == Size * Size
    requires forall k :: 0 <= k < |cells| ==> Storable(cells[k])
    ensures Collect(TokenResults(CellTexts(cells)), Size * Size) == Ok(cells)
  {
    var rs := TokenResults(CellTexts(cells));
    forall k | 0 <= k < Size * Size ensures rs[k] == Ok(cells[k]) {
      CellRoundTrip(cells[k]);
    }
    CollectAllOk(rs, cells);
  }

  /** The texts of a grid's storable cells, in row-major order, read back
      as the grid. */
  lemma ReadGridTexts(g: Grid)
    requires WellShaped(g)
    requires forall i, j :: 0 <= i < Size && 0 <= j < Size ==> Storable(g[i][j])
    ensures |CellTexts(Flatten(g))| == Size * Size
    ensures ParseGrid(CellTexts(Flatten(g))) == Ok(g)
  {
    FlattenStorable(g);
    RowsOfFlatten(g);
    ReadCellTexts(Flatten(g));
    ParseGridOk(CellTexts(Flatten(g)), g);
  }

  /** The tokens of the text `Save` writes, and of the text `operator<<`
      prints, are the 36 cell texts in row-major order, whatever the cells. */
  lemma GridTextWords(g: Grid)
    requires WellShaped(g)
    ensures Words(SaveText(g)) == CellTexts(Flatten(g))
    ensures Words(StreamText(g)) == CellTexts(Flatten(g))
    ensures |Words(SaveText(g))| == Size * Size
  {
    WordsOfSaveLines(g, 0);
    assert g[0..] == g;
    SaveMatchesStream(g);
    FlattenIndex(g);
  }

  /** Reading the file `Save` writes gives back the grid, for grids whose
      cells print as tokens the reader accepts. */
  lemma SaveThenRead(g: Grid)
    requires WellShaped(g)
    requires forall i, j :: 0 <= i < Size && 0 <= j < Size ==> Storable(g[i][j])
    ensures |Words(SaveText(g))| == Size * Size
    ensures ParseGrid(Words(SaveText(g))) == Ok(g)
  {
    GridTextWords(g);
    ReadGridTexts(g);
  }

  /** The same holds for the text `operator<<` prints. */
  lemma PrintThenRead(g: Grid)
    requires WellShaped(g)
    requires forall i, j :: 0 <= i < Size && 0 <= j < Size ==> Storable(g[i][j])
    ensures |Words(StreamText(g))| == Size * Size
    ensures ParseGrid(Words(StreamText(g))) == Ok(g)
  {
    GridTextWords(g);
    SaveThenRead(g);
  }
}
