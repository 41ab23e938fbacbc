/** Turning the letters the character recogniser read into the 5x5 grid:
    keep only the uppercase letters, cut the first 25 of them into five rows
    of five, and reject any result that is not exactly 5x5. */
module Board {
  import opened Text

  /** Height and width of the puzzle grid. */
  const SIZE := 5

  /** The message the shape check fails with. */
  const SHAPE_ERROR := "Error! Try another image with a higher resolution."

  /** Rows of single letters. */
  type Grid = seq<seq<char>>

  /** The outcome of the shape check: pass, or the failed assertion's message. */
  datatype Outcome = Pass | Fail(message: string)

  /** The outcome of reading a grid. */
  datatype Loaded = Loaded(grid: Grid) | ShapeError(message: string)

  function Min(a: int, b: int): int { if a <= b then a else b }

  /** Every row of `g` is `SIZE` long and there are `SIZE` rows. */
  predicate IsSquare(g: Grid)
  {
    |g| == SIZE && forall r :: 0 <= r < |g| ==> |g[r]| == SIZE
  }

  /** The uppercase letters of `s`, in order (the comprehension filter). */
  function UppercaseOf(s: string): (r: string)
    ensures |r| <= |s|
    ensures forall k :: 0 <= k < |r| ==> IsUpper(r[k])
    ensures forall c :: IsUpper(c) ==> multiset(r)[c] == multiset(s)[c]
  {
    if s == [] then []
    else
      var init, last := s[..|s| - 1], s[|s| - 1];
      assert s == init + [last];
      UppercaseOf(init) + (if IsUpper(last) then [last] else [])
  }

  lemma {:induction false} UppercaseOfAppend(a: string, b: string)
    ensures UppercaseOf(a + b) == UppercaseOf(a) + UppercaseOf(b)
    decreases |b|
  {
    if b != [] {
      var b', last := b[..|b| - 1], b[|b| - 1];
      var tail := if IsUpper(last) then [last] else [];
      assert (a + b)[..|a + b| - 1] == a + b';
      assert (a + b)[|a + b| - 1] == last;
      assert UppercaseOf(a + b) == UppercaseOf(a + b') + tail;
      assert UppercaseOf(b) == UppercaseOf(b') + tail;
      UppercaseOfAppend(a, b');
    } else {
      assert a + b == a;
    }
  }

  /** All recognised text blocks joined into one string. */
  function Concat(rows: seq<string>): string
  {
    if rows == [] then [] else Concat(rows[..|rows| - 1]) + rows[|rows| - 1]
  }

  /** The loop that extends the letter list block by block, keeping only
      uppercase letters. */
  method CollectLetters(ocr: seq<string>) returns (chars: string)
    ensures chars == UppercaseOf(Concat(ocr))
  {
    chars := [];
    for t := 0 to |ocr|
      invariant chars == UppercaseOf(Concat(ocr[..t]))
    {
      assert ocr[..t + 1][..t] == ocr[..t];
      UppercaseOfAppend(Concat(ocr[..t]), ocr[t]);
      chars := chars + UppercaseOf(ocr[t]);
    }
    assert ocr[..|ocr|] == ocr;
  }

  /** Python's slice `s[lo:hi]` for `0 <= lo <= hi`: bounds past the end
      are clipped to the end. */
  function Slice(s: string, lo: nat, hi: nat): (r: string)
    requires lo <= hi
    ensures |r| == Min(hi, |s|) - Min(lo, |s|)
    ensures forall k :: 0 <= k < |r| ==> r[k] == s[lo + k]
  {
    s[Min(lo, |s|)..Min(hi, |s|)]
  }

  /** `[s[index:index + 5] for index in range(0, 25, 5)]`. */
  function Chunk(chars: string): (rows: seq<string>)
  {
    seq(SIZE, r requires 0 <= r < SIZE => Slice(chars, SIZE * r, SIZE * r + SIZE))
  }

  /** Row `r` of the chunking holds the characters `5r .. 5r+4`, as many of
      them as exist: always five rows, each at most five long. */
  lemma ChunkRows(chars: string)
    ensures |Chunk(chars)| == SIZE
    ensures forall r :: 0 <= r < SIZE ==>
      |Chunk(chars)[r]| == Min(SIZE, if |chars| >= SIZE * r then |chars| - SIZE * r else 0)
    ensures forall r, c :: 0 <= r < SIZE && 0 <= c < |Chunk(chars)[r]| ==>
      Chunk(chars)[r][c] == chars[SIZE * r + c]
  {
  }

  /** The assertions of the shape check, row by row. */
  function CheckRows(rows: seq<seq<char>>): (o: Outcome)
    ensures o.Pass? <==> forall r :: 0 <= r < |rows| ==> |rows[r]| == SIZE
    ensures o.Fail? ==> o.message == SHAPE_ERROR
  {
    if rows == [] then Pass
    else if |rows[0]| != SIZE then Fail(SHAPE_ERROR)
    else
      var rest := CheckRows(rows[1..]);
      assert forall r :: 1 <= r < |rows| ==> rows[r] == rows[1..][r - 1];
      rest
  }

  /** The shape check: passes exactly on a 5x5 matrix, otherwise fails with
      the fixed message. */
  function CheckMatrix(matrix: seq<seq<char>>): (o: Outcome)
    ensures o.Pass? <==> IsSquare(matrix)
    ensures o.Fail? ==> o.message == SHAPE_ERROR
  {
    if |matrix| != SIZE then Fail(SHAPE_ERROR) else CheckRows(matrix)
  }

  /** Chunking always gives five rows, so the shape check on it passes
      exactly when at least 25 characters survived the filter. */
  lemma ChunkCheck(chars: string)
    ensures CheckMatrix(Chunk(chars)).Pass? <==> |chars| >= SIZE * SIZE
  {
    ChunkRows(chars);
    if |chars| < SIZE * SIZE {
      assert |Chunk(chars)[SIZE - 1]| < SIZE;
    }
  }

  /** The end of the image reader: collect the letters, chunk them, and
      check the shape. The grid, when there is one, is the first 25 letters
      read row by row. */
  method ReadGrid(ocr: seq<string>) returns (result: Loaded)
    ensures result.Loaded? <==> |UppercaseOf(Concat(ocr))| >= SIZE * SIZE
    ensures result.ShapeError? ==> result.message == SHAPE_ERROR
    ensures result.Loaded? ==> result.grid == Chunk(UppercaseOf(Concat(ocr)))
    ensures result.Loaded? ==> IsSquare(result.grid)
    ensures result.Loaded? ==>
              forall r, c :: 0 <= r < SIZE && 0 <= c < SIZE ==>
                IsUpper(result.grid[r][c]) && result.grid[r][c] == UppercaseOf(Concat(ocr))[SIZE * r + c]
  {
    var chars := CollectLetters(ocr);
    var matrix := Chunk(chars);
    ChunkCheck(chars);
    ChunkRows(chars);
    match CheckMatrix(matrix)
    case Pass => result := Loaded(matrix);
    case Fail(message) => result := ShapeError(message);
  }
}
