# SpellCast solver core, in Dafny

This project models the solving core of a SpellCast helper (`main.py`). Recognised text is filtered to uppercase letters and chunked into a 5 x 5 grid, after a shape check. A depth-first search then starts from every cell and walks king moves over distinct cells, up to 8 of them. It records in an insertion-ordered dictionary each dictionary word the walk spells, with its path. The found words are ranked longest first by a stable sort. Finally they are walked in rank order, and the first three that an external validator accepts are reported, each with a 5 x 5 diagram of its path.

Modules, one per concern:

- `Text` (`text.dfy`): ASCII case mapping and decimal formatting. These are the Python built-ins the code relies on.
- `Board` (`board.dfy`): the letter filter, the chunking into rows, the shape check, and the tail of the image reader.
- `Paths` (`paths.dfy`): cells, the eight moves, valid paths, and the word a path spells (`get_word`).
- `Search` (`search.dfy`): the search, specified and implemented.
  - The dictionary is a key list plus a map (`Results`). A Python `dict` is modelled as exactly that: a new key goes last, and an assignment to an existing key keeps the key's place.
  - The specification side is pure. `Visits` lists the paths one call walks, in the order it walks them. `Hits` turns them into dictionary assignments. `SearchResult` applies every assignment of the row-major start loop to an empty dictionary.
  - The implementation side is the recursive `Dfs` method over a `ResultDict` object that it mutates, plus the start-cell loops `SearchAll`/`SearchRow`. Each is proved equal to the specification.
- `Ranking` (`ranking.dfy`): `sorted(keys, key=len, reverse=True)` as a stable insertion sort. It is proved sorted, a permutation, stable, and the only ordering with those three properties.
- `Selection` (`selection.dfy`): `get_path` (`GetPath`, with its loop), and the selection loop (`Select`). The validator is a function parameter `valid`.
- `Pipeline` (`pipeline.dfy`): `main` after its inputs are read (`Solve`), and end-to-end guarantees about what is reported.

The dictionary's value for a word is the path of the last visit that spells it. The code assigns on every hit, so a later path overwrites an earlier one (`Search.PutAllLastWins`, `Search.SearchOrder`). The key itself keeps the position of its first discovery, which is what the ranking's tie-break sees. Any path for a word has the word's length, so all the competing paths are equally long.

## Model

| member | source | states |
|---|---|---|
| Text.Lower | main.py:64 | lowering turns an uppercase ASCII letter into the lowercase letter at the same place in the alphabet, and leaves every other character alone |
| Text.Upper | main.py:53 | raising turns a lowercase ASCII letter into the uppercase letter at the same place in the alphabet, and leaves every other character alone |
| Text.CaseRoundTrip | main.py:53 | raising a lowered uppercase letter gives it back, and lowering a raised lowercase letter gives it back |
| Text.LowerString | main.py:64 | `str.lower()` keeps the length, and character k is character k lowered |
| Text.DecimalString | main.py:53 | the step number is written with at least one digit, all of them decimal digits, and with a leading zero only for 0 |
| Text.DecimalRoundTrip | main.py:53 | reading back the digits written for n gives n |
| Board.UppercaseOf | main.py:37 | the comprehension keeps only uppercase letters, each as often as the input has it, and is no longer than the input |
| Board.UppercaseOfAppend | main.py:36-37 | filtering block by block gives the same as filtering the blocks joined |
| Board.CollectLetters | main.py:35-37 | the extend loop leaves exactly the uppercase letters of all recognised blocks, in order |
| Board.Slice | main.py:38 | `s[lo:hi]` has length min(hi,len) - min(lo,len), and holds the characters from lo on |
| Board.Chunk | main.py:38 | definition of the chunking: row r is the slice of the letters from 5r to 5r + 5, for r from 0 to 4; its shape and contents are stated by `Board.ChunkRows` |
| Board.ChunkRows | main.py:38 | the chunking always has five rows; row r holds characters 5r onwards, at most five and as many as exist |
| Board.CheckRows | main.py:71-72 | the row loop passes exactly when every row has five characters, and otherwise fails with the fixed message |
| Board.CheckMatrix | main.py:67-72 | the shape check passes exactly on a 5 x 5 matrix, and otherwise fails with "Error! Try another image with a higher resolution." |
| Board.ChunkCheck | main.py:38-39 | the check on the chunked letters passes exactly when at least 25 letters survived the filter |
| Board.ReadGrid | main.py:35-41 | the reader yields a grid exactly when at least 25 letters were read, and otherwise the shape error. The grid is 5 x 5, and cell (r, c) is letter 5r + c, uppercase |
| Paths.MovesAreKingSteps | main.py:13 | the eight moves are exactly the steps changing each coordinate by at most one, not both by zero |
| Paths.StepKeepsSimple | main.py:85-88 | the visited test leaves out the current cell, yet paths stay simple, because no move stays in place |
| Paths.ExtendValid | main.py:82-88 | a recursive call extends a valid path of fewer than 8 cells to a valid path |
| Paths.StepOfValid | main.py:85-88 | each later cell of a valid path passes the recursion's guard: it is in bounds, one move on, and off the earlier path |
| Paths.Spell | main.py:61-62 | the concatenation has one letter per cell, letter k being the grid letter at cell k |
| Paths.Word | main.py:58-64 | the word a path spells has one character per cell, character k being the grid letter at cell k, lowered |
| Paths.GetWord | main.py:58-64 | `get_word` returns one character per cell, character k the lowered grid letter at cell k |
| Search.Put | main.py:80 | `result[w] = p`: afterwards w maps to p, every other key keeps its value, and the old key order is a prefix of the new one, which has at most one key more |
| Search.PutAll | main.py:79-80 | definition: the assignments applied one after another, in order; their effect is stated by the `PutAll*` lemmas below |
| Search.PutAllAppend | main.py:80 | two batches of assignments act like their concatenation |
| Search.PutAllKeys | main.py:80 | after assignments, the old keys stay first and in place, and new keys follow in order of their first assignment |
| Search.PutAllWellFormed | main.py:80 | assignments keep the key list and the map in step, with no key listed twice |
| Search.PutAllUntouched | main.py:80 | a key no assignment names keeps its presence and its value |
| Search.PutAllLastWins | main.py:80 | a key's value is the path of its last assignment |
| Search.PutAllOrigin | main.py:80 | every assigned key is present afterwards, no old key is lost, and every value is an old one or an assigned one |
| Search.FromEmpty | main.py:104 | a dictionary filled from empty is well formed, lists keys in order of first assignment, and holds each key's last assigned path |
| Search.HitsAppend | main.py:79-80 | the assignments of two visit lists are those of their concatenation |
| Search.HitsMember | main.py:77-80 | a visit assigns (w, p) exactly when p is visited, p spells w and w is in the dictionary |
| Search.BranchOf | main.py:85-88 | unfolding of `Branch` for the `InBounds` form used by the proofs: a move recurses exactly when its target is in bounds and off the path before the current cell |
| Search.Visits | main.py:75-88 | definition of the paths one `DFS` call visits, in visit order: its own path, then, below depth 8, those of each move in `MOVES` order; `Search.VisitsSound` and `Search.VisitsComplete` state which paths these are |
| Search.MovesFrom | main.py:85-88 | definition: the paths of the moves, one move after another in `MOVES` order |
| Search.Branch | main.py:86-88 | definition: one move visits the paths of the recursive call when its target is in bounds and not on the path before the current cell, and nothing otherwise |
| Search.VisitsSound | main.py:75-88 | every path a call visits is valid and continues the call's path |
| Search.MovesSound | main.py:85-88 | every path the moves from a cell lead to is valid and continues the path |
| Search.BranchSound | main.py:86-88 | every path one move leads to is valid and continues the path |
| Search.VisitsComplete | main.py:75-88 | a call visits every valid path that continues its own |
| Search.CellsMember | main.py:105-106 | the start loops reach exactly the cells at or after (i, j) in row-major order |
| Search.VisitAllSound | main.py:104-107 | searches from in-bounds start cells visit only valid paths |
| Search.VisitAllContain | main.py:104-107 | each start cell contributes all the paths its search visits |
| Search.SearchVisits | main.py:75-107 | the whole search visits exactly the valid paths: simple king paths of 1 to 8 in-bounds cells |
| Search.SearchResult | main.py:104-107 | definition: an empty dictionary with every assignment of the row-major start loops applied, in order; `Search.SearchVisits`, `Search.SearchSound`, `Search.SearchComplete` and `Search.SearchOrder` state what it holds |
| Search.SearchSound | main.py:75-107 | every recorded word is in the dictionary, and its path is valid and spells it |
| Search.SearchComplete | main.py:75-107 | every dictionary word that some valid path spells is recorded, as a key and with a path |
| Search.SearchOrder | main.py:75-107 | the result is well formed, its keys are in order of first discovery, and each value is the last path found for its word |
| Search.ResultDict.constructor | main.py:104 | the dictionary starts empty |
| Search.ResultDict.Set | main.py:80 | `result[w] = p`: a new key goes last, an existing key keeps its place, and the value becomes p |
| Search.MoveStep | main.py:85-88 | one turn of the moves loop keeps the loop's account of the assignments still to come |
| Search.Dfs | main.py:75-88 | a call leaves the dictionary as if every assignment of its visits, in visit order, had been applied to it |
| Search.StartStep | main.py:105-107 | one start cell's search moves the start loops on to the next cell |
| Search.SearchRow | main.py:106-107 | the inner start loop applies the searches from every cell of the row, left to right |
| Search.SearchAll | main.py:104-107 | the start loops over a fresh dictionary produce exactly the specified result |
| Ranking.Rank | main.py:109 | definition of the ranking as a stable insertion sort, each key inserted after the longer or equally long words; `Ranking.RankSorted`, `Ranking.RankPermutation`, `Ranking.RankStable` and `Ranking.RankUnique` state that it is `sorted(..., key=len, reverse=True)` |
| Ranking.Insert | main.py:109 | inserting a word adds exactly that word |
| Ranking.InsertSorted | main.py:109 | inserting keeps the order by non-increasing length |
| Ranking.InsertStable | main.py:109 | an inserted word goes after the words of its length already present |
| Ranking.RankSorted | main.py:109 | the ranking is ordered by non-increasing length |
| Ranking.RankPermutation | main.py:109 | the ranking is a permutation of the keys |
| Ranking.RankStable | main.py:109 | words of equal length keep their key order: the stable tie-break |
| Ranking.SortedUnique | main.py:109 | two length-sorted sequences that agree on every length class are equal |
| Ranking.RankUnique | main.py:109 | any stable ordering of the keys by non-increasing length is the ranking |
| Selection.Blank | main.py:49 | the diagram starts 5 x 5 with every cell "." |
| Selection.Label | main.py:53 | definition of the cell text of step k: the letter raised, then the 1-based step number in parentheses; `Selection.LabelParts` reads it back |
| Selection.LabelParts | main.py:53 | a cell label is the letter raised, "(", the decimal digits of the 1-based step number, and ")" |
| Selection.Mark | main.py:53 | writing a cell changes that cell only |
| Selection.PaintedUnvisited | main.py:49-53 | a cell no step visits stays "." |
| Selection.PaintedVisited | main.py:51-53 | a step's cell shows that step's label unless a later step revisits it |
| Selection.DiagramCells | main.py:48-55 | the diagram shows "." off the path and, on it, the label of the last step visiting each cell |
| Selection.GetPath | main.py:48-55 | the loop builds exactly the specified diagram, which shows the path as `DiagramCells` states |
| Selection.Confirmed | main.py:112-120 | definition: the keys the validator accepts, in key order; `Selection.ConfirmedMember` and `Selection.ConfirmedAppend` state what it holds |
| Selection.ConfirmedMember | main.py:112-120 | a word is confirmed exactly when it is a ranked key that the validator accepts |
| Selection.ConfirmedAppend | main.py:112-121 | confirming a list in two parts confirms it whole, in order |
| Selection.Chosen | main.py:112-121 | at most three words are chosen, each a key the validator accepts |
| Selection.ConfirmedStep | main.py:113-114 | looking at one more key adds it to the confirmed words exactly when the validator accepts it |
| Selection.ProgressStep | main.py:112-121 | one turn of the while loop keeps its invariant |
| Selection.SelectionDone | main.py:112 | stopping at the end of the keys or at the third confirmation leaves exactly the first three confirmed keys |
| Selection.Select | main.py:110-121 | the validator sees a prefix of the ranked keys, in order. The loop stops at the end of the keys or right after the third confirmation, and reports the first three confirmed keys in rank order, each with its path diagram |
| Pipeline.Drawable | main.py:109-116 | every ranked word has a path, the path lies on the 5 x 5 board, and the word has a letter for each step |
| Pipeline.Solve | main.py:97-121 | a run ends with the shape error exactly when fewer than 25 letters were read. Otherwise it reports the first three confirmed words of the ranking, each drawn along its recorded path. The validator was asked about the first `checked` ranked words: all of them, or just as many as it took to confirm three, the last of those confirmed |
| Pipeline.ConfirmedSorted | main.py:109-121 | filtering by the validator keeps the order by length |
| Pipeline.ChosenLongest | main.py:109-121 | a confirmed word left unreported is no longer than any reported word |
| Pipeline.ReportSound | main.py:97-121 | on a 5 x 5 grid, every reported word is in the dictionary, accepted by the validator, and spelled by its recorded path, which is valid |
| Pipeline.ReportLongest | main.py:97-121 | on a 5 x 5 grid, any word that a valid path spells, that is in the dictionary and accepted, but that is not reported, is no longer than every reported word |

## Left out

- Image handling is not modelled: choosing the file by fuzzy name match, thresholding the pixels, and OCR (main.py:17-33). The model takes the recognised text blocks as its input `ocr`.
- `check_key` (main.py:91-94) is an HTTP request. It is modelled as a pure function parameter `valid`, so the model assumes the answer for a word does not change during a run. A transport failure of the request (an `aiohttp` exception, main.py:92-94, raised at main.py:114) would end `main` in the middle of the loop; the model has no such outcome. `async`/`await` is not modelled.
- Reading `words.txt` (main.py:98-99) is not modelled; the dictionary is a parameter. The filename prompt (main.py:101) and `os.system` (main.py:124-125) are left out too.
- Output is not modelled: `get_bold`, `print` and the centring of diagram cells (main.py:44-45, 115-119). `Select` returns each reported word with its diagram instead of printing it.
- `Board.CheckMatrix` treats the shape check as always enabled. It models Python `assert` failures as a shape error carrying the message. Running Python with assertions disabled (`-O`) is not modelled.
- `Text.Lower`, `Text.Upper`: only the ASCII letters change case. Python also maps other characters, but every grid letter is an ASCII uppercase letter by the filter (`Board.ReadGrid`).
- `Paths.CellAt` gives a placeholder letter outside the grid, where Python would raise `IndexError` or wrap a negative index. `Paths.GetWord` requires in-bounds cells, and the search never leaves the grid (`Search.SearchSound`).
- `Selection.GetPath` requires cells inside the 5 x 5 board and a word at least as long as the path. Python would wrap negative indices and raise `IndexError` on the rest. Every recorded path meets both conditions (`Pipeline.Drawable`).
- `Search.Dfs` and `Search.SearchAll` require a rectangular grid, on which Python never raises. The reader only produces 5 x 5 grids.
- `Search.SearchRow` is the inner start-cell loop, split off as its own method. The `found` counter of the selection loop is the length of `picks`.
- The diagram of `get_path` is a fresh local list of lists. It is modelled as a value; the caller's later in-place centring is output, left out above.
- Running time and the size of the search are not modelled.
