# A verified model of the heuristic-contest template's core library

This project models, in Dafny, the reusable core of a Rust template for
heuristic programming contests (AtCoder Heuristic Contest style).  The modelled
parts are:

- **the grid library**:
  - linear cell indices (`IJ`), grid sizes, directions and rotations, and the
    neighbour table;
  - the per-index arrays made by `make_per!`;
  - a 64-bit bitset;
  - one-word bit rows and grids of them;
  - a dense row-major matrix and its `mat!` macro;
  - a generic grid.
- **the beam-search queue**: a bounded, lazily sorted buffer that keeps the best
  `width` states of a turn and rejects states below an admission threshold.
- **the input reader**: a whitespace tokenizer over the lines of standard input,
  with the token readers `input!` uses (`FromStr` values, `Chars`, `Bytes`,
  `Usize1`, `Isize1`).
- **the single-file bundler** used to submit a multi-crate workspace as one file.
  It does four things:
  - inlines out-of-line modules;
  - extracts `extern crate` items;
  - expands each workspace crate once into an inline module;
  - rewrites `crate::` and extern-crate paths so that they keep their targets.
- **the plain-text result table** that the task runner prints.

Files and modules:

| file | module |
|---|---|
| `wrappers.dfy` | `Wrappers` (`Option` and `Result`) |
| `per.dfy` | `Per` |
| `bits.dfy` | `Bits` |
| `ij.dfy` | `Ij` |
| `bit.dfy` | `StrctBit` |
| `matrix.dfy` | `Matrix` |
| `grid.dfy` | `Grid` |
| `bs.dfy` | `BeamSearch` |
| `utf8.dfy` | `Utf8` (UTF-8 encoding as `str::bytes` yields it) |
| `source.dfy` | `Io` |
| `bundle.dfy` | `Bundle` |
| `table.dfy` | `Table` |

How Rust constructs are modelled:

- Rust values that are `Copy` (bit words, per-index arrays, bit rows) are
  datatypes.
- Objects that the source updates in place are classes with `modifies`
  clauses: `BSQueue`, `BitGrid`, `Mat`, `Grid` and `Source`.
- A panic of the source becomes one of two things:
  - an explicit error value (`Result` or `Option`) where the source detects the
    condition itself;
  - a precondition where it is an assertion on the caller's arguments.
- `usize` and `isize` are 64-bit.
- `u64` words are modelled bit by bit.

The code is followed where it and the surrounding documentation could be read
differently. Two places where that matters:

- `find_mod_file` looks for `m.rs` and `m/mod.rs` next to the declaring file,
  even when that file is not a `mod.rs`. Rust itself would look in a directory
  named after the declaring file. The model does what the code does.
- In `calculate_column_content_width_for`, the fallback width 1 is
  unreachable, because every column holds a header cell and a footer cell
  (`Table.ColumnWidthAttained`).

## Model

| member | source | states |
|---|---|---|
| Per.New | library/src/util/per.rs:10-12 | The array has one slot per element given, and each slot reads back the element with that ordinal. |
| Per.Default | library/src/util/per.rs:15-21 | Every slot holds the default value. |
| Per.Index | library/src/util/per.rs:23-29 | Reading a slot through `Index` gives one of the array's elements. |
| Per.Update | library/src/util/per.rs:31-35 | A write through `IndexMut` sets only the addressed slot: it reads back the written value, every other slot keeps its value and the size is unchanged. |
| Per.UpdateTwice | library/src/util/per.rs:23-35 | Of two writes to one slot the last wins, and writing back a slot's own value changes nothing. |
| Bits.ShlValue | library/src/bits.rs:22-28 | Read as a number, `x << i` is `x * 2^i` wrapped modulo `2^64`, as `u64` `<<` computes it. |
| Bits.ShlOneValue | library/src/bits.rs:22-28 | The mask `1 << i` that `set` builds stands for `2^i`. |
| Bits.ShrValue | library/src/bits.rs:30-32 | Read as a number, `x >> i` is `x / 2^i` rounded down, as `u64` `>>` computes it. |
| Bits.BitValue | library/src/bits.rs:30-32 | Bit `i` of the word is the `2^i` binary digit of its value, which is what `(bits >> i) & 1` extracts. |
| Bits.NotValue | library/src/bits.rs:72-78 | Read as a number, `!x` is `2^64 - 1 - x`, as `u64` `!` computes it. |
| Bits.TestBit | library/src/bits.rs:30-32 | `(bits >> i) & 1 == 1` is exactly bit `i` of the word. |
| Bits.Get | library/src/bits.rs:30-32 | `get(i)` is true exactly when `i` is a member, that is when the `2^i` binary digit of the word's value is 1. |
| Bits.New | library/src/bits.rs:18-20 | The new (and default) set has no member and counts 0. |
| Bits.Set | library/src/bits.rs:22-28 | After `set(i, v)`, position `i` is `v` and every other position keeps its value. |
| Bits.Count | library/src/bits.rs:34-36 | `count_ones` is the number of member positions, at most 64. |
| Bits.And | library/src/bits.rs:45-56 | `&` and `&=` give the intersection, position by position. |
| Bits.Or | library/src/bits.rs:58-70 | `\|` and `\|=` give the union, position by position. |
| Bits.Not | library/src/bits.rs:72-78 | `!` gives the complement within the 64 positions. |
| Bits.Extensional | library/src/bits.rs:6-9 | Two sets with the same members are the same value. |
| Bits.SetIdempotent | library/src/bits.rs:22-28 | Setting a position twice to one value is setting it once; of two writes the last wins. |
| Bits.CountNot | library/src/bits.rs:72-78 | The complement counts `64 - count`. |
| Bits.CountAndOr | library/src/bits.rs:45-70 | Intersection and union counts add up to the two counts (inclusion and exclusion). |
| Bits.CountSet | library/src/bits.rs:22-36 | Setting a position changes the count by one exactly when the position's value changes, and leaves it unchanged otherwise. |
| Ij.NewSize | library/src/ij.rs:79-81 | `IJSize::new` takes the row count first and stores both dimensions as given. |
| Ij.FromPair | library/src/ij.rs:12-18 | `from_pair` gives `None` exactly when the row or the column is out of range; otherwise it gives an index below `h * w`. |
| Ij.IndexInRange | library/src/ij.rs:23-25 | An in-range row and column give an unchecked index below the cell count. |
| Ij.ToPairFromPair | library/src/ij.rs:27-29 | `to_pair` undoes `from_pair` on every in-range row and column. |
| Ij.FromPairToPair | library/src/ij.rs:27-29 | Every index below the cell count has an in-range pair, and `from_pair` of that pair gives the index back. |
| Ij.ToPair | library/src/ij.rs:27-29 | `to_pair` divides the index by `w` with remainder: the column is below `w`, and `row * w + column` is the index. |
| Ij.FromOrd | library/src/ij.rs:114-120 | The direction with a given discriminant has that discriminant. |
| Ij.AllDirs | library/src/ij.rs:123-125 | `IJDir::all` lists the four directions once each, in discriminant order. |
| Ij.IsOppositeTo | library/src/ij.rs:127-130 | Two directions are opposite exactly for U/D and R/L, in either order, that is when the second is the reverse of the first. |
| Ij.OppositeProperties | library/src/ij.rs:127-130 | Opposition is irreflexive and symmetric, and reversing twice gives the start. |
| Ij.Opposite | library/src/ij.rs:127-130 | The reverse direction is two quarter turns away: its discriminant is the original's plus 2, modulo 4. |
| Ij.AllRotations | library/src/ij.rs:164-166 | `Rotate::all` lists three distinct rotations. |
| Ij.AllRotationsComplete | library/src/ij.rs:151-166 | Every rotation is listed by `Rotate::all`. |
| Ij.Rotated | library/src/ij.rs:132-135 | The rotated direction's discriminant is the sum of the discriminants modulo 4. |
| Ij.RotatedTable | library/src/ij.rs:151-161 | `S` keeps a direction, `R` turns it a quarter clockwise and `L` a quarter anticlockwise. |
| Ij.RotationLaws | library/src/ij.rs:132-135 | `L` undoes `R` and `R` undoes `L`. Four `R` turns return to the start, and two give the opposite direction. |
| Ij.NeighborInBounds | library/src/ij.rs:52-61 | A cell's neighbour in a direction exists exactly when the moved row and column are in range, and it is then the cell at those coordinates. |
| Ij.NeighborSymmetric | library/src/ij.rs:52-61 | A step to a neighbour followed by a step in the opposite direction returns to the start. |
| Ij.FillCell | library/src/ij.rs:49-64 | The per-direction entry built for one cell holds, for each direction, the neighbour in that direction or `None`. |
| Ij.GenerateNeighbors | library/src/ij.rs:44-69 | `generate_neighbors` gives one entry per cell, and the entry of every index is its neighbour table. |
| Ij.DijsTable | library/src/ij.rs:35-42 | `dijs` holds the offsets `-w`, `+1`, `+w` and `-1`, each modulo 2^64. |
| Ij.DijsStep | library/src/ij.rs:35-42 | When the grid's indices fit in a `usize`, the wrapping sum of an in-range cell and a direction's offset is the neighbour in that direction, wherever one exists. |
| Ij.Dijs | library/src/ij.rs:35-42 | `dijs` holds one offset per direction. |
| Ij.AddWrapping | library/src/ij.rs:100-105 | The wrapped sum is a valid `usize`, and it is the plain sum whenever that does not overflow. |
| StrctBit.RowNew | library/src/strct/bit.rs:32-34 | A new row has no bit set and counts 0. |
| StrctBit.RowSet | library/src/strct/bit.rs:36-38 | The mask form of `set` makes bit `i` equal to `b` and keeps every other bit. |
| StrctBit.RowCountOnes | library/src/strct/bit.rs:44-46 | `count_ones` is the number of set positions, at most 64. |
| StrctBit.RowGet | library/src/strct/bit.rs:40-42 | `get(i)` reads bit `i` of the row. |
| StrctBit.RowAnd | library/src/strct/bit.rs:55-67 | `&` and `&=` are bitwise conjunction. |
| StrctBit.RowOr | library/src/strct/bit.rs:69-81 | `\|` and `\|=` are bitwise disjunction. |
| StrctBit.RowNot | library/src/strct/bit.rs:83-89 | `!` flips all 64 bits, so the count becomes `64 - count`. |
| StrctBit.RowSetAgreesWithBitsSet | library/src/strct/bit.rs:36-38 | The mask form of `BitRow::set` gives the same word as the branching `Bits::set`. |
| StrctBit.RowFromCells | library/src/strct/bit.rs:112-118 | A row built from a grid row has bit `j` equal to cell `j`, and no bit set beyond the cells. |
| StrctBit.SetFrame | library/src/strct/bit.rs:146-149 | Writing one cell leaves every other readable cell as it was. |
| StrctBit.GridPointsMembership | library/src/strct/bit.rs:124-138 | The row-major listing of set cells is ascending and holds exactly the in-grid cells that are set. |
| StrctBit.BitGrid.NewZero | library/src/strct/bit.rs:98-103 | `new_zero` requires `w < 64` and makes `h` empty rows. |
| StrctBit.EmptyRows | library/src/strct/bit.rs:98-103 | A grid of empty rows has no set cell and counts 0. |
| StrctBit.BitGrid.FromGrid | library/src/strct/bit.rs:105-122 | Row `i`, bit `j` is the grid's cell `(i, j)`; every bit beyond the grid's cells is clear. |
| StrctBit.BitGrid.Set | library/src/strct/bit.rs:146-149 | `set` writes bit `j` of row `i`, where `(i, j) = to_pair(p)`; the cell reads back the value and every other readable cell is unchanged. |
| StrctBit.BitGrid.Get | library/src/strct/bit.rs:140-144 | `get(p)` reads bit `j` of row `i`, where `(i, j) = to_pair(p)`. |
| StrctBit.BitGrid.ComputePoints | library/src/strct/bit.rs:124-138 | `compute_points` lists exactly the in-grid cells whose bit is set, in ascending order, each once. |
| StrctBit.SumCounts | library/src/strct/bit.rs:166-168 | `count_ones` of a grid is the sum of its rows' counts, at most `64` per row. |
| StrctBit.BitGrid.CountOnes | library/src/strct/bit.rs:166-168 | The count is at most 64 per row. When the padding bits are clear and `w <= 64`, it is at most `w` per row. |
| StrctBit.CleanCountBound | library/src/strct/bit.rs:166-168 | Rows whose bits from `w` on are clear count at most `w` each. |
| StrctBit.BitGrid.AndAssign | library/src/strct/bit.rs:171-178 | `&=` combines the rows pairwise over the shorter list and leaves any further rows as they were. |
| StrctBit.BitGrid.OrAssign | library/src/strct/bit.rs:188-195 | `\|=` combines the rows pairwise with OR in the same way. |
| StrctBit.BitGrid.Not | library/src/strct/bit.rs:205-215 | `!` complements every row over all 64 bits, so the total count becomes `64 * rows - count`. |
| StrctBit.SumCountsNot | library/src/strct/bit.rs:205-215 | Complementing every row turns the total count into `64 * rows` minus it. |
| StrctBit.BitGrid.ScanRow | library/src/strct/bit.rs:128-134 | The inner loop appends the set cells of row `i` to the list, left to right. |
| StrctBit.NotCountsPadding | library/src/strct/bit.rs:205-215 | On a 1 by 1 grid of one empty row, `!` followed by `count_ones` gives 64, where the one cell gives 1. |
| StrctBit.RowNotWithin | library/src/strct/bit.rs:83-89 | A complement restricted to the first `w` bits flips those bits and clears every bit from `w` on. |
| StrctBit.NotWithinAgrees | library/src/strct/bit.rs:83-89 | Inside the grid, the restricted complement reads the same bits as `!`. |
| StrctBit.RowNotWithinCount | library/src/strct/bit.rs:166-168 | For a row with clear padding, the restricted complement counts `w` minus the row's count. |
| StrctBit.SumCountsNotWithin | library/src/strct/bit.rs:205-215 | Applying the restricted complement to rows with clear padding turns the total count into `w * rows` minus it. |
| StrctBit.BitGrid.NotWithin | library/src/strct/bit.rs:205-215 | The corrected `!` complements each row within the grid's width, leaves the padding clear, and turns a grid with clear padding's count into `w * rows - count`. |
| StrctBit.CleanKept | library/src/strct/bit.rs:55-81 | `&` keeps the left operand's clear padding, and `\|` of two rows with clear padding keeps it clear. |
| Matrix.Chunks | library/src/matrix.rs:100-102 | `chunks(n)` yields non-empty slices of at most `n` elements. |
| Matrix.ChunksFlatten | library/src/matrix.rs:100-102 | The chunks, put back together, are the sequence they were cut from. |
| Matrix.ChunksCount | library/src/matrix.rs:100-102 | `rows * cols` elements cut by `cols` give `rows` chunks. |
| Matrix.Mat.New | library/src/matrix.rs:13-16 | `new` requires `rows * cols == data.len()`, as the source asserts, and keeps the data as given. |
| Matrix.Mat.Filled | library/src/matrix.rs:18-27 | `filled` holds `rows * cols` copies of the default. |
| Matrix.Mat.At | library/src/matrix.rs:68-74 | Tuple indexing `(i, j)` reads the cell at `i * cols + j`. |
| Matrix.Mat.Row | library/src/matrix.rs:45-47 | `row(i)` has `cols` elements, and element `j` is cell `(i, j)`. |
| Matrix.Mat.GetMut | library/src/matrix.rs:41-43 | A write through `get_mut` changes only the addressed flat position. |
| Matrix.Mat.AtMut | library/src/matrix.rs:76-80 | A write through tuple `IndexMut` changes only cell `(i, j)`. |
| Matrix.Mat.RowMut | library/src/matrix.rs:49-51 | A write to element `j` of `row_mut(i)` changes only cell `(i, j)`. |
| Matrix.Mat.Iter | library/src/matrix.rs:114-117 | `iter` yields `rows` chunks of a well-shaped matrix, and they concatenate to its data. |
| Matrix.IterRows | library/src/matrix.rs:96-103 | Chunk `i` of the iteration is row `i`. |
| Matrix.GetWraps | library/src/matrix.rs:37-39 | Since only the flat position is checked, `get` with a column at or past `cols` reads the next row. |
| Matrix.Mat.Get | library/src/matrix.rs:37-39 | On a well-shaped matrix, a column below `cols` at a checked flat position lies in a row below `rows`, and `get` reads element `x` of that row's slice `data[y * cols .. (y + 1) * cols]`. |
| Matrix.IndexAgree | library/src/matrix.rs:68-88 | Tuple indexing, row slicing and `get` agree on every in-range cell. |
| Matrix.MacroAsWritten | library/src/matrix.rs:124-140 | The empty invocation gives a 0 by 0 matrix. An invocation with an empty group before the last does not compile, since its `vec!` call has a leading or doubled comma. Otherwise `rows` is the number of groups, `cols` is the data length divided by `rows`, and the data is every element in order. The macro panics exactly when the length is not a multiple of the group count. |
| Matrix.MacroAcceptsRagged | library/src/matrix.rs:129-140 | `mat![1; 2, 3, 4;]` is accepted as a 2 by 2 matrix although its rows are ragged. |
| Matrix.MacroEmptyGroups | library/src/matrix.rs:129-130 | `mat![;;]` does not compile although its groups are rectangular, while `mat![;]` gives a 1 by 0 matrix. |
| Matrix.Macro | library/src/matrix.rs:124-141 | The checked macro succeeds exactly on rectangular input; its result has one row per group, and its data is the groups in order. |
| Matrix.MacroAgrees | library/src/matrix.rs:124-140 | The macro as written builds the checked macro's matrix on every input that compiles and that the checked macro accepts. |
| Matrix.MacroRows | library/src/matrix.rs:129-140 | When the checked macro's matrix has columns, its rows are the written groups. |
| Grid.ScanExact | library/src/grid.rs:30-46 | The row-major scan lists each non-default cell once, ascending, and nothing else. |
| Grid.ScanDefault | library/src/grid.rs:13-16 | A grid of default cells has no points. |
| Grid.Grid.NewDefault | library/src/grid.rs:13-16 | `new_default` has `h * w` default cells and no points. |
| Grid.Grid.Set | library/src/grid.rs:56-58 | `set` changes only the cell at `p`. |
| Grid.Grid.Get | library/src/grid.rs:48-50 | On a well-shaped grid, every readable index has an in-range pair `(i, j) = to_pair(p)`, `from_pair` of that pair is `p` again, and `get` reads the cell `i * w + j` of the row-major matrix. |
| Grid.Grid.ComputePoints | library/src/grid.rs:30-46 | `compute_points` lists exactly the cells that differ from the default, in ascending order, each once. |
| BeamSearch.SortDesc | library/src/bs.rs:72-74 | Sorting by key and reversing gives a permutation with non-increasing keys. |
| BeamSearch.TruncateKeepsBest | library/src/bs.rs:79 | Truncating the sorted states to `width` keeps the best `width`; no dropped state beats the last survivor. |
| BeamSearch.ShortKeepsAll | library/src/bs.rs:75-77 | Fewer than `width` sorted states are all kept. |
| BeamSearch.ThresholdMonotone | library/src/bs.rs:80 | The new threshold is no lower than any bound every live state already met. |
| BeamSearch.BestIsMaximum | library/src/bs.rs:49-62 | After a consolidation the first kept state is at least as good as every live state. |
| BeamSearch.ConsolidateShort | library/src/bs.rs:64-77 | With fewer than `width` live states, all are kept sorted and the queue stays dirty under its old threshold. |
| BeamSearch.ConsolidateFull | library/src/bs.rs:64-82 | With at least `width` live states, the best `width` are kept. The weakest survivor's key becomes the threshold, never lower than before, and the queue becomes clean. |
| BeamSearch.AppendStep | library/src/bs.rs:42-43 | Appending an admitted state keeps the queue invariant and appends to the live states. |
| BeamSearch.TakeStep | library/src/bs.rs:58-59 | Taking the slot at the cursor removes exactly the first live state and keeps the invariant. |
| BeamSearch.BSQueue.constructor | library/src/bs.rs:16-28 | `new` requires `width > 0`, as the source asserts, and gives an empty, clean queue with no threshold. |
| BeamSearch.BSQueue.PrepareNextQueue | library/src/bs.rs:30-32 | Gives a fresh empty queue with the same width and key. |
| BeamSearch.BSQueue.SortTruncate | library/src/bs.rs:64-82 | A clean queue is left as it is. A dirty queue is consolidated: it keeps the best `width` live states and raises the threshold. |
| BeamSearch.BSQueue.Consolidate | library/src/bs.rs:69-81 | The cursor goes back to 0 and the kept states are the best of the live ones. The threshold never drops. |
| BeamSearch.BSQueue.Push | library/src/bs.rs:34-47 | A state below the threshold is rejected and a state at the threshold is admitted. The push that fills the capacity `2 * width` consolidates. No state is invented, and the threshold never drops. |
| BeamSearch.BSQueue.TakeNext | library/src/bs.rs:54-61 | Returns `None` exactly when no state is live. Otherwise it returns the first live state, one no worse than any other, and advances the cursor. |
| BeamSearch.BSQueue.Pop | library/src/bs.rs:49-62 | Returns `None` exactly when nothing is live. Otherwise the state it returns is one of the live ones and is at least as good as every state live before and after. |
| BeamSearch.PopTwice | library/src/bs.rs:49-62 | Two pops with no push between them give non-increasing keys, and an exhausted queue stays exhausted. |
| Utf8.EncodeChar | io/src/source.rs:130 | A character takes 1 to 4 bytes by its scalar value, and every byte after the first is a continuation byte. |
| Utf8.DecodeEncode | io/src/source.rs:130 | The bytes of a string decode back to that string. |
| Utf8.EncodeAscii | io/src/source.rs:130 | An ASCII token's bytes are its characters. |
| Io.TokenLen | io/src/source.rs:56 | The leading run contains no whitespace and ends at whitespace or at the end of the line. |
| Io.SplitTokens | io/src/source.rs:56 | Every piece `split_whitespace` yields is a token, and a line yields nothing exactly when it is blank. |
| Io.SplitAppend | io/src/source.rs:56 | Splitting is compositional across a whitespace boundary. |
| Io.SplitSpaced | io/src/source.rs:56 | Splitting tokens written out with spaces gives them back. |
| Io.TokensOfInput | io/src/source.rs:42-75 | Reading line by line loses and joins no token: the tokens read are the split of the whole input. |
| Io.ParseInt | io/src/source.rs:104 | A parsed integer lies within the type's range. |
| Io.ParseUsize | io/src/source.rs:104 | `usize::from_str` yields values in `0 ..= 2^64 - 1`. |
| Io.ParseIsize | io/src/source.rs:104 | `isize::from_str` yields values in `-2^63 ..= 2^63 - 1`. |
| Io.ParseUsizeDecimal | io/src/source.rs:102-113 | Every in-range `usize` written in decimal reads back, with or without `+`; with `-` it is rejected. |
| Io.ParseIsizeFormat | io/src/source.rs:102-113 | Every in-range `isize` as `to_string` writes it reads back. |
| Io.ParseOutOfRange | io/src/source.rs:102-113 | An out-of-range value is rejected, whatever its sign. |
| Io.ParseNoDigits | io/src/source.rs:102-113 | An empty token and a lone sign are rejected. |
| Io.Usize1 | io/src/source.rs:138-143 | Succeeds exactly when the value is at least 1, and then gives the predecessor; reading 0 panics. |
| Io.Isize1 | io/src/source.rs:150-154 | Succeeds exactly when the value is not `isize::MIN`, and then gives the predecessor. |
| Io.Source.New | io/src/source.rs:32-48 | A new source has nothing pending, so the tokens to come are those of the whole input. Every input line is non-empty, since `read_line` gives zero bytes only at end of file. |
| Io.Source.Prepare | io/src/source.rs:42-70 | `prepare` reads lines until a token is pending or the input ends. It loses and adds no token. |
| Io.Source.NextToken | io/src/source.rs:72-75 | `next_token` returns the first token to come, and `None` only when none remain. |
| Io.Source.IsEmpty | io/src/source.rs:77-80 | `is_empty` is true exactly when no token remains, and consumes nothing. |
| Io.Source.ReadValue | io/src/source.rs:97-114 | Reading a `FromStr` value consumes one token and parses it. A missing token or a rejected parse panics. |
| Io.Source.ReadChars | io/src/source.rs:118-123 | `Chars` gives the characters of one token. |
| Io.Source.ReadBytes | io/src/source.rs:127-132 | `Bytes` gives the UTF-8 bytes of one token. |
| Io.Source.ReadUsize1 | io/src/source.rs:136-144 | `Usize1` reads a `usize` token and gives its predecessor. It panics at 0. |
| Io.Source.ReadIsize1 | io/src/source.rs:148-155 | `Isize1` reads an `isize` token and gives its predecessor. It panics at `isize::MIN`. |
| Bundle.FixPath | xtask/src/bundle.rs:163-200 | A one-segment path is kept. `crate::rest` gains the crate's name as its second segment, and `ext::rest`, for an extern crate `ext`, gains a leading `crate`. Both drop a leading `::`, and any other path is kept. |
| Bundle.FixPathKeepsTarget | xtask/src/bundle.rs:163-200 | A rewritten crate or extern-crate path of a workspace crate names the same item once the crates are modules of the bundle. |
| Bundle.MainPathKeepsTarget | xtask/src/bundle.rs:124-132 | The main crate is not rewritten, and its `crate::` paths keep their targets. |
| Bundle.FixPathDeep | xtask/src/bundle.rs:140-147 | The visitor rewrites a path with the same segment names as the top-level rewrite, whatever its generic arguments hold. |
| Bundle.FixUse | xtask/src/bundle.rs:70-122 | `use crate::t` becomes `use crate::<name>::t`, and `use ext::t` becomes `use crate::ext::t`. Any other tree is kept. |
| Bundle.FixUseKeepsTarget | xtask/src/bundle.rs:70-122 | A rewritten `use` imports the same item in the bundle. |
| Bundle.FixUseAll | xtask/src/bundle.rs:31-68 | The main crate's items are kept unchanged. Otherwise each item is rewritten in place, and the count is kept. |
| Bundle.FixUseKeepsShape | xtask/src/bundle.rs:47-54 | Rewriting `use` trees adds, drops and reorders no item, at any depth of nested modules. |
| Bundle.FixPathAll | xtask/src/bundle.rs:124-161 | The main crate's items are kept unchanged. Otherwise each item's paths are rewritten in place, and the count is kept. |
| Bundle.FixPathKeepsShape | xtask/src/bundle.rs:140-147 | Rewriting paths adds, drops and reorders no item, at any depth. |
| Bundle.PartitionComplete | xtask/src/bundle.rs:252-264 | The `extern crate` names and the other items together account for every item once. |
| Bundle.ExtractExternCrates | xtask/src/bundle.rs:252-264 | One pass yields the `extern crate` names and the other items, each in their original order. |
| Bundle.FindModFile | xtask/src/bundle.rs:231-250 | `m.rs` next to the declaring file is preferred, and `m/mod.rs` is the fallback. `None` means the file has no parent or neither file exists. |
| Bundle.ReadFile | xtask/src/bundle.rs:266-268 | Reading succeeds exactly for an existing, parseable file. |
| Bundle.ExpandModAll | xtask/src/bundle.rs:202-210 | On success each out-of-line module becomes an inline module of the same name, every other item is kept and the item count is unchanged. |
| Bundle.ExpandMod | xtask/src/bundle.rs:212-229 | An inline module is kept, and a module with no file found is an error. Otherwise the module keeps its name and takes its file's content. |
| Bundle.ExpandFile | xtask/src/bundle.rs:266-272 | A module file expands only when it can be read, and it keeps its item count. |
| Bundle.ExpandCrate | xtask/src/bundle.rs:274-291 | A crate root is read and its `extern crate` names are taken out in order. Its remaining items are expanded and rewritten, one for one. |
| Bundle.Dashed | xtask/src/bundle.rs:304 | `replace('_', "-")` maps each `_` to `-` and keeps every other character. |
| Bundle.ExpandCrates | xtask/src/bundle.rs:296-310 | The ghost `order` is the run of the worklist: each crate in it expands, appears once, and is a root or is named by a crate expanded before it. On success the map holds exactly the crates of `order`, so no crate that no root reaches. Every root is expanded, every expanded crate expands under its own name, and every crate it names is expanded too. A failure is the error of a crate the run reaches. |
| Bundle.CrateModules | xtask/src/bundle.rs:312-325 | There is one inline module per expanded crate, each once, holding that crate's items. |
| Bundle.Expand | xtask/src/bundle.rs:293-329 | The bundle is one inline module per expanded crate, followed by the main crate's own items. The expanded crates are exactly the run `order` started from the names the main crate declares. So they include every crate the main crate names, every crate those name in turn, and nothing else. Each module holds its crate's expansion, and no two modules share a name. A failure of the main crate is the result. Otherwise a failure is the error of a crate the run reaches that fails to expand. |
| Table.New | xtask/src/table.rs:12-18 | A new table has no cells and is valid. |
| Table.Validate | xtask/src/table.rs:20-32 | `validate` holds exactly when the footer and every body row have as many cells as the header. |
| Table.MaxOr | xtask/src/table.rs:84-85 | `max().unwrap_or(d)` is `d` on no widths and otherwise the largest width. |
| Table.ColumnCellWidths | xtask/src/table.rs:75-83 | A column's widths are the header's, then each body row's, then the footer's. |
| Table.ColumnWidth | xtask/src/table.rs:74-86 | A column is as wide as its widest cell and fits every cell. |
| Table.ColumnWidthAttained | xtask/src/table.rs:84-85 | Some cell of the column has the column's width, so the fallback 1 is never used. |
| Table.ColumnWidths | xtask/src/table.rs:68-72 | There is one width per header column, and each fits its column's cells. |
| Table.Repeat | xtask/src/table.rs:109 | `repeat(n)` gives `n` copies of the character. |
| Table.Format | xtask/src/table.rs:108-114 | A cell is padded with spaces to the width: on the right when left-aligned, on the left when right-aligned. |
| Table.FormattedCells | xtask/src/table.rs:51-53 | `zip` pairs cells with widths up to the shorter list, and each cell is formatted to its width. |
| Table.RowLine | xtask/src/table.rs:48-56 | A row line starts `\| ` and ends ` \|`. A row with one cell per column has the line width the widths give. |
| Table.SeparatorLine | xtask/src/table.rs:58-66 | A separator has the same width and consists only of `-` and `\|`. |
| Table.Print | xtask/src/table.rs:34-46 | `print` panics exactly on an invalid table. Otherwise it prints `body + 4` lines, all of one width. |
| Table.Lines | xtask/src/table.rs:34-46 | A valid table has `body + 4` lines of the width the column widths give. |
| Table.LineAt | xtask/src/table.rs:37-45 | Every line has that width. |
| Table.LinesOrder | xtask/src/table.rs:39-45 | The lines are the header, a separator, the body rows, a separator and the footer, in that order. |

## Left out

**Per-index arrays, bitsets and bit rows**
- Per.Update: `IndexMut` hands out a reference. The model writes through it by returning the updated array, because the type is `Copy` and stored by value.
- `fmt::Debug` for `Bits` and `BitRow`, and the `dump` methods of `BitGrid` and `Grid`, are left out: they only write text to standard error.
- Bits.Set, Bits.Get, StrctBit.RowSet, StrctBit.RowGet: these require `i < 64`. A larger shift overflows and panics in a debug build, so the source gives no result for it.
- StrctBit.BitGrid.AndAssign and StrctBit.BitGrid.OrAssign:
  - They require the other grid to be a different object. In Rust the operand is moved in, so it cannot alias the target.
  - They combine rows over the shorter of the two lists, as `izip!` does.

**Grids and matrices**
- StrctBit.BitGrid.FromGrid: takes the grid's rows as lists of cells, `Grid::iter` is not part of this model, and the source's per-row `assert_eq!` is a precondition.
- Grid: `from_vec`, `config` and `get_mut` are not modelled separately. `get_mut` is folded into `Set`, the only caller in the core.
- Grid: the cells live in one row-major sequence rather than in a `Mat`. The `Mat` of `grid.rs` takes an `IJSize`, a signature that `matrix.rs` does not have.
- Matrix.MacroAsWritten: elements are values, so the row count `{ $(let _ = $e;)* 1 }` is only counted. In the source it evaluates every element expression a second time, and any side effect of those expressions happens twice. That is not modelled.
- Matrix: `rows()`/`cols()` are the class's fields. `iter_mut` and `&mut Mat` `IntoIterator` are written through `RowMut`, one element at a time.

**Grid coordinates**
- `IJ + IJ` and `IJ - IJ` panic on overflow in a debug build. The model has only the release-mode wrap-around (`AddWrapping`), which is how `dijs` is meant to be used.
- `fmt::Display` for `IJDir` is left out: it only writes a letter.

**Input reader**
- Source: the raw-pointer bookkeeping of `context` and `Drop` is memory management and is left out. Standard input is the list of lines it would return, and an I/O error of `read_line` (`expect("IO error")`) is left out.
- Io.Source.New: the input is the lines `read_line` would return. Each is taken to be non-empty, because `read_line` returns zero bytes only at end of file.
- Io.Source.ReadValue: `parse` is a parameter, so only `usize` and `isize` have their parsers modelled. `FromStr` for floats and the other integer widths is not part of this model.
- Io.ParseInt: the decimal grammar is Rust's integer `from_str`: an optional sign and at least one ASCII digit. Error kinds are not distinguished.

**Beam search**
- BeamSearch.BSQueue.Push: the buffer's capacity is taken to be exactly `2 * width`. `Vec::with_capacity` promises only at least that much. It is exact in practice for a non-zero-sized `Option<State>`, but a larger capacity would delay the consolidation that `push` triggers.

**Bundler**
- Bundle: the syntax tree is reduced to items, `use` trees and paths.
  - An item other than `extern crate`, `use` and `mod` is reduced to the paths it holds.
  - `use` items nested in function bodies, `impl` blocks or other items are not rewritten by the model, although `syn`'s visitor would reach them.
  - Generic arguments are reduced to the paths they mention.
  - Paths inside macros and attributes are left out.
- Bundle.ExpandMod: termination is bounded by `fuel`. A module tree deeper than the fuel is reported as `TooDeep`, where the source would recurse without bound on a cyclic module layout.
- Bundle.CrateModules: `HashMap` iteration order is unspecified, so the model states the set of modules and not their order.
- Bundle: `main`, the driver that prints the bundle, and `format`, which pipes it through `rustfmt`, are left out because they are I/O.

**Table**
- Table: display width (`UnicodeWidthStr::width`) is taken to be the number of characters, and `println!` is modelled by returning the lines.

## Findings

| source | as written | input that shows it | evidently intended | confidence | as-written member | corrected member |
|---|---|---|---|---|---|---|
| library/src/matrix.rs:131-137 | `mat!` counts the rows and sets `cols = len / rows`. It rejects only inputs whose length is not a multiple of the row count, so ragged rows can pass. | `mat![1; 2, 3, 4;]` | Every `;`-terminated group is one row of equal length, as the panic message "invalid matrix size" implies. | medium, not executed | Matrix.MacroAsWritten, Matrix.MacroAcceptsRagged | Matrix.Macro, Matrix.MacroRows |
| library/src/strct/bit.rs:205-215 | `!` complements all 64 bits of each row, including the padding columns from `w` on. `count_ones` then counts those padding bits too. | a 1 by 1 `new_zero` grid, then `!`, then `count_ones`, gives 64 | The complement covers only the grid's cells, so `count_ones` gives `h * w` minus the old count, here 1. `get` and `compute_points` never read the padding, which suggests the padding is meant to stay clear. | medium, not executed | StrctBit.BitGrid.Not, StrctBit.NotCountsPadding | StrctBit.BitGrid.NotWithin, StrctBit.SumCountsNotWithin |
