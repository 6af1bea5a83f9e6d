# A verified model of a puzzle-solution repository

The repository holds Rust solutions to yearly programming puzzles, and a Python script that turns
puzzle input and output fixture files into generated Rust test modules. This project models, in
Dafny, the fixture-to-test generator and the self-contained algorithmic kernels of the solutions.
It then proves properties of each model. Every core source file has one Dafny module, in a file of
its own:

- `conv_tests.dfy` (`ConvTests`) covers `archive/convtests.py`:
  - the `Tag` deferred name;
  - the two-phase `NameCache` register/resolve table with its `1…`, `A…` and `a…` suffixes;
  - the `StringCache` that deduplicates content, chooses constant, raw or plain literals and dumps
    indented block-string declarations;
  - the file-suffix classification and rendering of `gen_day`.
- `processor.dfy` (`Processor`) covers `src/yr2017/processor.rs`: register and operand parsing with
  their round trips, and the register machine's `program_step` over 64-bit wrapping registers.
- `dance.dfy` (`Dance`) covers `src/yr2017/day16.rs`:
  - the program letter codec;
  - transpositions and substitutions, with their combination and its associativity;
  - the in-place derivation of both from a dance;
  - exponentiation by squaring, proved equal to dancing the dance `k` times.
- `knot_hash.dfy` (`KnotHash`) covers `src/yr2017/day10.rs`: in-place cyclic reversal, rounds and the
  dense XOR hash.
- `turing.dfy` (`Turing`) covers `src/yr2017/day25.rs`: a Turing machine whose tape grows at both ends.
- `topo_sort.dfy` (`TopoSort`) covers `src/yr2018/day7.rs`: Kahn's sort, with an incoming-edge count
  map and the alphabetically first open node.
- `union_find.dfy` (`UnionFind`) covers `src/yr2025/day8.rs`: a disjoint-set forest with path
  compression and a count of the unions still needed.
- `merge_intervals.dfy` (`MergeIntervals`) covers `src/yr2025/day5.rs`: range parsing, an in-place
  sort and the in-place merge of intervals.
- `ranges.dfy` (`Ranges`) covers `src/yr2022/day15.rs`: adding an inclusive range to a row's
  coverage.
- `seed_maps.dfy` (`SeedMaps`) covers `src/yr2023/day5.rs`: intervals, a map's gap entries and the
  image of an interval under a map.
- `snafu.dfy` (`Snafu`) covers `src/yr2022/day25.rs`: the balanced base-5 codec.
- `snailfish.dfy` (`Snailfish`) covers `src/yr2021/day18.rs`:
  - snailfish trees, their addition and reduction;
  - magnitude;
  - display and parsing.
- `packets.dfy` (`Packets`) covers `src/yr2021/day16.rs`:
  - the most-significant-first bit reader over a 64-bit cache;
  - the packet parser;
  - the version sum and the evaluation of a packet.
- `operation_order.dfy` (`OperationOrder`) covers `src/yr2020/day18.rs`: the tokenizer and the two-stack
  evaluator in both precedence modes, against a grammar-based reference.
- `syntax_scoring.dfy` (`SyntaxScoring`) covers `src/yr2021/day10.rs`: bracket matching and completion
  scores.
- `polymer.dfy` (`Polymer`) covers `src/yr2018/day5.rs`: polymer reaction.
- `particles.dfy` (`Particles`) covers `src/yr2017/day20.rs`: the in-place removal of repeated
  elements, and the ordering at infinity.
- `marbles.dfy` (`Marbles`) covers `src/yr2018/day9.rs`: deque rotation and the marble game.
- `stream.dfy` (`Stream`) covers `src/yr2017/day9.rs`: group and garbage parsing, against a
  serialiser.
- `license_tree.dfy` (`LicenseTree`) covers `src/yr2018/day8.rs`: tree parsing, metadata sums and node
  values.
- `direction.dfy` (`Direction`) covers `src/direction.rs`: grid directions and their vectors.
- `hex_grid.dfy` (`HexGrid`) covers `src/yr2017/day11.rs`: hex directions and cubic coordinates.
- `memory_banks.dfy` (`MemoryBanks`) covers `src/yr2017/day6.rs`: the first maximum and
  redistribution.
- `handheld.dfy` (`Handheld`) covers `src/yr2020/day8.rs`: the boot-code interpreter, and the
  start/end scans that repair it.
- `bingo.dfy` (`Bingo`) covers `src/yr2021/day4.rs`: marking a bingo board.
- `marker.dfy` (`Marker`) covers `src/yr2022/day6.rs`: the first window of distinct characters.
- `duplicate.dfy` (`Duplicate`) covers `src/duplicate.rs`: the iterator adaptor that repeats every
  item.

Code that changes state step by step is modelled as methods with loops, and as classes over
sequence, map or array fields:
- the name and string caches;
- the register machine;
- the Turing machine;
- the topological sort;
- union-find;
- the bit reader;
- the bingo board;
- the iterator adaptor.

Each such method is proved against a specification function. Pure code is modelled as functions
and lemmas. Panics are modelled in one of two ways:
- when the caller must avoid them, as a `requires`;
- when they depend on data, as a `None` or error result.

Nothing is modelled in place of I/O. The text a file holds is a parameter.

## Model

| member | source | states |
|---|---|---|
| Bingo.Position | src/yr2021/day4.rs:20 | the index found is the first cell holding the number; none is found exactly when no cell holds it |
| Bingo.UnmarkedSumMark | src/yr2021/day4.rs:24-31 | marking a cell takes exactly its number out of the sum of unmarked numbers |
| Bingo.MarksFull | src/yr2021/day4.rs:25-28 | a line never has more marks than cells, and has as many exactly when every cell on it is marked |
| Bingo.RowSlots | src/yr2021/day4.rs:21 | with cells laid out row by row (row = index / 5), a row of a 25-cell board has five cells |
| Bingo.ColSlots | src/yr2021/day4.rs:22 | with column = index % 5, a column of a 25-cell board has five cells |
| Bingo.FiveMarks | src/yr2021/day4.rs:28 | on a 25-cell board a counter reaching 5 means every cell of that row or column is marked, and conversely |
| Bingo.MarkCounts | src/yr2021/day4.rs:24-26 | clearing an unmarked cell adds one mark to its row and its column and to no other line |
| Bingo.FullLine | src/yr2021/day4.rs:22-28 | the bingo test (row or column counter reaching 5 after the increment) holds exactly when the marked cell's row or column is now entirely marked |
| Bingo.NoMarks | src/yr2021/day4.rs:9-17 | a freshly parsed board has no marks on any line |
| Bingo.Board.constructor | src/yr2021/day4.rs:9-17 | a board built from parsed numbers holds them all unmarked, with all row and column counters zero |
| Bingo.Board.Mark | src/yr2021/day4.rs:19-40 | a number not on the board returns None and changes nothing; otherwise its first cell is cleared and its row and column counters incremented; when either counter reaches 5, the result is the unmarked sum times the number and the board is emptied, so a board that has won returns None from then on; the counters always equal the marks on each line |
| ConvTests.Upper | archive/convtests.py:76 | ASCII `a`..`z` become upper case one for one and every other character stays, so the length is kept; Python's Unicode-aware `upper()` is not what this states (see Left out) |
| ConvTests.Lower | archive/convtests.py:152 | ASCII `A`..`Z` become lower case one for one and every other character stays, so the length is kept; Python's Unicode-aware `lower()` is not what this states (see Left out) |
| ConvTests.RStrip | archive/convtests.py:66 | `rstrip()` gives a prefix of the text that does not end in whitespace, and only whitespace was removed |
| ConvTests.SplitLines | archive/convtests.py:99 | `splitlines()` gives lines that contain no line break |
| ConvTests.RemoveSuffix | archive/convtests.py:121 | `removesuffix` of a present suffix gives the text in front of it |
| ConvTests.TagText | archive/convtests.py:15-18 | a tag's text is an error exactly when it is unresolved or resolved to the empty string, and otherwise is the resolved name |
| ConvTests.Tag.constructor | archive/convtests.py:12-13 | a new tag holds the initial name it was given, or none |
| ConvTests.KeyOf | archive/convtests.py:28-29 | an all-digit name gets the numeric prefix in front; any other name is its own key |
| ConvTests.RegisterKeepsKeys | archive/convtests.py:32-35 | registering keeps the insertion-ordered key list in step with the dictionary: every key listed once and no list empty |
| ConvTests.RegisterKeepsDistinct | archive/convtests.py:31-35 | appending a fresh tag keeps every registered tag distinct |
| ConvTests.NameCache.constructor | archive/convtests.py:24-25 | a new cache has no keys and no entries |
| ConvTests.NameCache.Register | archive/convtests.py:27-36 | a fresh unresolved tag is appended with its value under the key of the name; a new key goes last in iteration order, and existing lists keep their order |
| ConvTests.FirstLetter | archive/convtests.py:48-53 | the first suffix is `1` unless the key ends in a digit, then `A` if the key starts upper-case, else `a` |
| ConvTests.FirstUnresolvable | archive/convtests.py:48 | resolution stops at the first key that is empty yet has several entries, since `k[-1]` fails there; all keys before it are resolvable |
| ConvTests.ResolveKey | archive/convtests.py:43-58 | one key's tags get the key itself when it is the only entry, and otherwise the key plus successive suffix letters in registration order; an empty key with several entries fails and changes nothing |
| ConvTests.TagsApart | archive/convtests.py:56-58 | the tags under one key are distinct from each other and from every other key's tags, so naming one list touches no other |
| ConvTests.NameCache.Resolve | archive/convtests.py:41-58 | every tag of every key before the first unresolvable key is named as described; later tags keep their old names, and the result says whether every key was resolved |
| ConvTests.ResolvedNamesDistinct | archive/convtests.py:56-58 | within one key, the resolved names of different entries differ |
| ConvTests.ResolvedNameSuffix | archive/convtests.py:43-58 | a single entry resolves to the key; otherwise entry i is the key plus one character, i places after the first letter |
| ConvTests.CrossKeyCollision | archive/convtests.py:41-58 | the first of two entries under `ex` and the single entry under `ex1` both resolve to `ex1` |
| ConvTests.FindValue | archive/convtests.py:69-71 | the index found is the first entry whose value equals the text, and none is found exactly when no entry does |
| ConvTests.StringCache.constructor | archive/convtests.py:62-63 | a new string cache wraps an empty naming table |
| ConvTests.StringCache.Register | archive/convtests.py:65-83 | text already cached returns the earlier tag and adds nothing; text of 100 or more characters, or multi-line, is registered under the upper-cased name with the OUT or IN prefix; other text gets a resolved inline literal (raw when it holds a quote, an assertion error on `"#`) and the table is unchanged; the tag returned is always the one issued for the right-stripped text (`ConvTests.Issued`), and no entry of the table moves |
| ConvTests.IssuedExtends | archive/convtests.py:31-35 | a tag issued for a text stays issued for it while the table only has entries appended |
| ConvTests.InlineLiteral | archive/convtests.py:77-83 | inline text fails exactly when it holds a quote and the raw terminator `"#`; otherwise the literal is at least two characters longer than the text and is raw (starts with `r`) exactly when the text holds a quote |
| ConvTests.StringCache.AddText | archive/convtests.py:73-76 | long or multi-line text is registered under the upper-cased name with prefix `IN` or `OUT` and a fresh tag; the cache grows by exactly that entry |
| ConvTests.StringCache.Resolve | archive/convtests.py:85-86 | resolving the string cache resolves its naming table, with the same outcome |
| ConvTests.StringCache.Dump | archive/convtests.py:88-110 | the dump is the concatenation of each cached entry's declaration, in iteration order, failing at the first entry that cannot be declared |
| ConvTests.DeclarationOf | archive/convtests.py:90-109 | the loop body's text for one entry is that entry's declaration |
| ConvTests.Declaration | archive/convtests.py:91-109 | one entry's declaration fails exactly when its name is unresolved or its text holds both a quote and `"#`; otherwise it starts with `const name: &str = indoc!{` after two blank lines |
| ConvTests.BlockBody | archive/convtests.py:99-104 | the line loop gives each line right-stripped and indented by eight spaces, and a blank line for a blank line |
| ConvTests.Snapshot | archive/convtests.py:90 | the dump sees each entry's resolved name and text, in order |
| ConvTests.Declarations | archive/convtests.py:90-110 | the dump works on one declaration per cached entry, in entry order |
| ConvTests.JoinedSnoc | archive/convtests.py:90-110 | dumping one more declarable entry appends its declaration |
| ConvTests.JoinedFails | archive/convtests.py:90-110 | dumping one more entry that cannot be declared fails with its error |
| ConvTests.JoinedErrorStops | archive/convtests.py:90-110 | after the first failing entry, later entries do not change the outcome |
| ConvTests.JoinedSucceeds | archive/convtests.py:90-110 | the join of the declarations succeeds exactly when each declaration does |
| ConvTests.JoinedNextFails | archive/convtests.py:90-110 | when the declaration of entry i fails after the earlier ones succeeded, the whole dump fails with that error |
| ConvTests.JoinedNextGrows | archive/convtests.py:90-110 | when the declaration of entry i succeeds, it extends the text of the entries before it |
| ConvTests.DumpEntry | archive/convtests.py:90-110 | one round of the dump loop: the declaration of entry i either extends the text or is the error the dump ends with |
| ConvTests.DumpSucceeds | archive/convtests.py:88-110 | the dump succeeds exactly when every entry is resolved and its text can be delimited |
| ConvTests.DeclarationOutcome | archive/convtests.py:91-109 | a declaration fails exactly when the name is unresolved or the text holds both a quote and `"#`; a successful one uses the raw closing delimiter exactly when the text holds a quote |
| ConvTests.BodyLineCount | archive/convtests.py:99-104 | the block body holds exactly one line feed per line of the text |
| ConvTests.RawLiteralDelimited | archive/convtests.py:77-80 | a raw literal is the text between `r#"` and `"#`, and the only `"#` inside it is its closing one |
| ConvTests.PlainLiteralDelimited | archive/convtests.py:81-83 | a plain literal is the text between two quotes, with no quote anywhere else |
| ConvTests.ClassifyInputNames | archive/convtests.py:119-128 | `.in.1`, `.in.2` and `.in` serve stars [1], [2] and [1, 2] and give back the name in front of the suffix |
| ConvTests.ClassifyInputSound | archive/convtests.py:119-133 | a recognised input name is its name plus the suffix of its stars; an error means the name contains `in` without one of the suffixes; a name that is skipped does not contain `in` |
| ConvTests.ClassifyOutputNames | archive/convtests.py:141-149 | `.out.1` and `.out.2` give the expected answer of star 1 and star 2 and give back the name in front |
| ConvTests.ClassifyOutputSound | archive/convtests.py:141-149 | a recognised output name is its name plus the suffix of its star, 1 or 2; an error happens exactly when the name contains `out` without ending in `.out.1` or `.out.2`; a skipped name does not contain `out` |
| ConvTests.InputKeysSound | archive/convtests.py:119-137 | the (name, star) keys of `inputs` are exactly those for which some file is named after the test with the suffix of a star list holding that star |
| ConvTests.TestsSound | archive/convtests.py:139-152 | every test is served by an input (the lookup `inputs[test]` cannot raise `KeyError`), has star 1 or 2 and comes from a file named after it; every recognised output file gives its test |
| ConvTests.RecordStars | archive/convtests.py:136-137 | `inputs[(name, r)] = value` for each star: exactly the keys `(name, r)` are added, each mapped to the tag, and every other entry is kept |
| ConvTests.InputRound | archive/convtests.py:119-137 | one round of the input loop keeps its invariant: the keys still to come, with the recorded ones, are the listing's input keys, and every recorded tag is the one issued for the text of the last file so far serving its test; an error here is an error of the whole listing |
| ConvTests.InputStep | archive/convtests.py:119-137 | one round of the input loop fails exactly when the file name is rejected or its text cannot be inlined; otherwise it adds exactly the keys that file serves, each mapped to the tag issued for the file's right-stripped text, and keeps every other key's tag; the cache is unchanged for a file that is not an input, and otherwise either unchanged or grown by exactly the entry (that tag, that text) under the upper-cased name with prefix `IN` |
| ConvTests.InputsStep | archive/convtests.py:119-137 | one more round of the input loop keeps every recorded tag the one issued for the text of the last file so far that serves its test |
| ConvTests.RegisterInputs | archive/convtests.py:119-137 | the input loop fails exactly when some input name is rejected or some input text cannot be inlined; otherwise its keys are exactly the served tests, and each test's tag is the one issued for the text of the last input file in the listing that serves it (later files overwrite earlier ones); the cache's entries only grow |
| ConvTests.AddTest | archive/convtests.py:152 | `test_names.register(test[0].lower(), "example", ...)`: the table grows by one fresh tag under the lower-cased key, an all-digit name prefixed by `example` |
| ConvTests.OutputTest | archive/convtests.py:151-152 | an output fixture's text is registered in the cache, and its test is registered under the lower-cased name with its star, its input's tag and an output tag issued for the fixture's right-stripped text (`ConvTests.Issued`); the cache's entries only grow; fails exactly when the cache cannot take the text or the test has no input (the `KeyError`) |
| ConvTests.TestStep | archive/convtests.py:141-152 | one round of the output loop fails exactly when the file name is rejected or its test has no input (the `KeyError`); on an output file it registers one test under the lower-cased key, with its star, the input tag and an output tag issued for the file's right-stripped text; the cache's entries only grow; any other file changes neither table |
| ConvTests.OutputRound | archive/convtests.py:141-152 | one round of the output loop extends the tests found, the output texts found and the registrations made by those of one more file, keeping every output tag issued for its file's right-stripped text and the cache's entries in place, or the listing's tests fail |
| ConvTests.RegisteredGrows | archive/convtests.py:152 | one more test registered as the loop does keeps registration j that of test j |
| ConvTests.OutputTextsLength | archive/convtests.py:141-152 | the output loop meets exactly one output text per test it registers |
| ConvTests.OutputTextOf | archive/convtests.py:141-151 | output text j is the right-stripped text of a file of the listing whose name gives test j |
| ConvTests.OutputsRecordedExtends | archive/convtests.py:151 | output tags issued for their texts stay issued while the cache's entries only grow |
| ConvTests.OutputsRecordedStep | archive/convtests.py:151-152 | a round that registers nothing, or one test whose output tag is issued for its file's text, keeps every output tag issued for its text |
| ConvTests.OutputsNext | archive/convtests.py:141-152 | a round of the output loop on an accepted file moves the loop state (tests, output texts, registrations) past that file |
| ConvTests.RegisterTests | archive/convtests.py:139-152 | the output loop fails exactly when the listing's tests fail; otherwise registration j is that of test j, in file order, with the star and input tag of test j and an output tag issued for the right-stripped text of the output file test j comes from (`ConvTests.OutputsRecorded`); the naming table is the old one with exactly these registrations added, and the cache's entries only grow, so the input tags stay issued for their texts |
| ConvTests.TestLine | archive/convtests.py:157-159 | `dump_test`: the line exists exactly when the test's name and both tags are resolved, and then starts with `    star_test!(name, star` and ends with `);`, with the star, the input and the output in between (`ConvTests.StarTest`) |
| ConvTests.TestItems | archive/convtests.py:161-163 | the rendering sees one item per registered test, in iteration order, holding the test's resolved name, star and the two resolved tags |
| ConvTests.OfStar | archive/convtests.py:161-163 | the items kept for a star are items of that star, and every item of that star is kept |
| ConvTests.OfStarSplit | archive/convtests.py:161-163 | with every star 1 or 2, the two stars' lists together have as many items as there are tests |
| ConvTests.LinesMeaning | archive/convtests.py:161-163 | the lines of a list of tests exist exactly when each test's line does, and then are one line per test, in order |
| ConvTests.JoinLinesHas | archive/convtests.py:162-164 | every line occurs in the lines joined by line feeds |
| ConvTests.TestModuleEnds | archive/convtests.py:168-174 | the module starts with its header (`#[cfg(test)]`, `mod test {`, `use super::*;` and the indoc import when constants were dumped) and ends with the closing `}` and a line feed |
| ConvTests.TestModuleHas | archive/convtests.py:161-174 | every line of either star's tests occurs in the module |
| ConvTests.GenModuleOk | archive/convtests.py:157-174 | the module is rendered exactly when the constants are dumped and every test of star 1 or 2 has its line |
| ConvTests.GenModuleHas | archive/convtests.py:157-174 | a rendered module holds the `star_test!` line of every test of star 1 or 2 |
| ConvTests.GenModuleHasOne | archive/convtests.py:157-174 | a rendered module holds the line of test j |
| ConvTests.GenModuleShape | archive/convtests.py:161-174 | with every star 1 or 2, a rendered module is the module text of two lists of lines that have one line per test between them |
| ConvTests.ModuleShape | archive/convtests.py:161-174 | a module rendered from registered tests of star 1 or 2 is the module text of two lists with one line per registered test |
| ConvTests.StarsOfEntries | archive/convtests.py:161-163 | every test the naming table yields has star 1 or 2 |
| ConvTests.RenderText | archive/convtests.py:157-174 | the rendering after resolution is the module the rendering specification gives from the tags' names and the cached texts |
| ConvTests.Render | archive/convtests.py:154-174 | resolves the constants and then the tests; fails when either table has a key that cannot be resolved; otherwise gives the module of the resolved tests and constants |
| ConvTests.RenderDay | archive/convtests.py:154-174 | fails when either table has a key that cannot be resolved; otherwise the result is exactly the module of the resolved tests and the dumped constants that Render gives; a rendered module has one line per registered test in its two sections, and holds a `star_test!` line of each registered test's star |
| ConvTests.EntriesHas | archive/convtests.py:38-39 | the table's iterator yields every entry of every listed key |
| ConvTests.RegisterAllHas | archive/convtests.py:31-35 | every registration made is held afterwards in the list of its key |
| ConvTests.RegisteredEntries | archive/convtests.py:139-152 | the test of every registration of the output loop is an entry the table's iterator yields, with the test's star |
| ConvTests.RenderTests | archive/convtests.py:154-174 | after both loops, a rendered module has one line per output fixture's test and a `star_test!` line of each test's star |
| ConvTests.GenTests | archive/convtests.py:139-174 | the output loop and the rendering, once the inputs are registered: fails when the tests fail, and a module it renders has one line per test and a `star_test!` line of each test's star |
| ConvTests.GenDay | archive/convtests.py:113-174 | `gen_day` over a listing of (file name, text) pairs: fails when an input name is rejected or the tests fail (a rejected output name or an output without input); a module it renders has exactly one line per output fixture in its two test sections, and holds a `star_test!` line of each fixture's star |
| ConvTests.JoinLinesCount | archive/convtests.py:162 | joining test lines puts exactly one line feed between neighbours |
| Dance.FromChar | src/yr2017/day16.rs:7-13 | a character gives a program exactly when it is a lower-case letter, and that program's letter is the character again |
| Dance.ToChar | src/yr2017/day16.rs:15-21 | a program has a letter exactly when its number is below 26 |
| Dance.CharRoundTrip | src/yr2017/day16.rs:7-21 | for every program below 26, decoding its letter gives the program back |
| Dance.Identity | src/yr2017/day16.rs:57-59 | the identity table of n entries holds i at position i |
| Dance.IdentityPerm | src/yr2017/day16.rs:88-90 | the identity table is a permutation of 0..n |
| Dance.ByPosition | src/yr2017/day16.rs:62-65 | a transposition's output at x is the input at `trans[x]`, with the input length asserted equal |
| Dance.ByValue | src/yr2017/day16.rs:98-100 | a substitution's output at x is `trans[old[x]]` |
| Dance.Combine | src/yr2017/day16.rs:69-71 | combining gives a transformation of the same kind |
| Dance.IdentityTransforms | src/yr2017/day16.rs:57-65 | the identity transposition and the identity substitution leave every line unchanged |
| Dance.CombineFits | src/yr2017/day16.rs:94-96 | combining two transformations of n-program lines gives one |
| Dance.CombineTransform | src/yr2017/day16.rs:69-100 | transforming by `t.combine(o)` is transforming by o and then by t, for both kinds |
| Dance.CombinePerm | src/yr2017/day16.rs:69-96 | combining two permutations of 0..n gives a permutation |
| Dance.CombineAssociative | src/yr2017/day16.rs:69-96 | combining is associative |
| Dance.RotateRight | src/yr2017/day16.rs:27-28 | a spin moves the last s elements to the front, keeping the order of both parts |
| Dance.Swap | src/yr2017/day16.rs:149 | swapping exchanges the two entries and keeps every other |
| Dance.MovePositions | src/yr2017/day16.rs:140-150 | a spin or exchange rearranges a line without changing its length |
| Dance.DanceStep | src/yr2017/day16.rs:26-34 | one move made directly on a line keeps its length |
| Dance.DanceAll | src/yr2017/day16.rs:138-157 | the dance made move by move keeps the line's length |
| Dance.IndexOf | src/yr2017/day16.rs:152-153 | `position` finds the first index holding the value |
| Dance.SwapPerm | src/yr2017/day16.rs:148-155 | swapping two entries of a permutation gives a permutation |
| Dance.MovePositionsPerm | src/yr2017/day16.rs:140-150 | spins and exchanges keep the transposition a permutation |
| Dance.SpinPerm | src/yr2017/day16.rs:140-150 | a spin of a permutation of 0..n is a permutation of 0..n |
| Dance.DeriveStepPerm | src/yr2017/day16.rs:139-156 | every move keeps both tables permutations of 0..n |
| Dance.Derive | src/yr2017/day16.rs:133-160 | the two derived tables are permutations of 0..n |
| Dance.ReverseRange | src/yr2017/day16.rs:143-146 | reversing a slice keeps the sequence's length |
| Dance.Reverse | src/yr2017/day16.rs:143 | the in-place reversal leaves the array as the slice reversed |
| Dance.ThreeReversals | src/yr2017/day16.rs:141-146 | reversing the whole, then the first s and the rest, rotates right by s |
| Dance.SpinInPlace | src/yr2017/day16.rs:140-147 | the three in-place reversals leave the transposition rotated right by s |
| Dance.Position | src/yr2017/day16.rs:152-153 | the search returns the first index of the value in the array |
| Dance.IndexOfUnique | src/yr2017/day16.rs:152 | any index holding the value with no earlier one is the one `position` finds |
| Dance.MoveInPlace | src/yr2017/day16.rs:139-156 | one move made in place on the two tables gives the derivation step's tables |
| Dance.DeriveTransformation | src/yr2017/day16.rs:133-160 | the source's loop over the moves computes the derived pair of tables |
| Dance.MoveCommutesWithRename | src/yr2017/day16.rs:140-150 | rearranging by position commutes with renaming |
| Dance.MoveOfTransposition | src/yr2017/day16.rs:140-150 | moving the positions of a transposition table moves the positions of the line it produces |
| Dance.PartnerSwap | src/yr2017/day16.rs:151-155 | swapping the positions of two partners in the substitution renames each value by swapping the two |
| Dance.DeriveCorrect | src/yr2017/day16.rs:133-160 | for any valid moves, the dance made directly equals the derived substitution applied after the derived transposition |
| Dance.RepeatTransformation | src/yr2017/day16.rs:163-177 | repeated squaring gives a transformation of the same kind on the same lines |
| Dance.Power | src/yr2017/day16.rs:163 | the k-fold combination has the same kind and fits the same lines |
| Dance.Iterate | src/yr2017/day16.rs:184-187 | applying a transformation k times to a line gives a line |
| Dance.PowerTransform | src/yr2017/day16.rs:163-177 | transforming by the k-fold combination is transforming k times |
| Dance.IterateSquare | src/yr2017/day16.rs:168-171 | applying the square j times is applying the transformation 2j times |
| Dance.IterateIsApply | src/yr2017/day16.rs:184-187 | applying a transformation k times to a line is taking k steps of it, each step transforming the sequence |
| Dance.ApplyTwice | src/yr2017/day16.rs:168-171 | when one step of g is two steps of f on every sequence of an invariant g keeps, j steps of g are 2j steps of f |
| Dance.IterateOnce | src/yr2017/day16.rs:184-187 | applying a transformation k > 0 times is applying it once and then k - 1 times |
| Dance.RepeatTransform | src/yr2017/day16.rs:163-177 | transforming by the repeated transformation is transforming k times |
| Dance.TableOfIdentity | src/yr2017/day16.rs:187 | a table is what its transformation makes of the identity line |
| Dance.RepeatIsPower | src/yr2017/day16.rs:163-177 | for every k > 0, repeated squaring equals the k-fold combination |
| Dance.DanceTimes | src/yr2017/day16.rs:180-189 | k dances in a row keep the line's length |
| Dance.WholeDanceCorrect | src/yr2017/day16.rs:180-189 | the whole dance with `repeats` repetitions equals dancing the moves that many times from the identity line |
| Dance.RenameCommutes | src/yr2017/day16.rs:187 | renaming commutes with reordering |
| Dance.TransformLine | src/yr2017/day16.rs:73-100 | a transformation fitting n maps a line of n programs to another |
| Dance.PowerDance | src/yr2017/day16.rs:184-187 | when one transposition followed by one substitution is one dance, their k-fold combinations are k dances |
| Dance.PowerStep | src/yr2017/day16.rs:174-175 | one round can be peeled off both combinations, because the remaining reordering commutes with the first renaming |
| Dance.DanceText | src/yr2017/day16.rs:188 | the final names spell the line, one letter per program |
| Direction.Clockwise | src/direction.rs:15-22 | turning clockwise always changes the direction |
| Direction.Anticlockwise | src/direction.rs:25-32 | turning anticlockwise undoes a clockwise turn and equals three clockwise turns |
| Direction.Reverse | src/direction.rs:35-42 | reversing equals two clockwise turns and always changes the direction |
| Direction.ReverseInvolution | src/direction.rs:35-42 | reversing twice gives the direction back |
| Direction.ClockwiseFourTimes | src/direction.rs:15-22 | four clockwise turns give the direction back |
| Direction.ClockwiseAnticlockwise | src/direction.rs:15-32 | clockwise and anticlockwise turns are inverse in both orders |
| Direction.ToVec | src/direction.rs:46-55 | the vector lies on an axis, its components summing to `size` for north and east and to −`size` for south and west; north is +y |
| Direction.ToVecNeg | src/direction.rs:59-65 | the north-negative vector is the north-positive one with y negated |
| Direction.ClockwiseRotatesVector | src/direction.rs:15-55 | a clockwise turn rotates the direction's vector by a quarter turn clockwise |
| Direction.ReverseNegatesVector | src/direction.rs:35-55 | reversing negates the direction's vector |
| Duplicate.Copies | src/duplicate.rs:28-40 | the copies of one item are n elements all equal to it |
| Duplicate.RepeatedLength | src/duplicate.rs:58-61 | duplicating each item d times multiplies the length by d |
| Duplicate.RepeatedIndex | src/duplicate.rs:17-48 | copy j of item i is the item, at position i·d + j |
| Duplicate.RepeatedOnce | src/duplicate.rs:19-22 | duplicating once gives the items back, and duplicating zero times gives nothing |
| Duplicate.DuplicateIter.constructor | src/duplicate.rs:65-67 | a new adaptor with no current item yields each item of the inner iterator d times |
| Duplicate.DuplicateIter.Next | src/duplicate.rs:17-48 | `next` yields the first element still to come, or None when nothing is left, and drops it from what remains; the inner iterator advances by at most one item |
| Duplicate.DuplicateIter.NextCopy | src/duplicate.rs:23-47 | with two or more copies per item, `next` hands out an owed copy or fetches the next inner item, and in both cases yields the first element still to come and drops it |
| Duplicate.OwedStep | src/duplicate.rs:25-34 | handing out one of `left` owed copies leaves `left - 1` owed, and none once the last is handed out |
| Duplicate.FetchStep | src/duplicate.rs:36-42 | fetching an inner item yields it and leaves `d - 1` copies of it owed before the remaining inner items |
| Duplicate.DuplicateIter.Count | src/duplicate.rs:58-61 | `count` is the number of elements still to come |
| Duplicate.DuplicateIter.SizeHint | src/duplicate.rs:50-56 | given the inner iterator's bounds, the hint's lower bound is at most what remains and its upper bound, when present, at least what remains |
| Handheld.CountFalseMark | src/yr2020/day8.rs:31-32 | marking an unseen instruction leaves one fewer unseen, which bounds the loop |
| Handheld.Fresh | src/yr2020/day8.rs:27 | the seen flags start as one false flag per instruction |
| Handheld.RunGain | src/yr2020/day8.rs:31-41 | the final accumulator is the start value plus the `acc` arguments of the instructions run |
| Handheld.Run | src/yr2020/day8.rs:31-41 | the accumulator of the walk is the start value when no instruction is `acc`, and no less when every `acc` argument is non-negative; `Handheld.RunGain` gives it exactly |
| Handheld.TraceOnce | src/yr2020/day8.rs:31-32 | every instruction run was unseen and is run at most once |
| Handheld.TraceFollows | src/yr2020/day8.rs:33-40 | the instructions run start at the entry point and each follows from the previous (`jmp` by its offset, others by one), and the stop is the successor of the last |
| Handheld.TraceStops | src/yr2020/day8.rs:31 | the walk stops at a position outside the program or at an instruction already run |
| Handheld.Execute | src/yr2020/day8.rs:26-44 | the loop with the `seen` array returns the accumulator of the walk from instruction 0 until it leaves the program or repeats an instruction |
| Handheld.Star1 | src/yr2020/day8.rs:46-48 | the first answer is the accumulator when the first instruction would be repeated |
| Handheld.ScanStart | src/yr2020/day8.rs:58-72 | the scan succeeds exactly when the walk from instruction 0 repeats itself, since leaving the program indexes past the marks; then exactly the instructions run are marked `Start` and all others stay `Unknown` |
| Handheld.Marked | src/yr2020/day8.rs:102-104 | marking the walked cells keeps the length of the marks |
| Handheld.ScanEnd | src/yr2020/day8.rs:74-105 | the marks afterwards are the old marks with every cell of the walk from `pos` set to the walk's outcome: `Dead` on a repeat or on reaching `Start`/`Dead`, otherwise `End` |
| Handheld.Classify | src/yr2020/day8.rs:102-104 | the final loop sets exactly the walked cells to the status |
| Handheld.EndPathExits | src/yr2020/day8.rs:98 | a path through `End` cells leaves any program that agrees on those cells |
| Handheld.ClosedNeverExits | src/yr2020/day8.rs:94-96 | from a `Start` or `Dead` cell whose successors are all `Start` or `Dead`, the program never leaves |
| Handheld.EndPathMore | src/yr2020/day8.rs:102-104 | an `End` path stays one when more cells are marked |
| Handheld.Classified | src/yr2020/day8.rs:74-105 | once the marks are sound and every cell is classified, `End` holds exactly for the instructions from which the program runs off its end |
| Handheld.WalkCells | src/yr2020/day8.rs:79-93 | the walk pushes onto `seen` only in-range `Unknown` instructions not seen before, each once, starting at `pc` exactly when `pc` itself is such an instruction, each the successor of the one before; its status is `End` or `Dead` |
| Handheld.WalkDead | src/yr2020/day8.rs:80-83 | a walk that ends `Dead` ends at a `Start` or `Dead` cell, and all its cells then lead to one |
| Handheld.WalkEnd | src/yr2020/day8.rs:79-98 | a walk that ends `End` has, from each of its cells, a path that leaves the program through `End` cells |
| Handheld.ScanEndSound | src/yr2020/day8.rs:74-105 | one `scan_end` keeps the marks sound, classifies `pos`, and changes neither classified cells nor `Start` marks |
| Handheld.SoundAfterEnd | src/yr2020/day8.rs:98-104 | marking a walk `End` keeps the marks sound |
| Handheld.SoundAfterDead | src/yr2020/day8.rs:80-104 | marking a walk `Dead` keeps the marks sound |
| Handheld.StartSound | src/yr2020/day8.rs:58-72 | the marks `scan_start` leaves are sound |
| Handheld.Flip | src/yr2020/day8.rs:117-123 | switching changes only instruction i, swapping `jmp` and `nop` and keeping the argument |
| Handheld.ExitsBack | src/yr2020/day8.rs:119 | a run that reaches a cell that leaves within k steps itself leaves within k plus the steps taken |
| Handheld.RepairTerminates | src/yr2020/day8.rs:115-124 | switching a candidate instruction makes the program run off its end |
| Handheld.RepairStuck | src/yr2020/day8.rs:114-128 | switching a `Start` instruction that is not a candidate leaves the program looping |
| Handheld.Star2 | src/yr2020/day8.rs:107-131 | with a switched successor outside the program counting as leaving it, the result is the accumulator of the program with the first switch, in program order, that makes it run off its end; None when no switch does, and when the program does not loop |
| Handheld.ScanAll | src/yr2020/day8.rs:110-112 | after `scan_end` from every instruction, the marks are sound, every cell is classified, and the `Start` marks are those of `scan_start` |
| Handheld.ScanStep | src/yr2020/day8.rs:111 | one more `scan_end` keeps the loop invariant and classifies one more cell |
| Handheld.AsWrittenChosen | src/yr2020/day8.rs:114-128 | where the loop as written picks an instruction, it is the first candidate |
| Handheld.AsWrittenOutOfBounds | src/yr2020/day8.rs:117 | for the program `jmp +0`, the loop as written reads the mark past the end, although switching that instruction makes the program run off its end |
| HexGrid.ParseDirection | src/yr2017/day11.rs:19-29 | exactly the six names `n ne se s sw nw` parse, each to the direction with that name |
| HexGrid.ParseName | src/yr2017/day11.rs:19-29 | every direction's name parses back to it |
| HexGrid.Add | src/yr2017/day11.rs:52-54 | the sum of two points on the plane x + y + z = 0 is on it |
| HexGrid.Neg | src/yr2017/day11.rs:60-62 | negating keeps a point on the plane |
| HexGrid.NegCancels | src/yr2017/day11.rs:52-62 | a point plus its negation is the origin |
| HexGrid.Sub | src/yr2017/day11.rs:68-70 | `a - b` plus b is a |
| HexGrid.Step | src/yr2017/day11.rs:77-84 | every unit step lies on the plane |
| HexGrid.OppositeStepsCancel | src/yr2017/day11.rs:77-84 | the steps of opposite directions cancel |
| HexGrid.HexMove | src/yr2017/day11.rs:76-85 | a move keeps a point on the plane and changes it by exactly the direction's step |
| HexGrid.Norm | src/yr2017/day11.rs:90-93 | the norm of a point on the plane is half the sum of the absolute coordinates, which equals the largest absolute coordinate |
| HexGrid.MoveChangesNormByAtMostOne | src/yr2017/day11.rs:110-113 | one move changes the distance from the origin by at most one |
| HexGrid.WalkBounded | src/yr2017/day11.rs:96-103 | the folded walk stays on the plane, and its distance is at most the start's plus the number of moves |
| HexGrid.Walk | src/yr2017/day11.rs:96-103 | the walk over one more move is the walk over the others followed by that move |
| KnotHash.Cyc | src/yr2017/day10.rs:26-27 | stepping round a circle lands on the circle, wrapping past the end at most once |
| KnotHash.Off | src/yr2017/day10.rs:35-36 | every position is some number of steps after the start, and stepping that many gives it back |
| KnotHash.OffCyc | src/yr2017/day10.rs:35-36 | counting the steps to a stepped position gives the steps back |
| KnotHash.CyclicReverse | src/yr2017/day10.rs:24-38 | reversing a cyclic window keeps the list's length |
| KnotHash.CyclicReverseInvolution | src/yr2017/day10.rs:24-38 | reversing the same window twice restores the list |
| KnotHash.CyclicReverseOutside | src/yr2017/day10.rs:24-38 | elements outside the window keep their places |
| KnotHash.Swap | src/yr2017/day10.rs:34 | the swap exchanges the two elements and keeps the multiset |
| KnotHash.PartlyReversedStep | src/yr2017/day10.rs:33-37 | swapping the next pair and moving both ends inward extends a partial reversal by one pair |
| KnotHash.PartlyReversedDone | src/yr2017/day10.rs:33 | after `length / 2` swaps the window is reversed |
| KnotHash.ReverseCyclicSublist | src/yr2017/day10.rs:24-38 | under the source's own checks, the list's elements are only rearranged, and a window no longer than the list ends up reversed in place |
| KnotHash.SwapPair | src/yr2017/day10.rs:33-37 | one pass of the loop keeps the multiset, extends the partial reversal and moves the ends one step inward, wrapping round |
| KnotHash.ReverseWindow | src/yr2017/day10.rs:24-38 | corrected reversal: any window of at most the list's length, an empty one at position 0 included, ends up reversed and nothing else moves |
| KnotHash.EmptyWindowAtStartRejected | src/yr2017/day10.rs:26-30 | an empty window at position 0 fails the source's checks, yet reversing it should leave the list as it is |
| KnotHash.ReverseAcceptedExactly | src/yr2017/day10.rs:26-30 | on a position of the list and a window no longer than it, the source's checks reject exactly the empty window at position 0 |
| KnotHash.AsWrittenAgrees | src/yr2017/day10.rs:24-59 | the round as the source runs it panics exactly when one of its reversals is rejected, and otherwise gives the corrected round's result |
| KnotHash.LeadingZeroPanics | src/yr2017/day10.rs:88-95 | the source's first star panics on lengths starting with 0, since its first reversal is the empty window at position 0 |
| KnotHash.RoundFrom | src/yr2017/day10.rs:46-59 | a round keeps the list's length and ends at a position on it |
| KnotHash.AdvanceClosed | src/yr2017/day10.rs:52-56 | the position a round adds is the lengths' sum, plus the skip once per length, plus the skip's growth 0 + 1 + … |
| KnotHash.ModAdd | src/yr2017/day10.rs:55 | reducing the position after every step gives the same remainder as reducing once at the end |
| KnotHash.RoundPosition | src/yr2017/day10.rs:46-59 | a round's final position is the first one advanced by every length and skip, round the circle |
| KnotHash.KnotRound | src/yr2017/day10.rs:46-59 | the in-place round, built on the corrected reversal, leaves the list and returns the position the round specification gives; the elements are only rearranged. Where the source panics (an empty window at position 0) it goes on; `KnotHash.AsWrittenAgrees` shows that it agrees with the source everywhere else |
| KnotHash.FullLengths | src/yr2017/day10.rs:64 | the lengths are the input bytes followed by the five fixed suffix lengths |
| KnotHash.InitialKnot | src/yr2017/day10.rs:68-69 | the initial knot has 256 bytes |
| KnotHash.HashRounds | src/yr2017/day10.rs:72-75 | the 64 rounds keep 256 bytes, each round starting where the last ended with the skip grown by the input length |
| KnotHash.XorAllAppend | src/yr2017/day10.rs:80-81 | the XOR fold over a concatenation is the XOR of the two folds |
| KnotHash.Dense | src/yr2017/day10.rs:78-82 | dense byte d is the XOR of block 16d .. 16d + 16 of the knot |
| KnotHash.Hash | src/yr2017/day10.rs:63-85 | on the corrected round: the hash is the dense hash of the knot after 64 rounds over the input and the suffix, and that knot is a rearrangement of 0..255; it gives a hash where the source panics on a zero length at position 0 |
| KnotHash.Ordered | src/yr2017/day10.rs:92 | the list 0..n has n elements |
| KnotHash.Star1 | src/yr2017/day10.rs:88-95 | on the corrected round: the first answer is the product of the first two elements after one round on 0..elements, and that list is a rearrangement of 0..elements; lengths starting with 0 give an answer where the source panics (`KnotHash.LeadingZeroPanics`) |
| LicenseTree.ParseNode | src/yr2018/day8.rs:9-17 | a node read from the input consumes at least its two header numbers |
| LicenseTree.ParseChildren | src/yr2018/day8.rs:13 | reading k children gives exactly k nodes and consumes no more than the input |
| LicenseTree.FromIterPart | src/yr2018/day8.rs:9-17 | the reader over the shared iterator returns the node read and the numbers not yet consumed, or None where the iterator runs out |
| LicenseTree.PrependNothing | src/yr2018/day8.rs:13 | putting no children in front of a result leaves it unchanged |
| LicenseTree.PrependStep | src/yr2018/day8.rs:13 | putting one child in front, then the earlier ones, is putting them all in front |
| LicenseTree.ParseSerialize | src/yr2018/day8.rs:9-17 | reading a written node gives it back, with whatever followed it left over |
| LicenseTree.ParseSerializeAll | src/yr2018/day8.rs:13 | reading k written children gives them back, with the rest left over |
| LicenseTree.ParsedIsSerialized | src/yr2018/day8.rs:9-17 | whatever the reader accepts is the text of the node it returns followed by the rest |
| LicenseTree.ChildrenAreSerialized | src/yr2018/day8.rs:13 | whatever the children reader accepts is the text of those children followed by the rest |
| LicenseTree.ParseRootNodeIff | src/yr2018/day8.rs:37-40 | the root is read as a node exactly when the input is that node's text and nothing more |
| LicenseTree.SumConcat | src/yr2018/day8.rs:21-22 | the sum over a concatenation is the sum of the two sums |
| LicenseTree.MetadataSumIsTotal | src/yr2018/day8.rs:20-23 | a node's metadata sum is the sum of every metadata entry in its subtree |
| LicenseTree.MetadataSumsIsTotal | src/yr2018/day8.rs:22 | the children's metadata sums add up to the sum of every metadata entry below them |
| LicenseTree.MetadataSum | src/yr2018/day8.rs:20-23 | `metadata_sum` is at least a node's own metadata and at least each child's sum; `LicenseTree.MetadataSumIsTotal` gives it exactly |
| LicenseTree.Values | src/yr2018/day8.rs:30 | the children's values, when all defined, are one per child |
| LicenseTree.ValueDefined | src/yr2018/day8.rs:26-33 | a node's value is defined exactly when no node in its subtree has children and a 0 metadata entry, where `v - 1` underflows |
| LicenseTree.ValuesDefined | src/yr2018/day8.rs:30 | the children's values are defined exactly when none of them underflows |
| LicenseTree.Value | src/yr2018/day8.rs:26-33 | a node has a value only when all its children do; `LicenseTree.ValueDefined` gives when that is |
| LicenseTree.SelectDefined | src/yr2018/day8.rs:31 | selecting by the metadata entries is defined exactly when no entry is 0 |
| LicenseTree.SelectOutOfRange | src/yr2018/day8.rs:31 | entries past the last child add nothing |
| LicenseTree.SelectRepeat | src/yr2018/day8.rs:31 | a repeated entry counts its child once more |
| Marbles.WrapIsMod | src/yr2018/day9.rs:39 | the player index computed by repeated subtraction is `m % players` |
| Marbles.RotL | src/yr2018/day9.rs:7-13 | a left rotation keeps the deque's length |
| Marbles.RotR | src/yr2018/day9.rs:16-22 | a right rotation keeps the deque's length |
| Marbles.RotLStep | src/yr2018/day9.rs:8-12 | one more pop-front/push-back adds one to the left rotation |
| Marbles.RotLOne | src/yr2018/day9.rs:9-11 | a single left rotation moves the front to the back |
| Marbles.RotROne | src/yr2018/day9.rs:18-20 | a single right rotation moves the back to the front |
| Marbles.RotRStep | src/yr2018/day9.rs:17-21 | one more pop-back/push-front adds one to the right rotation |
| Marbles.RotateLeft | src/yr2018/day9.rs:7-13 | the loop leaves the deque rotated left by the amount, an empty deque staying empty |
| Marbles.RotateRight | src/yr2018/day9.rs:16-22 | the loop leaves the deque rotated right by the amount, an empty deque staying empty |
| Marbles.RotateInverse | src/yr2018/day9.rs:7-22 | rotating right undoes rotating left by the same amount, and the other way round |
| Marbles.RotLMultiset | src/yr2018/day9.rs:7-13 | a left rotation keeps every marble |
| Marbles.RotRMultiset | src/yr2018/day9.rs:16-22 | a right rotation keeps every marble |
| Marbles.Zeros | src/yr2018/day9.rs:31 | the scores start at zero, one per player |
| Marbles.Turn | src/yr2018/day9.rs:37-44 | a scoring turn (a multiple of 23) removes one marble from the circle and any other turn adds one; the players keep their number |
| Marbles.Play | src/yr2018/day9.rs:26-45 | after any number of turns the circle is non-empty and there is one score per player |
| Marbles.PlayLength | src/yr2018/day9.rs:36-45 | after marbles 1 to last the circle holds 1 + last − 2·(last / 23) marbles |
| Marbles.CountLength | src/yr2018/day9.rs:36-45 | after marbles 1 to last the circle holds 1 + last − 2·(number of scoring marbles) |
| Marbles.ScoringIsDiv | src/yr2018/day9.rs:37 | the number of multiples of 23 among 1 to last is last / 23 |
| Marbles.LengthStep | src/yr2018/day9.rs:37-44 | a scoring turn shrinks the circle by one and any other turn grows it by one |
| Marbles.Advance | src/yr2018/day9.rs:36-45 | one round of the loop moves the game from marble m − 1 to marble m |
| Marbles.MarbleGame | src/yr2018/day9.rs:25-48 | the simulation returns the scores of the game as specified, one per player; zero players is allowed only while no marble scores, since `m % players` divides by it |
| Marbles.PlaceMarble | src/yr2018/day9.rs:37-44 | the loop body on the deque and the scores is one turn of the game |
| Marbles.PlayStep | src/yr2018/day9.rs:36 | playing marble m is one turn on the game after marble m − 1 |
| Marbles.SumRotL | src/yr2018/day9.rs:7-13 | rotating left keeps the circle's total |
| Marbles.SumRotR | src/yr2018/day9.rs:16-22 | rotating right keeps the circle's total |
| Marbles.SumZeros | src/yr2018/day9.rs:31 | the scores start with total zero |
| Marbles.TurnConserves | src/yr2018/day9.rs:37-44 | a turn adds the marble played to the total of the circle and the scores: a scoring turn moves the removed marble into a score |
| Marbles.ScoreSum | src/yr2018/day9.rs:38-40 | a scoring turn moves the marble played and the removed marble into the player's score |
| Marbles.PlaceSum | src/yr2018/day9.rs:42-43 | a placing turn adds the marble played to the circle's total |
| Marbles.ConservedStep | src/yr2018/day9.rs:36-45 | if the totals add up after marble m − 1 they add up after marble m |
| Marbles.PointsConserved | src/yr2018/day9.rs:25-48 | no marble is lost: the circle and the scores add up to 0 + 1 + … + last |
| Marker.Position | src/yr2022/day6.rs:7 | the index found is the first holding the character in the buffer; none is found exactly when the buffer does not hold it |
| Marker.FindMarker | src/yr2022/day6.rs:1-19 | the answer is one past the first position ending a window of n distinct characters; None, the source's panic, when no position does |
| Marker.Push | src/yr2022/day6.rs:7-11 | draining up to the earlier copy of the character and pushing it leaves the buffer as the longest run of distinct characters ending at it, a suffix of the input read so far |
| Marker.Advance | src/yr2022/day6.rs:7-11 | the run ending before a character either takes it on or is cut just after its earlier copy, and is again the longest distinct run |
| Marker.NoWindow | src/yr2022/day6.rs:13-15 | a longest distinct run shorter than n means no window of n distinct characters ends there |
| Marker.RepeatBreaksRange | src/yr2022/day6.rs:7-8 | a range holding a character twice is not distinct, so the buffer may drop everything up to the earlier copy |
| Marker.ExtendBrokenRange | src/yr2022/day6.rs:11 | ranges that are not distinct stay so when extended to the right |
| MemoryBanks.FirstMaxIndex | src/yr2017/day6.rs:5-22 | the result is None exactly on an empty sequence, and otherwise the index of a largest element with no earlier one as large |
| MemoryBanks.MaxIndex | src/yr2017/day6.rs:5-22 | the index chosen holds a largest element and is the first to do so |
| MemoryBanks.FirstMaxUnique | src/yr2017/day6.rs:11 | the first largest element is unique: ties go to the earliest |
| MemoryBanks.Distribute | src/yr2017/day6.rs:34-40 | dealing blocks out one at a time, wrapping to the first bank, keeps the number of banks |
| MemoryBanks.Redistribute | src/yr2017/day6.rs:25-41 | one redistribution keeps the number of banks |
| MemoryBanks.RedistributeBanks | src/yr2017/day6.rs:25-41 | the in-place loop on a non-empty vector leaves the banks as the redistribution specifies |
| MemoryBanks.SumUpdate | src/yr2017/day6.rs:36 | changing one bank changes the total by the difference |
| MemoryBanks.DistributeSum | src/yr2017/day6.rs:34-40 | dealing out v blocks adds v to the total, and nothing when v is not positive |
| MemoryBanks.RedistributeSum | src/yr2017/day6.rs:25-41 | a redistribution keeps the total number of blocks when the fullest bank is not negative |
| MergeIntervals.ParseU64 | src/yr2025/day5.rs:10 | a parsed number is below 2^64 |
| MergeIntervals.ParseRange | src/yr2025/day5.rs:9-10 | a parsed line contains `-` and gives a half-open interval of 64-bit numbers with a positive end; `MergeIntervals.ParseShowRange` reads back every range |
| MergeIntervals.Find | src/yr2025/day5.rs:9 | `split_once('-')` splits at the first `-`, and there is none exactly when none is found |
| MergeIntervals.ParseDb | src/yr2025/day5.rs:3-15 | the database parses exactly when every line does, with one half-open interval per line in order |
| MergeIntervals.DecimalString | src/yr2025/day5.rs:10 | the written digits have no sign and denote the number |
| MergeIntervals.ParseShowRange | src/yr2025/day5.rs:9-10 | every range `l-r` below the 64-bit limit parses back as the half-open interval (l, r + 1) |
| MergeIntervals.FindAfter | src/yr2025/day5.rs:9 | the first `-` after a dash-free number is the separator |
| MergeIntervals.Insert | src/yr2025/day5.rs:30 | inserting into sorted intervals gives them sorted, with the new one added |
| MergeIntervals.Sort | src/yr2025/day5.rs:30 | sorting orders the tuples by start then end and keeps them all |
| MergeIntervals.CoversReordered | src/yr2025/day5.rs:30 | reordering the intervals covers the same ids |
| MergeIntervals.Merge | src/yr2025/day5.rs:32-46 | the merge is never longer than its input, and non-empty for a non-empty one |
| MergeIntervals.MergeSeparated | src/yr2025/day5.rs:32-46 | merging sorted intervals gives intervals that each end before the next starts, all but the first non-empty, keeping the first start |
| MergeIntervals.MergeCovers | src/yr2025/day5.rs:32-46 | merging sorted intervals covers exactly the ids the input covers |
| MergeIntervals.CoversLast | src/yr2025/day5.rs:33 | covering with one more interval adds exactly its ids |
| MergeIntervals.StepCovers | src/yr2025/day5.rs:34-44 | one loop step (drop an empty interval, append a separate one, extend an overlapping or touching one) adds exactly the new interval's ids |
| MergeIntervals.SeparatedGap | src/yr2025/day5.rs:36-39 | separated intervals keep a gap between any two of them |
| MergeIntervals.SeparatedDisjoint | src/yr2025/day5.rs:36-39 | every id lies in at most one separated interval |
| MergeIntervals.MergedCorrect | src/yr2025/day5.rs:29-47 | the merged database is sorted and separated, no longer than the input, non-empty for a non-empty input, and covers exactly the input's ids |
| MergeIntervals.Merged | src/yr2025/day5.rs:29-47 | the merged database is no longer than the database and not empty when it is not; `MergeIntervals.MergedCorrect` gives its order and coverage |
| MergeIntervals.MergeInPlace | src/yr2025/day5.rs:29-47 | after the sort and the compaction, the kept prefix the vector is truncated to is the merged database |
| MergeIntervals.SortInPlace | src/yr2025/day5.rs:30 | the vector is left sorted as the sort specification gives |
| MergeIntervals.Compact | src/yr2025/day5.rs:32-46 | the write-pointer loop leaves the merge of the whole vector in the prefix it keeps |
| MergeIntervals.MergeNext | src/yr2025/day5.rs:33-45 | merging one more interval is one more loop step |
| OperationOrder.TokenOf | src/yr2020/day18.rs:13-20 | a digit character becomes a number token below 10; `+ * ( )` become operator tokens; any other character is a panic (None) |
| OperationOrder.Tokenize | src/yr2020/day18.rs:10-21 | `parse` gives at most one token per character; `OperationOrder.TokenizeRender` and `OperationOrder.TokenizeSpace` give the tokens |
| OperationOrder.Render | src/yr2020/day18.rs:10-21 | writing tokens out gives one character per token |
| OperationOrder.TokenizeRender | src/yr2020/day18.rs:10-21 | tokenizing a written line of single-digit tokens gives the tokens back |
| OperationOrder.TokenizeSpace | src/yr2020/day18.rs:12 | ASCII whitespace anywhere in the line changes nothing |
| OperationOrder.TopRun | src/yr2020/day18.rs:24-29 | the number of operators `pop_ops` would apply is at most the stack's height |
| OperationOrder.PopOps | src/yr2020/day18.rs:23-36 | `pop_ops` leaves a prefix of the operator stack and takes one value off the value stack per operator removed; `OperationOrder.PopOpsShape` and `OperationOrder.PopOpsValues` say which |
| OperationOrder.TopRunPops | src/yr2020/day18.rs:25-29 | the operators counted are exactly the poppable ones on top (`+` always, `*` when `pop_mul`), and the one below them is not |
| OperationOrder.PopOpsFails | src/yr2020/day18.rs:31-33 | `pop_ops` panics exactly when it has an operator to apply and no more values than operators to apply |
| OperationOrder.PopOpsShape | src/yr2020/day18.rs:23-36 | `pop_ops` removes exactly the poppable run from the top of the operator stack, leaving one it may not pop on top |
| OperationOrder.PopOpsOps | src/yr2020/day18.rs:23-36 | the operator stack `pop_ops` leaves is the old stack without the run of operators it may pop |
| OperationOrder.PopOpsValues | src/yr2020/day18.rs:31-34 | `pop_ops` removes one value per operator applied and leaves the values below those it combined |
| OperationOrder.PopStep | src/yr2020/day18.rs:31-34 | one pass of the loop applies the top operator to the top two values |
| OperationOrder.PopOpsLoop | src/yr2020/day18.rs:23-36 | the loop on the two stacks gives the result `pop_ops` specifies, or the panic |
| OperationOrder.Evaluate | src/yr2020/day18.rs:38-65 | the loop over the tokens gives the line's value as the token-by-token specification gives it, None for each panic: a `)` without a matching `(`, operators left over, or not exactly one value at the end |
| OperationOrder.EvaluateTokens | src/yr2020/day18.rs:38-65 | an empty line has no value; `OperationOrder.LeftToRightCorrect` and `OperationOrder.AddFirstCorrect` prove the value of every expression under either reading |
| OperationOrder.Star1 | src/yr2020/day18.rs:75-77 | the first answer is 0 for no lines, and panics exactly when some line does when read left to right |
| OperationOrder.Star2 | src/yr2020/day18.rs:79-81 | the second answer is 0 for no lines, and panics exactly when some line does with addition first |
| OperationOrder.SumLinesFails | src/yr2020/day18.rs:67-73 | the sum over the lines panics exactly when some line does |
| OperationOrder.SumLinesAppend | src/yr2020/day18.rs:67-73 | the sum over two blocks of lines is the sum of their sums |
| OperationOrder.RunAppend | src/yr2020/day18.rs:42-59 | running two blocks of tokens is running the first, then the second from where it stopped |
| OperationOrder.PopNothing | src/yr2020/day18.rs:28 | `pop_ops` on a stack whose top it may not pop changes nothing |
| OperationOrder.PopOne | src/yr2020/day18.rs:25-35 | `pop_ops` applies one poppable operator and stops below it |
| OperationOrder.PopsCompose | src/yr2020/day18.rs:47-61 | popping additions and then everything is popping everything |
| OperationOrder.Chain | src/yr2020/day18.rs:46-53 | running a left operand, an operator and a right operand is pushing the left operand's value and the operator, then running the right operand |
| OperationOrder.AtomRun | src/yr2020/day18.rs:44-57 | a number or a parenthesised group pushes its value, whatever is on the stacks |
| OperationOrder.ExprRun1 | src/yr2020/day18.rs:46-55 | without add precedence, an expression run from a stack with nothing pending leaves a state that a final `pop_ops` turns into its value pushed |
| OperationOrder.SumRun2 | src/yr2020/day18.rs:46-49 | with add precedence, a sum of operands run from a stack without `+` on top leaves a state that popping the additions turns into its value pushed |
| OperationOrder.ExprRun2 | src/yr2020/day18.rs:46-55 | with add precedence, an expression run from a stack with nothing pending leaves a state that a final `pop_ops` turns into its value pushed |
| OperationOrder.LeftToRightCorrect | src/yr2020/day18.rs:38-65 | without add precedence, every expression grouped left to right evaluates to its value |
| OperationOrder.AddFirstCorrect | src/yr2020/day18.rs:38-65 | with add precedence, every expression whose sums are taken before the products evaluates to its value |
| OperationOrder.ShowDigits | src/yr2020/day18.rs:14 | an expression of single digits writes out as single-digit tokens |
| OperationOrder.LineCorrect | src/yr2020/day18.rs:38-81 | the written line of such an expression evaluates to its value, under either reading |
| Packets.BitsValue | src/yr2021/day16.rs:70 | the number k bits spell, most significant first, is below 2^k |
| Packets.NatBits | src/yr2021/day16.rs:47 | the k bits of a number spell it modulo 2^k |
| Packets.Stream | src/yr2021/day16.rs:44-54 | the bit stream of the bytes has eight bits per byte |
| Packets.StreamPrefix | src/yr2021/day16.rs:44-54 | the bits of the first n bytes are the first 8n bits of the stream |
| Packets.StreamNext | src/yr2021/day16.rs:46-47 | fetching one more byte appends its eight bits to the stream read so far |
| Packets.BitsValueAppend | src/yr2021/day16.rs:47 | the value of two runs of bits put together is the first shifted past the second, plus the second |
| Packets.TopBits | src/yr2021/day16.rs:70 | the top k of the cached bits are the next k bits, and the ones below them stay |
| Packets.ShiftIn | src/yr2021/day16.rs:47 | shifting a byte into the 64-bit cache appends its bits to the low bits held |
| Packets.CacheLow | src/yr2021/day16.rs:47 | the cache's truncation to 64 bits keeps the low bits held, since at most 56 are held before a byte comes in |
| Packets.ByteBits | src/yr2021/day16.rs:47 | the eight bits of a byte spell the byte |
| Packets.Take | src/yr2021/day16.rs:57-71 | the next k bits exist exactly when k more bits are left |
| Packets.ShrDiv | src/yr2021/day16.rs:70 | shifting right by n divides by 2^n |
| Packets.LowMod | src/yr2021/day16.rs:70 | masking with n one bits keeps the value modulo 2^n |
| Packets.TakePastEnd | src/yr2021/day16.rs:62-67 | asking for more bits than are left is the buffer underflow |
| Packets.StreamByte | src/yr2021/day16.rs:46-47 | bits 8n .. 8n + 8 of the stream spell byte n |
| Packets.StreamSpells | src/yr2021/day16.rs:44-54 | the stream spells the data byte by byte |
| Packets.FillStep | src/yr2021/day16.rs:45-49 | shifting in the next byte while at most 56 bits are held keeps the cache invariant with eight more bits and one more byte |
| Packets.GrownHolds | src/yr2021/day16.rs:47-49 | a cache whose low bits are the old window plus the new byte satisfies the invariant for the grown window |
| Packets.PeekTop | src/yr2021/day16.rs:70 | the top k cached bits are the next k bits of the stream |
| Packets.PeekRest | src/yr2021/day16.rs:76 | dropping the top k cached bits keeps the cache invariant for the bits left |
| Packets.SplitTop | src/yr2021/day16.rs:70 | the shift and mask give the top k bits of the held window |
| Packets.SplitRest | src/yr2021/day16.rs:76 | the bits below the top k of the held window are the low bits of the cache |
| Packets.BitReader.constructor | src/yr2021/day16.rs:34-41 | a new reader holds the data, an empty cache, and has read nothing |
| Packets.BitReader.FillCache | src/yr2021/day16.rs:44-54 | filling hands nothing out and stops with more than 56 bits held or with every byte fetched |
| Packets.BitReader.PeekU32 | src/yr2021/day16.rs:57-71 | peeking gives the next k bits, or None (the underflow panic) when fewer are left, and hands nothing out |
| Packets.BitReader.PeekCached | src/yr2021/day16.rs:70 | when the cache holds k bits, its top k bits are the next k bits of the stream |
| Packets.BitReader.ReadU32 | src/yr2021/day16.rs:74-81 | reading gives the next k bits and hands them out |
| Packets.BitReader.ReadBit | src/yr2021/day16.rs:84-86 | a bit is read exactly when one is left; it is the next bit of the stream and is handed out |
| Packets.BitReader.ReadU8 | src/yr2021/day16.rs:89-92 | reading at most eight bits gives the next bits and hands them out |
| Packets.TakeBound | src/yr2021/day16.rs:70 | k bits taken are below 2^k |
| Packets.ParsePacket | src/yr2021/day16.rs:113-148 | a parsed packet consumes at least one bit, stays within the stream, and has only types the evaluator knows |
| Packets.ParseOperator | src/yr2021/day16.rs:129-146 | an operator's rest consumes at least its length-type bit and gives a well-typed packet |
| Packets.ParseCounted | src/yr2021/day16.rs:131-134 | an 11-bit count, then that many children, all well-typed |
| Packets.ParseSized | src/yr2021/day16.rs:135-140 | a 15-bit length, then children until that many more bits are read, all well-typed |
| Packets.ParseLiteral | src/yr2021/day16.rs:117-127 | a literal reads at least one five-bit group and stays within the bits, and its value stays below 2^64; `Packets.LiteralValue` states what the value is |
| Packets.Payload | src/yr2021/day16.rs:121-123 | the value bits of n groups are four bits per group |
| Packets.LiteralFlags | src/yr2021/day16.rs:119-125 | a literal spans whole five-bit groups; every group's flag is set except the last group's, which is clear |
| Packets.LiteralBits | src/yr2021/day16.rs:119-125 | a literal of n groups is the value so far shifted past the groups' value bits, plus their value, modulo 2^64 |
| Packets.PayloadValue | src/yr2021/day16.rs:121-123 | the value of the groups' bits is the first group's four bits shifted past the rest, plus the rest |
| Packets.ShiftedGroup | src/yr2021/day16.rs:123 | shifting in one more group with the value kept to 64 bits, then the rest, is shifting in both at once, modulo 2^64 |
| Packets.ShiftedMod | src/yr2021/day16.rs:123 | reducing to 64 bits before a shift and an add gives the same 64 bits as reducing after |
| Packets.LiteralValue | src/yr2021/day16.rs:117-127 | a type-4 value spans whole groups, all flags set but the last, and is the groups' four-bit payloads joined up to the first clear flag, modulo 2^64 |
| Packets.ParseCount | src/yr2021/day16.rs:132-134 | n packets in a row give exactly n well-typed packets |
| Packets.ParseUntil | src/yr2021/day16.rs:137-139 | the children run at least to the end position, and there is at least one when the start is before it |
| Packets.JoinStart | src/yr2021/day16.rs:129 | no children parsed yet leaves the outcome of the rest unchanged |
| Packets.JoinDone | src/yr2021/day16.rs:142-146 | with nothing left to parse, the children are those parsed |
| Packets.CountStep | src/yr2021/day16.rs:132-134 | one more child of a counted operator is one more packet parsed, and a failing child fails the operator |
| Packets.UntilStep | src/yr2021/day16.rs:137-139 | one more child of a sized operator is one more packet parsed, and a failing child fails the operator |
| Packets.Parse | src/yr2021/day16.rs:113-148 | the recursive reader gives the packet and ends at the position the parse specification gives, or None where it panics |
| Packets.ReadOperator | src/yr2021/day16.rs:128-147 | the operator branch reads its children as the specification gives |
| Packets.ReadLiteral | src/yr2021/day16.rs:117-127 | the literal loop reads the value as the specification gives |
| Packets.ReadGroup | src/yr2021/day16.rs:120-124 | one five-bit group reads the continuation bit and four value bits, and the literal parse from there is the parse that goes on with the value shifted in, or stops with it; None where it panics |
| Packets.ReadCounted | src/yr2021/day16.rs:131-134 | the counted loop reads the children as the specification gives |
| Packets.ReadSized | src/yr2021/day16.rs:135-140 | the length-limited loop reads the children as the specification gives |
| Packets.Versions | src/yr2021/day16.rs:150-157 | the versions of a tree start with the packet's own |
| Packets.SumVersions | src/yr2021/day16.rs:150-157 | `sum_versions` is at least the packet's own version; `Packets.SumVersionsAll` states it is the sum over the whole tree |
| Packets.SumAppend | src/yr2021/day16.rs:155 | summing over a concatenation adds the sums |
| Packets.SumConcat | src/yr2021/day16.rs:155 | summing the concatenation of the children's lists adds the children's sums |
| Packets.SumVersionsAll | src/yr2021/day16.rs:150-157 | the version sum is the sum of the versions of every packet in the tree |
| Packets.MinOr0 | src/yr2021/day16.rs:167 | the minimum is 0 for no values and otherwise one of the values, no greater than any |
| Packets.MaxOr0 | src/yr2021/day16.rs:168 | the maximum is 0 for no values and otherwise one of the values, no less than any |
| Packets.PairsOrderedMeaning | src/yr2021/day16.rs:169-170 | `tuples().all(..)` holds exactly when every consecutive pair (s[2k], s[2k+1]) is ordered, an unpaired last value ignored |
| Packets.AllEqual | src/yr2021/day16.rs:171 | `all_equal` holds exactly when all values are the same |
| Packets.Operate | src/yr2021/day16.rs:164-173 | type 2 gives the minimum, and the comparison types give 0 or 1 |
| Packets.Values | src/yr2021/day16.rs:163 | one value per child |
| Packets.SumAtLeast | src/yr2021/day16.rs:165 | no value exceeds the sum of the values |
| Packets.Evaluate | src/yr2021/day16.rs:159-173 | `evaluate`: the comparison types give at most 1, and a sum is at least each child's value; `Packets.EvaluateComparison` and `Packets.EvaluateMinMax` state the other types |
| Packets.EvaluateComparison | src/yr2021/day16.rs:169-171 | with two children, types 5, 6 and 7 give 1 exactly when the first value is greater than, less than or equal to the second |
| Packets.EvaluateMinMax | src/yr2021/day16.rs:167-168 | types 2 and 3 give 0 for no children, and otherwise the value of one child, no greater (no less) than every other's |
| Packets.HexDigit | src/yr2021/day16.rs:106 | a hexadecimal digit's value is below 16 |
| Packets.HexBytes | src/yr2021/day16.rs:101-110 | decoded hexadecimal text has one byte per pair of digits; `Packets.HexBytesMeaning` gives the bytes and the failure |
| Packets.HexBytesMeaning | src/yr2021/day16.rs:101-110 | decoding fails exactly when some character is not a hexadecimal digit; otherwise there is one byte per pair, high digit first |
| Packets.Decode | src/yr2021/day16.rs:180 | a decoded transmission's packet is well-typed |
| Packets.Transmission | src/yr2021/day16.rs:180 | running the hex decoder and the recursive parser gives the packet the decoding specification gives, None where the parser panics or any character is not a hexadecimal digit (the source panics only on a character its reader fetches; see Left out) |
| Packets.Star1 | src/yr2021/day16.rs:179-183 | the first answer is the sum of all versions in the tree, None when the transmission does not parse |
| Packets.Star2 | src/yr2021/day16.rs:185-187 | the second answer is the value of the outermost packet, None when the transmission does not parse |
| Particles.Compare | src/yr2017/day20.rs:51 | `cmp` gives Less exactly when the first is smaller and Equal exactly when they are equal |
| Particles.OrderRangeAtInf | src/yr2017/day20.rs:49-63 | particles are ordered by the norm of their acceleration, and on a tie by the norm of the velocity after t more accelerations, t the larger velocity norm |
| Particles.OrderAntisymmetric | src/yr2017/day20.rs:49-63 | swapping the two particles reverses the ordering |
| Particles.LonelyPrefix | src/yr2017/day20.rs:76-89 | the kept elements among the first k are at most k |
| Particles.RemoveDuplicates | src/yr2017/day20.rs:69-94 | the vector, cut to its new length, holds in order exactly the elements equal to neither neighbour; the swaps permute the array; the result is true exactly when the length changed |
| Particles.Visit | src/yr2017/day20.rs:78-89 | one element of the scan keeps the kept prefix, the untouched tail, the contents and the skipping flag right, one element further on |
| Particles.KeepAt | src/yr2017/day20.rs:86-87 | the swap puts the element read after those kept, leaves the unread elements alone and permutes the array |
| Particles.LonelyIffSingle | src/yr2017/day20.rs:66-67 | in a sorted vector an element equals neither neighbour exactly when it occurs once |
| Particles.OnlyOnce | src/yr2017/day20.rs:66-67 | an element found at no other position occurs once |
| Particles.TwiceCounted | src/yr2017/day20.rs:66-67 | an element found at two positions occurs at least twice |
| Particles.WithoutRunsSorted | src/yr2017/day20.rs:66-94 | on sorted input a value is kept exactly when it occurs once: every group of equal elements is removed whole |
| Particles.WithoutRuns | src/yr2017/day20.rs:66-94 | keeping the elements equal to neither neighbour gives no more elements, each one of the input |
| Polymer.UnitsReactSymmetric | src/yr2018/day5.rs:2-4 | reaction is symmetric, and a lower-case letter reacts exactly with its upper-case twin |
| Polymer.ReactPolymer | src/yr2018/day5.rs:7-22 | the push-and-pop loop computes the left-to-right reaction, and leaves no neighbouring pair that reacts |
| Polymer.React | src/yr2018/day5.rs:7-22 | reacting never lengthens the polymer; `Polymer.ReactStable`, `Polymer.ReactLength` and `Polymer.ReactIdempotent` say what is left |
| Polymer.ReactStable | src/yr2018/day5.rs:7-22 | the reacted polymer has no reacting neighbours |
| Polymer.ReactLength | src/yr2018/day5.rs:14-18 | units vanish in pairs: the result is no longer than the input and has the same parity of length |
| Polymer.ReactOfStable | src/yr2018/day5.rs:7-22 | a polymer with no reacting neighbours is left as it is |
| Polymer.ReactIdempotent | src/yr2018/day5.rs:7-22 | reacting twice gives what reacting once gives |
| Processor.Wrap | src/yr2017/processor.rs:178-188 | the 64-bit wrap-around of the register arithmetic agrees with the exact value modulo 2^64, and is the exact value whenever that fits |
| Processor.RemQuot | src/yr2017/processor.rs:190-193 | `%` pairs with the quotient truncated toward zero: dividend = divisor × quotient + remainder |
| Processor.RemSign | src/yr2017/processor.rs:190-193 | the remainder of `%` is smaller than the divisor in magnitude and is zero or of the dividend's sign |
| Processor.ParseRegister | src/yr2017/processor.rs:44-55 | a register parses exactly from one character `a`..`z`, to its offset from `a` |
| Processor.RegisterRoundTrip | src/yr2017/processor.rs:44-55 | every register's name parses back to it |
| Processor.ParseI64 | src/yr2017/processor.rs:73 | `i64` parsing succeeds exactly on an optional sign followed by digits whose value fits in 64 bits, and gives that value |
| Processor.NatText | src/yr2017/processor.rs:73 | the decimal text of a number is a non-empty run of digits |
| Processor.DigitsOfNatText | src/yr2017/processor.rs:73 | the digits of a number's decimal text read back as the number |
| Processor.IntTextRoundTrip | src/yr2017/processor.rs:73 | every 64-bit value parses back from its decimal text |
| Processor.ParseRegImm | src/yr2017/processor.rs:70-78 | an operand is an immediate when its text is an integer, otherwise a register, and an error when it is neither |
| Processor.RegImmRoundTrip | src/yr2017/processor.rs:70-78 | every operand parses back from its text |
| Processor.ParseWords | src/yr2017/processor.rs:104-131 | an instruction parses only from a known opcode with exactly one operand (snd, rcv) or exactly two (the others) |
| Processor.ParseInstruction | src/yr2017/processor.rs:101-132 | a parsed line has as many words as the instruction's listing, starting with its opcode; `Processor.InstructionRoundTrip` proves every instruction parses back from its listing |
| Processor.TokensWord | src/yr2017/processor.rs:104 | splitting on whitespace reads a run without whitespace into the current token |
| Processor.TokensOfJoin | src/yr2017/processor.rs:104 | words joined by single spaces split back into the same words |
| Processor.NatTextIsWord | src/yr2017/processor.rs:104 | a number's decimal text holds no whitespace |
| Processor.OperandIsWord | src/yr2017/processor.rs:104 | an operand's text holds no whitespace |
| Processor.InstructionWordsAreWords | src/yr2017/processor.rs:104 | each word of an instruction's listing holds no whitespace |
| Processor.InstructionRoundTrip | src/yr2017/processor.rs:101-132 | every instruction parses back from its listing |
| Processor.WordsRoundTrip | src/yr2017/processor.rs:110-131 | every instruction parses back from its words |
| Processor.JumpRoundTrip | src/yr2017/processor.rs:127-128 | a jump parses back from its opcode and operand texts |
| Processor.BinaryRoundTrip | src/yr2017/processor.rs:122-126 | a register-and-operand instruction parses back from its opcode, register name and operand text |
| Processor.ExecutionState.constructor | src/yr2017/processor.rs:22-31 | a new state has pc 0, every register zero except `p`, which holds the program id, an empty queue and no block |
| Processor.ValueIn | src/yr2017/processor.rs:57-87 | an operand's value is the register's content or the immediate |
| Processor.ProgramStep | src/yr2017/processor.rs:150-207 | the in-place step leaves the state and result the step specification gives |
| Processor.ReceiveStep | src/yr2017/processor.rs:162-173 | `rcv` in place moves the queue's front into the register and moves on, or blocks at the same instruction on an empty queue, as the step specification gives |
| Processor.JumpStep | src/yr2017/processor.rs:194-205 | `jgz` and `jnz` in place jump by the offset, wrapping, when the condition holds and otherwise move on, as the step specification gives |
| Processor.ArithmeticStep | src/yr2017/processor.rs:174-193 | `set`, `add`, `sub`, `mul` and `mod` in place update the destination register and move on, as the step specification gives |
| Processor.StepTerminated | src/yr2017/processor.rs:152-154 | the step reports Terminated exactly when pc is outside the program, and then changes nothing |
| Processor.Step | src/yr2017/processor.rs:150-207 | `program_step` keeps 26 registers; outside the program it terminates; inside it never terminates, sends exactly on `snd`, blocks exactly on `rcv` with an empty queue, and sets the blocked flag only on `rcv` |
| Processor.StepReceive | src/yr2017/processor.rs:162-173 | an empty queue blocks without moving pc; otherwise the front value goes to the register and leaves the queue, the block clears, pc moves on, and no other register changes |
| Processor.StepJump | src/yr2017/processor.rs:194-205 | a taken jump moves pc by the offset modulo 2^64, one not taken moves to the next instruction, and nothing else changes |
| Processor.StepArithmetic | src/yr2017/processor.rs:174-193 | set, add, sub, mul and mod write only their register and move pc on; set copies the value, add is exact when it fits, mul agrees modulo 2^64 |
| Ranges.OverlapShares | src/yr2022/day15.rs:33 | the overlap test holds exactly when the two inclusive ranges share a position |
| Ranges.Retain | src/yr2022/day15.rs:32-41 | the scan keeps no more ranges than were stored |
| Ranges.Added | src/yr2022/day15.rs:30-43 | for a non-empty range, the last stored range afterwards holds it, and the list grows by at most one; `Ranges.AddedCorrect` gives the covered positions |
| Ranges.RetainGrows | src/yr2022/day15.rs:32-41 | the scan only widens the range being added |
| Ranges.RetainCovers | src/yr2022/day15.rs:32-41 | the kept ranges and the grown range hold exactly the positions of the stored ranges and the added range |
| Ranges.CoveredCons | src/yr2022/day15.rs:32-41 | a position is covered by a list exactly when its first range or the rest holds it |
| Ranges.RetainApart | src/yr2022/day15.rs:32-41 | a range apart from the added range and every stored range stays apart from the grown range |
| Ranges.RetainKeeps | src/yr2022/day15.rs:37-39 | every kept range is a stored range, unchanged |
| Ranges.RetainDrops | src/yr2022/day15.rs:33-36 | every stored range dropped overlaps the grown range |
| Ranges.RetainDisjoint | src/yr2022/day15.rs:32-41 | when the stored ranges are pairwise apart, the kept ones are too, and apart from the grown range |
| Ranges.AddedCorrect | src/yr2022/day15.rs:30-43 | an empty range changes nothing; otherwise the positions covered are the old ones plus the new range, only ranges overlapping the pushed range are dropped, and pairwise-apart ranges stay apart |
| Ranges.CoveredSnoc | src/yr2022/day15.rs:41 | a position is covered after a push exactly when it was before or the pushed range holds it |
| Ranges.RowCoverage.constructor | src/yr2022/day15.rs:49 | the row starts with no ranges |
| Ranges.RowCoverage.AddRange | src/yr2022/day15.rs:30-43 | the in-place `retain` and push leave the stored ranges the scan specification gives |
| SeedMaps.Add | src/yr2023/day5.rs:7-9 | moving an interval by s keeps its width and holds exactly the numbers s past those of the original |
| SeedMaps.Intersect | src/yr2023/day5.rs:11-13 | the intersection holds exactly the numbers held by both intervals |
| SeedMaps.IsEmptyHoldsNothing | src/yr2023/day5.rs:15-17 | an interval is empty exactly when it holds no number |
| SeedMaps.RawEntry | src/yr2023/day5.rs:31-36 | a line `d s l` covers the l numbers from s and sends each to the same distance past d |
| SeedMaps.BoundedPerm | src/yr2023/day5.rs:38 | a lower bound on the starts survives adding an entry above it and reordering |
| SeedMaps.SortedCons | src/yr2023/day5.rs:38 | an entry put in front of sorted entries that start no earlier keeps them sorted |
| SeedMaps.InsertByStart | src/yr2023/day5.rs:38 | inserting into entries sorted by start keeps them sorted and adds exactly the one entry |
| SeedMaps.InsertFront | src/yr2023/day5.rs:38 | an entry starting no later than the first of sorted entries goes in front of them, keeping them sorted |
| SeedMaps.SortedTail | src/yr2023/day5.rs:38 | the entries after the first of sorted entries are sorted |
| SeedMaps.InsertBehind | src/yr2023/day5.rs:38 | an entry starting after the first of sorted entries and inserted among the rest leaves them sorted, with exactly that entry added |
| SeedMaps.SortByStart | src/yr2023/day5.rs:38 | sorting by start gives the same entries, sorted by start |
| SeedMaps.TilingTiles | src/yr2023/day5.rs:40-51 | for entries apart from each other, the gap synthesis covers from the position to the largest i64 without holes or overlaps, keeps every entry and adds only gap entries of offset 0 |
| SeedMaps.TilingIsTiled | src/yr2023/day5.rs:40-51 | for entries apart from each other, the gap synthesis covers from the position to the largest i64 without holes or overlaps |
| SeedMaps.TilingTiledStep | src/yr2023/day5.rs:42-49 | a covering tiling of the entries after the first extends, with the gap before the first entry and that entry, to a covering tiling from the position |
| SeedMaps.TiledCons | src/yr2023/day5.rs:42-49 | an entry that ends where a covering tiling starts extends it to start at the entry's start |
| SeedMaps.TilingKeeps | src/yr2023/day5.rs:40-51 | the gap synthesis keeps every entry and adds only gap entries of offset 0 |
| SeedMaps.Tiling | src/yr2023/day5.rs:40-51 | the gap synthesis emits every entry and at most one gap before each, plus the final entry up to `i64::MAX` |
| SeedMaps.RawEntries | src/yr2023/day5.rs:27-37 | one entry per line, each built from its line |
| SeedMaps.TilingStep | src/yr2023/day5.rs:42-49 | one turn of the loop emits the gap before the next entry, if any, then the entry, and moves the position to the entry's end |
| SeedMaps.EmitEntry | src/yr2023/day5.rs:42-49 | the loop body's output followed by the tiling of the remaining entries is the tiling from the current entry on |
| SeedMaps.ParseMap | src/yr2023/day5.rs:26-53 | the loop with a position builds the gap-tiled sorted entries |
| SeedMaps.ParsedMapTiles | src/yr2023/day5.rs:26-53 | for lines whose ranges lie apart inside 0 .. i64::MAX, the parsed map tiles that span, holds every line's entry and adds only zero-offset gaps |
| SeedMaps.TiledFind | src/yr2023/day5.rs:40-51 | a tiled map holds each number of its span in exactly one entry |
| SeedMaps.TiledGap | src/yr2023/day5.rs:40-51 | in a tiled map a later entry starts where or after an earlier one ends |
| SeedMaps.MapsToUnique | src/yr2023/day5.rs:40-51 | a tiled map sends each number of its span to one place only |
| SeedMaps.ApplyRange | src/yr2023/day5.rs:55-60 | the image holds no empty interval |
| SeedMaps.ApplyRangeParts | src/yr2023/day5.rs:55-60 | each image interval is one entry's part of the seeds, shifted by that entry's offset |
| SeedMaps.ApplyRangeImage | src/yr2023/day5.rs:55-60 | the image holds exactly the numbers that some seed is sent to by some entry |
| SeedMaps.ApplyCovered | src/yr2023/day5.rs:55-60 | the image holds a number exactly when the first entry's shifted part or the rest's image does |
| SeedMaps.CoveredCons | src/yr2023/day5.rs:55-60 | a list of intervals with a first one holds a number exactly when that one or the rest does |
| SeedMaps.MapsToCons | src/yr2023/day5.rs:55-60 | entries send x to y exactly when the first does or the rest do |
| SeedMaps.ApplyPoint | src/yr2023/day5.rs:89 | on a tiled map a single seed goes to exactly one single number, which the map sends it to |
| SeedMaps.ApplyPointOnly | src/yr2023/day5.rs:55-60 | a single seed held by only one entry goes to that entry's shift of it |
| SeedMaps.ApplyPointNone | src/yr2023/day5.rs:55-60 | a single seed held by no entry goes nowhere |
| SeedMaps.ApplyRanges | src/yr2023/day5.rs:62-67 | the image of several intervals holds no empty interval |
| SeedMaps.CoveredAppend | src/yr2023/day5.rs:66 | two lists of intervals put together hold what either holds |
| SeedMaps.ApplyRangesImage | src/yr2023/day5.rs:62-67 | the image of several intervals holds exactly the numbers some seed of some interval is sent to |
| SeedMaps.LocationsImage | src/yr2023/day5.rs:103-106 | the second star's fold ends with intervals holding exactly the numbers the maps in order send some seed to |
| SeedMaps.LocationThrough | src/yr2023/day5.rs:88-90 | the first star's fold of a seed gives a number the maps in order send it to, and that number lies in the second star's fold of the seed alone |
| SeedMaps.Location | src/yr2023/day5.rs:88-90 | a location the first star's fold finds is one the maps in order send the seed to; `SeedMaps.ThroughLocation` gives the converse on tiled maps |
| SeedMaps.ThroughLocation | src/yr2023/day5.rs:88-90 | on tiled maps the first star's fold of a seed finds exactly where the maps send it |
| SeedMaps.TiledBounds | src/yr2023/day5.rs:40-51 | every entry of a tiled map lies inside the tiled span |
| Snafu.DigitValue | src/yr2022/day25.rs:4-11 | a character has a value exactly when it is one of the five SNAFU digits, and that value lies in -2 ..= 2 |
| Snafu.FromSnafu | src/yr2022/day25.rs:1-13 | the conversion succeeds exactly when every character is a SNAFU digit |
| Snafu.ToSnafu | src/yr2022/day25.rs:15-25 | zero gives the empty string and only zero does; the output holds only SNAFU digits and starts with `1` or `2` |
| Snafu.FromToSnafu | src/yr2022/day25.rs:1-25 | reading back what `to_snafu` writes for a non-negative number gives that number |
| Snailfish.Add | src/yr2021/day18.rs:13-15 | adding pairs the two numbers, left then right, without reducing |
| Snailfish.Leaves | src/yr2021/day18.rs:5-9 | every number has at least one regular number |
| Snailfish.ShallowExplodable | src/yr2021/day18.rs:40-65 | a number with no pair four deep explodes without panicking, even one level deeper |
| Snailfish.AddLeftmost | src/yr2021/day18.rs:53 | adding to the leftmost regular number keeps the shape and raises the sum of the regular numbers by the amount |
| Snailfish.AddRightmost | src/yr2021/day18.rs:58 | adding to the rightmost regular number keeps the shape and raises the sum of the regular numbers by the amount |
| Snailfish.Explode | src/yr2021/day18.rs:40-65 | a pair at depth four becomes 0 and hands out both its values; nothing of the sum is lost, only passed out; afterwards no pair sits at depth four |
| Snailfish.ExplodeShallow | src/yr2021/day18.rs:40-65 | a number with no pair four deep is left unchanged and hands nothing out |
| Snailfish.FirstBig | src/yr2021/day18.rs:70-79 | the position of the leftmost regular number of ten or more, or the count if there is none |
| Snailfish.FirstBigAppend | src/yr2021/day18.rs:77 | the first big number of two lists together is in the first list if it has one, else in the second |
| Snailfish.Split | src/yr2021/day18.rs:70-79 | a number in which nothing splits is unchanged |
| Snailfish.SplitDone | src/yr2021/day18.rs:70-79 | a split happens exactly when some regular number is ten or more |
| Snailfish.SplitLeaves | src/yr2021/day18.rs:70-79 | splitting replaces the leftmost big regular number by its halves rounded down and up, keeping all others in order |
| Snailfish.SplitPairLeaves | src/yr2021/day18.rs:77 | splitting a pair splits its leftmost big regular number, in whichever half it lies |
| Snailfish.SplitInLeft | src/yr2021/day18.rs:77 | a split in the left half of a pair is a split at that position of the pair's regular numbers |
| Snailfish.SplitInRight | src/yr2021/day18.rs:77 | a split in the right half of a pair is a split past all of the left half's regular numbers |
| Snailfish.SpliceLeft | src/yr2021/day18.rs:73 | splitting inside the first of two lists put together is splitting the joined list at the same position |
| Snailfish.SpliceRight | src/yr2021/day18.rs:73 | splitting inside the second of two lists put together is splitting the joined list past the first |
| Snailfish.SplitExplodable | src/yr2021/day18.rs:18-25 | after exploding, a split leaves a number whose next explosion cannot panic |
| Snailfish.Reduction | src/yr2021/day18.rs:18-25 | a reduction that finishes within its rounds leaves nothing to split; `Snailfish.ReductionReduced` adds that nothing explodes |
| Snailfish.ReductionReduced | src/yr2021/day18.rs:18-25 | what the reduce loop ends with has no pair four deep and no regular number of ten or more |
| Snailfish.ReductionOfReduced | src/yr2021/day18.rs:18-25 | reducing a reduced number leaves it as it is |
| Snailfish.Reduce | src/yr2021/day18.rs:18-25 | the loop of explosions and splits ends with the reduction, which is reduced |
| Snailfish.AddReduce | src/yr2021/day18.rs:28-32 | the sum of two numbers that can be added is reduced |
| Snailfish.MagnitudeAtLeastSum | src/yr2021/day18.rs:105-110 | the magnitude is at least the sum of the regular numbers |
| Snailfish.Magnitude | src/yr2021/day18.rs:105-110 | the magnitude is 0 exactly when every regular number is 0 |
| Snailfish.MagnitudeBound | src/yr2021/day18.rs:105-110 | a number of single digits with no pair four deep, at a given depth, has magnitude at most 9 × 5^(4 − depth) |
| Snailfish.PowPositive | src/yr2021/day18.rs:105-110 | the powers of five in the bound are positive |
| Snailfish.ReducedMagnitude | src/yr2021/day18.rs:105-110 | a reduced number's magnitude is at most 5625, so the `u32` result cannot overflow |
| Snailfish.Decimal | src/yr2021/day18.rs:116 | a regular number is written with at least one digit |
| Snailfish.Show | src/yr2021/day18.rs:113-117 | `Display` writes something, beginning with `[` exactly for a pair, and a pair ends with `]`; `Snailfish.ParseShow` reads it back |
| Snailfish.SkipWhitespace | src/yr2021/day18.rs:123-125 | skipping whitespace leaves a suffix that does not start with whitespace |
| Snailfish.Consume | src/yr2021/day18.rs:128-135 | consuming a token advances the input, or fails where the source panics |
| Snailfish.ParseNode | src/yr2021/day18.rs:138-155 | parsing a number advances the input, or fails where the source panics |
| Snailfish.ParseInner | src/yr2021/day18.rs:141-148 | parsing the inside of a pair advances the input, or fails where the source panics |
| Snailfish.ParseShow | src/yr2021/day18.rs:113-155 | parsing what `Display` writes, whatever follows it, gives the number back and leaves what follows, for numbers of single digits |
| Snailfish.ParseBracket | src/yr2021/day18.rs:141-148 | a bracket, a number, a comma, a number and a closing bracket parse as the pair |
| Snailfish.ShowPair | src/yr2021/day18.rs:117 | a pair is written as its halves between brackets, separated by a comma |
| Snailfish.ParseShowStr | src/yr2021/day18.rs:158-166 | the whole-string parser reads back what `Display` writes, for numbers of single digits |
| Snailfish.ParseNodeStr | src/yr2021/day18.rs:158-166 | a parsed string, after leading whitespace, starts with `[` or with a digit, and a bare digit parses to that regular number; `Snailfish.ParseShowStr` reads back what `Display` writes |
| Snailfish.SumNumbers | src/yr2021/day18.rs:172 | adding up one or more numbers gives a reduced number |
| Snailfish.Star1 | src/yr2021/day18.rs:168-175 | with two or more numbers, each explodable one level down, a sum that finishes within the fuel has magnitude at most 5625; a single number is neither added nor reduced, so nothing is required of it |
| Stream.GarbageFrom | src/yr2017/day9.rs:7-17 | garbage, when it closes, consumes at least its `>` and counts no fewer characters than before |
| Stream.GroupFrom | src/yr2017/day9.rs:22-34 | a group, when it closes, consumes at least its `}` |
| Stream.Score | src/yr2017/day9.rs:22-34 | a group's score at a non-negative depth is at least that depth; `Stream.GroupRoundTrip` gives it exactly |
| Stream.ParseGarbage | src/yr2017/day9.rs:7-17 | the loop over the character stream counts the garbage and stops after the `>` as the garbage specification gives, None at the end of the stream |
| Stream.ParseGroup | src/yr2017/day9.rs:22-34 | the loop, with its recursive calls for nested groups, gives the score, garbage and remaining stream the group specification gives |
| Stream.ParseFullGroup | src/yr2017/day9.rs:37-41 | a stream not opening with `{` fails the assertion; otherwise the result is the outermost group's score and garbage at depth 1 |
| Stream.GarbageRoundTrip | src/yr2017/day9.rs:7-17 | parsing written garbage counts exactly its characters that are neither `!` nor cancelled, and stops right after its `>` |
| Stream.GroupRoundTrip | src/yr2017/day9.rs:22-34 | parsing a written group gives its score (its depth plus the scores of the groups inside, each one level deeper) and all garbage inside it, and stops right after its `}` |
| Stream.ItemsRoundTrip | src/yr2017/day9.rs:25-33 | parsing written items up to `}` adds their scores and garbage to the totals so far |
| Stream.TailRoundTrip | src/yr2017/day9.rs:25-33 | items each preceded by a comma parse the same way |
| Stream.TailStep | src/yr2017/day9.rs:28-30 | a comma, then one item parsed, then the rest of the tail parsed: the whole tail parses to the summed score and garbage |
| Stream.CloseStep | src/yr2017/day9.rs:27 | a `}` ends the group with the totals so far and hands back what follows it |
| Stream.CommaStep | src/yr2017/day9.rs:30 | a comma inside a group changes nothing |
| Stream.ItemRoundTrip | src/yr2017/day9.rs:28-29 | one nested group or piece of garbage adds its score and garbage and the loop carries on after it |
| Stream.FullRoundTrip | src/yr2017/day9.rs:37-41 | a written stream opens with `{` and scores its outermost group at depth 1 with all its garbage, whatever follows |
| SyntaxScoring.CloserOf | src/yr2021/day10.rs:6-9 | exactly the four openers have a closer, and it is one of the four closers |
| SyntaxScoring.Trim | src/yr2021/day10.rs:4 | trimming gives no longer a line, not starting or ending in whitespace, and holding every character of the line that is not whitespace; `SyntaxScoring.TrimSlice` states it is a slice |
| SyntaxScoring.TrimSlice | src/yr2021/day10.rs:4 | the trimmed line is the slice `s[a..b]` of the line with only whitespace outside it |
| SyntaxScoring.BlankFront | src/yr2021/day10.rs:4 | cutting one leading whitespace character moves the slice and its blank margins one place on |
| SyntaxScoring.BlankBack | src/yr2021/day10.rs:4 | cutting one trailing whitespace character keeps the slice and its blank margins |
| SyntaxScoring.EvaluateLine | src/yr2021/day10.rs:1-16 | the loop over the trimmed line, pushing closers and popping on everything else, gives the outcome of the scan specification: the open closers, the first mismatch, or the empty-stack panic |
| SyntaxScoring.Scan | src/yr2021/day10.rs:4-13 | a corrupted line reports a character of the line that is not an opener; an incomplete one expects no more closers than the stack and the line could give |
| SyntaxScoring.ScanAppend | src/yr2021/day10.rs:4-13 | scanning two pieces of a line in turn is scanning the whole line |
| SyntaxScoring.Reversed | src/yr2021/day10.rs:38 | reversing the stack reads it top first |
| SyntaxScoring.ClosingEmptiesStack | src/yr2021/day10.rs:38 | feeding the expected closers back, innermost first, empties the stack |
| SyntaxScoring.ScanStackClosers | src/yr2021/day10.rs:6-9 | the stack only ever holds closers |
| SyntaxScoring.CompletionCloses | src/yr2021/day10.rs:33-48 | appending the completion string, the stack read top first, to an incomplete line makes it complete and not corrupted |
| SyntaxScoring.CompletionScore | src/yr2021/day10.rs:37-48 | the score is a base-5 number: its last digit is the points of the outermost expected closer (the first on the stack), and the rest is the score of the others |
| SyntaxScoring.CorruptedAtFirstMismatch | src/yr2021/day10.rs:10 | a corrupted line reports a character that is not an opener and differs from the closer the line before it expects |
| SyntaxScoring.FoldPointsSnoc | src/yr2021/day10.rs:38-47 | folding one more closer multiplies the score by 5 and adds its points |
| SyntaxScoring.FoldPointsInjective | src/yr2021/day10.rs:38-47 | different strings of closers never fold to the same score |
| SyntaxScoring.CompletionScoreInjective | src/yr2021/day10.rs:37-48 | different completion stacks get different scores |
| TopoSort.Elements | src/yr2018/day7.rs:47 | the set of a list holds exactly its elements |
| TopoSort.CountIn | src/yr2018/day7.rs:48 | a node occurs in a list exactly when its count there is positive |
| TopoSort.CountPrefix | src/yr2018/day7.rs:82-96 | a prefix of a list counts no more occurrences than the whole |
| TopoSort.OutgoingInNodes | src/yr2018/day7.rs:45-50 | every successor of a node is a node of the graph, and so has a counter |
| TopoSort.PendingOutside | src/yr2018/day7.rs:45-50 | a node that is nowhere in the edge map has no incoming edges |
| TopoSort.PendingZero | src/yr2018/day7.rs:93-95 | a node with no pending incoming edges has every predecessor output |
| TopoSort.PendingNotKey | src/yr2018/day7.rs:82-87 | outputting a node without an entry leaves every pending count as it was |
| TopoSort.PendingClose | src/yr2018/day7.rs:82-96 | outputting a node removes exactly its own outgoing edges from every pending count |
| TopoSort.OutgoingNotKey | src/yr2018/day7.rs:84-86 | a node without an entry has no successors |
| TopoSort.LeastExists | src/yr2018/day7.rs:73-75 | a non-empty heap of open nodes has an alphabetically least node |
| TopoSort.LeastSingle | src/yr2018/day7.rs:73-75 | a heap of one node has that node as least |
| TopoSort.LeastAdd | src/yr2018/day7.rs:73-75 | the least of a heap is the smaller of any one node and the least of the rest |
| TopoSort.TallyStart | src/yr2018/day7.rs:46 | an entry's own node gets a counter of 0 if it has none, keeping all counts right |
| TopoSort.TallyStep | src/yr2018/day7.rs:47-49 | each listed successor adds one incoming edge to its counter, starting from 0 when new |
| TopoSort.TallyEntry | src/yr2018/day7.rs:45-50 | after an entry's node and successors are tallied, the counters count the edges of every entry so far |
| TopoSort.TopologicalSort.CountIncoming | src/yr2018/day7.rs:44-50 | the counters hold, for every node of the graph and no other, its number of incoming edges |
| TopoSort.TopologicalSort.TallyOutgoing | src/yr2018/day7.rs:47-49 | the counters hold the edges tallied before plus one per listed successor |
| TopoSort.CountNext | src/yr2018/day7.rs:82-96 | one more element of a list counts one more of itself and none of the others |
| TopoSort.CloseStep | src/yr2018/day7.rs:88-95 | closing one more edge finds its counter positive, lowers it by one, and opens the node when it reaches 0 |
| TopoSort.CloseStepLowered | src/yr2018/day7.rs:91 | closing one more edge lowers only that successor's counter |
| TopoSort.CloseStepOpened | src/yr2018/day7.rs:93-95 | closing one more edge opens the successor exactly when its counter reaches 0 |
| TopoSort.CloseCounts | src/yr2018/day7.rs:79-97 | after closing a taken node the counters are the edges still pending once it is output |
| TopoSort.CloseOpen | src/yr2018/day7.rs:79-97 | after taking and closing an open node, the open nodes are exactly those not output whose counter is 0 |
| TopoSort.CloseOpenAt | src/yr2018/day7.rs:79-97 | a node opens when it is a successor whose counter reaches 0; the closed node is no longer open; others are unchanged |
| TopoSort.TakeOrdered | src/yr2018/day7.rs:107-110 | outputting an open node keeps every node after all those it depends on |
| TopoSort.CanClose | src/yr2018/day7.rs:90 | the assertion that a counter is positive cannot fail when the node taken was open |
| TopoSort.TopologicalSort.constructor | src/yr2018/day7.rs:42-64 | the counters are the incoming edges of every node, and the open nodes are exactly those with none |
| TopoSort.TopologicalSort.TakeOpenNode | src/yr2018/day7.rs:73-75 | takes the alphabetically least open node and removes it, or gives None when none is open; the counters are unchanged |
| TopoSort.TopologicalSort.OutputNext | src/yr2018/day7.rs:107-110 | one round takes the least open node, a node of the graph not yet output, and closes it, keeping the counters and open nodes right and the order respecting every edge |
| TopoSort.TopologicalSort.CloseNode | src/yr2018/day7.rs:79-97 | every outgoing edge lowers its successor's counter by one, and each successor whose counter reaches 0 opens once |
| TopoSort.Extend | src/yr2018/day7.rs:107-110 | outputting a node not yet output keeps the order free of repeats and leaves fewer nodes to output |
| TopoSort.Completed | src/yr2018/day7.rs:68-70 | a complete sort has output every node |
| TopoSort.PendingPositive | src/yr2018/day7.rs:79-97 | an edge into a node is still pending only from a node of the graph not yet output |
| TopoSort.StuckCyclic | src/yr2018/day7.rs:68-70 | a sort with nothing open and some counter still positive has left a set of nodes each of which has a predecessor in the set: a cycle |
| TopoSort.PredecessorEarlier | src/yr2018/day7.rs:107-110 | in an order that respects every edge, a node of such a set has another node of the set before it |
| TopoSort.NotInPrefix | src/yr2018/day7.rs:107-110 | no node of such a set appears anywhere in an order that respects every edge |
| TopoSort.OrderedAcyclic | src/yr2018/day7.rs:101-114 | a graph with an order that names every node and respects every edge has no such set |
| TopoSort.Star1 | src/yr2018/day7.rs:101-114 | when the sort completes, the result names every node of the graph exactly once and puts each node after all those it depends on; the final assertion fails (`None`) exactly when the graph has a cycle, that is a non-empty set of nodes each with a predecessor in the set |
| Turing.ParseMove | src/yr2017/day25.rs:13-24 | exactly `left` and `right` name moves, and every other word is an error |
| Turing.Next | src/yr2017/day25.rs:74-98 | a step happens exactly when a transition exists for the state and the symbol under the cursor, and leaves the cursor on the tape |
| Turing.NextIsMachineStep | src/yr2017/day25.rs:74-98 | on the tape seen as infinite both ways, a step writes the transition's symbol under the head, changes no other cell, switches to the next state and moves the head one cell left or right |
| Turing.NextGrowth | src/yr2017/day25.rs:80-92 | a step never shrinks the tape and grows it by at most one cell |
| Turing.Run | src/yr2017/day25.rs:199-203 | a run that does not halt leaves the cursor on the tape |
| Turing.RunGrowth | src/yr2017/day25.rs:199-203 | after k steps the tape has grown by at most k cells |
| Turing.Machine.constructor | src/yr2017/day25.rs:50-70 | the machine starts in the initial state with the cursor at 0 on the given tape, or on a single blank when the tape is empty |
| Turing.Machine.Step | src/yr2017/day25.rs:74-98 | the in-place step reports running exactly when a transition applies, and then moves to the configuration the step function gives; a halted machine is left unchanged |
| Turing.Machine.RunSteps | src/yr2017/day25.rs:199-203 | stepping k times succeeds exactly when the machine does not halt within k steps, and ends in the configuration after k steps |
| Turing.CountOnes | src/yr2017/day25.rs:206 | the number of ones is at most the tape's length |
| Turing.CountOnesAppend | src/yr2017/day25.rs:206 | the ones of two pieces of tape put together add up |
| Turing.Checksum | src/yr2017/day25.rs:196-207 | the checksum is the number of ones on the tape after the given steps from an empty tape of zeros, or None where the source panics because the machine halted |
| UnionFind.Root | src/yr2025/day8.rs:31-35 | following parents from an item ends at an item that is its own parent |
| UnionFind.Roots | src/yr2025/day8.rs:14-17 | the roots are exactly the items that are their own parent |
| UnionFind.AboveSameRoot | src/yr2025/day8.rs:31-40 | every item on the chain of parents from an item has the same root |
| UnionFind.AboveParent | src/yr2025/day8.rs:33-35 | the parent of an item on the chain is on the chain too |
| UnionFind.BelowRoot | src/yr2025/day8.rs:31-35 | an item that is not a root ranks below its root |
| UnionFind.Compressed | src/yr2025/day8.rs:37-40 | pointing items at their own root keeps the forest and every item's root |
| UnionFind.CompressedRoot | src/yr2025/day8.rs:37-40 | one item's root is unchanged when items point at their own roots |
| UnionFind.Joined | src/yr2025/day8.rs:49-52 | hanging one root below another moves exactly the first set into the second and keeps a forest |
| UnionFind.JoinedRoots | src/yr2025/day8.rs:49-52 | hanging one root below another leaves exactly one root fewer |
| UnionFind.JoinedRoot | src/yr2025/day8.rs:49-52 | after hanging root a below root b, an item whose root was a has root b, and every other keeps its root |
| UnionFind.Singletons | src/yr2025/day8.rs:22 | the initial parents are 0 .. n−1, each item its own parent |
| UnionFind.SingletonRoots | src/yr2025/day8.rs:20-25 | n items on their own are n roots |
| UnionFind.OneRoot | src/yr2025/day8.rs:55-58 | a non-empty forest has a single root exactly when every item has the same root |
| UnionFind.TwoRoots | src/yr2025/day8.rs:49-52 | two different roots make at least two roots |
| UnionFind.Sets.constructor | src/yr2025/day8.rs:20-25 | every item starts as its own root, with n − 1 unions left |
| UnionFind.Sets.Find | src/yr2025/day8.rs:28-43 | find returns the item's root and points every item on its chain straight at the root; nothing else changes, no item changes set and no root stops being one |
| UnionFind.Sets.RootOf | src/yr2025/day8.rs:30-34 | following parents from the item ends at its root, which is its own parent |
| UnionFind.Sets.Compress | src/yr2025/day8.rs:36-39 | every item on the chain from the item is pointed at the root and every other item keeps its parent, so the forest, each item's root and the set of roots stay |
| UnionFind.Sets.Link | src/yr2025/day8.rs:49-50 | pointing one root at another moves exactly the first root's set into the second's and leaves one union fewer |
| UnionFind.Sets.Union | src/yr2025/day8.rs:46-53 | afterwards a and b are in the same set, exactly a's set has moved into b's, and the unions left go down by one exactly when the two sets were different |
| UnionFind.Sets.IsDone | src/yr2025/day8.rs:56-58 | the structure is done exactly when every item is in the same set |
| UnionFind.Sets.OneRootDone | src/yr2025/day8.rs:55-58 | no unions left means exactly that everything is in one set, since the sets number one more than the unions left |
| UnionFind.CompressStep | src/yr2025/day8.rs:38-40 | one turn of the compression loop points the current item at the root and moves on to its old parent, keeping what the compression has done so far |
| UnionFind.CompressDone | src/yr2025/day8.rs:38-40 | once the chain reaches the root, exactly the items on the chain point at the root, and the forest, every item's root and the set of roots are unchanged |

## Left out

- ConvTests: the file reads of `StringCache.register`, `process_day` and the top-level directory walk that appends to solution files are I/O and are not modelled. Registered content is a string parameter.
- ConvTests.NameCache.Resolve: requires at most 50000 entries per key. Beyond that bound the suffix letters would reach the surrogate range of `char`, while Python's `chr` keeps going.
- ConvTests.Upper, ConvTests.Lower, ConvTests.KeyOf, ConvTests.FirstLetter: only ASCII letters and digits are modelled. Python's `upper`, `lower`, `isdigit` and `isupper` are Unicode-aware: `'²'.isdigit()` and `'É'.isupper()` hold, and `'ß'.upper()` is `'SS'`, which changes the length. `ConvTests.IsDigits`, `ConvTests.UpperChar` and `ConvTests.LowerChar` share this limit.
- ConvTests.GenDay: requires at most 25000 files, which keeps every key of the two tables within the 50000 entries the resolution allows. The directory listing is a sequence of (file name, text) pairs already sorted by name.
- ConvTests.GenDay: the module's test lines are stated by count, and each test by a `star_test!` line of its star; their exact order is not stated. The source emits them in the naming table's iteration order, which groups the tests by key.
- ConvTests.GenDay, ConvTests.GenTests, ConvTests.RenderTests: do not state which test name, input constant or output constant each line holds. Each part is stated on its own: `ConvTests.RegisterInputs` (a test's input tag is the one issued for its input file's text), `ConvTests.RegisterTests` (registration j is test j with that input tag) and `ConvTests.RenderDay` (the exact module of the resolved tags). These are not composed into one statement about the final text.
- ConvTests: resolved names are distinct only within a key. The lemma `ConvTests.CrossKeyCollision` shows two keys resolving to the same name. The source does not guard against this, and the model keeps its behaviour.
- Processor: arithmetic wraps at 64 bits, as in a release build. A debug build panics on overflow instead, and that is not modelled.
- Processor.ProgramStep: requires a nonzero divisor for `mod`, and rules out the minimum value modulo -1. Both panic in the source.
- Dance.ValidMove, Dance.ValidMoves: the derivation's `requires` excludes the moves on which the source panics: a spin longer than the line, and an exchange or partner naming a position or program outside it. Those panics are not modelled.
- Dance: `parse_move`, `parse_input` and the string formatting of `whole_dance` are not modelled. Moves are a datatype and programs are numbers below 256.
- KnotHash: the input parsing, the hexadecimal formatting and the `u8` element type are not modelled. The list holds any element type.
- KnotHash.KnotRound: uses the corrected reversal, `KnotHash.ReverseWindow`. An empty window at position 0 leaves the list as it is, where the source's `usize` underflow panics. `KnotHash.RoundAsWritten` is the round as written, and `KnotHash.AsWrittenAgrees` proves both rounds give the same result wherever the source does not panic.
- KnotHash.Hash: is built on the corrected round. It gives a hash where the source panics on a zero length at position 0.
- KnotHash.Star1: is built on the corrected round. Lengths starting with 0 give an answer, while the source panics (`KnotHash.LeadingZeroPanics`).
- KnotHash.KnotRound: requires every length to be at most the list's length. With a longer length the source's window wraps over itself, and the model does not cover that case.
- Turing: `parse_machine` and the text of the blueprint are not modelled. The machine is given as a rule table.
- Turing.Machine.constructor: the source's assertion that the initial tape holds no blank is a `requires`.
- TopoSort: `star2` (timed workers) and `parse_input` are not modelled. The `HashMap` of counts is a Dafny `map`, and the binary heap of open nodes is a multiset from which the least letter is taken.
- UnionFind.Sets.constructor: requires at least one item, because the source computes `n - 1` on a `usize`. The edge enumeration, `star1` and `star2` are not modelled.
- MergeIntervals: `star1` and `star2` are not modelled. Touching intervals merge, as in the source.
- MergeIntervals.ParseRange: rejects a range whose end is 2^64 − 1, because `r + 1` overflows `u64` and panics in a debug build. A release build would wrap the end to 0 instead. The model follows the debug build.
- Ranges: the 32-bit width of positions, and `star1` and `star2`, are not modelled.
- SeedMaps: `parse_input` and 64-bit overflow of offsets are not modelled. The unstable sort of map entries is modelled by an insertion sort, so entries with equal starts may come in another order in the source. `star1` and `star2` reduce to `SeedMaps.Location` and `SeedMaps.Locations`, and the `unwrap` of `star1` is a `None`.
- Snafu.ToSnafu: requires a non-negative number, because every negative number panics in the source. 64-bit overflow in `from_snafu` is not modelled.
- Snailfish: `explode`, `split` and `reduce` mutate the tree in place in the source. Here they are pure functions that return the new tree. The `u8` width of regular numbers and `star2` are not modelled.
- Snailfish.Reduction, Snailfish.Reduce, Snailfish.AddReduce, Snailfish.SumNumbers, Snailfish.Star1: the source's reduce `loop` is given a `fuel` count of rounds and returns `None` when the count runs out, which the source never does. No lemma shows that some count suffices for every number, so each contract holds only for results that are not `None`.
- Snailfish.Explode, Snailfish.Reduction, Snailfish.Reduce, Snailfish.AddReduce, Snailfish.SumNumbers, Snailfish.Star1: each requires its number to be explodable. That excludes the panic of `unwrap_leaf` (src/yr2021/day18.rs:81-86), which `explode` (src/yr2021/day18.rs:46) hits on a pair four deep with a child that is itself a pair. The panic is not modelled as an error result. `Snailfish.SplitExplodable` shows that no later round can reach it, so only an input number nested five deep can trigger it.
- Snailfish.ParseShow: holds only for trees of single-digit numbers, as the source's parser reads one digit per number.
- Packets: the text parsing with `trim` and the 32-bit width of the byte counter are not modelled.
- Packets.HexBytes: an unpaired last hexadecimal digit is dropped. Decoding is eager: a character that is not a hexadecimal digit anywhere gives `None`. The source's `map(..).tuples()` is lazy and panics only on a character its reader fetches.
- Packets.Transmission: inherits the eager decoding of `Packets.HexBytes`. A transmission whose packet ends before a bad character gives `None` here but a packet in the source.
- Packets.Evaluate: sums and products are over unbounded numbers. The source's `u64` `sum()` and `product()` wrap in a release build and panic in a debug build, so large values differ. Literal values are kept to 64 bits, as in the source.
- Packets.Star2: inherits the unbounded sums and products of `Packets.Evaluate`.
- OperationOrder: 64-bit overflow, the laziness of the token iterator and the splitting into lines are not modelled. Panics are `None`.
- SyntaxScoring: the panics in `star1` and `star2`, and the sort that picks the median score, are not modelled.
- SyntaxScoring.CompletionScore: the score is an unbounded `nat`. The source folds in `u64`, where `acc * 5 + points` can overflow once 28 closers are owed (5^28 − 1 > 2^64 − 1) and always overflows from 29. That wrap-around is not modelled, and CompletionScoreInjective holds only for the unbounded score.
- Polymer.ReactPolymer: the source's assertion that every unit is alphabetic is a `requires`.
- Particles.OrderRangeAtInf: the norms and `velocity + accel * t` are unbounded integers. The source computes them in `i32`, which overflows on large components.
- Particles: particle equality is modelled as Dafny's `==` on the compared values. Parsing and the simulation loop are not modelled.
- Marbles.MarbleGame: requires `players > 0 || lastMarble < 23`. That excludes the division by zero of `m % players` (src/yr2018/day9.rs:39) with zero players once a marble scores. The panic is not modelled as an error result.
- Marbles: the `VecDeque` is a sequence value. The regex parsing of the input and `u32` overflow are not modelled.
- Marbles: the example games of the source's unit tests (32 points with 9 players and 25 marbles, 8317 with 10 players and 1618 marbles) are not proved. Proving them would take the solver through every turn.
- Stream: the character iterator is modelled as the unread remainder of the input. `i32` overflow of the scores is not modelled.
- LicenseTree: the `u32` width of entries is not modelled, and the underflow of a metadata entry 0 is a `None`.
- HexGrid: the `i32` width and the splitting of the input on commas are not modelled. The fold of `star1` and the scan of `star2` are `Walk`; the final norm that `star1` prints and the running maximum of norms that `star2` prints are not modelled.
- MemoryBanks: the `HashMap` loop that finds a repeated state and the `i32` width are not modelled.
- MemoryBanks.RedistributeBanks: requires a non-empty array. That excludes the `assert!(!vector.is_empty())` panic of `redistribute` (src/yr2017/day6.rs:27), which an input with no banks reaches; the panic is not modelled.
- Handheld: `parse` and the `i32` width are not modelled. A jump to a negative position is an unbounded `int` outside `InRange`, so it leaves the program; in the source `(pc as i32 + v) as usize` wraps to a huge index that fails the same `pc < len` test. The panic of `star2` is a `None`.
- Bingo: parsing and the game loops over several boards are not modelled. A board holds at most 25 numbers.
- Marker: the panic when no window qualifies is a `None`.
- Duplicate: the inner iterator is a sequence of items.
- Duplicate.DuplicateIter.Count, Duplicate.DuplicateIter.SizeHint: the results are unbounded `nat`s. The source computes `count * duplicates + current_left` and `lo * duplicates + current_left` (and the same with `hi`) in `usize`, which overflow for a long inner iterator, for instance one that reports `usize::MAX` as its lower bound; the overflow is not modelled.

## Findings

| source | as written | input that shows it | evidently intended | confidence | as-written member | corrected member |
|---|---|---|---|---|---|---|
| src/yr2017/day10.rs:26-30 | `right` is computed as `pos + length - 1` before any check | a window of length 0 at position 0: `0 + 0 - 1` underflows on `usize` and panics | an empty window leaves the list unchanged wherever it starts | not executed | KnotHash.EmptyWindowAtStartRejected | KnotHash.ReverseWindow |
| src/yr2020/day8.rs:117 | the repair loop reads `reach[i + 1]` for a switched `jmp` | the one-instruction program `jmp +0`: switching it to `nop` runs off the end, but `reach[1]` is past the end of the marks | a successor past the last instruction counts as leaving the program | not executed | Handheld.AsWrittenOutOfBounds | Handheld.Star2 |
