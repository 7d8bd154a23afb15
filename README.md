# numa_mask_gen in Dafny

`numa_mask_gen` prints a CPU pinning mask for MPI ranks on a NUMA machine.

It takes the machine topology in one of two ways:
- from the command line: sockets, cores per socket and NUMA zones;
- with `--use-lscpu`, from the output of the `lscpu` command.

It also takes the number of OpenMP threads per rank. From these it computes a placement: the starting CPU id of every rank. The placement takes one core from every NUMA zone at each core offset `0, threads, 2·threads, …` below the per-zone share `c = totCores / memZones` (truncated). It then prints the placement as one comma-separated line, in one of three forms:
- the doubled hyperthread mask `0x<hex 2^n><hex 2^n zero-padded>`;
- the plain mask `0x<hex 2^n>`;
- the decimal id list.

The project models four things:
- the placement (module `Placement`);
- the rendering (`Render`, with the digit machinery in `Numerals` and `Strings`);
- the `CPU_Info` reader shared by both copies of `numa_mask_gen.py`:
  - the `key: value` line map (`LscpuLines`);
  - the `__str2range` CPU-list parser (`CpuRanges`);
  - the sorted `NUMA node<N> CPU(s)` key selection (`NodeKeys`);
  - the field conversions and the record (`Lscpu`);
  - the loops that build it (`LscpuReader`);
- the two `main` functions: shared parts in `Cli`, the top-level script in `ScriptMain`, the package entry point `numa_mask_gen/__main__.py` in `PackageMain`.

Pure source code is modelled as functions, and the source's loops as methods:
- `__str2range` is `CpuRanges.Str2Range`.
- The line loop of `__lscpu` is `LscpuLines.ReadLines`.
- The NUMA list loop is `LscpuReader.SortKeys` and `LscpuReader.CollectNumaLists`.
- `CPU_Info.__init__` is `LscpuReader.ReadCpuInfo`.

The methods and `ScriptMain.Run` use `__lscpu` corrected so that a line without exactly one ':' makes `Error` true (see "## Findings"). The reader as written is `Lscpu.CpuInfoOfAsWritten`, and `main()` over it is `ScriptMain.RunAsWritten`.

Each method is proved equal to a specification function, and the source's promises are proved about that function as lemmas. A run of `main` is a value of `Cli.Outcome`:
- `Printed(line)`: the standard-output line;
- `Exit(status)`: `sys.exit`;
- `Crash(fault)`: an uncaught exception.

The model keeps these behaviours of the code as written:
- A stride wider than the per-zone share (`1 <= c < threads`) still places offset 0 in every zone, one rank per zone. It does not give an empty placement (`Placement.PlanWideStride`).
- `--cpu-list` always prints the decimal list, also without `--no-hyperthreads`. In that case a warning says the flag is ignored, but the branch at `numa_mask_gen/__main__.py:137-138` still prints the list (`Render.SelectForm`, `PackageMain.CpuListPrintsIds`).
- `cores_in_numa_node` is the truncated quotient, not a required exact division (`Placement.CoresPerZone`).
- The mask padding width differs between the two mains:
  - the package pads to `HexWidth(totCores)`;
  - the top-level script pads to the fixed width 32 (`Render.LegacyWidth`).
- `__str2range` converts every dash-separated number but uses only the first and the last. So `"1-x-3"` raises, and `"1-2-3"` is the run `1..3` (`CpuRanges.ExpandNumbers`).

## Model

| member | source | states |
|---|---|---|
| Placement.FromArguments | numa_mask_gen/__main__.py:97-108 | the explicit topology is accepted exactly when sockets, cores per socket and NUMA nodes are all positive, and is then taken unchanged |
| Placement.TotalCores | numa_mask_gen/__main__.py:111 | the total core count of a valid topology is at least 1 and at least each factor |
| Placement.CoresPerZone | numa_mask_gen/__main__.py:112 | the per-zone share c satisfies c·zones ≤ total < (c+1)·zones |
| Placement.RangeFromShape | numa_mask_gen/__main__.py:124 | `range(i, stop, step)` has ceil((stop−i)/step) values, the k-th being i + k·step < stop |
| Placement.OffsetsShape | numa_mask_gen/__main__.py:124 | the offsets are 0, t, 2t, … below c, ceil(c/t) of them |
| Placement.PlanOverLength | numa_mask_gen/__main__.py:123-125 | the flattened comprehension has one entry per offset and zone |
| Placement.PlanOverAt | numa_mask_gen/__main__.py:123-125 | entry p of the flattened comprehension is offset p / zones in zone p % zones |
| Placement.PlanOverAtBlock | numa_mask_gen/__main__.py:123-125 | entry q·zones + r of the flattened comprehension exists and is offset q plus r·c |
| Placement.PlanLength | numa_mask_gen/__main__.py:123-125 | for threads ≥ 1 the placement has ceil(c/threads)·zones entries |
| Placement.PlanAt | numa_mask_gen/__main__.py:123-125 | entry k·zones + j is k·threads + j·c: each block of zones entries visits every zone once, in zone order |
| Placement.PlanEntry | numa_mask_gen/__main__.py:123-125 | every entry p is (p / zones)·threads + (p % zones)·c with the offset below c |
| Placement.PlanBelow | numa_mask_gen/__main__.py:123-125 | every placed id is below zones·c |
| Placement.PlanDistinct | numa_mask_gen/__main__.py:123-125 | no CPU id is placed twice |
| Placement.SameZoneAndOffset | numa_mask_gen/__main__.py:123-125 | two positions with the same zone and the same offset are the same position |
| Placement.PlanZones | numa_mask_gen/__main__.py:123-125 | entry p lies in zone p % zones (id / c) at core offset (p / zones)·threads (id % c) |
| Placement.PlanWideStride | numa_mask_gen.py:199-201 | with 1 ≤ c < threads the placement is offset 0 in every zone, one rank per zone |
| Placement.PlanEmpty | numa_mask_gen.py:199-201 | for a positive stride the placement is empty exactly when c = 0 or there are no zones |
| Placement.PlanNegativeStride | numa_mask_gen.py:199-201 | a negative stride places nothing |
| Placement.PlanOnMachine | numa_mask_gen.py:186-201 | on a valid machine the placement has ceil(c/threads)·zones entries, all distinct and below totCores |
| Placement.ExampleOneThread | numa_mask_gen.py:199-201 | 2 sockets × 4 cores in 2 zones with 1 thread gives 0,4,1,5,2,6,3,7 |
| Placement.ExampleTwoThreads | numa_mask_gen.py:199-201 | the same machine with 2 threads gives 0,4,2,6 |
| Render.SelectForm | numa_mask_gen/__main__.py:133-138 | doubled mask iff neither flag is set, plain mask iff only `--no-hyperthreads`, id list iff `--cpu-list` |
| Render.HexWidth | numa_mask_gen/__main__.py:131 | the width is ⌊totCores/4⌋ from four cores up and 1 below, so always ≥ 1 |
| Render.PaddedShape | numa_mask_gen/__main__.py:134 | a padded field is the zeros needed to reach the width, then the digits |
| Render.MaskClosedForm | numa_mask_gen/__main__.py:134-136 | the plain mask of n is "0x", the digit of 2^(n mod 4), then n/4 zeros; the doubled mask repeats that, zero-padded to max(width, n/4+1) digits |
| Render.HyperthreadFields | numa_mask_gen/__main__.py:134 | both fields of a doubled mask denote 2^n, and the second has max(width, n/4+1) digits |
| Render.MaskFieldValues | numa_mask_gen/__main__.py:134 | `hex(2^n)` has n/4+1 digits; it and its zero-padded form both denote 2^n, the padded one with max(width, n/4+1) digits |
| Render.TwoFields | numa_mask_gen/__main__.py:134 | "0x" followed by two hex fields of value v splits back into exactly those two fields |
| Render.CoreMaskField | numa_mask_gen/__main__.py:136 | a plain mask is "0x" then the hexadecimal digits of 2^n |
| Render.NoCommaInEntry | numa_mask_gen/__main__.py:134-138 | no rendered entry contains a comma |
| Render.NoCommaInHex | numa_mask_gen/__main__.py:134-136 | hexadecimal digits contain no comma |
| Render.NoCommaInConcat | numa_mask_gen/__main__.py:134-138 | joining two comma-free strings gives a comma-free string |
| Render.LineSplits | numa_mask_gen/__main__.py:134-138 | an empty placement prints an empty line; otherwise the line splits on ',' into exactly the entries |
| Render.LineMaskField | numa_mask_gen/__main__.py:134-136 | field k of a mask line is the mask of the k-th placed id, with the hex values and widths above |
| Render.IdListReadsBack | numa_mask_gen/__main__.py:138 | field k of an id-list line reads back with `int` as the k-th placed id |
| Render.ExampleMasks | numa_mask_gen/__main__.py:134-136 | id 5 renders as "0x20"; id 0 with 8 cores renders as "0x101" |
| Numerals.Pow | numa_mask_gen/__main__.py:134 | a power of a positive base is positive |
| Numerals.DigitChar | numa_mask_gen/__main__.py:134 | a digit value below 16 becomes a hex digit, a decimal one iff below 10 |
| Numerals.DigitValue | numa_mask_gen/numa_mask_gen.py:37 | a hex digit's value is below 16 and turns back into the same character |
| Numerals.DigitRoundTrip | numa_mask_gen/numa_mask_gen.py:37 | value → character → value is the identity |
| Numerals.Decimal | numa_mask_gen/__main__.py:138 | `str(n)` is a non-empty digit string without a leading zero |
| Numerals.ParseNat | numa_mask_gen/numa_mask_gen.py:37 | `int` succeeds exactly on non-empty digit strings |
| Numerals.DecimalValueOfDecimal | numa_mask_gen/__main__.py:138 | the printed decimal denotes n |
| Numerals.ParseDecimal | numa_mask_gen/__main__.py:138 | `int(str(n)) == n` |
| Numerals.Hex | numa_mask_gen/__main__.py:134 | hexadecimal formatting gives non-empty hex digits without a leading zero |
| Numerals.HexRoundTrip | numa_mask_gen/__main__.py:134 | the hexadecimal digits of v denote v |
| Numerals.ZeroPad | numa_mask_gen/__main__.py:134 | the `0{width}` format keeps the digits at the end, left-fills with zeros, and gives max(width, length) characters |
| Numerals.LeadingZerosValue | numa_mask_gen/__main__.py:134 | leading zeros do not change a hex value |
| Numerals.ZeroPadValue | numa_mask_gen/__main__.py:134 | zero padding keeps the hex value |
| Numerals.HexTimes16 | numa_mask_gen/__main__.py:134 | multiplying by 16 appends a zero digit |
| Numerals.HexDigitShifted | numa_mask_gen/__main__.py:134 | d·16^k prints as the digit d followed by k zeros |
| Numerals.PowTwoSplit | numa_mask_gen/__main__.py:134 | 2^n = 2^(n mod 4)·16^(n/4) |
| Numerals.SmallPowersOfTwo | numa_mask_gen/__main__.py:134 | 2^r for r < 4 is 1, 2, 4 or 8 |
| Numerals.Pow2Digit | numa_mask_gen/__main__.py:134 | the leading digit of a power of two is one of 1, 2, 4, 8 |
| Numerals.HexPow2 | numa_mask_gen/__main__.py:134 | `hex(2^n)` is the digit 2^(n mod 4) followed by n/4 zeros, n/4+1 digits in all |
| Strings.Split | numa_mask_gen/numa_mask_gen.py:34 | `split` on a separator gives at least one part |
| Strings.SplitPieces | numa_mask_gen/numa_mask_gen.py:34 | `split` gives one more part than separators, none containing the separator |
| Strings.CountAfterFirst | numa_mask_gen/numa_mask_gen.py:21 | the separators of a string are its first one plus those after it |
| Strings.SplitOfPlain | numa_mask_gen/numa_mask_gen.py:34 | a string without the separator splits into itself |
| Strings.SplitPrepend | numa_mask_gen/numa_mask_gen.py:37 | a separator-free head is the first part |
| Strings.SplitConcat | numa_mask_gen/numa_mask_gen.py:34 | splitting a ⊕ sep ⊕ b is splitting a then b |
| Strings.SplitJoin | numa_mask_gen/__main__.py:134-138 | separator-free parts joined and split come back unchanged |
| Strings.JoinSplit | numa_mask_gen/numa_mask_gen.py:34 | splitting then joining gives the string back |
| Strings.JoinCons | numa_mask_gen/numa_mask_gen.py:34 | joining a head and at least one more part puts the separator after the head |
| Strings.StripLeft | numa_mask_gen/numa_mask_gen.py:22 | removes exactly the leading whitespace |
| Strings.StripRight | numa_mask_gen/numa_mask_gen.py:22 | removes exactly the trailing whitespace |
| Strings.StripSpec | numa_mask_gen/numa_mask_gen.py:22 | `strip` is a slice with only whitespace cut away and no whitespace at either end |
| Strings.StripBounds | numa_mask_gen/numa_mask_gen.py:22 | `strip` is the slice s[lo..hi] with only whitespace before lo and after hi |
| Strings.StripIdempotent | numa_mask_gen/numa_mask_gen.py:22 | stripping twice is stripping once |
| Strings.BelowIrreflexive | numa_mask_gen/numa_mask_gen.py:68 | byte order is irreflexive |
| Strings.BelowTransitive | numa_mask_gen/numa_mask_gen.py:68 | byte order is transitive |
| Strings.BelowTotal | numa_mask_gen/numa_mask_gen.py:68 | byte order is total |
| Strings.BelowAsymmetric | numa_mask_gen/numa_mask_gen.py:68 | byte order is asymmetric |
| CpuRanges.Interval | numa_mask_gen/numa_mask_gen.py:38 | `range(a, b+1)` is a, a+1, …, b, and empty when a > b |
| CpuRanges.ParseTokens | numa_mask_gen/numa_mask_gen.py:37 | a converted token list has one number per token |
| CpuRanges.ParseTokensSpec | numa_mask_gen/numa_mask_gen.py:37 | `list(map(int, …))` succeeds iff every token converts, and then the k-th number is the k-th token's value |
| CpuRanges.ExpandPiece | numa_mask_gen/numa_mask_gen.py:37-38 | a piece expands iff all its dash-separated tokens convert |
| CpuRanges.ExpandPieceRun | numa_mask_gen/numa_mask_gen.py:38 | a piece contributes max(0, last−first+1) ids counting up from its first number |
| CpuRanges.ConcatAppend | numa_mask_gen/numa_mask_gen.py:38 | extending by two batches of runs is extending by their concatenation |
| CpuRanges.Str2Range | numa_mask_gen/numa_mask_gen.py:29-39 | the loop that extends `ranges` returns exactly the expansion of the string |
| CpuRanges.ExpandRangesComma | numa_mask_gen/numa_mask_gen.py:34-38 | the expansion of s1 "," s2 is the expansion of s1 followed by that of s2 |
| CpuRanges.ConcatFails | numa_mask_gen/numa_mask_gen.py:36-38 | the runs fail together exactly when one of them fails |
| CpuRanges.ExpandRangesFails | numa_mask_gen/numa_mask_gen.py:37 | there is no result exactly when some token of some piece is not a number, so no partial list |
| CpuRanges.ConcatLength | numa_mask_gen/numa_mask_gen.py:36-38 | the result length is the sum of the lengths of the pieces' runs |
| CpuRanges.ParseDecimals | numa_mask_gen/numa_mask_gen.py:37 | decimal tokens convert back to their numbers |
| CpuRanges.DecimalsAt | numa_mask_gen/numa_mask_gen.py:37 | the k-th token is the decimal of the k-th number and holds no '-' |
| CpuRanges.ExpandNumbers | numa_mask_gen/numa_mask_gen.py:37-38 | "n0-…-nk" expands to n0..nk: only the first and the last number count |
| CpuRanges.ExpandRun | numa_mask_gen/numa_mask_gen.py:38 | "a-b" expands to the inclusive run a..b |
| CpuRanges.ExpandSingle | numa_mask_gen/numa_mask_gen.py:38 | "n" expands to [n] |
| CpuRanges.LeadingDashFails | numa_mask_gen/numa_mask_gen.py:37 | a piece with a leading '-' has an empty token and raises |
| LscpuLines.SplitLine | numa_mask_gen/numa_mask_gen.py:21-22 | a line gives a stripped key/value pair exactly when it holds one ':' |
| LscpuLines.SplitLineOf | numa_mask_gen/numa_mask_gen.py:21-22 | a line "a:b" with no other ':' gives the pair (strip(a), strip(b)) |
| LscpuLines.SplitLinePair | numa_mask_gen/numa_mask_gen.py:21-22 | a line holding one ':' gives the stripped text before it as key and the stripped text after it as value |
| LscpuLines.CollectNoneExtends | numa_mask_gen/numa_mask_gen.py:20-22 | once a line fails, later lines cannot rescue the parse |
| LscpuLines.ReadLines | numa_mask_gen/numa_mask_gen.py:20-22 | the loop filling `lscpu_dict` returns exactly the line map, or nothing when a line fails |
| LscpuLines.ReadStep | numa_mask_gen/numa_mask_gen.py:20-22 | one iteration of the loop: a bad line makes the whole parse fail, a good one enters its key and value into the dict so far |
| LscpuLines.CollectPrefixStep | numa_mask_gen/numa_mask_gen.py:22 | one more line on a prefix enters its pair, later keys overwriting, or fails |
| LscpuLines.CollectPrefixAborts | numa_mask_gen/numa_mask_gen.py:20-22 | a prefix that fails makes the whole parse fail |
| LscpuLines.CollectDefined | numa_mask_gen/numa_mask_gen.py:20-22 | the map exists exactly when every line split |
| LscpuLines.CollectKeys | numa_mask_gen/numa_mask_gen.py:22 | a key is in the map exactly when some line has it |
| LscpuLines.CollectLastWins | numa_mask_gen/numa_mask_gen.py:22 | the map holds, for every key, the value of its last line |
| LscpuLines.LineMapEntries | numa_mask_gen/numa_mask_gen.py:20-22 | the keys of the line map are exactly the stripped texts before ':', and each holds the stripped text after ':' of its last line |
| LscpuLines.LineMapDefined | numa_mask_gen/numa_mask_gen.py:20-22 | the line map exists exactly when every line holds exactly one ':' |
| LscpuLines.PresentPrefix | numa_mask_gen/numa_mask_gen.py:20-22 | the lines that split before the first one that does not |
| LscpuLines.CollectStopsAtGap | numa_mask_gen/numa_mask_gen.py:20-27 | good lines then a bad one: the map fails, and the lines before the bad one are the ones kept |
| LscpuLines.AsWrittenKeepsPrefix | numa_mask_gen/numa_mask_gen.py:15-27 | as written, a malformed line makes `__lscpu` return the partial dict of the lines before it instead of None |
| LscpuLines.AsWrittenAgrees | numa_mask_gen/numa_mask_gen.py:15-27 | on well-formed output the as-written reader and the corrected one agree |
| NodeKeys.DigitRun | numa_mask_gen/numa_mask_gen.py:68 | the longest digit prefix, as `\d+` matches it |
| NodeKeys.DigitRunOf | numa_mask_gen/numa_mask_gen.py:68 | the digit run of digits + a non-digit tail is the digits |
| NodeKeys.NumaCpuKeyShape | numa_mask_gen/numa_mask_gen.py:68 | a key matches iff it is "NUMA node", then digits, then " CPU(s)", then anything (`re.match` anchors at the start only) |
| NodeKeys.NumaCpuKeyParts | numa_mask_gen/numa_mask_gen.py:68 | a matching key is "NUMA node", a non-empty digit run, " CPU(s)", and a tail |
| NodeKeys.NumaCpuKeyOfParts | numa_mask_gen/numa_mask_gen.py:68 | "NUMA node", any non-empty digit run, " CPU(s)" and any tail make a matching key |
| NodeKeys.NumaKeysShape | numa_mask_gen/numa_mask_gen.py:68 | a key is selected exactly when it is in the map and reads "NUMA node", one or more digits, " CPU(s)", then anything |
| NodeKeys.LeastExists | numa_mask_gen/numa_mask_gen.py:68 | a non-empty key set has a least key |
| NodeKeys.LeastUnique | numa_mask_gen/numa_mask_gen.py:68 | the least key is unique |
| NodeKeys.SortedKeys | numa_mask_gen/numa_mask_gen.py:68 | `sorted` lists every key once |
| NodeKeys.SortedKeysHead | numa_mask_gen/numa_mask_gen.py:68 | the sorted list starts with the least key |
| NodeKeys.SortedKeysSorted | numa_mask_gen/numa_mask_gen.py:68 | the sorted list is strictly increasing in byte order |
| NodeKeys.ConsSorted | numa_mask_gen/numa_mask_gen.py:68 | a key below every key of a strictly increasing list can be put in front of it |
| NodeKeys.TakeLeast | numa_mask_gen/numa_mask_gen.py:68 | taking the least pending key extends the sorted prefix |
| NodeKeys.SortedKeysUnique | numa_mask_gen/numa_mask_gen.py:68 | a strictly increasing list of exactly the keys is the sorted list |
| NodeKeys.BelowAt | numa_mask_gen/numa_mask_gen.py:68 | strings that first differ at i compare as their i-th bytes |
| NodeKeys.NumaKeyExamples | numa_mask_gen/numa_mask_gen.py:68 | node10 and node2 keys match; "NUMA node(s)" does not |
| NodeKeys.NodeTenMatches | numa_mask_gen/numa_mask_gen.py:68 | "NUMA node10 CPU(s)" matches |
| NodeKeys.NodeTwoMatches | numa_mask_gen/numa_mask_gen.py:68 | "NUMA node2 CPU(s)" matches |
| NodeKeys.CountKeyDoesNotMatch | numa_mask_gen/numa_mask_gen.py:68 | "NUMA node(s)" does not match: no digit follows "NUMA node" |
| NodeKeys.SortedPair | numa_mask_gen/numa_mask_gen.py:68 | two keys are sorted by byte order |
| NodeKeys.TenBelowTwo | numa_mask_gen/numa_mask_gen.py:68 | "NUMA node10 CPU(s)" sorts before "NUMA node2 CPU(s)" |
| NodeKeys.SortedNotNumeric | numa_mask_gen/numa_mask_gen.py:68 | the keys are sorted in byte order, not numeric order: node10 comes before node2 |
| Lscpu.FieldFailure | numa_mask_gen/numa_mask_gen.py:43-66 | a field reads without exception iff its key is present and, for `int` and list fields, its value converts |
| Lscpu.FirstFailure | numa_mask_gen/numa_mask_gen.py:43-66 | no exception iff every field reads; otherwise the exception of the first field in reading order |
| Lscpu.FirstFailureConcat | numa_mask_gen/numa_mask_gen.py:43-66 | reading two groups of fields in turn raises nothing exactly when neither group raises |
| Lscpu.FieldsConverted | numa_mask_gen/numa_mask_gen.py:47-52 | when all fields read, the integer and CPU-list fields are present and convert |
| Lscpu.NodeListFails | numa_mask_gen/numa_mask_gen.py:29-39 | a NUMA list raises `ValueError` with its text exactly when some '-'-separated token of some ','-separated piece is not a number |
| Lscpu.GatherFailureExtends | numa_mask_gen/numa_mask_gen.py:68-69 | after an exception no later key matters |
| Lscpu.GatherStep | numa_mask_gen/numa_mask_gen.py:69 | a successful list is appended to `cpus_numa_nodes` |
| Lscpu.GatherStop | numa_mask_gen/numa_mask_gen.py:69 | the first failing list's exception is the result |
| Lscpu.GatherShape | numa_mask_gen/numa_mask_gen.py:67-69 | a successful collection has one list per key, in order |
| Lscpu.NumaListsShape | numa_mask_gen/numa_mask_gen.py:67-69 | `cpus_numa_nodes[i]` is the expansion of the i-th sorted key's value |
| Lscpu.InfoOf | numa_mask_gen/numa_mask_gen.py:41-73 | `Error` is set exactly when `__lscpu` returned None |
| Lscpu.CpuInfoOf | numa_mask_gen/numa_mask_gen.py:41-73 | with the corrected `__lscpu`, `Error` is set exactly when the command could not be run or printed a line without exactly one ':' |
| Lscpu.InfoBuilt | numa_mask_gen/numa_mask_gen.py:43-71 | a successful read passed every field and the `Flags` key, and holds the converted values |
| Lscpu.InfoFields | numa_mask_gen/numa_mask_gen.py:47-52 | the counts of a successful read are the `int` of their `lscpu` values, and the online list is the expansion |
| Lscpu.InfoNodeLists | numa_mask_gen/numa_mask_gen.py:67-69 | there is one NUMA list per matching key, in byte order of the keys, each the expansion of its value |
| Lscpu.InfoFieldFailure | numa_mask_gen/numa_mask_gen.py:43-66 | the first field that fails to read decides the exception out of `CPU_Info()` |
| Lscpu.CpuInfoOfAsWritten | numa_mask_gen/numa_mask_gen.py:15-27 | as written, `Error` is never set once the command produced output, whatever its shape |
| Lscpu.MalformedOutputRaises | numa_mask_gen/numa_mask_gen.py:21-27 | the single line "garbage" sets `Error` in the corrected reader, but raises `KeyError('Architecture')` as written |
| Lscpu.EmptyOutputRaises | numa_mask_gen/numa_mask_gen.py:41-43 | output with no lines gives an empty dictionary, and `CPU_Info()` raises `KeyError('Architecture')` |
| LscpuReader.SortKeys | numa_mask_gen/numa_mask_gen.py:68 | the loop returns the selected keys in sorted order |
| LscpuReader.CollectNumaLists | numa_mask_gen/numa_mask_gen.py:67-69 | the loop appending to `cpus_numa_nodes` returns the per-key lists, or the first exception |
| LscpuReader.ReadCpuInfo | numa_mask_gen/numa_mask_gen.py:41-73 | `CPU_Info()` with the corrected `__lscpu` returns exactly the record, `Error` value or exception that `Lscpu.CpuInfoOf` gives for the output |
| Cli.Emit | numa_mask_gen/__main__.py:111-138 | the tail of `main` crashes exactly when there are no zones (`ZeroDivisionError` first) or the stride is zero; it never exits |
| Cli.LineEmpty | numa_mask_gen/__main__.py:134-138 | the printed line is empty exactly when nothing was placed |
| Cli.IdListRoundTrip | numa_mask_gen/__main__.py:138 | the id line read back with `int` field by field is the placement |
| Cli.PrintedIds | numa_mask_gen/__main__.py:123-138 | with `--cpu-list` the line is empty iff c = 0, and otherwise reads back as ceil(c/threads)·zones distinct ids below totCores |
| ScriptMain.Execute | numa_mask_gen.py:120-211 | `main()` of the script, with the corrected `CPU_Info()`, ends exactly as `ScriptMain.Run` describes: printed line, exit status or exception |
| ScriptMain.RejectsNonPositive | numa_mask_gen.py:170-178 | without `--use-lscpu` the run exits with status 1 exactly when a topology value is not positive, and never exits otherwise |
| ScriptMain.DefaultsRejected | numa_mask_gen.py:170-178 | the parser defaults alone exit with status 1 |
| ScriptMain.LscpuIgnoresArguments | numa_mask_gen.py:131-169 | with `--use-lscpu` the explicit topology values do not matter |
| ScriptMain.LscpuOutcomes | numa_mask_gen.py:131-169 | with `--use-lscpu` and the corrected reader: exit 1 iff the command could not be run or printed a malformed line; a `CPU_Info()` exception propagates; zero NUMA nodes divide by zero |
| ScriptMain.AsWrittenAgreesOnWellFormed | numa_mask_gen.py:131-169 | when the command could not be run or printed only lines with one ':', `main()` as written and with the corrected reader end the same way |
| ScriptMain.AsWrittenNeverExitsOnOutput | numa_mask_gen.py:131-169 | as written, `--use-lscpu` never exits once the command printed something: the run prints or raises |
| ScriptMain.GarbageOutput | numa_mask_gen.py:131-169 | on the output line "garbage" the corrected run exits with status 1, the run as written crashes with `KeyError('Architecture')` |
| ScriptMain.PrintsPlan | numa_mask_gen.py:185-211 | on a valid explicit topology with non-zero stride the selected form of the placement is printed, padded to 32 |
| ScriptMain.LscpuPrintsPlan | numa_mask_gen.py:167-211 | with `--use-lscpu` the placement is built from the sockets, cores per socket and NUMA nodes that were read |
| PackageMain.Run | numa_mask_gen/__main__.py:56-57 | `--use-lscpu` ends in `NameError`, since `CPU_Info` is not defined there |
| PackageMain.RejectsNonPositive | numa_mask_gen/__main__.py:95-103 | without `--use-lscpu` the run exits with status 1 exactly when a topology value is not positive, and with no other status |
| PackageMain.ZeroThreadsCrash | numa_mask_gen/__main__.py:123-125 | a valid topology with `--threads 0` fails in `range` |
| PackageMain.CpuListPrintsIds | numa_mask_gen/__main__.py:133-138 | `--cpu-list` prints the id list also without `--no-hyperthreads`; the ids are distinct and below totCores |
| PackageMain.PrintsPlan | numa_mask_gen/__main__.py:111-138 | on a valid topology with non-zero stride the selected form is printed, padded to `HexWidth(totCores)` |

## Left out

- Running `lscpu` (`subprocess.run`) is a parameter. `ScriptMain.Execute` receives the command's output as a sequence of lines, or `None` when the command could not be run. `splitlines` is not modelled.
- Bytes are modelled as characters. Keys and values are `string`s, and `strip` removes ASCII whitespace.
- Argument parsing (`argparse`) and the help texts are left out. A run starts from the parsed `Cli.Args`. A non-integer option value is an `argparse` error and is not modelled.
- `--verbose` and every write to standard error are left out: the warning and the diagnostics. They do not change standard output or the outcome. The newline `print` adds after the line is not part of `Printed`.
- When the command cannot be run, `__lscpu` prints an `ERROR: Error running 'lscpu'. (…)` line to standard output, with the operating system's message from `err.args[1]`, before `main` exits with status 1. The model's `Exit(1)` carries no printed text, because that message comes from the operating system. The model does not capture this line on standard output.
- Lscpu.CpuInfoOf: follows the corrected `__lscpu`, which gives up on a line without exactly one ':'. As written, the partial dictionary of the lines before it is returned; `Lscpu.CpuInfoOfAsWritten` models that reader.
- LscpuReader.ReadCpuInfo: implements the corrected `CPU_Info()` only. No method implements the as-written reader; it is modelled as the function `Lscpu.CpuInfoOfAsWritten`.
- ScriptMain.Execute: implements `main()` with the corrected `CPU_Info()`, so malformed output under `--use-lscpu` exits with status 1. As written, `main()` then raises `KeyError` instead. That run is the function `ScriptMain.RunAsWritten`, related to the corrected one by `ScriptMain.AsWrittenAgreesOnWellFormed`, `ScriptMain.AsWrittenNeverExitsOnOutput` and `ScriptMain.GarbageOutput`.
- ScriptMain.LscpuOutcomes: its "exit 1" case holds for the corrected reader; for `main()` as written, `ScriptMain.AsWrittenNeverExitsOnOutput` states the outcome instead.
- Lscpu.InfoOf: the text fields (architecture, vendor, caches, …) are only looked up, not stored. The `float` fields (`CPU MHz`, `CPU max MHz`, `CPU min MHz`, `BogoMIPS`) are only checked for presence: float parsing is not modelled, so a malformed float does not raise `ValueError` in the model. `Flags` is checked for presence, and its `split()` is not stored.
- Numerals.ParseNat: Python's `int()` also accepts surrounding whitespace, a sign and underscores. The model accepts digit strings only. So `ExpandRanges` rejects text that `int` would accept, such as " 3".
- Lscpu.FieldFailure: the `ValueError` of a failed conversion carries the field's value, not Python's message.
- NodeKeys.IsNumaCpuKey: the regular expression is modelled as the prefix predicate it amounts to with `re.match`. No regex engine is modelled.
- Placement.CoresPerZone: `int(totCores / memZones)` uses floating-point division. It is modelled as natural-number division, which agrees only while the operands are below 2^53, the range of real machines. Above that, Python rounds the quotient: for 2^53+1 cores in one zone it places `[0]` where the model places `0, 2^53`. Above about 1.8·10^308 the division raises `OverflowError`, which `Cli.Emit` does not produce. Neither the rounding nor the `OverflowError` is modelled.
- Render.HexWidth: `int(totCores / 4)` is the same floating-point division, also modelled as natural-number division. It is exact only below 2^53; the rounding above that (e.g. totCores = 2^55+7) and the `OverflowError` are not modelled.
- The constructor `CPU_Info()`, which assigns fields on `self`, is modelled as a method returning an immutable `Lscpu.CpuInfo` value, because nothing updates the record after construction.
- A negative topology value read from `lscpu` is impossible in the model, because the counts are digit strings.

## Findings

| source | as written | input that shows it | evidently intended | confidence | as-written member | corrected member |
|---|---|---|---|---|---|---|
| numa_mask_gen/numa_mask_gen.py:21-27 | a line without exactly one ':' raises a one-argument `ValueError`; the handler's `err.args[1]` then raises `IndexError` before `lscpu_dict = None`, and `finally: return` discards that exception, so the partial dict is returned and `__init__` fails with `KeyError` | `lscpu` printing the single line "garbage" | `__lscpu` returns None, so `CPU_Info().Error` is True and `main` exits with status 1 | not executed | LscpuLines.LineMapAsWritten, LscpuLines.AsWrittenKeepsPrefix, Lscpu.MalformedOutputRaises, ScriptMain.GarbageOutput | LscpuLines.LineMap, LscpuLines.LineMapDefined, Lscpu.CpuInfoOf |
