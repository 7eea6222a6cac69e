# Transpose kernels and L1 cache statistics, in Dafny

This project models the two sequential cores of a small cache-experiment
repository and proves properties about them.

- **`programs/tile.c`** holds two matrix transpose kernels. `transpose` copies
  an N×N row-major matrix into a second buffer with rows and columns swapped.
  `blocked_transpose` does the same by walking B×B tiles, and it clips the last
  tile of each row and column at N. The model also covers the loop in `main`
  that sets up the input. All of this is module `Tile` (`tile.dfy`).
- **`programs/l1_cache_arm64.py`** holds the statistics scraper that runs after
  a simulation:
  - `extract_l1_cache_stats` keeps the L1 instruction-cache and data-cache
    hit, miss and access counters of the statistics dump. It is modelled in
    module `Stats` (`stats.dfy`).
  - `calculate_cache_ratios` turns those counters into hit and miss
    percentages per cache. It is modelled in module `Ratios` (`ratios.dfy`).
  - `extract_hostseconds` finds the host time in seconds. It is modelled in
    module `Stats`.
  - The Python string operations these functions use (`strip`, `split`,
    `startswith`, `in`, `lower`) are modelled in module `Text` (`text.dfy`).
    Python's `None` next to a value is `Options.Option` (`options.dfy`).

Modelling choices:

- Buffers are sequences passed by value. `prior` is the output buffer as it
  is before a kernel runs, and each kernel returns the buffer as it is after.
  As a result the input is never written. The two buffers cannot alias either,
  just as in `main`, which allocates them separately. Elements are only
  copied, so their type is a parameter in place of `double`.
- A Python dict is a sequence of entries with unique names. The entries stay
  in the order their names were first inserted. Assigning to a name that is
  already present keeps its position and replaces its value. This is the order
  `items()` yields, and that order decides which counter wins in
  `calculate_cache_ratios`. `Stats.FirstLineOrder` ties it to the order of
  the lines in the statistics file.
- The statistics file is an `Option<seq<string>>` of lines. `None` stands for
  a file that does not exist.
- Python's `float()` is the parameter `parse: string -> Option<real>`. `None`
  stands for the `ValueError` path. Every property holds whatever `parse`
  accepts.
- Numbers are exact `real`s, so a percentage is exact.

The central results:

- `Tile.BlockedTranspose` leaves exactly the buffer `Tile.Transpose` leaves,
  for every positive block size, whether or not B divides N. Its ghost trace
  shows that every cell is copied exactly once.
- `Stats.ExtractL1CacheStats` keeps a counter exactly when some line of the
  file contributes it. When a counter appears on several lines, the last one
  wins. The counters are listed in the order of the lines that first
  contribute them.
- `Ratios.CacheRatioOf` reports a cache exactly when the hits or the misses
  were found and the total is positive. When the total is back-filled as
  hits + misses, the two percentages add up to exactly 100.

## Model

| member | source | states |
|---|---|---|
| Tile.IndexBounds | programs/tile.c:26 | For 0 ≤ i, j < N, the slot i*N + j lies in [0, N*N). Every read and every write of both kernels is therefore in bounds. |
| Tile.IndexInjective | programs/tile.c:16 | Distinct cells of an N×N matrix occupy distinct slots. A write to one cell never disturbs another. |
| Tile.TransposeOfIsUnique | programs/tile.c:23-29 | A buffer has output[c*N + r] == input[r*N + c] for all r, c < N and its prior contents from slot N*N on exactly when it equals the slot-by-slot reference `TransposeOf`. |
| Tile.CopyCell | programs/tile.c:16 | One copy `output[j*N + i] = input[i*N + j]` stays in bounds. After it, cell (i, j) counts as copied and nothing else changes. |
| Tile.Transpose | programs/tile.c:23-29 | After the row-by-row kernel, output[j*N + i] == input[i*N + j] for all i, j < N. Every slot from N*N on keeps its prior value. The result is the reference transpose. |
| Tile.CopyTileRow | programs/tile.c:15-17 | The innermost loop copies row i of the tile at (ii, jj), up to B columns clipped at N. Each cell is copied and visited once. |
| Tile.CopyTile | programs/tile.c:14-18 | The two inner loops copy the whole tile at (ii, jj), clipped at N. The tile then counts as copied, as do all tiles before it, and each of its cells was visited once. |
| Tile.BlockedTranspose | programs/tile.c:11-21 | For B > 0, the blocked kernel produces the same transpose, untouched slots included. Its ghost trace visits only cells of the matrix, every cell at least once, and no cell twice. This holds when B does not divide N. |
| Tile.BlockedMatchesPlain | programs/tile.c:11-29 | For every B > 0, `blocked_transpose` and `transpose` leave identical buffers. |
| Tile.InitInput | programs/tile.c:59-63 | The set-up loop of `main` leaves slot k of the N*N input holding k, which is the flat index i*N + j of its cell. |
| Tile.TransposedInitInput | programs/tile.c:59-67 | With that input, slot k of the transposed buffer holds the flat index of the mirror cell, row k % N and column k / N. That is, output[j*N + i] == i*N + j. |
| Text.TrimStart | programs/l1_cache_arm64.py:109 | Removes exactly the run of whitespace the string starts with. What remains is empty or starts with non-whitespace. |
| Text.TrimEnd | programs/l1_cache_arm64.py:109 | Removes exactly the run of whitespace the string ends with. What remains is empty or ends with non-whitespace. |
| Text.Strip | programs/l1_cache_arm64.py:109 | `strip()` returns a slice of the line with only whitespace around it. The slice is empty or starts and ends with non-whitespace. |
| Text.Split | programs/l1_cache_arm64.py:111 | `line.split()` loses nothing but whitespace: its fields, joined in order, are exactly the characters of the line that are not whitespace. |
| Text.SplitYieldsWords | programs/l1_cache_arm64.py:111 | Every field `split()` yields is non-empty and has no whitespace. |
| Text.SplitFirstField | programs/l1_cache_arm64.py:111-113 | A string that starts with non-whitespace has a first field, and that field begins with the string's first character. |
| Text.SplitFirstWord | programs/l1_cache_arm64.py:111 | A word followed by whitespace is the first field `split()` yields, and the fields after it are those found from the end of that word. |
| Text.SplitLeading | programs/l1_cache_arm64.py:111-115 | A word, whitespace, a second word, then nothing or whitespace: `split()` yields at least two fields, and they are the two words. |
| Text.SplitTwoFields | programs/l1_cache_arm64.py:111-115 | The converse of `SplitLeading`: a string with at least two fields is whitespace, the first field, a non-empty run of whitespace, the second field, then nothing or a part that starts with whitespace. |
| Text.SplitOneWord | programs/l1_cache_arm64.py:111-112 | One word with only whitespace around it splits into exactly that word, so `len(parts) >= 2` fails for it. |
| Text.StripAfterSpace | programs/l1_cache_arm64.py:109 | For a string that starts with non-whitespace, `strip()` of it with whitespace in front removes exactly that whitespace at the front. |
| Text.TrimEndKeeps | programs/l1_cache_arm64.py:109 | Stripping the end never removes a character at or before the last non-whitespace one. |
| Text.TrimEndAfter | programs/l1_cache_arm64.py:109 | Stripping the end of a string whose front part ends in non-whitespace keeps that front part whole and some prefix of what follows it. |
| Text.StartsWithChar | programs/l1_cache_arm64.py:110 | `startswith('#')` holds exactly when the string is non-empty and its first character is `#`. |
| Text.ContainsIff | programs/l1_cache_arm64.py:110 | The left-to-right substring test `sub in s` holds exactly when `sub` occurs in `s` at some position. |
| Text.Lower | programs/l1_cache_arm64.py:175 | `lower()` keeps the length of the string. |
| Text.LowerIs | programs/l1_cache_arm64.py:175 | Under the modelled ASCII-only `lower()`, a string lower-cases to a word of lower-case ASCII letters exactly when it has that word's length and each of its characters is that word's letter in lower or upper case. |
| Stats.Get | programs/l1_cache_arm64.py:124 | A lookup finds a value exactly when the name is in the dict. With unique names, it returns the value stored under that name. |
| Stats.Put | programs/l1_cache_arm64.py:124 | `cache_stats[name] = value` appends a new name and keeps the position of a known one. Afterwards that name reads back the new value, and every other name reads what it did before. |
| Stats.PutKeepsUnique | programs/l1_cache_arm64.py:124 | Assigning into the dict never makes a name appear twice. |
| Stats.ParseRow | programs/l1_cache_arm64.py:108-117 | A line yields a row exactly when the stripped line is non-empty, does not start with `#`, has at least two fields, and its second field parses. The row's name is the first field, which is a word not starting with `#`. Its value is the parsed second field. |
| Stats.StripOfRow | programs/l1_cache_arm64.py:109 | `strip()` of a dump line (optional leading whitespace, the name, whitespace, the value, then nothing or whitespace and anything) keeps the name, the whitespace and the value, followed by nothing or by a part that starts with whitespace (such as `# description`). |
| Stats.RowRoundTrip | programs/l1_cache_arm64.py:109-117 | A dump line such as `name   value   # description` is read back as exactly that name with the parsed value. |
| Stats.RowShape | programs/l1_cache_arm64.py:109-117 | The converse of `RowRoundTrip`: every line that yields a row is such a dump line, made of whitespace, the row's name, whitespace, a value text that parses to the row's value, then nothing or a part that starts with whitespace. |
| Stats.OneFieldNoRow | programs/l1_cache_arm64.py:109-112 | A line holding a single word, such as `foo::bar`, with only whitespace around it yields no row, so it contributes no counter and no host time. |
| Stats.IsL1Counter | programs/l1_cache_arm64.py:119-123 | A name passes both filters exactly when `system.cpu.icache` or `system.cpu.dcache` occurs in it at some position, and one of `overallHits`, `overallMisses`, `overallAccesses`, `demandHits`, `demandMisses`, `demandAccesses` occurs in it at some position. |
| Stats.L1Row | programs/l1_cache_arm64.py:109-124 | A line contributes a counter exactly when it is a parsed row, the stripped line contains `::`, and the name lies in `system.cpu.icache` or `system.cpu.dcache` and contains one of the six overall/demand × Hits/Misses/Accesses keywords. The counter is then that parsed row. |
| Stats.L1RowAccepts | programs/l1_cache_arm64.py:109-124 | A dump line whose name contains `::` and passes both name filters contributes that counter with the parsed value, whatever whitespace and description surround it. |
| Stats.Collect | programs/l1_cache_arm64.py:107-124 | The loop's dict has unique names. A name is in it exactly when some row carries that name. |
| Stats.CollectOrder | programs/l1_cache_arm64.py:108-124 | Every name of the loop's dict is carried by some row, and the dict lists its names in the order of the rows that first carry them. |
| Stats.CollectLastWins | programs/l1_cache_arm64.py:124 | A name carried by several rows ends up with the value of the last of them. |
| Stats.ExtractL1CacheStats | programs/l1_cache_arm64.py:103-127 | A missing file gives an empty dict. Otherwise every kept name is an L1 counter, names are unique, and a name is kept exactly when some line of the file contributes it. |
| Stats.FirstLineOrder | programs/l1_cache_arm64.py:103-127 | Of two extracted counters, one comes before the other in `items()` order exactly when its first contributing line comes before the other's. |
| Stats.LastOccurrenceWins | programs/l1_cache_arm64.py:107-124 | When a counter appears on several lines, the extracted value is the one on the last line that contributes it. |
| Stats.HostRow | programs/l1_cache_arm64.py:165-176 | A line is a host-seconds row exactly when it is a parsed row whose name spells `hostseconds` letter by letter in either case. The value is then that row's parsed value. |
| Stats.HostRowAccepts | programs/l1_cache_arm64.py:164-176 | A dump line whose name lower-cases to `hostseconds` is a host-seconds row with the parsed value. No `::` is needed. |
| Stats.HostSecondsName | programs/l1_cache_arm64.py:175 | A name passes the `lower() == 'hostseconds'` test exactly when it has eleven characters and each is the letter of `hostseconds` at that position, in lower or upper case. |
| Stats.HostSecondsRow | programs/l1_cache_arm64.py:164-176 | The simulator's own dump line for `hostSeconds` is a host-seconds row with the parsed value. |
| Stats.FirstFound | programs/l1_cache_arm64.py:163-180 | The early-return loop yields the value of the first row found, or -1 when there is none. |
| Stats.ExtractHostSeconds | programs/l1_cache_arm64.py:161-180 | A missing file gives -1. A file without a host-seconds row gives -1. Otherwise the result is the value of the first host-seconds row; a row of that name whose value does not parse is passed over. |
| Ratios.KindOfOccurs | programs/l1_cache_arm64.py:138-144 | The elif chain takes a name for a counter of a cache only when the cache name occurs in it. It is a hits counter exactly when `Hits` also occurs, a misses counter exactly when `Misses` occurs and `Hits` does not, and an accesses counter exactly when `Accesses` occurs and neither `Hits` nor `Misses` does. |
| Ratios.LastOfKind | programs/l1_cache_arm64.py:137-144 | Finds the last entry in dict order that the elif chain takes for a counter kind, and no later entry is of that kind. The chain tests the cache name, then `Hits` before `Misses` before `Accesses`. None is returned only when no entry is of that kind. |
| Ratios.Scan | programs/l1_cache_arm64.py:135-144 | After the overwriting scan, each of `hits`, `misses` and `accesses` holds the value of the last entry of its kind, or `None`. |
| Ratios.Total | programs/l1_cache_arm64.py:146-148 | The divisor is the accesses counter when one was found. Otherwise it is hits + misses when both were found, and nothing when they were not. |
| Ratios.Percent | programs/l1_cache_arm64.py:151-152 | `x / a * 100` times `a` is 100·x, for a > 0. |
| Ratios.RatioAt | programs/l1_cache_arm64.py:151-157 | A missing or zero count is reported as 0. Each ratio times the total is 100 times its count, and the total is reported as given. |
| Ratios.RatioOf | programs/l1_cache_arm64.py:146-157 | No report without hits or misses. With an accesses counter, there is a report exactly when it is positive. Without one, there is a report exactly when both hits and misses exist with a positive sum, and the total is that sum. The reported counts and ratios are as in `RatioAt`. |
| Ratios.CacheRatioOf | programs/l1_cache_arm64.py:134-157 | The report for one cache is `RatioOf` applied to the last hits, misses and accesses entries of that cache in the dict. |
| Ratios.RatiosSumTo100 | programs/l1_cache_arm64.py:151-152 | Whenever the total equals hits + misses, hit ratio + miss ratio is exactly 100. |
| Ratios.BackfilledAccesses | programs/l1_cache_arm64.py:146-152 | Without an accesses entry, with both hits and misses present and a positive sum, the cache is reported. Its total is hits + misses and its two ratios add up to 100. |
| Ratios.NoReportWithoutCounts | programs/l1_cache_arm64.py:146-150 | A cache with neither hits nor misses, with a non-positive accesses counter, or with no accesses counter and a missing hits or misses counter gets no report. |
| Ratios.ReportIsReports | programs/l1_cache_arm64.py:153-157 | A report holds all five keys of its cache (`_hit_ratio`, `_miss_ratio`, `_hits`, `_misses`, `_total_accesses`) with their values, or none of them, and no other key. |
| Ratios.ReportKeysDisjoint | programs/l1_cache_arm64.py:132-157 | No key of the `icache` report can be a key of the `dcache` report. |
| Ratios.Report | programs/l1_cache_arm64.py:150-157 | A cache that is not reported adds no key. A reported cache adds exactly its five keys. |
| Ratios.CalculateCacheRatios | programs/l1_cache_arm64.py:129-159 | The ratios dict holds the `icache` report and the `dcache` report side by side, each complete or absent, and no other key. |

## Left out

- Simulator configuration (programs/l1_cache_arm64.py:1-97) and the argument count check: these are calls into the external simulator and process plumbing, with no logic visible here.
- Opening and reading the statistics file: the file is a list of lines, or `None` when it does not exist. Python's line reading and newline translation are not modelled, nor is the message "Stats file not found." that both readers print on the missing-file path (programs/l1_cache_arm64.py:126, :179), which is output only.
- Python's `float()`: it is the parameter `parse`, because its grammar (`inf`, `nan`, exponents, underscores) is not part of this logic.
- Printing the report (programs/l1_cache_arm64.py:186-216) and `print_transpose` (programs/tile.c:31-47): output only.
- `clock()`, `malloc`, `free` and `printf` in `main` (programs/tile.c:54-88): timing, allocation and output. In `main` the call to `blocked_transpose` is commented out, so only the plain kernel runs there. The blocked kernel is modelled as written.
- IEEE double arithmetic: ratios are exact reals, so `RatiosSumTo100` holds exactly, which rounded doubles need not.
- Tile.BlockedTranspose: requires B > 0 (or an empty matrix). The C code does not check this. With B ≤ 0 and N > 0 its tile loops never finish, or they index out of bounds.
- Tile.Transpose: N is a natural number and indices are unbounded integers. The C `int` products `i * N + j` would overflow for N above about 46 340, which the program (N = 1000) never reaches. A negative N makes the C loops do nothing and is not modelled.
- Text.Lower: only ASCII letters are folded. Python's full Unicode case mapping is not modelled. It only matters for names outside ASCII, which never lower-case to `hostseconds` anyway.
- Text.Split: its own contract fixes the characters of the fields, not where one field ends and the next begins. Where the first two fields lie is stated by `Text.SplitLeading` and its converse `Text.SplitTwoFields`, and the one-word case by `Text.SplitOneWord`. The scraper reads no field after the second.
- Text.Lower: its contract states only that the length is kept. What the host-seconds test needs of it is stated by `Text.LowerIs` and `Stats.HostSecondsName`.
