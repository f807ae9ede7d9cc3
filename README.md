# SNP caller front end: argument parsing and derived file names

This project models the front end of `snapshotSnpcaller`, the last stage of a SNP-calling
pipeline. The front end reads the command line
`prog -i <indexPrefix> -o <outputPrefix> [-e <exomeRegionFile>] [-v]` and builds the names
of the files the run reads and writes. It proves properties of that model in Dafny.

- `cmdline.dfy`, module `CommandLine`: `parseCommandlineArguments`.
  - `ParseCommandlineArguments` is the source's loop over argv. A flag that takes a value
    moves the index past its value, as `args[++i]` does. Each `exit(1)` site is one
    constructor of `ParseError`.
  - `Parse` is the reference definition it is proved equal to. It splits argv into tokens
    (`Tokens`: the positions the scan reads as flags, each with its value), finds the first
    rejected token, and then runs the four checks that follow the loop.
  - The lemmas restate what `Parse` does in terms of argv positions. `IsFlagPosition`,
    `FlagAt` and `OffendingAt` say which argument is read as a flag and which is rejected.
  - `argv[argc]` is the null pointer (section 5.1.2.2.1 of the C11 standard). `ArgAt`
    models reading it as `None`. So a trailing `-i` or `-o` leads to the "missing" error.
    A trailing `-e` still turns exome mode on, with no file name.
  - `dirOfPrefixExists` is a parameter of type `string -> bool`. Nothing is assumed about it.
- `cstrings.dfy`, module `CStrings`: NUL-terminated strings. `Read` gives the C string a
  buffer holds (what `strlen` and `printf("%s")` see). `CopyCString` is `strcpy` into an
  array at an offset.
- `filenames.dfy`, module `FileNames`: the four names built as prefix plus suffix in
  `malloc`'d buffers. `SuffixedName` requires the buffer's slack to hold the suffix and the
  terminator. Each call site passes the source's constants, so Dafny checks every site
  against that bound.

Where the parser's "Multiple ..." checks test whether the earlier value is non-null, `Parse`
rejects any second occurrence of the flag. The two agree, because a null value comes only from
a flag that is the last argument, and no flag can follow that one. The loop invariant of
`ParseCommandlineArguments` carries this fact.

## Model

| member | source | states |
|---|---|---|
| CommandLine.Parse | snapshotSnpcaller.cpp:41-109 | one argument or none is a usage error; success implies an output prefix is set, both prefix directories exist, and an exome file name only comes with exome mode on |
| CommandLine.ParseCommandlineArguments | snapshotSnpcaller.cpp:41-109 | the source's loop with early exits returns exactly the reference outcome `Parse` for every argv and directory predicate; with `argn <= 1` it is the usage error |
| CommandLine.FirstOffenseFrom | snapshotSnpcaller.cpp:54-86 | the error the scan stops at is the first rejected token: that token is rejected and no earlier one is; when none is found, no token is rejected |
| CommandLine.TokensFromShape | snapshotSnpcaller.cpp:54-86 | the scan reads argv from position 1 left to right; each token is the classification of its own position, and each token starts exactly where the one before it ends (2 positions after -i/-o/-e, 1 otherwise), and the last one ends at or past the end of argv |
| CommandLine.EveryArgumentRead | snapshotSnpcaller.cpp:54-86 | no argument after the program name is skipped: each is read as a flag or as the value of the flag just before it |
| CommandLine.ValueSlotIsNotAFlag | snapshotSnpcaller.cpp:57-77 | the argument after -i, -o or -e is never read as a flag |
| CommandLine.TokenFlag | snapshotSnpcaller.cpp:56-85 | a token is -i/-o/-e exactly when that string is at its position, -v likewise, any other string is an unknown flag, and a valued flag's value is the next argument or absent |
| CommandLine.OffendingBridge | snapshotSnpcaller.cpp:57-85 | a token is rejected exactly when its position holds an unknown flag or a -i/-o/-e already read at an earlier flag position |
| CommandLine.UniqueValuedFlag | snapshotSnpcaller.cpp:58-76 | when no token is rejected, each of -i, -o, -e occurs at most once and the recorded value is that occurrence's value |
| CommandLine.ValueAtFlag | snapshotSnpcaller.cpp:57-78 | when no token is rejected, a flag's recorded value is the argument after its single flag position, and it is absent exactly when that flag is missing or last |
| CommandLine.OkIndex | snapshotSnpcaller.cpp:57-63 | on success the index prefix is the argument right after the only -i, and its directory exists |
| CommandLine.OkOutput | snapshotSnpcaller.cpp:64-70 | on success the output prefix is set, is the argument right after the only -o, and its directory exists |
| CommandLine.OkFlags | snapshotSnpcaller.cpp:44-85 | on success every flag position holds -i, -o, -e or -v; isExome holds exactly when an -e was read, and the exome file name is the argument after it; verbose holds exactly when some -v was read |
| CommandLine.OffenceFails | snapshotSnpcaller.cpp:57-85 | an unknown flag or a repeated -i/-o/-e anywhere makes the parse fail with a scan error |
| CommandLine.FirstOffenceDecides | snapshotSnpcaller.cpp:57-85 | the first rejected flag position decides the error: "multiple indexes", "multiple output prefixes", "multiple exome region index" or "invalid arguments" |
| CommandLine.MissingChecksInOrder | snapshotSnpcaller.cpp:88-98 | after an accepted scan, a missing index is reported first, then a missing output prefix |
| CommandLine.DirectoryChecksInOrder | snapshotSnpcaller.cpp:100-108 | with both prefixes given, the index directory is checked before the output directory, and the parse succeeds when both exist |
| CommandLine.IndexMayLookLikeAFlag | snapshotSnpcaller.cpp:57-70 | `-i -v -o out` makes "-v" the index prefix and leaves verbose off |
| CommandLine.TrailingExomeFlag | snapshotSnpcaller.cpp:71-78 | a trailing `-e` sets isExome with no file name |
| CommandLine.TrailingIndexFlag | snapshotSnpcaller.cpp:57-92 | a trailing `-i` has no value and yields the missing-index error |
| CommandLine.RepeatedIndex | snapshotSnpcaller.cpp:57-62 | a second `-i` is rejected before a later unknown flag is looked at |
| CommandLine.VerboseRepeats | snapshotSnpcaller.cpp:79-80 | `-v` given twice, before and after the other flags, is accepted and sets verbose |
| CStrings.Read | snapshotSnpcaller.cpp:134-136 | the C string in a buffer is the prefix before the first NUL; it has no NUL, and a NUL follows it unless the buffer ends |
| CStrings.CopyCString | snapshotSnpcaller.cpp:135-136 | strcpy at an offset writes the source characters and a NUL there and changes nothing else |
| FileNames.SuffixedName | snapshotSnpcaller.cpp:134-136 | a buffer of strlen(prefix) plus slack holds prefix, suffix and NUL whenever the slack covers the suffix and the NUL, and it then reads as prefix followed by suffix |
| FileNames.IniFileName | snapshotSnpcaller.cpp:134-136 | `<program>.ini` in strlen+5 characters: the name reads back as the program name plus ".ini" and, with its terminator, fills the buffer exactly |
| FileNames.SnapshotFileName | snapshotSnpcaller.cpp:203-205 | `<outputPrefix>.snapshot` in strlen+10 characters: the name reads back correctly and, with its terminator, fills the buffer exactly |
| FileNames.TmpResultFileName | snapshotSnpcaller.cpp:223-226 | `<outputPrefix>.tmpresult` in strlen+12 characters: the name reads back correctly and leaves one character after its terminator |
| FileNames.ReportFileName | snapshotSnpcaller.cpp:224-227 | `<outputPrefix>.txt` in strlen+10 characters: the name reads back correctly and leaves five characters after its terminator |

## Left out

- The usage text and the error messages (snapshotSnpcaller.cpp:33-39 and each `fprintf`): this is output only.
- `exit(1)`: the model returns an `Err` value instead. Nothing after the exit is modelled.
- `dirOfPrefixExists`: the file-system query is a parameter, not a model of path handling.
- The SIGSEGV handler and its registration (snapshotSnpcaller.cpp:10-31, 114-120): these are operating-system signals and `backtrace`.
- `ParseIniFile`, `processIndexFileName`, `loadIndex`, `BWTFree`, `HSPFree`, `readSnpInfoSnapshot`, `prefill_likelihood_cache_with_p_err`, `selectPossibleSNPs` and `calRFpedictProb`: their source is not part of this model.
- Loading the exome region file (snapshotSnpcaller.cpp:172-193): binary `fread` I/O whose return values the source does not check.
- Timing and progress output, `remove`, `free` and the `destroy*` teardown: these are clocks, console I/O and resource release.
- `argc == 0`: `main` calls `strlen(argv[0])` on the null pointer before parsing. `IniFileName` takes the program name as a string, so that case is not modelled. The parser itself maps `argn <= 1` to the usage error.
- Byte width: characters are Dafny `char`.
- `strcmp` in the parser: `Parse` and `ParseCommandlineArguments` take any strings and compare them whole with `==`. That agrees with `strcmp` only on NUL-free strings, which C guarantees for argv. On a string with an embedded NUL, such as `"-i\0"`, the model reads an unknown flag where `strcmp` would read `-i`. `FileNames` requires `NulFree` of its inputs explicitly.
- Allocation failure: the `malloc` calls at snapshotSnpcaller.cpp:203, 223 and 224 are unchecked, so a NULL result would make `sprintf` write through a null pointer. `SuffixedName` allocates with `new`, which never fails, so that case is not modelled. The `.ini` buffer (snapshotSnpcaller.cpp:134) comes from `xmalloc`, whose source is not part of this model.
- The file-name buffers are modelled as fresh arrays. Whatever `malloc` leaves after the terminator is not specified.
