/** Command-line parsing of the SNP caller front end.

    The process is invoked as `prog -i <indexPrefix> -o <outputPrefix> [-e <exomeRegionFile>] [-v]`.
    The parser walks argv once from position 1. A flag that takes a value (-i, -o, -e)
    consumes the next argument as its value, so a value slot is never read as a flag.
    Every error ends the process with exit status 1; here each error site is one
    constructor of ParseError.

    argv is a sequence of strings, argc its length. The slot argv[argc] is the null
    pointer (section 5.1.2.2.1 of the C11 standard), so reading the value of a flag that
    is the last argument yields "absent": ArgAt returns None there. */
module CommandLine {

  datatype Option<T> = None | Some(value: T)

  /** The options record the parser fills in. A `char *` that may be NULL is an Option. */
  datatype InputOptions = InputOptions(
    resultPrefix: Option<string>,
    isExome: bool,
    exomeRegionFileName: Option<string>,
    verbose: bool)

  /** One constructor per `exit(1)` site of the parser, in source order. */
  datatype ParseError =
    | NoArguments
    | MultipleIndexes
    | MultipleOutputPrefixes
    | MultipleExomeRegionIndexes
    | InvalidArguments
    | MissingIndex
    | MissingOutputPrefix
    | IndexDirectoryMissing
    | OutputDirectoryMissing
  {
    /** The errors raised while scanning the flags (as opposed to the checks after the scan). */
    predicate IsScanError() {
      MultipleIndexes? || MultipleOutputPrefixes? || MultipleExomeRegionIndexes? || InvalidArguments?
    }

  }

  /** Success carries the index prefix (passed back by reference in the source) and the options. */
  datatype ParseResult = Ok(indexPrefix: string, options: InputOptions) | Err(error: ParseError)

  /** argv[j] for j <= argc: the null pointer at j == argc. */
  function ArgAt(args: seq<string>, j: nat): Option<string>
  {
    if j < |args| then Some(args[j]) else None
  }

  predicate KnownFlag(s: string) {
    s == "-i" || s == "-o" || s == "-e" || s == "-v"
  }

  predicate TakesValue(s: string) {
    s == "-i" || s == "-o" || s == "-e"
  }

  /** The error reported when the argument `s` is read at a flag position and is not acceptable there. */
  function ScanErrorFor(s: string): ParseError
  {
    if s == "-i" then MultipleIndexes
    else if s == "-o" then MultipleOutputPrefixes
    else if s == "-e" then MultipleExomeRegionIndexes
    else InvalidArguments
  }

  // ---------------------------------------------------------------------------------
  // Reference definition: argv is first split into tokens, then the tokens are validated.

  datatype ValueFlag = Index | Output | Exome

  function FlagName(f: ValueFlag): string
  {
    match f
    case Index => "-i"
    case Output => "-o"
    case Exome => "-e"
  }

  /** A flag read at position `at` of argv. */
  datatype Token =
    | Valued(at: nat, flag: ValueFlag, value: Option<string>)
    | Verbose(at: nat)
    | Unknown(at: nat, arg: string)

  /** How the argument at flag position k is read. */
  function Classify(args: seq<string>, k: nat): (t: Token)
    requires k < |args|
  {
    if args[k] == "-i" then Valued(k, Index, ArgAt(args, k + 1))
    else if args[k] == "-o" then Valued(k, Output, ArgAt(args, k + 1))
    else if args[k] == "-e" then Valued(k, Exome, ArgAt(args, k + 1))
    else if args[k] == "-v" then Verbose(k)
    else Unknown(k, args[k])
  }

  /** How many argv slots a token occupies. */
  function Width(t: Token): nat
  {
    if t.Valued? then 2 else 1
  }

  /** The tokens read when the scan starts at position i. */
  function TokensFrom(args: seq<string>, i: nat): seq<Token>
    decreases |args| - i
  {
    if i >= |args| then []
    else
      var t := Classify(args, i);
      [t] + TokensFrom(args, i + Width(t))
  }

  /** The tokens of the whole command line (position 0 is the program name). */
  function Tokens(args: seq<string>): seq<Token>
  {
    TokensFrom(args, 1)
  }

  predicate Has(toks: seq<Token>, f: ValueFlag)
  {
    exists k :: 0 <= k < |toks| && toks[k].Valued? && toks[k].flag == f
  }

  predicate HasVerbose(toks: seq<Token>)
  {
    exists k :: 0 <= k < |toks| && toks[k].Verbose?
  }

  /** The value carried by the last `f` token, or None when there is none. */
  function ValueOf(toks: seq<Token>, f: ValueFlag): Option<string>
  {
    if toks == [] then None
    else if toks[|toks| - 1].Valued? && toks[|toks| - 1].flag == f then toks[|toks| - 1].value
    else ValueOf(toks[..|toks| - 1], f)
  }

  /** Token k is rejected: an unknown flag, or a valued flag that already occurred. */
  predicate Offending(toks: seq<Token>, k: nat)
    requires k < |toks|
  {
    toks[k].Unknown? || (toks[k].Valued? && Has(toks[..k], toks[k].flag))
  }

  /** The first rejected token at or after j. */
  function FirstOffenseFrom(toks: seq<Token>, j: nat): (r: Option<nat>)
    requires j <= |toks|
    ensures r.Some? ==> j <= r.value < |toks| && Offending(toks, r.value)
    ensures r.Some? ==> forall k :: j <= k < r.value ==> !Offending(toks, k)
    ensures r.None? ==> forall k :: j <= k < |toks| ==> !Offending(toks, k)
    decreases |toks| - j
  {
    if j == |toks| then None
    else if Offending(toks, j) then Some(j)
    else FirstOffenseFrom(toks, j + 1)
  }

  function ScanError(t: Token): ParseError
  {
    if t.Valued? then ScanErrorFor(FlagName(t.flag)) else InvalidArguments
  }

  /** The outcome of parsing `args`, given which prefixes have an existing directory. */
  function Parse(args: seq<string>, dirOfPrefixExists: string -> bool): (r: ParseResult)
    ensures |args| <= 1 ==> r == Err(NoArguments)
    ensures r.Ok? ==> |args| > 1 && r.options.resultPrefix.Some?
    ensures r.Ok? ==> dirOfPrefixExists(r.indexPrefix) && dirOfPrefixExists(r.options.resultPrefix.value)
    ensures r.Ok? ==> (r.options.exomeRegionFileName.Some? ==> r.options.isExome)
  {
    if |args| <= 1 then Err(NoArguments)
    else
      var toks := Tokens(args);
      match FirstOffenseFrom(toks, 0)
      case Some(k) => Err(ScanError(toks[k]))
      case None =>
        var index := ValueOf(toks, Index);
        var output := ValueOf(toks, Output);
        if index.None? then Err(MissingIndex)
        else if output.None? then Err(MissingOutputPrefix)
        else if !dirOfPrefixExists(index.value) then Err(IndexDirectoryMissing)
        else if !dirOfPrefixExists(output.value) then Err(OutputDirectoryMissing)
        else
          ValueOfHas(toks, Exome);
          Ok(index.value, InputOptions(output, Has(toks, Exome), ValueOf(toks, Exome), HasVerbose(toks)))
  }

  // ---------------------------------------------------------------------------------
  // The parser as the source writes it: one pass over argv with early exits.

  method ParseCommandlineArguments(args: seq<string>, dirOfPrefixExists: string -> bool)
    returns (r: ParseResult)
    ensures |args| <= 1 ==> r == Err(NoArguments)
    ensures r == Parse(args, dirOfPrefixExists)
  {
    var indexPrefix: Option<string> := None;
    var options := InputOptions(None, false, None, false);
    if |args| <= 1 {
      return Err(NoArguments);
    }
    var i := 1;
    ghost var done: seq<Token> := [];
    while i < |args|
      invariant Scanned(args, i, done, indexPrefix, options)
      decreases |args| - i
    {
      ghost var t := Classify(args, i);
      var flag := args[i];
      if flag == "-i" {
        if indexPrefix.Some? {
          Rejected(args, i, done, indexPrefix, options, dirOfPrefixExists);
          return Err(MultipleIndexes);
        }
        AcceptIndex(args, i, done, indexPrefix, options);
        i := i + 1;
        indexPrefix := ArgAt(args, i);
      } else if flag == "-o" {
        if options.resultPrefix.Some? {
          Rejected(args, i, done, indexPrefix, options, dirOfPrefixExists);
          return Err(MultipleOutputPrefixes);
        }
        AcceptOutput(args, i, done, indexPrefix, options);
        i := i + 1;
        options := options.(resultPrefix := ArgAt(args, i));
      } else if flag == "-e" {
        if options.exomeRegionFileName.Some? {
          Rejected(args, i, done, indexPrefix, options, dirOfPrefixExists);
          return Err(MultipleExomeRegionIndexes);
        }
        AcceptExome(args, i, done, indexPrefix, options);
        i := i + 1;
        options := options.(exomeRegionFileName := ArgAt(args, i), isExome := true);
      } else if flag == "-v" {
        AcceptVerbose(args, i, done, indexPrefix, options);
        options := options.(verbose := true);
      } else {
        Rejected(args, i, done, indexPrefix, options, dirOfPrefixExists);
        return Err(InvalidArguments);
      }
      done := done + [t];
      i := i + 1;
    }
    AcceptedScan(args, i, done, indexPrefix, options, dirOfPrefixExists);
    if indexPrefix.None? {
      return Err(MissingIndex);
    }
    if options.resultPrefix.None? {
      return Err(MissingOutputPrefix);
    }
    if !dirOfPrefixExists(indexPrefix.value) {
      return Err(IndexDirectoryMissing);
    }
    if !dirOfPrefixExists(options.resultPrefix.value) {
      return Err(OutputDirectoryMissing);
    }
    return Ok(indexPrefix.value, options);
  }

  // ---------------------------------------------------------------------------------
  // Facts about token sequences used by the loop proof.

  /** The state of the scan before position i: `done` are the tokens read so far, none of
      them rejected, and the parser's variables hold what they record. */
  ghost predicate Scanned(args: seq<string>, i: nat, done: seq<Token>,
                          indexPrefix: Option<string>, options: InputOptions)
  {
    && 1 <= i <= |args| + 1
    && Tokens(args) == done + TokensFrom(args, i)
    && (forall k :: 0 <= k < |done| ==> !Offending(done, k))
    && (i <= |args| ==> forall f :: Has(done, f) ==> ValueOf(done, f).Some?)
    && indexPrefix == ValueOf(done, Index)
    && options.resultPrefix == ValueOf(done, Output)
    && options.exomeRegionFileName == ValueOf(done, Exome)
    && options.isExome == Has(done, Exome)
    && options.verbose == HasVerbose(done)
  }

  /** A rejected token at position i decides the outcome of the whole parse. */
  lemma Rejected(args: seq<string>, i: nat, done: seq<Token>, indexPrefix: Option<string>,
                 options: InputOptions, dirOfPrefixExists: string -> bool)
    requires i < |args| && Scanned(args, i, done, indexPrefix, options)
    requires var t := Classify(args, i); t.Unknown? || (t.Valued? && ValueOf(done, t.flag).Some?)
    ensures Parse(args, dirOfPrefixExists) == Err(ScanErrorFor(args[i]))
  {
    var t := Classify(args, i);
    var rest := TokensFrom(args, i);
    NextToken(args, i, done);
    assert Tokens(args)[|done|] == t;
    if t.Valued? {
      ValueOfHas(done, t.flag);
    }
    AppendToken(done, t);
    assert (done + rest)[..|done| + 1] == done + [t];
    OffendingPrefix(done + rest, |done| + 1, |done|);
    FirstOffenseIsNext(done, rest);
  }

  /** An accepted -i, -o or -e at position i: the token extends the accepted prefix, and
      every flag read so far has a value unless the scan has run past argv. */
  lemma AcceptValued(args: seq<string>, i: nat, done: seq<Token>, indexPrefix: Option<string>,
                     options: InputOptions)
    requires i < |args| && Scanned(args, i, done, indexPrefix, options)
    requires var t := Classify(args, i); t.Valued? && ValueOf(done, t.flag).None?
    ensures var t := Classify(args, i);
      && t.value == ArgAt(args, i + 1)
      && Tokens(args) == (done + [t]) + TokensFrom(args, i + 2)
      && (forall k :: 0 <= k < |done| + 1 ==> !Offending(done + [t], k))
      && (i + 2 <= |args| ==> forall f :: Has(done + [t], f) ==> ValueOf(done + [t], f).Some?)
  {
    var t := Classify(args, i);
    NextToken(args, i, done);
    assert Width(t) == 2;
    ExtendValued(done, t);
  }

  /** Appending an accepted value flag to an accepted prefix in which every flag has a value. */
  lemma ExtendValued(done: seq<Token>, t: Token)
    requires forall k :: 0 <= k < |done| ==> !Offending(done, k)
    requires forall f :: Has(done, f) ==> ValueOf(done, f).Some?
    requires t.Valued? && ValueOf(done, t.flag).None?
    ensures forall k :: 0 <= k < |done| + 1 ==> !Offending(done + [t], k)
    ensures t.value.Some? ==> forall f :: Has(done + [t], f) ==> ValueOf(done + [t], f).Some?
  {
    var next := done + [t];
    assert !Has(done, t.flag);
    ExtendAccepted(done, t);
    AppendToken(done, t);
    if t.value.Some? {
      forall f | Has(next, f)
        ensures ValueOf(next, f).Some?
      {
        if f != t.flag {
          assert Has(done, f);
        }
      }
    }
  }

  /** An accepted -i at position i records the next argument as the index prefix. */
  lemma AcceptIndex(args: seq<string>, i: nat, done: seq<Token>, indexPrefix: Option<string>,
                    options: InputOptions)
    requires i < |args| && Scanned(args, i, done, indexPrefix, options)
    requires args[i] == "-i" && indexPrefix.None?
    ensures Scanned(args, i + 2, done + [Classify(args, i)], ArgAt(args, i + 1), options)
  {
    AcceptValued(args, i, done, indexPrefix, options);
    AppendToken(done, Classify(args, i));
  }

  /** An accepted -o at position i records the next argument as the output prefix. */
  lemma AcceptOutput(args: seq<string>, i: nat, done: seq<Token>, indexPrefix: Option<string>,
                     options: InputOptions)
    requires i < |args| && Scanned(args, i, done, indexPrefix, options)
    requires args[i] == "-o" && options.resultPrefix.None?
    ensures Scanned(args, i + 2, done + [Classify(args, i)], indexPrefix,
                    options.(resultPrefix := ArgAt(args, i + 1)))
  {
    AcceptValued(args, i, done, indexPrefix, options);
    AppendToken(done, Classify(args, i));
  }

  /** An accepted -e at position i turns exome mode on and records the next argument. */
  lemma AcceptExome(args: seq<string>, i: nat, done: seq<Token>, indexPrefix: Option<string>,
                    options: InputOptions)
    requires i < |args| && Scanned(args, i, done, indexPrefix, options)
    requires args[i] == "-e" && options.exomeRegionFileName.None?
    ensures Scanned(args, i + 2, done + [Classify(args, i)], indexPrefix,
                    options.(exomeRegionFileName := ArgAt(args, i + 1), isExome := true))
  {
    AcceptValued(args, i, done, indexPrefix, options);
    AppendToken(done, Classify(args, i));
  }

  /** An accepted -v at position i turns verbose on. */
  lemma AcceptVerbose(args: seq<string>, i: nat, done: seq<Token>, indexPrefix: Option<string>,
                      options: InputOptions)
    requires i < |args| && Scanned(args, i, done, indexPrefix, options)
    requires Classify(args, i).Verbose?
    ensures Scanned(args, i + 1, done + [Classify(args, i)], indexPrefix, options.(verbose := true))
  {
    NextToken(args, i, done);
    ExtendAccepted(done, Classify(args, i));
    AppendToken(done, Classify(args, i));
  }

  /** Once the whole of argv is scanned without a rejection, `Parse` is the four checks,
      run on the parser's variables. */
  lemma AcceptedScan(args: seq<string>, i: nat, done: seq<Token>, indexPrefix: Option<string>,
                     options: InputOptions, dirOfPrefixExists: string -> bool)
    requires 1 < |args| <= i && Scanned(args, i, done, indexPrefix, options)
    ensures Parse(args, dirOfPrefixExists) ==
      if indexPrefix.None? then Err(MissingIndex)
      else if options.resultPrefix.None? then Err(MissingOutputPrefix)
      else if !dirOfPrefixExists(indexPrefix.value) then Err(IndexDirectoryMissing)
      else if !dirOfPrefixExists(options.resultPrefix.value) then Err(OutputDirectoryMissing)
      else Ok(indexPrefix.value, options)
  {
    assert Tokens(args) == done;
    assert FirstOffenseFrom(done, 0).None?;
  }

  lemma {:induction false} ValueOfHas(toks: seq<Token>, f: ValueFlag)
    ensures ValueOf(toks, f).Some? ==> Has(toks, f)
    decreases |toks|
  {
    if toks != [] {
      var n := |toks| - 1;
      if !(toks[n].Valued? && toks[n].flag == f) {
        ValueOfHas(toks[..n], f);
        if ValueOf(toks, f).Some? {
          var k :| 0 <= k < n && toks[..n][k].Valued? && toks[..n][k].flag == f;
          assert toks[k] == toks[..n][k];
        }
      }
    }
  }

  /** What appending one token does to the token-sequence summaries. */
  lemma AppendToken(toks: seq<Token>, t: Token)
    ensures forall f :: Has(toks + [t], f) == (Has(toks, f) || (t.Valued? && t.flag == f))
    ensures HasVerbose(toks + [t]) == (HasVerbose(toks) || t.Verbose?)
    ensures forall f :: ValueOf(toks + [t], f) == if t.Valued? && t.flag == f then t.value else ValueOf(toks, f)
    ensures forall k :: 0 <= k < |toks| ==> Offending(toks + [t], k) == Offending(toks, k)
    ensures Offending(toks + [t], |toks|) == (t.Unknown? || (t.Valued? && Has(toks, t.flag)))
  {
    var s := toks + [t];
    assert s[..|toks|] == toks;
    forall k | 0 <= k < |toks|
      ensures s[..k] == toks[..k]
    {
    }
    forall f
      ensures Has(s, f) == (Has(toks, f) || (t.Valued? && t.flag == f))
    {
      if Has(toks, f) {
        var k :| 0 <= k < |toks| && toks[k].Valued? && toks[k].flag == f;
        assert s[k] == toks[k];
      }
      if t.Valued? && t.flag == f {
        assert s[|toks|] == t;
      }
    }
    if HasVerbose(toks) {
      var k :| 0 <= k < |toks| && toks[k].Verbose?;
      assert s[k] == toks[k];
    }
    if t.Verbose? {
      assert s[|toks|] == t;
    }
  }

  /** The token the scan reads at position i follows the tokens read before it. */
  lemma NextToken(args: seq<string>, i: nat, done: seq<Token>)
    requires 1 <= i < |args|
    requires Tokens(args) == done + TokensFrom(args, i)
    ensures Tokens(args) == (done + [Classify(args, i)]) + TokensFrom(args, i + Width(Classify(args, i)))
  {
    var t := Classify(args, i);
    var later := TokensFrom(args, i + Width(t));
    assert TokensFrom(args, i) == [t] + later;
    Regroup(done, t, later);
  }

  lemma Regroup(front: seq<Token>, t: Token, back: seq<Token>)
    ensures front + ([t] + back) == (front + [t]) + back
  {
  }

  /** A known flag whose value flag was not read before extends the accepted prefix. */
  lemma ExtendAccepted(done: seq<Token>, t: Token)
    requires forall k :: 0 <= k < |done| ==> !Offending(done, k)
    requires !t.Unknown? && (t.Valued? ==> !Has(done, t.flag))
    ensures forall k :: 0 <= k < |done| + 1 ==> !Offending(done + [t], k)
  {
    AppendToken(done, t);
  }

  /** Whether token k is rejected depends only on the tokens up to k. */
  lemma OffendingPrefix(toks: seq<Token>, n: nat, k: nat)
    requires k < n <= |toks|
    ensures Offending(toks[..n], k) == Offending(toks, k)
  {
    assert toks[..n][..k] == toks[..k];
  }

  /** When every earlier token is accepted, a rejected next token is the first rejection. */
  lemma FirstOffenseIsNext(done: seq<Token>, rest: seq<Token>)
    requires forall k :: 0 <= k < |done| ==> !Offending(done, k)
    requires |rest| > 0 && Offending(done + rest, |done|)
    ensures FirstOffenseFrom(done + rest, 0) == Some(|done|)
  {
    var s := done + rest;
    forall k | 0 <= k < |done|
      ensures !Offending(s, k)
    {
      assert s[..|done|] == done;
      OffendingPrefix(s, |done|, k);
    }
  }

  // ---------------------------------------------------------------------------------
  // How the scan reads argv.

  /** The scan reads argv left to right: each token is the classification of its own
      position, tokens follow each other at the distance of their width, and together
      they cover every position from i on. */
  lemma {:induction false} TokensFromShape(args: seq<string>, i: nat)
    ensures var toks := TokensFrom(args, i);
      (|toks| > 0 <==> i < |args|)
      && (forall j :: 0 <= j < |toks| ==> i <= toks[j].at < |args| && toks[j] == Classify(args, toks[j].at))
      && (forall j, j' :: 0 <= j < j' < |toks| ==> toks[j].at + Width(toks[j]) <= toks[j'].at)
      && (forall j :: 0 <= j < |toks| - 1 ==> toks[j + 1].at == toks[j].at + Width(toks[j]))
      && (|toks| > 0 ==> toks[0].at == i && toks[|toks| - 1].at + Width(toks[|toks| - 1]) >= |args|)
    decreases |args| - i
  {
    if i < |args| {
      var t := Classify(args, i);
      var next := i + Width(t);
      TokensFromShape(args, next);
      var rest := TokensFrom(args, next);
      var toks := TokensFrom(args, i);
      assert toks == [t] + rest;
      forall j | 0 <= j < |toks|
        ensures i <= toks[j].at < |args| && toks[j] == Classify(args, toks[j].at)
      {
        if j > 0 {
          assert toks[j] == rest[j - 1];
        }
      }
      forall j, j' | 0 <= j < j' < |toks|
        ensures toks[j].at + Width(toks[j]) <= toks[j'].at
      {
        assert toks[j'] == rest[j' - 1];
        if j > 0 {
          assert toks[j] == rest[j - 1];
        }
      }
      forall j | 0 <= j < |toks| - 1
        ensures toks[j + 1].at == toks[j].at + Width(toks[j])
      {
        assert toks[j + 1] == rest[j];
        if j > 0 {
          assert toks[j] == rest[j - 1];
        }
      }
      if rest != [] {
        assert toks[|toks| - 1] == rest[|rest| - 1];
      }
    }
  }

  /** Token t reads argv position k, as its flag or as its value. */
  predicate ReadsPosition(t: Token, k: nat)
  {
    t.at == k || (t.Valued? && t.at + 1 == k)
  }

  /** No argument after the program name is skipped: each is read as a flag, or as the
      value of the flag just before it. */
  lemma {:induction false} EveryArgumentRead(args: seq<string>, i: nat, k: nat)
    requires 1 <= i <= k < |args|
    ensures exists j :: 0 <= j < |TokensFrom(args, i)| && ReadsPosition(TokensFrom(args, i)[j], k)
    decreases |args| - i
  {
    var t := Classify(args, i);
    var toks := TokensFrom(args, i);
    var next := i + Width(t);
    assert toks == [t] + TokensFrom(args, next);
    assert toks[0] == t;
    if k >= next {
      EveryArgumentRead(args, next, k);
      var rest := TokensFrom(args, next);
      var j :| 0 <= j < |rest| && ReadsPosition(rest[j], k);
      assert toks[j + 1] == rest[j];
    } else {
      assert ReadsPosition(toks[0], k);
    }
  }

  /** k is a position the scan reads as a flag. */
  ghost predicate IsFlagPosition(args: seq<string>, k: nat)
  {
    exists j :: 0 <= j < |Tokens(args)| && Tokens(args)[j].at == k
  }

  /** The scan reads the flag `name` at position k. */
  ghost predicate FlagAt(args: seq<string>, k: nat, name: string)
  {
    IsFlagPosition(args, k) && k < |args| && args[k] == name
  }

  /** The argument at flag position k is rejected: it is no known flag, or it is a valued
      flag that was already read at an earlier flag position. */
  ghost predicate OffendingAt(args: seq<string>, k: nat)
  {
    IsFlagPosition(args, k) && k < |args|
    && (!KnownFlag(args[k]) || (TakesValue(args[k]) && exists k': nat :: k' < k && FlagAt(args, k', args[k])))
  }

  /** The value slot of a valued flag is never itself read as a flag. */
  lemma ValueSlotIsNotAFlag(args: seq<string>, k: nat)
    requires FlagAt(args, k, "-i") || FlagAt(args, k, "-o") || FlagAt(args, k, "-e")
    ensures !IsFlagPosition(args, k + 1)
  {
    var toks := Tokens(args);
    TokensFromShape(args, 1);
  }

  /** Flag positions and tokens correspond one to one, and in the same order. */
  lemma TokenOrder(args: seq<string>, j: nat, j': nat)
    requires j < |Tokens(args)| && j' < |Tokens(args)|
    ensures Tokens(args)[j].at < Tokens(args)[j'].at <==> j < j'
    ensures Tokens(args)[j].at == Tokens(args)[j'].at <==> j == j'
  {
    TokensFromShape(args, 1);
    var toks := Tokens(args);
    if j < j' {
      assert toks[j].at + Width(toks[j]) <= toks[j'].at;
    } else if j' < j {
      assert toks[j'].at + Width(toks[j']) <= toks[j].at;
    }
  }

  /** Token j is a valued flag f exactly when the scan reads FlagName(f) at its position. */
  lemma TokenFlag(args: seq<string>, j: nat)
    requires j < |Tokens(args)|
    ensures var t := Tokens(args)[j];
      t.at < |args| && t == Classify(args, t.at) && IsFlagPosition(args, t.at)
      && (forall f :: (t.Valued? && t.flag == f) <==> args[t.at] == FlagName(f))
      && (t.Verbose? <==> args[t.at] == "-v")
      && (t.Unknown? <==> !KnownFlag(args[t.at]))
      && (t.Valued? ==> t.value == ArgAt(args, t.at + 1) && args[t.at] == FlagName(t.flag))
  {
    TokensFromShape(args, 1);
  }

  /** The rejection of token j is the rejection of its position. */
  lemma OffendingBridge(args: seq<string>, j: nat)
    requires j < |Tokens(args)|
    ensures Offending(Tokens(args), j) <==> OffendingAt(args, Tokens(args)[j].at)
  {
    var toks := Tokens(args);
    var k := toks[j].at;
    TokenFlag(args, j);
    if toks[j].Valued? {
      var f := toks[j].flag;
      if Has(toks[..j], f) {
        var j' :| 0 <= j' < j && toks[..j][j'].Valued? && toks[..j][j'].flag == f;
        assert toks[j'] == toks[..j][j'];
        TokenOrder(args, j', j);
        TokenFlag(args, j');
        assert FlagAt(args, toks[j'].at, args[k]);
      }
      if exists k': nat :: k' < k && FlagAt(args, k', args[k]) {
        var k': nat :| k' < k && FlagAt(args, k', args[k]);
        var j' :| 0 <= j' < |toks| && toks[j'].at == k';
        TokenOrder(args, j', j);
        TokenFlag(args, j');
        assert toks[..j][j'] == toks[j'];
      }
    }
  }

  /** No position is rejected exactly when no token is. */
  lemma NoOffenseBridge(args: seq<string>)
    ensures (forall k: nat :: !OffendingAt(args, k)) <==> FirstOffenseFrom(Tokens(args), 0).None?
  {
    var toks := Tokens(args);
    if FirstOffenseFrom(toks, 0).Some? {
      var j := FirstOffenseFrom(toks, 0).value;
      OffendingBridge(args, j);
    }
    if exists k: nat :: OffendingAt(args, k) {
      var k: nat :| OffendingAt(args, k);
      var j :| 0 <= j < |toks| && toks[j].at == k;
      OffendingBridge(args, j);
    }
  }

  /** Token t is the valued flag f. */
  predicate IsFlag(t: Token, f: ValueFlag)
  {
    t.Valued? && t.flag == f
  }

  /** A second occurrence of a valued flag is rejected. */
  lemma RepeatIsOffending(toks: seq<Token>, j: nat, j': nat, f: ValueFlag)
    requires j < j' < |toks| && IsFlag(toks[j], f) && IsFlag(toks[j'], f)
    ensures Offending(toks, j')
  {
    assert toks[..j'][j] == toks[j];
  }

  /** Among accepted tokens, each valued flag occurs at most once, and ValueOf is its value. */
  lemma UniqueValuedFlag(toks: seq<Token>, f: ValueFlag)
    requires forall k: nat :: 0 <= k < |toks| ==> !Offending(toks, k)
    ensures forall j, j' ::
      0 <= j < |toks| && 0 <= j' < |toks| && IsFlag(toks[j], f) && IsFlag(toks[j'], f) ==> j == j'
    ensures forall j :: 0 <= j < |toks| && IsFlag(toks[j], f) ==> ValueOf(toks, f) == toks[j].value
    ensures !Has(toks, f) ==> ValueOf(toks, f) == None
  {
    forall j, j' | 0 <= j < |toks| && 0 <= j' < |toks| && IsFlag(toks[j], f) && IsFlag(toks[j'], f)
      ensures j == j'
    {
      if j < j' {
        RepeatIsOffending(toks, j, j', f);
      } else if j' < j {
        RepeatIsOffending(toks, j', j, f);
      }
    }
    LastValue(toks, f);
  }

  /** ValueOf is the value of the last f token, and None when there is none. */
  lemma {:induction false} LastValue(toks: seq<Token>, f: ValueFlag)
    ensures !Has(toks, f) ==> ValueOf(toks, f) == None
    ensures Has(toks, f) ==>
      exists j :: 0 <= j < |toks| && IsFlag(toks[j], f) && ValueOf(toks, f) == toks[j].value
    decreases |toks|
  {
    if toks != [] {
      var n := |toks| - 1;
      var init := toks[..n];
      if IsFlag(toks[n], f) {
        assert ValueOf(toks, f) == toks[n].value;
      } else {
        LastValue(init, f);
        assert ValueOf(toks, f) == ValueOf(init, f);
        if Has(init, f) {
          var j :| 0 <= j < |init| && IsFlag(init[j], f) && ValueOf(init, f) == init[j].value;
          assert toks[j] == init[j];
        } else {
          forall k | 0 <= k < |toks|
            ensures !IsFlag(toks[k], f)
          {
            if k < n {
              assert toks[k] == init[k];
            }
          }
        }
      }
    }
  }

  /** The scan reads the valued flag f at position k and its value is there. */
  ghost predicate ValuedFlagAt(args: seq<string>, k: nat, f: ValueFlag)
  {
    FlagAt(args, k, FlagName(f)) && k + 1 < |args|
  }

  /** With no token rejected, what ValueOf and Has report for a valued flag, read at argv level:
      the flag occurs at most once, and its value is the argument after it. */
  lemma ValueAtFlag(args: seq<string>, f: ValueFlag)
    requires FirstOffenseFrom(Tokens(args), 0).None?
    ensures forall v :: ValueOf(Tokens(args), f) == Some(v) ==>
      exists k: nat :: ValuedFlagAt(args, k, f) && args[k + 1] == v
    ensures ValueOf(Tokens(args), f).None? <==> forall k: nat :: !ValuedFlagAt(args, k, f)
    ensures forall k: nat, k': nat :: FlagAt(args, k, FlagName(f)) && FlagAt(args, k', FlagName(f)) ==> k == k'
    ensures forall k: nat :: FlagAt(args, k, FlagName(f)) ==> ValueOf(Tokens(args), f) == ArgAt(args, k + 1)
    ensures Has(Tokens(args), f) <==> exists k: nat :: FlagAt(args, k, FlagName(f))
    ensures !Has(Tokens(args), f) ==> ValueOf(Tokens(args), f).None?
  {
    UniqueValuedFlag(Tokens(args), f);
    FlagValue(args, f);
    ValueFromFlag(args, f);
    FlagUnique(args, f);
    HasFlag(args, f);
  }

  /** Every flag position of f holds the recorded value right after it. */
  lemma FlagValue(args: seq<string>, f: ValueFlag)
    requires FirstOffenseFrom(Tokens(args), 0).None?
    ensures forall k: nat :: FlagAt(args, k, FlagName(f)) ==> ValueOf(Tokens(args), f) == ArgAt(args, k + 1)
  {
    var toks := Tokens(args);
    UniqueValuedFlag(toks, f);
    forall k: nat | FlagAt(args, k, FlagName(f))
      ensures ValueOf(toks, f) == ArgAt(args, k + 1)
    {
      var j :| 0 <= j < |toks| && toks[j].at == k;
      TokenFlag(args, j);
      assert IsFlag(toks[j], f);
    }
  }

  /** A recorded value comes from a flag position of f with an argument after it. */
  lemma ValueFromFlag(args: seq<string>, f: ValueFlag)
    ensures forall v :: ValueOf(Tokens(args), f) == Some(v) ==>
      exists k: nat :: ValuedFlagAt(args, k, f) && args[k + 1] == v
  {
    var toks := Tokens(args);
    forall v | ValueOf(toks, f) == Some(v)
      ensures exists k: nat :: ValuedFlagAt(args, k, f) && args[k + 1] == v
    {
      LastValue(toks, f);
      var j :| 0 <= j < |toks| && IsFlag(toks[j], f) && ValueOf(toks, f) == toks[j].value;
      TokenFlag(args, j);
      assert ValuedFlagAt(args, toks[j].at, f);
    }
  }

  /** With no token rejected, f is read at one flag position at most. */
  lemma FlagUnique(args: seq<string>, f: ValueFlag)
    requires FirstOffenseFrom(Tokens(args), 0).None?
    ensures forall k: nat, k': nat :: FlagAt(args, k, FlagName(f)) && FlagAt(args, k', FlagName(f)) ==> k == k'
  {
    var toks := Tokens(args);
    UniqueValuedFlag(toks, f);
    forall k: nat, k': nat | FlagAt(args, k, FlagName(f)) && FlagAt(args, k', FlagName(f))
      ensures k == k'
    {
      var j :| 0 <= j < |toks| && toks[j].at == k;
      var j' :| 0 <= j' < |toks| && toks[j'].at == k';
      TokenFlag(args, j);
      TokenFlag(args, j');
      assert IsFlag(toks[j], f) && IsFlag(toks[j'], f);
    }
  }

  /** f was read exactly when some flag position holds it. */
  lemma HasFlag(args: seq<string>, f: ValueFlag)
    ensures Has(Tokens(args), f) <==> exists k: nat :: FlagAt(args, k, FlagName(f))
  {
    var toks := Tokens(args);
    if Has(toks, f) {
      var j :| 0 <= j < |toks| && IsFlag(toks[j], f);
      assert IsFlag(toks[j], f);
      TokenFlag(args, j);
      assert FlagAt(args, toks[j].at, FlagName(f));
    }
    if exists k: nat :: FlagAt(args, k, FlagName(f)) {
      var k: nat :| FlagAt(args, k, FlagName(f));
      var j :| 0 <= j < |toks| && toks[j].at == k;
      TokenFlag(args, j);
      assert IsFlag(toks[j], f);
    }
  }

  /** Same as ValueAtFlag for the verbose flag. */
  lemma VerboseAtFlag(args: seq<string>)
    ensures HasVerbose(Tokens(args)) <==> exists k: nat :: FlagAt(args, k, "-v")
  {
    var toks := Tokens(args);
    if HasVerbose(toks) {
      var j :| 0 <= j < |toks| && toks[j].Verbose?;
      TokenFlag(args, j);
      assert FlagAt(args, toks[j].at, "-v");
    }
    if exists k: nat :: FlagAt(args, k, "-v") {
      var k: nat :| FlagAt(args, k, "-v");
      var j :| 0 <= j < |toks| && toks[j].at == k;
      TokenFlag(args, j);
    }
  }

  // ---------------------------------------------------------------------------------
  // What the parser promises, stated over argv.

  /** On success the index prefix is the argument right after the single -i flag, and its
      directory exists. */
  lemma OkIndex(args: seq<string>, dirOfPrefixExists: string -> bool)
    requires Parse(args, dirOfPrefixExists).Ok?
    ensures exists k: nat :: FlagAt(args, k, "-i") && k + 1 < |args| && args[k + 1] == Parse(args, dirOfPrefixExists).indexPrefix
    ensures forall k: nat, k': nat :: FlagAt(args, k, "-i") && FlagAt(args, k', "-i") ==> k == k'
    ensures dirOfPrefixExists(Parse(args, dirOfPrefixExists).indexPrefix)
  {
    ValueAtFlag(args, Index);
  }

  /** On success the output prefix is set, is the argument right after the single -o flag,
      and its directory exists. */
  lemma OkOutput(args: seq<string>, dirOfPrefixExists: string -> bool)
    requires Parse(args, dirOfPrefixExists).Ok?
    ensures var o := Parse(args, dirOfPrefixExists).options;
      o.resultPrefix.Some? && dirOfPrefixExists(o.resultPrefix.value)
      && exists k: nat :: FlagAt(args, k, "-o") && k + 1 < |args| && args[k + 1] == o.resultPrefix.value
    ensures forall k: nat, k': nat :: FlagAt(args, k, "-o") && FlagAt(args, k', "-o") ==> k == k'
  {
    ValueAtFlag(args, Output);
  }

  /** On success: every flag position holds a known flag; isExome is set exactly when an -e
      flag was read (even one without a file name after it), and the exome file name is the
      argument after it; verbose is set exactly when some -v was read. */
  lemma OkFlags(args: seq<string>, dirOfPrefixExists: string -> bool)
    requires Parse(args, dirOfPrefixExists).Ok?
    ensures forall k: nat :: IsFlagPosition(args, k) ==> k < |args| && KnownFlag(args[k])
    ensures var o := Parse(args, dirOfPrefixExists).options;
      (o.isExome <==> exists k: nat :: FlagAt(args, k, "-e"))
      && (forall k: nat :: FlagAt(args, k, "-e") ==> o.exomeRegionFileName == ArgAt(args, k + 1))
      && (!o.isExome ==> o.exomeRegionFileName.None?)
    ensures Parse(args, dirOfPrefixExists).options.verbose <==> exists k: nat :: FlagAt(args, k, "-v")
  {
    var toks := Tokens(args);
    assert FlagName(Exome) == "-e";
    ValueAtFlag(args, Exome);
    VerboseAtFlag(args);
    forall k: nat | IsFlagPosition(args, k)
      ensures k < |args| && KnownFlag(args[k])
    {
      var j :| 0 <= j < |toks| && toks[j].at == k;
      TokenFlag(args, j);
      assert !Offending(toks, j);
    }
  }

  /** Any rejected flag position makes the parse fail with a scan error. */
  lemma OffenceFails(args: seq<string>, dirOfPrefixExists: string -> bool, k: nat)
    requires OffendingAt(args, k)
    ensures Parse(args, dirOfPrefixExists).Err?
    ensures Parse(args, dirOfPrefixExists).error.IsScanError()
  {
    NoOffenseBridge(args);
    TokensFromShape(args, 1);
  }

  /** The first rejected flag position decides the error: a repeated -i, -o or -e gives the
      matching "multiple" error, anything else at a flag position gives InvalidArguments. */
  lemma FirstOffenceDecides(args: seq<string>, dirOfPrefixExists: string -> bool, k: nat)
    requires OffendingAt(args, k)
    requires forall k': nat :: k' < k ==> !OffendingAt(args, k')
    ensures Parse(args, dirOfPrefixExists) == Err(ScanErrorFor(args[k]))
  {
    var toks := Tokens(args);
    TokensFromShape(args, 1);
    var j :| 0 <= j < |toks| && toks[j].at == k;
    OffendingBridge(args, j);
    forall j' | 0 <= j' < j
      ensures !Offending(toks, j')
    {
      TokenOrder(args, j', j);
      OffendingBridge(args, j');
    }
    TokenFlag(args, j);
    var r := FirstOffenseFrom(toks, 0);
    assert r == Some(j);
  }

  /** Once the flags are accepted, the checks after the scan run in a fixed order: a missing
      index is reported first, then a missing output prefix. */
  lemma MissingChecksInOrder(args: seq<string>, dirOfPrefixExists: string -> bool)
    requires |args| > 1
    requires forall k: nat :: !OffendingAt(args, k)
    ensures (forall k: nat :: !ValuedFlagAt(args, k, Index))
      ==> Parse(args, dirOfPrefixExists) == Err(MissingIndex)
    ensures (exists k: nat :: ValuedFlagAt(args, k, Index)) && (forall k: nat :: !ValuedFlagAt(args, k, Output))
      ==> Parse(args, dirOfPrefixExists) == Err(MissingOutputPrefix)
  {
    NoOffenseBridge(args);
    ValueAtFlag(args, Index);
    ValueAtFlag(args, Output);
  }

  /** With both prefixes given, the index directory is checked before the output directory,
      and the parse succeeds when both exist. */
  lemma DirectoryChecksInOrder(args: seq<string>, dirOfPrefixExists: string -> bool, k: nat, k': nat)
    requires |args| > 1
    requires forall k: nat :: !OffendingAt(args, k)
    requires ValuedFlagAt(args, k, Index) && ValuedFlagAt(args, k', Output)
    ensures !dirOfPrefixExists(args[k + 1]) ==> Parse(args, dirOfPrefixExists) == Err(IndexDirectoryMissing)
    ensures dirOfPrefixExists(args[k + 1]) && !dirOfPrefixExists(args[k' + 1])
      ==> Parse(args, dirOfPrefixExists) == Err(OutputDirectoryMissing)
    ensures dirOfPrefixExists(args[k + 1]) && dirOfPrefixExists(args[k' + 1])
      ==> Parse(args, dirOfPrefixExists).Ok? && Parse(args, dirOfPrefixExists).indexPrefix == args[k + 1]
  {
    NoOffenseBridge(args);
    ValueAtFlag(args, Index);
    ValueAtFlag(args, Output);
  }

  // ---------------------------------------------------------------------------------
  // Concrete runs. Each is split into the tokens of its argv, the facts about those
  // tokens, and the outcome of Parse.

  /** Parse on an argv whose tokens are known, are all accepted and set both prefixes. */
  lemma ParseAccepts(args: seq<string>, toks: seq<Token>, dirOfPrefixExists: string -> bool,
                     index: string, output: string)
    requires |args| > 1 && Tokens(args) == toks && FirstOffenseFrom(toks, 0).None?
    requires ValueOf(toks, Index) == Some(index) && ValueOf(toks, Output) == Some(output)
    requires dirOfPrefixExists(index) && dirOfPrefixExists(output)
    ensures Parse(args, dirOfPrefixExists)
      == Ok(index, InputOptions(Some(output), Has(toks, Exome), ValueOf(toks, Exome), HasVerbose(toks)))
  {
  }

  lemma IndexMayLookLikeAFlagTokens()
    ensures Tokens(["snp", "-i", "-v", "-o", "out"]) == [Valued(1, Index, Some("-v")), Valued(3, Output, Some("out"))]
  {
    var args := ["snp", "-i", "-v", "-o", "out"];
    var toks := [Valued(1, Index, Some("-v")), Valued(3, Output, Some("out"))];
    assert Classify(args, 3) == toks[1];
    assert TokensFrom(args, 5) == [];
    assert TokensFrom(args, 3) == toks[1..];
    assert Classify(args, 1) == toks[0];
  }

  lemma IndexMayLookLikeAFlagScan(toks: seq<Token>)
    requires toks == [Valued(1, Index, Some("-v")), Valued(3, Output, Some("out"))]
    ensures FirstOffenseFrom(toks, 0).None?
    ensures ValueOf(toks, Index) == Some("-v") && ValueOf(toks, Output) == Some("out")
    ensures ValueOf(toks, Exome).None? && !Has(toks, Exome) && !HasVerbose(toks)
  {
    assert toks[..1] == [toks[0]];
    assert FirstOffenseFrom(toks, 0).None?;
    UniqueValuedFlag(toks, Index);
    assert IsFlag(toks[0], Index);
    UniqueValuedFlag(toks, Output);
    assert IsFlag(toks[1], Output);
    UniqueValuedFlag(toks, Exome);
  }

  /** A value slot is never read as a flag: `-i -v` makes "-v" the index. */
  lemma IndexMayLookLikeAFlag(dirOfPrefixExists: string -> bool)
    requires dirOfPrefixExists("-v") && dirOfPrefixExists("out")
    ensures Parse(["snp", "-i", "-v", "-o", "out"], dirOfPrefixExists)
      == Ok("-v", InputOptions(Some("out"), false, None, false))
  {
    var toks := [Valued(1, Index, Some("-v")), Valued(3, Output, Some("out"))];
    IndexMayLookLikeAFlagTokens();
    IndexMayLookLikeAFlagScan(toks);
    ParseAccepts(["snp", "-i", "-v", "-o", "out"], toks, dirOfPrefixExists, "-v", "out");
  }

  lemma TrailingExomeFlagTokens()
    ensures Tokens(["snp", "-i", "ref", "-o", "out", "-e"])
      == [Valued(1, Index, Some("ref")), Valued(3, Output, Some("out")), Valued(5, Exome, None)]
  {
    var args := ["snp", "-i", "ref", "-o", "out", "-e"];
    var toks := [Valued(1, Index, Some("ref")), Valued(3, Output, Some("out")), Valued(5, Exome, None)];
    assert Classify(args, 5) == toks[2];
    assert TokensFrom(args, 5) == toks[2..];
    assert Classify(args, 3) == toks[1];
    assert TokensFrom(args, 3) == toks[1..];
    assert Classify(args, 1) == toks[0];
  }

  lemma TrailingExomeFlagScan(toks: seq<Token>)
    requires toks == [Valued(1, Index, Some("ref")), Valued(3, Output, Some("out")), Valued(5, Exome, None)]
    ensures FirstOffenseFrom(toks, 0).None?
    ensures ValueOf(toks, Index) == Some("ref") && ValueOf(toks, Output) == Some("out")
    ensures ValueOf(toks, Exome).None? && Has(toks, Exome) && !HasVerbose(toks)
  {
    assert toks[..1] == [toks[0]];
    assert toks[..2] == [toks[0], toks[1]];
    assert FirstOffenseFrom(toks, 0).None?;
    UniqueValuedFlag(toks, Index);
    assert IsFlag(toks[0], Index);
    UniqueValuedFlag(toks, Output);
    assert IsFlag(toks[1], Output);
    UniqueValuedFlag(toks, Exome);
    assert IsFlag(toks[2], Exome);
  }

  /** A trailing -e has no file name, yet still turns exome mode on. */
  lemma TrailingExomeFlag(dirOfPrefixExists: string -> bool)
    requires dirOfPrefixExists("ref") && dirOfPrefixExists("out")
    ensures Parse(["snp", "-i", "ref", "-o", "out", "-e"], dirOfPrefixExists)
      == Ok("ref", InputOptions(Some("out"), true, None, false))
  {
    var toks := [Valued(1, Index, Some("ref")), Valued(3, Output, Some("out")), Valued(5, Exome, None)];
    TrailingExomeFlagTokens();
    TrailingExomeFlagScan(toks);
    ParseAccepts(["snp", "-i", "ref", "-o", "out", "-e"], toks, dirOfPrefixExists, "ref", "out");
  }

  /** A trailing -i has no value, so the index counts as missing. */
  lemma TrailingIndexFlag(dirOfPrefixExists: string -> bool)
    ensures Parse(["snp", "-o", "out", "-i"], dirOfPrefixExists) == Err(MissingIndex)
  {
    var args := ["snp", "-o", "out", "-i"];
    assert TokensFrom(args, 3) == [Valued(3, Index, None)];
    assert Tokens(args) == [Valued(1, Output, Some("out")), Valued(3, Index, None)];
  }

  /** A second -i is rejected even when an unknown flag follows it. */
  lemma RepeatedIndex(dirOfPrefixExists: string -> bool)
    ensures Parse(["snp", "-i", "a", "-i", "b", "-x"], dirOfPrefixExists) == Err(MultipleIndexes)
  {
    var args := ["snp", "-i", "a", "-i", "b", "-x"];
    var toks := [Valued(1, Index, Some("a")), Valued(3, Index, Some("b")), Unknown(5, "-x")];
    assert TokensFrom(args, 5) == [Unknown(5, "-x")];
    assert TokensFrom(args, 3) == toks[1..];
    assert Tokens(args) == toks;
    RepeatIsOffending(toks, 0, 1, Index);
    FirstOffenseIsNext(toks[..1], toks[1..]);
    assert toks[..1] + toks[1..] == toks;
  }

  lemma VerboseRepeatsTokens()
    ensures Tokens(["snp", "-v", "-i", "ref", "-o", "out", "-v"])
      == [Verbose(1), Valued(2, Index, Some("ref")), Valued(4, Output, Some("out")), Verbose(6)]
  {
    var args := ["snp", "-v", "-i", "ref", "-o", "out", "-v"];
    var toks := [Verbose(1), Valued(2, Index, Some("ref")), Valued(4, Output, Some("out")), Verbose(6)];
    assert Classify(args, 6) == toks[3];
    assert TokensFrom(args, 6) == toks[3..];
    assert Classify(args, 4) == toks[2];
    assert TokensFrom(args, 4) == toks[2..];
    assert Classify(args, 2) == toks[1];
    assert TokensFrom(args, 2) == toks[1..];
    assert Classify(args, 1) == toks[0];
  }

  lemma VerboseRepeatsScan(toks: seq<Token>)
    requires toks == [Verbose(1), Valued(2, Index, Some("ref")), Valued(4, Output, Some("out")), Verbose(6)]
    ensures FirstOffenseFrom(toks, 0).None?
    ensures ValueOf(toks, Index) == Some("ref") && ValueOf(toks, Output) == Some("out")
    ensures ValueOf(toks, Exome).None? && !Has(toks, Exome) && HasVerbose(toks)
  {
    assert toks[..2] == [toks[0], toks[1]];
    assert FirstOffenseFrom(toks, 0).None?;
    UniqueValuedFlag(toks, Index);
    assert IsFlag(toks[1], Index);
    UniqueValuedFlag(toks, Output);
    assert IsFlag(toks[2], Output);
    UniqueValuedFlag(toks, Exome);
    assert toks[0].Verbose?;
  }

  /** -v may repeat without error. */
  lemma VerboseRepeats(dirOfPrefixExists: string -> bool)
    requires dirOfPrefixExists("ref") && dirOfPrefixExists("out")
    ensures Parse(["snp", "-v", "-i", "ref", "-o", "out", "-v"], dirOfPrefixExists)
      == Ok("ref", InputOptions(Some("out"), false, None, true))
  {
    var toks := [Verbose(1), Valued(2, Index, Some("ref")), Valued(4, Output, Some("out")), Verbose(6)];
    VerboseRepeatsTokens();
    VerboseRepeatsScan(toks);
    ParseAccepts(["snp", "-v", "-i", "ref", "-o", "out", "-v"], toks, dirOfPrefixExists, "ref", "out");
  }
}
