/** The file names the SNP caller derives from a prefix by appending a fixed suffix into a
    freshly allocated buffer of `strlen(prefix) + slack` characters:
    the configuration file `<program>.ini`, and `<outputPrefix>.snapshot`,
    `<outputPrefix>.tmpresult` and `<outputPrefix>.txt`. Each buffer must hold the name and
    its NUL terminator; the precondition of SuffixedName states that, and each of the four
    call sites below is checked against it. */
module FileNames {
  import opened CStrings

  const IniSuffix: string := ".ini"
  const IniSlack: nat := 5
  const SnapshotSuffix: string := ".snapshot"
  const SnapshotSlack: nat := 10
  const TmpResultSuffix: string := ".tmpresult"
  const TmpResultSlack: nat := 12
  const ReportSuffix: string := ".txt"
  const ReportSlack: nat := 10

  /** Allocates `|prefix| + slack` characters and writes prefix, suffix and a NUL into them.
      Both `strcpy(buf, prefix); strcpy(buf + strlen(prefix), suffix)` and
      `sprintf(buf, "%s<suffix>", prefix)` write exactly these characters. */
  method SuffixedName(prefix: string, suffix: string, slack: nat) returns (name: array<char>)
    requires NulFree(prefix) && NulFree(suffix)
    requires |suffix| + 1 <= slack
    ensures fresh(name)
    ensures name.Length == |prefix| + slack
    ensures name[..|prefix| + |suffix| + 1] == prefix + suffix + [Nul]
    ensures Read(name[..]) == prefix + suffix
  {
    name := new char[|prefix| + slack];
    CopyCString(name, 0, prefix);
    CopyCString(name, |prefix|, suffix);
    var n := |prefix| + |suffix|;
    assert name[..n + 1] == prefix + suffix + [Nul] by {
      forall m | 0 <= m < n + 1
        ensures name[..n + 1][m] == (prefix + suffix + [Nul])[m]
      {
        if m < |prefix| {
          assert (prefix + suffix + [Nul])[m] == prefix[m];
        } else if m < n {
          assert (prefix + suffix + [Nul])[m] == suffix[m - |prefix|];
        }
      }
    }
    NulFreeConcat(prefix, suffix);
    assert name[..][..n] == prefix + suffix;
    ReadTerminated(prefix + suffix, name[..]);
  }

  /** `<program>.ini`, in a buffer of strlen(program) + 5 characters: the name and its
      terminator fill the buffer exactly. */
  method IniFileName(programName: string) returns (name: array<char>)
    requires NulFree(programName)
    ensures fresh(name) && name.Length == |programName| + 5
    ensures Read(name[..]) == programName + ".ini"
    ensures |Read(name[..])| + 1 == name.Length
  {
    name := SuffixedName(programName, IniSuffix, IniSlack);
  }

  /** `<outputPrefix>.snapshot`, in a buffer of strlen(outputPrefix) + 10 characters: the
      name and its terminator fill the buffer exactly. */
  method SnapshotFileName(resultPrefix: string) returns (name: array<char>)
    requires NulFree(resultPrefix)
    ensures fresh(name) && name.Length == |resultPrefix| + 10
    ensures Read(name[..]) == resultPrefix + ".snapshot"
    ensures |Read(name[..])| + 1 == name.Length
  {
    name := SuffixedName(resultPrefix, SnapshotSuffix, SnapshotSlack);
  }

  /** `<outputPrefix>.tmpresult`, in a buffer of strlen(outputPrefix) + 12 characters: one
      character is left over after the terminator. */
  method TmpResultFileName(resultPrefix: string) returns (name: array<char>)
    requires NulFree(resultPrefix)
    ensures fresh(name) && name.Length == |resultPrefix| + 12
    ensures Read(name[..]) == resultPrefix + ".tmpresult"
    ensures |Read(name[..])| + 2 == name.Length
  {
    name := SuffixedName(resultPrefix, TmpResultSuffix, TmpResultSlack);
  }

  /** `<outputPrefix>.txt`, in a buffer of strlen(outputPrefix) + 10 characters: five
      characters are left over after the terminator. */
  method ReportFileName(resultPrefix: string) returns (name: array<char>)
    requires NulFree(resultPrefix)
    ensures fresh(name) && name.Length == |resultPrefix| + 10
    ensures Read(name[..]) == resultPrefix + ".txt"
    ensures |Read(name[..])| + 6 == name.Length
  {
    name := SuffixedName(resultPrefix, ReportSuffix, ReportSlack);
  }
}
