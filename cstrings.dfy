/** C strings: characters followed by a NUL terminator in a character buffer, as strcpy,
    sprintf and strlen see them. */
module CStrings {

  const Nul: char := '\0'

  /** The characters of a C string never include its terminator. */
  predicate NulFree(s: string)
  {
    forall k :: 0 <= k < |s| ==> s[k] != Nul
  }

  /** The C string stored at the start of a buffer: the characters before the first NUL, or
      the whole buffer when it holds none. Its length is what strlen returns. */
  function Read(buf: seq<char>): (s: string)
    ensures |s| <= |buf| && s == buf[..|s|]
    ensures NulFree(s)
    ensures |s| < |buf| ==> buf[|s|] == Nul
  {
    if buf == [] || buf[0] == Nul then [] else [buf[0]] + Read(buf[1..])
  }

  lemma NulFreeConcat(a: string, b: string)
    requires NulFree(a) && NulFree(b)
    ensures NulFree(a + b)
  {
    forall k | 0 <= k < |a + b|
      ensures (a + b)[k] != Nul
    {
      if k >= |a| {
        assert (a + b)[k] == b[k - |a|];
      }
    }
  }

  /** A buffer that starts with the characters of s and a NUL holds the C string s,
      whatever follows the terminator. */
  lemma {:induction false} ReadTerminated(s: string, buf: seq<char>)
    requires NulFree(s)
    requires |s| < |buf| && buf[..|s|] == s && buf[|s|] == Nul
    ensures Read(buf) == s
    decreases |s|
  {
    if s != [] {
      assert buf[0] == s[0];
      assert buf[1..][..|s| - 1] == s[1..];
      ReadTerminated(s[1..], buf[1..]);
    }
  }

  /** strcpy(dst + offset, src): the characters of src and then a NUL are written from
      `offset` on, and nothing else in dst changes. */
  method CopyCString(dst: array<char>, offset: nat, src: string)
    requires NulFree(src)
    requires offset + |src| < dst.Length
    modifies dst
    ensures forall m :: 0 <= m < dst.Length ==>
      dst[m] == if offset <= m < offset + |src| then src[m - offset]
                else if m == offset + |src| then Nul
                else old(dst[m])
  {
    var k := 0;
    while k < |src|
      invariant 0 <= k <= |src|
      invariant forall m :: 0 <= m < dst.Length ==>
        dst[m] == if offset <= m < offset + k then src[m - offset] else old(dst[m])
    {
      dst[offset + k] := src[k];
      k := k + 1;
    }
    dst[offset + |src|] := Nul;
  }
}
