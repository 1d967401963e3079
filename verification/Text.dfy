/** C strings in character arrays, and the line splitter. */
module Text {
  import opened Results

  const NUL: char := '\0'

  /** The string a character buffer holds: everything before its first NUL. */
  function CStr(buf: seq<char>): string {
    if buf == [] || buf[0] == NUL then "" else [buf[0]] + CStr(buf[1..])
  }

  lemma {:induction false} CStrIs(buf: seq<char>, n: nat)
    requires n < |buf| && buf[n] == NUL && NUL !in buf[..n]
    ensures CStr(buf) == buf[..n]
  {
    if n > 0 {
      assert buf[0] in buf[..n];
      assert buf[..n][1..] == buf[1..][..n - 1];
      CStrIs(buf[1..], n - 1);
    }
  }

  lemma {:induction false} CStrEnd(buf: seq<char>)
    requires NUL in buf
    ensures |CStr(buf)| < |buf| && buf[|CStr(buf)|] == NUL && CStr(buf) == buf[..|CStr(buf)|] && NUL !in CStr(buf)
  {
    if buf[0] != NUL {
      CStrEnd(buf[1..]);
    }
  }

  method StrLen(buf: array<char>) returns (n: nat)
    requires NUL in buf[..]
    ensures n == |CStr(buf[..])| < buf.Length && buf[n] == NUL && CStr(buf[..]) == buf[..n] && NUL !in buf[..n]
  {
    CStrEnd(buf[..]);
    n := 0;
    while buf[n] != NUL
      invariant n <= |CStr(buf[..])| && NUL !in buf[..n]
      decreases buf.Length - n
    {
      n := n + 1;
    }
    CStrIs(buf[..], n);
    assert buf[..][..n] == buf[..n];
  }

  /** Index of the first c in s, or |s|. */
  function IndexOf(s: string, c: char): (i: nat)
    ensures i <= |s| && c !in s[..i] && (i < |s| ==> s[i] == c)
  {
    if s == "" || s[0] == c then 0 else 1 + IndexOf(s[1..], c)
  }

  /** A line that a newline ended, less one carriage return. */
  function Chomp(line: string): string {
    if line != "" && line[|line| - 1] == '\r' then line[..|line| - 1] else line
  }

  /** The lines cl_txt_pos_line delivers one after the other. */
  function Lines(text: string): (lines: seq<string>)
    ensures |lines| > 0
    decreases |text|
  {
    var i := IndexOf(text, '\n');
    if i == |text| then [text] else [Chomp(text[..i])] + Lines(text[i + 1..])
  }

  /** Copy the line of `text` that begins at p; the offset of the next line, 0 after the last one, -1 for bad
      arguments. `max` does not limit the copy. */
  method PosLine(dst: array?<char>, max: nat, text: Option<string>, p: nat) returns (off: int)
    requires text.Some? ==> p <= |text.value| && NUL !in text.value
    requires dst != null && text.Some? ==> IndexOf(text.value[p..], '\n') < dst.Length
    modifies dst
    ensures off == -1 <==> dst == null || max < 1 || text.None?
    ensures off == -1 && dst != null ==> dst[..] == old(dst[..])
    ensures off != -1 ==> NUL in dst[..]
    ensures off != -1 ==>
              var src := text.value; var i := IndexOf(src[p..], '\n');
              if p + i == |src| then off == 0 && CStr(dst[..]) == src[p..]
              else off == i + 1 && CStr(dst[..]) == Chomp(src[p..p + i])
  {
    if text.None? || dst == null || max < 1 { return -1; }
    var src := text.value;
    ghost var i := IndexOf(src[p..], '\n');
    off := 0;
    var s := p;
    while s < |src|
      invariant s == p + off <= |src| && off <= i
      invariant dst[..] == old(dst[..])
    {
      if src[s] == '\n' {
        assert src[p..][off] == '\n' && off == i;
        CopyString(dst, src, p, off);
        CStrIs(dst[..], off);
        assert dst[..][..off] == src[p..p + i];
        if off > 0 && dst[off - 1] == '\r' {
          dst[off - 1] := NUL;
          CStrIs(dst[..], off - 1);
          assert dst[..][..off - 1] == src[p..p + i][..off - 1];
        }
        return off + 1;
      }
      s := s + 1;
      off := off + 1;
    }
    CopyString(dst, src, p, off);
    CStrIs(dst[..], off);
    assert dst[..][..off] == src[p..];
    return 0;
  }

  /** strncpy of n characters, then a NUL. */
  method CopyString(dst: array<char>, src: string, p: nat, n: nat)
    requires p + n <= |src| && n < dst.Length && NUL !in src
    modifies dst
    ensures dst[..n] == src[p..p + n] && dst[n] == NUL && NUL !in dst[..][..n]
  {
    forall k | 0 <= k < n {
      dst[k] := src[p + k];
    }
    dst[n] := NUL;
    assert dst[..][..n] == dst[..n];
  }
}
