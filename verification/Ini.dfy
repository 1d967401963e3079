/** The INI lookup: one line matcher, and two front ends over it. */
module Ini {
  import opened Results
  import opened Text

  datatype FindRet = FR_FOUND | FR_NONE | FR_FAIL

  // What a line means.

  predicate Blank(c: char) {
    c == ' ' || c == '\t'
  }

  function TrimLeft(s: string): (r: string)
    ensures |r| <= |s|
  {
    if s != "" && Blank(s[0]) then TrimLeft(s[1..]) else s
  }

  function TrimRight(s: string): (r: string)
    ensures |r| <= |s|
  {
    if s != "" && Blank(s[|s| - 1]) then TrimRight(s[..|s| - 1]) else s
  }

  function Trim(s: string): (r: string)
    ensures |r| <= |s|
  {
    TrimRight(TrimLeft(s))
  }

  /** Empty lines and comments. */
  predicate IsSkipped(l: string) {
    l == "" || l[0] == ';' || l[0] == '#'
  }

  predicate IsHeader(l: string) {
    |l| >= 2 && l[0] == '[' && l[|l| - 1] == ']'
  }

  function HeaderName(l: string): string
    requires IsHeader(l)
  {
    l[1..|l| - 1]
  }

  predicate IsAssignment(l: string, key: string) {
    '=' in l && Trim(l[..IndexOf(l, '=')]) == key
  }

  function Assigned(l: string): string
    requires '=' in l
  {
    Trim(l[IndexOf(l, '=') + 1..])
  }

  /** Outcome of matching one line: the verdict, the section that is current afterwards, and the value found. */
  datatype Match = Match(ret: FindRet, cur: string, value: string)

  function MatchLine(raw: string, sec: Option<string>, cur: string, key: string): (m: Match)
    ensures m.ret.FR_FOUND? ==> |m.value| < |raw|
  {
    var l := raw[..IndexOf(raw, '\n')];
    if raw == "" then Match(FR_FAIL, cur, "")
    else if IsSkipped(l) then Match(FR_NONE, cur, "")
    else if IsHeader(l) then Match(if sec.None? then FR_FAIL else FR_NONE, HeaderName(l), "")
    else if sec.Some? && sec.value != cur then Match(FR_NONE, cur, "")
    else if !IsAssignment(l, key) then Match(FR_NONE, cur, "")
    else Match(FR_FOUND, cur, Assigned(l))
  }

  // The matcher, cutting the line up in place.

  lemma TrimLeftStep(s: string, k: nat)
    requires k < |s| && Blank(s[k])
    ensures TrimLeft(s[k..]) == TrimLeft(s[k + 1..])
  {
    assert s[k..][1..] == s[k + 1..];
  }

  lemma TrimRightStep(s: string)
    requires s != "" && Blank(s[|s| - 1])
    ensures TrimRight(s) == TrimRight(s[..|s| - 1])
  {}

  /** First non-blank position in line[from..lim]. */
  method SkipBlanks(line: array<char>, from: nat, lim: nat) returns (beg: nat)
    requires from <= lim < line.Length && line[lim] == NUL
    ensures from <= beg <= lim && line[beg..lim] == TrimLeft(line[from..lim])
  {
    ghost var s := line[from..lim];
    beg := from;
    while Blank(line[beg])
      invariant from <= beg <= lim
      invariant TrimLeft(s[beg - from..]) == TrimLeft(s)
      decreases lim + 1 - beg
    {
      assert beg != lim;
      TrimLeftStep(s, beg - from);
      beg := beg + 1;
    }
    assert s[beg - from..] == line[beg..lim];
  }

  /** End of line[beg..lim] without its trailing blanks, when it does not begin with a blank. */
  method SkipTrailing(line: array<char>, beg: nat, lim: nat) returns (end: nat)
    requires beg <= lim < line.Length && (beg < lim ==> !Blank(line[beg]))
    ensures beg <= end <= lim && line[beg..end] == TrimRight(line[beg..lim])
  {
    ghost var t := line[beg..lim];
    assert |t| == lim - beg && forall k :: 0 <= k < |t| ==> t[k] == line[beg + k];
    var last: int := lim - 1;
    assert t[..last + 1 - beg] == t;
    while last > beg && Blank(line[last])
      invariant beg - 1 <= last < lim
      invariant TrimRight(t[..last + 1 - beg]) == TrimRight(t)
    {
      ghost var u := t[..last + 1 - beg];
      assert u[last - beg] == t[last - beg] == line[last];
      TrimRightStep(u);
      assert u[..|u| - 1] == t[..last - beg];
      last := last - 1;
    }
    end := last + 1;
    ghost var rest := t[..end - beg];
    assert rest == line[beg..end];
    assert end > beg ==> rest[end - beg - 1] == t[last - beg] == line[last] && !Blank(line[last]);
    assert TrimRight(rest) == rest;
  }

  /** Skip blanks from both ends of line[from..lim] and end the string there: line[beg..end] is what remains. */
  method TrimCut(line: array<char>, from: nat, lim: nat) returns (beg: nat, end: nat)
    requires from <= lim < line.Length && line[lim] == NUL && NUL !in line[from..lim]
    modifies line
    ensures from <= beg <= end <= lim
    ensures line[..] == old(line[..])[end := NUL]
    ensures line[beg..end] == Trim(old(line[from..lim])) && NUL !in line[beg..end]
    ensures CStr(line[beg..]) == Trim(old(line[from..lim]))
  {
    ghost var s := line[from..lim];
    beg := SkipBlanks(line, from, lim);
    TrimLeftHead(s);
    assert beg < lim ==> line[beg..lim][0] == line[beg];
    end := SkipTrailing(line, beg, lim);
    assert line[beg..end] == Trim(s);
    TrimSubset(s);
    line[end] := NUL;
    assert line[beg..][..end - beg] == line[beg..end] == Trim(s);
    CStrIs(line[beg..], end - beg);
  }

  lemma {:induction false} TrimLeftHead(s: string)
    ensures TrimLeft(s) != "" ==> !Blank(TrimLeft(s)[0])
  {
    if s != "" && Blank(s[0]) {
      TrimLeftHead(s[1..]);
    }
  }

  lemma {:induction false} FirstIndex(s: string, c: char, i: nat)
    requires i < |s| && s[i] == c && c !in s[..i]
    ensures IndexOf(s, c) == i
  {
    if i > 0 {
      assert s[0] in s[..i];
      assert s[1..][..i - 1] == s[..i][1..];
      FirstIndex(s[1..], c, i - 1);
    }
  }

  /** Position of the first c in the string in buf, or its length. */
  method FindChar(buf: array<char>, c: char) returns (i: nat)
    requires NUL in buf[..] && c != NUL
    ensures i == IndexOf(CStr(buf[..]), c) <= |CStr(buf[..])| < buf.Length
  {
    CStrEnd(buf[..]);
    ghost var s := CStr(buf[..]);
    i := 0;
    while buf[i] != NUL && buf[i] != c
      invariant i <= |s| && c !in s[..i]
      decreases |s| - i
    {
      assert s[i] == buf[i];
      i := i + 1;
    }
    if i < |s| {
      assert s[i] == buf[i];
      FirstIndex(s, c, i);
    } else {
      assert s[..i] == s;
    }
  }

  /** Cut the string in line at its first newline. */
  method CutAtNewline(line: array<char>) returns (llen: nat)
    requires NUL in line[..]
    modifies line
    ensures var raw := old(CStr(line[..])); var l := raw[..IndexOf(raw, '\n')];
            llen == |l| < line.Length && line[llen] == NUL && line[..llen] == l && NUL !in l && CStr(line[..]) == l
  {
    ghost var raw := CStr(line[..]);
    CStrEnd(line[..]);
    llen := FindChar(line, '\n');
    line[llen] := NUL;
    assert line[..][..llen] == raw[..llen];
    CStrIs(line[..], llen);
    assert line[..llen] == line[..][..llen];
  }

  /** Copy a section name of n characters from line[1..] into the section buffer. */
  method CopyName(line: array<char>, n: nat, curSec: array<char>)
    requires n + 1 < line.Length && n < curSec.Length && line != curSec && NUL !in line[1..n + 1]
    modifies curSec
    ensures CStr(curSec[..]) == line[1..n + 1] && NUL in curSec[..]
  {
    forall i | 0 <= i < n {
      curSec[i] := line[1 + i];
    }
    curSec[n] := NUL;
    assert curSec[..][..n] == line[1..n + 1];
    CStrIs(curSec[..], n);
    assert curSec[..][n] == NUL;
  }

  /** Copy the value line[beg..end] and the NUL behind it. */
  method CopyValue(line: array<char>, beg: nat, end: nat, value: array<char>)
    requires beg <= end < line.Length && line[end] == NUL && NUL !in line[beg..end]
    requires end - beg < value.Length && value != line
    modifies value
    ensures CStr(value[..]) == line[beg..end] && NUL in value[..]
  {
    forall i | 0 <= i < end - beg + 1 {
      value[i] := line[beg + i];
    }
    assert value[..][..end - beg] == line[beg..end];
    assert value[..][end - beg] == NUL;
    CStrIs(value[..], end - beg);
  }

  /** Cut the line at its first '=' and compare what is left of it, trimmed, with the key. */
  method MatchKey(line: array<char>, llen: nat, key: string) returns (matched: bool, delimiter: nat)
    requires llen < line.Length && line[llen] == NUL && NUL !in line[..llen] && CStr(line[..]) == line[..llen]
    modifies line
    ensures delimiter == IndexOf(old(line[..llen]), '=') && matched == IsAssignment(old(line[..llen]), key)
    ensures matched ==> delimiter < llen && line[delimiter + 1..llen] == old(line[delimiter + 1..llen]) && line[llen] == NUL
  {
    ghost var l := line[..llen];
    delimiter := FindChar(line, '=');
    if delimiter == llen {
      assert l[..llen] == l;
      return false, delimiter;
    }
    assert l[delimiter] == '=' && '=' in l;
    line[delimiter] := NUL;
    assert line[0..delimiter] == l[..delimiter];
    assert forall c :: c in l[..delimiter] ==> c in l;
    ghost var was := line[..];
    var beg, end := TrimCut(line, 0, delimiter);
    assert line[delimiter + 1..llen] == line[..][delimiter + 1..llen] == was[delimiter + 1..llen];
    matched := CStr(line[beg..]) == key;
  }

  /** The assignment part: `line` holds a line that is neither skipped nor a header, in the right section. */
  method MatchAssignment(line: array<char>, llen: nat, key: string, value: array<char>) returns (ret: FindRet)
    requires llen < line.Length && line[llen] == NUL && NUL !in line[..llen] && CStr(line[..]) == line[..llen]
    requires value != line && (IsAssignment(line[..llen], key) ==> |Assigned(line[..llen])| < value.Length)
    modifies line, value
    ensures var l := old(line[..llen]);
            if IsAssignment(l, key) then ret.FR_FOUND? && CStr(value[..]) == Assigned(l) && NUL in value[..]
            else ret.FR_NONE? && value[..] == old(value[..])
  {
    ghost var l := line[..llen];
    var matched, delimiter := MatchKey(line, llen, key);
    if !matched {
      return FR_NONE;
    }
    assert line[delimiter + 1..llen] == l[delimiter + 1..];
    assert forall c :: c in l[delimiter + 1..] ==> c in l;
    var beg, end := TrimCut(line, delimiter + 1, llen);
    assert line[end] == line[..][end] == NUL;
    CopyValue(line, beg, end, value);
    return FR_FOUND;
  }

  lemma {:induction false} TrimLeftSubset(s: string)
    ensures forall c :: c in TrimLeft(s) ==> c in s
  {
    if s != "" && Blank(s[0]) {
      TrimLeftSubset(s[1..]);
    }
  }

  lemma {:induction false} TrimRightSubset(s: string)
    ensures forall c :: c in TrimRight(s) ==> c in s
  {
    if s != "" && Blank(s[|s| - 1]) {
      TrimRightSubset(s[..|s| - 1]);
    }
  }

  lemma TrimSubset(s: string)
    ensures forall c :: c in Trim(s) ==> c in s
  {
    TrimLeftSubset(s);
    TrimRightSubset(TrimLeft(s));
  }

  /** A value that was found fits, with its NUL, into the room there is. */
  predicate ValueFits(m: Match, room: nat) {
    m.ret.FR_FOUND? ==> |m.value| < room
  }

  /** The line matcher. Its verdict, the section buffer and the value buffer follow MatchLine. */
  method GetValue(line: array?<char>, sec: Option<string>, curSec: array<char>, key: string, value: array<char>)
    returns (ret: FindRet)
    requires line != null ==> NUL in line[..] && line != curSec && line != value
    requires NUL in curSec[..] && curSec != value && NUL !in key
    requires line != null ==> var raw := CStr(line[..]); var l := raw[..IndexOf(raw, '\n')];
                              IsHeader(l) ==> |HeaderName(l)| < curSec.Length
    requires line != null ==> ValueFits(MatchLine(CStr(line[..]), sec, CStr(curSec[..]), key), value.Length)
    modifies line, curSec, value
    ensures line == null ==> ret.FR_FAIL? && curSec[..] == old(curSec[..]) && value[..] == old(value[..])
    ensures line != null ==>
              var m := old(MatchLine(CStr(line[..]), sec, CStr(curSec[..]), key));
              && ret == m.ret && NUL in curSec[..] && CStr(curSec[..]) == m.cur
              && if ret.FR_FOUND? then CStr(value[..]) == m.value && NUL in value[..] else value[..] == old(value[..])
  {
    if line == null { return FR_FAIL; }
    ghost var raw, cur := CStr(line[..]), CStr(curSec[..]);
    var rawLen := StrLen(line);
    if rawLen < 1 { return FR_FAIL; }
    var llen := CutAtNewline(line);
    ghost var l := line[..llen];
    assert CStr(curSec[..]) == cur && l == raw[..IndexOf(raw, '\n')];
    assert l != "" ==> l[0] == line[0] && l[|l| - 1] == line[llen - 1];
    if line[0] == NUL || line[0] == ';' || line[0] == '#' { return FR_NONE; }
    if line[0] == '[' && line[llen - 1] == ']' {
      assert line[1..llen - 2 + 1] == HeaderName(l);
      CopyName(line, llen - 2, curSec);
      if sec.None? { return FR_FAIL; }
      return FR_NONE;
    }
    if sec.Some? && sec.value != CStr(curSec[..]) { return FR_NONE; }
    ghost var was := curSec[..];
    ret := MatchAssignment(line, llen, key, value);
    assert curSec[..] == was;
  }

  // The two front ends.

  const MAX_KLEN := 64
  const MAX_SLEN := 64
  const MAX_LINE_BYTE := 256
  const MAX_TXT_BYTE := 1048576

  /** Match line after line until one is found or one fails. */
  function Scan(lines: seq<string>, sec: Option<string>, cur: string, key: string): (r: Option<string>) {
    if lines == [] then None
    else
      var m := MatchLine(lines[0], sec, cur, key);
      match m.ret
      case FR_FOUND => Some(m.value)
      case FR_FAIL => None
      case FR_NONE => Scan(lines[1..], sec, m.cur, key)
  }

  /** Length of the piece fgets takes off a text: up to the first newline and with it, but at most 255 characters. */
  function PieceLen(text: string): (n: nat)
    requires text != ""
    ensures 0 < n < MAX_LINE_BYTE && n <= |text|
  {
    var i := IndexOf(text, '\n');
    if i < |text| && i + 1 <= MAX_LINE_BYTE - 1 then i + 1
    else if |text| < MAX_LINE_BYTE - 1 then |text|
    else MAX_LINE_BYTE - 1
  }

  /** What fgets with a 256-byte buffer delivers, piece by piece. */
  function Chunks(text: string): seq<string>
    decreases |text|
  {
    if text == "" then [] else [text[..PieceLen(text)]] + Chunks(text[PieceLen(text)..])
  }

  /** Arguments both front ends insist on. */
  predicate GoodNames(sec: Option<string>, key: string) {
    1 <= |key| <= MAX_KLEN && (sec.Some? ==> 1 <= |sec.value| <= MAX_SLEN)
  }

  /** The outcome of cl_ini_get2 on a text in memory. */
  function Lookup2(text: string, sec: Option<string>, key: string): Option<string> {
    if GoodNames(sec, key) && 1 <= |text| <= MAX_TXT_BYTE then Scan(Lines(text), sec, "", key) else None
  }

  /** The outcome of cl_ini_get on a file with this content. */
  function Lookup(text: string, sec: Option<string>, key: string): Option<string> {
    if GoodNames(sec, key) then Scan(Chunks(text), sec, "", key) else None
  }

  /** A section name on this line fits its buffer. */
  predicate NameFits(raw: string) {
    var l := raw[..IndexOf(raw, '\n')];
    IsHeader(l) ==> |HeaderName(l)| < MAX_SLEN
  }

  /** As far as the search gets, every line, every section name and the value found fit their buffers. */
  ghost predicate TextFits(text: string, sec: Option<string>, cur: string, key: string, room: nat)
    decreases |text|
  {
    var i := IndexOf(text, '\n');
    var m := MatchLine(Lines(text)[0], sec, cur, key);
    && i < MAX_LINE_BYTE && NameFits(Lines(text)[0]) && ValueFits(m, room)
    && (i < |text| && m.ret.FR_NONE? ==> TextFits(text[i + 1..], sec, m.cur, key, room))
  }

  ghost predicate ChunksFit(chunks: seq<string>, sec: Option<string>, cur: string, key: string, room: nat) {
    chunks == [] ||
    var m := MatchLine(chunks[0], sec, cur, key);
    NameFits(chunks[0]) && ValueFits(m, room) && (m.ret.FR_NONE? ==> ChunksFit(chunks[1..], sec, m.cur, key, room))
  }

  method CheckNames(sec: Option<string>, key: string) returns (ok: bool)
    ensures ok == GoodNames(sec, key)
  {
    if |key| < 1 || |key| > MAX_KLEN { return false; }
    if sec.Some? {
      if |sec.value| < 1 || |sec.value| > MAX_SLEN { return false; }
    }
    return true;
  }

  /** Step over the text line by line. */
  method NextLine(line: array<char>, text: string, txt: nat) returns (off: nat)
    requires line.Length == MAX_LINE_BYTE && txt <= |text| && NUL !in text && IndexOf(text[txt..], '\n') < MAX_LINE_BYTE
    modifies line
    ensures NUL in line[..] && CStr(line[..]) == Lines(text[txt..])[0]
    ensures if off == 0 then |Lines(text[txt..])| == 1
            else && txt + off <= |text| && Lines(text[txt + off..]) == Lines(text[txt..])[1..]
                 && off == IndexOf(text[txt..], '\n') + 1 && text[txt..][off..] == text[txt + off..]
  {
    ghost var rest := text[txt..];
    ghost var i := IndexOf(rest, '\n');
    off := PosLine(line, MAX_LINE_BYTE, Some(text), txt);
    if off != 0 {
      assert rest[i + 1..] == text[txt + off..] && rest[..i] == text[txt..txt + i];
    }
  }

  /** Match the line at txt, the first one of `rest`: either the scan is decided, or it comes down to `later`. */
  method MatchNext(line: array<char>, text: string, txt: nat, section: Option<string>, curSec: array<char>, key: string,
                   value: array<char>, ghost rest: string)
    returns (m: FindRet, off: nat, ghost later: string)
    requires line.Length == MAX_LINE_BYTE && curSec.Length == MAX_SLEN
    requires line != curSec && line != value && curSec != value
    requires txt <= |text| && NUL !in text && NUL !in key && NUL in curSec[..]
    requires rest == text[txt..] && TextFits(rest, section, CStr(curSec[..]), key, value.Length)
    modifies line, curSec, value
    ensures NUL in curSec[..]
    ensures var all := Scan(Lines(rest), section, old(CStr(curSec[..])), key);
            && (m.FR_FOUND? ==> all == Some(CStr(value[..])))
            && (m.FR_FAIL? || (m.FR_NONE? && off == 0) ==> all == None)
            && (m.FR_NONE? && off > 0 ==> all == Scan(Lines(later), section, CStr(curSec[..]), key))
    ensures off > 0 ==> txt + off <= |text| && later == text[txt + off..]
    ensures off > 0 && m.FR_NONE? ==> TextFits(later, section, CStr(curSec[..]), key, value.Length)
    ensures !m.FR_FOUND? ==> value[..] == old(value[..])
  {
    ghost var lines, was, cur := Lines(rest), value[..], curSec[..];
    off := NextLine(line, text, txt);
    later := if txt + off <= |text| then text[txt + off..] else "";
    assert value[..] == was && curSec[..] == cur && NameFits(lines[0]) && |lines[0]| < MAX_LINE_BYTE;
    m := GetValue(line, section, curSec, key, value);
  }

  /** The loop of cl_ini_get2. */
  method ScanText(text: string, section: Option<string>, key: string, value: array<char>) returns (ret: Ret)
    requires NUL !in text && TextFits(text, section, "", key, value.Length) && NUL !in key
    modifies value
    ensures match Scan(Lines(text), section, "", key)
            case None => ret == FAIL && value[..] == old(value[..])
            case Some(v) => ret == SUCC && CStr(value[..]) == v
  {
    var line := new char[MAX_LINE_BYTE](_ => NUL);
    var curSec := new char[MAX_SLEN](_ => NUL);
    assert CStr(curSec[..]) == "" && curSec[..][0] == NUL;
    var txt := 0;
    ghost var rest, found := text, Scan(Lines(text), section, "", key);
    while true
      invariant txt <= |text| && rest == text[txt..]
      invariant TextFits(rest, section, CStr(curSec[..]), key, value.Length)
      invariant NUL in curSec[..] && value[..] == old(value[..])
      invariant Scan(Lines(rest), section, CStr(curSec[..]), key) == found
      decreases |text| - txt
    {
      var m, off;
      m, off, rest := MatchNext(line, text, txt, section, curSec, key, value, rest);
      if m.FR_FOUND? { return SUCC; }
      if m.FR_FAIL? { return FAIL; }
      if off == 0 { break; }
      txt := txt + off;
    }
    return FAIL;
  }

  method IniGet2(cfgTxt: Option<string>, section: Option<string>, key: Option<string>, value: array?<char>) returns (ret: Ret)
    requires cfgTxt.Some? ==> NUL !in cfgTxt.value
    requires key.Some? ==> NUL !in key.value
    requires cfgTxt.Some? && key.Some? && value != null && GoodNames(section, key.value) && 1 <= |cfgTxt.value| <= MAX_TXT_BYTE ==>
               TextFits(cfgTxt.value, section, "", key.value, value.Length)
    modifies value
    ensures ret == SUCC <==> cfgTxt.Some? && key.Some? && value != null && Lookup2(cfgTxt.value, section, key.value).Some?
    ensures ret == SUCC ==> CStr(value[..]) == Lookup2(cfgTxt.value, section, key.value).value
    ensures ret == FAIL && value != null ==> value[..] == old(value[..])
  {
    if cfgTxt.None? || key.None? || value == null { return FAIL; }
    var ok := CheckNames(section, key.value);
    if !ok { return FAIL; }
    var text := cfgTxt.value;
    if |text| < 1 || |text| > MAX_TXT_BYTE { return FAIL; }
    ret := ScanText(text, section, key.value, value);
  }

  /** A file being read. */
  class File {
    const content: string
    var pos: nat

    constructor (content: string)
      ensures this.content == content && pos == 0
    {
      this.content := content;
      pos := 0;
    }

    /** fgets: the next piece and a NUL behind it; false at the end. */
    method Gets(line: array<char>) returns (more: bool)
      requires line.Length == MAX_LINE_BYTE && pos <= |content| && NUL !in content
      modifies this, line
      ensures pos <= |content|
      ensures more <==> Chunks(content[old(pos)..]) != []
      ensures more ==> NUL in line[..] && CStr(line[..]) == Chunks(content[old(pos)..])[0]
                       && Chunks(content[pos..]) == Chunks(content[old(pos)..])[1..] && pos > old(pos)
    {
      if pos == |content| { return false; }
      var n := PieceLength();
      ghost var rest := content[pos..];
      CopyString(line, content, pos, n);
      CStrIs(line[..], n);
      assert line[..][..n] == content[pos..pos + n] == rest[..n];
      pos := pos + n;
      assert rest[n..] == content[pos..];
      assert Chunks(rest)[0] == rest[..n] && Chunks(rest)[1..] == Chunks(rest[n..]);
      return true;
    }

    method PieceLength() returns (n: nat)
      requires pos < |content|
      ensures n == PieceLen(content[pos..])
    {
      ghost var rest := content[pos..];
      ghost var i := IndexOf(rest, '\n');
      n := 0;
      while pos + n < |content| && n < MAX_LINE_BYTE - 1 && (n == 0 || content[pos + n - 1] != '\n')
        invariant n <= i + 1 && pos + n <= |content| && n <= MAX_LINE_BYTE - 1
      {
        n := n + 1;
        assert rest[n - 1] == content[pos + n - 1];
      }
    }
  }

  method IniGet(file: File?, section: Option<string>, key: Option<string>, value: array?<char>) returns (ret: Ret)
    requires file != null ==> file.pos == 0 && NUL !in file.content
    requires key.Some? ==> NUL !in key.value
    requires file != null && key.Some? && value != null && GoodNames(section, key.value) ==>
               ChunksFit(Chunks(file.content), section, "", key.value, value.Length)
    modifies file, value
    ensures ret == SUCC <==> file != null && key.Some? && value != null && Lookup(file.content, section, key.value).Some?
    ensures ret == SUCC ==> CStr(value[..]) == Lookup(file.content, section, key.value).value
    ensures ret == FAIL && value != null ==> value[..] == old(value[..])
  {
    if key.None? || value == null { return FAIL; }
    var ok := CheckNames(section, key.value);
    if !ok { return FAIL; }
    if file == null { return FAIL; }
    var line := new char[MAX_LINE_BYTE](_ => NUL);
    var curSec := new char[MAX_SLEN](_ => NUL);
    assert CStr(curSec[..]) == "" && curSec[..][0] == NUL;
    ghost var rest := Chunks(file.content);
    assert file.content[0..] == file.content;
    while true
      invariant file.pos <= |file.content| && rest == Chunks(file.content[file.pos..])
      invariant ChunksFit(rest, section, CStr(curSec[..]), key.value, value.Length)
      invariant NUL in curSec[..] && value[..] == old(value[..])
      invariant Scan(rest, section, CStr(curSec[..]), key.value) == Scan(Chunks(file.content), section, "", key.value)
      decreases |file.content| - file.pos
    {
      ghost var was, cur := value[..], curSec[..];
      var more := file.Gets(line);
      if !more { break; }
      assert value[..] == was && curSec[..] == cur;
      assert NameFits(rest[0]) && |rest[0]| < MAX_LINE_BYTE;
      var m := GetValue(line, section, curSec, key.value, value);
      if m.FR_FOUND? { return SUCC; }
      if m.FR_FAIL? { return FAIL; }
      rest := rest[1..];
    }
    return FAIL;
  }
}
