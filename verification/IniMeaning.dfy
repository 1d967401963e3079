/** What an INI lookup means, independent of the scanning loop, and how the two front ends compare. */
module IniMeaning {
  import opened Results
  import opened Text
  import opened Ini
  import opened IniGrammar

  /** A line without its newline, if it has one. */
  function Body(raw: string): string {
    raw[..IndexOf(raw, '\n')]
  }

  /** The section in force at line i: the name in the last header before it. */
  function SectionAt(lines: seq<string>, cur: string, i: nat): string
    requires i <= |lines|
  {
    if i == 0 then cur
    else
      var l := Body(lines[i - 1]);
      if Bracketed(l) then l[1..|l| - 1] else SectionAt(lines, cur, i - 1)
  }

  /** Line i assigns the key in the section asked for. */
  ghost predicate Hit(lines: seq<string>, sec: Option<string>, cur: string, key: string, i: nat)
    requires i < |lines|
  {
    var l := Body(lines[i]);
    && l != "" && !Comment(l) && !Bracketed(l)
    && (sec == None || sec == Some(SectionAt(lines, cur, i)))
    && AssignsKey(l, key)
  }

  /** The search ends at line i: an empty line, or a header when no section is asked for. */
  predicate Stops(lines: seq<string>, sec: Option<string>, i: nat)
    requires i < |lines|
  {
    lines[i] == "" || (sec.None? && Bracketed(Body(lines[i])))
  }

  /** Line i is the first hit, and the search gets there. */
  ghost predicate FirstHit(lines: seq<string>, sec: Option<string>, cur: string, key: string, i: nat) {
    && i < |lines| && Hit(lines, sec, cur, key, i)
    && forall j :: 0 <= j < i ==> !Hit(lines, sec, cur, key, j) && !Stops(lines, sec, j)
  }

  /** The index at which the scan ends with a find. */
  function FoundAt(lines: seq<string>, sec: Option<string>, cur: string, key: string): (r: Option<nat>)
    ensures r.Some? <==> Scan(lines, sec, cur, key).Some?
    ensures r.Some? ==> r.value < |lines|
  {
    if lines == [] then None
    else
      var m := MatchLine(lines[0], sec, cur, key);
      match m.ret
      case FR_FOUND => Some(0)
      case FR_FAIL => None
      case FR_NONE =>
        match FoundAt(lines[1..], sec, m.cur, key)
        case None => None
        case Some(i) => Some(i + 1)
  }

  lemma {:induction false} SectionShift(lines: seq<string>, cur: string, cur': string, i: nat)
    requires 0 < |lines| && i < |lines|
    requires var l := Body(lines[0]); cur' == if Bracketed(l) then l[1..|l| - 1] else cur
    ensures SectionAt(lines[1..], cur', i) == SectionAt(lines, cur, i + 1)
  {
    if i > 0 {
      SectionShift(lines, cur, cur', i - 1);
    }
  }

  /** The first line alone: the matcher finds on a hit, fails on a stop, and keeps the section. */
  lemma FirstLineDecides(lines: seq<string>, sec: Option<string>, cur: string, key: string)
    requires |lines| > 0
    ensures var m := MatchLine(lines[0], sec, cur, key);
            && (m.ret == FR_FOUND <==> Hit(lines, sec, cur, key, 0) && !Stops(lines, sec, 0))
            && (m.ret == FR_FAIL <==> Stops(lines, sec, 0))
            && (m.ret == FR_FOUND ==> forall v :: AssignsValue(Body(lines[0]), v) <==> v == m.value)
            && forall i :: 0 <= i < |lines| - 1 ==> SectionAt(lines[1..], m.cur, i) == SectionAt(lines, cur, i + 1)
  {
    LineMeaning(lines[0], sec, cur, key);
    forall i | 0 <= i < |lines| - 1
      ensures SectionAt(lines[1..], MatchLine(lines[0], sec, cur, key).cur, i) == SectionAt(lines, cur, i + 1)
    {
      SectionShift(lines, cur, MatchLine(lines[0], sec, cur, key).cur, i);
    }
  }

  /** After an undecided first line the hits and stops of the rest are those of the whole. */
  lemma HitShift(lines: seq<string>, sec: Option<string>, cur: string, key: string, i: nat)
    requires i + 1 < |lines|
    ensures Hit(lines[1..], sec, MatchLine(lines[0], sec, cur, key).cur, key, i) == Hit(lines, sec, cur, key, i + 1)
    ensures Stops(lines[1..], sec, i) == Stops(lines, sec, i + 1)
  {
    FirstLineDecides(lines, sec, cur, key);
  }

  /** The scan finds on the first hit, and finds its value. */
  lemma {:induction false} ScanFindsFirstHit(lines: seq<string>, sec: Option<string>, cur: string, key: string, i: nat)
    requires FirstHit(lines, sec, cur, key, i)
    ensures FoundAt(lines, sec, cur, key) == Some(i)
    ensures var found := Scan(lines, sec, cur, key);
            found.Some? && forall v :: AssignsValue(Body(lines[i]), v) <==> v == found.value
  {
    FirstLineDecides(lines, sec, cur, key);
    if i > 0 {
      assert !Hit(lines, sec, cur, key, 0) && !Stops(lines, sec, 0);
      var cur' := MatchLine(lines[0], sec, cur, key).cur;
      forall j | 0 <= j < i
        ensures j < i - 1 ==> !Hit(lines[1..], sec, cur', key, j) && !Stops(lines[1..], sec, j)
        ensures j == i - 1 ==> Hit(lines[1..], sec, cur', key, j) && !Stops(lines[1..], sec, j)
      {
        HitShift(lines, sec, cur, key, j);
      }
      ScanFindsFirstHit(lines[1..], sec, cur', key, i - 1);
    }
  }

  lemma {:induction false} ScanFindsOnlyFirstHit(lines: seq<string>, sec: Option<string>, cur: string, key: string)
    returns (i: nat)
    requires Scan(lines, sec, cur, key).Some?
    ensures FirstHit(lines, sec, cur, key, i)
  {
    FirstLineDecides(lines, sec, cur, key);
    var m := MatchLine(lines[0], sec, cur, key);
    if m.ret.FR_FOUND? {
      i := 0;
    } else {
      var k := ScanFindsOnlyFirstHit(lines[1..], sec, m.cur, key);
      i := k + 1;
      forall j | 0 <= j < |lines| - 1
        ensures Hit(lines[1..], sec, m.cur, key, j) == Hit(lines, sec, cur, key, j + 1)
        ensures Stops(lines[1..], sec, j) == Stops(lines, sec, j + 1)
      {
        HitShift(lines, sec, cur, key, j);
      }
      forall j | 0 <= j < i
        ensures !Hit(lines, sec, cur, key, j) && !Stops(lines, sec, j)
      {
        if j > 0 {
          assert !Hit(lines[1..], sec, m.cur, key, j - 1) && !Stops(lines[1..], sec, j - 1);
        }
      }
    }
  }

  /** v is the value on the first hit of the lines. */
  ghost predicate FirstValue(lines: seq<string>, sec: Option<string>, key: string, v: string) {
    exists i: nat :: FirstHit(lines, sec, "", key, i) && AssignsValue(Body(lines[i]), v)
  }

  lemma ScanMeaning(lines: seq<string>, sec: Option<string>, key: string, v: string)
    ensures Scan(lines, sec, "", key) == Some(v) <==> FirstValue(lines, sec, key, v)
  {
    if Scan(lines, sec, "", key).Some? {
      var i := ScanFindsOnlyFirstHit(lines, sec, "", key);
      ScanFindsFirstHit(lines, sec, "", key, i);
      assert Scan(lines, sec, "", key) == Some(v) ==> FirstHit(lines, sec, "", key, i) && AssignsValue(Body(lines[i]), v);
    }
    forall i: nat | FirstHit(lines, sec, "", key, i) && AssignsValue(Body(lines[i]), v)
      ensures Scan(lines, sec, "", key) == Some(v)
    {
      ScanFindsFirstHit(lines, sec, "", key, i);
    }
  }

  /** The lookup in memory yields v exactly when key, section and text have the lengths it insists on and v is the value
      on the first matching line, no empty line and, without a section, no header coming before it. */
  lemma Lookup2Meaning(text: string, sec: Option<string>, key: string, v: string)
    ensures Lookup2(text, sec, key) == Some(v) <==>
            && 1 <= |key| <= 64 && (sec == None || 1 <= |sec.value| <= 64) && 1 <= |text| <= 1048576
            && FirstValue(Lines(text), sec, key, v)
  {
    ScanMeaning(Lines(text), sec, key, v);
  }

  /** The same for the lookup in a file, over the pieces fgets delivers. */
  lemma LookupMeaning(text: string, sec: Option<string>, key: string, v: string)
    ensures Lookup(text, sec, key) == Some(v) <==>
            && 1 <= |key| <= 64 && (sec == None || 1 <= |sec.value| <= 64)
            && FirstValue(Chunks(text), sec, key, v)
  {
    ScanMeaning(Chunks(text), sec, key, v);
  }

  // The two front ends compared.

  /** Every line is shorter than 255 bytes, so that fgets delivers it whole with its newline. */
  ghost predicate ShortLines(text: string)
    decreases |text|
  {
    var i := IndexOf(text, '\n');
    i < MAX_LINE_BYTE - 1 && (i < |text| ==> ShortLines(text[i + 1..]))
  }

  lemma {:induction false} IndexOfAppend(l: string)
    requires '\n' !in l
    ensures IndexOf(l, '\n') == |l| && IndexOf(l + "\n", '\n') == |l|
  {
    if l != "" {
      assert (l + "\n")[1..] == l[1..] + "\n";
      assert l[0] in l;
      IndexOfAppend(l[1..]);
    }
  }

  predicate EndsCRLF(raw: string) {
    |raw| >= 2 && raw[|raw| - 2] == '\r' && raw[|raw| - 1] == '\n'
  }

  /** No header line ends in a carriage return and a newline. */
  ghost predicate PlainHeaders(chunks: seq<string>) {
    forall i :: 0 <= i < |chunks| && EndsCRLF(chunks[i]) ==> !Bracketed(chunks[i][..|chunks[i]| - 2])
  }

  // One line, as fgets delivers it and as the splitter does.

  lemma BodyOfLine(l: string)
    requires '\n' !in l
    ensures Body(l) == l && Body(l + "\n") == l
  {
    IndexOfAppend(l);
    assert (l + "\n")[..|l|] == l == l[..|l|];
  }

  lemma {:induction false} IndexOfLonger(p: string, c: char, q: string)
    requires c in p
    ensures IndexOf(p + q, c) == IndexOf(p, c) < |p|
  {
    if p[0] != c {
      assert (p + q)[1..] == p[1..] + q;
      assert c in p[1..];
      IndexOfLonger(p[1..], c, q);
    }
  }

  lemma {:induction false} TrimLeftLonger(v: string)
    ensures |TrimLeft(v + "\r")| == |TrimLeft(v)| + 1 && TrimLeft(v + "\r")[|TrimLeft(v)|] == '\r'
  {
    if v == "" {
      assert v + "\r" == "\r";
    } else if Blank(v[0]) {
      assert (v + "\r")[1..] == v[1..] + "\r";
      TrimLeftLonger(v[1..]);
    }
  }

  /** A carriage return at the end of a value stays there, and keeps the blanks before it. */
  lemma CarriageReturnStays(v: string)
    ensures Trim(v + "\r") != Trim(v)
  {
    TrimLeftLonger(v);
    assert |Trim(v + "\r")| == |TrimLeft(v)| + 1;
  }

  lemma CarriageReturnAssigns(p: string, key: string)
    ensures '=' in p + "\r" <==> '=' in p
    ensures IsAssignment(p + "\r", key) <==> IsAssignment(p, key)
    ensures '=' in p ==> Assigned(p + "\r") != Assigned(p)
  {
    var l := p + "\r";
    assert forall c :: c in l <==> c in p || c == '\r';
    if '=' in p {
      IndexOfLonger(p, '=', "\r");
      var i := IndexOf(p, '=');
      assert l[..i] == p[..i] && l[i + 1..] == p[i + 1..] + "\r";
      CarriageReturnStays(p[i + 1..]);
    }
  }

  /** A carriage return at the end of a line that is no header changes at most the value. */
  lemma CarriageReturnMatches(p: string, sec: Option<string>, cur: string, key: string)
    requires p != "" && '\n' !in p && !IsHeader(p)
    ensures var m, n := MatchLine(p + "\r" + "\n", sec, cur, key), MatchLine(p, sec, cur, key);
            m.ret == n.ret && m.cur == n.cur && (m.ret.FR_FOUND? ==> m.value != n.value)
  {
    var l := p + "\r";
    BodyOfLine(p);
    BodyOfLine(l);
    assert l[0] == p[0] && l[|l| - 1] == '\r';
    CarriageReturnAssigns(p, key);
  }

  /** A line that holds something: both ways of reading it match alike, but for a carriage return in the value. */
  lemma LineMatchesAlike(l: string, sec: Option<string>, cur: string, key: string)
    requires '\n' !in l && Chomp(l) != "" && (EndsCRLF(l + "\n") ==> !IsHeader(Chomp(l)))
    ensures var m, n := MatchLine(l + "\n", sec, cur, key), MatchLine(Chomp(l), sec, cur, key);
            m.ret == n.ret && m.cur == n.cur && (m.ret.FR_FOUND? ==> (m.value == n.value <==> !EndsCRLF(l + "\n")))
  {
    if l[|l| - 1] == '\r' {
      assert l == Chomp(l) + "\r";
      CarriageReturnMatches(Chomp(l), sec, cur, key);
    } else {
      BodyOfLine(l);
    }
  }

  /** A line that holds nothing: the file lookup skips it, the lookup in memory stops. */
  lemma EmptyLineMatches(l: string, sec: Option<string>, cur: string, key: string)
    requires '\n' !in l && Chomp(l) == ""
    ensures MatchLine(l + "\n", sec, cur, key) == Match(FR_NONE, cur, "")
    ensures MatchLine(Chomp(l), sec, cur, key).ret == FR_FAIL
  {
    BodyOfLine(l);
    assert l == "" || l == "\r";
  }

  // The whole text.

  lemma OneMore(s: string, i: nat)
    requires i < |s|
    ensures s[..i + 1] == s[..i] + [s[i]]
  {}

  /** fgets takes off the first line together with its newline. */
  lemma FirstChunk(text: string, i: nat)
    requires i == IndexOf(text, '\n') < |text| && i + 1 <= MAX_LINE_BYTE - 1
    ensures PieceLen(text) == i + 1 && text[..i + 1] == text[..i] + "\n"
  {
    assert [text[i]] == "\n";
    OneMore(text, i);
  }

  /** Both ways of reading take off the same first line. */
  lemma FirstLine(text: string, i: nat)
    requires i == IndexOf(text, '\n') < |text| && i + 1 <= MAX_LINE_BYTE - 1
    ensures var l, later, chunks, lines := text[..i], text[i + 1..], Chunks(text), Lines(text);
            && '\n' !in l
            && |chunks| > 0 && chunks[0] == l + "\n" && chunks[1..] == Chunks(later)
            && lines[0] == Chomp(l) && lines[1..] == Lines(later)
  {
    FirstChunk(text, i);
  }

  lemma LastChunk(text: string)
    requires ShortLines(text) && IndexOf(text, '\n') == |text| && text != ""
    ensures Chunks(text) == [text]
  {
    assert text[..|text|] == text && text[|text|..] == "";
  }

  /** The scans of the two lists agree exactly when no empty line precedes the find and it brings no carriage return. */
  ghost predicate AgreeExactly(chunks: seq<string>, lines: seq<string>, sec: Option<string>, cur: string, key: string) {
    var f := FoundAt(chunks, sec, cur, key);
    && |chunks| <= |lines|
    && (Scan(chunks, sec, cur, key) == Scan(lines, sec, cur, key)
        <==> f.None? || ("" !in lines[..f.value] && !EndsCRLF(chunks[f.value])))
  }

  lemma AgreeAfterEmptyLine(chunks: seq<string>, lines: seq<string>, sec: Option<string>, cur: string, key: string, l: string)
    requires 0 < |chunks| <= |lines| && chunks[0] == l + "\n" && lines[0] == Chomp(l) == "" && '\n' !in l
    ensures AgreeExactly(chunks, lines, sec, cur, key)
  {
    EmptyLineMatches(l, sec, cur, key);
    var f := FoundAt(chunks, sec, cur, key);
    assert f.Some? ==> lines[..f.value][0] == "";
  }

  lemma AgreeAfterLine(chunks: seq<string>, lines: seq<string>, sec: Option<string>, cur: string, key: string, l: string)
    requires 0 < |chunks| && 0 < |lines| && chunks[0] == l + "\n" && lines[0] == Chomp(l) != "" && '\n' !in l
    requires EndsCRLF(chunks[0]) ==> !IsHeader(lines[0])
    requires AgreeExactly(chunks[1..], lines[1..], sec, MatchLine(l + "\n", sec, cur, key).cur, key)
    ensures AgreeExactly(chunks, lines, sec, cur, key)
  {
    LineMatchesAlike(l, sec, cur, key);
    var f := FoundAt(chunks, sec, cur, key);
    if f.Some? && f.value > 0 {
      EmptyLaterOnly(lines, f.value);
    }
  }

  lemma EmptyLaterOnly(lines: seq<string>, n: nat)
    requires 0 < n <= |lines| && lines[0] != ""
    ensures "" in lines[..n] <==> "" in lines[1..][..n - 1]
  {
    assert lines[..n] == [lines[0]] + lines[1..][..n - 1];
  }

  lemma AgreeOnLastLine(text: string, sec: Option<string>, cur: string, key: string)
    requires ShortLines(text) && IndexOf(text, '\n') == |text| && text != ""
    ensures AgreeExactly(Chunks(text), Lines(text), sec, cur, key)
  {
    LastChunk(text);
    assert text[|text| - 1] != '\n';
  }

  lemma PlainLater(chunks: seq<string>, l: string)
    requires PlainHeaders(chunks) && |chunks| > 0 && chunks[0] == l + "\n"
    ensures PlainHeaders(chunks[1..])
    ensures EndsCRLF(chunks[0]) ==> !IsHeader(Chomp(l))
  {
    assert EndsCRLF(chunks[0]) ==> chunks[0][..|chunks[0]| - 2] == Chomp(l);
  }

  lemma {:induction false} ScansAgreeExactly(text: string, sec: Option<string>, cur: string, key: string)
    requires ShortLines(text) && PlainHeaders(Chunks(text))
    ensures AgreeExactly(Chunks(text), Lines(text), sec, cur, key)
    decreases |text|
  {
    var i := IndexOf(text, '\n');
    if text == "" {
    } else if i == |text| {
      AgreeOnLastLine(text, sec, cur, key);
    } else {
      var l, later := text[..i], text[i + 1..];
      var chunks, lines := Chunks(text), Lines(text);
      FirstLine(text, i);
      PlainLater(chunks, l);
      ScansAgreeExactly(later, sec, MatchLine(l + "\n", sec, cur, key).cur, key);
      if Chomp(l) == "" {
        AgreeAfterEmptyLine(chunks, lines, sec, cur, key, l);
      } else {
        AgreeAfterLine(chunks, lines, sec, cur, key, l);
      }
    }
  }

  /** For a text that both can take, in which no header line ends in a carriage return, the two front ends agree exactly
      when the line with the file lookup's value, if there is one, does not end in a carriage return and newline and no
      line before it is empty (but for a carriage return). */
  lemma FrontEndsAgreeExactly(text: string, sec: Option<string>, key: string)
    requires ShortLines(text) && PlainHeaders(Chunks(text)) && 1 <= |text| <= MAX_TXT_BYTE && GoodNames(sec, key)
    ensures |Chunks(text)| <= |Lines(text)|
    ensures Lookup(text, sec, key) == Lookup2(text, sec, key) <==>
            forall i: nat :: FirstHit(Chunks(text), sec, "", key, i) ==> "" !in Lines(text)[..i] && !EndsCRLF(Chunks(text)[i])
  {
    ScansAgreeExactly(text, sec, "", key);
    var chunks := Chunks(text);
    forall i: nat | FirstHit(chunks, sec, "", key, i)
      ensures FoundAt(chunks, sec, "", key) == Some(i)
    {
      ScanFindsFirstHit(chunks, sec, "", key, i);
    }
    if FoundAt(chunks, sec, "", key).Some? {
      var i := ScanFindsOnlyFirstHit(chunks, sec, "", key);
      assert FirstHit(chunks, sec, "", key, i);
    }
  }

  /** No line but possibly the last is empty. */
  ghost predicate NoEmptyLine(text: string) {
    forall i :: 0 <= i < |Lines(text)| - 1 ==> Lines(text)[i] != ""
  }

  lemma {:induction false} ChunksArePieces(text: string, c: char)
    requires c !in text
    ensures forall i :: 0 <= i < |Chunks(text)| ==> c !in Chunks(text)[i]
    decreases |text|
  {
    if text != "" {
      ChunksArePieces(text[PieceLen(text)..], c);
    }
  }

  /** In particular they agree on every text without carriage returns and empty lines. */
  lemma FrontEndsAgree(text: string, sec: Option<string>, key: string)
    requires '\r' !in text && ShortLines(text) && 1 <= |text| <= MAX_TXT_BYTE && NoEmptyLine(text)
    ensures Lookup(text, sec, key) == Lookup2(text, sec, key)
  {
    if GoodNames(sec, key) {
      ChunksArePieces(text, '\r');
      assert forall i :: 0 <= i < |Chunks(text)| ==> !EndsCRLF(Chunks(text)[i]);
      FrontEndsAgreeExactly(text, sec, key);
    }
  }

  // Inputs on which they do not.

  lemma AssignsA(l: string, v: string)
    requires l == "a=" + v && Trim(v) == v
    ensures !IsSkipped(l) && !IsHeader(l) && IsAssignment(l, "a") && Assigned(l) == v
  {
    assert l[0] == 'a' && l[1..] == "=" + v && l[2..] == v && l[..1] == "a";
    assert IndexOf(l, '=') == 1;
  }

  lemma MatchesKeyA(raw: string, l: string, v: string)
    requires (raw == l || raw == l + "\n") && '\n' !in l
    requires l == "a=" + v && Trim(v) == v
    ensures MatchLine(raw, None, "", "a") == Match(FR_FOUND, "", v)
  {
    BodyOfLine(l);
    AssignsA(l, v);
  }

  /** An empty line hides what follows from the lookup in memory only. */
  lemma EmptyLineDisagrees()
    ensures Lookup("\na=b", None, "a") == Some("b") && Lookup2("\na=b", None, "a") == None
  {
    var text, l := "\na=b", "a=b";
    assert text[..0] == "" && text[..1] == "\n" && text[1..] == l;
    assert Lines(text)[0] == "";
    BodyOfLine(l);
    LastChunk(l);
    assert Chunks(text) == ["\n"] + Chunks(l);
    EmptyLineMatches("", None, "", "a");
    assert "" + "\n" == "\n";
    MatchesKeyA(l, l, "b");
    assert Chunks(text)[1..] == [l];
  }

  /** A carriage return before the newline becomes part of the value in the file lookup only. */
  lemma CarriageReturnDisagrees()
    ensures Lookup("a=b\r\n", None, "a") == Some("b\r") && Lookup2("a=b\r\n", None, "a") == Some("b")
  {
    var text, l := "a=b\r\n", "a=b\r";
    assert text == l + "\n" && text[..5] == text && text[5..] == "";
    BodyOfLine(l);
    assert text[..4] == l;
    assert Chomp(l) == "a=b" by { assert l[..3] == "a=b"; }
    assert Lines(text)[0] == "a=b" && Chunks(text)[0] == text;
    MatchesKeyA("a=b", "a=b", "b");
    MatchesKeyA(text, l, "b\r");
  }

  lemma HeaderThenLine(text: string, header: string, l: string)
    requires text == header + "\n" + l && '\n' !in header && '\n' !in l && l != "" && |header| + |l| < MAX_LINE_BYTE - 2
    ensures Chunks(text) == [header + "\n", l] && Lines(text) == [Chomp(header), l]
  {
    var i := |header|;
    IndexOfAppend(header);
    IndexOfLonger(header + "\n", '\n', l);
    assert text[..i] == header && text[i + 1..] == l;
    FirstLine(text, i);
    OneLine(l);
    var chunks, lines := Chunks(text), Lines(text);
    assert chunks == [chunks[0]] + chunks[1..] && lines == [lines[0]] + lines[1..];
  }

  lemma OneLine(l: string)
    requires '\n' !in l && l != "" && |l| < MAX_LINE_BYTE - 1
    ensures Chunks(l) == [l] && Lines(l) == [l]
  {
    IndexOfAppend(l);
    LastChunk(l);
  }

  lemma HeaderMatches(header: string, key: string)
    requires header == "[s]\r"
    ensures MatchLine(header + "\n", Some("s"), "", key) == Match(FR_NONE, "", "")
    ensures MatchLine(Chomp(header), Some("s"), "", key) == Match(FR_NONE, "s", "")
  {
    var plain := Chomp(header);
    assert plain == "[s]" && plain[1..2] == "s";
    BodyOfLine(header);
    BodyOfLine(plain);
  }

  lemma AssignmentMatches(l: string)
    requires l == "a=b"
    ensures MatchLine(l, Some("s"), "", "a") == Match(FR_NONE, "", "")
    ensures MatchLine(l, Some("s"), "s", "a") == Match(FR_FOUND, "s", "b")
  {
    BodyOfLine(l);
    AssignsA(l, "b");
  }

  /** A header that ends in a carriage return opens a section in the lookup in memory only. */
  lemma CarriageReturnHeaderDisagrees()
    ensures var text := "[s]\r\na=b";
            Lookup(text, Some("s"), "a") == None && Lookup2(text, Some("s"), "a") == Some("b")
  {
    var text, header, l := "[s]\r\na=b", "[s]\r", "a=b";
    HeaderThenLine(text, header, l);
    HeaderMatches(header, "a");
    AssignmentMatches(l);
    assert Chunks(text)[1..] == [l] && Lines(text)[1..] == [l];
  }
}
