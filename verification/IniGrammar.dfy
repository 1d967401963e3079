/** What a line of an INI text says, written down without the functions the matcher is specified by, and what the two
    ways of cutting a text into lines are. */
module IniGrammar {
  import opened Results
  import opened Text
  import opened Ini

  /** Nothing but blanks and tabs. */
  predicate Gap(s: string) {
    forall k :: 0 <= k < |s| ==> s[k] == ' ' || s[k] == '\t'
  }

  /** Neither begins nor ends with a blank or a tab. */
  predicate Tight(s: string) {
    s != "" ==> s[0] != ' ' && s[0] != '\t' && s[|s| - 1] != ' ' && s[|s| - 1] != '\t'
  }

  /** s is t between gaps. */
  ghost predicate Surrounds(s: string, t: string) {
    Tight(t) && exists p: nat, q: nat :: p <= q <= |s| && s[p..q] == t && Gap(s[..p]) && Gap(s[q..])
  }

  /** Position i holds the first equals sign. */
  predicate FirstEquals(l: string, i: nat) {
    i < |l| && l[i] == '=' && forall k :: 0 <= k < i ==> l[k] != '='
  }

  ghost predicate AssignsKey(l: string, key: string) {
    exists i: nat :: FirstEquals(l, i) && Surrounds(l[..i], key)
  }

  ghost predicate AssignsValue(l: string, v: string) {
    exists i: nat :: FirstEquals(l, i) && Surrounds(l[i + 1..], v)
  }

  predicate Bracketed(l: string) {
    |l| >= 2 && l[0] == '[' && l[|l| - 1] == ']'
  }

  predicate Comment(l: string) {
    l != "" && (l[0] == ';' || l[0] == '#')
  }

  // Trimming is that.

  lemma {:induction false} TrimLeftParts(s: string)
    ensures var t := TrimLeft(s);
            s[|s| - |t|..] == t && Gap(s[..|s| - |t|]) && (t != "" ==> t[0] != ' ' && t[0] != '\t')
  {
    if s != "" && Blank(s[0]) {
      TrimLeftParts(s[1..]);
      var d := |s| - |TrimLeft(s)|;
      assert s[1..][d - 1..] == s[d..] && s[..d] == [s[0]] + s[1..][..d - 1];
    }
  }

  lemma {:induction false} TrimRightParts(s: string)
    ensures var t := TrimRight(s);
            s[..|t|] == t && Gap(s[|t|..]) && (t != "" ==> t[|t| - 1] != ' ' && t[|t| - 1] != '\t')
  {
    if s != "" && Blank(s[|s| - 1]) {
      var u := s[..|s| - 1];
      TrimRightParts(u);
      var d := |TrimRight(s)|;
      assert u[..d] == s[..d] && s[d..] == u[d..] + [s[|s| - 1]];
    }
  }

  lemma TrimSurrounds(s: string)
    ensures Surrounds(s, Trim(s))
  {
    var u, t := TrimLeft(s), Trim(s);
    TrimLeftParts(s);
    TrimRightParts(u);
    var p := |s| - |u|;
    var q := p + |t|;
    assert s[p..q] == u[..|t|] == t && s[q..] == u[|t|..];
    assert t != "" ==> t[0] == u[0];
  }

  lemma {:induction false} TrimLeftDrops(a: string, s: string)
    requires Gap(a)
    ensures TrimLeft(a + s) == TrimLeft(s)
  {
    if a == "" {
      assert a + s == s;
    } else {
      assert (a + s)[1..] == a[1..] + s;
      TrimLeftDrops(a[1..], s);
    }
  }

  lemma {:induction false} TrimRightDrops(s: string, b: string)
    requires Gap(b) && Tight(s)
    ensures TrimRight(s + b) == s
  {
    if b == "" {
      assert s + b == s;
    } else {
      var n := |b| - 1;
      assert (s + b)[..|s + b| - 1] == s + b[..n];
      TrimRightDrops(s, b[..n]);
    }
  }

  lemma TrimOfParts(a: string, t: string, b: string)
    requires Gap(a) && Tight(t) && Gap(b)
    ensures Trim(a + (t + b)) == t
  {
    TrimLeftDrops(a, t + b);
    if t == "" {
      TrimLeftDrops(b, "");
      assert b + "" == b == t + b;
    } else {
      assert (t + b)[0] == t[0];
      TrimRightDrops(t, b);
    }
  }

  /** Trimming yields t exactly when s is t between gaps. */
  lemma TrimIs(s: string, t: string)
    ensures Trim(s) == t <==> Surrounds(s, t)
  {
    TrimSurrounds(s);
    if Surrounds(s, t) {
      var p: nat, q: nat :| p <= q <= |s| && s[p..q] == t && Gap(s[..p]) && Gap(s[q..]);
      InThree(s, p, q);
      TrimOfParts(s[..p], t, s[q..]);
    }
  }

  lemma InThree(s: string, p: nat, q: nat)
    requires p <= q <= |s|
    ensures s == s[..p] + (s[p..q] + s[q..])
  {}

  // The line matcher says that.

  lemma {:induction false} FirstEqualsIs(l: string, i: nat)
    ensures FirstEquals(l, i) <==> '=' in l && i == IndexOf(l, '=')
  {
    if l != "" && l[0] != '=' {
      assert '=' in l <==> '=' in l[1..];
      if i > 0 {
        FirstEqualsIs(l[1..], i - 1);
        assert FirstEquals(l[1..], i - 1) <==> FirstEquals(l, i);
      }
    }
  }

  /** A line assigns the key when its part before the first '=' is the key between gaps, and then its value is what lies
      between gaps behind that. */
  lemma AssignmentIs(l: string, key: string)
    ensures IsAssignment(l, key) <==> AssignsKey(l, key)
    ensures '=' in l ==> forall v :: AssignsValue(l, v) <==> v == Assigned(l)
  {
    var i := IndexOf(l, '=');
    FirstEqualsIs(l, i);
    forall j: nat
      ensures FirstEquals(l, j) <==> '=' in l && j == i
    {
      FirstEqualsIs(l, j);
    }
    if '=' in l {
      TrimIs(l[..i], key);
      var rest := l[i + 1..];
      forall v
        ensures Surrounds(rest, v) <==> v == Assigned(l)
      {
        TrimIs(rest, v);
      }
    }
  }

  /** What the matcher makes of a line whose content is l. */
  lemma LineMeaning(raw: string, sec: Option<string>, cur: string, key: string)
    ensures var m, l := MatchLine(raw, sec, cur, key), raw[..IndexOf(raw, '\n')];
            && m.cur == (if raw != "" && Bracketed(l) then l[1..|l| - 1] else cur)
            && (m.ret == FR_FAIL <==> raw == "" || (sec == None && Bracketed(l)))
            && (m.ret == FR_FOUND <==>
                  l != "" && !Comment(l) && !Bracketed(l) && (sec == None || sec == Some(cur)) && AssignsKey(l, key))
            && (m.ret == FR_FOUND ==> forall v :: AssignsValue(l, v) <==> v == m.value)
  {
    AssignmentIs(raw[..IndexOf(raw, '\n')], key);
  }

  // Lines and pieces.

  /** The texts between the newlines. */
  function Between(text: string): (parts: seq<string>)
    ensures |parts| == |Lines(text)|
    decreases |text|
  {
    var i := IndexOf(text, '\n');
    if i == |text| then [text] else [text[..i]] + Between(text[i + 1..])
  }

  function JoinLines(parts: seq<string>): string
    requires |parts| > 0
  {
    if |parts| == 1 then parts[0] else parts[0] + "\n" + JoinLines(parts[1..])
  }

  lemma {:induction false} BetweenJoins(text: string)
    ensures JoinLines(Between(text)) == text
    decreases |text|
  {
    var i := IndexOf(text, '\n');
    if i < |text| {
      var later := text[i + 1..];
      BetweenJoins(later);
      assert Between(text) == [text[..i]] + Between(later);
      assert Between(text)[1..] == Between(later);
      assert text == text[..i] + "\n" + later;
    }
  }

  lemma {:induction false} BetweenHoldsNoNewline(text: string, k: nat)
    requires k < |Between(text)|
    ensures '\n' !in Between(text)[k]
    decreases |text|
  {
    var i := IndexOf(text, '\n');
    if i < |text| {
      if k > 0 {
        BetweenHoldsNoNewline(text[i + 1..], k - 1);
      }
    } else {
      assert text[..i] == text;
    }
  }

  /** The splitter delivers the texts between the newlines; those that a newline ends lose one carriage return. */
  lemma {:induction false} LinesAre(text: string, k: nat)
    requires k < |Lines(text)|
    ensures var part := Between(text)[k];
            Lines(text)[k] == if k < |Lines(text)| - 1 && part != "" && part[|part| - 1] == '\r' then part[..|part| - 1] else part
    decreases |text|
  {
    var i := IndexOf(text, '\n');
    if i < |text| && k > 0 {
      LinesAre(text[i + 1..], k - 1);
    }
  }

  function Concat(pieces: seq<string>): string {
    if pieces == [] then "" else pieces[0] + Concat(pieces[1..])
  }

  /** The pieces fgets delivers make up the text. */
  lemma {:induction false} ChunksConcatenate(text: string)
    ensures Concat(Chunks(text)) == text
    decreases |text|
  {
    if text != "" {
      var n := PieceLen(text);
      ChunksConcatenate(text[n..]);
      assert Chunks(text)[1..] == Chunks(text[n..]) && text == text[..n] + text[n..];
    }
  }

  /** Each has 1 to 255 characters, a newline at most as its last, and ends in one unless it is full or the last. */
  lemma {:induction false} ChunksAre(text: string, k: nat)
    requires k < |Chunks(text)|
    ensures var c := Chunks(text)[k];
            && 1 <= |c| <= 255 && '\n' !in c[..|c| - 1]
            && (c[|c| - 1] == '\n' || |c| == 255 || k == |Chunks(text)| - 1)
    decreases |text|
  {
    var n := PieceLen(text);
    FirstPieceIs(text);
    if k > 0 {
      ChunksAre(text[n..], k - 1);
    } else {
      assert Chunks(text)[0] == text[..n];
      assert n == |text| ==> text[n..] == "";
    }
  }

  lemma FirstPieceIs(text: string)
    requires text != ""
    ensures var n := PieceLen(text);
            && '\n' !in text[..n][..n - 1]
            && (text[n - 1] == '\n' || n == 255 || n == |text|)
  {
    var n, i := PieceLen(text), IndexOf(text, '\n');
    assert n - 1 <= i && text[..n][..n - 1] == text[..i][..n - 1];
  }
}
