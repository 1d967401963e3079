/** The dotted-quad check: a one-pass automaton, and the grammar it decides. */
module Ipv4 {
  import opened Results

  predicate IsDigit(c: char) {
    '0' <= c <= '9'
  }

  /** The value of a digit string; meaningful only on digits. */
  function Number(s: string): int {
    if s == "" then 0 else Number(s[..|s| - 1]) * 10 + (s[|s| - 1] as int - '0' as int)
  }

  /** The pieces of s between its dots: one more than there are dots. */
  function Split(s: string): (fields: seq<string>)
    ensures |fields| >= 1
  {
    if s == "" then [""]
    else
      var last, before := s[|s| - 1], Split(s[..|s| - 1]);
      if last == '.' then before + [""]
      else before[..|before| - 1] + [before[|before| - 1] + [last]]
  }

  function Join(fields: seq<string>): string
    requires |fields| >= 1
  {
    if |fields| == 1 then fields[0] else Join(fields[..|fields| - 1]) + "." + fields[|fields| - 1]
  }

  /** One more character goes to the last field, or opens a new one. */
  lemma SplitMore(s: string, c: char)
    ensures var fields := Split(s);
            Split(s + [c]) == if c == '.' then fields + [""] else fields[..|fields| - 1] + [fields[|fields| - 1] + [c]]
  {
    assert (s + [c])[..|s|] == s;
  }

  lemma JoinMore(fields: seq<string>, c: char)
    requires |fields| >= 1
    ensures Join(fields[..|fields| - 1] + [fields[|fields| - 1] + [c]]) == Join(fields) + [c]
  {
    var n := |fields| - 1;
    var longer := fields[..n] + [fields[n] + [c]];
    assert longer[..n] == fields[..n];
    if n > 0 {
      var before := Join(fields[..n]) + ".";
      assert Join(longer) == before + (fields[n] + [c]) == (before + fields[n]) + [c];
    }
  }

  lemma JoinDot(fields: seq<string>)
    requires |fields| >= 1
    ensures Join(fields + [""]) == Join(fields) + "."
  {
    assert (fields + [""])[..|fields|] == fields;
    assert Join(fields) + "." + "" == Join(fields) + ".";
  }

  lemma {:induction false} JoinOfSplit(s: string)
    ensures Join(Split(s)) == s
  {
    if s != "" {
      var t, last := s[..|s| - 1], s[|s| - 1];
      JoinOfSplit(t);
      assert s == t + [last];
      SplitMore(t, last);
      if last == '.' {
        JoinDot(Split(t));
      } else {
        JoinMore(Split(t), last);
      }
    }
  }

  lemma {:induction false} FieldsHoldNoDot(s: string, i: nat, k: nat)
    requires i < |Split(s)| && k < |Split(s)[i]|
    ensures Split(s)[i][k] != '.'
  {
    var t := s[..|s| - 1];
    if i < |Split(t)| && k < |Split(t)[i]| {
      FieldsHoldNoDot(t, i, k);
    }
  }

  /** Split is what its name says: joined by dots the fields give s back, and they hold no dot. */
  lemma SplitIsInverseOfJoin(s: string)
    ensures Join(Split(s)) == s
    ensures forall i, k :: 0 <= i < |Split(s)| && 0 <= k < |Split(s)[i]| ==> Split(s)[i][k] != '.'
  {
    JoinOfSplit(s);
    forall i, k | 0 <= i < |Split(s)| && 0 <= k < |Split(s)[i]|
      ensures Split(s)[i][k] != '.'
    {
      FieldsHoldNoDot(s, i, k);
    }
  }

  /** One to three digits with a value of at most 255. */
  predicate Octet(f: string) {
    1 <= |f| <= 3 && (forall k :: 0 <= k < |f| ==> IsDigit(f[k])) && Number(f) <= 255
  }

  predicate IsDottedQuad(s: string) {
    |Split(s)| == 4 && forall i :: 0 <= i < 4 ==> Octet(Split(s)[i])
  }

  /** A field the automaton has not refused so far; it may still be empty. */
  predicate Partial(f: string) {
    f == "" || Octet(f)
  }

  /** What the automaton knows after s when it has not refused yet. */
  ghost predicate Running(s: string, dots: int, num: int, digits: int) {
    var fields := Split(s);
    && dots == |fields| - 1
    && (forall i :: 0 <= i < dots ==> Octet(fields[i]))
    && Partial(fields[dots]) && num == Number(fields[dots]) && digits == |fields[dots]|
  }

  /** A refusal is final: no continuation repairs a bad complete field, or a bad last one. */
  lemma {:induction false} BadStaysBad(s: string, t: string, i: nat)
    requires i < |Split(s)|
    requires if i < |Split(s)| - 1 then !Octet(Split(s)[i]) else !Partial(Split(s)[i])
    ensures !IsDottedQuad(s + t)
    decreases |t|
  {
    if t == "" {
      assert s + t == s;
    } else {
      var s' := s + [t[0]];
      assert s'[..|s|] == s;
      assert s + t == s' + t[1..];
      if i == |Split(s)| - 1 && t[0] != '.' {
        Extend(Split(s)[i], t[0]);
      }
      BadStaysBad(s', t[1..], i);
    }
  }

  lemma {:induction false} NumberIsNatural(f: string)
    requires forall k :: 0 <= k < |f| ==> IsDigit(f[k])
    ensures Number(f) >= 0
  {
    if f != "" {
      NumberIsNatural(f[..|f| - 1]);
    }
  }

  lemma Extend(f: string, c: char)
    requires !Partial(f)
    ensures !Partial(f + [c])
  {
    var g := f + [c];
    assert g[..|f|] == f;
    assert forall k :: 0 <= k < |f| ==> g[k] == f[k];
    if forall k :: 0 <= k < |f| ==> IsDigit(f[k]) {
      NumberIsNatural(f);
    }
  }

  lemma NumberMore(f: string, c: char)
    ensures Number(f + [c]) == Number(f) * 10 + (c as int - '0' as int)
  {
    assert (f + [c])[..|f|] == f;
  }

  lemma OctetMore(f: string, c: char)
    requires Partial(f) && IsDigit(c)
    ensures Partial(f + [c]) <==> |f| + 1 <= 3 && Number(f + [c]) <= 255
  {
    assert forall k :: 0 <= k < |f| + 1 ==> IsDigit((f + [c])[k]);
  }

  /** Reading one more digit: either the field has gone bad for good, or the automaton runs on. */
  lemma RunDigit(s: string, c: char, dots: int, num: int, digits: int)
    requires Running(s, dots, num, digits) && IsDigit(c)
    ensures var num' := num * 10 + (c as int - '0' as int);
            && dots == |Split(s + [c])| - 1
            && if digits + 1 > 3 || num' > 255 then !Partial(Split(s + [c])[dots])
               else Running(s + [c], dots, num', digits + 1)
  {
    var before, after := Split(s), Split(s + [c]);
    SplitMore(s, c);
    assert |after| == dots + 1 && after[dots] == before[dots] + [c];
    assert forall i :: 0 <= i < dots ==> after[i] == before[i];
    NumberMore(before[dots], c);
    OctetMore(before[dots], c);
  }

  /** A dot closes the field, which must be complete. */
  lemma RunDot(s: string, dots: int, num: int, digits: int)
    requires Running(s, dots, num, digits)
    ensures dots + 1 == |Split(s + ['.'])| - 1
    ensures if digits == 0 || num > 255 then !Octet(Split(s + ['.'])[dots]) else Running(s + ['.'], dots + 1, 0, 0)
  {
    SplitMore(s, '.');
    assert forall i :: 0 <= i <= dots ==> Split(s + ['.'])[i] == Split(s)[i];
  }

  /** One step of the automaton: a refusal is justified whatever follows, otherwise the invariant carries on. */
  lemma Step(s: string, i: nat, dots: int, num: int, digits: int)
    requires i < |s| && Running(s[..i], dots, num, digits)
    ensures if s[i] == '.' then
              if digits == 0 || num > 255 then !IsDottedQuad(s) else Running(s[..i + 1], dots + 1, 0, 0)
            else if IsDigit(s[i]) then
              var num' := num * 10 + (s[i] as int - '0' as int);
              if digits + 1 > 3 || num' > 255 then !IsDottedQuad(s) else Running(s[..i + 1], dots, num', digits + 1)
            else !IsDottedQuad(s)
  {
    var before, after := s[..i], s[..i + 1];
    assert after == before + [s[i]] && after[..i] == before;
    assert s == after + s[i + 1..];
    if s[i] == '.' {
      RunDot(before, dots, num, digits);
      if digits == 0 || num > 255 {
        BadStaysBad(after, s[i + 1..], dots);
      }
    } else if IsDigit(s[i]) {
      RunDigit(before, s[i], dots, num, digits);
      if digits + 1 > 3 || num * 10 + (s[i] as int - '0' as int) > 255 {
        BadStaysBad(after, s[i + 1..], dots);
      }
    } else {
      SplitMore(before, s[i]);
      var f := Split(after)[dots];
      assert f[|f| - 1] == s[i];
      BadStaysBad(after, s[i + 1..], dots);
    }
  }

  lemma Finish(s: string, dots: int, num: int, digits: int)
    requires Running(s, dots, num, digits)
    ensures IsDottedQuad(s) <==> !(digits == 0 || num > 255 || dots != 3)
  {}

  method ChkIpv4(ip: Option<string>) returns (ok: bool)
    ensures ok <==> ip.Some? && IsDottedQuad(ip.value)
  {
    if ip == None || ip.value == "" {
      return false;
    }
    var s := ip.value;
    var dots, num, digitCount := 0, 0, 0;
    var i := 0;
    while i < |s|
      invariant 0 <= i <= |s|
      invariant Running(s[..i], dots, num, digitCount)
    {
      Step(s, i, dots, num, digitCount);
      if s[i] == '.' {
        if digitCount == 0 || num > 255 {
          return false;
        }
        dots := dots + 1;
        num := 0;
        digitCount := 0;
      } else if IsDigit(s[i]) {
        num := num * 10 + (s[i] as int - '0' as int);
        digitCount := digitCount + 1;
        if digitCount > 3 || num > 255 {
          return false;
        }
      } else {
        return false;
      }
      i := i + 1;
    }
    assert s[..i] == s;
    Finish(s, dots, num, digitCount);
    if digitCount == 0 || num > 255 || dots != 3 {
      return false;
    }
    return true;
  }

  // The grammar written out.

  /** One to three digits that read as 0 to 255, leading zeros allowed. */
  predicate PlainOctet(f: string) {
    && 1 <= |f| <= 3 && (forall k :: 0 <= k < |f| ==> '0' <= f[k] <= '9')
    && (|f| == 3 ==> f[0] < '2' || (f[0] == '2' && (f[1] < '5' || (f[1] == '5' && f[2] <= '5'))))
  }

  lemma NumberOfThree(f: string)
    requires 1 <= |f| <= 3
    ensures Number(f) == if |f| == 1 then f[0] as int - 48
                         else if |f| == 2 then 10 * (f[0] as int - 48) + (f[1] as int - 48)
                         else 100 * (f[0] as int - 48) + 10 * (f[1] as int - 48) + (f[2] as int - 48)
  {
    if |f| == 1 {
      NumberMore("", f[0]);
      assert "" + [f[0]] == f;
    } else {
      var g := f[..|f| - 1];
      NumberOfThree(g);
      NumberMore(g, f[|f| - 1]);
      assert g + [f[|f| - 1]] == f;
    }
  }

  lemma OctetIs(f: string)
    ensures Octet(f) <==> PlainOctet(f)
  {
    if 1 <= |f| <= 3 {
      NumberOfThree(f);
    }
  }

  lemma {:induction false} SplitBehindDot(s: string, t: string)
    requires forall k :: 0 <= k < |t| ==> t[k] != '.'
    ensures Split(s + "." + t) == Split(s) + [t]
  {
    if t == "" {
      assert s + "." + t == s + ['.'];
      SplitMore(s, '.');
    } else {
      var u, c := t[..|t| - 1], t[|t| - 1];
      SplitBehindDot(s, u);
      assert s + "." + t == (s + "." + u) + [c] && u + [c] == t;
      SplitMore(s + "." + u, c);
    }
  }

  lemma {:induction false} SplitOfOne(t: string)
    requires forall k :: 0 <= k < |t| ==> t[k] != '.'
    ensures Split(t) == [t]
  {
    if t != "" {
      var u, c := t[..|t| - 1], t[|t| - 1];
      SplitOfOne(u);
      assert u + [c] == t;
      SplitMore(u, c);
    }
  }

  ghost predicate FourOctets(s: string, a: string, b: string, c: string, d: string) {
    s == a + "." + b + "." + c + "." + d && PlainOctet(a) && PlainOctet(b) && PlainOctet(c) && PlainOctet(d)
  }

  lemma FourOctetsAreAccepted(s: string, a: string, b: string, c: string, d: string)
    requires FourOctets(s, a, b, c, d)
    ensures IsDottedQuad(s)
  {
    SplitOfOne(a);
    SplitBehindDot(a, b);
    SplitBehindDot(a + "." + b, c);
    SplitBehindDot(a + "." + b + "." + c, d);
    assert Split(s) == [a, b, c, d];
    OctetIs(a);
    OctetIs(b);
    OctetIs(c);
    OctetIs(d);
  }

  lemma JoinOfFour(fields: seq<string>)
    requires |fields| == 4
    ensures Join(fields) == fields[0] + "." + fields[1] + "." + fields[2] + "." + fields[3]
  {
    var three, two, one := fields[..3], fields[..2], fields[..1];
    assert three[..2] == two && two[..1] == one;
    assert Join(two) == fields[0] + "." + fields[1];
    assert Join(three) == Join(two) + "." + fields[2];
  }

  /** The grammar without fields and values: four groups of one to three digits, none above 255, with dots between. */
  lemma DottedQuadIs(s: string)
    ensures IsDottedQuad(s) <==> exists a, b, c, d :: FourOctets(s, a, b, c, d)
  {
    if IsDottedQuad(s) {
      var fields := Split(s);
      JoinOfSplit(s);
      JoinOfFour(fields);
      OctetIs(fields[0]);
      OctetIs(fields[1]);
      OctetIs(fields[2]);
      OctetIs(fields[3]);
      assert FourOctets(s, fields[0], fields[1], fields[2], fields[3]);
    }
    if a, b, c, d :| FourOctets(s, a, b, c, d) {
      FourOctetsAreAccepted(s, a, b, c, d);
    }
  }

  // Against the standard.

  /** dec-octet of section 3.2.2 of RFC 3986: 0 to 255 without leading zeros. */
  predicate DecOctet(f: string) {
    || (|f| == 1 && IsDigit(f[0]))
    || (|f| == 2 && '1' <= f[0] <= '9' && IsDigit(f[1]))
    || (|f| == 3 && f[0] == '1' && IsDigit(f[1]) && IsDigit(f[2]))
    || (|f| == 3 && f[0] == '2' && '0' <= f[1] <= '4' && IsDigit(f[2]))
    || (|f| == 3 && f[0] == '2' && f[1] == '5' && '0' <= f[2] <= '5')
  }

  /** IPv4address of that section. */
  predicate IsRfc3986Address(s: string) {
    |Split(s)| == 4 && forall i :: 0 <= i < 4 ==> DecOctet(Split(s)[i])
  }

  predicate LeadingZero(f: string) {
    |f| > 1 && f[0] == '0'
  }

  lemma OctetOrDecOctet(f: string)
    ensures DecOctet(f) <==> Octet(f) && !LeadingZero(f)
  {
    if |f| == 1 {
      assert f[..0] == "";
      assert Number(f) == f[0] as int - '0' as int;
    } else if |f| == 2 {
      assert f[..1][..0] == "";
      assert Number(f[..1]) == f[0] as int - '0' as int;
      assert Number(f) == 10 * Number(f[..1]) + (f[1] as int - '0' as int);
    } else if |f| == 3 {
      assert f[..2][..1] == f[..1] && f[..1][..0] == "";
      assert Number(f[..1]) == f[0] as int - '0' as int;
      assert Number(f[..2]) == 10 * Number(f[..1]) + (f[1] as int - '0' as int);
      assert Number(f) == 10 * Number(f[..2]) + (f[2] as int - '0' as int);
    }
  }

  /** The check accepts every address of the standard, and beyond those exactly the ones with a leading zero somewhere. */
  lemma AcceptsMoreThanTheStandard(s: string)
    ensures IsRfc3986Address(s) <==> IsDottedQuad(s) && forall f :: f in Split(s) ==> !LeadingZero(f)
  {
    forall i | 0 <= i < |Split(s)|
      ensures DecOctet(Split(s)[i]) <==> Octet(Split(s)[i]) && !LeadingZero(Split(s)[i])
    {
      OctetOrDecOctet(Split(s)[i]);
    }
    if IsDottedQuad(s) && forall f :: f in Split(s) ==> !LeadingZero(f) {
      assert forall i :: 0 <= i < 4 ==> Split(s)[i] in Split(s);
    }
  }
}
