/** The two string operations the reconciler relies on: `String.prototype.trim`
    (restricted to ASCII whitespace) and the decimal `toString` of an integer. */
module JsText {

  /** The ASCII members of JavaScript's whitespace set. */
  predicate IsSpace(c: char) {
    c == ' ' || c == '\t' || c == '\n' || c == '\r' || c == '\U{0B}' || c == '\U{0C}'
  }

  /** The end of the run of whitespace that starts at `from`. */
  function SpaceRunEnd(s: string, from: nat): (k: nat)
    requires from <= |s|
    ensures from <= k <= |s|
    decreases |s| - from
  {
    if from == |s| || !IsSpace(s[from]) then from else SpaceRunEnd(s, from + 1)
  }

  /** The start of the run of whitespace that ends just before `to`. */
  function SpaceRunStart(s: string, to: nat): (k: nat)
    requires to <= |s|
    ensures k <= to
  {
    if to == 0 || !IsSpace(s[to - 1]) then to else SpaceRunStart(s, to - 1)
  }

  /** Everything `SpaceRunEnd` skips is whitespace, and it stops at the end of
      `s` or at a character that is not. */
  lemma {:induction false} SpaceRunEndIsRun(s: string, from: nat)
    requires from <= |s|
    ensures forall i :: from <= i < SpaceRunEnd(s, from) ==> IsSpace(s[i])
    ensures SpaceRunEnd(s, from) == |s| || !IsSpace(s[SpaceRunEnd(s, from)])
    decreases |s| - from
  {
    if from < |s| && IsSpace(s[from]) {
      SpaceRunEndIsRun(s, from + 1);
    }
  }

  /** Everything `SpaceRunStart` skips is whitespace, and it stops at the start
      of `s` or just after a character that is not. */
  lemma {:induction false} SpaceRunStartIsRun(s: string, to: nat)
    requires to <= |s|
    ensures forall i :: SpaceRunStart(s, to) <= i < to ==> IsSpace(s[i])
    ensures SpaceRunStart(s, to) == 0 || !IsSpace(s[SpaceRunStart(s, to) - 1])
  {
    if to > 0 && IsSpace(s[to - 1]) {
      SpaceRunStartIsRun(s, to - 1);
    }
  }

  /** `s` without its leading whitespace. */
  function TrimStart(s: string): string
  {
    s[SpaceRunEnd(s, 0)..]
  }

  /** `s` without its trailing whitespace. */
  function TrimEnd(s: string): string
  {
    s[..SpaceRunStart(s, |s|)]
  }

  /** `s.trim()` */
  function Trim(s: string): (r: string)
    ensures |r| <= |s|
  {
    TrimEnd(TrimStart(s))
  }

  /** `s.trim()` is the middle part of `s` left between a leading and a trailing
      run of whitespace, and it neither starts nor ends with whitespace. */
  lemma TrimIsMiddle(s: string)
    ensures var a := SpaceRunEnd(s, 0);
            var t := Trim(s);
            && a + |t| <= |s| && t == s[a..a + |t|]
            && (forall i :: 0 <= i < a ==> IsSpace(s[i]))
            && (forall i :: a + |t| <= i < |s| ==> IsSpace(s[i]))
            && (t == [] || (!IsSpace(t[0]) && !IsSpace(t[|t| - 1])))
  {
    var a := SpaceRunEnd(s, 0);
    SpaceRunEndIsRun(s, 0);
    var u := s[a..];
    SpaceRunStartIsRun(u, |u|);
    var t := Trim(s);
    assert t == u[..SpaceRunStart(u, |u|)];
    forall i | a + |t| <= i < |s|
      ensures IsSpace(s[i])
    {
      assert s[i] == u[i - a];
    }
  }

  /** A string that neither starts nor ends with whitespace is its own trim. */
  lemma TrimOfTrimmed(s: string)
    requires s == [] || (!IsSpace(s[0]) && !IsSpace(s[|s| - 1]))
    ensures Trim(s) == s
  {
    assert SpaceRunEnd(s, 0) == 0;
    assert s[0..] == s;
  }

  /** Trimming twice is trimming once. */
  lemma TrimIdempotent(s: string)
    ensures Trim(Trim(s)) == Trim(s)
  {
    TrimIsMiddle(s);
    TrimOfTrimmed(Trim(s));
  }

  function DigitChar(d: nat): (c: char)
    requires d < 10
    ensures '0' <= c <= '9' && (c - '0') as nat == d
  {
    ('0' as int + d) as char
  }

  /** The decimal digits of `n`, most significant first, with no leading zero. */
  function NatToString(n: nat): (r: string)
    ensures r != []
    ensures forall i :: 0 <= i < |r| ==> '0' <= r[i] <= '9'
    ensures |r| > 1 ==> r[0] != '0'
  {
    if n < 10 then [DigitChar(n)] else NatToString(n / 10) + [DigitChar(n % 10)]
  }

  /** `n.toString()` for an integer `n`. */
  function IntToString(n: int): (r: string)
    ensures r != []
    ensures r[0] == '-' <==> n < 0
    ensures forall i :: 0 < i < |r| ==> '0' <= r[i] <= '9'
  {
    if n < 0 then "-" + NatToString(-n) else NatToString(n)
  }

  /** Reads a string of decimal digits back as a number. */
  function ParseDigits(s: string): nat
    requires forall i :: 0 <= i < |s| ==> '0' <= s[i] <= '9'
  {
    if s == [] then 0 else ParseDigits(s[..|s| - 1]) * 10 + (s[|s| - 1] - '0') as nat
  }

  /** The digits `NatToString` writes denote `n`. */
  lemma {:induction false} NatToStringRoundTrip(n: nat)
    ensures ParseDigits(NatToString(n)) == n
  {
    var r := NatToString(n);
    if n >= 10 {
      NatToStringRoundTrip(n / 10);
      assert r[..|r| - 1] == NatToString(n / 10);
    }
  }

  /** Distinct integers have distinct decimal texts, so the text comparison of
      the bare-text branch sees every change of a numeric child. */
  lemma IntToStringInjective(m: int, n: int)
    requires IntToString(m) == IntToString(n)
    ensures m == n
  {
    var t := IntToString(m);
    if m < 0 && n < 0 {
      NatsEqual(-m, -n, t[1..]);
    } else if m >= 0 && n >= 0 {
      NatsEqual(m, n, t);
    }
  }

  lemma NatsEqual(a: nat, b: nat, s: string)
    requires NatToString(a) == s == NatToString(b)
    ensures a == b
  {
    NatToStringRoundTrip(a);
    NatToStringRoundTrip(b);
  }
}
