/**
 * The few Python string operations the extractor relies on, written out on
 * `seq<char>`: substring test (`sub in s`), `str(n)` for a natural number,
 * `s.replace(c, "_")`, and `s.strip(". ")`.
 */
module Strings {

  /** `sub` occurs in `s` starting at index `k`. */
  ghost predicate OccursAt<T>(s: seq<T>, sub: seq<T>, k: nat)
  {
    k + |sub| <= |s| && s[k..k + |sub|] == sub
  }

  /** An occurrence stays one, shifted, when something is put in front. */
  lemma OccursAtShift<T>(front: seq<T>, s: seq<T>, sub: seq<T>, k: nat)
    requires OccursAt(s, sub, k)
    ensures OccursAt(front + s, sub, |front| + k)
  {
    assert (front + s)[|front| + k..|front| + k + |sub|] == s[k..k + |sub|];
  }

  /** Python's `sub in s`, as a left-to-right scan. */
  function Contains(s: string, sub: string): bool
    decreases |s|
  {
    if |sub| > |s| then false
    else if s[..|sub|] == sub then true
    else Contains(s[1..], sub)
  }

  /** The scan answers yes exactly when some occurrence exists. */
  lemma {:induction false} ContainsIff(s: string, sub: string)
    ensures Contains(s, sub) <==> exists k: nat :: OccursAt(s, sub, k)
    decreases |s|
  {
    if |sub| > |s| {
    } else if s[..|sub|] == sub {
      assert OccursAt(s, sub, 0);
    } else {
      ContainsIff(s[1..], sub);
      if exists k: nat :: OccursAt(s[1..], sub, k) {
        var k: nat :| OccursAt(s[1..], sub, k);
        assert s[1..][k..k + |sub|] == s[k + 1..k + 1 + |sub|];
        assert OccursAt(s, sub, k + 1);
      }
      if exists k: nat :: OccursAt(s, sub, k) {
        var k: nat :| OccursAt(s, sub, k);
        assert k != 0;
        assert s[1..][k - 1..k - 1 + |sub|] == s[k..k + |sub|];
        assert OccursAt(s[1..], sub, k - 1);
      }
    }
  }

  /** The concatenation of a sequence of sequences, in order. */
  function Flatten<T>(xss: seq<seq<T>>): seq<T>
  {
    if xss == [] then [] else xss[0] + Flatten(xss[1..])
  }

  /** The concatenation is what comes before piece i, piece i, and what comes after it. */
  lemma {:induction false} FlattenSplit<T>(xss: seq<seq<T>>, i: nat)
    requires i < |xss|
    ensures Flatten(xss) == Flatten(xss[..i]) + xss[i] + Flatten(xss[i + 1..])
  {
    if i > 0 {
      FlattenSplit(xss[1..], i - 1);
      assert xss[1..][..i - 1] == xss[1..i] && xss[1..][i - 1] == xss[i] && xss[1..][i..] == xss[i + 1..];
      assert xss[..i][0] == xss[0] && xss[..i][1..] == xss[1..i];
      calc {
        Flatten(xss);
        xss[0] + Flatten(xss[1..]);
        xss[0] + (Flatten(xss[1..i]) + xss[i] + Flatten(xss[i + 1..]));
        (xss[0] + Flatten(xss[1..i])) + xss[i] + Flatten(xss[i + 1..]);
        Flatten(xss[..i]) + xss[i] + Flatten(xss[i + 1..]);
      }
    } else {
      assert xss[..0] == [] && xss[1..] == xss[0 + 1..];
    }
  }

  predicate IsDigit(c: char)
  {
    '0' <= c <= '9'
  }

  function DigitChar(d: nat): (c: char)
    requires d < 10
    ensures IsDigit(c)
  {
    ('0' as int + d) as char
  }

  /** Python's `str(n)` for a natural number: decimal, no leading zeros. */
  function Decimal(n: nat): (r: string)
    ensures |r| >= 1
    ensures forall i :: 0 <= i < |r| ==> IsDigit(r[i])
    ensures n >= 10 ==> |r| >= 2
    decreases n
  {
    if n < 10 then [DigitChar(n)] else Decimal(n / 10) + [DigitChar(n % 10)]
  }

  /** Different numbers render differently. */
  lemma {:induction false} DecimalInjective(a: nat, b: nat)
    requires Decimal(a) == Decimal(b)
    ensures a == b
    decreases a
  {
    if a < 10 && b < 10 {
      assert Decimal(a)[0] == DigitChar(a) && Decimal(b)[0] == DigitChar(b);
    } else if a >= 10 && b >= 10 {
      var da, db := Decimal(a), Decimal(b);
      assert da[|da| - 1] == DigitChar(a % 10) && db[|db| - 1] == DigitChar(b % 10);
      assert da[..|da| - 1] == Decimal(a / 10) && db[..|db| - 1] == Decimal(b / 10);
      DecimalInjective(a / 10, b / 10);
      assert a == 10 * (a / 10) + a % 10 && b == 10 * (b / 10) + b % 10;
    }
  }

  /** `s.replace(c, "_")`. */
  function ReplaceChar(s: string, c: char): (r: string)
    ensures |r| == |s|
    ensures forall i :: 0 <= i < |s| ==> r[i] == (if s[i] == c then '_' else s[i])
  {
    if s == [] then []
    else [if s[0] == c then '_' else s[0]] + ReplaceChar(s[1..], c)
  }

  /** The characters `str.strip(". ")` removes. */
  predicate IsStripChar(c: char)
  {
    c == '.' || c == ' '
  }

  /** Leading half of `s.strip(". ")`: drops the longest prefix of dots and spaces. */
  function TrimStart(s: string): string
    decreases |s|
  {
    if s != [] && IsStripChar(s[0]) then TrimStart(s[1..]) else s
  }

  /** Trailing half of `s.strip(". ")`: drops the longest suffix of dots and spaces. */
  function TrimEnd(s: string): string
    decreases |s|
  {
    if s != [] && IsStripChar(s[|s| - 1]) then TrimEnd(s[..|s| - 1]) else s
  }

  /** `s.strip(". ")`. */
  function Strip(s: string): string
  {
    TrimEnd(TrimStart(s))
  }

  /** `TrimStart` keeps a suffix, drops only dots and spaces, and leaves a
      result that does not start with one. */
  lemma {:induction false} TrimStartShape(s: string)
    ensures |TrimStart(s)| <= |s| && TrimStart(s) == s[|s| - |TrimStart(s)|..]
    ensures TrimStart(s) == [] || !IsStripChar(TrimStart(s)[0])
    ensures forall i :: 0 <= i < |s| - |TrimStart(s)| ==> IsStripChar(s[i])
    decreases |s|
  {
    if s != [] && IsStripChar(s[0]) {
      TrimStartShape(s[1..]);
      assert s[1..][|s| - 1 - |TrimStart(s)|..] == s[|s| - |TrimStart(s)|..];
      forall i | 1 <= i < |s| - |TrimStart(s)| ensures IsStripChar(s[i]) {
        assert s[i] == s[1..][i - 1];
      }
    }
  }

  /** `TrimEnd` keeps a prefix, drops only dots and spaces, and leaves a
      result that does not end with one. */
  lemma {:induction false} TrimEndShape(s: string)
    ensures |TrimEnd(s)| <= |s| && TrimEnd(s) == s[..|TrimEnd(s)|]
    ensures TrimEnd(s) == [] || !IsStripChar(TrimEnd(s)[|TrimEnd(s)| - 1])
    ensures forall i :: |TrimEnd(s)| <= i < |s| ==> IsStripChar(s[i])
    decreases |s|
  {
    if s != [] && IsStripChar(s[|s| - 1]) {
      var p := s[..|s| - 1];
      TrimEndShape(p);
      assert p[..|TrimEnd(s)|] == s[..|TrimEnd(s)|];
      forall i | |TrimEnd(s)| <= i < |s| - 1 ensures IsStripChar(s[i]) {
        assert s[i] == p[i];
      }
    }
  }

  /** `s.strip(". ")` is a contiguous slice of `s`, outside of which there are
      only dots and spaces, and which neither starts nor ends with one. */
  lemma StripShape(s: string)
    ensures |Strip(s)| <= |s|
    ensures Strip(s) == [] || (!IsStripChar(Strip(s)[0]) && !IsStripChar(Strip(s)[|Strip(s)| - 1]))
    ensures exists i, j ::
              && 0 <= i <= j <= |s| && Strip(s) == s[i..j]
              && (forall k :: 0 <= k < i ==> IsStripChar(s[k]))
              && (forall k :: j <= k < |s| ==> IsStripChar(s[k]))
  {
    var t := TrimStart(s);
    TrimStartShape(s);
    TrimEndShape(t);
    var r := Strip(s);
    var i := |s| - |t|;
    assert r == t[..|r|] == s[i..i + |r|];
    if r != [] {
      assert r[0] == t[0];
    }
    forall k | i + |r| <= k < |s| ensures IsStripChar(s[k]) {
      assert s[k] == t[k - i];
    }
  }

  /** A string that neither starts nor ends with a dot or space is left alone. */
  lemma StripNoOp(s: string)
    requires s == [] || (!IsStripChar(s[0]) && !IsStripChar(s[|s| - 1]))
    ensures Strip(s) == s
  {
  }
}
