/** `commaize(n)`: prints an unsigned int with `%d` into a scratch buffer and
    copies it, right to left, into the result, putting a comma in front of
    every complete group of three characters counted from the right. */
module Commaize {
  import opened Common

  /** Values of a C `unsigned int`. */
  const UIntRange: nat := 0x1_0000_0000
  type UInt = x: nat | x < UIntRange

  predicate IsDigit(c: char) { '0' <= c <= '9' }

  predicate IsDigits(s: string)
  {
    forall k :: 0 <= k < |s| ==> IsDigit(s[k])
  }

  predicate NoCommas(s: string)
  {
    forall k :: 0 <= k < |s| ==> s[k] != ','
  }

  function DigitChar(d: nat): (c: char)
    requires d < 10
    ensures IsDigit(c) && c as int - '0' as int == d
  {
    (d + '0' as int) as char
  }

  /** The decimal numeral of `n`, without leading zeros: what `printf` writes
      for a non-negative value. */
  function Decimal(n: nat): (s: string)
    ensures 1 <= |s| && IsDigits(s)
    ensures s[0] == '0' ==> n == 0
  {
    if n < 10 then [DigitChar(n)] else Decimal(n / 10) + [DigitChar(n % 10)]
  }

  /** The number a string of decimal digits denotes. */
  function Value(s: string): nat
    requires IsDigits(s)
  {
    if s == [] then 0 else Value(s[..|s| - 1]) * 10 + (s[|s| - 1] as int - '0' as int)
  }

  /** Reading back the numeral gives the number. */
  lemma {:induction false} ValueOfDecimal(n: nat)
    ensures Value(Decimal(n)) == n
  {
    if n >= 10 {
      ValueOfDecimal(n / 10);
      var s := Decimal(n);
      assert s[..|s| - 1] == Decimal(n / 10);
    }
  }

  /** `snprintf(s1, sizeof(s1), "%d", n)` with an `unsigned int` argument:
      the bits are read as a signed 32-bit int, so values above `INT_MAX`
      print as negative numbers. */
  function FormatD(n: UInt): (s: string)
    ensures NoCommas(s)
    ensures n <= IntMax ==> s == Decimal(n)
  {
    if n <= IntMax then Decimal(n) else "-" + Decimal(UIntRange - n)
  }

  /** The string with every comma removed. */
  function StripCommas(s: string): (r: string)
    ensures NoCommas(s) ==> r == s
  {
    if s == [] then []
    else (if s[0] == ',' then [] else [s[0]]) + StripCommas(s[1..])
  }

  lemma {:induction false} StripCommasAppend(a: string, b: string)
    ensures StripCommas(a + b) == StripCommas(a) + StripCommas(b)
  {
    if a == [] {
      assert a + b == b;
    } else {
      assert (a + b)[0] == a[0];
      assert (a + b)[1..] == a[1..] + b;
      StripCommasAppend(a[1..], b);
    }
  }

  /** Reference definition of the grouping: the last three characters form a
      group, the rest is grouped the same way, and a comma separates them. */
  function Group(s: string): string
    decreases |s|
  {
    if |s| <= 3 then s else Group(s[..|s| - 3]) + "," + s[|s| - 3..]
  }

  /** Prepending one character: a comma follows it exactly when the
      characters already copied form complete groups of three. This is the
      step the loop of `commaize` takes. */
  lemma {:induction false} GroupPrepend(c: char, t: string)
    ensures Group([c] + t) ==
      if |t| % 3 == 0 && |t| != 0 then [c, ','] + Group(t) else [c] + Group(t)
    decreases |t|
  {
    var s := [c] + t;
    if |t| > 3 {
      var u := t[..|t| - 3];
      assert s[..|s| - 3] == [c] + u;
      assert s[|s| - 3..] == t[|t| - 3..];
      GroupPrepend(c, u);
    } else if |t| == 3 {
      assert s[..|s| - 3] == [c];
      assert s[|s| - 3..] == t;
    }
  }

  /** Removing the commas gives back the characters grouped. */
  lemma {:induction false} StripGroup(s: string)
    requires NoCommas(s)
    ensures StripCommas(Group(s)) == s
    decreases |s|
  {
    if |s| > 3 {
      var u, v := s[..|s| - 3], s[|s| - 3..];
      StripGroup(u);
      StripCommasAppend(Group(u) + ",", v);
      StripCommasAppend(Group(u), ",");
      assert u + v == s;
    }
  }

  /** `d` characters grouped take `d + (d - 1) / 3` characters. */
  lemma {:induction false} GroupLength(s: string)
    requires |s| >= 1
    ensures |Group(s)| == |s| + (|s| - 1) / 3
    decreases |s|
  {
    if |s| > 3 {
      GroupLength(s[..|s| - 3]);
    }
  }

  /** A comma stands at position `k` exactly when `k > 0` and a multiple of
      four characters (a comma and three digits per group) follows it up to
      the end; in particular the result never starts with a comma. */
  lemma {:induction false} GroupCommaPositions(s: string, k: nat)
    requires NoCommas(s) && k < |Group(s)|
    ensures Group(s)[k] == ',' <==> k > 0 && (|Group(s)| - k) % 4 == 0
    decreases |s|
  {
    if |s| > 3 {
      var u := s[..|s| - 3];
      var g := Group(u);
      assert Group(s) == g + "," + s[|s| - 3..];
      if k < |g| {
        GroupCommaPositions(u, k);
        assert Group(s)[k] == g[k];
        assert |Group(s)| - k == (|g| - k) + 4;
      } else if k > |g| {
        assert Group(s)[k] == s[|s| - 3 + (k - |g| - 1)];
      } else if k == 0 {
        assert |u| >= 1;
        GroupLength(u);
      }
    }
  }

  /** The copy loop of `commaize`: `s1[i]` is moved in front of the result,
      preceded by a comma after every third character copied. */
  method GroupThousands(s1: string) returns (s2: string)
    ensures s2 == Group(s1)
  {
    s2 := [];
    var i := |s1| - 1;
    var j := 0;
    while i >= 0
      invariant -1 <= i < |s1| && j == |s1| - 1 - i
      invariant s2 == Group(s1[i + 1..])
    {
      ghost var t := s1[i + 1..];
      assert |t| == j && s1[i..] == [s1[i]] + t;
      GroupPrepend(s1[i], t);
      if j % 3 == 0 && j != 0 {
        s2 := [','] + s2;
      }
      s2 := [s1[i]] + s2;
      i := i - 1;
      j := j + 1;
    }
    assert s1[0..] == s1;
  }

  /** `commaize(n)` as written: the numeral comes from `%d`. For `n` up to
      `INT_MAX` the commas separate the decimal digits of `n` into groups of
      three from the right. */
  method Commaize(n: UInt) returns (r: string)
    ensures r == Group(FormatD(n))
    ensures forall k :: 0 <= k < |r| ==> (r[k] == ',' <==> k > 0 && (|r| - k) % 4 == 0)
    ensures n <= IntMax ==> StripCommas(r) == Decimal(n) && Value(StripCommas(r)) == n
    ensures n <= IntMax ==> |r| == |Decimal(n)| + (|Decimal(n)| - 1) / 3
  {
    r := GroupThousands(FormatD(n));
    forall k | 0 <= k < |r|
      ensures r[k] == ',' <==> k > 0 && (|r| - k) % 4 == 0
    {
      GroupCommaPositions(FormatD(n), k);
    }
    if n <= IntMax {
      StripGroup(Decimal(n));
      ValueOfDecimal(n);
      GroupLength(Decimal(n));
    }
  }

  /** Above `INT_MAX`, `%d` prints a minus sign, which the loop counts as a
      digit: 4294967173 comes out as "-,123". */
  lemma CommaizeSignMisplaced()
    ensures Group(FormatD(4294967173)) == "-,123"
  {
    assert FormatD(4294967173) == "-" + Decimal(123);
    assert Decimal(123) == "123";
  }

  /** `commaize` with `%u`, as evidently intended: every unsigned int comes
      out as its decimal digits grouped by three, with no sign. */
  method CommaizeUnsigned(n: UInt) returns (r: string)
    ensures r == Group(Decimal(n))
    ensures StripCommas(r) == Decimal(n) && Value(StripCommas(r)) == n
    ensures |r| == |Decimal(n)| + (|Decimal(n)| - 1) / 3
    ensures forall k :: 0 <= k < |r| ==> (r[k] == ',' <==> k > 0 && (|r| - k) % 4 == 0)
    ensures r[0] != ','
  {
    r := GroupThousands(Decimal(n));
    StripGroup(Decimal(n));
    ValueOfDecimal(n);
    GroupLength(Decimal(n));
    forall k | 0 <= k < |r|
      ensures r[k] == ',' <==> k > 0 && (|r| - k) % 4 == 0
    {
      GroupCommaPositions(Decimal(n), k);
    }
  }
}
