/** The few string operations the ranking needs: `sprintf("%d", …)`,
    `join`, `str_replace(" ", "_", …)`, and the facts that make a string
    built from them readable back into its parts. */
module Text {

  predicate IsDigit(c: char)
  {
    '0' <= c <= '9'
  }

  function DigitChar(d: nat): (c: char)
    requires d < 10
    ensures IsDigit(c)
  {
    (('0' as int) + d) as char
  }

  /** Decimal rendering of a natural number, most significant digit first. */
  function NatToString(n: nat): (s: string)
    ensures |s| >= 1
    ensures forall i :: 0 <= i < |s| ==> IsDigit(s[i])
    decreases n
  {
    if n < 10 then [DigitChar(n)] else NatToString(n / 10) + [DigitChar(n % 10)]
  }

  /** PHP's `sprintf("%d", i)`: a minus sign for negative numbers, then the
      decimal digits of the magnitude. */
  function IntToString(i: int): (s: string)
    ensures |s| >= 1
    ensures s[0] == '-' <==> i < 0
    ensures i >= 0 ==> IsDigit(s[0])
    ensures forall k :: 1 <= k < |s| ==> IsDigit(s[k])
  {
    if i < 0 then "-" + NatToString(-i) else NatToString(i)
  }

  lemma NatToStringShort(n: nat)
    ensures |NatToString(n)| == 1 <==> n < 10
  {
    if n >= 10 {
      assert |NatToString(n / 10)| >= 1;
    }
  }

  lemma {:induction false} NatToStringInjective(a: nat, b: nat)
    requires NatToString(a) == NatToString(b)
    ensures a == b
    decreases a
  {
    var sa, sb := NatToString(a), NatToString(b);
    NatToStringShort(a);
    NatToStringShort(b);
    if a < 10 {
      assert sa[0] == sb[0];
    } else {
      var pa, pb := NatToString(a / 10), NatToString(b / 10);
      assert sa == pa + [DigitChar(a % 10)];
      assert sb == pb + [DigitChar(b % 10)];
      assert |pa| == |pb|;
      assert pa == sa[..|pa|] && pb == sb[..|pb|];
      NatToStringInjective(a / 10, b / 10);
      assert sa[|pa|] == sb[|pb|];
    }
  }

  /** Distinct numbers render as distinct strings. */
  lemma IntToStringInjective(a: int, b: int)
    requires IntToString(a) == IntToString(b)
    ensures a == b
  {
    var sa, sb := IntToString(a), IntToString(b);
    assert (sa[0] == '-') == (a < 0);
    assert (sb[0] == '-') == (b < 0);
    if a < 0 {
      assert NatToString(-a) == sa[1..] && NatToString(-b) == sb[1..];
      NatToStringInjective(-a, -b);
    } else {
      NatToStringInjective(a, b);
    }
  }

  /** A piece of a cache file name that can be cut back out of it: it is not
      empty, holds no `_`, and holds a `-` at most as its first character. */
  predicate Field(s: string)
  {
    && |s| >= 1
    && (forall i :: 0 <= i < |s| ==> s[i] != '_')
    && (forall i :: 1 <= i < |s| ==> s[i] != '-')
  }

  lemma IntToStringIsField(i: int)
    ensures Field(IntToString(i))
  {
    var s := IntToString(i);
    if i < 0 {
      assert s == "-" + NatToString(-i);
      forall k | 1 <= k < |s| ensures s[k] != '-' && s[k] != '_' {
        assert s[k] == NatToString(-i)[k - 1];
      }
    }
  }

  /** Cutting a string at the first separator after a field recovers both
      the field and the rest. */
  lemma {:induction false} SplitField(a: string, x: string, c: string, y: string, sep: char)
    requires sep == '-' || sep == '_'
    requires Field(a) && Field(c)
    requires a + [sep] + x == c + [sep] + y
    ensures a == c && x == y
  {
    var s, t := a + [sep] + x, c + [sep] + y;
    assert forall k :: 1 <= k < |a| ==> s[k] == a[k];
    assert forall k :: 1 <= k < |c| ==> t[k] == c[k];
    assert s[|a|] == sep && t[|c|] == sep;
    assert |a| == |c|;
    assert a == s[..|a|] && c == t[..|c|];
    assert x == s[|a| + 1..] && y == t[|c| + 1..];
  }

  /** PHP's `join(sep, parts)`. */
  function Join(sep: string, parts: seq<string>): (r: string)
    ensures |parts| == 1 ==> r == parts[0]
    ensures |parts| == 0 ==> r == ""
  {
    if |parts| == 0 then ""
    else if |parts| == 1 then parts[0]
    else parts[0] + sep + Join(sep, parts[1..])
  }

  /** Appending a part appends the separator and the part. */
  lemma {:induction false} JoinSnoc(sep: string, parts: seq<string>, p: string)
    requires |parts| >= 1
    ensures Join(sep, parts + [p]) == Join(sep, parts) + sep + p
    decreases |parts|
  {
    if |parts| == 1 {
      assert (parts + [p])[1..] == [p];
    } else {
      JoinSnoc(sep, parts[1..], p);
      assert (parts + [p])[1..] == parts[1..] + [p];
    }
  }

  /** PHP's `explode` on a one-character separator: the pieces between the
      separators, as many as there are separators plus one. */
  function Split(sep: char, s: string): (parts: seq<string>)
    ensures |parts| >= 1
    decreases |s|
  {
    if |s| == 0 then [""]
    else
      var rest := Split(sep, s[1..]);
      if s[0] == sep then [""] + rest else [[s[0]] + rest[0]] + rest[1..]
  }

  /** A string without the separator is one piece. */
  lemma {:induction false} SplitNoSep(sep: char, a: string)
    requires sep !in a
    ensures Split(sep, a) == [a]
    decreases |a|
  {
    if |a| > 0 {
      SplitNoSep(sep, a[1..]);
      assert [a[0]] + a[1..] == a;
    }
  }

  /** A leading piece without the separator is cut off as it is. */
  lemma {:induction false} SplitCons(sep: char, a: string, t: string)
    requires sep !in a
    ensures Split(sep, a + [sep] + t) == [a] + Split(sep, t)
    decreases |a|
  {
    var s := a + [sep] + t;
    if |a| == 0 {
      assert s[1..] == t;
    } else {
      assert s[1..] == a[1..] + [sep] + t;
      SplitCons(sep, a[1..], t);
      assert [a[0]] + a[1..] == a;
    }
  }

  /** Splitting a joined list at the separator gives the list back, when no
      part holds the separator. */
  lemma {:induction false} JoinSplit(sep: char, parts: seq<string>)
    requires |parts| >= 1
    requires forall i :: 0 <= i < |parts| ==> sep !in parts[i]
    ensures Split(sep, Join([sep], parts)) == parts
    decreases |parts|
  {
    if |parts| == 1 {
      SplitNoSep(sep, parts[0]);
    } else {
      JoinSplit(sep, parts[1..]);
      SplitCons(sep, parts[0], Join([sep], parts[1..]));
      assert [parts[0]] + parts[1..] == parts;
    }
  }

  /** PHP's `str_replace(" ", "_", s)`. */
  function ReplaceSpaces(s: string): (r: string)
    ensures |r| == |s|
    ensures forall i :: 0 <= i < |s| ==> r[i] == (if s[i] == ' ' then '_' else s[i])
  {
    if |s| == 0 then "" else [if s[0] == ' ' then '_' else s[0]] + ReplaceSpaces(s[1..])
  }

  /** The cache name never holds a space, and sanitising twice changes
      nothing. */
  lemma ReplaceSpacesIdempotent(s: string)
    ensures ' ' !in ReplaceSpaces(s)
    ensures ReplaceSpaces(ReplaceSpaces(s)) == ReplaceSpaces(s)
  {
  }
}
