/**
 * The PHP string built-ins that Http.php relies on, restricted to what it
 * uses: strtoupper, trim with its default character list, strpos for one
 * character, explode (with and without a limit of 2), implode, and PHP's
 * rule for which array keys are integers.
 */
module PhpStrings {
  import opened Wrappers

  /** strtoupper since PHP 8.2: only the ASCII letters a-z change. */
  function UpperChar(c: char): (u: char)
    ensures 'a' <= c <= 'z' ==> 'A' <= u <= 'Z' && u as int == c as int - 32
    ensures !('a' <= c <= 'z') ==> u == c
  {
    if 'a' <= c <= 'z' then (c as int - 32) as char else c
  }

  function Upper(s: string): (r: string)
    ensures |r| == |s|
    ensures forall i :: 0 <= i < |s| ==> r[i] == UpperChar(s[i])
  {
    seq(|s|, i requires 0 <= i < |s| => UpperChar(s[i]))
  }

  /** PHP strtoupper is idempotent. */
  lemma UpperIdempotent(s: string)
    ensures Upper(Upper(s)) == Upper(s)
  {
  }

  /** The characters trim() removes by default: " \t\n\r\0\x0B". */
  predicate IsTrimmed(c: char) {
    c == ' ' || c == '\t' || c == '\n' || c == '\r' || c == '\0' || c == '\U{0B}'
  }

  function TrimLeft(s: string): (r: string)
    ensures |r| <= |s| && r == s[|s| - |r|..]
    ensures forall k :: 0 <= k < |s| - |r| ==> IsTrimmed(s[k])
    ensures r == [] || !IsTrimmed(r[0])
  {
    if |s| > 0 && IsTrimmed(s[0]) then TrimLeft(s[1..]) else s
  }

  function TrimRight(s: string): (r: string)
    ensures |r| <= |s| && r == s[..|r|]
    ensures forall k :: |r| <= k < |s| ==> IsTrimmed(s[k])
    ensures r == [] || !IsTrimmed(r[|r| - 1])
  {
    if |s| > 0 && IsTrimmed(s[|s| - 1]) then TrimRight(s[..|s| - 1]) else s
  }

  /** trim($s): the longest infix of s that begins and ends with a character trim keeps. */
  function Trim(s: string): (r: string)
  {
    TrimRight(TrimLeft(s))
  }

  /**
   * Trim removes exactly the trimmable characters at both ends and nothing
   * else: it is the infix s[i..j], everything before i and from j on is
   * trimmable, and the infix neither starts nor ends with a trimmable character.
   */
  lemma TrimIsInfix(s: string) returns (i: nat, j: nat)
    ensures i <= j <= |s| && Trim(s) == s[i..j]
    ensures forall k :: 0 <= k < i ==> IsTrimmed(s[k])
    ensures forall k :: j <= k < |s| ==> IsTrimmed(s[k])
    ensures Trim(s) == [] || (!IsTrimmed(Trim(s)[0]) && !IsTrimmed(Trim(s)[|Trim(s)| - 1]))
  {
    var l := TrimLeft(s);
    var r := TrimRight(l);
    i := |s| - |l|;
    j := i + |r|;
    PrefixOfSuffix(s, l, r);
    TrimEnds(l);
  }

  /** A prefix r of a suffix l of s is the infix of s between |s| - |l| and |s| - |l| + |r|. */
  lemma PrefixOfSuffix(s: string, l: string, r: string)
    requires |l| <= |s| && l == s[|s| - |l|..]
    requires |r| <= |l| && r == l[..|r|]
    requires forall k :: |r| <= k < |l| ==> IsTrimmed(l[k])
    ensures r == s[|s| - |l|..|s| - |l| + |r|]
    ensures forall k :: |s| - |l| + |r| <= k < |s| ==> IsTrimmed(s[k])
  {
    var i := |s| - |l|;
    forall k | i + |r| <= k < |s| ensures IsTrimmed(s[k]) {
      assert s[k] == l[k - i];
    }
  }

  lemma TrimEnds(l: string)
    requires l == [] || !IsTrimmed(l[0])
    ensures TrimRight(l) == [] || (!IsTrimmed(TrimRight(l)[0]) && !IsTrimmed(TrimRight(l)[|TrimRight(l)| - 1]))
  {
    var r := TrimRight(l);
    if r != [] {
      assert r[0] == l[0];
    }
  }

  /** A string that has nothing trim() would remove is its own trim. */
  lemma TrimOfTrimmed(s: string)
    requires s == [] || (!IsTrimmed(s[0]) && !IsTrimmed(s[|s| - 1]))
    ensures Trim(s) == s
  {
  }

  /** trim() is idempotent. */
  lemma TrimIdempotent(s: string)
    ensures Trim(Trim(s)) == Trim(s)
  {
    var _, _ := TrimIsInfix(s);
    TrimOfTrimmed(Trim(s));
  }

  /** A leading blank disappears under trim(). */
  lemma TrimDropsLeadingSpace(s: string)
    ensures Trim(" " + s) == Trim(s)
  {
    assert (" " + s)[1..] == s;
  }

  /** strpos($s, $c) for a one-character needle: the first position of c, or false. */
  function IndexOf(s: string, c: char): (r: Option<nat>)
    ensures r.Some? ==> r.value < |s| && s[r.value] == c && c !in s[..r.value]
    ensures r.None? <==> c !in s
  {
    if s == [] then None
    else if s[0] == c then Some(0)
    else match IndexOf(s[1..], c)
      case None => None
      case Some(i) => Some(i + 1)
  }

  /** The first position of c in a + [c] + b, when a has no c, is |a|. */
  lemma IndexOfFirst(a: string, c: char, b: string)
    requires c !in a
    ensures IndexOf(a + [c] + b, c) == Some(|a|)
  {
    var s := a + [c] + b;
    assert s[..|a|] == a;
    assert s[|a|] == c;
  }

  /**
   * explode($c, $s, 2): the part before the first c and the part after it,
   * or None when s holds no c (the array then has no element at index 1).
   */
  function SplitFirst(s: string, c: char): (r: Option<(string, string)>)
    ensures r.None? <==> c !in s
    ensures r.Some? ==> c !in r.value.0 && s == r.value.0 + [c] + r.value.1
  {
    match IndexOf(s, c)
      case None => None
      case Some(i) => Some((s[..i], s[i + 1..]))
  }

  /** Splitting at the first c finds the separator right after a c-free prefix. */
  lemma SplitFirstAt(a: string, c: char, b: string)
    requires c !in a
    ensures SplitFirst(a + [c] + b, c) == Some((a, b))
  {
    IndexOfFirst(a, c, b);
    var s := a + [c] + b;
    assert s[..|a|] == a;
    assert s[|a| + 1..] == b;
  }

  /** explode($c, $s): s cut at every c; never empty. */
  function Explode(s: string, c: char): (parts: seq<string>)
    ensures |parts| >= 1
    ensures forall k :: 0 <= k < |parts| ==> c !in parts[k]
    decreases |s|
  {
    match SplitFirst(s, c)
      case None => [s]
      case Some((head, tail)) => [head] + Explode(tail, c)
  }

  /** implode($c, $parts). */
  function Implode(parts: seq<string>, c: char): string
  {
    if parts == [] then ""
    else if |parts| == 1 then parts[0]
    else parts[0] + [c] + Implode(parts[1..], c)
  }

  /** Explode undoes Implode when no part holds the separator. */
  lemma {:induction false} ExplodeImplode(parts: seq<string>, c: char)
    requires |parts| >= 1
    requires forall k :: 0 <= k < |parts| ==> c !in parts[k]
    ensures Explode(Implode(parts, c), c) == parts
  {
    if |parts| > 1 {
      SplitFirstAt(parts[0], c, Implode(parts[1..], c));
      ExplodeImplode(parts[1..], c);
    }
  }

  /** Implode undoes Explode. */
  lemma {:induction false} ImplodeExplode(s: string, c: char)
    ensures Implode(Explode(s, c), c) == s
    decreases |s|
  {
    match SplitFirst(s, c)
    case None =>
    case Some((head, tail)) =>
      ImplodeExplode(tail, c);
      assert Explode(s, c)[1..] == Explode(tail, c);
  }

  /** Every part of an implosion occurs inside it. */
  lemma {:induction false} ImplodeContains(parts: seq<string>, c: char, i: nat)
    requires i < |parts|
    ensures forall x :: x in parts[i] ==> x in Implode(parts, c)
  {
    if |parts| > 1 {
      var s := Implode(parts, c);
      if i == 0 {
        assert forall x :: x in parts[0] ==> x in s by {
          assert s == parts[0] + ([c] + Implode(parts[1..], c));
        }
      } else {
        ImplodeContains(parts[1..], c, i - 1);
        assert s == (parts[0] + [c]) + Implode(parts[1..], c);
      }
    }
  }

  /** A character that is not the separator and occurs in no part does not occur in the implosion. */
  lemma {:induction false} ImplodeAvoid(parts: seq<string>, c: char, x: char)
    requires x != c
    requires forall i :: 0 <= i < |parts| ==> x !in parts[i]
    ensures x !in Implode(parts, c)
  {
    if |parts| > 1 {
      ImplodeAvoid(parts[1..], c, x);
      var s := Implode(parts, c);
      assert s == parts[0] + [c] + Implode(parts[1..], c);
    }
  }

  predicate IsDigit(c: char) {
    '0' <= c <= '9'
  }

  predicate AllDigits(s: string) {
    forall k :: 0 <= k < |s| ==> IsDigit(s[k])
  }

  function DigitsValue(s: string): (n: nat)
    requires AllDigits(s)
  {
    if s == [] then 0 else 10 * DigitsValue(s[..|s| - 1]) + (s[|s| - 1] as int - '0' as int)
  }

  const IntMin: int := -0x8000_0000_0000_0000
  const IntMax: int := 0x7FFF_FFFF_FFFF_FFFF

  /**
   * PHP stores a string array key as an integer key when it is the canonical
   * decimal form of a 64-bit integer: "0", or an optional "-" followed by
   * digits that do not start with 0 ("-0" stays a string).
   */
  function IntegerKey(s: string): (r: Option<int>)
    ensures r.Some? ==> IntMin <= r.value <= IntMax
    ensures r.Some? ==> s != [] && (s == "0" || s[0] != '0')
  {
    if s == "0" then Some(0)
    else if |s| >= 1 && s[0] != '-' && s[0] != '0' && AllDigits(s) && DigitsValue(s) <= IntMax then Some(DigitsValue(s))
    else if |s| >= 2 && s[0] == '-' && s[1] != '0' && AllDigits(s[1..]) && DigitsValue(s[1..]) <= -IntMin then Some(0 - DigitsValue(s[1..]) as int)
    else None
  }

  /** The decimal digits of n, most significant first, without leading zeros. */
  function NatDigits(n: nat): (s: string)
    ensures s != [] && AllDigits(s) && DigitsValue(s) == n
    ensures n > 0 ==> s[0] != '0'
  {
    var d := ['0' + (n % 10) as char];
    if n < 10 then d
    else
      var high := NatDigits(n / 10);
      var s := high + d;
      assert s[..|s| - 1] == high;
      s
  }

  /** The canonical decimal form of n, as PHP prints an integer: a "-" before a negative one. */
  function DecimalOf(n: int): string
  {
    if n < 0 then "-" + NatDigits(-n) else NatDigits(n)
  }

  /** A digit string without a leading zero has a positive value. */
  lemma {:induction false} LeadingDigitPositive(s: string)
    requires s != [] && AllDigits(s) && s[0] != '0'
    ensures DigitsValue(s) > 0
  {
    if |s| > 1 {
      var p := s[..|s| - 1];
      assert p[0] == s[0];
      assert AllDigits(p) by {
        assert forall k :: 0 <= k < |p| ==> p[k] == s[k];
      }
      LeadingDigitPositive(p);
    }
  }

  /** A digit string without leading zeros ("0" aside) is the decimal form of its value. */
  lemma {:induction false} DigitsCanonical(s: string)
    requires s != [] && AllDigits(s) && (s == "0" || s[0] != '0')
    ensures NatDigits(DigitsValue(s)) == s
  {
    var c := s[|s| - 1];
    if |s| == 1 {
      assert s == [c];
      assert s[..0] == [];
    } else {
      var p := s[..|s| - 1];
      assert p[0] == s[0] && s[0] != '0';
      assert AllDigits(p) by {
        assert forall k :: 0 <= k < |p| ==> p[k] == s[k];
      }
      LeadingDigitPositive(p);
      DigitsCanonical(p);
      var n := DigitsValue(s);
      assert n == 10 * DigitsValue(p) + (c as int - '0' as int);
      assert n / 10 == DigitsValue(p) && n % 10 == c as int - '0' as int;
      assert ['0' + (n % 10) as char] == [c];
      assert s == p + [c];
    }
  }

  /**
   * A string is stored as the integer key n exactly when it is n's canonical
   * decimal form and n fits in 64 bits.
   */
  lemma IntegerKeyIff(s: string, n: int)
    ensures IntegerKey(s) == Some(n) <==> IntMin <= n <= IntMax && s == DecimalOf(n)
  {
    if IntegerKey(s) == Some(n) {
      IntegerKeyIsDecimal(s);
    }
    if IntMin <= n <= IntMax && s == DecimalOf(n) {
      DecimalIsIntegerKey(n);
    }
  }

  lemma IntegerKeyIsDecimal(s: string)
    requires IntegerKey(s).Some?
    ensures s == DecimalOf(IntegerKey(s).value)
  {
    if s == "0" {
      assert NatDigits(0) == "0";
    } else if s[0] != '-' {
      LeadingDigitPositive(s);
      DigitsCanonical(s);
    } else {
      var t := s[1..];
      assert t[0] == s[1];
      LeadingDigitPositive(t);
      DigitsCanonical(t);
      assert s == "-" + t;
    }
  }

  lemma DecimalIsIntegerKey(n: int)
    requires IntMin <= n <= IntMax
    ensures IntegerKey(DecimalOf(n)) == Some(n)
  {
    if n == 0 {
      assert NatDigits(0) == "0";
    } else if n > 0 {
      var s := NatDigits(n);
      assert s[0] != '0';
    } else {
      var t := NatDigits(-n);
      var s := "-" + t;
      assert s[1..] == t && s[0] == '-' && s[1] == t[0];
    }
  }

  /** A key holding a letter is never an integer key. */
  lemma NoLetterNoIntegerKey(s: string, k: nat)
    requires k < |s| && !IsDigit(s[k]) && s[k] != '-'
    ensures IntegerKey(s) == None
  {
    if IntegerKey(s).Some? && s != "0" {
      if s[0] == '-' {
        assert k > 0;
        assert s[1..][k - 1] == s[k];
      }
    }
  }
}
