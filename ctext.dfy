/**
 * Text helpers shared by the list printer and the shell: the decimal text
 * that printf's "%d" produces for an int, and the token splitting that the
 * shell gets from strtok with the delimiter set " \n" (ISO C11 section
 * 7.24.5.8). Characters model the C `char`s of a NUL-terminated string,
 * without the terminator.
 */
module CText {

  // ---------------------------------------------------------------------
  // Decimal formatting ("%d")
  // ---------------------------------------------------------------------

  predicate IsDigit(c: char) {
    '0' <= c <= '9'
  }

  function DigitChar(d: int): (c: char)
    requires 0 <= d < 10
    ensures IsDigit(c) && DigitValue(c) == d
  {
    ('0' as int + d) as char
  }

  function DigitValue(c: char): int {
    c as int - '0' as int
  }

  /** Decimal digits of n, most significant first, with no leading zero. */
  function NatToString(n: nat): (s: string)
    ensures |s| >= 1
    ensures forall i :: 0 <= i < |s| ==> IsDigit(s[i])
    ensures n > 0 ==> s[0] != '0'
    decreases n
  {
    if n < 10 then [DigitChar(n)] else NatToString(n / 10) + [DigitChar(n % 10)]
  }

  /** What printf("%d", n) writes: an optional minus sign, then the digits. */
  function IntToString(n: int): (s: string)
    ensures |s| >= 1
    ensures forall i :: 0 <= i < |s| ==> !IsDelim(s[i])
  {
    if n < 0 then "-" + NatToString(-n) else NatToString(n)
  }

  /** Value of a string of decimal digits (read back what NatToString wrote). */
  function ParseNat(s: string): int
    decreases |s|
  {
    if s == [] then 0 else 10 * ParseNat(s[..|s| - 1]) + DigitValue(s[|s| - 1])
  }

  function ParseInt(s: string): int {
    if |s| > 0 && s[0] == '-' then -ParseNat(s[1..]) else ParseNat(s)
  }

  lemma {:induction false} ParseNatToString(n: nat)
    ensures ParseNat(NatToString(n)) == n
    decreases n
  {
    if n >= 10 {
      var s := NatToString(n);
      assert s[..|s| - 1] == NatToString(n / 10);
      ParseNatToString(n / 10);
    }
  }

  /** The text "%d" prints determines the number: decimal formatting is injective. */
  lemma ParseIntToString(n: int)
    ensures ParseInt(IntToString(n)) == n
  {
    if n < 0 {
      assert IntToString(n)[1..] == NatToString(-n);
      ParseNatToString(-n);
    } else {
      ParseNatToString(n);
    }
  }

  lemma IntToStringInjective(m: int, n: int)
    ensures IntToString(m) == IntToString(n) <==> m == n
  {
    ParseIntToString(m);
    ParseIntToString(n);
  }

  /**
   * The characters of a C string: each stands for one byte, and none is the
   * NUL that would end the string.
   */
  predicate IsCString(s: string) {
    forall i :: 0 <= i < |s| ==> 0 < s[i] as int < 256
  }

  // ---------------------------------------------------------------------
  // strtok splitting on " \n"
  // ---------------------------------------------------------------------

  /** The shell's delimiter set " \n". */
  predicate IsDelim(c: char) {
    c == ' ' || c == '\n'
  }

  /** A token: a non-empty run of non-delimiter characters. */
  predicate IsWord(w: string) {
    |w| > 0 && forall i :: 0 <= i < |w| ==> !IsDelim(w[i])
  }

  /** Length of the leading run of non-delimiters of s. */
  function WordLength(s: string): (k: nat)
    ensures k <= |s|
    ensures s != [] && !IsDelim(s[0]) ==> k >= 1
    decreases |s|
  {
    if s == [] || IsDelim(s[0]) then 0 else 1 + WordLength(s[1..])
  }

  /**
   * The tokens successive strtok calls return: delimiters are skipped, and
   * each token is the maximal run of non-delimiters that follows.
   */
  function Tokens(s: string): seq<string>
    decreases |s|
  {
    if s == [] then []
    else if IsDelim(s[0]) then Tokens(s[1..])
    else
      var k := WordLength(s);
      [s[..k]] + Tokens(s[k..])
  }

  /** The leading run ends exactly at the first delimiter (or at the end). */
  lemma {:induction false} WordLengthAt(s: string, k: nat)
    requires k <= |s|
    requires forall i :: 0 <= i < k ==> !IsDelim(s[i])
    requires k == |s| || IsDelim(s[k])
    ensures WordLength(s) == k
    decreases k
  {
    if k > 0 {
      WordLengthAt(s[1..], k - 1);
    }
  }

  /** WordLength(s) really is the leading run: no delimiter before it, one (or the end) at it. */
  lemma {:induction false} WordLengthIsRun(s: string)
    ensures forall i :: 0 <= i < WordLength(s) ==> !IsDelim(s[i])
    ensures WordLength(s) == |s| || IsDelim(s[WordLength(s)])
    decreases |s|
  {
    if s != [] && !IsDelim(s[0]) {
      WordLengthIsRun(s[1..]);
      forall i | 0 < i < WordLength(s) ensures !IsDelim(s[i]) {
        assert s[i] == s[1..][i - 1];
      }
    }
  }

  /** Every token is a non-empty run with no delimiter in it. */
  lemma {:induction false} TokensAreWords(s: string)
    ensures forall t :: t in Tokens(s) ==> IsWord(t)
    decreases |s|
  {
    if s == [] {
    } else if IsDelim(s[0]) {
      TokensAreWords(s[1..]);
    } else {
      var k := WordLength(s);
      WordLengthIsRun(s);
      TokensAreWords(s[k..]);
    }
  }

  /** A single word is its own only token. */
  lemma TokensOfWord(w: string)
    requires IsWord(w)
    ensures Tokens(w) == [w]
  {
    WordLengthAt(w, |w|);
    assert w[..|w|] == w;
    assert w[|w|..] == [];
  }

  /** A string of delimiters has no token. */
  lemma {:induction false} TokensOfDelims(s: string)
    requires forall i :: 0 <= i < |s| ==> IsDelim(s[i])
    ensures Tokens(s) == []
    decreases |s|
  {
    if s != [] {
      TokensOfDelims(s[1..]);
    }
  }

  /** A delimiter separates tokens: nothing on either side of it is merged. */
  lemma {:induction false} TokensSplit(a: string, d: char, b: string)
    requires IsDelim(d)
    ensures Tokens(a + [d] + b) == Tokens(a) + Tokens(b)
    decreases |a|
  {
    if a == [] {
      assert (a + [d] + b)[1..] == b;
    } else if IsDelim(a[0]) {
      TokensSplit(a[1..], d, b);
      TokensSplitDelim(a, d, b);
    } else {
      var k := WordLength(a);
      TokensSplit(a[k..], d, b);
      TokensSplitWord(a, d, b);
    }
  }

  /** The step of TokensSplit past a leading delimiter of a. */
  lemma TokensSplitDelim(a: string, d: char, b: string)
    requires a != [] && IsDelim(a[0])
    requires Tokens(a[1..] + [d] + b) == Tokens(a[1..]) + Tokens(b)
    ensures Tokens(a + [d] + b) == Tokens(a) + Tokens(b)
  {
    assert (a + [d] + b)[1..] == a[1..] + [d] + b;
  }

  /** The step of TokensSplit past the leading word of a. */
  lemma TokensSplitWord(a: string, d: char, b: string)
    requires IsDelim(d) && a != [] && !IsDelim(a[0])
    requires Tokens(a[WordLength(a)..] + [d] + b) == Tokens(a[WordLength(a)..]) + Tokens(b)
    ensures Tokens(a + [d] + b) == Tokens(a) + Tokens(b)
  {
    var s := a + [d] + b;
    var k := WordLength(a);
    assert s[..k] == a[..k] && s[k..] == a[k..] + [d] + b;
    WordLengthBeforeDelim(a, d, b);
    calc {
      Tokens(s);
      { assert s[0] == a[0]; }
      [s[..k]] + Tokens(s[k..]);
      [a[..k]] + (Tokens(a[k..]) + Tokens(b));
      ([a[..k]] + Tokens(a[k..])) + Tokens(b);
      Tokens(a) + Tokens(b);
    }
  }

  /** A word of a is not extended across a delimiter that follows a. */
  lemma WordLengthBeforeDelim(a: string, d: char, b: string)
    requires IsDelim(d)
    ensures WordLength(a + [d] + b) == WordLength(a)
  {
    WordLengthIsRun(a);
    WordLengthAt(a + [d] + b, WordLength(a));
  }

  /** Skipping a delimiter does not change the remaining tokens (one strtok step). */
  lemma TokensSkipDelim(s: string, i: nat)
    requires i < |s| && IsDelim(s[i])
    ensures Tokens(s[i..]) == Tokens(s[i + 1..])
  {
    assert s[i..][1..] == s[i + 1..];
  }

  /** A maximal run s[i..j] is the next token (one strtok step). */
  lemma TokensTakeWord(s: string, i: nat, j: nat)
    requires i < j <= |s|
    requires forall m :: i <= m < j ==> !IsDelim(s[m])
    requires j == |s| || IsDelim(s[j])
    ensures Tokens(s[i..]) == [s[i..j]] + Tokens(s[j..])
  {
    var t := s[i..];
    WordLengthAt(t, j - i);
    assert t[..j - i] == s[i..j];
    assert t[j - i..] == s[j..];
  }

  /** A word followed by a space is one token. */
  lemma TokensWordSpace(w: string)
    requires IsWord(w)
    ensures Tokens(w + " ") == [w]
  {
    TokensOfWord(w);
    TokensSplit(w, ' ', "");
    assert w + [' '] + "" == w + " ";
  }

  /** Text that ends in a delimiter (or is empty) tokenises independently of what follows. */
  lemma TokensAfterDelim(a: string, b: string)
    requires a == [] || IsDelim(a[|a| - 1])
    ensures Tokens(a + b) == Tokens(a) + Tokens(b)
  {
    if a == [] {
      assert a + b == b;
    } else {
      var a', d := a[..|a| - 1], a[|a| - 1];
      assert a' + [d] + [] == a;
      assert a' + [d] + b == a + b;
      TokensSplit(a', d, b);
      TokensSplit(a', d, []);
    }
  }

  /**
   * strtok's loop over a line, as the shell runs it: skip delimiters, take
   * the maximal run that follows, repeat until the string ends.
   */
  method SplitTokens(line: string) returns (tokens: seq<string>)
    ensures tokens == Tokens(line)
  {
    tokens := [];
    var i := 0;
    while i < |line|
      invariant 0 <= i <= |line|
      invariant tokens + Tokens(line[i..]) == Tokens(line)
    {
      if IsDelim(line[i]) {
        TokensSkipDelim(line, i);
        i := i + 1;
      } else {
        var j := i + 1;
        while j < |line| && !IsDelim(line[j])
          invariant i < j <= |line|
          invariant forall m :: i <= m < j ==> !IsDelim(line[m])
        {
          j := j + 1;
        }
        TokensTakeWord(line, i, j);
        assert tokens + [line[i..j]] + Tokens(line[j..]) == tokens + Tokens(line[i..]);
        tokens := tokens + [line[i..j]];
        i := j;
      }
    }
    assert line[i..] == [];
  }
}
