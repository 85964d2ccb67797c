/**
 String helpers with the meaning the C++ standard library gives them: the
 ordering `std::map<std::string, …>` keeps its keys in, `std::string::find`,
 and the string of `n` spaces `std::string(n, ' ')`.
 */
module Text {

  /** `a < b` on `std::string`: compare character by character, and a proper
      prefix comes first. (Comparing UTF-8 bytes and comparing code points give
      the same order, so comparing `char`s here agrees with the byte order.) */
  predicate Less(a: string, b: string)
  {
    if |a| == 0 then |b| > 0
    else if |b| == 0 then false
    else if a[0] != b[0] then a[0] < b[0]
    else Less(a[1..], b[1..])
  }

  lemma {:induction false} LessIrreflexive(a: string)
    ensures !Less(a, a)
  {
    if |a| > 0 {
      LessIrreflexive(a[1..]);
    }
  }

  lemma {:induction false} LessTransitive(a: string, b: string, c: string)
    requires Less(a, b) && Less(b, c)
    ensures Less(a, c)
  {
    if |a| > 0 && |b| > 0 && |c| > 0 && a[0] == b[0] && b[0] == c[0] {
      LessTransitive(a[1..], b[1..], c[1..]);
    }
  }

  /** Any two different strings are ordered one way or the other. */
  lemma {:induction false} LessTotal(a: string, b: string)
    requires a != b
    ensures Less(a, b) || Less(b, a)
  {
    if |a| > 0 && |b| > 0 && a[0] == b[0] {
      assert a == [a[0]] + a[1..] && b == [b[0]] + b[1..];
      LessTotal(a[1..], b[1..]);
    }
  }

  /** `pat` occurs in `s` at position `i`. */
  predicate OccursAt(s: string, pat: string, i: nat)
  {
    i + |pat| <= |s| && s[i..i + |pat|] == pat
  }

  /** `std::string::find(pat)`: the first position at which `pat` occurs in
      `s`, or -1 standing for `npos`. */
  function Find(s: string, pat: string): (r: int)
    ensures r == -1 || 0 <= r <= |s| - |pat|
    ensures r >= 0 ==> OccursAt(s, pat, r)
    ensures r >= 0 ==> forall i: nat :: i < r ==> !OccursAt(s, pat, i)
    ensures r == -1 ==> forall i: nat :: !OccursAt(s, pat, i)
  {
    FindFrom(s, pat, 0)
  }

  function FindFrom(s: string, pat: string, from: nat): (r: int)
    ensures r == -1 || from <= r <= |s| - |pat|
    ensures r >= 0 ==> OccursAt(s, pat, r)
    ensures r >= 0 ==> forall i: nat :: from <= i < r ==> !OccursAt(s, pat, i)
    ensures r == -1 ==> forall i: nat :: from <= i ==> !OccursAt(s, pat, i)
    decreases |s| - from
  {
    if from + |pat| > |s| then -1
    else if s[from..from + |pat|] == pat then from
    else FindFrom(s, pat, from + 1)
  }

  /** `s.find(pat) == 0` is exactly the test "`s` begins with `pat`". */
  lemma FindAtStartIsPrefix(s: string, pat: string)
    ensures Find(s, pat) == 0 <==> pat <= s
  {
    if pat <= s {
      assert OccursAt(s, pat, 0);
    }
  }

  /** `a` is the front of `a + b`, and `b` the rest. */
  lemma ConcatParts(a: string, b: string)
    ensures a <= a + b && (a + b)[..|a|] == a && (a + b)[|a|..] == b
  {
  }

  /** The number of bytes UTF-8 takes for one character. */
  function CharSize(c: char): (r: nat)
    ensures 1 <= r <= 4
    ensures r == 1 <==> c as int < 0x80
  {
    if c as int < 0x80 then 1
    else if c as int < 0x800 then 2
    else if c as int < 0x10000 then 3
    else 4
  }

  /** `std::string::size()`: the number of bytes of the UTF-8 encoding, which
      is at least the number of characters and equals it exactly for ASCII. */
  function Size(s: string): (r: nat)
    ensures |s| <= r <= 4 * |s|
  {
    if s == [] then 0 else CharSize(s[0]) + Size(s[1..])
  }

  lemma SizeConcat4(a: string, b: string, c: string, d: string)
    ensures Size(a + b + c + d) == Size(a) + Size(b) + Size(c) + Size(d)
  {
    SizeConcat(a, b);
    SizeConcat(a + b, c);
    SizeConcat(a + b + c, d);
  }

  /** A string has as many bytes as characters exactly when it is ASCII. */
  lemma {:induction false} SizeAscii(s: string)
    ensures Size(s) == |s| <==> forall i :: 0 <= i < |s| ==> s[i] as int < 0x80
  {
    if s != [] {
      SizeAscii(s[1..]);
      assert forall i :: 1 <= i < |s| ==> s[i] == s[1..][i - 1];
    }
  }

  /** A character outside ASCII takes more than one byte. */
  lemma SizeCountsBytes()
    ensures |"é"| == 1 && Size("é") == 2
  {
  }

  /** The size of a concatenation is the sum of the sizes. */
  lemma {:induction false} SizeConcat(a: string, b: string)
    ensures Size(a + b) == Size(a) + Size(b)
  {
    if a != [] {
      assert (a + b)[0] == a[0] && (a + b)[1..] == a[1..] + b;
      SizeConcat(a[1..], b);
    } else {
      assert a + b == b;
    }
  }

  /** `std::string(n, ' ')`. */
  function Spaces(n: nat): (r: string)
    ensures |r| == n && forall i :: 0 <= i < n ==> r[i] == ' '
  {
    if n == 0 then [] else [' '] + Spaces(n - 1)
  }
}
