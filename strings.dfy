/**
 * The Python `str` operations the crawlers and the store rely on, stated on
 * `seq<char>`: strip, lower/upper, find, split, join, replace, slicing and
 * decimal formatting of integers.
 */
module Strings {
  import opened Wrappers

  /** Python's `str.isspace` for one character. */
  predicate IsSpace(c: char)
  {
    c == ' ' || ('\t' <= c <= '\r') || ('\U{1C}' <= c <= '\U{1F}') || c == '\U{85}' || c == '\U{A0}'
    || c == '\U{1680}' || ('\U{2000}' <= c <= '\U{200A}') || c == '\U{2028}' || c == '\U{2029}'
    || c == '\U{202F}' || c == '\U{205F}' || c == '\U{3000}'
  }

  /** `str.lstrip()`: the suffix left after the longest whitespace prefix. */
  function LStrip(s: string): (r: string)
    ensures |r| <= |s| && r == s[|s| - |r|..]
    ensures r == [] || !IsSpace(r[0])
    ensures forall k :: 0 <= k < |s| - |r| ==> IsSpace(s[k])
  {
    if s != [] && IsSpace(s[0]) then LStrip(s[1..]) else s
  }

  /** `str.rstrip()`: the prefix left after the longest whitespace suffix. */
  function RStrip(s: string): (r: string)
    ensures |r| <= |s| && r == s[..|r|]
    ensures r == [] || !IsSpace(r[|r| - 1])
    ensures forall k :: |r| <= k < |s| ==> IsSpace(s[k])
  {
    if s != [] && IsSpace(s[|s| - 1]) then RStrip(s[..|s| - 1]) else s
  }

  /** `str.strip()`: `s` without its leading and trailing whitespace. */
  function Strip(s: string): string
  {
    RStrip(LStrip(s))
  }

  /** `Strip(s)` has no surrounding whitespace and is a prefix of `LStrip(s)`. */
  lemma StripFacts(s: string)
    ensures var r := Strip(s);
      |r| <= |s| && (r == [] || (!IsSpace(r[0]) && !IsSpace(r[|r| - 1])))
      && |r| <= |LStrip(s)| && r == LStrip(s)[..|r|]
  {
  }

  /** Every character of `Strip(s)` is a character of `s`. */
  lemma StripWithin(s: string)
    ensures forall c :: c in Strip(s) ==> c in s
  {
    var l := LStrip(s);
    var r := Strip(s);
    StripFacts(s);
    forall c | c in r
      ensures c in s
    {
      var i :| 0 <= i < |r| && r[i] == c;
      assert l[i] == c;
      assert s[|s| - |l| + i] == c;
    }
  }

  function LowerChar(c: char): char
  {
    if 'A' <= c <= 'Z' then (c as int + 32) as char else c
  }

  function UpperChar(c: char): char
  {
    if 'a' <= c <= 'z' then (c as int - 32) as char else c
  }

  /** `str.lower()` on ASCII letters. */
  function Lower(s: string): (r: string)
    ensures |r| == |s|
  {
    seq(|s|, i requires 0 <= i < |s| => LowerChar(s[i]))
  }

  /** `str.upper()` on ASCII letters. */
  function Upper(s: string): (r: string)
    ensures |r| == |s|
  {
    seq(|s|, i requires 0 <= i < |s| => UpperChar(s[i]))
  }

  /** `str.isalnum()` for one ASCII character. */
  predicate IsAlnum(c: char)
  {
    ('a' <= c <= 'z') || ('A' <= c <= 'Z') || ('0' <= c <= '9')
  }

  predicate StartsWith(s: string, prefix: string)
  {
    prefix <= s
  }

  predicate EndsWith(s: string, suffix: string)
  {
    |suffix| <= |s| && s[|s| - |suffix|..] == suffix
  }

  /** A string in which `c` does not occur. */
  predicate Without(s: string, c: char)
  {
    forall i :: 0 <= i < |s| ==> s[i] != c
  }

  lemma WithoutConcat(a: string, b: string, c: char)
    requires Without(a, c) && Without(b, c)
    ensures Without(a + b, c)
  {
    forall i | 0 <= i < |a + b|
      ensures (a + b)[i] != c
    {
      if i >= |a| {
        assert (a + b)[i] == b[i - |a|];
      }
    }
  }

  /** `sub` occurs in `s` at index `i`. */
  predicate OccursAt(s: string, sub: string, i: int)
  {
    0 <= i && i + |sub| <= |s| && s[i..i + |sub|] == sub
  }

  /** `s.find(sub, i)`, as an option: the first occurrence at or after `i`. */
  function IndexFrom(s: string, sub: string, i: nat): (r: Option<nat>)
    ensures r.Some? ==> i <= r.value && OccursAt(s, sub, r.value)
    ensures r.Some? ==> forall j :: i <= j < r.value ==> !OccursAt(s, sub, j)
    ensures r.None? ==> forall j :: i <= j ==> !OccursAt(s, sub, j)
    decreases |s| - i
  {
    if i + |sub| > |s| then None
    else if s[i..i + |sub|] == sub then Some(i)
    else IndexFrom(s, sub, i + 1)
  }

  /** `s.find(sub)`, as an option. */
  function IndexOf(s: string, sub: string): (r: Option<nat>)
    ensures r.Some? ==> OccursAt(s, sub, r.value) && forall j :: 0 <= j < r.value ==> !OccursAt(s, sub, j)
    ensures r.None? ==> forall j :: !OccursAt(s, sub, j)
  {
    IndexFrom(s, sub, 0)
  }

  /** Python's `sub in s` for strings. */
  predicate Contains(s: string, sub: string)
  {
    IndexOf(s, sub).Some?
  }

  lemma ContainsAt(s: string, sub: string, i: int)
    requires OccursAt(s, sub, i)
    ensures Contains(s, sub)
  {
  }

  /** `s.replace(pat, repl, 1)`. */
  function ReplaceFirst(s: string, pat: string, repl: string): string
  {
    match IndexOf(s, pat)
    case None => s
    case Some(k) => s[..k] + repl + s[k + |pat|..]
  }

  /** `s.replace(a, b)` for single characters. */
  function ReplaceChar(s: string, a: char, b: char): (r: string)
    ensures |r| == |s|
    ensures forall i :: 0 <= i < |s| ==> r[i] == (if s[i] == a then b else s[i])
  {
    seq(|s|, i requires 0 <= i < |s| => if s[i] == a then b else s[i])
  }

  /** `s[:n]`. */
  function Take(s: string, n: nat): (r: string)
    ensures |r| <= n && r <= s
    ensures |s| <= n ==> r == s
  {
    if |s| <= n then s else s[..n]
  }

  /** `s.rstrip(c)`: drops every trailing `c`. */
  function RStripChar(s: string, c: char): (r: string)
    ensures r <= s && (r == [] || r[|r| - 1] != c)
    ensures forall k :: |r| <= k < |s| ==> s[k] == c
  {
    if s != [] && s[|s| - 1] == c then RStripChar(s[..|s| - 1], c) else s
  }

  /** `s.split(sep)` for a non-empty separator: the pieces between non-overlapping occurrences, left to right. */
  function Split(s: string, sep: string): (parts: seq<string>)
    requires sep != []
    ensures |parts| >= 1
    decreases |s|
  {
    match IndexOf(s, sep)
    case None => [s]
    case Some(k) => [s[..k]] + Split(s[k + |sep|..], sep)
  }

  /** `sep.join(xs)`. */
  function Join(xs: seq<string>, sep: string): string
  {
    if |xs| == 0 then "" else if |xs| == 1 then xs[0] else xs[0] + sep + Join(xs[1..], sep)
  }

  function Last<T>(xs: seq<T>): T
    requires xs != []
  {
    xs[|xs| - 1]
  }

  /** `s.split(sep)[-1]`: what follows the last occurrence of `sep`. */
  function AfterLast(s: string, sep: string): string
    requires sep != []
    decreases |s|
  {
    match IndexOf(s, sep)
    case None => s
    case Some(k) => AfterLast(s[k + |sep|..], sep)
  }

  /** `AfterLast` is the last piece `Split` produces. */
  lemma {:induction false} AfterLastIsLastPiece(s: string, sep: string)
    requires sep != []
    ensures AfterLast(s, sep) == Last(Split(s, sep))
    decreases |s|
  {
    match IndexOf(s, sep)
    case None =>
    case Some(k) =>
      AfterLastIsLastPiece(s[k + |sep|..], sep);
  }

  /** `s.split(sep)[-1]` is a suffix of `s`. */
  lemma {:induction false} AfterLastSuffix(s: string, sep: string)
    requires sep != []
    ensures EndsWith(s, AfterLast(s, sep))
    decreases |s|
  {
    var found := IndexOf(s, sep);
    if found.Some? {
      var k := found.value;
      var rest := s[k + |sep|..];
      AfterLastSuffix(rest, sep);
      var r := AfterLast(rest, sep);
      assert s[|s| - |r|..] == rest[|rest| - |r|..];
    }
  }

  /** `s.split(sep)[-1]` holds no `sep`, and is all of `s` when `sep` does not occur. */
  lemma {:induction false} AfterLastHasNoSeparator(s: string, sep: string)
    requires sep != []
    ensures !Contains(AfterLast(s, sep), sep)
    ensures !Contains(s, sep) ==> AfterLast(s, sep) == s
    decreases |s|
  {
    var found := IndexOf(s, sep);
    if found.Some? {
      AfterLastHasNoSeparator(s[found.value + |sep|..], sep);
    }
  }

  /** When `sep` occurs in `s`, `s.split(sep)[-1]` is preceded by an occurrence of `sep`. */
  lemma {:induction false} AfterLastFollowsSeparator(s: string, sep: string)
    requires sep != [] && Contains(s, sep)
    ensures |AfterLast(s, sep)| + |sep| <= |s|
    ensures OccursAt(s, sep, |s| - |AfterLast(s, sep)| - |sep|)
    decreases |s|
  {
    var k := IndexOf(s, sep).value;
    var d := k + |sep|;
    var rest := s[d..];
    var r := AfterLast(rest, sep);
    assert AfterLast(s, sep) == r;
    AfterLastSuffix(rest, sep);
    if Contains(rest, sep) {
      AfterLastFollowsSeparator(rest, sep);
      OccursShifted(s, sep, d, |rest| - |r| - |sep|);
    } else {
      AfterLastHasNoSeparator(rest, sep);
    }
  }

  /** An occurrence in a suffix of `s` is an occurrence in `s`, shifted. */
  lemma OccursShifted(s: string, sub: string, d: nat, m: nat)
    requires d <= |s| && OccursAt(s[d..], sub, m)
    ensures OccursAt(s, sub, d + m)
  {
    assert s[d + m..d + m + |sub|] == s[d..][m..m + |sub|];
  }

  /**
   * `'; '.join` followed by `.split('; ')` gives the list back, provided it is
   * not empty and no element contains the separator.
   */
  lemma {:induction false} SplitJoinRoundTrip(xs: seq<string>)
    requires xs != []
    requires forall x :: x in xs ==> !Contains(x, "; ")
    ensures Split(Join(xs, "; "), "; ") == xs
  {
    var sep := "; ";
    assert xs[0] in xs;
    if |xs| == 1 {
      assert Join(xs, sep) == xs[0];
      assert IndexOf(xs[0], sep).None?;
    } else {
      var x := xs[0];
      assert IndexOf(x, sep).None?;
      forall y | y in xs[1..] ensures !Contains(y, sep) {
        assert y in xs;
      }
      var rest := Join(xs[1..], sep);
      var s := x + sep + rest;
      assert Join(xs, sep) == s;
      assert OccursAt(s, sep, |x|) by { assert s[|x|..|x| + 2] == sep; }
      forall j | 0 <= j < |x|
        ensures !OccursAt(s, sep, j)
      {
        if j + 2 <= |x| {
          assert s[j..j + 2] == x[j..j + 2];
          assert !OccursAt(x, sep, j);
        } else {
          assert s[j + 1] == ';';
        }
      }
      assert IndexOf(s, sep) == Some(|x|);
      assert s[|x| + 2..] == rest;
      assert s[..|x|] == x;
      SplitJoinRoundTrip(xs[1..]);
      assert Split(s, sep) == [x] + xs[1..];
    }
  }

  /** The first occurrence of a one-character string is a position holding that character. */
  lemma IndexOfChar(s: string, c: char)
    ensures IndexOf(s, [c]).Some? ==> s[IndexOf(s, [c]).value] == c
  {
    if IndexOf(s, [c]).Some? {
      var k := IndexOf(s, [c]).value;
      assert s[k..k + 1] == [c];
    }
  }

  /** A character with no copy before it is the first occurrence. */
  lemma IndexOfFirstChar(s: string, c: char, k: nat)
    requires k < |s| && s[k] == c
    requires forall j :: 0 <= j < k ==> s[j] != c
    ensures IndexOf(s, [c]) == Some(k)
  {
    assert OccursAt(s, [c], k) by {
      assert s[k..k + 1] == [c];
    }
    forall j | 0 <= j < k
      ensures !OccursAt(s, [c], j)
    {
      assert s[j..j + 1] == [s[j]];
    }
  }

  /** Before the first occurrence of a one-character string, no position holds that character. */
  lemma BeforeIndexOfChar(s: string, c: char, k: nat)
    requires forall j :: 0 <= j < k ==> !OccursAt(s, [c], j)
    ensures forall j :: 0 <= j < k && j < |s| ==> s[j] != c
  {
    forall j | 0 <= j < k && j < |s|
      ensures s[j] != c
    {
      assert OccursAt(s, [c], j) == (s[j] == c) by {
        assert s[j..j + 1] == [s[j]];
      }
    }
  }

  /** `(a + c + b).split(c)` for a `b` without `c`: the pieces of `a`, then `b`. */
  lemma {:induction false} SplitSnoc(a: string, c: char, b: string)
    requires forall i :: 0 <= i < |b| ==> b[i] != c
    ensures Split(a + [c] + b, [c]) == Split(a, [c]) + [b]
    decreases |a|
  {
    var s := a + [c] + b;
    IndexOfChar(a, c);
    IndexOfChar(b, c);
    assert Split(b, [c]) == [b];
    match IndexOf(a, [c])
    case None =>
      BeforeIndexOfChar(a, c, |a|);
      IndexOfFirstChar(s, c, |a|);
      assert s[..|a|] == a && s[|a| + 1..] == b;
    case Some(k) =>
      BeforeIndexOfChar(a, c, k);
      IndexOfFirstChar(s, c, k);
      assert s[k + 1..] == a[k + 1..] + [c] + b;
      assert s[..k] == a[..k];
      SplitSnoc(a[k + 1..], c, b);
  }

  /** The characters of a join come from the pieces or the separator. */
  lemma {:induction false} JoinKeeps(xs: seq<string>, sep: string, P: char -> bool)
    requires forall x, c :: x in xs && c in x ==> P(c)
    requires forall c :: c in sep ==> P(c)
    ensures forall c :: c in Join(xs, sep) ==> P(c)
    decreases |xs|
  {
    if |xs| > 1 {
      JoinKeeps(xs[1..], sep, P);
      assert xs[0] in xs;
    } else if |xs| == 1 {
      assert xs[0] in xs;
    }
  }

  /** A character of a prefix of `s` is a character of `s`. */
  lemma PrefixChars(r: string, s: string)
    requires r <= s
    ensures forall c :: c in r ==> c in s
  {
    forall c | c in r
      ensures c in s
    {
      var i :| 0 <= i < |r| && r[i] == c;
      assert s[i] == c;
    }
  }

  /** A character of a suffix of `s` is a character of `s`. */
  lemma SuffixChars(s: string, d: nat)
    requires d <= |s|
    ensures forall c :: c in s[d..] ==> c in s
  {
    forall c | c in s[d..]
      ensures c in s
    {
      var i :| 0 <= i < |s[d..]| && s[d..][i] == c;
      assert s[d + i] == c;
    }
  }

  /** Every character of a word of `s` is a character of `s`. */
  lemma {:induction false} WordsChars(s: string)
    ensures forall w, c :: w in Words(s) && c in w ==> c in s
    decreases |s|
  {
    var t := LStrip(s);
    if t != [] {
      var n := WordLength(t);
      WordsChars(t[n..]);
      SuffixChars(s, |s| - |t|);
      SuffixChars(t, n);
      PrefixChars(t[..n], t);
      assert Words(s) == [t[..n]] + Words(t[n..]);
    }
  }

  /** Python's `str.split()` with no argument: the maximal runs of non-whitespace. */
  function Words(s: string): (ws: seq<string>)
    ensures forall w :: w in ws ==> w != [] && forall c :: c in w ==> !IsSpace(c)
    decreases |s|
  {
    var t := LStrip(s);
    if t == [] then []
    else
      var n := WordLength(t);
      [t[..n]] + Words(t[n..])
  }

  /** Length of the run of non-whitespace at the start of `t`. */
  function WordLength(t: string): (n: nat)
    requires t != [] && !IsSpace(t[0])
    ensures 1 <= n <= |t|
    ensures forall k :: 0 <= k < n ==> !IsSpace(t[k])
    ensures n < |t| ==> IsSpace(t[n])
  {
    if |t| == 1 || IsSpace(t[1]) then 1 else 1 + WordLength(t[1..])
  }

  function DigitChar(d: nat): char
    requires d < 10
  {
    ('0' as int + d) as char
  }

  predicate IsDigit(c: char)
  {
    '0' <= c <= '9'
  }

  predicate AllDigits(s: string)
  {
    forall i :: 0 <= i < |s| ==> IsDigit(s[i])
  }

  /** Python's `str(n)` for a natural number. */
  function NatToString(n: nat): (r: string)
    ensures r != [] && AllDigits(r)
  {
    if n < 10 then [DigitChar(n)] else NatToString(n / 10) + [DigitChar(n % 10)]
  }

  /** Python's `str(i)` for an integer. */
  function IntToString(i: int): (r: string)
    ensures r != []
  {
    if i < 0 then "-" + NatToString(-i) else NatToString(i)
  }

  /** The value of a non-empty string of decimal digits (leading zeros allowed). */
  function DigitsValue(s: string): nat
    requires s != [] && AllDigits(s)
  {
    var d: nat := s[|s| - 1] as int - '0' as int;
    if |s| == 1 then d else DigitsValue(s[..|s| - 1]) * 10 + d
  }

  /** An integer literal: an optional sign followed by one or more decimal digits. */
  function ParseInt(s: string): (r: Option<int>)
  {
    if s != [] && (s[0] == '-' || s[0] == '+') then
      var t := s[1..];
      if t != [] && AllDigits(t) then
        var v: int := DigitsValue(t);
        Some(if s[0] == '-' then -v else v)
      else None
    else if s != [] && AllDigits(s) then Some(DigitsValue(s))
    else None
  }

  lemma {:induction false} NatToStringValue(n: nat)
    ensures DigitsValue(NatToString(n)) == n
  {
    if n >= 10 {
      NatToStringValue(n / 10);
      var s := NatToString(n);
      assert s[..|s| - 1] == NatToString(n / 10);
    }
  }

  /** Reading back the decimal form of an integer gives the integer. */
  lemma IntToStringRoundTrip(i: int)
    ensures ParseInt(IntToString(i)) == Some(i)
  {
    if i < 0 {
      NatToStringValue(-i);
      assert IntToString(i)[1..] == NatToString(-i);
    } else {
      NatToStringValue(i);
    }
  }
}
