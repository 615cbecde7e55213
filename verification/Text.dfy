/** Text helpers shared by the whole model: optional values, decimal numerals, splitting. */
module Text {

  datatype Option<+T> = None | Some(value: T)

  type Byte = b: nat | b < 256

  const MAX_INT64: nat := 0x7fff_ffff_ffff_ffff

  /** One second in nanoseconds. */
  const SECOND: nat := 1_000_000_000

  // ----- decimal numerals -----------------------------------------------------------

  predicate IsDigit(c: char) { '0' <= c <= '9' }

  predicate AllDigits(s: string) { forall i :: 0 <= i < |s| ==> IsDigit(s[i]) }

  function DigitValue(c: char): (d: nat)
    requires IsDigit(c)
    ensures d < 10
  { (c as int) - ('0' as int) }

  function DigitChar(d: nat): (c: char)
    requires d < 10
    ensures IsDigit(c) && DigitValue(c) == d
  { ('0' as int + d) as char }

  /** The "%d" rendering of a non-negative number: no sign, no leading zero. */
  function Decimal(n: nat): (s: string)
    ensures s != [] && AllDigits(s)
  {
    if n < 10 then [DigitChar(n)] else Decimal(n / 10) + [DigitChar(n % 10)]
  }

  /** The number a digit string denotes; leading zeros are allowed. */
  function Numeral(s: string): (n: nat)
    requires AllDigits(s)
  {
    if s == [] then 0 else Numeral(s[..|s| - 1]) * 10 + DigitValue(s[|s| - 1])
  }

  lemma {:induction false} DecimalRoundTrip(n: nat)
    ensures Numeral(Decimal(n)) == n
  {
    if n < 10 {
    } else {
      DecimalRoundTrip(n / 10);
      var s := Decimal(n);
      assert s[..|s| - 1] == Decimal(n / 10);
    }
  }

  /** strconv.ParseUint in base 10: nonempty, digits only, and below the width's limit. */
  function ParseUint(s: string, limit: nat): (r: Option<nat>)
    ensures r.Some? ==> r.value < limit
  {
    if s != [] && AllDigits(s) && Numeral(s) < limit then Some(Numeral(s)) else None
  }

  // ----- searching and splitting ----------------------------------------------------

  /** The first position of c, or the length when c does not occur. */
  function IndexOf(s: string, c: char): (i: nat)
    ensures i <= |s| && c !in s[..i] && (i < |s| ==> s[i] == c)
  {
    if s == [] || s[0] == c then 0
    else
      var i := 1 + IndexOf(s[1..], c);
      assert s[..i] == [s[0]] + s[1..][..i - 1];
      i
  }

  lemma {:induction false} IndexOfAppend(a: string, c: char, b: string)
    requires c !in a
    ensures IndexOf(a + [c] + b, c) == |a|
  {
    if a == [] {
    } else {
      assert a == [a[0]] + a[1..];
      IndexOfAppend(a[1..], c, b);
      assert (a + [c] + b)[1..] == a[1..] + [c] + b;
    }
  }

  /** strings.SplitN: at most n pieces, the last one unsplit. */
  function SplitN(s: string, sep: char, n: nat): (pieces: seq<string>)
    requires n > 0
    ensures 0 < |pieces| <= n
    decreases n
  {
    var i := IndexOf(s, sep);
    if n == 1 || i == |s| then [s] else [s[..i]] + SplitN(s[i + 1..], sep, n - 1)
  }

  /** Splitting past a piece without the separator. */
  lemma SplitNStep(a: string, sep: char, b: string, n: nat)
    requires n > 1 && sep !in a
    ensures SplitN(a + [sep] + b, sep, n) == [a] + SplitN(b, sep, n - 1)
  {
    IndexOfAppend(a, sep, b);
    var s := a + [sep] + b;
    assert s[..|a|] == a && s[|a| + 1..] == b;
  }

  /** strings.Split: every separator cuts. */
  function Split(s: string, sep: char): (pieces: seq<string>)
    ensures |pieces| > 0
    decreases |s|
  {
    var i := IndexOf(s, sep);
    if i == |s| then [s] else [s[..i]] + Split(s[i + 1..], sep)
  }

  /** The first piece ends at the first separator. */
  lemma SplitFirst(a: string, sep: char, b: string)
    requires sep !in a
    ensures Split(a + [sep] + b, sep) == [a] + Split(b, sep)
  {
    IndexOfAppend(a, sep, b);
    var s := a + [sep] + b;
    assert s[..|a|] == a && s[|a| + 1..] == b;
  }

  lemma SplitWhole(s: string, sep: char)
    requires sep !in s
    ensures Split(s, sep) == [s]
  {
  }

  /** Splitting cuts at every separator. */
  lemma {:induction false} SplitConcat(a: string, sep: char, b: string)
    ensures Split(a + [sep] + b, sep) == Split(a, sep) + Split(b, sep)
    decreases |a|
  {
    hide Split, IndexOf;
    var i := IndexOf(a, sep);
    if i == |a| {
      assert a[..i] == a;
      SplitWhole(a, sep);
      SplitFirst(a, sep, b);
    } else {
      var front, rest := a[..i], a[i + 1..];
      var tail := rest + [sep] + b;
      assert a == front + [sep] + rest;
      assert a + [sep] + b == front + [sep] + tail;
      SplitFirst(front, sep, rest);
      SplitConcat(rest, sep, b);
      SplitFirst(front, sep, tail);
    }
  }

  // ----- white space -----------------------------------------------------------------

  predicate IsSpace(c: char) { c == ' ' || c == '\t' || c == '\n' || c == '\r' || c == 11 as char || c == 12 as char }

  function TrimLeft(s: string): string { if s != [] && IsSpace(s[0]) then TrimLeft(s[1..]) else s }

  function TrimRight(s: string): string
  {
    if s != [] && IsSpace(s[|s| - 1]) then TrimRight(s[..|s| - 1]) else s
  }

  function Trim(s: string): string { TrimLeft(TrimRight(s)) }

  predicate AllSpace(s: string) { forall i :: 0 <= i < |s| ==> IsSpace(s[i]) }

  predicate Tight(s: string) { s == "" || (!IsSpace(s[0]) && !IsSpace(s[|s| - 1])) }

  lemma {:induction false} TrimRightIs(s: string) returns (back: string)
    ensures s == TrimRight(s) + back && AllSpace(back)
    ensures TrimRight(s) == "" || !IsSpace(TrimRight(s)[|TrimRight(s)| - 1])
  {
    if s == [] || !IsSpace(s[|s| - 1]) {
      back := "";
    } else {
      var inner := TrimRightIs(s[..|s| - 1]);
      back := inner + [s[|s| - 1]];
      assert s == s[..|s| - 1] + [s[|s| - 1]];
    }
  }

  lemma {:induction false} TrimLeftIs(s: string) returns (front: string)
    ensures s == front + TrimLeft(s) && AllSpace(front)
    ensures TrimLeft(s) == "" || !IsSpace(TrimLeft(s)[0])
  {
    if s == [] || !IsSpace(s[0]) {
      front := "";
    } else {
      var inner := TrimLeftIs(s[1..]);
      front := [s[0]] + inner;
      assert s == [s[0]] + s[1..];
    }
  }

  /** Trimming cuts white space off both ends, all of it, and nothing else. */
  lemma TrimIs(s: string) returns (front: string, back: string)
    ensures s == front + Trim(s) + back && AllSpace(front) && AllSpace(back) && Tight(Trim(s))
  {
    hide TrimLeft, TrimRight, IsSpace;
    back := TrimRightIs(s);
    front := TrimLeftIs(TrimRight(s));
    if Trim(s) != "" {
      assert Trim(s)[|Trim(s)| - 1] == TrimRight(s)[|TrimRight(s)| - 1];
    }
  }

  lemma TightStays(s: string)
    requires Tight(s)
    ensures Trim(s) == s
  {
  }

  /** What counts as white space: blank, tab, line feed, vertical tab, form feed, carriage return. */
  lemma SpacesAre(c: char)
    ensures IsSpace(c) <==> c as int == 32 || 9 <= c as int <= 13
  {
  }

  // ----- letter case and names --------------------------------------------------------

  function LowerChar(c: char): char { if 'A' <= c <= 'Z' then ((c as int) + 32) as char else c }

  function Lower(s: string): string { seq(|s|, i requires 0 <= i < |s| => LowerChar(s[i])) }

  function UpperChar(c: char): char { if 'a' <= c <= 'z' then ((c as int) - 32) as char else c }

  function Upper(s: string): string { seq(|s|, i requires 0 <= i < |s| => UpperChar(s[i])) }

  /** The same letter in either case. */
  predicate SameLetter(c: char, d: char)
  {
    c == d || ('A' <= c <= 'Z' && d as int == c as int + 32) || ('A' <= d <= 'Z' && c as int == d as int + 32)
  }

  predicate SameLetters(a: string, b: string) { |a| == |b| && forall i :: 0 <= i < |a| ==> SameLetter(a[i], b[i]) }

  lemma LettersMeet(c: char, d: char)
    ensures LowerChar(c) == LowerChar(d) <==> SameLetter(c, d)
    ensures UpperChar(c) == UpperChar(d) <==> SameLetter(c, d)
  {
  }

  /** Both foldings make exactly the texts equal that agree letter by letter. */
  lemma FoldingMeets(a: string, b: string)
    ensures Lower(a) == Lower(b) <==> SameLetters(a, b)
    ensures Upper(a) == Upper(b) <==> SameLetters(a, b)
  {
    hide LowerChar, UpperChar, SameLetter;
    if |a| == |b| {
      forall i | 0 <= i < |a|
        ensures Lower(a)[i] == Lower(b)[i] <==> SameLetter(a[i], b[i])
        ensures Upper(a)[i] == Upper(b)[i] <==> SameLetter(a[i], b[i])
      {
        LettersMeet(a[i], b[i]);
      }
    }
  }

  lemma NoCapitals(s: string)
    requires forall i :: 0 <= i < |s| ==> !('A' <= s[i] <= 'Z')
    ensures Lower(s) == s
  {
  }

  lemma NoSmallLetters(s: string)
    requires forall i :: 0 <= i < |s| ==> !('a' <= s[i] <= 'z')
    ensures Upper(s) == s
  {
  }

  /** The folded letters are in the case they should be in. */
  lemma FoldedCase(s: string, i: nat)
    requires i < |s|
    ensures !('A' <= Lower(s)[i] <= 'Z') && !('a' <= Upper(s)[i] <= 'z')
  {
  }

  /** dns.Fqdn of miekg/dns 1.0.8: only the last character decides. */
  function Fqdn(s: string): string { if s != [] && s[|s| - 1] == '.' then s else s + "." }

  predicate HasPrefix(s: string, p: string) { p <= s }

  predicate HasSuffix(s: string, p: string) { |p| <= |s| && s[|s| - |p|..] == p }
}
