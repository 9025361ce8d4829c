/** The stock option type. */
module Wrappers {
  datatype Option<+T> = None | Some(value: T)
}

/** The Python string operations that more than one part of the model uses. */
module Text {
  /** The characters `str.strip()` and `str.split()` treat as whitespace. */
  predicate IsSpace(c: char) {
    || '\t' <= c <= '\r'
    || '\U{1c}' <= c <= ' '
    || c == '\U{85}' || c == '\U{a0}' || c == '\U{1680}'
    || '\U{2000}' <= c <= '\U{200a}'
    || c == '\U{2028}' || c == '\U{2029}' || c == '\U{202f}' || c == '\U{205f}' || c == '\U{3000}'
  }

  predicate StartsWith(s: string, prefix: string) {
    prefix <= s
  }

  predicate EndsWith(s: string, suffix: string) {
    |suffix| <= |s| && s[|s| - |suffix|..] == suffix
  }

  /** Position of the first `c`, or the length of `s` when there is none. */
  function Find(s: string, c: char): (i: nat)
    ensures i <= |s|
    ensures i < |s| ==> s[i] == c
    ensures c !in s[..i]
  {
    if s == "" || s[0] == c then 0 else 1 + Find(s[1..], c)
  }

  lemma {:induction false} FindFirst(a: string, c: char, b: string)
    requires c !in a
    ensures Find(a + [c] + b, c) == |a|
  {
    if a != "" {
      assert (a + [c] + b)[1..] == a[1..] + [c] + b;
      FindFirst(a[1..], c, b);
    }
  }

  lemma SplitAt(a: string, c: char, b: string)
    ensures c in a + [c] + b
    ensures (a + [c] + b)[..|a|] == a && (a + [c] + b)[|a| + 1..] == b
  {
    assert (a + [c] + b)[|a|] == c;
  }

  lemma NotFound(s: string, c: char)
    requires c !in s
    ensures Find(s, c) == |s|
  {
    assert forall i | 0 <= i < |s| :: s[i] != c;
  }

  /** `sep.join(parts)` */
  function Join(parts: seq<string>, sep: string): string {
    if parts == [] then "" else if |parts| == 1 then parts[0]
    else parts[0] + sep + Join(parts[1..], sep)
  }

  /** `s.split(c)` for a one-character separator. */
  function Split(s: string, c: char): (parts: seq<string>)
    ensures parts != []
    ensures forall p <- parts :: c !in p
    ensures forall p <- parts :: forall ch <- p :: ch in s
    ensures Join(parts, [c]) == s
    decreases |s|
  {
    var i := Find(s, c);
    if i == |s| then
      assert s[..i] == s;
      [s]
    else
      var rest := Split(s[i + 1..], c);
      assert s == s[..i] + [c] + s[i + 1..];
      assert ([s[..i]] + rest)[1..] == rest;
      [s[..i]] + rest
  }

  lemma SplitStep(a: string, c: char, b: string)
    requires c !in a
    ensures Split(a + [c] + b, c) == [a] + Split(b, c)
  {
    FindFirst(a, c, b);
    var s := a + [c] + b;
    assert s[..|a|] == a && s[|a| + 1..] == b;
  }

  /** `s` has no character satisfying `p` at either end. */
  predicate TrimmedOf(s: string, p: char -> bool) {
    s == "" || (!p(s[0]) && !p(s[|s| - 1]))
  }

  function LStrip(s: string, p: char -> bool): (r: string)
    ensures r == "" || !p(r[0])
    ensures |r| <= |s| && s[|s| - |r|..] == r
  {
    if s == "" || !p(s[0]) then s else LStrip(s[1..], p)
  }

  function RStrip(s: string, p: char -> bool): (r: string)
    ensures r == "" || !p(r[|r| - 1])
    ensures r <= s
  {
    if s == "" || !p(s[|s| - 1]) then s else RStrip(s[..|s| - 1], p)
  }

  lemma SliceWithin(s: string, i: nat, j: nat)
    requires i <= j <= |s|
    ensures forall c <- s[i..j] :: c in s
  {
  }

  /** `s.strip(...)`: drop the characters satisfying `p` from both ends. */
  function Strip(s: string, p: char -> bool): (r: string)
    ensures TrimmedOf(r, p)
    ensures TrimmedOf(s, p) ==> r == s
  {
    RStrip(LStrip(s, p), p)
  }

  lemma StripWithin(s: string, p: char -> bool)
    ensures forall c <- Strip(s, p) :: c in s
  {
    var l := LStrip(s, p);
    SliceWithin(s, |s| - |l|, |s|);
    SliceWithin(l, 0, |RStrip(l, p)|);
  }

  /** Position of the first line terminator, or the length of `t`. */
  function LineEnd(t: string): (i: nat)
    ensures i <= |t|
    ensures i < |t| ==> t[i] == '\n' || t[i] == '\r'
    ensures '\n' !in t[..i] && '\r' !in t[..i]
  {
    if t == "" || t[0] == '\n' || t[0] == '\r' then 0 else 1 + LineEnd(t[1..])
  }

  /**
    The lines of a text: LF, CR and CRLF all end one and are kept as LF; an unterminated
    rest comes last. Both a text file and the HTTP library's `iter_lines` read this way.
   */
  function IterLines(t: string): (lines: seq<string>)
    ensures forall l <- lines :: '\r' !in l
  {
    if t == "" then []
    else
      var i := LineEnd(t);
      if i == |t| then
        assert t == t[..i];
        [t]
      else
        var next := if t[i] == '\r' && i + 1 < |t| && t[i + 1] == '\n' then i + 2 else i + 1;
        [t[..i] + "\n"] + IterLines(t[next..])
  }

  lemma IterLine(a: string, rest: string)
    requires '\n' !in a && '\r' !in a
    ensures IterLines(a + "\n" + rest) == [a + "\n"] + IterLines(rest)
  {
    var t := a + "\n" + rest;
    LineEndFirst(a, rest);
    assert t[..|a|] == a && t[|a| + 1..] == rest;
  }

  lemma {:induction false} LineEndFirst(a: string, rest: string)
    requires '\n' !in a && '\r' !in a
    ensures LineEnd(a + "\n" + rest) == |a|
  {
    if a != "" {
      assert (a + "\n" + rest)[1..] == a[1..] + "\n" + rest;
      LineEndFirst(a[1..], rest);
    }
  }

  /** Not empty, and a line feed only at the end. */
  predicate IsLine(l: string) {
    l != "" && '\n' !in l[..|l| - 1]
  }

  lemma {:induction false} LinesAreLines(t: string)
    ensures forall l <- IterLines(t) :: IsLine(l)
    decreases |t|
  {
    hide IterLines, IsLine, LineEnd;
    if t == "" {
      NoLines();
    } else if LineEnd(t) == |t| {
      WholeLine(t);
    } else {
      var line, rest := FirstLine(t);
      LinesAreLines(rest);
    }
  }

  lemma NoLines()
    ensures IterLines("") == []
  {
  }

  lemma FirstLine(t: string) returns (line: string, rest: string)
    requires LineEnd(t) < |t|
    ensures |rest| < |t| && IterLines(t) == [line] + IterLines(rest) && IsLine(line)
  {
    var i := LineEnd(t);
    EndedLine(t[..i]);
    hide IsLine;
    line := t[..i] + "\n";
    rest := t[if t[i] == '\r' && i + 1 < |t| && t[i + 1] == '\n' then i + 2 else i + 1..];
  }

  lemma WholeLine(t: string)
    requires t != "" && LineEnd(t) == |t|
    ensures IterLines(t) == [t] && IsLine(t)
  {
    assert t[..LineEnd(t)] == t;
    assert '\n' !in t;
  }

  lemma EndedLine(a: string)
    requires '\n' !in a
    ensures IsLine(a + "\n")
  {
    assert (a + "\n")[..|a|] == a;
  }

  predicate IsDigit(c: char) {
    '0' <= c <= '9'
  }

  function DigitValue(c: char): (d: nat)
    requires IsDigit(c)
    ensures d < 10
  {
    c as int - '0' as int
  }

  predicate AllDigits(s: string) {
    forall c <- s :: IsDigit(c)
  }

  /** Decimal rendering of a natural number. */
  function Dec(n: nat): (s: string)
    ensures s != "" && AllDigits(s)
  {
    var last := ['0' + (n % 10) as char];
    if n < 10 then last else Dec(n / 10) + last
  }

  /** The value of a string of decimal digits. */
  function ParseDec(s: string): nat
    requires AllDigits(s)
  {
    if s == "" then 0 else 10 * ParseDec(s[..|s| - 1]) + DigitValue(s[|s| - 1])
  }

  lemma {:induction false} DecRoundTrip(n: nat)
    ensures ParseDec(Dec(n)) == n
  {
    var s := Dec(n);
    if n >= 10 {
      DecRoundTrip(n / 10);
      assert s[..|s| - 1] == Dec(n / 10);
    } else {
      assert s[..|s| - 1] == "";
    }
    assert DigitValue(s[|s| - 1]) == n % 10;
  }

  /** The number of digits grows exactly at the powers of ten. */
  lemma {:induction false} DecLength(n: nat, power: nat, digits: nat)
    requires digits > 0 && power == Pow10(digits)
    ensures |Dec(n)| <= digits <==> n < power
  {
    assert power == 10 * Pow10(digits - 1);
    if n >= 10 {
      assert |Dec(n)| == |Dec(n / 10)| + 1;
      if digits == 1 {
        assert Pow10(0) == 1;
      } else {
        DecLength(n / 10, Pow10(digits - 1), digits - 1);
      }
    }
  }

  function Pow10(k: nat): (p: nat)
    ensures p >= 1
  {
    if k == 0 then 1 else 10 * Pow10(k - 1)
  }
}

/** Powers of two, products and quotients. */
module Numbers {
  function Pow2(e: nat): (p: nat)
    ensures p > 0
  {
    if e == 0 then 1 else 2 * Pow2(e - 1)
  }

  lemma {:induction false} Pow2Add(a: nat, b: nat)
    ensures Pow2(a + b) == Pow2(a) * Pow2(b)
  {
    if b > 0 {
      Pow2Add(a, b - 1);
    }
  }

  lemma Pow2Ten(ten: nat)
    requires ten == 10
    ensures Pow2(ten) == 1024
  {
  }

  lemma Times(x: nat, y: nat, b: nat)
    requires x <= y
    ensures x * b <= y * b
  {
  }

  lemma QuotientsMonotone(q: nat, r: nat, q': nat, r': nat, n: nat)
    requires r < n && r' < n && q * n + r <= q' * n + r'
    ensures q < q' || (q == q' && r <= r')
  {
    if q > q' {
      Times(q' + 1, q, n);
    }
  }

  lemma QuotientsUnique(q: nat, r: nat, q': nat, r': nat, n: nat)
    requires r < n && r' < n && q * n + r == q' * n + r'
    ensures q == q' && r == r'
  {
    QuotientsMonotone(q, r, q', r', n);
    QuotientsMonotone(q', r', q, r, n);
  }
}
