/**
 * The JavaScript string and number behaviour the site's handlers rely on:
 * `startsWith`, `split`, `replace` (first occurrence), `trim`, `Number(...)`,
 * `parseInt(...)`, `toString()` of a non-negative integer and `padStart`.
 * Strings are sequences of UTF-16 code units, as in JavaScript.
 */
module Js {
  import opened Wrappers

  predicate StartsWith(s: string, prefix: string) {
    |prefix| <= |s| && s[..|prefix|] == prefix
  }

  // ---------------------------------------------------------------------------
  // String.prototype.split with a non-empty separator
  // ---------------------------------------------------------------------------

  /** The parts of `s` between the leftmost non-overlapping occurrences of `sep`. */
  function Split(s: string, sep: string): (parts: seq<string>)
    requires sep != ""
    ensures |parts| >= 1
    decreases |s|
  {
    if |s| < |sep| then [s]
    else if s[..|sep|] == sep then [""] + Split(s[|sep|..], sep)
    else
      var rest := Split(s[1..], sep);
      [[s[0]] + rest[0]] + rest[1..]
  }

  /** A string that does not contain the separator's first character is not split. */
  lemma {:induction false} SplitWithout(s: string, sep: string)
    requires sep != "" && sep[0] !in s
    ensures Split(s, sep) == [s]
  {
    if |s| >= |sep| {
      assert s[..|sep|][0] == s[0];
      assert s[1..] + [] == s[1..];
      SplitWithout(s[1..], sep);
      assert [s[0]] + s[1..] == s;
    }
  }

  /** A separator-free head is glued to the first part of what follows it. */
  lemma {:induction false} SplitHead(a: string, t: string, sep: string)
    requires sep != "" && sep[0] !in a
    ensures Split(a + t, sep) == [a + Split(t, sep)[0]] + Split(t, sep)[1..]
  {
    if a == [] {
      assert a + t == t;
      assert Split(t, sep) == [Split(t, sep)[0]] + Split(t, sep)[1..];
      assert a + Split(t, sep)[0] == Split(t, sep)[0];
    } else {
      var s := a + t;
      assert s[0] == a[0];
      assert s[1..] == a[1..] + t;
      if |s| < |sep| {
        assert Split(t, sep) == [t];
      } else {
        assert s[..|sep|][0] == a[0];
        SplitHead(a[1..], t, sep);
        assert [a[0]] + (a[1..] + Split(t, sep)[0]) == a + Split(t, sep)[0];
      }
    }
  }

  /** `a + sep + b` splits into exactly `[a, b]` when neither side holds the separator's first character. */
  lemma SplitPair(a: string, b: string, sep: string)
    requires sep != "" && sep[0] !in a && sep[0] !in b
    ensures Split(a + sep + b, sep) == [a, b]
  {
    assert a + sep + b == a + (sep + b);
    SplitHead(a, sep + b, sep);
    assert (sep + b)[..|sep|] == sep;
    assert (sep + b)[|sep|..] == b;
    SplitWithout(b, sep);
    assert Split(sep + b, sep) == ["", b];
    assert a + "" == a;
  }

  // ---------------------------------------------------------------------------
  // String.prototype.replace(pattern, replacement) with a string pattern
  // ---------------------------------------------------------------------------

  /** Replaces the first occurrence of `pat` in `s`; `s` itself when there is none. */
  function ReplaceFirst(s: string, pat: string, rep: string): string
    requires pat != ""
    decreases |s|
  {
    if StartsWith(s, pat) then rep + s[|pat|..]
    else if s == [] then s
    else [s[0]] + ReplaceFirst(s[1..], pat, rep)
  }

  /** On a string that starts with the pattern, the first occurrence is the prefix itself. */
  lemma ReplacePrefix(s: string, pat: string)
    requires pat != "" && StartsWith(s, pat)
    ensures ReplaceFirst(s, pat, "") == s[|pat|..]
  {
  }

  // ---------------------------------------------------------------------------
  // String.prototype.trim
  // ---------------------------------------------------------------------------

  /** ECMAScript WhiteSpace and LineTerminator code units. */
  predicate IsSpace(c: char) {
    c == ' ' || c == '\t' || c == '\n' || c == '\r' || c as int == 0x0B || c as int == 0x0C
    || c as int == 0xA0 || c as int == 0x1680 || (0x2000 <= c as int <= 0x200A)
    || c as int == 0x2028 || c as int == 0x2029 || c as int == 0x202F || c as int == 0x205F
    || c as int == 0x3000 || c as int == 0xFEFF
  }

  function TrimStart(s: string): (r: string)
    ensures |r| <= |s| && r == s[|s| - |r|..]
    ensures forall i | 0 <= i < |s| - |r| :: IsSpace(s[i])
    ensures r == "" || !IsSpace(r[0])
    decreases |s|
  {
    if s != "" && IsSpace(s[0]) then TrimStart(s[1..]) else s
  }

  function TrimEnd(s: string): (r: string)
    ensures |r| <= |s| && r == s[..|r|]
    ensures forall i | |r| <= i < |s| :: IsSpace(s[i])
    ensures r == "" || !IsSpace(r[|r| - 1])
    decreases |s|
  {
    if s != "" && IsSpace(s[|s| - 1]) then TrimEnd(s[..|s| - 1]) else s
  }

  /** `s.trim()`: `s` without its leading and trailing white space. */
  function Trim(s: string): (r: string)
  {
    TrimEnd(TrimStart(s))
  }

  /** `Trim` leaves no white space at either end. */
  lemma TrimEnds(s: string)
    ensures var r := Trim(s); r == "" || (!IsSpace(r[0]) && !IsSpace(r[|r| - 1]))
  {
    var t := TrimStart(s);
    var r := TrimEnd(t);
    if r != "" {
      assert r[0] == t[0];
    }
  }

  /** A string with no white space at either end is its own trim. */
  lemma TrimmedFixpoint(s: string)
    requires s == "" || (!IsSpace(s[0]) && !IsSpace(s[|s| - 1]))
    ensures Trim(s) == s
  {
  }

  /** Prefixing spaces does not change the trim of a trimmed string. */
  lemma {:induction false} TrimLeadingSpaces(sp: string, s: string)
    requires forall i | 0 <= i < |sp| :: IsSpace(sp[i])
    requires s == "" || (!IsSpace(s[0]) && !IsSpace(s[|s| - 1]))
    ensures Trim(sp + s) == s
  {
    if sp == [] {
      assert sp + s == s;
    } else {
      assert (sp + s)[1..] == sp[1..] + s;
      TrimLeadingSpaces(sp[1..], s);
      assert TrimStart(sp + s) == TrimStart(sp[1..] + s);
    }
  }

  /** A string with no white space at either end (what `trim` returns). */
  predicate Trimmed(s: string) {
    s == "" || (!IsSpace(s[0]) && !IsSpace(s[|s| - 1]))
  }

  /** `xs.map(x => x.trim()).filter(Boolean)`: the trimmed strings that are not empty, in order. */
  function TrimNonEmpty(xs: seq<string>): (r: seq<string>)
    ensures |r| <= |xs|
    ensures forall c | c in r :: c != "" && Trim(c) == c
    decreases |xs|
  {
    if xs == [] then []
    else
      var t := Trim(xs[0]);
      TrimEnds(xs[0]);
      TrimmedFixpoint(t);
      (if t != "" then [t] else []) + TrimNonEmpty(xs[1..])
  }

  /** Strings that are already trimmed and not empty pass through unchanged. */
  lemma {:induction false} TrimNonEmptyKeeps(xs: seq<string>)
    requires forall i | 0 <= i < |xs| :: xs[i] != "" && Trimmed(xs[i])
    ensures TrimNonEmpty(xs) == xs
  {
    if xs != [] {
      TrimmedFixpoint(xs[0]);
      TrimNonEmptyKeeps(xs[1..]);
      assert xs == [xs[0]] + xs[1..];
    }
  }

  /** Parts whose trims are the non-empty strings `xs` come out as exactly `xs`. */
  lemma {:induction false} TrimNonEmptyPointwise(parts: seq<string>, xs: seq<string>)
    requires |parts| == |xs|
    requires forall i | 0 <= i < |xs| :: xs[i] != "" && Trim(parts[i]) == xs[i]
    ensures TrimNonEmpty(parts) == xs
  {
    if xs != [] {
      TrimNonEmptyPointwise(parts[1..], xs[1..]);
      assert xs == [xs[0]] + xs[1..];
    }
  }

  /** Trimming and dropping empty strings twice is doing it once. */
  lemma TrimNonEmptyIdempotent(xs: seq<string>)
    ensures TrimNonEmpty(TrimNonEmpty(xs)) == TrimNonEmpty(xs)
  {
    var r := TrimNonEmpty(xs);
    forall i | 0 <= i < |r| ensures r[i] != "" && Trimmed(r[i]) {
      assert r[i] in r;
      TrimEnds(r[i]);
    }
    TrimNonEmptyKeeps(r);
  }

  /** `xs.join(sep)`. */
  function Join(xs: seq<string>, sep: string): string
    decreases |xs|
  {
    if xs == [] then ""
    else if |xs| == 1 then xs[0]
    else xs[0] + sep + Join(xs[1..], sep)
  }

  /** A one-character separator at the front yields an empty first part. */
  lemma SplitLeading(c: char, t: string)
    ensures Split([c] + t, [c]) == [""] + Split(t, [c])
  {
    var s := [c] + t;
    assert s[..1] == [c];
    assert s[1..] == t;
  }

  /**
   * Joining with `c` followed by a fixed tail and splitting on `c` gives back
   * the parts, each after the first prefixed by the tail.
   */
  lemma {:induction false} SplitJoin(xs: seq<string>, c: char, tail: string, lead: string)
    requires xs != [] && c !in lead && c !in tail
    requires forall i | 0 <= i < |xs| :: c !in xs[i]
    ensures Split(lead + Join(xs, [c] + tail), [c]) ==
      [lead + xs[0]] + seq(|xs| - 1, i requires 0 <= i < |xs| - 1 => tail + xs[i + 1])
  {
    var sep := [c] + tail;
    assert c !in lead + xs[0];
    if |xs| == 1 {
      SplitWithout(lead + xs[0], [c]);
    } else {
      var rest := Join(xs[1..], sep);
      assert lead + Join(xs, sep) == (lead + xs[0]) + ([c] + (tail + rest));
      SplitAt(lead + xs[0], c, tail + rest);
      SplitJoin(xs[1..], c, tail, tail);
    }
  }

  /** A part free of `c`, then `c`, then the rest: the part comes off first. */
  lemma SplitAt(a: string, c: char, b: string)
    requires c !in a
    ensures Split(a + ([c] + b), [c]) == [a] + Split(b, [c])
  {
    SplitHead(a, [c] + b, [c]);
    SplitLeading(c, b);
    var after := Split(b, [c]);
    assert Split([c] + b, [c])[0] == "";
    assert Split([c] + b, [c])[1..] == after;
    assert a + "" == a;
  }

  // ---------------------------------------------------------------------------
  // Decimal digits, Number(...), parseInt(...), toString() and padStart
  // ---------------------------------------------------------------------------

  predicate IsDigit(c: char) {
    '0' <= c <= '9'
  }

  predicate AllDigits(s: string) {
    forall i | 0 <= i < |s| :: IsDigit(s[i])
  }

  function DigitValue(c: char): nat
    requires IsDigit(c)
  {
    c as int - '0' as int
  }

  function DigitChar(d: nat): (c: char)
    requires d < 10
    ensures IsDigit(c) && DigitValue(c) == d
  {
    ('0' as int + d) as char
  }

  /** The value of a decimal numeral, most significant digit first. */
  function DigitsValue(s: string): nat
    requires AllDigits(s)
    decreases |s|
  {
    if s == "" then 0 else DigitsValue(s[..|s| - 1]) * 10 + DigitValue(s[|s| - 1])
  }

  /** `n.toString()` for a non-negative integer: its shortest decimal numeral. */
  function NatToString(n: nat): (s: string)
    ensures s != "" && AllDigits(s)
    ensures |s| > 1 ==> s[0] != '0'
    decreases n
  {
    if n < 10 then [DigitChar(n)] else NatToString(n / 10) + [DigitChar(n % 10)]
  }

  /** Reading back the numeral of `n` gives `n`. */
  lemma {:induction false} NatToStringValue(n: nat)
    ensures DigitsValue(NatToString(n)) == n
  {
    if n >= 10 {
      var s := NatToString(n);
      assert s[..|s| - 1] == NatToString(n / 10);
      NatToStringValue(n / 10);
    }
  }

  /** Distinct numbers have distinct numerals. */
  lemma NatToStringInjective(m: nat, n: nat)
    requires NatToString(m) == NatToString(n)
    ensures m == n
  {
    NatToStringValue(m);
    NatToStringValue(n);
  }

  /** A numeral is canonical when it is the `toString()` of its own value. */
  predicate IsCanonicalNumeral(s: string) {
    AllDigits(s) && s != "" && NatToString(DigitsValue(s)) == s
  }

  lemma CanonicalNumeral(n: nat)
    ensures IsCanonicalNumeral(NatToString(n))
  {
    NatToStringValue(n);
  }

  /** Digits are never white space, so a numeral is its own trim. */
  lemma DigitsTrimmed(s: string)
    requires AllDigits(s)
    ensures Trim(s) == s
  {
    if s != "" {
      assert !IsSpace(s[0]) && !IsSpace(s[|s| - 1]);
      TrimmedFixpoint(s);
    }
  }

  /** `Number(s)` for the decimal integer forms; `None` is NaN. */
  function ToNumber(s: string): Option<int>
  {
    var t := Trim(s);
    if t == "" then Some(0)
    else if (t[0] == '+' || t[0] == '-') && |t| > 1 && AllDigits(t[1..]) then
      var v: int := DigitsValue(t[1..]);
      Some(if t[0] == '-' then -v else v)
    else if AllDigits(t) then Some(DigitsValue(t))
    else None
  }

  /** `Number` reads a decimal numeral as its value. */
  lemma ToNumberOfDigits(s: string)
    requires AllDigits(s) && s != ""
    ensures ToNumber(s) == Some(DigitsValue(s))
  {
    DigitsTrimmed(s);
    assert IsDigit(s[0]);
  }

  /** `Number(String(n)) == n`. */
  lemma ToNumberOfNat(n: nat)
    ensures ToNumber(NatToString(n)) == Some(n)
  {
    ToNumberOfDigits(NatToString(n));
    NatToStringValue(n);
  }

  /** The longest prefix of `s` made of decimal digits. */
  function DigitPrefix(s: string): (d: string)
    ensures AllDigits(d) && |d| <= |s| && d == s[..|d|]
    ensures |d| == |s| || !IsDigit(s[|d|])
    decreases |s|
  {
    if s != "" && IsDigit(s[0]) then [s[0]] + DigitPrefix(s[1..]) else ""
  }

  /**
   * `parseInt(s)` in radix 10: leading white space, an optional sign, then the
   * longest digit run; `None` is NaN. The `0x` prefix is read as decimal `0`.
   */
  function ParseInt(s: string): Option<int>
  {
    var t := TrimStart(s);
    var negative := t != "" && t[0] == '-';
    var body := if t != "" && (t[0] == '-' || t[0] == '+') then t[1..] else t;
    var d := DigitPrefix(body);
    if d == "" then None
    else
      var v: int := DigitsValue(d);
      Some(if negative then -v else v)
  }

  /** `"0".repeat(k)`. */
  function Zeros(k: nat): (z: string)
    ensures |z| == k && AllDigits(z)
  {
    seq(k, _ => '0')
  }

  /** `s.padStart(width, '0')`. */
  function PadZeros(s: string, width: nat): (r: string)
  {
    if |s| >= width then s else Zeros(width - |s|) + s
  }

  /** Leading zeros do not change the value of a numeral. */
  lemma {:induction false} LeadingZerosValue(k: nat, s: string)
    requires AllDigits(s)
    ensures AllDigits(Zeros(k) + s) && DigitsValue(Zeros(k) + s) == DigitsValue(s)
  {
    var z := Zeros(k) + s;
    if s == "" {
      assert z == Zeros(k);
      ZerosValue(k);
    } else {
      assert z[..|z| - 1] == Zeros(k) + s[..|s| - 1];
      LeadingZerosValue(k, s[..|s| - 1]);
    }
  }

  lemma {:induction false} ZerosValue(k: nat)
    ensures DigitsValue(Zeros(k)) == 0
  {
    if k > 0 {
      assert Zeros(k)[..k - 1] == Zeros(k - 1);
      ZerosValue(k - 1);
    }
  }

  /** A zero-padded numeral still reads back as its number. */
  lemma PaddedValue(n: nat, width: nat)
    ensures AllDigits(PadZeros(NatToString(n), width))
    ensures DigitsValue(PadZeros(NatToString(n), width)) == n
  {
    var s := NatToString(n);
    NatToStringValue(n);
    if |s| < width {
      LeadingZerosValue(width - |s|, s);
    }
  }

  // ---------------------------------------------------------------------------
  // A JavaScript Set of strings, kept as its insertion-ordered elements
  // ---------------------------------------------------------------------------

  predicate Distinct<T(==)>(s: seq<T>) {
    forall i, j | 0 <= i < j < |s| :: s[i] != s[j]
  }

  /** `set.add(x)`: a new element goes to the end; a present one keeps its place. */
  function SetAdd(acc: seq<string>, x: string): (r: seq<string>)
    ensures Distinct(acc) ==> Distinct(r)
    ensures forall y :: y in r <==> y in acc || y == x
  {
    if x in acc then acc else acc + [x]
  }

  /** `xs.forEach(x => set.add(x))`. */
  function SetAddAll(acc: seq<string>, xs: seq<string>): (r: seq<string>)
    decreases |xs|
  {
    if xs == [] then acc else SetAdd(SetAddAll(acc, xs[..|xs| - 1]), xs[|xs| - 1])
  }

  /** Adding a list adds exactly its elements and keeps the set free of repeats. */
  lemma {:induction false} SetAddAllContents(acc: seq<string>, xs: seq<string>)
    ensures Distinct(acc) ==> Distinct(SetAddAll(acc, xs))
    ensures forall y :: y in SetAddAll(acc, xs) <==> y in acc || y in xs
  {
    if xs != [] {
      var init := xs[..|xs| - 1];
      SetAddAllContents(acc, init);
      assert xs == init + [xs[|xs| - 1]];
      forall y ensures y in xs <==> y in init || y == xs[|xs| - 1] {
      }
    }
  }
}
