/**
 * The Python `str` built-ins the import script relies on, over `seq<char>`:
 * `isspace`, `strip`, `lower`, the `in` substring test, `replace` of one
 * character by another, `split` on a one-character separator, `join` with a
 * one-character separator, and `str` of an integer.
 */
module PyStr {

  /** `c.isspace()`: exactly the characters `str.strip()` removes when called without arguments. */
  predicate IsSpace(c: char) {
    || c == ' '
    || '\t' <= c <= '\r'
    || '\U{1C}' <= c <= '\U{1F}'
    || c == '\U{85}' || c == '\U{A0}' || c == '\U{1680}'
    || '\U{2000}' <= c <= '\U{200A}'
    || c == '\U{2028}' || c == '\U{2029}' || c == '\U{202F}' || c == '\U{205F}' || c == '\U{3000}'
  }

  predicate AllSpace(s: string) {
    forall i :: 0 <= i < |s| ==> IsSpace(s[i])
  }

  /** No whitespace at either end. */
  predicate IsStripped(s: string) {
    s == [] || (!IsSpace(s[0]) && !IsSpace(s[|s| - 1]))
  }

  // ---------------------------------------------------------------------------
  // strip

  /** How many whitespace characters `s` starts with. */
  function LeadingSpace(s: string): (n: nat)
    ensures n <= |s|
    ensures AllSpace(s[..n])
    ensures n < |s| ==> !IsSpace(s[n])
  {
    if |s| > 0 && IsSpace(s[0]) then 1 + LeadingSpace(s[1..]) else 0
  }

  /** How many whitespace characters `s` ends with. */
  function TrailingSpace(s: string): (n: nat)
    ensures n <= |s|
    ensures AllSpace(s[|s| - n..])
    ensures n < |s| ==> !IsSpace(s[|s| - 1 - n])
  {
    if |s| > 0 && IsSpace(s[|s| - 1]) then 1 + TrailingSpace(s[..|s| - 1]) else 0
  }

  /**
   * Where the slice kept by `strip` ends: just before the trailing whitespace
   * of what follows the leading whitespace.
   */
  function StripEnd(s: string): (e: nat)
    ensures LeadingSpace(s) <= e <= |s|
  {
    var t := s[LeadingSpace(s)..];
    LeadingSpace(s) + (|t| - TrailingSpace(t))
  }

  /** Everything after the kept slice is whitespace, and the slice does not end in whitespace. */
  lemma StripEndFacts(s: string)
    ensures AllSpace(s[StripEnd(s)..])
    ensures LeadingSpace(s) < StripEnd(s) ==> !IsSpace(s[StripEnd(s) - 1])
  {
    var n := LeadingSpace(s);
    var t := s[n..];
    var m := |t| - TrailingSpace(t);
    assert t[m..] == s[n + m..];
    if m > 0 {
      assert t[m - 1] == s[n + m - 1];
    }
  }

  /** The kept slice is empty exactly when the text is all whitespace. */
  lemma StripEmptyFacts(s: string)
    ensures LeadingSpace(s) == StripEnd(s) <==> AllSpace(s)
  {
    var n := LeadingSpace(s);
    StripEndFacts(s);
    if n == StripEnd(s) {
      assert n == |s|;
      assert s[..n] == s;
    }
    if AllSpace(s) {
      assert n == |s|;
    }
  }

  /**
   * `s.strip()`: the slice of `s` left once the whitespace at both ends is cut
   * off. Everything cut is whitespace and the slice has none at its ends, which
   * determines the slice; it is empty exactly when `s` is all whitespace.
   */
  function Strip(s: string): (r: string)
    ensures IsStripped(r)
    ensures LeadingSpace(s) + |r| <= |s| && r == s[LeadingSpace(s)..LeadingSpace(s) + |r|]
    ensures AllSpace(s[..LeadingSpace(s)]) && AllSpace(s[LeadingSpace(s) + |r|..])
    ensures r == [] <==> AllSpace(s)
  {
    StripEndFacts(s);
    StripEmptyFacts(s);
    s[LeadingSpace(s)..StripEnd(s)]
  }

  /** Stripping a string that has no whitespace at its ends gives it back. */
  lemma StripStripped(s: string)
    requires IsStripped(s)
    ensures Strip(s) == s
  {
    assert LeadingSpace(s) == 0;
    assert TrailingSpace(s) == 0;
  }

  /** `strip` is idempotent. */
  lemma StripIdempotent(s: string)
    ensures Strip(Strip(s)) == Strip(s)
  {
    StripStripped(Strip(s));
  }

  /** A leading whitespace character is cut off by `strip`. */
  lemma StripSpaceCons(c: char, s: string)
    requires IsSpace(c)
    ensures Strip([c] + s) == Strip(s)
  {
    KeptSliceCons(c, s);
  }

  /** The slice `strip` keeps is the same behind a leading whitespace character. */
  lemma KeptSliceCons(c: char, s: string)
    requires IsSpace(c)
    ensures ([c] + s)[LeadingSpace([c] + s)..StripEnd([c] + s)] == s[LeadingSpace(s)..StripEnd(s)]
  {
    LeadingSpaceCons(c, s);
    StripEndCons(c, s);
    SliceCons(c, s, LeadingSpace(s), StripEnd(s), LeadingSpace([c] + s), StripEnd([c] + s));
  }

  /** A leading whitespace character moves the end of the kept slice by one. */
  lemma StripEndCons(c: char, s: string)
    requires IsSpace(c)
    ensures StripEnd([c] + s) == 1 + StripEnd(s)
  {
    LeadingSpaceCons(c, s);
    SliceCons(c, s, LeadingSpace(s), |s|, LeadingSpace([c] + s), 1 + |s|);
  }

  /** A leading whitespace character adds one to the leading whitespace run. */
  lemma LeadingSpaceCons(c: char, s: string)
    requires IsSpace(c)
    ensures LeadingSpace([c] + s) == 1 + LeadingSpace(s)
  {
    assert ([c] + s)[1..] == s;
  }

  /** Slicing behind one extra leading character. */
  lemma SliceCons(c: char, s: string, i: nat, j: nat, i': nat, j': nat)
    requires i <= j <= |s| && i' == 1 + i && j' == 1 + j
    ensures ([c] + s)[i'..j'] == s[i..j]
    ensures ([c] + s)[i'..] == s[i..]
  {
  }

  // ---------------------------------------------------------------------------
  // lower

  /**
   * `c.lower()` on the characters this model covers: the ASCII capitals and the
   * Latin-1 capitals U+00C0 to U+00DE (except the sign U+00D7) move up by 32;
   * every other character is left as it is.
   */
  function LowerChar(c: char): char {
    if 'A' <= c <= 'Z' || ('\U{C0}' <= c <= '\U{DE}' && c != '\U{D7}') then (c as int + 32) as char else c
  }

  /** `s.lower()`, character by character. */
  function Lower(s: string): string {
    seq(|s|, i requires 0 <= i < |s| => LowerChar(s[i]))
  }

  /** Lower-casing a slice is slicing the lower-cased text. */
  lemma LowerSlice(s: string, i: nat, j: nat)
    requires i <= j <= |s|
    ensures Lower(s)[i..j] == Lower(s[i..j])
  {
  }

  /** Lower-casing a suffix is taking the suffix of the lower-cased text. */
  lemma LowerSuffix(s: string, i: nat)
    requires i <= |s|
    ensures Lower(s)[i..] == Lower(s[i..])
  {
  }

  /** Lower-casing keeps whitespace and non-whitespace apart. */
  lemma LowerCharSpace(c: char)
    ensures IsSpace(LowerChar(c)) == IsSpace(c)
  {
  }

  /** Whitespace stays whitespace when lower-cased. */
  lemma LowerAllSpace(s: string)
    requires AllSpace(s)
    ensures AllSpace(Lower(s))
  {
    forall i | 0 <= i < |s| ensures IsSpace(Lower(s)[i]) {
      LowerCharSpace(s[i]);
    }
  }

  /** `lower` is idempotent, so text that is already lower-cased is its own lower case. */
  lemma LowerIdempotent(s: string)
    ensures Lower(Lower(s)) == Lower(s)
  {
  }

  lemma {:induction false} LeadingSpaceLower(s: string)
    ensures LeadingSpace(Lower(s)) == LeadingSpace(s)
    decreases |s|
  {
    if |s| > 0 {
      LowerCharSpace(s[0]);
      if IsSpace(s[0]) {
        assert Lower(s)[1..] == Lower(s[1..]);
        LeadingSpaceLower(s[1..]);
      }
    }
  }

  lemma {:induction false} TrailingSpaceLower(s: string)
    ensures TrailingSpace(Lower(s)) == TrailingSpace(s)
    decreases |s|
  {
    if |s| > 0 {
      LowerCharSpace(s[|s| - 1]);
      if IsSpace(s[|s| - 1]) {
        assert Lower(s)[..|s| - 1] == Lower(s[..|s| - 1]);
        TrailingSpaceLower(s[..|s| - 1]);
      }
    }
  }

  /** `s.strip().lower() == s.lower().strip()`. */
  lemma LowerStrip(s: string)
    ensures Lower(Strip(s)) == Strip(Lower(s))
  {
    var n := LeadingSpace(s);
    var e := StripEnd(s);
    LeadingSpaceLower(s);
    LowerSuffix(s, n);
    TrailingSpaceLower(s[n..]);
    assert StripEnd(Lower(s)) == e;
    LowerSlice(s, n, e);
  }

  // ---------------------------------------------------------------------------
  // the `in` substring test

  /** `needle` occurs in `text` starting at index `i`. */
  predicate OccursAt(text: string, needle: string, i: nat) {
    i + |needle| <= |text| && text[i..i + |needle|] == needle
  }

  /** `needle in text`. */
  predicate Contains(text: string, needle: string) {
    exists i: nat | i <= |text| :: OccursAt(text, needle, i)
  }

  /** A word with no whitespace in it. */
  predicate IsWord(w: string) {
    w != [] && forall k :: 0 <= k < |w| ==> !IsSpace(w[k])
  }

  /** A word found in a slice is found in the whole text. */
  lemma ContainsInSlice(text: string, i: nat, j: nat, w: string)
    requires i <= j <= |text|
    requires Contains(text[i..j], w)
    ensures Contains(text, w)
  {
    var core := text[i..j];
    var p: nat :| p <= |core| && OccursAt(core, w, p);
    forall k | 0 <= k < |w| ensures text[i + p + k] == w[k] {
      assert core[p..p + |w|][k] == w[k];
    }
    assert text[i + p..i + p + |w|] == w;
    assert OccursAt(text, w, i + p);
  }

  /** A whitespace-free word found in a text lies inside the part between its whitespace ends. */
  lemma ContainsInCore(text: string, i: nat, j: nat, w: string)
    requires i <= j <= |text|
    requires AllSpace(text[..i]) && AllSpace(text[j..])
    requires IsWord(w)
    requires Contains(text, w)
    ensures Contains(text[i..j], w)
  {
    var core := text[i..j];
    var p: nat :| p <= |text| && OccursAt(text, w, p);
    assert text[p] == w[0];
    var last := p + |w| - 1;
    assert text[last] == w[|w| - 1];
    forall k | 0 <= k < |w| ensures core[p - i + k] == w[k] {
      assert text[p..p + |w|][k] == w[k];
    }
    assert core[p - i..p - i + |w|] == w;
    assert OccursAt(core, w, p - i);
  }

  /**
   * Cutting whitespace off both ends of `text` does not change whether a
   * whitespace-free word occurs in it.
   */
  lemma ContainsTrimmed(text: string, i: nat, j: nat, w: string)
    requires i <= j <= |text|
    requires AllSpace(text[..i]) && AllSpace(text[j..])
    requires IsWord(w)
    ensures Contains(text[i..j], w) <==> Contains(text, w)
  {
    if Contains(text[i..j], w) {
      ContainsInSlice(text, i, j, w);
    }
    if Contains(text, w) {
      ContainsInCore(text, i, j, w);
    }
  }

  /** Whether a whitespace-free word occurs in `s` does not depend on stripping `s`. */
  lemma ContainsStrip(s: string, w: string)
    requires IsWord(w)
    ensures Contains(Strip(s), w) <==> Contains(s, w)
  {
    var r := Strip(s);
    ContainsTrimmed(s, LeadingSpace(s), LeadingSpace(s) + |r|, w);
  }

  // ---------------------------------------------------------------------------
  // replace, split and join on one character

  /** `s.replace(a, b)` for single characters `a` and `b`. */
  function ReplaceChar(s: string, a: char, b: char): (r: string)
    ensures |r| == |s|
    ensures a != b ==> a !in r
    ensures forall c :: c in r && c != b ==> c in s
  {
    seq(|s|, i requires 0 <= i < |s| => if s[i] == a then b else s[i])
  }

  /** Replacing a character that does not occur changes nothing. */
  lemma ReplaceAbsent(s: string, a: char, b: char)
    requires a !in s
    ensures ReplaceChar(s, a, b) == s
  {
  }

  /**
   * `s.split(d)` for a one-character separator `d`: the pieces between the
   * separators, empty pieces included; there is always at least one piece.
   */
  function Split(s: string, d: char): (parts: seq<string>)
    ensures |parts| >= 1
    ensures forall i :: 0 <= i < |parts| ==> d !in parts[i]
    decreases |s|
  {
    if s == [] then [[]]
    else
      var rest := Split(s[1..], d);
      if s[0] == d then [[]] + rest else [[s[0]] + rest[0]] + rest[1..]
  }

  /** A character absent from the text is absent from every piece of its split. */
  lemma {:induction false} SplitAvoids(s: string, d: char, x: char)
    requires x !in s
    ensures forall i :: 0 <= i < |Split(s, d)| ==> x !in Split(s, d)[i]
    decreases |s|
  {
    if s != [] {
      assert x !in s[1..];
      SplitAvoids(s[1..], d, x);
    }
  }

  /** The first piece of a split is the text up to the first separator, or all of it. */
  lemma {:induction false} SplitFirst(s: string, d: char)
    ensures |Split(s, d)[0]| <= |s| && Split(s, d)[0] == s[..|Split(s, d)[0]|]
    ensures |Split(s, d)[0]| < |s| ==> s[|Split(s, d)[0]|] == d
    decreases |s|
  {
    if s != [] && s[0] != d {
      SplitFirst(s[1..], d);
    }
  }

  /** `d.join(parts)` for a one-character separator `d`. */
  function Join(parts: seq<string>, d: char): string
    decreases |parts|
  {
    if parts == [] then []
    else if |parts| == 1 then parts[0]
    else parts[0] + [d] + Join(parts[1..], d)
  }

  /** The step of `JoinSplit` for a text that starts with the separator. */
  lemma JoinSplitSeparator(s: string, d: char)
    requires s != [] && s[0] == d
    requires Join(Split(s[1..], d), d) == s[1..]
    ensures Join(Split(s, d), d) == s
  {
    var rest := Split(s[1..], d);
    assert Split(s, d) == [[]] + rest;
    assert Join(Split(s, d), d) == [] + [d] + Join(rest, d);
    assert s == [d] + s[1..];
  }

  /** The step of `JoinSplit` for a text that starts with any other character. */
  lemma JoinSplitOther(s: string, d: char)
    requires s != [] && s[0] != d
    requires Join(Split(s[1..], d), d) == s[1..]
    ensures Join(Split(s, d), d) == s
  {
    var rest := Split(s[1..], d);
    var parts := Split(s, d);
    assert parts == [[s[0]] + rest[0]] + rest[1..];
    assert s == [s[0]] + s[1..];
    if |rest| == 1 {
      assert Join(parts, d) == [s[0]] + rest[0];
    } else {
      assert parts[1..] == rest[1..];
      assert Join(rest, d) == rest[0] + [d] + Join(rest[1..], d);
      assert Join(parts, d) == [s[0]] + rest[0] + [d] + Join(rest[1..], d);
    }
  }

  /** Joining the pieces of a split with the same separator gives the text back. */
  lemma {:induction false} JoinSplit(s: string, d: char)
    ensures Join(Split(s, d), d) == s
    decreases |s|
  {
    if s != [] {
      JoinSplit(s[1..], d);
      if s[0] == d {
        JoinSplitSeparator(s, d);
      } else {
        JoinSplitOther(s, d);
      }
    }
  }

  /** Splitting text that starts with a character other than the separator. */
  lemma SplitOther(c: char, s: string, d: char)
    requires c != d
    ensures Split([c] + s, d) == [[c] + Split(s, d)[0]] + Split(s, d)[1..]
  {
    assert ([c] + s)[1..] == s;
  }

  /** Splitting text whose first piece `p` holds no separator. */
  lemma {:induction false} SplitPrefix(p: string, s: string, d: char)
    requires d !in p
    ensures Split(p + s, d) == [p + Split(s, d)[0]] + Split(s, d)[1..]
    decreases |p|
  {
    var tail := Split(s, d);
    if p == [] {
      assert p + s == s;
      assert p + tail[0] == tail[0];
      assert tail == [tail[0]] + tail[1..];
    } else {
      SplitPrefix(p[1..], s, d);
      assert p + s == [p[0]] + (p[1..] + s);
      SplitOther(p[0], p[1..] + s, d);
      assert [p[0]] + (p[1..] + tail[0]) == p + tail[0];
    }
  }

  /** Splitting separator-free pieces joined by that separator gives the pieces back. */
  lemma {:induction false} SplitJoin(parts: seq<string>, d: char)
    requires parts != []
    requires forall i :: 0 <= i < |parts| ==> d !in parts[i]
    ensures Split(Join(parts, d), d) == parts
    decreases |parts|
  {
    if |parts| == 1 {
      SplitPrefix(parts[0], [], d);
      assert parts[0] + [] == parts[0];
    } else {
      var tail := Join(parts[1..], d);
      SplitJoin(parts[1..], d);
      assert Join(parts, d) == parts[0] + ([d] + tail);
      SplitPrefix(parts[0], [d] + tail, d);
      assert ([d] + tail)[1..] == tail;
      assert Split([d] + tail, d) == [[]] + Split(tail, d);
      assert parts[0] + [] == parts[0];
    }
  }

  // ---------------------------------------------------------------------------
  // str(n) for an integer n

  predicate IsDigit(c: char) {
    '0' <= c <= '9'
  }

  function DigitChar(k: nat): (c: char)
    requires k < 10
  {
    ('0' as int + k) as char
  }

  /** The decimal digits of `n`: no sign, and no leading zero except in "0". */
  function NatToDecimal(n: nat): (r: string)
    ensures |r| >= 1
    ensures forall i :: 0 <= i < |r| ==> IsDigit(r[i])
    ensures r[0] == '0' <==> n == 0
    ensures n == 0 ==> r == "0"
    decreases n
  {
    if n < 10 then [DigitChar(n)] else NatToDecimal(n / 10) + [DigitChar(n % 10)]
  }

  /** `str(n)`: a minus sign for negative `n`, then the decimal digits of its magnitude. */
  function IntToDecimal(n: int): (r: string)
    ensures r != [] && (r[0] == '-' <==> n < 0)
    ensures forall i :: 0 < i < |r| ==> IsDigit(r[i])
    ensures n >= 0 ==> (r[0] == '0' <==> n == 0)
    ensures n < 0 ==> |r| >= 2 && r[1] != '0'
  {
    if n < 0 then "-" + NatToDecimal(-n) else NatToDecimal(n)
  }

  /** The value of a string of decimal digits, as `int(s)` reads it. */
  function DigitsValue(s: string): nat
    requires forall i :: 0 <= i < |s| ==> IsDigit(s[i])
    decreases |s|
  {
    if s == [] then 0
    else
      var last := s[|s| - 1];
      assert IsDigit(last);
      10 * DigitsValue(s[..|s| - 1]) + (last as int - '0' as int)
  }

  /** `int(s)` for an optionally signed string of decimal digits. */
  function DecimalValue(s: string): int
    requires s != [] && forall i :: 0 < i < |s| ==> IsDigit(s[i])
    requires s[0] != '-' ==> IsDigit(s[0])
  {
    if s[0] == '-' then 0 - DigitsValue(s[1..]) else DigitsValue(s)
  }

  lemma {:induction false} NatDecimalRoundTrip(n: nat)
    ensures DigitsValue(NatToDecimal(n)) == n
    decreases n
  {
    if n >= 10 {
      NatDecimalRoundTrip(n / 10);
      var r := NatToDecimal(n);
      assert r[..|r| - 1] == NatToDecimal(n / 10);
    }
  }

  /** Reading back `str(n)` gives `n`: the rendering loses nothing. */
  lemma DecimalRoundTrip(n: int)
    ensures DecimalValue(IntToDecimal(n)) == n
  {
    if n < 0 {
      NatDecimalRoundTrip(-n);
      assert IntToDecimal(n)[1..] == NatToDecimal(-n);
    } else {
      NatDecimalRoundTrip(n);
    }
  }
}
