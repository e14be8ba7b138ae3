/**
 * The handful of Python string built-ins the pipeline relies on, over ASCII:
 * `str.strip()`, `str.strip(chars)`, `str.lower()`, `str.replace(c, "")`,
 * the first field of `str.split()`, `int(text)` and `str(n)`.
 */
module PyText {
  import opened Basics

  /**
   * The ASCII characters that `str.strip()` and `str.split()` treat as
   * whitespace: space, tab, line feed, vertical tab, form feed, carriage return
   * and the four information separators 0x1C to 0x1F.
   */
  predicate IsSpace(c: char) {
    c == ' ' || '\t' <= c <= '\r' || '\U{001C}' <= c <= '\U{001F}'
  }

  predicate IsDigit(c: char) {
    '0' <= c <= '9'
  }

  predicate AllDigits(s: string) {
    forall i | 0 <= i < |s| :: IsDigit(s[i])
  }

  predicate NoSpace(s: string) {
    forall i | 0 <= i < |s| :: !IsSpace(s[i])
  }

  // ---------------------------------------------------------------------------
  // strip

  /**
   * Whether `str.strip(chars)` removes `c`: whitespace when `chars` is None
   * (the plain `strip()`), otherwise the characters of `chars`.
   */
  predicate Strippable(c: char, chars: Option<string>) {
    if chars.None? then IsSpace(c) else c in chars.value
  }

  /** The first index from `i` on whose character is not strippable, or `|s|` when there is none. */
  function SkipFrom(s: string, chars: Option<string>, i: nat): (j: nat)
    requires i <= |s|
    ensures i <= j <= |s|
    ensures forall k | i <= k < j :: Strippable(s[k], chars)
    ensures j < |s| ==> !Strippable(s[j], chars)
    decreases |s| - i
  {
    if i == |s| || !Strippable(s[i], chars) then i else SkipFrom(s, chars, i + 1)
  }

  /** Where `s[lo..hi]` ends once its trailing strippable characters are dropped. */
  function BackFrom(s: string, chars: Option<string>, lo: nat, hi: nat): (e: nat)
    requires lo <= hi <= |s|
    ensures lo <= e <= hi
    ensures forall k | e <= k < hi :: Strippable(s[k], chars)
    ensures e > lo ==> !Strippable(s[e - 1], chars)
    decreases hi
  {
    if hi == lo || !Strippable(s[hi - 1], chars) then hi else BackFrom(s, chars, lo, hi - 1)
  }

  /** The number of leading strippable characters of `s`. */
  function LeadingCount(s: string, chars: Option<string>): (n: nat)
    ensures n <= |s|
    ensures forall k | 0 <= k < n :: Strippable(s[k], chars)
    ensures n < |s| ==> !Strippable(s[n], chars)
  {
    SkipFrom(s, chars, 0)
  }

  /** `r` is the slice of `s` that starts at `i`, and every character cut away on either side is strippable. */
  predicate Trims(s: string, r: string, i: int, chars: Option<string>)
    requires 0 <= i <= |s| - |r|
  {
    && (forall k | 0 <= k < |r| :: r[k] == s[i + k])
    && (forall k | 0 <= k < i :: Strippable(s[k], chars))
    && (forall k | i + |r| <= k < |s| :: Strippable(s[k], chars))
  }

  /**
   * Python's `s.strip(chars)`: removes every leading and trailing strippable
   * character, and nothing in between.
   */
  function StripChars(s: string, chars: Option<string>): (r: string)
    ensures |r| <= |s| - LeadingCount(s, chars) && Trims(s, r, LeadingCount(s, chars), chars)
    ensures r != [] ==> !Strippable(r[0], chars) && !Strippable(r[|r| - 1], chars)
    ensures (s == [] || (!Strippable(s[0], chars) && !Strippable(s[|s| - 1], chars))) ==> r == s
    ensures r == [] <==> forall k | 0 <= k < |s| :: Strippable(s[k], chars)
  {
    var i := LeadingCount(s, chars);
    var e := BackFrom(s, chars, i, |s|);
    assert s != [] && !Strippable(s[0], chars) && !Strippable(s[|s| - 1], chars) ==> i == 0 && e == |s|;
    s[i..e]
  }

  /**
   * The contract of `StripChars` leaves no choice: any slice of `s` whose cut
   * characters are all strippable and whose own ends are not is the stripped text.
   */
  lemma StripCharsUnique(s: string, r: string, i: int, chars: Option<string>)
    requires 0 <= i <= |s| - |r| && Trims(s, r, i, chars)
    requires r != [] ==> !Strippable(r[0], chars) && !Strippable(r[|r| - 1], chars)
    ensures r == StripChars(s, chars)
  {
    var w := StripChars(s, chars);
    var j := LeadingCount(s, chars);
    if r != [] {
      assert !Strippable(s[i], chars) && !Strippable(s[i + |r| - 1], chars) by {
        assert s[i] == r[0] && s[i + |r| - 1] == r[|r| - 1];
      }
      assert w != [];
      assert !Strippable(s[j], chars) && !Strippable(s[j + |w| - 1], chars) by {
        assert s[j] == w[0] && s[j + |w| - 1] == w[|w| - 1];
      }
      assert i == j && |r| == |w|;
    }
  }

  /** Python's `s.strip()` (ASCII whitespace): the input without its leading and trailing whitespace. */
  function Strip(s: string): (r: string)
    ensures |r| <= |s| - LeadingCount(s, None) && Trims(s, r, LeadingCount(s, None), None)
    ensures r != [] ==> !IsSpace(r[0]) && !IsSpace(r[|r| - 1])
    ensures r == [] <==> forall k | 0 <= k < |s| :: IsSpace(s[k])
  {
    StripChars(s, None)
  }

  /** Putting strippable characters in front of `s` moves its trimmed slice along by as many. */
  lemma TrimsShift(pad: string, s: string, t: string, i: nat, chars: Option<string>)
    requires forall k | 0 <= k < |pad| :: Strippable(pad[k], chars)
    requires i <= |s| - |t| && Trims(s, t, i, chars)
    ensures |pad| + i <= |pad + s| - |t| && Trims(pad + s, t, |pad| + i, chars)
  {
    var u := pad + s;
    forall k | 0 <= k < |t| ensures t[k] == u[|pad| + i + k] {
      assert u[|pad| + i + k] == s[i + k];
    }
    forall k | 0 <= k < |pad| + i ensures Strippable(u[k], chars) {
      if k >= |pad| {
        assert u[k] == s[k - |pad|];
      } else {
        assert u[k] == pad[k];
      }
    }
    forall k | |pad| + i + |t| <= k < |u| ensures Strippable(u[k], chars) {
      assert u[k] == s[k - |pad|];
    }
  }

  /** Leading whitespace is stripped away, however much of it there is. */
  lemma StripLeadingSpaces(pad: string, s: string)
    requires forall k | 0 <= k < |pad| :: IsSpace(pad[k])
    ensures Strip(pad + s) == Strip(s)
  {
    var t, i := Strip(s), LeadingCount(s, None);
    TrimsShift(pad, s, t, i, None);
    StripCharsUnique(pad + s, t, |pad| + i, None);
  }

  /** `strip()` keeps every character that is not whitespace. */
  lemma StripKeeps(s: string, k: nat)
    requires k < |s| && !IsSpace(s[k])
    ensures s[k] in Strip(s)
  {
    var i := LeadingCount(s, None);
    assert i <= k < i + |Strip(s)|;
    assert Strip(s)[k - i] == s[k];
  }

  /** A leading whitespace character is stripped away. */
  lemma StripLeadingSpace(c: char, s: string)
    requires IsSpace(c)
    ensures Strip([c] + s) == Strip(s)
  {
    StripLeadingSpaces([c], s);
  }

  // ---------------------------------------------------------------------------
  // lower, replace

  function LowerChar(c: char): char {
    if 'A' <= c <= 'Z' then (c as int + 32) as char else c
  }

  /** Python's `s.lower()`, restricted to the ASCII letters. */
  function Lower(s: string): (r: string)
    ensures |r| == |s|
    ensures forall i | 0 <= i < |s| :: r[i] == LowerChar(s[i])
  {
    seq(|s|, i requires 0 <= i < |s| => LowerChar(s[i]))
  }

  lemma LowerIdempotent(s: string)
    ensures Lower(Lower(s)) == Lower(s)
  {
  }

  /** Python's `s.replace(c, "")`: every occurrence of `c` removed, the rest kept in order. */
  function RemoveChar(s: string, c: char): (r: string)
    ensures |r| <= |s|
    ensures forall i | 0 <= i < |r| :: r[i] != c
    ensures (forall i | 0 <= i < |s| :: s[i] != c) ==> r == s
  {
    if s == [] then []
    else if s[0] == c then RemoveChar(s[1..], c)
    else [s[0]] + RemoveChar(s[1..], c)
  }

  /** On one character, `replace(c, "")` removes it when it is `c` and keeps it otherwise. */
  lemma RemoveCharOne(x: char, c: char)
    ensures RemoveChar([x], c) == if x == c then [] else [x]
  {
    assert [x][1..] == [];
  }

  /** `replace(c, "")` keeps every character other than `c`. */
  lemma {:induction false} RemoveCharKeepsOthers(s: string, c: char, x: char)
    requires x in s && x != c
    ensures x in RemoveChar(s, c)
  {
    if s[0] != x {
      assert x in s[1..] by {
        var k :| 0 <= k < |s| && s[k] == x;
        assert s[1..][k - 1] == x;
      }
      RemoveCharKeepsOthers(s[1..], c, x);
    }
  }

  lemma {:induction false} RemoveCharAppend(a: string, b: string, c: char)
    ensures RemoveChar(a + b, c) == RemoveChar(a, c) + RemoveChar(b, c)
  {
    if a != [] {
      assert (a + b)[0] == a[0] && (a + b)[1..] == a[1..] + b;
      RemoveCharAppend(a[1..], b, c);
    } else {
      assert a + b == b;
    }
  }

  // ---------------------------------------------------------------------------
  // split

  /** The longest prefix of `s` without whitespace. */
  function TakeWord(s: string): (r: string)
    ensures |r| <= |s| && r == s[..|r|] && NoSpace(r)
    ensures |r| < |s| ==> IsSpace(s[|r|])
  {
    if s == [] || IsSpace(s[0]) then [] else [s[0]] + TakeWord(s[1..])
  }

  /**
   * `parts[0]` of Python's `s.strip().split()`, or None when there are no parts:
   * the first maximal run of non-whitespace characters.
   */
  function FirstWord(s: string): (r: Option<string>)
    ensures r.None? <==> forall k | 0 <= k < |s| :: IsSpace(s[k])
    ensures r.Some? ==> r.value != [] && NoSpace(r.value)
    ensures r.Some? ==> exists i | 0 <= i < |s| :: WordStart(s, i) && r.value == TakeWord(s[i..])
  {
    var i := LeadingCount(s, None);
    if i == |s| then None
    else
      assert WordStart(s, i);
      Some(TakeWord(s[i..]))
  }

  /** Position `i` holds the first non-whitespace character of `s`. */
  predicate WordStart(s: string, i: int)
    requires 0 <= i < |s|
  {
    !IsSpace(s[i]) && forall k | 0 <= k < i :: IsSpace(s[k])
  }

  lemma {:induction false} TakeWordAppend(w: string, rest: string)
    requires NoSpace(w)
    requires rest == [] || IsSpace(rest[0])
    ensures TakeWord(w + rest) == w
  {
    if w != [] {
      assert (w + rest)[1..] == w[1..] + rest;
      TakeWordAppend(w[1..], rest);
    }
  }

  /**
   * The first field of a text that, after any whitespace, starts with a word is
   * that word, whatever follows a space.
   */
  lemma FirstWordOfPrefix(pad: string, w: string, rest: string)
    requires forall k | 0 <= k < |pad| :: IsSpace(pad[k])
    requires w != [] && NoSpace(w)
    requires rest == [] || IsSpace(rest[0])
    ensures FirstWord(pad + w + rest) == Some(w)
  {
    var s := pad + w + rest;
    assert s[|pad|] == w[0];
    assert LeadingCount(s, None) == |pad|;
    assert s[|pad|..] == w + rest;
    TakeWordAppend(w, rest);
  }

  // ---------------------------------------------------------------------------
  // int(), str()

  function DigitValue(c: char): nat
    requires IsDigit(c)
  {
    c as int - '0' as int
  }

  function DigitChar(d: nat): (c: char)
    requires d < 10
    ensures IsDigit(c) && DigitValue(c) == d
  {
    ('0' as int + d) as char
  }

  /** The value of a string of decimal digits, most significant first. */
  function DigitsValue(s: string): nat
    requires AllDigits(s)
  {
    if s == [] then 0 else DigitsValue(s[..|s| - 1]) * 10 + DigitValue(s[|s| - 1])
  }

  /** An optional sign followed by at least one digit, and nothing else. */
  function ParseSigned(t: string): (r: Option<int>)
    ensures r.Some? <==> t != [] && (IsDigit(t[0]) || (IsSign(t[0]) && |t| > 1)) && AllDigits(t[1..])
    ensures r.Some? && IsDigit(t[0]) ==> r.value == DigitsValue(t)
    ensures r.Some? && t[0] == '+' ==> r.value == DigitsValue(t[1..])
    ensures r.Some? && t[0] == '-' ==> r.value == -(DigitsValue(t[1..]) as int)
  {
    assert t != [] && IsDigit(t[0]) && AllDigits(t[1..]) ==> AllDigits(t) by {
      if t != [] && IsDigit(t[0]) && AllDigits(t[1..]) {
        forall k | 1 <= k < |t| ensures IsDigit(t[k]) {
          assert t[k] == t[1..][k - 1];
        }
      }
    }
    if |t| > 1 && (t[0] == '+' || t[0] == '-') && AllDigits(t[1..]) then
      var v: int := DigitsValue(t[1..]);
      Some(if t[0] == '-' then -v else v)
    else if t != [] && AllDigits(t) then
      Some(DigitsValue(t))
    else
      None
  }

  predicate IsSign(c: char) {
    c == '+' || c == '-'
  }

  /**
   * Python's `int(text)` for base 10: it succeeds exactly when the stripped text
   * is an optional sign followed by one or more digits, and then gives their
   * value, negated after a minus sign.
   */
  function PyInt(text: string): (r: Option<int>)
    ensures r.Some? <==>
      && Strip(text) != []
      && (IsDigit(Strip(text)[0]) || (IsSign(Strip(text)[0]) && |Strip(text)| > 1))
      && AllDigits(Strip(text)[1..])
    ensures r.Some? && IsDigit(Strip(text)[0]) ==> r.value == DigitsValue(Strip(text))
    ensures r.Some? && Strip(text)[0] == '+' ==> r.value == DigitsValue(Strip(text)[1..])
    ensures r.Some? && Strip(text)[0] == '-' ==> r.value == -(DigitsValue(Strip(text)[1..]) as int)
    ensures r.Some? ==> IsDigit(Strip(text)[|Strip(text)| - 1])
  {
    ParseSigned(Strip(text))
  }

  /** `int()` refuses text holding anything but whitespace, signs and digits. */
  lemma PyIntRejects(text: string, c: char)
    requires c in text && !IsDigit(c) && !IsSpace(c) && !IsSign(c)
    ensures PyInt(text).None?
  {
    var k :| 0 <= k < |text| && text[k] == c;
    StripKeeps(text, k);
    var t := Strip(text);
    var m :| 0 <= m < |t| && t[m] == c;
    if m > 0 {
      assert t[1..][m - 1] == c;
    }
  }

  /** `str(n)` for a natural number: its decimal digits, no leading zero. */
  function Decimal(n: nat): (r: string)
    ensures r != [] && AllDigits(r)
    ensures |r| > 1 ==> r[0] != '0'
  {
    if n < 10 then [DigitChar(n)] else Decimal(n / 10) + [DigitChar(n % 10)]
  }

  /** `str(i)` for any integer. */
  function IntToString(i: int): (r: string)
    ensures r != []
  {
    if i < 0 then "-" + Decimal(-i) else Decimal(i)
  }

  lemma {:induction false} DecimalValue(n: nat)
    ensures DigitsValue(Decimal(n)) == n
  {
    if n >= 10 {
      DecimalValue(n / 10);
      var d := Decimal(n);
      assert d[..|d| - 1] == Decimal(n / 10);
    }
  }

  lemma StripUnpadded(s: string)
    requires s != [] && !IsSpace(s[0]) && !IsSpace(s[|s| - 1])
    ensures Strip(s) == s
  {
  }

  /** Reading back what `str` wrote gives the number again. */
  lemma DecimalRoundTrip(n: nat)
    ensures PyInt(Decimal(n)) == Some(n)
  {
    var d := Decimal(n);
    assert ParseSigned(d) == Some(n) by {
      DecimalValue(n);
      assert IsDigit(d[0]);
    }
    StripUnpadded(d);
  }

  lemma IntToStringRoundTrip(i: int)
    ensures PyInt(IntToString(i)) == Some(i)
  {
    if i < 0 {
      var d := Decimal(-i);
      var s := "-" + d;
      DecimalValue(-i);
      assert s[|s| - 1] == d[|d| - 1];
      StripUnpadded(s);
      assert s[1..] == d;
      assert ParseSigned(s) == Some(i);
    } else {
      DecimalRoundTrip(i);
    }
  }

  /** Distinct integers have distinct `str` forms. */
  lemma IntToStringInjective(i: int, j: int)
    requires IntToString(i) == IntToString(j)
    ensures i == j
  {
    IntToStringRoundTrip(i);
    IntToStringRoundTrip(j);
  }

  // ---------------------------------------------------------------------------
  // substring test

  /** Python's `t in s` for strings. */
  predicate Contains(s: string, t: string) {
    exists i | 0 <= i <= |s| - |t| :: OccursAt(s, t, i)
  }

  predicate OccursAt(s: string, t: string, i: int)
    requires 0 <= i <= |s| - |t|
  {
    s[i..i + |t|] == t
  }

  lemma ContainsConcat(a: string, t: string, b: string)
    ensures Contains(a + t + b, t)
  {
    assert OccursAt(a + t + b, t, |a|);
  }

  lemma ContainsTrans(s: string, m: string, t: string)
    requires Contains(s, m) && Contains(m, t)
    ensures Contains(s, t)
  {
    var i :| 0 <= i <= |s| - |m| && OccursAt(s, m, i);
    var j :| 0 <= j <= |m| - |t| && OccursAt(m, t, j);
    forall k | 0 <= k < |t| ensures s[i + j + k] == t[k] {
      assert m[j + k] == t[k];
      assert s[i + (j + k)] == m[j + k];
    }
    assert OccursAt(s, t, i + j);
  }

  /** Python's `s[:limit]`: a negative limit counts from the end. */
  function SliceTo<T>(s: seq<T>, limit: int): (r: seq<T>)
    ensures |r| <= |s| && r == s[..|r|]
    ensures limit >= 0 ==> |r| == if limit < |s| then limit else |s|
    ensures limit < 0 ==> |r| == if |s| + limit > 0 then |s| + limit else 0
  {
    if limit >= 0 then (if limit < |s| then s[..limit] else s)
    else (if |s| + limit > 0 then s[..|s| + limit] else [])
  }
}
