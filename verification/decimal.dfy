/**
 * Decimal text: Python's `str(n)` for a natural number and Python's `int(s)`
 * for a string, restricted to ASCII characters.
 */
module Decimal {
  import opened Wrappers

  predicate IsDigit(c: char) {
    '0' <= c <= '9'
  }

  function DigitValue(c: char): (d: nat)
    requires IsDigit(c)
    ensures d < 10
  {
    c as int - '0' as int
  }

  function DigitChar(d: nat): (c: char)
    requires d < 10
    ensures IsDigit(c) && DigitValue(c) == d
  {
    ('0' as int + d) as char
  }

  /** The ASCII characters that `int()` skips around a number: tab, line
      feed, vertical tab, form feed, carriage return and space. */
  predicate IsSpace(c: char) {
    c == ' ' || 9 <= c as int <= 13
  }

  /** `s` with its leading whitespace removed. */
  function TrimStart(s: string): (r: string)
    ensures |r| <= |s| && r == s[|s| - |r|..]
    ensures r == [] || !IsSpace(r[0])
    ensures forall i :: 0 <= i < |s| - |r| ==> IsSpace(s[i])
  {
    if s != [] && IsSpace(s[0]) then TrimStart(s[1..]) else s
  }

  /** `s` with its trailing whitespace removed. */
  function TrimEnd(s: string): (r: string)
    ensures |r| <= |s| && r == s[..|r|]
    ensures r == [] || !IsSpace(r[|r| - 1])
    ensures forall i :: |r| <= i < |s| ==> IsSpace(s[i])
  {
    if s != [] && IsSpace(s[|s| - 1]) then TrimEnd(s[..|s| - 1]) else s
  }

  /** The whitespace stripping `int()` does before reading a number. */
  function Trim(s: string): string {
    TrimEnd(TrimStart(s))
  }

  /** The digit part of a base-10 literal as `int()` accepts it: at least
      one digit, and an underscore only ever sits between two digits. */
  predicate WellFormedDigits(s: string) {
    && |s| > 0
    && IsDigit(s[0])
    && IsDigit(s[|s| - 1])
    && (forall i :: 0 <= i < |s| ==> IsDigit(s[i]) || s[i] == '_')
    && (forall i :: 0 <= i < |s| - 1 && s[i] == '_' ==> IsDigit(s[i + 1]))
  }

  /** The value of a string of digits and underscores, underscores ignored. */
  function DigitsValue(s: string): nat
    requires forall i :: 0 <= i < |s| ==> IsDigit(s[i]) || s[i] == '_'
  {
    if s == [] then 0
    else if s[|s| - 1] == '_' then DigitsValue(s[..|s| - 1])
    else 10 * DigitsValue(s[..|s| - 1]) + DigitValue(s[|s| - 1])
  }

  /** The text after an optional leading sign. */
  function Magnitude(t: string): (m: string)
    ensures m == t || (|t| > 0 && (t[0] == '+' || t[0] == '-') && m == t[1..])
  {
    if |t| > 0 && (t[0] == '+' || t[0] == '-') then t[1..] else t
  }

  /** `int()` applied to text already stripped of whitespace: an optional
      sign followed by well-formed digits, and nothing else, is accepted. */
  function ParseSigned(t: string): (r: Option<int>)
    ensures r.Some? ==> exists i :: 0 <= i < |t| && IsDigit(t[i])
  {
    if |t| > 0 && (t[0] == '+' || t[0] == '-') then
      if WellFormedDigits(t[1..]) then
        assert IsDigit(t[1]);
        var v: int := DigitsValue(t[1..]);
        Some(if t[0] == '-' then -v else v)
      else None
    else if WellFormedDigits(t) then
      assert IsDigit(t[0]);
      Some(DigitsValue(t))
    else None
  }

  /** Exactly the texts whose magnitude is well-formed digits are accepted:
      `_1`, `1_`, `1__2`, `+_1` and `12a` are rejected. */
  lemma ParseSignedAccepts(t: string)
    ensures ParseSigned(t).Some? <==> WellFormedDigits(Magnitude(t))
  {
  }

  /** Python's `int(s)` in base 10; `None` where `int()` raises ValueError.
      Text without a digit never parses (`int("")`, `int("frame")`), nor
      does text holding anything but whitespace, digits, `_` and signs
      (`int("12a")`). */
  function ParseInt(s: string): (r: Option<int>)
    ensures r.Some? ==> exists i :: 0 <= i < |s| && IsDigit(s[i])
    ensures r.Some? ==> forall i :: 0 <= i < |s| ==> IsSpace(s[i]) || IsDigit(s[i]) || s[i] == '_' || s[i] == '+' || s[i] == '-'
  {
    AcceptedCharacters(s);
    ParseSigned(Trim(s))
  }

  /** A prefix `t` of a suffix `u` of `s`, with only whitespace cut off on
      either side. */
  lemma SliceOfSlice(s: string, u: string, t: string)
    requires |u| <= |s| && u == s[|s| - |u|..]
    requires forall i :: 0 <= i < |s| - |u| ==> IsSpace(s[i])
    requires |t| <= |u| && t == u[..|t|]
    requires forall i :: |t| <= i < |u| ==> IsSpace(u[i])
    ensures var a := |s| - |u|;
            && a + |t| <= |s|
            && t == s[a..a + |t|]
            && forall i :: 0 <= i < |s| && !(a <= i < a + |t|) ==> IsSpace(s[i])
  {
    var a := |s| - |u|;
    forall i | a + |t| <= i < |s|
      ensures IsSpace(s[i])
    {
      assert s[i] == u[i - a];
    }
  }

  /** An accepted stripped text holds only digits, `_` and signs. */
  lemma AcceptedSignedCharacters(t: string)
    requires ParseSigned(t).Some?
    ensures forall j :: 0 <= j < |t| ==> IsDigit(t[j]) || t[j] == '_' || t[j] == '+' || t[j] == '-'
  {
    var m := Magnitude(t);
    ParseSignedAccepts(t);
    forall j | 0 <= j < |t|
      ensures IsDigit(t[j]) || t[j] == '_' || t[j] == '+' || t[j] == '-'
    {
      if m != t && j > 0 {
        assert t[j] == m[j - 1];
      }
    }
  }

  /** Characters allowed in a slice stay allowed in the whole text when
      everything outside the slice is whitespace, and a digit of the slice
      is a digit of the text. */
  lemma SliceCharacters(s: string, t: string, a: nat)
    requires a + |t| <= |s| && t == s[a..a + |t|]
    requires forall i :: 0 <= i < |s| && !(a <= i < a + |t|) ==> IsSpace(s[i])
    requires forall j :: 0 <= j < |t| ==> IsDigit(t[j]) || t[j] == '_' || t[j] == '+' || t[j] == '-'
    requires exists j :: 0 <= j < |t| && IsDigit(t[j])
    ensures exists i :: 0 <= i < |s| && IsDigit(s[i])
    ensures forall i :: 0 <= i < |s| ==> IsSpace(s[i]) || IsDigit(s[i]) || s[i] == '_' || s[i] == '+' || s[i] == '-'
  {
    var j :| 0 <= j < |t| && IsDigit(t[j]);
    assert s[a + j] == t[j];
    forall i | 0 <= i < |s| && a <= i < a + |t|
      ensures IsDigit(s[i]) || s[i] == '_' || s[i] == '+' || s[i] == '-'
    {
      assert s[i] == t[i - a];
    }
  }

  /** What holds of the characters of `Trim(s)` holds of `s` up to the
      whitespace cut off. */
  lemma TrimmedCharacters(s: string)
    requires forall j :: 0 <= j < |Trim(s)| ==> IsDigit(Trim(s)[j]) || Trim(s)[j] == '_' || Trim(s)[j] == '+' || Trim(s)[j] == '-'
    requires exists j :: 0 <= j < |Trim(s)| && IsDigit(Trim(s)[j])
    ensures exists i :: 0 <= i < |s| && IsDigit(s[i])
    ensures forall i :: 0 <= i < |s| ==> IsSpace(s[i]) || IsDigit(s[i]) || s[i] == '_' || s[i] == '+' || s[i] == '-'
  {
    var u := TrimStart(s);
    var t := TrimEnd(u);
    SliceOfSlice(s, u, t);
    SliceCharacters(s, t, |s| - |u|);
  }

  lemma AcceptedCharacters(s: string)
    ensures ParseSigned(Trim(s)).Some? ==>
              && (exists i :: 0 <= i < |s| && IsDigit(s[i]))
              && forall i :: 0 <= i < |s| ==> IsSpace(s[i]) || IsDigit(s[i]) || s[i] == '_' || s[i] == '+' || s[i] == '-'
  {
    var t := Trim(s);
    if ParseSigned(t).Some? {
      AcceptedSignedCharacters(t);
      TrimmedCharacters(s);
    }
  }

  /** Python's `str(n)` for a natural number: shortest decimal digits. */
  function Show(n: nat): (r: string)
    ensures |r| > 0
    ensures forall i :: 0 <= i < |r| ==> IsDigit(r[i])
    ensures r[0] == '0' ==> r == "0"
    ensures |r| == 1 <==> n < 10
  {
    if n < 10 then [DigitChar(n)] else Show(n / 10) + [DigitChar(n % 10)]
  }

  lemma {:induction false} ShowValue(n: nat)
    ensures DigitsValue(Show(n)) == n
  {
    var s := Show(n);
    if n >= 10 {
      assert s[..|s| - 1] == Show(n / 10);
      ShowValue(n / 10);
    }
  }

  lemma TrimNoSpace(s: string)
    requires |s| > 0 && !IsSpace(s[0]) && !IsSpace(s[|s| - 1])
    ensures Trim(s) == s
  {
  }

  lemma ShowWellFormed(n: nat)
    ensures WellFormedDigits(Show(n))
  {
  }

  lemma ParseSignedDigits(t: string)
    requires WellFormedDigits(t)
    ensures ParseSigned(t) == Some(DigitsValue(t))
    ensures ParseSigned(['-'] + t) == Some(-(DigitsValue(t) as int))
  {
    assert Magnitude(t) == t;
    assert (['-'] + t)[1..] == t;
    assert Magnitude(['-'] + t) == t;
  }

  /** The stripped texts `str(n)`, `"-" + str(n)` and `"0" + str(n)` read
      back as `n`, `-n` and `n`. */
  lemma ParseSignedShow(n: nat)
    ensures ParseSigned(Show(n)) == Some(n)
    ensures ParseSigned(['-'] + Show(n)) == Some(-(n as int))
    ensures ParseSigned(['0'] + Show(n)) == Some(n)
  {
    var d := Show(n);
    ShowWellFormed(n);
    ShowValue(n);
    assert ParseSigned(d) == Some(n) && ParseSigned(['-'] + d) == Some(-(n as int)) by {
      ParseSignedDigits(d);
    }
    assert ParseSigned(['0'] + d) == Some(n) by {
      assert Zeros(1) + d == ['0'] + d;
      ParseSignedZeros(1, n);
    }
  }

  /** `int(str(n)) == n`: the decimal text of a natural number reads back. */
  lemma ParseShow(n: nat)
    ensures ParseInt(Show(n)) == Some(n)
  {
    var d := Show(n);
    TrimNoSpace(d);
    ParseSignedShow(n);
  }

  /** `int("-" + str(n)) == -n`. */
  lemma ParseNegatedShow(n: nat)
    ensures ParseInt(['-'] + Show(n)) == Some(-(n as int))
  {
    var d := Show(n);
    var s := ['-'] + d;
    assert s[|s| - 1] == d[|d| - 1];
    TrimNoSpace(s);
    ParseSignedShow(n);
  }

  lemma {:induction false} LeadingZeroValue(s: string)
    requires forall i :: 0 <= i < |s| ==> IsDigit(s[i]) || s[i] == '_'
    ensures DigitsValue(['0'] + s) == DigitsValue(s)
  {
    if s != [] {
      var z := ['0'] + s;
      assert z[..|z| - 1] == ['0'] + s[..|s| - 1];
      LeadingZeroValue(s[..|s| - 1]);
    }
  }

  /** `k` zero characters. */
  function Zeros(k: nat): (r: string)
    ensures |r| == k && forall i :: 0 <= i < k ==> r[i] == '0'
  {
    if k == 0 then [] else ['0'] + Zeros(k - 1)
  }

  lemma {:induction false} ZerosValue(k: nat, s: string)
    requires forall i :: 0 <= i < |s| ==> IsDigit(s[i]) || s[i] == '_'
    ensures DigitsValue(Zeros(k) + s) == DigitsValue(s)
  {
    if k > 0 {
      var z := Zeros(k - 1) + s;
      assert Zeros(k) + s == ['0'] + z;
      assert forall i :: 0 <= i < |z| ==> IsDigit(z[i]) || z[i] == '_' by {
        forall i | 0 <= i < |z|
          ensures IsDigit(z[i]) || z[i] == '_'
        {
          if i >= k - 1 {
            assert z[i] == s[i - (k - 1)];
          }
        }
      }
      ZerosValue(k - 1, s);
      LeadingZeroValue(z);
    } else {
      assert Zeros(k) + s == s;
    }
  }

  lemma ParseSignedZeros(k: nat, n: nat)
    ensures ParseSigned(Zeros(k) + Show(n)) == Some(n)
  {
    var d := Show(n);
    var z := Zeros(k) + d;
    assert z[|z| - 1] == d[|d| - 1];
    assert WellFormedDigits(z);
    ParseSignedDigits(z);
    ZerosValue(k, d);
    ShowValue(n);
  }

  /** Zero padding does not change the value: `int("0012") == 12`, so
      frames named `0001.jpg`, `0002.jpg`, ... are keyed 1, 2, .... */
  lemma LeadingZeroIgnored(k: nat, n: nat)
    ensures ParseInt(Zeros(k) + Show(n)) == Some(n)
  {
    var d := Show(n);
    var s := Zeros(k) + d;
    assert s[0] == '0' || s[0] == d[0];
    assert s[|s| - 1] == d[|d| - 1];
    TrimNoSpace(s);
    ParseSignedZeros(k, n);
  }

  /** The digits of `s` with the `_` separators removed. */
  function DropUnderscores(s: string): (r: string)
    requires forall i :: 0 <= i < |s| ==> IsDigit(s[i]) || s[i] == '_'
    ensures forall i :: 0 <= i < |r| ==> IsDigit(r[i])
    ensures DigitsValue(r) == DigitsValue(s)
    ensures s != [] && IsDigit(s[|s| - 1]) ==> r != []
  {
    if s == [] then []
    else
      var p := DropUnderscores(s[..|s| - 1]);
      if s[|s| - 1] == '_' then p
      else
        var r := p + [s[|s| - 1]];
        assert r[..|p|] == p;
        r
  }

  /** `d` without its leading zeros, keeping the last digit. */
  function StripZeros(d: string): (r: string)
    ensures d != [] ==> r != []
  {
    if |d| > 1 && d[0] == '0' then StripZeros(d[1..]) else d
  }

  lemma {:induction false} StripZerosSnoc(p: string, c: char)
    requires p != []
    ensures StripZeros(p + [c]) == if StripZeros(p) == "0" then [c] else StripZeros(p) + [c]
  {
    var q := p + [c];
    if |p| == 1 {
      if p[0] == '0' {
        assert q[1..] == [c];
      }
    } else if p[0] == '0' {
      assert q[1..] == p[1..] + [c];
      StripZerosSnoc(p[1..], c);
    }
  }

  /** A string of digits is `str` of its value once its leading zeros are
      stripped: decimal notation without padding is unique. */
  lemma {:induction false} CanonicalDigits(d: string)
    requires d != [] && forall i :: 0 <= i < |d| ==> IsDigit(d[i])
    ensures StripZeros(d) == Show(DigitsValue(d))
  {
    var c := d[|d| - 1];
    assert DigitChar(DigitValue(c)) == c;
    if |d| > 1 {
      var p := d[..|d| - 1];
      var pv := DigitsValue(p);
      assert d == p + [c];
      CanonicalDigits(p);
      StripZerosSnoc(p, c);
      if pv == 0 {
        assert StripZeros(p) == "0";
      } else {
        ShowValue(pv);
        assert StripZeros(p) != "0";
        var v := DigitsValue(d);
        assert v / 10 == pv && v % 10 == DigitValue(c);
      }
    }
  }

  /** What an accepted text means: its digits, with separators and leading
      zeros removed, are `str` of the magnitude of the value, and the sign
      is negative only when the text starts with `-`. */
  lemma ParseSignedValue(t: string)
    requires ParseSigned(t).Some?
    ensures var v := ParseSigned(t).value;
            && WellFormedDigits(Magnitude(t))
            && StripZeros(DropUnderscores(Magnitude(t))) == Show(if v < 0 then -v else v)
            && (v < 0 ==> t[0] == '-')
            && (t[0] == '-' ==> v <= 0)
  {
    var m := Magnitude(t);
    ParseSignedAccepts(t);
    var u := DropUnderscores(m);
    CanonicalDigits(u);
  }

  /** Every character of `w` is whitespace. */
  predicate AllSpace(w: string) {
    forall i :: 0 <= i < |w| ==> IsSpace(w[i])
  }

  /** Whitespace around the number is ignored, on either side and of any
      length: `int(" 7\n") == int("7 ") == int("\t\t7") == 7`. */
  lemma SurroundingSpaceIgnored(w1: string, s: string, w2: string)
    requires AllSpace(w1) && AllSpace(w2)
    ensures ParseInt(w1 + s + w2) == ParseInt(s)
  {
    TrimSurrounded(w1, s, w2);
  }

  lemma TrimSurrounded(w1: string, s: string, w2: string)
    requires AllSpace(w1) && AllSpace(w2)
    ensures Trim(w1 + s + w2) == Trim(s)
  {
    assert w1 + s + w2 == w1 + (s + w2);
    TrimStartPrefix(w1, s + w2);
    TrimStartSuffix(s, w2);
    var u := TrimStart(s);
    if u != [] {
      TrimEndSuffix(u, w2);
    }
  }

  /** Leading whitespace is skipped entirely. */
  lemma {:induction false} TrimStartPrefix(w: string, s: string)
    requires AllSpace(w)
    ensures TrimStart(w + s) == TrimStart(s)
  {
    if w != [] {
      assert (w + s)[0] == w[0];
      assert (w + s)[1..] == w[1..] + s;
      TrimStartPrefix(w[1..], s);
    } else {
      assert w + s == s;
    }
  }

  /** Trailing whitespace survives `TrimStart` unless everything is space. */
  lemma {:induction false} TrimStartSuffix(s: string, w: string)
    requires AllSpace(w)
    ensures TrimStart(s + w) == (if TrimStart(s) == [] then [] else TrimStart(s) + w)
  {
    if s == [] {
      assert s + w == w + [];
      TrimStartPrefix(w, []);
    } else {
      assert (s + w)[0] == s[0];
      if IsSpace(s[0]) {
        assert (s + w)[1..] == s[1..] + w;
        TrimStartSuffix(s[1..], w);
      }
    }
  }

  /** Trailing whitespace is removed entirely. */
  lemma {:induction false} TrimEndSuffix(u: string, w: string)
    requires AllSpace(w)
    ensures TrimEnd(u + w) == TrimEnd(u)
  {
    if w == [] {
      assert u + w == u;
    } else {
      var p := w[..|w| - 1];
      var d := w[|w| - 1];
      assert AllSpace(p) by {
        forall i | 0 <= i < |p| ensures IsSpace(p[i]) {
          assert p[i] == w[i];
        }
      }
      assert u + w == (u + p) + [d];
      TrimEndSuffix(u, p);
      TrimEndSnoc(u + p, d);
    }
  }

  lemma TrimEndSnoc(u: string, d: char)
    requires IsSpace(d)
    ensures TrimEnd(u + [d]) == TrimEnd(u)
  {
    assert (u + [d])[..|u|] == u;
  }
}
