/** String helpers that stand for the Python built-ins the pipeline relies on:
    `str(int)`, `sep.join(xs)`, `s.split(c)`, `s.strip()`, regex removal of a
    character and the decimal subset of float parsing.
 */
module Text {
  import opened Wrappers

  // ---------------------------------------------------------------------------
  // Decimal rendering of integers (Python's str(n))
  // ---------------------------------------------------------------------------

  predicate IsDigit(c: char) {
    '0' <= c <= '9'
  }

  predicate AllDigits(s: string) {
    forall i :: 0 <= i < |s| ==> IsDigit(s[i])
  }

  function DigitChar(d: nat): (c: char)
    requires d < 10
    ensures IsDigit(c)
    ensures c as int - '0' as int == d
  {
    (('0' as int) + d) as char
  }

  function DigitValue(c: char): (d: nat)
    requires IsDigit(c)
    ensures d < 10
  {
    c as int - '0' as int
  }

  /** Python's `str(n)` for a non-negative integer: no leading zeros, no sign. */
  function NatToString(n: nat): (s: string)
    ensures |s| >= 1
    ensures AllDigits(s)
    decreases n
  {
    if n < 10 then [DigitChar(n)] else NatToString(n / 10) + [DigitChar(n % 10)]
  }

  /** Python's `str(i)` for any integer: a leading '-' for negatives. */
  function IntToString(i: int): (s: string)
    ensures |s| >= 1
    ensures i >= 0 ==> AllDigits(s)
    ensures i < 0 ==> s[0] == '-' && AllDigits(s[1..])
  {
    if i < 0 then "-" + NatToString(-i) else NatToString(i)
  }

  /** The value of a string of decimal digits, most significant digit first. */
  function DigitsValue(s: string): nat
    requires AllDigits(s)
  {
    if |s| == 0 then 0 else DigitsValue(s[..|s| - 1]) * 10 + DigitValue(s[|s| - 1])
  }

  /** Reading back the rendering of n gives n. */
  lemma {:induction false} NatToStringRoundTrip(n: nat)
    ensures DigitsValue(NatToString(n)) == n
    decreases n
  {
    if n >= 10 {
      var s := NatToString(n);
      assert s == NatToString(n / 10) + [DigitChar(n % 10)];
      assert s[..|s| - 1] == NatToString(n / 10);
      NatToStringRoundTrip(n / 10);
    }
  }

  /** Distinct naturals render as distinct strings. */
  lemma NatToStringInjective(a: nat, b: nat)
    ensures NatToString(a) == NatToString(b) ==> a == b
  {
    NatToStringRoundTrip(a);
    NatToStringRoundTrip(b);
  }

  /** Distinct integers render as distinct strings. */
  lemma IntToStringInjective(a: int, b: int)
    ensures IntToString(a) == IntToString(b) ==> a == b
  {
    if IntToString(a) == IntToString(b) {
      assert (a < 0) == (b < 0) by {
        assert IsDigit(IntToString(a)[0]) <==> a >= 0;
        assert IsDigit(IntToString(b)[0]) <==> b >= 0;
      }
      if a < 0 {
        assert NatToString(-a) == IntToString(a)[1..];
        assert NatToString(-b) == IntToString(b)[1..];
        NatToStringInjective(-a, -b);
      } else {
        NatToStringInjective(a, b);
      }
    }
  }

  /** A rendered integer never contains the given non-digit, non-minus character. */
  lemma IntToStringAvoids(i: int, c: char)
    requires !IsDigit(c) && c != '-'
    ensures c !in IntToString(i)
  {
    var s := IntToString(i);
    forall k | 0 <= k < |s|
      ensures s[k] != c
    {
      if i < 0 && k > 0 {
        assert s[k] == s[1..][k - 1];
      }
    }
  }

  // ---------------------------------------------------------------------------
  // Python's sep.join(xs) and s.split(c)
  // ---------------------------------------------------------------------------

  /** Python's `sep.join(xs)`. */
  function Join(xs: seq<string>, sep: string): string
  {
    if |xs| == 0 then "" else if |xs| == 1 then xs[0] else xs[0] + sep + Join(xs[1..], sep)
  }

  /** Python's `s.split(c)` for a one-character separator: always at least one part,
      no part holds the separator, and joining the parts back gives s. */
  function Split(s: string, c: char): (parts: seq<string>)
    ensures |parts| >= 1
    ensures forall k :: 0 <= k < |parts| ==> c !in parts[k]
    ensures Join(parts, [c]) == s
    decreases |s|
  {
    if |s| == 0 then [""]
    else
      var rest := Split(s[1..], c);
      if s[0] == c then
        assert Join([""] + rest, [c]) == [c] + Join(rest, [c]) by {
          assert ([""] + rest)[1..] == rest;
        }
        assert s == [c] + s[1..];
        [""] + rest
      else
        var parts := [[s[0]] + rest[0]] + rest[1..];
        assert Join(parts, [c]) == [s[0]] + Join(rest, [c]) by {
          if |rest| > 1 {
            assert parts[1..] == rest[1..];
          }
        }
        assert s == [s[0]] + s[1..];
        parts
  }

  /** Splitting `a + t` where a holds no separator glues a onto the first part of t. */
  lemma {:induction false} SplitPrefix(a: string, t: string, c: char)
    requires c !in a
    ensures Split(a + t, c) == [a + Split(t, c)[0]] + Split(t, c)[1..]
    decreases |a|
  {
    if |a| > 0 {
      assert (a + t)[1..] == a[1..] + t;
      SplitPrefix(a[1..], t, c);
      var rest := Split(a[1..] + t, c);
      assert rest == [a[1..] + Split(t, c)[0]] + Split(t, c)[1..];
      assert Split(a + t, c) == [[a[0]] + rest[0]] + rest[1..];
      assert rest[0] == a[1..] + Split(t, c)[0];
      assert [a[0]] + rest[0] == a + Split(t, c)[0];
      assert rest[1..] == Split(t, c)[1..];
    } else {
      assert a + t == t;
      assert a + Split(t, c)[0] == Split(t, c)[0];
      assert [Split(t, c)[0]] + Split(t, c)[1..] == Split(t, c);
    }
  }

  /** Joining parts that hold no separator and splitting again gives the parts back. */
  lemma {:induction false} SplitJoin(xs: seq<string>, c: char)
    requires |xs| >= 1
    requires forall k :: 0 <= k < |xs| ==> c !in xs[k]
    ensures Split(Join(xs, [c]), c) == xs
    decreases |xs|
  {
    if |xs| == 1 {
      SplitPrefix(xs[0], "", c);
      assert xs[0] + "" == xs[0];
    } else {
      var tail := Join(xs[1..], [c]);
      SplitJoin(xs[1..], c);
      assert Join(xs, [c]) == xs[0] + ([c] + tail);
      SplitPrefix(xs[0], [c] + tail, c);
      assert ([c] + tail)[1..] == tail;
      assert Split([c] + tail, c) == [""] + xs[1..];
      assert xs[0] + "" == xs[0];
      assert [xs[0]] + xs[1..] == xs;
    }
  }

  /** The items of a `", "`-join seen as a `","`-join: every item after the
      first carries the space that followed its comma. */
  function Padded(xs: seq<string>): (ps: seq<string>)
    ensures |ps| == |xs|
  {
    seq(|xs|, k requires 0 <= k < |xs| => if k == 0 then xs[0] else " " + xs[k])
  }

  /** Prefixing the first item prefixes the join. */
  lemma JoinFirst(a: string, ys: seq<string>, sep: string)
    requires |ys| >= 1
    ensures Join([a + ys[0]] + ys[1..], sep) == a + Join(ys, sep)
  {
    var zs := [a + ys[0]] + ys[1..];
    assert zs[1..] == ys[1..];
  }

  /** `", ".join(xs)` is `",".join` of the padded items. */
  lemma {:induction false} JoinCommaSpace(xs: seq<string>)
    ensures Join(xs, ", ") == Join(Padded(xs), ",")
    decreases |xs|
  {
    if |xs| >= 2 {
      var ps := Padded(xs);
      var qs := Padded(xs[1..]);
      JoinCommaSpace(xs[1..]);
      assert ps[1..] == [" " + qs[0]] + qs[1..];
      JoinFirst(" ", qs, ",");
      assert Join(ps, ",") == xs[0] + "," + (" " + Join(qs, ","));
    } else if |xs| == 1 {
      assert Padded(xs) == xs;
    }
  }

  /** Splitting a `", "`-join on ',' and stripping each part recovers the items,
      when no item holds a comma or outer whitespace. */
  lemma SplitCommaSpace(xs: seq<string>)
    requires |xs| >= 1
    requires forall k :: 0 <= k < |xs| ==> ',' !in xs[k] && NoOuterSpace(xs[k])
    ensures var parts := Split(Join(xs, ", "), ',');
            |parts| == |xs| && forall k :: 0 <= k < |xs| ==> Strip(parts[k]) == xs[k]
  {
    var ps := Padded(xs);
    JoinCommaSpace(xs);
    forall k | 0 <= k < |ps|
      ensures ',' !in ps[k]
    {
      if k > 0 {
        assert ps[k] == " " + xs[k];
      }
    }
    SplitJoin(ps, ',');
    forall k | 0 <= k < |xs|
      ensures Strip(ps[k]) == xs[k]
    {
      if k == 0 {
        StripExact("", xs[0], "");
        assert "" + xs[0] + "" == xs[0];
      } else {
        assert IsSpace(' ');
        StripExact(" ", xs[k], "");
        assert " " + xs[k] + "" == ps[k];
      }
    }
  }

  // ---------------------------------------------------------------------------
  // Python's s.strip()
  // ---------------------------------------------------------------------------

  /** The ASCII characters Python's str.isspace() accepts. */
  predicate IsSpace(c: char) {
    c == ' ' || c == '\t' || c == '\n' || c == '\r' || c == '\U{000B}' || c == '\U{000C}'
    || ('\U{001C}' <= c <= '\U{001F}')
  }

  predicate AllSpace(s: string) {
    forall i :: 0 <= i < |s| ==> IsSpace(s[i])
  }

  /** Neither the first nor the last character is whitespace. */
  predicate NoOuterSpace(s: string) {
    |s| == 0 || (!IsSpace(s[0]) && !IsSpace(s[|s| - 1]))
  }

  /** Length of the longest all-whitespace prefix. */
  function LeadingSpaces(s: string): (k: nat)
    ensures k <= |s|
    ensures forall i :: 0 <= i < k ==> IsSpace(s[i])
    ensures k < |s| ==> !IsSpace(s[k])
  {
    if |s| == 0 || !IsSpace(s[0]) then 0
    else
      var k := 1 + LeadingSpaces(s[1..]);
      assert forall i :: 1 <= i < k ==> s[i] == s[1..][i - 1];
      k
  }

  /** Start of the longest all-whitespace suffix. */
  function TrailingStart(s: string): (j: nat)
    ensures j <= |s|
    ensures forall i :: j <= i < |s| ==> IsSpace(s[i])
    ensures 0 < j ==> !IsSpace(s[j - 1])
    decreases |s|
  {
    if |s| == 0 || !IsSpace(s[|s| - 1]) then |s|
    else
      var j := TrailingStart(s[..|s| - 1]);
      assert forall i :: j <= i < |s| - 1 ==> s[i] == s[..|s| - 1][i];
      j
  }

  /** Python's `s.strip()`: removes leading and trailing whitespace. */
  function Strip(s: string): (r: string)
    ensures NoOuterSpace(r)
    ensures |r| <= |s|
  {
    var t := s[LeadingSpaces(s)..];
    var j := TrailingStart(t);
    if j == 0 then "" else t[..j]
  }

  /** Strip removes exactly the outer whitespace: a string made of a whitespace run,
      a core with no outer whitespace and another whitespace run strips to the core. */
  lemma StripExact(a: string, m: string, b: string)
    requires AllSpace(a) && AllSpace(b) && NoOuterSpace(m)
    ensures Strip(a + m + b) == m
  {
    var s := a + m + b;
    assert forall i :: 0 <= i < |a| ==> s[i] == a[i];
    assert forall i :: |a| + |m| <= i < |s| ==> s[i] == b[i - |a| - |m|];
    var k := LeadingSpaces(s);
    if |m| == 0 {
      assert k == |s|;
      assert TrailingStart(s[k..]) == 0;
    } else {
      assert !IsSpace(s[|a|]);
      assert k == |a|;
      var t := s[k..];
      assert t == m + b;
      var j := TrailingStart(t);
      assert forall i :: |m| <= i < |t| ==> t[i] == b[i - |m|];
      assert !IsSpace(t[|m| - 1]);
      assert j == |m|;
      assert t[..j] == m;
    }
  }

  // ---------------------------------------------------------------------------
  // Character removal (regex replace of one literal character by '')
  // ---------------------------------------------------------------------------

  /** `re.sub(c, '', s)` for a single literal character c. */
  function RemoveChar(s: string, c: char): (r: string)
    ensures c !in r
    ensures forall x :: x in r <==> x in s && x != c
    ensures c !in s ==> r == s
  {
    if |s| == 0 then ""
    else if s[0] == c then RemoveChar(s[1..], c)
    else [s[0]] + RemoveChar(s[1..], c)
  }

  /** Removal drops exactly the occurrences of c and keeps the count of every
      other character. */
  lemma {:induction false} RemoveCharCount(s: string, c: char)
    ensures |RemoveChar(s, c)| + multiset(s)[c] == |s|
    ensures forall x :: x != c ==> multiset(RemoveChar(s, c))[x] == multiset(s)[x]
  {
    if |s| > 0 {
      RemoveCharCount(s[1..], c);
      assert s == [s[0]] + s[1..];
      assert multiset(s) == multiset([s[0]]) + multiset(s[1..]);
    }
  }

  /** Removal works piecewise and keeps order: the kept characters of a + b are
      those of a followed by those of b. */
  lemma {:induction false} RemoveCharConcat(a: string, b: string, c: char)
    ensures RemoveChar(a + b, c) == RemoveChar(a, c) + RemoveChar(b, c)
  {
    if |a| > 0 {
      assert (a + b)[0] == a[0];
      assert (a + b)[1..] == a[1..] + b;
      RemoveCharConcat(a[1..], b, c);
      if a[0] != c {
        assert [a[0]] + (RemoveChar(a[1..], c) + RemoveChar(b, c))
               == ([a[0]] + RemoveChar(a[1..], c)) + RemoveChar(b, c);
      }
    } else {
      assert a + b == b;
    }
  }

  /** One character is dropped iff it is c. */
  lemma RemoveCharSingle(x: char, c: char)
    ensures RemoveChar([x], c) == if x == c then "" else [x]
  {
    assert [x][1..] == "";
  }

  // ---------------------------------------------------------------------------
  // Decimal parsing (the part of float() / pandas.to_numeric the data uses)
  // ---------------------------------------------------------------------------

  function Pow10(n: nat): (p: nat)
    ensures p >= 1
  {
    if n == 0 then 1 else 10 * Pow10(n - 1)
  }

  /** Index of the first '.' in s, or |s| when there is none. */
  function DotIndex(s: string): (k: nat)
    ensures k <= |s|
    ensures forall i :: 0 <= i < k ==> s[i] != '.'
    ensures k < |s| ==> s[k] == '.'
  {
    if |s| == 0 || s[0] == '.' then 0 else 1 + DotIndex(s[1..])
  }

  /** The value of the fixed-point text `w.f`. */
  function FixedValue(w: string, f: string): real
    requires AllDigits(w) && AllDigits(f)
  {
    DigitsValue(w) as real + DigitsValue(f) as real / Pow10(|f|) as real
  }

  /** Parses `digits [ '.' digits ]` with at least one digit in all. */
  function ParseUnsigned(s: string): (r: Option<real>)
    ensures r.Some? ==> r.value >= 0.0
    ensures r.Some? ==> |s| > 0 && forall i :: 0 <= i < |s| ==> IsDigit(s[i]) || s[i] == '.'
  {
    var k := DotIndex(s);
    var whole := s[..k];
    var frac := if k < |s| then s[k + 1..] else "";
    if AllDigits(whole) && AllDigits(frac) && |whole| + |frac| > 0 then
      assert forall i :: 0 <= i < k ==> s[i] == whole[i];
      assert forall i :: k < i < |s| ==> s[i] == frac[i - k - 1];
      Some(FixedValue(whole, frac))
    else None
  }

  /** Parses an optionally signed decimal number; anything else is None
      (the NaN that `errors='coerce'` produces). */
  function ParseDecimal(s: string): (r: Option<real>)
    ensures r.Some? ==> |s| > 0
    ensures r.Some? ==> forall i :: 0 <= i < |s| ==> IsDigit(s[i]) || s[i] == '.' || s[i] == '+' || s[i] == '-'
    ensures r.Some? && s[0] != '-' ==> r.value >= 0.0
  {
    if |s| > 0 && (s[0] == '-' || s[0] == '+') then
      var t := s[1..];
      assert forall i :: 1 <= i < |s| ==> s[i] == t[i - 1];
      match ParseUnsigned(t)
      case None => None
      case Some(v) => Some(if s[0] == '-' then -v else v)
    else ParseUnsigned(s)
  }

  /** The unsigned texts `to_numeric` reads here: `digits`, or `digits . digits`
      with either side possibly empty, and at least one digit in all. */
  predicate UnsignedText(s: string) {
    || (|s| >= 1 && AllDigits(s))
    || exists i :: 0 <= i < |s| && s[i] == '.' && AllDigits(s[..i]) && AllDigits(s[i + 1..]) && |s| >= 2
  }

  /** An unsigned text, optionally preceded by one `+` or `-`. */
  predicate DecimalText(s: string) {
    || UnsignedText(s)
    || (|s| >= 1 && (s[0] == '+' || s[0] == '-') && UnsignedText(s[1..]))
  }

  /** Whatever the unsigned parser accepts is an unsigned text. */
  lemma UnsignedSound(s: string)
    requires ParseUnsigned(s).Some?
    ensures UnsignedText(s)
  {
    var k := DotIndex(s);
    if k == |s| {
      assert s[..k] == s;
    } else {
      assert s[k] == '.' && AllDigits(s[..k]) && AllDigits(s[k + 1..]);
    }
  }

  /** Every unsigned text is accepted by the unsigned parser. */
  lemma UnsignedComplete(s: string)
    requires UnsignedText(s)
    ensures ParseUnsigned(s).Some?
  {
    var k := DotIndex(s);
    if |s| >= 1 && AllDigits(s) {
      assert forall j :: 0 <= j < |s| ==> s[j] != '.';
      assert k == |s|;
      assert s[..k] == s;
    } else {
      var i :| 0 <= i < |s| && s[i] == '.' && AllDigits(s[..i]) && AllDigits(s[i + 1..]) && |s| >= 2;
      DigitsBeforePoint(s, i);
    }
  }

  /** When only digits precede a point, that point is the first one. */
  lemma DigitsBeforePoint(s: string, i: nat)
    requires i < |s| && s[i] == '.' && AllDigits(s[..i])
    ensures DotIndex(s) == i
  {
    assert forall j :: 0 <= j < i ==> s[j] == s[..i][j] && s[j] != '.';
  }

  /** The unsigned parser accepts exactly the unsigned texts. */
  lemma UnsignedGrammar(s: string)
    ensures ParseUnsigned(s).Some? <==> UnsignedText(s)
  {
    if ParseUnsigned(s).Some? {
      UnsignedSound(s);
    }
    if UnsignedText(s) {
      UnsignedComplete(s);
    }
  }

  /** The decimal parser accepts exactly the optionally signed unsigned texts,
      so any other text (two points, a sign inside, a stray character)
      becomes None. */
  lemma DecimalGrammar(s: string)
    ensures ParseDecimal(s).Some? <==> DecimalText(s)
  {
    if |s| >= 1 && (s[0] == '+' || s[0] == '-') {
      UnsignedGrammar(s[1..]);
      assert !UnsignedText(s) by {
        assert !IsDigit(s[0]) && s[0] != '.';
        assert forall i :: 0 < i < |s| ==> s[..i][0] == s[0];
      }
    } else {
      UnsignedGrammar(s);
    }
  }

  /** A text with two points is not an unsigned text. */
  lemma TwoPointsNotUnsigned(s: string, i: nat, j: nat)
    requires i < j < |s| && s[i] == '.' && s[j] == '.'
    ensures !UnsignedText(s)
  {
    assert !IsDigit(s[i]);
    forall m | 0 <= m < |s| && s[m] == '.'
      ensures !(AllDigits(s[..m]) && AllDigits(s[m + 1..]))
    {
      if m < j {
        assert s[m + 1..][j - m - 1] == s[j];
      } else {
        assert s[..m][i] == s[i];
      }
    }
  }

  /** A text with two decimal points does not parse. */
  lemma TwoPointsRejected(s: string, i: nat, j: nat)
    requires i < j < |s| && s[i] == '.' && s[j] == '.'
    ensures ParseDecimal(s).None?
  {
    DecimalGrammar(s);
    TwoPointsNotUnsigned(s, i, j);
    if s[0] == '+' || s[0] == '-' {
      TwoPointsNotUnsigned(s[1..], i - 1, j - 1);
    }
  }

  /** An unsigned fixed-point text `w.f` splits at its point. */
  lemma UnsignedFixedPoint(w: string, f: string)
    requires |w| > 0 && AllDigits(w) && AllDigits(f)
    ensures ParseUnsigned(w + "." + f) == Some(FixedValue(w, f))
  {
    var s := w + "." + f;
    assert forall i :: 0 <= i < |w| ==> s[i] == w[i] && IsDigit(w[i]) && s[i] != '.';
    var k := DotIndex(s);
    assert s[|w|] == '.';
    assert k <= |w|;
    assert k == |w|;
    assert s[..|w|] == w;
    assert s[|w| + 1..] == f;
  }

  /** A fixed-point text `w.f`, optionally signed, parses to its value: the
      digits before the point plus the digits after it scaled by 10^-|f|. */
  lemma ParseFixedPoint(w: string, f: string)
    requires |w| > 0 && AllDigits(w) && AllDigits(f)
    ensures ParseDecimal(w + "." + f) == Some(FixedValue(w, f))
    ensures ParseDecimal("+" + w + "." + f) == Some(FixedValue(w, f))
    ensures ParseDecimal("-" + w + "." + f) == Some(-FixedValue(w, f))
  {
    var s := w + "." + f;
    UnsignedFixedPoint(w, f);
    assert s[0] == w[0];
    assert ("+" + s)[1..] == s;
    assert ("-" + s)[1..] == s;
    assert "+" + w + "." + f == "+" + s;
    assert "-" + w + "." + f == "-" + s;
  }

  /** Rendering a natural and parsing it back gives the same number. */
  lemma ParseNatString(n: nat)
    ensures ParseDecimal(NatToString(n)) == Some(n as real)
  {
    var s := NatToString(n);
    assert forall i :: 0 <= i < |s| ==> s[i] != '.';
    assert DotIndex(s) == |s|;
    assert s[..|s|] == s;
    NatToStringRoundTrip(n);
  }
}
