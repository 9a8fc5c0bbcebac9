/**
 * String helpers of backend/app.py: `truthy`, `_digits_to_int`, and the
 * `strip()`/`upper()`/`lower()` normalisations the request handlers apply.
 */
module Text {
  import opened Wrappers

  /** The characters Python's `str.strip()` removes (those for which `str.isspace()` holds). */
  predicate IsSpace(c: char) {
    c == ' ' || c == '\t' || c == '\n' || c == '\r' || c == '\U{0B}' || c == '\U{0C}'
    || ('\U{1C}' <= c <= '\U{1F}') || c == '\U{85}' || c == '\U{A0}' || c == '\U{1680}'
    || ('\U{2000}' <= c <= '\U{200A}') || c == '\U{2028}' || c == '\U{2029}'
    || c == '\U{202F}' || c == '\U{205F}' || c == '\U{3000}'
  }

  predicate AllSpace(s: string) {
    forall i :: 0 <= i < |s| ==> IsSpace(s[i])
  }

  /** No whitespace at either end: the shape of every `strip()` result. */
  predicate Trimmed(t: string) {
    t == [] || (!IsSpace(t[0]) && !IsSpace(t[|t| - 1]))
  }

  /** Python's `s.lstrip()`. */
  function StripLeft(s: string): (r: string)
    ensures |r| <= |s|
  {
    if s != [] && IsSpace(s[0]) then StripLeft(s[1..]) else s
  }

  /** Python's `s.rstrip()`. */
  function StripRight(s: string): (r: string)
    ensures |r| <= |s|
  {
    if s != [] && IsSpace(s[|s| - 1]) then StripRight(s[..|s| - 1]) else s
  }

  /** `lstrip()` drops a whitespace prefix and stops at the first other character. */
  lemma {:induction false} StripLeftShape(s: string)
    ensures StripLeft(s) == s[|s| - |StripLeft(s)|..]
    ensures AllSpace(s[..|s| - |StripLeft(s)|])
    ensures StripLeft(s) == [] || !IsSpace(StripLeft(s)[0])
  {
    if s != [] && IsSpace(s[0]) {
      var t := s[1..];
      StripLeftShape(t);
      var k := |t| - |StripLeft(t)|;
      assert t[k..] == s[k + 1..];
    }
  }

  /** `rstrip()` drops a whitespace suffix and stops at the last other character. */
  lemma {:induction false} StripRightShape(s: string)
    ensures StripRight(s) == s[..|StripRight(s)|]
    ensures AllSpace(s[|StripRight(s)|..])
    ensures StripRight(s) == [] || !IsSpace(StripRight(s)[|StripRight(s)| - 1])
  {
    if s != [] && IsSpace(s[|s| - 1]) {
      var t := s[..|s| - 1];
      StripRightShape(t);
      var k := |StripRight(t)|;
      assert t[..k] == s[..k];
    }
  }

  /** Python's `s.strip()`. */
  function Strip(s: string): string {
    StripRight(StripLeft(s))
  }

  /** Length of the whitespace prefix that `strip()` removes. */
  function LeadLength(s: string): nat {
    |s| - |StripLeft(s)|
  }

  /** `strip()` removes a whitespace prefix and a whitespace suffix and leaves a trimmed core. */
  lemma StripShape(s: string)
    ensures LeadLength(s) + |Strip(s)| <= |s|
    ensures Strip(s) == s[LeadLength(s)..LeadLength(s) + |Strip(s)|]
    ensures AllSpace(s[..LeadLength(s)]) && AllSpace(s[LeadLength(s) + |Strip(s)|..])
    ensures Trimmed(Strip(s))
  {
    StripCore(s);
    StripLeftShape(s);
    StripTrailSpace(s);
    StripIsTrimmed(s);
  }

  lemma StripIsTrimmed(s: string)
    ensures Trimmed(Strip(s))
  {
    StripLeftShape(s);
    StripTrimmedShape(StripLeft(s));
  }

  /** The core `strip()` keeps is the slice after the whitespace prefix. */
  lemma StripCore(s: string)
    ensures LeadLength(s) + |Strip(s)| <= |s|
    ensures Strip(s) == s[LeadLength(s)..LeadLength(s) + |Strip(s)|]
  {
    var l := StripLeft(s);
    var r := StripRight(l);
    var i := |s| - |l|;
    StripLeftShape(s);
    StripRightShape(l);
    SliceOfSlice(s, i, |r|);
  }

  lemma SliceOfSlice(s: string, i: nat, n: nat)
    requires i + n <= |s|
    ensures s[i..][..n] == s[i..i + n]
  {
  }

  /** What `strip()` drops after the core is whitespace. */
  lemma StripTrailSpace(s: string)
    ensures LeadLength(s) + |Strip(s)| <= |s|
    ensures AllSpace(s[LeadLength(s) + |Strip(s)|..])
  {
    var l := StripLeft(s);
    var r := StripRight(l);
    var j := |s| - |l| + |r|;
    StripLeftShape(s);
    StripRightShape(l);
    assert s[j..] == l[|r|..];
  }

  /** Right-stripping a string that starts with no whitespace leaves a trimmed string. */
  lemma StripTrimmedShape(l: string)
    requires l == [] || !IsSpace(l[0])
    ensures Trimmed(StripRight(l))
  {
    var r := StripRight(l);
    StripRightShape(l);
    if r != [] {
      assert r[0] == l[0];
    }
  }

  lemma {:induction false} StripLeftPadded(lead: string, t: string)
    requires AllSpace(lead)
    requires t == [] || !IsSpace(t[0])
    ensures StripLeft(lead + t) == t
  {
    if lead != [] {
      assert (lead + t)[1..] == lead[1..] + t;
      StripLeftPadded(lead[1..], t);
    } else {
      assert lead + t == t;
    }
  }

  lemma {:induction false} StripRightPadded(t: string, trail: string)
    requires AllSpace(trail)
    requires t == [] || !IsSpace(t[|t| - 1])
    ensures StripRight(t + trail) == t
  {
    if trail != [] {
      assert (t + trail)[..|t + trail| - 1] == t + trail[..|trail| - 1];
      StripRightPadded(t, trail[..|trail| - 1]);
    } else {
      assert t + trail == t;
    }
  }

  /**
   * The other direction of StripShape: whatever whitespace surrounds a
   * trimmed string, `strip()` gives back exactly that string.
   */
  lemma StripOfPadded(lead: string, t: string, trail: string)
    requires AllSpace(lead) && AllSpace(trail) && Trimmed(t)
    ensures Strip(lead + t + trail) == t
  {
    if t == [] {
      assert lead + t + trail == lead + trail;
      assert AllSpace(lead + trail);
      AllSpaceStripsToEmpty(lead + trail);
    } else {
      assert lead + t + trail == lead + (t + trail);
      StripLeftPadded(lead, t + trail);
      StripRightPadded(t, trail);
    }
  }

  /** A trimmed string is its own `strip()`. */
  lemma StripTrimmed(t: string)
    requires Trimmed(t)
    ensures Strip(t) == t
  {
    StripOfPadded("", t, "");
    assert "" + t + "" == t;
  }

  lemma {:induction false} AllSpaceStripsToEmpty(s: string)
    requires AllSpace(s)
    ensures StripLeft(s) == []
  {
    if s != [] {
      AllSpaceStripsToEmpty(s[1..]);
    }
  }

  /** ASCII case mapping; other characters are left as they are. */
  function UpperChar(c: char): char {
    if 'a' <= c <= 'z' then (c as int - 32) as char else c
  }

  function LowerChar(c: char): char {
    if 'A' <= c <= 'Z' then (c as int + 32) as char else c
  }

  /** Python's `s.upper()`, restricted to ASCII letters. */
  function Upper(s: string): (r: string)
    ensures |r| == |s|
    ensures forall i :: 0 <= i < |s| ==> r[i] == UpperChar(s[i])
  {
    seq(|s|, i requires 0 <= i < |s| => UpperChar(s[i]))
  }

  /** Python's `s.lower()`, restricted to ASCII letters. */
  function Lower(s: string): (r: string)
    ensures |r| == |s|
    ensures forall i :: 0 <= i < |s| ==> r[i] == LowerChar(s[i])
  {
    seq(|s|, i requires 0 <= i < |s| => LowerChar(s[i]))
  }

  /** The strings `truthy` accepts after trimming and lower-casing (backend/app.py:90). */
  const TruthyWords: set<string> := {"1", "true", "yes", "y", "on"}

  /** `truthy(x)` on the string form `str(x)`. */
  function Truthy(x: string): bool {
    Lower(Strip(x)) in TruthyWords
  }

  /** No ASCII letter is whitespace, so case mapping leaves whitespace alone. */
  lemma UpperCharSpace(c: char)
    ensures IsSpace(UpperChar(c)) == IsSpace(c)
  {
    if 'a' <= c <= 'z' {
      assert 'A' <= UpperChar(c) <= 'Z';
    }
  }

  lemma {:induction false} StripLeftUpper(s: string)
    ensures StripLeft(Upper(s)) == Upper(StripLeft(s))
  {
    if s != [] {
      UpperCharSpace(s[0]);
      UpperTail(s);
      StripLeftUpper(s[1..]);
    }
  }

  lemma {:induction false} StripRightUpper(s: string)
    ensures StripRight(Upper(s)) == Upper(StripRight(s))
  {
    if s != [] {
      UpperCharSpace(s[|s| - 1]);
      UpperInit(s);
      StripRightUpper(s[..|s| - 1]);
    }
  }

  lemma UpperTail(s: string)
    requires s != []
    ensures Upper(s)[0] == UpperChar(s[0]) && Upper(s)[1..] == Upper(s[1..])
  {
  }

  lemma UpperInit(s: string)
    requires s != []
    ensures Upper(s)[|s| - 1] == UpperChar(s[|s| - 1]) && Upper(s)[..|s| - 1] == Upper(s[..|s| - 1])
  {
    assert Upper(s)[..|s| - 1] == Upper(s[..|s| - 1]);
  }

  /** Upper-casing and stripping commute, since no whitespace character is a letter. */
  lemma StripUpperCommute(s: string)
    ensures Strip(Upper(s)) == Upper(Strip(s))
  {
    StripLeftUpper(s);
    StripRightUpper(StripLeft(s));
  }

  lemma LowerOfUpper(s: string)
    ensures Lower(Upper(s)) == Lower(s)
  {
    assert forall i :: 0 <= i < |s| ==> LowerChar(UpperChar(s[i])) == LowerChar(s[i]);
  }

  /** `truthy` ignores whitespace around the value: " yes\n" reads as "yes". */
  lemma TruthyIgnoresPadding(lead: string, x: string, trail: string)
    requires AllSpace(lead) && AllSpace(trail) && Trimmed(x)
    ensures Truthy(lead + x + trail) == (Lower(x) in TruthyWords)
  {
    StripOfPadded(lead, x, trail);
  }

  /** `truthy` ignores the case of ASCII letters: "TRUE", "True" and "true" read alike. */
  lemma TruthyIgnoresCase(x: string)
    ensures Truthy(Upper(x)) == Truthy(x)
  {
    StripUpperCommute(x);
    LowerOfUpper(Strip(x));
  }

  /** The five words, padded with whitespace and in upper or lower case, are truthy. */
  lemma TruthyWordsAccepted(lead: string, w: string, trail: string)
    requires AllSpace(lead) && AllSpace(trail) && w in TruthyWords
    ensures Truthy(lead + w + trail) && Truthy(Upper(lead + w + trail))
  {
    TruthyWordShape(w);
    TruthyIgnoresPadding(lead, w, trail);
    TruthyIgnoresCase(lead + w + trail);
  }

  /** Each of the five words is trimmed and already lower-case. */
  lemma TruthyWordShape(w: string)
    requires w in TruthyWords
    ensures Trimmed(w) && Lower(w) == w
  {
    TruthyWordsListed(w);
    ListedWordIsLower(w);
    ListedWordIsTrimmed(w);
  }

  lemma TruthyWordsListed(w: string)
    requires w in TruthyWords
    ensures w == "1" || w == "true" || w == "yes" || w == "y" || w == "on"
  {
  }

  lemma ListedWordIsLower(w: string)
    requires w == "1" || w == "true" || w == "yes" || w == "y" || w == "on"
    ensures Lower(w) == w
  {
    if w == "1" {
      LowerOfNoUpper("1");
    } else if w == "true" {
      LowerOfNoUpper("true");
    } else if w == "yes" {
      LowerOfNoUpper("yes");
    } else if w == "y" {
      LowerOfNoUpper("y");
    } else {
      LowerOfNoUpper("on");
    }
  }

  lemma ListedWordIsTrimmed(w: string)
    requires w == "1" || w == "true" || w == "yes" || w == "y" || w == "on"
    ensures Trimmed(w)
  {
  }

  lemma LowerOfNoUpper(w: string)
    requires forall i :: 0 <= i < |w| ==> !('A' <= w[i] <= 'Z')
    ensures Lower(w) == w
  {
    assert forall i :: 0 <= i < |w| ==> Lower(w)[i] == w[i];
  }

  lemma BlankIsNotTruthy(s: string)
    requires AllSpace(s)
    ensures !Truthy(s)
  {
    AllSpaceStripsToEmpty(s);
    StripOfPadded(s, [], []);
    assert s + [] + [] == s;
  }

  /** Any trimmed word outside the five, such as "0", "no" or "false", is rejected. */
  lemma OtherWordIsNotTruthy(w: string)
    requires Trimmed(w) && Lower(w) !in TruthyWords
    ensures !Truthy(w)
  {
    StripTrimmed(w);
  }

  // ---------------------------------------------------------------------
  // _digits_to_int

  predicate IsDigit(c: char) {
    '0' <= c <= '9'
  }

  predicate AllDigits(d: string) {
    forall i :: 0 <= i < |d| ==> IsDigit(d[i])
  }

  /** The digit characters of `s`, in order (`"".join(ch for ch in s if ch.isdigit())`). */
  function Digits(s: string): string {
    if s == [] then []
    else (if IsDigit(s[0]) then [s[0]] else []) + Digits(s[1..])
  }

  /** Only digits are kept, and never more characters than there were. */
  lemma {:induction false} DigitsAreDigits(s: string)
    ensures AllDigits(Digits(s)) && |Digits(s)| <= |s|
  {
    if s != [] {
      DigitsAreDigits(s[1..]);
      var d := Digits(s);
      var rest := Digits(s[1..]);
      if IsDigit(s[0]) {
        assert d == [s[0]] + rest;
        assert forall i :: 0 < i < |d| ==> d[i] == rest[i - 1];
      } else {
        assert d == rest;
      }
    }
  }

  /** Python's `int(d)` for a non-empty run of decimal digits. */
  function DecimalValue(d: string): nat
    requires AllDigits(d)
  {
    if d == [] then 0 else DecimalValue(d[..|d| - 1]) * 10 + (d[|d| - 1] as int - '0' as int)
  }

  /** `_digits_to_int(v)`; v is None or the text `str(v)`. */
  function DigitsToInt(v: Option<string>): Option<nat> {
    match v
    case None => None
    case Some(s) =>
      var d := Digits(Strip(s));
      DigitsAreDigits(Strip(s));
      if d == [] then None else Some(DecimalValue(d))
  }

  function Pow10(n: nat): nat {
    if n == 0 then 1 else 10 * Pow10(n - 1)
  }

  /** The decimal rendering of n without leading zeros (Python's `str(n)`). */
  function NatToString(n: nat): (s: string)
    ensures s != [] && AllDigits(s)
  {
    (if n < 10 then [] else NatToString(n / 10)) + [('0' as int + n % 10) as char]
  }

  lemma {:induction false} DigitsAppend(a: string, b: string)
    ensures Digits(a + b) == Digits(a) + Digits(b)
  {
    if a == [] {
      assert a + b == b;
    } else {
      var ab := a + b;
      assert ab[0] == a[0] && ab[1..] == a[1..] + b;
      DigitsAppend(a[1..], b);
      var h := if IsDigit(a[0]) then [a[0]] else [];
      assert Digits(ab) == h + Digits(a[1..] + b);
      assert h + (Digits(a[1..]) + Digits(b)) == (h + Digits(a[1..])) + Digits(b);
    }
  }

  lemma {:induction false} DigitsOfDigits(d: string)
    requires AllDigits(d)
    ensures Digits(d) == d
  {
    if d != [] {
      DigitsOfDigits(d[1..]);
    }
  }

  lemma {:induction false} DigitsOfSpace(s: string)
    requires AllSpace(s)
    ensures Digits(s) == []
  {
    if s != [] {
      DigitsOfSpace(s[1..]);
    }
  }

  lemma {:induction false} NoDigitsIff(s: string)
    ensures Digits(s) == [] <==> forall i :: 0 <= i < |s| ==> !IsDigit(s[i])
  {
    if s != [] {
      NoDigitsIff(s[1..]);
      assert forall i :: 1 <= i < |s| ==> s[i] == s[1..][i - 1];
    }
  }

  /** Stripping never removes a digit, so `_digits_to_int` sees every digit of `str(v)`. */
  lemma DigitsIgnoreStrip(s: string)
    ensures Digits(Strip(s)) == Digits(s)
  {
    DigitsStripLeft(s);
    DigitsStripRight(StripLeft(s));
  }

  lemma {:induction false} DigitsStripLeft(s: string)
    ensures Digits(StripLeft(s)) == Digits(s)
  {
    if s != [] && IsSpace(s[0]) {
      DigitsStripLeft(s[1..]);
      assert [] + Digits(s[1..]) == Digits(s[1..]);
    }
  }

  lemma {:induction false} DigitsStripRight(s: string)
    ensures Digits(StripRight(s)) == Digits(s)
  {
    if s != [] && IsSpace(s[|s| - 1]) {
      var init := s[..|s| - 1];
      DigitsStripRight(init);
      assert s == init + [s[|s| - 1]];
      DigitsAppend(init, [s[|s| - 1]]);
      assert Digits([s[|s| - 1]]) == [];
      assert Digits(init) + [] == Digits(init);
    }
  }

  /** Whitespace around a string adds no digit. */
  lemma DigitsOfPadded(lead: string, t: string, trail: string)
    requires AllSpace(lead) && AllSpace(trail)
    ensures Digits(lead + t + trail) == Digits(t)
  {
    DigitsAppend(lead + t, trail);
    DigitsAppend(lead, t);
    DigitsOfSpace(lead);
    DigitsOfSpace(trail);
    assert [] + Digits(t) + [] == Digits(t);
  }

  /** `_digits_to_int` gives None exactly when v is None or `str(v)` holds no digit. */
  lemma DigitsToIntNone(v: Option<string>)
    ensures DigitsToInt(v).None? <==> (v.None? || forall i :: 0 <= i < |v.value| ==> !IsDigit(v.value[i]))
  {
    if v.Some? {
      DigitsIgnoreStrip(v.value);
      NoDigitsIff(v.value);
    }
  }

  lemma {:induction false} DecimalValueBound(d: string)
    requires AllDigits(d)
    ensures DecimalValue(d) < Pow10(|d|)
  {
    if d != [] {
      DecimalValueBound(d[..|d| - 1]);
    }
  }

  /** With k digits in `str(v)`, the result is below 10^k. */
  lemma DigitsToIntBound(s: string)
    requires DigitsToInt(Some(s)).Some?
    ensures DigitsToInt(Some(s)).value < Pow10(|Digits(s)|)
  {
    DigitsIgnoreStrip(s);
    DigitsAreDigits(s);
    DecimalValueBound(Digits(s));
  }

  /** Leading zeros do not change the value (`int("007") == 7`). */
  lemma {:induction false} DecimalValueLeadingZero(d: string)
    requires AllDigits(d)
    ensures DecimalValue("0" + d) == DecimalValue(d)
  {
    if d != [] {
      assert ("0" + d)[..|"0" + d| - 1] == "0" + d[..|d| - 1];
      DecimalValueLeadingZero(d[..|d| - 1]);
    } else {
      assert "0" + d == "0";
    }
  }

  lemma {:induction false} DecimalOfNatToString(n: nat)
    ensures DecimalValue(NatToString(n)) == n
  {
    var s := NatToString(n);
    assert s[..|s| - 1] == (if n < 10 then [] else NatToString(n / 10));
    if n >= 10 {
      DecimalOfNatToString(n / 10);
    }
  }

  /**
   * Round trip: the digits of a number, surrounded by any text that holds no
   * digit (a prefix such as "K", a suffix such as " tin chi"), read back as
   * that number.
   */
  lemma DigitsToIntRoundTrip(pre: string, n: nat, post: string)
    requires Digits(pre) == [] && Digits(post) == []
    ensures DigitsToInt(Some(pre + NatToString(n) + post)) == Some(n)
  {
    var s := pre + NatToString(n) + post;
    DigitsOfWrapped(pre, NatToString(n), post);
    DigitsIgnoreStrip(s);
    DecimalOfNatToString(n);
  }

  /** Text without digits around a run of digits leaves exactly that run. */
  lemma DigitsOfWrapped(pre: string, d: string, post: string)
    requires Digits(pre) == [] && Digits(post) == [] && AllDigits(d)
    ensures Digits(pre + d + post) == d
  {
    DigitsAppend(pre + d, post);
    DigitsAppend(pre, d);
    DigitsOfDigits(d);
    assert [] + d + [] == d;
  }
}
