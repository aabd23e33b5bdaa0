/** The string primitives the analysis script relies on, over `seq<char>`:
    Python's `int()` on decimal text, the decimal rendering of an integer
    (`f"{n}"`), `str.strip()`, `str.replace(c, '')` and `str.split(sep)`. */
module Strings {
  import opened Wrappers

  predicate IsDigit(c: char) { '0' <= c <= '9' }

  /** The characters Python's `str.isspace()` accepts, which `str.strip()`
      and `int()` drop: tab to carriage return, the four information
      separators U+001C to U+001F, the space, NEL, the no-break space and the
      Unicode space separators and line and paragraph separators. */
  predicate IsSpace(c: char) {
    ('\t' <= c <= '\r') || ('\U{1C}' <= c <= ' ') || c == '\U{85}' || c == '\U{A0}'
    || c == '\U{1680}' || ('\U{2000}' <= c <= '\U{200A}') || c == '\U{2028}' || c == '\U{2029}'
    || c == '\U{202F}' || c == '\U{205F}' || c == '\U{3000}'
  }

  predicate AllDigits(s: string) { forall i :: 0 <= i < |s| ==> IsDigit(s[i]) }

  function DigitValue(c: char): (d: nat)
    requires IsDigit(c)
    ensures d < 10
  {
    (c as int) - ('0' as int)
  }

  function DigitChar(d: nat): (c: char)
    requires d < 10
    ensures IsDigit(c) && DigitValue(c) == d
  {
    ('0' as int + d) as char
  }

  /** The value of a run of decimal digits, most significant first. */
  function DecValue(s: string): nat
    requires AllDigits(s)
    decreases |s|
  {
    if s == [] then 0 else 10 * DecValue(s[..|s| - 1]) + DigitValue(s[|s| - 1])
  }

  /** Canonical decimal rendering of a natural number: digits only, never
      empty, no leading zero, and it reads back as `n`. */
  function ShowNat(n: nat): (r: string)
    ensures |r| >= 1 && AllDigits(r)
    ensures |r| > 1 ==> r[0] != '0'
    ensures DecValue(r) == n
    decreases n
  {
    if n < 10 then [DigitChar(n)]
    else
      var front := ShowNat(n / 10);
      assert (front + [DigitChar(n % 10)])[..|front|] == front;
      front + [DigitChar(n % 10)]
  }

  /** Python's `f"{n}"` for an `int`. */
  function ShowInt(n: int): (r: string)
    ensures |r| >= 1
    ensures r[0] == '-' <==> n < 0
    ensures n >= 0 ==> r == ShowNat(n)
    ensures n < 0 ==> r == "-" + ShowNat(-n)
  {
    if n < 0 then "-" + ShowNat(-n) else ShowNat(n)
  }

  /** The first position at or after `i` that is not white space. */
  function SkipSpace(s: string, i: nat): (j: nat)
    requires i <= |s|
    ensures i <= j <= |s|
    ensures forall k :: i <= k < j ==> IsSpace(s[k])
    ensures j == |s| || !IsSpace(s[j])
    decreases |s| - i
  {
    if i < |s| && IsSpace(s[i]) then SkipSpace(s, i + 1) else i
  }

  /** The position after the last character in `s[lo..j]` that is not white
      space, or `lo` when there is none. */
  function SkipSpaceBack(s: string, lo: nat, j: nat): (i: nat)
    requires lo <= j <= |s|
    ensures lo <= i <= j
    ensures forall k :: i <= k < j ==> IsSpace(s[k])
    ensures i == lo || !IsSpace(s[i - 1])
    decreases j
  {
    if lo < j && IsSpace(s[j - 1]) then SkipSpaceBack(s, lo, j - 1) else j
  }

  /** Where the text left by `str.strip()` starts: after the leading white space. */
  function StripStart(s: string): (a: nat)
    ensures a <= |s|
    ensures forall k :: 0 <= k < a ==> IsSpace(s[k])
    ensures a == |s| || !IsSpace(s[a])
  {
    SkipSpace(s, 0)
  }

  /** Python's `str.strip()`: the contiguous middle of `s` that starts at
      `StripStart(s)`, with only white space on either side of it and none
      at its own ends. */
  function Strip(s: string): (r: string)
    ensures StripStart(s) + |r| <= |s| && r == s[StripStart(s)..StripStart(s) + |r|]
    ensures forall k :: StripStart(s) + |r| <= k < |s| ==> IsSpace(s[k])
    ensures r == [] || (!IsSpace(r[0]) && !IsSpace(r[|r| - 1]))
    ensures (s == [] || (!IsSpace(s[0]) && !IsSpace(s[|s| - 1]))) ==> r == s
  {
    var a := StripStart(s);
    var b := SkipSpaceBack(s, a, |s|);
    assert a < b ==> s[a..b][0] == s[a] && s[a..b][b - a - 1] == s[b - 1];
    s[a..b]
  }

  /** An optional sign followed by at least one ASCII digit, and nothing else. */
  function ParseSigned(t: string): (r: Option<int>)
    ensures r.Some? ==> exists k :: 0 <= k < |t| && IsDigit(t[k])
    ensures r.Some? && '-' !in t ==> r.value >= 0
  {
    if |t| >= 2 && (t[0] == '+' || t[0] == '-') && AllDigits(t[1..]) then
      assert IsDigit(t[1..][0]);
      var v: int := DecValue(t[1..]);
      Some(if t[0] == '-' then -v else v)
    else if |t| >= 1 && AllDigits(t) then
      assert IsDigit(t[0]);
      Some(DecValue(t))
    else None
  }

  /** Python's `int(s)` restricted to decimal text: surrounding white space,
      an optional sign and at least one ASCII digit. */
  function ParseInt(s: string): (r: Option<int>)
    ensures r.Some? ==> exists k :: 0 <= k < |s| && IsDigit(s[k])
    ensures r.Some? && '-' !in s ==> r.value >= 0
  {
    var t := Strip(s);
    var r := ParseSigned(t);
    assert r.Some? ==> exists k :: 0 <= k < |s| && IsDigit(s[k]) by {
      if r.Some? {
        var k :| 0 <= k < |t| && IsDigit(t[k]);
        assert t[k] == s[StripStart(s) + k];
      }
    }
    r
  }

  lemma StripKeepsTrimmed(s: string)
    requires s != [] && !IsSpace(s[0]) && !IsSpace(s[|s| - 1])
    ensures Strip(s) == s
  {
  }

  lemma ParseShowNat(n: nat)
    ensures ParseSigned(ShowNat(n)) == Some(n)
  {
  }

  lemma ParseShowNegative(n: nat)
    requires n > 0
    ensures ParseSigned("-" + ShowNat(n)) == Some(-(n as int))
  {
    var a := ShowNat(n);
    assert ("-" + a)[1..] == a;
  }

  /** Reading back a rendered integer gives the integer. */
  lemma ParseShowInt(n: int)
    ensures ParseInt(ShowInt(n)) == Some(n)
  {
    var s := ShowInt(n);
    assert !IsSpace(s[0]) && !IsSpace(s[|s| - 1]) by {
      if n < 0 {
        var a := ShowNat(-n);
        assert s[|s| - 1] == a[|a| - 1];
        assert IsDigit(a[|a| - 1]);
      } else {
        assert IsDigit(s[0]) && IsDigit(s[|s| - 1]);
      }
    }
    StripKeepsTrimmed(s);
    assert ParseInt(s) == ParseSigned(s);
    if n < 0 {
      ParseShowNegative(-n);
    } else {
      ParseShowNat(n);
    }
  }

  function Abs(n: int): nat { if n < 0 then -n else n }

  /** `z` zero digits. */
  function Zeros(z: nat): (r: string)
    ensures |r| == z && AllDigits(r)
    ensures forall k :: 0 <= k < z ==> r[k] == '0'
  {
    seq(z, _ => '0')
  }

  /** `t` spells `n` after `z` leading zeros: the canonical digits of `|n|`
      behind them, and before them no sign, a `'+'` (both for `n >= 0`) or
      a `'-'` (for `n <= 0`, so `"-0"` spells 0). */
  predicate SpellsWith(t: string, n: int, z: nat) {
    var d := Zeros(z) + ShowNat(Abs(n));
    (n >= 0 && (t == d || t == "+" + d)) || (n <= 0 && t == "-" + d)
  }

  /** `t` is a decimal spelling of `n`, with any number of leading zeros. */
  ghost predicate Spells(t: string, n: int) {
    exists z: nat :: SpellsWith(t, n, z)
  }

  lemma {:induction false} DecValueZeros(z: nat)
    ensures DecValue(Zeros(z)) == 0
  {
    if z > 0 {
      assert Zeros(z)[..z - 1] == Zeros(z - 1);
      DecValueZeros(z - 1);
    }
  }

  /** Leading zeros do not change the value. */
  lemma {:induction false} DecValueAfterZeros(z: nat, x: string)
    requires AllDigits(x)
    ensures AllDigits(Zeros(z) + x) && DecValue(Zeros(z) + x) == DecValue(x)
    decreases |x|
  {
    var d := Zeros(z) + x;
    assert AllDigits(d) by {
      forall k | 0 <= k < |d| ensures IsDigit(d[k]) {
        if k >= z { assert d[k] == x[k - z]; }
      }
    }
    if x == [] {
      assert d == Zeros(z);
      DecValueZeros(z);
    } else {
      assert d[..|d| - 1] == Zeros(z) + x[..|x| - 1];
      assert d[|d| - 1] == x[|x| - 1];
      DecValueAfterZeros(z, x[..|x| - 1]);
    }
  }

  /** One more digit after a run of value 0 renders as that digit alone. */
  lemma ShowAfterZeroValue(p: string, c: char)
    requires AllDigits(p) && IsDigit(c) && DecValue(p) == 0
    ensures AllDigits(p + [c]) && ShowNat(DecValue(p + [c])) == [c]
  {
    var d := p + [c];
    assert AllDigits(d) by {
      assert forall k :: 0 <= k < |p| ==> d[k] == p[k];
    }
    assert d[..|d| - 1] == p;
    assert DecValue(d) == DigitValue(c);
    assert DigitChar(DigitValue(c)) == c;
  }

  /** One more digit after a run of positive value `v` renders after `v`. */
  lemma ShowAfterPositiveValue(p: string, c: char)
    requires AllDigits(p) && IsDigit(c) && DecValue(p) > 0
    ensures AllDigits(p + [c]) && ShowNat(DecValue(p + [c])) == ShowNat(DecValue(p)) + [c]
  {
    var d := p + [c];
    assert d[..|d| - 1] == p;
    var v := DecValue(p);
    var n := 10 * v + DigitValue(c);
    assert DecValue(d) == n;
    assert n / 10 == v && n % 10 == DigitValue(c);
    assert DigitChar(DigitValue(c)) == c;
  }

  /** Every non-empty run of digits is leading zeros followed by the
      canonical rendering of its value. */
  lemma {:induction false} DigitsAsShown(d: string)
    requires |d| >= 1 && AllDigits(d)
    ensures |ShowNat(DecValue(d))| <= |d|
    ensures d == Zeros(|d| - |ShowNat(DecValue(d))|) + ShowNat(DecValue(d))
    decreases |d|
  {
    var p, c := d[..|d| - 1], d[|d| - 1];
    assert d == p + [c];
    if p == [] {
      ShowAfterZeroValue(p, c);
    } else {
      DigitsAsShown(p);
      var v := DecValue(p);
      var zp := |p| - |ShowNat(v)|;
      if v == 0 {
        ShowAfterZeroValue(p, c);
        assert p == Zeros(zp) + "0" == Zeros(|p|);
      } else {
        ShowAfterPositiveValue(p, c);
        assert d == Zeros(zp) + ShowNat(v) + [c];
      }
    }
  }

  /** Digits read under sign `p` (none, `"+"` or `"-"`) spell their signed value. */
  lemma SignedDigitsSpell(t: string, p: string, d: string, n: int)
    requires t == p + d && (p == "" || p == "+" || p == "-")
    requires |d| >= 1 && AllDigits(d) && n == (if p == "-" then -(DecValue(d) as int) else DecValue(d))
    ensures Spells(t, n)
  {
    DigitsAsShown(d);
    var w := ShowNat(DecValue(d));
    var z: nat := |d| - |w|;
    assert Abs(n) == DecValue(d);
    assert d == Zeros(z) + ShowNat(Abs(n));
    if p == "-" {
      assert n <= 0 && t == "-" + d;
    } else {
      assert n >= 0 && (t == d || t == "+" + d);
    }
    assert SpellsWith(t, n, z);
  }

  lemma ParseSignedToSpells(t: string, n: int)
    requires ParseSigned(t) == Some(n)
    ensures Spells(t, n)
  {
    if |t| >= 2 && (t[0] == '+' || t[0] == '-') && AllDigits(t[1..]) {
      assert t == [t[0]] + t[1..];
      SignedDigitsSpell(t, [t[0]], t[1..], n);
    } else {
      assert t == "" + t;
      SignedDigitsSpell(t, "", t, n);
    }
  }

  lemma SpellsToParseSigned(t: string, n: int, z: nat)
    requires SpellsWith(t, n, z)
    ensures ParseSigned(t) == Some(n)
  {
    var d := Zeros(z) + ShowNat(Abs(n));
    DecValueAfterZeros(z, ShowNat(Abs(n)));
    if t == d {
      assert IsDigit(t[0]);
    } else {
      assert t[1..] == d;
    }
  }

  /** The signed grammar read through its spellings: it accepts exactly the
      spellings of an integer, and gives that integer. */
  lemma ParseSignedSpells(t: string, n: int)
    ensures ParseSigned(t) == Some(n) <==> Spells(t, n)
  {
    if ParseSigned(t) == Some(n) {
      ParseSignedToSpells(t, n);
    }
    if Spells(t, n) {
      var z: nat :| SpellsWith(t, n, z);
      SpellsToParseSigned(t, n, z);
    }
  }

  /** `int(s)` succeeds exactly when the stripped text spells an integer,
      and then gives that integer. */
  lemma ParseIntSpells(s: string, n: int)
    ensures ParseInt(s) == Some(n) <==> Spells(Strip(s), n)
  {
    ParseSignedSpells(Strip(s), n);
  }

  /** `int(s)` raises exactly when the stripped text spells no integer. */
  lemma ParseIntRaises(s: string)
    ensures ParseInt(s).None? <==> forall n :: !Spells(Strip(s), n)
  {
    if ParseInt(s).Some? {
      ParseIntSpells(s, ParseInt(s).value);
    } else {
      forall n ensures !Spells(Strip(s), n) { ParseIntSpells(s, n); }
    }
  }

  /** Python's `s.replace(c, '')`. */
  function RemoveAll(s: string, c: char): (r: string)
    ensures c !in r
    ensures forall d :: d != c ==> multiset(r)[d] == multiset(s)[d]
    ensures c !in s ==> r == s
    decreases |s|
  {
    if s == [] then []
    else
      assert s == [s[0]] + s[1..];
      (if s[0] == c then [] else [s[0]]) + RemoveAll(s[1..], c)
  }

  /** The removal works character by character, keeping the order of the
      rest: it distributes over concatenation. */
  lemma {:induction false} RemoveAllAppend(a: string, b: string, c: char)
    ensures RemoveAll(a + b, c) == RemoveAll(a, c) + RemoveAll(b, c)
    decreases |a|
  {
    if a == [] {
      assert a + b == b;
    } else {
      assert (a + b)[0] == a[0] && (a + b)[1..] == a[1..] + b;
      RemoveAllAppend(a[1..], b, c);
    }
  }

  predicate OccursAt(s: string, sep: string, k: nat) {
    k + |sep| <= |s| && s[k..k + |sep|] == sep
  }

  /** `sep` occurs nowhere inside `p`. */
  predicate SepFree(p: string, sep: string) {
    forall k: nat :: k <= |p| ==> !OccursAt(p, sep, k)
  }

  /** The first occurrence of `sep` in `s` at or after position `i`. */
  function FindFrom(s: string, sep: string, i: nat): (r: Option<nat>)
    requires i <= |s|
    ensures r.Some? ==> i <= r.value && OccursAt(s, sep, r.value)
    ensures r.Some? ==> forall k: nat :: i <= k < r.value ==> !OccursAt(s, sep, k)
    ensures r.None? ==> forall k: nat :: i <= k ==> !OccursAt(s, sep, k)
    decreases |s| - i
  {
    if i + |sep| > |s| then None
    else if s[i..i + |sep|] == sep then Some(i)
    else FindFrom(s, sep, i + 1)
  }

  /** Python's `sep.join(parts)`. */
  function Join(parts: seq<string>, sep: string): string
    requires |parts| >= 1
  {
    if |parts| == 1 then parts[0] else parts[0] + sep + Join(parts[1..], sep)
  }

  /** Python's `s.split(sep)` for a non-empty separator: cut at every
      occurrence, scanning left to right without overlap. The pieces never
      contain the separator, and joining them with it gives `s` back. */
  function Split(s: string, sep: string): (r: seq<string>)
    requires |sep| > 0
    ensures |r| >= 1
    ensures Join(r, sep) == s
    ensures forall p :: p in r ==> SepFree(p, sep)
    decreases |s|
  {
    match FindFrom(s, sep, 0)
    case None => [s]
    case Some(k) =>
      var head, rest := s[..k], Split(s[k + |sep|..], sep);
      assert s == head + sep + s[k + |sep|..];
      assert SepFree(head, sep) by {
        forall q: nat | OccursAt(head, sep, q) ensures false {
          assert head[q..q + |sep|] == s[q..q + |sep|];
          assert OccursAt(s, sep, q);
        }
      }
      [head] + rest
  }

  /** Splitting on a single character `c` at its first occurrence. */
  lemma SplitCharFirst(x: string, c: char, rest: string)
    requires c !in x
    ensures Split(x + [c] + rest, [c]) == [x] + Split(rest, [c])
  {
    var s := x + [c] + rest;
    assert OccursAt(s, [c], |x|);
    forall k: nat | k < |x| ensures !OccursAt(s, [c], k) {
      assert s[k..k + 1] == [x[k]];
    }
    assert FindFrom(s, [c], 0) == Some(|x|);
    assert s[..|x|] == x && s[|x| + 1..] == rest;
  }

  /** A string without `c` splits on `c` into itself alone. */
  lemma SplitCharNone(y: string, c: char)
    requires c !in y
    ensures Split(y, [c]) == [y]
  {
    forall k: nat | k < |y| ensures !OccursAt(y, [c], k) {
      assert y[k] in y;
    }
    assert FindFrom(y, [c], 0).None?;
  }

  lemma DigitsHaveNoSign(s: string)
    requires AllDigits(s)
    ensures '-' !in s && '+' !in s
  {
  }
}
