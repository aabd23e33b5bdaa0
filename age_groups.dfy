/** The "Age Group" column: `transform_age_group` (analysis.py lines 18-25) and
    the Min_Age / Max_Age extraction by regular expression (lines 44-45). */
module AgeGroups {
  import opened Wrappers
  import opened Strings

  // ---------------------------------------------------------------------------
  // transform_age_group
  // ---------------------------------------------------------------------------

  /** A missing cell stays missing; `"N+"` (any text holding a `'+'`) becomes
      `"N-"` with `N` the integer left once every `'+'` is removed; any other
      text must split on `'-'` into exactly two integers `A`, `B` and becomes
      `"A-B"`. A non-string cell makes `'+' in x` raise a TypeError; a failed
      `int()` or a wrong number of pieces to unpack raises a ValueError. */
  function TransformAgeGroup(cell: Cell): (r: Result<Cell>)
    ensures cell == Missing ==> r == Success(Missing)
    ensures r.Success? ==> (r.value == Missing <==> cell == Missing)
    ensures cell.Text? && r.Failure? ==> r.error == ValueError
    ensures r.Success? && r.value.Text? ==> '-' in r.value.s && MinAge(r.value.s).Some?
    ensures cell.Number? ==> r == Failure(TypeError)
  {
    match cell
    case Missing => Success(Missing)
    case Number(_) => Failure(TypeError)
    case Text(s) => if '+' in s then TransformOpen(s) else TransformClosed(s)
  }

  /** `int(s.replace('+', '').strip())`, rendered followed by `"-"`. */
  function TransformOpen(s: string): (r: Result<Cell>)
    ensures r.Failure? ==> r.error == ValueError
    ensures r.Success? ==> r.value.Text? && '-' in r.value.s && MinAge(r.value.s).Some?
  {
    match ParseInt(Strip(RemoveAll(s, '+')))
    case None => Failure(ValueError)
    case Some(n) =>
      OpenHasAges(n);
      assert (ShowInt(n) + "-")[|ShowInt(n)|] == '-';
      Success(Text(ShowInt(n) + "-"))
  }

  /** `min_age, max_age = map(int, s.split('-'))`, rendered as `"A-B"`. */
  function TransformClosed(s: string): (r: Result<Cell>)
    ensures r.Failure? ==> r.error == ValueError
    ensures r.Success? ==> r.value.Text? && '-' in r.value.s && MinAge(r.value.s).Some?
  {
    var parts := Split(s, "-");
    if |parts| != 2 then Failure(ValueError)
    else
      match (ParseInt(parts[0]), ParseInt(parts[1]))
      case (Some(a), Some(b)) =>
        PiecesAreNatural(s);
        assert parts[0] in parts && parts[1] in parts;
        RangeHasAges(a, b);
        assert (ShowInt(a) + "-" + ShowInt(b))[|ShowInt(a)|] == '-';
        Success(Text(ShowInt(a) + "-" + ShowInt(b)))
      case _ => Failure(ValueError)
  }

  /** The `.strip()` before `int()` changes nothing: `int()` strips itself. */
  lemma ParseIgnoresStrip(x: string)
    ensures ParseInt(Strip(x)) == ParseInt(x)
  {
    var t := Strip(x);
    assert t == [] || (!IsSpace(t[0]) && !IsSpace(t[|t| - 1]));
    assert Strip(t) == t;
  }

  /** Text containing `'+'` becomes the decimal rendering of the integer left
      after removing every `'+'` (and white space), followed by `"-"`; when no
      integer is left, the call raises a ValueError. */
  lemma TransformOpenRange(s: string)
    requires '+' in s
    ensures ParseInt(RemoveAll(s, '+')).None? ==> TransformAgeGroup(Text(s)) == Failure(ValueError)
    ensures ParseInt(RemoveAll(s, '+')).Some? ==>
      TransformAgeGroup(Text(s)) == Success(Text(ShowInt(ParseInt(RemoveAll(s, '+')).value) + "-"))
  {
    ParseIgnoresStrip(RemoveAll(s, '+'));
  }

  lemma SepFreeChar(p: string, c: char)
    requires SepFree(p, [c])
    ensures c !in p
  {
    if c in p {
      var k :| 0 <= k < |p| && p[k] == c;
      assert p[k..k + 1] == [c];
      assert OccursAt(p, [c], k);
    }
  }

  /** The pieces of a split on `'-'` hold no `'-'`, so they parse, if at all,
      to natural numbers. */
  lemma PiecesAreNatural(s: string)
    ensures forall p :: p in Split(s, "-") && ParseInt(p).Some? ==> ParseInt(p).value >= 0
  {
    forall p | p in Split(s, "-") && ParseInt(p).Some? ensures ParseInt(p).value >= 0 {
      SepFreeChar(p, '-');
    }
  }

  /** Text without `'+'` succeeds exactly when it splits on `'-'` into two
      pieces that both parse; the result is then `"A-B"` with `A` and `B` the
      canonical renderings of two natural numbers. */
  lemma TransformClosedRange(s: string)
    requires '+' !in s
    ensures TransformAgeGroup(Text(s)).Success? <==>
      (|Split(s, "-")| == 2 && ParseInt(Split(s, "-")[0]).Some? && ParseInt(Split(s, "-")[1]).Some?)
    ensures TransformAgeGroup(Text(s)).Success? ==>
      var a, b := ParseInt(Split(s, "-")[0]).value, ParseInt(Split(s, "-")[1]).value;
      a >= 0 && b >= 0 && TransformAgeGroup(Text(s)) == Success(Text(ShowNat(a) + "-" + ShowNat(b)))
  {
    PiecesAreNatural(s);
  }

  /** A rendered range `"A-B"` is a fixed point of the transform. */
  lemma RangeIsFixedPoint(a: nat, b: nat)
    ensures TransformAgeGroup(Text(ShowNat(a) + "-" + ShowNat(b))) == Success(Text(ShowNat(a) + "-" + ShowNat(b)))
  {
    var x, y := ShowNat(a), ShowNat(b);
    DigitsHaveNoSign(x);
    DigitsHaveNoSign(y);
    var s := x + "-" + y;
    assert '+' !in s;
    SplitCharFirst(x, '-', y);
    SplitCharNone(y, '-');
    assert Split(s, "-") == [x, y];
    ParseShowInt(a);
    ParseShowInt(b);
  }

  /** Applying the transform again to a range it produced changes nothing. */
  lemma TransformIdempotentOnRanges(s: string)
    requires '+' !in s && TransformAgeGroup(Text(s)).Success?
    ensures TransformAgeGroup(TransformAgeGroup(Text(s)).value) == TransformAgeGroup(Text(s))
  {
    TransformClosedRange(s);
    RangeIsFixedPoint(ParseInt(Split(s, "-")[0]).value, ParseInt(Split(s, "-")[1]).value);
  }

  lemma OpenFormIsRejectedNat(x: string)
    requires |x| >= 1 && AllDigits(x)
    ensures TransformAgeGroup(Text(x + "-")) == Failure(ValueError)
  {
    DigitsHaveNoSign(x);
    SplitCharNone([], '-');
    assert x + "-" == x + "-" + [];
    SplitCharFirst(x, '-', []);
    assert Split(x + "-", "-") == [x, []];
    assert ParseInt([]).None?;
  }

  lemma OpenFormIsRejectedNeg(x: string)
    requires |x| >= 1 && AllDigits(x)
    ensures TransformAgeGroup(Text("-" + x + "-")) == Failure(ValueError)
  {
    DigitsHaveNoSign(x);
    SplitCharNone([], '-');
    assert "-" + x + "-" == [] + "-" + (x + "-" + []);
    SplitCharFirst([], '-', x + "-" + []);
    SplitCharFirst(x, '-', []);
    assert |Split("-" + x + "-", "-")| == 3;
  }

  /** The open form `"N-"` is not accepted again: its split on `'-'` leaves an
      empty piece (or three pieces, for a negative `N`). */
  lemma OpenFormIsRejected(n: int)
    ensures TransformAgeGroup(Text(ShowInt(n) + "-")) == Failure(ValueError)
  {
    if n >= 0 {
      OpenFormIsRejectedNat(ShowNat(n));
    } else {
      OpenFormIsRejectedNeg(ShowNat(-n));
    }
  }

  // ---------------------------------------------------------------------------
  // Min_Age / Max_Age: str.extract(r'(\d+)') and str.extract(r'(\d+)\+?-(\d+)')[1]
  // ---------------------------------------------------------------------------

  /** The end of the run of digits that starts at `i` (greedy `\d*`). */
  function RunEnd(s: string, i: nat): (j: nat)
    requires i <= |s|
    ensures i <= j <= |s|
    ensures forall k :: i <= k < j ==> IsDigit(s[k])
    ensures j == |s| || !IsDigit(s[j])
    decreases |s| - i
  {
    if i < |s| && IsDigit(s[i]) then RunEnd(s, i + 1) else i
  }

  /** The first digit at or after `i`. */
  function FirstDigit(s: string, i: nat): (r: Option<nat>)
    requires i <= |s|
    ensures r.Some? ==> i <= r.value < |s| && IsDigit(s[r.value])
    ensures r.Some? ==> forall k :: i <= k < r.value ==> !IsDigit(s[k])
    ensures r.None? ==> forall k :: i <= k < |s| ==> !IsDigit(s[k])
    decreases |s| - i
  {
    if i == |s| then None else if IsDigit(s[i]) then Some(i) else FirstDigit(s, i + 1)
  }

  /** The number spelled by the digit run starting at `i`. */
  function RunValue(s: string, i: nat): (v: int)
    requires i <= |s|
    ensures v >= 0
  {
    var j := RunEnd(s, i);
    assert AllDigits(s[i..j]) by { assert forall k :: 0 <= k < j - i ==> s[i..j][k] == s[i + k]; }
    DecValue(s[i..j])
  }

  /** Min_Age: the first run of digits, read as a number; missing when the
      text holds no digit. */
  function MinAge(s: string): (r: Option<int>)
    ensures r.None? <==> forall k :: 0 <= k < |s| ==> !IsDigit(s[k])
    ensures r.Some? ==> (exists i :: 0 <= i < |s| && IsDigit(s[i]) &&
                                     (forall k :: 0 <= k < i ==> !IsDigit(s[k])) && r.value == RunValue(s, i))
    ensures r.Some? ==> r.value >= 0
  {
    match FirstDigit(s, 0)
    case None => None
    case Some(i) => Some(RunValue(s, i))
  }

  /** An attempt to match `(\d+)\+?-(\d+)` starting at a digit `i`, giving the
      second group. Backtracking into the first `\d+` never helps (the next
      character would be a digit, neither `'+'` nor `'-'`), and `\+?` can only
      be taken when a `'-'` follows it. */
  function RangeAt(s: string, i: nat): (r: Option<int>)
    requires i < |s| && IsDigit(s[i])
    ensures r.Some? ==> r.value >= 0
  {
    var j := RunEnd(s, i);
    var k := if j < |s| && s[j] == '+' then j + 1 else j;
    if k + 1 < |s| && s[k] == '-' && IsDigit(s[k + 1]) then Some(RunValue(s, k + 1)) else None
  }

  /** `re.search` for `(\d+)\+?-(\d+)` from position `i`: the leftmost start
      at which the pattern matches gives the second group. */
  function RangeSearch(s: string, i: nat): (r: Option<int>)
    requires i <= |s|
    ensures r.Some? ==> (exists k :: i <= k < |s| && IsDigit(s[k]) && RangeAt(s, k) == r &&
                                     (forall m :: i <= m < k && IsDigit(s[m]) ==> RangeAt(s, m).None?))
    ensures r.None? ==> forall k :: i <= k < |s| && IsDigit(s[k]) ==> RangeAt(s, k).None?
    decreases |s| - i
  {
    if i == |s| then None
    else if IsDigit(s[i]) && RangeAt(s, i).Some? then RangeAt(s, i)
    else RangeSearch(s, i + 1)
  }

  /** Max_Age: the second group of the range pattern, or Min_Age when the
      pattern does not match (`fillna(df['Min_Age'])`). */
  function MaxAge(s: string): (r: Option<int>)
    ensures r.None? <==> MinAge(s).None?
    ensures r.Some? ==> r.value >= 0
  {
    match RangeSearch(s, 0)
    case Some(v) => Some(v)
    case None => MinAge(s)
  }

  /** The column-wise forms: `.str.extract` gives NaN on a cell that is not text. */
  function MinAgeOf(c: Cell): (r: Option<int>)
    ensures !c.Text? ==> r.None?
  {
    if c.Text? then MinAge(c.s) else None
  }

  function MaxAgeOf(c: Cell): (r: Option<int>)
    ensures r.None? <==> MinAgeOf(c).None?
  {
    if c.Text? then MaxAge(c.s) else None
  }

  /** The run starting anywhere inside a digit block ends where the block ends. */
  lemma RunEndInBlock(s: string, lo: nat, hi: nat, k: nat)
    requires lo <= k <= hi <= |s|
    requires forall m :: lo <= m < hi ==> IsDigit(s[m])
    requires hi == |s| || !IsDigit(s[hi])
    ensures RunEnd(s, k) == hi
  {
  }

  lemma RunValueOfBlock(s: string, lo: nat, d: string)
    requires lo + |d| <= |s| && s[lo..lo + |d|] == d && AllDigits(d)
    requires lo + |d| == |s| || !IsDigit(s[lo + |d|])
    ensures RunValue(s, lo) == DecValue(d)
  {
    assert forall m :: lo <= m < lo + |d| ==> s[m] == d[m - lo];
    RunEndInBlock(s, lo, lo + |d|, lo);
  }

  lemma RangeMinAge(s: string, x: string, y: string)
    requires s == x + "-" + y && |x| >= 1 && AllDigits(x) && |y| >= 1 && AllDigits(y)
    ensures MinAge(s) == Some(DecValue(x))
  {
    assert s[..|x|] == x && s[|x|] == '-';
    assert IsDigit(s[0]) by { assert s[0] == x[0]; }
    assert FirstDigit(s, 0) == Some(0);
    RunValueOfBlock(s, 0, x);
  }

  lemma RangeMaxGroup(s: string, x: string, y: string)
    requires s == x + "-" + y && |x| >= 1 && AllDigits(x) && |y| >= 1 && AllDigits(y)
    ensures RangeSearch(s, 0) == Some(DecValue(y))
  {
    assert s[|x|] == '-' && s[|x| + 1..] == y;
    assert forall m :: 0 <= m < |x| ==> s[m] == x[m];
    RunEndInBlock(s, 0, |x|, 0);
    assert IsDigit(s[|x| + 1]) by { assert s[|x| + 1] == y[0]; }
    RunValueOfBlock(s, |x| + 1, y);
    assert IsDigit(s[0]) by { assert s[0] == x[0]; }
    assert RangeAt(s, 0) == Some(DecValue(y));
  }

  /** On `"A-B"`, Min_Age is `A` and Max_Age is `B`. */
  lemma RangeHasAges(a: int, b: int)
    requires a >= 0 && b >= 0
    ensures MinAge(ShowInt(a) + "-" + ShowInt(b)) == Some(a)
    ensures MaxAge(ShowInt(a) + "-" + ShowInt(b)) == Some(b)
  {
    var x, y := ShowNat(a), ShowNat(b);
    RangeMinAge(x + "-" + y, x, y);
    RangeMaxGroup(x + "-" + y, x, y);
  }

  /** The text `p + x + "-"` with `x` a block of digits and `p` empty or `"-"`. */
  predicate OpenShape(s: string, p: string, x: string) {
    s == p + x + "-" && (p == "" || p == "-") && |x| >= 1 && AllDigits(x)
  }

  lemma OpenMinAge(s: string, p: string, x: string)
    requires OpenShape(s, p, x)
    ensures MinAge(s) == Some(DecValue(x))
  {
    assert s[|p|..|p| + |x|] == x;
    assert s[|p| + |x|] == '-';
    assert p == "-" ==> s[0] == '-';
    assert IsDigit(s[|p|]) by { assert s[|p|] == x[0]; }
    assert FirstDigit(s, 0) == Some(|p|);
    RunValueOfBlock(s, |p|, x);
  }

  lemma OpenNoRange(s: string, p: string, x: string)
    requires OpenShape(s, p, x)
    ensures RangeSearch(s, 0).None?
  {
    var hi := |p| + |x|;
    assert |s| == hi + 1 && s[hi] == '-';
    assert forall m :: |p| <= m < hi ==> s[m] == x[m - |p|];
    assert p == "-" ==> s[0] == '-';
    forall k | 0 <= k < |s| && IsDigit(s[k]) ensures RangeAt(s, k).None? {
      RunEndInBlock(s, |p|, hi, k);
    }
  }

  /** On `"N-"`, the range pattern does not match, so Max_Age falls back to
      Min_Age, which is the magnitude of `N`. */
  lemma OpenHasAges(n: int)
    ensures MinAge(ShowInt(n) + "-") == Some(if n < 0 then -n else n)
    ensures MaxAge(ShowInt(n) + "-") == Some(if n < 0 then -n else n)
  {
    var x := ShowNat(if n < 0 then -n else n);
    var p := if n < 0 then "-" else "";
    assert OpenShape(ShowInt(n) + "-", p, x);
    OpenMinAge(ShowInt(n) + "-", p, x);
    OpenNoRange(ShowInt(n) + "-", p, x);
  }

  /** Min_Age and Max_Age of a transformed closed range `"A-B"` are `A` and `B`. */
  lemma AgesOfClosedRange(s: string)
    requires '+' !in s && TransformAgeGroup(Text(s)).Success?
    ensures MinAgeOf(TransformAgeGroup(Text(s)).value) == ParseInt(Split(s, "-")[0])
    ensures MaxAgeOf(TransformAgeGroup(Text(s)).value) == ParseInt(Split(s, "-")[1])
  {
    TransformClosedRange(s);
    var a, b := ParseInt(Split(s, "-")[0]).value, ParseInt(Split(s, "-")[1]).value;
    RangeHasAges(a, b);
  }

  /** Min_Age and Max_Age of a transformed open range `"N-"` are both `|N|`. */
  lemma AgesOfOpenRange(s: string, n: int)
    requires '+' in s && ParseInt(RemoveAll(s, '+')) == Some(n)
    ensures MinAgeOf(TransformAgeGroup(Text(s)).value) == Some(if n < 0 then -n else n)
    ensures MaxAgeOf(TransformAgeGroup(Text(s)).value) == Some(if n < 0 then -n else n)
  {
    TransformOpenRange(s);
    OpenHasAges(n);
  }
}
