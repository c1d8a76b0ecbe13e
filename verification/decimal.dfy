/**
 * Decimal rendering of whole numbers, and the comma thousands grouping that
 * Python's `format(value, ",.0f")` produces for a whole, non-negative value.
 */
module Decimal {
  import opened Wrappers
  import opened Text

  predicate IsDigit(c: char)
  {
    '0' <= c <= '9'
  }

  predicate AllDigits(s: string)
  {
    forall k :: 0 <= k < |s| ==> IsDigit(s[k])
  }

  /** A decimal numeral as Python prints an integer: at least one digit, no leading zero except "0" itself. */
  predicate Canonical(s: string)
  {
    |s| >= 1 && AllDigits(s) && (s[0] == '0' ==> s == "0")
  }

  function DigitChar(d: nat): (c: char)
    requires d < 10
    ensures IsDigit(c)
  {
    (('0' as int) + d) as char
  }

  function DigitValue(c: char): (d: nat)
    requires IsDigit(c)
    ensures d < 10
  {
    (c as int) - ('0' as int)
  }

  /** The plain decimal digits of `n`, most significant first. */
  function DigitsOf(n: nat): (r: string)
    ensures Canonical(r)
    ensures n >= 10 ==> |r| >= 2
    decreases n
  {
    if n < 10 then [DigitChar(n)]
    else DigitsOf(n / 10) + [DigitChar(n % 10)]
  }

  /** The number a string of digits denotes (leading zeros allowed). */
  function ValueOf(s: string): nat
    requires AllDigits(s)
  {
    if |s| == 0 then 0
    else 10 * ValueOf(s[..|s| - 1]) + DigitValue(s[|s| - 1])
  }

  /** A non-empty digit string, read as a number; `None` for anything else. */
  function ParseDecimal(s: string): (r: Option<nat>)
    ensures r.Some? <==> |s| >= 1 && AllDigits(s)
  {
    if |s| >= 1 && AllDigits(s) then Some(ValueOf(s)) else None
  }

  /** Reading back the digits of `n` gives `n`. */
  lemma {:induction false} ValueOfDigitsOf(n: nat)
    ensures ValueOf(DigitsOf(n)) == n
    decreases n
  {
    if n >= 10 {
      var d := DigitsOf(n);
      ValueOfDigitsOf(n / 10);
      assert d[..|d| - 1] == DigitsOf(n / 10);
    }
  }

  lemma {:induction false} ValueOfPositive(s: string)
    requires Canonical(s) && s[0] != '0'
    ensures ValueOf(s) >= 1
    decreases |s|
  {
    if |s| > 1 {
      var init := s[..|s| - 1];
      assert init[0] == s[0];
      ValueOfPositive(init);
    }
  }

  /** Conversely, the digits of the value of a canonical numeral are that numeral. */
  lemma {:induction false} DigitsOfValueOf(s: string)
    requires Canonical(s)
    ensures DigitsOf(ValueOf(s)) == s
    decreases |s|
  {
    var last := s[|s| - 1];
    assert DigitChar(DigitValue(last)) == last;
    if |s| == 1 {
      assert s[..0] == "";
    } else {
      var init := s[..|s| - 1];
      assert init[0] == s[0];
      assert s[0] != '0';
      ValueOfPositive(init);
      DigitsOfValueOf(init);
      var n := ValueOf(s);
      assert n / 10 == ValueOf(init) && n % 10 == DigitValue(last);
      assert s == init + [last];
    }
  }

  /** Round trip through `ParseDecimal`. */
  lemma ParseDigitsOf(n: nat)
    ensures ParseDecimal(DigitsOf(n)) == Some(n)
  {
    ValueOfDigitsOf(n);
  }

  /**
   * The digit string cut into groups of three from the right; only the
   * leftmost group may be shorter.
   */
  function Chunks(ds: string): seq<string>
    decreases |ds|
  {
    if |ds| <= 3 then [ds]
    else Chunks(ds[..|ds| - 3]) + [ds[|ds| - 3..]]
  }

  /**
   * The groups put back together give the digits again; the first group has
   * one to three digits and every later group exactly three.
   */
  lemma {:induction false} ChunksShape(ds: string)
    ensures |Chunks(ds)| >= 1 && Concat(Chunks(ds)) == ds
    ensures |ds| >= 1 ==> 1 <= |Chunks(ds)[0]| <= 3
    ensures forall k :: 1 <= k < |Chunks(ds)| ==> |Chunks(ds)[k]| == 3
    decreases |ds|
  {
    if |ds| <= 3 {
      assert Concat([ds]) == ds + Concat([]);
    } else {
      var init := ds[..|ds| - 3];
      var last := ds[|ds| - 3..];
      ChunksShape(init);
      ConcatAppend(Chunks(init), [last]);
      assert Concat([last]) == last + Concat([]);
      assert init + last == ds;
    }
  }

  /** `format(n, ",.0f")` for a whole, non-negative `n`: the digits of `n` grouped by commas. */
  function Thousands(n: nat): string
  {
    JoinWith(Chunks(DigitsOf(n)), ",")
  }

  /** The groups of a numeral written with thousands separators have the expected shape. */
  predicate WellGrouped(s: string)
  {
    var g := SplitOn(s, ",");
    && 1 <= |g[0]| <= 3
    && (forall k :: 1 <= k < |g| ==> |g[k]| == 3)
    && (forall k :: 0 <= k < |g| ==> AllDigits(g[k]))
    && (g[0][0] == '0' ==> g == ["0"])
  }

  /** Reads a comma-grouped numeral back; `None` unless it is well grouped. */
  function ParseThousands(s: string): Option<nat>
  {
    if WellGrouped(s) then ParseDecimal(RemoveChar(s, ',')) else None
  }

  lemma DigitsAvoid(s: string, c: char)
    requires AllDigits(s) && !IsDigit(c)
    ensures c !in s
  {
  }

  lemma {:induction false} ConcatAllDigits(g: seq<string>)
    requires forall k :: 0 <= k < |g| ==> AllDigits(g[k])
    ensures AllDigits(Concat(g))
    decreases |g|
  {
    if |g| > 0 {
      ConcatAllDigits(g[1..]);
    }
  }

  /** Chunks of a digit string contain only digits. */
  lemma ChunksAreDigits(ds: string)
    requires AllDigits(ds)
    ensures forall k :: 0 <= k < |Chunks(ds)| ==> AllDigits(Chunks(ds)[k])
  {
    var g := Chunks(ds);
    forall k | 0 <= k < |g| ensures AllDigits(g[k]) {
      ChunkIsSlice(ds, k);
    }
  }

  lemma {:induction false} ChunkIsSlice(ds: string, k: nat)
    requires k < |Chunks(ds)|
    ensures exists i, j :: 0 <= i <= j <= |ds| && Chunks(ds)[k] == ds[i..j]
    decreases |ds|
  {
    var g := Chunks(ds);
    ChunksShape(ds);
    if |ds| <= 3 {
      assert g[k] == ds[0..|ds|];
    } else {
      var init := ds[..|ds| - 3];
      if k < |g| - 1 {
        ChunkIsSlice(init, k);
        var i, j :| 0 <= i <= j <= |init| && Chunks(init)[k] == init[i..j];
        ChunksShape(init);
        assert g[k] == ds[i..j];
      } else {
        assert g[k] == ds[|ds| - 3..|ds|];
      }
    }
  }

  /**
   * Stripping the separators from `Thousands(n)` gives the plain digits of
   * `n`; every group after the first has exactly three digits and the first
   * has one to three.
   */
  lemma ThousandsShape(n: nat)
    ensures RemoveChar(Thousands(n), ',') == DigitsOf(n)
    ensures WellGrouped(Thousands(n))
    ensures SplitOn(Thousands(n), ",") == Chunks(DigitsOf(n))
  {
    var ds := DigitsOf(n);
    var g := Chunks(ds);
    ChunksShape(ds);
    ChunksAreDigits(ds);
    forall k | 0 <= k < |g| ensures ',' !in g[k] {
      DigitsAvoid(g[k], ',');
    }
    SplitJoin(g, ",");
    RemoveJoin(g, ',');
    if g[0][0] == '0' {
      assert Concat(g) == g[0] + Concat(g[1..]);
      assert ds == "0";
    }
  }

  /** The grouped rendering reads back as the value it was made from. */
  lemma ParseThousandsRoundTrip(n: nat)
    ensures ParseThousands(Thousands(n)) == Some(n)
  {
    ThousandsShape(n);
    ParseDigitsOf(n);
  }

  /** Groups of the shape `Chunks` produces are exactly what `Chunks` returns for their concatenation. */
  lemma {:induction false} ChunksUnique(g: seq<string>)
    requires |g| >= 1 && 1 <= |g[0]| <= 3
    requires forall k :: 1 <= k < |g| ==> |g[k]| == 3
    ensures Chunks(Concat(g)) == g
    decreases |g|
  {
    if |g| == 1 {
      assert g[1..] == [];
      assert Concat(g) == g[0];
      assert Chunks(g[0]) == [g[0]];
    } else {
      var init := g[..|g| - 1];
      var last := g[|g| - 1];
      assert g == init + [last];
      ConcatAppend(init, [last]);
      assert Concat([last]) == last + Concat([]);
      var ds := Concat(g);
      assert ds == Concat(init) + last;
      LengthConcat(init);
      assert |ds| > 3;
      assert ds[..|ds| - 3] == Concat(init);
      assert ds[|ds| - 3..] == last;
      ChunksUnique(init);
    }
  }

  lemma LengthConcat(g: seq<string>)
    requires |g| >= 1 && |g[0]| >= 1
    ensures |Concat(g)| >= 1
  {
  }

  /** Every well-grouped numeral is the grouped rendering of the value it reads as. */
  lemma ThousandsOfParse(s: string, n: nat)
    requires ParseThousands(s) == Some(n)
    ensures Thousands(n) == s
  {
    var g := SplitOn(s, ",");
    SplitAvoids(s, ',');
    JoinSplit(s, ",");
    RemoveJoin(g, ',');
    var ds := Concat(g);
    assert RemoveChar(s, ',') == ds;
    ConcatAllDigits(g);
    assert g == [g[0]] + g[1..];
    ConcatAppend([g[0]], g[1..]);
    assert Concat([g[0]]) == g[0] + Concat([]);
    assert ds[0] == g[0][0];
    if ds[0] == '0' {
      assert g == ["0"];
      assert ds == "0";
    }
    assert Canonical(ds);
    DigitsOfValueOf(ds);
    ChunksUnique(g);
  }
}
