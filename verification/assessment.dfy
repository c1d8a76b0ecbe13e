/**
 * The assessed-value summary of a property record: one labelled line per
 * assessed-value component that is present, in a fixed order, joined by
 * `<br>`, or a fixed sentinel text when no component is present.
 */
module Assessment {
  import opened Wrappers
  import opened Text
  import opened Decimal

  /** The four assessed-value components, in the order the summary lists them. */
  datatype Field = Overall | Residential | NonResidential | FarmLand

  const FieldCount: nat := 4

  const FieldOrder: seq<Field> := [Overall, Residential, NonResidential, FarmLand]

  /** Position of a component in the summary order. */
  function Rank(f: Field): (k: nat)
    ensures k < FieldCount && FieldOrder[k] == f
  {
    match f
    case Overall => 0
    case Residential => 1
    case NonResidential => 2
    case FarmLand => 3
  }

  function Label(f: Field): string
  {
    match f
    case Overall => "Assessed Value"
    case Residential => "Residential Assessed Value"
    case NonResidential => "Non-Residential Assessed Value"
    case FarmLand => "Farm Land Assessed Value"
  }

  /**
   * The four components of one property after numeric coercion; `None` is a
   * missing value or one that did not parse as a number (never zero).
   */
  datatype AssessedValues = AssessedValues(
    overall: Option<nat>,
    residential: Option<nat>,
    nonResidential: Option<nat>,
    farmLand: Option<nat>)
  {
    function Get(f: Field): Option<nat>
    {
      match f
      case Overall => overall
      case Residential => residential
      case NonResidential => nonResidential
      case FarmLand => farmLand
    }

    function With(f: Field, x: Option<nat>): (w: AssessedValues)
      ensures w.Get(f) == x
      ensures forall g :: g != f ==> w.Get(g) == Get(g)
    {
      match f
      case Overall => this.(overall := x)
      case Residential => this.(residential := x)
      case NonResidential => this.(nonResidential := x)
      case FarmLand => this.(farmLand := x)
    }
  }

  const NoValues: AssessedValues := AssessedValues(None, None, None, None)

  const NoInfo: string := "No assessed value information"

  const LineBreak: string := "<br>"

  /** The text in front of a component's amount. */
  function Prefix(f: Field): string
  {
    Label(f) + ": $"
  }

  /** One summary line: label, dollar sign, amount with thousands separators and no decimals. */
  function Line(f: Field, amount: nat): string
  {
    Prefix(f) + Thousands(amount)
  }

  /** The present components of rank `k` and above, in summary order. */
  function PresentFieldsFrom(v: AssessedValues, k: nat): (fs: seq<Field>)
    requires k <= FieldCount
    ensures forall f :: f in fs <==> Rank(f) >= k && v.Get(f).Some?
    ensures forall i, j :: 0 <= i < j < |fs| ==> Rank(fs[i]) < Rank(fs[j])
    decreases FieldCount - k
  {
    if k == FieldCount then []
    else
      var f := FieldOrder[k];
      var rest := PresentFieldsFrom(v, k + 1);
      if v.Get(f).Some? then [f] + rest else rest
  }

  /** Every present component, each once, in the fixed summary order. */
  function PresentFields(v: AssessedValues): seq<Field>
  {
    PresentFieldsFrom(v, 0)
  }

  /** The lines contributed by the components of rank `k` and above. */
  function LinesFrom(v: AssessedValues, k: nat): seq<string>
    requires k <= FieldCount
    decreases FieldCount - k
  {
    if k == FieldCount then []
    else
      var f := FieldOrder[k];
      var rest := LinesFrom(v, k + 1);
      if v.Get(f).Some? then [Line(f, v.Get(f).value)] + rest else rest
  }

  /** The lines from rank `k` on are, one for one, the lines of the present components from rank `k` on. */
  lemma {:induction false} LinesFromFields(v: AssessedValues, k: nat)
    requires k <= FieldCount
    ensures |LinesFrom(v, k)| == |PresentFieldsFrom(v, k)|
    ensures forall i :: 0 <= i < |LinesFrom(v, k)| ==>
      var f := PresentFieldsFrom(v, k)[i];
      v.Get(f).Some? && LinesFrom(v, k)[i] == Line(f, v.Get(f).value)
    decreases FieldCount - k
  {
    if k < FieldCount {
      LinesFromFields(v, k + 1);
    }
  }

  function PresentLines(v: AssessedValues): seq<string>
  {
    LinesFrom(v, 0)
  }

  /** A thousands-grouped amount holds only digits and commas. */
  lemma ThousandsAvoids(amount: nat, c: char)
    requires c != ',' && !IsDigit(c)
    ensures c !in Thousands(amount)
  {
    var g := Chunks(DigitsOf(amount));
    ChunksAreDigits(DigitsOf(amount));
    forall k | 0 <= k < |g| ensures c !in g[k] {
      DigitsAvoid(g[k], c);
    }
    JoinAvoids(g, ",", c);
  }

  lemma LineAvoidsBreak(f: Field, amount: nat)
    ensures '<' !in Line(f, amount)
  {
    ThousandsAvoids(amount, '<');
    assert '<' !in Prefix(f);
  }

  /** Summary lines never contain '<', so the `<br>` joints can be found again. */
  lemma LinesAvoidBreak(v: AssessedValues)
    ensures Avoids(PresentLines(v), '<')
  {
    var ls := PresentLines(v);
    LinesFromFields(v, 0);
    forall i | 0 <= i < |ls| ensures '<' !in ls[i] {
      var f := PresentFields(v)[i];
      LineAvoidsBreak(f, v.Get(f).value);
    }
  }

  lemma {:induction false} JoinAvoids(parts: seq<string>, sep: string, c: char)
    requires Avoids(parts, c) && c !in sep
    ensures c !in JoinWith(parts, sep)
    decreases |parts|
  {
    if |parts| > 1 {
      JoinAvoids(parts[1..], sep, c);
    }
  }

  /**
   * `format_assessed_value`: the sentinel when no component is present,
   * otherwise the present components' lines joined by `<br>`.
   */
  function FormatAssessedValue(v: AssessedValues): string
  {
    var lines := PresentLines(v);
    if lines == [] then NoInfo else JoinWith(lines, LineBreak)
  }

  /** No lines exactly when no component is present. */
  lemma NoLinesIffNoValues(v: AssessedValues)
    ensures PresentLines(v) == [] <==> v == NoValues
  {
    LinesFromFields(v, 0);
    if PresentLines(v) == [] {
      assert PresentFields(v) == [];
      AllAbsent(v);
    } else {
      var f := PresentFields(v)[0];
      assert f in PresentFields(v);
    }
  }

  /**
   * The summary is the sentinel when no component is present; otherwise it
   * consists of one line per present component, in summary order, each
   * separated from the next by `<br>`: an absent component adds neither a
   * line nor a separator.
   */
  lemma FormatLines(v: AssessedValues)
    ensures v == NoValues ==> FormatAssessedValue(v) == NoInfo
    ensures v != NoValues ==>
      var ls := SplitOn(FormatAssessedValue(v), LineBreak);
      var fs := PresentFields(v);
      && |ls| == |fs| >= 1
      && forall i :: 0 <= i < |ls| ==> v.Get(fs[i]).Some? && ls[i] == Line(fs[i], v.Get(fs[i]).value)
  {
    NoLinesIffNoValues(v);
    LinesFromFields(v, 0);
    if v != NoValues {
      LinesAvoidBreak(v);
      SplitJoin(PresentLines(v), LineBreak);
    }
  }

  /** A summary line read back: which component, and its amount. */
  datatype Entry = Entry(field: Field, amount: nat)

  /** Reads one summary line, trying the components of rank `k` and above. */
  function DecodeLineFrom(line: string, k: nat): (r: Option<Entry>)
    requires k <= FieldCount
    ensures r.Some? ==> Rank(r.value.field) >= k && Line(r.value.field, r.value.amount) == line
    decreases FieldCount - k
  {
    if k == FieldCount then None
    else
      var f := FieldOrder[k];
      var p := Prefix(f);
      if |p| <= |line| && line[..|p|] == p then
        match ParseThousands(line[|p|..])
        case Some(n) =>
          LineOfParsed(f, line, n);
          Some(Entry(f, n))
        case None => None
      else DecodeLineFrom(line, k + 1)
  }

  /** A line that starts with a component's prefix and ends in a well-grouped amount is that component's line. */
  lemma LineOfParsed(f: Field, line: string, n: nat)
    requires |Prefix(f)| <= |line| && line[..|Prefix(f)|] == Prefix(f)
    requires ParseThousands(line[|Prefix(f)|..]) == Some(n)
    ensures Line(f, n) == line
  {
    var p := Prefix(f);
    ThousandsOfParse(line[|p|..], n);
    assert line == p + line[|p|..];
  }

  /** Distinct components have prefixes that differ in their first character. */
  lemma PrefixesDiffer(f: Field, g: Field)
    requires f != g
    ensures |Prefix(f)| >= 3 && |Prefix(g)| >= 3 && Prefix(f)[0] != Prefix(g)[0]
  {
  }

  /** No prefix begins like the sentinel text. */
  lemma PrefixNotNoInfo(f: Field)
    ensures |Prefix(f)| >= 3 && Prefix(f)[..3] != NoInfo[..3]
  {
    match f
    case Overall => assert Prefix(f)[0] == 'A' && NoInfo[0] == 'N';
    case Residential => assert Prefix(f)[0] == 'R' && NoInfo[0] == 'N';
    case NonResidential => assert Prefix(f)[2] == 'n' && NoInfo[2] == ' ';
    case FarmLand => assert Prefix(f)[0] == 'F' && NoInfo[0] == 'N';
  }

  function DecodeLine(line: string): Option<Entry>
  {
    DecodeLineFrom(line, 0)
  }

  /**
   * Reads a sequence of summary lines into the components they state; the
   * components must appear in strictly increasing summary order, starting
   * at rank `k` or later.
   */
  function DecodeLines(lines: seq<string>, k: nat): Option<AssessedValues>
    decreases |lines|
  {
    if lines == [] then Some(NoValues)
    else
      match DecodeLine(lines[0])
      case None => None
      case Some(e) =>
        if Rank(e.field) < k then None
        else
          match DecodeLines(lines[1..], Rank(e.field) + 1)
          case None => None
          case Some(w) => Some(w.With(e.field, Some(e.amount)))
  }

  /** Reads a summary back into the four components; `None` for text no summary can be. */
  function DecodeSummary(s: string): Option<AssessedValues>
  {
    if s == NoInfo then Some(NoValues)
    else DecodeLines(SplitOn(s, LineBreak), 0)
  }

  /** The labels start with distinct letters, so a line is only ever read as its own component. */
  lemma {:induction false} DecodeLineOfLine(f: Field, n: nat, k: nat)
    requires k <= Rank(f)
    ensures DecodeLineFrom(Line(f, n), k) == Some(Entry(f, n))
    decreases Rank(f) - k
  {
    var line := Line(f, n);
    var g := FieldOrder[k];
    var p := Prefix(g);
    assert line == Prefix(f) + Thousands(n);
    if k == Rank(f) {
      assert line[..|p|] == p;
      assert line[|p|..] == Thousands(n);
      ParseThousandsRoundTrip(n);
    } else {
      PrefixesDiffer(f, g);
      assert line[0] == Prefix(f)[0];
      DecodeLineOfLine(f, n, k + 1);
    }
  }

  /** Lines depend only on the components at or above the starting rank. */
  lemma {:induction false} LinesFromAgree(v: AssessedValues, w: AssessedValues, k: nat)
    requires k <= FieldCount
    requires forall f :: Rank(f) >= k ==> v.Get(f) == w.Get(f)
    ensures LinesFrom(v, k) == LinesFrom(w, k)
    decreases FieldCount - k
  {
    if k < FieldCount {
      assert Rank(FieldOrder[k]) == k;
      LinesFromAgree(v, w, k + 1);
    }
  }

  /** Absent components contribute no lines. */
  lemma {:induction false} LinesFromSkip(v: AssessedValues, m: nat, r: nat)
    requires m <= r <= FieldCount
    requires forall f :: m <= Rank(f) < r ==> v.Get(f).None?
    ensures LinesFrom(v, m) == LinesFrom(v, r)
    decreases r - m
  {
    if m < r {
      assert Rank(FieldOrder[m]) == m;
      LinesFromSkip(v, m + 1, r);
    }
  }

  lemma AllAbsent(v: AssessedValues)
    requires forall f :: v.Get(f).None?
    ensures v == NoValues
  {
    assert v.Get(Overall).None? && v.Get(Residential).None?;
    assert v.Get(NonResidential).None? && v.Get(FarmLand).None?;
  }

  /** Unfolds `LinesFrom` at a present component. */
  lemma LinesFromPresent(v: AssessedValues, k: nat)
    requires k < FieldCount && v.Get(FieldOrder[k]).Some?
    ensures LinesFrom(v, k) == [Line(FieldOrder[k], v.Get(FieldOrder[k]).value)] + LinesFrom(v, k + 1)
  {
  }

  /** Unfolds `LinesFrom` at an absent component. */
  lemma LinesFromAbsent(v: AssessedValues, k: nat)
    requires k < FieldCount && v.Get(FieldOrder[k]).None?
    ensures LinesFrom(v, k) == LinesFrom(v, k + 1)
  {
  }

  lemma WithRestores(v: AssessedValues, f: Field)
    ensures v.With(f, None).With(f, v.Get(f)) == v
  {
    var u := v.With(f, None).With(f, v.Get(f));
    assert u.Get(Overall) == v.Get(Overall) && u.Get(Residential) == v.Get(Residential);
    assert u.Get(NonResidential) == v.Get(NonResidential) && u.Get(FarmLand) == v.Get(FarmLand);
  }

  /** One step of `DecodeLines`: an accepted first line sets its component on top of the rest. */
  lemma DecodeLinesCons(line: string, rest: seq<string>, m: nat, e: Entry, w: AssessedValues)
    requires DecodeLine(line) == Some(e) && Rank(e.field) >= m
    requires DecodeLines(rest, Rank(e.field) + 1) == Some(w)
    ensures DecodeLines([line] + rest, m) == Some(w.With(e.field, Some(e.amount)))
  {
    assert ([line] + rest)[1..] == rest;
  }

  /** The inductive step of `DecodeLinesFrom` at a present component. */
  lemma DecodeLinesPresent(v: AssessedValues, k: nat, m: nat)
    requires m <= k < FieldCount
    requires v.Get(FieldOrder[k]).Some?
    requires DecodeLines(LinesFrom(v.With(FieldOrder[k], None), k + 1), k + 1) == Some(v.With(FieldOrder[k], None))
    ensures DecodeLines(LinesFrom(v, k), m) == Some(v)
  {
    var f := FieldOrder[k];
    assert Rank(f) == k;
    var n := v.Get(f).value;
    var w := v.With(f, None);
    LinesFromAgree(v, w, k + 1);
    DecodeLineOfLine(f, n, 0);
    LinesFromPresent(v, k);
    DecodeLinesCons(Line(f, n), LinesFrom(w, k + 1), m, Entry(f, n), w);
    WithRestores(v, f);
  }

  lemma {:induction false} DecodeLinesFrom(v: AssessedValues, k: nat, m: nat)
    requires m <= k <= FieldCount
    requires forall f :: Rank(f) < k ==> v.Get(f).None?
    ensures DecodeLines(LinesFrom(v, k), m) == Some(v)
    decreases FieldCount - k
  {
    if k == FieldCount {
      AllAbsent(v);
    } else {
      var f := FieldOrder[k];
      assert Rank(f) == k;
      if v.Get(f).None? {
        LinesFromAbsent(v, k);
        DecodeLinesFrom(v, k + 1, m);
      } else {
        DecodeLinesFrom(v.With(f, None), k + 1, k + 1);
        DecodeLinesPresent(v, k, m);
      }
    }
  }

  lemma JoinStartsWith(parts: seq<string>, sep: string)
    requires |parts| >= 1
    ensures parts[0] <= JoinWith(parts, sep)
  {
  }

  /** No summary with a present component can be mistaken for the sentinel. */
  lemma LinesAreNotNoInfo(v: AssessedValues)
    requires v != NoValues
    ensures JoinWith(PresentLines(v), LineBreak) != NoInfo
  {
    var lines := PresentLines(v);
    LinesFromFields(v, 0);
    var f := PresentFields(v)[0];
    var s := JoinWith(lines, LineBreak);
    JoinStartsWith(lines, LineBreak);
    var p := Prefix(f);
    assert p <= lines[0];
    assert p <= s;
    PrefixNotNoInfo(f);
    assert s[..3] == p[..3];
  }

  /** Round trip: the summary loses nothing, the decoder recovers every component. */
  lemma DecodeFormat(v: AssessedValues)
    ensures DecodeSummary(FormatAssessedValue(v)) == Some(v)
  {
    if v != NoValues {
      var lines := PresentLines(v);
      LinesAreNotNoInfo(v);
      LinesAvoidBreak(v);
      SplitJoin(lines, LineBreak);
      DecodeLinesFrom(v, 0, 0);
    }
  }

  /** The inductive step of `DecodeLinesInverse`, for a first line naming component `e.field`. */
  lemma DecodeLinesInverseStep(lines: seq<string>, m: nat, e: Entry, w: AssessedValues)
    requires m <= FieldCount && |lines| >= 1
    requires Line(e.field, e.amount) == lines[0] && Rank(e.field) >= m
    requires forall f :: Rank(f) < Rank(e.field) + 1 ==> w.Get(f).None?
    requires LinesFrom(w, Rank(e.field) + 1) == lines[1..]
    ensures forall f :: Rank(f) < m ==> w.With(e.field, Some(e.amount)).Get(f).None?
    ensures LinesFrom(w.With(e.field, Some(e.amount)), m) == lines
  {
    var f := e.field;
    var r := Rank(f);
    var v := w.With(f, Some(e.amount));
    LinesFromSkip(v, m, r);
    LinesFromAgree(v, w, r + 1);
    LinesFromPresent(v, r);
    assert [lines[0]] + lines[1..] == lines;
  }

  lemma {:induction false} DecodeLinesInverse(lines: seq<string>, m: nat, v: AssessedValues)
    requires m <= FieldCount
    requires DecodeLines(lines, m) == Some(v)
    ensures forall f :: Rank(f) < m ==> v.Get(f).None?
    ensures LinesFrom(v, m) == lines
    decreases |lines|
  {
    if lines == [] {
      assert v == NoValues;
      LinesFromSkip(v, m, FieldCount);
    } else {
      var e := DecodeLine(lines[0]).value;
      var w := DecodeLines(lines[1..], Rank(e.field) + 1).value;
      DecodeLinesInverse(lines[1..], Rank(e.field) + 1, w);
      DecodeLinesInverseStep(lines, m, e, w);
    }
  }

  /** Converse round trip: whatever the decoder accepts is exactly the summary of what it returns. */
  lemma FormatOfDecode(s: string, v: AssessedValues)
    requires DecodeSummary(s) == Some(v)
    ensures FormatAssessedValue(v) == s
  {
    if s != NoInfo {
      var lines := SplitOn(s, LineBreak);
      DecodeLinesInverse(lines, 0, v);
      var e := DecodeLine(lines[0]).value;
      assert v.Get(e.field).Some? by {
        var w := DecodeLines(lines[1..], Rank(e.field) + 1).value;
        assert v == w.With(e.field, Some(e.amount));
      }
      assert v != NoValues;
      assert PresentLines(v) == lines;
      JoinSplit(s, LineBreak);
    }
  }

  /** The sentinel appears exactly when every component is absent. */
  lemma NoInfoIffAllAbsent(v: AssessedValues)
    ensures FormatAssessedValue(v) == NoInfo <==> (forall f :: v.Get(f).None?)
  {
    DecodeFormat(v);
    if forall f :: v.Get(f).None? {
      AllAbsent(v);
    }
  }
}
