/**
 * Load-time normalisation of property records: numeric coercion of the four
 * assessed-value columns, then the per-record summary computed once from
 * the coerced values.
 */
module Normalize {
  import opened Wrappers
  import opened Decimal
  import opened Assessment

  /** An assessed-value cell as delivered by the data source. */
  datatype RawValue =
    | Missing                 // no such column, or no value in this row
    | Text(text: string)      // a string-encoded value
    | Number(amount: nat)     // an already numeric value

  /** A property record as loaded, before normalisation. */
  datatype RawProperty = RawProperty(
    commCode: string,
    commName: string,
    address: string,
    classDescription: string,
    assessed: RawValue,
    residential: RawValue,
    nonResidential: RawValue,
    farmLand: RawValue)
  {
    function Raw(f: Field): RawValue
    {
      match f
      case Overall => assessed
      case Residential => residential
      case NonResidential => nonResidential
      case FarmLand => farmLand
    }

    function WithRaw(f: Field, c: RawValue): (r: RawProperty)
      ensures r.Raw(f) == c
      ensures forall g :: g != f ==> r.Raw(g) == Raw(g)
      ensures r.commCode == commCode && r.commName == commName
    {
      match f
      case Overall => this.(assessed := c)
      case Residential => this.(residential := c)
      case NonResidential => this.(nonResidential := c)
      case FarmLand => this.(farmLand := c)
    }
  }

  /** A normalised property record, carrying its precomputed summary. */
  datatype Property = Property(
    commCode: string,
    commName: string,
    address: string,
    classDescription: string,
    values: AssessedValues,
    summary: string)

  /** The summary a record carries is the one its values produce. */
  predicate Consistent(p: Property)
  {
    p.summary == FormatAssessedValue(p.values)
  }

  /**
   * `pd.to_numeric(..., errors='coerce')` on one cell: a number stays, a
   * string of digits becomes its value, and anything else becomes absent
   * (never zero).
   */
  function Coerce(c: RawValue): (r: Option<nat>)
    ensures c.Missing? ==> r.None?
    ensures c.Number? ==> r == Some(c.amount)
    ensures c.Text? ==> (r.Some? <==> |c.text| >= 1 && AllDigits(c.text))
    ensures c.Text? && r.Some? ==> r.value == ValueOf(c.text)
  {
    match c
    case Missing => None
    case Text(s) => ParseDecimal(s)
    case Number(n) => Some(n)
  }

  /** A value written out in decimal coerces back to itself. */
  lemma CoerceRendered(n: nat)
    ensures Coerce(Text(DigitsOf(n))) == Some(n)
  {
    ParseDigitsOf(n);
  }

  function CoerceAll(raw: RawProperty): (v: AssessedValues)
    ensures forall f :: v.Get(f) == Coerce(raw.Raw(f))
  {
    AssessedValues(Coerce(raw.assessed), Coerce(raw.residential), Coerce(raw.nonResidential), Coerce(raw.farmLand))
  }

  /** Normalises one record: coerce the four values, then compute the summary from them. */
  function LoadProperty(raw: RawProperty): (p: Property)
    ensures Consistent(p)
    ensures p.commCode == raw.commCode && p.commName == raw.commName
    ensures p.address == raw.address && p.classDescription == raw.classDescription
    ensures forall f :: p.values.Get(f) == Coerce(raw.Raw(f))
  {
    var v := CoerceAll(raw);
    Property(raw.commCode, raw.commName, raw.address, raw.classDescription, v, FormatAssessedValue(v))
  }

  /** Normalises every record, keeping their order. */
  function LoadProperties(raws: seq<RawProperty>): (ps: seq<Property>)
    ensures |ps| == |raws|
    ensures forall i :: 0 <= i < |ps| ==> Consistent(ps[i])
    ensures forall i :: 0 <= i < |ps| ==>
      ps[i].commCode == raws[i].commCode && ps[i].commName == raws[i].commName
    ensures forall i :: 0 <= i < |ps| ==> ps[i] == LoadProperty(raws[i])
  {
    seq(|raws|, i requires 0 <= i < |raws| => LoadProperty(raws[i]))
  }

  /**
   * A value that fails to parse is treated exactly like a missing one: the
   * record's summary is the same either way.
   */
  lemma UnparseableIsAbsent(raw: RawProperty, f: Field)
    requires raw.Raw(f).Text? && ParseDecimal(raw.Raw(f).text).None?
    ensures LoadProperty(raw).values == LoadProperty(raw.WithRaw(f, Missing)).values
    ensures LoadProperty(raw).summary == LoadProperty(raw.WithRaw(f, Missing)).summary
  {
    var u := LoadProperty(raw).values;
    var w := LoadProperty(raw.WithRaw(f, Missing)).values;
    assert u.Get(Overall) == w.Get(Overall) && u.Get(Residential) == w.Get(Residential);
    assert u.Get(NonResidential) == w.Get(NonResidential) && u.Get(FarmLand) == w.Get(FarmLand);
  }

  /** Zero is a real assessed value: it is shown, unlike a missing value. */
  lemma ZeroIsShown(raw: RawProperty)
    requires raw.assessed == Number(0)
    ensures LoadProperty(raw).summary != NoInfo
  {
    var v := LoadProperty(raw).values;
    NoInfoIffAllAbsent(v);
    assert v.Get(Overall).Some?;
  }

  /** A record all of whose values are missing or unparseable gets the sentinel summary. */
  lemma AllUnusableGivesNoInfo(raw: RawProperty)
    requires forall f :: Coerce(raw.Raw(f)).None?
    ensures LoadProperty(raw).summary == NoInfo
  {
    NoInfoIffAllAbsent(LoadProperty(raw).values);
  }
}
