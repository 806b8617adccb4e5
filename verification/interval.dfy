/**
 The two interval conversions the HTTP handlers in app.py perform on a stored
 interval of whole seconds: the detail view's conversion back to a
 `(value, unit)` pair, and the list view's truncated one-unit label.
 */
module Interval {

  import opened Optional
  import Decimal

  datatype Unit = Seconds | Minutes | Hours

  function UnitSeconds(u: Unit): (n: nat) {
    match u
    case Seconds => 1
    case Minutes => 60
    case Hours => 3600
  }

  /** The unit's name as the detail response spells it. */
  function UnitName(u: Unit): (name: string) {
    match u
    case Seconds => "seconds"
    case Minutes => "minutes"
    case Hours => "hours"
  }

  /** An interval written as a count of one unit. */
  datatype Quantity = Quantity(value: nat, unit: Unit)

  function TotalSeconds(q: Quantity): (total: nat) {
    q.value * UnitSeconds(q.unit)
  }

  /** `u` measures `total` as a whole, positive number of units. */
  predicate Measures(u: Unit, total: nat) {
    total >= UnitSeconds(u) && total % UnitSeconds(u) == 0
  }

  /** The detail view's conversion: hours if they measure the total, else minutes, else seconds. */
  function Denormalize(total: nat): (q: Quantity)
    ensures TotalSeconds(q) == total
  {
    if total >= 3600 && total % 3600 == 0 then Quantity(total / 3600, Hours)
    else if total >= 60 && total % 60 == 0 then Quantity(total / 60, Minutes)
    else Quantity(total, Seconds)
  }

  /**
   The unit chosen is the largest one that measures the total; seconds (carrying
   the whole total, zero included) when none does.
   */
  lemma DenormalizeLargestUnit(total: nat)
    ensures var q := Denormalize(total);
      && (q.unit == Hours <==> Measures(Hours, total))
      && (q.unit == Minutes <==> Measures(Minutes, total) && !Measures(Hours, total))
      && (q.unit == Seconds ==> q.value == total)
      && (forall u :: Measures(u, total) ==> UnitSeconds(u) <= UnitSeconds(q.unit))
  {
  }

  /** A quantity already in the form the detail view produces. */
  predicate Reduced(q: Quantity) {
    match q.unit
    case Seconds => q.value == 0 || q.value % 60 != 0
    case Minutes => q.value >= 1 && q.value % 60 != 0
    case Hours => q.value >= 1
  }

  lemma {:induction false} MinutesToHours(v: nat)
    ensures (v * 60) % 3600 == 0 <==> v % 60 == 0
    ensures v % 60 == 0 ==> (v * 60) / 3600 == v / 60
  {
    var k := v / 60;
    var m := v % 60;
    assert v == 60 * k + m;
    assert v * 60 == 3600 * k + 60 * m;
    assert 0 <= 60 * m < 3600;
  }

  /**
   Converting a quantity to seconds and back returns that same quantity exactly
   when it is reduced; every other quantity comes back as an equal number of seconds.
   */
  lemma {:induction false} DenormalizeOfTotal(q: Quantity)
    ensures Denormalize(TotalSeconds(q)) == q <==> Reduced(q)
    ensures TotalSeconds(Denormalize(TotalSeconds(q))) == TotalSeconds(q)
  {
    match q.unit {
      case Hours => DenormalizeHours(q.value);
      case Minutes => DenormalizeMinutes(q.value);
      case Seconds => DenormalizeSeconds(q.value);
    }
  }

  lemma DenormalizeHours(v: nat)
    ensures Denormalize(v * 3600) == Quantity(v, Hours) <==> v >= 1
  {
    assert (v * 3600) / 3600 == v;
  }

  lemma DenormalizeMinutes(v: nat)
    ensures Denormalize(v * 60) == Quantity(v, Minutes) <==> v >= 1 && v % 60 != 0
  {
    MinutesToHours(v);
    assert (v * 60) / 60 == v;
  }

  lemma DenormalizeSeconds(v: nat)
    ensures Denormalize(v) == Quantity(v, Seconds) <==> v == 0 || v % 60 != 0
  {
    if v >= 3600 && v % 3600 == 0 {
      assert v % 60 == 0 by {
        assert v == 60 * (60 * (v / 3600));
      }
    }
  }

  /** The list view's bucket: seconds below a minute, minutes below an hour, hours from there on, each truncated. */
  function DisplayQuantity(total: nat): (q: Quantity)
    ensures TotalSeconds(q) <= total < TotalSeconds(q) + UnitSeconds(q.unit)
    ensures total < 60 <==> q.unit == Seconds
    ensures total >= 3600 <==> q.unit == Hours
  {
    if total < 60 then Quantity(total, Seconds)
    else if total < 3600 then Quantity(total / 60, Minutes)
    else Quantity(total / 3600, Hours)
  }

  /**
   The bucket is the largest unit not exceeding the total, and the shown value
   is the only count of that unit lying within one unit below the total.
   */
  lemma DisplayLargestUnitNotExceeding(total: nat)
    ensures var q := DisplayQuantity(total);
      && (UnitSeconds(q.unit) <= total || q.unit == Seconds)
      && (forall u :: UnitSeconds(u) <= total ==> UnitSeconds(u) <= UnitSeconds(q.unit))
      && (total > 0 ==> q.value >= 1)
      && (forall v: nat :: v * UnitSeconds(q.unit) <= total < (v + 1) * UnitSeconds(q.unit) ==> v == q.value)
  {
    var q := DisplayQuantity(total);
    forall v: nat | v * UnitSeconds(q.unit) <= total < (v + 1) * UnitSeconds(q.unit)
      ensures v == q.value
    {
      FloorUnique(total, UnitSeconds(q.unit), v);
    }
  }

  /** A count whose unit-multiple lies within one unit below the total is the truncated quotient. */
  lemma FloorUnique(total: nat, n: nat, v: nat)
    requires n > 0
    requires v * n <= total < (v + 1) * n
    ensures v == total / n
  {
    var d := total / n;
    var r := total % n;
    assert total == d * n + r;
    var k: int := d - v;
    assert k * n == (total - v * n) - r;
    MultipleBounds(k, n);
  }

  lemma MultipleBounds(k: int, n: nat)
    ensures k >= 1 ==> k * n >= n
    ensures k <= -1 ==> k * n <= -(n as int)
  {
    assert k * n - n == (k - 1) * n;
    assert k * n + n == (k + 1) * n;
  }

  /**
   The list view and the detail view show the same pair exactly when the total
   is under a minute, a whole number of minutes under an hour, or a whole number of hours.
   */
  lemma DisplayAgreesWithDetail(total: nat)
    ensures DisplayQuantity(total) == Denormalize(total)
        <==> total < 60 || (total < 3600 && total % 60 == 0) || total % 3600 == 0
  {
  }

  /** The suffix the list view appends: Korean for second, minute and hour. */
  function UnitSuffix(u: Unit): (suffix: string) {
    match u
    case Seconds => "\U{CD08}"
    case Minutes => "\U{BD84}"
    case Hours => "\U{C2DC}\U{AC04}"
  }

  /** A quantity as the list view writes it: the count in decimal, then the unit's suffix. */
  function ShowQuantity(q: Quantity): (text: string) {
    Decimal.Show(q.value) + UnitSuffix(q.unit)
  }

  /** The list view's interval text for a stored total. */
  function DisplayLabel(total: nat): (shown: string) {
    ShowQuantity(DisplayQuantity(total))
  }

  /** The label is the bucket's count in decimal followed by the bucket's unit suffix. */
  lemma DisplayLabelParts(total: nat)
    ensures var q := DisplayQuantity(total);
      var shown := DisplayLabel(total);
      var k := |UnitSuffix(q.unit)|;
      && k < |shown|
      && shown[|shown| - k..] == UnitSuffix(q.unit)
      && Decimal.Parse(shown[..|shown| - k]) == Some(q.value)
  {
    var q := DisplayQuantity(total);
    var text := DisplayLabel(total);
    Decimal.ParseShow(q.value);
    assert text[..|text| - |UnitSuffix(q.unit)|] == Decimal.Show(q.value);
  }

  function ParseQuantity(digits: string, u: Unit): (q: Option<Quantity>) {
    match Decimal.Parse(digits)
    case Some(n) => Some(Quantity(n, u))
    case None => None
  }

  /** Reads a label back into the count and unit it shows; `None` for text no label can be. */
  function ParseLabel(s: string): (q: Option<Quantity>) {
    if |s| >= 2 && s[|s| - 2..] == UnitSuffix(Hours) then ParseQuantity(s[..|s| - 2], Hours)
    else if |s| >= 1 && s[|s| - 1..] == UnitSuffix(Minutes) then ParseQuantity(s[..|s| - 1], Minutes)
    else if |s| >= 1 && s[|s| - 1..] == UnitSuffix(Seconds) then ParseQuantity(s[..|s| - 1], Seconds)
    else None
  }

  /** A label carries the whole truncated quantity: reading it back gives the bucket and count. */
  lemma LabelRoundTrip(total: nat)
    ensures ParseLabel(DisplayLabel(total)) == Some(DisplayQuantity(total))
  {
    ShowQuantityRoundTrip(DisplayQuantity(total));
  }

  /** Any quantity's written form reads back as that quantity. */
  lemma ShowQuantityRoundTrip(q: Quantity)
    ensures ParseLabel(ShowQuantity(q)) == Some(q)
  {
    var d := Decimal.Show(q.value);
    Decimal.ParseShow(q.value);
    assert Decimal.IsDigit(d[|d| - 1]);
    SplitSuffix(d, UnitSuffix(q.unit));
    var s := ShowQuantity(q);
    match q.unit {
      case Hours =>
        assert s[|s| - 2..] == UnitSuffix(Hours);
      case Minutes =>
        assert s[|s| - 2..] != UnitSuffix(Hours) by {
          assert s[|s| - 1] == UnitSuffix(Minutes)[0];
        }
      case Seconds =>
        assert s[|s| - 2..] != UnitSuffix(Hours) by {
          assert s[|s| - 1] == UnitSuffix(Seconds)[0];
        }
        assert s[|s| - 1..] != UnitSuffix(Minutes);
    }
  }

  /** Text followed by a suffix splits back into the two. */
  lemma SplitSuffix(d: string, suffix: string)
    ensures var s := d + suffix; s[..|d|] == d && s[|d|..] == suffix
  {
  }

  /** Every text the parser accepts is exactly how the quantity it reads is written, so distinct quantities get distinct labels. */
  lemma ParseLabelOnlyLabels(s: string)
    ensures ParseLabel(s).Some? ==> ShowQuantity(ParseLabel(s).value) == s
  {
    if ParseLabel(s).Some? {
      var k := if |s| >= 2 && s[|s| - 2..] == UnitSuffix(Hours) then 2 else 1;
      Decimal.ShowParse(s[..|s| - k]);
      assert s == s[..|s| - k] + s[|s| - k..];
    }
  }
}
