/** `FilesizeUnits`: byte units in powers of 1024, their abbreviations, conversions between
    them, and the choice of unit for a human-readable size. */
module FilesizeUnits {
  import opened PyStr

  /** The members, in declaration order. */
  datatype Unit = BYTES | KILOBYTES | MEGABYTES | GIGABYTES | TERABYTES | PETABYTES

  const AllUnits: seq<Unit> := [BYTES, KILOBYTES, MEGABYTES, GIGABYTES, TERABYTES, PETABYTES]

  /** The member's value. */
  function Value(u: Unit): nat {
    match u
    case BYTES => 0
    case KILOBYTES => 1
    case MEGABYTES => 2
    case GIGABYTES => 3
    case TERABYTES => 4
    case PETABYTES => 5
  }

  /** The member's name. */
  function Name(u: Unit): string {
    match u
    case BYTES => "BYTES"
    case KILOBYTES => "KILOBYTES"
    case MEGABYTES => "MEGABYTES"
    case GIGABYTES => "GIGABYTES"
    case TERABYTES => "TERABYTES"
    case PETABYTES => "PETABYTES"
  }

  function Pow(b: nat, e: nat): (r: nat)
    ensures r >= 1 || b == 0
  {
    if e == 0 then 1 else b * Pow(b, e - 1)
  }

  /** `factor`: `1024 ** value`, written out per member (`FactorIsPower`). */
  function Factor(u: Unit): (r: nat) {
    match u
    case BYTES => 1
    case KILOBYTES => 1024
    case MEGABYTES => 1048576
    case GIGABYTES => 1073741824
    case TERABYTES => 1099511627776
    case PETABYTES => 1125899906842624
  }

  /** Each member's factor is 1024 to the power of its value. */
  lemma FactorIsPower(u: Unit)
    ensures Factor(u) == Pow(1024, Value(u))
  {
    assert Pow(1024, 1) == 1024;
    assert Pow(1024, 2) == 1048576;
    assert Pow(1024, 3) == 1073741824;
    assert Pow(1024, 4) == 1099511627776;
  }

  /** `str(unit)`: the upper-cased initial, followed by `B` unless the initial is `B` itself. */
  function Str(u: Unit): string {
    var firstChar := Upper([Name(u)[0]]);
    if StartsWith(firstChar, "B") then firstChar else firstChar + "B"
  }

  /** The abbreviations are B, KB, MB, GB, TB and PB. */
  lemma UnitNames()
    ensures Str(BYTES) == "B" && Str(KILOBYTES) == "KB" && Str(MEGABYTES) == "MB"
    ensures Str(GIGABYTES) == "GB" && Str(TERABYTES) == "TB" && Str(PETABYTES) == "PB"
  {
  }

  /** Each unit is 1024 times the one before it. */
  lemma FactorStep(i: nat)
    requires i + 1 < |AllUnits|
    ensures Factor(AllUnits[i + 1]) == 1024 * Factor(AllUnits[i])
    ensures Factor(AllUnits[i]) >= 1
  {
  }

  /** `unit.from_bytes(n)`. */
  function FromBytes(u: Unit, n: int): real {
    if u == BYTES then n as real else n as real / Factor(u) as real
  }

  /** `unit.to_bytes(x)`. */
  function ToBytes(u: Unit, x: real): int {
    if u == BYTES then Trunc(x) else Trunc(x * Factor(u) as real)
  }

  /** `self.from_unit(x, unit)`: from `unit` into `self`. */
  function FromUnit(self: Unit, x: real, unit: Unit): real {
    if self == unit then x else FromBytes(self, ToBytes(unit, x))
  }

  /** `self.to_unit(x, unit)`: from `self` into `unit`. */
  function ToUnit(self: Unit, x: real, unit: Unit): real {
    if self == unit then x else FromBytes(unit, ToBytes(self, x))
  }

  /** The special case for bytes agrees with the general rule. */
  lemma ToBytesUniform(u: Unit, x: real)
    ensures ToBytes(u, x) == Trunc(x * Factor(u) as real)
    ensures FromBytes(u, ToBytes(u, x)) * Factor(u) as real == ToBytes(u, x) as real
  {
  }

  /** A whole number of bytes converted into a unit and back is the same number. */
  lemma BytesRoundTrip(u: Unit, n: int)
    ensures ToBytes(u, FromBytes(u, n)) == n
  {
    FromBytesScale(u, n);
    TruncWhole(n);
  }

  /** Converting from one unit into another is converting into the first from the second
      the other way round. */
  lemma ToUnitIsFromUnit(a: Unit, b: Unit, x: real)
    ensures ToUnit(a, x, b) == FromUnit(b, x, a)
  {
  }

  /** A whole count of a unit goes into any smaller unit without loss. */
  lemma FromUnitExact(self: Unit, k: int, unit: Unit)
    requires Factor(self) <= Factor(unit)
    ensures FromUnit(self, k as real, unit) * Factor(self) as real == (k * Factor(unit)) as real
  {
    if self != unit {
      var whole := k * Factor(unit);
      assert k as real * Factor(unit) as real == whole as real;
      TruncWhole(whole);
      assert ToBytes(unit, k as real) == whole;
      FromBytesScale(self, whole);
    }
  }

  lemma FromBytesScale(u: Unit, n: int)
    ensures FromBytes(u, n) * Factor(u) as real == n as real
  {
    assert Factor(u) >= 1;
  }

  /** `FilesizeUnits.get_factors()`: one `(factor, unit)` pair per member, in declaration order. */
  function GetFactors(): (r: seq<(int, Unit)>)
    ensures |r| == |AllUnits|
    ensures forall i :: 0 <= i < |r| ==> r[i] == (Factor(AllUnits[i]), AllUnits[i])
  {
    seq(|AllUnits|, i requires 0 <= i < |AllUnits| => (Factor(AllUnits[i]), AllUnits[i]))
  }

  /** Every member appears once, and the factors strictly increase. */
  lemma FactorsIncrease()
    ensures forall u :: u in AllUnits
    ensures forall i, j :: 0 <= i < j < |GetFactors()| ==> GetFactors()[i].0 < GetFactors()[j].0
  {
    forall u ensures u in AllUnits {
      assert AllUnits[Value(u)] == u;
    }
    var f := GetFactors();
    forall i | 0 <= i < |f| - 1 ensures f[i].0 < f[i + 1].0 {
      FactorStep(i);
    }
    forall i, j | 0 <= i < j < |f| ensures f[i].0 < f[j].0 {
      var k := i;
      while k < j
        invariant i <= k <= j && f[i].0 <= f[k].0 && (k > i ==> f[i].0 < f[k].0)
      {
        k := k + 1;
      }
    }
  }

  function Reversed<T>(xs: seq<T>): (r: seq<T>)
    ensures |r| == |xs| && forall i :: 0 <= i < |xs| ==> r[i] == xs[|xs| - 1 - i]
  {
    seq(|xs|, i requires 0 <= i < |xs| => xs[|xs| - 1 - i])
  }

  /** The unit `human_readable_string(n)` prints in: the largest whose factor is at most `n`,
      and `BYTES` when none is. */
  method HumanReadableUnit(filesizeInBytes: int) returns (unit: Unit)
    ensures filesizeInBytes < 1 ==> unit == BYTES
    ensures filesizeInBytes >= 1 ==> Factor(unit) <= filesizeInBytes
    ensures forall u :: Factor(u) <= filesizeInBytes ==> Factor(u) <= Factor(unit)
  {
    var factors := GetFactors();
    factors := Reversed(factors);
    unit := BYTES;
    var i := 0;
    while i < |factors|
      invariant 0 <= i <= |factors| == |AllUnits|
      invariant forall u :: Value(u) > 5 - i ==> filesizeInBytes < Factor(u)
      invariant i > 0 ==> unit == AllUnits[6 - i]
    {
      DescendingAt(i);
      unit := factors[i].1;
      if filesizeInBytes >= factors[i].0 {
        break;
      }
      i := i + 1;
    }
    forall u | Factor(u) <= filesizeInBytes
      ensures Factor(u) <= Factor(unit)
    {
      FactorMonotone(u, unit);
    }
  }

  /** Position `i` of the reversed factors holds the member of value `5 - i` and its factor. */
  lemma DescendingAt(i: nat)
    requires i < |AllUnits|
    ensures var u := AllUnits[5 - i];
      Reversed(GetFactors())[i] == (Factor(u), u) && Value(u) == 5 - i
  {
  }

  /** A member with a smaller value has a smaller factor. */
  lemma FactorMonotone(a: Unit, b: Unit)
    ensures Value(a) <= Value(b) <==> Factor(a) <= Factor(b)
  {
  }
}
