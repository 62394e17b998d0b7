/**
 The band table, the per-antenna band masks, and the allow/block decision (`src/policy.c`).
 */
module Policy {
  import opened Text

  /** The values of a C `double` that the comparisons can tell apart; zeros are one value. */
  datatype Double = Finite(value: real) | PosInf | NegInf | NaN {

    /** `edge <= this`; every comparison with a NaN is false. */
    predicate AtLeast(edge: real) {
      PosInf? || (Finite? && edge <= value)
    }

    /** `this <= edge`. */
    predicate AtMost(edge: real) {
      NegInf? || (Finite? && value <= edge)
    }
  }

  datatype Band = Band(name: string, lower: real, upper: real) {
    predicate Contains(f: Double) {
      f.AtLeast(lower) && f.AtMost(upper)
    }
  }

  const BAND_COUNT := 11

  const MAX_ANTENNAS := 8

  /** The longest antenna name, in the configuration and from the radio. */
  const MAX_ANTENNA_ID := 31

  /** The edges are the exact values of the doubles that the decimal literals denote. */
  const BANDS: seq<Band> := [
    Band("160m", 1.8000000000000000444089209850062616169452667236328125, 2.0),
    Band("80m", 3.5, 4.0),
    Band("60m", 5.25, 5.45000000000000017763568394002504646778106689453125),
    Band("40m", 7.0, 7.29999999999999982236431605997495353221893310546875),
    Band("30m", 10.0999999999999996447286321199499070644378662109375,
         10.1500000000000003552713678800500929355621337890625),
    Band("20m", 14.0, 14.3499999999999996447286321199499070644378662109375),
    Band("17m", 18.068000000000001392663762089796364307403564453125,
         18.16799999999999926103555480949580669403076171875),
    Band("15m", 21.0, 21.449999999999999289457264239899814128875732421875),
    Band("12m", 24.8900000000000005684341886080801486968994140625,
         24.989999999999998436805981327779591083526611328125),
    Band("10m", 28.0, 29.699999999999999289457264239899814128875732421875),
    Band("6m", 50.0, 54.0)
  ]

  /** The table as the program writes it, in kHz. */
  const BAND_LITERALS: seq<(string, int, int)> := [
    ("160m", 1800, 2000), ("80m", 3500, 4000), ("60m", 5250, 5450), ("40m", 7000, 7300), ("30m", 10100, 10150),
    ("20m", 14000, 14350), ("17m", 18068, 18168), ("15m", 21000, 21450), ("12m", 24890, 24990),
    ("10m", 28000, 29700), ("6m", 50000, 54000)
  ]

  /** The integer nearest to `literal`, with the 53 binary digits of a double. */
  predicate NearestMantissa(mantissa: real, literal: real) {
    && 4503599627370496.0 <= mantissa < 9007199254740992.0 && mantissa.Floor as real == mantissa
    && -0.5 <= mantissa - literal <= 0.5
  }

  /** `x`, between 1 and 64, is a double, and none is nearer to `literal`. */
  predicate NearestDouble(x: real, literal: real) {
    if x < 2.0 then NearestMantissa(x * 4503599627370496.0, literal * 4503599627370496.0)
    else if x < 4.0 then NearestMantissa(x * 2251799813685248.0, literal * 2251799813685248.0)
    else if x < 8.0 then NearestMantissa(x * 1125899906842624.0, literal * 1125899906842624.0)
    else if x < 16.0 then NearestMantissa(x * 562949953421312.0, literal * 562949953421312.0)
    else if x < 32.0 then NearestMantissa(x * 281474976710656.0, literal * 281474976710656.0)
    else NearestMantissa(x * 140737488355328.0, literal * 140737488355328.0)
  }

  /** The edges are the doubles that the program's decimal literals denote, in MHz. */
  lemma EdgesAreTheLiterals(i: int)
    requires 0 <= i < BAND_COUNT
    ensures BANDS[i].name == BAND_LITERALS[i].0
    ensures NearestDouble(BANDS[i].lower, BAND_LITERALS[i].1 as real / 1000.0)
    ensures NearestDouble(BANDS[i].upper, BAND_LITERALS[i].2 as real / 1000.0)
  {
    hide NearestDouble;
    LowerEdge(i);
    UpperEdge(i);
  }

  lemma LowerEdge(i: int)
    requires 0 <= i < BAND_COUNT
    ensures NearestDouble(BANDS[i].lower, BAND_LITERALS[i].1 as real / 1000.0)
  {
  }

  lemma UpperEdge(i: int)
    requires 0 <= i < BAND_COUNT
    ensures NearestDouble(BANDS[i].upper, BAND_LITERALS[i].2 as real / 1000.0)
  {
  }

  /** Both edges belong to a band; NaN and the infinities belong to none. */
  lemma BandIncludesItsEdges(f: Double, i: int)
    requires 0 <= i < BAND_COUNT
    ensures InBand(f, i) <==> exists v :: f == Finite(v) && !(v < BANDS[i].lower) && !(BANDS[i].upper < v)
  {
    if f.Finite? {
      assert f == Finite(f.value);
    }
  }

  /** `i` is the table row that a band name refers to, in any letter case. */
  predicate IsBand(name: string, i: int) {
    0 <= i < BAND_COUNT && SameText(name, BANDS[i].name)
  }

  predicate InBand(f: Double, i: int) {
    0 <= i < BAND_COUNT && BANDS[i].Contains(f)
  }

  lemma BandNamesAreLowerCase(i: int)
    requires 0 <= i < BAND_COUNT
    ensures LowerAll(BANDS[i].name) == BANDS[i].name
  {
    var name := BANDS[i].name;
    assert forall k :: 0 <= k < |name| ==> Lower(name[k]) == name[k];
  }

  /** A name refers to at most one row of the table. */
  lemma BandNameUnique(name: string, i: int, j: int)
    requires IsBand(name, i) && IsBand(name, j)
    ensures i == j
  {
    BandNamesAreLowerCase(i);
    BandNamesAreLowerCase(j);
    assert BANDS[i].name == BANDS[j].name;
  }

  /** The bands do not overlap, edges included. */
  lemma BandUnique(f: Double, i: int, j: int)
    requires InBand(f, i) && InBand(f, j)
    ensures i == j
  {
  }

  method BandIndex(name: string) returns (index: int)
    ensures index == -1 || IsBand(name, index)
    ensures index == -1 ==> forall i :: !IsBand(name, i)
  {
    index := 0;
    while index < BAND_COUNT
      invariant 0 <= index <= BAND_COUNT
      invariant forall i :: 0 <= i < index ==> !IsBand(name, i)
    {
      if SameText(name, BANDS[index].name) {
        return;
      }
      index := index + 1;
    }
    index := -1;
  }

  method BandForFrequency(f: Double) returns (index: int)
    ensures index == -1 || InBand(f, index)
    ensures index == -1 ==> forall i :: !InBand(f, i)
  {
    index := 0;
    while index < BAND_COUNT
      invariant 0 <= index <= BAND_COUNT
      invariant forall i :: 0 <= i < index ==> !InBand(f, i)
    {
      if f.AtLeast(BANDS[index].lower) && f.AtMost(BANDS[index].upper) {
        return;
      }
      index := index + 1;
    }
    index := -1;
  }

  // ------------------------------------------------------------------
  // Masks
  // ------------------------------------------------------------------

  /** `(uint16_t)(1u << i)`. */
  function Flag(i: int): bv16
    requires 0 <= i < BAND_COUNT
  {
    1 << i
  }

  /** The bit of band `i` is set. */
  predicate HasBand(mask: bv16, i: int) {
    0 <= i < BAND_COUNT && mask & Flag(i) != 0
  }

  /** The band indices whose bit is set. */
  function Bits(mask: bv16): set<int> {
    set i | 0 <= i < BAND_COUNT && HasBand(mask, i)
  }

  lemma FlagBits(mask: bv16, i: int, j: int)
    requires 0 <= i < BAND_COUNT && 0 <= j < BAND_COUNT
    ensures (mask | Flag(i)) & Flag(j) != 0 <==> i == j || mask & Flag(j) != 0
  {
    assert Flag(0) == 1 && Flag(1) == 2 && Flag(2) == 4 && Flag(3) == 8 && Flag(4) == 16 && Flag(5) == 32;
    assert Flag(6) == 64 && Flag(7) == 128 && Flag(8) == 256 && Flag(9) == 512 && Flag(10) == 1024;
  }

  /** `mask |= flag` adds one band and touches no other bit. */
  lemma OrAddsBand(mask: bv16, i: int)
    requires 0 <= i < BAND_COUNT && mask < 0x800
    ensures Bits(mask | Flag(i)) == Bits(mask) + {i}
    ensures mask | Flag(i) < 0x800
  {
    forall j | 0 <= j < BAND_COUNT
      ensures j in Bits(mask | Flag(i)) <==> j in Bits(mask) + {i}
    {
      FlagBits(mask, i, j);
    }
    assert Flag(i) < 0x800;
  }

  // ------------------------------------------------------------------
  // The decision
  // ------------------------------------------------------------------

  datatype AntennaPolicy = AntennaPolicy(id: string, allowedBands: bv16)

  datatype Reason = Allowed | UnknownFrequency | UnknownAntenna | OutsideKnownBands | CombinationBlocked

  datatype Decision = Decision(allowed: bool, reason: Reason, band: string)

  /** `i` is the first entry whose ID is `id` in any letter case. */
  ghost predicate FirstNamed(antennas: seq<AntennaPolicy>, id: string, i: int) {
    && 0 <= i < |antennas| && SameText(antennas[i].id, id)
    && forall k :: 0 <= k < i ==> !SameText(antennas[k].id, id)
  }

  method FindAntenna(antennas: seq<AntennaPolicy>, id: string) returns (found: Option<nat>)
    ensures found.Some? ==> FirstNamed(antennas, id, found.value)
    ensures found.None? ==> forall k :: 0 <= k < |antennas| ==> !SameText(antennas[k].id, id)
  {
    var index := 0;
    while index < |antennas|
      invariant 0 <= index <= |antennas|
      invariant forall k :: 0 <= k < index ==> !SameText(antennas[k].id, id)
    {
      if SameText(antennas[index].id, id) {
        return Some(index);
      }
      index := index + 1;
    }
    return None;
  }

  /** What "allowed" means: one band holds the frequency and the antenna's entry has its bit. */
  ghost predicate Permits(antennas: seq<AntennaPolicy>, hasFrequency: bool, f: Double, antenna: string) {
    hasFrequency && antenna != ""
    && exists b, i :: InBand(f, b) && Grants(antennas, antenna, i, b)
  }

  /** The entry that a lookup of `antenna` finds has the bit of band `b`. */
  ghost predicate Grants(antennas: seq<AntennaPolicy>, antenna: string, i: int, b: int) {
    FirstNamed(antennas, antenna, i) && HasBand(antennas[i].allowedBands, b)
  }

  lemma PermitsInBand(antennas: seq<AntennaPolicy>, f: Double, antenna: string, b: int)
    requires antenna != "" && InBand(f, b)
    ensures Permits(antennas, true, f, antenna) <==> exists i :: Grants(antennas, antenna, i, b)
  {
    forall c | InBand(f, c) ensures c == b { BandUnique(f, c, b); }
  }

  /** Why a context is blocked, in the order in which the program asks. */
  ghost predicate Explains(hasFrequency: bool, f: Double, antenna: string, reason: Reason) {
    match reason
    case Allowed => false
    case UnknownFrequency => !hasFrequency
    case UnknownAntenna => hasFrequency && antenna == ""
    case OutsideKnownBands => hasFrequency && antenna != "" && forall b :: !InBand(f, b)
    case CombinationBlocked => hasFrequency && antenna != "" && exists b :: InBand(f, b)
  }

  method Evaluate(antennas: seq<AntennaPolicy>, hasFrequency: bool, f: Double, antenna: string)
    returns (decision: Decision)
    ensures decision.allowed <==> Permits(antennas, hasFrequency, f, antenna)
    ensures decision.allowed <==> decision.reason == Allowed
    ensures !decision.allowed ==> Explains(hasFrequency, f, antenna, decision.reason)
    ensures forall b :: InBand(f, b) && hasFrequency && antenna != "" ==> decision.band == BANDS[b].name
    ensures !hasFrequency || antenna == "" || (forall b :: !InBand(f, b)) ==> decision.band == "Unknown"
  {
    if !hasFrequency {
      return Decision(false, UnknownFrequency, "Unknown");
    }
    if antenna == "" {
      return Decision(false, UnknownAntenna, "Unknown");
    }
    var bandIndex := BandForFrequency(f);
    if bandIndex < 0 {
      return Decision(false, OutsideKnownBands, "Unknown");
    }
    forall b | InBand(f, b) ensures b == bandIndex { BandUnique(f, b, bandIndex); }
    PermitsInBand(antennas, f, antenna, bandIndex);
    var policy := FindAntenna(antennas, antenna);
    if policy.Some? && HasBand(antennas[policy.value].allowedBands, bandIndex) {
      assert Grants(antennas, antenna, policy.value, bandIndex);
      return Decision(true, Allowed, BANDS[bandIndex].name);
    }
    return Decision(false, CombinationBlocked, BANDS[bandIndex].name);
  }
}
