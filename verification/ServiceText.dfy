/** Durations and placement constraints as text (app/docker/helpers/serviceHelper.js). */
module ServiceText {
  import opened Wrappers
  import opened Seqs
  import opened Text
  import opened Arithmetic

  // ---- Durations

  const UNITS := ["ns", "us", "ms", "s", "m", "h"]

  function Nanos(unit: nat): (n: nat)
    ensures n > 0
  {
    if unit == 0 then 1 else if unit <= 3 then 1000 * Nanos(unit - 1) else 60 * Nanos(unit - 1)
  }

  /** The durations moment.js gives in milliseconds. */
  ghost predicate ReadsUnits(moment: (nat, string) -> int) {
    forall d: nat ::
      && moment(d, "ms") == d
      && moment(d, "s") == 1000 * d
      && moment(d, "m") == 60_000 * d
      && moment(d, "h") == 3_600_000 * d
  }

  function Lower(s: string): (r: string)
    ensures |r| == |s|
  {
    seq(|s|, i requires 0 <= i < |s| => if 'A' <= s[i] <= 'Z' then s[i] - 'A' + 'a' else s[i])
  }

  /** Digits followed by a unit in upper or lower case; anything else is undefined. */
  function HumanDurationToNanos(s: string, moment: (nat, string) -> int): Option<int> {
    var n := DigitCount(s);
    DigitCountSplits(s);
    var unit := s[n..];
    if n == 0 || Lower(unit) !in UNITS then None
    else
      var duration := Value(s[..n]);
      if unit == "ns" then Some(duration)
      else if unit == "us" then Some(duration * 1000)
      else Some(moment(duration, unit) * 1_000_000)
  }

  predicate Divides(unit: nat, nanos: int) {
    nanos % Nanos(unit) == 0
  }

  function Count(nanos: int, unit: nat): (n: int)
    ensures nanos >= 0 ==> n >= 0
  {
    Quotient(nanos, Nanos(unit))
  }

  /** The largest of the first n units that divides nanos. */
  ghost predicate LargestUnit(nanos: int, unit: nat, n: nat) {
    unit < n && Divides(unit, nanos) && forall u: nat | unit < u < n :: !Divides(u, nanos)
  }

  lemma WholeCount(nanos: int, unit: nat)
    requires Divides(unit, nanos)
    ensures Count(nanos, unit) * Nanos(unit) == nanos
    ensures Count(nanos, unit) > 0 <==> nanos > 0
  {
    hide Nanos;
    ProductSign(Count(nanos, unit), Nanos(unit));
  }

  lemma NanosecondsDivide(nanos: int)
    ensures Divides(0, nanos)
  {
  }

  method NanosToHumanDuration(nanos: int) returns (humanDuration: string, ghost unit: nat)
    ensures nanos <= 0 ==> humanDuration == "0s"
    ensures nanos > 0 ==> LargestUnit(nanos, unit, |UNITS|) && humanDuration == Decimal(Count(nanos, unit)) + UNITS[unit]
  {
    hide Divides, Count, Nanos, Decimal;
    humanDuration := "0s";
    unit := 0;
    for u := 0 to |UNITS|
      invariant nanos <= 0 ==> humanDuration == "0s"
      invariant nanos > 0 && u > 0 ==>
                  LargestUnit(nanos, unit, u) && humanDuration == Decimal(Count(nanos, unit)) + UNITS[unit]
    {
      NanosecondsDivide(nanos);
      if Divides(u, nanos) {
        WholeCount(nanos, u);
      }
      if Divides(u, nanos) && Count(nanos, u) > 0 {
        humanDuration := Decimal(Count(nanos, u)) + UNITS[u];
        unit := u;
      }
    }
  }

  lemma UnitSpelling(unit: nat)
    requires unit < |UNITS|
    ensures UNITS[unit] != "" && !IsDigit(UNITS[unit][0]) && Lower(UNITS[unit]) == UNITS[unit]
  {
  }

  lemma MomentNanos(d: nat, unit: nat, moment: (nat, string) -> int)
    requires ReadsUnits(moment) && 2 <= unit < |UNITS|
    ensures moment(d, UNITS[unit]) * 1_000_000 == d * Nanos(unit)
  {
    assert Nanos(2) == 1_000_000 && Nanos(3) == 1_000_000_000;
    assert Nanos(4) == 60_000_000_000 && Nanos(5) == 3_600_000_000_000;
  }

  /** Reading any count of any unit. */
  lemma ReadsSpelling(d: nat, unit: nat, moment: (nat, string) -> int)
    requires ReadsUnits(moment) && unit < |UNITS|
    ensures HumanDurationToNanos(Decimal(d) + UNITS[unit], moment) == Some(d * Nanos(unit))
  {
    hide ReadsUnits, Nanos, Lower, Decimal, DigitCount;
    var s := Decimal(d) + UNITS[unit];
    ValueOfDecimal(d);
    UnitSpelling(unit);
    DigitCountOf(Decimal(d), UNITS[unit]);
    assert s[..|Decimal(d)|] == Decimal(d);
    assert s[|Decimal(d)|..] == UNITS[unit];
    SmallUnits();
    if unit >= 2 {
      MomentNanos(d, unit, moment);
    }
  }

  /** Digits, then one of the six units in upper or lower case. */
  ghost predicate IsDuration(s: string) {
    exists d, unit :: s == d + unit && d != "" && AllDigits(d) && Lower(unit) in ["ns", "us", "ms", "s", "m", "h"]
  }

  lemma UnitStart(unit: string)
    ensures Lower(unit) in UNITS ==> unit != "" && !IsDigit(unit[0])
  {
    if Lower(unit) in UNITS {
      assert |Lower(unit)| == |unit| > 0;
      assert Lower(unit)[0] in ['n', 'u', 'm', 's', 'h'];
    }
  }

  /** Everything else is undefined. */
  lemma ReadIffDuration(s: string, moment: (nat, string) -> int)
    ensures HumanDurationToNanos(s, moment).Some? <==> IsDuration(s)
  {
    hide Lower, DigitCount;
    DigitCountSplits(s);
    var n := DigitCount(s);
    if HumanDurationToNanos(s, moment).Some? {
      assert s == s[..n] + s[n..];
      assert s[..n] != "";
    }
    if IsDuration(s) {
      var d, unit :| s == d + unit && d != "" && AllDigits(d) && Lower(unit) in ["ns", "us", "ms", "s", "m", "h"];
      UnitStart(unit);
      DigitCountOf(d, unit);
      assert s[|d|..] == unit;
    }
  }

  /** Leading zeros do not count; a lower-case unit has the length its name says. */
  lemma ReadsDigits(d: string, unit: nat, moment: (nat, string) -> int)
    requires ReadsUnits(moment) && d != "" && AllDigits(d) && unit < 6
    ensures HumanDurationToNanos(d + UNITS[unit], moment) ==
            Some(Value(d) * [1, 1_000, 1_000_000, 1_000_000_000, 60_000_000_000, 3_600_000_000_000][unit])
  {
    hide ReadsUnits, Nanos, Lower, Value, DigitCount;
    var s := d + UNITS[unit];
    UnitSpelling(unit);
    DigitCountOf(d, UNITS[unit]);
    assert s[..|d|] == d && s[|d|..] == UNITS[unit];
    UnitLengths();
    if unit >= 2 {
      MomentNanos(Value(d), unit, moment);
    }
  }

  lemma UnitLengths()
    ensures Nanos(0) == 1 && Nanos(1) == 1_000 && Nanos(2) == 1_000_000
    ensures Nanos(3) == 1_000_000_000 && Nanos(4) == 60_000_000_000 && Nanos(5) == 3_600_000_000_000
  {
    assert Nanos(2) == 1_000_000 && Nanos(4) == 60 * Nanos(3);
  }

  lemma SmallUnits()
    ensures Nanos(0) == 1 && Nanos(1) == 1000
  {
  }

  /** Reading what was printed, for every duration and whichever unit was printed. */
  lemma DurationRoundTrip(nanos: nat, unit: nat, moment: (nat, string) -> int)
    requires ReadsUnits(moment)
    requires LargestUnit(nanos, unit, |UNITS|) && nanos > 0
    ensures HumanDurationToNanos(Decimal(Count(nanos, unit)) + UNITS[unit], moment) == Some(nanos)
  {
    hide Divides, Count, Nanos, Decimal, ReadsUnits, HumanDurationToNanos;
    WholeCount(nanos, unit);
    ReadsSpelling(Count(nanos, unit), unit, moment);
  }

  lemma ZeroRoundTrip(moment: (nat, string) -> int)
    requires ReadsUnits(moment)
    ensures HumanDurationToNanos("0s", moment) == Some(0)
  {
    hide ReadsUnits, HumanDurationToNanos;
    ReadsSpelling(0, 3, moment);
    assert Decimal(0) + UNITS[3] == "0s";
  }

  lemma {:induction false} LargerUnit(a: nat, b: nat)
    requires a <= b
    ensures Nanos(a) <= Nanos(b)
    decreases b
  {
    if a < b {
      LargerUnit(a, b - 1);
    }
  }

  /** The printed count is the smallest that spells the duration. */
  lemma PrintedIsShortest(nanos: nat, unit: nat, d: nat, other: nat)
    requires LargestUnit(nanos, unit, |UNITS|) && nanos > 0
    requires other < |UNITS| && d * Nanos(other) == nanos
    ensures Count(nanos, unit) <= d
  {
    hide Nanos, Count, Divides;
    WholeCount(nanos, unit);
    MultipleDivides(d, other);
    LargerUnit(other, unit);
    if Count(nanos, unit) > d {
      MoreOfLarger(Count(nanos, unit), d, Nanos(unit), Nanos(other));
      assert false;
    }
  }

  lemma MultipleDivides(d: nat, unit: nat)
    ensures Divides(unit, d * Nanos(unit))
  {
    hide Nanos;
    DivideUnique(d * Nanos(unit), Nanos(unit), d, 0);
  }

  // ---- Placement constraints

  datatype KeyValue = KeyValue(key: string, operator: string, value: string)

  /** The position of the operator, and the operator; -1 and "!=" if there is none. */
  function GetOperator(c: string): (int, string) {
    var i := IndexOf(c, "==");
    if i >= 0 then (i, "==") else (IndexOf(c, "!="), "!=")
  }

  /** slice(0, i), where -1 leaves out the last character. */
  function SliceTo(c: string, i: int): string
    requires -1 <= i <= |c|
  {
    if i >= 0 then c[..i] else if c == "" then "" else c[..|c| - 1]
  }

  function SliceFrom(c: string, i: nat): string {
    if i <= |c| then c[i..] else ""
  }

  function ToKeyValue(c: string): KeyValue {
    var (i, op) := GetOperator(c);
    IndexFromIsFirst(c, "==", 0);
    IndexFromIsFirst(c, "!=", 0);
    KeyValue(SliceTo(c, i), op, SliceFrom(c, i + 2))
  }

  function FromKeyValue(kv: KeyValue): string {
    kv.key + kv.operator + kv.value
  }

  function Kept(kvs: seq<KeyValue>): seq<string> {
    if kvs == [] then []
    else
      var kv := kvs[|kvs| - 1];
      Kept(kvs[..|kvs| - 1]) + if kv.key != "" && kv.value != "" then [FromKeyValue(kv)] else []
  }

  method KeyValueToPlacementConstraints(keyValueConstraints: seq<KeyValue>) returns (constraints: seq<string>)
    ensures constraints == Kept(keyValueConstraints)
  {
    constraints := [];
    for i := 0 to |keyValueConstraints|
      invariant constraints == Kept(keyValueConstraints[..i])
    {
      var kv := keyValueConstraints[i];
      if kv.key != "" && kv.value != "" {
        constraints := constraints + [kv.key + kv.operator + kv.value];
      }
      assert keyValueConstraints[..i + 1][..i] == keyValueConstraints[..i];
    }
    assert keyValueConstraints[..|keyValueConstraints|] == keyValueConstraints;
  }

  method ConstraintsToKeyValue(constraints: seq<string>) returns (keyValueConstraints: seq<KeyValue>)
    ensures keyValueConstraints == Map(ToKeyValue, constraints)
  {
    keyValueConstraints := [];
    for i := 0 to |constraints|
      invariant keyValueConstraints == Map(ToKeyValue, constraints[..i])
    {
      keyValueConstraints := keyValueConstraints + [ToKeyValue(constraints[i])];
    }
    assert constraints[..|constraints|] == constraints;
  }

  predicate Has(s: string, pat: string) {
    IndexOf(s, pat) >= 0
  }

  lemma HasMeans(s: string, pat: string)
    ensures Has(s, pat) <==> exists i :: OccursAt(s, pat, i)
    ensures !Has(s, pat) ==> IndexOf(s, pat) == -1
  {
    IndexFromIsFirst(s, pat, 0);
  }

  /** An operator between a key and a value. */
  predicate WellFormed(c: string) {
    (Has(c, "==") || Has(c, "!=")) && ToKeyValue(c).key != "" && ToKeyValue(c).value != ""
  }

  /** A constraint with an operator is what its parts spell. */
  lemma PrintOfParse(c: string)
    ensures Has(c, "==") || Has(c, "!=") ==> FromKeyValue(ToKeyValue(c)) == c
    ensures !Has(c, "==") && !Has(c, "!=") && ToKeyValue(c).key != "" ==> FromKeyValue(ToKeyValue(c)) != c
  {
    IndexFromIsFirst(c, "==", 0);
    IndexFromIsFirst(c, "!=", 0);
    var kv := ToKeyValue(c);
    var (i, op) := GetOperator(c);
    if i >= 0 {
      assert c == c[..i] + c[i..i + 2] + c[i + 2..];
    } else if kv.key != "" {
      assert |FromKeyValue(kv)| == 2 * |c|;
    }
  }

  lemma {:induction false} KeptAtMost(kvs: seq<KeyValue>)
    ensures |Kept(kvs)| <= |kvs|
  {
    if kvs != [] {
      KeptAtMost(kvs[..|kvs| - 1]);
    }
  }

  /** A list of constraints survives being read and printed exactly if each is well formed. */
  lemma {:induction false} ConstraintsRoundTripIff(constraints: seq<string>)
    ensures Kept(Map(ToKeyValue, constraints)) == constraints <==>
              forall i | 0 <= i < |constraints| :: WellFormed(constraints[i])
  {
    hide ToKeyValue, FromKeyValue, Has;
    if constraints != [] {
      var n := |constraints| - 1;
      var front, c := constraints[..n], constraints[n];
      var kvs := Map(ToKeyValue, constraints);
      ConstraintsRoundTripIff(front);
      PrintOfParse(c);
      KeptAtMost(Map(ToKeyValue, front));
      assert kvs[..n] == Map(ToKeyValue, front);
      var kept := Kept(Map(ToKeyValue, front));
      var last := if kvs[n].key != "" && kvs[n].value != "" then [FromKeyValue(kvs[n])] else [];
      assert Kept(kvs) == kept + last;
      assert constraints == front + [c];
      if |last| == 1 {
        SnocInjective(kept, front, last[0], c);
      } else {
        assert |Kept(kvs)| < |constraints|;
      }
      assert WellFormed(c) <==> last == [c];
    }
  }

  lemma SnocInjective<T>(a: seq<T>, b: seq<T>, x: T, y: T)
    ensures a + [x] == b + [y] <==> a == b && x == y
  {
    if a + [x] == b + [y] {
      assert |a + [x]| == |b + [y]|;
      assert (a + [x])[|a|] == x && (b + [y])[|b|] == y;
      assert (a + [x])[..|a|] == a && (b + [y])[..|b|] == b;
    }
  }

  /** The first occurrence is the operator's own unless one starts earlier. */
  lemma FirstAt(s: string, pat: string, n: nat)
    requires OccursAt(s, pat, n)
    ensures IndexOf(s, pat) == n <==> forall j | 0 <= j < n :: !OccursAt(s, pat, j)
  {
    IndexFromIsFirst(s, pat, 0);
  }

  lemma ParseOfEqual(key: string, value: string)
    ensures ToKeyValue(key + "==" + value) == KeyValue(key, "==", value) <==>
              !Has(key, "==") && (key != "" ==> key[|key| - 1] != '=')
  {
    var c, n := key + "==" + value, |key|;
    TwoChars(c, '=', '=', n);
    FirstAt(c, "==", n);
    IndexFromIsFirst(c, "==", 0);
    assert c[..n] == key && c[n + 2..] == value;
    HasMeans(key, "==");
    forall j | 0 <= j < n
      ensures OccursAt(c, "==", j) <==> OccursAt(key, "==", j) || (j == n - 1 && key[j] == '=')
    {
      TwoChars(c, '=', '=', j);
      TwoChars(key, '=', '=', j);
    }
    if ToKeyValue(c).key == key && ToKeyValue(c).operator == "==" {
      assert |ToKeyValue(c).key| == IndexOf(c, "==");
    }
  }

  lemma OccursInEither(key: string, value: string, j: int)
    ensures var c := key + "!=" + value;
            OccursAt(c, "==", j) <==>
              || OccursAt(key, "==", j)
              || OccursAt(value, "==", j - |key| - 2)
              || (j == |key| + 1 && value != "" && value[0] == '=')
    ensures j < |key| ==> (OccursAt(key + "!=" + value, "!=", j) <==> OccursAt(key, "!=", j))
  {
    var c := key + "!=" + value;
    TwoChars(c, '=', '=', j);
    TwoChars(key, '=', '=', j);
    TwoChars(value, '=', '=', j - |key| - 2);
    TwoChars(c, '!', '=', j);
    TwoChars(key, '!', '=', j);
  }

  lemma ParseOfNotEqual(key: string, value: string)
    ensures ToKeyValue(key + "!=" + value) == KeyValue(key, "!=", value) <==>
              && !Has(key, "==") && !Has(key, "!=")
              && !Has(value, "==") && (value != "" ==> value[0] != '=')
  {
    hide OccursAt, IndexFrom;
    var c, n := key + "!=" + value, |key|;
    TwoChars(c, '!', '=', n);
    FirstAt(c, "!=", n);
    IndexFromIsFirst(c, "!=", 0);
    assert c[..n] == key && c[n + 2..] == value;
    HasMeans(key, "==");
    HasMeans(key, "!=");
    HasMeans(value, "==");
    HasMeans(c, "==");
    NoEqualIff(key, value);
    NoEarlierIff(key, value);
    if IndexOf(c, "==") < 0 && ToKeyValue(c).key == key {
      assert |ToKeyValue(c).key| == IndexOf(c, "!=");
    }
  }

  lemma NoEqualIff(key: string, value: string)
    ensures Has(key + "!=" + value, "==") <==>
              Has(key, "==") || Has(value, "==") || (value != "" && value[0] == '=')
  {
    var c := key + "!=" + value;
    HasMeans(c, "==");
    HasMeans(key, "==");
    HasMeans(value, "==");
    hide OccursAt, Has;
    if Has(c, "==") {
      var j :| OccursAt(c, "==", j);
      OccursInEither(key, value, j);
    }
    if Has(key, "==") {
      var j :| OccursAt(key, "==", j);
      OccursInEither(key, value, j);
    }
    if Has(value, "==") {
      var j :| OccursAt(value, "==", j);
      OccursInEither(key, value, j + |key| + 2);
    }
    OccursInEither(key, value, |key| + 1);
  }

  lemma NoEarlierIff(key: string, value: string)
    ensures (forall j | 0 <= j < |key| :: !OccursAt(key + "!=" + value, "!=", j)) <==> !Has(key, "!=")
  {
    HasMeans(key, "!=");
    forall j | 0 <= j < |key|
      ensures OccursAt(key + "!=" + value, "!=", j) <==> OccursAt(key, "!=", j)
    {
      OccursInEither(key, value, j);
    }
    if Has(key, "!=") {
      var j :| OccursAt(key, "!=", j);
      assert 0 <= j < |key|;
    }
  }

  /** Without an operator the first character and the last one go astray. */
  lemma ParseWithoutOperator(c: string)
    requires !Has(c, "==") && !Has(c, "!=")
    ensures ToKeyValue(c) == KeyValue(if c == "" then "" else c[..|c| - 1], "!=", if c == "" then "" else c[1..])
  {
    HasMeans(c, "==");
    HasMeans(c, "!=");
  }

  /** The constraints that have a key and a value are printed, in order. */
  lemma {:induction false} KeptIs(kvs: seq<KeyValue>)
    ensures Kept(kvs) ==
            Map((kv: KeyValue) => kv.key + kv.operator + kv.value,
                Filter((kv: KeyValue) => kv.key != "" && kv.value != "", kvs))
  {
    var text, whole := (kv: KeyValue) => kv.key + kv.operator + kv.value, (kv: KeyValue) => kv.key != "" && kv.value != "";
    if kvs != [] {
      var front, last := kvs[..|kvs| - 1], kvs[|kvs| - 1];
      KeptIs(front);
      if whole(last) {
        MapSnoc(text, Filter(whole, front), last);
      }
    }
  }
}
