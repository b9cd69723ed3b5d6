/** Name of a simulation result file (fn_build_5.py).

    The name is `hsd_<rv*10>_<phi*100>_<rmf*100>_<T>_<MP|PC>_<cycle>_<HT>`:
    three scaled parameters truncated to integers, the initial temperature
    (or `AMM` when it is 0), a tag for the residual-gas assumption taken from
    the first entry of the previous-cycle vector, the cycle number and the
    heat-transfer version string, joined by single underscores.
 */
module ResultFilename {

  datatype Option<T> = None | Some(value: T) {
    predicate IsFailure() { None? }
    function PropagateFailure<U>(): Option<U> requires None? { None }
    function Extract(): T requires Some? { value }
  }

  // Decimal rendering of integers, as Python's str() of an int

  predicate IsDigit(c: char)
  {
    '0' <= c <= '9'
  }

  predicate AllDigits(s: string)
  {
    forall i :: 0 <= i < |s| ==> IsDigit(s[i])
  }

  function DigitChar(d: nat): (c: char)
    requires d < 10
    ensures IsDigit(c)
  {
    ('0' as int + d) as char
  }

  function DigitValue(c: char): nat
    requires IsDigit(c)
  {
    c as int - '0' as int
  }

  /** Digits of `n`, most significant first, without leading zeros. */
  function NatToDecimal(n: nat): (s: string)
    ensures |s| > 0 && AllDigits(s)
    ensures s[0] == '0' ==> s == "0"
    ensures s == "0" <==> n == 0
  {
    if n < 10 then [DigitChar(n)] else NatToDecimal(n / 10) + [DigitChar(n % 10)]
  }

  /** Decimal rendering of an integer, with a leading `-` for negative values. */
  function IntToDecimal(n: int): (s: string)
    ensures |s| > 0 && '_' !in s
    ensures s[0] == '-' <==> n < 0
    ensures s[0] != '-' ==> AllDigits(s)
    ensures s[0] == '0' ==> s == "0"
    ensures n < 0 ==> |s| > 1 && s[1] != '0'
  {
    if n < 0 then "-" + NatToDecimal(-n) else NatToDecimal(n)
  }

  /** Value of a string of decimal digits. */
  function ParseNat(s: string): nat
    requires AllDigits(s)
  {
    if s == [] then 0 else 10 * ParseNat(s[..|s| - 1]) + DigitValue(s[|s| - 1])
  }

  /** Value of an optionally negative decimal integer; None for anything else. */
  function ParseInt(s: string): Option<int>
  {
    if |s| > 1 && s[0] == '-' && AllDigits(s[1..]) then Some(-(ParseNat(s[1..]) as int))
    else if |s| > 0 && AllDigits(s) then Some(ParseNat(s))
    else None
  }

  lemma {:induction false} ParseNatToDecimal(n: nat)
    ensures ParseNat(NatToDecimal(n)) == n
  {
    if n >= 10 {
      var s := NatToDecimal(n);
      ParseNatToDecimal(n / 10);
      assert s[..|s| - 1] == NatToDecimal(n / 10);
    }
  }

  /** Reading back the decimal rendering of any integer gives that integer. */
  lemma ParseIntToDecimal(n: int)
    ensures ParseInt(IntToDecimal(n)) == Some(n)
  {
    if n < 0 {
      assert IntToDecimal(n)[1..] == NatToDecimal(-n);
      ParseNatToDecimal(-n);
    } else {
      ParseNatToDecimal(n);
    }
  }

  /** Python's int() of a float: the integer part, rounding toward zero. */
  function TruncateTowardZero(x: real): (r: int)
    ensures 0.0 <= x ==> 0 <= r && r as real <= x < r as real + 1.0
    ensures x < 0.0 ==> r <= 0 && r as real - 1.0 < x <= r as real
  {
    if x >= 0.0 then x.Floor else -((-x).Floor)
  }

  // The fields of the name

  /** `AMM` for an initial temperature of 0, otherwise the temperature itself. */
  function TemperatureField(tInitial: int): (s: string)
    ensures |s| > 0 && '_' !in s
    ensures s == "AMM" <==> tInitial == 0
  {
    if tInitial == 0 then "AMM" else IntToDecimal(tInitial)
  }

  /** `MP` when the first previous-cycle entry is 0, `PC` otherwise. */
  function ResidualField(firstEntry: real): (s: string)
    ensures s == "MP" <==> firstEntry == 0.0
    ensures s == "PC" <==> firstEntry != 0.0
    ensures '_' !in s
  {
    if firstEntry == 0.0 then "MP" else "PC"
  }

  /** `a`, one underscore, then `b`. */
  function Joined(a: string, b: string): string
  {
    a + "_" + b
  }

  /** The file name; None when the previous-cycle vector is empty, since
      its first entry cannot be read. */
  function BuildFilename(rv: real, phi: real, rmf: real, tInitial: int, yPrev: seq<real>,
                         cycleNum: int, htVersion: string): (r: Option<string>)
    ensures r.Some? <==> |yPrev| > 0
  {
    if |yPrev| == 0 then None
    else
      Some(Joined("hsd",
           Joined(IntToDecimal(TruncateTowardZero(rv * 10.0)),
           Joined(IntToDecimal(TruncateTowardZero(phi * 100.0)),
           Joined(IntToDecimal(TruncateTowardZero(rmf * 100.0)),
           Joined(TemperatureField(tInitial),
           Joined(ResidualField(yPrev[0]),
           Joined(IntToDecimal(cycleNum), htVersion))))))))
  }

  // Reading a name back

  /** What a name records: the truncated scaled parameters, the initial
      temperature, whether the first previous-cycle entry was 0, the cycle
      number and the heat-transfer version. */
  datatype FilenameFields = FilenameFields(
    rvTenths: int, phiHundredths: int, rmfHundredths: int, tInitial: int,
    firstEntryZero: bool, cycleNum: int, htVersion: string)

  datatype Cut = Cut(head: string, tail: string)

  /** The text before the first underscore and the text after it. */
  function CutAtUnderscore(s: string): (c: Option<Cut>)
    ensures c.None? <==> '_' !in s
    ensures c.Some? ==> '_' !in c.value.head && s == c.value.head + "_" + c.value.tail
  {
    if s == [] then None
    else if s[0] == '_' then Some(Cut("", s[1..]))
    else
      match CutAtUnderscore(s[1..])
      case None => None
      case Some(c) => Some(Cut([s[0]] + c.head, c.tail))
  }

  /** The pieces of `s` between underscores, as Python's `s.split('_')`. */
  function Split(s: string): (parts: seq<string>)
    ensures |parts| > 0
    decreases |s|
  {
    match CutAtUnderscore(s)
    case None => [s]
    case Some(c) => [c.head] + Split(c.tail)
  }

  function ParseTemperatureField(s: string): Option<int>
  {
    if s == "AMM" then Some(0) else ParseInt(s)
  }

  function ParseResidualField(s: string): Option<bool>
  {
    if s == "MP" then Some(true) else if s == "PC" then Some(false) else None
  }

  /** The fields of a name built by BuildFilename; the heat-transfer version
      is everything after the seventh underscore. */
  function ParseFilename(s: string): Option<FilenameFields>
  {
    var c0 :- CutAtUnderscore(s);
    if c0.head != "hsd" then None
    else
      var c1 :- CutAtUnderscore(c0.tail);
      var rv :- ParseInt(c1.head);
      var c2 :- CutAtUnderscore(c1.tail);
      var phi :- ParseInt(c2.head);
      var c3 :- CutAtUnderscore(c2.tail);
      var rmf :- ParseInt(c3.head);
      var c4 :- CutAtUnderscore(c3.tail);
      var t :- ParseTemperatureField(c4.head);
      var c5 :- CutAtUnderscore(c4.tail);
      var firstEntryZero :- ParseResidualField(c5.head);
      var c6 :- CutAtUnderscore(c5.tail);
      var cycle :- ParseInt(c6.head);
      Some(FilenameFields(rv, phi, rmf, t, firstEntryZero, cycle, c6.tail))
  }

  lemma {:induction false} CutJoined(a: string, b: string)
    requires '_' !in a
    ensures CutAtUnderscore(Joined(a, b)) == Some(Cut(a, b))
  {
    if a == [] {
      assert Joined(a, b)[1..] == b;
    } else {
      assert Joined(a, b)[1..] == Joined(a[1..], b);
      CutJoined(a[1..], b);
      assert [a[0]] + a[1..] == a;
    }
  }

  lemma SplitJoined(a: string, b: string)
    requires '_' !in a
    ensures Split(Joined(a, b)) == [a] + Split(b)
  {
    CutJoined(a, b);
  }

  lemma TemperatureFieldRoundTrip(tInitial: int)
    ensures ParseTemperatureField(TemperatureField(tInitial)) == Some(tInitial)
  {
    if tInitial != 0 {
      ParseIntToDecimal(tInitial);
    }
  }

  ghost predicate EndsWith(s: string, suffix: string)
  {
    |suffix| <= |s| && s[|s| - |suffix|..] == suffix
  }

  lemma JoinedEndsWith(a: string, b: string, suffix: string)
    requires EndsWith(b, suffix)
    ensures EndsWith(Joined(a, b), suffix)
  {
  }

  /** The name starts with `hsd_` and ends with `_` and the heat-transfer
      version string. */
  lemma BuildFilenameEnds(rv: real, phi: real, rmf: real, tInitial: int, yPrev: seq<real>,
                          cycleNum: int, htVersion: string)
    requires |yPrev| > 0
    ensures var name := BuildFilename(rv, phi, rmf, tInitial, yPrev, cycleNum, htVersion).value;
            && |name| > 4 + |htVersion|
            && name[..4] == "hsd_"
            && name[|name| - |htVersion| - 1..] == "_" + htVersion
  {
    var f1 := IntToDecimal(TruncateTowardZero(rv * 10.0));
    var f2 := IntToDecimal(TruncateTowardZero(phi * 100.0));
    var f3 := IntToDecimal(TruncateTowardZero(rmf * 100.0));
    var f4 := TemperatureField(tInitial);
    var f5 := ResidualField(yPrev[0]);
    var f6 := IntToDecimal(cycleNum);
    var t6 := Joined(f6, htVersion);
    var t5 := Joined(f5, t6);
    var t4 := Joined(f4, t5);
    var t3 := Joined(f3, t4);
    var t2 := Joined(f2, t3);
    var t1 := Joined(f1, t2);
    var suffix := "_" + htVersion;
    assert t6[|t6| - |suffix|..] == suffix;
    JoinedEndsWith(f5, t6, suffix);
    JoinedEndsWith(f4, t5, suffix);
    JoinedEndsWith(f3, t4, suffix);
    JoinedEndsWith(f2, t3, suffix);
    JoinedEndsWith(f1, t2, suffix);
    JoinedEndsWith("hsd", t1, suffix);
    assert Joined("hsd", t1)[..4] == "hsd_";
  }

  /** Reading a built name back recovers the truncated scaled parameters,
      the initial temperature, which residual tag was chosen, the cycle
      number and the heat-transfer version (underscores in it included). */
  lemma ParseBuildFilename(rv: real, phi: real, rmf: real, tInitial: int, yPrev: seq<real>,
                           cycleNum: int, htVersion: string)
    requires |yPrev| > 0
    ensures ParseFilename(BuildFilename(rv, phi, rmf, tInitial, yPrev, cycleNum, htVersion).value)
            == Some(FilenameFields(TruncateTowardZero(rv * 10.0), TruncateTowardZero(phi * 100.0),
                                   TruncateTowardZero(rmf * 100.0), tInitial, yPrev[0] == 0.0,
                                   cycleNum, htVersion))
  {
    var f1 := IntToDecimal(TruncateTowardZero(rv * 10.0));
    var f2 := IntToDecimal(TruncateTowardZero(phi * 100.0));
    var f3 := IntToDecimal(TruncateTowardZero(rmf * 100.0));
    var f4 := TemperatureField(tInitial);
    var f5 := ResidualField(yPrev[0]);
    var f6 := IntToDecimal(cycleNum);
    var t6 := Joined(f6, htVersion);
    var t5 := Joined(f5, t6);
    var t4 := Joined(f4, t5);
    var t3 := Joined(f3, t4);
    var t2 := Joined(f2, t3);
    var t1 := Joined(f1, t2);
    CutJoined("hsd", t1);
    CutJoined(f1, t2);
    CutJoined(f2, t3);
    CutJoined(f3, t4);
    CutJoined(f4, t5);
    CutJoined(f5, t6);
    CutJoined(f6, htVersion);
    ParseIntToDecimal(TruncateTowardZero(rv * 10.0));
    ParseIntToDecimal(TruncateTowardZero(phi * 100.0));
    ParseIntToDecimal(TruncateTowardZero(rmf * 100.0));
    TemperatureFieldRoundTrip(tInitial);
    ParseIntToDecimal(cycleNum);
  }

  /** The pieces joined by single underscores. */
  function JoinAll(parts: seq<string>): string
    requires |parts| > 0
  {
    if |parts| == 1 then parts[0] else Joined(parts[0], JoinAll(parts[1..]))
  }

  /** Splitting underscore-free pieces joined by underscores gives back the pieces. */
  lemma {:induction false} SplitJoinAll(parts: seq<string>)
    requires |parts| > 0
    requires forall i :: 0 <= i < |parts| ==> '_' !in parts[i]
    ensures Split(JoinAll(parts)) == parts
  {
    if |parts| == 1 {
      assert Split(parts[0]) == [parts[0]];
    } else {
      SplitJoinAll(parts[1..]);
      SplitJoined(parts[0], JoinAll(parts[1..]));
      assert [parts[0]] + parts[1..] == parts;
    }
  }

  lemma SplitJoinedSeven(g0: string, g1: string, g2: string, g3: string, g4: string,
                         g5: string, g6: string, g7: string)
    requires '_' !in g0 && '_' !in g1 && '_' !in g2 && '_' !in g3
    requires '_' !in g4 && '_' !in g5 && '_' !in g6 && '_' !in g7
    ensures Split(Joined(g0, Joined(g1, Joined(g2, Joined(g3, Joined(g4, Joined(g5, Joined(g6, g7))))))))
            == [g0, g1, g2, g3, g4, g5, g6, g7]
  {
    var parts := [g0, g1, g2, g3, g4, g5, g6, g7];
    assert JoinAll(parts[7..]) == g7;
    assert JoinAll(parts[6..]) == Joined(g6, g7);
    assert JoinAll(parts[5..]) == Joined(g5, JoinAll(parts[6..]));
    assert JoinAll(parts[4..]) == Joined(g4, JoinAll(parts[5..]));
    assert JoinAll(parts[3..]) == Joined(g3, JoinAll(parts[4..]));
    assert JoinAll(parts[2..]) == Joined(g2, JoinAll(parts[3..]));
    assert JoinAll(parts[1..]) == Joined(g1, JoinAll(parts[2..]));
    assert JoinAll(parts) == Joined(g0, JoinAll(parts[1..]));
    SplitJoinAll(parts);
  }

  /** With no underscore in the heat-transfer version, splitting the name on
      `_` gives exactly eight parts: `hsd` and the seven fields in order. */
  lemma SplitBuildFilename(rv: real, phi: real, rmf: real, tInitial: int, yPrev: seq<real>,
                           cycleNum: int, htVersion: string)
    requires |yPrev| > 0 && '_' !in htVersion
    ensures var parts := Split(BuildFilename(rv, phi, rmf, tInitial, yPrev, cycleNum, htVersion).value);
            && parts == ["hsd", IntToDecimal(TruncateTowardZero(rv * 10.0)),
                         IntToDecimal(TruncateTowardZero(phi * 100.0)),
                         IntToDecimal(TruncateTowardZero(rmf * 100.0)),
                         TemperatureField(tInitial), ResidualField(yPrev[0]),
                         IntToDecimal(cycleNum), htVersion]
            && |parts| == 8
            && (parts[4] == "AMM" <==> tInitial == 0)
            && (tInitial != 0 ==> ParseInt(parts[4]) == Some(tInitial))
            && (parts[5] == "MP" <==> yPrev[0] == 0.0)
            && (parts[5] == "PC" <==> yPrev[0] != 0.0)
  {
    SplitJoinedSeven("hsd", IntToDecimal(TruncateTowardZero(rv * 10.0)),
                     IntToDecimal(TruncateTowardZero(phi * 100.0)),
                     IntToDecimal(TruncateTowardZero(rmf * 100.0)),
                     TemperatureField(tInitial), ResidualField(yPrev[0]),
                     IntToDecimal(cycleNum), htVersion);
    if tInitial != 0 {
      ParseIntToDecimal(tInitial);
    }
  }

  /** Two calls give the same name only when they agree on every field the
      name records. */
  lemma BuildFilenameInjective(rv: real, phi: real, rmf: real, tInitial: int, yPrev: seq<real>,
                               cycleNum: int, htVersion: string,
                               rv': real, phi': real, rmf': real, tInitial': int, yPrev': seq<real>,
                               cycleNum': int, htVersion': string)
    requires |yPrev| > 0 && |yPrev'| > 0
    requires BuildFilename(rv, phi, rmf, tInitial, yPrev, cycleNum, htVersion)
             == BuildFilename(rv', phi', rmf', tInitial', yPrev', cycleNum', htVersion')
    ensures TruncateTowardZero(rv * 10.0) == TruncateTowardZero(rv' * 10.0)
    ensures TruncateTowardZero(phi * 100.0) == TruncateTowardZero(phi' * 100.0)
    ensures TruncateTowardZero(rmf * 100.0) == TruncateTowardZero(rmf' * 100.0)
    ensures tInitial == tInitial' && (yPrev[0] == 0.0 <==> yPrev'[0] == 0.0)
    ensures cycleNum == cycleNum' && htVersion == htVersion'
  {
    ParseBuildFilename(rv, phi, rmf, tInitial, yPrev, cycleNum, htVersion);
    ParseBuildFilename(rv', phi', rmf', tInitial', yPrev', cycleNum', htVersion');
  }

  /** The parameters of the file's own example: rv 0.1, phi 0.85, rmf 0.75,
      initial temperature 1000, previous-cycle vector [0, 0, 1], cycle 1 and
      version SOFC2024, taken as exact decimals; the name is
      hsd_1_85_75_1000_MP_1_SOFC2024. */
  lemma BuildFilenameExample()
    ensures BuildFilename(0.1, 0.85, 0.75, 1000, [0.0, 0.0, 1.0], 1, "SOFC2024").Some?
    ensures Split(BuildFilename(0.1, 0.85, 0.75, 1000, [0.0, 0.0, 1.0], 1, "SOFC2024").value)
            == ["hsd", "1", "85", "75", "1000", "MP", "1", "SOFC2024"]
  {
    assert TruncateTowardZero(0.1 * 10.0) == 1;
    assert TruncateTowardZero(0.85 * 100.0) == 85;
    assert TruncateTowardZero(0.75 * 100.0) == 75;
    assert IntToDecimal(1) == "1";
    assert IntToDecimal(85) == "85";
    assert IntToDecimal(75) == "75";
    assert TemperatureField(1000) == "1000";
    assert ResidualField(0.0) == "MP";
    SplitBuildFilename(0.1, 0.85, 0.75, 1000, [0.0, 0.0, 1.0], 1, "SOFC2024");
  }
}
