/** The duration selector of the roll extension (extensions/roulette/roll/action.py):
    bound strings with a unit suffix, the weighted choice of an interval, the
    inclusive draw of a minute count, and the two-unit English label.

    Randomness is explicit: `random.choices` becomes a draw in [0, total weight)
    and `random.randint` an offset into the interval; both draws are reduced
    modulo the size of their range, so a draw inside the range is used as is. */
module Duration {
  import opened Wrappers
  import opened Text

  // ---------------------------------------------------------------------------
  // Units
  // ---------------------------------------------------------------------------

  datatype Unit = Weeks | Days | Hours | Minutes

  /** Minutes per unit (`_WEEKS_IN_MINUTES` and friends). */
  function UnitMinutes(u: Unit): nat {
    match u
    case Weeks => 10080
    case Days => 1440
    case Hours => 60
    case Minutes => 1
  }

  /** The display order of `_TIME_CONVERSION_INTERVALS`: largest unit first. */
  const DisplayUnits: seq<Unit> := [Weeks, Days, Hours, Minutes]

  /** Position of a unit in `DisplayUnits`. */
  function Rank(u: Unit): (k: nat)
    ensures k < 4 && DisplayUnits[k] == u
  {
    match u
    case Weeks => 0
    case Days => 1
    case Hours => 2
    case Minutes => 3
  }

  /** How many of `u` make one of the next larger unit (unused for weeks). */
  function Ratio(u: Unit): nat {
    match u
    case Weeks => 0
    case Days => 7
    case Hours => 24
    case Minutes => 60
  }

  // ---------------------------------------------------------------------------
  // Bound strings: `_convert_interval_str_to_minutes`
  // ---------------------------------------------------------------------------

  /** The suffix letter that selects a unit in a bound string. */
  function SuffixChar(u: Unit): char {
    match u
    case Minutes => 'm'
    case Hours => 'h'
    case Days => 'd'
    case Weeks => 'w'
  }

  function SuffixUnit(c: char): (r: Option<Unit>)
    ensures r.Some? ==> SuffixChar(r.value) == c
    ensures r.None? <==> c !in "mhdw"
  {
    if c == 'm' then Some(Minutes)
    else if c == 'h' then Some(Hours)
    else if c == 'd' then Some(Days)
    else if c == 'w' then Some(Weeks)
    else None
  }

  /** `NotANumber` is the `ValueError` of `int("")` when the string holds no
      digit; `NoUnitSuffix` is the `None` returned when no branch matches. */
  datatype BoundError = NotANumber | NoUnitSuffix

  /** A bound string in minutes: every digit of the string, concatenated, times
      the size of the unit its last character names. */
  function BoundToMinutes(bound: string): (r: Result<nat, BoundError>)
    ensures r == Failure(NotANumber) <==> KeepDigits(bound) == []
    ensures r.Success? <==> KeepDigits(bound) != [] && bound[|bound| - 1] in "mhdw"
  {
    var digits := KeepDigits(bound);
    if digits == [] then Failure(NotANumber)
    else
      match SuffixUnit(bound[|bound| - 1])
      case None => Failure(NoUnitSuffix)
      case Some(u) => Success(DigitsValue(digits) * UnitMinutes(u))
  }

  lemma {:induction false} KeepDigitsAppend(a: string, b: string)
    ensures KeepDigits(a + b) == KeepDigits(a) + KeepDigits(b)
    decreases |a|
  {
    if a == [] {
      assert a + b == b;
    } else {
      assert (a + b)[0] == a[0];
      assert (a + b)[1..] == a[1..] + b;
      KeepDigitsAppend(a[1..], b);
    }
  }

  /** Writing `n` followed by a unit letter converts back to `n` units. */
  lemma BoundRoundTrip(n: nat, u: Unit)
    ensures BoundToMinutes(NatToString(n) + [SuffixChar(u)]) == Success(n * UnitMinutes(u))
  {
    var s := NatToString(n) + [SuffixChar(u)];
    KeepDigitsAppend(NatToString(n), [SuffixChar(u)]);
    assert KeepDigits([SuffixChar(u)]) == [];
    assert KeepDigits(s) == NatToString(n);
    NatToStringValue(n);
  }

  /** Digits on both sides of an inner unit letter are run together: "1h30m"
      is 130 minutes, not 90. */
  lemma BoundConcatenatesDigits()
    ensures BoundToMinutes("1h30m") == Success(130)
  {
    KeepDigitsAppend("1h", "30m");
    KeepDigitsAppend("1", "h");
    KeepDigitsAppend("30", "m");
    assert KeepDigits("1h30m") == "130";
    assert DigitsValue("130") == 130 by {
      assert "130"[..2] == "13";
      assert "13"[..1] == "1";
    }
  }

  /** A bound whose last character is not a unit letter yields no value. */
  lemma BoundWithoutSuffix(n: nat, c: char)
    requires c !in "mhdw" && !IsDigit(c)
    ensures BoundToMinutes(NatToString(n) + [c]) == Failure(NoUnitSuffix)
  {
    KeepDigitsAppend(NatToString(n), [c]);
    assert KeepDigits([c]) == [];
  }

  // ---------------------------------------------------------------------------
  // Greedy decomposition into weeks, days, hours and minutes
  // ---------------------------------------------------------------------------

  datatype Component = Component(count: int, unit: Unit)

  /** The component a count contributes: nothing when it is zero (`if value:`). */
  function Head(v: int, u: Unit): seq<Component> {
    if v != 0 then [Component(v, u)] else []
  }

  /** The loop of `_convert_minutes_to_display_str` over `units`. Python's `//`
      by a positive divisor is Dafny's `/`, and the remainder `minutes - value *
      count` is `minutes % count`. */
  function DecomposeFrom(m: int, units: seq<Unit>): seq<Component>
    decreases |units|
  {
    if units == [] then []
    else
      var size := UnitMinutes(units[0]);
      Head(m / size, units[0]) + DecomposeFrom(m % size, units[1..])
  }

  function Decompose(m: int): seq<Component> {
    DecomposeFrom(m, DisplayUnits)
  }

  /** Minutes denoted by a list of components. */
  function Total(cs: seq<Component>): int {
    if cs == [] then 0 else cs[0].count * UnitMinutes(cs[0].unit) + Total(cs[1..])
  }

  /** A component as it may appear in a canonical decomposition: positive, and
      below one of the next larger unit unless it counts weeks. */
  predicate WellFormed(c: Component) {
    c.count >= 1 && (c.unit == Weeks || c.count < Ratio(c.unit))
  }

  /** Positive, bounded counts in strictly descending unit order. */
  predicate Canonical(cs: seq<Component>) {
    && (forall i :: 0 <= i < |cs| ==> WellFormed(cs[i]))
    && (forall i, j :: 0 <= i < j < |cs| ==> Rank(cs[i].unit) < Rank(cs[j].unit))
  }

  predicate RanksFrom(cs: seq<Component>, k: nat) {
    forall i :: 0 <= i < |cs| ==> Rank(cs[i].unit) >= k
  }

  lemma TotalAppend(a: seq<Component>, b: seq<Component>)
    ensures Total(a + b) == Total(a) + Total(b)
  {
    if a != [] {
      assert (a + b)[1..] == a[1..] + b;
      TotalAppend(a[1..], b);
    } else {
      assert a + b == b;
    }
  }

  lemma DisplaySuffix(k: nat)
    requires k < 4
    ensures DisplayUnits[k..] != [] && DisplayUnits[k..][0] == DisplayUnits[k]
    ensures DisplayUnits[k..][1..] == DisplayUnits[k + 1..]
  {
  }

  lemma NoRankAbove(cs: seq<Component>)
    requires RanksFrom(cs, 4)
    ensures cs == []
  {
    if cs != [] {
      var r := Rank(cs[0].unit);
    }
  }

  lemma CanonicalTail(cs: seq<Component>)
    requires cs != [] && Canonical(cs)
    ensures WellFormed(cs[0])
    ensures Canonical(cs[1..]) && RanksFrom(cs[1..], Rank(cs[0].unit) + 1)
  {
    var rest := cs[1..];
    forall i, i' | 0 <= i < i' < |rest|
      ensures Rank(rest[i].unit) < Rank(rest[i'].unit)
    {
      assert rest[i] == cs[i + 1] && rest[i'] == cs[i' + 1];
    }
    forall i | 0 <= i < |rest|
      ensures Rank(rest[i].unit) >= Rank(cs[0].unit) + 1 && WellFormed(rest[i])
    {
      assert rest[i] == cs[i + 1];
    }
  }

  lemma CanonicalCons(c: Component, tail: seq<Component>)
    requires WellFormed(c) && Canonical(tail) && RanksFrom(tail, Rank(c.unit) + 1)
    ensures Canonical([c] + tail) && RanksFrom([c] + tail, Rank(c.unit))
  {
    var cs := [c] + tail;
    assert forall i :: 0 < i < |cs| ==> cs[i] == tail[i - 1];
  }

  lemma RanksWeaken(cs: seq<Component>, k: nat, k': nat)
    requires RanksFrom(cs, k) && k' <= k
    ensures RanksFrom(cs, k')
  {
  }

  /** Larger ranks are smaller units. */
  lemma UnitMinutesDecrease(a: nat, b: nat)
    requires a <= b < 4
    ensures UnitMinutes(DisplayUnits[b]) <= UnitMinutes(DisplayUnits[a])
  {
  }

  /** One well-formed component of a unit below weeks plus less than one of
      that unit stays below one of the next larger unit. */
  lemma StepBound(c: Component, t: int)
    requires WellFormed(c) && c.unit != Weeks && 0 <= t < UnitMinutes(c.unit)
    ensures 0 <= c.count * UnitMinutes(c.unit) + t < UnitMinutes(DisplayUnits[Rank(c.unit) - 1])
  {
    match c.unit
    case Days =>
    case Hours =>
    case Minutes =>
  }

  /** Below one of the unit before it, a count yields fewer than `Ratio` of the
      `k`-th unit. */
  lemma QuotientBound(m: int, k: nat)
    requires 0 < k < 4 && 0 <= m < UnitMinutes(DisplayUnits[k - 1])
    ensures 0 <= m / UnitMinutes(DisplayUnits[k]) < Ratio(DisplayUnits[k])
  {
    if k == 1 {
      assert m / 1440 < 7;
    } else if k == 2 {
      assert m / 60 < 24;
    }
  }

  /** Components of units strictly smaller than the `k`-th add up to less than
      one of it. */
  lemma {:induction false} CanonicalTailBound(cs: seq<Component>, k: nat)
    requires k < 4 && Canonical(cs) && RanksFrom(cs, k + 1)
    ensures 0 <= Total(cs) < UnitMinutes(DisplayUnits[k])
    decreases |cs|
  {
    if cs != [] {
      var c := cs[0];
      var j := Rank(c.unit);
      CanonicalTail(cs);
      if j == 3 {
        NoRankAbove(cs[1..]);
      } else {
        CanonicalTailBound(cs[1..], j);
      }
      StepBound(c, Total(cs[1..]));
      UnitMinutesDecrease(k, j - 1);
    }
  }

  /** The greedy loop from the `k`-th unit on, applied to a remainder below one
      of the unit before it, is canonical and exact. */
  lemma {:induction false} DecomposeFromCanonical(m: int, k: nat)
    requires k <= 4 && 0 <= m
    requires k > 0 ==> m < UnitMinutes(DisplayUnits[k - 1])
    ensures Canonical(DecomposeFrom(m, DisplayUnits[k..]))
    ensures RanksFrom(DecomposeFrom(m, DisplayUnits[k..]), k)
    ensures Total(DecomposeFrom(m, DisplayUnits[k..])) == m
    decreases 4 - k
  {
    if k < 4 {
      DisplaySuffix(k);
      var u := DisplayUnits[k];
      var size := UnitMinutes(u);
      var v := m / size;
      var tail := DecomposeFrom(m % size, DisplayUnits[k + 1..]);
      DecomposeFromCanonical(m % size, k + 1);
      assert DecomposeFrom(m, DisplayUnits[k..]) == Head(v, u) + tail;
      TotalAppend(Head(v, u), tail);
      assert v * size + m % size == m;
      if v != 0 {
        if k > 0 {
          QuotientBound(m, k);
        }
        CanonicalCons(Component(v, u), tail);
      } else {
        assert Head(v, u) + tail == tail;
        RanksWeaken(tail, k + 1, k);
      }
    } else {
      assert DisplayUnits[k..] == [];
    }
  }

  /** The decomposition of a non-negative count is canonical. */
  lemma DecomposeCanonical(m: int)
    requires m >= 0
    ensures Canonical(Decompose(m))
  {
    DecomposeFromCanonical(m, 0);
  }

  /** The greedy decomposition accounts for every minute, for any integer. */
  lemma DecomposeTotal(m: int)
    ensures Total(Decompose(m)) == m
  {
    DisplaySuffix(0);
    var v := m / 10080;
    var r := m % 10080;
    WeeksSplit(m);
    DecomposeFromCanonical(r, 1);
    var tail := DecomposeFrom(r, DisplayUnits[1..]);
    assert Decompose(m) == Head(v, Weeks) + tail;
    TotalAppend(Head(v, Weeks), tail);
    HeadTotal(v, Weeks);
  }

  lemma WeeksSplit(m: int)
    ensures m / 10080 * 10080 + m % 10080 == m && 0 <= m % 10080 < 10080
  {
  }

  lemma HeadTotal(v: int, u: Unit)
    ensures Total(Head(v, u)) == v * UnitMinutes(u)
  {
  }

  /** A canonical list of components is the decomposition of its total. */
  lemma {:induction false} DecomposeFromUnique(cs: seq<Component>, k: nat, m: int)
    requires k <= 4 && Canonical(cs) && RanksFrom(cs, k) && Total(cs) == m
    requires k > 0 ==> m < UnitMinutes(DisplayUnits[k - 1])
    ensures DecomposeFrom(m, DisplayUnits[k..]) == cs
    decreases 4 - k, 1
  {
    if k == 4 {
      NoRankAbove(cs);
      assert DisplayUnits[k..] == [];
    } else if cs != [] && cs[0].unit == DisplayUnits[k] {
      DecomposeFromUniqueHead(cs, k, m);
    } else {
      DecomposeFromUniqueSkip(cs, k, m);
    }
  }

  /** The list starts with the `k`-th unit: the greedy step takes exactly its count. */
  lemma {:induction false} DecomposeFromUniqueHead(cs: seq<Component>, k: nat, m: int)
    requires k < 4 && Canonical(cs) && RanksFrom(cs, k) && Total(cs) == m
    requires k > 0 ==> m < UnitMinutes(DisplayUnits[k - 1])
    requires cs != [] && cs[0].unit == DisplayUnits[k]
    ensures DecomposeFrom(m, DisplayUnits[k..]) == cs
    decreases 4 - k, 0
  {
    DisplaySuffix(k);
    var u := DisplayUnits[k];
    var size := UnitMinutes(u);
    var rest := cs[1..];
    CanonicalTail(cs);
    CanonicalTailBound(rest, k);
    var c := cs[0].count;
    assert m == c * size + Total(rest);
    DivModUnique(m, c, size, Total(rest));
    DecomposeFromUnique(rest, k + 1, Total(rest));
    assert cs == Head(c, u) + rest;
  }

  /** The list has no component of the `k`-th unit: the greedy step takes none. */
  lemma {:induction false} DecomposeFromUniqueSkip(cs: seq<Component>, k: nat, m: int)
    requires k < 4 && Canonical(cs) && RanksFrom(cs, k) && Total(cs) == m
    requires k > 0 ==> m < UnitMinutes(DisplayUnits[k - 1])
    requires cs == [] || cs[0].unit != DisplayUnits[k]
    ensures DecomposeFrom(m, DisplayUnits[k..]) == cs
    decreases 4 - k, 0
  {
    DisplaySuffix(k);
    var u := DisplayUnits[k];
    var size := UnitMinutes(u);
    assert RanksFrom(cs, k + 1) by {
      forall i | 0 <= i < |cs|
        ensures Rank(cs[i].unit) >= k + 1
      {
        if i > 0 {
          assert Rank(cs[0].unit) < Rank(cs[i].unit);
        }
      }
    }
    CanonicalTailBound(cs, k);
    DivModUnique(m, 0, size, m);
    DecomposeFromUnique(cs, k + 1, m);
    assert Head(0, u) + cs == cs;
  }

  lemma DivModUnique(m: int, q: int, d: int, r: int)
    requires d > 0 && 0 <= r < d && m == q * d + r
    ensures m / d == q && m % d == r
  {
    var k := m / d - q;
    assert k * d == r - m % d by {
      assert m / d * d - q * d == (m / d - q) * d;
    }
    MulBound(k, d);
  }

  lemma {:induction false} MulBound(k: int, d: int)
    requires d > 0
    ensures k >= 1 ==> k * d >= d
    ensures k <= -1 ==> k * d <= -d
    decreases if k < 0 then -k else k
  {
    if k > 1 {
      MulBound(k - 1, d);
      assert k * d == (k - 1) * d + d;
    } else if k < -1 {
      MulBound(k + 1, d);
      assert k * d == (k + 1) * d - d;
    }
  }

  /** Uniqueness: the greedy decomposition is the only canonical one. */
  lemma DecomposeUnique(cs: seq<Component>)
    requires Canonical(cs)
    ensures Decompose(Total(cs)) == cs
  {
    DecomposeFromUnique(cs, 0, Total(cs));
  }

  // ---------------------------------------------------------------------------
  // The label: `_convert_minutes_to_display_str`
  // ---------------------------------------------------------------------------

  /** The plural unit names of `_TIME_CONVERSION_INTERVALS`. */
  function UnitName(u: Unit): string {
    match u
    case Weeks => "weeks"
    case Days => "days"
    case Hours => "hours"
    case Minutes => "minutes"
  }

  /** Python's `s.rstrip(c)`. */
  function RStrip(s: string, c: char): (r: string)
    ensures |r| <= |s|
  {
    if |s| > 0 && s[|s| - 1] == c then RStrip(s[..|s| - 1], c) else s
  }

  /** The unit name, made singular when the count is 1. */
  function UnitWord(c: Component): string {
    if c.count == 1 then RStrip(UnitName(c.unit), 's') else UnitName(c.unit)
  }

  /** `"{value} {name}"`. */
  function ComponentText(c: Component): string {
    IntToString(c.count) + " " + UnitWord(c)
  }

  function Join(parts: seq<string>, sep: string): string {
    if parts == [] then ""
    else if |parts| == 1 then parts[0]
    else parts[0] + sep + Join(parts[1..], sep)
  }

  /** Index of the last occurrence of `c` in `s`. */
  function LastIndex(s: string, c: char): (i: nat)
    requires c in s
    ensures i < |s| && s[i] == c && c !in s[i + 1..]
  {
    if s[|s| - 1] == c then |s| - 1 else LastIndex(s[..|s| - 1], c)
  }

  /** Python's `s.rpartition(c)` without the separator itself. */
  function RPartition(s: string, c: char): (string, string) {
    if c in s then
      var i := LastIndex(s, c);
      (s[..i], s[i + 1..])
    else ("", s)
  }

  function Take2(cs: seq<Component>): seq<Component> {
    if |cs| <= 2 then cs else cs[..2]
  }

  /** `[f"{value} {name}" for ...]` over the shown components. */
  function Texts(cs: seq<Component>): seq<string> {
    if cs == [] then [] else [ComponentText(cs[0])] + Texts(cs[1..])
  }

  /** Joins the shown components with ", " and turns the last comma into " and". */
  function JoinLabel(shown: seq<Component>): string {
    var (start, end) := RPartition(Join(Texts(shown), ", "), ',');
    if start != "" then start + " and" + end else end
  }

  /** The label of a minute count. */
  function Render(minutes: int): string {
    if minutes == 0 then "0 minutes" else JoinLabel(Take2(Decompose(minutes)))
  }

  /** A unit name read back: its unit, and whether it is the singular. */
  datatype UnitSpelling = UnitSpelling(unit: Unit, singular: bool)

  function NameUnit(name: string): Option<UnitSpelling> {
    if name == "weeks" then Some(UnitSpelling(Weeks, false))
    else if name == "week" then Some(UnitSpelling(Weeks, true))
    else if name == "days" then Some(UnitSpelling(Days, false))
    else if name == "day" then Some(UnitSpelling(Days, true))
    else if name == "hours" then Some(UnitSpelling(Hours, false))
    else if name == "hour" then Some(UnitSpelling(Hours, true))
    else if name == "minutes" then Some(UnitSpelling(Minutes, false))
    else if name == "minute" then Some(UnitSpelling(Minutes, true))
    else None
  }

  /** A parsed label component: a count and a unit name, which must be the
      singular exactly when the count is 1. */
  function ParseComponent(count: string, name: string): Option<Component> {
    var n :- ParseInt(count);
    var w :- NameUnit(name);
    if w.singular == (n == 1) then Some(Component(n, w.unit)) else None
  }

  /** Reads a label of the form "A" or "A and B" back into its components. */
  function ParseLabel(text: string): Option<seq<Component>> {
    var ws := Words(text);
    if |ws| == 2 then
      (var a :- ParseComponent(ws[0], ws[1]);
       Some([a]))
    else if |ws| == 5 && ws[2] == "and" then
      (var a :- ParseComponent(ws[0], ws[1]);
       var b :- ParseComponent(ws[3], ws[4]);
       Some([a, b]))
    else None
  }

  lemma IntToStringShape(i: int)
    ensures ',' !in IntToString(i) && ' ' !in IntToString(i)
  {
    var num := IntToString(i);
    if i < 0 {
      var d := NatToString(-i);
      assert num == "-" + d;
      DigitsHaveNoComma(d);
    } else {
      DigitsHaveNoComma(num);
    }
  }

  lemma DigitsHaveNoComma(s: string)
    requires AllDigits(s)
    ensures ',' !in s && ' ' !in s
  {
  }

  /** The unit word is one of the eight names `NameUnit` reads back, it
      names the component's own unit, and it is the singular exactly for a
      count of 1. */
  lemma UnitWordShape(c: Component)
    ensures ',' !in UnitWord(c) && ' ' !in UnitWord(c)
    ensures NameUnit(UnitWord(c)) == Some(UnitSpelling(c.unit, c.count == 1))
  {
    if c.count == 1 {
      match c.unit
      case Weeks => assert RStrip("weeks", 's') == "week";
      case Days => assert RStrip("days", 's') == "day";
      case Hours => assert RStrip("hours", 's') == "hour";
      case Minutes => assert RStrip("minutes", 's') == "minute";
    }
  }

  lemma ComponentTextShape(c: Component)
    ensures ',' !in ComponentText(c)
  {
    IntToStringShape(c.count);
    UnitWordShape(c);
  }

  lemma {:induction false} LastIndexAt(s: string, c: char, i: nat)
    requires i < |s| && s[i] == c && c !in s[i + 1..]
    ensures LastIndex(s, c) == i
    decreases |s|
  {
    if s[|s| - 1] != c {
      var t := s[..|s| - 1];
      assert t[i + 1..] == s[i + 1..|s| - 1];
      LastIndexAt(t, c, i);
    }
  }

  /** Splitting "A, B" at its last comma when neither A nor B holds one. */
  lemma RPartitionPair(a: string, b: string)
    requires ',' !in a && ',' !in b
    ensures RPartition(a + ", " + b, ',') == (a, " " + b)
  {
    var s := a + ", " + b;
    assert s[|a|] == ',';
    assert s[|a| + 1..] == " " + b;
    LastIndexAt(s, ',', |a|);
    assert s[..|a|] == a;
  }

  /** One component renders alone; two render as "A and B". */
  lemma JoinLabelOne(c: Component)
    ensures JoinLabel([c]) == ComponentText(c)
  {
    assert Texts([c]) == [ComponentText(c)];
    ComponentTextShape(c);
  }

  lemma JoinLabelTwo(x: Component, y: Component)
    ensures JoinLabel([x, y]) == ComponentText(x) + " and " + ComponentText(y)
  {
    var a := ComponentText(x);
    var b := ComponentText(y);
    TextsPair(x, y);
    JoinPair(a, b);
    ComponentTextShape(x);
    ComponentTextShape(y);
    RPartitionPair(a, b);
    JoinedPairLabel(a, b);
  }

  lemma TextsPair(x: Component, y: Component)
    ensures Texts([x, y]) == [ComponentText(x), ComponentText(y)]
  {
    assert [x, y][1..] == [y];
    assert Texts([y]) == [ComponentText(y)];
  }

  lemma JoinPair(a: string, b: string)
    ensures Join([a, b], ", ") == a + ", " + b
  {
    assert [a, b][1..] == [b];
  }

  lemma JoinedPairLabel(a: string, b: string)
    ensures a + " and" + " " + b == a + " and " + b
  {
  }

  /** One component renders alone; two render as "A and B". */
  lemma RenderShape(m: int)
    requires m != 0
    ensures 1 <= |Take2(Decompose(m))| <= 2
    ensures |Take2(Decompose(m))| == 1 ==> Render(m) == ComponentText(Take2(Decompose(m))[0])
    ensures |Take2(Decompose(m))| == 2 ==>
              Render(m) == ComponentText(Take2(Decompose(m))[0]) + " and " + ComponentText(Take2(Decompose(m))[1])
  {
    var cs := Decompose(m);
    var shown := Take2(cs);
    DecomposeTotal(m);
    assert cs != [];
    if |shown| == 1 {
      JoinLabelOne(shown[0]);
      assert shown == [shown[0]];
    } else {
      JoinLabelTwo(shown[0], shown[1]);
      assert shown == [shown[0], shown[1]];
    }
  }

  /** The parser is strict about number: "1 days" and "2 day" are not labels. */
  lemma SpellingFollowsCount()
    ensures ParseComponent("1", "days") == None && ParseComponent("1", "day") == Some(Component(1, Days))
    ensures ParseComponent("2", "day") == None && ParseComponent("2", "days") == Some(Component(2, Days))
  {
    ParseIntOfIntToString(1);
    ParseIntOfIntToString(2);
    assert IntToString(1) == "1" && IntToString(2) == "2";
  }

  lemma ParseComponentText(c: Component)
    ensures ParseComponent(IntToString(c.count), UnitWord(c)) == Some(c)
  {
    ParseIntOfIntToString(c.count);
    UnitWordShape(c);
  }

  lemma ParseOne(c: Component)
    ensures ParseLabel(ComponentText(c)) == Some([c])
  {
    IntToStringShape(c.count);
    UnitWordShape(c);
    WordsPair(IntToString(c.count), UnitWord(c));
    ParseComponentText(c);
  }

  lemma PairText(na: string, wa: string, nb: string, wb: string)
    ensures na + " " + wa + " and " + (nb + " " + wb) == na + " " + (wa + " " + ("and" + " " + (nb + " " + wb)))
  {
  }

  lemma WordsPair(n: string, w: string)
    requires ' ' !in n && ' ' !in w
    ensures Words(n + " " + w) == [n, w]
  {
    WordsSingle(w);
    WordsCons(n, w);
  }

  lemma WordsFive(na: string, wa: string, nb: string, wb: string)
    requires ' ' !in na && ' ' !in wa && ' ' !in nb && ' ' !in wb
    ensures Words(na + " " + (wa + " " + ("and" + " " + (nb + " " + wb)))) == [na, wa, "and", nb, wb]
  {
    var t4 := nb + " " + wb;
    var t3 := "and" + " " + t4;
    var t2 := wa + " " + t3;
    WordsPair(nb, wb);
    WordsPrepend("and", t4, [nb, wb]);
    WordsPrepend(wa, t3, ["and"] + [nb, wb]);
    WordsPrepend(na, t2, [wa] + (["and"] + [nb, wb]));
    FiveWords(na, wa, nb, wb);
  }

  lemma FiveWords(na: string, wa: string, nb: string, wb: string)
    ensures [na] + ([wa] + (["and"] + [nb, wb])) == [na, wa, "and", nb, wb]
  {
  }

  lemma WordsPrepend(a: string, b: string, ws: seq<string>)
    requires ' ' !in a && Words(b) == ws
    ensures Words(a + " " + b) == [a] + ws
  {
    WordsCons(a, b);
  }

  lemma ParseTwo(a: Component, b: Component)
    ensures ParseLabel(ComponentText(a) + " and " + ComponentText(b)) == Some([a, b])
  {
    var na := IntToString(a.count);
    var wa := UnitWord(a);
    var nb := IntToString(b.count);
    var wb := UnitWord(b);
    IntToStringShape(a.count);
    UnitWordShape(a);
    IntToStringShape(b.count);
    UnitWordShape(b);
    PairText(na, wa, nb, wb);
    WordsFive(na, wa, nb, wb);
    ParseComponentText(a);
    ParseComponentText(b);
    ParseFiveWords(na + " " + (wa + " " + ("and" + " " + (nb + " " + wb))), na, wa, nb, wb, a, b);
  }

  lemma ParseFiveWords(text: string, na: string, wa: string, nb: string, wb: string, a: Component, b: Component)
    requires Words(text) == [na, wa, "and", nb, wb]
    requires ParseComponent(na, wa) == Some(a) && ParseComponent(nb, wb) == Some(b)
    ensures ParseLabel(text) == Some([a, b])
  {
  }

  /** Round trip: the label reads back as the (at most two) leading components
      of the greedy decomposition. */
  lemma RenderParses(m: int)
    requires m != 0
    ensures ParseLabel(Render(m)) == Some(Take2(Decompose(m)))
  {
    RenderShape(m);
    var shown := Take2(Decompose(m));
    if |shown| == 1 {
      ParseOne(shown[0]);
      assert [shown[0]] == shown;
    } else {
      ParseTwo(shown[0], shown[1]);
      assert [shown[0], shown[1]] == shown;
    }
  }

  predicate NoZeroCounts(cs: seq<Component>) {
    forall i :: 0 <= i < |cs| ==> cs[i].count != 0
  }

  lemma {:induction false} DecomposeFromNonZero(m: int, units: seq<Unit>)
    ensures NoZeroCounts(DecomposeFrom(m, units))
    decreases |units|
  {
    if units != [] {
      DecomposeFromNonZero(m % UnitMinutes(units[0]), units[1..]);
    }
  }

  lemma ZeroLabelParses()
    ensures ParseLabel("0 minutes") == Some([Component(0, Minutes)])
  {
    var zero := Component(0, Minutes);
    assert ComponentText(zero) == "0 minutes" by {
      assert IntToString(0) == "0";
      assert UnitWord(zero) == "minutes";
    }
    ParseOne(zero);
  }

  /** Zero renders as "0 minutes", and no other count does. */
  lemma RenderZero(m: int)
    ensures Render(m) == "0 minutes" <==> m == 0
  {
    if m != 0 {
      RenderParses(m);
      RenderShape(m);
      DecomposeFromNonZero(m, DisplayUnits);
      ZeroLabelParses();
      var cs := Decompose(m);
      var shown := Take2(cs);
      assert shown[0] == cs[0];
      assert shown[0].count != 0;
      assert ParseLabel(Render(m)) != ParseLabel("0 minutes");
    }
  }

  lemma CanonicalDrop(cs: seq<Component>, n: nat)
    requires Canonical(cs) && 0 < n <= |cs|
    ensures Canonical(cs[n..]) && RanksFrom(cs[n..], Rank(cs[n - 1].unit) + 1)
  {
    var d := cs[n..];
    forall i | 0 <= i < |d|
      ensures WellFormed(d[i]) && Rank(d[i].unit) >= Rank(cs[n - 1].unit) + 1
    {
      assert d[i] == cs[n + i];
    }
    forall i, j | 0 <= i < j < |d|
      ensures Rank(d[i].unit) < Rank(d[j].unit)
    {
      assert d[i] == cs[n + i] && d[j] == cs[n + j];
    }
  }

  /** The label truncates: the minutes it drops are fewer than one of its
      smallest shown unit. */
  lemma RenderTruncates(m: int)
    requires m > 0
    ensures var shown := Take2(Decompose(m));
            0 <= m - Total(shown) < UnitMinutes(shown[|shown| - 1].unit)
  {
    RenderShape(m);
    DecomposeCanonical(m);
    DecomposeTotal(m);
    TruncationBound(Decompose(m), m);
  }

  /** Keeping the first two components of a canonical list loses less than
      one of the last unit kept. */
  lemma TruncationBound(cs: seq<Component>, m: int)
    requires cs != [] && Canonical(cs) && Total(cs) == m
    ensures 1 <= |Take2(cs)|
    ensures 0 <= m - Total(Take2(cs)) < UnitMinutes(Take2(cs)[|Take2(cs)| - 1].unit)
  {
    var shown := Take2(cs);
    var dropped := cs[|shown|..];
    assert cs == shown + dropped;
    TotalAppend(shown, dropped);
    CanonicalDrop(cs, |shown|);
    DroppedBound(dropped, shown[|shown| - 1]);
  }

  /** Components ranked after `last` add up to less than one `last` unit. */
  lemma DroppedBound(dropped: seq<Component>, last: Component)
    requires Canonical(dropped) && RanksFrom(dropped, Rank(last.unit) + 1)
    ensures 0 <= Total(dropped) < UnitMinutes(last.unit)
  {
    var k := Rank(last.unit);
    if k == 3 {
      NoRankAbove(dropped);
    } else {
      CanonicalTailBound(dropped, k);
    }
  }

  // ---------------------------------------------------------------------------
  // Rolling a timeout: `_generate_timeout` and `Timeout`
  // ---------------------------------------------------------------------------

  /** A rolled timeout of `duration` minutes; its label is the rendering of
      that duration (`Timeout.duration_label`). */
  datatype Timeout = Timeout(duration: int) {
    function Label(): string {
      Render(duration)
    }
  }

  datatype Interval = Interval(lower: string, upper: string, weight: nat)

  function TotalWeight(iv: seq<Interval>): nat {
    if iv == [] then 0 else iv[0].weight + TotalWeight(iv[1..])
  }

  /** `bisect(cum_weights, draw)`: the first interval whose cumulative weight
      exceeds the draw. */
  function Select(iv: seq<Interval>, draw: nat): (i: nat)
    requires draw < TotalWeight(iv)
    ensures i < |iv| && TotalWeight(iv[..i]) <= draw < TotalWeight(iv[..i + 1])
  {
    if draw < iv[0].weight then
      assert iv[..1][1..] == [];
      0
    else
      var j := Select(iv[1..], draw - iv[0].weight);
      assert iv[..j + 1][1..] == iv[1..][..j];
      assert iv[..j + 2][1..] == iv[1..][..j + 1];
      1 + j
  }

  datatype RollError =
    | NoIntervals                                 // `cum_weights[-1]` of an empty list
    | NoWeight                                    // total weight not greater than zero
    | BadBound(bound: string, error: BoundError)  // a bound that does not convert
    | EmptyRange(lower: nat, upper: nat)          // `randint` with upper < lower

  /** The duration `d` lies inside `interval`, whose bounds both convert. */
  predicate WithinInterval(d: int, interval: Interval) {
    && BoundToMinutes(interval.lower).Success?
    && BoundToMinutes(interval.upper).Success?
    && BoundToMinutes(interval.lower).value <= d <= BoundToMinutes(interval.upper).value
  }

  /** Both bounds of `interval` convert and the lower is not above the upper. */
  predicate Rollable(interval: Interval) {
    && BoundToMinutes(interval.lower).Success?
    && BoundToMinutes(interval.upper).Success?
    && BoundToMinutes(interval.lower).value <= BoundToMinutes(interval.upper).value
  }

  /** The interval `random.choices` picks with the draw `choiceDraw`. */
  function Chosen(iv: seq<Interval>, choiceDraw: nat): (interval: Interval)
    requires TotalWeight(iv) > 0
    ensures interval in iv && interval.weight > 0
  {
    var i := Select(iv, choiceDraw % TotalWeight(iv));
    PrefixWeightStep(iv, i);
    iv[i]
  }

  /** The minute count `random.randint(lower, upper)` draws inside `interval`,
      after converting both bounds. Both conversions run before `randint`, so
      a bound without digits raises its `ValueError` before a bound without a
      unit letter reaches `randint` as `None` (reported as `NoUnitSuffix`). */
  function RollWithin(interval: Interval, offsetDraw: nat): (r: Result<Timeout, RollError>)
    ensures r.Success? <==> Rollable(interval)
    ensures r.Success? ==> WithinInterval(r.value.duration, interval)
    ensures KeepDigits(interval.lower) == [] ==> r == Failure(BadBound(interval.lower, NotANumber))
    ensures KeepDigits(interval.lower) != [] && KeepDigits(interval.upper) == [] ==>
              r == Failure(BadBound(interval.upper, NotANumber))
    ensures r.Failure? && r.error.BadBound? ==>
              (r.error.bound == interval.lower || r.error.bound == interval.upper)
              && BoundToMinutes(r.error.bound) == Failure(r.error.error)
    ensures r.Failure? && r.error.BadBound? && r.error.error == NoUnitSuffix ==>
              KeepDigits(interval.lower) != [] && KeepDigits(interval.upper) != []
    ensures r.Failure? && r.error.EmptyRange? ==>
              BoundToMinutes(interval.lower) == Success(r.error.lower)
              && BoundToMinutes(interval.upper) == Success(r.error.upper)
              && r.error.upper < r.error.lower
  {
    match (BoundToMinutes(interval.lower), BoundToMinutes(interval.upper))
    case (Failure(NotANumber), _) => Failure(BadBound(interval.lower, NotANumber))
    case (_, Failure(NotANumber)) => Failure(BadBound(interval.upper, NotANumber))
    case (Failure(e), _) => Failure(BadBound(interval.lower, e))
    case (_, Failure(e)) => Failure(BadBound(interval.upper, e))
    case (Success(lo), Success(hi)) =>
      if hi < lo then Failure(EmptyRange(lo, hi))
      else Success(Timeout(lo + offsetDraw % (hi - lo + 1)))
  }

  /** Rolls a timeout: `choiceDraw` picks the interval by weight and
      `offsetDraw` the minute count inside it. */
  function GenerateTimeout(iv: seq<Interval>, choiceDraw: nat, offsetDraw: nat): (r: Result<Timeout, RollError>)
    ensures r == Failure(NoIntervals) <==> iv == []
    ensures r == Failure(NoWeight) <==> iv != [] && TotalWeight(iv) == 0
    ensures r.Success? <==> TotalWeight(iv) > 0 && Rollable(Chosen(iv, choiceDraw))
    ensures r.Success? ==> WithinInterval(r.value.duration, Chosen(iv, choiceDraw))
  {
    if iv == [] then Failure(NoIntervals)
    else if TotalWeight(iv) == 0 then Failure(NoWeight)
    else RollWithin(Chosen(iv, choiceDraw), offsetDraw)
  }

  /** A unit-less lower bound and a digit-less upper bound: the upper bound's
      `int("")` raises before `randint` sees the lower bound's `None`. */
  lemma MissingDigitsReportedFirst(offsetDraw: nat)
    ensures RollWithin(Interval("5x", "m", 1), offsetDraw) == Failure(BadBound("m", NotANumber))
  {
    assert KeepDigits("5x") == "5" by {
      KeepDigitsAppend("5", "x");
    }
    assert KeepDigits("m") == [];
  }

  /** Every minute count inside a rollable interval is drawn by some offset. */
  lemma RollWithinReaches(interval: Interval, d: int) returns (o: nat)
    requires WithinInterval(d, interval)
    ensures RollWithin(interval, o) == Success(Timeout(d))
  {
    var lo := BoundToMinutes(interval.lower).value;
    var hi := BoundToMinutes(interval.upper).value;
    o := d - lo;
    ModOfSmall(o, hi - lo + 1);
    RollWithinValue(interval, lo, hi, o);
  }

  lemma RollWithinValue(interval: Interval, lo: nat, hi: nat, o: nat)
    requires BoundToMinutes(interval.lower) == Success(lo) && BoundToMinutes(interval.upper) == Success(hi)
    requires lo <= hi
    ensures RollWithin(interval, o) == Success(Timeout(lo + o % (hi - lo + 1)))
  {
  }

  lemma ModOfSmall(x: int, n: int)
    requires 0 <= x < n
    ensures x % n == x
  {
    DivModUnique(x, 0, n, x);
  }

  lemma {:induction false} PrefixWeightMonotone(iv: seq<Interval>, i: nat, j: nat)
    requires i <= j <= |iv|
    ensures TotalWeight(iv[..i]) <= TotalWeight(iv[..j])
    decreases |iv|
  {
    if i > 0 {
      assert iv[..i][1..] == iv[1..][..i - 1];
      assert iv[..j][1..] == iv[1..][..j - 1];
      PrefixWeightMonotone(iv[1..], i - 1, j - 1);
    }
  }

  lemma {:induction false} PrefixWeightStep(iv: seq<Interval>, i: nat)
    requires i < |iv|
    ensures TotalWeight(iv[..i + 1]) == TotalWeight(iv[..i]) + iv[i].weight
    decreases i
  {
    if i > 0 {
      assert iv[..i + 1][1..] == iv[1..][..i];
      assert iv[..i][1..] == iv[1..][..i - 1];
      PrefixWeightStep(iv[1..], i - 1);
    } else {
      assert iv[..1] == [iv[0]];
      assert iv[..1][1..] == [];
    }
  }

  lemma PrefixWeightAll(iv: seq<Interval>, i: nat)
    requires i < |iv|
    ensures TotalWeight(iv[..i]) + iv[i].weight <= TotalWeight(iv)
  {
    PrefixWeightStep(iv, i);
    PrefixWeightMonotone(iv, i + 1, |iv|);
    assert iv[..|iv|] == iv;
  }

  /** Exactly the draws in the `i`-th cumulative-weight bracket select `i`. */
  lemma SelectBracket(iv: seq<Interval>, i: nat, d: nat)
    requires i < |iv| && d < TotalWeight(iv)
    ensures Select(iv, d) == i <==> TotalWeight(iv[..i]) <= d < TotalWeight(iv[..i + 1])
  {
    var j := Select(iv, d);
    if j < i {
      PrefixWeightMonotone(iv, j + 1, i);
    } else if j > i {
      PrefixWeightMonotone(iv, i + 1, j);
    }
  }

  /** The integers from `lo` up to, not including, `hi`. */
  function Ints(lo: int, hi: int): (r: set<int>)
    ensures forall d :: d in r <==> lo <= d < hi
    ensures lo <= hi ==> |r| == hi - lo
    decreases hi - lo
  {
    if hi <= lo then {} else Ints(lo, hi - 1) + {hi - 1}
  }

  /** The draws in `[0, TotalWeight(iv))` that select interval `i`. */
  function DrawsSelecting(iv: seq<Interval>, i: nat): set<int> {
    set d | d in Ints(0, TotalWeight(iv)) && Select(iv, d) == i
  }

  /** Weighted choice: of the `TotalWeight(iv)` equally likely draws, exactly
      `iv[i].weight` select interval `i`. */
  lemma SelectionWeight(iv: seq<Interval>, i: nat)
    requires i < |iv|
    ensures |DrawsSelecting(iv, i)| == iv[i].weight
  {
    var lo := TotalWeight(iv[..i]);
    var hi := TotalWeight(iv[..i + 1]);
    PrefixWeightStep(iv, i);
    PrefixWeightAll(iv, i);
    forall d | d in DrawsSelecting(iv, i)
      ensures d in Ints(lo, hi)
    {
      SelectBracket(iv, i, d);
    }
    forall d | d in Ints(lo, hi)
      ensures d in DrawsSelecting(iv, i)
    {
      SelectBracket(iv, i, d);
    }
    assert DrawsSelecting(iv, i) == Ints(lo, hi);
  }

  /** Every minute count of every interval that has weight is reachable: the
      draws returned produce it. */
  lemma GenerateReaches(iv: seq<Interval>, i: nat, d: int) returns (c: nat, o: nat)
    requires i < |iv| && iv[i].weight > 0 && WithinInterval(d, iv[i])
    ensures GenerateTimeout(iv, c, o) == Success(Timeout(d))
  {
    c := ChoiceReaches(iv, i);
    o := RollWithinReaches(iv[i], d);
    assert GenerateTimeout(iv, c, o) == RollWithin(Chosen(iv, c), o);
  }

  /** Every interval that has weight is chosen by some draw. */
  lemma ChoiceReaches(iv: seq<Interval>, i: nat) returns (c: nat)
    requires i < |iv| && iv[i].weight > 0
    ensures TotalWeight(iv) > 0 && Chosen(iv, c) == iv[i]
  {
    c := TotalWeight(iv[..i]);
    PrefixWeightStep(iv, i);
    PrefixWeightAll(iv, i);
    SelectBracket(iv, i, c);
    ModOfSmall(c, TotalWeight(iv));
  }

  /** A single interval with weight is always the one chosen. */
  lemma SingleIntervalChosen(interval: Interval, c: nat)
    requires interval.weight > 0
    ensures Chosen([interval], c) == interval
  {
  }
}
