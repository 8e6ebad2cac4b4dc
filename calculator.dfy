/** The fill/drain calculator: the duration formatter and the estimate the form
    computes from a volume in litres, a volume in millilitres per interval and
    the interval length in seconds. */
module Calculator {
  import opened Wrappers
  import opened Numbers
  import opened Text

  // ---------------------------------------------------------------------------
  // Splitting a whole number of seconds into days, hours, minutes and seconds
  // ---------------------------------------------------------------------------

  datatype Clock = Clock(days: nat, hours: nat, minutes: nat, seconds: nat)

  ghost predicate Decomposes(c: Clock, n: nat) {
    c.days * 86400 + c.hours * 3600 + c.minutes * 60 + c.seconds == n &&
    c.hours < 24 && c.minutes < 60 && c.seconds < 60
  }

  function ClockOf(n: nat): (c: Clock)
    ensures Decomposes(c, n)
  {
    var r := n % 86400;
    var r2 := r % 3600;
    assert n == n / 86400 * 86400 + r;
    assert r == r / 3600 * 3600 + r2;
    assert r2 == r2 / 60 * 60 + r2 % 60;
    assert r / 3600 < 24;
    Clock(n / 86400, r / 3600, r2 / 60, r2 % 60)
  }

  /** The bounds pin the decomposition down: there is only one. */
  lemma ClockUnique(n: nat, c: Clock)
    requires Decomposes(c, n)
    ensures c == ClockOf(n)
  {
    var d := ClockOf(n);
    var r := c.hours * 3600 + c.minutes * 60 + c.seconds;
    var rd := d.hours * 3600 + d.minutes * 60 + d.seconds;
    assert 0 <= r < 86400 && 0 <= rd < 86400;
    assert c.days == d.days;
    assert c.hours * 3600 + (c.minutes * 60 + c.seconds) == d.hours * 3600 + (d.minutes * 60 + d.seconds);
    assert c.hours == d.hours;
    assert c.minutes == d.minutes;
  }

  // ---------------------------------------------------------------------------
  // The text: only the non-zero parts, "sec" when nothing else is shown
  // ---------------------------------------------------------------------------

  /** One part of the text, such as "01 min": the amount and the unit label. */
  datatype Part = Part(amount: string, unitLabel: string)

  function DayLabel(days: nat): string {
    if days > 1 then "jours" else "jour"
  }

  /** The amount of a part, zero-padded to two digits when a higher unit is shown. */
  function Amount(padded: bool, n: nat): string {
    if padded then PadStart2(Digits(n)) else Digits(n)
  }

  function DayPart(c: Clock): seq<Part> {
    if c.days > 0 then [Part(Digits(c.days), DayLabel(c.days))] else []
  }

  function HourPart(c: Clock): seq<Part> {
    if c.hours > 0 then [Part(Digits(c.hours), "h")] else []
  }

  function MinutePart(c: Clock): seq<Part> {
    if c.minutes > 0 then [Part(Amount(c.days > 0 || c.hours > 0, c.minutes), "min")] else []
  }

  /** Seconds are shown when non-zero, and also when no other part is. */
  function SecondPart(c: Clock): seq<Part> {
    if c.seconds > 0 || |DayPart(c) + HourPart(c) + MinutePart(c)| == 0
    then [Part(Amount(c.days > 0 || c.hours > 0 || c.minutes > 0, c.seconds), "sec")]
    else []
  }

  function Parts(c: Clock): seq<Part> {
    DayPart(c) + HourPart(c) + MinutePart(c) + SecondPart(c)
  }

  function PartText(p: Part): string {
    p.amount + " " + p.unitLabel
  }

  function PartTexts(ps: seq<Part>): seq<string>
    decreases |ps|
  {
    if |ps| == 0 then [] else [PartText(ps[0])] + PartTexts(ps[1..])
  }

  function ClockText(n: nat): string {
    Join(PartTexts(Parts(ClockOf(n))))
  }

  /** formatDuration: "0 sec" for a negative or non-finite input, otherwise the
      text of the input rounded down to a whole number of seconds. */
  function DurationText(totalSeconds: Number): string {
    if totalSeconds.NotFinite? || totalSeconds.value < 0.0 then "0 sec"
    else ClockText(totalSeconds.value.Floor)
  }

  /** The whole number of seconds the text stands for. */
  function WholeSeconds(totalSeconds: Number): nat {
    if totalSeconds.NotFinite? || totalSeconds.value < 0.0 then 0 else totalSeconds.value.Floor
  }

  lemma PartTextsSingle(p: Part)
    ensures PartTexts([p]) == [PartText(p)]
  {
    assert [p][1..] == [];
  }

  lemma DayText(c: Clock)
    ensures PartTexts(DayPart(c)) ==
      if c.days > 0 then [Digits(c.days) + " jour" + (if c.days > 1 then "s" else "")] else []
  {
    if c.days > 0 {
      var p := DayPart(c)[0];
      PartTextsSingle(p);
      if c.days > 1 {
        assert PartText(p) == Digits(c.days) + " jour" + "s";
      } else {
        assert PartText(p) == Digits(c.days) + " jour" + "";
      }
    }
  }

  lemma HourText(c: Clock)
    ensures PartTexts(HourPart(c)) == if c.hours > 0 then [Digits(c.hours) + " h"] else []
  {
    if c.hours > 0 {
      var p := HourPart(c)[0];
      PartTextsSingle(p);
      assert PartText(p) == Digits(c.hours) + " h";
    }
  }

  lemma MinuteText(c: Clock)
    ensures PartTexts(MinutePart(c)) ==
      if c.minutes > 0
      then [(if c.days > 0 || c.hours > 0 then PadStart2(Digits(c.minutes)) else Digits(c.minutes)) + " min"]
      else []
  {
    if c.minutes > 0 {
      var p := MinutePart(c)[0];
      PartTextsSingle(p);
      assert PartText(p) == p.amount + " min";
    }
  }

  lemma SecondText(c: Clock)
    ensures PartTexts(SecondPart(c)) ==
      if c.seconds > 0 || |DayPart(c) + HourPart(c) + MinutePart(c)| == 0
      then [(if c.days > 0 || c.hours > 0 || c.minutes > 0 then PadStart2(Digits(c.seconds)) else Digits(c.seconds)) + " sec"]
      else []
  {
    if SecondPart(c) != [] {
      var p := SecondPart(c)[0];
      PartTextsSingle(p);
      assert PartText(p) == p.amount + " sec";
    }
  }

  lemma {:induction false} PartTextsAppend(a: seq<Part>, b: seq<Part>)
    ensures PartTexts(a + b) == PartTexts(a) + PartTexts(b)
    decreases |a|
  {
    if a != [] {
      assert (a + b)[0] == a[0];
      assert (a + b)[1..] == a[1..] + b;
      PartTextsAppend(a[1..], b);
    } else {
      assert a + b == b;
    }
  }

  /** The formatter as written: `seconds` is reduced step by step with `%=`
      and the parts are pushed onto a list that is finally joined. */
  method FormatDuration(totalSeconds: Number) returns (text: string)
    ensures text == DurationText(totalSeconds)
  {
    if totalSeconds.NotFinite? || totalSeconds.value < 0.0 {
      return "0 sec";
    }
    var seconds: nat := totalSeconds.value.Floor;
    ghost var n := seconds;
    var jours := seconds / 86400;
    seconds := seconds % 86400;
    var heures := seconds / 3600;
    seconds := seconds % 3600;
    var minutes := seconds / 60;
    var sec := seconds % 60;
    ghost var c := Clock(jours, heures, minutes, sec);
    ClockUnique(n, c);

    var parts: seq<string> := [];
    if jours > 0 {
      parts := parts + [Digits(jours) + " jour" + (if jours > 1 then "s" else "")];
    }
    DayText(c);
    assert parts == PartTexts(DayPart(c));
    if heures > 0 {
      parts := parts + [Digits(heures) + " h"];
    }
    HourText(c);
    PartTextsAppend(DayPart(c), HourPart(c));
    assert parts == PartTexts(DayPart(c) + HourPart(c));
    if minutes > 0 {
      parts := parts
        + [(if jours > 0 || heures > 0 then PadStart2(Digits(minutes)) else Digits(minutes)) + " min"];
    }
    MinuteText(c);
    PartTextsAppend(DayPart(c) + HourPart(c), MinutePart(c));
    assert parts == PartTexts(DayPart(c) + HourPart(c) + MinutePart(c));
    assert |parts| == |DayPart(c) + HourPart(c) + MinutePart(c)|;
    if sec > 0 || |parts| == 0 {
      parts := parts
        + [(if jours > 0 || heures > 0 || minutes > 0 then PadStart2(Digits(sec)) else Digits(sec)) + " sec"];
    }
    SecondText(c);
    PartTextsAppend(DayPart(c) + HourPart(c) + MinutePart(c), SecondPart(c));
    assert parts == PartTexts(Parts(c));
    ClockTextOf(n, c);
    text := Join(parts);
  }

  // ---------------------------------------------------------------------------
  // Reading a text back
  // ---------------------------------------------------------------------------

  /** The words of a text, taken two by two as amount and label. */
  function ReadParts(words: seq<string>): Option<seq<Part>>
    decreases |words|
  {
    if |words| == 0 then Some([])
    else if |words| == 1 then None
    else match ReadParts(words[2..])
      case None => None
      case Some(rest) => Some([Part(words[0], words[1])] + rest)
  }

  function PartsSeconds(ps: seq<Part>): Option<nat> {
    SumSeconds(ps, PartSeconds)
  }

  /** The seconds of a list of items, none if any item has none. */
  function SumSeconds<T>(xs: seq<T>, f: T -> Option<nat>): Option<nat>
    decreases |xs|
  {
    if |xs| == 0 then Some(0)
    else AddSeconds(f(xs[0]), SumSeconds(xs[1..], f))
  }

  function AddSeconds(a: Option<nat>, b: Option<nat>): Option<nat> {
    if a.Some? && b.Some? then Some(a.value + b.value) else None
  }

  /** The seconds one part stands for: its amount times the length of its unit. */
  function PartSeconds(p: Part): Option<nat> {
    match ParseNat(p.amount)
      case None => None
      case Some(a) => InSeconds(a, p.unitLabel)
  }

  function InSeconds(amount: nat, unitName: string): Option<nat> {
    if unitName == "jour" || unitName == "jours" then Some(amount * 86400)
    else if unitName == "h" then Some(amount * 3600)
    else if unitName == "min" then Some(amount * 60)
    else if unitName == "sec" then Some(amount)
    else None
  }

  /** The number of seconds a text stands for, if it is a well-formed text. */
  function ParseDuration(s: string): Option<nat> {
    match ReadParts(Split(s))
      case None => None
      case Some(ps) => if ps == [] then None else PartsSeconds(ps)
  }

  /** The amount shown with a given unit label, if a part with that label is shown. */
  function AmountShown(s: string, unitName: string): Option<string> {
    match ReadParts(Split(s))
      case None => None
      case Some(ps) => Lookup(ps, unitName)
  }

  function Lookup(ps: seq<Part>, unitName: string): Option<string>
    decreases |ps|
  {
    if |ps| == 0 then None
    else if ps[0].unitLabel == unitName then Some(ps[0].amount)
    else Lookup(ps[1..], unitName)
  }

  function Words(ps: seq<Part>): seq<string>
    decreases |ps|
  {
    if |ps| == 0 then [] else [ps[0].amount, ps[0].unitLabel] + Words(ps[1..])
  }

  lemma {:induction false} JoinPartTexts(ps: seq<Part>)
    ensures Join(PartTexts(ps)) == Join(Words(ps))
    decreases |ps|
  {
    if |ps| == 1 {
      assert Words(ps) == [ps[0].amount, ps[0].unitLabel];
      assert [ps[0].amount, ps[0].unitLabel][1..] == [ps[0].unitLabel];
    } else if |ps| > 1 {
      JoinPartTexts(ps[1..]);
      var w := Words(ps);
      assert w[1..][1..] == Words(ps[1..]);
      assert PartTexts(ps)[1..] == PartTexts(ps[1..]);
    }
  }

  lemma {:induction false} ReadWords(ps: seq<Part>)
    ensures ReadParts(Words(ps)) == Some(ps)
    decreases |ps|
  {
    if ps != [] {
      ReadWords(ps[1..]);
      assert Words(ps)[2..] == Words(ps[1..]);
      assert [ps[0]] + ps[1..] == ps;
    }
  }

  lemma {:induction false} WordsHaveNoSpace(ps: seq<Part>)
    requires forall i :: 0 <= i < |ps| ==> HasNoSpace(ps[i].amount) && HasNoSpace(ps[i].unitLabel)
    ensures forall i :: 0 <= i < |Words(ps)| ==> HasNoSpace(Words(ps)[i])
    ensures |Words(ps)| == 2 * |ps|
    decreases |ps|
  {
    if ps != [] {
      WordsHaveNoSpace(ps[1..]);
    }
  }

  lemma DigitsHaveNoSpace(s: string)
    requires AllDigits(s)
    ensures HasNoSpace(s)
  {
    forall i | 0 <= i < |s| ensures s[i] != ' ' {
      assert IsDigit(s[i]);
    }
  }

  lemma AmountIsDigits(padded: bool, n: nat)
    requires n < 100
    ensures AllDigits(Amount(padded, n)) && HasNoSpace(Amount(padded, n))
    ensures ParseNat(Amount(padded, n)) == Some(n)
    ensures |Amount(padded, n)| == 2 <==> padded || n >= 10
  {
    ParseDigits(n);
    ParsePaddedDigits(n);
    DigitsHaveNoSpace(Amount(padded, n));
  }

  /** Every part shown has a digit amount and a label without spaces, and
      at least one part is shown. */
  lemma PartsWellFormed(c: Clock)
    requires c.hours < 24 && c.minutes < 60 && c.seconds < 60
    ensures 1 <= |Parts(c)| <= 4
    ensures forall i :: 0 <= i < |Parts(c)| ==>
      AllDigits(Parts(c)[i].amount) && HasNoSpace(Parts(c)[i].amount) && HasNoSpace(Parts(c)[i].unitLabel)
  {
    PiecesWellShown(c);
    AllWellShown(DayPart(c), HourPart(c), MinutePart(c), SecondPart(c));
    forall i | 0 <= i < |Parts(c)|
      ensures AllDigits(Parts(c)[i].amount) && HasNoSpace(Parts(c)[i].amount) && HasNoSpace(Parts(c)[i].unitLabel)
    {
      assert WellShown(Parts(c)[i]);
    }
  }

  lemma PiecesWellShown(c: Clock)
    requires c.minutes < 60 && c.seconds < 60
    ensures forall p | p in DayPart(c) :: WellShown(p)
    ensures forall p | p in HourPart(c) :: WellShown(p)
    ensures forall p | p in MinutePart(c) :: WellShown(p)
    ensures forall p | p in SecondPart(c) :: WellShown(p)
  {
    DigitsHaveNoSpace(Digits(c.days));
    DigitsHaveNoSpace(Digits(c.hours));
    AmountIsDigits(c.days > 0 || c.hours > 0, c.minutes);
    AmountIsDigits(c.days > 0 || c.hours > 0 || c.minutes > 0, c.seconds);
  }

  lemma AllWellShown(a: seq<Part>, b: seq<Part>, c: seq<Part>, d: seq<Part>)
    requires forall p | p in a :: WellShown(p)
    requires forall p | p in b :: WellShown(p)
    requires forall p | p in c :: WellShown(p)
    requires forall p | p in d :: WellShown(p)
    ensures forall i | 0 <= i < |a + b + c + d| :: WellShown((a + b + c + d)[i])
  {
    forall i | 0 <= i < |a + b + c + d| ensures WellShown((a + b + c + d)[i]) {
      assert (a + b + c + d)[i] in a + b + c + d;
    }
  }

  predicate WellShown(p: Part) {
    AllDigits(p.amount) && HasNoSpace(p.amount) && HasNoSpace(p.unitLabel)
  }

  /** The words of a clock's text are exactly its parts, read back two by two. */
  lemma ReadBack(c: Clock)
    requires c.hours < 24 && c.minutes < 60 && c.seconds < 60
    ensures ReadParts(Split(Join(PartTexts(Parts(c))))) == Some(Parts(c))
  {
    var ps := Parts(c);
    PartsWellFormed(c);
    JoinPartTexts(ps);
    WordsHaveNoSpace(ps);
    SplitJoin(Words(ps));
    ReadWords(ps);
  }

  lemma PartsSecondsSingle(p: Part)
    ensures PartsSeconds([p]) == PartSeconds(p)
  {
    assert [p][1..] == [];
    assert SumSeconds([p][1..], PartSeconds) == Some(0);
    assert PartsSeconds([p]) == AddSeconds(PartSeconds(p), Some(0));
  }

  lemma {:induction false} SumSecondsAppend<T>(a: seq<T>, b: seq<T>, f: T -> Option<nat>)
    requires SumSeconds(a, f).Some? && SumSeconds(b, f).Some?
    ensures SumSeconds(a + b, f) == Some(SumSeconds(a, f).value + SumSeconds(b, f).value)
    decreases |a|
  {
    if |a| == 0 {
      assert a + b == b;
    } else {
      assert (a + b)[0] == a[0];
      assert (a + b)[1..] == a[1..] + b;
      SumSecondsAppend(a[1..], b, f);
    }
  }

  lemma DaySeconds(c: Clock)
    ensures PartsSeconds(DayPart(c)) == Some(c.days * 86400)
  {
    if c.days > 0 {
      ParseDigits(c.days);
      PartsSecondsSingle(DayPart(c)[0]);
    }
  }

  lemma HourSeconds(c: Clock)
    ensures PartsSeconds(HourPart(c)) == Some(c.hours * 3600)
  {
    if c.hours > 0 {
      ParseDigits(c.hours);
      PartsSecondsSingle(HourPart(c)[0]);
    }
  }

  lemma MinuteSeconds(c: Clock)
    requires c.minutes < 60
    ensures PartsSeconds(MinutePart(c)) == Some(c.minutes * 60)
  {
    if c.minutes > 0 {
      AmountIsDigits(c.days > 0 || c.hours > 0, c.minutes);
      PartsSecondsSingle(MinutePart(c)[0]);
    }
  }

  lemma SecondSeconds(c: Clock)
    requires c.seconds < 60
    ensures PartsSeconds(SecondPart(c)) == Some(c.seconds)
  {
    if SecondPart(c) != [] {
      AmountIsDigits(c.days > 0 || c.hours > 0 || c.minutes > 0, c.seconds);
      PartsSecondsSingle(SecondPart(c)[0]);
    } else {
      assert c.seconds == 0;
    }
  }

  /** The parts of a clock add up to the number of seconds it stands for. */
  lemma PartsSecondsOf(c: Clock)
    requires c.hours < 24 && c.minutes < 60 && c.seconds < 60
    ensures PartsSeconds(Parts(c)) == Some(c.days * 86400 + c.hours * 3600 + c.minutes * 60 + c.seconds)
  {
    DaySeconds(c);
    HourSeconds(c);
    MinuteSeconds(c);
    SecondSeconds(c);
    SumOfFour(DayPart(c), HourPart(c), MinutePart(c), SecondPart(c), PartSeconds,
              c.days * 86400, c.hours * 3600, c.minutes * 60, c.seconds);
  }

  lemma SumOfFour<T>(a: seq<T>, b: seq<T>, c: seq<T>, d: seq<T>, f: T -> Option<nat>,
                     w: nat, x: nat, y: nat, z: nat)
    requires SumSeconds(a, f) == Some(w) && SumSeconds(b, f) == Some(x)
    requires SumSeconds(c, f) == Some(y) && SumSeconds(d, f) == Some(z)
    ensures SumSeconds(a + b + c + d, f) == Some(w + x + y + z)
  {
    SumSecondsAppend(a, b, f);
    SumSecondsAppend(a + b, c, f);
    SumSecondsAppend(a + b + c, d, f);
  }

  /** A clock that decomposes n gives the text of n. */
  lemma ClockTextOf(n: nat, c: Clock)
    requires Decomposes(c, n)
    ensures ClockText(n) == Join(PartTexts(Parts(c)))
  {
    ClockUnique(n, c);
  }

  lemma ZeroClockParts()
    ensures PartTexts(Parts(Clock(0, 0, 0, 0))) == ["0 sec"]
  {
    var c := Clock(0, 0, 0, 0);
    assert Digits(0) == "0";
    assert DayPart(c) + HourPart(c) + MinutePart(c) == [];
    SecondText(c);
    PartTextsAppend(DayPart(c) + HourPart(c) + MinutePart(c), SecondPart(c));
    assert PartTexts(SecondPart(c)) == ["0" + " sec"];
    assert "0" + " sec" == "0 sec";
    assert PartTexts(DayPart(c) + HourPart(c) + MinutePart(c)) == [];
  }

  lemma ClockTextZero()
    ensures ClockText(0) == "0 sec"
  {
    ClockTextOf(0, Clock(0, 0, 0, 0));
    ZeroClockParts();
  }

  /** The text of any input is the text of the whole number of seconds it stands for. */
  lemma DurationTextIsClockText(totalSeconds: Number)
    ensures DurationText(totalSeconds) == ClockText(WholeSeconds(totalSeconds))
  {
    if totalSeconds.NotFinite? || totalSeconds.value < 0.0 {
      ClockTextZero();
    }
  }

  /** The text always reads back as the whole number of seconds it was made
      from, so no two whole durations share a text. */
  lemma FormatParseRoundTrip(totalSeconds: Number)
    ensures ParseDuration(DurationText(totalSeconds)) == Some(WholeSeconds(totalSeconds))
  {
    DurationTextIsClockText(totalSeconds);
    ClockTextRoundTrip(WholeSeconds(totalSeconds));
  }

  lemma ClockTextRoundTrip(n: nat)
    ensures ParseDuration(ClockText(n)) == Some(n)
  {
    var c := ClockOf(n);
    ClockTextOf(n, c);
    ClockRoundTrip(c);
  }

  lemma ClockRoundTrip(c: Clock)
    requires c.hours < 24 && c.minutes < 60 && c.seconds < 60
    ensures ParseDuration(Join(PartTexts(Parts(c)))) ==
      Some(c.days * 86400 + c.hours * 3600 + c.minutes * 60 + c.seconds)
  {
    ReadBack(c);
    PartsWellFormed(c);
    PartsSecondsOf(c);
  }

  /** The text is never empty, and it is "0 sec" exactly when the input is
      negative, not finite, or rounds down to zero. */
  lemma ZeroText(totalSeconds: Number)
    ensures DurationText(totalSeconds) == "0 sec" <==> WholeSeconds(totalSeconds) == 0
    ensures DurationText(totalSeconds) != ""
  {
    ClockTextZero();
    FormatParseRoundTrip(totalSeconds);
    FormatParseRoundTrip(Finite(0.0));
    assert ParseDuration("") == None by {
      assert Split("") == [""];
    }
  }

  lemma LookupSingle(p: Part, unitName: string)
    ensures Lookup([p], unitName) == if p.unitLabel == unitName then Some(p.amount) else None
  {
    assert [p][1..] == [];
  }

  lemma {:induction false} LookupAppend(a: seq<Part>, b: seq<Part>, unitName: string)
    ensures Lookup(a + b, unitName) ==
      if Lookup(a, unitName).Some? then Lookup(a, unitName) else Lookup(b, unitName)
    decreases |a|
  {
    if a != [] {
      assert (a + b)[0] == a[0];
      assert (a + b)[1..] == a[1..] + b;
      LookupAppend(a[1..], b, unitName);
    } else {
      assert a + b == b;
    }
  }

  /** Looking up a unit in a clock's parts finds the one piece with that label. */
  lemma LookupParts(c: Clock, unitName: string)
    ensures Lookup(Parts(c), unitName) ==
      if Lookup(DayPart(c), unitName).Some? then Lookup(DayPart(c), unitName)
      else if Lookup(HourPart(c), unitName).Some? then Lookup(HourPart(c), unitName)
      else if Lookup(MinutePart(c), unitName).Some? then Lookup(MinutePart(c), unitName)
      else Lookup(SecondPart(c), unitName)
  {
    LookupAppend(DayPart(c), HourPart(c), unitName);
    LookupAppend(DayPart(c) + HourPart(c), MinutePart(c), unitName);
    LookupAppend(DayPart(c) + HourPart(c) + MinutePart(c), SecondPart(c), unitName);
  }

  lemma PiecesLookup(c: Clock, unitName: string)
    ensures Lookup(DayPart(c), unitName) ==
      if c.days > 0 && DayLabel(c.days) == unitName then Some(Digits(c.days)) else None
    ensures Lookup(HourPart(c), unitName) ==
      if c.hours > 0 && unitName == "h" then Some(Digits(c.hours)) else None
    ensures Lookup(MinutePart(c), unitName) ==
      if c.minutes > 0 && unitName == "min" then Some(Amount(c.days > 0 || c.hours > 0, c.minutes)) else None
    ensures Lookup(SecondPart(c), unitName) ==
      if SecondPart(c) != [] && unitName == "sec"
      then Some(Amount(c.days > 0 || c.hours > 0 || c.minutes > 0, c.seconds)) else None
  {
    if c.days > 0 { LookupSingle(DayPart(c)[0], unitName); }
    if c.hours > 0 { LookupSingle(HourPart(c)[0], unitName); }
    if c.minutes > 0 { LookupSingle(MinutePart(c)[0], unitName); }
    if SecondPart(c) != [] { LookupSingle(SecondPart(c)[0], unitName); }
  }

  /** What the text of a clock shows for each unit label. */
  lemma ClockShows(c: Clock)
    ensures Lookup(Parts(c), "jours") == if c.days > 1 then Some(Digits(c.days)) else None
    ensures Lookup(Parts(c), "jour") == if c.days == 1 then Some(Digits(c.days)) else None
    ensures Lookup(Parts(c), "h") == if c.hours > 0 then Some(Digits(c.hours)) else None
    ensures Lookup(Parts(c), "min") ==
      if c.minutes > 0 then Some(Amount(c.days > 0 || c.hours > 0, c.minutes)) else None
    ensures Lookup(Parts(c), "sec") ==
      if c.seconds > 0 || (c.days == 0 && c.hours == 0 && c.minutes == 0)
      then Some(Amount(c.days > 0 || c.hours > 0 || c.minutes > 0, c.seconds)) else None
  {
    LookupParts(c, "jours"); PiecesLookup(c, "jours");
    LookupParts(c, "jour"); PiecesLookup(c, "jour");
    LookupParts(c, "h"); PiecesLookup(c, "h");
    LookupParts(c, "min"); PiecesLookup(c, "min");
    LookupParts(c, "sec"); PiecesLookup(c, "sec");
  }

  /** Which parts the text shows: days (as "jours" from two on), hours and
      minutes when non-zero, seconds when non-zero or when nothing else is shown. */
  lemma PartsShown(totalSeconds: Number)
    ensures var c := ClockOf(WholeSeconds(totalSeconds));
      var s := DurationText(totalSeconds);
      (AmountShown(s, "jours").Some? <==> c.days > 1) &&
      (AmountShown(s, "jour").Some? <==> c.days == 1) &&
      (AmountShown(s, "h").Some? <==> c.hours > 0) &&
      (AmountShown(s, "min").Some? <==> c.minutes > 0) &&
      (AmountShown(s, "sec").Some? <==> c.seconds > 0 || (c.days == 0 && c.hours == 0 && c.minutes == 0))
  {
    var n := WholeSeconds(totalSeconds);
    DurationTextIsClockText(totalSeconds);
    ClockTextShows(n, "jours");
    ClockTextShows(n, "jour");
    ClockTextShows(n, "h");
    ClockTextShows(n, "min");
    ClockTextShows(n, "sec");
    ClockShows(ClockOf(n));
  }

  lemma ClockTextShows(n: nat, unitName: string)
    ensures AmountShown(ClockText(n), unitName) == Lookup(Parts(ClockOf(n)), unitName)
  {
    var c := ClockOf(n);
    ClockTextOf(n, c);
    ReadBack(c);
  }

  /** Each shown amount reads back as its unit's value; minutes take two digits
      exactly when days or hours are shown (or when they reach ten), seconds
      exactly when any higher unit is shown (or when they reach ten). */
  lemma AmountsShown(totalSeconds: Number)
    ensures var c := ClockOf(WholeSeconds(totalSeconds));
      var s := DurationText(totalSeconds);
      AmountsRead(c, AmountShown(s, DayLabel(c.days)), AmountShown(s, "h"),
                  AmountShown(s, "min"), AmountShown(s, "sec"))
  {
    DurationTextIsClockText(totalSeconds);
    ClockTextAmounts(WholeSeconds(totalSeconds));
  }

  lemma ClockTextAmounts(n: nat)
    ensures var c := ClockOf(n);
      var s := ClockText(n);
      AmountsRead(c, AmountShown(s, DayLabel(c.days)), AmountShown(s, "h"),
                  AmountShown(s, "min"), AmountShown(s, "sec"))
  {
    var c := ClockOf(n);
    ClockTextShows(n, DayLabel(c.days));
    ClockTextShows(n, "h");
    ClockTextShows(n, "min");
    ClockTextShows(n, "sec");
    ClockAmounts(c);
  }

  /** Each amount shown is its unit's value of the clock in decimal, and reads
      back as that value; days and hours are never padded, minutes are padded
      to two digits when days or hours are shown, seconds when any higher unit
      is. */
  predicate AmountsRead(c: Clock, days: Option<string>, hours: Option<string>,
                        minutes: Option<string>, seconds: Option<string>)
  {
      (days.Some? ==> days.value == Digits(c.days) && ParseNat(days.value) == Some(c.days)) &&
      (hours.Some? ==> hours.value == Digits(c.hours) && ParseNat(hours.value) == Some(c.hours)) &&
      (minutes.Some? ==>
        minutes.value == Amount(c.days > 0 || c.hours > 0, c.minutes) &&
        ParseNat(minutes.value) == Some(c.minutes) &&
        (|minutes.value| == 2 <==> c.days > 0 || c.hours > 0 || c.minutes >= 10)) &&
      (seconds.Some? ==>
        seconds.value == Amount(c.days > 0 || c.hours > 0 || c.minutes > 0, c.seconds) &&
        ParseNat(seconds.value) == Some(c.seconds) &&
        (|seconds.value| == 2 <==> c.days > 0 || c.hours > 0 || c.minutes > 0 || c.seconds >= 10))
  }

  lemma ClockAmounts(c: Clock)
    requires c.hours < 24 && c.minutes < 60 && c.seconds < 60
    ensures AmountsRead(c, Lookup(Parts(c), DayLabel(c.days)), Lookup(Parts(c), "h"),
                        Lookup(Parts(c), "min"), Lookup(Parts(c), "sec"))
  {
    ClockShows(c);
    ParseDigits(c.days);
    ParseDigits(c.hours);
    AmountIsDigits(c.days > 0 || c.hours > 0, c.minutes);
    AmountIsDigits(c.days > 0 || c.hours > 0 || c.minutes > 0, c.seconds);
  }

  /** The text of n, piece by piece, for a clock that decomposes n. */
  lemma ClockTextPieces(n: nat, c: Clock)
    requires Decomposes(c, n)
    ensures ClockText(n) ==
      Join(PartTexts(DayPart(c)) + PartTexts(HourPart(c)) + PartTexts(MinutePart(c)) + PartTexts(SecondPart(c)))
  {
    ClockTextOf(n, c);
    PartTextsAppend(DayPart(c), HourPart(c));
    PartTextsAppend(DayPart(c) + HourPart(c), MinutePart(c));
    PartTextsAppend(DayPart(c) + HourPart(c) + MinutePart(c), SecondPart(c));
  }

  function PiecesText(c: Clock): string {
    Join(PartTexts(DayPart(c)) + PartTexts(HourPart(c)) + PartTexts(MinutePart(c)) + PartTexts(SecondPart(c)))
  }

  lemma TextOfWhole(x: real, n: nat, c: Clock)
    requires x >= 0.0 && x.Floor == n && Decomposes(c, n)
    ensures DurationText(Finite(x)) == PiecesText(c)
  {
    DurationTextIsClockText(Finite(x));
    ClockTextPieces(n, c);
  }

  lemma ExampleFortyFive()
    ensures DurationText(Finite(45.5)) == "45 sec"
  {
    TextOfWhole(45.5, 45, Clock(0, 0, 0, 45));
    ExampleFortyFivePieces();
  }

  lemma ExampleFortyFivePieces()
    ensures PiecesText(Clock(0, 0, 0, 45)) == "45 sec"
  {
    var c := Clock(0, 0, 0, 45);
    SecondText(c);
    assert Digits(45) == "45";
    assert "45" + " sec" == "45 sec";
  }

  lemma ExampleSixtyFive()
    ensures DurationText(Finite(65.0)) == "1 min 05 sec"
  {
    TextOfWhole(65.0, 65, Clock(0, 0, 1, 5));
    ExampleSixtyFivePieces();
  }

  lemma ExampleSixtyFivePieces()
    ensures PiecesText(Clock(0, 0, 1, 5)) == "1 min 05 sec"
  {
    var c := Clock(0, 0, 1, 5);
    MinuteText(c);
    SecondText(c);
    assert Digits(1) == "1" && Digits(5) == "5";
    assert PadStart2("5") == "05";
    assert "1" + " min" == "1 min" && "05" + " sec" == "05 sec";
    assert Join(["1 min", "05 sec"]) == "1 min 05 sec";
  }

  lemma ExampleOneHour()
    ensures DurationText(Finite(3600.0)) == "1 h"
  {
    TextOfWhole(3600.0, 3600, Clock(0, 1, 0, 0));
    ExampleOneHourPieces();
  }

  lemma ExampleOneHourPieces()
    ensures PiecesText(Clock(0, 1, 0, 0)) == "1 h"
  {
    var c := Clock(0, 1, 0, 0);
    HourText(c);
    assert Digits(1) == "1";
    assert "1" + " h" == "1 h";
  }

  lemma ExampleOneHourOneSecond()
    ensures DurationText(Finite(3601.0)) == "1 h 01 sec"
  {
    TextOfWhole(3601.0, 3601, Clock(0, 1, 0, 1));
    ExampleOneHourOneSecondPieces();
  }

  lemma ExampleOneHourOneSecondPieces()
    ensures PiecesText(Clock(0, 1, 0, 1)) == "1 h 01 sec"
  {
    var c := Clock(0, 1, 0, 1);
    HourText(c);
    SecondText(c);
    assert Digits(1) == "1";
    assert PadStart2("1") == "01";
    assert "1" + " h" == "1 h" && "01" + " sec" == "01 sec";
    assert Join(["1 h", "01 sec"]) == "1 h 01 sec";
  }

  lemma ExampleHourMinuteSecond()
    ensures DurationText(Finite(3661.0)) == "1 h 01 min 01 sec"
  {
    TextOfWhole(3661.0, 3661, Clock(0, 1, 1, 1));
    ExampleHourMinuteSecondPieces();
  }

  lemma ExampleHourMinuteSecondPieces()
    ensures PiecesText(Clock(0, 1, 1, 1)) == "1 h 01 min 01 sec"
  {
    var c := Clock(0, 1, 1, 1);
    ExampleHourMinuteSecondTexts();
    var h, m, sec := "1 h", "01 min", "01 sec";
    assert PartTexts(DayPart(c)) + [h] + [m] + [sec] == [h, m, sec];
    JoinThree(h, m, sec);
    assert h + " " + m + " " + sec == "1 h 01 min 01 sec";
  }

  lemma ExampleHourMinuteSecondTexts()
    ensures PartTexts(DayPart(Clock(0, 1, 1, 1))) == []
    ensures PartTexts(HourPart(Clock(0, 1, 1, 1))) == ["1 h"]
    ensures PartTexts(MinutePart(Clock(0, 1, 1, 1))) == ["01 min"]
    ensures PartTexts(SecondPart(Clock(0, 1, 1, 1))) == ["01 sec"]
  {
    var c := Clock(0, 1, 1, 1);
    HourText(c);
    MinuteText(c);
    SecondText(c);
    assert Digits(1) == "1";
    assert PadStart2("1") == "01";
    assert "1" + " h" == "1 h" && "01" + " min" == "01 min" && "01" + " sec" == "01 sec";
  }

  lemma ExampleOneDayOneHour()
    ensures DurationText(Finite(90000.0)) == "1 jour 1 h"
  {
    TextOfWhole(90000.0, 90000, Clock(1, 1, 0, 0));
    ExampleOneDayOneHourPieces();
  }

  lemma ExampleOneDayOneHourPieces()
    ensures PiecesText(Clock(1, 1, 0, 0)) == "1 jour 1 h"
  {
    var c := Clock(1, 1, 0, 0);
    DayText(c);
    HourText(c);
    assert Digits(1) == "1";
    assert "1" + " jour" + "" == "1 jour" && "1" + " h" == "1 h";
    assert PartTexts(DayPart(c)) == ["1 jour"];
    assert PartTexts(DayPart(c)) + PartTexts(HourPart(c)) + PartTexts(MinutePart(c)) + PartTexts(SecondPart(c))
      == ["1 jour", "1 h"];
    assert Join(["1 jour", "1 h"]) == "1 jour 1 h";
  }

  lemma ExampleTwoDays()
    ensures DurationText(Finite(172800.0)) == "2 jours"
  {
    TextOfWhole(172800.0, 172800, Clock(2, 0, 0, 0));
    ExampleTwoDaysPieces();
  }

  lemma ExampleTwoDaysPieces()
    ensures PiecesText(Clock(2, 0, 0, 0)) == "2 jours"
  {
    var c := Clock(2, 0, 0, 0);
    DayText(c);
    assert Digits(2) == "2";
    assert "2" + " jour" + "s" == "2 jours";
  }

  // ---------------------------------------------------------------------------
  // The form: validity, the estimate, the start button
  // ---------------------------------------------------------------------------

  /** isValid: every field parses to a finite number, the volume is not
      negative and both parts of the rate are positive. */
  predicate IsValid(volume: Number, speed: Number, perTime: Number) {
    volume.Finite? && speed.Finite? && perTime.Finite? &&
    volume.value >= 0.0 && speed.value > 0.0 && perTime.value > 0.0
  }

  /** timeInSeconds: the number of intervals the volume (in millilitres) needs
      at `speed` millilitres per interval, times the interval length. */
  function TimeInSeconds(volume: Number, speed: Number, perTime: Number): (t: real)
    ensures t >= 0.0
    ensures !IsValid(volume, speed, perTime) ==> t == 0.0
    ensures IsValid(volume, speed, perTime) ==>
      t * speed.value == volume.value * 1000.0 * perTime.value
  {
    if IsValid(volume, speed, perTime)
    then (volume.value * 1000.0 / speed.value) * perTime.value
    else 0.0
  }

  lemma DivideMonotone(a: real, b: real, s1: real, s2: real)
    requires 0.0 <= a <= b && 0.0 < s2 <= s1
    ensures a / s1 <= b / s2
  {
    var q1, q2 := a / s1, b / s2;
    assert q1 * s1 == a && q2 * s2 == b;
    assert q1 >= 0.0 && q2 >= 0.0;
    if q1 > q2 {
      assert q1 * s1 > q2 * s1;
      assert q2 * s1 >= q2 * s2;
    }
  }

  lemma MultiplyMonotone(a: real, b: real, p1: real, p2: real)
    requires 0.0 <= a <= b && 0.0 <= p1 <= p2
    ensures a * p1 <= b * p2
  {
    assert a * p1 <= b * p1;
    assert b * p1 <= b * p2;
  }

  /** A larger volume or a longer interval never gives a shorter estimate,
      and a faster flow never gives a longer one. */
  lemma TimeInSecondsMonotone(v1: real, v2: real, s1: real, s2: real, p1: real, p2: real)
    requires 0.0 <= v1 <= v2 && 0.0 < s2 <= s1 && 0.0 < p1 <= p2
    ensures TimeInSeconds(Finite(v1), Finite(s1), Finite(p1)) <= TimeInSeconds(Finite(v2), Finite(s2), Finite(p2))
  {
    DivideMonotone(v1 * 1000.0, v2 * 1000.0, s1, s2);
    MultiplyMonotone(v1 * 1000.0 / s1, v2 * 1000.0 / s2, p1, p2);
  }

  /** The estimate shown under "Durée estimée". */
  function EstimateText(volume: Number, speed: Number, perTime: Number): string {
    DurationText(Finite(TimeInSeconds(volume, speed, perTime)))
  }

  lemma InvalidEstimateText(volume: Number, speed: Number, perTime: Number)
    requires !IsValid(volume, speed, perTime)
    ensures EstimateText(volume, speed, perTime) == "0 sec"
  {
    ClockTextZero();
  }

  /** The end date shown under the estimate, relative to the time of mount
      (`None` until the page has read the clock). */
  function EndDate(now: Option<real>, volume: Number, speed: Number, perTime: Number): (r: Option<real>)
    ensures r.Some? <==> IsValid(volume, speed, perTime) && volume.value > 0.0 && now.Some?
    ensures r.Some? ==> r.value > now.value
  {
    if IsValid(volume, speed, perTime) && volume.value > 0.0 && now.Some?
    then Some(now.value + TimeInSeconds(volume, speed, perTime) * 1000.0)
    else None
  }

  /** What the start button passes on: the volume in litres and the flow in
      millilitres per second. */
  datatype StartArgs = StartArgs(startLiters: real, mlPerSec: real)

  /** The start button's handler: nothing happens unless the form is valid. */
  function StartClick(volume: Number, speed: Number, perTime: Number): (r: Option<StartArgs>)
    ensures r.Some? <==> IsValid(volume, speed, perTime)
    ensures r.Some? ==> r.value.startLiters == volume.value && r.value.mlPerSec > 0.0
    ensures r.Some? ==> r.value.mlPerSec * perTime.value == speed.value
    ensures r.Some? ==>
      r.value.startLiters * 1000.0 / r.value.mlPerSec == TimeInSeconds(volume, speed, perTime)
  {
    if !IsValid(volume, speed, perTime) then None
    else Some(StartArgs(Max(0.0, volume.value), speed.value / perTime.value))
  }

  /** The button is disabled unless the form is valid and the volume positive. */
  predicate StartEnabled(volume: Number, speed: Number, perTime: Number) {
    IsValid(volume, speed, perTime) && volume.value > 0.0
  }

  lemma EnabledStartStartsSomething(volume: Number, speed: Number, perTime: Number, now: real)
    requires StartEnabled(volume, speed, perTime)
    ensures StartClick(volume, speed, perTime).Some?
    ensures StartClick(volume, speed, perTime).value.startLiters > 0.0
    ensures EndDate(Some(now), volume, speed, perTime).Some?
  {
  }
}
