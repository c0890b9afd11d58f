/** The `/answer` handler (index.js:124-148): a French sentence that reads
    the suggested slots out in UTC+1, the first one with its date and every
    later one as " et de ... heures à ... heures". */
module Answer {
  import opened Boundary
  import opened Calendar
  import opened Decimal
  import opened Intervals

  const MissingSuggestedMessage :=
    "Invalid input, 'suggested_slots' is required and should contain an array of slots."

  /** The fixed shift to UTC+1 (`60 * 60 * 1000`), whatever the season. */
  const Shift := MsPerHour

  /** The names `toLocaleString('fr-FR', { month: 'long' })` gives the
      months, January first. */
  const MonthNames := ["janvier", "février", "mars", "avril", "mai", "juin", "juillet",
                       "août", "septembre", "octobre", "novembre", "décembre"]

  /** The French name of month `m` (1 to 12). */
  function MonthName(m: int): (name: string)
    requires 1 <= m <= 12
    ensures |name| > 0 && NoSpace(name)
  {
    MonthNames[m - 1]
  }

  /** The month a French month name stands for, if any. */
  function MonthNumber(name: string): (m: Option<int>)
    ensures m.Some? ==> 1 <= m.value <= 12 && MonthName(m.value) == name
  {
    if name in MonthNames then
      var i :| 0 <= i < |MonthNames| && MonthNames[i] == name;
      Some(i + 1)
    else None
  }

  /** `MonthNumber` reads every month name back as its month. */
  lemma MonthNumberOfName(m: int)
    requires 1 <= m <= 12
    ensures MonthNumber(MonthName(m)) == Some(m)
  {
    MonthNamesDistinct();
  }

  lemma MonthNamesDistinct()
    ensures forall i, j :: 0 <= i < j < |MonthNames| ==> MonthNames[i] != MonthNames[j]
  {
    forall i, j | 0 <= i < j < |MonthNames|
      ensures MonthNames[i] != MonthNames[j]
    {
      var a, b := MonthNames[i], MonthNames[j];
      if |a| == |b| {
        assert a[0] != b[0] || a[1] != b[1] || a[2] != b[2];
      }
    }
  }

  /** `new Date(t + 60 * 60 * 1000).getUTCHours()`: the hour shown for instant `t`. */
  function ShownHour(t: Instant): (h: nat)
    ensures h < 24
  {
    HourOf(t + Shift)
  }

  /** The shown hour is the UTC hour plus one, wrapping from 23 to 0. */
  lemma {:induction false} ShownHourWraps(t: Instant)
    ensures ShownHour(t) == (HourOf(t) + 1) % 24
  {
    var q := t / MsPerHour;
    assert (t + MsPerHour) / MsPerHour == q + 1;
    var a, b := q / 24, q % 24;
    assert q + 1 == a * 24 + (b + 1);
    if b < 23 {
      assert (q + 1) % 24 == b + 1;
    } else {
      assert q + 1 == (a + 1) * 24;
    }
  }

  /** The UTC date of the shifted start instant (`getUTCDate()` and the month
      of the same instant). */
  function ShownDate(t: Instant): (date: Date)
    ensures ValidDate(date)
  {
    CivilFromDays(DayNumber(t + Shift))
  }

  /** The shown date is that of the next UTC day exactly when the UTC hour is 23. */
  lemma {:induction false} ShownDayNumber(t: Instant)
    ensures DayNumber(t + Shift) == DayNumber(t) + (if HourOf(t) == 23 then 1 else 0)
  {
    var h := HourOf(t);
    var d := DayNumber(t);
    assert d * MsPerDay + h * MsPerHour <= t < d * MsPerDay + (h + 1) * MsPerHour;
    if h == 23 {
      assert (d + 1) * MsPerDay <= t + MsPerHour < (d + 2) * MsPerDay;
    } else {
      assert d * MsPerDay <= t + MsPerHour < (d + 1) * MsPerDay;
    }
  }

  /** The shown date is the civil date of the UTC day of `t`, or of the next
      one when the UTC hour is 23. */
  lemma ShownDateNumber(t: Instant)
    ensures DaysFromCivil(ShownDate(t)) == DayNumber(t) + (if HourOf(t) == 23 then 1 else 0)
  {
    ShownDayNumber(t);
    DaysFromCivilOfCivilFromDays(DayNumber(t + Shift));
  }

  /** A month number, 1 for January to 12 for December. */
  type Month = m: int | 1 <= m <= 12 witness 1

  /** What the sentence shows of one slot: the UTC+1 day and month of its
      start and the UTC+1 hours of its start and end. */
  datatype Shown = Shown(day: nat, month: Month, from: nat, to: nat)

  /** index.js:133-140 for one slot. */
  function ShowSlot(slot: Interval): (x: Shown)
    ensures 1 <= x.day <= 31 && x.from < 24 && x.to < 24
    ensures x.from == (HourOf(slot.start) + 1) % 24 && x.to == (HourOf(slot.end) + 1) % 24
    ensures var date := ShownDate(slot.start);
      && x.month == date.month && x.day == date.day
      && DaysFromCivil(date) == DayNumber(slot.start) + (if HourOf(slot.start) == 23 then 1 else 0)
  {
    ShownHourWraps(slot.start);
    ShownHourWraps(slot.end);
    ShownDateNumber(slot.start);
    var date := ShownDate(slot.start);
    Shown(date.day, date.month, ShownHour(slot.start), ShownHour(slot.end))
  }

  function ShowSlots(slots: seq<Interval>): (r: seq<Shown>)
    ensures |r| == |slots|
    ensures forall i :: 0 <= i < |slots| ==> r[i] == ShowSlot(slots[i])
  {
    if |slots| == 0 then [] else [ShowSlot(slots[0])] + ShowSlots(slots[1..])
  }

  /** `{startHour} heures à {endHour} heures`. */
  function Hours(x: Shown): string {
    ShowNat(x.from) + (" heures à " + (ShowNat(x.to) + " heures"))
  }

  /** The text index.js:141 writes for the first slot. */
  function Lead(x: Shown): string {
    "le " + (PadTwo(x.day) + (" " + (MonthName(x.month) + (" de " + Hours(x)))))
  }

  /** The text index.js:143 writes for every later slot. */
  function Later(x: Shown): string {
    " et de " + Hours(x)
  }

  /** What index.js:140-144 appends for the slot at `index`. */
  function Piece(index: nat, x: Shown): string {
    if index == 0 then Lead(x) else Later(x)
  }

  /** `responseText` after the `forEach` of index.js:131-145 has visited every
      slot: each one appends its piece in turn. */
  function Sentence(xs: seq<Shown>): (r: string)
    ensures |xs| == 0 <==> r == ""
    ensures |xs| > 0 ==> |Lead(xs[0])| <= |r| && r[..|Lead(xs[0])|] == Lead(xs[0])
  {
    if |xs| == 0 then ""
    else
      var init, piece := xs[..|xs| - 1], Piece(|xs| - 1, xs[|xs| - 1]);
      if |init| == 0 then
        assert Sentence(init) + piece == piece;
        Sentence(init) + piece
      else
        assert init[0] == xs[0];
        PrefixOfAppend(Sentence(init), piece, |Lead(xs[0])|);
        Sentence(init) + piece
  }

  lemma PrefixOfAppend<T>(a: seq<T>, b: seq<T>, k: nat)
    requires k <= |a|
    ensures (a + b)[..k] == a[..k]
  {
  }

  /** The pieces of the later slots, read from the front. */
  function Laters(xs: seq<Shown>): string {
    if |xs| == 0 then "" else Later(xs[0]) + Laters(xs[1..])
  }

  lemma {:induction false} LatersSnoc(xs: seq<Shown>, x: Shown)
    ensures Laters(xs + [x]) == Laters(xs) + Later(x)
  {
    if |xs| == 0 {
      assert [x][1..] == [];
    } else {
      assert (xs + [x])[1..] == xs[1..] + [x];
      LatersSnoc(xs[1..], x);
    }
  }

  /** The sentence is the first slot's lead followed by the later slots'
      pieces, in order. */
  lemma {:induction false} SentenceShape(xs: seq<Shown>)
    requires |xs| > 0
    ensures Sentence(xs) == Lead(xs[0]) + Laters(xs[1..])
  {
    if |xs| == 1 {
      SentenceOne(xs);
    } else {
      var init := xs[..|xs| - 1];
      SentenceShape(init);
      SentenceStep(xs);
      TailOfInit(xs);
      LatersSnoc(init[1..], xs[|xs| - 1]);
      AppendAssoc(Lead(xs[0]), Laters(init[1..]), Later(xs[|xs| - 1]));
    }
  }

  lemma {:induction false} SentenceOne(xs: seq<Shown>)
    requires |xs| == 1
    ensures Sentence(xs) == Lead(xs[0]) + Laters(xs[1..])
  {
    assert Sentence(xs[..0]) == [];
    assert Laters(xs[1..]) == [];
  }

  /** Every slot after the first appends its later piece. */
  lemma {:induction false} SentenceStep(xs: seq<Shown>)
    requires |xs| > 1
    ensures Sentence(xs) == Sentence(xs[..|xs| - 1]) + Later(xs[|xs| - 1])
  {
  }

  lemma AppendAssoc<T>(a: seq<T>, b: seq<T>, c: seq<T>)
    ensures (a + b) + c == a + (b + c)
  {
  }

  lemma TailOfInit<T>(xs: seq<T>)
    requires |xs| > 1
    ensures xs[1..] == xs[..|xs| - 1][1..] + [xs[|xs| - 1]]
  {
  }

  /** The two hours a slot is read out with. */
  datatype HourPair = HourPair(from: nat, to: nat)

  function HoursOf(xs: seq<Shown>): (r: seq<HourPair>)
    ensures |r| == |xs|
    ensures forall i :: 0 <= i < |xs| ==> r[i] == HourPair(xs[i].from, xs[i].to)
  {
    if |xs| == 0 then [] else [HourPair(xs[0].from, xs[0].to)] + HoursOf(xs[1..])
  }

  /** What a reader of the sentence learns: the day and month of the first
      slot, and the hours of every slot in order. */
  datatype Reading = Reading(day: nat, month: int, hours: seq<HourPair>)

  /** Strips the fixed text `p` from the front of `s`. */
  function Expect(p: string, s: string): (r: Option<string>)
    ensures r.Some? ==> s == p + r.value
    ensures r.Some? && |p| > 0 ==> |r.value| < |s|
  {
    if |p| <= |s| && s[..|p|] == p then
      assert s == s[..|p|] + s[|p|..];
      Some(s[|p|..])
    else None
  }

  lemma {:induction false} ExpectPrefix(p: string, rest: string)
    ensures Expect(p, p + rest) == Some(rest)
  {
    assert (p + rest)[..|p|] == p;
    assert (p + rest)[|p|..] == rest;
  }

  /** Position of the first space in `s`, or its length if there is none. */
  function SpaceAt(s: string): (k: nat)
    ensures k <= |s| && NoSpace(s[..k])
    ensures k < |s| ==> s[k] == ' '
  {
    if |s| == 0 || s[0] == ' ' then 0
    else
      var k := SpaceAt(s[1..]);
      assert s[..k + 1] == [s[0]] + s[1..][..k];
      k + 1
  }

  predicate NoSpace(w: string) {
    forall i :: 0 <= i < |w| ==> w[i] != ' '
  }

  lemma {:induction false} SpaceAtWord(w: string, rest: string)
    requires NoSpace(w) && |rest| > 0 && rest[0] == ' '
    ensures SpaceAt(w + rest) == |w|
  {
    if |w| > 0 {
      assert (w + rest)[1..] == w[1..] + rest;
      assert (w + rest)[0] == w[0];
      SpaceAtWord(w[1..], rest);
    }
  }

  /** Reads `{h1} heures à {h2} heures` off the front of `s`; the hours are
      written without a leading zero. */
  function ReadHours(s: string): (r: Option<(HourPair, string)>)
    ensures r.Some? ==> |r.value.1| < |s|
  {
    match ReadNumeral(s)
    case None => None
    case Some((h1, r1)) =>
      match Expect(" heures à ", r1)
      case None => None
      case Some(r2) =>
        match ReadNumeral(r2)
        case None => None
        case Some((h2, r3)) =>
          match Expect(" heures", r3)
          case None => None
          case Some(r4) => Some((HourPair(h1, h2), r4))
  }

  /** Reads the ` et de ...` pieces that fill the whole of `s`. */
  function ReadLaters(s: string): (r: Option<seq<HourPair>>)
    decreases |s|
  {
    if |s| == 0 then Some([])
    else
      match Expect(" et de ", s)
      case None => None
      case Some(r1) =>
        match ReadHours(r1)
        case None => None
        case Some((p, r2)) =>
          match ReadLaters(r2)
          case None => None
          case Some(ps) => Some([p] + ps)
  }

  /** Reads `le {day} {month} de ` off the front of `s`; the day is written
      with exactly two digits. */
  function ReadDate(s: string): Option<(nat, int, string)> {
    match Expect("le ", s)
    case None => None
    case Some(r1) =>
      match ReadNat(r1)
      case None => None
      case Some((day, r2)) =>
        if |r1| - |r2| != 2 then None
        else
          match Expect(" ", r2)
          case None => None
          case Some(r3) =>
            var k := SpaceAt(r3);
            match MonthNumber(r3[..k])
            case None => None
            case Some(month) =>
              match Expect(" de ", r3[k..])
              case None => None
              case Some(r4) => Some((day, month, r4))
  }

  /** Reads a whole answer sentence back. */
  function ReadSentence(s: string): Option<Reading> {
    match ReadDate(s)
    case None => None
    case Some((day, month, r4)) =>
      match ReadHours(r4)
      case None => None
      case Some((p, r5)) =>
        match ReadLaters(r5)
        case None => None
        case Some(ps) => Some(Reading(day, month, [p] + ps))
  }

  /** The hours of a slot read back, whatever follows them. */
  lemma {:induction false} ReadHoursOf(x: Shown, rest: string)
    ensures ReadHours(Hours(x) + rest) == Some((HourPair(x.from, x.to), rest))
  {
    var h1, h2 := ShowNat(x.from), ShowNat(x.to);
    var t2 := h2 + (" heures" + rest);
    var t1 := " heures à " + t2;
    HoursAppend(x, rest);
    ReadNumeralShowNat(x.from, t1);
    ExpectPrefix(" heures à ", t2);
    ReadNumeralShowNat(x.to, " heures" + rest);
    ExpectPrefix(" heures", rest);
  }

  /** Text after the hours of a slot extends their closing word. */
  lemma {:induction false} HoursAppend(x: Shown, rest: string)
    ensures Hours(x) + rest == ShowNat(x.from) + (" heures à " + (ShowNat(x.to) + (" heures" + rest)))
  {
    var a, b, c, d := ShowNat(x.from), " heures à ", ShowNat(x.to), " heures";
    AppendAssoc(c, d, rest);
    AppendAssoc(b, c + d, rest);
    AppendAssoc(a, b + (c + d), rest);
  }

  /** The later pieces read back as the hours of their slots. */
  lemma {:induction false} ReadLatersOf(xs: seq<Shown>)
    ensures ReadLaters(Laters(xs)) == Some(HoursOf(xs))
  {
    if |xs| > 0 {
      var rest := Laters(xs[1..]);
      var r1 := Hours(xs[0]) + rest;
      var p := HourPair(xs[0].from, xs[0].to);
      AppendAssoc(" et de ", Hours(xs[0]), rest);
      assert Laters(xs) == " et de " + r1;
      ExpectPrefix(" et de ", r1);
      assert Expect(" et de ", Laters(xs)) == Some(r1);
      ReadHoursOf(xs[0], rest);
      assert ReadHours(r1) == Some((p, rest));
      ReadLatersOf(xs[1..]);
      assert ReadLaters(rest) == Some(HoursOf(xs[1..]));
      assert HoursOf(xs) == [p] + HoursOf(xs[1..]);
    }
  }

  /** The opening `le {day} {month} de ` reads back as its day and month. */
  lemma {:induction false} ReadDateOf(day: nat, name: string, m: int, tail: string)
    requires day < 100 && NoSpace(name) && MonthNumber(name) == Some(m)
    ensures ReadDate("le " + (PadTwo(day) + (" " + (name + (" de " + tail))))) == Some((day, m, tail))
  {
    var r3 := name + (" de " + tail);
    ExpectPrefix("le ", PadTwo(day) + (" " + r3));
    ReadNatPadTwo(day, " " + r3);
    ExpectPrefix(" ", r3);
    SpaceAtWord(name, " de " + tail);
    assert r3[..|name|] == name && r3[|name|..] == " de " + tail;
    ExpectPrefix(" de ", tail);
  }

  /** A sentence opening with a two-digit day, a month name and a pair of
      hours, followed by later pieces, reads back field by field. */
  lemma {:induction false} ReadSentenceOf(day: nat, name: string, m: int, tail: string, p: HourPair, rest: string, ps: seq<HourPair>)
    requires day < 100 && NoSpace(name) && MonthNumber(name) == Some(m)
    requires ReadHours(tail) == Some((p, rest)) && ReadLaters(rest) == Some(ps)
    ensures ReadSentence("le " + (PadTwo(day) + (" " + (name + (" de " + tail))))) == Some(Reading(day, m, [p] + ps))
  {
    ReadDateOf(day, name, m, tail);
  }

  lemma {:induction false} LeadReadsBack(x: Shown, laters: string, ps: seq<HourPair>)
    requires x.day < 100 && ReadLaters(laters) == Some(ps)
    ensures ReadSentence(Lead(x) + laters) == Some(Reading(x.day, x.month, [HourPair(x.from, x.to)] + ps))
  {
    var name := MonthName(x.month);
    MonthNumberOfName(x.month);
    ReadHoursOf(x, laters);
    LeadAppend(x, laters);
    ReadSentenceOf(x.day, name, x.month, Hours(x) + laters, HourPair(x.from, x.to), laters, ps);
  }

  /** Text after the lead extends its hours part. */
  lemma {:induction false} LeadAppend(x: Shown, laters: string)
    ensures Lead(x) + laters
      == "le " + (PadTwo(x.day) + (" " + (MonthName(x.month) + (" de " + (Hours(x) + laters)))))
  {
    var a, b, c, d, e, h := "le ", PadTwo(x.day), " ", MonthName(x.month), " de ", Hours(x);
    AppendAssoc(e, h, laters);
    AppendAssoc(d, e + h, laters);
    AppendAssoc(c, d + (e + h), laters);
    AppendAssoc(b, c + (d + (e + h)), laters);
    AppendAssoc(a, b + (c + (d + (e + h))), laters);
  }

  /** The sentence of a non-empty list reads back as the day and month of its
      first slot and the hours of every slot. */
  lemma {:induction false} SentenceReadsBack(xs: seq<Shown>)
    requires |xs| > 0 && xs[0].day < 100
    ensures ReadSentence(Sentence(xs)) == Some(Reading(xs[0].day, xs[0].month, HoursOf(xs)))
  {
    SentenceShape(xs);
    ReadLatersOf(xs[1..]);
    LeadReadsBack(xs[0], Laters(xs[1..]), HoursOf(xs[1..]));
    assert HoursOf(xs) == [HourPair(xs[0].from, xs[0].to)] + HoursOf(xs[1..]);
  }

  /** 2025-02-21T10:00:00Z to 11:00:00Z is shown as 21 February, 11 to 12. */
  lemma ShowSlotExample()
    ensures ShowSlot(Interval(1740132000000, 1740135600000)) == Shown(21, 2, 11, 12)
  {
    assert DayNumber(1740132000000 + Shift) == 20140;
    FebruaryDate();
    assert ShownHour(1740132000000) == 11 by {
      assert (1740132000000 + Shift) / MsPerHour == 483371;
    }
    assert ShownHour(1740135600000) == 12 by {
      assert (1740135600000 + Shift) / MsPerHour == 483372;
    }
  }

  lemma DigitsExample()
    ensures ShowNat(11) == "11" && ShowNat(12) == "12" && PadTwo(21) == "21"
  {
    assert ShowNat(1) == "1" && ShowNat(2) == "2";
  }

  lemma HoursExample()
    ensures Hours(Shown(21, 2, 11, 12)) == "11 heures à 12 heures"
  {
    DigitsExample();
  }

  lemma MonthExample()
    ensures MonthName(2) == "février"
  {
  }

  lemma LeadLiteral()
    ensures "le " + ("21" + (" " + ("février" + (" de " + "11 heures à 12 heures"))))
      == "le 21 février de 11 heures à 12 heures"
  {
  }

  /** The lead piece of that slot, character for character. */
  lemma LeadExample()
    ensures Lead(Shown(21, 2, 11, 12)) == "le 21 février de 11 heures à 12 heures"
  {
    DigitsExample();
    HoursExample();
    MonthExample();
    LeadLiteral();
  }

  /** The sentence of that one slot is its lead piece. */
  lemma SentenceExample()
    ensures Sentence([Shown(21, 2, 11, 12)]) == "le 21 février de 11 heures à 12 heures"
  {
    var x := Shown(21, 2, 11, 12);
    SentenceOne([x]);
    assert Laters([x][1..]) == [];
    LeadExample();
  }

  /** The answer for that one slot is the sentence index.js:142 writes. */
  lemma AnswerExample()
    ensures Answer(Array([Interval(1740132000000, 1740135600000)]))
      == Ok("le 21 février de 11 heures à 12 heures")
  {
    var slots := [Interval(1740132000000, 1740135600000)];
    ShowSlotExample();
    assert ShowSlots(slots) == [Shown(21, 2, 11, 12)];
    SentenceExample();
  }

  /** `POST /answer` (index.js:124-148) on slots whose `start` and `end` have
      been read as instants. */
  function Answer(suggested: Payload<Interval>): (r: Response<string>)
    ensures r.Ok? <==> suggested.Array? && |suggested.items| > 0
    ensures !r.Ok? ==> r == BadRequest(MissingSuggestedMessage)
    ensures r.Ok? ==> var slots := suggested.items; var rd := ReadSentence(r.body);
      && rd.Some?
      && rd.value.day == ShownDate(slots[0].start).day
      && rd.value.month == ShownDate(slots[0].start).month
      && |rd.value.hours| == |slots|
      && forall i :: 0 <= i < |slots| ==>
           rd.value.hours[i] == HourPair((HourOf(slots[i].start) + 1) % 24, (HourOf(slots[i].end) + 1) % 24)
  {
    if suggested.Absent? || suggested.NotArray? || |suggested.items| == 0 then
      BadRequest(MissingSuggestedMessage)
    else
      var xs := ShowSlots(suggested.items);
      SentenceReadsBack(xs);
      Ok(Sentence(xs))
  }
}
