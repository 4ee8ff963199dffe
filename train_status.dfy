/**
 * getStatus: the argument checks, the station lookup, the posted form, the four divs read from
 * the result page, the normalisation loop over the status dictionary, the check on the
 * expected time, and the four extra entries.
 */
module TrainStatus {
  import opened Outcomes
  import opened Calendar
  import opened Values
  import opened Stations
  import opened StatusForm
  import opened Clock
  import opened PageText
  import opened Rollover

  /** A value held in the status dictionary. */
  datatype StatusValue =
    /** A div found on the page, by the text its getText() returns. */
    | Element(text: string)
    /** What find() returns when the page has no such div. */
    | NoElement
    /** A normalised text field. */
    | Text(s: string)
    /** A localised datetime: minutes from midnight of the query date in the station's zone. */
    | Timestamp(date: CalendarDate, minutes: int, zone: string)
    /** isArrival. */
    | Flag(b: bool)
    /** trainNumber, the object the caller passed. */
    | Passed(v: Value)

  /** The keys of the status dictionary. */
  datatype Key =
    | Station | ScheduledTime | ExpectedTime | Difference
    | IsArrival | StationCode | StationLocation | TrainNumber

  /** The string each key is in the dictionary. */
  function Name(k: Key): string {
    match k
    case Station => "station"
    case ScheduledTime => "scheduledTime"
    case ExpectedTime => "expectedTime"
    case Difference => "difference"
    case IsArrival => "isArrival"
    case StationCode => "stationCode"
    case StationLocation => "stationLocation"
    case TrainNumber => "trainNumber"
  }

  /** The result-content div: the text of each of the four divs inside it, None when absent. */
  datatype ResultContent = ResultContent(
    station: Option<string>,
    scheduled: Option<string>,
    expected: Option<string>,
    primary: Option<string>)

  /** The status page: None when it has no result-content div. */
  type Page = Option<ResultContent>

  /** The keys filled from the page, in the order the dictionary holds them. */
  const FoundKeys: seq<Key> := [Station, ScheduledTime, ExpectedTime, Difference]

  /** The same keys, as a set. */
  const FoundKeySet: set<Key> := {Station, ScheduledTime, ExpectedTime, Difference}

  /** Every key of a returned status. */
  const StatusKeys: set<Key> := {
    Station, ScheduledTime, ExpectedTime, Difference,
    IsArrival, StationCode, StationLocation, TrainNumber
  }

  /** Python's str.lower() on one ASCII character. */
  function LowerChar(c: char): (d: char)
    ensures 'A' <= c <= 'Z' ==> d as int == c as int + 32
    ensures !('A' <= c <= 'Z') ==> d == c
  {
    if 'A' <= c <= 'Z' then (c as int + 32) as char else c
  }

  /** 'time' occurs in key.lower() at position i. */
  predicate TimeAt(key: string, i: int) {
    0 <= i && i + 4 <= |key|
    && LowerChar(key[i]) == 't' && LowerChar(key[i + 1]) == 'i'
    && LowerChar(key[i + 2]) == 'm' && LowerChar(key[i + 3]) == 'e'
  }

  /** 'time' in key.lower(): scanning from position i to the right. */
  predicate TimeFrom(key: string, i: nat)
    decreases |key| - i
  {
    i + 4 <= |key| && (TimeAt(key, i) || TimeFrom(key, i + 1))
  }

  /** 'time' in key.lower(). */
  predicate IsTimeKey(key: string) {
    TimeFrom(key, 0)
  }

  /** The scan finds 'time' exactly when it occurs somewhere in the lowered key. */
  lemma {:induction false} TimeFromOccurs(key: string, i: nat)
    ensures TimeFrom(key, i) <==> exists j :: i <= j && TimeAt(key, j)
    decreases |key| - i
  {
    if i + 4 <= |key| {
      TimeFromOccurs(key, i + 1);
      if j :| i <= j && TimeAt(key, j) {
        assert j == i || (i + 1 <= j && TimeAt(key, j));
      }
    }
  }

  /** Of the keys filled from the page, exactly the two times are read with strptime. */
  lemma TimeKeys()
    ensures IsTimeKey(Name(ScheduledTime)) && IsTimeKey(Name(ExpectedTime))
    ensures !IsTimeKey(Name(Station)) && !IsTimeKey(Name(Difference))
  {
  }

  /** A value as find() left it: a div or None. */
  predicate IsFound(v: StatusValue) {
    v.Element? || v.NoElement?
  }

  function FoundValue(text: Option<string>): (v: StatusValue)
    ensures IsFound(v)
  {
    if text.Some? then Element(text.value) else NoElement
  }

  /** The dictionary before normalisation (lines 132-136). */
  function InitialStatus(c: ResultContent): (status: map<Key, StatusValue>)
    ensures status.Keys == FoundKeySet
    ensures forall k :: k in status ==> IsFound(status[k])
  {
    map[Station := FoundValue(c.station), ScheduledTime := FoundValue(c.scheduled),
        ExpectedTime := FoundValue(c.expected), Difference := FoundValue(c.primary)]
  }

  /** type(v).__name__ for a value of the status dictionary. */
  function StatusTypeName(v: StatusValue): string {
    match v
    case Element(_) => "Tag"
    case NoElement => "NoneType"
    case Text(_) => "str"
    case Timestamp(_, _, _) => "datetime"
    case Flag(_) => "bool"
    case Passed(x) => TypeName(x)
  }

  /**
   * One pass of the loop body on one entry: beautifulSoupToStr and the removal of
   * 'Scheduled', then strptime when the key names a time. Only a div has getText.
   */
  function NormaliseField(key: Key, v: StatusValue, date: CalendarDate, zone: string): Result<StatusValue>
  {
    if !v.Element? then Failure(NoAttribute(StatusTypeName(v), "getText"))
    else
      var t := FieldText(v.text);
      if IsTimeKey(Name(key)) then
        match ParseTime(t)
        case Success(m) => Success(Timestamp(date, m, zone))
        case Failure(e) => Failure(e)
      else Success(Text(t))
  }

  /** The loop body, for the query date and the station's zone. */
  function Normaliser(date: CalendarDate, zone: string): (Key, StatusValue) -> Result<StatusValue> {
    (key, v) => NormaliseField(key, v, date, zone)
  }

  predicate Distinct(keys: seq<Key>) {
    forall i, j :: 0 <= i < j < |keys| ==> keys[i] != keys[j]
  }

  lemma FoundKeysDistinct()
    ensures Distinct(FoundKeys)
  {
  }

  /** The keys from position i on hold no k. */
  predicate NotFrom(keys: seq<Key>, i: nat, k: Key) {
    forall j :: i <= j < |keys| ==> keys[j] != k
  }

  /**
   * The loop from the key at position i on: the body applied to each key in turn, stopping
   * at the first exception.
   */
  function NormaliseFrom(keys: seq<Key>, i: nat, status: map<Key, StatusValue>,
                         step: (Key, StatusValue) -> Result<StatusValue>): (r: Result<map<Key, StatusValue>>)
    requires i <= |keys| && forall k :: k in keys ==> k in status
    decreases |keys| - i
  {
    if i == |keys| then Success(status)
    else
      match step(keys[i], status[keys[i]])
      case Failure(e) => Failure(e)
      case Success(v) => NormaliseFrom(keys, i + 1, status[keys[i] := v], step)
  }

  /** The loop succeeds exactly when the body succeeds on every entry from position i on. */
  lemma {:induction false} NormaliseFromSucceeds(keys: seq<Key>, i: nat, status: map<Key, StatusValue>,
                                                 step: (Key, StatusValue) -> Result<StatusValue>)
    requires Distinct(keys) && i <= |keys| && forall k :: k in keys ==> k in status
    ensures NormaliseFrom(keys, i, status, step).Success? <==>
      forall j :: i <= j < |keys| ==> step(keys[j], status[keys[j]]).Success?
    decreases |keys| - i
  {
    if i < |keys| {
      var f := step(keys[i], status[keys[i]]);
      if f.Success? {
        var next := status[keys[i] := f.value];
        NormaliseFromSucceeds(keys, i + 1, next, step);
        assert forall j :: i < j < |keys| ==> next[keys[j]] == status[keys[j]];
      }
    }
  }

  /**
   * When the loop succeeds, each entry from position i on holds what the body made of it,
   * and every other entry is untouched.
   */
  lemma {:induction false} NormaliseFromValues(keys: seq<Key>, i: nat, status: map<Key, StatusValue>,
                                               step: (Key, StatusValue) -> Result<StatusValue>)
    requires Distinct(keys) && i <= |keys| && forall k :: k in keys ==> k in status
    requires NormaliseFrom(keys, i, status, step).Success?
    ensures var r := NormaliseFrom(keys, i, status, step).value;
      && r.Keys == status.Keys
      && (forall j :: i <= j < |keys| ==> step(keys[j], status[keys[j]]) == Success(r[keys[j]]))
      && (forall k :: k in status && NotFrom(keys, i, k) ==> r[k] == status[k])
    decreases |keys| - i
  {
    if i < |keys| {
      var f := step(keys[i], status[keys[i]]);
      var next := status[keys[i] := f.value];
      NormaliseFromValues(keys, i + 1, next, step);
      assert forall j :: i < j < |keys| ==> next[keys[j]] == status[keys[j]];
      var r := NormaliseFrom(keys, i, status, step).value;
      assert NotFrom(keys, i + 1, keys[i]);
      forall k | k in status && NotFrom(keys, i, k)
        ensures r[k] == status[k]
      {
        assert NotFrom(keys, i + 1, k);
      }
    }
  }

  /** When the loop fails, it raises the exception of the first entry from position i on that fails. */
  lemma {:induction false} NormaliseFromFails(keys: seq<Key>, i: nat, status: map<Key, StatusValue>,
                                              step: (Key, StatusValue) -> Result<StatusValue>)
    requires Distinct(keys) && i <= |keys| && forall k :: k in keys ==> k in status
    requires NormaliseFrom(keys, i, status, step).Failure?
    ensures exists j :: (i <= j < |keys|
      && (forall l :: i <= l < j ==> step(keys[l], status[keys[l]]).Success?)
      && step(keys[j], status[keys[j]]) == Failure(NormaliseFrom(keys, i, status, step).error))
    decreases |keys| - i
  {
    var f := step(keys[i], status[keys[i]]);
    if f.Success? {
      var next := status[keys[i] := f.value];
      NormaliseFromFails(keys, i + 1, next, step);
      assert forall j :: i < j < |keys| ==> next[keys[j]] == status[keys[j]];
    }
  }

  /** The loop over the four found entries succeeds exactly when the body succeeds on each. */
  lemma FoundKeysSucceed(status: map<Key, StatusValue>, step: (Key, StatusValue) -> Result<StatusValue>)
    requires status.Keys == FoundKeySet
    ensures NormaliseFrom(FoundKeys, 0, status, step).Success? <==>
      && step(Station, status[Station]).Success? && step(ScheduledTime, status[ScheduledTime]).Success?
      && step(ExpectedTime, status[ExpectedTime]).Success? && step(Difference, status[Difference]).Success?
  {
    FoundKeysDistinct();
    NormaliseFromSucceeds(FoundKeys, 0, status, step);
    assert FoundKeys[0] == Station && FoundKeys[1] == ScheduledTime;
    assert FoundKeys[2] == ExpectedTime && FoundKeys[3] == Difference;
  }

  /**
   * FoundKeysSucceed with its right-hand side replaced by any equivalent condition p. Callers
   * pass a condition about the page (PageReadable) so that the solver never has to relate the
   * body's four results to it inside a larger proof, which is where such proofs become slow.
   */
  lemma FoundKeysSucceedWhen(status: map<Key, StatusValue>, step: (Key, StatusValue) -> Result<StatusValue>, p: bool)
    requires status.Keys == FoundKeySet
    requires (&& step(Station, status[Station]).Success? && step(ScheduledTime, status[ScheduledTime]).Success?
              && step(ExpectedTime, status[ExpectedTime]).Success? && step(Difference, status[Difference]).Success?)
             <==> p
    ensures NormaliseFrom(FoundKeys, 0, status, step).Success? <==> p
  {
    FoundKeysSucceed(status, step);
  }

  /** After a successful loop over the four found entries, each holds what the body made of it. */
  lemma FoundKeysValues(status: map<Key, StatusValue>, step: (Key, StatusValue) -> Result<StatusValue>)
    requires status.Keys == FoundKeySet
    requires NormaliseFrom(FoundKeys, 0, status, step).Success?
    ensures var r := NormaliseFrom(FoundKeys, 0, status, step).value;
      && r.Keys == status.Keys
      && step(Station, status[Station]) == Success(r[Station])
      && step(ScheduledTime, status[ScheduledTime]) == Success(r[ScheduledTime])
      && step(ExpectedTime, status[ExpectedTime]) == Success(r[ExpectedTime])
      && step(Difference, status[Difference]) == Success(r[Difference])
  {
    FoundKeysDistinct();
    NormaliseFromValues(FoundKeys, 0, status, step);
    assert FoundKeys[0] == Station && FoundKeys[1] == ScheduledTime;
    assert FoundKeys[2] == ExpectedTime && FoundKeys[3] == Difference;
  }

  /** When the body makes each of the four found entries a value, the loop leaves those values. */
  lemma FoundKeysBecome(status: map<Key, StatusValue>, step: (Key, StatusValue) -> Result<StatusValue>,
                        station: StatusValue, scheduled: StatusValue, expected: StatusValue,
                        difference: StatusValue)
    requires status.Keys == FoundKeySet
    requires && step(Station, status[Station]) == Success(station)
             && step(ScheduledTime, status[ScheduledTime]) == Success(scheduled)
             && step(ExpectedTime, status[ExpectedTime]) == Success(expected)
             && step(Difference, status[Difference]) == Success(difference)
    ensures var n := NormaliseFrom(FoundKeys, 0, status, step);
      && n.Success?
      && n.value.Keys == FoundKeySet
      && n.value[Station] == station
      && n.value[ScheduledTime] == scheduled
      && n.value[ExpectedTime] == expected
      && n.value[Difference] == difference
  {
    FoundKeysSucceed(status, step);
    FoundKeysValues(status, step);
  }

  /** When the body fails on the first entry, the loop raises that exception. */
  lemma FirstEntryFails(status: map<Key, StatusValue>, step: (Key, StatusValue) -> Result<StatusValue>)
    requires status.Keys == FoundKeySet
    requires step(Station, status[Station]).Failure?
    ensures NormaliseFrom(FoundKeys, 0, status, step) == Failure(step(Station, status[Station]).error)
  {
    assert FoundKeys[0] == Station;
  }

  /**
   * The body of the loop of lines 138-141 on one entry: the text of the div with 'Scheduled'
   * removed, then, for a time, the datetime strptime reads from that text.
   */
  method NormaliseEntry(key: Key, value: StatusValue, date: CalendarDate, zone: string)
    returns (r: Result<StatusValue>)
    ensures r == Normaliser(date, zone)(key, value)
  {
    NormaliserStep(key, value, date, zone);
    if !value.Element? {
      return Failure(NoAttribute(StatusTypeName(value), "getText"));
    }
    var text := FieldText(value.text);
    r := Success(Text(text));
    if IsTimeKey(Name(key)) {
      var time := ParseTime(text);
      if time.Failure? {
        return Failure(time.error);
      }
      r := Success(Timestamp(date, time.value, zone));
    }
  }

  /** The loop of lines 138-141, over the four entries in dictionary order. */
  method NormaliseStatus(status: map<Key, StatusValue>, date: CalendarDate, zone: string)
    returns (r: Result<map<Key, StatusValue>>)
    requires status.Keys == FoundKeySet
    ensures r == NormaliseFrom(FoundKeys, 0, status, Normaliser(date, zone))
  {
    FoundKeysDistinct();
    var current := status;
    var i := 0;
    while i < |FoundKeys|
      invariant 0 <= i <= |FoundKeys|
      invariant current.Keys == status.Keys
      invariant NormaliseFrom(FoundKeys, i, current, Normaliser(date, zone))
        == NormaliseFrom(FoundKeys, 0, status, Normaliser(date, zone))
    {
      var key := FoundKeys[i];
      var entry := NormaliseEntry(key, current[key], date, zone);
      if entry.Failure? {
        return Failure(entry.error);
      }
      current := current[key := entry.value];
      i := i + 1;
    }
    r := Success(current);
  }

  /** Applying the loop body as a value is applying NormaliseField, so that its cases are in view. */
  lemma NormaliserStep(key: Key, value: StatusValue, date: CalendarDate, zone: string)
    ensures Normaliser(date, zone)(key, value) == NormaliseField(key, value, date, zone)
  {
  }

  /** The four divs are present and both times read with '%I:%M %p'. */
  predicate PageReadable(c: ResultContent) {
    && c.station.Some? && c.scheduled.Some? && c.expected.Some? && c.primary.Some?
    && ParseTime(FieldText(c.scheduled.value)).Success?
    && ParseTime(FieldText(c.expected.value)).Success?
  }

  /**
   * The eight entries getStatus returns, given the two texts and the two times read from the
   * page: the expected time moved by the check of lines 143-145, then the four extra fields.
   */
  predicate Completed(station: string, scheduled: int, expected: int, difference: string, arrival: bool,
                      trainNumber: Value, info: StationInfo, date: CalendarDate, status: map<Key, StatusValue>)
  {
    && status.Keys == StatusKeys
    && status[Station] == Text(station)
    && status[ScheduledTime] == Timestamp(date, scheduled, info.timezone)
    && status[ExpectedTime] == Timestamp(date, AdjustExpected(expected, scheduled), info.timezone)
    && status[Difference] == Text(difference)
    && status[IsArrival] == Flag(arrival)
    && status[StationCode] == Text(info.code)
    && status[StationLocation] == Text(info.location)
    && status[TrainNumber] == Passed(trainNumber)
  }

  /** The eight entries getStatus returns for a readable page. */
  predicate ReadEntries(c: ResultContent, arrival: bool, trainNumber: Value, info: StationInfo,
                        date: CalendarDate, status: map<Key, StatusValue>)
    requires PageReadable(c)
  {
    Completed(FieldText(c.station.value), ParseTime(FieldText(c.scheduled.value)).value,
              ParseTime(FieldText(c.expected.value)).value, FieldText(c.primary.value),
              arrival, trainNumber, info, date, status)
  }

  /**
   * What getStatus returns for the page of its query: an AttributeError when the page has no
   * result-content div; the exception of the first entry the loop cannot normalise; otherwise,
   * exactly when the page is readable, its eight entries.
   */
  predicate StatusFromPage(page: Page, arrival: bool, trainNumber: Value, info: StationInfo,
                           date: CalendarDate, r: Result<map<Key, StatusValue>>)
  {
    && (page.None? ==> r == Failure(NoAttribute("NoneType", "find")))
    && (page.Some? ==>
          var n := NormaliseFrom(FoundKeys, 0, InitialStatus(page.value), Normaliser(date, info.timezone));
          n.Failure? ==> r == Failure(n.error))
    && (r.Success? <==> page.Some? && PageReadable(page.value))
    && (r.Success? ==> ReadEntries(page.value, arrival, trainNumber, info, date, r.value))
  }

  /** The loop body succeeds on what find() returned for key: a div, and a readable time if key names one. */
  predicate Reads(key: Key, text: Option<string>) {
    text.Some? && (IsTimeKey(Name(key)) ==> ParseTime(FieldText(text.value)).Success?)
  }

  /**
   * Whether the loop body succeeds on a dictionary entry that holds what find() made of text.
   * A proof step of StepsSucceedOnReadablePage.
   */
  lemma EntryReads(status: map<Key, StatusValue>, key: Key, text: Option<string>, date: CalendarDate, zone: string)
    requires key in status && status[key] == FoundValue(text)
    ensures Normaliser(date, zone)(key, status[key]).Success? <==> Reads(key, text)
  {
    NormaliserStep(key, FoundValue(text), date, zone);
  }

  /** The loop body on the entry find() made of text. */
  lemma FoundEntry(key: Key, text: Option<string>, date: CalendarDate, zone: string)
    ensures Normaliser(date, zone)(key, FoundValue(text)).Success? <==> Reads(key, text)
    ensures text.Some? && !IsTimeKey(Name(key)) ==>
      Normaliser(date, zone)(key, FoundValue(text)) == Success(Text(FieldText(text.value)))
    ensures Reads(key, text) && IsTimeKey(Name(key)) ==>
      Normaliser(date, zone)(key, FoundValue(text))
        == Success(Timestamp(date, ParseTime(FieldText(text.value)).value, zone))
    ensures text.None? ==>
      Normaliser(date, zone)(key, FoundValue(text)) == Failure(NoAttribute("NoneType", "getText"))
    ensures text.Some? && IsTimeKey(Name(key)) && ParseTime(FieldText(text.value)).Failure? ==>
      Normaliser(date, zone)(key, FoundValue(text))
        == Failure(TimeDataMismatch(PadHour(FieldText(text.value))))
  {
    NormaliserStep(key, FoundValue(text), date, zone);
  }

  /**
   * A readable page is one on which the body succeeds for each of the four entries.
   * A proof step of LoopSucceedsOnReadablePage.
   */
  lemma ReadableReads(c: ResultContent)
    ensures PageReadable(c) <==>
      Reads(Station, c.station) && Reads(ScheduledTime, c.scheduled)
      && Reads(ExpectedTime, c.expected) && Reads(Difference, c.primary)
  {
    TimeKeys();
  }

  /**
   * The body succeeds on each of the four entries of the page exactly when the page is readable.
   * A proof step of LoopSucceedsOnReadablePage.
   */
  lemma StepsSucceedOnReadablePage(c: ResultContent, date: CalendarDate, zone: string)
    ensures var status, step := InitialStatus(c), Normaliser(date, zone);
      (&& step(Station, status[Station]).Success? && step(ScheduledTime, status[ScheduledTime]).Success?
       && step(ExpectedTime, status[ExpectedTime]).Success? && step(Difference, status[Difference]).Success?)
      <==> PageReadable(c)
  {
    var status := InitialStatus(c);
    InitialValues(c);
    EntryReads(status, Station, c.station, date, zone);
    EntryReads(status, ScheduledTime, c.scheduled, date, zone);
    EntryReads(status, ExpectedTime, c.expected, date, zone);
    EntryReads(status, Difference, c.primary, date, zone);
    ReadableReads(c);
  }

  /**
   * A page without the station div fails at the first entry of the loop: None has no getText,
   * whatever the other divs hold.
   */
  lemma MissingStationDiv(c: ResultContent, date: CalendarDate, zone: string)
    requires c.station.None?
    ensures NormaliseFrom(FoundKeys, 0, InitialStatus(c), Normaliser(date, zone))
      == Failure(NoAttribute("NoneType", "getText"))
  {
    FoundEntry(Station, c.station, date, zone);
    NormaliserStep(Station, InitialStatus(c)[Station], date, zone);
    FirstEntryFails(InitialStatus(c), Normaliser(date, zone));
  }

  /** The loop succeeds on the page exactly when the page is readable. */
  lemma LoopSucceedsOnReadablePage(c: ResultContent, date: CalendarDate, zone: string)
    ensures NormaliseFrom(FoundKeys, 0, InitialStatus(c), Normaliser(date, zone)).Success? <==> PageReadable(c)
  {
    StepsSucceedOnReadablePage(c, date, zone);
    FoundKeysSucceedWhen(InitialStatus(c), Normaliser(date, zone), PageReadable(c));
  }

  /** The four entries of the dictionary before the loop, as find() left them. */
  lemma InitialValues(c: ResultContent)
    ensures InitialStatus(c)[Station] == FoundValue(c.station)
    ensures InitialStatus(c)[ScheduledTime] == FoundValue(c.scheduled)
    ensures InitialStatus(c)[ExpectedTime] == FoundValue(c.expected)
    ensures InitialStatus(c)[Difference] == FoundValue(c.primary)
  {
  }

  /*
   * The four lemmas below are proof steps of ReadableValues, one per entry: each evaluates the
   * loop body on one div in a context of its own, which keeps ReadableValues cheap to check.
   */

  lemma InitialEntries(c: ResultContent)
    ensures c.station.Some? ==> InitialStatus(c)[Station] == Element(c.station.value)
    ensures c.scheduled.Some? ==> InitialStatus(c)[ScheduledTime] == Element(c.scheduled.value)
    ensures c.expected.Some? ==> InitialStatus(c)[ExpectedTime] == Element(c.expected.value)
    ensures c.primary.Some? ==> InitialStatus(c)[Difference] == Element(c.primary.value)
  {
  }

  /** The body on a div under a key that names no time: the div's text. */
  lemma TextEntry(key: Key, text: string, date: CalendarDate, zone: string)
    requires !IsTimeKey(Name(key))
    ensures Normaliser(date, zone)(key, Element(text)) == Success(Text(FieldText(text)))
  {
    NormaliserStep(key, Element(text), date, zone);
  }

  /** The body on a div under a time key whose text reads as the given minutes. */
  lemma TimeEntry(key: Key, text: string, date: CalendarDate, zone: string, minutes: int)
    requires IsTimeKey(Name(key)) && ParseTime(FieldText(text)) == Success(minutes)
    ensures Normaliser(date, zone)(key, Element(text)) == Success(Timestamp(date, minutes, zone))
  {
    NormaliserStep(key, Element(text), date, zone);
  }

  /** The body makes the station div its text. */
  lemma StationStep(c: ResultContent, date: CalendarDate, zone: string)
    requires c.station.Some?
    ensures Normaliser(date, zone)(Station, InitialStatus(c)[Station]) == Success(Text(FieldText(c.station.value)))
  {
    TimeKeys();
    InitialEntries(c);
    TextEntry(Station, c.station.value, date, zone);
  }

  /** The body makes the difference div its text. */
  lemma DifferenceStep(c: ResultContent, date: CalendarDate, zone: string)
    requires c.primary.Some?
    ensures Normaliser(date, zone)(Difference, InitialStatus(c)[Difference]) == Success(Text(FieldText(c.primary.value)))
  {
    TimeKeys();
    InitialEntries(c);
    TextEntry(Difference, c.primary.value, date, zone);
  }

  /** The body makes a scheduled-time div that reads as the given minutes that time. */
  lemma ScheduledStep(c: ResultContent, date: CalendarDate, zone: string, minutes: int)
    requires c.scheduled.Some? && ParseTime(FieldText(c.scheduled.value)) == Success(minutes)
    ensures Normaliser(date, zone)(ScheduledTime, InitialStatus(c)[ScheduledTime])
      == Success(Timestamp(date, minutes, zone))
  {
    TimeKeys();
    InitialEntries(c);
    TimeEntry(ScheduledTime, c.scheduled.value, date, zone, minutes);
  }

  /** The body makes an expected-time div that reads as the given minutes that time. */
  lemma ExpectedStep(c: ResultContent, date: CalendarDate, zone: string, minutes: int)
    requires c.expected.Some? && ParseTime(FieldText(c.expected.value)) == Success(minutes)
    ensures Normaliser(date, zone)(ExpectedTime, InitialStatus(c)[ExpectedTime])
      == Success(Timestamp(date, minutes, zone))
  {
    TimeKeys();
    InitialEntries(c);
    TimeEntry(ExpectedTime, c.expected.value, date, zone, minutes);
  }

  /** On a readable page the loop leaves each of the four entries as its text or its time. */
  lemma ReadableValues(c: ResultContent, date: CalendarDate, zone: string)
    requires PageReadable(c)
    ensures var n := NormaliseFrom(FoundKeys, 0, InitialStatus(c), Normaliser(date, zone));
      && n.Success?
      && n.value.Keys == FoundKeySet
      && n.value[Station] == Text(FieldText(c.station.value))
      && n.value[ScheduledTime] == Timestamp(date, ParseTime(FieldText(c.scheduled.value)).value, zone)
      && n.value[ExpectedTime] == Timestamp(date, ParseTime(FieldText(c.expected.value)).value, zone)
      && n.value[Difference] == Text(FieldText(c.primary.value))
  {
    var scheduled := ParseTime(FieldText(c.scheduled.value)).value;
    var expected := ParseTime(FieldText(c.expected.value)).value;
    StationStep(c, date, zone);
    ScheduledStep(c, date, zone, scheduled);
    ExpectedStep(c, date, zone, expected);
    DifferenceStep(c, date, zone);
    FoundKeysBecome(InitialStatus(c), Normaliser(date, zone),
                    Text(FieldText(c.station.value)), Timestamp(date, scheduled, zone),
                    Timestamp(date, expected, zone), Text(FieldText(c.primary.value)));
  }

  /** With the four entries read and the expected time checked, the extra fields complete the status. */
  lemma ExtraFieldsComplete(station: string, scheduled: int, expected: int, difference: string, arrival: bool,
                            trainNumber: Value, info: StationInfo, date: CalendarDate,
                            status: map<Key, StatusValue>)
    requires status.Keys == FoundKeySet
    requires status[Station] == Text(station)
    requires status[ScheduledTime] == Timestamp(date, scheduled, info.timezone)
    requires status[ExpectedTime] == Timestamp(date, AdjustExpected(expected, scheduled), info.timezone)
    requires status[Difference] == Text(difference)
    ensures Completed(station, scheduled, expected, difference, arrival, trainNumber, info, date,
      status[IsArrival := Flag(arrival)][StationCode := Text(info.code)]
            [StationLocation := Text(info.location)][TrainNumber := Passed(trainNumber)])
  {
  }

  /** Two times of the query date are never moved by the check of lines 143-145. */
  lemma CompletedKeepsExpected(station: string, scheduled: int, expected: int, difference: string, arrival: bool,
                               trainNumber: Value, info: StationInfo, date: CalendarDate,
                               status: map<Key, StatusValue>)
    requires Completed(station, scheduled, expected, difference, arrival, trainNumber, info, date, status)
    requires 0 <= scheduled < MinutesPerDay && 0 <= expected < MinutesPerDay
    ensures status[ExpectedTime] == Timestamp(date, expected, info.timezone)
  {
    SameDateNeverAdjusts(expected, scheduled);
  }

  /**
   * Whatever getStatus returns for a page, its expectedTime is the time read from the page:
   * both times lie on the query date, so they are less than a day apart and the check of
   * lines 143-145 never fires.
   */
  lemma ExpectedTimeAsRead(page: Page, arrival: bool, trainNumber: Value, info: StationInfo,
                           date: CalendarDate, r: Result<map<Key, StatusValue>>)
    requires StatusFromPage(page, arrival, trainNumber, info, date, r) && r.Success?
    ensures page.Some? && PageReadable(page.value)
    ensures r.value[ExpectedTime]
      == Timestamp(date, ParseTime(FieldText(page.value.expected.value)).value, info.timezone)
  {
    var c := page.value;
    CompletedKeepsExpected(FieldText(c.station.value), ParseTime(FieldText(c.scheduled.value)).value,
                           ParseTime(FieldText(c.expected.value)).value, FieldText(c.primary.value),
                           arrival, trainNumber, info, date, r.value);
  }

  /** Lines 131-151, once the page of the query is at hand. */
  method ReadStatus(page: Page, arrival: bool, trainNumber: Value, info: StationInfo, date: CalendarDate)
    returns (r: Result<map<Key, StatusValue>>)
    ensures StatusFromPage(page, arrival, trainNumber, info, date, r)
  {
    if page.None? {
      return Failure(NoAttribute("NoneType", "find"));
    }
    var c := page.value;
    var status: map<Key, StatusValue> := map[];
    status := status[Station := FoundValue(c.station)];
    status := status[ScheduledTime := FoundValue(c.scheduled)];
    status := status[ExpectedTime := FoundValue(c.expected)];
    status := status[Difference := FoundValue(c.primary)];
    assert status == InitialStatus(c);
    LoopSucceedsOnReadablePage(c, date, info.timezone);
    var normalised := NormaliseStatus(status, date, info.timezone);
    if normalised.Failure? {
      return Failure(normalised.error);
    }
    ReadableValues(c, date, info.timezone);
    ghost var scheduledAt := ParseTime(FieldText(c.scheduled.value)).value;
    ghost var expectedAt := ParseTime(FieldText(c.expected.value)).value;
    status := normalised.value;
    var expected := status[ExpectedTime];
    var expectedDate, expectedMinutes, expectedZone := expected.date, expected.minutes, expected.zone;
    var diff := expectedMinutes - status[ScheduledTime].minutes;
    if diff <= Threshold {
      status := status[ExpectedTime := Timestamp(expectedDate, expectedMinutes + CeilDeltas(diff) * DayDelta, expectedZone)];
    }
    assert status[ExpectedTime] == Timestamp(date, AdjustExpected(expectedAt, scheduledAt), info.timezone);
    ExtraFieldsComplete(FieldText(c.station.value), scheduledAt, expectedAt, FieldText(c.primary.value),
                        arrival, trainNumber, info, date, status);
    status := status[IsArrival := Flag(arrival)];
    status := status[StationCode := Text(info.code)];
    status := status[StationLocation := Text(info.location)];
    status := status[TrainNumber := Passed(trainNumber)];
    r := Success(status);
  }

  /**
   * getStatus (lines 119-151). The arguments are checked in order; the station is looked up;
   * the form is posted and server stands for the site: it answers a form with the
   * result-content div of the page it returns, or None. posted is the form sent, if any.
   */
  method GetStatus(arrival: Value, trainNumber: Value, station: Value, date: Value, server: Form -> Page)
    returns (posted: Option<Form>, r: Result<map<Key, StatusValue>>)
    ensures !arrival.Bool? ==>
      posted == None && r == Failure(InvalidArgument("arrival must be a boolean."))
    ensures arrival.Bool? && !IsInstanceInt(trainNumber) ==>
      posted == None && r == Failure(InvalidArgument("trainNumber must be a integer."))
    ensures arrival.Bool? && IsInstanceInt(trainNumber) && !station.Str? ==>
      posted == None && r == Failure(InvalidArgument("station must be a string."))
    ensures arrival.Bool? && IsInstanceInt(trainNumber) && station.Str? && !date.DateTime? ==>
      posted == None && r == Failure(InvalidArgument("date must be a datetime object."))
    ensures (arrival.Bool? && IsInstanceInt(trainNumber) && station.Str? && date.DateTime?
             && GetStationInfo(station.s).Failure?) ==>
      posted == None && r == Failure(StationNotSupported)
    ensures (arrival.Bool? && IsInstanceInt(trainNumber) && station.Str? && date.DateTime?
             && GetStationInfo(station.s).Success?) ==>
      var info := GetStationInfo(station.s).value;
      && posted.Some?
      && DescribesQuery(posted.value, arrival.b, trainNumber, info.code, info.location, date.date)
      && StatusFromPage(server(posted.value), arrival.b, trainNumber, info, date.date, r)
  {
    posted := None;
    if !arrival.Bool? {
      return posted, Failure(InvalidArgument("arrival must be a boolean."));
    } else if !IsInstanceInt(trainNumber) {
      return posted, Failure(InvalidArgument("trainNumber must be a integer."));
    } else if !station.Str? {
      return posted, Failure(InvalidArgument("station must be a string."));
    } else if !date.DateTime? {
      return posted, Failure(InvalidArgument("date must be a datetime object."));
    }
    var lookup := GetStationInfo(station.s);
    if lookup.Failure? {
      return posted, Failure(lookup.error);
    }
    var info := lookup.value;
    var form := BuildStatusForm(arrival.b, trainNumber, info.code, info.location, date.date);
    posted := Some(form);
    r := ReadStatus(server(form), arrival.b, trainNumber, info, date.date);
  }
}
