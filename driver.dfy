/**
 * The acquisition loop of the GPS driver: each read from the receiver is stripped, filtered for
 * GPGGA sentences, split into fields, decoded into one reused `Customgps` message and published.
 * Reads are given as a sequence of outcomes; publishing appends a snapshot of the message to the
 * sequence of published records.
 */
module Driver {
  import opened Wrappers
  import opened Text
  import opened Numeric
  import opened TimeDecoder
  import opened Coordinates

  /** The sentence tag a line must contain somewhere to be decoded. */
  const TargetSentence: string := "$GPGGA"

  /** The frame every published record names. */
  const FrameId: string := "GPS1_Frame"

  /** The number of fields the decoder needs: it reads up to index 9 (altitude). */
  const MinFields: nat := 10

  /** What one `readline().decode('utf-8')` gives: a line, undecodable bytes, or nothing by the timeout. */
  datatype ReadOutcome = Received(text: string) | Undecodable | TimedOut

  /** The contents of a `Customgps` message: header stamp and frame, position, UTM, hdop and raw line. */
  datatype Fix = Fix(
    secs: int, nsecs: int, frameId: string,
    latitude: real, longitude: real, altitude: real,
    utmEasting: real, utmNorthing: real, zone: int, letter: string,
    hdop: real, gpggaRead: string)

  /** A freshly constructed `Customgps()`: zeros and empty strings. */
  const Blank: Fix := Fix(0, 0, "", 0.0, 0.0, 0.0, 0.0, 0.0, 0, "", 0.0, "")

  /** What the driver has computed from a sentence before it writes to the message. */
  datatype Prepared = Prepared(utc: real, latitude: real, longitude: real, altitude: real, utm: UtmPoint)

  /** A record as every published one must be: the fixed frame, a GPGGA line, a sub-second count in range. */
  predicate WellFormed(f: Fix) {
    f.frameId == FrameId && Contains(f.gpggaRead, TargetSentence) && 0 <= f.nsecs < 10000000
  }

  /** `data[k]`: `None` for the `IndexError` of a field list that is too short. */
  function Field(data: seq<string>, k: nat): (r: Option<string>)
    ensures r.Some? <==> k < |data|
    ensures r.Some? ==> r.value == data[k]
  {
    if k < |data| then Some(data[k]) else None
  }

  /** `float(data[k])`: `None` for the `IndexError` or the `ValueError`. */
  function NumberField(data: seq<string>, k: nat): (r: Option<real>)
    ensures r.Some? ==> k < |data| && ParseReal(data[k]) == r
    ensures k < |data| ==> r == ParseReal(data[k])
  {
    var f :- Field(data, k);
    ParseReal(f)
  }

  /**
   * The part of the `try` block before the first write to the message: time, latitude,
   * longitude, altitude and the UTM projection, in that order. `None` is any `IndexError` or
   * `ValueError` on the way. Numbers are exact reals here, so a field too long for a double,
   * which Python reads as `inf`, still decodes to a finite value: the `OverflowError` and `nan`
   * paths it would take in the driver are not part of this model.
   */
  function Prepare(data: seq<string>, project: Projection): (r: Option<Prepared>)
    ensures r.Some? ==> |data| >= MinFields
  {
    var utc :- NumberField(data, 1);
    var lat :- NumberField(data, 2);
    var latHemisphere :- Field(data, 3);
    var lon :- NumberField(data, 4);
    var lonHemisphere :- Field(data, 5);
    var alt :- NumberField(data, 9);
    var latitude := Latitude(lat, latHemisphere);
    var longitude := Longitude(lon, lonHemisphere);
    var utm :- project(latitude, longitude);
    Some(Prepared(utc, latitude, longitude, alt, utm))
  }

  /**
   * The message after the writes of the stamp, frame, position and UTM fields, before `hdop`:
   * `hdop` and the raw sentence are still those of the previous message.
   */
  function Fill(prev: Fix, p: Prepared): (m: Fix)
    ensures m.hdop == prev.hdop && m.gpggaRead == prev.gpggaRead
    ensures m.frameId == FrameId && 0 <= m.nsecs < 10000000
  {
    prev.(secs := StampSecs(p.utc), nsecs := StampNsecs(p.utc), frameId := FrameId,
          latitude := p.latitude, longitude := p.longitude, altitude := p.altitude,
          utmEasting := p.utm.easting, utmNorthing := p.utm.northing,
          zone := p.utm.zone, letter := p.utm.letter)
  }

  /**
   * The record a decoded sentence yields, built from its parts alone: whatever the message held
   * before, the writes of `Fill` followed by those of `hdop` and the raw sentence give this record.
   */
  function Record(p: Prepared, hdop: real, raw: string): (f: Fix)
    ensures forall prev :: Fill(prev, p).(hdop := hdop, gpggaRead := raw) == f
    ensures Contains(raw, TargetSentence) ==> WellFormed(f)
  {
    Fix(StampSecs(p.utc), StampNsecs(p.utc), FrameId, p.latitude, p.longitude, p.altitude,
        p.utm.easting, p.utm.northing, p.utm.zone, p.utm.letter, hdop, raw)
  }

  /**
   * The record published for the fields of a GPGGA line, or `None` when decoding fails; its
   * raw sentence is the fields joined back with commas.
   */
  function DecodeFields(data: seq<string>, project: Projection): (r: Option<Fix>)
    ensures r.Some? ==> |data| >= MinFields && r.value.gpggaRead == Join(data)
    ensures r.Some? ==> r.value.frameId == FrameId && 0 <= r.value.nsecs < 10000000
  {
    var p :- Prepare(data, project);
    var hdop :- ParseReal(data[8]);
    Some(Record(p, hdop, Join(data)))
  }

  /**
   * The record published for a stripped line, or `None` when the line is not a GPGGA sentence
   * or its decoding fails. A record carries the fixed frame, the line itself as its raw
   * sentence, and a sub-second count in range.
   */
  function LineToFix(line: string, project: Projection): (r: Option<Fix>)
    ensures r.Some? ==> Contains(line, TargetSentence) && r.value.gpggaRead == line
    ensures r.Some? ==> WellFormed(r.value)
  {
    if !Contains(line, TargetSentence) then None
    else
      JoinSplit(line);
      DecodeFields(Split(line), project)
  }

  /**
   * The message after a stripped line: unchanged when the line is skipped before the writes,
   * partly overwritten when only `hdop` fails, and equal to the published record otherwise,
   * whatever it held before.
   */
  function AfterLine(prev: Fix, line: string, project: Projection): (m: Fix)
    ensures !Contains(line, TargetSentence) ==> m == prev
    ensures LineToFix(line, project).Some? ==> m == LineToFix(line, project).value
  {
    if !Contains(line, TargetSentence) then prev
    else
      var data := Split(line);
      match Prepare(data, project)
      case None => prev
      case Some(p) =>
        match ParseReal(data[8])
        case None => Fill(prev, p)
        case Some(hdop) => Fill(prev, p).(hdop := hdop, gpggaRead := Join(data))
  }

  /**
   * The stripped text of a read: none exactly for undecodable bytes, an empty line for a
   * timeout, and otherwise a line that neither starts nor ends with whitespace.
   */
  function ReadText(read: ReadOutcome): (r: Option<string>)
    ensures r.None? <==> read.Undecodable?
    ensures read.TimedOut? ==> r == Some("")
    ensures r.Some? ==> r.value == [] || (!IsSpace(r.value[0]) && !IsSpace(r.value[|r.value| - 1]))
  {
    match read
    case Received(text) => Some(Strip(text))
    case Undecodable => None
    case TimedOut => Some(Strip(""))
  }

  /** The record one read publishes, if any. */
  function Emitted(read: ReadOutcome, project: Projection): (r: Option<Fix>)
    ensures r.Some? ==> WellFormed(r.value)
  {
    match ReadText(read)
    case None => None
    case Some(line) => LineToFix(line, project)
  }

  /**
   * The message after one read: a read that yields a line is handled as one, others change
   * nothing; a timeout's empty line fails the filter, so it changes nothing either; after a read
   * that publishes, the message is the published record.
   */
  function AfterRead(prev: Fix, read: ReadOutcome, project: Projection): (m: Fix)
    ensures read.Undecodable? ==> m == prev
    ensures read.TimedOut? ==> m == prev
    ensures Emitted(read, project).Some? ==> m == Emitted(read, project).value
  {
    assert !OccursAt("", TargetSentence, 0);
    match ReadText(read)
    case None => prev
    case Some(line) => AfterLine(prev, line, project)
  }

  /** `Emitted` for one projection, as a function of the read alone. */
  function Emitter(project: Projection): ReadOutcome -> Option<Fix>
  {
    read => Emitted(read, project)
  }

  /**
   * The records a sequence of reads publishes when each read on its own publishes `emit(read)`:
   * the present ones, in the order of the reads.
   */
  function Publish(outcomes: seq<ReadOutcome>, emit: ReadOutcome -> Option<Fix>): (r: seq<Fix>)
    ensures |r| <= |outcomes|
  {
    if outcomes == [] then []
    else Publish(outcomes[..|outcomes| - 1], emit) + Listed(emit(outcomes[|outcomes| - 1]))
  }

  /** The records one read adds to the output: its record, or none. */
  function Listed(e: Option<Fix>): (r: seq<Fix>)
    ensures |r| <= 1
    ensures forall i :: 0 <= i < |r| ==> e == Some(r[i])
  {
    match e
    case None => []
    case Some(f) => [f]
  }

  /** The records the driver publishes from a sequence of reads: at most one per read. */
  function PublishedFrom(outcomes: seq<ReadOutcome>, project: Projection): (r: seq<Fix>)
    ensures |r| <= |outcomes|
  {
    Publish(outcomes, Emitter(project))
  }

  /** One more read adds its record, if any, after those of the reads before it. */
  lemma PublishSnoc(outcomes: seq<ReadOutcome>, read: ReadOutcome, emit: ReadOutcome -> Option<Fix>)
    ensures Publish(outcomes + [read], emit) == Publish(outcomes, emit) + Listed(emit(read))
  {
    assert (outcomes + [read])[..|outcomes|] == outcomes;
  }

  /** The run up to read `i` inclusive publishes the run before it, then what read `i` emits. */
  lemma PublishedStep(outcomes: seq<ReadOutcome>, i: nat, project: Projection)
    requires i < |outcomes|
    ensures PublishedFrom(outcomes[..i + 1], project) ==
      PublishedFrom(outcomes[..i], project) + Listed(Emitted(outcomes[i], project))
  {
    assert outcomes[..i + 1] == outcomes[..i] + [outcomes[i]];
    PublishSnoc(outcomes[..i], outcomes[i], Emitter(project));
  }

  /** The single reused `Customgps` message object. */
  class Msg {
    var secs: int
    var nsecs: int
    var frameId: string
    var latitude: real
    var longitude: real
    var altitude: real
    var utmEasting: real
    var utmNorthing: real
    var zone: int
    var letter: string
    var hdop: real
    var gpggaRead: string

    /** The message's current contents. */
    function Value(): Fix
      reads this
    {
      Fix(secs, nsecs, frameId, latitude, longitude, altitude,
          utmEasting, utmNorthing, zone, letter, hdop, gpggaRead)
    }

    /** `Customgps()`: every field at its default. */
    constructor ()
      ensures Value() == Blank
    {
      secs, nsecs, frameId := 0, 0, "";
      latitude, longitude, altitude := 0.0, 0.0, 0.0;
      utmEasting, utmNorthing, zone, letter := 0.0, 0.0, 0, "";
      hdop, gpggaRead := 0.0, "";
    }

    /**
     * One pass of the `try` block for a stripped line: decode, overwrite the fields one by one,
     * and return the record to publish. A failure before the first write leaves the message as it
     * was; a failure at `hdop` leaves it partly overwritten and publishes nothing.
     */
    method HandleLine(line: string, project: Projection) returns (record: Option<Fix>)
      modifies this
      ensures Value() == AfterLine(old(Value()), line, project)
      ensures record == LineToFix(line, project)
      ensures record.Some? ==> record.value == Value()
    {
      record := None;
      if !Contains(line, TargetSentence) {
        return;
      }
      var data := Split(line);
      var prepared := Prepare(data, project);
      if prepared.None? {
        SkippedBeforeWrites(Value(), line, project);
        return;
      }
      var p := prepared.value;
      ghost var prev := Value();
      WriteFix(p);
      var parsedHdop := ParseReal(data[8]);
      if parsedHdop.None? {
        HdopRejected(prev, line, project, p);
        return;
      }
      hdop := parsedHdop.value;
      gpggaRead := Join(data);
      Decoded(prev, line, project, p, hdop);
      record := Some(Value());
    }

    /**
     * One turn of the loop for one read: undecodable bytes are skipped, anything else is
     * stripped and handled as a line. Returns the record the turn publishes, if any.
     */
    method HandleRead(read: ReadOutcome, project: Projection) returns (record: Option<Fix>)
      modifies this
      ensures Value() == AfterRead(old(Value()), read, project)
      ensures record == Emitted(read, project)
    {
      var line := ReadText(read);
      if line.Some? {
        record := HandleLine(line.value, project);
      } else {
        record := None;
      }
    }

    /** The stamp, frame, position and UTM fields, written one by one in the order of the driver. */
    method WriteFix(p: Prepared)
      modifies this
      ensures Value() == Fill(old(Value()), p)
    {
      WriteStamp(StampSecs(p.utc), StampNsecs(p.utc));
      WritePosition(p.latitude, p.longitude, p.altitude, p.utm);
    }

    /** The header stamp and frame. */
    method WriteStamp(s: int, n: int)
      modifies this
      ensures Value() == old(Value()).(secs := s, nsecs := n, frameId := FrameId)
    {
      secs := s;
      nsecs := n;
      frameId := FrameId;
    }

    /** The position and its UTM projection. */
    method WritePosition(lat: real, lon: real, alt: real, utm: UtmPoint)
      modifies this
      ensures Value() == old(Value()).(latitude := lat, longitude := lon, altitude := alt,
        utmEasting := utm.easting, utmNorthing := utm.northing, zone := utm.zone, letter := utm.letter)
    {
      latitude := lat;
      longitude := lon;
      altitude := alt;
      utmEasting := utm.easting;
      utmNorthing := utm.northing;
      zone := utm.zone;
      letter := utm.letter;
    }
  }

  /** A GPGGA line that fails before the first write publishes nothing and leaves the message as it was. */
  lemma SkippedBeforeWrites(prev: Fix, line: string, project: Projection)
    requires Contains(line, TargetSentence) && Prepare(Split(line), project).None?
    ensures AfterLine(prev, line, project) == prev && LineToFix(line, project).None?
  {
  }

  /**
   * A GPGGA line whose `hdop` does not parse publishes nothing, yet leaves the message with the
   * stamp, frame, position and UTM of that line and the `hdop` and raw sentence of the last one.
   */
  lemma HdopRejected(prev: Fix, line: string, project: Projection, p: Prepared)
    requires Contains(line, TargetSentence) && Prepare(Split(line), project) == Some(p)
    requires ParseReal(Split(line)[8]).None?
    ensures AfterLine(prev, line, project) == Fill(prev, p) && LineToFix(line, project).None?
    ensures AfterLine(prev, line, project).hdop == prev.hdop
    ensures AfterLine(prev, line, project).gpggaRead == prev.gpggaRead
    ensures AfterLine(prev, line, project).frameId == FrameId
  {
  }

  /**
   * A decoded line overwrites every field: the message holds the record of this line alone,
   * whatever it held before.
   */
  lemma Decoded(prev: Fix, line: string, project: Projection, p: Prepared, hdop: real)
    requires Contains(line, TargetSentence) && Prepare(Split(line), project) == Some(p)
    requires ParseReal(Split(line)[8]) == Some(hdop)
    ensures LineToFix(line, project) == Some(Record(p, hdop, line))
    ensures AfterLine(prev, line, project) == Record(p, hdop, line)
    ensures Fill(prev, p).(hdop := hdop, gpggaRead := Join(Split(line))) == Record(p, hdop, line)
  {
    JoinSplit(line);
  }

  /**
   * The driver loop over a finite sequence of reads: undecodable reads and non-GPGGA lines are
   * skipped, and each decoded sentence appends one record, in the order of the outcomes.
   */
  method DriverLoop(outcomes: seq<ReadOutcome>, project: Projection) returns (published: seq<Fix>)
    ensures published == PublishedFrom(outcomes, project)
  {
    var msg := new Msg();
    published := [];
    for i := 0 to |outcomes|
      invariant published == PublishedFrom(outcomes[..i], project)
    {
      PublishedStep(outcomes, i, project);
      var record := msg.HandleRead(outcomes[i], project);
      published := published + Listed(record);
    }
    assert outcomes[..|outcomes|] == outcomes;
  }
}

