/** Properties of the driver as a whole. */
module DriverProperties {
  import opened Wrappers
  import opened Text
  import opened Numeric
  import opened TimeDecoder
  import opened Coordinates
  import opened Driver

  /** Publishing is compositional: the records of two runs of reads are those of each, in order. */
  lemma {:induction false} PublishAppend(a: seq<ReadOutcome>, b: seq<ReadOutcome>, emit: ReadOutcome -> Option<Fix>)
    ensures Publish(a + b, emit) == Publish(a, emit) + Publish(b, emit)
    decreases |b|
  {
    if b == [] {
      assert a + b == a;
    } else {
      var b', last := b[..|b| - 1], b[|b| - 1];
      assert b == b' + [last];
      assert a + b == (a + b') + [last];
      PublishSnoc(a + b', last, emit);
      PublishSnoc(b', last, emit);
      PublishAppend(a, b', emit);
    }
  }

  /** A property that every single emission has holds of every record a run publishes. */
  lemma {:induction false} PublishKeeps(outcomes: seq<ReadOutcome>, emit: ReadOutcome -> Option<Fix>, good: Fix -> bool)
    requires forall read :: emit(read).Some? ==> good(emit(read).value)
    ensures forall i :: 0 <= i < |Publish(outcomes, emit)| ==> good(Publish(outcomes, emit)[i])
  {
    if outcomes != [] {
      var front, last := outcomes[..|outcomes| - 1], outcomes[|outcomes| - 1];
      assert outcomes == front + [last];
      PublishSnoc(front, last, emit);
      PublishKeeps(front, emit, good);
    }
  }

  /** Every record the driver publishes is well formed: frame `GPS1_Frame`, a GPGGA raw line, a sub-second count in range. */
  lemma PublishedWellFormed(outcomes: seq<ReadOutcome>, project: Projection)
    ensures forall i :: 0 <= i < |PublishedFrom(outcomes, project)| ==> WellFormed(PublishedFrom(outcomes, project)[i])
  {
    PublishKeeps(outcomes, Emitter(project), WellFormed);
  }

  /**
   * A read that publishes nothing (undecodable bytes, a timeout, a line without `$GPGGA`, a
   * sentence that fails to decode) has no effect on what the rest of the run publishes.
   */
  lemma SkippedReadInvisible(a: seq<ReadOutcome>, read: ReadOutcome, b: seq<ReadOutcome>, emit: ReadOutcome -> Option<Fix>)
    requires emit(read).None?
    ensures Publish(a + [read] + b, emit) == Publish(a + b, emit)
  {
    PublishAppend(a + [read], b, emit);
    PublishSnoc(a, read, emit);
    PublishAppend(a, b, emit);
  }

  /** Undecodable bytes and timeouts never publish. */
  lemma NoLineNoRecord(project: Projection)
    ensures Emitted(Undecodable, project).None? && Emitted(TimedOut, project).None?
  {
    assert ReadText(TimedOut) == Some("");
    EmptyLineIgnored(project);
  }

  /** The empty line a timeout yields holds no tag. */
  lemma EmptyLineIgnored(project: Projection)
    ensures LineToFix("", project).None?
  {
    assert !OccursAt("", TargetSentence, 0);
  }

  /** The tag is found anywhere in the line, not only at its start. */
  lemma TagAnywhere(before: string, after: string)
    ensures Contains(before + TargetSentence + after, TargetSentence)
  {
    var s := before + TargetSentence + after;
    assert s[|before|..|before| + |TargetSentence|] == TargetSentence;
    assert OccursAt(s, TargetSentence, |before|);
  }

  /**
   * The fields before the first write decode exactly when there are at least ten of them,
   * fields 1, 2, 4 and 9 parse as numbers and the projection accepts the position.
   */
  lemma PrepareSucceeds(data: seq<string>, project: Projection)
    ensures Prepare(data, project).Some? <==>
      |data| >= MinFields && NumberField(data, 1).Some? && NumberField(data, 2).Some? &&
      NumberField(data, 4).Some? && NumberField(data, 9).Some? &&
      project(Latitude(ParseReal(data[2]).value, data[3]),
              Longitude(ParseReal(data[4]).value, data[5])).Some?
  {
  }

  /** A GPGGA line with fewer than ten fields publishes nothing and leaves the message unchanged. */
  lemma TruncatedSentence(prev: Fix, line: string, project: Projection)
    requires |Split(line)| < MinFields
    ensures LineToFix(line, project).None? && AfterLine(prev, line, project) == prev
  {
  }

  /**
   * A GPGGA line whose time, latitude, longitude or altitude does not parse publishes nothing
   * and leaves the message unchanged.
   */
  lemma FieldRejected(prev: Fix, line: string, project: Projection, k: nat)
    requires k == 1 || k == 2 || k == 4 || k == 9
    requires NumberField(Split(line), k).None?
    ensures LineToFix(line, project).None? && AfterLine(prev, line, project) == prev
  {
    PrepareSucceeds(Split(line), project);
  }

  /**
   * The message after a line is the same whether the line is processed once or twice in a row:
   * a decoded line leaves its record, a rejected one leaves what it found, an `hdop` failure
   * leaves the same partial update.
   */
  lemma AfterLineIdempotent(prev: Fix, line: string, project: Projection)
    ensures AfterLine(AfterLine(prev, line, project), line, project) == AfterLine(prev, line, project)
  {
  }

  /** Only a line containing `$GPGGA` can change the message. */
  lemma NonSentenceIgnored(prev: Fix, line: string, project: Projection)
    requires !Contains(line, TargetSentence)
    ensures LineToFix(line, project).None? && AfterLine(prev, line, project) == prev
  {
  }

  /**
   * The fields of a GGA sentence a receiver sends, as text: time, latitude and hemisphere,
   * longitude and hemisphere, fix quality, satellite count, hdop, altitude, then any further
   * fields (units, geoid separation, age and station of the correction, checksum).
   */
  datatype Reading = Reading(
    time: string, latitude: string, latHemisphere: string, longitude: string,
    lonHemisphere: string, quality: string, satellites: string, hdop: string,
    altitude: string, tail: seq<string>)

  /** The fields of the sentence for a reading, in their NMEA 0183 positions 0 to 9 and beyond. */
  function SentenceFields(r: Reading): seq<string>
  {
    [TargetSentence, r.time, r.latitude, r.latHemisphere, r.longitude, r.lonHemisphere,
     r.quality, r.satellites, r.hdop, r.altitude] + r.tail
  }

  /** The sentence line for a reading: its fields joined by commas. */
  function Sentence(r: Reading): string
  {
    Join(SentenceFields(r))
  }

  /** No field of a reading contains a comma, as NMEA 0183 requires of a field. */
  predicate PlainFields(r: Reading) {
    forall k :: 0 <= k < |SentenceFields(r)| ==> Delimiter !in SentenceFields(r)[k]
  }

  /** The sentence for a reading splits back into its fields and carries the tag. */
  lemma SentenceSplits(r: Reading)
    requires PlainFields(r)
    ensures Split(Sentence(r)) == SentenceFields(r)
    ensures Contains(Sentence(r), TargetSentence)
  {
    var fields := SentenceFields(r);
    SplitJoin(fields);
    JoinHead(TargetSentence, fields[1..]);
    assert [TargetSentence] + fields[1..] == fields;
    TagAnywhere("", [Delimiter] + Join(fields[1..]));
  }

  /**
   * The fields before the first write decode to the values read from fields 1, 2, 4 and 9 and
   * the hemispheres in fields 3 and 5, whenever the projection accepts the position.
   */
  lemma PrepareOf(data: seq<string>, project: Projection, utc: real, lat: real, lon: real, alt: real)
    requires |data| >= MinFields
    requires NumberField(data, 1) == Some(utc) && NumberField(data, 2) == Some(lat)
    requires NumberField(data, 4) == Some(lon) && NumberField(data, 9) == Some(alt)
    ensures var latitude := Latitude(lat, data[3]);
      var longitude := Longitude(lon, data[5]);
      Prepare(data, project) ==
        match project(latitude, longitude)
        case None => None
        case Some(u) => Some(Prepared(utc, latitude, longitude, alt, u))
  {
  }

  /** Where each field of a reading sits in the sentence. */
  lemma FieldPositions(r: Reading)
    ensures var data := SentenceFields(r);
      |data| >= MinFields && data[1] == r.time && data[2] == r.latitude &&
      data[3] == r.latHemisphere && data[4] == r.longitude && data[5] == r.lonHemisphere &&
      data[8] == r.hdop && data[9] == r.altitude
  {
  }

  /** The sentence for a reading is decoded from its fields. */
  lemma SentenceDecodes(r: Reading, project: Projection)
    requires PlainFields(r)
    ensures LineToFix(Sentence(r), project) == DecodeFields(SentenceFields(r), project)
  {
    SentenceSplits(r);
  }

  /** The fields of a reading decode to the values their numbers read as. */
  lemma FieldsDecode(r: Reading, project: Projection, utc: real, lat: real, lon: real, hdop: real, alt: real)
    requires ParseReal(r.time) == Some(utc) && ParseReal(r.latitude) == Some(lat)
    requires ParseReal(r.longitude) == Some(lon) && ParseReal(r.hdop) == Some(hdop)
    requires ParseReal(r.altitude) == Some(alt)
    ensures var latitude := Latitude(lat, r.latHemisphere);
      var longitude := Longitude(lon, r.lonHemisphere);
      DecodeFields(SentenceFields(r), project) ==
        match project(latitude, longitude)
        case None => None
        case Some(u) => Some(Record(Prepared(utc, latitude, longitude, alt, u), hdop, Join(SentenceFields(r))))
  {
    var data := SentenceFields(r);
    FieldPositions(r);
    PrepareOf(data, project, utc, lat, lon, alt);
  }

  /**
   * The record a sentence with the given field values should publish: the values with the
   * hemisphere signs applied, stamped from the time and carrying the sentence as its raw text,
   * whenever the projection accepts the position, and nothing otherwise.
   */
  function Reported(r: Reading, project: Projection, utc: real, lat: real, lon: real, hdop: real, alt: real): Option<Fix>
  {
    var latitude := Latitude(lat, r.latHemisphere);
    var longitude := Longitude(lon, r.lonHemisphere);
    match project(latitude, longitude)
    case None => None
    case Some(u) => Some(Record(Prepared(utc, latitude, longitude, alt, u), hdop, Sentence(r)))
  }

  /**
   * Decoding inverts what a receiver sends: a sentence whose numeric fields read as `utc`, `lat`,
   * `lon`, `hdop` and `alt` publishes the record of exactly those values, with the hemisphere
   * signs applied and the sentence as its raw text, whenever the projection accepts the
   * position, and nothing otherwise.
   */
  lemma SentenceRoundTrip(r: Reading, project: Projection, utc: real, lat: real, lon: real, hdop: real, alt: real)
    requires PlainFields(r)
    requires ParseReal(r.time) == Some(utc) && ParseReal(r.latitude) == Some(lat)
    requires ParseReal(r.longitude) == Some(lon) && ParseReal(r.hdop) == Some(hdop)
    requires ParseReal(r.altitude) == Some(alt)
    ensures LineToFix(Sentence(r), project) == Reported(r, project, utc, lat, lon, hdop, alt)
  {
    SentenceDecodes(r, project);
    FieldsDecode(r, project, utc, lat, lon, hdop, alt);
  }
}
