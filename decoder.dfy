/** decodeBinaryMessage: field extraction from an accepted frame.

    The header length h is byte 3 of the frame and the log type the u16 at
    bytes 4-5. Type 42 (BESTPOS) and type 37 (VERSION) are decoded; any other
    type is passed over. Every field sits at a fixed offset from h, so each log
    is read from the body slice that starts at h: the position log from its
    first 72 bytes, each version component from a 108-byte record. Floating-point
    fields stay the raw little-endian bytes they are stored as. Where the C#
    code would read past the end of the array it throws; the model returns
    `Truncated` instead (or, for the version log, the components read before the
    record that does not fit). */
module Decoder {
  import opened Bytes
  import opened Labels

  /** BINARY_LOG_TYPE. */
  const VersionLogType := 37
  const BestPosLogType := 42

  /** Bytes of the position log read after h, and of one version component. */
  const PositionBodyLength := 72
  const ComponentRecordLength := 108

  // ---------------------------------------------------------------------------
  // Text fields: Encoding.ASCII.GetChars, then cutting at the first NUL.

  /** Encoding.ASCII's decoding of one byte: bytes above 0x7F become '?'. */
  function AsciiChar(b: byte): (c: char)
    ensures (c as int) < 0x80
    ensures c as int == b <==> b < 0x80
  {
    if b < 0x80 then b as char else '?'
  }

  function AsciiChars(bytes: seq<byte>): (text: string)
    ensures |text| == |bytes|
    ensures forall i | 0 <= i < |bytes| :: text[i] == AsciiChar(bytes[i])
  {
    if bytes == [] then [] else [AsciiChar(bytes[0])] + AsciiChars(bytes[1..])
  }

  /** String.IndexOf('\0') on a string that contains a NUL: the first one. */
  function NulIndex(text: string): (i: nat)
    requires '\0' in text
    ensures i < |text| && text[i] == '\0'
    ensures forall j | 0 <= j < i :: text[j] != '\0'
  {
    if text[0] == '\0' then 0 else 1 + NulIndex(text[1..])
  }

  /** `if (s.Contains('\0')) s = s.Substring(0, s.IndexOf('\0'))`: the text
      before the first NUL, or all of it when there is none. */
  function TrimAtNul(text: string): (r: string)
    ensures |r| <= |text| && r == text[..|r|]
    ensures '\0' !in r
    ensures |r| < |text| ==> text[|r|] == '\0'
  {
    if '\0' in text then text[..NulIndex(text)] else text
  }

  /** Trimming a trimmed text changes nothing. */
  lemma TrimAtNulIdempotent(text: string)
    ensures TrimAtNul(TrimAtNul(text)) == TrimAtNul(text)
  {
  }

  /** A fixed-width text field: `width` bytes decoded and cut at the first NUL. */
  function TextField(bytes: seq<byte>): (text: string)
    ensures |text| <= |bytes| && '\0' !in text
  {
    TrimAtNul(AsciiChars(bytes))
  }

  /** Text a field of the given width can carry unchanged: ASCII without NUL. */
  predicate FieldText(text: string, width: nat) {
    |text| <= width && forall i | 0 <= i < |text| :: 0 < text[i] as int < 0x80
  }

  /** How a sender fills a text field: the characters' codes, then NULs. */
  function PadText(text: string, width: nat): (bytes: seq<byte>)
    requires FieldText(text, width)
    ensures |bytes| == width
  {
    seq(width, i requires 0 <= i < width => if i < |text| then text[i] as int else 0)
  }

  /** A text written by PadText reads back as the same text. */
  lemma TextFieldRoundTrip(text: string, width: nat)
    requires FieldText(text, width)
    ensures TextField(PadText(text, width)) == text
  {
    var chars := AsciiChars(PadText(text, width));
    assert chars[..|text|] == text;
    if |text| < width {
      assert chars[|text|] == '\0';
      assert '\0' in chars;
      assert '\0' !in text;
      assert NulIndex(chars) == |text|;
    } else {
      assert chars == text;
    }
  }

  // ---------------------------------------------------------------------------
  // BESTPOS.

  /** The BESTPOS fields decodeBinaryMessage reads, by offset from h. */
  datatype PositionLog = PositionLog(
    solutionStatus: int,             // i32 at h
    positionType: int,               // i32 at h + 4
    latitude: seq<byte>,             // double at h + 8
    longitude: seq<byte>,            // double at h + 16
    height: seq<byte>,               // double at h + 24
    undulation: seq<byte>,           // float at h + 32
    datum: int,                      // i32 at h + 36
    latitudeStdDev: seq<byte>,       // float at h + 40
    longitudeStdDev: seq<byte>,      // float at h + 44
    heightStdDev: seq<byte>,         // float at h + 48
    baseStationId: string,           // 4 characters at h + 52
    differentialAge: seq<byte>,      // float at h + 56
    solutionAge: seq<byte>,          // float at h + 60
    satellitesTracked: byte,         // h + 64
    satellitesInSolution: byte,      // h + 65
    satellitesL1E1B1: byte,          // h + 66
    satellitesMultiFreq: byte,       // h + 67
    extendedSolutionStatus: byte,    // h + 69
    galileoBeidouMask: byte,         // h + 70
    gpsGlonassMask: byte             // h + 71
  )

  /** The BESTPOS fields read from the 72 bytes that follow the header. */
  function PositionFromBody(body: seq<byte>): (log: PositionLog)
    requires |body| == PositionBodyLength
    ensures |log.latitude| == |log.longitude| == |log.height| == 8
    ensures |log.undulation| == |log.latitudeStdDev| == |log.longitudeStdDev| == |log.heightStdDev| == 4
    ensures |log.differentialAge| == |log.solutionAge| == 4
    ensures |log.baseStationId| <= 4 && '\0' !in log.baseStationId
    ensures -0x8000_0000 <= log.solutionStatus < 0x8000_0000
    ensures -0x8000_0000 <= log.positionType < 0x8000_0000
    ensures -0x8000_0000 <= log.datum < 0x8000_0000
  {
    PositionLog(
      I32(body[0..4]), I32(body[4..8]),
      body[8..16], body[16..24], body[24..32], body[32..36],
      I32(body[36..40]),
      body[40..44], body[44..48], body[48..52],
      TextField(body[52..56]),
      body[56..60], body[60..64],
      body[64], body[65], body[66], body[67],
      body[69], body[70], body[71])
  }

  /** The field values a sender can put in a BESTPOS body. */
  predicate Encodable(log: PositionLog) {
    && -0x8000_0000 <= log.solutionStatus < 0x8000_0000
    && -0x8000_0000 <= log.positionType < 0x8000_0000
    && -0x8000_0000 <= log.datum < 0x8000_0000
    && |log.latitude| == 8 && |log.longitude| == 8 && |log.height| == 8
    && |log.undulation| == 4 && |log.latitudeStdDev| == 4
    && |log.longitudeStdDev| == 4 && |log.heightStdDev| == 4
    && |log.differentialAge| == 4 && |log.solutionAge| == 4
    && FieldText(log.baseStationId, 4)
  }

  /** The first 40 bytes of a BESTPOS body: statuses, position, datum. */
  function PositionHead(log: PositionLog): (bytes: seq<byte>)
    requires Encodable(log)
    ensures |bytes| == 40
  {
    I32Bytes(log.solutionStatus) + I32Bytes(log.positionType)
      + log.latitude + log.longitude + log.height + log.undulation
      + I32Bytes(log.datum)
  }

  /** The last 32 bytes: deviations, base station, ages, counts, masks; the
      byte at h + 68, which the decoder skips, is written as 0. */
  function PositionTail(log: PositionLog): (bytes: seq<byte>)
    requires Encodable(log)
    ensures |bytes| == 32
  {
    log.latitudeStdDev + log.longitudeStdDev + log.heightStdDev
      + PadText(log.baseStationId, 4)
      + log.differentialAge + log.solutionAge
      + [log.satellitesTracked, log.satellitesInSolution, log.satellitesL1E1B1, log.satellitesMultiFreq,
         0, log.extendedSolutionStatus, log.galileoBeidouMask, log.gpsGlonassMask]
  }

  /** A BESTPOS body as the receiver lays it out. */
  function EncodePosition(log: PositionLog): (body: seq<byte>)
    requires Encodable(log)
    ensures |body| == PositionBodyLength
  {
    PositionHead(log) + PositionTail(log)
  }

  lemma PositionHeadRoundTrip(log: PositionLog)
    requires Encodable(log)
    ensures var b := EncodePosition(log);
            && I32(b[0..4]) == log.solutionStatus && I32(b[4..8]) == log.positionType
            && b[8..16] == log.latitude && b[16..24] == log.longitude
            && b[24..32] == log.height && b[32..36] == log.undulation
            && I32(b[36..40]) == log.datum
  {
    var b := EncodePosition(log);
    var head := PositionHead(log);
    assert b[..40] == head;
    assert head[0..4] == I32Bytes(log.solutionStatus);
    assert head[4..8] == I32Bytes(log.positionType);
    assert head[8..16] == log.latitude;
    assert head[16..24] == log.longitude;
    assert head[24..32] == log.height;
    assert head[32..36] == log.undulation;
    assert head[36..40] == I32Bytes(log.datum);
    I32RoundTrip(log.solutionStatus);
    I32RoundTrip(log.positionType);
    I32RoundTrip(log.datum);
  }

  /** Where PositionTail puts each field, relative to byte 40 of the body. */
  lemma PositionTailLayout(log: PositionLog)
    requires Encodable(log)
    ensures var t := PositionTail(log);
            && t[0..4] == log.latitudeStdDev && t[4..8] == log.longitudeStdDev
            && t[8..12] == log.heightStdDev && t[12..16] == PadText(log.baseStationId, 4)
            && t[16..20] == log.differentialAge && t[20..24] == log.solutionAge
            && t[24] == log.satellitesTracked && t[25] == log.satellitesInSolution
            && t[26] == log.satellitesL1E1B1 && t[27] == log.satellitesMultiFreq
            && t[29] == log.extendedSolutionStatus && t[30] == log.galileoBeidouMask
            && t[31] == log.gpsGlonassMask
  {
    var t := PositionTail(log);
    var front := log.latitudeStdDev + log.longitudeStdDev + log.heightStdDev
      + PadText(log.baseStationId, 4);
    var ages := log.differentialAge + log.solutionAge;
    assert t == front + ages + t[24..];
    assert t[..16] == front;
    assert t[16..24] == ages;
  }

  lemma PositionTailRoundTrip(log: PositionLog)
    requires Encodable(log)
    ensures var b := EncodePosition(log);
            && b[40..44] == log.latitudeStdDev && b[44..48] == log.longitudeStdDev
            && b[48..52] == log.heightStdDev
            && TextField(b[52..56]) == log.baseStationId
            && b[56..60] == log.differentialAge && b[60..64] == log.solutionAge
            && b[64] == log.satellitesTracked && b[65] == log.satellitesInSolution
            && b[66] == log.satellitesL1E1B1 && b[67] == log.satellitesMultiFreq
            && b[69] == log.extendedSolutionStatus && b[70] == log.galileoBeidouMask
            && b[71] == log.gpsGlonassMask
  {
    var b := EncodePosition(log);
    var t := PositionTail(log);
    PositionTailLayout(log);
    assert b[40..] == t;
    assert b[40..44] == t[0..4];
    assert b[44..48] == t[4..8];
    assert b[48..52] == t[8..12];
    assert b[52..56] == t[12..16];
    assert b[56..60] == t[16..20];
    assert b[60..64] == t[20..24];
    TextFieldRoundTrip(log.baseStationId, 4);
  }

  /** The decoder never reads the byte at h + 68: whatever it holds, the
      decoded log is the same. */
  lemma PositionSkipsByte68(body: seq<byte>, x: byte)
    requires |body| == PositionBodyLength
    ensures PositionFromBody(body[68 := x]) == PositionFromBody(body)
  {
    assert body[68 := x][52..56] == body[52..56];
  }

  /** Reading the fields back from a body the receiver laid out gives the
      fields it wrote. */
  lemma PositionRoundTrip(log: PositionLog)
    requires Encodable(log)
    ensures PositionFromBody(EncodePosition(log)) == log
  {
    PositionHeadRoundTrip(log);
    PositionTailRoundTrip(log);
  }

  /** What decodeBinaryMessage prints for a BESTPOS log besides the raw
      numbers: the three labels and the flag lines. `glide` is whether the
      GLIDE line is printed at all. */
  datatype PositionReport = PositionReport(
    solutionStatus: string, positionType: string, datum: string,
    glide: bool,
    klobuchar: bool, sbas: bool, multiFreq: bool, psrDiff: bool, novatelIono: bool,
    antennaWarning: bool,
    galileoE1: bool, beidouB1: bool, beidouB2: bool,
    gpsL1: bool, gpsL2: bool, gpsL5: bool, glonassL1: bool, glonassL2: bool)

  function Report(log: PositionLog): (r: PositionReport)
    ensures r.glide ==> log.positionType == PosTypeSingle
    ensures r.multiFreq ==> r.klobuchar && r.sbas
    ensures r.novatelIono ==> r.klobuchar && r.psrDiff
  {
    var ext := log.extendedSolutionStatus;
    CompositeIonoFlags(ext);
    PositionReport(
      GetSolnStatusString(log.solutionStatus),
      GetPosTypeString(log.positionType),
      GetDatumString(log.datum),
      log.positionType == PosTypeSingle && IsFlagActive(ext, Glide),
      IsFlagActive(ext, IonoCorrKlobuchar), IsFlagActive(ext, IonoCorrSBAS),
      IsFlagActive(ext, IonoCorrMultiFreq), IsFlagActive(ext, IonoCorrPSRDIFF),
      IsFlagActive(ext, IonoCorrNovatelIono), IsFlagActive(ext, AntennaWarning),
      IsFlagActive(log.galileoBeidouMask, E1Used),
      IsFlagActive(log.galileoBeidouMask, BeidouB1Used),
      IsFlagActive(log.galileoBeidouMask, BeidouB2Used),
      IsFlagActive(log.gpsGlonassMask, GpsL1Used), IsFlagActive(log.gpsGlonassMask, GpsL2Used),
      IsFlagActive(log.gpsGlonassMask, GpsL5Used), IsFlagActive(log.gpsGlonassMask, GloL1Used),
      IsFlagActive(log.gpsGlonassMask, GloL2Used))
  }

  // ---------------------------------------------------------------------------
  // VERSION.

  /** One component record of the version log, as stored: the type code and
      the seven fixed-width text fields, still in bytes. */
  datatype Component = Component(
    componentType: int,         // i32 at offset + 4
    model: seq<byte>,           // 16 bytes at offset + 8
    serialNumber: seq<byte>,    // 16 at offset + 24
    hardwareVersion: seq<byte>, // 16 at offset + 40
    softwareVersion: seq<byte>, // 16 at offset + 56
    bootVersion: seq<byte>,     // 16 at offset + 72
    compileDate: seq<byte>,     // 12 at offset + 88
    compileTime: seq<byte>      // 12 at offset + 100
  )

  /** Component i's fields, read from its 108 bytes, which start at
      offset + 4 where offset is h + i * 108. */
  function ComponentFromRecord(record: seq<byte>): (c: Component)
    requires |record| == ComponentRecordLength
    ensures -0x8000_0000 <= c.componentType < 0x8000_0000
    ensures |c.model| == |c.serialNumber| == |c.hardwareVersion| == 16
    ensures |c.softwareVersion| == |c.bootVersion| == 16
    ensures |c.compileDate| == |c.compileTime| == 12
  {
    Component(
      I32(record[0..4]),
      record[4..20], record[20..36], record[36..52], record[52..68], record[68..84],
      record[84..96], record[96..108])
  }

  /** What the version loop prints for one component: the type code (shown
      through GetCompTypeString) and the seven texts, each cut at its first NUL. */
  datatype ComponentText = ComponentText(
    componentType: int,
    model: string, serialNumber: string, hardwareVersion: string,
    softwareVersion: string, bootVersion: string,
    compileDate: string, compileTime: string)

  function Describe(c: Component): (t: ComponentText)
    ensures t.componentType == c.componentType
    ensures |t.model| <= |c.model| && '\0' !in t.model
    ensures |t.serialNumber| <= |c.serialNumber| && '\0' !in t.serialNumber
    ensures |t.hardwareVersion| <= |c.hardwareVersion| && '\0' !in t.hardwareVersion
    ensures |t.softwareVersion| <= |c.softwareVersion| && '\0' !in t.softwareVersion
    ensures |t.bootVersion| <= |c.bootVersion| && '\0' !in t.bootVersion
    ensures |t.compileDate| <= |c.compileDate| && '\0' !in t.compileDate
    ensures |t.compileTime| <= |c.compileTime| && '\0' !in t.compileTime
  {
    ComponentText(
      c.componentType,
      TextField(c.model), TextField(c.serialNumber), TextField(c.hardwareVersion),
      TextField(c.softwareVersion), TextField(c.bootVersion),
      TextField(c.compileDate), TextField(c.compileTime))
  }

  /** The component descriptions a receiver can lay out unchanged. */
  predicate ComponentEncodable(t: ComponentText) {
    && -0x8000_0000 <= t.componentType < 0x8000_0000
    && FieldText(t.model, 16) && FieldText(t.serialNumber, 16)
    && FieldText(t.hardwareVersion, 16) && FieldText(t.softwareVersion, 16)
    && FieldText(t.bootVersion, 16)
    && FieldText(t.compileDate, 12) && FieldText(t.compileTime, 12)
  }

  function EncodeComponent(t: ComponentText): (record: seq<byte>)
    requires ComponentEncodable(t)
    ensures |record| == ComponentRecordLength
  {
    I32Bytes(t.componentType)
      + PadText(t.model, 16) + PadText(t.serialNumber, 16) + PadText(t.hardwareVersion, 16)
      + PadText(t.softwareVersion, 16) + PadText(t.bootVersion, 16)
      + PadText(t.compileDate, 12) + PadText(t.compileTime, 12)
  }

  /** Which bytes of a record EncodeComponent fills with each field. */
  lemma ComponentLayout(t: ComponentText)
    requires ComponentEncodable(t)
    ensures var c := ComponentFromRecord(EncodeComponent(t));
            && c.componentType == t.componentType
            && c.model == PadText(t.model, 16) && c.serialNumber == PadText(t.serialNumber, 16)
            && c.hardwareVersion == PadText(t.hardwareVersion, 16)
            && c.softwareVersion == PadText(t.softwareVersion, 16)
            && c.bootVersion == PadText(t.bootVersion, 16)
            && c.compileDate == PadText(t.compileDate, 12)
            && c.compileTime == PadText(t.compileTime, 12)
  {
    var r := EncodeComponent(t);
    assert r[0..4] == I32Bytes(t.componentType);
    assert r[4..20] == PadText(t.model, 16);
    assert r[20..36] == PadText(t.serialNumber, 16);
    assert r[36..52] == PadText(t.hardwareVersion, 16);
    assert r[52..68] == PadText(t.softwareVersion, 16);
    assert r[68..84] == PadText(t.bootVersion, 16);
    assert r[84..96] == PadText(t.compileDate, 12);
    assert r[96..108] == PadText(t.compileTime, 12);
    I32RoundTrip(t.componentType);
  }

  /** A component laid out by the receiver prints as the description it came from. */
  lemma ComponentRoundTrip(t: ComponentText)
    requires ComponentEncodable(t)
    ensures Describe(ComponentFromRecord(EncodeComponent(t))) == t
  {
    ComponentLayout(t);
    TextFieldRoundTrip(t.model, 16);
    TextFieldRoundTrip(t.serialNumber, 16);
    TextFieldRoundTrip(t.hardwareVersion, 16);
    TextFieldRoundTrip(t.softwareVersion, 16);
    TextFieldRoundTrip(t.bootVersion, 16);
    TextFieldRoundTrip(t.compileDate, 12);
    TextFieldRoundTrip(t.compileTime, 12);
  }

  /** The component records a sender lays out one after another. */
  function EncodeComponents(components: seq<ComponentText>): (bytes: seq<byte>)
    requires forall i | 0 <= i < |components| :: ComponentEncodable(components[i])
    ensures |bytes| == 108 * |components|
  {
    if components == [] then []
    else EncodeComponent(components[0]) + EncodeComponents(components[1..])
  }

  /** Record i of EncodeComponents occupies bytes [i * 108, (i + 1) * 108). */
  lemma {:induction false} EncodeComponentsLayout(components: seq<ComponentText>, i: nat)
    requires forall j | 0 <= j < |components| :: ComponentEncodable(components[j])
    requires i < |components|
    ensures EncodeComponents(components)[i * 108..(i + 1) * 108] == EncodeComponent(components[i])
  {
    var first := EncodeComponent(components[0]);
    var rest := EncodeComponents(components[1..]);
    assert EncodeComponents(components) == first + rest;
    if i == 0 {
      assert (first + rest)[..108] == first;
    } else {
      EncodeComponentsLayout(components[1..], i - 1);
      assert (first + rest)[i * 108..(i + 1) * 108] == rest[(i - 1) * 108..i * 108];
    }
  }

  /** Whether component i, read from offset h + i * 108, lies inside the message. */
  predicate RecordFits(m: seq<byte>, h: nat, i: nat) {
    h + 4 + (i + 1) * 108 <= |m|
  }

  /** How many component records after the count at h lie inside the message. */
  function RecordsThatFit(m: seq<byte>, h: nat): (n: nat)
    requires h + 4 <= |m|
    ensures h + 4 + n * 108 <= |m| < h + 4 + (n + 1) * 108
  {
    (|m| - h - 4) / ComponentRecordLength
  }

  /** Record i fits exactly when i is below RecordsThatFit. */
  lemma FitsBelow(m: seq<byte>, h: nat, i: nat)
    requires h + 4 <= |m|
    ensures RecordFits(m, h, i) <==> i < RecordsThatFit(m, h)
  {
    var n := RecordsThatFit(m, h);
    if i < n {
      assert (i + 1) * 108 <= n * 108;
    } else {
      assert (n + 1) * 108 <= (i + 1) * 108;
    }
  }

  /** Component i of the version log whose count sits at h. */
  function ComponentAt(m: seq<byte>, h: nat, i: nat): Component
    requires RecordFits(m, h, i)
  {
    ComponentFromRecord(m[h + 4 + i * 108..h + 4 + (i + 1) * 108])
  }

  // ---------------------------------------------------------------------------
  // decodeBinaryMessage.

  /** What decodeBinaryMessage makes of a message. `Version` holds the count as
      read, the components the loop reads, and whether the loop ran off the end
      of the message before reaching the count. `Ignored` is a log type the
      switch has no case for; `Truncated` a read past the end of the message
      before any log was decoded. */
  datatype Decoded =
    | Position(log: PositionLog)
    | Version(count: int, components: seq<Component>, truncated: bool)
    | Ignored(logType: nat)
    | Truncated

  /** The version log: the signed count at h, then min(count, what fits)
      components; a negative count runs the loop zero times. */
  function VersionLog(m: seq<byte>, h: nat): (d: Decoded)
    requires h + 4 <= |m|
    ensures d.Version?
    ensures d.truncated <==> d.count > |d.components|
    ensures d.count > 0 ==> |d.components| <= d.count
    ensures d.count <= 0 ==> d.components == []
  {
    var count := I32(m[h..h + 4]);
    Version(count, Components(m, h, ComponentsRead(m, h)), count > RecordsThatFit(m, h))
  }

  /** How many times the version loop completes: the count, cut to zero when
      negative and to the records that fit when larger. */
  function ComponentsRead(m: seq<byte>, h: nat): (n: nat)
    requires h + 4 <= |m|
    ensures n <= RecordsThatFit(m, h)
  {
    var count := I32(m[h..h + 4]);
    var fit := RecordsThatFit(m, h);
    if count <= 0 then 0 else if count <= fit then count else fit
  }

  /** The first n components of the version log whose count sits at h. */
  function Components(m: seq<byte>, h: nat, n: nat): (components: seq<Component>)
    requires h + 4 + n * 108 <= |m|
    ensures |components| == n
  {
    if n == 0 then [] else Components(m, h, n - 1) + [ComponentAt(m, h, n - 1)]
  }

  /** One more turn of the version loop, at offset h + i * 108, appends the
      component read from bytes offset + 4 to offset + 112. */
  lemma ComponentsStep(m: seq<byte>, h: nat, i: nat, offset: nat)
    requires offset == h + i * 108 && offset + 112 <= |m|
    ensures RecordFits(m, h, i)
    ensures Components(m, h, i + 1) == Components(m, h, i) + [ComponentFromRecord(m[offset + 4..offset + 112])]
  {
  }

  /** Component i of the first n is the record at h + 4 + i * 108. */
  lemma {:induction false} ComponentsIndex(m: seq<byte>, h: nat, n: nat, i: nat)
    requires h + 4 + n * 108 <= |m|
    requires i < n
    ensures RecordFits(m, h, i) && Components(m, h, n)[i] == ComponentAt(m, h, i)
  {
    if i < n - 1 {
      ComponentsIndex(m, h, n - 1, i);
    }
  }

  /** The whole of decodeBinaryMessage: h from byte 3, the log type from bytes
      4-5, then the BESTPOS or VERSION fields. */
  function Decode(m: seq<byte>): (d: Decoded)
    ensures |m| < 6 ==> d == Truncated
    ensures d.Position? <==> |m| >= 6 && U16(m[4], m[5]) == BestPosLogType && m[3] + PositionBodyLength <= |m|
    ensures d.Version? <==> |m| >= 6 && U16(m[4], m[5]) == VersionLogType && m[3] + 4 <= |m|
    ensures d.Ignored? <==> |m| >= 6 && U16(m[4], m[5]) != BestPosLogType && U16(m[4], m[5]) != VersionLogType
  {
    if |m| < 6 then Truncated
    else
      var h := m[3];
      var logType := U16(m[4], m[5]);
      if logType == BestPosLogType then
        if h + PositionBodyLength <= |m| then Position(PositionFromBody(m[h..h + PositionBodyLength]))
        else Truncated
      else if logType == VersionLogType then
        if h + 4 <= |m| then VersionLog(m, h) else Truncated
      else Ignored(logType)
  }

  /** The version loop: reads the count, then component after component until
      the count is reached or the next record would run past the message. */
  method DecodeVersion(message: array<byte>, h: nat) returns (d: Decoded)
    requires h + 4 <= message.Length
    ensures d == VersionLog(message[..], h)
  {
    var m := message[..];
    var numberComp := I32(m[h..h + 4]);
    var components: seq<Component> := [];
    var i := 0;
    while i < numberComp
      invariant 0 <= i && (numberComp <= 0 ==> i == 0) && (numberComp > 0 ==> i <= numberComp)
      invariant h + 4 + i * 108 <= |m|
      invariant components == Components(m, h, i)
      decreases numberComp - i
    {
      var offset := h + i * 108;
      if offset + 112 > |m| {
        VersionLogAfterLoop(m, h, i, true);
        return Version(numberComp, components, true);
      }
      ComponentsStep(m, h, i, offset);
      components := components + [ComponentFromRecord(m[offset + 4..offset + 112])];
      i := i + 1;
    }
    VersionLogAfterLoop(m, h, i, false);
    d := Version(numberComp, components, false);
  }

  /** Where the version loop can stop: after the record that does not fit,
      or after count turns (none when the count is negative). */
  lemma VersionLogAfterLoop(m: seq<byte>, h: nat, i: nat, stoppedShort: bool)
    requires h + 4 + i * 108 <= |m|
    requires var count := I32(m[h..h + 4]);
             if stoppedShort then i < count && !RecordFits(m, h, i)
             else (count <= 0 ==> i == 0) && (count > 0 ==> i == count)
    ensures VersionLog(m, h) == Version(I32(m[h..h + 4]), Components(m, h, i), stoppedShort)
  {
    FitsBelow(m, h, i);
    if i > 0 {
      FitsBelow(m, h, i - 1);
    }
  }

  /** decodeBinaryMessage on the message getNovAtelMessage returned. */
  method DecodeBinaryMessage(message: array<byte>) returns (d: Decoded)
    ensures d == Decode(message[..])
  {
    if message.Length < 6 {
      return Truncated;
    }
    var h := message[3];
    var logType := U16(message[4], message[5]);
    if logType == BestPosLogType {
      if h + PositionBodyLength <= message.Length {
        d := Position(PositionFromBody(message[h..h + PositionBodyLength]));
      } else {
        d := Truncated;
      }
    } else if logType == VersionLogType {
      if h + 4 <= message.Length {
        d := DecodeVersion(message, h);
      } else {
        d := Truncated;
      }
    } else {
      d := Ignored(logType);
    }
  }

  // ---------------------------------------------------------------------------
  // Dispatch and round trips.

  /** A header as the receiver writes it: its length in byte 3 and the log
      type in bytes 4-5. */
  predicate HeaderOf(header: seq<byte>, logType: nat) {
    6 <= |header| < 0x100 && header[3] == |header| && U16(header[4], header[5]) == logType
  }

  /** Only types 42 and 37 are decoded; every other type is passed over,
      whatever follows the header. */
  lemma OtherTypesIgnored(m: seq<byte>)
    requires |m| >= 6
    ensures var t := U16(m[4], m[5]);
            (t != BestPosLogType && t != VersionLogType) <==> Decode(m) == Ignored(t)
  {
  }

  /** A BESTPOS message laid out by the receiver decodes to the fields it
      carries, whatever bytes follow the 72 the decoder reads. */
  lemma PositionMessageRoundTrip(header: seq<byte>, log: PositionLog, rest: seq<byte>)
    requires HeaderOf(header, BestPosLogType) && Encodable(log)
    ensures Decode(header + EncodePosition(log) + rest) == Position(log)
  {
    var m := header + EncodePosition(log) + rest;
    var h := |header|;
    assert m[3] == h && m[4] == header[4] && m[5] == header[5];
    assert m[h..h + PositionBodyLength] == EncodePosition(log);
    PositionRoundTrip(log);
  }

  /** When n records of 108 bytes sit at h + 4 of m, record i of them is the
      bytes that ComponentAt reads for component i. */
  lemma RecordAt(m: seq<byte>, h: nat, n: nat, records: seq<byte>, i: nat, record: seq<byte>)
    requires h + 4 + 108 * n <= |m| && m[h + 4..h + 4 + 108 * n] == records
    requires i < n && records[i * 108..(i + 1) * 108] == record
    ensures RecordFits(m, h, i)
    ensures m[h + 4 + i * 108..h + 4 + (i + 1) * 108] == record
  {
    forall k | 0 <= k < 108
      ensures m[h + 4 + i * 108..h + 4 + (i + 1) * 108][k] == record[k]
    {
      assert records[i * 108 + k] == m[h + 4..h + 4 + 108 * n][i * 108 + k];
    }
  }

  /** The component read from a record laid out from description t is t. */
  lemma ComponentReadsBack(m: seq<byte>, h: nat, i: nat, t: ComponentText)
    requires ComponentEncodable(t) && RecordFits(m, h, i)
    requires m[h + 4 + i * 108..h + 4 + (i + 1) * 108] == EncodeComponent(t)
    ensures Describe(ComponentAt(m, h, i)) == t
  {
    ComponentRoundTrip(t);
  }

  /** A version log whose count and records were laid out from h reads back,
      complete, as the components described. */
  lemma VersionLogReadsBack(m: seq<byte>, h: nat, components: seq<ComponentText>, records: seq<byte>)
    requires forall i | 0 <= i < |components| :: ComponentEncodable(components[i])
    requires |components| < 0x8000_0000
    requires h + 4 + 108 * |components| <= |m|
    requires m[h..h + 4] == I32Bytes(|components|)
    requires m[h + 4..h + 4 + 108 * |components|] == records
    requires forall i | 0 <= i < |components| :: records[i * 108..(i + 1) * 108] == EncodeComponent(components[i])
    ensures var d := VersionLog(m, h);
            && d.count == |components| && !d.truncated
            && |d.components| == |components|
            && forall i | 0 <= i < |components| :: Describe(d.components[i]) == components[i]
  {
    I32RoundTrip(|components|);
    if |components| > 0 {
      FitsBelow(m, h, |components| - 1);
    }
    var d := VersionLog(m, h);
    assert d.count == |components| && |d.components| == |components|;
    forall i | 0 <= i < |components|
      ensures Describe(d.components[i]) == components[i]
    {
      ComponentsIndex(m, h, |components|, i);
      RecordAt(m, h, |components|, records, i, EncodeComponent(components[i]));
      ComponentReadsBack(m, h, i, components[i]);
    }
  }

  /** Where the pieces of header + count + records + rest sit. */
  lemma MessagePieces(header: seq<byte>, count: seq<byte>, records: seq<byte>, rest: seq<byte>)
    ensures var m := header + count + records + rest;
            var h := |header|;
            && m[..h] == header
            && m[h..h + |count|] == count
            && m[h + |count|..h + |count| + |records|] == records
  {
  }

  /** Record i of EncodeComponents, for every i at once. */
  lemma EncodeComponentsRecords(components: seq<ComponentText>)
    requires forall i | 0 <= i < |components| :: ComponentEncodable(components[i])
    ensures forall i | 0 <= i < |components| ::
              EncodeComponents(components)[i * 108..(i + 1) * 108] == EncodeComponent(components[i])
  {
    forall i | 0 <= i < |components|
      ensures EncodeComponents(components)[i * 108..(i + 1) * 108] == EncodeComponent(components[i])
    {
      EncodeComponentsLayout(components, i);
    }
  }

  /** A VERSION message laid out by the receiver decodes, complete, to the
      components it describes, whatever bytes follow them. */
  lemma VersionMessageRoundTrip(header: seq<byte>, components: seq<ComponentText>, rest: seq<byte>)
    requires HeaderOf(header, VersionLogType)
    requires |components| < 0x8000_0000
    requires forall i | 0 <= i < |components| :: ComponentEncodable(components[i])
    ensures var d := Decode(header + I32Bytes(|components|) + EncodeComponents(components) + rest);
            && d.Version? && d.count == |components| && !d.truncated
            && |d.components| == |components|
            && forall i | 0 <= i < |components| :: Describe(d.components[i]) == components[i]
  {
    var records := EncodeComponents(components);
    var m := header + I32Bytes(|components|) + records + rest;
    var h := |header|;
    MessagePieces(header, I32Bytes(|components|), records, rest);
    assert m[3] == header[3] && m[4] == header[4] && m[5] == header[5];
    EncodeComponentsRecords(components);
    VersionLogReadsBack(m, h, components, records);
  }

  /** A count larger than the records the message holds stops the loop at the
      first record that would run past the end, with every earlier record read. */
  lemma ShortVersionTruncated(m: seq<byte>, h: nat)
    requires h + 4 <= |m|
    requires I32(m[h..h + 4]) > RecordsThatFit(m, h)
    ensures var d := VersionLog(m, h);
            && d.truncated && |d.components| == RecordsThatFit(m, h)
            && forall i | 0 <= i < |d.components| :: d.components[i] == ComponentAt(m, h, i)
  {
    var d := VersionLog(m, h);
    forall i | 0 <= i < |d.components|
      ensures d.components[i] == ComponentAt(m, h, i)
    {
      ComponentsIndex(m, h, |d.components|, i);
    }
  }
}
