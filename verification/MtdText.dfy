/** The `mtdparts` text: its grammar as the parser reads it, the text the generator prints, and the proof
    that reading undoes printing. */
module MtdText {
  import opened Common
  import opened MtdSize
  import opened MtdParts

  // ----- reading one partition (`part_parse`)

  /** Position of the first `c`, or the length (`strchr`). */
  function IndexOf(s: string, c: char): (n: nat)
    ensures n <= |s| && c !in s[..n] && (n < |s| ==> s[n] == c)
  {
    if s == "" || s[0] == c then 0
    else
      var n := 1 + IndexOf(s[1..], c);
      assert s[..n] == [s[0]] + s[1..][..n - 1];
      n
  }

  function ReadSize(s: string): Option<(nat, string)> {
    if First(s) == '-' then Some((SIZE_REMAINING, s[1..]))
    else
      var (size, rest) := MemsizeParse(s);
      if size < MIN_PART_SIZE then None else Some((size, rest))
  }

  function ReadOffset(s: string): (nat, string) {
    if First(s) == '@' then MemsizeParse(s[1..]) else (OFFSET_NOT_SPECIFIED, s)
  }

  function ReadName(s: string, size: nat, offset: nat): Option<(PartName, string)> {
    if First(s) != '(' then Some((Auto(size, offset), s))
    else
      var n := IndexOf(s[1..], ')');
      if n == |s[1..]| || n == 0 then None else Some((Given(s[1..][..n]), s[1..][n + 1..]))
  }

  function ReadOnly(s: string): (bool, string) {
    if "ro" <= s then (true, s[2..]) else (false, s)
  }

  /** A ',' is consumed, a ';' or the end is left for the caller. */
  function ReadSeparator(s: string, size: nat): Option<string> {
    if First(s) == ',' then (if size == SIZE_REMAINING then None else Some(s[1..]))
    else if s == "" || s[0] == ';' then Some(s)
    else None
  }

  function PartParse(s: string): Option<(Part, string)> {
    match ReadSize(s)
    case None => None
    case Some((size, s1)) =>
      var (offset, s2) := ReadOffset(s1);
      match ReadName(s2, size, offset)
      case None => None
      case Some((name, s3)) =>
        var (readOnly, s4) := ReadOnly(s3);
        match ReadSeparator(s4, size)
        case None => None
        case Some(s5) => Some((Part(name, size, offset, readOnly, 0), s5))
  }

  /** A parsed partition has consumed something and its numbers are 32-bit. */
  lemma PartParseShrinks(s: string)
    ensures PartParse(s).Some? ==> |PartParse(s).value.1| < |s|
    ensures PartParse(s).Some? ==> PartU32(PartParse(s).value.0)
  {
    MemsizeU32(s);
    if ReadSize(s).Some? {
      var s1 := ReadSize(s).value.1;
      if First(s1) == '@' {
        MemsizeU32(s1[1..]);
      }
    }
  }

  lemma {:induction false} DigitsU32(s: string, base: nat, acc: nat)
    requires base <= 16 && acc < WRAP
    ensures Digits(s, base, acc).0 < WRAP
    decreases |s|
  {
    if s != "" && DigitValue(s[0]) < base {
      DigitsU32(s[1..], base, (acc * base + DigitValue(s[0])) % WRAP);
    }
  }

  lemma MemsizeU32(s: string)
    ensures MemsizeParse(s).0 < WRAP
    ensures MemsizeParse(s).0 > 0 ==> |MemsizeParse(s).1| < |s|
  {
    hide Digits;
    if First(s) == '0' {
      DigitsU32(s[1..], 8, 0);
      DigitsSuffix(s[1..], 8, 0);
      if |s| > 2 {
        DigitsU32(s[2..], 16, 0);
        DigitsSuffix(s[2..], 16, 0);
      }
    } else {
      DigitsU32(s, 10, 0);
      DigitsProgress(s);
    }
  }

  lemma DigitsProgress(s: string)
    ensures Digits(s, 10, 0).0 > 0 ==> |Digits(s, 10, 0).1| < |s|
    ensures |Digits(s, 10, 0).1| <= |s|
  {
    if s != "" && DigitValue(s[0]) < 10 {
      DigitsSuffix(s[1..], 10, DigitValue(s[0]) % WRAP);
    }
  }

  // ----- reading devices

  function FindId(ids: seq<MtdId>, name: string): Option<MtdId> {
    if ids == [] then None else if ids[0].mtdId == name then Some(ids[0]) else FindId(ids[1..], name)
  }

  function FindDevice(devs: seq<Device>, key: DevKey): Option<Device> {
    if devs == [] then None else if devs[0].id.key == key then Some(devs[0]) else FindDevice(devs[1..], key)
  }

  /** The list loop of `device_parse`: offsets left out continue at the end of the previous partition. */
  ghost function PartsParse(g: Option<Geometry>, id: MtdId, offset: nat, s: string): Option<(seq<Part>, string)>
    decreases |s|
  {
    if s == "" || s[0] == ';' then Some(([], s))
    else
      match PartParse(s)
      case None => None
      case Some((p, rest)) =>
        PartParseShrinks(s);
        match Validated(g, id, p.(offset := if p.offset == OFFSET_NOT_SPECIFIED then offset else p.offset))
        case None => None
        case Some(v) =>
          match PartsParse(g, id, (v.offset + v.size) % WRAP, rest)
          case None => None
          case Some((vs, end)) => Some(([v] + vs, end))
  }

  /** `part_sort_add` on one device: sorted by offset, only one partition at offset zero. */
  function SortAdd(parts: seq<Part>, p: Part): Option<seq<Part>> {
    if parts == [] then Some([p])
    else if p.offset == parts[0].offset == 0 then None
    else if p.offset <= parts[0].offset then Some([p] + parts)
    else match SortAdd(parts[1..], p)
         case None => None
         case Some(rest) => Some([parts[0]] + rest)
  }

  function SortAll(parts: seq<Part>, news: seq<Part>): Option<seq<Part>>
    decreases |news|
  {
    if news == [] then Some(parts)
    else match SortAdd(parts, news[0])
         case None => None
         case Some(more) => SortAll(more, news[1..])
  }

  function StartOffset(devs: seq<Device>, key: DevKey): nat {
    match FindDevice(devs, key)
    case None => 0
    case Some(d) => if d.parts == [] then 0 else var last := d.parts[|d.parts| - 1]; (last.offset + last.size) % WRAP
  }

  type Geometries = map<DevKey, Geometry>

  function GeometryOf(gs: Geometries, key: DevKey): Option<Geometry> {
    if key in gs then Some(gs[key]) else None
  }

  /** `device_parse`. */
  ghost function DeviceParse(ids: seq<MtdId>, gs: Geometries, devs: seq<Device>, s: string): Option<(Device, string)> {
    var n := IndexOf(s, ':');
    if n == |s| then None
    else
      match FindId(ids, s[..n])
      case None => None
      case Some(id) =>
        match PartsParse(GeometryOf(gs, id.key), id, StartOffset(devs, id.key), s[n + 1..])
        case None => None
        case Some((parts, rest)) =>
          if parts == [] then None
          else
            match SortAll([], parts)
            case None => None
            case Some(sorted) => Some((Device(id, sorted, |sorted|), if rest == "" then rest else rest[1..]))
  }

  lemma {:induction false} PartsParseSuffix(g: Option<Geometry>, id: MtdId, offset: nat, s: string)
    ensures var r := PartsParse(g, id, offset, s);
            r.Some? ==> |r.value.1| <= |s| && (r.value.1 == "" || r.value.1[0] == ';')
    decreases |s|
  {
    hide PartParse, Validated, PartU32;
    if s != "" && s[0] != ';' && PartParse(s).Some? {
      var (p, rest) := PartParse(s).value;
      PartParseShrinks(s);
      var v := Validated(g, id, p.(offset := if p.offset == OFFSET_NOT_SPECIFIED then offset else p.offset));
      if v.Some? {
        PartsParseSuffix(g, id, (v.value.offset + v.value.size) % WRAP, rest);
      }
    }
  }

  lemma DeviceParseShrinks(ids: seq<MtdId>, gs: Geometries, devs: seq<Device>, s: string)
    ensures DeviceParse(ids, gs, devs, s).Some? ==> |DeviceParse(ids, gs, devs, s).value.1| < |s|
  {
    var n := IndexOf(s, ':');
    if n < |s| && FindId(ids, s[..n]).Some? {
      var id := FindId(ids, s[..n]).value;
      PartsParseSuffix(GeometryOf(gs, id.key), id, StartOffset(devs, id.key), s[n + 1..]);
    }
  }

  ghost function DevicesParse(ids: seq<MtdId>, gs: Geometries, devs: seq<Device>, s: string): Option<seq<Device>>
    decreases |s|
  {
    if s == "" then Some(devs)
    else
      match DeviceParse(ids, gs, devs, s)
      case None => None
      case Some((dev, rest)) =>
        DeviceParseShrinks(ids, gs, devs, s);
        if FindDevice(devs, dev.id.key).Some? then None
        else DevicesParse(ids, gs, devs + [dev], rest)
  }

  const PREFIX := "mtdparts="

  /** `parse_mtdparts`: the whole text, from an empty device list. */
  ghost function ParseMtdparts(ids: seq<MtdId>, gs: Geometries, text: string): Option<seq<Device>> {
    if PREFIX <= text && text[|PREFIX|..] != "" then DevicesParse(ids, gs, [], text[|PREFIX|..]) else None
  }

  // ----- printing (`generate_mtdparts`)

  function OffsetText(p: Part, expected: nat): string {
    if p.offset == expected then "" else "@" + MemsizeFormat(p.offset)
  }

  function NameText(p: Part): string {
    if p.name.Given? then "(" + p.name.text + ")" else ""
  }

  function FlagText(p: Part): string {
    if p.readOnly then "ro" else ""
  }

  /** The offset is printed only when there is a gap, the name only when the user gave one. */
  function PrintPart(p: Part, expected: nat): string {
    MemsizeFormat(p.size) + OffsetText(p, expected) + NameText(p) + FlagText(p)
  }

  function EndOf(p: Part): nat {
    (p.offset + p.size) % WRAP
  }

  function PrintParts(parts: seq<Part>, expected: nat): string {
    if parts == [] then ""
    else PrintPart(parts[0], expected) + (if |parts| == 1 then "" else ",") + PrintParts(parts[1..], EndOf(parts[0]))
  }

  function PrintDevice(d: Device): string {
    d.id.mtdId + ":" + PrintParts(d.parts, 0)
  }

  function PrintDevices(devs: seq<Device>): string {
    if devs == [] then ""
    else PrintDevice(devs[0]) + (if |devs| == 1 then "" else ";") + PrintDevices(devs[1..])
  }

  function Generate(devs: seq<Device>): string {
    if devs == [] then "" else PREFIX + PrintDevices(devs)
  }

  // ----- the round trip

  /** What the generated text can carry: no sentinel values, and a user name without ')'. */
  predicate Printable(p: Part) {
    && MIN_PART_SIZE <= p.size < SIZE_REMAINING && p.offset < OFFSET_NOT_SPECIFIED
    && (p.name.Given? ==> p.name.text != "" && ')' !in p.name.text)
  }

  /** Reading gives back the partition, except that a generated name is generated anew. */
  function Reread(p: Part, expected: nat): Part {
    var printed := if p.offset == expected then OFFSET_NOT_SPECIFIED else p.offset;
    p.(name := if p.name.Given? then p.name else Auto(p.size, printed))
  }

  /** The separators that can follow a partition. */
  predicate Separator(tail: string) {
    tail == "" || tail[0] in {',', ';'}
  }

  lemma SizeStage(p: Part, rest: string)
    requires Printable(p) && Stops(rest)
    ensures ReadSize(MemsizeFormat(p.size) + rest) == Some((p.size, rest))
  {
    hide Decimal, MemsizeParse;
    SizeRoundTrip(p.size, rest);
    FormatStartsWithDigit(p.size);
    assert (MemsizeFormat(p.size) + rest)[0] == MemsizeFormat(p.size)[0];
  }

  lemma FormatStartsWithDigit(size: nat)
    ensures MemsizeFormat(size) != "" && '0' <= MemsizeFormat(size)[0] <= '9'
  {
    hide Decimal;
    DecimalDigits(size / GB);
    DecimalDigits(size / MB);
    DecimalDigits(size / KB);
    DecimalDigits(size);
  }

  lemma OffsetStage(p: Part, expected: nat, rest: string)
    requires Printable(p) && Stops(rest) && First(rest) != '@'
    ensures ReadOffset(OffsetText(p, expected) + rest) ==
      (if p.offset == expected then OFFSET_NOT_SPECIFIED else p.offset, rest)
  {
    hide MemsizeFormat, MemsizeParse;
    if p.offset == expected {
      assert OffsetText(p, expected) + rest == rest;
    } else {
      SizeRoundTrip(p.offset, rest);
      assert (OffsetText(p, expected) + rest)[1..] == MemsizeFormat(p.offset) + rest;
    }
  }

  lemma IndexOfConcat(a: string, c: char, b: string)
    requires c !in a
    ensures IndexOf(a + [c] + b, c) == |a|
  {
    var s := a + [c] + b;
    var n := IndexOf(s, c);
    assert s[|a|] == c;
    assert forall i :: 0 <= i < |a| ==> s[i] == a[i];
    assert forall i :: 0 <= i < n ==> s[i] == s[..n][i];
  }

  lemma NameStage(p: Part, offset: nat, rest: string)
    requires Printable(p) && First(rest) != '('
    ensures ReadName(NameText(p) + rest, p.size, offset) ==
      Some((if p.name.Given? then p.name else Auto(p.size, offset), rest))
  {
    var s := NameText(p) + rest;
    if p.name.Given? {
      var t := p.name.text;
      assert s[1..] == t + [')'] + rest;
      IndexOfConcat(t, ')', rest);
      assert s[1..][..|t|] == t && s[1..][|t| + 1..] == rest;
    } else {
      assert s == rest;
    }
  }

  lemma PartRoundTrip(p: Part, expected: nat, tail: string)
    requires Printable(p) && Separator(tail)
    ensures PartParse(PrintPart(p, expected) + tail) ==
      Some((Reread(p, expected).(
              offset := if p.offset == expected then OFFSET_NOT_SPECIFIED else p.offset, sectorSize := 0),
            if First(tail) == ',' then tail[1..] else tail))
  {
    hide MemsizeFormat, MemsizeParse, ReadSize, ReadOffset, ReadName, ReadOnly, OffsetText, NameText, FlagText;
    var r3 := FlagText(p) + tail;
    var r2 := NameText(p) + r3;
    var r1 := OffsetText(p, expected) + r2;
    assert PrintPart(p, expected) + tail == MemsizeFormat(p.size) + r1;
    StopsHere(p, expected, tail);
    SizeStage(p, r1);
    OffsetStage(p, expected, r2);
    NameStage(p, if p.offset == expected then OFFSET_NOT_SPECIFIED else p.offset, r3);
    FlagStage(p, tail);
  }

  lemma FlagStage(p: Part, tail: string)
    requires Separator(tail)
    ensures ReadOnly(FlagText(p) + tail) == (p.readOnly, tail)
  {
    var s := FlagText(p) + tail;
    assert p.readOnly ==> s[2..] == tail && s[..2] == "ro";
    assert !p.readOnly ==> s == tail;
  }

  lemma StopsHere(p: Part, expected: nat, tail: string)
    requires Separator(tail)
    ensures var r3 := FlagText(p) + tail; var r2 := NameText(p) + r3; var r1 := OffsetText(p, expected) + r2;
      Stops(r1) && Stops(r2) && First(r2) != '@' && First(r3) != '('
  {
    hide MemsizeFormat;
  }

  function RereadParts(parts: seq<Part>, expected: nat): seq<Part> {
    if parts == [] then [] else [Reread(parts[0], expected)] + RereadParts(parts[1..], EndOf(parts[0]))
  }

  ghost predicate PartsReadable(g: Option<Geometry>, id: MtdId, parts: seq<Part>) {
    g.Some? && forall i :: 0 <= i < |parts| ==> Printable(parts[i]) && InDevice(g.value, id, parts[i])
  }

  lemma {:induction false} PartsRoundTrip(g: Option<Geometry>, id: MtdId, parts: seq<Part>, expected: nat, tail: string)
    requires PartsReadable(g, id, parts) && (tail == "" || tail[0] == ';')
    ensures PartsParse(g, id, expected, PrintParts(parts, expected) + tail)
            == Some((RereadParts(parts, expected), tail))
    decreases |parts|
  {
    hide PrintPart, PartParse, InDevice, Validated, EndsBlock, StartsBlock;
    if parts == [] {
      assert PrintParts(parts, expected) + tail == tail;
    } else {
      var p, more := parts[0], PrintParts(parts[1..], EndOf(parts[0])) + tail;
      var sep := if |parts| == 1 then "" else ",";
      var s := PrintParts(parts, expected) + tail;
      assert s == PrintPart(p, expected) + (sep + more);
      assert |parts| == 1 ==> more == tail && sep + more == tail;
      assert |parts| > 1 ==> (sep + more)[1..] == more;
      PartRoundTrip(p, expected, sep + more);
      PrintPartStart(p, expected, sep + more);
      RereadValid(g.value, id, p, expected);
      PartsRoundTrip(g, id, parts[1..], EndOf(p), tail);
    }
  }

  lemma PrintPartStart(p: Part, expected: nat, tail: string)
    ensures var s := PrintPart(p, expected) + tail; s != "" && s[0] != ';'
  {
    hide MemsizeFormat;
    FormatStartsWithDigit(p.size);
    assert (PrintPart(p, expected) + tail)[0] == MemsizeFormat(p.size)[0];
  }

  /** Validation of a reread partition only puts back its sector size. */
  lemma RereadValid(g: Geometry, id: MtdId, p: Part, expected: nat)
    requires Printable(p) && InDevice(g, id, p)
    ensures Validated(Some(g), id, Reread(p, expected).(sectorSize := 0)) == Some(Reread(p, expected))
  {
    hide StartsBlock, EndsBlock;
  }

  predicate Ascending(parts: seq<Part>) {
    forall i, j :: 0 <= i < j < |parts| ==> parts[i].offset < parts[j].offset
  }

  lemma {:induction false} SortAddLast(parts: seq<Part>, p: Part)
    requires forall i :: 0 <= i < |parts| ==> parts[i].offset < p.offset
    ensures SortAdd(parts, p) == Some(parts + [p])
  {
    if parts == [] {
      assert parts + [p] == [p];
    } else {
      SortAddLast(parts[1..], p);
      assert parts + [p] == [parts[0]] + (parts[1..] + [p]);
    }
  }

  lemma {:induction false} SortAllAscending(done: seq<Part>, news: seq<Part>)
    requires Ascending(done + news)
    ensures SortAll(done, news) == Some(done + news)
    decreases |news|
  {
    if news == [] {
      assert done + news == done;
    } else {
      var all := done + news;
      assert all[|done|] == news[0] && forall i :: 0 <= i < |done| ==> all[i] == done[i];
      SortAddLast(done, news[0]);
      assert done + [news[0]] + news[1..] == all;
      SortAllAscending(done + [news[0]], news[1..]);
    }
  }

  predicate RenamedOnly(r: Part, p: Part) {
    r.(name := p.name) == p && (p.name.Given? ==> r == p)
  }

  lemma {:induction false} RereadKeepsOffsets(parts: seq<Part>, expected: nat)
    ensures |RereadParts(parts, expected)| == |parts|
    ensures forall i :: 0 <= i < |parts| ==> RenamedOnly(RereadParts(parts, expected)[i], parts[i])
    decreases |parts|
  {
    if parts != [] {
      RereadKeepsOffsets(parts[1..], EndOf(parts[0]));
    }
  }

  /** A device as the tables hold it, whose id the parser can find again. */
  ghost predicate DeviceReadable(ids: seq<MtdId>, gs: Geometries, d: Device) {
    && ':' !in d.id.mtdId && FindId(ids, d.id.mtdId) == Some(d.id)
    && d.parts != [] && d.numParts == |d.parts| && Ascending(d.parts)
    && PartsReadable(GeometryOf(gs, d.id.key), d.id, d.parts)
  }

  function RereadDevice(d: Device): Device {
    d.(parts := RereadParts(d.parts, 0))
  }

  function RereadDevices(devs: seq<Device>): seq<Device> {
    if devs == [] then [] else [RereadDevice(devs[0])] + RereadDevices(devs[1..])
  }

  lemma DeviceRoundTrip(ids: seq<MtdId>, gs: Geometries, devs: seq<Device>, d: Device, tail: string)
    requires DeviceReadable(ids, gs, d) && FindDevice(devs, d.id.key) == None && (tail == "" || tail[0] == ';')
    ensures DeviceParse(ids, gs, devs, PrintDevice(d) + tail) ==
      Some((RereadDevice(d), if tail == "" then tail else tail[1..]))
  {
    hide PrintParts, PartsParse, PartsReadable, SortAll, RereadParts, IndexOf, Ascending;
    var text := PrintParts(d.parts, 0) + tail;
    var s := PrintDevice(d) + tail;
    assert s == d.id.mtdId + [':'] + text;
    IndexOfConcat(d.id.mtdId, ':', text);
    assert s[..|d.id.mtdId|] == d.id.mtdId && s[|d.id.mtdId| + 1..] == text;
    PartsRoundTrip(GeometryOf(gs, d.id.key), d.id, d.parts, 0, tail);
    SortReread(d.parts);
  }

  lemma SortReread(parts: seq<Part>)
    requires Ascending(parts)
    ensures SortAll([], RereadParts(parts, 0)) == Some(RereadParts(parts, 0)) && |RereadParts(parts, 0)| == |parts|
  {
    RereadKeepsOffsets(parts, 0);
    var r := RereadParts(parts, 0);
    assert [] + r == r;
    SortAllAscending([], r);
  }

  lemma {:induction false} FindDeviceNone(devs: seq<Device>, key: DevKey)
    ensures FindDevice(devs, key) == None <==> forall i :: 0 <= i < |devs| ==> devs[i].id.key != key
  {
    if devs != [] {
      FindDeviceNone(devs[1..], key);
      assert forall i :: 0 < i < |devs| ==> devs[i] == devs[1..][i - 1];
    }
  }

  predicate DistinctKeys(devs: seq<Device>) {
    forall i, j :: 0 <= i < j < |devs| ==> devs[i].id.key != devs[j].id.key
  }

  lemma NewDevice(done: seq<Device>, devs: seq<Device>)
    requires DistinctKeys(done + devs) && devs != []
    ensures FindDevice(done, devs[0].id.key) == None
  {
    hide FindDevice;
    var all := done + devs;
    assert all[|done|] == devs[0] && forall i :: 0 <= i < |done| ==> all[i] == done[i];
    FindDeviceNone(done, devs[0].id.key);
  }

  /** One printed device at the front of the text. */
  lemma DeviceStep(ids: seq<MtdId>, gs: Geometries, done: seq<Device>, d: Device, tail: string)
    requires DeviceReadable(ids, gs, d) && FindDevice(done, d.id.key) == None && (tail == "" || tail[0] == ';')
    ensures DevicesParse(ids, gs, done, PrintDevice(d) + tail)
      == DevicesParse(ids, gs, done + [RereadDevice(d)], if tail == "" then tail else tail[1..])
  {
    hide DeviceReadable, DeviceParse, RereadParts, PrintDevice, FindDevice;
    DeviceRoundTrip(ids, gs, done, d, tail);
    NonEmptyPrint(d, tail);
  }

  lemma {:induction false} DevicesRoundTrip(ids: seq<MtdId>, gs: Geometries, done: seq<Device>, devs: seq<Device>)
    requires forall i :: 0 <= i < |devs| ==> DeviceReadable(ids, gs, devs[i])
    requires DistinctKeys(done + devs)
    ensures DevicesParse(ids, gs, done, PrintDevices(devs)) == Some(done + RereadDevices(devs))
    decreases |devs|
  {
    hide DeviceReadable, DevicesParse, PrintDevice, RereadDevice, DistinctKeys, FindDevice;
    if devs == [] {
      NothingToParse(ids, gs, done);
      assert done + RereadDevices(devs) == done;
    } else {
      var d, more := devs[0], PrintDevices(devs[1..]);
      var tail := (if |devs| == 1 then "" else ";") + more;
      assert |devs| == 1 ==> tail == "" == more;
      assert |devs| > 1 ==> tail[1..] == more;
      assert PrintDevices(devs) == PrintDevice(d) + tail;
      NewDevice(done, devs);
      DeviceStep(ids, gs, done, d, tail);
      assert devs == [d] + devs[1..];
      KeysAfterReread(done, d, devs[1..]);
      DevicesRoundTrip(ids, gs, done + [RereadDevice(d)], devs[1..]);
      assert done + [RereadDevice(d)] + RereadDevices(devs[1..]) == done + RereadDevices(devs);
    }
  }

  lemma NothingToParse(ids: seq<MtdId>, gs: Geometries, done: seq<Device>)
    ensures DevicesParse(ids, gs, done, "") == Some(done)
  {
  }

  lemma NonEmptyPrint(d: Device, tail: string)
    ensures PrintDevice(d) + tail != ""
  {
    hide PrintParts;
    assert (PrintDevice(d) + tail)[|d.id.mtdId|] == ':';
  }

  lemma KeysAfterReread(done: seq<Device>, d: Device, more: seq<Device>)
    requires DistinctKeys(done + ([d] + more))
    ensures DistinctKeys(done + [RereadDevice(d)] + more)
  {
    var a, b := done + ([d] + more), done + [RereadDevice(d)] + more;
    assert forall i :: 0 <= i < |a| ==> a[i].id == b[i].id;
  }

  /** The main theorem: for every valid non-empty device list, parsing the generated text rebuilds it. */
  lemma TextRoundTrip(ids: seq<MtdId>, gs: Geometries, devs: seq<Device>)
    requires devs != [] && DistinctKeys(devs)
    requires forall i :: 0 <= i < |devs| ==> DeviceReadable(ids, gs, devs[i])
    ensures ParseMtdparts(ids, gs, Generate(devs)) == Some(RereadDevices(devs))
  {
    hide DeviceReadable, PrintDevices, DevicesParse, RereadDevices, DistinctKeys;
    PrefixOff(PrintDevices(devs));
    assert [] + devs == devs && [] + RereadDevices(devs) == RereadDevices(devs);
    DevicesRoundTrip(ids, gs, [], devs);
    PrintDevicesNonEmpty(devs);
  }

  lemma PrefixOff(text: string)
    ensures PREFIX <= PREFIX + text && (PREFIX + text)[|PREFIX|..] == text
  {
  }

  lemma PrintDevicesNonEmpty(devs: seq<Device>)
    requires devs != []
    ensures PrintDevices(devs) != ""
  {
    hide PrintDevice;
    NonEmptyPrint(devs[0], (if |devs| == 1 then "" else ";") + PrintDevices(devs[1..]));
    assert PrintDevices(devs) == PrintDevice(devs[0]) + ((if |devs| == 1 then "" else ";") + PrintDevices(devs[1..]));
  }

  /** Rereading is the identity when every name was given by the user, and in any case only renames. */
  lemma {:induction false} RereadIdentity(devs: seq<Device>)
    ensures |RereadDevices(devs)| == |devs|
    ensures forall i :: 0 <= i < |devs| ==>
      var d, r := devs[i], RereadDevices(devs)[i];
      && r.id == d.id && r.numParts == d.numParts && |r.parts| == |d.parts|
      && (forall j :: 0 <= j < |d.parts| ==> RenamedOnly(r.parts[j], d.parts[j]))
      && ((forall j :: 0 <= j < |d.parts| ==> d.parts[j].name.Given?) ==> r == d)
    decreases |devs|
  {
    if devs != [] {
      RereadIdentity(devs[1..]);
      RereadKeepsOffsets(devs[0].parts, 0);
      if forall j :: 0 <= j < |devs[0].parts| ==> devs[0].parts[j].name.Given? {
        assert RereadParts(devs[0].parts, 0) == devs[0].parts;
      }
    }
  }
}
