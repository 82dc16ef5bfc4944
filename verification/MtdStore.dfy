/** The global partition state and the operations that update it in place, each proved against
    `MtdTable` and `MtdText`. */
module MtdStore {
  import opened Common
  import opened MtdSize
  import opened MtdParts
  import opened MtdText
  import opened MtdTable

  class Store {
    const ids: seq<MtdId>
    const geometries: Geometries
    var devices: seq<Device>
    var currentDev: Option<DevKey>
    var currentPartnum: nat
    var env: Variables

    function State(): Table
      reads this
    {
      Table(devices, currentDev, currentPartnum)
    }

    ghost predicate TableValid()
      reads this
    {
      && IdsOk(ids) && (forall k :: k in geometries ==> GeometryOk(geometries[k]))
      && TableOk(geometries, State())
    }

    ghost predicate Valid()
      reads this
    {
      TableValid() && env == VariablesFor(geometries, State())
    }

    constructor (ids: seq<MtdId>, geometries: Geometries)
      requires IdsOk(ids) && forall k :: k in geometries ==> GeometryOk(geometries[k])
      ensures Valid() && State() == Table([], None, 0) && this.ids == ids && this.geometries == geometries
    {
      this.ids, this.geometries := ids, geometries;
      devices, currentDev, currentPartnum := [], None, 0;
      env := Variables(None, None, None);
    }

    /** `index_partitions`: a 16-bit running count over the devices before the current one. */
    method IndexPartitions()
      requires TableValid()
      modifies this`env
      ensures env == VariablesFor(geometries, State()).(partition := old(env).partition)
    {
      hide DeviceOk, DistinctKeys;
      if currentDev == None {
        env := env.(mtddevnum := None, mtddevname := None);
        return;
      }
      var n, before := CountBefore(currentDev.value);
      var mtddevnum := (before + currentPartnum) % 0x1_0000;
      env := env.(mtddevnum := Some(mtddevnum), mtddevname := Some(devices[n].parts[currentPartnum].name));
    }

    method CountBefore(key: DevKey) returns (n: nat, mtddevnum: nat)
      requires Present(State(), key)
      ensures n == DevIndex(devices, key) && mtddevnum == Before(devices, n) % 0x1_0000
    {
      hide DevIndex;
      mtddevnum, n := 0, 0;
      ghost var home := DevIndex(devices, key);
      while devices[n].id.key != key
        invariant n <= home < |devices| && mtddevnum == Before(devices, n) % 0x1_0000
        decreases home - n
      {
        mtddevnum := (mtddevnum + devices[n].numParts) % 0x1_0000;
        n := n + 1;
      }
    }

    /** `current_save`. */
    method CurrentSave()
      requires TableValid()
      modifies this`env
      ensures env == VariablesFor(geometries, State())
    {
      hide TableOk, VariablesFor;
      PartitionVariable(geometries, State());
      env := env.(partition := if currentDev == None then None else Some((currentDev.value, currentPartnum)));
      IndexPartitions();
    }

    /** The end of every table operation: `current_save` when the current partition's number or device has
        changed, `index_partitions` otherwise. */
    method Refresh(save: bool)
      requires TableValid()
      requires !save ==>
        env.partition == (if currentDev == None then None else Some((currentDev.value, currentPartnum)))
      modifies this`env
      ensures Valid()
    {
      hide TableOk, VariablesFor;
      PartitionVariable(geometries, State());
      if save {
        CurrentSave();
      } else {
        IndexPartitions();
      }
    }

    /** The scan of `part_sort_add`: where the new partition goes, or the refusal of a second one at zero. */
    method ScanPosition(parts: seq<Part>, p: Part) returns (k: nat, refused: bool)
      requires Sorted(parts)
      ensures refused <==> SortAdd(parts, p) == None
      ensures !refused ==> k == Position(parts, p)
    {
      SortAddIsInsert(parts, p);
      k := 0;
      while k < |parts|
        invariant k <= |parts| && forall i :: 0 <= i < k ==> parts[i].offset < p.offset
      {
        if p.offset == parts[k].offset == 0 {
          assert k == 0;
          return k, true;
        }
        if p.offset <= parts[k].offset {
          return k, false;
        }
        k := k + 1;
      }
      return k, false;
    }

    /** `part_sort_add` on a device of the table: list, count and current number move together. */
    method PartSortAdd(key: DevKey, part: Part) returns (rc: int)
      requires Valid() && Present(State(), key) && |DeviceAt(State(), key).parts| < MAX_PARTS
      requires key in geometries && InDevice(geometries[key], DeviceAt(State(), key).id, part)
      modifies this
      ensures Valid()
      ensures var d := DeviceAt(old(State()), key);
        match SortAdd(d.parts, part)
        case None => rc == 1 && State() == old(State())
        case Some(parts) => rc == 0 && State() == WithParts(old(State()), key, parts,
          if old(currentDev) == Some(key) then IndexAfterInsert(d.parts, old(currentPartnum), part)
          else old(currentPartnum))
    {
      hide InDevice, Position, SortAdd, TableOk, DevIndex, VariablesFor, DistinctKeys;
      ghost var t := State();
      PartitionVariable(geometries, t);
      DeviceAtOk(t, key);
      var n := FindDev(key);
      var d := devices[n];
      var k, refused := ScanPosition(d.parts, part);
      SortAddIsInsert(d.parts, part);
      if refused {
        return 1;
      }
      ghost var num :=
        if currentDev == Some(key) then IndexAfterInsert(d.parts, currentPartnum, part) else currentPartnum;
      InsertedOk(t, key, part, num);
      var moved := currentDev == Some(key) && k < |d.parts| && d.parts[k].offset <= d.parts[currentPartnum].offset;
      devices := devices[n := d.(parts := d.parts[..k] + [part] + d.parts[k..], numParts := d.numParts + 1)];
      if moved {
        currentPartnum := currentPartnum + 1;
      }
      assert State() == WithParts(t, key, Insert(d.parts, part), num);
      Refresh(moved);
      rc := 0;
    }

    lemma DeviceAtOk(t: Table, key: DevKey)
      requires TableOk(geometries, t) && Present(t, key)
      ensures DeviceOk(geometries, DeviceAt(t, key))
      ensures t.cur == Some(key) ==> t.num < |DeviceAt(t, key).parts|
    {
    }

    lemma InsertedOk(t: Table, key: DevKey, part: Part, num: nat)
      requires TableOk(geometries, t) && Present(t, key) && |DeviceAt(t, key).parts| < MAX_PARTS
      requires key in geometries && InDevice(geometries[key], DeviceAt(t, key).id, part)
      requires num == if t.cur == Some(key) then IndexAfterInsert(DeviceAt(t, key).parts, t.num, part) else t.num
      ensures var t' := WithParts(t, key, Insert(DeviceAt(t, key).parts, part), num);
        TableOk(geometries, t') && t'.cur == t.cur && (t.cur.Some? ==> Named(geometries, t') == Named(geometries, t))
    {
      hide InDevice, Position, Insert;
      var d := DeviceAt(t, key);
      InsertSorted(d.parts, part);
      InsertMembers(d.parts, part);
      var parts := Insert(d.parts, part);
      assert forall i :: 0 <= i < |parts| ==> parts[i] in parts;
      if t.cur == Some(key) {
        InsertTracks(d.parts, t.num, part);
      }
      WithPartsOk(geometries, t, key, parts, num);
    }

    /** `device_find`, as a position. */
    method FindDev(key: DevKey) returns (n: nat)
      ensures n == DevIndex(devices, key)
    {
      n := 0;
      while n < |devices| && devices[n].id.key != key
        invariant n <= |devices| && forall i :: 0 <= i < n ==> devices[i].id.key != key
      {
        n := n + 1;
      }
    }

    /** `part_add`: validate, then insert. */
    method PartAdd(key: DevKey, part: Part) returns (rc: int)
      requires Valid() && Enabled(geometries, State(), AddPart(key, part))
      modifies this
      ensures Valid() && State() == Step(geometries, old(State()), AddPart(key, part))
      ensures old(currentDev).Some? ==> Named(geometries, State()) == old(Named(geometries, State()))
      ensures rc == 0 || (rc == 1 && State() == old(State()))
    {
      hide InDevice, SortAdd, TableOk, VariablesFor, DevIndex;
      StepOk(geometries, State(), AddPart(key, part));
      DeviceAtOk(State(), key);
      var n := FindDev(key);
      var g := GeometryOf(geometries, key);
      var v := PartValidate(g, devices[n].id, part);
      if v == None {
        return 1;
      }
      rc := PartSortAdd(key, v.value);
    }

    /** `device_del`. */
    method DeviceDel(key: DevKey)
      requires Valid() && Present(State(), key)
      modifies this
      ensures Valid() && State() == Step(geometries, old(State()), DelDevice(key))
    {
      hide TableOk, DevIndex, VariablesFor, DistinctKeys;
      StepOk(geometries, State(), DelDevice(key));
      ghost var t := State();
      PartitionVariable(geometries, t);
      var n := FindDev(key);
      var wasCurrent := currentDev == Some(key);
      devices := devices[..n] + devices[n + 1..];
      if wasCurrent {
        if devices == [] {
          currentDev := None;
        } else {
          currentDev := Some(devices[0].id.key);
          currentPartnum := 0;
        }
      }
      assert State() == WithoutDevice(t, key);
      Refresh(wasCurrent);
    }

    /** `part_del`. A deletion tied behind the current partition moves the number wrongly, as the code does; at
        number 0 the code would look up a partition that does not exist, which `Enabled` excludes. */
    method PartDel(key: DevKey, i: nat)
      requires Valid() && Enabled(geometries, State(), DelPart(key, i))
      modifies this
      ensures Valid() && State() == Step(geometries, old(State()), DelPart(key, i))
      ensures !HitsCurrent(old(State()), DelPart(key, i)) ==>
        Named(geometries, State()) == old(Named(geometries, State()))
    {
      hide InDevice, TableOk, DevIndex, VariablesFor, DistinctKeys;
      StepOk(geometries, State(), DelPart(key, i));
      ghost var t := State();
      PartitionVariable(geometries, t);
      DeviceAtOk(t, key);
      var n := FindDev(key);
      var d := devices[n];
      if d.numParts == 1 {
        DeviceDel(key);
        return;
      }
      var saveNeeded := false;
      if currentDev == Some(key) {
        if i == currentPartnum {
          currentPartnum := 0;
        } else if d.parts[i].offset <= d.parts[currentPartnum].offset {
          currentPartnum := (currentPartnum + 255) % 256;
        }
        saveNeeded := true;
      }
      devices := devices[n := d.(parts := d.parts[..i] + d.parts[i + 1..], numParts := d.numParts - 1)];
      assert State() == DelFrom(t, key, i);
      Refresh(saveNeeded);
    }

    /** `device_add`. */
    method DeviceAdd(dev: Device)
      requires Valid() && Enabled(geometries, State(), AddDevice(dev))
      modifies this
      ensures Valid() && State() == Step(geometries, old(State()), AddDevice(dev))
      ensures old(currentDev).Some? ==> Named(geometries, State()) == old(Named(geometries, State()))
    {
      hide DeviceOk, TableOk, VariablesFor;
      StepOk(geometries, State(), AddDevice(dev));
      ghost var t := State();
      PartitionVariable(geometries, t);
      var saveNeeded := false;
      if devices == [] {
        currentDev, currentPartnum := Some(dev.id.key), 0;
        saveNeeded := true;
      }
      devices := devices + [dev];
      assert t.devs == [] ==> devices == [dev];
      assert State() == Step(geometries, t, AddDevice(dev));
      Refresh(saveNeeded);
    }

    /** The last part of `do_chpart`. */
    method ChangeCurrent(key: DevKey, n: nat)
      requires Valid() && Enabled(geometries, State(), ChangePart(key, n))
      modifies this
      ensures Valid() && State() == Step(geometries, old(State()), ChangePart(key, n))
    {
      hide TableOk, VariablesFor;
      StepOk(geometries, State(), ChangePart(key, n));
      currentDev, currentPartnum := Some(key), n;
      CurrentSave();
    }

    // ----- text in and out

    /** The partition loop of `device_parse`. */
    method ParsePartList(g: Option<Geometry>, id: MtdId, start: nat, s: string) returns (r: Option<(seq<Part>, string)>)
      requires IdOk(id) && start < WRAP && (g.Some? ==> GeometryOk(g.value))
      ensures r == PartsParse(g, id, start, s)
    {
      hide PartParse, Validated;
      var p: string, offset: nat, tmpList: seq<Part> := s, start, [];
      PrefixedNothing(PartsParse(g, id, start, s));
      while p != "" && p[0] != ';'
        invariant offset < WRAP
        invariant PartsParse(g, id, start, s) == Prefixed(tmpList, PartsParse(g, id, offset, p))
        decreases |p|
      {
        PartParseShrinks(p);
        var parsed := PartParse(p);
        if parsed == None {
          return None;
        }
        var (part, rest) := parsed.value;
        if part.offset == OFFSET_NOT_SPECIFIED {
          part := part.(offset := offset);
        }
        var valid := PartValidate(g, id, part);
        if valid == None {
          return None;
        }
        PrefixedStep(tmpList, valid.value, PartsParse(g, id, EndOf(valid.value), rest));
        p, offset, tmpList := rest, EndOf(valid.value), tmpList + [valid.value];
      }
      assert tmpList + [] == tmpList;
      return Some((tmpList, p));
    }

    ghost static function Prefixed(done: seq<Part>, r: Option<(seq<Part>, string)>): Option<(seq<Part>, string)> {
      match r
      case None => None
      case Some((parts, rest)) => Some((done + parts, rest))
    }

    static lemma PrefixedNothing(r: Option<(seq<Part>, string)>)
      ensures Prefixed([], r) == r
    {
      if r.Some? {
        assert [] + r.value.0 == r.value.0;
      }
    }

    static lemma PrefixedStep(done: seq<Part>, p: Part, r: Option<(seq<Part>, string)>)
      ensures Prefixed(done, Prefixed([p], r)) == Prefixed(done + [p], r)
    {
      if r.Some? {
        assert done + ([p] + r.value.0) == done + [p] + r.value.0;
      }
    }

    /** Moving the temporary list into the new device, one `part_sort_add` at a time. */
    method SortParts(parts: seq<Part>) returns (r: Option<seq<Part>>)
      ensures r == SortAll([], parts)
    {
      hide SortAdd, Position;
      var sorted: seq<Part> := [];
      for i := 0 to |parts|
        invariant Sorted(sorted) && SortAll([], parts) == SortAll(sorted, parts[i..])
      {
        var k, refused := ScanPosition(sorted, parts[i]);
        SortAddIsInsert(sorted, parts[i]);
        assert parts[i..][1..] == parts[i + 1..];
        if refused {
          return None;
        }
        InsertSorted(sorted, parts[i]);
        sorted := sorted[..k] + [parts[i]] + sorted[k..];
      }
      return Some(sorted);
    }

    /** `device_parse`. */
    method ParseDevice(s: string) returns (r: Option<(Device, string)>)
      requires IdsOk(ids) && forall k :: k in geometries ==> GeometryOk(geometries[k])
      ensures r == DeviceParse(ids, geometries, devices, s)
    {
      hide PartsParse, SortAll, IndexOf, FindId;
      var n := IndexOf(s, ':');
      if n == |s| {
        return None;
      }
      FindIdOk(ids, s[..n]);
      var id := FindId(ids, s[..n]);
      if id == None {
        return None;
      }
      var start := StartOffset(devices, id.value.key);
      var parsed := ParsePartList(GeometryOf(geometries, id.value.key), id.value, start, s[n + 1..]);
      if parsed == None || parsed.value.0 == [] {
        return None;
      }
      var (parts, rest) := parsed.value;
      var sorted := SortParts(parts);
      if sorted == None {
        return None;
      }
      return Some((Device(id.value, sorted.value, |sorted.value|), if rest == "" then rest else rest[1..]));
    }

    /** `parse_mtdparts`, and the reset of the current partition that `mtdparts_init` does after it. */
    method LoadMtdparts(text: string) returns (rc: int)
      requires Valid() && |text| < MTDPARTS_MAXLEN
      modifies this
      ensures Valid()
      ensures match ParseMtdparts(ids, geometries, text)
        case None => rc == 1 && State() == Table([], None, old(currentPartnum))
        case Some(devs) => rc == 0 && devs != [] && State() == Table(devs, Some(devs[0].id.key), 0)
    {
      hide DeviceParse, DeviceOk;
      devices, currentDev := [], None;
      CurrentSave();
      if !(PREFIX <= text) {
        return 1;
      }
      var p, err := text[|PREFIX|..], 1;
      ghost var parsed := ParseMtdparts(ids, geometries, text);
      while p != ""
        invariant Platform() && currentDev == None && currentPartnum == old(currentPartnum)
        invariant env == Variables(None, None, None)
        invariant err == 1 ==> devices == [] && p == text[|PREFIX|..]
        invariant err == 1 || err == 0
        invariant err == 0 ==> parsed == DevicesParse(ids, geometries, devices, p)
        modifies this`devices
        decreases |p|
      {
        var r := ParseDevice(p);
        if r == None || FindDevice(devices, r.value.0.id.key).Some? {
          devices := [];
          return 1;
        }
        DeviceParseShrinks(ids, geometries, devices, p);
        devices, p, err := devices + [r.value.0], r.value.1, 0;
      }
      if err == 1 {
        return 1;
      }
      ParsedTableOk(ids, geometries, text);
      currentDev, currentPartnum := Some(devices[0].id.key), 0;
      CurrentSave();
      return 0;
    }

    predicate Platform() {
      IdsOk(ids) && forall k :: k in geometries ==> GeometryOk(geometries[k])
    }

    /** The partition loop of `generate_mtdparts`. */
    method PrintPartList(d: Device) returns (text: string)
      requires d.numParts == |d.parts|
      ensures text == PrintParts(d.parts, 0)
    {
      hide PrintPart;
      text := "";
      var expected: nat, partCnt: nat := 0, 0;
      while partCnt < |d.parts|
        invariant partCnt <= |d.parts|
        invariant PrintParts(d.parts, 0) == text + PrintParts(d.parts[partCnt..], expected)
      {
        var part := d.parts[partCnt];
        ghost var was, rest := text, d.parts[partCnt..];
        partCnt := partCnt + 1;
        var piece := PrintPart(part, expected);
        if d.numParts > partCnt {
          piece := piece + ",";
        }
        assert rest[1..] == d.parts[partCnt..];
        assert PrintParts(rest, expected) == piece + PrintParts(rest[1..], EndOf(part));
        text, expected := text + piece, EndOf(part);
        assert was + (piece + PrintParts(rest[1..], expected)) == text + PrintParts(rest[1..], expected);
      }
    }

    /** `generate_mtdparts`, into an unbounded buffer. */
    method GenerateMtdparts() returns (text: string)
      requires Valid()
      ensures text == Generate(devices)
    {
      hide PrintParts, InDevice, Rank;
      if devices == [] {
        return "";
      }
      text := PREFIX;
      var n := 0;
      while n < |devices|
        invariant n <= |devices|
        invariant Generate(devices) == text + PrintDevices(devices[n..])
      {
        var d := devices[n];
        OkHasParts(geometries, d);
        ghost var was, rest := text, devices[n..];
        var parts := PrintPartList(d);
        var piece := d.id.mtdId + ":" + parts + if n + 1 < |devices| then ";" else "";
        n := n + 1;
        assert rest[1..] == devices[n..];
        assert PrintDevices(rest) == piece + PrintDevices(rest[1..]);
        text := text + piece;
        assert was + (piece + PrintDevices(rest[1..])) == text + PrintDevices(rest[1..]);
      }
    }
  }
}
