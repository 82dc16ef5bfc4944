/** What each operation on the partition table adds, removes and selects, and what the text of a device gives. */
module MtdLaws {
  import opened Common
  import opened MtdParts
  import opened MtdText
  import opened MtdTable
  import opened MtdGrammar

  /** The devices with other keys, in their order. */
  function Others(devs: seq<Device>, key: DevKey): seq<Device> {
    if devs == [] then []
    else (if devs[0].id.key == key then [] else [devs[0]]) + Others(devs[1..], key)
  }

  lemma {:induction false} OthersAll(devs: seq<Device>, key: DevKey)
    requires forall i :: 0 <= i < |devs| ==> devs[i].id.key != key
    ensures Others(devs, key) == devs
  {
    if devs != [] {
      OthersAll(devs[1..], key);
    }
  }

  lemma {:induction false} OthersDrop(devs: seq<Device>, n: nat)
    requires DistinctKeys(devs) && n < |devs|
    ensures Others(devs, devs[n].id.key) == devs[..n] + devs[n + 1..]
    decreases n
  {
    var key := devs[n].id.key;
    if n == 0 {
      OthersAll(devs[1..], key);
      assert devs[..0] + devs[1..] == devs[1..];
      assert [] + devs[1..] == devs[1..];
    } else {
      assert devs[1..][n - 1] == devs[n];
      OthersDrop(devs[1..], n - 1);
      assert [devs[0]] + (devs[1..][..n - 1] + devs[1..][n..]) == devs[..n] + devs[n + 1..];
    }
  }

  /** Deleting a device: exactly it disappears. If it was the current one, the first partition of the first device
      left becomes current, or none if none is left. */
  lemma DeviceDeleted(gs: Geometries, t: Table, key: DevKey)
    requires TableOk(gs, t) && Present(t, key)
    ensures var t' := WithoutDevice(t, key);
      && t'.devs == Others(t.devs, key) && TableOk(gs, t')
      && (t.cur == Some(key) ==>
            Named(gs, t') == if t'.devs == [] then None else Some(t'.devs[0].parts[0]))
      && (t.cur != Some(key) ==> Named(gs, t') == Named(gs, t))
  {
    hide DeviceOk;
    WithoutDeviceOk(gs, t, key);
    OthersDrop(t.devs, DevIndex(t.devs, key));
  }

  lemma InsertContents(parts: seq<Part>, p: Part)
    ensures multiset(Insert(parts, p)) == multiset(parts) + multiset{p}
  {
    hide Position;
    var k := Position(parts, p);
    assert parts == parts[..k] + parts[k..];
  }

  lemma RemoveContents(parts: seq<Part>, i: nat)
    requires i < |parts|
    ensures multiset(Remove(parts, i)) + multiset{parts[i]} == multiset(parts)
  {
    assert parts == parts[..i] + [parts[i]] + parts[i + 1..];
  }

  /** Only the device `key` has other partitions than before: `parts`, counted and in the same place. */
  predicate OnlyParts(t: Table, t': Table, key: DevKey, parts: seq<Part>)
    requires Present(t, key)
  {
    && |t'.devs| == |t.devs|
    && forall i :: 0 <= i < |t.devs| ==>
         t'.devs[i] == if t.devs[i].id.key == key then Device(t.devs[i].id, parts, |parts|) else t.devs[i]
  }

  lemma WithPartsIs(t: Table, key: DevKey, parts: seq<Part>, num: nat)
    requires DistinctKeys(t.devs) && Present(t, key)
    ensures OnlyParts(t, WithParts(t, key, parts, num), key, parts) && WithParts(t, key, parts, num).cur == t.cur
  {
    var n := DevIndex(t.devs, key);
    forall i | 0 <= i < |t.devs| && t.devs[i].id.key == key
      ensures i == n
    {
    }
  }

  /** Adding a partition: it is taken exactly when it lies in its device on block boundaries, with its size resolved,
      and is not a second one at offset 0; then the device has it besides what it had, in order of offset. */
  lemma PartAdded(gs: Geometries, t: Table, key: DevKey, p: Part)
    requires TableOk(gs, t) && Enabled(gs, t, AddPart(key, p))
    ensures var d, v, t' := DeviceAt(t, key), Resolved(DeviceAt(t, key).id, p, gs[key]), AddTo(gs, t, key, p);
      if InDevice(gs[key], d.id, v) && (v.offset == 0 ==> forall q :: q in d.parts ==> q.offset != 0) then
        && Present(t', key)
        && multiset(DeviceAt(t', key).parts) == multiset(d.parts) + multiset{v} && Sorted(DeviceAt(t', key).parts)
        && OnlyParts(t, t', key, DeviceAt(t', key).parts) && t'.cur == t.cur
      else t' == t
  {
    hide InDevice, Position, Insert;
    var d := DeviceAt(t, key);
    KnownGeometry(gs, d);
    var v := Resolved(d.id, p, gs[key]);
    SortAddIsInsert(d.parts, v);
    FirstOffset(d.parts);
    if InDevice(gs[key], d.id, v) && !(d.parts != [] && d.parts[0].offset == v.offset == 0) {
      InsertContents(d.parts, v);
      InsertSorted(d.parts, v);
      var t' := AddTo(gs, t, key, p);
      WithPartsIs(t, key, Insert(d.parts, v), t'.num);
      SameDevice(t, key, Insert(d.parts, v), t'.num);
    }
  }

  lemma KnownGeometry(gs: Geometries, d: Device)
    requires DeviceOk(gs, d)
    ensures d.id.key in gs && Sorted(d.parts) && d.numParts == |d.parts| > 0
  {
  }

  lemma FirstOffset(parts: seq<Part>)
    requires Sorted(parts)
    ensures (parts != [] && parts[0].offset == 0) <==> exists q :: q in parts && q.offset == 0
  {
    if parts != [] && parts[0].offset == 0 {
      assert parts[0] in parts;
    }
  }

  /** Deleting a partition: exactly it disappears, the last one together with its device. If it was the current one,
      the first partition of its device becomes current, or what a deleted device leaves. */
  lemma PartDeleted(gs: Geometries, t: Table, key: DevKey, i: nat)
    requires TableOk(gs, t) && Enabled(gs, t, DelPart(key, i))
    ensures var d, t' := DeviceAt(t, key), DelFrom(t, key, i);
      && TableOk(gs, t')
      && (|d.parts| == 1 ==> t' == WithoutDevice(t, key))
      && (|d.parts| > 1 ==>
            && Present(t', key) && multiset(DeviceAt(t', key).parts) + multiset{d.parts[i]} == multiset(d.parts)
            && Sorted(DeviceAt(t', key).parts) && OnlyParts(t, t', key, DeviceAt(t', key).parts)
            && (t.cur == Some(key) && i == t.num ==> Named(gs, t') == Some(DeviceAt(t', key).parts[0])))
  {
    hide InDevice, DeviceOk;
    var d := DeviceAt(t, key);
    DelFromOk(gs, t, key, i);
    KnownGeometry(gs, d);
    if |d.parts| > 1 {
      var parts, num := Remove(d.parts, i), DelFrom(t, key, i).num;
      RemoveContents(d.parts, i);
      RemoveSorted(d.parts, i);
      WithPartsIs(t, key, parts, num);
      SameDevice(t, key, parts, num);
    }
  }

  /** A new device goes to the end of the list; the first one of all brings its first partition as current one. */
  lemma DeviceAdded(gs: Geometries, t: Table, dev: Device)
    requires TableOk(gs, t) && Enabled(gs, t, AddDevice(dev))
    ensures var t' := Step(gs, t, AddDevice(dev));
      && TableOk(gs, t') && t'.devs == t.devs + [dev]
      && Named(gs, t') == if t.devs == [] then Some(dev.parts[0]) else Named(gs, t)
  {
    hide InDevice, DeviceOk;
    StepOk(gs, t, AddDevice(dev));
    KnownGeometry(gs, dev);
    if t.devs == [] {
      assert [] + [dev] == [dev];
    }
  }

  /** Choosing a partition makes it the current one and changes nothing else. */
  lemma PartChosen(gs: Geometries, t: Table, key: DevKey, n: nat)
    requires TableOk(gs, t) && Enabled(gs, t, ChangePart(key, n))
    ensures var t' := Step(gs, t, ChangePart(key, n));
      TableOk(gs, t') && t'.devs == t.devs && Named(gs, t') == Some(DeviceAt(t, key).parts[n])
  {
    StepOk(gs, t, ChangePart(key, n));
  }

  // ----- the text of a device

  /** How many partitions start at offset 0. */
  function Zeros(parts: seq<Part>): nat {
    if parts == [] then 0 else (if parts[0].offset == 0 then 1 else 0) + Zeros(parts[1..])
  }

  lemma {:induction false} ZerosConcat(a: seq<Part>, b: seq<Part>)
    ensures Zeros(a + b) == Zeros(a) + Zeros(b)
    decreases |a|
  {
    if a == [] {
      assert a + b == b;
    } else {
      assert (a + b)[1..] == a[1..] + b;
      ZerosConcat(a[1..], b);
    }
  }

  lemma {:induction false} ZerosMember(parts: seq<Part>)
    ensures Zeros(parts) > 0 <==> exists q :: q in parts && q.offset == 0
  {
    if parts != [] {
      ZerosMember(parts[1..]);
    }
  }

  lemma ZerosInserted(parts: seq<Part>, p: Part)
    ensures Zeros(Insert(parts, p)) == Zeros(parts) + Zeros([p])
  {
    hide Position;
    var k := Position(parts, p);
    ZerosConcat(parts[..k], [p]);
    ZerosConcat(parts[..k] + [p], parts[k..]);
    ZerosConcat(parts[..k], parts[k..]);
    assert parts == parts[..k] + parts[k..];
  }

  /** Sorting partitions in, one after the other, works exactly when at most one of all starts at offset 0. */
  lemma {:induction false} SortAllIff(parts: seq<Part>, news: seq<Part>)
    requires Sorted(parts) && Zeros(parts) <= 1
    ensures SortAll(parts, news).Some? <==> Zeros(parts) + Zeros(news) <= 1
    ensures SortAll(parts, news).Some? ==>
      Sorted(SortAll(parts, news).value) && multiset(SortAll(parts, news).value) == multiset(parts) + multiset(news)
    decreases |news|
  {
    hide Insert, Position;
    if news != [] {
      var p := news[0];
      SortAddIsInsert(parts, p);
      FirstOffset(parts);
      ZerosMember(parts);
      ZerosOne(p);
      assert news == [p] + news[1..];
      if SortAdd(parts, p).Some? {
        InsertSorted(parts, p);
        InsertContents(parts, p);
        ZerosInserted(parts, p);
        SortAllIff(Insert(parts, p), news[1..]);
      }
    }
  }

  lemma ZerosOne(p: Part)
    ensures Zeros([p]) == if p.offset == 0 then 1 else 0
  {
    assert [p][1..] == [];
  }

  /** `id` is the first one with this name. */
  ghost predicate FirstNamed(ids: seq<MtdId>, name: string, id: MtdId) {
    exists i :: 0 <= i < |ids| && ids[i] == id && id.mtdId == name && forall j :: 0 <= j < i ==> ids[j].mtdId != name
  }

  lemma {:induction false} FindIdIs(ids: seq<MtdId>, name: string)
    ensures FindId(ids, name) == None <==> forall i :: 0 <= i < |ids| ==> ids[i].mtdId != name
    ensures FindId(ids, name).Some? ==> FirstNamed(ids, name, FindId(ids, name).value)
  {
    if ids != [] {
      FindIdIs(ids[1..], name);
      assert forall i :: 0 < i < |ids| ==> ids[i] == ids[1..][i - 1];
      if ids[0].mtdId == name {
        assert FirstNamed(ids, name, ids[0]);
      } else if FindId(ids, name).Some? {
        var id := FindId(ids, name).value;
        var i :| 0 <= i < |ids[1..]| && ids[1..][i] == id && id.mtdId == name
                 && forall j :: 0 <= j < i ==> ids[1..][j].mtdId != name;
        assert ids[i + 1] == id && forall j :: 0 <= j < i + 1 ==> ids[j].mtdId != name;
      }
    }
  }

  /** The text of a device: a name, a colon, and its partitions. */
  function DeviceText(name: string, defs: seq<Def>, comma: bool): string {
    name + ":" + ListText(defs, comma)
  }

  /** What a device text gives: the first id of that name, and a layout of its partitions in order of offset. */
  ghost predicate DeviceIs(ids: seq<MtdId>, gs: Geometries, devs: seq<Device>, name: string, defs: seq<Def>,
                           comma: bool, d: Device)
  {
    && FirstNamed(ids, name, d.id) && d.numParts == |d.parts| && Sorted(d.parts)
    && exists vs :: vs != [] && LaidOut(GeometryOf(gs, d.id.key), d.id, StartOffset(devs, d.id.key), defs, comma, vs)
                    && Zeros(vs) <= 1 && multiset(d.parts) == multiset(vs)
  }

  lemma StartFits(devs: seq<Device>, key: DevKey)
    ensures StartOffset(devs, key) < WRAP
  {
  }

  lemma {:induction false} FoundIdOk(ids: seq<MtdId>, name: string)
    requires IdsOk(ids) && FindId(ids, name).Some?
    ensures IdOk(FindId(ids, name).value)
  {
    if ids[0].mtdId != name {
      FoundIdOk(ids[1..], name);
    }
  }

  /** A device text is accepted with such a device, and the rest begins after its semicolon. */
  lemma DeviceRead(ids: seq<MtdId>, gs: Geometries, devs: seq<Device>, name: string, defs: seq<Def>, comma: bool,
                   tail: string)
    requires IdsOk(ids) && ':' !in name && DefsOk(defs) && (tail == "" || tail[0] == ';')
    ensures var r := DeviceParse(ids, gs, devs, DeviceText(name, defs, comma) + tail);
      r.Some? ==> DeviceIs(ids, gs, devs, name, defs, comma, r.value.0)
                  && r.value.1 == if tail == "" then "" else tail[1..]
  {
    hide PartsParse, LaidOut, SortAll, IndexOf, Sorted, ListText, DefsOk, StartOffset, FirstNamed, FindId;
    var text := ListText(defs, comma) + tail;
    var s := DeviceText(name, defs, comma) + tail;
    assert s == name + [':'] + text;
    IndexOfConcat(name, ':', text);
    assert s[..|name|] == name && s[|name| + 1..] == text;
    FindIdIs(ids, name);
    if DeviceParse(ids, gs, devs, s).Some? {
      FoundIdOk(ids, name);
      var id := FindId(ids, name).value;
      StartFits(devs, id.key);
      ListRead(GeometryOf(gs, id.key), id, StartOffset(devs, id.key), defs, comma, tail);
      var vs := PartsParse(GeometryOf(gs, id.key), id, StartOffset(devs, id.key), text).value.0;
      NothingSorted();
      SortAllIff([], vs);
      assert multiset([] + vs) == multiset(vs);
    }
  }

  lemma NothingSorted()
    ensures Sorted([]) && Zeros([]) == 0
  {
  }

  /** A device text is refused exactly when no id has its name, or its partitions have no layout, or two of them would
      start at offset 0. */
  lemma DeviceRefused(ids: seq<MtdId>, gs: Geometries, devs: seq<Device>, name: string, defs: seq<Def>, comma: bool,
                      tail: string)
    requires IdsOk(ids) && ':' !in name && DefsOk(defs) && (tail == "" || tail[0] == ';')
    ensures DeviceParse(ids, gs, devs, DeviceText(name, defs, comma) + tail) == None <==>
      forall d: Device :: !DeviceIs(ids, gs, devs, name, defs, comma, d)
  {
    hide PartsParse, LaidOut, SortAll, IndexOf, Sorted, ListText, DefsOk, StartOffset, FirstNamed, FindId;
    DeviceRead(ids, gs, devs, name, defs, comma, tail);
    var text := ListText(defs, comma) + tail;
    var s := DeviceText(name, defs, comma) + tail;
    assert s == name + [':'] + text;
    IndexOfConcat(name, ':', text);
    assert s[..|name|] == name && s[|name| + 1..] == text;
    forall d: Device | DeviceIs(ids, gs, devs, name, defs, comma, d)
      ensures DeviceParse(ids, gs, devs, s).Some?
    {
      NamedIsFound(ids, name, d.id);
      FoundIdOk(ids, name);
      StartFits(devs, d.id.key);
      var vs :| vs != [] && LaidOut(GeometryOf(gs, d.id.key), d.id, StartOffset(devs, d.id.key), defs, comma, vs)
                && Zeros(vs) <= 1 && multiset(d.parts) == multiset(vs);
      ListRead(GeometryOf(gs, d.id.key), d.id, StartOffset(devs, d.id.key), defs, comma, tail);
      NothingSorted();
      SortAllIff([], vs);
    }
  }

  lemma {:induction false} NamedIsFound(ids: seq<MtdId>, name: string, id: MtdId)
    requires FirstNamed(ids, name, id)
    ensures FindId(ids, name) == Some(id)
  {
    var i :| 0 <= i < |ids| && ids[i] == id && id.mtdId == name && forall j :: 0 <= j < i ==> ids[j].mtdId != name;
    if i > 0 {
      assert ids[1..][i - 1] == id && forall j :: 0 <= j < i - 1 ==> ids[1..][j].mtdId != name;
      NamedIsFound(ids[1..], name, id);
    }
  }

  predicate BeginsWith(s: string, name: string, defs: seq<Def>, comma: bool, tail: string) {
    ':' !in name && DefsOk(defs) && (tail == "" || tail[0] == ';') && s == DeviceText(name, defs, comma) + tail
  }

  /** Nothing else is accepted: such a text begins with a device. */
  lemma DeviceLeads(ids: seq<MtdId>, gs: Geometries, devs: seq<Device>, s: string)
    requires DeviceParse(ids, gs, devs, s).Some?
    ensures exists name, defs, comma, tail :: BeginsWith(s, name, defs, comma, tail)
  {
    hide PartsParse, SortAll, IndexOf, ListText, DefsOk, StartOffset, FindId;
    var n := IndexOf(s, ':');
    var id, text := FindId(ids, s[..n]).value, s[n + 1..];
    var g, start := GeometryOf(gs, id.key), StartOffset(devs, id.key);
    var tail := PartsParse(g, id, start, text).value.1;
    ListLeads(g, id, start, text);
    PartsParseSuffix(g, id, start, text);
    var defs, comma :| DefsOk(defs) && text == ListText(defs, comma) + tail;
    assert s == s[..n] + ":" + text;
    assert BeginsWith(s, s[..n], defs, comma, tail);
  }

  // ----- the environment variables

  /** `mtddevnum` is the position of the current partition among all, modulo 16 bits, `mtddevname` its name, and
      `partition` its device and number; without a current partition none of them is set. */
  lemma VariablesAre(gs: Geometries, t: Table)
    requires TableOk(gs, t)
    ensures t.cur == None ==> VariablesFor(gs, t) == Variables(None, None, None)
    ensures t.cur.Some? ==> exists k: nat ::
      && k < |AllParts(t.devs)| && Named(gs, t) == Some(AllParts(t.devs)[k])
      && VariablesFor(gs, t) == Variables(Some(k % 65536), Some(AllParts(t.devs)[k].name), Some((t.cur.value, t.num)))
  {
    hide AllParts, DevIndex, DeviceOk, Rank;
    if t.cur.Some? {
      RankIsPosition(gs, t);
    }
  }
}
